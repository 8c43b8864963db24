/** The request-side decisions of the question endpoints: how `getQuestions`
    turns `topic_id` and `parent_id` into query filters, and what
    `createQuestion` validates and writes. */
module QuestionQueries {
  import opened Common
  import opened Strings

  // ---- filters of getQuestions ----

  /** `topic_id` as it arrives in the query: one value, or an array when the
      parameter is repeated. */
  datatype TopicParam = TopicText(s: string) | TopicArray(values: seq<string>)

  datatype TopicFilter =
    | AnyTopic                            // no filter
    | TopicIn(values: seq<string>)        // `.in('topic_id', array)`
    | TopicIdsIn(ids: seq<Option<int>>)   // `.in('topic_id', parsed ids)`, `None` for NaN
    | TopicEq(value: string)              // `.eq('topic_id', text)`

  /** The parsed pieces of a comma-separated list: split on ',', each piece
      trimmed and read with `parseInt(_, 10)`. */
  function TopicIds(s: string): (ids: seq<Option<int>>)
    ensures |ids| == |Split(s, ',')| == Count(s, ',') + 1
    ensures forall k :: 0 <= k < |ids| ==> ids[k] == ParseInt(Trim(Split(s, ',')[k]))
  {
    SplitShape(s, ',');
    ParsedPieces(Split(s, ','))
  }

  /** `.map(id => parseInt(id.trim(), 10))` over the pieces. */
  function ParsedPieces(parts: seq<string>): (ids: seq<Option<int>>)
    ensures |ids| == |parts|
    ensures forall k :: 0 <= k < |parts| ==> ids[k] == ParseInt(Trim(parts[k]))
  {
    if parts == [] then [] else [ParseInt(Trim(parts[0]))] + ParsedPieces(parts[1..])
  }

  /** An array is used as it is, text holding a comma is parsed, other
      non-empty text is matched as it is, and a missing or empty value sets
      no filter. */
  function TopicFilterOf(p: Option<TopicParam>): (f: TopicFilter)
    ensures f == AnyTopic <==> p.None? || p.value == TopicText("")
    ensures f.TopicIn? <==> p.Some? && p.value.TopicArray?
    ensures f.TopicIdsIn? <==> p.Some? && p.value.TopicText? && ',' in p.value.s
    ensures f.TopicEq? <==> p.Some? && p.value.TopicText? && p.value.s != "" && ',' !in p.value.s
  {
    match p
    case None => AnyTopic
    case Some(TopicArray(values)) => TopicIn(values)
    case Some(TopicText(s)) =>
      if s == "" then AnyTopic
      else if ',' in s then TopicIdsIn(TopicIds(s))
      else TopicEq(s)
  }

  function JoinIds(ns: seq<int>): (parts: seq<string>)
    ensures |parts| == |ns| && forall k :: 0 <= k < |ns| ==> parts[k] == IntToString(ns[k])
  {
    seq(|ns|, k requires 0 <= k < |ns| => IntToString(ns[k]))
  }

  lemma NoCommaInNumber(n: int)
    ensures ',' !in IntToString(n)
  {
    var s := IntToString(n);
    if n >= 0 {
      assert forall i :: 0 <= i < |s| ==> IsDigit(s[i]);
    } else {
      var d := NatToString(-n);
      assert s == "-" + d;
      forall i | 0 <= i < |s| ensures s[i] != ',' {
        if i > 0 {
          assert s[i] == d[i - 1];
        }
      }
    }
  }

  lemma NumberTrimmed(n: int)
    ensures Trim(IntToString(n)) == IntToString(n)
  {
    var s := IntToString(n);
    if n >= 0 {
      assert IsDigit(s[0]) && IsDigit(s[|s| - 1]);
    } else {
      var d := NatToString(-n);
      assert s == "-" + d;
      assert s[|s| - 1] == d[|d| - 1];
      assert IsDigit(d[|d| - 1]);
    }
    TrimNoSpace(s);
  }

  /** The written ids split back into their own texts. */
  lemma SplitJoinedIds(ns: seq<int>)
    requires |ns| >= 1
    ensures Split(Join(JoinIds(ns), ','), ',') == JoinIds(ns)
  {
    var parts := JoinIds(ns);
    forall k | 0 <= k < |parts| ensures ',' !in parts[k] {
      NoCommaInNumber(ns[k]);
    }
    SplitJoin(parts, ',');
  }

  lemma CommaInJoin(parts: seq<string>)
    requires |parts| >= 2
    ensures ',' in Join(parts, ',')
  {
    assert Join(parts, ',')[|parts[0]|] == ',';
  }

  /** Integer ids written as "a,b,..." are parsed back as exactly those
      ids, in order. */
  lemma {:induction false} TopicIdsOfJoined(ns: seq<int>)
    requires |ns| >= 1
    ensures TopicIds(Join(JoinIds(ns), ',')) == seq(|ns|, k requires 0 <= k < |ns| => Some(ns[k]))
  {
    var s := Join(JoinIds(ns), ',');
    SplitJoinedIds(ns);
    var ids := TopicIds(s);
    forall k | 0 <= k < |ns| ensures ids[k] == Some(ns[k]) {
      NumberTrimmed(ns[k]);
      ParseIntToString(ns[k]);
    }
  }

  /** Two or more ids joined with commas select exactly those topics. */
  lemma TopicIdsRoundTrip(ns: seq<int>)
    requires |ns| >= 2
    ensures TopicFilterOf(Some(TopicText(Join(JoinIds(ns), ','))))
      == TopicIdsIn(seq(|ns|, k requires 0 <= k < |ns| => Some(ns[k])))
  {
    CommaInJoin(JoinIds(ns));
    TopicIdsOfJoined(ns);
  }

  lemma SplitExample(s: string)
    requires s == " 4 , 7"
    ensures Split(s, ',') == [" 4 ", " 7"]
  {
    var pieces := [" 4 ", " 7"];
    assert Join(pieces, ',') == s by {
      assert pieces[1..] == [" 7"];
    }
    assert ',' !in pieces[0] && ',' !in pieces[1];
    SplitJoin(pieces, ',');
  }

  /** A digit with white space around it trims to the digit alone. */
  lemma TrimPadded(c: char)
    requires IsDigit(c)
    ensures Trim([' ', c, ' ']) == [c] && Trim([' ', c]) == [c]
  {
    assert !IsSpace(c);
    var a := [' ', c, ' '];
    assert a[1..] == [c, ' '];
    assert TrimStart([c, ' ']) == [c, ' '];
    assert TrimStart(a) == [c, ' '];
    assert [c, ' '][..1] == [c];
    assert TrimEnd([c]) == [c];
    assert TrimEnd([c, ' ']) == [c];
    var b := [' ', c];
    assert b[1..] == [c];
    assert TrimStart([c]) == [c];
    assert TrimStart(b) == [c];
  }

  lemma TopicIdsOfPieces(s: string, c: char, d: char)
    requires IsDigit(c) && IsDigit(d)
    requires Split(s, ',') == [[' ', c, ' '], [' ', d]]
    ensures TopicIds(s) == [Some(DigitValue(c)), Some(DigitValue(d))]
  {
    ParsedPiecesOfTwo([' ', c, ' '], [' ', d]);
    ParsePadded(c);
    ParsePadded(d);
  }

  lemma ParsedPiecesOfTwo(p: string, q: string)
    ensures ParsedPieces([p, q]) == [ParseInt(Trim(p)), ParseInt(Trim(q))]
  {
    assert [p, q][1..] == [q];
    assert [q][1..] == [];
  }

  lemma ParsePadded(c: char)
    requires IsDigit(c)
    ensures ParseInt(Trim([' ', c, ' '])) == Some(DigitValue(c)) && ParseInt(Trim([' ', c])) == Some(DigitValue(c))
  {
    TrimPadded(c);
    ParseOneDigit(c);
  }

  lemma ParseOneDigit(c: char)
    requires IsDigit(c)
    ensures ParseInt([c]) == Some(DigitValue(c))
  {
    var d := [c];
    assert DigitsValue(d) == DigitValue(c) by {
      assert d[..|d| - 1] == [];
    }
    ParseDigits(d);
  }

  /** White space around the pieces is ignored: " 4 , 7" names topics 4 and 7. */
  lemma TopicIdsExample(s: string)
    requires s == " 4 , 7"
    ensures TopicIds(s) == [Some(4), Some(7)]
  {
    SplitExample(s);
    assert " 4 " == [' ', '4', ' '] && " 7" == [' ', '7'];
    TopicIdsOfPieces(s, '4', '7');
  }

  datatype ParentFilter = NoParentFilter | ParentIsNull | ParentEq(value: string)

  /** `parent_id`: absent sets no filter, the text "null" asks for top-level
      questions, anything else (even empty text) is matched as it is. */
  function ParentFilterOf(p: Option<string>): (f: ParentFilter)
    ensures f == NoParentFilter <==> p.None?
    ensures f == ParentIsNull <==> p == Some("null")
    ensures f.ParentEq? <==> p.Some? && p.value != "null"
    ensures f.ParentEq? ==> f.value == p.value
  {
    match p
    case None => NoParentFilter
    case Some(v) => if v == "null" then ParentIsNull else ParentEq(v)
  }

  // ---- createQuestion ----

  /** The body fields the creation reads; the rest are copied as they are
      and are not modelled. `kind` is the body's `type`. */
  datatype QuestionDraft = QuestionDraft(
    number: Option<string>,
    marks: Option<int>,
    kind: Option<string>,
    difficulty: Option<string>,
    parentId: Option<int>,
    createdBy: Option<int>)

  /** The status, the rows written to `questions` (the main question first,
      then the sub-questions), and whether the response carries
      `sub_questions`. */
  datatype CreateQuestionOutcome = CreateQuestionOutcome(status: int, written: seq<QuestionDraft>, withSubs: bool)

  predicate ValidQuestion(q: QuestionDraft) {
    IntTruthy(q.marks) && TextTruthy(q.kind) && TextTruthy(q.difficulty)
  }

  /** Each sub-question as sent, with `parent_id` set to the new question and
      `created_by` to the caller. */
  function StampSubs(subs: seq<QuestionDraft>, newId: int, caller: Caller): (r: seq<QuestionDraft>)
    ensures |r| == |subs|
    ensures forall k :: 0 <= k < |subs| ==>
      r[k].parentId == Some(newId) && r[k].createdBy == Some(caller.id)
      && r[k].(parentId := subs[k].parentId, createdBy := subs[k].createdBy) == subs[k]
  {
    seq(|subs|, k requires 0 <= k < |subs| => subs[k].(parentId := Some(newId), createdBy := Some(caller.id)))
  }

  /** `createQuestion`. `subs` is `sub_questions` when it is an array;
      `insertOk`/`newId` describe the main insert and `subsOk` the single
      insert of all sub-questions. */
  function CreateQuestion(q: QuestionDraft, subs: Option<seq<QuestionDraft>>, caller: Caller,
                          insertOk: bool, newId: int, subsOk: bool): (o: CreateQuestionOutcome)
    ensures o.status == 400 <==> !ValidQuestion(q)
    ensures o.status == 400 || o.status == 500 ==> o.written == [] && !o.withSubs
    ensures o.status == 201 <==> ValidQuestion(q) && insertOk
    ensures o.status == 201 ==> |o.written| >= 1 && o.written[0] == q.(createdBy := Some(caller.id))
    ensures o.withSubs <==> o.status == 201 && subs.Some? && subs.value != [] && subsOk
    ensures o.withSubs ==> o.written[1..] == StampSubs(subs.value, newId, caller)
    ensures !o.withSubs ==> |o.written| <= 1
  {
    if !ValidQuestion(q) then CreateQuestionOutcome(400, [], false)
    else if !insertOk then CreateQuestionOutcome(500, [], false)
    else
      var main := q.(createdBy := Some(caller.id));
      if subs.Some? && |subs.value| > 0 && subsOk
      then CreateQuestionOutcome(201, [main] + StampSubs(subs.value, newId, caller), true)
      else CreateQuestionOutcome(201, [main], false)
  }

  /** Zero marks count as missing. */
  lemma ZeroMarksRejected(q: QuestionDraft, subs: Option<seq<QuestionDraft>>, caller: Caller,
                          insertOk: bool, newId: int, subsOk: bool)
    requires q.marks == Some(0)
    ensures CreateQuestion(q, subs, caller, insertOk, newId, subsOk).status == 400
  {
  }

  /** Every written sub-question is a child of the written question and
      belongs to the caller, whatever `parent_id` or `created_by` it was
      sent with; sub-questions are not validated. */
  lemma SubsAreChildren(q: QuestionDraft, subs: Option<seq<QuestionDraft>>, caller: Caller,
                        insertOk: bool, newId: int, subsOk: bool)
    ensures var o := CreateQuestion(q, subs, caller, insertOk, newId, subsOk);
      forall k :: 1 <= k < |o.written| ==>
        o.written[k].parentId == Some(newId) && o.written[k].createdBy == o.written[0].createdBy
  {
  }
}
