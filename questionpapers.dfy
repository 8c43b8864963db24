/** Question papers: the required fields of a new paper, the
    `question_paper_questions` rows that place questions in a paper, the
    replace-all rule of an update, the creator-or-admin rule, and the shape of
    a paper's questions on read. The two tables are the fields of
    `PaperStore`; each store call that can fail is a boolean parameter. */
module QuestionPapers {
  import opened Common
  import opened Uploads

  /** The body fields of a paper; `None` is a field the request leaves out. */
  datatype PaperFields = PaperFields(
    title: Option<string>,
    subjectId: Option<int>,
    gradeId: Option<int>,
    assessmentType: Option<string>,
    assessmentDate: Option<string>,
    instructions: Option<string>)

  /** The body fields of an update. `None` is a field the body leaves out
      (`undefined`, which drops out of the update), `Some(None)` a field
      sent as `null` (which clears the column) and `Some(Some(v))` a value. */
  datatype PaperPatch = PaperPatch(
    title: Option<Option<string>>,
    subjectId: Option<Option<int>>,
    gradeId: Option<Option<int>>,
    assessmentType: Option<Option<string>>,
    assessmentDate: Option<Option<string>>,
    instructions: Option<Option<string>>)

  /** A `question_papers` row: its fields, its creator and its owner
      (`created_by` and `user_id`, both the creating caller). */
  datatype Paper = Paper(fields: PaperFields, createdBy: Option<int>, userId: Option<int>)

  /** A `question_paper_questions` row. */
  datatype Entry = Entry(paperId: int, questionId: int, order: int)

  /** One element of the `questions` array of an update: a question id and
      an optional position. */
  datatype UpdateItem = UpdateItem(id: int, order: Option<int>)

  /** The `questions` row as the read and the PDF use it. */
  datatype QuestionRow = QuestionRow(
    id: int,
    number: Option<string>,
    marks: Option<int>,
    description: Option<string>,
    text: Option<string>,
    latex: Option<string>)

  /** A create is refused (400) unless title, subject and grade are truthy. */
  predicate HasRequiredFields(f: PaperFields) {
    TextTruthy(f.title) && IntTruthy(f.subjectId) && IntTruthy(f.gradeId)
  }

  // ---- entry construction ----

  /** Rows for `ids`, numbered from `first` on. */
  function NumberedEntries(paperId: int, ids: seq<int>, first: int): (es: seq<Entry>)
    ensures |es| == |ids|
    ensures forall k :: 0 <= k < |es| ==> es[k] == Entry(paperId, ids[k], first + k)
  {
    if ids == [] then [] else [Entry(paperId, ids[0], first)] + NumberedEntries(paperId, ids[1..], first + 1)
  }

  /** The rows a create inserts: question `k` of the list at position
      `k + 1`; none when the list is absent or empty. */
  function CreateEntries(paperId: int, questionIds: Option<seq<int>>): (es: seq<Entry>)
    ensures questionIds.None? ==> es == []
    ensures questionIds.Some? ==> |es| == |questionIds.value|
    ensures questionIds.Some? ==> forall k :: 0 <= k < |es| ==> es[k] == Entry(paperId, questionIds.value[k], k + 1)
  {
    if questionIds.None? then [] else NumberedEntries(paperId, questionIds.value, 1)
  }

  /** `q.order || index + 1`: a missing or 0 position falls back to the
      1-based index. */
  function EntryOrder(item: UpdateItem, index: nat): int {
    if IntTruthy(item.order) then item.order.value else index + 1
  }

  function UpdateEntriesFrom(paperId: int, items: seq<UpdateItem>, first: nat): (es: seq<Entry>)
    ensures |es| == |items|
    ensures forall k :: 0 <= k < |es| ==> es[k] == Entry(paperId, items[k].id, EntryOrder(items[k], first + k))
  {
    if items == [] then [] else [Entry(paperId, items[0].id, EntryOrder(items[0], first))] + UpdateEntriesFrom(paperId, items[1..], first + 1)
  }

  /** The rows an update inserts for its `questions` array. */
  function UpdateEntries(paperId: int, items: seq<UpdateItem>): (es: seq<Entry>)
    ensures |es| == |items|
    ensures forall k :: 0 <= k < |es| ==> es[k].paperId == paperId && es[k].questionId == items[k].id
    ensures forall k :: 0 <= k < |es| ==> es[k].order == (if IntTruthy(items[k].order) then items[k].order.value else k + 1)
  {
    UpdateEntriesFrom(paperId, items, 0)
  }

  function ItemIds(items: seq<UpdateItem>): seq<int> {
    seq(|items|, k requires 0 <= k < |items| => items[k].id)
  }

  /** Without explicit positions an update numbers its questions exactly as
      a create does. */
  lemma UpdateWithoutOrdersNumbersLikeCreate(paperId: int, items: seq<UpdateItem>)
    requires forall k :: 0 <= k < |items| ==> !IntTruthy(items[k].order)
    ensures UpdateEntries(paperId, items) == CreateEntries(paperId, Some(ItemIds(items)))
  {
    var u, c := UpdateEntries(paperId, items), CreateEntries(paperId, Some(ItemIds(items)));
    assert |u| == |c|;
    forall k | 0 <= k < |u| ensures u[k] == c[k] {
      assert u[k].order == k + 1;
    }
  }

  /** Explicit and fallback positions are not reconciled: a question given
      position 2 and a following one without a position share position 2. */
  lemma UpdateOrdersMayCollide()
    ensures var es := UpdateEntries(7, [UpdateItem(10, Some(2)), UpdateItem(11, None)]);
      es[0].order == 2 && es[1].order == 2
  {
  }

  /** Create numbers its rows 1, 2, 3, ... so they are already in the
      ascending `question_order` in which they are read back. */
  predicate SortedByOrder(es: seq<Entry>) {
    forall i, j :: 0 <= i < j < |es| ==> es[i].order < es[j].order
  }

  lemma CreateEntriesSorted(paperId: int, questionIds: Option<seq<int>>)
    ensures SortedByOrder(CreateEntries(paperId, questionIds))
  {
  }

  // ---- filters over the entry table ----

  /** The rows of one paper, in table order. */
  function EntriesOf(es: seq<Entry>, paperId: int): (r: seq<Entry>)
    ensures forall e :: e in r <==> e in es && e.paperId == paperId
  {
    if es == [] then []
    else (if es[0].paperId == paperId then [es[0]] else []) + EntriesOf(es[1..], paperId)
  }

  /** The table after `.delete().eq('question_paper_id', paperId)`. */
  function EntriesWithout(es: seq<Entry>, paperId: int): (r: seq<Entry>)
    ensures forall e :: e in r <==> e in es && e.paperId != paperId
  {
    if es == [] then []
    else (if es[0].paperId != paperId then [es[0]] else []) + EntriesWithout(es[1..], paperId)
  }

  lemma {:induction false} EntriesOfConcat(a: seq<Entry>, b: seq<Entry>, paperId: int)
    ensures EntriesOf(a + b, paperId) == EntriesOf(a, paperId) + EntriesOf(b, paperId)
  {
    if a == [] {
      assert a + b == b;
    } else {
      assert (a + b)[1..] == a[1..] + b;
      EntriesOfConcat(a[1..], b, paperId);
    }
  }

  lemma {:induction false} EntriesOfAll(es: seq<Entry>, paperId: int)
    requires forall k :: 0 <= k < |es| ==> es[k].paperId == paperId
    ensures EntriesOf(es, paperId) == es
  {
    if es != [] {
      EntriesOfAll(es[1..], paperId);
    }
  }

  lemma {:induction false} EntriesOfNone(es: seq<Entry>, paperId: int)
    requires forall k :: 0 <= k < |es| ==> es[k].paperId != paperId
    ensures EntriesOf(es, paperId) == []
  {
    if es != [] {
      EntriesOfNone(es[1..], paperId);
    }
  }

  /** The removal keeps every other paper's rows as they were. */
  lemma {:induction false} EntriesOfWithout(es: seq<Entry>, removed: int, paperId: int)
    ensures EntriesOf(EntriesWithout(es, removed), paperId) == if paperId == removed then [] else EntriesOf(es, paperId)
  {
    if es != [] {
      EntriesOfWithout(es[1..], removed, paperId);
      var head := if es[0].paperId != removed then [es[0]] else [];
      EntriesOfConcat(head, EntriesWithout(es[1..], removed), paperId);
    }
  }

  /** Rows appended for a paper that had none are all that paper has. */
  lemma NewPaperEntries(es: seq<Entry>, added: seq<Entry>, paperId: int)
    requires forall e :: e in es ==> e.paperId != paperId
    requires forall k :: 0 <= k < |added| ==> added[k].paperId == paperId
    ensures EntriesOf(es + added, paperId) == added
  {
    forall k | 0 <= k < |es| ensures es[k].paperId != paperId {
      assert es[k] in es;
    }
    EntriesOfNone(es, paperId);
    EntriesOfAll(added, paperId);
    EntriesOfConcat(es, added, paperId);
  }

  // ---- the replace rule of an update ----

  /** The entry table after an update's `questions` step: when `items` is
      absent (or not an array) nothing happens; otherwise the paper's rows
      are deleted, and only when that succeeded are the new rows inserted
      (none for an empty array; a failed insert is only logged). */
  function ReplacedEntries(es: seq<Entry>, paperId: int, items: Option<seq<UpdateItem>>,
                           deleteOk: bool, insertOk: bool): seq<Entry>
  {
    if items.None? || !deleteOk then es
    else EntriesWithout(es, paperId) + (if items.value != [] && insertOk then UpdateEntries(paperId, items.value) else [])
  }

  /** After a successful replace the paper holds exactly the new rows (none
      for an empty array) and every other paper keeps its rows. */
  lemma ReplaceResult(es: seq<Entry>, paperId: int, items: seq<UpdateItem>, other: int)
    requires other != paperId
    ensures EntriesOf(ReplacedEntries(es, paperId, Some(items), true, true), paperId) == UpdateEntries(paperId, items)
    ensures EntriesOf(ReplacedEntries(es, paperId, Some(items), true, true), other) == EntriesOf(es, other)
  {
    var inserted := if items != [] then UpdateEntries(paperId, items) else [];
    EntriesOfConcat(EntriesWithout(es, paperId), inserted, paperId);
    EntriesOfConcat(EntriesWithout(es, paperId), inserted, other);
    EntriesOfWithout(es, paperId, paperId);
    EntriesOfWithout(es, paperId, other);
    EntriesOfAll(inserted, paperId);
    EntriesOfNone(inserted, other);
  }

  /** A failed delete leaves the old rows, and a failed insert after a
      successful delete leaves the paper with none. */
  lemma ReplaceFailures(es: seq<Entry>, paperId: int, items: seq<UpdateItem>)
    ensures ReplacedEntries(es, paperId, Some(items), false, true) == es
    ensures EntriesOf(ReplacedEntries(es, paperId, Some(items), true, false), paperId) == []
  {
    EntriesOfConcat(EntriesWithout(es, paperId), [], paperId);
    EntriesOfWithout(es, paperId, paperId);
    assert EntriesWithout(es, paperId) + [] == EntriesWithout(es, paperId);
  }

  /** Fields the update body leaves out keep their values; a field sent,
      `null` included, is written. */
  function Merge(current: PaperFields, patch: PaperPatch): PaperFields {
    PaperFields(
      if patch.title.Some? then patch.title.value else current.title,
      if patch.subjectId.Some? then patch.subjectId.value else current.subjectId,
      if patch.gradeId.Some? then patch.gradeId.value else current.gradeId,
      if patch.assessmentType.Some? then patch.assessmentType.value else current.assessmentType,
      if patch.assessmentDate.Some? then patch.assessmentDate.value else current.assessmentDate,
      if patch.instructions.Some? then patch.instructions.value else current.instructions)
  }

  /** The body that sends every field of `f`, each as it is in `f`. */
  function SendAll(f: PaperFields): PaperPatch {
    PaperPatch(Some(f.title), Some(f.subjectId), Some(f.gradeId),
               Some(f.assessmentType), Some(f.assessmentDate), Some(f.instructions))
  }

  /** An empty body changes nothing, a body with every field replaces
      them all (nulls included), a field sent as `null` is cleared, and
      merging the same body twice is merging it once. */
  lemma MergeProperties(current: PaperFields, patch: PaperPatch, f: PaperFields)
    ensures Merge(current, PaperPatch(None, None, None, None, None, None)) == current
    ensures Merge(current, SendAll(f)) == f
    ensures patch.instructions == Some(None) ==> Merge(current, patch).instructions == None
    ensures patch.assessmentType == Some(None) ==> Merge(current, patch).assessmentType == None
    ensures patch.assessmentDate == Some(None) ==> Merge(current, patch).assessmentDate == None
    ensures Merge(Merge(current, patch), patch) == Merge(current, patch)
  {
  }

  // ---- reading a paper back ----

  /** An entry joined with its question (`select('*, questions (*)')`). */
  datatype JoinedEntry = JoinedEntry(order: int, question: QuestionRow)

  /** `{ ...pq.questions, order: pq.question_order }` */
  datatype OrderedQuestion = OrderedQuestion(question: QuestionRow, order: int)

  /** The `questions` field of `getQuestionPaperById`: each fetched entry
      becomes its question plus its position, in fetched order; a failed
      fetch (`None`) gives an empty list. */
  function PaperQuestions(fetched: Option<seq<JoinedEntry>>): (qs: seq<OrderedQuestion>)
    ensures fetched.None? ==> qs == []
    ensures fetched.Some? ==> |qs| == |fetched.value|
    ensures fetched.Some? ==> forall k :: 0 <= k < |qs| ==>
              qs[k].question == fetched.value[k].question && qs[k].order == fetched.value[k].order
  {
    if fetched.None? then []
    else seq(|fetched.value|, k requires 0 <= k < |fetched.value| => OrderedQuestion(fetched.value[k].question, fetched.value[k].order))
  }

  /** The join of entries with the `questions` table; the question of
      every entry exists (the foreign key cascades on delete). */
  function Joined(es: seq<Entry>, questions: map<int, QuestionRow>): (js: seq<JoinedEntry>)
    requires forall e :: e in es ==> e.questionId in questions
    ensures |js| == |es|
    ensures forall k :: 0 <= k < |js| ==> js[k] == JoinedEntry(es[k].order, questions[es[k].questionId])
  {
    seq(|es|, k requires 0 <= k < |es| => JoinedEntry(es[k].order, questions[es[k].questionId]))
  }

  /** Reading back a freshly created paper gives its questions in the order
      they were listed, at positions 1, 2, 3, ... */
  lemma ReadBackAfterCreate(paperId: int, ids: seq<int>, questions: map<int, QuestionRow>)
    requires forall k :: 0 <= k < |ids| ==> ids[k] in questions
    ensures forall e :: e in CreateEntries(paperId, Some(ids)) ==> e.questionId in questions
    ensures var view := PaperQuestions(Some(Joined(CreateEntries(paperId, Some(ids)), questions)));
      |view| == |ids| && forall k :: 0 <= k < |ids| ==> view[k] == OrderedQuestion(questions[ids[k]], k + 1)
  {
    var es := CreateEntries(paperId, Some(ids));
    forall e | e in es ensures e.questionId in questions {
      var k :| 0 <= k < |es| && es[k] == e;
    }
  }

  // ---- the store ----

  /** The `question_papers` table (by id) and the `question_paper_questions`
      table (in insertion order). */
  class PaperStore {
    var papers: map<int, Paper>
    var entries: seq<Entry>

    /** Every entry belongs to a paper that exists (the foreign key). */
    ghost predicate Valid()
      reads this
    {
      forall e :: e in entries ==> e.paperId in papers
    }

    constructor ()
      ensures Valid() && papers == map[] && entries == []
    {
      papers := map[];
      entries := [];
    }

    /** The `created_by` column of a paper, `None` when there is no such
        paper (the 404 of update, delete and addendum upload). */
    function Owner(id: int): Option<Option<int>>
      reads this
    {
      if id in papers then Some(papers[id].createdBy) else None
    }

    /** `createQuestionPaper`. `newId` is the id the insert gives the paper,
        `None` when that insert fails; `entriesOk` says whether the entry
        insert succeeds. There is no transaction: a failed entry insert is a
        500 that leaves the new paper in place without entries. */
    method Create(f: PaperFields, questionIds: Option<seq<int>>, caller: Caller,
                  newId: Option<int>, entriesOk: bool) returns (status: int)
      requires Valid()
      requires newId.Some? ==> newId.value !in papers
      modifies this
      ensures Valid()
      ensures !HasRequiredFields(f) ==> status == 400
      ensures !HasRequiredFields(f) || newId.None? ==> papers == old(papers) && entries == old(entries)
      ensures HasRequiredFields(f) && newId.None? ==> status == 500
      ensures HasRequiredFields(f) && newId.Some? ==>
                papers == old(papers)[newId.value := Paper(f, Some(caller.id), Some(caller.id))]
      ensures HasRequiredFields(f) && newId.Some? ==>
                var rows := CreateEntries(newId.value, questionIds);
                entries == old(entries) + (if entriesOk then rows else [])
                && EntriesOf(entries, newId.value) == (if entriesOk then rows else [])
                && status == (if rows != [] && !entriesOk then 500 else 201)
    {
      if !HasRequiredFields(f) {
        return 400;
      }
      if newId.None? {
        return 500;
      }
      var id := newId.value;
      papers := papers[id := Paper(f, Some(caller.id), Some(caller.id))];
      var rows := CreateEntries(id, questionIds);
      var added := if rows != [] && !entriesOk then [] else rows;
      NewPaperEntries(entries, added, id);
      entries := entries + added;
      status := if rows != [] && !entriesOk then 500 else 201;
    }

    /** `updateQuestionPaper`: 404 for a missing paper, 403 unless the
        caller created it or is an admin, 500 when the field update fails
        (`updateOk` is the store's answer, so a `title` sent as `null`, which
        the `not null` column refuses, is a failed update);
        then the replace rule of `ReplacedEntries` for `items` (`None` when
        `questions` is absent or not an array). */
    method Update(id: int, patch: PaperPatch, items: Option<seq<UpdateItem>>, caller: Caller,
                  updateOk: bool, deleteOk: bool, insertOk: bool) returns (status: int)
      requires Valid()
      modifies this
      ensures Valid()
      ensures old(Owner(id)).None? ==> status == 404
      ensures OwnerGuard(old(Owner(id)), caller) == Forbidden ==> status == 403
      ensures OwnerGuard(old(Owner(id)), caller) != Permitted || !updateOk ==>
                papers == old(papers) && entries == old(entries)
      ensures OwnerGuard(old(Owner(id)), caller) == Permitted && !updateOk ==> status == 500
      ensures OwnerGuard(old(Owner(id)), caller) == Permitted && updateOk ==>
                status == 200
                && papers == old(papers)[id := old(papers)[id].(fields := Merge(old(papers)[id].fields, patch))]
                && entries == ReplacedEntries(old(entries), id, items, deleteOk, insertOk)
    {
      var guard := OwnerGuard(Owner(id), caller);
      if guard == NotFound {
        return 404;
      } else if guard == Forbidden {
        return 403;
      }
      if !updateOk {
        return 500;
      }
      papers := papers[id := papers[id].(fields := Merge(papers[id].fields, patch))];
      if items.Some? {
        if deleteOk {
          entries := EntriesWithout(entries, id);
          if items.value != [] && insertOk {
            entries := entries + UpdateEntries(id, items.value);
          }
        }
      }
      status := 200;
    }

    /** `deleteQuestionPaper`: the same guard, then the row goes and the
        database's cascade takes the paper's entries with it. */
    method Delete(id: int, caller: Caller, deleteOk: bool) returns (status: int)
      requires Valid()
      modifies this
      ensures Valid()
      ensures old(Owner(id)).None? ==> status == 404
      ensures OwnerGuard(old(Owner(id)), caller) == Forbidden ==> status == 403
      ensures OwnerGuard(old(Owner(id)), caller) != Permitted || !deleteOk ==>
                status != 200 && papers == old(papers) && entries == old(entries)
      ensures OwnerGuard(old(Owner(id)), caller) == Permitted && deleteOk ==>
                status == 200 && papers == old(papers) - {id} && entries == EntriesWithout(old(entries), id)
    {
      var guard := OwnerGuard(Owner(id), caller);
      if guard == NotFound {
        return 404;
      } else if guard == Forbidden {
        return 403;
      }
      if !deleteOk {
        return 500;
      }
      papers := papers - {id};
      entries := EntriesWithout(entries, id);
      status := 200;
    }

    /** `uploadPaperAddendum`: the shared addendum upload, guarded by this
        store's paper. */
    function UploadAddendum(id: int, received: Received, caller: Caller, title: Option<string>,
                            storageOk: bool, publicUrl: string, insertOk: bool): (o: UploadOutcome)
      reads this
      ensures o.stored.Some? ==> id in papers && CanModify(papers[id].createdBy, caller)
      ensures id !in papers && received.Accepted? ==> o.status == 404
      ensures id in papers && received.Accepted? && !CanModify(papers[id].createdBy, caller) ==> o.status == 403
      ensures id in papers && received.Accepted? && CanModify(papers[id].createdBy, caller) && TextTruthy(title) ==>
                o == StoreAndRecord(received.file, title.value, caller, storageOk, publicUrl, insertOk)
    {
      AddendumUpload(received, Owner(id), caller, title, storageOk, publicUrl, insertOk)
    }
  }
}
