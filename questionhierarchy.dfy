/** The sub-question step of `getQuestions`: the fetched sub-questions are
    normalised, grouped by `parent_id` into a dictionary, and each group is
    attached to its top-level parent in the page. */
module QuestionHierarchy {
  import opened Common
  import opened QuestionContent

  function ParentOf(p: Processed): Option<int> {
    p.record.parentId
  }

  /** The sub-questions whose `parent_id` is `key`, in fetched order. */
  function SubsOf(subs: seq<Processed>, key: Option<int>): seq<Processed> {
    if subs == [] then []
    else SubsOf(subs[..|subs| - 1], key) + (if ParentOf(subs[|subs| - 1]) == key then [subs[|subs| - 1]] else [])
  }

  /** Some fetched sub-question has `parent_id` equal to `key`. */
  predicate HasParent(subs: seq<Processed>, key: Option<int>) {
    exists k :: 0 <= k < |subs| && ParentOf(subs[k]) == key
  }

  /** The `subsByParent` dictionary: the `forEach` that creates a group on
      the first sub-question of each parent and pushes every sub-question
      onto its parent's group. */
  method GroupByParent(subs: seq<Processed>) returns (groups: map<Option<int>, seq<Processed>>)
    ensures forall key :: key in groups <==> HasParent(subs, key)
    ensures forall key :: key in groups ==> groups[key] == SubsOf(subs, key)
  {
    groups := map[];
    var i := 0;
    while i < |subs|
      invariant 0 <= i <= |subs|
      invariant forall key :: key in groups <==> HasParent(subs[..i], key)
      invariant forall key :: key in groups ==> groups[key] == SubsOf(subs[..i], key)
    {
      var sub := subs[i];
      NextSub(subs, i);
      if ParentOf(sub) !in groups {
        groups := groups[ParentOf(sub) := []];
      }
      groups := groups[ParentOf(sub) := groups[ParentOf(sub)] + [sub]];
      i := i + 1;
    }
    assert subs[..i] == subs;
  }

  lemma NextSub(subs: seq<Processed>, i: nat)
    requires i < |subs|
    ensures forall key ::
      SubsOf(subs[..i + 1], key) == SubsOf(subs[..i], key) + (if ParentOf(subs[i]) == key then [subs[i]] else [])
    ensures forall key ::
      HasParent(subs[..i + 1], key) <==> HasParent(subs[..i], key) || ParentOf(subs[i]) == key
    ensures forall key :: !HasParent(subs[..i], key) ==> SubsOf(subs[..i], key) == []
  {
    var next := subs[..i + 1];
    assert next[..i] == subs[..i];
    forall key | HasParent(next, key) && ParentOf(subs[i]) != key
      ensures HasParent(subs[..i], key)
    {
      var k :| 0 <= k < |next| && ParentOf(next[k]) == key;
      assert subs[..i][k] == next[k];
    }
    forall key | HasParent(subs[..i], key)
      ensures HasParent(next, key)
    {
      var k :| 0 <= k < i && ParentOf(subs[..i][k]) == key;
      assert next[k] == subs[..i][k];
    }
    forall key | !HasParent(subs[..i], key)
      ensures SubsOf(subs[..i], key) == []
    {
      NoParentNoSubs(subs[..i], key);
    }
  }

  lemma {:induction false} NoParentNoSubs(subs: seq<Processed>, key: Option<int>)
    requires !HasParent(subs, key)
    ensures SubsOf(subs, key) == []
    decreases |subs|
  {
    if subs != [] {
      var front := subs[..|subs| - 1];
      assert !HasParent(front, key) by {
        forall k | 0 <= k < |front|
          ensures ParentOf(front[k]) != key
        {
          assert front[k] == subs[k];
        }
      }
      NoParentNoSubs(front, key);
    }
  }

  /** A group holds only sub-questions of its own parent, drawn from the
      fetched list; and every fetched sub-question is in the group of its
      parent. So each sub-question lands in exactly one group. */
  lemma {:induction false} SubsOfMembers(subs: seq<Processed>, key: Option<int>)
    ensures forall x :: x in SubsOf(subs, key) ==> x in subs && ParentOf(x) == key
    ensures forall k :: 0 <= k < |subs| && ParentOf(subs[k]) == key ==> subs[k] in SubsOf(subs, key)
    decreases |subs|
  {
    if subs != [] {
      var front := subs[..|subs| - 1];
      SubsOfMembers(front, key);
      assert forall x :: x in front ==> x in subs;
      forall k | 0 <= k < |subs| && ParentOf(subs[k]) == key
        ensures subs[k] in SubsOf(subs, key)
      {
        if k < |front| {
          assert front[k] == subs[k];
        }
      }
    }
  }

  /** Grouping keeps the fetched order: the group of a concatenation is the
      concatenation of the groups. */
  lemma {:induction false} SubsOfConcat(a: seq<Processed>, b: seq<Processed>, key: Option<int>)
    ensures SubsOf(a + b, key) == SubsOf(a, key) + SubsOf(b, key)
    decreases |b|
  {
    if b == [] {
      assert a + b == a;
    } else {
      assert (a + b)[..|a + b| - 1] == a + b[..|b| - 1];
      SubsOfConcat(a, b[..|b| - 1], key);
    }
  }

  /** The group sizes add up: a sub-question of parent `key` and one of any
      other parent are counted in different groups. */
  lemma {:induction false} SubsOfSplit(subs: seq<Processed>, key: Option<int>)
    ensures |SubsOf(subs, key)| + |Others(subs, key)| == |subs|
    decreases |subs|
  {
    if subs != [] {
      SubsOfSplit(subs[..|subs| - 1], key);
    }
  }

  /** The sub-questions whose parent is not `key`. */
  function Others(subs: seq<Processed>, key: Option<int>): seq<Processed> {
    if subs == [] then []
    else Others(subs[..|subs| - 1], key) + (if ParentOf(subs[|subs| - 1]) != key then [subs[|subs| - 1]] else [])
  }

  /** The `processedQuestions.map` that attaches a group: only to a question
      without a parent whose id has a (necessarily non-empty) group. */
  function Attach(q: Processed, subs: seq<Processed>): Processed {
    if q.record.parentId.None? && SubsOf(subs, Some(q.record.id)) != []
    then q.(subQuestions := Some(SubsOf(subs, Some(q.record.id))))
    else q
  }

  /** A question gets `sub_questions` exactly when it is top-level and some
      fetched sub-question names it as parent; nothing else about it
      changes, and a question that gets none is returned as it was. */
  lemma AttachShape(q: Processed, subs: seq<Processed>)
    requires q.subQuestions.None?
    ensures Attach(q, subs).subQuestions.Some? <==> q.record.parentId.None? && HasParent(subs, Some(q.record.id))
    ensures Attach(q, subs).(subQuestions := None) == q
    ensures Attach(q, subs).subQuestions.Some? ==>
      forall x :: x in Attach(q, subs).subQuestions.value ==> x in subs && ParentOf(x) == Some(q.record.id)
  {
    var key := Some(q.record.id);
    SubsOfMembers(subs, key);
    if HasParent(subs, key) {
      var k :| 0 <= k < |subs| && ParentOf(subs[k]) == key;
      assert subs[k] in SubsOf(subs, key);
    } else {
      NoParentNoSubs(subs, key);
    }
  }

  /** The whole step. `includeSubs` is the `include_subquestions` parameter
      (default "true"); `fetched` is what the sub-question query returns,
      `None` on an error. */
  method IncludeSubQuestions(includeSubs: string, questions: seq<Processed>,
                             fetched: Option<seq<QuestionRecord>>, parse: string -> Option<Json>)
    returns (result: seq<Processed>)
    ensures var asked := includeSubs == "true" && (exists k :: 0 <= k < |questions| && questions[k].record.parentId.None?);
      if asked && fetched.Some? && fetched.value != [] then
        var subs := NormalizeAll(fetched.value, parse);
        |result| == |questions| && forall k :: 0 <= k < |questions| ==> result[k] == Attach(questions[k], subs)
      else result == questions
  {
    result := questions;
    if includeSubs != "true" || |questions| == 0 {
      return;
    }
    var parentIds := ParentIds(questions);
    if |parentIds| == 0 {
      return;
    }
    if fetched.None? || |fetched.value| == 0 {
      return;
    }
    var subs := NormalizeAll(fetched.value, parse);
    var groups := GroupByParent(subs);
    result := seq(|questions|, k requires 0 <= k < |questions| =>
      if questions[k].record.parentId.None? && Some(questions[k].record.id) in groups
      then questions[k].(subQuestions := Some(groups[Some(questions[k].record.id)]))
      else questions[k]);
    forall k | 0 <= k < |questions|
      ensures result[k] == Attach(questions[k], subs)
    {
      var key := Some(questions[k].record.id);
      if key !in groups {
        NoParentNoSubs(subs, key);
      } else {
        var w :| 0 <= w < |subs| && ParentOf(subs[w]) == key;
        SubsOfMembers(subs, key);
        assert subs[w] in SubsOf(subs, key);
      }
    }
  }

  /** The ids of the questions without a parent, in page order. */
  function ParentIds(questions: seq<Processed>): (ids: seq<int>)
    ensures |ids| == 0 <==> forall k :: 0 <= k < |questions| ==> questions[k].record.parentId.Some?
  {
    if questions == [] then []
    else
      var last := questions[|questions| - 1];
      ParentIds(questions[..|questions| - 1]) + (if last.record.parentId.None? then [last.record.id] else [])
  }
}
