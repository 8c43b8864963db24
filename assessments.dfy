/** Assessments: assigning a paper to students and the results statistics
    computed over the per-student records (assessmentController.js). */
module Assessments {
  import opened Common

  /** `student_assessments.status` */
  datatype Status = Assigned | InProgress | Completed | Marked

  /** One row of `student_assessments` as fetched for the results view. */
  datatype StudentAssessment = StudentAssessment(studentId: int, assessmentId: int, status: Status, score: Option<int>)

  /** The summary returned beside the rows. `completionRate` and
      `averageScore` are JavaScript numbers; here they are exact reals. */
  datatype Statistics = Statistics(
    totalStudents: nat,
    completedCount: nat,
    completionRate: real,
    averageScore: real,
    highestScore: int,
    lowestScore: int)

  /** A record counts as completed when its status is 'completed' or 'marked'. */
  predicate IsCompleted(r: StudentAssessment) {
    r.status == Completed || r.status == Marked
  }

  // ---- specification of the statistics ----

  function CompletedCount(rs: seq<StudentAssessment>): nat {
    if rs == [] then 0 else (if IsCompleted(rs[0]) then 1 else 0) + CompletedCount(rs[1..])
  }

  /** The scores that take part in the sum, maximum and minimum: those of
      completed records whose score is not null, in record order. */
  function CountedScores(rs: seq<StudentAssessment>): seq<int> {
    if rs == [] then []
    else (if IsCompleted(rs[0]) && rs[0].score.Some? then [rs[0].score.value] else []) + CountedScores(rs[1..])
  }

  function Sum(xs: seq<int>): int {
    if xs == [] then 0 else xs[0] + Sum(xs[1..])
  }

  /** The largest of 0 and the elements (the maximum starts from 0). */
  function Max0(xs: seq<int>): int {
    if xs == [] then 0 else Larger(xs[0], Max0(xs[1..]))
  }

  function Min(xs: seq<int>): int
    requires xs != []
  {
    if |xs| == 1 then xs[0] else Smaller(xs[0], Min(xs[1..]))
  }

  function Larger(a: int, b: int): int { if a >= b then a else b }
  function Smaller(a: int, b: int): int { if a <= b then a else b }

  /** What the results endpoint reports for a set of rows. */
  function StatisticsOf(rs: seq<StudentAssessment>): Statistics {
    var completed := CompletedCount(rs);
    var scores := CountedScores(rs);
    Statistics(
      |rs|,
      completed,
      if |rs| > 0 then (completed as real / |rs| as real) * 100.0 else 0.0,
      if completed > 0 then Sum(scores) as real / completed as real else 0.0,
      Max0(scores),
      if scores == [] then 0 else Min(scores))
  }

  // ---- the loop of getAssessmentResults ----

  /** `lowestScore`, which starts at the `Infinity` sentinel. */
  datatype Lowest = Infinity | Finite(value: int)

  /** `getAssessmentResults`: a failed fetch of the rows (`fetched` is
      `None`) is a 500 with no statistics; otherwise the counter loop over
      the fetched rows, the sentinel reset and the final arithmetic, proved
      to compute `StatisticsOf`, answered with a 200. */
  method GetAssessmentResults(fetched: Option<seq<StudentAssessment>>) returns (status: int, stats: Option<Statistics>)
    ensures fetched.None? ==> status == 500 && stats == None
    ensures fetched.Some? ==> status == 200 && stats == Some(StatisticsOf(fetched.value))
  {
    if fetched.None? {
      return 500, None;
    }
    var results := fetched.value;
    var totalStudents := |results|;
    var completedCount := 0;
    var totalScore := 0;
    var highestScore := 0;
    var lowestScore := Infinity;
    var i := 0;
    while i < |results|
      invariant 0 <= i <= |results|
      invariant completedCount == CompletedCount(results[..i])
      invariant totalScore == Sum(CountedScores(results[..i]))
      invariant highestScore == Max0(CountedScores(results[..i]))
      invariant lowestScore == if CountedScores(results[..i]) == [] then Infinity
                               else Finite(Min(CountedScores(results[..i])))
    {
      var result := results[i];
      AppendRecord(results[..i], result);
      assert results[..i + 1] == results[..i] + [result];
      if result.status == Completed || result.status == Marked {
        completedCount := completedCount + 1;
        if result.score.Some? {
          var score := result.score.value;
          totalScore := totalScore + score;
          highestScore := Larger(highestScore, score);
          lowestScore := if lowestScore == Infinity then Finite(score) else Finite(Smaller(lowestScore.value, score));
        } else {
          assert CountedScores(results[..i + 1]) == CountedScores(results[..i]);
        }
      } else {
        assert CountedScores(results[..i + 1]) == CountedScores(results[..i]);
      }
      i := i + 1;
    }
    assert results[..i] == results;
    var averageScore := if completedCount > 0 then totalScore as real / completedCount as real else 0.0;
    var lowest := if lowestScore == Infinity then 0 else lowestScore.value;
    var completionRate := if totalStudents > 0 then (completedCount as real / totalStudents as real) * 100.0 else 0.0;
    status, stats := 200, Some(Statistics(totalStudents, completedCount, completionRate, averageScore, highestScore, lowest));
  }

  /** One more row at the end changes each accumulator by that row alone. */
  lemma AppendRecord(rs: seq<StudentAssessment>, r: StudentAssessment)
    ensures CompletedCount(rs + [r]) == CompletedCount(rs) + (if IsCompleted(r) then 1 else 0)
    ensures CountedScores(rs + [r]) == CountedScores(rs) + (if IsCompleted(r) && r.score.Some? then [r.score.value] else [])
    ensures IsCompleted(r) && r.score.Some? ==>
              && Sum(CountedScores(rs + [r])) == Sum(CountedScores(rs)) + r.score.value
              && Max0(CountedScores(rs + [r])) == Larger(Max0(CountedScores(rs)), r.score.value)
              && (CountedScores(rs) != [] ==>
                    Min(CountedScores(rs + [r])) == Smaller(Min(CountedScores(rs)), r.score.value))
  {
    CompletedCountConcat(rs, [r]);
    CountedScoresConcat(rs, [r]);
    if IsCompleted(r) && r.score.Some? {
      var xs := CountedScores(rs);
      var s := r.score.value;
      assert CountedScores(rs + [r]) == xs + [s];
      SumConcat(xs, [s]);
      Max0Concat(xs, [s]);
      Max0NonNegative(xs);
      if xs != [] {
        MinConcat(xs, [s]);
      }
    }
  }

  // ---- the accumulators distribute over concatenation ----

  lemma {:induction false} CompletedCountConcat(a: seq<StudentAssessment>, b: seq<StudentAssessment>)
    ensures CompletedCount(a + b) == CompletedCount(a) + CompletedCount(b)
  {
    if a != [] {
      CompletedCountConcat(a[1..], b);
      assert (a + b)[0] == a[0] && (a + b)[1..] == a[1..] + b;
    } else {
      assert a + b == b;
    }
  }

  lemma {:induction false} CountedScoresConcat(a: seq<StudentAssessment>, b: seq<StudentAssessment>)
    ensures CountedScores(a + b) == CountedScores(a) + CountedScores(b)
  {
    if a != [] {
      CountedScoresConcat(a[1..], b);
      assert (a + b)[0] == a[0] && (a + b)[1..] == a[1..] + b;
    } else {
      assert a + b == b;
    }
  }

  lemma {:induction false} SumConcat(a: seq<int>, b: seq<int>)
    ensures Sum(a + b) == Sum(a) + Sum(b)
  {
    if a != [] {
      SumConcat(a[1..], b);
      assert (a + b)[0] == a[0] && (a + b)[1..] == a[1..] + b;
    } else {
      assert a + b == b;
    }
  }

  lemma {:induction false} Max0Concat(a: seq<int>, b: seq<int>)
    ensures Max0(a + b) == Larger(Max0(a), Max0(b))
  {
    if a != [] {
      Max0Concat(a[1..], b);
      assert (a + b)[0] == a[0] && (a + b)[1..] == a[1..] + b;
    } else {
      assert a + b == b;
      Max0NonNegative(b);
    }
  }

  lemma {:induction false} MinConcat(a: seq<int>, b: seq<int>)
    requires a != [] && b != []
    ensures Min(a + b) == Smaller(Min(a), Min(b))
  {
    if |a| > 1 {
      MinConcat(a[1..], b);
      assert (a + b)[1..] == a[1..] + b;
    } else {
      assert (a + b)[1..] == b;
    }
  }

  lemma {:induction false} Max0NonNegative(xs: seq<int>)
    ensures Max0(xs) >= 0
  {
    if xs != [] {
      Max0NonNegative(xs[1..]);
    }
  }

  // ---- what the statistics promise ----

  /** `Max0` is 0 or one of the scores, and bounds every score from above. */
  lemma {:induction false} Max0Characterised(xs: seq<int>)
    ensures Max0(xs) >= 0
    ensures Max0(xs) == 0 || Max0(xs) in xs
    ensures forall k :: 0 <= k < |xs| ==> xs[k] <= Max0(xs)
  {
    if xs != [] {
      Max0Characterised(xs[1..]);
    }
  }

  /** `Min` is one of the scores and bounds every score from below. */
  lemma {:induction false} MinCharacterised(xs: seq<int>)
    requires xs != []
    ensures Min(xs) in xs
    ensures forall k :: 0 <= k < |xs| ==> Min(xs) <= xs[k]
  {
    if |xs| > 1 {
      MinCharacterised(xs[1..]);
    }
  }

  /** Only completed rows with a score are counted, and there are no more
      of them than completed rows, nor more completed rows than rows. */
  lemma {:induction false} CountedScoresShape(rs: seq<StudentAssessment>)
    ensures |CountedScores(rs)| <= CompletedCount(rs) <= |rs|
    ensures forall x :: x in CountedScores(rs) <==>
              exists k :: 0 <= k < |rs| && IsCompleted(rs[k]) && rs[k].score == Some(x)
  {
    if rs != [] {
      CountedScoresShape(rs[1..]);
      forall x | (exists k :: 0 <= k < |rs[1..]| && IsCompleted(rs[1..][k]) && rs[1..][k].score == Some(x))
        ensures exists k :: 0 <= k < |rs| && IsCompleted(rs[k]) && rs[k].score == Some(x)
      {
        var k :| 0 <= k < |rs[1..]| && IsCompleted(rs[1..][k]) && rs[1..][k].score == Some(x);
        assert rs[k + 1] == rs[1..][k];
      }
      forall x | (exists k :: 0 <= k < |rs| && IsCompleted(rs[k]) && rs[k].score == Some(x))
        ensures x in CountedScores(rs)
      {
        var k :| 0 <= k < |rs| && IsCompleted(rs[k]) && rs[k].score == Some(x);
        if k > 0 {
          assert rs[1..][k - 1] == rs[k];
        }
      }
    }
  }

  /** The counts: completed rows are at most all rows and the completion
      rate is a percentage. */
  lemma CompletionBounds(rs: seq<StudentAssessment>)
    ensures var st := StatisticsOf(rs);
      && st.totalStudents == |rs|
      && st.completedCount <= st.totalStudents
      && 0.0 <= st.completionRate <= 100.0
  {
    CompletedAtMostAll(rs);
    if |rs| > 0 {
      RateBounds(CompletedCount(rs), |rs|);
    }
  }

  lemma {:induction false} CompletedAtMostAll(rs: seq<StudentAssessment>)
    ensures CompletedCount(rs) <= |rs|
  {
    if rs != [] {
      CompletedAtMostAll(rs[1..]);
    }
  }

  lemma RateBounds(c: nat, n: nat)
    requires 0 < n && c <= n
    ensures 0.0 <= (c as real / n as real) * 100.0 <= 100.0
  {
    assert c as real / n as real <= 1.0;
  }

  /** The extremes: the highest score is non-negative and above every
      counted score; the lowest is below every counted score and is one of
      them, or 0 (never the sentinel) when no completed row has a score. */
  lemma ScoreBounds(rs: seq<StudentAssessment>)
    ensures var st := StatisticsOf(rs);
      && st.highestScore >= 0
      && (forall x :: x in CountedScores(rs) ==> st.lowestScore <= x <= st.highestScore)
      && (CountedScores(rs) == [] ==> st.lowestScore == 0 && st.highestScore == 0)
      && (CountedScores(rs) != [] ==> st.lowestScore in CountedScores(rs))
  {
    var scores := CountedScores(rs);
    Max0Characterised(scores);
    if scores != [] {
      MinCharacterised(scores);
    }
  }

  /** The average divides the sum of counted scores by the number of
      completed rows, so completed rows without a score pull it down. */
  lemma AverageScoreMeaning(rs: seq<StudentAssessment>)
    ensures var st := StatisticsOf(rs);
      && (st.completedCount == 0 ==> st.averageScore == 0.0)
      && (st.completedCount > 0 ==> st.averageScore * st.completedCount as real == Sum(CountedScores(rs)) as real)
  {
    var st := StatisticsOf(rs);
    var total := Sum(CountedScores(rs));
    assert st.averageScore == if st.completedCount > 0 then total as real / st.completedCount as real else 0.0;
    if st.completedCount > 0 {
      DivisionUndone(st.averageScore, total, st.completedCount);
    }
  }

  lemma DivisionUndone(average: real, total: int, c: nat)
    requires c > 0 && average == total as real / c as real
    ensures average * c as real == total as real
  {
  }

  /** With no rows every field is 0: no sentinel reaches the caller. */
  lemma EmptyStatistics()
    ensures StatisticsOf([]) == Statistics(0, 0, 0.0, 0.0, 0, 0)
  {
  }

  /** Two completed rows scored 80 and 60 and one assigned row. */
  lemma StatisticsExample()
    ensures StatisticsOf([
      StudentAssessment(1, 9, Completed, Some(80)),
      StudentAssessment(2, 9, Completed, Some(60)),
      StudentAssessment(3, 9, Assigned, None)])
      == Statistics(3, 2, 200.0 / 3.0, 70.0, 80, 60)
  {
  }

  /** A marked row without a score still counts as completed, and halves the
      average of a single score of 80. */
  lemma UnscoredCompletedRowInDivisor()
    ensures StatisticsOf([
      StudentAssessment(1, 9, Completed, Some(80)),
      StudentAssessment(2, 9, Marked, None)]).averageScore == 40.0
  {
    assert CountedScores([StudentAssessment(2, 9, Marked, None)]) == [];
  }

  // ---- order does not matter ----

  lemma {:induction false} PickOut<T>(a: seq<T>, b: seq<T>) returns (j: nat)
    requires a != [] && multiset(a) == multiset(b)
    ensures j < |b| && b[j] == a[0]
    ensures multiset(a[1..]) == multiset(b[..j] + b[j + 1..])
  {
    assert a[0] in multiset(b);
    j :| 0 <= j < |b| && b[j] == a[0];
    assert a == [a[0]] + a[1..];
    assert b == b[..j] + [b[j]] + b[j + 1..];
    assert multiset(b[..j] + b[j + 1..]) == multiset(b) - multiset{b[j]};
    assert multiset(a[1..]) == multiset(a) - multiset{a[0]};
  }

  /** Rearranging the rows does not change the completed count. */
  lemma {:induction false} PermutedCompletedCount(a: seq<StudentAssessment>, b: seq<StudentAssessment>)
    requires multiset(a) == multiset(b)
    ensures CompletedCount(a) == CompletedCount(b)
    decreases |a|
  {
    if a == [] {
      assert b == [];
    } else {
      var j := PickOut(a, b);
      PermutedCompletedCount(a[1..], b[..j] + b[j + 1..]);
      assert a == [a[0]] + a[1..];
      assert b == b[..j] + [a[0]] + b[j + 1..];
      CompletedCountConcat(b[..j] + [a[0]], b[j + 1..]);
      CompletedCountConcat(b[..j], [a[0]]);
      CompletedCountConcat(b[..j], b[j + 1..]);
      CompletedCountConcat([a[0]], a[1..]);
    }
  }

  /** Rearranging the rows rearranges the counted scores. */
  lemma {:induction false} PermutedCountedScores(a: seq<StudentAssessment>, b: seq<StudentAssessment>)
    requires multiset(a) == multiset(b)
    ensures multiset(CountedScores(a)) == multiset(CountedScores(b))
    decreases |a|
  {
    if a == [] {
      assert b == [];
    } else {
      var j := PickOut(a, b);
      PermutedCountedScores(a[1..], b[..j] + b[j + 1..]);
      PermutedCountedScoresStep(a, b, j);
    }
  }

  lemma PermutedCountedScoresStep(a: seq<StudentAssessment>, b: seq<StudentAssessment>, j: nat)
    requires a != [] && j < |b| && b[j] == a[0]
    requires multiset(CountedScores(a[1..])) == multiset(CountedScores(b[..j] + b[j + 1..]))
    ensures multiset(CountedScores(a)) == multiset(CountedScores(b))
  {
    CountedScoresRemoveAt(b, j);
    CountedScoresCons(a);
  }

  lemma CountedScoresCons(a: seq<StudentAssessment>)
    requires a != []
    ensures multiset(CountedScores(a)) == multiset(CountedScores([a[0]])) + multiset(CountedScores(a[1..]))
  {
    assert CountedScores([a[0]]) == (if IsCompleted(a[0]) && a[0].score.Some? then [a[0].score.value] else []);
  }

  /** Taking row `j` out of `b` takes its counted score (if any) out of the
      counted scores of `b`. */
  lemma CountedScoresRemoveAt(b: seq<StudentAssessment>, j: nat)
    requires j < |b|
    ensures multiset(CountedScores(b)) == multiset(CountedScores([b[j]])) + multiset(CountedScores(b[..j] + b[j + 1..]))
  {
    var p, x, q := b[..j], [b[j]], b[j + 1..];
    SplitAround(b, j);
    CountedScoresConcat(p + x, q);
    CountedScoresConcat(p, x);
    CountedScoresConcat(p, q);
    var cp, cx, cq := CountedScores(p), CountedScores(x), CountedScores(q);
    MultisetMiddle(cp, cx, cq);
  }

  lemma SplitAround<T>(b: seq<T>, j: nat)
    requires j < |b|
    ensures b == b[..j] + [b[j]] + b[j + 1..]
  {
  }

  lemma MultisetMiddle(p: seq<int>, x: seq<int>, q: seq<int>)
    ensures multiset(p + x + q) == multiset(x) + multiset(p + q)
  {
  }

  /** The sum of a sequence of scores does not depend on their order. */
  lemma {:induction false} PermutedSum(a: seq<int>, b: seq<int>)
    requires multiset(a) == multiset(b)
    ensures Sum(a) == Sum(b)
    decreases |a|
  {
    if a == [] {
      assert b == [];
    } else {
      var j := PickOut(a, b);
      PermutedSum(a[1..], b[..j] + b[j + 1..]);
      assert a == [a[0]] + a[1..];
      assert b == b[..j] + [a[0]] + b[j + 1..];
      SumConcat(b[..j] + [a[0]], b[j + 1..]);
      SumConcat(b[..j], [a[0]]);
      SumConcat(b[..j], b[j + 1..]);
      SumConcat([a[0]], a[1..]);
    }
  }

  /** The statistics do not depend on the order of the rows (the query
      orders them by score, but the loop only counts, sums and compares). */
  lemma OrderIndependent(a: seq<StudentAssessment>, b: seq<StudentAssessment>)
    requires multiset(a) == multiset(b)
    ensures StatisticsOf(a) == StatisticsOf(b)
  {
    assert |a| == |multiset(a)| == |b|;
    PermutedCompletedCount(a, b);
    PermutedCountedScores(a, b);
    PermutedScoreFigures(CountedScores(a), CountedScores(b));
  }

  /** Sum, maximum and minimum of rearranged scores agree. */
  lemma PermutedScoreFigures(xs: seq<int>, ys: seq<int>)
    requires multiset(xs) == multiset(ys)
    ensures Sum(xs) == Sum(ys) && Max0(xs) == Max0(ys)
    ensures xs == [] <==> ys == []
    ensures xs != [] ==> Min(xs) == Min(ys)
  {
    PermutedSum(xs, ys);
    assert |xs| == |multiset(xs)| == |multiset(ys)| == |ys|;
    forall x
      ensures x in xs <==> x in ys
    {
      assert x in xs <==> x in multiset(xs);
      assert x in ys <==> x in multiset(ys);
    }
    SameMax0(xs, ys);
    if xs != [] {
      SameMin(xs, ys);
    }
  }

  lemma SameMax0(xs: seq<int>, ys: seq<int>)
    requires forall x :: x in xs <==> x in ys
    ensures Max0(xs) == Max0(ys)
  {
    Max0Characterised(xs);
    Max0Characterised(ys);
    var m, n := Max0(xs), Max0(ys);
    if m != 0 { assert m in ys; }
    if n != 0 { assert n in xs; }
  }

  lemma SameMin(xs: seq<int>, ys: seq<int>)
    requires xs != [] && ys != []
    requires forall x :: x in xs <==> x in ys
    ensures Min(xs) == Min(ys)
  {
    MinCharacterised(xs);
    MinCharacterised(ys);
    assert Min(xs) in ys;
    assert Min(ys) in xs;
  }

  // ---- createAssessment ----

  /** One `student_assessments` row written when an assessment is assigned. */
  datatype AssignmentRow = AssignmentRow(studentId: int, assessmentId: int, status: Status)

  datatype CreateAssessmentResult =
    | MissingFields                      // 400, nothing written
    | CreateFailed                       // 500, the assessment insert failed
    | Created(assessmentId: int, assignedBy: int, assignments: seq<AssignmentRow>)  // 201

  /** `student_ids.map(...)`: one 'assigned' row per student, in input order. */
  function AssignmentRows(studentIds: seq<int>, assessmentId: int): (rows: seq<AssignmentRow>)
    ensures |rows| == |studentIds|
    ensures forall k :: 0 <= k < |rows| ==> rows[k] == AssignmentRow(studentIds[k], assessmentId, Assigned)
  {
    if studentIds == [] then [] else [AssignmentRow(studentIds[0], assessmentId, Assigned)] + AssignmentRows(studentIds[1..], assessmentId)
  }

  /** `createAssessment`. `studentIds` is `None` when the field is missing or
      not an array; `insertedId` is the id the store gives the new
      assessment, or `None` when that insert fails. A failure of the second
      insert is only logged, so the rows it was given are still reported. */
  function CreateAssessment(questionPaperId: Option<int>, studentIds: Option<seq<int>>, caller: Caller,
                            insertedId: Option<int>): (r: CreateAssessmentResult)
    ensures r == MissingFields <==> !IntTruthy(questionPaperId) || studentIds.None?
    ensures r.Created? <==> IntTruthy(questionPaperId) && studentIds.Some? && insertedId.Some?
    ensures r.Created? ==> r.assessmentId == insertedId.value && r.assignedBy == caller.id
    ensures r.Created? ==> |r.assignments| == |studentIds.value|
    ensures r.Created? ==> forall k :: 0 <= k < |r.assignments| ==>
              r.assignments[k].studentId == studentIds.value[k]
              && r.assignments[k].assessmentId == insertedId.value
              && r.assignments[k].status == Assigned
  {
    if !IntTruthy(questionPaperId) || studentIds.None? then MissingFields
    else if insertedId.None? then CreateFailed
    else Created(insertedId.value, caller.id, AssignmentRows(studentIds.value, insertedId.value))
  }
}
