/** The PDF export of a question paper (`generatePDF`): the download file
    name and the walk that writes the paper to the document. The document
    is the list of layout calls made on it, in order. */
module PaperPdf {
  import opened Common
  import opened Strings
  import opened QuestionPapers

  datatype Align = Left | Center | Right

  /** One call on the document: `fontSize`, `font`, `text` (with its
      alignment; left when none is given) or `moveDown`. */
  datatype Op = FontSize(size: int) | Font(name: string) | Text(s: string, align: Align) | MoveDown

  /** The paper with the joined names the export prints. `subject` and
      `grade` are `None` when the join found nothing. */
  datatype PdfPaper = PdfPaper(
    title: string,
    subject: Option<string>,
    grade: Option<string>,
    assessmentType: Option<string>,
    instructions: Option<string>)

  // ---- the file name ----

  /** `title.replace(/\s+/g, '_')`: every maximal run of white space becomes
      one underscore. */
  function ReplaceSpaceRuns(s: string): (r: string)
    ensures |r| <= |s|
    ensures NoSpace(r)
    decreases |s|
  {
    if s == [] then []
    else if IsSpace(s[0]) then "_" + ReplaceSpaceRuns(TrimStart(s[1..]))
    else [s[0]] + ReplaceSpaceRuns(s[1..])
  }

  /** The `Content-Disposition` file name. */
  function FileName(title: string): string {
    ReplaceSpaceRuns(title) + ".pdf"
  }

  /** Text without white space is left as it is. */
  lemma {:induction false} ReplaceSpaceRunsKeeps(s: string)
    requires NoSpace(s)
    ensures ReplaceSpaceRuns(s) == s
  {
    if s != [] {
      ReplaceSpaceRunsKeeps(s[1..]);
    }
  }

  /** The file name has no white space, and a title already without white
      space is used as it is; so renaming is idempotent. */
  lemma FileNameProperties(title: string)
    ensures NoSpace(FileName(title))
    ensures NoSpace(title) ==> FileName(title) == title + ".pdf"
    ensures ReplaceSpaceRuns(ReplaceSpaceRuns(title)) == ReplaceSpaceRuns(title)
  {
    var r := ReplaceSpaceRuns(title);
    SuffixKeepsNoSpace(r, ".pdf");
    ReplaceSpaceRunsKeeps(r);
    if NoSpace(title) {
      ReplaceSpaceRunsKeeps(title);
    }
  }

  lemma SuffixKeepsNoSpace(r: string, suffix: string)
    requires suffix == ".pdf" && NoSpace(r)
    ensures NoSpace(r + suffix)
  {
    assert NoSpace(suffix);
    forall i | 0 <= i < |r + suffix| ensures !IsSpace((r + suffix)[i]) {
      if i >= |r| {
        assert (r + suffix)[i] == suffix[i - |r|];
      }
    }
  }

  /** Every maximal run of white space becomes one underscore, and the text
      on either side of it is renamed on its own: a run `w` between text `a`
      that does not end in white space and text `b` that does not start with
      it gives one `_` between the renamed `a` and the renamed `b`. */
  lemma RunBecomesUnderscore(a: string, w: string, b: string)
    requires a == [] || !IsSpace(a[|a| - 1])
    requires w != [] && forall i :: 0 <= i < |w| ==> IsSpace(w[i])
    requires b == [] || !IsSpace(b[0])
    ensures ReplaceSpaceRuns(a + w + b) == ReplaceSpaceRuns(a) + "_" + ReplaceSpaceRuns(b)
  {
    var rest := w + b;
    AppendAssociates(a, w, b);
    ReplaceSpaceRunsSplits(a, rest);
    WholeRun(w, b);
    AppendAssociates(ReplaceSpaceRuns(a), "_", ReplaceSpaceRuns(b));
  }

  /** Renaming splits after any character that is not white space. */
  lemma {:induction false} ReplaceSpaceRunsSplits(a: string, t: string)
    requires a == [] || !IsSpace(a[|a| - 1])
    ensures ReplaceSpaceRuns(a + t) == ReplaceSpaceRuns(a) + ReplaceSpaceRuns(t)
    decreases |a|
  {
    if a == [] {
      assert a + t == t;
    } else {
      var c, u := a[0], a[1..];
      assert a == [c] + u;
      if !IsSpace(c) {
        ReplaceSpaceRunsSplits(u, t);
        SplitsAfterKept(c, u, t);
      } else {
        TrimStartKeepsTail(u, t);
        ReplaceSpaceRunsSplits(TrimStart(u), t);
        SplitsAfterRun(c, u, t);
      }
    }
  }

  lemma SplitsAfterKept(c: char, u: string, t: string)
    requires !IsSpace(c)
    requires ReplaceSpaceRuns(u + t) == ReplaceSpaceRuns(u) + ReplaceSpaceRuns(t)
    ensures ReplaceSpaceRuns([c] + u + t) == ReplaceSpaceRuns([c] + u) + ReplaceSpaceRuns(t)
  {
    var ut := u + t;
    AppendAssociates([c], u, t);
    KeepChar(c, ut);
    KeepChar(c, u);
    AppendAssociates([c], ReplaceSpaceRuns(u), ReplaceSpaceRuns(t));
  }

  lemma SplitsAfterRun(c: char, u: string, t: string)
    requires IsSpace(c)
    requires TrimStart(u + t) == TrimStart(u) + t
    requires ReplaceSpaceRuns(TrimStart(u) + t) == ReplaceSpaceRuns(TrimStart(u)) + ReplaceSpaceRuns(t)
    ensures ReplaceSpaceRuns([c] + u + t) == ReplaceSpaceRuns([c] + u) + ReplaceSpaceRuns(t)
  {
    var ut := u + t;
    AppendAssociates([c], u, t);
    SpaceRun(c, ut);
    SpaceRun(c, u);
    AppendAssociates("_", ReplaceSpaceRuns(TrimStart(u)), ReplaceSpaceRuns(t));
  }

  /** Leading white space ends before the last character when that one is
      not white space, so what follows is untouched. */
  lemma {:induction false} TrimStartKeepsTail(u: string, t: string)
    requires u != [] && !IsSpace(u[|u| - 1])
    ensures TrimStart(u + t) == TrimStart(u) + t
    ensures TrimStart(u) != [] && !IsSpace(TrimStart(u)[|TrimStart(u)| - 1])
    decreases |u|
  {
    var c, v := u[0], u[1..];
    assert u == [c] + v;
    if IsSpace(c) {
      TrimStartKeepsTail(v, t);
      SkipSpaceBefore(c, v, t);
    } else {
      TrimStartAtKept(c, v, t);
    }
  }

  lemma SkipSpaceBefore(c: char, v: string, t: string)
    requires IsSpace(c)
    ensures TrimStart([c] + v + t) == TrimStart(v + t)
    ensures TrimStart([c] + v) == TrimStart(v)
  {
    var vt := v + t;
    AppendAssociates([c], v, t);
    SkipSpace(c, vt);
    SkipSpace(c, v);
  }

  lemma TrimStartAtKept(c: char, v: string, t: string)
    requires !IsSpace(c)
    ensures TrimStart([c] + v + t) == [c] + v + t
    ensures TrimStart([c] + v) == [c] + v
  {
    assert ([c] + v + t)[0] == c && ([c] + v)[0] == c;
  }

  /** A whole run of white space at the front becomes one underscore. */
  lemma WholeRun(w: string, b: string)
    requires w != [] && forall i :: 0 <= i < |w| ==> IsSpace(w[i])
    requires b == [] || !IsSpace(b[0])
    ensures ReplaceSpaceRuns(w + b) == "_" + ReplaceSpaceRuns(b)
  {
    var c, v := w[0], w[1..];
    assert w == [c] + v;
    TrimStartRun(v, b);
    RunAtFront(c, v, b);
  }

  lemma RunAtFront(c: char, v: string, b: string)
    requires IsSpace(c) && TrimStart(v + b) == b
    ensures ReplaceSpaceRuns([c] + v + b) == "_" + ReplaceSpaceRuns(b)
  {
    var vb := v + b;
    AppendAssociates([c], v, b);
    SpaceRun(c, vb);
  }

  lemma {:induction false} TrimStartRun(w: string, b: string)
    requires forall i :: 0 <= i < |w| ==> IsSpace(w[i])
    requires b == [] || !IsSpace(b[0])
    ensures TrimStart(w + b) == b
    decreases |w|
  {
    if w == [] {
      assert w + b == b;
    } else {
      var c, v := w[0], w[1..];
      assert w == [c] + v;
      TrimStartRun(v, b);
      SkipSpaceBefore(c, v, b);
    }
  }

  /** "A \t B" becomes "A_B.pdf": the run of three white-space characters
      gives one underscore. */
  lemma FileNameExample(title: string)
    requires title == "A \t B"
    ensures FileName(title) == "A_B.pdf"
  {
    FileNameOfRun(title, 'A', ' ', '\t', ' ', 'B');
  }

  lemma FileNameOfRun(t: string, a: char, x: char, y: char, z: char, b: char)
    requires t == [a, x, y, z, b]
    requires !IsSpace(a) && !IsSpace(b) && IsSpace(x) && IsSpace(y) && IsSpace(z)
    ensures FileName(t) == [a, '_', b] + ".pdf"
  {
    RunBetween(a, x, y, z, b);
  }

  /** One character, a run of three white-space characters, one
      character: the run becomes a single underscore. */
  lemma RunBetween(a: char, x: char, y: char, z: char, b: char)
    requires !IsSpace(a) && !IsSpace(b) && IsSpace(x) && IsSpace(y) && IsSpace(z)
    ensures ReplaceSpaceRuns([a, x, y, z, b]) == [a, '_', b]
  {
    var tail := [y, z, b];
    TrimRun(y, z, b);
    KeepLast(b);
    assert [x] + tail == [x, y, z, b];
    SpaceRun(x, tail);
    assert [a] + [x, y, z, b] == [a, x, y, z, b];
    KeepChar(a, [x, y, z, b]);
    assert "_" + [b] == ['_', b] && [a] + ['_', b] == [a, '_', b];
  }

  lemma TrimRun(y: char, z: char, b: char)
    requires IsSpace(y) && IsSpace(z) && !IsSpace(b)
    ensures TrimStart([y, z, b]) == [b]
  {
    assert [z] + [b] == [z, b] && [y] + [z, b] == [y, z, b];
    SkipSpace(z, [b]);
    SkipSpace(y, [z, b]);
  }

  lemma KeepLast(b: char)
    requires !IsSpace(b)
    ensures ReplaceSpaceRuns([b]) == [b]
  {
    KeepChar(b, []);
    assert [b] + [] == [b];
  }

  lemma SkipSpace(c: char, rest: string)
    requires IsSpace(c)
    ensures TrimStart([c] + rest) == TrimStart(rest)
  {
    assert ([c] + rest)[1..] == rest;
  }

  lemma KeepChar(c: char, rest: string)
    requires !IsSpace(c)
    ensures ReplaceSpaceRuns([c] + rest) == [c] + ReplaceSpaceRuns(rest)
  {
    assert ([c] + rest)[1..] == rest;
  }

  lemma SpaceRun(c: char, rest: string)
    requires IsSpace(c)
    ensures ReplaceSpaceRuns([c] + rest) == "_" + ReplaceSpaceRuns(TrimStart(rest))
  {
    assert ([c] + rest)[1..] == rest;
  }

  // ---- the layout ----

  /** `question.marks || 0` */
  function MarksOrZero(q: QuestionRow): int {
    if q.marks.Some? then q.marks.value else 0
  }

  /** The running total of the export. */
  function TotalMarks(qs: seq<QuestionRow>): int {
    if qs == [] then 0 else TotalMarks(qs[..|qs| - 1]) + MarksOrZero(qs[|qs| - 1])
  }

  /** The first lines: the title (centred, 18 pt), then the subject, grade
      and type lines that are present, then the instructions block when the
      instructions are not empty. */
  function Heading(p: PdfPaper): seq<Op> {
    [FontSize(18), Text(p.title, Center), MoveDown]
    + (if p.subject.Some? then [FontSize(12), Text("Subject: " + p.subject.value, Center)] else [])
    + (if p.grade.Some? then [FontSize(12), Text("Grade: " + p.grade.value, Center)] else [])
    + (if TextTruthy(p.assessmentType) then [FontSize(12), Text("Type: " + p.assessmentType.value, Center)] else [])
    + [MoveDown]
    + (if TextTruthy(p.instructions)
       then [FontSize(12), Font("Helvetica-Bold"), Text("Instructions:", Left), Font("Helvetica"),
             Text(p.instructions.value, Left), MoveDown]
       else [])
  }

  /** `question.number || index + 1` */
  function QuestionLabel(q: QuestionRow, index: nat): string {
    if TextTruthy(q.number) then q.number.value else IntToString(index + 1)
  }

  /** `${question.marks}`: a missing mark prints as "null". */
  function MarksText(q: QuestionRow): string {
    if q.marks.Some? then IntToString(q.marks.value) else "null"
  }

  function QuestionHeader(q: QuestionRow, index: nat): string {
    "Question " + QuestionLabel(q, index) + " [" + MarksText(q) + " marks]"
  }

  /** What one question adds: its bold header, then its description, text
      and LaTeX source (in Courier) when present, then a blank line. */
  function QuestionBlock(q: QuestionRow, index: nat): seq<Op> {
    [FontSize(12), Font("Helvetica-Bold"), Text(QuestionHeader(q, index), Left), Font("Helvetica")]
    + (if TextTruthy(q.description) then [Text(q.description.value, Left)] else [])
    + (if TextTruthy(q.text) then [Text(q.text.value, Left)] else [])
    + (if TextTruthy(q.latex) then [Font("Courier"), Text(q.latex.value, Left), Font("Helvetica")] else [])
    + [MoveDown]
  }

  function QuestionBlocks(qs: seq<QuestionRow>): seq<Op> {
    if qs == [] then [] else QuestionBlocks(qs[..|qs| - 1]) + QuestionBlock(qs[|qs| - 1], |qs| - 1)
  }

  function TotalLine(total: int): Op {
    Text("Total: " + IntToString(total) + " marks", Right)
  }

  /** The whole document for a paper and its questions (in entry order). */
  function Layout(p: PdfPaper, qs: seq<QuestionRow>): seq<Op> {
    Heading(p) + QuestionBlocks(qs) + [MoveDown, FontSize(12), Font("Helvetica-Bold"), TotalLine(TotalMarks(qs))]
  }

  /** The export walk: the heading, one block per question while the total
      accumulates, then the right-aligned total. */
  method GeneratePdf(p: PdfPaper, qs: seq<QuestionRow>) returns (doc: seq<Op>, totalMarks: int)
    ensures doc == Layout(p, qs)
    ensures totalMarks == TotalMarks(qs)
  {
    doc := Heading(p);
    doc, totalMarks := WriteQuestions(doc, qs);
    doc := doc + [MoveDown, FontSize(12), Font("Helvetica-Bold"), TotalLine(totalMarks)];
  }

  /** The `forEach` over the paper's questions: appends each question's
      block to `doc` and adds its marks (0 when missing) to the total. */
  method WriteQuestions(start: seq<Op>, qs: seq<QuestionRow>) returns (doc: seq<Op>, totalMarks: int)
    ensures doc == start + QuestionBlocks(qs)
    ensures totalMarks == TotalMarks(qs)
  {
    doc := start;
    totalMarks := 0;
    var i := 0;
    assert qs[..0] == [];
    while i < |qs|
      invariant 0 <= i <= |qs|
      invariant doc == start + QuestionBlocks(qs[..i])
      invariant totalMarks == TotalMarks(qs[..i])
    {
      AppendQuestion(start, qs, i);
      totalMarks := totalMarks + MarksOrZero(qs[i]);
      doc := doc + QuestionBlock(qs[i], i);
      i := i + 1;
    }
    assert qs[..i] == qs;
  }

  lemma AppendQuestion(start: seq<Op>, qs: seq<QuestionRow>, i: nat)
    requires i < |qs|
    ensures start + QuestionBlocks(qs[..i + 1]) == start + QuestionBlocks(qs[..i]) + QuestionBlock(qs[i], i)
    ensures TotalMarks(qs[..i + 1]) == TotalMarks(qs[..i]) + MarksOrZero(qs[i])
  {
    NextQuestion(qs, i);
  }

  /** One more question extends the blocks and the total by that
      question's. */
  lemma NextQuestion(qs: seq<QuestionRow>, i: nat)
    requires i < |qs|
    ensures QuestionBlocks(qs[..i + 1]) == QuestionBlocks(qs[..i]) + QuestionBlock(qs[i], i)
    ensures TotalMarks(qs[..i + 1]) == TotalMarks(qs[..i]) + MarksOrZero(qs[i])
  {
    assert qs[..i + 1][..i] == qs[..i];
  }

  // ---- properties of the layout ----

  /** The document opens with the title and closes with the total. */
  lemma LayoutEnds(p: PdfPaper, qs: seq<QuestionRow>)
    ensures Layout(p, qs)[..2] == [FontSize(18), Text(p.title, Center)]
    ensures Layout(p, qs)[|Layout(p, qs)| - 1] == Text("Total: " + IntToString(TotalMarks(qs)) + " marks", Right)
  {
  }

  lemma {:induction false} TotalMarksConcat(a: seq<QuestionRow>, b: seq<QuestionRow>)
    ensures TotalMarks(a + b) == TotalMarks(a) + TotalMarks(b)
    decreases |b|
  {
    if b == [] {
      assert a + b == a;
    } else {
      assert (a + b)[..|a + b| - 1] == a + b[..|b| - 1];
      TotalMarksConcat(a, b[..|b| - 1]);
    }
  }

  /** The total is the sum of the marks that are present: a question
      without marks adds nothing, and the total is at least the marks of
      any question when none is negative. */
  lemma {:induction false} TotalMarksBounds(qs: seq<QuestionRow>, k: nat)
    requires k < |qs|
    requires forall j :: 0 <= j < |qs| ==> MarksOrZero(qs[j]) >= 0
    ensures TotalMarks(qs) >= MarksOrZero(qs[k]) >= 0
    decreases |qs|
  {
    var last := |qs| - 1;
    if k < last {
      TotalMarksBounds(qs[..last], k);
    } else {
      TotalMarksNonNegative(qs[..last]);
    }
  }

  lemma {:induction false} TotalMarksNonNegative(qs: seq<QuestionRow>)
    requires forall j :: 0 <= j < |qs| ==> MarksOrZero(qs[j]) >= 0
    ensures TotalMarks(qs) >= 0
    decreases |qs|
  {
    if qs != [] {
      TotalMarksNonNegative(qs[..|qs| - 1]);
    }
  }

  /** Question `k` is introduced by the header carrying its number, or its
      position `k + 1` when it has none. */
  lemma QuestionBlockAt(qs: seq<QuestionRow>, k: nat)
    requires k < |qs|
    ensures var start := |QuestionBlocks(qs[..k])|;
      start + 3 <= |QuestionBlocks(qs)|
      && QuestionBlocks(qs)[start + 2] == Text(QuestionHeader(qs[k], k), Left)
  {
    var upto := qs[..k + 1];
    assert upto[..k] == qs[..k] && upto[k] == qs[k];
    QuestionBlocksSnoc(upto);
    QuestionBlocksPrefix(qs, k + 1);
    BlockHeader(qs[k], k);
    var start := |QuestionBlocks(qs[..k])|;
    assert QuestionBlocks(upto) == QuestionBlocks(qs[..k]) + QuestionBlock(qs[k], k);
    assert QuestionBlocks(upto)[start + 2] == QuestionBlock(qs[k], k)[2];
    assert QuestionBlocks(qs)[start + 2] == QuestionBlocks(upto)[start + 2];
  }

  lemma QuestionBlocksSnoc(qs: seq<QuestionRow>)
    requires qs != []
    ensures QuestionBlocks(qs) == QuestionBlocks(qs[..|qs| - 1]) + QuestionBlock(qs[|qs| - 1], |qs| - 1)
  {
  }

  /** The blocks of the first `n` questions begin the blocks of all. */
  lemma {:induction false} QuestionBlocksPrefix(qs: seq<QuestionRow>, n: nat)
    requires n <= |qs|
    ensures |QuestionBlocks(qs[..n])| <= |QuestionBlocks(qs)|
    ensures QuestionBlocks(qs)[..|QuestionBlocks(qs[..n])|] == QuestionBlocks(qs[..n])
    decreases |qs|
  {
    if n == |qs| {
      assert qs[..n] == qs;
    } else {
      var front := qs[..|qs| - 1];
      assert front[..n] == qs[..n];
      QuestionBlocksPrefix(front, n);
      QuestionBlocksSnoc(qs);
      var before := QuestionBlocks(front);
      assert QuestionBlocks(qs)[..|before|] == before;
    }
  }

  /** The header is the third operation of a block. */
  lemma BlockHeader(q: QuestionRow, index: nat)
    ensures |QuestionBlock(q, index)| >= 4
    ensures QuestionBlock(q, index)[2] == Text(QuestionHeader(q, index), Left)
  {
  }

  /** A question whose number field is empty is labelled by its position:
      the label reads back as `index + 1`; a set number is used as is; a
      mark reads back as itself and a missing one prints as "null". */
  lemma UnnumberedQuestionLabel(q: QuestionRow, index: nat)
    ensures !TextTruthy(q.number) ==> ParseInt(QuestionLabel(q, index)) == Some(index + 1)
    ensures TextTruthy(q.number) ==> QuestionLabel(q, index) == q.number.value
    ensures q.marks.Some? ==> ParseInt(MarksText(q)) == Some(q.marks.value)
    ensures q.marks.None? ==> MarksText(q) == "null"
  {
    ParseIntToString(index + 1);
    if q.marks.Some? {
      ParseIntToString(q.marks.value);
    }
  }
}
