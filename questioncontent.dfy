/** How `getQuestions` prepares each fetched question row: the stored table
    is parsed when it is text, serialised to HTML by `formatTableToHTML`, and
    the row is tagged with the kinds of content it holds. */
module QuestionContent {
  import opened Common

  // ---- JSON values as the serialiser sees them ----

  /** A `headers` or `rows` property: falsy (missing, `null`, ...), a truthy
      value that is not an array (its `forEach` throws), or an array. */
  datatype Slot<T> = Falsy | NotArray | Items(items: T)

  /** One element of `rows`: an array of cells (each as the text the template
      literal renders), or anything else (its `forEach` throws). */
  datatype Row = Cells(cells: seq<string>) | NotARow

  /** A parsed `table_data` value: a scalar (`null`, a number, a boolean)
      with its truthiness, a string, or an object with its two properties. */
  datatype Json =
    | JScalar(truthy: bool)
    | JString(s: string)
    | JObject(headers: Slot<seq<string>>, rows: Slot<seq<Row>>)

  predicate Truthy(v: Json) {
    match v
    case JScalar(t) => t
    case JString(s) => s != ""
    case JObject(_, _) => true
  }

  const JNull := JScalar(false)

  // ---- the HTML text ----

  const TableOpen := "<table class=\"question-table\">\n"
  const HeadOpen := "  <thead>\n    <tr>\n"
  const HeadClose := "    </tr>\n  </thead>\n"
  const BodyOpen := "  <tbody>\n"
  const RowOpen := "    <tr>\n"
  const RowClose := "    </tr>\n"
  const TableClose := "  </tbody>\n</table>"

  function HeaderLine(h: string): string {
    "      <th>" + h + "</th>\n"
  }

  function CellLine(c: string): string {
    "      <td>" + c + "</td>\n"
  }

  /** The lines of `xs`, one after the other, in order. */
  function Lines<T>(xs: seq<T>, line: T -> string): string {
    if xs == [] then [] else Lines(xs[..|xs| - 1], line) + line(xs[|xs| - 1])
  }

  function RowBlock(cells: seq<string>): string {
    RowOpen + Lines(cells, CellLine) + RowClose
  }

  /** The serialised table, headers and cells written verbatim. */
  function TableHtml(headers: seq<string>, rows: seq<seq<string>>): string {
    TableOpen + HeadOpen + Lines(headers, HeaderLine) + HeadClose
    + BodyOpen + Lines(rows, RowBlock) + TableClose
  }

  predicate AllRows(rows: seq<Row>) {
    forall k :: 0 <= k < |rows| ==> rows[k].Cells?
  }

  function CellsOf(rows: seq<Row>): (r: seq<seq<string>>)
    requires AllRows(rows)
    ensures |r| == |rows| && forall k :: 0 <= k < |rows| ==> r[k] == rows[k].cells
  {
    if rows == [] then [] else CellsOf(rows[..|rows| - 1]) + [rows[|rows| - 1].cells]
  }

  /** What `formatTableToHTML` returns: `null` when the value is falsy or
      lacks truthy `headers` or `rows`, `null` when one of the `forEach`
      calls throws, and the HTML text otherwise. */
  function FormatTable(v: Json): (html: Option<string>)
    ensures html.Some? <==>
      (v.JObject? && v.headers.Items? && v.rows.Items? && AllRows(v.rows.items))
    ensures html.Some? ==> html.value == TableHtml(v.headers.items, CellsOf(v.rows.items))
  {
    if v.JObject? && v.headers.Items? && v.rows.Items? && AllRows(v.rows.items)
    then Some(TableHtml(v.headers.items, CellsOf(v.rows.items)))
    else None
  }

  /** `formatTableToHTML`: the guard, then `html +=` over the headers, then
      over the rows and, for each row, over its cells. */
  method FormatTableToHtml(v: Json) returns (html: Option<string>)
    ensures html == FormatTable(v)
  {
    if !v.JObject? || v.headers.Falsy? || v.rows.Falsy? {
      return None;
    }
    if v.headers.NotArray? {
      return None;
    }
    var s := AppendLines(TableOpen + HeadOpen, v.headers.items, HeaderLine);
    s := s + HeadClose;
    if v.rows.NotArray? {
      return None;
    }
    var rows := v.rows.items;
    s := s + BodyOpen;
    var body := s;
    var j := 0;
    assert rows[..0] == [];
    while j < |rows|
      invariant 0 <= j <= |rows|
      invariant AllRows(rows[..j])
      invariant s == body + Lines(CellsOf(rows[..j]), RowBlock)
    {
      if rows[j].NotARow? {
        return None;
      }
      s := s + RowOpen;
      s := AppendLines(s, rows[j].cells, CellLine);
      s := s + RowClose;
      NextRow(body, rows, j, s);
      j := j + 1;
    }
    assert rows[..j] == rows;
    s := s + TableClose;
    html := Some(s);
  }

  /** One `forEach` writing a line per element onto `start`. */
  method AppendLines<T>(start: string, xs: seq<T>, line: T -> string) returns (s: string)
    ensures s == start + Lines(xs, line)
  {
    s := start;
    var i := 0;
    assert xs[..0] == [];
    while i < |xs|
      invariant 0 <= i <= |xs|
      invariant s == start + Lines(xs[..i], line)
    {
      LinesSnoc(xs, i, line);
      s := s + line(xs[i]);
      i := i + 1;
    }
    assert xs[..i] == xs;
  }

  lemma LinesSnoc<T>(xs: seq<T>, i: nat, line: T -> string)
    requires i < |xs|
    ensures Lines(xs[..i + 1], line) == Lines(xs[..i], line) + line(xs[i])
  {
    assert xs[..i + 1][..i] == xs[..i];
  }

  lemma NextRow(body: string, rows: seq<Row>, j: nat, s: string)
    requires j < |rows| && AllRows(rows[..j]) && rows[j].Cells?
    requires s == body + Lines(CellsOf(rows[..j]), RowBlock) + RowOpen + Lines(rows[j].cells, CellLine) + RowClose
    ensures AllRows(rows[..j + 1])
    ensures s == body + Lines(CellsOf(rows[..j + 1]), RowBlock)
  {
    CellsOfSnoc(rows, j);
    var done := Lines(CellsOf(rows[..j]), RowBlock);
    LinesOfSnoc(CellsOf(rows[..j]), rows[j].cells, RowBlock);
    var cells := Lines(rows[j].cells, CellLine);
    AppendAssociates(body + done, RowOpen, cells);
    AppendAssociates(body + done, RowOpen + cells, RowClose);
    AppendAssociates(body, done, RowBlock(rows[j].cells));
  }

  lemma CellsOfSnoc(rows: seq<Row>, j: nat)
    requires j < |rows| && AllRows(rows[..j]) && rows[j].Cells?
    ensures AllRows(rows[..j + 1])
    ensures CellsOf(rows[..j + 1]) == CellsOf(rows[..j]) + [rows[j].cells]
  {
    assert rows[..j + 1][..j] == rows[..j];
  }

  lemma LinesOfSnoc<T>(xs: seq<T>, x: T, line: T -> string)
    ensures Lines(xs + [x], line) == Lines(xs, line) + line(x)
  {
    assert (xs + [x])[..|xs|] == xs;
  }

  // ---- properties of the serialisation ----

  lemma {:induction false} LinesConcat<T>(a: seq<T>, b: seq<T>, line: T -> string)
    ensures Lines(a + b, line) == Lines(a, line) + Lines(b, line)
    decreases |b|
  {
    if b == [] {
      assert a + b == a;
    } else {
      assert (a + b)[..|a + b| - 1] == a + b[..|b| - 1];
      LinesConcat(a, b[..|b| - 1], line);
    }
  }

  /** Element `k` contributes exactly its own line, between the lines of
      the elements before it and those after it: one line per element, in
      order. With `HeaderLine` this is one `<th>` per header; with `RowBlock`
      one `<tr>` block per row, and with `CellLine` one `<td>` per cell. */
  lemma LinesAt<T>(xs: seq<T>, k: nat, line: T -> string)
    requires k < |xs|
    ensures Lines(xs, line) == Lines(xs[..k], line) + line(xs[k]) + Lines(xs[k + 1..], line)
  {
    assert xs == xs[..k + 1] + xs[k + 1..];
    LinesConcat(xs[..k + 1], xs[k + 1..], line);
    LinesSnoc(xs, k, line);
  }

  /** Headers are not escaped: a header holding markup that closes one
      header cell and opens another is serialised exactly like the two
      headers on either side of it, so different tables give the same HTML. */
  lemma NoEscaping(a: string, b: string)
    ensures Lines([a + "</th>\n      <th>" + b], HeaderLine) == Lines([a, b], HeaderLine)
  {
    LinesOfOne([a + "</th>\n      <th>" + b], HeaderLine);
    LinesOfOne([a, b][..1], HeaderLine);
    assert [a, b][..1] == [a];
    SplitHeader(a, b);
  }

  lemma LinesOfOne<T>(xs: seq<T>, line: T -> string)
    requires |xs| == 1
    ensures Lines(xs, line) == line(xs[0])
  {
    assert xs[..0] == [];
  }

  lemma SplitHeader(a: string, b: string)
    ensures HeaderLine(a + "</th>\n      <th>" + b) == HeaderLine(a) + HeaderLine(b)
  {
    var open, close := "      <th>", "</th>\n";
    assert "</th>\n      <th>" == close + open;
    assert HeaderLine(a + (close + open) + b) == open + a + close + open + b + close;
  }

  // ---- normalisation of one fetched row ----

  /** The fields of a `questions` row the normalisation reads. */
  datatype QuestionRecord = QuestionRecord(
    id: int,
    parentId: Option<int>,
    text: Option<string>,
    latex: Option<string>,
    imageUrl: Option<string>,
    tableData: Json)

  datatype ContentTypes = ContentTypes(hasText: bool, hasLatex: bool, hasTable: bool, hasImage: bool)

  /** A row as returned: the (possibly replaced) row fields; `table_html`,
      which is only set when the row had a truthy `table_data` (`None`),
      and may be `null` (`Some(None)`); whether `has_latex` was set; the
      `content_types` flags; and the attached `sub_questions`, if any. */
  datatype Processed = Processed(
    record: QuestionRecord,
    tableHtml: Option<Option<string>>,
    latexFlag: bool,
    contentTypes: ContentTypes,
    subQuestions: Option<seq<Processed>>)

  /** The table step: `JSON.parse` (`parse`, `None` when it throws) is only
      applied to text; a parse failure nulls both `table_data` and
      `table_html`. The result is the new `table_data` and `table_html`. */
  function ProcessTable(data: Json, parse: string -> Option<Json>): (Json, Option<Option<string>>) {
    if !Truthy(data) then (data, None)
    else if data.JString? then
      match parse(data.s)
      case None => (JNull, Some(None))
      case Some(v) => (v, Some(FormatTable(v)))
    else (data, Some(FormatTable(data)))
  }

  /** The `questions.map` callback (and the identical one for sub-questions). */
  function Normalize(q: QuestionRecord, parse: string -> Option<Json>): (p: Processed)
    ensures p.record.(tableData := q.tableData) == q
    ensures p.subQuestions.None?
  {
    var (data, html) := ProcessTable(q.tableData, parse);
    Processed(
      q.(tableData := data),
      html,
      TextTruthy(q.latex),
      ContentTypes(TextTruthy(q.text), TextTruthy(q.latex), Truthy(data), TextTruthy(q.imageUrl)),
      None)
  }

  /** The outcomes of the table step, case by case. */
  lemma TableOutcomes(q: QuestionRecord, parse: string -> Option<Json>)
    ensures var p := Normalize(q, parse);
      && (!Truthy(q.tableData) ==> p.record == q && p.tableHtml.None? && !p.contentTypes.hasTable)
      && (Truthy(q.tableData) && q.tableData.JString? && parse(q.tableData.s).None? ==>
            p.record.tableData == JNull && p.tableHtml == Some(None) && !p.contentTypes.hasTable)
      && (Truthy(q.tableData) && q.tableData.JString? && parse(q.tableData.s).Some? ==>
            p.record.tableData == parse(q.tableData.s).value
            && p.tableHtml == Some(FormatTable(parse(q.tableData.s).value)))
      && (Truthy(q.tableData) && !q.tableData.JString? ==>
            p.record == q && p.tableHtml == Some(FormatTable(q.tableData)))
  {
  }

  /** The flags: text, LaTeX and image from the raw fields, the table from
      the processed `table_data`; `has_latex` is set exactly when the
      LaTeX flag is. */
  lemma ContentFlags(q: QuestionRecord, parse: string -> Option<Json>)
    ensures var p := Normalize(q, parse);
      && p.contentTypes.hasText == TextTruthy(q.text)
      && p.contentTypes.hasLatex == TextTruthy(q.latex) == p.latexFlag
      && p.contentTypes.hasImage == TextTruthy(q.imageUrl)
      && p.contentTypes.hasTable == Truthy(p.record.tableData)
  {
  }

  /** A table that parses but cannot be serialised keeps its data: the row
      reports a table while its `table_html` is `null`. */
  lemma TableWithoutHtml(q: QuestionRecord, parse: string -> Option<Json>)
    requires q.tableData == JObject(NotArray, Items([]))
    ensures Normalize(q, parse).contentTypes.hasTable
    ensures Normalize(q, parse).tableHtml == Some(None)
  {
  }

  function NormalizeAll(qs: seq<QuestionRecord>, parse: string -> Option<Json>): (ps: seq<Processed>)
    ensures |ps| == |qs|
    ensures forall k :: 0 <= k < |qs| ==> ps[k] == Normalize(qs[k], parse)
  {
    seq(|qs|, k requires 0 <= k < |qs| => Normalize(qs[k], parse))
  }

  /** A failure in one row touches that row only: two batches that differ
      in row `k` alone are normalised alike everywhere else. */
  lemma FailureIsolated(qs: seq<QuestionRecord>, qs': seq<QuestionRecord>, k: nat, parse: string -> Option<Json>)
    requires |qs| == |qs'| && k < |qs|
    requires forall j :: 0 <= j < |qs| && j != k ==> qs[j] == qs'[j]
    ensures forall j :: 0 <= j < |qs| && j != k ==>
      NormalizeAll(qs, parse)[j] == NormalizeAll(qs', parse)[j]
  {
  }
}
