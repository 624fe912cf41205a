/** Reading the matrix of cells of a UFCD listing: columns, rows accepted, lines skipped. */
module UfcdImport {
  import opened Wrappers
  import opened Text

  datatype Row = Row(code: string, name: string, area: Option<string>, hours: Option<nat>, level: Option<string>)

  datatype Reason = InvalidCode(code: string) | MissingName(code: string) | DuplicateCode(code: string)

  datatype Skip = Skip(line: nat, reason: Reason)

  datatype Format = Csv | Xlsx

  datatype Parsed = Parsed(rows: seq<Row>, skipped: seq<Skip>, headers: seq<string>, format: Format)

  datatype ParseError = EmptyFile | UnknownHeaders | NoValidRow

  // ---- Headers ----

  datatype Field = Code | Name | Area | Hours | Level

  const CODE_HEADERS := {"codigo", "código", "code", "codigo ufcd", "código ufcd", "codigo da ufcd", "código da ufcd"}

  const NAME_HEADERS := {"ufcd", "designacao", "designação", "designacao_ufcd", "designacao ufcd", "designação ufcd",
                         "nome", "titulo", "título"}

  const AREA_HEADERS := {"area", "área", "area de educacao e formacao", "área de educação e formação",
                         "areas de educacao e formacao", "áreas de educação e formação",
                         "designacao area de formacao", "designação área de formação", "aef"}

  const HOURS_HEADERS := {"cargahoras", "carga horas", "carga horaria", "carga horária", "carga horaria ufcd",
                          "carga horária ufcd", "horas", "duracao", "duração", "ch"}

  const LEVEL_HEADERS := {"nivelqnq", "nivel qnq", "nível qnq", "nivel", "nível", "qnq"}

  function HeaderField(h: string): Option<Field> {
    if h in CODE_HEADERS then Some(Code)
    else if h in NAME_HEADERS then Some(Name)
    else if h in AREA_HEADERS then Some(Area)
    else if h in HOURS_HEADERS then Some(Hours)
    else if h in LEVEL_HEADERS then Some(Level)
    else None
  }

  /** The headings of the national listing, in plain lower case. */
  lemma NationalHeadings()
    ensures HeaderField("codigo ufcd") == Some(Code) && HeaderField("ufcd") == Some(Name)
    ensures HeaderField("carga horaria ufcd") == Some(Hours) && HeaderField("nivel qnq") == Some(Level)
    ensures HeaderField("designacao area de formacao") == Some(Area)
  {
  }

  /** For each field, the column it is read from. */
  type Columns = map<Field, nat>

  /** Each field is read from the first column headed by it. */
  predicate FirstColumns(headers: seq<string>, cols: Columns) {
    && (forall f :: f in cols ==>
          cols[f] < |headers| && HeaderField(headers[cols[f]]) == Some(f)
          && forall j :: 0 <= j < cols[f] ==> HeaderField(headers[j]) != Some(f))
    && (forall j :: 0 <= j < |headers| && HeaderField(headers[j]).Some? ==> HeaderField(headers[j]).value in cols)
  }

  method MapHeaders(headers: seq<string>) returns (cols: Columns)
    ensures FirstColumns(headers, cols)
  {
    hide HeaderField;
    cols := map[];
    for i := 0 to |headers|
      invariant FirstColumns(headers[..i], cols)
    {
      var key := HeaderField(headers[i]);
      if key.Some? && key.value !in cols {
        cols := cols[key.value := i];
      }
      assert forall j :: 0 <= j < i ==> headers[..i + 1][j] == headers[..i][j];
    }
    assert headers[..|headers|] == headers;
  }

  lemma FirstColumnsUnique(headers: seq<string>, a: Columns, b: Columns)
    requires FirstColumns(headers, a) && FirstColumns(headers, b)
    ensures a == b
  {
    hide HeaderField;
    forall f | f in a
      ensures f in b && b[f] == a[f]
    {
      assert HeaderField(headers[a[f]]) == Some(f);
    }
    forall f | f in b
      ensures f in a
    {
      assert HeaderField(headers[b[f]]) == Some(f);
    }
  }

  // ---- Cells ----

  predicate ValidCode(code: string) {
    var c := Trim(code);
    3 <= |c| <= 5 && AllDigits(c)
  }

  function ReplaceFirst(s: string, from: char, to: char): string {
    if s == "" then "" else if s[0] == from then [to] + s[1..] else [s[0]] + ReplaceFirst(s[1..], from, to)
  }

  function FromFirstDigit(s: string): string {
    if s == "" || IsDigit(s[0]) then s else FromFirstDigit(s[1..])
  }

  function DigitRun(s: string): (r: string)
    ensures AllDigits(r) && |r| <= |s|
    ensures s != "" && IsDigit(s[0]) ==> r != ""
  {
    if s == "" || !IsDigit(s[0]) then "" else [s[0]] + DigitRun(s[1..])
  }

  /** The first number of the text, a decimal comma allowed, rounded half up; 1 to 1000 or nothing. */
  function ParseHours(raw: string): (r: Option<nat>)
    ensures r.Some? ==> 1 <= r.value <= 1000
  {
    var t := FromFirstDigit(ReplaceFirst(Trim(raw), ',', '.'));
    if t == "" then None
    else
      var whole := DigitRun(t);
      var rest := t[|whole|..];
      var up := |rest| > 1 && rest[0] == '.' && '5' <= rest[1] <= '9';
      var n := Value(whole) + if up then 1 else 0;
      if 0 < n <= 1000 then Some(n) else None
  }

  /** The first digit, or failing that the first eight characters. */
  function ParseLevel(raw: string): Option<string> {
    var t := Trim(raw);
    if t == "" then None
    else
      var d := FromFirstDigit(t);
      Some(if d != "" then [d[0]] else Take(t, 8))
  }

  lemma {:induction false} FirstDigitOf(s: string) returns (i: nat)
    ensures i <= |s| && FromFirstDigit(s) == s[i..] && (i < |s| ==> IsDigit(s[i])) && forall j :: 0 <= j < i ==> !IsDigit(s[j])
  {
    if s == "" || IsDigit(s[0]) {
      i := 0;
    } else {
      var k := FirstDigitOf(s[1..]);
      i := k + 1;
      assert forall j :: 1 <= j < |s| ==> s[j] == s[1..][j - 1];
    }
  }

  /** The level is the first digit of the text; without a digit the text itself, up to eight characters; nothing if blank. */
  lemma LevelIff(raw: string)
    ensures var (t, l) := (Trim(raw), ParseLevel(raw));
            && (l == None <==> t == "")
            && (t != "" && (forall c :: c in t ==> !IsDigit(c)) ==> l == Some(if |t| <= 8 then t else t[..8]))
            && (forall i :: 0 <= i < |t| && IsDigit(t[i]) && (forall j :: 0 <= j < i ==> !IsDigit(t[j])) ==> l == Some([t[i]]))
  {
    var t := Trim(raw);
    var k := FirstDigitOf(t);
    hide Trim, FromFirstDigit;
    assert k < |t| ==> t[k] in t;
    assert forall i :: 0 <= i < |t| && IsDigit(t[i]) && (forall j :: 0 <= j < i ==> !IsDigit(t[j])) ==> i == k;
  }

  function Cell(cells: seq<string>, cols: Columns, f: Field): string {
    if f in cols && cols[f] < |cells| then cells[cols[f]] else ""
  }

  function PadStart(s: string): string
    decreases 4 - |s|
  {
    if |s| >= 4 then s else PadStart(['0'] + s)
  }

  /** Spreadsheets lose leading zeros of the code; they are put back. */
  function CodeOf(cells: seq<string>, cols: Columns, format: Format): string {
    var code := Trim(Cell(cells, cols, Code));
    if format == Xlsx && 1 <= |code| <= 3 && AllDigits(code) then PadStart(code) else code
  }

  function NameOf(cells: seq<string>, cols: Columns): string { Trim(Cell(cells, cols, Name)) }

  function RowOf(cells: seq<string>, cols: Columns, format: Format): Row {
    var area := Trim(Cell(cells, cols, Area));
    Row(CodeOf(cells, cols, format), Take(NameOf(cells, cols), 500),
        if area != "" then Some(Take(area, 200)) else None,
        ParseHours(Cell(cells, cols, Hours)), ParseLevel(Cell(cells, cols, Level)))
  }

  // ---- Lines ----

  /** The line would be a row if its code had not been seen. */
  predicate Eligible(cells: seq<string>, cols: Columns, format: Format) {
    ValidCode(CodeOf(cells, cols, format)) && |NameOf(cells, cols)| >= 2
  }

  predicate EmptyCells(cells: seq<string>, cols: Columns, format: Format) {
    CodeOf(cells, cols, format) == "" && NameOf(cells, cols) == ""
  }

  datatype LineOutcome = Ignored | Accepted(row: Row) | Refused(reason: Reason)

  /** What becomes of the k-th data line; a code belongs to the first eligible line that has it. */
  function Outcome(lines: seq<seq<string>>, k: nat, cols: Columns, format: Format): LineOutcome
    requires k < |lines|
  {
    var cells := lines[k];
    var code := CodeOf(cells, cols, format);
    if EmptyCells(cells, cols, format) then Ignored
    else if !ValidCode(code) then Refused(InvalidCode(code))
    else if |NameOf(cells, cols)| < 2 then Refused(MissingName(code))
    else if exists j :: 0 <= j < k && Eligible(lines[j], cols, format) && CodeOf(lines[j], cols, format) == code
    then Refused(DuplicateCode(code))
    else Accepted(RowOf(cells, cols, format))
  }

  function AcceptedRows(lines: seq<seq<string>>, n: nat, cols: Columns, format: Format): seq<Row>
    requires n <= |lines|
  {
    if n == 0 then [] else
      var o := Outcome(lines, n - 1, cols, format);
      AcceptedRows(lines, n - 1, cols, format) + if o.Accepted? then [o.row] else []
  }

  function SkippedLines(lines: seq<seq<string>>, n: nat, start: nat, cols: Columns, format: Format): seq<Skip>
    requires n <= |lines|
  {
    if n == 0 then [] else
      var o := Outcome(lines, n - 1, cols, format);
      SkippedLines(lines, n - 1, start, cols, format) + if o.Refused? then [Skip(start + n, o.reason)] else []
  }

  function EligibleCodes(lines: seq<seq<string>>, n: nat, cols: Columns, format: Format): set<string>
    requires n <= |lines|
  {
    set k | 0 <= k < n && Eligible(lines[k], cols, format) :: CodeOf(lines[k], cols, format)
  }

  method ReadLines(lines: seq<seq<string>>, start: nat, cols: Columns, format: Format) returns (rows: seq<Row>, skipped: seq<Skip>)
    ensures rows == AcceptedRows(lines, |lines|, cols, format)
    ensures skipped == SkippedLines(lines, |lines|, start, cols, format)
  {
    hide CodeOf, NameOf, RowOf, ValidCode;
    rows, skipped := [], [];
    var seen: set<string> := {};
    for k := 0 to |lines|
      invariant rows == AcceptedRows(lines, k, cols, format)
      invariant skipped == SkippedLines(lines, k, start, cols, format)
      invariant seen == EligibleCodes(lines, k, cols, format)
    {
      var cells := lines[k];
      var code, name := CodeOf(cells, cols, format), NameOf(cells, cols);
      assert EligibleCodes(lines, k + 1, cols, format) ==
             EligibleCodes(lines, k, cols, format) + if Eligible(cells, cols, format) then {code} else {};
      if code == "" && name == "" {
        assert Outcome(lines, k, cols, format) == Ignored;
        EmptyNotEligible(cells, cols, format);
        continue;
      }
      if !ValidCode(code) {
        skipped := skipped + [Skip(start + k + 1, InvalidCode(code))];
        continue;
      }
      if |name| < 2 {
        skipped := skipped + [Skip(start + k + 1, MissingName(code))];
        continue;
      }
      if code in seen {
        skipped := skipped + [Skip(start + k + 1, DuplicateCode(code))];
        continue;
      }
      seen := seen + {code};
      rows := rows + [RowOf(cells, cols, format)];
    }
  }

  lemma EmptyNotEligible(cells: seq<string>, cols: Columns, format: Format)
    requires EmptyCells(cells, cols, format)
    ensures !Eligible(cells, cols, format)
  {
  }

  // ---- The whole matrix ----

  predicate Blank(cells: seq<string>) { forall c :: c in cells ==> Trim(c) == "" }

  function NonBlank(matrix: seq<seq<string>>): (lines: seq<seq<string>>)
    ensures forall l :: l in lines <==> l in matrix && !Blank(l)
  {
    if matrix == [] then [] else
      assert matrix == matrix[..|matrix| - 1] + [matrix[|matrix| - 1]];
      NonBlank(matrix[..|matrix| - 1]) + if Blank(matrix[|matrix| - 1]) then [] else [matrix[|matrix| - 1]]
  }

  const DEFAULT_COLUMNS: Columns := map[Code := 0, Name := 1, Area := 2, Hours := 3, Level := 4]
  const DEFAULT_HEADERS := ["codigo", "designacao", "area", "cargaHoras", "nivelQnq"]

  function TrimAll(cells: seq<string>): seq<string> {
    seq(|cells|, i requires 0 <= i < |cells| => Trim(cells[i]))
  }

  /** Headings are reported and looked up without the white space around them. */
  lemma HeadsTrimmed(cells: seq<string>, i: nat)
    requires i < |cells|
    ensures |TrimAll(cells)| == |cells| && Trimmed(TrimAll(cells)[i]) && TrimAll(cells)[i] == Trim(cells[i])
  {
    var _, _ := TrimCutsEnds(cells[i]);
  }

  function NormalizeAll(cells: seq<string>, normalize: string -> string): seq<string> {
    seq(|cells|, i requires 0 <= i < |cells| => normalize(cells[i]))
  }

  /** The columns the headers name, or the default ones when the first line already is data. */
  datatype Layout = Named(cols: Columns) | Headerless | Unrecognised

  ghost predicate LayoutOf(first: seq<string>, normalize: string -> string, layout: Layout) {
    var heads := TrimAll(first);
    exists cols :: FirstColumns(NormalizeAll(heads, normalize), cols) &&
      layout ==
        if Code in cols && Name in cols then Named(cols)
        else if |heads| > 1 && ValidCode(heads[0]) && |heads[1]| >= 2 then Headerless
        else Unrecognised
  }

  ghost predicate MatrixResult(matrix: seq<seq<string>>, format: Format, normalize: string -> string,
                               r: Result<Parsed, ParseError>)
  {
    var lines := NonBlank(matrix);
    if lines == [] then r == Err(EmptyFile)
    else
      exists layout :: LayoutOf(lines[0], normalize, layout) &&
        match layout
        case Unrecognised => r == Err(UnknownHeaders)
        case Named(cols) => r == Reply(lines[1..], 1, cols, TrimAll(lines[0]), format)
        case Headerless => r == Reply(lines, 0, DEFAULT_COLUMNS, DEFAULT_HEADERS, format)
  }

  /** Some cell holds more than white space. */
  predicate Filled(cells: seq<string>) { exists c :: c in cells && !(forall x :: x in c ==> IsSpace(x)) }

  lemma BlankIffNotFilled(cells: seq<string>)
    ensures Blank(cells) <==> !Filled(cells)
  {
    forall c | c in cells
      ensures Trim(c) == "" <==> forall x :: x in c ==> IsSpace(x)
    {
      BlankIff(c);
    }
    hide Trim;
  }

  /** The refusals of a whole listing: nothing in it, headings unknown and no data in their place, no valid row. */
  lemma RefusedIff(matrix: seq<seq<string>>, format: Format, normalize: string -> string, r: Result<Parsed, ParseError>, cols: Columns)
    requires MatrixResult(matrix, format, normalize, r)
    requires var lines := NonBlank(matrix); lines != [] ==> FirstColumns(NormalizeAll(TrimAll(lines[0]), normalize), cols)
    ensures r == Err(EmptyFile) <==> forall l :: l in matrix ==> !Filled(l)
    ensures var lines := NonBlank(matrix);
            lines != [] ==>
              var heads := TrimAll(lines[0]);
              && (r == Err(UnknownHeaders) <==>
                    !(Code in cols && Name in cols) && !(|heads| > 1 && ValidCode(heads[0]) && |heads[1]| >= 2))
              && (Code in cols && Name in cols ==> r == Reply(lines[1..], 1, cols, heads, format))
              && (!(Code in cols && Name in cols) && |heads| > 1 && ValidCode(heads[0]) && |heads[1]| >= 2 ==>
                    r == Reply(lines, 0, DEFAULT_COLUMNS, DEFAULT_HEADERS, format))
  {
    var lines := NonBlank(matrix);
    forall l
      ensures Blank(l) <==> !Filled(l)
    {
      BlankIffNotFilled(l);
    }
    hide Blank, Filled, AcceptedRows, SkippedLines, ValidCode, TrimAll, NormalizeAll, DEFAULT_HEADERS;
    if lines == [] {
      assert forall l :: l in matrix ==> l !in lines;
    } else {
      assert lines[0] in lines;
      forall other | FirstColumns(NormalizeAll(TrimAll(lines[0]), normalize), other)
        ensures other == cols
      {
        FirstColumnsUnique(NormalizeAll(TrimAll(lines[0]), normalize), other, cols);
      }
      hide FirstColumns;
    }
  }

  function Reply(data: seq<seq<string>>, start: nat, cols: Columns, headers: seq<string>, format: Format): Result<Parsed, ParseError> {
    var rows := AcceptedRows(data, |data|, cols, format);
    if rows == [] then Err(NoValidRow)
    else Ok(Parsed(rows, SkippedLines(data, |data|, start, cols, format), headers, format))
  }

  method ParseUfcdImportMatrix(matrix: seq<seq<string>>, format: Format, normalize: string -> string)
    returns (r: Result<Parsed, ParseError>)
    ensures MatrixResult(matrix, format, normalize, r)
  {
    hide FirstColumns, ValidCode, AcceptedRows, SkippedLines;
    var lines := NonBlank(matrix);
    if |lines| < 1 {
      return Err(EmptyFile);
    }
    var heads := TrimAll(lines[0]);
    var cols := MapHeaders(NormalizeAll(heads, normalize));
    var start, headers := 1, heads;
    ghost var layout := Named(cols);
    if Code !in cols || Name !in cols {
      if |heads| == 0 || !ValidCode(heads[0]) || (if |heads| > 1 then |heads[1]| else 0) < 2 {
        assert LayoutOf(lines[0], normalize, Unrecognised);
        return Err(UnknownHeaders);
      }
      layout := Headerless;
      cols, start, headers := DEFAULT_COLUMNS, 0, DEFAULT_HEADERS;
    }
    assert LayoutOf(lines[0], normalize, layout);
    assert lines[0..] == lines;
    var rows, skipped := ReadLines(lines[start..], start, cols, format);
    r := if |rows| == 0 then Err(NoValidRow) else Ok(Parsed(rows, skipped, headers, format));
    assert r == Reply(lines[start..], start, cols, headers, format);
  }
}
