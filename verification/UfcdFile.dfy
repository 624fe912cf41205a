/** A whole CSV/TSV listing: its lines, its delimiter, and the round trip through a printer. */
module UfcdFile {
  import opened Wrappers
  import opened Text
  import opened UfcdLine
  import opened UfcdImport

  const BOM := 0xFEFF as char

  function StripBom(s: string): string { if s != "" && s[0] == BOM then s[1..] else s }

  /** CR LF and lone CR both become LF. */
  function NormalizeNewlines(s: string): string {
    if s == "" then ""
    else if s[0] == '\r' then
      ['\n'] + NormalizeNewlines(if |s| > 1 && s[1] == '\n' then s[2..] else s[1..])
    else [s[0]] + NormalizeNewlines(s[1..])
  }

  function SplitLines(s: string, cur: string): (lines: seq<string>)
    ensures lines != []
    decreases |s|
  {
    if s == "" then [cur]
    else if s[0] == '\n' then [cur] + SplitLines(s[1..], "")
    else SplitLines(s[1..], cur + [s[0]])
  }

  function NonBlankLines(lines: seq<string>): seq<string> {
    if lines == [] then [] else
      (if Trim(lines[0]) != "" then [lines[0]] else []) + NonBlankLines(lines[1..])
  }

  /** The commonest of the three delimiters in the header, earlier ones first on a tie. */
  function DetectDelimiter(header: string): char {
    var (semi, tab, comma) := (Count(header, ';'), Count(header, '\t'), Count(header, ','));
    if semi >= tab && semi >= comma then ';'
    else if tab >= comma then '\t'
    else ','
  }

  /** Nothing occurs more often than what is chosen; on a tie the semicolon goes first, then the tab. */
  lemma DelimiterIff(header: string)
    ensures var (d, semi, tab, comma) := (DetectDelimiter(header), Count(header, ';'), Count(header, '\t'), Count(header, ','));
            && (d == ';' <==> semi >= tab && semi >= comma)
            && (d == '\t' <==> tab > semi && tab >= comma)
            && (d == ',' <==> comma > semi && comma > tab)
  {
    hide Count;
  }

  // ---- Line ends and the mark at the start ----

  /** How a text can end its lines. */
  datatype LineEnd = Lf | CrLf | Cr

  function EndText(e: LineEnd): string {
    match e
    case Lf => "\n"
    case CrLf => "\r\n"
    case Cr => "\r"
  }

  function WithEnds(s: string, e: LineEnd): string {
    if s == "" then "" else (if s[0] == '\n' then EndText(e) else [s[0]]) + WithEnds(s[1..], e)
  }

  /** Whatever ends its lines, a text is normalised to the same one. */
  lemma {:induction false} EndsNormalized(s: string, e: LineEnd)
    requires '\r' !in s
    ensures NormalizeNewlines(WithEnds(s, e)) == s
    ensures e == Cr ==> WithEnds(s, e) == "" || WithEnds(s, e)[0] != '\n'
  {
    if s == "" {
    } else {
      var rest, t := WithEnds(s[1..], e), WithEnds(s, e);
      assert s[0] in s && s == [s[0]] + s[1..];
      EndsNormalized(s[1..], e);
      if s[0] != '\n' {
        assert t[0] == s[0] && t[1..] == rest;
      } else {
        match e {
          case Lf => assert t[0] == '\n' && t[1..] == rest;
          case CrLf => assert t[0] == '\r' && t[1] == '\n' && t[2..] == rest;
          case Cr => assert t[0] == '\r' && t[1..] == rest;
        }
      }
    }
  }

  /** Line ends of any kind and a byte-order mark make no difference to the lines read. */
  lemma LinesAlike(s: string, e: LineEnd)
    requires '\r' !in s && (s == "" || s[0] != BOM)
    ensures TextLines(WithEnds(s, e)) == TextLines(s) && TextLines([BOM] + WithEnds(s, e)) == TextLines(s)
  {
    EndsNormalized(s, e);
    EndsNormalized(s, Lf);
    NoReturnsKept(s);
    var t := WithEnds(s, e);
    assert ([BOM] + t)[1..] == t;
    assert t == "" || t[0] != BOM;
    hide NormalizeNewlines, NonBlankLines, SplitLines;
  }

  function TextLines(text: string): seq<string> {
    NonBlankLines(SplitLines(NormalizeNewlines(StripBom(text)), ""))
  }

  function SplitAll(lines: seq<string>, d: char): seq<seq<string>> {
    seq(|lines|, i requires 0 <= i < |lines| => Split(lines[i], d))
  }

  ghost predicate CsvResult(text: string, normalize: string -> string, r: Result<Parsed, ParseError>) {
    var lines := TextLines(text);
    if lines == [] then r == Err(EmptyFile)
    else MatrixResult(SplitAll(lines, DetectDelimiter(lines[0])), Csv, normalize, r)
  }

  method ParseUfcdImportCsv(text: string, normalize: string -> string) returns (r: Result<Parsed, ParseError>, delimiter: char)
    ensures CsvResult(text, normalize, r)
    ensures r.Ok? ==> delimiter == DetectDelimiter(TextLines(text)[0])
  {
    hide TextLines, DetectDelimiter, Split, MatrixResult;
    delimiter := ';';
    var lines := TextLines(text);
    if |lines| < 1 {
      return Err(EmptyFile), delimiter;
    }
    delimiter := DetectDelimiter(lines[0]);
    var matrix := [];
    for i := 0 to |lines|
      invariant matrix == SplitAll(lines[..i], delimiter)
    {
      var cells := SplitDelimitedLine(lines[i], delimiter);
      matrix := matrix + [cells];
      assert lines[..i + 1] == lines[..i] + [lines[i]];
    }
    assert lines[..|lines|] == lines;
    r := ParseUfcdImportMatrix(matrix, Csv, normalize);
  }

  // ---- Printing a listing ----

  const HEADER := [Bare("codigo"), Bare("designacao"), Bare("area"), Bare("carga horas"), Bare("nivel qnq")]

  function CellsOf(r: Row): seq<UfcdLine.Cell> {
    [Enclosed(r.code), Enclosed(r.name), Enclosed(r.area.GetOr("")),
     Enclosed(if r.hours.Some? then Numeral(r.hours.value) else ""), Enclosed(r.level.GetOr(""))]
  }

  function PrintRows(rows: seq<Row>, d: char): seq<string> {
    seq(|rows|, i requires 0 <= i < |rows| => PrintLine(CellsOf(rows[i]), d))
  }

  function PrintFile(rows: seq<Row>, d: char): string {
    Join([PrintLine(HEADER, d)] + PrintRows(rows, d), '\n')
  }

  predicate OneLine(s: string) { '\n' !in s && '\r' !in s }

  /** The values a row of a listing can have. */
  predicate Storable(r: Row) {
    && 3 <= |r.code| <= 5 && AllDigits(r.code)
    && 2 <= |r.name| <= 500 && Trimmed(r.name) && OneLine(r.name)
    && (r.area.Some? ==> 1 <= |r.area.value| <= 200 && Trimmed(r.area.value) && OneLine(r.area.value))
    && (r.hours.Some? ==> 1 <= r.hours.value <= 1000)
    && (r.level.Some? ==> OneLine(r.level.value) && Trimmed(r.level.value) && ParseLevel(r.level.value) == r.level)
  }

  predicate Delimiter(d: char) { d == ';' || d == '\t' || d == ',' }

  /** The headers the printer writes, as the parser's normaliser leaves them. */
  predicate FixesHeaders(normalize: string -> string) {
    forall i :: 0 <= i < |HEADER| ==> normalize(HEADER[i].text) == HEADER[i].text
  }

  // ---- Lines come back ----

  lemma {:induction false} NoReturnsKept(s: string)
    requires '\r' !in s
    ensures NormalizeNewlines(s) == s
  {
    if s == "" {
    } else {
      assert s == [s[0]] + s[1..] && s[0] in s;
      NoReturnsKept(s[1..]);
    }
  }

  lemma {:induction false} SplitLinesAppend(line: string, rest: string, cur: string)
    requires '\n' !in line
    ensures SplitLines(line + rest, cur) == SplitLines(rest, cur + line)
  {
    if line == "" {
      assert line + rest == rest && cur + line == cur;
    } else {
      assert line[0] in line && (line + rest)[1..] == line[1..] + rest;
      SplitLinesAppend(line[1..], rest, cur + [line[0]]);
      assert cur + [line[0]] + line[1..] == cur + line;
    }
  }

  lemma {:induction false} SplitLinesJoin(lines: seq<string>)
    requires lines != [] && forall l :: l in lines ==> '\n' !in l
    ensures SplitLines(Join(lines, '\n'), "") == lines
  {
    if |lines| == 1 {
      SplitLinesAppend(lines[0], "", "");
      assert lines[0] + "" == lines[0] && "" + lines[0] == lines[0];
    } else {
      var rest := ['\n'] + Join(lines[1..], '\n');
      SplitLinesAppend(lines[0], rest, "");
      assert lines[0] + ['\n'] + Join(lines[1..], '\n') == lines[0] + rest;
      assert "" + lines[0] == lines[0] && rest[1..] == Join(lines[1..], '\n');
      SplitLinesJoin(lines[1..]);
    }
  }

  lemma {:induction false} AllNonBlank(lines: seq<string>)
    requires forall l :: l in lines ==> Trim(l) != ""
    ensures NonBlankLines(lines) == lines
  {
    if lines == [] {
    } else {
      AllNonBlank(lines[1..]);
      assert lines == [lines[0]] + lines[1..];
    }
  }

  lemma {:induction false} JoinChars(parts: seq<string>, sep: char, c: char)
    requires c != sep && forall p :: p in parts ==> c !in p
    ensures c !in Join(parts, sep)
  {
    if |parts| <= 1 {
    } else {
      JoinChars(parts[1..], sep, c);
    }
  }

  lemma PrintedHasNo(cells: seq<UfcdLine.Cell>, d: char, c: char)
    requires c != d && c != '"' && forall x :: x in cells ==> c !in x.text
    ensures c !in PrintLine(cells, d)
  {
    forall p | p in PrintCells(cells)
      ensures c !in p
    {
      var i :| 0 <= i < |cells| && PrintCells(cells)[i] == p;
      assert cells[i] in cells;
      DoubledKeeps(cells[i].text, c);
    }
    JoinChars(PrintCells(cells), d, c);
  }

  lemma DigitsHaveNo(s: string, c: char)
    requires AllDigits(s) && !IsDigit(c)
    ensures c !in s
  {
  }

  lemma FieldsHaveNo(r: Row, c: char)
    requires Storable(r) && (c == '\n' || c == '\r')
    ensures forall i :: 0 <= i < 5 ==> c !in CellsOf(r)[i].text
  {
    hide ParseLevel, Trimmed, Numeral;
    DigitsHaveNo(r.code, c);
    if r.hours.Some? {
      DigitsHaveNo(Numeral(r.hours.value), c);
    }
  }

  lemma RowHasNo(r: Row, d: char, c: char)
    requires Storable(r) && Delimiter(d) && (c == '\n' || c == '\r')
    ensures c !in PrintLine(CellsOf(r), d)
  {
    FieldsHaveNo(r, c);
    hide Storable, PrintLine, CellsOf;
    PrintedHasNo(CellsOf(r), d, c);
  }

  lemma HeaderHasNo(d: char, c: char)
    requires Delimiter(d) && (c == '\n' || c == '\r')
    ensures c !in PrintLine(HEADER, d)
  {
    hide PrintLine;
    assert forall i :: 0 <= i < 5 ==> c !in HEADER[i].text;
    PrintedHasNo(HEADER, d, c);
  }

  lemma FirstCharNotBlank(s: string)
    requires s != "" && !IsSpace(s[0])
    ensures Trim(s) != ""
  {
    BlankIff(s);
    assert s[0] in s;
  }

  lemma RowLineNotBlank(r: Row, d: char)
    ensures Trim(PrintLine(CellsOf(r), d)) != ""
  {
    hide Trim, Doubled;
    var parts := PrintCells(CellsOf(r));
    assert parts[0] == PrintCell(Enclosed(r.code)) && parts[0][0] == '"';
    var line := PrintLine(CellsOf(r), d);
    assert line[0] == parts[0][0];
    FirstCharNotBlank(line);
  }

  lemma JoinFive(a: string, b: string, c: string, e: string, f: string, d: char)
    ensures Join([a, b, c, e, f], d) == a + [d] + (b + [d] + (c + [d] + (e + [d] + f)))
  {
    assert Join([f], d) == f;
    assert [e, f][1..] == [f] && Join([e, f], d) == e + [d] + f;
    assert [c, e, f][1..] == [e, f] && Join([c, e, f], d) == c + [d] + (e + [d] + f);
    assert [b, c, e, f][1..] == [c, e, f] && Join([b, c, e, f], d) == b + [d] + (c + [d] + (e + [d] + f));
    assert [a, b, c, e, f][1..] == [b, c, e, f];
  }

  lemma HeaderLine(d: char)
    ensures PrintLine(HEADER, d) ==
            "codigo" + [d] + ("designacao" + [d] + ("area" + [d] + ("carga horas" + [d] + "nivel qnq")))
  {
    hide Join;
    assert PrintCells(HEADER) == ["codigo", "designacao", "area", "carga horas", "nivel qnq"];
    JoinFive("codigo", "designacao", "area", "carga horas", "nivel qnq", d);
  }

  lemma CountJoined(a: string, d: char, b: string, c: char)
    requires c !in a
    ensures Count(a + [d] + b, c) == (if c == d then 1 else 0) + Count(b, c)
  {
    CountAppend(a + [d], b, c);
    CountAppend(a, [d], c);
    CountAbsent(a, c);
    assert [d][1..] == "";
  }

  lemma HeaderCount(d: char, c: char)
    requires Delimiter(d) && Delimiter(c)
    ensures Count(PrintLine(HEADER, d), c) == if c == d then 4 else 0
  {
    HeaderLine(d);
    hide Count, PrintLine;
    CountAbsent("nivel qnq", c);
    CountJoined("carga horas", d, "nivel qnq", c);
    var l3 := "carga horas" + [d] + "nivel qnq";
    CountJoined("area", d, l3, c);
    var l2 := "area" + [d] + l3;
    CountJoined("designacao", d, l2, c);
    CountJoined("codigo", d, "designacao" + [d] + l2, c);
  }

  function FileLines(rows: seq<Row>, d: char): seq<string> { [PrintLine(HEADER, d)] + PrintRows(rows, d) }

  lemma PrintedLinesClean(rows: seq<Row>, d: char)
    requires Delimiter(d) && forall r :: r in rows ==> Storable(r)
    ensures forall l :: l in FileLines(rows, d) ==> '\n' !in l && '\r' !in l && Trim(l) != ""
  {
    hide PrintLine, Storable;
    forall l | l in FileLines(rows, d)
      ensures '\n' !in l && '\r' !in l && Trim(l) != ""
    {
      if l == PrintLine(HEADER, d) {
        HeaderHasNo(d, '\n');
        HeaderHasNo(d, '\r');
        HeaderLine(d);
        assert l[0] == 'c';
        FirstCharNotBlank(l);
      } else {
        var i :| 0 <= i < |rows| && PrintRows(rows, d)[i] == l;
        assert rows[i] in rows;
        RowHasNo(rows[i], d, '\n');
        RowHasNo(rows[i], d, '\r');
        RowLineNotBlank(rows[i], d);
      }
    }
  }

  lemma FileStartsWithHeader(rows: seq<Row>, d: char)
    ensures PrintFile(rows, d) != "" && PrintFile(rows, d)[0] == 'c'
  {
    HeaderLine(d);
    hide PrintLine;
    var lines := FileLines(rows, d);
    assert lines[0][0] == 'c';
    assert |lines| > 1 ==> Join(lines, '\n') == lines[0] + ['\n'] + Join(lines[1..], '\n');
  }

  /** The text of a printed listing comes apart into its lines, and the delimiter is recognised. */
  lemma PrintedLinesBack(rows: seq<Row>, d: char)
    requires Delimiter(d) && forall r :: r in rows ==> Storable(r)
    ensures TextLines(PrintFile(rows, d)) == FileLines(rows, d)
    ensures DetectDelimiter(FileLines(rows, d)[0]) == d
  {
    var lines, text := FileLines(rows, d), PrintFile(rows, d);
    PrintedLinesClean(rows, d);
    FileStartsWithHeader(rows, d);
    HeaderCount(d, ';');
    HeaderCount(d, '\t');
    HeaderCount(d, ',');
    hide PrintLine, Storable, Count, Trim, Join, SplitLines, NormalizeNewlines, NonBlankLines, PrintRows;
    JoinChars(lines, '\n', '\r');
    NoReturnsKept(text);
    SplitLinesJoin(lines);
    AllNonBlank(lines);
  }
}
