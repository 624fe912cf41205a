/** A printed listing, read back: every row returns, in order, and no line is skipped. */
module UfcdRoundTrip {
  import opened Wrappers
  import opened Text
  import opened UfcdLine
  import opened UfcdImport
  import opened UfcdAccounting
  import opened UfcdFile
  import opened UfcdCells

  const HEADER_NAMES := ["codigo", "designacao", "area", "carga horas", "nivel qnq"]

  function HoursCell(r: Row): string { if r.hours.Some? then Numeral(r.hours.value) else "" }

  function FieldsOf(r: Row): seq<string> {
    [r.code, r.name, r.area.GetOr(""), HoursCell(r), r.level.GetOr("")]
  }

  function AllFields(rows: seq<Row>): seq<seq<string>> {
    seq(|rows|, i requires 0 <= i < |rows| => FieldsOf(rows[i]))
  }

  // ---- Cells ----

  lemma FieldsTrimmed(r: Row)
    requires Storable(r)
    ensures Trims(CellsOf(r)) == FieldsOf(r)
  {
    DigitsAreTrimmed(r.code);
    DigitsAreTrimmed(HoursCell(r));
    TrimKeeps(r.name);
    TrimKeeps(r.area.GetOr(""));
    TrimKeeps(r.level.GetOr(""));
    hide Trim, Numeral, ParseLevel, OneLine, Trimmed;
  }

  /** The cells of a printed row are read as that row. */
  lemma RowBack(r: Row)
    requires Storable(r)
    ensures RowOf(FieldsOf(r), DEFAULT_COLUMNS, Csv) == r
    ensures Eligible(FieldsOf(r), DEFAULT_COLUMNS, Csv) && CodeOf(FieldsOf(r), DEFAULT_COLUMNS, Csv) == r.code
  {
    DigitsAreTrimmed(r.code);
    TrimKeeps(r.name);
    TrimKeeps(r.area.GetOr(""));
    HoursFieldBack(r);
    LevelFieldBack(r);
    hide Trim, Numeral, ParseLevel, ParseHours, OneLine, Trimmed, HoursCell;
  }

  lemma HoursFieldBack(r: Row)
    requires Storable(r)
    ensures ParseHours(HoursCell(r)) == r.hours
  {
    if r.hours.Some? {
      HoursBack(r.hours.value);
    } else {
      NoHoursBack();
    }
  }

  lemma LevelFieldBack(r: Row)
    requires Storable(r)
    ensures ParseLevel(r.level.GetOr("")) == r.level
  {
  }

  /** A line may end early: the columns it lacks are read as empty. */
  lemma ShortLineBack(code: string, name: string)
    requires Trim(code) == code && Trim(name) == name && |name| <= 500
    ensures RowOf([code, name], DEFAULT_COLUMNS, Csv) == Row(code, name, None, None, None)
    ensures NameOf([code], DEFAULT_COLUMNS) == ""
  {
    assert ParseLevel("") == None && Trim("") == "";
    NoHoursBack();
    hide Trim, ParseLevel, ParseHours;
  }

  // ---- Lines ----

  lemma {:induction false} EveryRowAccepted(rows: seq<Row>, n: nat)
    requires n <= |rows| && DistinctCodes(rows) && forall r :: r in rows ==> Storable(r)
    ensures AcceptedRows(AllFields(rows), n, DEFAULT_COLUMNS, Csv) == rows[..n]
    ensures SkippedLines(AllFields(rows), n, 1, DEFAULT_COLUMNS, Csv) == []
  {
    hide Storable, FieldsOf, RowOf, CodeOf, Eligible, Outcome;
    if n == 0 {
    } else {
      EveryRowAccepted(rows, n - 1);
      var lines := AllFields(rows);
      forall i | 0 <= i < n
        ensures Eligible(lines[i], DEFAULT_COLUMNS, Csv) && CodeOf(lines[i], DEFAULT_COLUMNS, Csv) == rows[i].code
        ensures RowOf(lines[i], DEFAULT_COLUMNS, Csv) == rows[i]
      {
        assert rows[i] in rows;
        RowBack(rows[i]);
      }
      AcceptedIffFirst(lines, n - 1, DEFAULT_COLUMNS, Csv);
      assert rows[..n] == rows[..n - 1] + [rows[n - 1]];
    }
  }

  lemma {:induction false} NothingBlank(matrix: seq<seq<string>>)
    requires forall l :: l in matrix ==> !Blank(l)
    ensures NonBlank(matrix) == matrix
  {
    if matrix == [] {
    } else {
      var front := matrix[..|matrix| - 1];
      assert matrix == front + [matrix[|matrix| - 1]];
      NothingBlank(front);
    }
  }

  lemma FieldsNotBlank(r: Row)
    requires Storable(r)
    ensures !Blank(FieldsOf(r))
  {
    DigitsAreTrimmed(r.code);
    hide Trim, Numeral, ParseLevel, OneLine, Trimmed;
    assert FieldsOf(r)[0] in FieldsOf(r);
  }

  lemma HeaderTrims()
    ensures forall i :: 0 <= i < 5 ==> Trim(HEADER_NAMES[i]) == HEADER_NAMES[i]
    ensures Trims(HEADER) == HEADER_NAMES && TrimAll(HEADER_NAMES) == HEADER_NAMES && !Blank(HEADER_NAMES)
  {
    forall i | 0 <= i < 5
      ensures Trim(HEADER_NAMES[i]) == HEADER_NAMES[i]
    {
      TrimKeeps(HEADER_NAMES[i]);
    }
    hide Trim;
    assert HEADER_NAMES[0] in HEADER_NAMES;
  }

  lemma SplitEach(lines: seq<string>, cells: seq<seq<string>>, d: char)
    requires |lines| == |cells|
    requires forall i :: 0 <= i < |lines| ==> Split(lines[i], d) == cells[i]
    requires forall i :: 0 <= i < |cells| ==> !Blank(cells[i])
    ensures SplitAll(lines, d) == cells && NonBlank(cells) == cells
  {
    hide Split, Blank;
    NothingBlank(cells);
  }

  lemma RowCellsBack(r: Row, d: char)
    requires Delimiter(d) && Storable(r)
    ensures Split(PrintLine(CellsOf(r), d), d) == FieldsOf(r) && !Blank(FieldsOf(r))
  {
    FieldsTrimmed(r);
    FieldsNotBlank(r);
    hide Storable, Blank, FieldsOf;
    SplitPrinted(CellsOf(r), d);
  }

  lemma HeaderCellsBack(d: char)
    requires Delimiter(d)
    ensures Split(PrintLine(HEADER, d), d) == HEADER_NAMES && !Blank(HEADER_NAMES)
  {
    HeaderTrims();
    HeaderPrintable(d);
    hide HEADER, HEADER_NAMES, Split, PrintLine, Blank, Trims, TrimAll, Printable;
    SplitPrinted(HEADER, d);
  }

  predicate Plain(s: string) { forall i :: 0 <= i < |s| ==> s[i] == ' ' || 'a' <= s[i] <= 'z' }

  lemma PlainPrintable(s: string, d: char)
    requires Plain(s) && Delimiter(d)
    ensures Printable(Bare(s), d)
  {
  }

  lemma HeaderPrintable(d: char)
    requires Delimiter(d)
    ensures HEADER != [] && forall c :: c in HEADER ==> Printable(c, d)
  {
    assert Plain("codigo") && Plain("designacao") && Plain("area") && Plain("carga horas") && Plain("nivel qnq");
    hide Plain, Printable, Delimiter;
    PlainPrintable("codigo", d);
    PlainPrintable("designacao", d);
    PlainPrintable("area", d);
    PlainPrintable("carga horas", d);
    PlainPrintable("nivel qnq", d);
  }

  /** The cells of a printed listing. */
  lemma CellsBack(rows: seq<Row>, d: char)
    requires Delimiter(d) && forall r :: r in rows ==> Storable(r)
    ensures SplitAll(FileLines(rows, d), d) == [HEADER_NAMES] + AllFields(rows)
    ensures NonBlank([HEADER_NAMES] + AllFields(rows)) == [HEADER_NAMES] + AllFields(rows)
  {
    hide Split, Blank, Storable, PrintLine, FieldsOf, CellsOf, HEADER, HEADER_NAMES, SplitAll, NonBlank;
    HeaderCellsBack(d);
    var lines, cells := FileLines(rows, d), [HEADER_NAMES] + AllFields(rows);
    forall i | 0 <= i < |lines|
      ensures Split(lines[i], d) == cells[i] && !Blank(cells[i])
    {
      if i > 0 {
        assert rows[i - 1] in rows;
        RowCellsBack(rows[i - 1], d);
      }
    }
    SplitEach(lines, cells, d);
  }

  lemma HeaderColumns()
    ensures FirstColumns(HEADER_NAMES, DEFAULT_COLUMNS)
  {
    assert HeaderField("codigo") == Some(Code) && HeaderField("designacao") == Some(Name);
    assert HeaderField("area") == Some(Area);
    assert HeaderField("carga horas") == Some(Hours);
    assert HeaderField("nivel qnq") == Some(Level);
    hide HeaderField;
  }

  lemma LayoutUnique(names: seq<string>, cols: Columns, normalize: string -> string, layout: Layout)
    requires TrimAll(names) == names && NormalizeAll(names, normalize) == names
    requires FirstColumns(names, cols) && Code in cols && Name in cols
    requires LayoutOf(names, normalize, layout)
    ensures layout == Named(cols)
  {
    hide HeaderField, FirstColumns, ValidCode, TrimAll, NormalizeAll;
    forall other | FirstColumns(names, other)
      ensures other == cols
    {
      FirstColumnsUnique(names, other, cols);
    }
  }

  lemma HeaderFixed(normalize: string -> string)
    requires FixesHeaders(normalize)
    ensures NormalizeAll(HEADER_NAMES, normalize) == HEADER_NAMES
  {
    assert forall i :: 0 <= i < 5 ==> HEADER[i].text == HEADER_NAMES[i];
  }

  /** Reading a printed listing returns exactly its rows. */
  lemma ListingRoundTrip(rows: seq<Row>, d: char, normalize: string -> string, r: Result<Parsed, ParseError>)
    requires Delimiter(d) && FixesHeaders(normalize)
    requires rows != [] && DistinctCodes(rows) && forall x :: x in rows ==> Storable(x)
    requires CsvResult(PrintFile(rows, d), normalize, r)
    ensures r == Ok(Parsed(rows, [], HEADER_NAMES, Csv))
  {
    PrintedLinesBack(rows, d);
    CellsBack(rows, d);
    HeaderTrims();
    EveryRowAccepted(rows, |rows|);
    HeaderColumns();
    HeaderFixed(normalize);
    hide TextLines, FileLines, PrintFile, SplitAll, AcceptedRows, SkippedLines, Storable, TrimAll, FieldsOf, NonBlank,
      FirstColumns, NormalizeAll;
    var matrix := [HEADER_NAMES] + AllFields(rows);
    forall layout | LayoutOf(HEADER_NAMES, normalize, layout)
      ensures layout == Named(DEFAULT_COLUMNS)
    {
      LayoutUnique(HEADER_NAMES, DEFAULT_COLUMNS, normalize, layout);
    }
    hide LayoutOf;
    assert matrix[1..] == AllFields(rows) && rows[..|rows|] == rows;
  }

  /** The level read from a text is read as itself, once trimmed. */
  lemma LevelStable(raw: string)
    requires var l := ParseLevel(raw); l.Some? ==> Trimmed(l.value)
    ensures var l := ParseLevel(raw); l.Some? ==> ParseLevel(l.value) == l
  {
    var t, l := Trim(raw), ParseLevel(raw);
    LevelIff(raw);
    if l.Some? {
      var i := FirstDigitOf(t);
      TrimKeeps(l.value);
      LevelIff(l.value);
      hide Trim, ParseLevel, FromFirstDigit;
      if i < |t| {
        assert l == Some([t[i]]);
      } else {
        assert forall c :: c in t ==> !IsDigit(c);
        assert forall c :: c in l.value ==> c in t;
      }
    }
  }

  /** Every row that an import accepts can be printed and read back, if its texts are on one line and, where cut, still trimmed. */
  lemma AcceptedIsStorable(cells: seq<string>, cols: Columns, format: Format)
    requires Eligible(cells, cols, format)
    requires var r := RowOf(cells, cols, format);
             && OneLine(r.name) && OneLine(r.area.GetOr("")) && OneLine(r.level.GetOr(""))
             && Trimmed(r.name) && Trimmed(r.area.GetOr("")) && Trimmed(r.level.GetOr(""))
    ensures Storable(RowOf(cells, cols, format))
  {
    RowOfEligible(cells, cols, format);
    RowLimits(cells, cols, format);
    LevelStable(UfcdImport.Cell(cells, cols, Level));
    hide CodeOf, NameOf, ParseHours, ParseLevel, UfcdImport.Cell, Trim, Trimmed, OneLine;
  }

  /** The same for any ends of its lines, with or without a byte-order mark. */
  lemma ListingRoundTripAnyEnds(rows: seq<Row>, d: char, e: LineEnd, marked: bool, normalize: string -> string, r: Result<Parsed, ParseError>)
    requires Delimiter(d) && FixesHeaders(normalize)
    requires rows != [] && DistinctCodes(rows) && forall x :: x in rows ==> Storable(x)
    requires CsvResult((if marked then [BOM] else "") + WithEnds(PrintFile(rows, d), e), normalize, r)
    ensures r == Ok(Parsed(rows, [], HEADER_NAMES, Csv))
  {
    var text := PrintFile(rows, d);
    FileStartsWithHeader(rows, d);
    PrintedLinesClean(rows, d);
    JoinChars(FileLines(rows, d), '\n', '\r');
    LinesAlike(text, e);
    assert "" + WithEnds(text, e) == WithEnds(text, e);
    hide TextLines, WithEnds, PrintFile, Storable, FixesHeaders, MatrixResult;
    assert CsvResult(text, normalize, r);
    ListingRoundTrip(rows, d, normalize, r);
  }

  // ---- Listings without a header ----

  lemma {:induction false} EveryDataLineAccepted(rows: seq<Row>, n: nat)
    requires n <= |rows| && DistinctCodes(rows) && forall r :: r in rows ==> Storable(r)
    ensures AcceptedRows(AllFields(rows), n, DEFAULT_COLUMNS, Csv) == rows[..n]
    ensures SkippedLines(AllFields(rows), n, 0, DEFAULT_COLUMNS, Csv) == []
  {
    EveryRowAccepted(rows, n);
    SkipsAnywhere(AllFields(rows), n);
  }

  lemma {:induction false} SkipsAnywhere(lines: seq<seq<string>>, n: nat)
    requires n <= |lines|
    ensures SkippedLines(lines, n, 1, DEFAULT_COLUMNS, Csv) == [] <==> SkippedLines(lines, n, 0, DEFAULT_COLUMNS, Csv) == []
  {
    hide Outcome;
    if n == 0 {
    } else {
      SkipsAnywhere(lines, n - 1);
    }
  }

  /** Rows whose first line holds no known heading are all read as data, the first one too. */
  lemma HeaderlessRoundTrip(rows: seq<Row>, normalize: string -> string, r: Result<Parsed, ParseError>)
    requires rows != [] && DistinctCodes(rows) && forall x :: x in rows ==> Storable(x)
    requires forall i :: 0 <= i < 5 ==> HeaderField(normalize(FieldsOf(rows[0])[i])) == None
    requires MatrixResult(AllFields(rows), Csv, normalize, r)
    ensures r == Ok(Parsed(rows, [], DEFAULT_HEADERS, Csv))
  {
    var lines := AllFields(rows);
    FieldsAllFilled(rows);
    assert rows[0] in rows && lines[0] == FieldsOf(rows[0]);
    FirstLineIsData(rows[0], normalize);
    DataReply(rows);
    hide *;
    RefusedIff(lines, Csv, normalize, r, map[]);
  }

  lemma FieldsAllFilled(rows: seq<Row>)
    requires forall x :: x in rows ==> Storable(x)
    ensures NonBlank(AllFields(rows)) == AllFields(rows)
  {
    hide Blank, FieldsOf, Storable;
    forall i | 0 <= i < |rows|
      ensures !Blank(FieldsOf(rows[i]))
    {
      assert rows[i] in rows;
      FieldsNotBlank(rows[i]);
    }
    NothingBlank(AllFields(rows));
  }

  lemma DataReply(rows: seq<Row>)
    requires rows != [] && DistinctCodes(rows) && forall x :: x in rows ==> Storable(x)
    ensures AllFields(rows) != []
    ensures Reply(AllFields(rows), 0, DEFAULT_COLUMNS, DEFAULT_HEADERS, Csv) == Ok(Parsed(rows, [], DEFAULT_HEADERS, Csv))
  {
    hide FieldsOf, Storable, AcceptedRows, SkippedLines, DEFAULT_HEADERS, DEFAULT_COLUMNS;
    EveryDataLineAccepted(rows, |rows|);
    assert rows[..|rows|] == rows;
  }

  lemma FirstLineIsData(r: Row, normalize: string -> string)
    requires Storable(r) && forall i :: 0 <= i < 5 ==> HeaderField(normalize(FieldsOf(r)[i])) == None
    ensures var heads := TrimAll(FieldsOf(r));
            && FirstColumns(NormalizeAll(heads, normalize), map[])
            && |heads| > 1 && ValidCode(heads[0]) && |heads[1]| >= 2
  {
    DigitsAreTrimmed(r.code);
    DigitsAreTrimmed(HoursCell(r));
    TrimKeeps(r.name);
    TrimKeeps(r.area.GetOr(""));
    TrimKeeps(r.level.GetOr(""));
    hide Trim, Numeral, ParseLevel, OneLine, Trimmed, HeaderField;
    assert TrimAll(FieldsOf(r)) == FieldsOf(r);
  }
}
