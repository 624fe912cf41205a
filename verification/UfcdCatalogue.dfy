/** The national catalogue: a listing written over it in batches, and what an import leaves behind. */
module UfcdCatalogue {
  import opened Wrappers
  import opened UfcdImport
  import opened UfcdAccounting
  import opened UfcdFile
  import opened UfcdRoundTrip

  datatype Entry = Entry(name: string, area: Option<string>, hours: Option<nat>, level: Option<string>, active: bool)

  type Catalogue = map<string, Entry>

  datatype Report = Report(imported: nat, created: nat, updated: nat, deactivated: nat)

  datatype ImportError = TooManyRows | BadFile(reason: ParseError)

  const IMPORT_MAX_ROWS := 25000
  const IMPORT_BATCH := 80

  function EntryOf(r: Row): Entry { Entry(r.name, r.area, r.hours, r.level, true) }

  function Codes(rows: seq<Row>): set<string> { set r | r in rows :: r.code }

  /** The rows written one after the other over the catalogue. */
  function Overlay(cat: Catalogue, rows: seq<Row>): Catalogue {
    if rows == [] then cat else
      var last := rows[|rows| - 1];
      Overlay(cat, rows[..|rows| - 1])[last.code := EntryOf(last)]
  }

  function NewCodes(cat: Catalogue, rows: seq<Row>): set<string> { Codes(rows) - cat.Keys }

  function ActiveCodes(cat: Catalogue): set<string> { set c | c in cat && cat[c].active }

  function Deactivate(cat: Catalogue, keep: set<string>): Catalogue {
    map c | c in cat :: if c in keep then cat[c] else cat[c].(active := false)
  }

  function Imported(cat: Catalogue, rows: seq<Row>, deactivateMissing: bool): Catalogue {
    if deactivateMissing && rows != [] then Deactivate(Overlay(cat, rows), Codes(rows)) else Overlay(cat, rows)
  }

  function ReportOf(cat: Catalogue, rows: seq<Row>, deactivateMissing: bool): (r: Report)
    requires DistinctCodes(rows)
    ensures r.created + r.updated == |rows|
  {
    CodesCounted(rows);
    SizeSplit(Codes(rows), cat.Keys);
    Report(|rows|, |NewCodes(cat, rows)|, |Codes(rows) * cat.Keys|,
           if deactivateMissing && rows != [] then |ActiveCodes(cat) - Codes(rows)| else 0)
  }

  lemma SizeSplit(a: set<string>, b: set<string>)
    ensures |a - b| + |a * b| == |a|
  {
    assert a == (a - b) + (a * b);
  }

  lemma CodesStep(rows: seq<Row>)
    requires rows != []
    ensures Codes(rows) == Codes(rows[..|rows| - 1]) + {rows[|rows| - 1].code}
  {
    assert rows == rows[..|rows| - 1] + [rows[|rows| - 1]];
  }

  lemma {:induction false} CodesCounted(rows: seq<Row>)
    requires DistinctCodes(rows)
    ensures |Codes(rows)| == |rows|
  {
    if rows == [] {
    } else {
      CodesCounted(rows[..|rows| - 1]);
      CodesStep(rows);
      LastCodeNew(rows);
    }
  }

  lemma LastCodeNew(rows: seq<Row>)
    requires DistinctCodes(rows) && rows != []
    ensures rows[|rows| - 1].code !in Codes(rows[..|rows| - 1])
  {
  }

  // ---- The overlay ----

  lemma {:induction false} OverlayKeys(cat: Catalogue, rows: seq<Row>)
    ensures Overlay(cat, rows).Keys == cat.Keys + Codes(rows)
  {
    if rows == [] {
    } else {
      OverlayKeys(cat, rows[..|rows| - 1]);
      CodesStep(rows);
      hide Codes;
    }
  }

  lemma {:induction false} OverlayElsewhere(cat: Catalogue, rows: seq<Row>, c: string)
    requires c !in Codes(rows)
    ensures c in Overlay(cat, rows) <==> c in cat
    ensures c in cat ==> Overlay(cat, rows)[c] == cat[c]
  {
    if rows == [] {
    } else {
      CodesStep(rows);
      hide Codes;
      OverlayElsewhere(cat, rows[..|rows| - 1], c);
    }
  }

  lemma {:induction false} OverlayAt(cat: Catalogue, rows: seq<Row>, r: Row)
    requires DistinctCodes(rows) && r in rows
    ensures r.code in Overlay(cat, rows) && Overlay(cat, rows)[r.code] == EntryOf(r)
  {
    var front, last := rows[..|rows| - 1], rows[|rows| - 1];
    assert rows == front + [last];
    if r == last {
    } else {
      OverlayAt(cat, front, r);
      LastCodeNew(rows);
      assert r.code in Codes(front);
    }
  }

  /** Rows with distinct codes: only which rows there are matters, not their order. */
  lemma OverlayOrderFree(cat: Catalogue, a: seq<Row>, b: seq<Row>)
    requires DistinctCodes(a) && DistinctCodes(b) && forall r :: r in a <==> r in b
    ensures Overlay(cat, a) == Overlay(cat, b)
  {
    OverlayKeys(cat, a);
    OverlayKeys(cat, b);
    assert Codes(a) == Codes(b);
    forall c | c in Overlay(cat, a)
      ensures Overlay(cat, a)[c] == Overlay(cat, b)[c]
    {
      if c in Codes(a) {
        var r :| r in a && r.code == c;
        OverlayAt(cat, a, r);
        OverlayAt(cat, b, r);
      } else {
        OverlayElsewhere(cat, a, c);
        OverlayElsewhere(cat, b, c);
      }
    }
  }

  lemma {:induction false} OverlayAppend(cat: Catalogue, a: seq<Row>, b: seq<Row>)
    ensures Overlay(cat, a + b) == Overlay(Overlay(cat, a), b)
  {
    if b == [] {
      assert a + b == a;
    } else {
      OverlayAppend(cat, a, b[..|b| - 1]);
      assert (a + b)[..|a + b| - 1] == a + b[..|b| - 1];
    }
  }

  lemma CodesAppend(a: seq<Row>, b: seq<Row>)
    ensures Codes(a + b) == Codes(a) + Codes(b)
  {
  }

  lemma TwoParts(a: set<string>, b: set<string>, present: set<string>)
    ensures |a + b - present| == |a - present| + |b - (present + a)|
  {
    assert a + b - present == (a - present) + (b - (present + a));
    assert (a - present) !! (b - (present + a));
  }

  /** Codes created by two batches in turn are those created by both together. */
  lemma CreatedAppend(cat: Catalogue, a: seq<Row>, b: seq<Row>)
    ensures |NewCodes(cat, a + b)| == |NewCodes(cat, a)| + |NewCodes(Overlay(cat, a), b)|
  {
    OverlayKeys(cat, a);
    CodesAppend(a, b);
    hide Codes, Overlay;
    TwoParts(Codes(a), Codes(b), cat.Keys);
  }

  // ---- What an import leaves ----

  lemma ImportedKeys(cat: Catalogue, rows: seq<Row>, deactivateMissing: bool)
    ensures Imported(cat, rows, deactivateMissing).Keys == cat.Keys + Codes(rows)
  {
    OverlayKeys(cat, rows);
  }

  /** Nothing is lost: the catalogue grows by exactly the created codes. */
  lemma GrowsByCreated(cat: Catalogue, rows: seq<Row>, deactivateMissing: bool)
    requires DistinctCodes(rows)
    ensures |Imported(cat, rows, deactivateMissing)| == |cat| + ReportOf(cat, rows, deactivateMissing).created
  {
    ImportedKeys(cat, rows, deactivateMissing);
    assert cat.Keys + Codes(rows) == cat.Keys + NewCodes(cat, rows);
    var after := Imported(cat, rows, deactivateMissing);
    assert |after| == |after.Keys| && |cat| == |cat.Keys|;
  }

  /** The entry shows the row, column by column, and is active. */
  predicate Shows(e: Entry, r: Row) {
    e.name == r.name && e.area == r.area && e.hours == r.hours && e.level == r.level && e.active
  }

  lemma EntryShows(r: Row, e: Entry)
    ensures Shows(e, r) <==> e == EntryOf(r)
  {
  }

  /** Every code after an import: the imported row, or the old entry, switched off if asked. */
  lemma ImportedEntry(cat: Catalogue, rows: seq<Row>, deactivateMissing: bool, c: string)
    requires DistinctCodes(rows) && rows != []
    ensures var after := Imported(cat, rows, deactivateMissing);
            && (forall r :: r in rows && r.code == c ==> c in after && Shows(after[c], r))
            && (c !in Codes(rows) ==> (c in after <==> c in cat))
            && (c !in Codes(rows) && c in cat ==>
                  after[c] == if deactivateMissing then cat[c].(active := false) else cat[c])
  {
    forall r | r in rows && r.code == c
      ensures c in Overlay(cat, rows) && Shows(Overlay(cat, rows)[c], r) && c in Codes(rows)
    {
      OverlayAt(cat, rows, r);
      EntryShows(r, Overlay(cat, rows)[c]);
    }
    if c !in Codes(rows) {
      OverlayElsewhere(cat, rows, c);
    }
    hide Overlay, Codes, EntryOf;
  }

  /** With deactivation asked for, the active codes are the imported ones. */
  lemma ActiveAreImported(cat: Catalogue, rows: seq<Row>)
    requires DistinctCodes(rows) && rows != []
    ensures ActiveCodes(Imported(cat, rows, true)) == Codes(rows)
  {
    hide Imported;
    forall c: string
      ensures c in ActiveCodes(Imported(cat, rows, true)) <==> c in Codes(rows)
    {
      ImportedEntry(cat, rows, true, c);
      if c in Codes(rows) {
        var r :| r in rows && r.code == c;
      }
    }
  }

  /** Importing the same rows again changes nothing, creates nothing and deactivates nothing. */
  lemma SecondImportIdle(cat: Catalogue, rows: seq<Row>, deactivateMissing: bool)
    requires DistinctCodes(rows)
    ensures var once := Imported(cat, rows, deactivateMissing);
            Imported(once, rows, deactivateMissing) == once
            && ReportOf(once, rows, deactivateMissing) == Report(|rows|, 0, |rows|, 0)
  {
    var once := Imported(cat, rows, deactivateMissing);
    if rows != [] {
      ImportedKeys(cat, rows, deactivateMissing);
      ImportedKeys(once, rows, deactivateMissing);
      SameTwice(cat, rows, deactivateMissing);
      if deactivateMissing {
        ActiveAreImported(cat, rows);
        assert ActiveCodes(once) - Codes(rows) == {};
      }
      hide Imported, ActiveCodes;
      assert NewCodes(once, rows) == {};
    } else {
      assert NewCodes(once, rows) == {};
    }
  }

  lemma SameTwice(cat: Catalogue, rows: seq<Row>, deactivateMissing: bool)
    requires DistinctCodes(rows) && rows != []
    ensures var once := Imported(cat, rows, deactivateMissing); Imported(once, rows, deactivateMissing) == once
  {
    hide Imported;
    var once := Imported(cat, rows, deactivateMissing);
    var twice := Imported(once, rows, deactivateMissing);
    ImportedKeys(cat, rows, deactivateMissing);
    ImportedKeys(once, rows, deactivateMissing);
    forall c | c in once
      ensures twice[c] == once[c]
    {
      ImportedEntry(cat, rows, deactivateMissing, c);
      ImportedEntry(once, rows, deactivateMissing, c);
      if c in Codes(rows) {
        var r :| r in rows && r.code == c;
        EntryShows(r, once[c]);
        EntryShows(r, twice[c]);
      }
    }
  }

  // ---- The service ----

  lemma {:induction false} ParsedDistinct(matrix: seq<seq<string>>, format: Format, normalize: string -> string,
                                          r: Result<Parsed, ParseError>)
    requires MatrixResult(matrix, format, normalize, r)
    ensures r.Ok? ==> DistinctCodes(r.value.rows) && r.value.rows != []
  {
    hide LayoutOf, AcceptedRows, SkippedLines, TrimAll, DistinctCodes;
    var lines := NonBlank(matrix);
    if lines == [] {
    } else {
      var layout :| LayoutOf(lines[0], normalize, layout) &&
        match layout
        case Unrecognised => r == Err(UnknownHeaders)
        case Named(cols) => r == Reply(lines[1..], 1, cols, TrimAll(lines[0]), format)
        case Headerless => r == Reply(lines, 0, DEFAULT_COLUMNS, DEFAULT_HEADERS, format);
      match layout
      case Unrecognised =>
      case Named(cols) => AcceptedCodesDistinct(lines[1..], |lines[1..]|, cols, format);
      case Headerless => AcceptedCodesDistinct(lines, |lines|, DEFAULT_COLUMNS, format);
    }
  }

  class CatalogoUfcdService {
    var catalogue: Catalogue

    constructor ()
      ensures catalogue == map[]
    {
      catalogue := map[];
    }

    /** One batch: the codes already present are looked up once, then every row is updated or created. */
    method WriteBatch(batch: seq<Row>) returns (created: nat, updated: nat)
      requires DistinctCodes(batch)
      modifies this
      ensures catalogue == Overlay(old(catalogue), batch)
      ensures created == |NewCodes(old(catalogue), batch)| && created + updated == |batch|
    {
      hide DistinctCodes, EntryOf, Overlay, NewCodes;
      NoRows(catalogue, batch[..0]);
      var existing := catalogue.Keys;
      created, updated := 0, 0;
      for k := 0 to |batch|
        invariant catalogue == Overlay(old(catalogue), batch[..k])
        invariant created == |NewCodes(old(catalogue), batch[..k])| && created + updated == k
      {
        var r := batch[k];
        catalogue := catalogue[r.code := EntryOf(r)];
        if r.code in existing {
          updated := updated + 1;
        } else {
          created := created + 1;
        }
        OverlayStep(old(catalogue), batch, k);
        WriteStep(old(catalogue), batch, k);
      }
      assert batch[..|batch|] == batch;
    }

    /** The batched loop; its outcome does not depend on the batch size. */
    method WriteBatches(rows: seq<Row>, batchSize: nat) returns (created: nat, updated: nat)
      requires DistinctCodes(rows) && batchSize > 0
      modifies this
      ensures catalogue == Overlay(old(catalogue), rows)
      ensures created == |NewCodes(old(catalogue), rows)| && created + updated == |rows|
    {
      hide Overlay, NewCodes;
      created, updated := 0, 0;
      var i := 0;
      assert Overlay(old(catalogue), rows[..0]) == catalogue && |NewCodes(old(catalogue), rows[..0])| == 0 by {
        NoRows(catalogue, rows[..0]);
      }
      while i < |rows|
        invariant 0 <= i <= |rows|
        invariant catalogue == Overlay(old(catalogue), rows[..i])
        invariant created == |NewCodes(old(catalogue), rows[..i])| && created + updated == i
      {
        var j := if i + batchSize <= |rows| then i + batchSize else |rows|;
        var batch := rows[i..j];
        assert rows[..j] == rows[..i] + batch;
        OverlayAppend(old(catalogue), rows[..i], batch);
        CreatedAppend(old(catalogue), rows[..i], batch);
        var c, u := WriteBatch(batch);
        created, updated := created + c, updated + u;
        i := j;
      }
      assert rows[..|rows|] == rows;
    }

    method UpsertRows(rows: seq<Row>, deactivateMissing: bool) returns (r: Result<Report, ImportError>)
      requires DistinctCodes(rows)
      modifies this
      ensures |rows| > 25_000 ==> r == Err(TooManyRows) && catalogue == old(catalogue)
      ensures |rows| <= 25_000 ==> Leaves(old(catalogue), catalogue, rows, deactivateMissing)
      ensures |rows| <= IMPORT_MAX_ROWS ==>
                && r == Ok(ReportOf(old(catalogue), rows, deactivateMissing))
                && catalogue == Imported(old(catalogue), rows, deactivateMissing)
    {
      if |rows| > IMPORT_MAX_ROWS {
        return Err(TooManyRows);
      }
      ghost var before := catalogue;
      var created, updated := WriteBatches(rows, IMPORT_BATCH);
      CodesCounted(rows);
      SizeSplit(Codes(rows), before.Keys);
      var deactivated := 0;
      if deactivateMissing && |rows| > 0 {
        DeactivatedAreOld(before, rows);
        hide Overlay;
        deactivated := |ActiveCodes(catalogue) - Codes(rows)|;
        catalogue := Deactivate(catalogue, Codes(rows));
      }
      r := Ok(Report(|rows|, created, updated, deactivated));
      assert catalogue == Imported(before, rows, deactivateMissing);
      hide Imported, Codes, Leaves, ReportOf, Overlay;
      UpsertedEntries(before, rows, deactivateMissing);
    }

    /** Importing a CSV listing: a refused file changes nothing. */
    method ImportCsv(text: string, normalize: string -> string, deactivateMissing: bool)
      returns (r: Result<Report, ImportError>, ghost parsed: Result<Parsed, ParseError>)
      modifies this
      ensures CsvResult(text, normalize, parsed)
      ensures parsed.Err? ==> r == Err(BadFile(parsed.error)) && catalogue == old(catalogue)
      ensures parsed.Ok? ==> DistinctCodes(parsed.value.rows)
      ensures parsed.Ok? && |parsed.value.rows| > IMPORT_MAX_ROWS ==> r == Err(TooManyRows) && catalogue == old(catalogue)
      ensures parsed.Ok? && |parsed.value.rows| <= IMPORT_MAX_ROWS ==>
                && r == Ok(ReportOf(old(catalogue), parsed.value.rows, deactivateMissing))
                && catalogue == Imported(old(catalogue), parsed.value.rows, deactivateMissing)
    {
      var p, _ := ParseUfcdImportCsv(text, normalize);
      parsed := p;
      CsvDistinct(text, normalize, p);
      if p.Err? {
        return Err(BadFile(p.error)), parsed;
      }
      hide CsvResult, DistinctCodes, Imported, ReportOf;
      r := UpsertRows(p.value.rows, deactivateMissing);
    }
  }

  /** Every row shows in the catalogue; every other entry keeps its columns, and is off if it was or if asked. */
  predicate Leaves(before: Catalogue, after: Catalogue, rows: seq<Row>, deactivateMissing: bool) {
    && (forall x :: x in rows ==> x.code in after && Shows(after[x.code], x))
    && (forall c :: c in before && (forall x :: x in rows ==> x.code != c) ==>
          c in after && after[c] == before[c].(active := before[c].active && (rows == [] || !deactivateMissing)))
    && (forall c :: c in after ==> c in before || exists x :: x in rows && x.code == c)
  }

  lemma UpsertedEntries(cat: Catalogue, rows: seq<Row>, deactivateMissing: bool)
    requires DistinctCodes(rows)
    ensures Leaves(cat, Imported(cat, rows, deactivateMissing), rows, deactivateMissing)
  {
    if rows == [] {
    } else {
      ImportedKeys(cat, rows, deactivateMissing);
      assert forall c :: c in Codes(rows) <==> exists x :: x in rows && x.code == c;
      hide Imported, Codes, Shows;
      forall c: string
        ensures var after := Imported(cat, rows, deactivateMissing);
                && (forall x :: x in rows && x.code == c ==> c in after && Shows(after[c], x))
                && (c in cat && c !in Codes(rows) ==>
                      c in after && after[c] == cat[c].(active := cat[c].active && !deactivateMissing))
      {
        ImportedEntry(cat, rows, deactivateMissing, c);
      }
    }
  }

  lemma NoRows(cat: Catalogue, rows: seq<Row>)
    requires rows == []
    ensures Overlay(cat, rows) == cat && NewCodes(cat, rows) == {}
  {
  }

  lemma SizeStep(a: set<string>, x: string, present: set<string>)
    requires x !in a
    ensures |a + {x} - present| == |a - present| + if x in present then 0 else 1
  {
    if x in present {
      assert a + {x} - present == a - present;
    } else {
      assert a + {x} - present == a - present + {x};
    }
  }

  lemma OverlayStep(cat: Catalogue, rows: seq<Row>, k: nat)
    requires k < |rows|
    ensures Overlay(cat, rows[..k + 1]) == Overlay(cat, rows[..k])[rows[k].code := EntryOf(rows[k])]
  {
    assert rows[..k + 1][..k] == rows[..k];
    hide EntryOf;
  }

  lemma WriteStep(cat: Catalogue, rows: seq<Row>, k: nat)
    requires DistinctCodes(rows) && k < |rows|
    ensures |NewCodes(cat, rows[..k + 1])| == |NewCodes(cat, rows[..k])| + if rows[k].code in cat then 0 else 1
  {
    assert Codes(rows[..k + 1]) == Codes(rows[..k]) + {rows[k].code} && rows[k].code !in Codes(rows[..k]) by {
      var front := rows[..k + 1];
      assert front[..k] == rows[..k];
      CodesStep(front);
      LastCodeNew(front);
    }
    hide Codes, DistinctCodes;
    SizeStep(Codes(rows[..k]), rows[k].code, cat.Keys);
  }

  /** The codes switched off were active before and are not in the listing. */
  lemma DeactivatedAreOld(cat: Catalogue, rows: seq<Row>)
    ensures ActiveCodes(Overlay(cat, rows)) - Codes(rows) == ActiveCodes(cat) - Codes(rows)
  {
    hide Codes, Overlay;
    forall c: string | c !in Codes(rows)
      ensures c in ActiveCodes(Overlay(cat, rows)) <==> c in ActiveCodes(cat)
    {
      OverlayElsewhere(cat, rows, c);
    }
  }

  lemma CsvDistinct(text: string, normalize: string -> string, r: Result<Parsed, ParseError>)
    requires CsvResult(text, normalize, r)
    ensures r.Ok? ==> DistinctCodes(r.value.rows) && r.value.rows != []
  {
    var lines := TextLines(text);
    if lines != [] {
      var d := DetectDelimiter(lines[0]);
      hide TextLines, DetectDelimiter, MatrixResult, SplitAll, DistinctCodes;
      ParsedDistinct(SplitAll(lines, d), Csv, normalize, r);
    }
  }

  // ---- Restoring from a printed listing ----

  predicate Lists(cat: Catalogue, rows: seq<Row>) {
    && (forall r :: r in rows ==> r.code in cat && Shows(cat[r.code], r))
    && ActiveCodes(cat) == Codes(rows)
  }

  /** Importing a printed listing with deactivation makes the active catalogue exactly that listing. */
  lemma RestoreFromListing(cat: Catalogue, rows: seq<Row>, d: char, normalize: string -> string, r: Result<Parsed, ParseError>)
    requires Delimiter(d) && FixesHeaders(normalize)
    requires rows != [] && DistinctCodes(rows) && forall x :: x in rows ==> Storable(x)
    requires CsvResult(PrintFile(rows, d), normalize, r)
    ensures r.Ok? && Lists(Imported(cat, r.value.rows, true), rows)
    ensures Lists(cat, rows) ==> Imported(cat, r.value.rows, true) == cat
  {
    hide Storable, CsvResult, DistinctCodes, FixesHeaders, PrintFile;
    ListingRoundTrip(rows, d, normalize, r);
    hide HEADER_NAMES;
    ActiveAreImported(cat, rows);
    var after := Imported(cat, rows, true);
    forall c: string
      ensures forall x :: x in rows && x.code == c ==> c in after && Shows(after[c], x)
      ensures Lists(cat, rows) && c in after ==> c in cat && after[c] == cat[c]
      ensures c in cat ==> c in after
    {
      ImportedEntry(cat, rows, true, c);
      ListedUnchanged(cat, rows, c);
    }
    hide EntryOf, Codes, Imported, Shows;
  }

  lemma ListedUnchanged(cat: Catalogue, rows: seq<Row>, c: string)
    requires DistinctCodes(rows) && rows != []
    ensures var after := Imported(cat, rows, true);
            && (c in cat ==> c in after)
            && (Lists(cat, rows) && c in after ==> c in cat && after[c] == cat[c])
  {
    ImportedKeys(cat, rows, true);
    ImportedEntry(cat, rows, true, c);
    hide Imported;
    if Lists(cat, rows) && c in cat {
      if c in Codes(rows) {
        var r :| r in rows && r.code == c;
        EntryShows(r, cat[c]);
        EntryShows(r, Imported(cat, rows, true)[c]);
      } else {
        assert c !in ActiveCodes(cat);
      }
    }
  }
}
