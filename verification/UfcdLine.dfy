/** One line of a delimited file: the quote-aware scanner, and the printer it inverts. */
module UfcdLine {
  import opened Text

  /** The scanner from a given point: the field read so far and whether a quote is open. */
  function Scan(rest: string, d: char, cur: string, inQuotes: bool): (fields: seq<string>)
    ensures |fields| >= 1
    decreases |rest|
  {
    if rest == "" then [Trim(cur)]
    else if rest[0] == '"' then
      if inQuotes && |rest| > 1 && rest[1] == '"' then Scan(rest[2..], d, cur + ['"'], inQuotes)
      else Scan(rest[1..], d, cur, !inQuotes)
    else if rest[0] == d && !inQuotes then [Trim(cur)] + Scan(rest[1..], d, "", false)
    else Scan(rest[1..], d, cur + [rest[0]], inQuotes)
  }

  function Split(line: string, d: char): seq<string> { Scan(line, d, "", false) }

  method SplitDelimitedLine(line: string, delimiter: char) returns (out: seq<string>)
    ensures out == Split(line, delimiter)
  {
    out := [];
    var cur, inQuotes, i := "", false, 0;
    while i < |line|
      invariant 0 <= i <= |line|
      invariant out + Scan(line[i..], delimiter, cur, inQuotes) == Split(line, delimiter)
    {
      var ch := line[i];
      ghost var rest := line[i..];
      assert rest[0] == ch && rest[1..] == line[i + 1..];
      if ch == '"' {
        if inQuotes && i + 1 < |line| && line[i + 1] == '"' {
          assert rest[1] == '"' && rest[2..] == line[i + 2..];
          cur := cur + ['"'];
          i := i + 1;
        } else {
          inQuotes := !inQuotes;
        }
      } else if ch == delimiter && !inQuotes {
        ghost var before := out;
        out := out + [Trim(cur)];
        assert out + Scan(rest[1..], delimiter, "", false) == before + ([Trim(cur)] + Scan(rest[1..], delimiter, "", false));
        cur := "";
      } else {
        cur := cur + [ch];
      }
      i := i + 1;
    }
    out := out + [Trim(cur)];
  }

  /** A quoted part in the middle of a field: quotes open and close anywhere. */
  lemma QuotesInside(before: string, quoted: string, rest: string, d: char, cur: string)
    requires '"' !in before && d !in before && d != '"' && (rest == "" || rest[0] != '"')
    ensures Scan(before + (['"'] + (Doubled(quoted) + ['"'] + rest)), d, cur, false) == Scan(rest, d, cur + before + quoted, false)
  {
    var inner := Doubled(quoted) + ['"'] + rest;
    ScanBare(before, ['"'] + inner, d, cur);
    assert (['"'] + inner)[1..] == inner;
    ScanDoubled(quoted, rest, d, cur + before);
  }

  /** A quote left open takes the rest of the line into its field, delimiters included. */
  lemma {:induction false} QuoteLeftOpen(rest: string, d: char, cur: string)
    requires '"' !in rest
    ensures Scan(rest, d, cur, true) == [Trim(cur + rest)]
  {
    if rest == "" {
      assert cur + rest == cur;
    } else {
      assert rest[0] in rest;
      QuoteLeftOpen(rest[1..], d, cur + [rest[0]]);
      assert cur + [rest[0]] + rest[1..] == cur + rest;
    }
  }

  // ---- Printing (section 2 of RFC 4180) ----

  /** A field printed as it is, or enclosed in quotes with inner quotes doubled. */
  datatype Cell = Bare(text: string) | Enclosed(text: string)

  function Doubled(s: string): string {
    if s == "" then "" else (if s[0] == '"' then ['"', '"'] else [s[0]]) + Doubled(s[1..])
  }

  function PrintCell(c: Cell): string {
    match c
    case Bare(text) => text
    case Enclosed(text) => ['"'] + Doubled(text) + ['"']
  }

  function PrintCells(cells: seq<Cell>): seq<string> {
    seq(|cells|, i requires 0 <= i < |cells| => PrintCell(cells[i]))
  }

  function PrintLine(cells: seq<Cell>, d: char): string { Join(PrintCells(cells), d) }

  predicate Printable(c: Cell, d: char) {
    c.Bare? ==> '"' !in c.text && d !in c.text
  }

  function Trims(cells: seq<Cell>): seq<string> {
    seq(|cells|, i requires 0 <= i < |cells| => Trim(cells[i].text))
  }

  lemma {:induction false} ScanBare(text: string, rest: string, d: char, cur: string)
    requires '"' !in text && d !in text
    ensures Scan(text + rest, d, cur, false) == Scan(rest, d, cur + text, false)
  {
    if text == "" {
      assert text + rest == rest && cur + text == cur;
    } else {
      assert (text + rest)[1..] == text[1..] + rest && text[0] in text;
      ScanBare(text[1..], rest, d, cur + [text[0]]);
      assert cur + [text[0]] + text[1..] == cur + text;
    }
  }

  lemma {:induction false} ScanDoubled(text: string, rest: string, d: char, cur: string)
    requires rest == "" || rest[0] != '"'
    ensures Scan(Doubled(text) + ['"'] + rest, d, cur, true) == Scan(rest, d, cur + text, false)
  {
    var line := Doubled(text) + ['"'] + rest;
    if text == "" {
      assert line[1..] == rest && cur + text == cur;
    } else {
      var more := Doubled(text[1..]) + ['"'] + rest;
      ScanDoubled(text[1..], rest, d, cur + [text[0]]);
      assert cur + [text[0]] + text[1..] == cur + text;
      if text[0] == '"' {
        assert line == ['"', '"'] + more && line[2..] == more;
      } else {
        assert line == [text[0]] + more && line[1..] == more;
      }
    }
  }

  lemma ScanCell(c: Cell, rest: string, d: char)
    requires Printable(c, d) && (rest == "" || rest[0] != '"')
    ensures Scan(PrintCell(c) + rest, d, "", false) == Scan(rest, d, c.text, false)
  {
    assert "" + c.text == c.text;
    match c {
      case Bare(text) => ScanBare(text, rest, d, "");
      case Enclosed(text) =>
        var line := PrintCell(c) + rest;
        assert line[1..] == Doubled(text) + ['"'] + rest;
        ScanDoubled(text, rest, d, "");
    }
  }

  /** Splitting a printed line gives each field back, trimmed. */
  lemma {:induction false} SplitPrinted(cells: seq<Cell>, d: char)
    requires cells != [] && d != '"' && forall c :: c in cells ==> Printable(c, d)
    ensures Split(PrintLine(cells, d), d) == Trims(cells)
  {
    var first := cells[0];
    if |cells| == 1 {
      ScanCell(first, "", d);
      assert PrintLine(cells, d) == PrintCell(first) + "";
    } else {
      var rest := [d] + PrintLine(cells[1..], d);
      assert PrintCells(cells)[1..] == PrintCells(cells[1..]);
      assert PrintLine(cells, d) == PrintCell(first) + rest;
      ScanCell(first, rest, d);
      assert rest[1..] == PrintLine(cells[1..], d);
      SplitPrinted(cells[1..], d);
    }
  }

  /** Inside a printed line the quotes protect every other character, the delimiter included. */
  lemma {:induction false} DoubledKeeps(s: string, c: char)
    ensures c in Doubled(s) <==> c in s
  {
    if s == "" {
    } else {
      DoubledKeeps(s[1..], c);
      assert s == [s[0]] + s[1..];
    }
  }
}
