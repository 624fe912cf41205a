/** Where every data line of a listing goes, and what the import reports about it. */
module UfcdAccounting {
  import opened Text
  import opened UfcdImport

  type Lines = seq<seq<string>>

  function IgnoredLines(lines: Lines, n: nat, cols: Columns, format: Format): nat
    requires n <= |lines|
  {
    if n == 0 then 0 else
      IgnoredLines(lines, n - 1, cols, format) + if Outcome(lines, n - 1, cols, format).Ignored? then 1 else 0
  }

  /** Each data line is exactly one of a row, a skip entry or an ignored line. */
  lemma {:induction false} EveryLineCounted(lines: Lines, n: nat, start: nat, cols: Columns, format: Format)
    requires n <= |lines|
    ensures |AcceptedRows(lines, n, cols, format)| + |SkippedLines(lines, n, start, cols, format)|
            + IgnoredLines(lines, n, cols, format) == n
  {
    hide Outcome;
    if n == 0 {
    } else {
      EveryLineCounted(lines, n - 1, start, cols, format);
    }
  }

  predicate DistinctCodes(rows: seq<Row>) {
    forall i, j :: 0 <= i < j < |rows| ==> rows[i].code != rows[j].code
  }

  lemma {:induction false} LeadingZero(s: string)
    requires AllDigits(s)
    ensures AllDigits(['0'] + s) && Value(['0'] + s) == Value(s)
  {
    var z := ['0'] + s;
    if s == "" {
      assert z[..0] == "";
    } else {
      var n := |s| - 1;
      assert s[n] in s && z[..|z| - 1] == ['0'] + s[..n];
      assert forall c :: c in s[..n] ==> c in s;
      LeadingZero(s[..n]);
    }
  }

  lemma {:induction false} PaddedKeepsNumber(s: string)
    requires AllDigits(s)
    ensures AllDigits(PadStart(s)) && |PadStart(s)| == (if |s| >= 4 then |s| else 4) && Value(PadStart(s)) == Value(s)
    decreases 4 - |s|
  {
    if |s| >= 4 {
    } else {
      LeadingZero(s);
      PaddedKeepsNumber(['0'] + s);
    }
  }

  /** A line's valid code is three to five digits as it stands. */
  lemma ValidCodeIsDigits(cells: seq<string>, cols: Columns, format: Format)
    requires ValidCode(CodeOf(cells, cols, format))
    ensures var code := CodeOf(cells, cols, format); 3 <= |code| <= 5 && AllDigits(code)
  {
    var trimmed := Trim(Cell(cells, cols, Code));
    var code := CodeOf(cells, cols, format);
    var from, to := TrimCutsEnds(Cell(cells, cols, Code));
    if code == trimmed {
      TrimKeeps(code);
    } else {
      PaddedKeepsNumber(trimmed);
    }
  }

  /** The code's row comes from the first eligible line that carries it. */
  predicate FirstWith(lines: Lines, k: nat, cols: Columns, format: Format) {
    && k < |lines| && Eligible(lines[k], cols, format)
    && forall j :: 0 <= j < k && Eligible(lines[j], cols, format) ==>
         CodeOf(lines[j], cols, format) != CodeOf(lines[k], cols, format)
  }

  lemma AcceptedIffFirst(lines: Lines, k: nat, cols: Columns, format: Format)
    requires k < |lines|
    ensures Outcome(lines, k, cols, format).Accepted? <==> FirstWith(lines, k, cols, format)
    ensures FirstWith(lines, k, cols, format) ==>
              Outcome(lines, k, cols, format) == Accepted(RowOf(lines[k], cols, format))
  {
    hide CodeOf, NameOf, RowOf;
    if Eligible(lines[k], cols, format) {
      ValidCodeIsDigits(lines[k], cols, format);
    }
  }

  lemma RowsStep(lines: Lines, n: nat, cols: Columns, format: Format)
    requires 0 < n <= |lines|
    ensures AcceptedRows(lines, n, cols, format) ==
            AcceptedRows(lines, n - 1, cols, format)
            + if FirstWith(lines, n - 1, cols, format) then [RowOf(lines[n - 1], cols, format)] else []
  {
    hide FirstWith, Outcome;
    AcceptedIffFirst(lines, n - 1, cols, format);
  }

  lemma RowOfEligible(cells: seq<string>, cols: Columns, format: Format)
    requires Eligible(cells, cols, format)
    ensures var r := RowOf(cells, cols, format);
            r.code == CodeOf(cells, cols, format) && 3 <= |r.code| <= 5 && AllDigits(r.code) && |r.name| >= 2
  {
    ValidCodeIsDigits(cells, cols, format);
  }

  predicate ComesFrom(lines: Lines, n: nat, cols: Columns, format: Format, r: Row)
    requires n <= |lines|
  {
    exists k :: 0 <= k < n && FirstWith(lines, k, cols, format) && r == RowOf(lines[k], cols, format)
  }

  lemma ComesFromStep(lines: Lines, n: nat, cols: Columns, format: Format, r: Row)
    requires 0 < n <= |lines|
    ensures ComesFrom(lines, n, cols, format, r) <==>
            ComesFrom(lines, n - 1, cols, format, r)
            || (FirstWith(lines, n - 1, cols, format) && r == RowOf(lines[n - 1], cols, format))
  {
    hide FirstWith, RowOf;
  }

  /** The rows are those of the lines that are the first eligible one with their code. */
  lemma {:induction false} FirstEligibleWins(lines: Lines, n: nat, cols: Columns, format: Format, r: Row)
    requires n <= |lines|
    ensures r in AcceptedRows(lines, n, cols, format) <==> ComesFrom(lines, n, cols, format, r)
  {
    hide RowOf, FirstWith, Outcome;
    if n == 0 {
    } else {
      FirstEligibleWins(lines, n - 1, cols, format, r);
      RowsStep(lines, n, cols, format);
      ComesFromStep(lines, n, cols, format, r);
      hide AcceptedRows;
    }
  }

  lemma FirstWithCode(lines: Lines, k: nat, cols: Columns, format: Format)
    requires FirstWith(lines, k, cols, format)
    ensures var r := RowOf(lines[k], cols, format);
            && r.code !in EligibleCodes(lines, k, cols, format) && r.code in EligibleCodes(lines, k + 1, cols, format)
            && 3 <= |r.code| <= 5 && AllDigits(r.code) && |r.name| >= 2
  {
    RowOfEligible(lines[k], cols, format);
    hide CodeOf, RowOf, NameOf;
    assert CodeOf(lines[k], cols, format) in EligibleCodes(lines, k + 1, cols, format);
  }

  lemma EligibleCodesGrow(lines: Lines, n: nat, cols: Columns, format: Format)
    requires 0 < n <= |lines|
    ensures EligibleCodes(lines, n - 1, cols, format) <= EligibleCodes(lines, n, cols, format)
  {
  }

  /** What becomes of a line, and why, in the order of the checks. */
  lemma OutcomeIff(lines: Lines, k: nat, cols: Columns, format: Format)
    requires k < |lines|
    ensures var (o, code, name) := (Outcome(lines, k, cols, format), CodeOf(lines[k], cols, format), NameOf(lines[k], cols));
            var valid := 3 <= |code| <= 5 && AllDigits(code);
            var taken := exists j :: 0 <= j < k && FirstWith(lines, j, cols, format) && CodeOf(lines[j], cols, format) == code;
            && (o == Ignored <==> code == "" && name == "")
            && (o == Refused(InvalidCode(code)) <==> !valid && !(code == "" && name == ""))
            && (o == Refused(MissingName(code)) <==> valid && |name| < 2)
            && (o == Refused(DuplicateCode(code)) <==> valid && |name| >= 2 && taken)
            && (o == Accepted(RowOf(lines[k], cols, format)) <==> valid && |name| >= 2 && !taken)
  {
    var code := CodeOf(lines[k], cols, format);
    CodeValidIff(lines[k], cols, format);
    hide CodeOf, NameOf, RowOf, ValidCode;
    if j :| 0 <= j < k && Eligible(lines[j], cols, format) && CodeOf(lines[j], cols, format) == code {
      var i := FirstOfCode(lines, j, cols, format);
    }
  }

  lemma CodeValidIff(cells: seq<string>, cols: Columns, format: Format)
    ensures var code := CodeOf(cells, cols, format); ValidCode(code) <==> 3 <= |code| <= 5 && AllDigits(code)
  {
    var code := CodeOf(cells, cols, format);
    if ValidCode(code) {
      ValidCodeIsDigits(cells, cols, format);
    }
    if 3 <= |code| && AllDigits(code) {
      assert code[0] in code && code[|code| - 1] in code;
      TrimKeeps(code);
    }
    hide CodeOf, Trim;
  }

  lemma {:induction false} FirstOfCode(lines: Lines, k: nat, cols: Columns, format: Format) returns (i: nat)
    requires k < |lines| && Eligible(lines[k], cols, format)
    ensures i <= k && FirstWith(lines, i, cols, format) && CodeOf(lines[i], cols, format) == CodeOf(lines[k], cols, format)
    decreases k
  {
    hide Eligible, CodeOf;
    if j :| 0 <= j < k && Eligible(lines[j], cols, format) && CodeOf(lines[j], cols, format) == CodeOf(lines[k], cols, format) {
      i := FirstOfCode(lines, j, cols, format);
    } else {
      i := k;
    }
  }

  /** The entries for skipped lines: each refused line, under its number and with its reason, and nothing else. */
  lemma {:induction false} SkippedIff(lines: Lines, n: nat, start: nat, cols: Columns, format: Format, e: Skip)
    requires n <= |lines|
    ensures e in SkippedLines(lines, n, start, cols, format) <==>
            exists k :: 0 <= k < n && e.line == start + k + 1 && Outcome(lines, k, cols, format) == Refused(e.reason)
  {
    hide Outcome;
    if n == 0 {
    } else {
      SkippedIff(lines, n - 1, start, cols, format, e);
    }
  }

  /** Long names and areas are cut at 500 and 200 characters. */
  lemma RowLimits(cells: seq<string>, cols: Columns, format: Format)
    ensures var (r, name, area) := (RowOf(cells, cols, format), NameOf(cells, cols), Trim(Cell(cells, cols, Area)));
            && |r.name| == (if |name| < 500 then |name| else 500) && r.name <= name
            && (area == "" <==> r.area.None?)
            && (area != "" ==> |r.area.value| == (if |area| < 200 then |area| else 200) && r.area.value <= area)
  {
    hide CodeOf, NameOf, ParseHours, ParseLevel, Cell, Trim;
  }

  /** Accepted codes are valid and pairwise distinct. */
  lemma {:induction false} AcceptedCodesDistinct(lines: Lines, n: nat, cols: Columns, format: Format)
    requires n <= |lines|
    ensures DistinctCodes(AcceptedRows(lines, n, cols, format))
    ensures forall r :: r in AcceptedRows(lines, n, cols, format) ==>
              r.code in EligibleCodes(lines, n, cols, format) && 3 <= |r.code| <= 5 && AllDigits(r.code) && |r.name| >= 2
  {
    hide RowOf, FirstWith, EligibleCodes, Outcome, Eligible;
    if n == 0 {
    } else {
      var front, row := AcceptedRows(lines, n - 1, cols, format), RowOf(lines[n - 1], cols, format);
      AcceptedCodesDistinct(lines, n - 1, cols, format);
      RowsStep(lines, n, cols, format);
      EligibleCodesGrow(lines, n, cols, format);
      hide AcceptedRows;
      if FirstWith(lines, n - 1, cols, format) {
        FirstWithCode(lines, n - 1, cols, format);
        OneMoreCode(front, row);
      }
    }
  }

  lemma OneMoreCode(rows: seq<Row>, r: Row)
    requires DistinctCodes(rows) && forall x :: x in rows ==> x.code != r.code
    ensures DistinctCodes(rows + [r])
  {
  }

  // ---- The report ----

  function ReasonText(r: Reason): string {
    match r
    case InvalidCode(c) => "Código inválido «" + c + "» (esperado 3–5 dígitos)."
    case MissingName(c) => "Designação em falta para " + c + "."
    case DuplicateCode(c) => "Código duplicado no ficheiro: " + c + "."
  }

  const MARK := "duplicado"

  /** The report counts as repeated the entries whose text mentions the mark. */
  ghost function DuplicateRows(skipped: seq<Skip>): nat {
    if skipped == [] then 0 else
      DuplicateRows(skipped[..|skipped| - 1]) + if Contains(ReasonText(skipped[|skipped| - 1].reason), MARK) then 1 else 0
  }

  function RealDuplicates(skipped: seq<Skip>): nat {
    if skipped == [] then 0 else
      RealDuplicates(skipped[..|skipped| - 1]) + if skipped[|skipped| - 1].reason.DuplicateCode? then 1 else 0
  }

  /** No 'd' followed by 'u', and no 'd' at the end. */
  predicate NoDu(s: string) {
    forall i :: 0 <= i < |s| && s[i] == 'd' ==> i + 1 < |s| && s[i + 1] != 'u'
  }

  lemma NotInPrefix(pre: string, rest: string, i: int)
    requires NoDu(pre) && 0 <= i < |pre|
    ensures !OccursAt(pre + rest, MARK, i)
  {
    assert MARK[0] == 'd' && MARK[1] == 'u';
    assert (pre + rest)[i] == pre[i];
    assert pre[i] == 'd' ==> (pre + rest)[i + 1] == pre[i + 1];
  }

  lemma NotInSuffix(rest: string, post: string, i: int)
    requires NoDu(post) && |rest| <= i
    ensures !OccursAt(rest + post, MARK, i)
  {
    assert MARK[0] == 'd' && MARK[1] == 'u';
    if i < |rest| + |post| {
      assert (rest + post)[i] == post[i - |rest|];
      assert post[i - |rest|] == 'd' ==> (rest + post)[i + 1] == post[i - |rest| + 1];
    }
  }

  lemma NotAcross(rest: string, post: string, i: int)
    requires post != "" && (forall k :: 0 <= k < |MARK| ==> MARK[k] != post[0])
    requires 0 <= i < |rest| < i + |MARK|
    ensures !OccursAt(rest + post, MARK, i)
  {
    var k := |rest| - i;
    assert (rest + post)[i + k] == post[0] != MARK[k];
  }

  /** The mark occurs in a framed code only if it occurs in the code itself. */
  lemma MarkInMiddle(pre: string, c: string, post: string)
    requires NoDu(pre) && NoDu(post) && post != "" && (forall k :: 0 <= k < |MARK| ==> MARK[k] != post[0])
    ensures Contains(pre + c + post, MARK) <==> Contains(c, MARK)
  {
    hide NoDu;
    var s := pre + c + post;
    if i :| OccursAt(s, MARK, i) {
      assert s == pre + (c + post);
      if i < |pre| {
        NotInPrefix(pre, c + post, i);
      } else if i >= |pre + c| {
        NotInSuffix(pre + c, post, i);
      } else {
        if i + |MARK| > |pre + c| {
          NotAcross(pre + c, post, i);
        } else {
          assert forall j :: 0 <= j < |MARK| ==> s[i + j] == MARK[j] && c[i - |pre| + j] == MARK[j];
          assert OccursAt(c, MARK, i - |pre|);
        }
      }
    }
    if i :| OccursAt(c, MARK, i) {
      assert forall j :: 0 <= j < |MARK| ==> c[i + j] == MARK[j] && s[|pre| + i + j] == MARK[j];
      assert OccursAt(s, MARK, |pre| + i);
    }
  }

  lemma InvalidFramesClean()
    ensures NoDu("Código inválido «") && NoDu("» (esperado 3–5 dígitos).")
  {
  }

  lemma MissingFramesClean()
    ensures NoDu("Designação em falta para ") && NoDu(".")
  {
  }

  lemma MentionsMark(r: Reason)
    requires r.MissingName? ==> AllDigits(r.code)
    ensures Contains(ReasonText(r), MARK) <==> r.DuplicateCode? || (r.InvalidCode? && Contains(r.code, MARK))
  {
    InvalidFramesClean();
    MissingFramesClean();
    hide NoDu;
    match r {
      case InvalidCode(c) => MarkInMiddle("Código inválido «", c, "» (esperado 3–5 dígitos).");
      case MissingName(c) =>
        MarkInMiddle("Designação em falta para ", c, ".");
        DigitsHaveNoMark(c);
      case DuplicateCode(c) => DuplicateMentions(c);
    }
  }

  lemma DigitsHaveNoMark(c: string)
    requires AllDigits(c)
    ensures !Contains(c, MARK)
  {
    forall i
      ensures !OccursAt(c, MARK, i)
    {
      if 0 <= i && i + |MARK| <= |c| {
        assert c[i + 0] in c && MARK[0] == 'd';
      }
    }
  }

  lemma DuplicateMentions(c: string)
    ensures Contains(ReasonText(DuplicateCode(c)), MARK)
  {
    var s := ReasonText(DuplicateCode(c));
    var pre := "Código ";
    assert s == pre + MARK + (" no ficheiro: " + c + ".");
    assert forall j :: 0 <= j < |MARK| ==> s[|pre| + j] == MARK[j];
    assert OccursAt(s, MARK, |pre|);
  }

  /**
   The reported number of repeated lines is the number of lines skipped as duplicates exactly
   when no line was skipped for an invalid code that itself contains the mark.
   */
  lemma {:induction false} DuplicateRowsExactIff(skipped: seq<Skip>)
    requires forall s :: s in skipped && s.reason.MissingName? ==> AllDigits(s.reason.code)
    ensures DuplicateRows(skipped) >= RealDuplicates(skipped)
    ensures DuplicateRows(skipped) == RealDuplicates(skipped) <==>
            forall s :: s in skipped && s.reason.InvalidCode? ==> !Contains(s.reason.code, MARK)
  {
    if skipped == [] {
    } else {
      var front, last := skipped[..|skipped| - 1], skipped[|skipped| - 1];
      assert skipped == front + [last];
      DuplicateRowsExactIff(front);
      hide ReasonText;
      MentionsMark(last.reason);
    }
  }

  lemma {:induction false} NamelessCodesAreDigits(lines: Lines, n: nat, start: nat, cols: Columns, format: Format)
    requires n <= |lines|
    ensures forall s :: s in SkippedLines(lines, n, start, cols, format) && s.reason.MissingName? ==> AllDigits(s.reason.code)
  {
    if n == 0 {
    } else {
      NamelessCodesAreDigits(lines, n - 1, start, cols, format);
      if ValidCode(CodeOf(lines[n - 1], cols, format)) {
        ValidCodeIsDigits(lines[n - 1], cols, format);
      }
      hide ValidCode, CodeOf, NameOf, RowOf;
    }
  }

  /** A line whose code contains the mark is skipped for that code. */
  lemma MarkedLineSkipped(lines: Lines, k: nat, cols: Columns, format: Format)
    requires k < |lines|
    ensures var (o, code) := (Outcome(lines, k, cols, format), CodeOf(lines[k], cols, format));
            && (Contains(code, MARK) ==> o == Refused(InvalidCode(code)))
            && (o.Refused? && o.reason.InvalidCode? ==> o.reason.code == code)
  {
    var code := CodeOf(lines[k], cols, format);
    if ValidCode(code) {
      ValidCodeIsDigits(lines[k], cols, format);
      DigitsHaveNoMark(code);
    }
    if i :| OccursAt(code, MARK, i) {
      assert |MARK| == 9 && code != "";
    }
    hide CodeOf, ValidCode, OccursAt, NameOf, RowOf;
  }

  lemma {:induction false} MarkedSkips(lines: Lines, n: nat, start: nat, cols: Columns, format: Format)
    requires n <= |lines|
    ensures (forall s :: s in SkippedLines(lines, n, start, cols, format) && s.reason.InvalidCode? ==> !Contains(s.reason.code, MARK))
            <==> (forall k :: 0 <= k < n ==> !Contains(CodeOf(lines[k], cols, format), MARK))
  {
    hide Contains, CodeOf, Outcome;
    if n == 0 {
    } else {
      MarkedSkips(lines, n - 1, start, cols, format);
      MarkedLineSkipped(lines, n - 1, cols, format);
      var o, code := Outcome(lines, n - 1, cols, format), CodeOf(lines[n - 1], cols, format);
      var front, all := SkippedLines(lines, n - 1, start, cols, format), SkippedLines(lines, n, start, cols, format);
      var last := Skip(start + n, if o.Refused? then o.reason else InvalidCode(""));
      assert all == front + if o.Refused? then [last] else [];
      hide SkippedLines;
      assert forall s :: s in front ==> s in all;
      assert o.Refused? ==> last in all;
      assert forall s :: s in all ==> s in front || (o.Refused? && s == last);
    }
  }

  /** For every listing the reported number is right exactly when no line of the file has a code that contains the mark. */
  lemma ReportedDuplicatesExactIff(lines: Lines, start: nat, cols: Columns, format: Format)
    ensures var skipped := SkippedLines(lines, |lines|, start, cols, format);
            DuplicateRows(skipped) == RealDuplicates(skipped) <==>
            forall k :: 0 <= k < |lines| ==> !Contains(CodeOf(lines[k], cols, format), MARK)
  {
    NamelessCodesAreDigits(lines, |lines|, start, cols, format);
    DuplicateRowsExactIff(SkippedLines(lines, |lines|, start, cols, format));
    MarkedSkips(lines, |lines|, start, cols, format);
    hide Contains, CodeOf, SkippedLines;
  }

  lemma MarkLineRefused()
    ensures Outcome([[MARK, "Higiene"]], 0, DEFAULT_COLUMNS, Csv) == Refused(InvalidCode(MARK))
  {
    TrimKeeps(MARK);
    TrimKeeps("Higiene");
    hide Trim;
    assert MARK[0] in MARK && !IsDigit(MARK[0]);
  }

  lemma OneInvalidLine(lines: Lines, start: nat, cols: Columns, format: Format, c: string)
    requires |lines| == 1 && Outcome(lines, 0, cols, format) == Refused(InvalidCode(c)) && Contains(c, MARK)
    ensures var skipped := SkippedLines(lines, 1, start, cols, format);
            DuplicateRows(skipped) == 1 && RealDuplicates(skipped) == 0
  {
    hide Outcome, ReasonText, Contains;
    var skips := [Skip(start + 1, InvalidCode(c))];
    assert SkippedLines(lines, 0, start, cols, format) == [];
    assert SkippedLines(lines, 1, start, cols, format) == skips;
    MentionsMark(InvalidCode(c));
    assert skips[..0] == [];
  }

  /** One line whose code is the mark itself is reported as a repeated line. */
  lemma MiscountedLine(start: nat) returns (lines: Lines)
    ensures var skipped := SkippedLines(lines, |lines|, start, DEFAULT_COLUMNS, Csv);
            DuplicateRows(skipped) == 1 && RealDuplicates(skipped) == 0
  {
    lines := [[MARK, "Higiene"]];
    MarkLineRefused();
    assert OccursAt(MARK, MARK, 0);
    hide Outcome, SkippedLines, DuplicateRows, RealDuplicates, OccursAt;
    OneInvalidLine(lines, start, DEFAULT_COLUMNS, Csv, MARK);
  }
}
