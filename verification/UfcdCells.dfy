/** What single cells of a listing are read as: numbers of hours, codes without their leading zeros. */
module UfcdCells {
  import opened Wrappers
  import opened Text
  import opened UfcdImport
  import opened UfcdAccounting

  lemma DigitsAreTrimmed(s: string)
    requires AllDigits(s)
    ensures Trim(s) == s
  {
    assert s != "" ==> s[0] in s && s[|s| - 1] in s;
    TrimKeeps(s);
  }

  lemma {:induction false} NothingToReplace(s: string, from: char, to: char)
    requires from !in s
    ensures ReplaceFirst(s, from, to) == s
  {
    if s == "" {
    } else {
      NothingToReplace(s[1..], from, to);
      assert s[0] in s && s == [s[0]] + s[1..];
    }
  }

  lemma {:induction false} WholeDigitRun(s: string)
    requires AllDigits(s)
    ensures DigitRun(s) == s
  {
    if s == "" {
    } else {
      WholeDigitRun(s[1..]);
      assert s[0] in s && s == [s[0]] + s[1..];
    }
  }

  lemma HoursBack(n: nat)
    requires 1 <= n <= 1000
    ensures ParseHours(Numeral(n)) == Some(n)
  {
    var s := Numeral(n);
    DigitsAreTrimmed(s);
    NothingToReplace(s, ',', '.');
    WholeDigitRun(s);
    ValueOfNumeral(n);
    assert s[0] in s;
    hide Numeral, Trim, Value, DigitRun, ReplaceFirst;
  }

  lemma NoHoursBack()
    ensures ParseHours("") == None
  {
  }

  // ---- Hours with decimals ----

  /** The first decimal decides whether the decimals amount to a half. */
  lemma {:induction false} FirstDecimalDecides(s: string)
    requires s != "" && AllDigits(s)
    ensures s[0] in s && (2 * Value(s) >= Pow10(|s|) <==> '5' <= s[0])
  {
    var n := |s| - 1;
    assert s[0] in s && s[n] in s;
    if n > 0 {
      assert AllDigits(s[..n]) && s[..n][0] == s[0];
      FirstDecimalDecides(s[..n]);
      var v, d := Value(s[..n]), s[n] as int - '0' as int;
      assert Pow10(|s|) == 10 * Pow10(n) && Pow10(n) == 10 * Pow10(n - 1);
      assert Value(s) == 10 * v + d && 0 <= d <= 9;
      hide *;
    } else {
      assert s[..0] == "" && Pow10(1) == 10;
    }
  }

  lemma {:induction false} DigitRunStops(digits: string, rest: string)
    requires AllDigits(digits) && rest != "" && !IsDigit(rest[0])
    ensures DigitRun(digits + rest) == digits
  {
    if digits == "" {
      assert digits + rest == rest;
    } else {
      assert digits[0] in digits && (digits + rest)[1..] == digits[1..] + rest;
      DigitRunStops(digits[1..], rest);
      assert digits == [digits[0]] + digits[1..];
    }
  }

  lemma {:induction false} FirstReplaced(a: string, rest: string, from: char, to: char)
    requires from !in a && rest != "" && rest[0] == from
    ensures ReplaceFirst(a + rest, from, to) == a + [to] + rest[1..]
  {
    if a == "" {
      assert a + rest == rest;
    } else {
      var s := a + rest;
      assert a[0] in a && s[0] == a[0] && s[1..] == a[1..] + rest;
      FirstReplaced(a[1..], rest, from, to);
      assert ReplaceFirst(s, from, to) == [a[0]] + ReplaceFirst(s[1..], from, to);
      hide ReplaceFirst;
      assert [a[0]] + (a[1..] + [to] + rest[1..]) == a + [to] + rest[1..];
    }
  }

  function Nearest(n: nat, decimals: string): nat
    requires AllDigits(decimals)
  {
    n + if 2 * Value(decimals) >= Pow10(|decimals|) then 1 else 0
  }

  lemma HoursText(n: nat, decimals: string)
    requires decimals != "" && AllDigits(decimals)
    ensures ReplaceFirst(Trim(Numeral(n) + "," + decimals), ',', '.') == Numeral(n) + ['.'] + decimals
  {
    var whole, rest := Numeral(n), "," + decimals;
    var s := whole + rest;
    assert s == whole + "," + decimals;
    assert s[0] == whole[0] && whole[0] in whole;
    assert s[|s| - 1] == decimals[|decimals| - 1] && decimals[|decimals| - 1] in decimals;
    TrimKeeps(s);
    hide Trim, Numeral;
    FirstReplaced(whole, rest, ',', '.');
    assert rest[1..] == decimals;
  }

  /** A decimal comma is read, and the hours are the nearest whole number, halves rounded up. */
  lemma HoursRounded(n: nat, decimals: string)
    requires decimals != "" && AllDigits(decimals)
    ensures var h := Nearest(n, decimals);
            ParseHours(Numeral(n) + "," + decimals) == if 1 <= h <= 1000 then Some(h) else None
  {
    var whole := Numeral(n);
    HoursText(n, decimals);
    var t := whole + (['.'] + decimals);
    assert t == whole + ['.'] + decimals;
    DigitRunStops(whole, ['.'] + decimals);
    FirstDecimalDecides(decimals);
    ValueOfNumeral(n);
    assert whole[0] in whole && t[0] == whole[0];
    assert FromFirstDigit(t) == t;
    assert t[|whole|..] == ['.'] + decimals;
    assert decimals[0] in decimals;
    hide Numeral, Value, Trim, DigitRun, ReplaceFirst, FromFirstDigit, Pow10;
  }

  // ---- Hours inside a text ----

  lemma {:induction false} SkipsWords(words: string, rest: string)
    requires forall c :: c in words ==> !IsDigit(c)
    ensures FromFirstDigit(words + rest) == FromFirstDigit(rest)
  {
    if words == "" {
      assert words + rest == rest;
    } else {
      assert words[0] in words && (words + rest)[1..] == words[1..] + rest;
      SkipsWords(words[1..], rest);
    }
  }

  lemma {:induction false} ReplaceAfter(a: string, rest: string, from: char, to: char)
    requires from !in a
    ensures ReplaceFirst(a + rest, from, to) == a + ReplaceFirst(rest, from, to)
  {
    if a == "" {
      assert a + rest == rest;
    } else {
      var s := a + rest;
      assert a[0] in a && s[0] == a[0] && s[1..] == a[1..] + rest;
      ReplaceAfter(a[1..], rest, from, to);
      assert ReplaceFirst(s, from, to) == [a[0]] + ReplaceFirst(s[1..], from, to);
      hide ReplaceFirst;
      assert [a[0]] + (a[1..] + ReplaceFirst(rest, from, to)) == a + ReplaceFirst(rest, from, to);
    }
  }

  /** What can follow a whole number without belonging to it. */
  predicate Ends(rest: string) { rest == "" || (!IsDigit(rest[0]) && rest[0] != '.' && rest[0] != ',') }

  lemma WholeNumberRead(n: nat, rest: string)
    requires Ends(rest)
    ensures var t := Numeral(n) + rest;
            FromFirstDigit(t) == t && DigitRun(t) == Numeral(n) && t[|Numeral(n)|..] == rest
  {
    var whole := Numeral(n);
    assert whole[0] in whole && (whole + rest)[0] == whole[0];
    if rest == "" {
      assert whole + rest == whole;
      WholeDigitRun(whole);
    } else {
      DigitRunStops(whole, rest);
    }
    hide Numeral, DigitRun;
  }

  /** White space is cut off the words before the number and off what follows it, never off the number. */
  lemma TrimAround(words: string, number: string, rest: string) returns (w: string, r: string)
    requires number != "" && AllDigits(number)
    requires (forall c :: c in words ==> !IsDigit(c) && c != ',') && Ends(rest)
    ensures Trim(words + number + rest) == w + number + r
    ensures (forall c :: c in w ==> !IsDigit(c) && c != ',') && Ends(r)
  {
    var s := words + number + rest;
    var from, to := TrimCutsEnds(s);
    var a, b := |words|, |words| + |number|;
    assert s[a] == number[0] && number[0] in number;
    assert s[b - 1] == number[|number| - 1] && number[|number| - 1] in number;
    assert from <= a && b <= to;
    w, r := words[from..], rest[..to - b];
    hide Trim;
    assert s[from..to] == w + number + r;
    assert forall c :: c in w ==> c in words;
  }

  /** The hours are the first number of the text, whatever words stand around it. */
  lemma HoursInText(words: string, n: nat, rest: string)
    requires (forall c :: c in words ==> !IsDigit(c) && c != ',') && Ends(rest)
    ensures ParseHours(words + Numeral(n) + rest) == if 1 <= n <= 1000 then Some(n) else None
  {
    var number := Numeral(n);
    var w, r := TrimAround(words, number, rest);
    assert ',' !in w + number;
    ReplaceAfter(w + number, r, ',', '.');
    var r' := ReplaceFirst(r, ',', '.');
    assert Ends(r');
    assert w + number + r' == w + (number + r');
    SkipsWords(w, number + r');
    WholeNumberRead(n, r');
    ValueOfNumeral(n);
    hide Numeral, Value, Trim, DigitRun, ReplaceFirst, FromFirstDigit, Ends;
    assert Ends(r') ==> r' == "" || r'[0] != '.' by { EndsNoPoint(r'); }
  }

  lemma EndsNoPoint(rest: string)
    requires Ends(rest)
    ensures rest == "" || rest[0] != '.'
  {
  }

  // ---- Codes that lost their zeros ----

  lemma {:induction false} NumeralLength(n: nat, k: nat)
    requires k > 0
    ensures |Numeral(n)| <= k <==> n < Pow10(k)
  {
    if k == 1 {
      assert Pow10(1) == 10;
      if n >= 10 {
        assert Numeral(n / 10) != "";
      }
    } else {
      assert Pow10(k) == 10 * Pow10(k - 1) && Pow10(k - 1) >= 1 by { AtLeastOne(k - 1); }
      hide Pow10;
      if n >= 10 {
        NumeralLength(n / 10, k - 1);
      } else {
        AtLeastOne(k - 1);
      }
    }
  }

  lemma {:induction false} AtLeastOne(k: nat)
    ensures Pow10(k) >= 1
  {
    if k == 0 {
    } else {
      AtLeastOne(k - 1);
    }
  }

  /** A code stored as a number in a spreadsheet is read as its four digits, zeros included. */
  lemma SpreadsheetCode(cells: seq<string>, cols: Columns, n: nat)
    requires n < 10000 && Cell(cells, cols, Code) == Numeral(n)
    ensures var code := CodeOf(cells, cols, Xlsx);
            |code| == 4 && AllDigits(code) && Value(code) == n
  {
    DigitsAreTrimmed(Numeral(n));
    ValueOfNumeral(n);
    PaddedKeepsNumber(Numeral(n));
    assert Pow10(4) == 10000 && Pow10(3) == 1000;
    NumeralLength(n, 4);
    NumeralLength(n, 3);
    hide Numeral, Trim, Value, PadStart, Pow10;
  }
}
