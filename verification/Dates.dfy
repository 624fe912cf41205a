/** Calendar dates as the text YYYY-MM-DD, and deadlines compared as such text. */
module Dates {
  import opened Wrappers
  import opened Text

  datatype Date = Date(year: nat, month: nat, day: nat)

  predicate Written(d: Date) { d.year < 10000 && d.month < 100 && d.day < 100 }

  predicate Later(a: Date, b: Date) {
    a.year > b.year || (a.year == b.year && (a.month > b.month || (a.month == b.month && a.day > b.day)))
  }

  /** The last digits of n, zero-padded to the width. */
  function Fixed(n: nat, width: nat): (s: string)
    ensures |s| == width
  {
    if width == 0 then "" else Fixed(n / 10, width - 1) + [Digit(n % 10)]
  }

  /** YYYY-MM-DD. */
  function Ymd(d: Date): string { Fixed(d.year, 4) + ("-" + (Fixed(d.month, 2) + ("-" + Fixed(d.day, 2)))) }

  /** The order of texts: the first differing character decides. */
  predicate Greater(a: string, b: string) {
    if a == "" then false
    else if b == "" then true
    else if a[0] != b[0] then a[0] > b[0]
    else Greater(a[1..], b[1..])
  }

  lemma {:induction false} GreaterConcat(a: string, x: string, b: string, y: string)
    requires |a| == |b|
    ensures Greater(a + x, b + y) <==> Greater(a, b) || (a == b && Greater(x, y))
  {
    if a == "" {
      assert a + x == x && b + y == y;
    } else {
      assert (a + x)[1..] == a[1..] + x && (b + y)[1..] == b[1..] + y;
      GreaterConcat(a[1..], x, b[1..], y);
      assert a == [a[0]] + a[1..] && b == [b[0]] + b[1..];
    }
  }

  lemma {:induction false} FixedOrder(a: nat, b: nat, k: nat)
    requires a < Pow10(k) && b < Pow10(k)
    ensures Greater(Fixed(a, k), Fixed(b, k)) <==> a > b
    ensures Fixed(a, k) == Fixed(b, k) <==> a == b
  {
    if k == 0 {
    } else {
      FixedOrder(a / 10, b / 10, k - 1);
      GreaterConcat(Fixed(a / 10, k - 1), [Digit(a % 10)], Fixed(b / 10, k - 1), [Digit(b % 10)]);
      assert Fixed(a, k)[..k - 1] == Fixed(a / 10, k - 1) && Fixed(b, k)[..k - 1] == Fixed(b / 10, k - 1);
      assert Fixed(a, k)[k - 1] == Digit(a % 10) && Fixed(b, k)[k - 1] == Digit(b % 10);
    }
  }

  lemma WidthsFit(d: Date)
    requires Written(d)
    ensures d.year < Pow10(4) && d.month < Pow10(2) && d.day < Pow10(2)
  {
    assert Pow10(2) == 100 && Pow10(4) == 10000;
  }

  /** Comparing the texts is comparing the dates. */
  lemma TextOrderIsDateOrder(a: Date, b: Date)
    requires Written(a) && Written(b)
    ensures Greater(Ymd(a), Ymd(b)) <==> Later(a, b)
    ensures Ymd(a) == Ymd(b) <==> a == b
  {
    WidthsFit(a);
    WidthsFit(b);
    FixedOrder(a.year, b.year, 4);
    FixedOrder(a.month, b.month, 2);
    FixedOrder(a.day, b.day, 2);
    hide Greater, Fixed, Pow10;
    var (da, db) := ("-" + Fixed(a.day, 2), "-" + Fixed(b.day, 2));
    var (ma, mb) := (Fixed(a.month, 2) + da, Fixed(b.month, 2) + db);
    GreaterConcat(Fixed(a.year, 4), "-" + ma, Fixed(b.year, 4), "-" + mb);
    AfterDash(ma, mb);
    GreaterConcat(Fixed(a.month, 2), da, Fixed(b.month, 2), db);
    AfterDash(Fixed(a.day, 2), Fixed(b.day, 2));
    SamePrefix(Fixed(a.year, 4), "-" + ma, Fixed(b.year, 4), "-" + mb);
    SamePrefix("-", ma, "-", mb);
    SamePrefix(Fixed(a.month, 2), da, Fixed(b.month, 2), db);
    SamePrefix("-", Fixed(a.day, 2), "-", Fixed(b.day, 2));
  }

  lemma SamePrefix(a: string, x: string, b: string, y: string)
    requires |a| == |b|
    ensures a + x == b + y <==> a == b && x == y
  {
    if a + x == b + y {
      assert (a + x)[..|a|] == a && (b + y)[..|b|] == b;
      assert (a + x)[|a|..] == x && (b + y)[|b|..] == y;
    }
  }

  lemma AfterDash(x: string, y: string)
    ensures Greater("-" + x, "-" + y) <==> Greater(x, y)
  {
    assert ("-" + x)[1..] == x && ("-" + y)[1..] == y;
  }

  /** The deadline has passed from the day after it on. */
  predicate Reached(deadline: Date, today: Date) { Greater(Ymd(today), Ymd(deadline)) }

  /** A deadline is passed from the day after it on, and not on its own day. */
  lemma ReachedIff(deadline: Date, today: Date)
    requires Written(deadline) && Written(today)
    ensures Reached(deadline, today) <==> Later(today, deadline)
  {
    TextOrderIsDateOrder(today, deadline);
  }

  /** Once passed, a deadline stays passed. */
  lemma ReachedForever(deadline: Date, t: Date, t': Date)
    requires Written(deadline) && Written(t) && Written(t') && !Later(t, t')
    requires Reached(deadline, t)
    ensures Reached(deadline, t')
  {
    TextOrderIsDateOrder(t, deadline);
    TextOrderIsDateOrder(t', deadline);
    hide Ymd;
  }

  // ---- The date of a request ----

  predicate YmdShape(s: string) {
    |s| == 10 && s[4] == '-' && s[7] == '-' && AllDigits(s[..4]) && AllDigits(s[5..7]) && AllDigits(s[8..])
  }

  datatype Request = Removed | BadDate | To(ymd: string)

  /** Nothing or blank removes the deadline; otherwise the first ten characters must be YYYY-MM-DD. */
  function ReadRequest(raw: Option<string>): Request {
    if raw.None? || Trim(raw.value) == "" then Removed
    else if YmdShape(Take(raw.value, 10)) then To(Take(raw.value, 10))
    else BadDate
  }

  /** What a request asks for, character by character. */
  lemma RequestIff(raw: Option<string>)
    ensures ReadRequest(raw) == Removed <==> raw.None? || forall c :: c in raw.value ==> IsSpace(c)
    ensures ReadRequest(raw).To? <==>
            && raw.Some? && !(forall c :: c in raw.value ==> IsSpace(c)) && |raw.value| >= 10
            && forall i :: 0 <= i < 10 ==> if i == 4 || i == 7 then raw.value[i] == '-' else '0' <= raw.value[i] <= '9'
    ensures ReadRequest(raw).To? ==> ReadRequest(raw).ymd == raw.value[..10]
  {
    if raw.Some? {
      BlankIff(raw.value);
      hide Trim;
      var t := Take(raw.value, 10);
      if |t| == 10 {
        ShapeIff(t);
      }
      hide YmdShape;
    }
  }

  lemma ShapeIff(t: string)
    requires |t| == 10
    ensures YmdShape(t) <==> forall i :: 0 <= i < 10 ==> if i == 4 || i == 7 then t[i] == '-' else '0' <= t[i] <= '9'
  {
    assert forall i :: 0 <= i < 4 ==> t[..4][i] == t[i] && t[i] in t[..4];
    assert forall i :: 5 <= i < 7 ==> t[5..7][i - 5] == t[i] && t[i] in t[5..7];
    assert forall i :: 8 <= i < 10 ==> t[8..][i - 8] == t[i] && t[i] in t[8..];
  }

  lemma {:induction false} FixedDigits(n: nat, k: nat)
    ensures AllDigits(Fixed(n, k))
  {
    if k == 0 {
    } else {
      FixedDigits(n / 10, k - 1);
    }
  }

  lemma YmdHasShape(d: Date)
    ensures YmdShape(Ymd(d))
  {
    FixedDigits(d.year, 4);
    FixedDigits(d.month, 2);
    FixedDigits(d.day, 2);
    hide Fixed, AllDigits;
    assert Ymd(d)[..4] == Fixed(d.year, 4);
    assert Ymd(d)[5..7] == Fixed(d.month, 2);
    assert Ymd(d)[8..] == Fixed(d.day, 2);
  }

  /** A full time stamp is read as its date. */
  lemma StampReadAsDate(d: Date, rest: string)
    ensures ReadRequest(Some(Ymd(d) + rest)) == To(Ymd(d))
  {
    YmdHasShape(d);
    var s := Ymd(d) + rest;
    assert Take(s, 10) == Ymd(d);
    assert s[0] == Ymd(d)[..4][0] && Ymd(d)[..4][0] in Ymd(d)[..4] && s[0] in s;
    hide Ymd, Take;
    BlankIff(s);
  }
}
