/** Strings as the source handles them: trimming, searching, joining, decimal numerals. */
module Text {
  /** White space and line terminators, as String.prototype.trim removes them. */
  predicate IsSpace(c: char) {
    var n := c as int;
    9 <= n <= 13 || n == 32 || n == 0xA0 || n == 0x1680 || 0x2000 <= n <= 0x200A
    || n == 0x2028 || n == 0x2029 || n == 0x202F || n == 0x205F || n == 0x3000 || n == 0xFEFF
  }

  /** Tab to carriage return, space, the other space separators, the line and paragraph separators, the byte-order mark. */
  lemma WhiteSpace(c: char)
    ensures IsSpace(c) <==>
            c in "\t\n\r \U{000B}\U{000C}\U{00A0}\U{1680}\U{2028}\U{2029}\U{202F}\U{205F}\U{3000}\U{FEFF}"
            || '\U{2000}' <= c <= '\U{200A}'
  {
    var s := "\t\n\r \U{000B}\U{000C}\U{00A0}\U{1680}\U{2028}\U{2029}\U{202F}\U{205F}\U{3000}\U{FEFF}";
    assert |s| == 14;
    assert s[0] == '\t' && s[1] == '\n' && s[2] == '\r' && s[3] == ' ' && s[4] as int == 0xB && s[5] as int == 0xC && s[6] as int == 0xA0;
    assert s[7] as int == 0x1680 && s[8] as int == 0x2028 && s[9] as int == 0x2029 && s[10] as int == 0x202F;
    assert s[11] as int == 0x205F && s[12] as int == 0x3000 && s[13] as int == 0xFEFF;
    assert c in s <==> exists i :: 0 <= i < 14 && s[i] == c;
  }

  function TrimLeft(s: string): string {
    if s != "" && IsSpace(s[0]) then TrimLeft(s[1..]) else s
  }

  function TrimRight(s: string): string {
    if s != "" && IsSpace(s[|s| - 1]) then TrimRight(s[..|s| - 1]) else s
  }

  function Trim(s: string): string { TrimRight(TrimLeft(s)) }

  /** No white space at either end. */
  predicate Trimmed(s: string) {
    s == "" || (!IsSpace(s[0]) && !IsSpace(s[|s| - 1]))
  }

  lemma TrimKeeps(s: string)
    requires Trimmed(s)
    ensures Trim(s) == s
  {
  }

  lemma {:induction false} TrimLeftSuffix(s: string) returns (n: nat)
    ensures n <= |s| && TrimLeft(s) == s[n..]
    ensures forall i :: 0 <= i < n ==> IsSpace(s[i])
    ensures n < |s| ==> !IsSpace(s[n])
  {
    if s != "" && IsSpace(s[0]) {
      var m := TrimLeftSuffix(s[1..]);
      n := m + 1;
      assert forall i :: 1 <= i < n ==> s[i] == s[1..][i - 1];
    } else {
      n := 0;
    }
  }

  lemma {:induction false} TrimRightPrefix(s: string) returns (n: nat)
    ensures n <= |s| && TrimRight(s) == s[..n]
    ensures forall i :: n <= i < |s| ==> IsSpace(s[i])
    ensures n > 0 ==> !IsSpace(s[n - 1])
  {
    if s != "" && IsSpace(s[|s| - 1]) {
      n := TrimRightPrefix(s[..|s| - 1]);
      assert forall i :: n <= i < |s| - 1 ==> s[i] == s[..|s| - 1][i];
    } else {
      n := |s|;
    }
  }

  /** Trimming cuts white space off both ends and nothing else. */
  lemma TrimCutsEnds(s: string) returns (from: nat, to: nat)
    ensures from <= to <= |s| && Trim(s) == s[from..to] && Trimmed(Trim(s))
    ensures forall i :: 0 <= i < from || (to <= i < |s|) ==> IsSpace(s[i])
  {
    from := TrimLeftSuffix(s);
    var n := TrimRightPrefix(s[from..]);
    to := from + n;
    assert forall i :: to <= i < |s| ==> s[i] == s[from..][i - from];
    if n > 0 {
      assert s[from..to][0] == s[from] && s[from..to][n - 1] == s[from..][n - 1];
    }
  }

  /** The trimmed text is empty exactly when every character is white space. */
  lemma BlankIff(s: string)
    ensures Trim(s) == "" <==> forall c :: c in s ==> IsSpace(c)
  {
    var from, to := TrimCutsEnds(s);
    if Trim(s) != "" {
      assert Trim(s)[0] == s[from];
    }
  }

  // ---- Splitting at a separator ----

  /** The parts joined with the separator between them. */
  function Join(parts: seq<string>, sep: char): string {
    if parts == [] then "" else if |parts| == 1 then parts[0] else parts[0] + [sep] + Join(parts[1..], sep)
  }

  /** Joined parts that are free of the separator determine the parts. */
  lemma {:induction false} JoinInjective(a: seq<string>, b: seq<string>, sep: char)
    requires |a| == |b|
    requires forall p :: p in a || p in b ==> sep !in p
    requires Join(a, sep) == Join(b, sep)
    ensures a == b
  {
    if |a| <= 1 {
    } else {
      FirstPart(a[0], Join(a[1..], sep), b[0], Join(b[1..], sep), sep);
      assert forall p :: p in a[1..] || p in b[1..] ==> p in a || p in b;
      JoinInjective(a[1..], b[1..], sep);
      assert a == [a[0]] + a[1..] && b == [b[0]] + b[1..];
    }
  }

  lemma FirstPart(a: string, x: string, b: string, y: string, sep: char)
    requires sep !in a && sep !in b
    requires a + [sep] + x == b + [sep] + y
    ensures a == b && x == y
  {
    var l, r := a + [sep] + x, b + [sep] + y;
    assert l[|a|] == sep && r[|b|] == sep;
    assert forall i :: 0 <= i < |a| ==> l[i] == a[i] && a[i] in a;
    assert forall i :: 0 <= i < |b| ==> r[i] == b[i] && b[i] in b;
    assert l[..|a|] == a && r[..|b|] == b;
    assert l[|a| + 1..] == x && r[|b| + 1..] == y;
  }

  // ---- Counting the separators ----

  function Count(s: string, c: char): nat {
    if s == "" then 0 else (if s[0] == c then 1 else 0) + Count(s[1..], c)
  }

  lemma {:induction false} CountAppend(a: string, b: string, c: char)
    ensures Count(a + b, c) == Count(a, c) + Count(b, c)
  {
    if a == "" {
      assert a + b == b;
    } else {
      assert (a + b)[1..] == a[1..] + b;
      CountAppend(a[1..], b, c);
    }
  }

  lemma {:induction false} CountAbsent(s: string, c: char)
    requires c !in s
    ensures Count(s, c) == 0
  {
    if s == "" {
    } else {
      assert s[0] in s && forall x :: x in s[1..] ==> x in s;
      CountAbsent(s[1..], c);
    }
  }

  function CountAll(parts: seq<string>, c: char): nat {
    if parts == [] then 0 else Count(parts[0], c) + CountAll(parts[1..], c)
  }

  lemma {:induction false} CountPresent(s: string, c: char)
    requires c in s
    ensures Count(s, c) > 0
  {
    if s[0] == c {
    } else {
      assert s == [s[0]] + s[1..];
      CountPresent(s[1..], c);
    }
  }

  lemma {:induction false} CountAllZeroIff(parts: seq<string>, c: char)
    ensures CountAll(parts, c) == 0 <==> forall p :: p in parts ==> c !in p
  {
    if parts == [] {
    } else {
      assert parts == [parts[0]] + parts[1..];
      CountAllZeroIff(parts[1..], c);
      if c in parts[0] {
        CountPresent(parts[0], c);
      } else {
        CountAbsent(parts[0], c);
      }
    }
  }

  /** A joined text holds the separators between the parts and those inside them. */
  lemma {:induction false} CountJoin(parts: seq<string>, sep: char)
    requires parts != []
    ensures Count(Join(parts, sep), sep) == |parts| - 1 + CountAll(parts, sep)
  {
    if |parts| == 1 {
      assert CountAll(parts[1..], sep) == 0;
    } else {
      CountJoin(parts[1..], sep);
      CountAppend(parts[0] + [sep], Join(parts[1..], sep), sep);
      CountAppend(parts[0], [sep], sep);
      assert [sep][1..] == "" && Count([sep], sep) == 1;
    }
  }

  /** Parts free of the separator are determined among all splittings into as many parts. */
  lemma JoinIdentifies(a: seq<string>, b: seq<string>, sep: char)
    requires |a| == |b| && a != [] && forall p :: p in a ==> sep !in p
    requires Join(a, sep) == Join(b, sep)
    ensures a == b
  {
    CountJoin(a, sep);
    CountJoin(b, sep);
    CountAllZeroIff(a, sep);
    CountAllZeroIff(b, sep);
    JoinInjective(a, b, sep);
  }

  /** A separator inside a part can be taken for the one after it. */
  lemma {:induction false} SeparatorMoves(parts: seq<string>, sep: char, i: nat, x: string, y: string)
    requires i + 1 < |parts| && parts[i] == x + [sep] + y
    ensures Join(parts[i := x][i + 1 := y + [sep] + parts[i + 1]], sep) == Join(parts, sep)
  {
    var moved := parts[i := x][i + 1 := y + [sep] + parts[i + 1]];
    if i > 0 {
      assert moved[1..] == parts[1..][i - 1 := x][i := y + [sep] + parts[1..][i]];
      SeparatorMoves(parts[1..], sep, i - 1, x, y);
    } else {
      var z, rest := parts[1], parts[2..];
      assert parts[1..] == [z] + rest && moved[1..] == [y + [sep] + z] + rest;
      JoinFirst(z, rest, sep);
      JoinFirst(y + [sep] + z, rest, sep);
      var tail := if rest == [] then "" else [sep] + Join(rest, sep);
      assert (x + [sep] + y) + [sep] + (z + tail) == x + [sep] + ((y + [sep] + z) + tail);
    }
  }

  lemma JoinFirst(first: string, rest: seq<string>, sep: char)
    ensures Join([first] + rest, sep) == first + if rest == [] then "" else [sep] + Join(rest, sep)
  {
    assert ([first] + rest)[1..] == rest;
  }

  // ---- Substrings ----

  ghost predicate OccursAt(s: string, part: string, i: int) {
    0 <= i && i + |part| <= |s| && forall j :: 0 <= j < |part| ==> s[i + j] == part[j]
  }

  ghost predicate Contains(s: string, part: string) {
    exists i :: OccursAt(s, part, i)
  }

  predicate StartsWith(s: string, prefix: string) {
    |prefix| <= |s| && s[..|prefix|] == prefix
  }

  function Take(s: string, n: nat): string {
    if |s| <= n then s else s[..n]
  }

  // ---- Decimal numerals ----

  predicate IsDigit(c: char) { '0' <= c <= '9' }

  predicate AllDigits(s: string) { forall c :: c in s ==> IsDigit(c) }

  function Digit(n: nat): char
    requires n < 10
  {
    ('0' as int + n) as char
  }

  function Numeral(n: nat): (s: string)
    ensures s != "" && AllDigits(s)
  {
    if n < 10 then [Digit(n)] else Numeral(n / 10) + [Digit(n % 10)]
  }

  function Pow10(k: nat): nat { if k == 0 then 1 else 10 * Pow10(k - 1) }

  function Value(s: string): nat
    requires AllDigits(s)
  {
    if s == "" then 0 else
      assert s[|s| - 1] in s;
      10 * Value(s[..|s| - 1]) + (s[|s| - 1] as int - '0' as int)
  }

  lemma {:induction false} ValueOfNumeral(n: nat)
    ensures Value(Numeral(n)) == n
  {
    if n >= 10 {
      ValueOfNumeral(n / 10);
      assert Numeral(n)[..|Numeral(n)| - 1] == Numeral(n / 10);
    } else {
      assert Numeral(n)[..0] == "";
    }
  }
}
