/** Certificate verification: the content fingerprint, the attendance threshold, and the service. */
module Certificates {
  import opened Wrappers
  import opened Text
  import opened Dates

  type Id = string

  // ---- The fingerprint ----

  datatype Content = Content(nif: string, name: string, code: string, title: string, start: Date, end: Date,
                             course: string, ufcd: Option<string>, hours: int)

  function IntText(n: int): string { if n < 0 then "-" + Numeral(-n) else Numeral(n) }

  function Fields(c: Content): seq<string> {
    [c.nif, c.name, c.code, c.title, Ymd(c.start), Ymd(c.end), c.course, c.ufcd.GetOr(""), IntText(c.hours)]
  }

  function Payload(c: Content): string { Join(Fields(c), '|') }

  /** The payload as one text, a missing UFCD code left empty. */
  lemma PayloadText(c: Content)
    ensures Payload(c) ==
            c.nif + ("|" + (c.name + ("|" + (c.code + ("|" + (c.title + ("|" + (Ymd(c.start) + ("|" + (Ymd(c.end) + ("|" +
            (c.course + ("|" + ((if c.ufcd.Some? then c.ufcd.value else "") + ("|" + IntText(c.hours))))))))))))))))
  {
    hide Ymd, IntText;
    var f := Fields(c);
    JoinFirst(f[0], f[1..], '|');
    JoinFirst(f[1], f[2..], '|');
    JoinFirst(f[2], f[3..], '|');
    JoinFirst(f[3], f[4..], '|');
    JoinFirst(f[4], f[5..], '|');
    JoinFirst(f[5], f[6..], '|');
    JoinFirst(f[6], f[7..], '|');
    JoinFirst(f[7], f[8..], '|');
    JoinFirst(f[8], [], '|');
    assert f == [f[0]] + f[1..] && f[1..] == [f[1]] + f[2..] && f[2..] == [f[2]] + f[3..] && f[3..] == [f[3]] + f[4..];
    assert f[4..] == [f[4]] + f[5..] && f[5..] == [f[5]] + f[6..] && f[6..] == [f[6]] + f[7..] && f[7..] == [f[7]] + f[8..];
    assert f[8..] == [f[8]] + [];
    hide Join, Fields;
  }

  predicate SeparatorFree(c: Content) {
    && '|' !in c.nif && '|' !in c.name && '|' !in c.code && '|' !in c.title && '|' !in c.course
    && '|' !in c.ufcd.GetOr("") && Written(c.start) && Written(c.end)
  }

  /** The same content, a missing UFCD code standing for an empty one. */
  predicate Same(a: Content, b: Content) {
    a.(ufcd := None) == b.(ufcd := None) && a.ufcd.GetOr("") == b.ufcd.GetOr("")
  }

  lemma IntTextInjective(a: int, b: int)
    ensures IntText(a) == IntText(b) <==> a == b
  {
    Decimal(a);
    Decimal(b);
    ValueOfNumeral(if a < 0 then -a else a);
    ValueOfNumeral(if b < 0 then -b else b);
    hide Numeral, Value;
  }

  lemma Decimal(n: int)
    ensures IntText(n) != "" && (IntText(n)[0] == '-' <==> n < 0) && '|' !in IntText(n)
    ensures n < 0 ==> IntText(n)[1..] == Numeral(-n)
  {
    var digits := Numeral(if n < 0 then -n else n);
    assert digits[0] in digits;
    hide Numeral;
  }

  lemma YmdSeparatorFree(d: Date)
    ensures '|' !in Ymd(d)
  {
    FixedDigits(d.year, 4);
    FixedDigits(d.month, 2);
    FixedDigits(d.day, 2);
    hide Fixed;
  }

  lemma FieldsSeparatorFree(c: Content)
    requires SeparatorFree(c)
    ensures forall p :: p in Fields(c) ==> '|' !in p
  {
    YmdSeparatorFree(c.start);
    YmdSeparatorFree(c.end);
    Decimal(c.hours);
    hide Ymd, IntText;
  }

  lemma SameFields(a: Content, b: Content)
    requires Written(a.start) && Written(a.end) && Written(b.start) && Written(b.end)
    ensures Fields(a) == Fields(b) <==> Same(a, b)
  {
    TextOrderIsDateOrder(a.start, b.start);
    TextOrderIsDateOrder(a.end, b.end);
    IntTextInjective(a.hours, b.hours);
    hide Ymd, IntText, Later, Greater, Written;
    var (x, y) := (Fields(a), Fields(b));
    if x == y {
      assert x[0] == y[0] && x[1] == y[1] && x[2] == y[2] && x[3] == y[3] && x[4] == y[4];
      assert x[5] == y[5] && x[6] == y[6] && x[7] == y[7] && x[8] == y[8];
    }
  }

  predicate Dated(c: Content) { Written(c.start) && Written(c.end) }

  /** A content free of the separator shares its payload with no other content, free of it or not. */
  lemma PayloadIdentifies(a: Content, b: Content)
    requires SeparatorFree(a) && Dated(b)
    ensures Payload(a) == Payload(b) <==> Same(a, b)
  {
    SameFields(a, b);
    FieldsSeparatorFree(a);
    hide Same, SeparatorFree, Join, Ymd, IntText;
    if Payload(a) == Payload(b) {
      JoinIdentifies(Fields(a), Fields(b), '|');
    }
  }

  lemma CutAtSeparator(s: string) returns (x: string, y: string)
    requires '|' in s
    ensures s == x + ['|'] + y && |y| < |s|
  {
    var k :| 0 <= k < |s| && s[k] == '|';
    x, y := s[..k], s[k + 1..];
  }

  /** The separator in the i-th field belongs to the one after it. */
  lemma Shifted(a: Content, b: Content, i: nat, x: string, y: string)
    requires i + 1 < 9 && Fields(a)[i] == x + ['|'] + y
    requires Fields(b) == Fields(a)[i := x][i + 1 := y + ['|'] + Fields(a)[i + 1]]
    ensures Payload(a) == Payload(b)
  {
    assert |Fields(a)| == 9;
    hide Fields, Join;
    SeparatorMoves(Fields(a), '|', i, x, y);
  }

  /** A separator in any text field can be moved to its neighbour: another content with the same payload. */
  lemma PayloadCollides(a: Content) returns (b: Content)
    requires Dated(a) && !SeparatorFree(a)
    ensures Dated(b) && Payload(a) == Payload(b) && !Same(a, b)
  {
    hide Ymd, IntText, Written, Join, Payload;
    if '|' in a.nif {
      var x, y := CutAtSeparator(a.nif);
      b := a.(nif := x, name := y + ['|'] + a.name);
      Shifted(a, b, 0, x, y);
    } else if '|' in a.name {
      var x, y := CutAtSeparator(a.name);
      b := a.(name := x, code := y + ['|'] + a.code);
      Shifted(a, b, 1, x, y);
    } else if '|' in a.code {
      var x, y := CutAtSeparator(a.code);
      b := a.(code := x, title := y + ['|'] + a.title);
      Shifted(a, b, 2, x, y);
    } else if '|' in a.title {
      var x, y := CutAtSeparator(a.title);
      b := a.(code := a.code + ['|'] + x, title := y);
      Shifted(b, a, 2, a.code, x);
    } else if '|' in a.course {
      var x, y := CutAtSeparator(a.course);
      b := a.(course := x, ufcd := Some(y + ['|'] + a.ufcd.GetOr("")));
      Shifted(a, b, 6, x, y);
    } else {
      var x, y := CutAtSeparator(a.ufcd.GetOr(""));
      b := a.(course := a.course + ['|'] + x, ufcd := Some(y));
      Shifted(b, a, 6, a.course, x);
    }
  }

  /** The payload identifies the content exactly when no text field of it holds the separator. */
  lemma PayloadIdentifiesIff(a: Content)
    requires Dated(a)
    ensures (forall b :: Dated(b) && Payload(b) == Payload(a) ==> Same(a, b)) <==> SeparatorFree(a)
  {
    hide Payload, Same;
    if SeparatorFree(a) {
      forall b | Dated(b) && Payload(b) == Payload(a)
        ensures Same(a, b)
      {
        PayloadIdentifies(a, b);
      }
    } else {
      var b := PayloadCollides(a);
    }
  }

  // ---- Attendance ----

  function Present(ps: seq<bool>): (n: nat)
    ensures n <= |ps|
  {
    if ps == [] then 0 else Present(ps[..|ps| - 1]) + if ps[|ps| - 1] then 1 else 0
  }

  /** The sessions attended. */
  function Attended(ps: seq<bool>): set<int> { set i | 0 <= i < |ps| && ps[i] }

  lemma {:induction false} PresentCounts(ps: seq<bool>)
    ensures Present(ps) == |Attended(ps)|
  {
    if ps == [] {
      assert Attended(ps) == {};
    } else {
      var n := |ps| - 1;
      PresentCounts(ps[..n]);
      assert Attended(ps) == Attended(ps[..n]) + if ps[n] then {n} else {};
    }
  }

  /** Hundred times the share, rounded half up; none without records. */
  function Rate(ps: seq<bool>): Option<nat> {
    if ps == [] then None else Some((200 * Present(ps) + |ps|) / (2 * |ps|))
  }

  const THRESHOLD := 60

  function Eligible(ps: seq<bool>): bool { Rate(ps).Some? && Rate(ps).value >= THRESHOLD }

  /** The rounded rate reaches 60 exactly when 200 times the attended sessions reach 119 times all of them. */
  lemma EligibleIff(ps: seq<bool>)
    ensures Eligible(ps) <==> ps != [] && 200 * Present(ps) >= 119 * |ps|
  {
    if ps == [] {
    } else {
      var n, d := 200 * Present(ps) + |ps|, 2 * |ps|;
      assert Eligible(ps) <==> n / d >= 60;
      hide Eligible, Rate, Present;
      AtLeast(n, d, 60);
    }
  }

  lemma AtLeast(n: nat, d: nat, q: nat)
    requires d > 0
    ensures n / d >= q <==> n >= q * d
  {
    var k := n / d;
    assert k * d <= n < k * d + d;
    assert (k + 1) * d == k * d + d;
    if k >= q {
      Scale(q, k, d);
    } else {
      Scale(k + 1, q, d);
    }
  }

  lemma Scale(a: nat, b: nat, d: nat)
    requires a <= b
    ensures a * d <= b * d
  {
    assert b * d == a * d + (b - a) * d;
  }

  // ---- Expiry ----

  const DAY_MS := 86_400_000

  function ExpiresAt(from: int, ttlDays: int): Option<int> {
    if ttlDays <= 0 then None else Some(from + ttlDays * DAY_MS)
  }

  /** No expiry while the time to live is zero; a row without a date is dated from its emission. */
  predicate TokenExpired(issuedAt: int, expiresAt: Option<int>, ttlDays: int, now: int) {
    ttlDays > 0 && (if expiresAt.Some? then expiresAt.value else issuedAt + ttlDays * DAY_MS) <= now
  }

  /** A token issued now lasts for its days to the millisecond, or, without a limit then, for those asked for later. */
  lemma LifetimeIff(issuedAt: int, ttlThen: int, ttlNow: int, now: int)
    ensures TokenExpired(issuedAt, ExpiresAt(issuedAt, ttlThen), ttlNow, now) <==>
            ttlNow > 0 && now - issuedAt >= 86_400_000 * if ttlThen > 0 then ttlThen else ttlNow
  {
  }

  lemma ExpiredForever(issuedAt: int, expiresAt: Option<int>, ttlDays: int, now: int, later: int)
    requires now <= later && TokenExpired(issuedAt, expiresAt, ttlDays, now)
    ensures TokenExpired(issuedAt, expiresAt, ttlDays, later)
  {
  }

  // ---- Rows ----

  datatype Cert = Cert(code: string, tokenHash: string, contentHash: string, issuedAt: int,
                       expiresAt: Option<int>, revokedAt: Option<int>)

  datatype Db = Db(certs: map<Id, Cert>, contents: map<Id, Content>, presences: map<Id, seq<bool>>)

  /** The digest, in hexadecimal, and upper-casing of texts. */
  datatype Env = Env(sha: string -> string, upper: string -> string)

  ghost predicate CollisionFree(env: Env) { forall a, b :: env.sha(a) == env.sha(b) ==> a == b }

  const PREFIX := "NF-"

  function PublicCode(env: Env, m: Id): string { PREFIX + env.upper(Take(env.sha(m), 8)) }

  predicate Taken(db: Db, m: Id, code: string, tokenHash: string) {
    exists o :: o in db.certs && o != m && (db.certs[o].code == code || db.certs[o].tokenHash == tokenHash)
  }

  predicate EmitOk(db: Db, env: Env, m: Id, token: string) {
    m in db.contents && !Taken(db, m, PublicCode(env, m), env.sha(token))
  }

  function Issued(db: Db, env: Env, m: Id, token: string, now: int, ttlDays: int): Cert
    requires m in db.contents
  {
    Cert(PublicCode(env, m), env.sha(token), env.sha(Payload(db.contents[m])), now, ExpiresAt(now, ttlDays), None)
  }

  /** The unique columns of the table. */
  predicate Unique(db: Db) {
    forall m, o :: m in db.certs && o in db.certs && m != o ==>
      db.certs[m].code != db.certs[o].code && db.certs[m].tokenHash != db.certs[o].tokenHash
  }

  // ---- The verdict ----

  datatype Verdict =
    | Unknown
    | Revoked(code: string, at: int)
    | Expired(code: string, issuedAt: int)
    | Orphan(code: string)
    | Checked(code: string, intact: bool, eligible: bool, rate: Option<nat>)

  predicate Affirms(v: Verdict) { v.Checked? && v.intact && v.eligible }

  /** What is presented names a row by its public code if it starts with the prefix, by its token otherwise. */
  predicate Names(env: Env, cert: Cert, presented: string) {
    if StartsWith(presented, PREFIX) then cert.code == env.upper(presented) else cert.tokenHash == env.sha(presented)
  }

  function PresencesOf(db: Db, m: Id): seq<bool> { if m in db.presences then db.presences[m] else [] }

  function VerdictOn(db: Db, env: Env, m: Id, now: int, ttlDays: int): Verdict
    requires m in db.certs
  {
    var c := db.certs[m];
    if c.revokedAt.Some? then Revoked(c.code, c.revokedAt.value)
    else if TokenExpired(c.issuedAt, c.expiresAt, ttlDays, now) then Expired(c.code, c.issuedAt)
    else if m !in db.contents then Orphan(c.code)
    else Checked(c.code, env.sha(Payload(db.contents[m])) == c.contentHash, Eligible(PresencesOf(db, m)), Rate(PresencesOf(db, m)))
  }

  /** The reasons, in their order, and what is checked last. */
  lemma VerdictTells(db: Db, env: Env, m: Id, now: int, ttlDays: int)
    requires m in db.certs
    ensures var (c, v) := (db.certs[m], VerdictOn(db, env, m, now, ttlDays));
            var expired := TokenExpired(c.issuedAt, c.expiresAt, ttlDays, now);
            && (c.revokedAt.Some? <==> v == Revoked(c.code, c.revokedAt.GetOr(0)))
            && (c.revokedAt.None? && expired <==> v == Expired(c.code, c.issuedAt))
            && (c.revokedAt.None? && !expired && m !in db.contents <==> v == Orphan(c.code))
            && (c.revokedAt.None? && !expired && m in db.contents ==>
                  && v.Checked? && v.code == c.code
                  && (v.intact <==> c.contentHash == env.sha(Payload(db.contents[m])))
                  && var ps := PresencesOf(db, m);
                     (v.eligible <==> ps != [] && 200 * Present(ps) >= 119 * |ps|) && v.rate == Rate(ps))
  {
    EligibleIff(PresencesOf(db, m));
    hide Payload, TokenExpired, Eligible, Rate, Present;
  }

  predicate Confirms(db: Db, env: Env, presented: string, m: Id, now: int, ttlDays: int) {
    m in db.certs && Names(env, db.certs[m], presented) && Affirms(VerdictOn(db, env, m, now, ttlDays))
  }

  // ---- The service ----

  datatype Emission = Emission(code: string, expiresAt: Option<int>, reused: bool)

  datatype Refusal = NotFound | Conflict

  class CertificadoVerificacaoService {
    var certs: map<Id, Cert>
    var contents: map<Id, Content>
    var presences: map<Id, seq<bool>>
    const env: Env

    function Tables(): Db
      reads this
    {
      Db(certs, contents, presences)
    }

    constructor (env: Env, contents: map<Id, Content>, presences: map<Id, seq<bool>>)
      ensures this.env == env && Tables() == Db(map[], contents, presences)
    {
      this.env := env;
      this.certs, this.contents, this.presences := map[], contents, presences;
    }

    /** A new token replaces the row of the enrolment, revoked or not; a unique column may refuse it. */
    method Emit(m: Id, token: string, now: int, ttlDays: int) returns (r: Result<Emission, Refusal>)
      requires Unique(Tables())
      modifies this`certs
      ensures Unique(Tables())
      ensures r.Ok? <==> EmitOk(old(Tables()), env, m, token)
      ensures r.Err? ==> certs == old(certs)
      ensures r.Ok? ==> certs == old(certs)[m := Issued(old(Tables()), env, m, token, now, ttlDays)]
      ensures r.Ok? ==> r.value.code == PublicCode(env, m) && r.value.expiresAt == ExpiresAt(now, ttlDays)
      ensures r.Ok? ==>
                (r.value.reused <==> m in old(certs) && old(certs)[m].revokedAt.None?
                                     && old(certs)[m].contentHash == certs[m].contentHash)
    {
      if m !in contents {
        return Err(NotFound);
      }
      var hash := env.sha(Payload(contents[m]));
      var code := PublicCode(env, m);
      var tokenHash := env.sha(token);
      var expiresAt := ExpiresAt(now, ttlDays);
      if Taken(Tables(), m, code, tokenHash) {
        return Err(Conflict);
      }
      var reused := m in certs && certs[m].contentHash == hash && certs[m].revokedAt.None?;
      certs := certs[m := Cert(code, tokenHash, hash, now, expiresAt, None)];
      r := Ok(Emission(code, expiresAt, reused));
    }

    method Revoke(m: Id, now: int) returns (ok: bool)
      requires Unique(Tables())
      modifies this`certs
      ensures Unique(Tables())
      ensures ok <==> m in old(certs)
      ensures certs == if ok then old(certs)[m := old(certs)[m].(revokedAt := Some(now))] else old(certs)
    {
      ok := m in certs;
      if ok {
        certs := certs[m := certs[m].(revokedAt := Some(now))];
      }
    }

    method RateOf(m: Id) returns (rate: Option<nat>)
      ensures rate == Rate(PresencesOf(Tables(), m))
    {
      var ps := PresencesOf(Tables(), m);
      if |ps| == 0 {
        return None;
      }
      var present := 0;
      for i := 0 to |ps|
        invariant present == Present(ps[..i])
      {
        assert ps[..i + 1][..i] == ps[..i];
        if ps[i] {
          present := present + 1;
        }
      }
      assert ps[..|ps|] == ps;
      rate := Some((200 * present + |ps|) / (2 * |ps|));
    }

    /** The verdict is about the one row that what is presented names. */
    method VerifyPublic(presented: string, now: int, ttlDays: int) returns (v: Verdict)
      requires Unique(Tables())
      ensures v == Unknown ==> forall m :: m in certs ==> !Names(env, certs[m], presented)
      ensures v != Unknown ==>
                exists m :: m in certs && Names(env, certs[m], presented) && v == VerdictOn(Tables(), env, m, now, ttlDays)
      ensures Affirms(v) <==> exists m :: Confirms(Tables(), env, presented, m, now, ttlDays)
    {
      hide Payload, Rate;
      if exists m :: m in certs && Names(env, certs[m], presented) {
        var m :| m in certs && Names(env, certs[m], presented);
        assert forall o :: o in certs && Names(env, certs[o], presented) ==> o == m;
        var row := certs[m];
        ghost var expected := VerdictOn(Tables(), env, m, now, ttlDays);
        assert Affirms(expected) <==> Confirms(Tables(), env, presented, m, now, ttlDays);
        hide Names;
        if row.revokedAt.Some? {
          return Revoked(row.code, row.revokedAt.value);
        }
        if TokenExpired(row.issuedAt, row.expiresAt, ttlDays, now) {
          return Expired(row.code, row.issuedAt);
        }
        if m !in contents {
          return Orphan(row.code);
        }
        var rate := RateOf(m);
        var eligible := rate.Some? && rate.value >= THRESHOLD;
        var hash := env.sha(Payload(contents[m]));
        v := Checked(row.code, hash == row.contentHash, eligible, rate);
      } else {
        v := Unknown;
      }
    }
  }
}
