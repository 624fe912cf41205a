/**
 Failed-login limiter: a fixed-window failure counter with lockout, kept either in
 process memory (one record per key) or in Redis (a counter key and a lock key, each
 with an expiry). Times are integer milliseconds.
 */
module LoginLimiter {
  import opened Wrappers

  datatype Policy = Policy(enabled: bool, maxAttempts: int, windowMs: int, lockoutMs: int)

  datatype AttemptRecord = AttemptRecord(failures: nat, windowStartedAt: int, lockedUntil: Option<int>)

  /** What the lock check tells the login flow. */
  datatype Verdict = Pass | Locked(retryAfterSec: int)

  function Max(a: int, b: int): int { if a < b then b else a }

  function CeilSeconds(ms: int): int { (ms + 999) / 1000 }

  /** Whole seconds that cover the time, and no second more. */
  lemma CeilCovers(ms: int)
    ensures 1000 * (CeilSeconds(ms) - 1) < ms <= 1000 * CeilSeconds(ms)
  {
  }

  // ---- In-memory backend, one key at a time ----

  /** A lock instant of 0 is falsy in the source and counts as no lock. */
  predicate HasLock(rec: Option<AttemptRecord>) {
    rec.Some? && rec.value.lockedUntil.Some? && rec.value.lockedUntil.value != 0
  }

  function CheckVerdict(rec: Option<AttemptRecord>, now: int): Verdict {
    if HasLock(rec) && now < rec.value.lockedUntil.value
    then Locked(Max(1, CeilSeconds(rec.value.lockedUntil.value - now)))
    else Pass
  }

  /** Refused exactly while the lock lasts, and told to wait for the rest of it in whole seconds. */
  lemma RefusedWhileLocked(r: AttemptRecord, now: int)
    ensures var v := CheckVerdict(Some(r), now);
            && (v.Locked? <==> r.lockedUntil.Some? && r.lockedUntil.value != 0 && now < r.lockedUntil.value)
            && (v.Locked? ==> 1000 * (v.retryAfterSec - 1) < r.lockedUntil.value - now <= 1000 * v.retryAfterSec)
  {
    if r.lockedUntil.Some? {
      CeilCovers(r.lockedUntil.value - now);
    }
  }

  /** An elapsed lock is forgotten together with its counter. */
  function CheckRecord(rec: Option<AttemptRecord>, now: int): Option<AttemptRecord> {
    if HasLock(rec) && rec.value.lockedUntil.value <= now then None else rec
  }

  function FailRecord(rec: Option<AttemptRecord>, p: Policy, now: int): AttemptRecord {
    var counted :=
      if rec.None? || now - rec.value.windowStartedAt > p.windowMs
      then AttemptRecord(1, now, None)
      else rec.value.(failures := rec.value.failures + 1);
    if counted.failures >= p.maxAttempts then counted.(lockedUntil := Some(now + p.lockoutMs)) else counted
  }

  predicate Stale(rec: AttemptRecord, globalWindowMs: int, now: int) {
    match rec.lockedUntil
    case Some(u) => u <= now
    case None => now - rec.windowStartedAt > globalWindowMs
  }

  /** Dropped: a lock that is over, or no lock and a window that is over for more than the global one. */
  lemma StaleIff(rec: AttemptRecord, globalWindowMs: int, now: int)
    ensures Stale(rec, globalWindowMs, now) <==>
            (rec.lockedUntil.Some? && now >= rec.lockedUntil.value)
            || (rec.lockedUntil == None && now - rec.windowStartedAt > globalWindowMs)
  {
  }

  function PruneRecord(rec: Option<AttemptRecord>, globalWindowMs: int, now: int): Option<AttemptRecord> {
    if rec.Some? && Stale(rec.value, globalWindowMs, now) then None else rec
  }

  // ---- Redis backend, one key at a time ----

  datatype Counter = Counter(count: nat, expiresAt: int)

  datatype RedisKeys = RedisKeys(fail: Option<Counter>, lock: Option<int>)

  function LiveCount(r: RedisKeys, now: int): nat {
    if r.fail.Some? && now < r.fail.value.expiresAt then r.fail.value.count else 0
  }

  /**
   Seconds left on the lock key as the TTL command reports them; -2 when the key is gone.
   `slack` is how many of the last milliseconds the server's rounding hides: 0 rounds up,
   999 rounds down.
   */
  function Ttl(lock: Option<int>, slack: nat, now: int): int {
    if lock.None? || lock.value <= now then -2 else (lock.value - now + 999 - slack) / 1000
  }

  function RedisVerdict(r: RedisKeys, slack: nat, now: int): Verdict {
    var ttl := Ttl(r.lock, slack, now);
    if ttl > 0 then Locked(ttl) else Pass
  }

  function ExpirySeconds(ms: int): int { Max(1, CeilSeconds(ms)) }

  /** INCR, EXPIRE on the first increment, SETEX of the lock once the limit is reached. */
  function RedisFail(r: RedisKeys, p: Policy, now: int): RedisKeys {
    var count := LiveCount(r, now) + 1;
    var expiresAt := if count == 1 then now + 1000 * ExpirySeconds(p.windowMs) else r.fail.value.expiresAt;
    RedisKeys(
      Some(Counter(count, expiresAt)),
      if count >= p.maxAttempts then Some(now + 1000 * ExpirySeconds(p.lockoutMs)) else r.lock)
  }

  // ---- The service ----

  datatype Scope = Tenant | Platform

  class LoginAttemptLimiter {
    const normalize: string -> string
    const globalWindowMs: int
    const slack: nat
    var redisConnected: bool
    var store: map<string, AttemptRecord>
    var redisFail: map<string, Counter>
    var redisLock: map<string, int>

    constructor (normalize: string -> string, globalWindowMs: int, slack: nat, redisConnected: bool)
      ensures this.normalize == normalize && this.globalWindowMs == globalWindowMs && this.slack == slack
      ensures this.redisConnected == redisConnected
      ensures store == map[] && redisFail == map[] && redisLock == map[]
    {
      this.normalize, this.globalWindowMs, this.slack := normalize, globalWindowMs, slack;
      this.redisConnected := redisConnected;
      store, redisFail, redisLock := map[], map[], map[];
    }

    function Key(scope: Scope, identifier: string): string {
      (if scope == Tenant then "tenant:" else "platform:") + normalize(identifier)
    }

    /** Two accounts share a key exactly when scope and normalised identifier agree. */
    lemma KeyIff(s: Scope, i: string, s': Scope, i': string)
      ensures Key(s, i) == Key(s', i') <==> s == s' && normalize(i) == normalize(i')
    {
      assert Key(s, i)[0] == if s == Tenant then 't' else 'p';
      assert Key(s', i')[0] == if s' == Tenant then 't' else 'p';
      assert s == Tenant ==> Key(s, i)[7..] == normalize(i);
      assert s == Platform ==> Key(s, i)[9..] == normalize(i);
      assert s' == Tenant ==> Key(s', i')[7..] == normalize(i');
      assert s' == Platform ==> Key(s', i')[9..] == normalize(i');
    }

    /** What other accounts may rely on: nothing of theirs is under the key. */
    lemma OtherKeys(scope: Scope, identifier: string)
      ensures forall s, i :: s != scope || normalize(i) != normalize(identifier) ==> Key(s, i) != Key(scope, identifier)
    {
      forall s, i | s != scope || normalize(i) != normalize(identifier)
        ensures Key(s, i) != Key(scope, identifier)
      {
        KeyIff(s, i, scope, identifier);
      }
    }

    /** The in-memory record of a key. */
    function Record(k: string): Option<AttemptRecord>
      reads this
    {
      if k in store then Some(store[k]) else None
    }

    /** The two Redis keys that belong to a limiter key. */
    function Redis(k: string): RedisKeys
      reads this
    {
      RedisKeys(
        if k in redisFail then Some(redisFail[k]) else None,
        if k in redisLock then Some(redisLock[k]) else None)
    }

    method AssertNotLocked(scope: Scope, identifier: string, policy: Policy, now: int) returns (v: Verdict)
      modifies this`store
      ensures !policy.enabled ==> v == Pass && store == old(store)
      ensures policy.enabled && redisConnected ==>
                v == RedisVerdict(Redis(Key(scope, identifier)), slack, now) && store == old(store)
      ensures policy.enabled && !redisConnected ==>
                var k := Key(scope, identifier);
                && v == CheckVerdict(old(Record(k)), now)
                && Record(k) == CheckRecord(old(Record(k)), now)
      ensures forall k :: k != Key(scope, identifier) ==> Record(k) == old(Record(k))
      ensures forall s, i :: s != scope || normalize(i) != normalize(identifier) ==>
                Record(Key(s, i)) == old(Record(Key(s, i))) && Redis(Key(s, i)) == old(Redis(Key(s, i)))
    {
      OtherKeys(scope, identifier);
      if !policy.enabled {
        return Pass;
      }
      var k := Key(scope, identifier);
      if redisConnected {
        var ttl := Ttl(Redis(k).lock, slack, now);
        return if ttl > 0 then Locked(ttl) else Pass;
      }
      var rec := Record(k);
      if !HasLock(rec) {
        return Pass;
      }
      var until := rec.value.lockedUntil.value;
      if now >= until {
        store := store - {k};
        return Pass;
      }
      return Locked(Max(1, CeilSeconds(until - now)));
    }

    method RecordFailure(scope: Scope, identifier: string, policy: Policy, now: int)
      modifies this`store, this`redisFail, this`redisLock
      ensures !policy.enabled ==> store == old(store) && redisFail == old(redisFail) && redisLock == old(redisLock)
      ensures policy.enabled && redisConnected ==>
                var k := Key(scope, identifier);
                store == old(store) && Redis(k) == RedisFail(old(Redis(k)), policy, now)
      ensures policy.enabled && !redisConnected ==>
                var k := Key(scope, identifier);
                && Record(k) == Some(FailRecord(old(Record(k)), policy, now))
                && redisFail == old(redisFail) && redisLock == old(redisLock)
      ensures forall k :: k != Key(scope, identifier) ==> Record(k) == old(Record(k)) && Redis(k) == old(Redis(k))
      ensures forall s, i :: s != scope || normalize(i) != normalize(identifier) ==>
                Record(Key(s, i)) == old(Record(Key(s, i))) && Redis(Key(s, i)) == old(Redis(Key(s, i)))
    {
      OtherKeys(scope, identifier);
      if !policy.enabled {
        return;
      }
      var k := Key(scope, identifier);
      if redisConnected {
        var count := LiveCount(Redis(k), now) + 1;
        if count == 1 {
          redisFail := redisFail[k := Counter(1, now + 1000 * ExpirySeconds(policy.windowMs))];
        } else {
          redisFail := redisFail[k := redisFail[k].(count := count)];
        }
        if count >= policy.maxAttempts {
          redisLock := redisLock[k := now + 1000 * ExpirySeconds(policy.lockoutMs)];
        }
        return;
      }
      var record: AttemptRecord;
      if k !in store || now - store[k].windowStartedAt > policy.windowMs {
        record := AttemptRecord(1, now, None);
      } else {
        record := store[k].(failures := store[k].failures + 1);
      }
      if record.failures >= policy.maxAttempts {
        record := record.(lockedUntil := Some(now + policy.lockoutMs));
      }
      store := store[k := record];
    }

    method Clear(scope: Scope, identifier: string)
      modifies this`store, this`redisFail, this`redisLock
      ensures redisConnected ==> Redis(Key(scope, identifier)) == RedisKeys(None, None) && store == old(store)
      ensures !redisConnected ==>
                Record(Key(scope, identifier)) == None && redisFail == old(redisFail) && redisLock == old(redisLock)
      ensures forall k :: k != Key(scope, identifier) ==> Record(k) == old(Record(k)) && Redis(k) == old(Redis(k))
      ensures forall s, i :: s != scope || normalize(i) != normalize(identifier) ==>
                Record(Key(s, i)) == old(Record(Key(s, i))) && Redis(Key(s, i)) == old(Redis(Key(s, i)))
    {
      OtherKeys(scope, identifier);
      var k := Key(scope, identifier);
      if redisConnected {
        redisFail, redisLock := redisFail - {k}, redisLock - {k};
        return;
      }
      store := store - {k};
    }

    /** The timer that drops stale records; every key is treated as `PruneRecord` says. */
    method Prune(now: int)
      modifies this`store
      ensures forall k :: Record(k) == PruneRecord(old(Record(k)), globalWindowMs, now)
    {
      var pending := store.Keys;
      while pending != {}
        invariant pending <= old(store).Keys
        invariant forall k :: Record(k) == if k in pending then old(Record(k))
                                           else PruneRecord(old(Record(k)), globalWindowMs, now)
      {
        var k :| k in pending;
        if Stale(store[k], globalWindowMs, now) {
          store := store - {k};
        }
        pending := pending - {k};
      }
    }
  }

  // ---- Runs of one key ----

  datatype Event = Check(at: int) | Fail(at: int) | Clear(at: int) | Prune(at: int)

  /** `armed`: a lock check has passed since the last recorded failure (or clear). */
  datatype Run = Run(rec: Option<AttemptRecord>, armed: bool)

  function Step(p: Policy, g: int, s: Run, e: Event): Run {
    match e
    case Check(at) => Run(CheckRecord(s.rec, at), CheckVerdict(s.rec, at) == Pass)
    case Fail(at) => Run(Some(FailRecord(s.rec, p, at)), false)
    case Clear(at) => Run(None, s.armed)
    case Prune(at) => Run(PruneRecord(s.rec, g, at), s.armed)
  }

  /** The record of the key after a run that starts with no record. */
  function After(p: Policy, g: int, tr: seq<Event>): Run {
    if tr == [] then Run(None, false) else Step(p, g, After(p, g, tr[..|tr| - 1]), tr[|tr| - 1])
  }

  function Clock(tr: seq<Event>): int { if tr == [] then 1 else tr[|tr| - 1].at }

  /** The clock never goes back and starts after the epoch. */
  predicate Timed(tr: seq<Event>) {
    tr == [] || (Timed(tr[..|tr| - 1]) && Clock(tr[..|tr| - 1]) <= tr[|tr| - 1].at)
  }

  /** Every failure is recorded only after a lock check that passed, as the login flow does. */
  predicate Disciplined(p: Policy, g: int, tr: seq<Event>) {
    tr == [] ||
    (Disciplined(p, g, tr[..|tr| - 1]) && (tr[|tr| - 1].Fail? ==> After(p, g, tr[..|tr| - 1]).armed))
  }

  function FailTimes(tr: seq<Event>): seq<int> {
    if tr == [] then [] else
      FailTimes(tr[..|tr| - 1]) + if tr[|tr| - 1].Fail? then [tr[|tr| - 1].at] else []
  }

  /** For each lock check of the run, in order, whether it was refused. */
  function Refusals(p: Policy, g: int, tr: seq<Event>): seq<bool> {
    if tr == [] then [] else
      var last := tr[|tr| - 1];
      Refusals(p, g, tr[..|tr| - 1]) +
      if last.Check? then [CheckVerdict(After(p, g, tr[..|tr| - 1]).rec, last.at).Locked?] else []
  }

  // ---- How many failures fit in one window ----

  function CountIn(times: seq<int>, from: int, to: int): nat {
    if times == [] then 0 else
      CountIn(times[..|times| - 1], from, to) + if from <= times[|times| - 1] < to then 1 else 0
  }

  predicate Sorted(times: seq<int>) {
    forall i, j :: 0 <= i < j < |times| ==> times[i] <= times[j]
  }

  predicate Spaced(times: seq<int>, burst: nat, windowMs: int) {
    forall i, j :: 0 <= i && j == i + burst < |times| ==> times[i] + windowMs <= times[j]
  }

  lemma {:induction false} CountIsSuffix(times: seq<int>, from: int, to: int)
    requires Sorted(times)
    ensures CountIn(times, from, to) <= |times|
    ensures times != [] && times[|times| - 1] < to && CountIn(times, from, to) > 0 ==>
              from <= times[|times| - CountIn(times, from, to)]
  {
    if times == [] {
    } else {
      CountIsSuffix(times[..|times| - 1], from, to);
    }
  }

  /** Spaced times put at most `burst` of themselves in any half-open window. */
  lemma {:induction false} SpacedBound(times: seq<int>, burst: nat, windowMs: int, from: int)
    requires Sorted(times) && Spaced(times, burst, windowMs) && burst >= 1
    ensures CountIn(times, from, from + windowMs) <= burst
  {
    if times == [] {
    } else {
      var front := times[..|times| - 1];
      assert Sorted(front) && Spaced(front, burst, windowMs);
      SpacedBound(front, burst, windowMs, from);
      CountIsSuffix(times, from, from + windowMs);
      var i := |times| - 1 - burst;
      if i >= 0 && times[|times| - 1] < from + windowMs {
        assert times[i] + windowMs <= times[|times| - 1];
      }
    }
  }

  /** All but the last `m - 2` of the first `upTo` times are a full window older than `start`. */
  predicate Aged(times: seq<int>, upTo: nat, m: int, windowMs: int, start: int)
    requires upTo <= |times|
  {
    forall i :: 0 <= i < upTo && i <= upTo - (m - 1) ==> times[i] + windowMs <= start
  }

  function Limit(p: Policy): int { Max(1, p.maxAttempts) }

  /** The most failures that one window can hold. */
  function Burst(p: Policy): int { Max(Limit(p), 2 * Limit(p) - 2) }

  /** The record counts the last failures of the run, from the one that opened its window. */
  predicate Tracks(p: Policy, times: seq<int>, r: AttemptRecord, armed: bool) {
    && 1 <= r.failures <= Limit(p) && r.failures <= |times|
    && times[|times| - r.failures] == r.windowStartedAt
    && Aged(times, |times| - r.failures, Limit(p), p.windowMs, r.windowStartedAt)
    && (if r.failures >= p.maxAttempts
        then r.lockedUntil == Some(times[|times| - 1] + p.lockoutMs) && !armed
        else r.lockedUntil == None)
  }

  /** What a disciplined run establishes about its failures and the record it leaves. */
  predicate Accounted(p: Policy, times: seq<int>, s: Run, now: int) {
    && Sorted(times)
    && Spaced(times, Burst(p), p.windowMs)
    && (forall t :: t in times ==> 1 <= t <= now)
    && match s.rec
       case None => Aged(times, |times|, Limit(p), p.windowMs, now)
       case Some(r) => Tracks(p, times, r, s.armed)
  }

  /** The lockout lasts a window, and no prune drops an unlocked record before its window is over. */
  predicate Covered(p: Policy, g: int) {
    p.windowMs <= p.lockoutMs && (p.windowMs <= g + 1 || p.maxAttempts <= 1)
  }

  predicate NoClear(tr: seq<Event>) {
    forall i :: 0 <= i < |tr| ==> !tr[i].Clear?
  }

  lemma FailStaysSpaced(p: Policy, times: seq<int>, s: Run, now: int, at: int)
    requires Accounted(p, times, s, now) && s.armed && now <= at
    ensures Spaced(times + [at], Burst(p), p.windowMs)
  {
    var i := |times| - Burst(p);
    if i >= 0 && s.rec.Some? {
      var g := |times| - s.rec.value.failures;
      assert times[i] + p.windowMs <= times[g] && times[g] in times;
    }
  }

  lemma FailStaysTracked(p: Policy, times: seq<int>, s: Run, now: int, at: int)
    requires Accounted(p, times, s, now) && s.armed && now <= at
    ensures Tracks(p, times + [at], FailRecord(s.rec, p, at), false)
  {
    var times' := times + [at];
    var r' := FailRecord(s.rec, p, at);
    var g' := |times'| - r'.failures;
    forall i | 0 <= i < g' && i <= g' - (Limit(p) - 1)
      ensures times'[i] + p.windowMs <= r'.windowStartedAt
    {
      if s.rec.Some? && g' == |times| {
        assert times[i] <= times[|times| - s.rec.value.failures];
      }
    }
  }

  lemma FailAccounted(p: Policy, g: int, times: seq<int>, s: Run, now: int, at: int)
    requires Accounted(p, times, s, now) && s.armed && 1 <= now <= at
    ensures Accounted(p, times + [at], Step(p, g, s, Fail(at)), at)
  {
    FailStaysSpaced(p, times, s, now, at);
    FailStaysTracked(p, times, s, now, at);
    forall i | 0 <= i < |times|
      ensures times[i] <= at
    {
      assert times[i] in times;
    }
  }

  lemma StepAccounted(p: Policy, g: int, times: seq<int>, s: Run, now: int, e: Event)
    requires Covered(p, g) && 0 <= p.lockoutMs
    requires Accounted(p, times, s, now) && 1 <= now <= e.at
    requires !e.Clear? && !e.Fail?
    ensures Accounted(p, times, Step(p, g, s, e), e.at)
  {
    if s.rec.Some? {
      assert times[|times| - 1] in times;
    }
    if s.rec.Some? && Step(p, g, s, e).rec.None? {
      var r := s.rec.value;
      forall i | 0 <= i < |times| && i <= |times| - (Limit(p) - 1)
        ensures times[i] + p.windowMs <= e.at
      {
        assert times[i] <= times[|times| - 1];
        assert r.lockedUntil.None? ==> times[i] <= times[|times| - r.failures];
      }
    }
  }

  lemma {:induction false} RunAccounted(p: Policy, g: int, tr: seq<Event>)
    requires Covered(p, g) && 0 <= p.lockoutMs
    requires LoginRun(p, g, tr)
    ensures Clock(tr) >= 1
    ensures Accounted(p, FailTimes(tr), After(p, g, tr), Clock(tr))
  {
    if tr == [] {
    } else {
      var front, last := tr[..|tr| - 1], tr[|tr| - 1];
      assert forall i :: 0 <= i < |front| ==> front[i] == tr[i];
      RunAccounted(p, g, front);
      var times, s := FailTimes(front), After(p, g, front);
      if last.Fail? {
        FailAccounted(p, g, times, s, Clock(front), last.at);
      } else {
        assert FailTimes(tr) == times;
        StepAccounted(p, g, times, s, Clock(front), last);
      }
    }
  }

  // ---- The bound is reached, and its condition is exact ----

  /** A run of the login flow: a sane clock, checks before failures, no successful login. */
  predicate LoginRun(p: Policy, g: int, tr: seq<Event>) {
    Timed(tr) && Disciplined(p, g, tr) && NoClear(tr)
  }

  /** Login attempts at one instant, each a check and then a failure. */
  function Volley(t: int, k: nat): seq<Event> {
    if k == 0 then [] else Volley(t, k - 1) + [Check(t)] + [Fail(t)]
  }

  lemma VolleyStep(tr: seq<Event>, t: int, k: nat)
    ensures tr + Volley(t, 0) == tr
    ensures k > 0 ==> tr + Volley(t, k) == tr + Volley(t, k - 1) + [Check(t)] + [Fail(t)]
  {
  }

  function Repeat(t: int, k: nat): seq<int> { seq(k, _ => t) }

  /** Appending one event to a run. */
  lemma Append(p: Policy, g: int, tr: seq<Event>, e: Event)
    ensures After(p, g, tr + [e]) == Step(p, g, After(p, g, tr), e)
    ensures LoginRun(p, g, tr + [e]) <==>
            LoginRun(p, g, tr) && Clock(tr) <= e.at && !e.Clear? && (e.Fail? ==> After(p, g, tr).armed)
    ensures Clock(tr + [e]) == e.at
    ensures FailTimes(tr + [e]) == FailTimes(tr) + if e.Fail? then [e.at] else []
    ensures Refusals(p, g, tr + [e]) ==
            Refusals(p, g, tr) + if e.Check? then [CheckVerdict(After(p, g, tr).rec, e.at).Locked?] else []
  {
    assert (tr + [e])[..|tr|] == tr;
    assert forall i :: 0 <= i < |tr| ==> (tr + [e])[i] == tr[i];
  }

  lemma EmptyRun(p: Policy, g: int)
    ensures After(p, g, []) == Run(None, false) && FailTimes([]) == [] && Refusals(p, g, []) == []
    ensures LoginRun(p, g, []) && Clock([]) == 1
  {
  }

  /** The record that a failure at t, once let in, adds to. */
  function Base(p: Policy, rec: Option<AttemptRecord>, t: int): Option<AttemptRecord> {
    var kept := CheckRecord(rec, t);
    if kept.Some? && t - kept.value.windowStartedAt > p.windowMs then None else kept
  }

  /** Attempts at t are let in until k of them are made. */
  predicate Room(p: Policy, rec: Option<AttemptRecord>, t: int, k: nat) {
    && CheckVerdict(rec, t) == Pass
    && match Base(p, rec, t)
       case None => k <= Limit(p)
       case Some(r) => r.lockedUntil.None? && r.failures + k <= p.maxAttempts
  }

  function Counted(p: Policy, base: Option<AttemptRecord>, t: int, k: nat): AttemptRecord {
    var failures := k + if base.Some? then base.value.failures else 0;
    AttemptRecord(failures, if base.Some? then base.value.windowStartedAt else t,
                  if failures >= p.maxAttempts then Some(t + p.lockoutMs) else None)
  }

  /** The record after k attempts at t. */
  function Fired(p: Policy, rec: Option<AttemptRecord>, t: int, k: nat): Option<AttemptRecord> {
    if k == 0 then rec else Some(Counted(p, Base(p, rec, t), t, k))
  }

  lemma OneMore(p: Policy, rec: Option<AttemptRecord>, t: int, k: nat)
    requires p.windowMs >= 0 && k > 0 && Room(p, rec, t, k)
    ensures CheckVerdict(Fired(p, rec, t, k - 1), t) == Pass
    ensures FailRecord(CheckRecord(Fired(p, rec, t, k - 1), t), p, t) == Counted(p, Base(p, rec, t), t, k)
  {
  }

  lemma {:induction false} VolleyRun(p: Policy, g: int, tr: seq<Event>, t: int, k: nat)
    requires LoginRun(p, g, tr) && Clock(tr) <= t && p.windowMs >= 0 && Room(p, After(p, g, tr).rec, t, k)
    ensures LoginRun(p, g, tr + Volley(t, k)) && Clock(tr + Volley(t, k)) <= t
    ensures FailTimes(tr + Volley(t, k)) == FailTimes(tr) + Repeat(t, k)
    ensures After(p, g, tr + Volley(t, k)).rec == Fired(p, After(p, g, tr).rec, t, k)
  {
    VolleyStep(tr, t, k);
    hide Volley, After, LoginRun, FailTimes, Clock, CheckVerdict, CheckRecord, FailRecord, Base, Counted, Refusals;
    if k == 0 {
      assert Repeat(t, 0) == [];
    } else {
      var before := tr + Volley(t, k - 1);
      VolleyRun(p, g, tr, t, k - 1);
      OneMore(p, After(p, g, tr).rec, t, k);
      Append(p, g, before, Check(t));
      Append(p, g, before + [Check(t)], Fail(t));
      assert Repeat(t, k - 1) + [t] == Repeat(t, k);
    }
  }

  lemma {:induction false} CountRepeat(times: seq<int>, t: int, k: nat, from: int, to: int)
    ensures CountIn(times + Repeat(t, k), from, to) == CountIn(times, from, to) + if from <= t < to then k else 0
  {
    if k == 0 {
      assert times + Repeat(t, 0) == times;
    } else {
      CountRepeat(times, t, k - 1, from, to);
      assert (times + Repeat(t, k))[..|times| + k - 1] == times + Repeat(t, k - 1);
    }
  }

  /** A volley at t, counted in the window. */
  lemma VolleyCount(p: Policy, g: int, tr: seq<Event>, t: int, k: nat, from: int, to: int)
    requires LoginRun(p, g, tr) && Clock(tr) <= t && p.windowMs >= 0 && Room(p, After(p, g, tr).rec, t, k)
    ensures LoginRun(p, g, tr + Volley(t, k)) && Clock(tr + Volley(t, k)) <= t
    ensures After(p, g, tr + Volley(t, k)).rec == Fired(p, After(p, g, tr).rec, t, k)
    ensures CountIn(FailTimes(tr + Volley(t, k)), from, to) ==
            CountIn(FailTimes(tr), from, to) + if from <= t < to then k else 0
  {
    VolleyRun(p, g, tr, t, k);
    CountRepeat(FailTimes(tr), t, k, from, to);
  }

  lemma NothingCounted(from: int, to: int)
    ensures CountIn([], from, to) == 0
  {
  }

  /** For every policy some run of the login flow does put 2m - 2 failures in one window. */
  lemma BoundReached(p: Policy, g: int) returns (tr: seq<Event>, from: int)
    requires p.maxAttempts >= 2 && p.windowMs >= 2
    ensures LoginRun(p, g, tr)
    ensures CountIn(FailTimes(tr), from, from + p.windowMs) == 2 * p.maxAttempts - 2
  {
    hide After, LoginRun, FailTimes, Clock, CountIn;
    var m, w := p.maxAttempts, p.windowMs;
    from := w + 1;
    EmptyRun(p, g);
    NothingCounted(from, from + w);
    VolleyCount(p, g, [], 1, 1, from, from + w);
    tr := [] + Volley(1, 1);
    VolleyCount(p, g, tr, w + 1, m - 2, from, from + w);
    tr := tr + Volley(w + 1, m - 2);
    VolleyCount(p, g, tr, w + 2, m, from, from + w);
    tr := tr + Volley(w + 2, m);
  }

  /** When the lockout is shorter than the window, a run puts 2m failures in one window. */
  lemma ShortLockoutOverflows(p: Policy, g: int) returns (tr: seq<Event>, from: int)
    requires 0 <= p.lockoutMs < p.windowMs
    ensures LoginRun(p, g, tr)
    ensures CountIn(FailTimes(tr), from, from + p.windowMs) == 2 * Limit(p)
  {
    hide After, LoginRun, FailTimes, Clock, CountIn;
    var w, t := p.windowMs, 1 + p.lockoutMs;
    from := 1;
    EmptyRun(p, g);
    NothingCounted(1, 1 + w);
    VolleyCount(p, g, [], 1, Limit(p), 1, 1 + w);
    tr := [] + Volley(1, Limit(p));
    VolleyCount(p, g, tr, t, Limit(p), 1, 1 + w);
    tr := tr + Volley(t, Limit(p));
  }

  /** When a prune comes before the end of the window, a run puts 2m - 1 failures in one window. */
  lemma EarlyPruneOverflows(p: Policy, g: int) returns (tr: seq<Event>, from: int)
    requires p.maxAttempts >= 2 && 0 <= g && g + 1 < p.windowMs
    ensures LoginRun(p, g, tr)
    ensures CountIn(FailTimes(tr), from, from + p.windowMs) == 2 * p.maxAttempts - 1
  {
    hide After, LoginRun, FailTimes, Clock, CountIn;
    var m, w, t := p.maxAttempts, p.windowMs, 2 + g;
    from := 1;
    EmptyRun(p, g);
    NothingCounted(1, 1 + w);
    VolleyCount(p, g, [], 1, m - 1, 1, 1 + w);
    tr := [] + Volley(1, m - 1);
    Append(p, g, tr, Prune(t));
    assert FailTimes(tr + [Prune(t)]) == FailTimes(tr);
    tr := tr + [Prune(t)];
    VolleyCount(p, g, tr, t, m, 1, 1 + w);
    tr := tr + Volley(t, m);
  }

  /** No half-open window of a run of the login flow holds more failures than `Burst`. */
  lemma RateBound(p: Policy, g: int, tr: seq<Event>, from: int)
    requires Covered(p, g) && 0 <= p.lockoutMs
    requires LoginRun(p, g, tr)
    ensures CountIn(FailTimes(tr), from, from + p.windowMs) <= Burst(p)
  {
    RunAccounted(p, g, tr);
    SpacedBound(FailTimes(tr), Burst(p), p.windowMs, from);
  }

  predicate WindowBounded(p: Policy, tr: seq<Event>, from: int) {
    CountIn(FailTimes(tr), from, from + p.windowMs) <= Burst(p)
  }

  /**
   The bound holds of every run exactly when the lockout lasts a window and, unless one failure
   already locks, the window is at most a millisecond longer than the one of the prune timer.
   */
  lemma BoundIffCovered(p: Policy, g: int)
    requires 0 <= p.lockoutMs && 0 <= g
    ensures (forall tr, from :: LoginRun(p, g, tr) ==> WindowBounded(p, tr, from)) <==>
            p.windowMs <= p.lockoutMs && (p.windowMs <= g + 1 || p.maxAttempts <= 1)
    ensures p.maxAttempts >= 2 ==> Burst(p) == 2 * p.maxAttempts - 2
  {
    hide LoginRun;
    if Covered(p, g) {
      forall tr, from | LoginRun(p, g, tr)
        ensures WindowBounded(p, tr, from)
      {
        RateBound(p, g, tr, from);
      }
    } else if p.lockoutMs < p.windowMs {
      var tr, from := ShortLockoutOverflows(p, g);
      assert !WindowBounded(p, tr, from);
    } else {
      var tr, from := EarlyPruneOverflows(p, g);
      assert !WindowBounded(p, tr, from);
    }
  }
}
