/** The Redis backend on its own: how many failures its keys let into one window, edges included. */
module LoginLimiterRedis {
  import opened Wrappers
  import opened LoginLimiter
  import opened LoginLimiterBackends

  /** The lifetimes of the two keys, in whole seconds. */
  function CountMs(p: Policy): int { 1000 * ExpirySeconds(p.windowMs) }

  function LockMs(p: Policy): int { 1000 * ExpirySeconds(p.lockoutMs) }

  /** A lock check has passed since the last failure. */
  predicate Armed(p: Policy, slack: nat, tr: seq<Event>) {
    tr != [] &&
    var front, last := tr[..|tr| - 1], tr[|tr| - 1];
    match last
    case Check(at) => RedisVerdict(RedisAfter(p, front), slack, at) == Pass
    case Fail(_) => false
    case _ => Armed(p, slack, front)
  }

  /** A run of the login flow against Redis. */
  predicate RedisLoginRun(p: Policy, slack: nat, tr: seq<Event>) {
    tr == [] ||
    var front, last := tr[..|tr| - 1], tr[|tr| - 1];
    RedisLoginRun(p, slack, front) && Clock(front) <= last.at && !last.Clear? && (last.Fail? ==> Armed(p, slack, front))
  }

  /** What the keys say about the failures of the run. */
  predicate KeysTrack(p: Policy, slack: nat, times: seq<int>, r: RedisKeys, armed: bool, now: int) {
    match r.fail
    case None => times == [] && r.lock.None?
    case Some(c) =>
      && 1 <= c.count <= Limit(p) && c.count <= |times|
      && times[|times| - c.count] == c.expiresAt - CountMs(p)
      && Aged(times, |times| - c.count, Limit(p), CountMs(p), c.expiresAt - CountMs(p))
      && (c.count >= p.maxAttempts ==>
            r.lock == Some(times[|times| - 1] + LockMs(p)) && (armed ==> times[|times| - 1] + LockMs(p) - slack <= now))
  }

  predicate RedisAccounted(p: Policy, slack: nat, times: seq<int>, r: RedisKeys, armed: bool, now: int) {
    && Sorted(times) && Spaced(times, Burst(p), CountMs(p))
    && (forall t :: t in times ==> t <= now)
    && KeysTrack(p, slack, times, r, armed, now)
  }

  /** The lock outlasts the counter even where the reported rest of its time is rounded down. */
  predicate LockCovers(p: Policy, slack: nat) { CountMs(p) + slack <= LockMs(p) }

  /** A failure let in outside the counter's lifetime finds all but the last few failures a window old. */
  lemma ExpiredIsAged(p: Policy, slack: nat, times: seq<int>, r: RedisKeys, now: int, at: int)
    requires LockCovers(p, slack) && RedisAccounted(p, slack, times, r, true, now) && now <= at && LiveCount(r, at) == 0
    ensures Aged(times, |times|, Limit(p), CountMs(p), at)
  {
    if r.fail.Some? {
      var c := r.fail.value;
      forall i | 0 <= i < |times| && i <= |times| - (Limit(p) - 1)
        ensures times[i] + CountMs(p) <= at
      {
        assert times[i] <= times[|times| - 1];
        assert c.count < p.maxAttempts ==> times[i] <= times[|times| - c.count];
      }
    }
  }

  lemma LiveHasRoom(p: Policy, slack: nat, times: seq<int>, r: RedisKeys, now: int, at: int)
    requires LockCovers(p, slack) && RedisAccounted(p, slack, times, r, true, now) && now <= at && LiveCount(r, at) > 0
    ensures r.fail.value.count < p.maxAttempts
  {
    var c := r.fail.value;
    assert times[|times| - c.count] <= times[|times| - 1];
  }

  lemma RedisFailSpaced(p: Policy, slack: nat, times: seq<int>, r: RedisKeys, now: int, at: int)
    requires LockCovers(p, slack) && RedisAccounted(p, slack, times, r, true, now) && now <= at
    ensures Spaced(times + [at], Burst(p), CountMs(p))
  {
    var i := |times| - Burst(p);
    if i >= 0 && r.fail.Some? {
      if LiveCount(r, at) == 0 {
        ExpiredIsAged(p, slack, times, r, now, at);
      } else {
        LiveHasRoom(p, slack, times, r, now, at);
        var g := |times| - r.fail.value.count;
        assert times[i] + CountMs(p) <= times[g] && times[g] in times;
      }
    }
  }

  lemma RedisFailTracked(p: Policy, slack: nat, times: seq<int>, r: RedisKeys, now: int, at: int)
    requires LockCovers(p, slack) && RedisAccounted(p, slack, times, r, true, now) && now <= at
    ensures KeysTrack(p, slack, times + [at], RedisFail(r, p, at), false, at)
  {
    if LiveCount(r, at) == 0 {
      ExpiredIsAged(p, slack, times, r, now, at);
    } else {
      LiveHasRoom(p, slack, times, r, now, at);
    }
    hide ExpirySeconds;
  }

  lemma RedisFailAccounted(p: Policy, slack: nat, times: seq<int>, r: RedisKeys, now: int, at: int)
    requires LockCovers(p, slack) && RedisAccounted(p, slack, times, r, true, now) && now <= at
    ensures RedisAccounted(p, slack, times + [at], RedisFail(r, p, at), false, at)
  {
    RedisFailSpaced(p, slack, times, r, now, at);
    RedisFailTracked(p, slack, times, r, now, at);
    hide KeysTrack, Spaced, RedisFail;
    forall i | 0 <= i < |times|
      ensures times[i] <= at
    {
      assert times[i] in times;
    }
  }

  lemma RedisWaitAccounted(p: Policy, slack: nat, times: seq<int>, r: RedisKeys, armed: bool, now: int, e: Event)
    requires slack < 1000 && RedisAccounted(p, slack, times, r, armed, now) && now <= e.at && !e.Fail?
    ensures RedisAccounted(p, slack, times, r, if e.Check? then RedisVerdict(r, slack, e.at) == Pass else armed, e.at)
  {
    hide Aged, Spaced, ExpirySeconds;
  }

  lemma NothingAccounted(p: Policy, slack: nat)
    ensures RedisAccounted(p, slack, FailTimes([]), RedisAfter(p, []), Armed(p, slack, []), Clock([]))
  {
  }

  lemma {:induction false} RedisRunAccounted(p: Policy, slack: nat, tr: seq<Event>)
    requires LockCovers(p, slack) && slack < 1000 && RedisLoginRun(p, slack, tr)
    ensures RedisAccounted(p, slack, FailTimes(tr), RedisAfter(p, tr), Armed(p, slack, tr), Clock(tr))
  {
    hide RedisAccounted, LockCovers, RedisFail, RedisVerdict;
    if tr == [] {
      NothingAccounted(p, slack);
    } else {
      var front, last := tr[..|tr| - 1], tr[|tr| - 1];
      RedisRunAccounted(p, slack, front);
      var times, r, now := FailTimes(front), RedisAfter(p, front), Clock(front);
      if last.Fail? {
        RedisFailAccounted(p, slack, times, r, now, last.at);
      } else {
        assert FailTimes(tr) == times && RedisAfter(p, tr) == r;
        RedisWaitAccounted(p, slack, times, r, Armed(p, slack, front), now, last);
      }
    }
  }

  // ---- Runs that exceed the bound ----

  lemma AppendRedisRun(p: Policy, slack: nat, tr: seq<Event>, e: Event)
    ensures RedisLoginRun(p, slack, tr + [e]) <==>
            RedisLoginRun(p, slack, tr) && Clock(tr) <= e.at && !e.Clear? && (e.Fail? ==> Armed(p, slack, tr))
    ensures e.Check? ==> (Armed(p, slack, tr + [e]) <==> RedisVerdict(RedisAfter(p, tr), slack, e.at) == Pass)
    ensures RedisAfter(p, tr + [e]) == RedisStep(p, RedisAfter(p, tr), e)
    ensures Clock(tr + [e]) == e.at && FailTimes(tr + [e]) == FailTimes(tr) + if e.Fail? then [e.at] else []
  {
    assert (tr + [e])[..|tr|] == tr;
  }

  /** Attempts at t are let in until k of them are made. */
  predicate RedisRoom(p: Policy, slack: nat, r: RedisKeys, t: int, k: nat) {
    RedisVerdict(r, slack, t) == Pass && LiveCount(r, t) + k <= Limit(p)
  }

  lemma FewerLetIn(p: Policy, slack: nat, r: RedisKeys, t: int, k: nat)
    requires k > 0 && RedisRoom(p, slack, r, t, k)
    ensures RedisRoom(p, slack, r, t, k - 1) && RedisVerdict(RedisFired(p, r, t, k - 1), slack, t) == Pass
  {
  }

  lemma {:induction false} RedisVolley(p: Policy, slack: nat, tr: seq<Event>, t: int, k: nat, from: int, to: int)
    requires RedisLoginRun(p, slack, tr) && Clock(tr) <= t && RedisRoom(p, slack, RedisAfter(p, tr), t, k)
    ensures RedisLoginRun(p, slack, tr + Volley(t, k)) && Clock(tr + Volley(t, k)) <= t
    ensures RedisAfter(p, tr + Volley(t, k)) == RedisFired(p, RedisAfter(p, tr), t, k)
    ensures CountIn(FailTimes(tr + Volley(t, k)), from, to) ==
            CountIn(FailTimes(tr), from, to) + if from <= t < to then k else 0
  {
    VolleyStep(tr, t, k);
    VolleyRedis(p, 0, slack, tr, t, k);
    hide Volley, RedisLoginRun, RedisAfter, RedisFired, RedisVerdict, LiveCount, Armed, Clock, CountIn;
    if k == 0 {
    } else {
      hide FailTimes;
      FewerLetIn(p, slack, RedisAfter(p, tr), t, k);
      hide RedisRoom;
      RedisVolley(p, slack, tr, t, k - 1, from, to);
      VolleyRedis(p, 0, slack, tr, t, k - 1);
      var before := tr + Volley(t, k - 1);
      AppendRedisRun(p, slack, before, Check(t));
      AppendRedisRun(p, slack, before + [Check(t)], Fail(t));
      assert FailTimes(before + [Check(t)]) == FailTimes(before);
      CountOneMore(FailTimes(before), t, from, to);
    }
  }

  lemma CountOneMore(times: seq<int>, t: int, from: int, to: int)
    ensures CountIn(times + [t], from, to) == CountIn(times, from, to) + if from <= t < to then 1 else 0
  {
    assert (times + [t])[..|times|] == times;
  }

  lemma EmptyRedisLogin(p: Policy, slack: nat, from: int, to: int)
    ensures RedisLoginRun(p, slack, []) && RedisAfter(p, []) == RedisKeys(None, None) && Clock([]) == 1
    ensures CountIn(FailTimes([]), from, to) == 0
  {
  }

  /** Where one failure locks: the next one comes as soon as the lock is not reported any more. */
  lemma SingleOverflows(p: Policy, slack: nat) returns (tr: seq<Event>, from: int)
    requires p.maxAttempts <= 1 && slack < 1000 && !LockCovers(p, slack)
    ensures RedisLoginRun(p, slack, tr) && CountIn(FailTimes(tr), from, from + CountMs(p)) > Burst(p)
  {
    hide RedisLoginRun, RedisAfter, FailTimes, Clock, CountIn;
    from := 1;
    var t := 1 + LockMs(p) - slack;
    EmptyRedisLogin(p, slack, 1, 1 + CountMs(p));
    RedisVolley(p, slack, [], 1, 1, 1, 1 + CountMs(p));
    tr := [] + Volley(1, 1);
    var checked := tr + [Check(t)];
    AppendRedisRun(p, slack, tr, Check(t));
    AppendRedisRun(p, slack, checked, Fail(t));
    assert FailTimes(checked) == FailTimes(tr);
    CountOneMore(FailTimes(tr), t, 1, 1 + CountMs(p));
    tr := checked + [Fail(t)];
  }

  /** Otherwise: fill the counter just before it expires, and start the next one as soon as the lock allows. */
  lemma LateLockOverflows(p: Policy, slack: nat) returns (tr: seq<Event>, from: int)
    requires p.maxAttempts >= 2 && slack < 1000 && !LockCovers(p, slack)
    ensures RedisLoginRun(p, slack, tr) && CountIn(FailTimes(tr), from, from + CountMs(p)) > Burst(p)
  {
    hide RedisLoginRun, RedisAfter, FailTimes, Clock, CountIn;
    var m, w := p.maxAttempts, CountMs(p);
    from := w;
    var t := w + LockMs(p) - slack;
    EmptyRedisLogin(p, slack, w, w + w);
    RedisVolley(p, slack, [], 1, 1, w, w + w);
    tr := [] + Volley(1, 1);
    RedisVolley(p, slack, tr, w, m - 1, w, w + w);
    tr := tr + Volley(w, m - 1);
    RedisVolley(p, slack, tr, t, m, w, w + w);
    tr := tr + Volley(t, m);
  }

  predicate RedisBounded(p: Policy, tr: seq<Event>, from: int) {
    CountIn(FailTimes(tr), from, from + CountMs(p)) <= Burst(p)
  }

  /**
   The bound of the in-memory backend holds of every Redis run exactly when the lock lasts at least a
   counter window and the milliseconds that its reported rest hides.
   */
  lemma RedisBoundIff(p: Policy, slack: nat)
    requires slack < 1000
    ensures (forall tr, from :: RedisLoginRun(p, slack, tr) ==> RedisBounded(p, tr, from)) <==>
            1000 * ExpirySeconds(p.windowMs) + slack <= 1000 * ExpirySeconds(p.lockoutMs)
  {
    hide RedisLoginRun, RedisAfter, FailTimes;
    if LockCovers(p, slack) {
      forall tr, from | RedisLoginRun(p, slack, tr)
        ensures RedisBounded(p, tr, from)
      {
        RedisRunAccounted(p, slack, tr);
        SpacedBound(FailTimes(tr), Burst(p), CountMs(p), from);
      }
    } else {
      var tr, from;
      if p.maxAttempts <= 1 {
        tr, from := SingleOverflows(p, slack);
      } else {
        tr, from := LateLockOverflows(p, slack);
      }
      assert !RedisBounded(p, tr, from);
    }
  }
}
