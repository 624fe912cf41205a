/**
 Two comparisons between whole runs of the limiter: the in-memory backend against the Redis
 backend, and a run with prune steps against the same run without them.
 */
module LoginLimiterBackends {
  import opened Wrappers
  import opened LoginLimiter

  // ---- Redis against memory ----

  function RedisStep(p: Policy, r: RedisKeys, e: Event): RedisKeys {
    match e
    case Check(_) => r
    case Fail(at) => RedisFail(r, p, at)
    case Clear(_) => RedisKeys(None, None)
    case Prune(_) => r
  }

  function RedisAfter(p: Policy, tr: seq<Event>): RedisKeys {
    if tr == [] then RedisKeys(None, None)
    else RedisStep(p, RedisAfter(p, tr[..|tr| - 1]), tr[|tr| - 1])
  }

  function RedisRefusals(p: Policy, slack: nat, tr: seq<Event>): seq<bool> {
    if tr == [] then [] else
      var last := tr[|tr| - 1];
      RedisRefusals(p, slack, tr[..|tr| - 1]) +
      if last.Check? then [RedisVerdict(RedisAfter(p, tr[..|tr| - 1]), slack, last.at).Locked?] else []
  }

  /** The event does not fall where the two backends round time differently. */
  predicate ClearOfEdges(p: Policy, slack: nat, rec: Option<AttemptRecord>, e: Event) {
    match e
    case Fail(at) => rec.Some? ==> at != rec.value.windowStartedAt + p.windowMs
    case Check(at) => HasLock(rec) ==> !(0 < rec.value.lockedUntil.value - at <= slack)
    case _ => true
  }

  predicate AvoidsEdges(p: Policy, g: int, slack: nat, tr: seq<Event>) {
    tr == [] ||
    (AvoidsEdges(p, g, slack, tr[..|tr| - 1]) &&
     ClearOfEdges(p, slack, After(p, g, tr[..|tr| - 1]).rec, tr[|tr| - 1]))
  }

  predicate WholeSeconds(p: Policy) {
    && p.windowMs >= 1000 && p.windowMs % 1000 == 0
    && p.lockoutMs >= 1000 && p.lockoutMs % 1000 == 0
  }

  /** The simulation relation between a record and the two Redis keys. */
  predicate Simulates(p: Policy, s: Run, r: RedisKeys, now: int) {
    if p.maxAttempts <= 1 then
      // every failure locks: only the lock matters
      match s.rec
      case None => r.lock.Some? ==> r.lock.value <= now
      case Some(m) => m.lockedUntil.Some? && m.lockedUntil.value > 0 && r.lock == m.lockedUntil
    else
      match s.rec
      case None => LiveCount(r, now) == 0 && (r.lock.Some? ==> r.lock.value <= now)
      case Some(m) =>
        && m.failures >= 1
        && r.fail == Some(Counter(m.failures, m.windowStartedAt + p.windowMs))
        && m.windowStartedAt <= now
        && (if m.failures >= p.maxAttempts
            then m.lockedUntil.Some? && !s.armed && r.lock == m.lockedUntil
                 && m.lockedUntil.value >= m.windowStartedAt + p.lockoutMs && m.lockedUntil.value > 0
            else m.lockedUntil.None? && (r.lock.Some? ==> r.lock.value <= now))
  }

  /** The two backends count the same failures, or one failure already locks. */
  predicate Alike(p: Policy, g: int) {
    (p.windowMs <= p.lockoutMs && p.windowMs <= g + 1) || p.maxAttempts <= 1
  }

  lemma StepSimulates(p: Policy, g: int, slack: nat, s: Run, r: RedisKeys, now: int, e: Event)
    requires WholeSeconds(p) && Alike(p, g)
    requires Simulates(p, s, r, now) && 1 <= now <= e.at
    requires e.Fail? ==> s.armed
    requires ClearOfEdges(p, slack, s.rec, e)
    ensures Simulates(p, Step(p, g, s, e), RedisStep(p, r, e), e.at)
    ensures e.Check? && slack < 1000 ==> (CheckVerdict(s.rec, e.at).Locked? <==> RedisVerdict(r, slack, e.at).Locked?)
  {
  }

  lemma {:induction false} RunSimulates(p: Policy, g: int, slack: nat, tr: seq<Event>)
    requires WholeSeconds(p) && Alike(p, g) && slack < 1000
    requires Timed(tr) && Disciplined(p, g, tr) && AvoidsEdges(p, g, slack, tr)
    ensures Clock(tr) >= 1
    ensures Simulates(p, After(p, g, tr), RedisAfter(p, tr), Clock(tr))
    ensures Refusals(p, g, tr) == RedisRefusals(p, slack, tr)
  {
    if tr == [] {
    } else {
      var front := tr[..|tr| - 1];
      RunSimulates(p, g, slack, front);
      StepSimulates(p, g, slack, After(p, g, front), RedisAfter(p, front), Clock(front), tr[|tr| - 1]);
    }
  }

  // ---- Where they differ ----

  lemma EmptyRedisRun(p: Policy, g: int, slack: nat)
    ensures RedisAfter(p, []) == RedisKeys(None, None) && RedisRefusals(p, slack, []) == []
    ensures AvoidsEdges(p, g, slack, [])
  {
  }

  lemma AppendRedis(p: Policy, g: int, slack: nat, tr: seq<Event>, e: Event)
    ensures RedisAfter(p, tr + [e]) == RedisStep(p, RedisAfter(p, tr), e)
    ensures RedisRefusals(p, slack, tr + [e]) ==
            RedisRefusals(p, slack, tr) + if e.Check? then [RedisVerdict(RedisAfter(p, tr), slack, e.at).Locked?] else []
    ensures AvoidsEdges(p, g, slack, tr + [e]) <==>
            AvoidsEdges(p, g, slack, tr) && ClearOfEdges(p, slack, After(p, g, tr).rec, e)
  {
    assert (tr + [e])[..|tr|] == tr;
  }

  /** The keys after k failures at t. */
  function RedisFired(p: Policy, r: RedisKeys, t: int, k: nat): RedisKeys {
    if k == 0 then r else
      var count := LiveCount(r, t) + k;
      RedisKeys(
        Some(Counter(count, if LiveCount(r, t) == 0 then t + 1000 * ExpirySeconds(p.windowMs) else r.fail.value.expiresAt)),
        if count >= p.maxAttempts then Some(t + 1000 * ExpirySeconds(p.lockoutMs)) else r.lock)
  }

  lemma OneMoreRedis(p: Policy, r: RedisKeys, t: int, k: nat)
    requires k > 0
    ensures RedisFail(RedisFired(p, r, t, k - 1), p, t) == RedisFired(p, r, t, k)
  {
  }

  lemma {:induction false} VolleyRedis(p: Policy, g: int, slack: nat, tr: seq<Event>, t: int, k: nat)
    ensures RedisAfter(p, tr + Volley(t, k)) == RedisFired(p, RedisAfter(p, tr), t, k)
  {
    VolleyStep(tr, t, k);
    hide RedisFired, Volley, RedisAfter, RedisFail;
    if k == 0 {
      assert RedisFired(p, RedisAfter(p, tr), t, 0) == RedisAfter(p, tr) by { NoneFired(p, RedisAfter(p, tr), t); }
    } else {
      var before := tr + Volley(t, k - 1);
      VolleyRedis(p, g, slack, tr, t, k - 1);
      OneMoreRedis(p, RedisAfter(p, tr), t, k);
      AppendRedis(p, g, slack, before, Check(t));
      AppendRedis(p, g, slack, before + [Check(t)], Fail(t));
    }
  }

  lemma NoneFired(p: Policy, r: RedisKeys, t: int)
    ensures RedisFired(p, r, t, 0) == r
  {
  }

  /** Attempts at t stay off the edges of the record they start from. */
  predicate OffEdges(p: Policy, slack: nat, rec: Option<AttemptRecord>, t: int) {
    && (HasLock(rec) ==> !(0 < rec.value.lockedUntil.value - t <= slack))
    && (CheckRecord(rec, t).Some? ==> t != CheckRecord(rec, t).value.windowStartedAt + p.windowMs)
  }

  lemma FiredOffEdges(p: Policy, slack: nat, rec: Option<AttemptRecord>, t: int, k: nat)
    requires p.windowMs > 0 && k > 0 && Room(p, rec, t, k) && OffEdges(p, slack, rec, t)
    ensures var now := Fired(p, rec, t, k - 1);
            ClearOfEdges(p, slack, now, Check(t)) && ClearOfEdges(p, slack, CheckRecord(now, t), Fail(t))
  {
  }

  lemma RoomForFewer(p: Policy, rec: Option<AttemptRecord>, t: int, k: nat)
    requires k > 0 && Room(p, rec, t, k)
    ensures Room(p, rec, t, k - 1)
  {
  }

  lemma AttemptAvoids(p: Policy, g: int, slack: nat, tr: seq<Event>, t: int)
    requires AvoidsEdges(p, g, slack, tr)
    requires var rec := After(p, g, tr).rec;
             ClearOfEdges(p, slack, rec, Check(t)) && ClearOfEdges(p, slack, CheckRecord(rec, t), Fail(t))
    ensures AvoidsEdges(p, g, slack, tr + [Check(t)] + [Fail(t)])
  {
    hide AvoidsEdges, ClearOfEdges, After;
    Append(p, g, tr, Check(t));
    AppendRedis(p, g, slack, tr, Check(t));
    AppendRedis(p, g, slack, tr + [Check(t)], Fail(t));
  }

  lemma VolleyRecord(p: Policy, g: int, tr: seq<Event>, t: int, k: nat)
    requires LoginRun(p, g, tr) && Clock(tr) <= t && p.windowMs > 0 && Room(p, After(p, g, tr).rec, t, k)
    ensures After(p, g, tr + Volley(t, k)).rec == Fired(p, After(p, g, tr).rec, t, k)
  {
    hide *;
    VolleyRun(p, g, tr, t, k);
  }

  lemma {:induction false} VolleyAvoids(p: Policy, g: int, slack: nat, tr: seq<Event>, t: int, k: nat)
    requires LoginRun(p, g, tr) && Clock(tr) <= t && p.windowMs > 0 && Room(p, After(p, g, tr).rec, t, k)
    requires AvoidsEdges(p, g, slack, tr) && OffEdges(p, slack, After(p, g, tr).rec, t)
    ensures AvoidsEdges(p, g, slack, tr + Volley(t, k))
  {
    hide *;
    VolleyStep(tr, t, k);
    if k == 0 {
    } else {
      var rec := After(p, g, tr).rec;
      RoomForFewer(p, rec, t, k);
      VolleyAvoids(p, g, slack, tr, t, k - 1);
      VolleyRecord(p, g, tr, t, k - 1);
      FiredOffEdges(p, slack, rec, t, k);
      AttemptAvoids(p, g, slack, tr + Volley(t, k - 1), t);
    }
  }

  /** A volley in both backends. */
  lemma VolleyBoth(p: Policy, g: int, slack: nat, tr: seq<Event>, t: int, k: nat)
    requires LoginRun(p, g, tr) && Clock(tr) <= t && p.windowMs > 0 && Room(p, After(p, g, tr).rec, t, k)
    ensures LoginRun(p, g, tr + Volley(t, k)) && Clock(tr + Volley(t, k)) <= t
    ensures After(p, g, tr + Volley(t, k)).rec == Fired(p, After(p, g, tr).rec, t, k)
    ensures RedisAfter(p, tr + Volley(t, k)) == RedisFired(p, RedisAfter(p, tr), t, k)
    ensures AvoidsEdges(p, g, slack, tr) && OffEdges(p, slack, After(p, g, tr).rec, t) ==>
              AvoidsEdges(p, g, slack, tr + Volley(t, k))
  {
    VolleyRun(p, g, tr, t, k);
    VolleyRedis(p, g, slack, tr, t, k);
    if AvoidsEdges(p, g, slack, tr) && OffEdges(p, slack, After(p, g, tr).rec, t) {
      VolleyAvoids(p, g, slack, tr, t, k);
    }
  }

  /** A failure exactly on the window edge is counted by one backend and restarts the other. */
  lemma EdgeFailureDiverges(p: Policy, g: int, slack: nat) returns (tr: seq<Event>, at: int)
    requires WholeSeconds(p) && p.maxAttempts >= 2 && slack < 1000
    ensures LoginRun(p, g, tr) && Clock(tr) <= at
    ensures CheckVerdict(After(p, g, tr).rec, at).Locked?
    ensures RedisVerdict(RedisAfter(p, tr), slack, at) == Pass
  {
    hide After, LoginRun, Clock, RedisAfter, AvoidsEdges;
    at := 1 + p.windowMs;
    EmptyRun(p, g);
    EmptyRedisRun(p, g, slack);
    VolleyBoth(p, g, slack, [], 1, p.maxAttempts - 1);
    tr := [] + Volley(1, p.maxAttempts - 1);
    VolleyBoth(p, g, slack, tr, at, 1);
    tr := tr + Volley(at, 1);
  }

  /** A check in the milliseconds that the reported rest of a lock hides is refused by one backend only. */
  lemma LateCheckDiverges(p: Policy, g: int, slack: nat) returns (tr: seq<Event>, at: int)
    requires WholeSeconds(p) && 0 < slack < 1000
    ensures LoginRun(p, g, tr) && Clock(tr) <= at
    ensures CheckVerdict(After(p, g, tr).rec, at).Locked?
    ensures RedisVerdict(RedisAfter(p, tr), slack, at) == Pass
  {
    hide After, LoginRun, Clock, RedisAfter, AvoidsEdges;
    at := 1 + p.lockoutMs - slack;
    EmptyRun(p, g);
    EmptyRedisRun(p, g, slack);
    VolleyBoth(p, g, slack, [], 1, Limit(p));
    tr := [] + Volley(1, Limit(p));
  }

  /** With a lockout shorter than the window Redis still counts what the record has forgotten. */
  lemma ShortLockoutDiverges(p: Policy, g: int, slack: nat) returns (tr: seq<Event>, at: int)
    requires WholeSeconds(p) && p.maxAttempts >= 2 && slack < 1000 && p.lockoutMs < p.windowMs
    ensures LoginRun(p, g, tr) && AvoidsEdges(p, g, slack, tr) && Clock(tr) <= at
    ensures ClearOfEdges(p, slack, After(p, g, tr).rec, Check(at))
    ensures CheckVerdict(After(p, g, tr).rec, at) == Pass && RedisVerdict(RedisAfter(p, tr), slack, at).Locked?
  {
    hide After, LoginRun, Clock, RedisAfter, AvoidsEdges;
    at := 1 + p.lockoutMs;
    EmptyRun(p, g);
    EmptyRedisRun(p, g, slack);
    VolleyBoth(p, g, slack, [], 1, p.maxAttempts);
    tr := [] + Volley(1, p.maxAttempts);
    VolleyBoth(p, g, slack, tr, at, 1);
    tr := tr + Volley(at, 1);
  }

  /** A prune before the end of the window, with as many failures before it as do not lock, and one after. */
  function PrunedRun(p: Policy, g: int): seq<Event>
    requires p.maxAttempts >= 2
  {
    [] + Volley(1, p.maxAttempts - 1) + [Prune(2 + g)] + Volley(2 + g, 1)
  }

  lemma PrunedRunForgets(p: Policy, g: int, slack: nat)
    requires p.maxAttempts >= 2 && 0 <= g < p.windowMs
    ensures var tr := PrunedRun(p, g);
            LoginRun(p, g, tr) && Clock(tr) <= 2 + g && After(p, g, tr).rec == Some(AttemptRecord(1, 2 + g, None))
    ensures RedisAfter(p, PrunedRun(p, g)) ==
            RedisFired(p, RedisFired(p, RedisKeys(None, None), 1, p.maxAttempts - 1), 2 + g, 1)
    ensures AvoidsEdges(p, g, slack, PrunedRun(p, g))
  {
    hide After, LoginRun, Clock, RedisAfter, AvoidsEdges, RedisFired;
    EmptyRun(p, g);
    EmptyRedisRun(p, g, slack);
    VolleyBoth(p, g, slack, [], 1, p.maxAttempts - 1);
    var tr := [] + Volley(1, p.maxAttempts - 1);
    Append(p, g, tr, Prune(2 + g));
    AppendRedis(p, g, slack, tr, Prune(2 + g));
    VolleyBoth(p, g, slack, tr + [Prune(2 + g)], 2 + g, 1);
  }

  lemma EarlyPruneDiverges(p: Policy, g: int, slack: nat) returns (tr: seq<Event>, at: int)
    requires WholeSeconds(p) && p.maxAttempts >= 2 && slack < 1000 && 0 <= g && g + 1 < p.windowMs
    ensures LoginRun(p, g, tr) && AvoidsEdges(p, g, slack, tr) && Clock(tr) <= at
    ensures ClearOfEdges(p, slack, After(p, g, tr).rec, Check(at))
    ensures CheckVerdict(After(p, g, tr).rec, at) == Pass && RedisVerdict(RedisAfter(p, tr), slack, at).Locked?
  {
    hide After, LoginRun, Clock, RedisAfter, AvoidsEdges, PrunedRun;
    PrunedRunForgets(p, g, slack);
    tr, at := PrunedRun(p, g), 2 + g;
  }

  predicate SameRefusals(p: Policy, g: int, slack: nat, tr: seq<Event>) {
    Refusals(p, g, tr) == RedisRefusals(p, slack, tr)
  }

  /** The check after the run is refused by one backend only. */
  lemma LastCheckDiffers(p: Policy, g: int, slack: nat, tr: seq<Event>, at: int)
    requires LoginRun(p, g, tr) && AvoidsEdges(p, g, slack, tr) && Clock(tr) <= at
    requires ClearOfEdges(p, slack, After(p, g, tr).rec, Check(at))
    requires CheckVerdict(After(p, g, tr).rec, at) == Pass && RedisVerdict(RedisAfter(p, tr), slack, at).Locked?
    ensures var all := tr + [Check(at)];
            LoginRun(p, g, all) && AvoidsEdges(p, g, slack, all) && !SameRefusals(p, g, slack, all)
  {
    hide After, LoginRun, Clock, RedisAfter, AvoidsEdges, ClearOfEdges, Refusals, RedisRefusals;
    Append(p, g, tr, Check(at));
    AppendRedis(p, g, slack, tr, Check(at));
    var x, y := Refusals(p, g, tr + [Check(at)]), RedisRefusals(p, slack, tr + [Check(at)]);
    assert !x[|x| - 1] && y[|y| - 1];
  }

  /**
   For whole seconds, the backends refuse the same checks of every run that avoids the edges exactly
   when the lockout lasts a window and no prune comes before its end, or one failure already locks.
   */
  lemma SameRefusalsIff(p: Policy, g: int, slack: nat)
    requires WholeSeconds(p) && slack < 1000 && 0 <= g
    ensures (forall tr :: Timed(tr) && Disciplined(p, g, tr) && AvoidsEdges(p, g, slack, tr) ==> SameRefusals(p, g, slack, tr))
            <==> (p.windowMs <= p.lockoutMs && p.windowMs <= g + 1) || p.maxAttempts <= 1
  {
    hide AvoidsEdges, Refusals, RedisRefusals, Timed, Disciplined;
    if Alike(p, g) {
      forall tr | Timed(tr) && Disciplined(p, g, tr) && AvoidsEdges(p, g, slack, tr)
        ensures SameRefusals(p, g, slack, tr)
      {
        RunSimulates(p, g, slack, tr);
      }
    } else {
      var tr, at;
      if p.lockoutMs < p.windowMs {
        tr, at := ShortLockoutDiverges(p, g, slack);
      } else {
        tr, at := EarlyPruneDiverges(p, g, slack);
      }
      LastCheckDiffers(p, g, slack, tr, at);
      assert LoginRun(p, g, tr + [Check(at)]);
    }
  }

  // ---- Pruning ----

  function WithoutPrunes(tr: seq<Event>): seq<Event> {
    if tr == [] then [] else
      WithoutPrunes(tr[..|tr| - 1]) + if tr[|tr| - 1].Prune? then [] else [tr[|tr| - 1]]
  }

  /** The pruned record is the other one, or has lost only what no later step would use. */
  predicate PrunedFrom(p: Policy, pruned: Option<AttemptRecord>, full: Option<AttemptRecord>, now: int) {
    pruned == full ||
    (pruned.None? &&
     match full.value.lockedUntil
     case Some(u) => u <= now && u != 0
     case None => now - full.value.windowStartedAt > p.windowMs)
  }

  /** No lock is left behind a check that passed; where one failure locks, every record is locked. */
  predicate ArmedIsUnlocked(p: Policy, s: Run) {
    && (s.armed ==> !HasLock(s.rec))
    && (s.rec.Some? ==> s.rec.value.lockedUntil != Some(0))
    && (p.maxAttempts <= 1 && s.rec.Some? ==> s.rec.value.lockedUntil.Some?)
  }

  lemma StepPruned(p: Policy, g: int, pruned: Run, full: Run, now: int, e: Event)
    requires p.windowMs <= g || p.maxAttempts <= 1
    requires 0 <= p.lockoutMs && 1 <= now <= e.at
    requires PrunedFrom(p, pruned.rec, full.rec, now) && pruned.armed == full.armed
    requires ArmedIsUnlocked(p, pruned) && ArmedIsUnlocked(p, full)
    requires e.Fail? ==> pruned.armed
    ensures var pruned', full' := Step(p, g, pruned, e), if e.Prune? then full else Step(p, g, full, e);
            && PrunedFrom(p, pruned'.rec, full'.rec, e.at) && pruned'.armed == full'.armed
            && ArmedIsUnlocked(p, pruned') && ArmedIsUnlocked(p, full')
    ensures e.Check? ==> (CheckVerdict(pruned.rec, e.at) == CheckVerdict(full.rec, e.at))
  {
  }

  /** Taking every prune step out of a disciplined run changes no verdict. */
  lemma {:induction false} PruningUnobservable(p: Policy, g: int, tr: seq<Event>)
    requires p.windowMs <= g || p.maxAttempts <= 1
    requires 0 <= p.lockoutMs && Timed(tr) && Disciplined(p, g, tr)
    ensures Refusals(p, g, tr) == Refusals(p, g, WithoutPrunes(tr))
    ensures Disciplined(p, g, WithoutPrunes(tr)) && Clock(tr) >= 1
    ensures var pruned, full := After(p, g, tr), After(p, g, WithoutPrunes(tr));
            && PrunedFrom(p, pruned.rec, full.rec, Clock(tr)) && pruned.armed == full.armed
            && ArmedIsUnlocked(p, pruned) && ArmedIsUnlocked(p, full)
  {
    if tr == [] {
    } else {
      hide Step, CheckVerdict, PrunedFrom, ArmedIsUnlocked;
      var front, last := tr[..|tr| - 1], tr[|tr| - 1];
      PruningUnobservable(p, g, front);
      var kept := WithoutPrunes(front);
      StepPruned(p, g, After(p, g, front), After(p, g, kept), Clock(front), last);
      if last.Prune? {
        assert WithoutPrunes(tr) == kept && Refusals(p, g, tr) == Refusals(p, g, front);
      } else {
        assert (kept + [last])[..|kept|] == kept;
      }
    }
  }

  lemma AppendPrunes(tr: seq<Event>, e: Event)
    ensures WithoutPrunes([]) == []
    ensures WithoutPrunes(tr + [e]) == WithoutPrunes(tr) + if e.Prune? then [] else [e]
  {
    assert (tr + [e])[..|tr|] == tr;
  }

  lemma {:induction false} VolleyHasNoPrunes(tr: seq<Event>, t: int, k: nat)
    ensures WithoutPrunes(tr + Volley(t, k)) == WithoutPrunes(tr) + Volley(t, k)
  {
    VolleyStep(tr, t, k);
    VolleyStep(WithoutPrunes(tr), t, k);
    hide Volley, WithoutPrunes;
    if k == 0 {
    } else {
      var before := tr + Volley(t, k - 1);
      VolleyHasNoPrunes(tr, t, k - 1);
      AppendPrunes(before, Check(t));
      AppendPrunes(before + [Check(t)], Fail(t));
    }
  }

  lemma PrunedRunWithout(p: Policy, g: int)
    requires p.maxAttempts >= 2
    ensures WithoutPrunes(PrunedRun(p, g)) == [] + Volley(1, p.maxAttempts - 1) + Volley(2 + g, 1)
  {
    hide WithoutPrunes;
    var tr := [] + Volley(1, p.maxAttempts - 1);
    VolleyHasNoPrunes([], 1, p.maxAttempts - 1);
    AppendPrunes(tr, Prune(2 + g));
    VolleyHasNoPrunes(tr + [Prune(2 + g)], 2 + g, 1);
  }

  predicate PruneFree(p: Policy, g: int, tr: seq<Event>) {
    Refusals(p, g, tr) == Refusals(p, g, WithoutPrunes(tr))
  }

  /** With a longer policy window than the global one, a prune forgets failures that still count. */
  lemma EarlyPruneIsObservable(p: Policy, g: int) returns (tr: seq<Event>)
    requires p.maxAttempts >= 2 && 0 <= g < p.windowMs && 0 < p.lockoutMs
    ensures LoginRun(p, g, tr) && !PruneFree(p, g, tr)
  {
    hide After, LoginRun, Clock, WithoutPrunes, Refusals, PrunedRun;
    var pruned, at := PrunedRun(p, g), 2 + g;
    tr := pruned + [Check(at)];
    PrunedRunForgets(p, g, 0);
    PrunedRunWithout(p, g);
    Append(p, g, pruned, Check(at));
    AppendPrunes(pruned, Check(at));
    EmptyRun(p, g);
    VolleyRun(p, g, [], 1, p.maxAttempts - 1);
    VolleyRun(p, g, [] + Volley(1, p.maxAttempts - 1), at, 1);
    var full := [] + Volley(1, p.maxAttempts - 1) + Volley(at, 1);
    Append(p, g, full, Check(at));
    var x, y := Refusals(p, g, tr), Refusals(p, g, full + [Check(at)]);
    assert !x[|x| - 1] && y[|y| - 1];
  }

  /** Pruning changes no verdict of any run exactly when the window is no longer than the global one, or one failure already locks. */
  lemma PruningUnobservableIff(p: Policy, g: int)
    requires 0 < p.lockoutMs && 0 <= g
    ensures (forall tr :: Timed(tr) && Disciplined(p, g, tr) ==> PruneFree(p, g, tr)) <==> p.windowMs <= g || p.maxAttempts <= 1
  {
    hide Refusals, WithoutPrunes, Timed, Disciplined;
    if p.windowMs <= g || p.maxAttempts <= 1 {
      forall tr | Timed(tr) && Disciplined(p, g, tr)
        ensures PruneFree(p, g, tr)
      {
        PruningUnobservable(p, g, tr);
      }
    } else {
      var tr := EarlyPruneIsObservable(p, g);
      assert LoginRun(p, g, tr);
    }
  }
}
