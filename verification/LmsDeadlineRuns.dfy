/** Runs of releases, blocks, sweeps and edits: a module whose deadline has passed stays blocked. */
module LmsDeadlineRuns {
  import opened Wrappers
  import opened Dates
  import opened LmsDeadlines

  datatype Step =
    | Sweep(today: Date)
    | SetTasks(action: Id, unit_: Id, unlock: bool, today: Date, manager: bool, mayRelease: bool)
    | SetDeadline(action: Id, unit_: Id, to: Option<Date>, block: bool)
    | Unlock(enrolment: Id, unit_: Id)
    | Lock(enrolment: Id, unit_: Id)
    | EditUnit(unit_: Id, lock: bool)
    | SetActive(enrolment: Id, active: bool)

  function Apply(db: Db, s: Step): Db {
    match s
    case Sweep(today) => Swept(db, today)
    case SetTasks(a, u, unlock, today, manager, mayRelease) =>
      if TasksRefusal(db, a, u, unlock, today, manager, mayRelease).Some? then db
      else if unlock then Released(db, a, u) else Withdrawn(db, {(a, u)})
    case SetDeadline(a, u, to, block) => DeadlineSet(db, a, u, to, block)
    case Unlock(m, u) => if MayUnlockOne(db, m, u) then db.(unlocks := db.unlocks + {(m, u)}) else db
    case Lock(m, u) => db.(unlocks := db.unlocks - {(m, u)})
    case EditUnit(u, lock) => if u in db.units then db.(units := db.units[u := db.units[u].(lock := lock)]) else db
    case SetActive(m, active) =>
      if m in db.enrolments then db.(enrolments := db.enrolments[m := db.enrolments[m].(active := active)]) else db
  }

  function After(db: Db, tr: seq<Step>): Db {
    if tr == [] then db else Apply(After(db, tr[..|tr| - 1]), tr[|tr| - 1])
  }

  /** Steps no earlier than the day given that do not touch the deadline of this module in this action. */
  predicate Leaves(s: Step, a: Id, u: Id, from: Date) {
    match s
    case Sweep(today) => Written(today) && !Later(from, today)
    case SetTasks(_, _, _, today, _, _) => Written(today) && !Later(from, today)
    case SetDeadline(b, v, _, _) => (b, v) != (a, u)
    case _ => true
  }

  predicate LeavesAll(tr: seq<Step>, a: Id, u: Id, from: Date) {
    forall i :: 0 <= i < |tr| ==> Leaves(tr[i], a, u, from)
  }

  /** The step releases the module to this one enrolment. */
  predicate Releases(db: Db, s: Step, m: Id, u: Id) { s == Unlock(m, u) && MayUnlockOne(db, m, u) }

  /** The step takes the module of this enrolment away. */
  predicate TakesAway(db: Db, s: Step, m: Id, u: Id)
    requires m in db.enrolments
  {
    var (a, active) := (db.enrolments[m].action, db.enrolments[m].active);
    match s
    case Sweep(today) => active && u in db.units && Expired(db, a, u, today)
    case SetTasks(b, v, unlock, today, manager, _) =>
      active && !unlock && b == a && v == u && manager && OfCourse(db, a, u)
    case SetDeadline(b, v, _, block) => active && block && b == a && v == u && u in db.units
    case Lock(n, v) => n == m && v == u
    case _ => false
  }

  // ---- One step ----

  lemma StepKeepsRows(db: Db, s: Step, m: Id)
    requires m in db.enrolments
    ensures var n := Apply(db, s);
            m in n.enrolments && n.enrolments[m].action == db.enrolments[m].action && n.units.Keys == db.units.Keys
  {
    hide Reached;
  }

  lemma StepKeepsDeadline(db: Db, s: Step, a: Id, u: Id, from: Date)
    requires Leaves(s, a, u, from)
    ensures var n := Apply(db, s);
            && ((a, u) in n.deadlines <==> (a, u) in db.deadlines)
            && ((a, u) in db.deadlines ==> n.deadlines[(a, u)] == db.deadlines[(a, u)])
  {
    hide Reached, Later;
  }

  /** Past the deadline only a direct release gives the module, and only the listed steps take it. */
  lemma StepUnlock(db: Db, s: Step, m: Id, u: Id, from: Date)
    requires m in db.enrolments && u in db.units
    requires var a := db.enrolments[m].action;
             (a, u) in db.deadlines && Written(db.deadlines[(a, u)]) && Written(from)
             && Expired(db, a, u, from) && Leaves(s, a, u, from)
    ensures (m, u) in Apply(db, s).unlocks <==>
            Releases(db, s, m, u) || ((m, u) in db.unlocks && !TakesAway(db, s, m, u))
  {
    var a := db.enrolments[m].action;
    if s.SetTasks? || s.Sweep? {
      ReachedForever(db.deadlines[(a, u)], from, s.today);
    }
    hide Reached, Later, Written;
    match s
    case Sweep(today) => SweepStep(db, today, m, u);
    case SetTasks(b, v, unlock, today, manager, mayRelease) =>
      if !unlock && v in db.units { WithdrawnOne(db, b, v); }
      hide Withdrawn;
    case SetDeadline(b, v, to, block) => DeadlineStep(db, b, v, to, block, m, u);
    case _ =>
  }

  lemma SweepStep(db: Db, today: Date, m: Id, u: Id)
    requires m in db.enrolments && u in db.units
    ensures (m, u) in Swept(db, today).unlocks <==>
            (m, u) in db.unlocks && !(db.enrolments[m].active && Expired(db, db.enrolments[m].action, u, today))
  {
    hide Reached;
  }

  lemma DeadlineStep(db: Db, b: Id, v: Id, to: Option<Date>, block: bool, m: Id, u: Id)
    requires m in db.enrolments && u in db.units
    ensures (m, u) in DeadlineSet(db, b, v, to, block).unlocks <==>
            (m, u) in db.unlocks && !(db.enrolments[m].active && block && (b, v) == (db.enrolments[m].action, u))
  {
  }

  lemma StepLock(db: Db, s: Step, u: Id)
    requires u in db.units && db.units[u].lock && s != EditUnit(u, false)
    ensures u in Apply(db, s).units && Apply(db, s).units[u].lock
  {
    hide Reached;
  }

  // ---- Whole runs ----

  lemma {:induction false} RunKeeps(db: Db, tr: seq<Step>, m: Id, u: Id, from: Date)
    requires m in db.enrolments && LeavesAll(tr, db.enrolments[m].action, u, from)
    ensures var (n, a) := (After(db, tr), db.enrolments[m].action);
            && m in n.enrolments && n.enrolments[m].action == a && n.units.Keys == db.units.Keys
            && ((a, u) in db.deadlines ==> (a, u) in n.deadlines && n.deadlines[(a, u)] == db.deadlines[(a, u)])
  {
    hide Apply, Leaves;
    if tr == [] {
    } else {
      var front := tr[..|tr| - 1];
      RunKeeps(db, front, m, u, from);
      var (d, s) := (After(db, front), tr[|tr| - 1]);
      StepKeepsRows(d, s, m);
      StepKeepsDeadline(d, s, db.enrolments[m].action, u, from);
    }
  }

  /** The i-th step gave the module to the enrolment and no later one took it away. */
  predicate HeldSince(db: Db, tr: seq<Step>, m: Id, u: Id, i: int) {
    && 0 <= i < |tr| && Releases(After(db, tr[..i]), tr[i], m, u)
    && forall j :: i < j < |tr| ==> var d := After(db, tr[..j]); m in d.enrolments && !TakesAway(d, tr[j], m, u)
  }

  ghost predicate DirectlyHeld(db: Db, tr: seq<Step>, m: Id, u: Id) { exists i :: HeldSince(db, tr, m, u, i) }

  lemma HeldStep(db: Db, tr: seq<Step>, m: Id, u: Id)
    requires tr != []
    requires m in After(db, tr[..|tr| - 1]).enrolments
    ensures var (front, s) := (tr[..|tr| - 1], tr[|tr| - 1]);
            DirectlyHeld(db, tr, m, u) <==>
            Releases(After(db, front), s, m, u)
            || (DirectlyHeld(db, front, m, u) && !TakesAway(After(db, front), s, m, u))
  {
    hide Releases, TakesAway, After;
    var n := |tr| - 1;
    var front := tr[..n];
    assert forall j :: 0 <= j <= n ==> front[..j] == tr[..j];
    if Releases(After(db, front), tr[n], m, u) {
      assert HeldSince(db, tr, m, u, n);
    }
    forall i | 0 <= i < n
      ensures HeldSince(db, tr, m, u, i) <==> HeldSince(db, front, m, u, i) && !TakesAway(After(db, front), tr[n], m, u)
    {
      if HeldSince(db, tr, m, u, i) {
        assert forall j :: i < j < n ==> front[j] == tr[j];
      }
    }
    if i :| HeldSince(db, front, m, u, i) && !TakesAway(After(db, front), tr[n], m, u) {
      assert HeldSince(db, tr, m, u, i);
    }
  }

  /**
   From a state where the deadline has passed and the enrolment does not hold the module (as after a
   sweep), while the deadline is not edited: the enrolment holds it at the end of a run exactly when
   someone released it to that enrolment by name and nothing took it away since.
   */
  lemma {:induction false} HeldOnlyByName(db: Db, tr: seq<Step>, m: Id, u: Id, from: Date)
    requires m in db.enrolments && u in db.units && (m, u) !in db.unlocks
    requires var a := db.enrolments[m].action;
             (a, u) in db.deadlines && Written(db.deadlines[(a, u)]) && Written(from)
             && Expired(db, a, u, from) && LeavesAll(tr, a, u, from)
    ensures (m, u) in After(db, tr).unlocks <==> DirectlyHeld(db, tr, m, u)
  {
    hide Apply, Leaves, Releases, TakesAway, Reached, Written;
    if tr != [] {
      var front := tr[..|tr| - 1];
      HeldOnlyByName(db, front, m, u, from);
      RunKeeps(db, front, m, u, from);
      StepUnlock(After(db, front), tr[|tr| - 1], m, u, from);
      HeldStep(db, tr, m, u);
    } else {
      hide After;
      assert !DirectlyHeld(db, tr, m, u);
    }
  }

  lemma {:induction false} LockedUntilEdited(db: Db, tr: seq<Step>, u: Id)
    requires u in db.units && db.units[u].lock && EditUnit(u, false) !in tr
    ensures u in After(db, tr).units && After(db, tr).units[u].lock
  {
    hide Apply;
    if tr == [] {
    } else {
      var front := tr[..|tr| - 1];
      assert tr[|tr| - 1] in tr && forall s :: s in front ==> s in tr;
      LockedUntilEdited(db, front, u);
      StepLock(After(db, front), tr[|tr| - 1], u);
    }
  }

  /**
   After a sweep, whatever is done later short of editing the deadline, unlocking the unit or
   releasing it to an enrolment by name: an expired module stays locked, the enrolments that were
   active keep no unlock, the collective release is refused, the gate is shut and the switch shows blocked.
   */
  lemma BlockedAfterSweep(db: Db, from: Date, tr: seq<Step>, a: Id, u: Id, m: Id, later: Date, earlierDone: bool)
    requires Expired(db, a, u, from) && u in db.units && m in ActiveOf(db, a)
    requires Written(db.deadlines[(a, u)]) && Written(from) && Written(later) && !Later(from, later)
    requires LeavesAll(tr, a, u, from) && EditUnit(u, false) !in tr && Unlock(m, u) !in tr
    ensures var end := After(Swept(db, from), tr);
            && u in end.units && end.units[u].lock && (m, u) !in end.unlocks && Expired(end, a, u, later)
            && !ShownUnlocked(end, a, u, later) && m in end.enrolments && !TaskOpen(end, m, u, later, earlierDone)
            && TasksRefusal(end, a, u, true, later, true, true).Some?
  {
    var s := Swept(db, from);
    SweptIsBlocked(db, from, a, u);
    LockedUntilEdited(s, tr, u);
    SweepTouchesOnly(db, from, (m, u));
    ReachedForever(db.deadlines[(a, u)], from, later);
    hide Apply, Leaves, Reached, Written, Later, Swept, ShownMeansAll, ReleasedCount, After;
    HeldOnlyByName(s, tr, m, u, from);
    RunKeeps(s, tr, m, u, from);
    forall i
      ensures !HeldSince(s, tr, m, u, i)
    {
    }
  }

  /** The other way in: a release by name works right after a sweep, though the deadline has passed. */
  lemma ReleaseByNameIgnoresDeadline(db: Db, from: Date, a: Id, u: Id, m: Id)
    requires Expired(db, a, u, from) && m in ActiveOf(db, a) && OfCourse(db, a, u)
    ensures (m, u) !in Swept(db, from).unlocks && (m, u) in Apply(Swept(db, from), Unlock(m, u)).unlocks
  {
    SweptIsBlocked(db, from, a, u);
    SweepTouchesOnly(db, from, (m, u));
    hide Reached, Swept;
  }

  /** Still, whoever holds what, the gate of an expired module is shut and the switch shows it blocked. */
  lemma GateHoldsRegardless(db: Db, a: Id, u: Id, from: Date, later: Date, m: Id, earlierDone: bool)
    requires Expired(db, a, u, from) && Written(db.deadlines[(a, u)]) && Written(from) && Written(later) && !Later(from, later)
    requires m in db.enrolments && db.enrolments[m].action == a
    ensures !TaskOpen(db, m, u, later, earlierDone) && !ShownUnlocked(db, a, u, later)
  {
    ReachedForever(db.deadlines[(a, u)], from, later);
  }

  /** An enrolment suspended during the sweep keeps its unlock and holds it again once reactivated, until the next sweep. */
  lemma SuspendedKeepsUnlock(db: Db, today: Date, a: Id, u: Id, m: Id)
    requires Expired(db, a, u, today) && u in db.units
    requires m in db.enrolments && db.enrolments[m] == Enrolment(a, false) && (m, u) in db.unlocks
    ensures var back := After(db, [Sweep(today), SetActive(m, true)]);
            m in ActiveOf(back, a) && (m, u) in back.unlocks && (m, u) !in Swept(back, today).unlocks
  {
    var tr := [Sweep(today), SetActive(m, true)];
    assert tr[..1] == [Sweep(today)] && tr[..1][..0] == [];
    var s := Swept(db, today);
    assert After(db, tr[..1]) == s;
    SweepStep(db, today, m, u);
    SweepTouchesOnly(db, today, (m, u));
    hide Swept, Reached;
    var back := s.(enrolments := s.enrolments[m := Enrolment(a, true)]);
    assert After(db, tr) == back;
    SweptIsBlocked(back, today, a, u);
  }
}
