/** LMS modules of a training action: released to enrolments, blocked when their deadline has passed. */
module LmsDeadlines {
  import opened Wrappers
  import opened Dates

  type Id = string

  datatype Unit = Unit(course: Id, lock: bool)
  datatype Enrolment = Enrolment(action: Id, active: bool)

  /** Actions are given by their course; an unlock belongs to an enrolment and a unit. */
  datatype Db = Db(actions: map<Id, Id>, units: map<Id, Unit>, enrolments: map<Id, Enrolment>,
                   deadlines: map<(Id, Id), Date>, unlocks: set<(Id, Id)>)

  datatype Refusal = Forbidden | NotFound | BadRequest | DeadlineReached | NotLocked

  predicate Expired(db: Db, a: Id, u: Id, today: Date) {
    (a, u) in db.deadlines && Reached(db.deadlines[(a, u)], today)
  }

  function ActiveOf(db: Db, a: Id): set<Id> {
    set m | m in db.enrolments && db.enrolments[m].action == a && db.enrolments[m].active
  }

  /** Every pair of the set is withdrawn: its unit locked, its action's active enrolments without an unlock. */
  function Withdrawn(db: Db, pairs: set<(Id, Id)>): Db {
    db.(units := map u | u in db.units :: if exists p :: p in pairs && p.1 == u then db.units[u].(lock := true) else db.units[u],
        unlocks := set k | k in db.unlocks && !Covers(db, pairs, k))
  }

  predicate Covers(db: Db, pairs: set<(Id, Id)>, unlock: (Id, Id)) {
    && unlock.0 in db.enrolments && db.enrolments[unlock.0].active && unlock.1 in db.units
    && (db.enrolments[unlock.0].action, unlock.1) in pairs
  }

  function ExpiredPairs(db: Db, today: Date): set<(Id, Id)> {
    set p | p in db.deadlines && Reached(db.deadlines[p], today)
  }

  function Swept(db: Db, today: Date): Db { Withdrawn(db, ExpiredPairs(db, today)) }

  function Released(db: Db, a: Id, u: Id): Db
    requires u in db.units
  {
    db.(units := db.units[u := db.units[u].(lock := true)], unlocks := db.unlocks + set m | m in ActiveOf(db, a) :: (m, u))
  }

  predicate OfCourse(db: Db, a: Id, u: Id) {
    a in db.actions && u in db.units && db.units[u].course == db.actions[a]
  }

  /** Releasing one enrolment does not look at the deadline, only at the lock of the unit. */
  predicate MayUnlockOne(db: Db, m: Id, u: Id) {
    m in db.enrolments && OfCourse(db, db.enrolments[m].action, u) && db.units[u].lock
  }

  // ---- The sweep, pair by pair ----

  lemma WithdrawnNone(db: Db)
    ensures Withdrawn(db, {}) == db
  {
    assert Withdrawn(db, {}).units == db.units;
    assert Withdrawn(db, {}).unlocks == db.unlocks;
  }

  /** Withdrawing pairs in any order comes to withdrawing them together. */
  lemma WithdrawnTwice(db: Db, p: set<(Id, Id)>, q: set<(Id, Id)>)
    ensures Withdrawn(Withdrawn(db, p), q) == Withdrawn(db, p + q)
  {
    assert Withdrawn(Withdrawn(db, p), q).units == Withdrawn(db, p + q).units;
    assert Withdrawn(Withdrawn(db, p), q).unlocks == Withdrawn(db, p + q).unlocks;
  }

  /** A second sweep finds nothing to do. */
  lemma SweptTwice(db: Db, today: Date)
    ensures Swept(Swept(db, today), today) == Swept(db, today)
  {
    hide Reached;
    var pairs := ExpiredPairs(db, today);
    WithdrawnTwice(db, pairs, pairs);
    assert pairs + pairs == pairs && ExpiredPairs(Swept(db, today), today) == pairs;
  }

  /** After a sweep an expired module is locked and no active enrolment of the action holds it. */
  lemma SweptIsBlocked(db: Db, today: Date, a: Id, u: Id)
    requires Expired(db, a, u, today) && u in db.units
    ensures var s := Swept(db, today);
            s.units[u].lock && forall m :: m in ActiveOf(db, a) ==> (m, u) !in s.unlocks
  {
    hide Reached;
    var pairs := ExpiredPairs(db, today);
    assert (a, u) in pairs;
    assert (a, u).1 == u;
  }

  /** It takes away no other unlock, adds none, and changes nothing else. */
  lemma SweepTouchesOnly(db: Db, today: Date, k: (Id, Id))
    ensures var s := Swept(db, today);
            && s.deadlines == db.deadlines && s.enrolments == db.enrolments && s.actions == db.actions
            && s.units.Keys == db.units.Keys
            && (forall u :: u in db.units ==> s.units[u].course == db.units[u].course)
            && (k in s.unlocks ==> k in db.unlocks)
            && (k in db.unlocks && k !in s.unlocks ==>
                  k.0 in db.enrolments && k.0 in ActiveOf(db, db.enrolments[k.0].action)
                  && Expired(db, db.enrolments[k.0].action, k.1, today))
  {
    hide Reached;
  }

  /** Locks change only for units with an expired deadline. */
  lemma SweepLocksOnly(db: Db, today: Date, u: Id)
    requires u in db.units
    ensures Swept(db, today).units[u].lock <==> db.units[u].lock || exists a :: Expired(db, a, u, today)
  {
    hide Reached;
    var pairs := ExpiredPairs(db, today);
    if a :| Expired(db, a, u, today) {
      assert (a, u) in pairs && (a, u).1 == u;
    }
    if p :| p in pairs && p.1 == u {
      assert p == (p.0, u) && Expired(db, p.0, u, today);
    }
  }

  /** Dates as they are stored. */
  predicate DatesWritten(db: Db) { forall p :: p in db.deadlines ==> Written(db.deadlines[p]) }

  /** Some deadline set for the unit lies before the day. */
  ghost predicate Overdue(db: Db, u: Id, today: Date) {
    exists a :: (a, u) in db.deadlines && Later(today, db.deadlines[(a, u)])
  }

  /** The action's deadline for the unit lies before the day. */
  predicate OverdueFor(db: Db, a: Id, u: Id, today: Date) { (a, u) in db.deadlines && Later(today, db.deadlines[(a, u)]) }

  /**
   The sweep, by dates: a unit ends locked exactly if it was or a deadline for it lies before today, and
   an unlock stays exactly if its enrolment is inactive or the deadline for it does not lie before today.
   */
  lemma SweptByDates(db: Db, today: Date, u: Id, k: (Id, Id))
    requires DatesWritten(db) && Written(today)
    ensures var s := Swept(db, today);
            && s.units.Keys == db.units.Keys
            && (u in db.units ==> s.units[u] == db.units[u].(lock := db.units[u].lock || Overdue(db, u, today)))
            && (k in s.unlocks <==>
                  && k in db.unlocks
                  && !(k.0 in db.enrolments && db.enrolments[k.0].active && k.1 in db.units
                       && OverdueFor(db, db.enrolments[k.0].action, k.1, today)))
  {
    forall p | p in db.deadlines
      ensures Reached(db.deadlines[p], today) <==> Later(today, db.deadlines[p])
    {
      ReachedIff(db.deadlines[p], today);
    }
    if u in db.units {
      SweepLocksOnly(db, today, u);
      assert forall a :: Expired(db, a, u, today) <==> OverdueFor(db, a, u, today);
    }
    hide Reached, Later, Written;
  }

  /** On the day of its deadline a module is not yet blocked. */
  lemma NotSweptOnItsDay(db: Db, a: Id, u: Id, m: Id, today: Date)
    requires DatesWritten(db) && Written(today) && (a, u) in db.deadlines && db.deadlines[(a, u)] == today
    requires m in db.enrolments && db.enrolments[m].action == a
    ensures (m, u) in Swept(db, today).unlocks <==> (m, u) in db.unlocks
  {
    SweptByDates(db, today, u, (m, u));
    hide Swept;
  }

  /** The collective release is let through exactly by permission, course and a deadline not before today; blocking by the manager and course. */
  lemma TasksAllowedIff(db: Db, a: Id, u: Id, unlock: bool, today: Date, manager: bool, mayRelease: bool)
    requires DatesWritten(db) && Written(today)
    ensures TasksRefusal(db, a, u, unlock, today, manager, mayRelease).None? <==>
            && a in db.actions && u in db.units && db.units[u].course == db.actions[a]
            && if unlock then mayRelease && !OverdueFor(db, a, u, today) else manager
  {
    if (a, u) in db.deadlines {
      ReachedIff(db.deadlines[(a, u)], today);
    }
    hide Reached, Later;
  }

  /** A collective release gives the module to the active enrolments of the action, locks its unit, and nothing else. */
  lemma ReleaseGives(db: Db, a: Id, u: Id, k: (Id, Id))
    requires u in db.units
    ensures var r := Released(db, a, u);
            && r == db.(units := r.units, unlocks := r.unlocks)
            && r.units == db.units[u := Unit(db.units[u].course, true)]
            && (k in r.unlocks <==>
                  k in db.unlocks || (k.1 == u && k.0 in db.enrolments && db.enrolments[k.0] == Enrolment(a, true)))
  {
  }

  /** A collective block takes the module from the active enrolments of the action, locks its unit, and nothing else. */
  lemma BlockTakes(db: Db, a: Id, u: Id, k: (Id, Id))
    requires u in db.units
    ensures var w := Withdrawn(db, {(a, u)});
            && w == db.(units := w.units, unlocks := w.unlocks)
            && w.units == db.units[u := Unit(db.units[u].course, true)]
            && (k in w.unlocks <==>
                  k in db.unlocks && !(k.1 == u && k.0 in db.enrolments && db.enrolments[k.0] == Enrolment(a, true)))
  {
    WithdrawnOne(db, a, u);
    hide Withdrawn;
  }

  /** A release by name needs the enrolment, a unit of its course, and the lock. */
  lemma ReleaseByNameIff(db: Db, m: Id, u: Id)
    ensures MayUnlockOne(db, m, u) <==>
            && m in db.enrolments && db.enrolments[m].action in db.actions && u in db.units
            && db.units[u].course == db.actions[db.enrolments[m].action] && db.units[u].lock
  {
  }

  // ---- What is shown and what is let in ----

  function ReleasedCount(db: Db, a: Id, u: Id): nat {
    |set m | m in ActiveOf(db, a) && (m, u) in db.unlocks|
  }

  /** The switch shown for a module: released to every enrolment, and the deadline not passed. */
  predicate ShownUnlocked(db: Db, a: Id, u: Id, today: Date) {
    !Expired(db, a, u, today) && |ActiveOf(db, a)| > 0 && ReleasedCount(db, a, u) == |ActiveOf(db, a)|
  }

  predicate ShownMeansAll(db: Db, a: Id, u: Id) {
    forall m :: m in ActiveOf(db, a) ==> (m, u) in db.unlocks
  }

  lemma SubsetSize(a: set<Id>, b: set<Id>)
    requires a <= b
    ensures |a| <= |b| && (|a| == |b| <==> a == b)
  {
    assert b == a + (b - a);
    assert |b - a| == 0 ==> b - a == {};
  }

  /** Counting the released enrolments decides whether every one of them holds the module. */
  lemma SwitchIff(db: Db, a: Id, u: Id, today: Date)
    ensures ShownUnlocked(db, a, u, today) <==>
            !Expired(db, a, u, today) && ActiveOf(db, a) != {} && ShownMeansAll(db, a, u)
  {
    hide Expired, ActiveOf;
    var all, held := ActiveOf(db, a), set m | m in ActiveOf(db, a) && (m, u) in db.unlocks;
    SubsetSize(held, all);
    assert held == all <==> ShownMeansAll(db, a, u);
    assert |all| == 0 <==> all == {};
  }

  /** After a collective release the switch shows it, as long as there is someone to release it to. */
  lemma ReleaseShows(db: Db, a: Id, u: Id, today: Date)
    requires u in db.units && !Expired(db, a, u, today)
    ensures ShownUnlocked(Released(db, a, u), a, u, today) <==> ActiveOf(db, a) != {}
  {
    hide Reached;
    SwitchIff(Released(db, a, u), a, u, today);
    hide ShownUnlocked;
    assert ActiveOf(Released(db, a, u), a) == ActiveOf(db, a);
  }

  /** The gate of the learner's path and of quizzes: the deadline not passed, the module released, the earlier modules done. */
  predicate TaskOpen(db: Db, m: Id, u: Id, today: Date, earlierDone: bool)
    requires m in db.enrolments
  {
    !Expired(db, db.enrolments[m].action, u, today) && (m, u) in db.unlocks && earlierDone
  }

  // ---- The service ----

  class LmsService {
    var actions: map<Id, Id>
    var units: map<Id, Unit>
    var enrolments: map<Id, Enrolment>
    var deadlines: map<(Id, Id), Date>
    var unlocks: set<(Id, Id)>

    function Tables(): Db
      reads this
    {
      Db(actions, units, enrolments, deadlines, unlocks)
    }

    constructor (db: Db)
      ensures Tables() == db
    {
      actions, units, enrolments, deadlines, unlocks := db.actions, db.units, db.enrolments, db.deadlines, db.unlocks;
    }

    /** Sets the lock and deletes the unlocks; tells whether it had to change anything. */
    method BlockModule(a: Id, u: Id) returns (changed: bool)
      modifies this
      ensures Tables() == Withdrawn(old(Tables()), {(a, u)})
      ensures changed <==> Tables() != old(Tables())
    {
      ghost var before := Tables();
      var enrolled := ActiveOf(Tables(), a);
      changed := false;
      if u !in units {
        WithdrawnUnknown(before, a, u);
        return;
      }
      if !units[u].lock {
        units := units[u := units[u].(lock := true)];
        changed := true;
      }
      var gone := set k | k in unlocks && k.1 == u && k.0 in enrolled;
      unlocks := unlocks - gone;
      if |gone| > 0 {
        changed := true;
        ghost var k :| k in gone;
        assert k in before.unlocks && k !in unlocks;
      } else {
        assert gone == {};
      }
      WithdrawnOne(before, a, u);
    }

    /** Goes through the rows in the order the table gives them and blocks every module whose deadline has passed. */
    method ProcessDeadlines(rows: seq<(Id, Id)>, today: Date) returns (blocked: nat, acts: nat)
      requires ListsDeadlines(Tables(), rows)
      modifies this
      ensures Tables() == Swept(old(Tables()), today)
      ensures blocked == |Touched(old(Tables()), rows, today, |rows|)|
      ensures acts == |ActionsOf(Touched(old(Tables()), rows, today, |rows|))|
      ensures blocked == 0 <==> Tables() == old(Tables())
    {
      hide Withdrawn, Reached, Touches, Touched, ListsDeadlines, Passed, ExpiredPairs, ActiveOf, ActionsOf;
      ghost var before := Tables();
      var touched: set<Id> := {};
      blocked := 0;
      WithdrawnNone(before);
      NothingTouched(before, rows, today);
      for i := 0 to |rows|
        invariant Tables() == Withdrawn(before, Passed(before, rows, today, i))
        invariant blocked == |Touched(before, rows, today, i)|
        invariant touched == ActionsOf(Touched(before, rows, today, i))
        invariant blocked == 0 <==> Tables() == before
      {
        var p := rows[i];
        ListedIsRow(before, rows, i);
        PassedStep(before, rows, today, i);
        WithdrawnKeepsDeadlines(before, Passed(before, rows, today, i));
        if Reached(deadlines[p], today) {
          var done := Passed(before, rows, today, i);
          WithdrawnTwice(before, done, {(p.0, p.1)});
          TouchStep(before, rows, today, i);
          var changed := BlockModule(p.0, p.1);
          assert p == (p.0, p.1);
          if changed {
            NeverBack(before, done, p);
            blocked := blocked + 1;
            touched := touched + {p.0};
          }
        }
      }
      acts := |touched|;
      AllPassed(before, rows, today);
    }

    /** Releasing is refused once the deadline has passed; blocking is the manager's. */
    method SetModuleTasks(a: Id, u: Id, unlock: bool, today: Date, manager: bool, mayRelease: bool)
      returns (refusal: Option<Refusal>)
      modifies this
      ensures refusal == TasksRefusal(old(Tables()), a, u, unlock, today, manager, mayRelease)
      ensures refusal.Some? ==> Tables() == old(Tables())
      ensures refusal.None? && unlock ==> u in old(units) && Tables() == Released(old(Tables()), a, u)
      ensures refusal.None? && !unlock ==> Tables() == Withdrawn(old(Tables()), {(a, u)})
    {
      hide Reached;
      if unlock && !mayRelease {
        return Some(Forbidden);
      }
      if !unlock && !manager {
        return Some(Forbidden);
      }
      if a !in actions {
        return Some(NotFound);
      }
      if u !in units || units[u].course != actions[a] {
        return Some(NotFound);
      }
      if unlock && Expired(Tables(), a, u, today) {
        return Some(DeadlineReached);
      }
      refusal := None;
      ghost var before := Tables();
      if unlock {
        var todo := ActiveOf(Tables(), a);
        ghost var done: set<Id> := {};
        if !units[u].lock {
          units := units[u := units[u].(lock := true)];
        }
        assert units == before.units[u := before.units[u].(lock := true)];
        while todo != {}
          invariant todo + done == ActiveOf(before, a)
          invariant unlocks == before.unlocks + set m | m in done :: (m, u)
          invariant Tables() == before.(units := units, unlocks := unlocks)
          invariant units == before.units[u := before.units[u].(lock := true)]
        {
          var m :| m in todo;
          todo := todo - {m};
          unlocks := unlocks + {(m, u)};
          done := done + {m};
        }
        assert done == ActiveOf(before, a);
      } else {
        var _ := BlockModule(a, u);
      }
    }

    /** Sets or removes a deadline; the calendar reads YYYY-MM-DD, and the block of a deadline already past may fail. */
    method SetModuleDeadline(a: Id, u: Id, raw: Option<string>, today: Date, manager: bool,
                             calendar: string -> Option<Date>, backgroundRuns: bool)
      returns (refusal: Option<Refusal>, block: bool)
      modifies this
      ensures block <==> refusal.None? && backgroundRuns && ReadRequest(raw).To? && Greater(Ymd(today), ReadRequest(raw).ymd)
      ensures refusal.Some? ==> Tables() == old(Tables())
      ensures refusal.None? <==> manager && OfCourse(old(Tables()), a, u) && DeadlineGiven(raw, calendar).Some?
      ensures refusal.None? ==> Tables() == DeadlineSet(old(Tables()), a, u, DeadlineGiven(raw, calendar).value, block)
    {
      hide Withdrawn;
      block := false;
      if !manager {
        return Some(Forbidden), block;
      }
      if a !in actions || u !in units || units[u].course != actions[a] {
        return Some(NotFound), block;
      }
      refusal := None;
      match ReadRequest(raw) {
        case Removed => deadlines := deadlines - {(a, u)};
        case BadDate => refusal := Some(BadRequest);
        case To(ymd) =>
          var date := calendar(ymd);
          if date.None? {
            return Some(BadRequest), block;
          }
          deadlines := deadlines[(a, u) := date.value];
          if Greater(Ymd(today), ymd) && backgroundRuns {
            block := true;
            var _ := BlockModule(a, u);
          }
      }
    }

    method UnlockOne(m: Id, u: Id, mayRelease: bool) returns (refusal: Option<Refusal>)
      modifies this
      ensures refusal.None? <==> mayRelease && MayUnlockOne(old(Tables()), m, u)
      ensures Tables() == if refusal.None? then old(Tables()).(unlocks := old(unlocks) + {(m, u)}) else old(Tables())
    {
      if m !in enrolments {
        return Some(NotFound);
      }
      if !mayRelease {
        return Some(Forbidden);
      }
      var a := enrolments[m].action;
      if a !in actions || u !in units || units[u].course != actions[a] {
        return Some(NotFound);
      }
      if !units[u].lock {
        return Some(NotLocked);
      }
      unlocks := unlocks + {(m, u)};
      refusal := None;
    }

    method LockOne(m: Id, u: Id, manager: bool) returns (refusal: Option<Refusal>)
      modifies this
      ensures refusal.None? <==> manager && m in old(enrolments)
      ensures Tables() == if refusal.None? then old(Tables()).(unlocks := old(unlocks) - {(m, u)}) else old(Tables())
    {
      if !manager {
        return Some(Forbidden);
      }
      if m !in enrolments {
        return Some(NotFound);
      }
      unlocks := unlocks - {(m, u)};
      refusal := None;
    }
  }

  function TasksRefusal(db: Db, a: Id, u: Id, unlock: bool, today: Date, manager: bool, mayRelease: bool): Option<Refusal> {
    if (if unlock then !mayRelease else !manager) then Some(Forbidden)
    else if !OfCourse(db, a, u) then Some(NotFound)
    else if unlock && Expired(db, a, u, today) then Some(DeadlineReached)
    else None
  }

  function DeadlineGiven(raw: Option<string>, calendar: string -> Option<Date>): Option<Option<Date>> {
    match ReadRequest(raw)
    case Removed => Some(None)
    case BadDate => None
    case To(ymd) => if calendar(ymd).Some? then Some(calendar(ymd)) else None
  }

  function DeadlineSet(db: Db, a: Id, u: Id, to: Option<Date>, block: bool): Db {
    var edited := db.(deadlines := if to.Some? then db.deadlines[(a, u) := to.value] else db.deadlines - {(a, u)});
    if block then Withdrawn(edited, {(a, u)}) else edited
  }

  // ---- The rows of the deadline table, in some order ----

  predicate ListsDeadlines(db: Db, rows: seq<(Id, Id)>) {
    && (forall p :: p in rows ==> p in db.deadlines) && (forall p :: p in db.deadlines ==> p in rows)
    && (forall i, j :: 0 <= i < j < |rows| ==> rows[i] != rows[j])
  }

  /** The passed deadlines among the first n rows. */
  function Passed(db: Db, rows: seq<(Id, Id)>, today: Date, n: nat): set<(Id, Id)> {
    set i | 0 <= i < n && i < |rows| && Expired(db, rows[i].0, rows[i].1, today) :: (rows[i].0, rows[i].1)
  }

  /** Some active enrolment of the action holds the module. */
  predicate HeldBySome(db: Db, a: Id, u: Id) { exists m :: m in ActiveOf(db, a) && (m, u) in db.unlocks }

  /** The row is counted: its module is held, or it is the first passed row of a unit that is not locked yet. */
  predicate Touches(db: Db, rows: seq<(Id, Id)>, today: Date, i: nat)
    requires i < |rows|
  {
    var (a, u) := (rows[i].0, rows[i].1);
    && Expired(db, a, u, today) && u in db.units
    && (HeldBySome(db, a, u)
        || (!db.units[u].lock && forall j :: 0 <= j < i && rows[j].1 == u ==> !Expired(db, rows[j].0, u, today)))
  }

  function Touched(db: Db, rows: seq<(Id, Id)>, today: Date, n: nat): set<(Id, Id)>
    requires n <= |rows|
  {
    set i | 0 <= i < n && Touches(db, rows, today, i) :: rows[i]
  }

  function ActionsOf(pairs: set<(Id, Id)>): set<Id> { set p | p in pairs :: p.0 }

  lemma WithdrawnKeepsDeadlines(db: Db, pairs: set<(Id, Id)>)
    ensures Withdrawn(db, pairs).deadlines == db.deadlines
  {
  }

  lemma NothingTouched(db: Db, rows: seq<(Id, Id)>, today: Date)
    ensures Touched(db, rows, today, 0) == {} && Passed(db, rows, today, 0) == {} && ActionsOf({}) == {}
  {
  }

  lemma ListedIsRow(db: Db, rows: seq<(Id, Id)>, i: nat)
    requires ListsDeadlines(db, rows) && i < |rows|
    ensures rows[i] in db.deadlines
  {
  }

  lemma AllPassed(db: Db, rows: seq<(Id, Id)>, today: Date)
    requires ListsDeadlines(db, rows)
    ensures Passed(db, rows, today, |rows|) == ExpiredPairs(db, today)
  {
    hide Reached;
    forall p | p in ExpiredPairs(db, today)
      ensures p in Passed(db, rows, today, |rows|)
    {
      assert p in rows;
      var i :| 0 <= i < |rows| && rows[i] == p;
      assert p == (rows[i].0, rows[i].1);
    }
  }

  lemma PassedStep(db: Db, rows: seq<(Id, Id)>, today: Date, i: nat)
    requires ListsDeadlines(db, rows) && i < |rows|
    ensures var (p, expired) := (rows[i], Reached(db.deadlines[rows[i]], today));
            && Passed(db, rows, today, i + 1) == Passed(db, rows, today, i) + (if expired then {p} else {})
            && p !in Passed(db, rows, today, i)
            && (!expired ==> Touched(db, rows, today, i + 1) == Touched(db, rows, today, i))
  {
    hide Reached, HeldBySome;
    assert rows[i] in rows && rows[i] == (rows[i].0, rows[i].1);
  }

  /** A row is counted exactly when blocking it, after the rows before it, changes something. */
  lemma TouchStep(db: Db, rows: seq<(Id, Id)>, today: Date, i: nat)
    requires ListsDeadlines(db, rows) && i < |rows| && Reached(db.deadlines[rows[i]], today)
    ensures var (w, p) := (Withdrawn(db, Passed(db, rows, today, i)), rows[i]);
            && (Withdrawn(w, {p}) != w <==> Touches(db, rows, today, i))
            && Touched(db, rows, today, i + 1) == Touched(db, rows, today, i) + (if Withdrawn(w, {p}) != w then {p} else {})
            && p !in Touched(db, rows, today, i)
            && ActionsOf(Touched(db, rows, today, i + 1)) ==
               ActionsOf(Touched(db, rows, today, i)) + (if Withdrawn(w, {p}) != w then {p.0} else {})
  {
    ChangeIff(db, rows, today, i);
    hide Withdrawn, Touches, Reached, Passed;
  }

  lemma ChangeIff(db: Db, rows: seq<(Id, Id)>, today: Date, i: nat)
    requires ListsDeadlines(db, rows) && i < |rows| && Reached(db.deadlines[rows[i]], today)
    ensures var w := Withdrawn(db, Passed(db, rows, today, i));
            Withdrawn(w, {rows[i]}) != w <==> Touches(db, rows, today, i)
  {
    var (a, u) := (rows[i].0, rows[i].1);
    var done := Passed(db, rows, today, i);
    var w := Withdrawn(db, done);
    PassedStep(db, rows, today, i);
    ListedIsRow(db, rows, i);
    assert rows[i] == (a, u);
    hide Reached, ListsDeadlines;
    if u in db.units {
      WithdrawnOne(w, a, u);
      LockSoFar(db, rows, today, i, u);
      HeldSoFar(db, done, a, u);
      hide Withdrawn, Passed;
      BlockChangesIff(w, Withdrawn(w, {(a, u)}), a, u);
    } else {
      WithdrawnUnknown(w, a, u);
    }
  }

  lemma BlockChangesIff(w: Db, b: Db, a: Id, u: Id)
    requires u in w.units && b == w.(units := b.units, unlocks := b.unlocks)
    requires b.units == w.units[u := w.units[u].(lock := true)]
    requires b.unlocks == set k | k in w.unlocks && !(k.1 == u && k.0 in ActiveOf(w, a))
    ensures b != w <==> HeldBySome(w, a, u) || !w.units[u].lock
  {
    hide ActiveOf;
    if m :| m in ActiveOf(w, a) && (m, u) in w.unlocks {
      assert (m, u) !in b.unlocks;
    }
    if w.units[u].lock && !HeldBySome(w, a, u) {
      assert b.units == w.units;
      assert forall k :: k in w.unlocks && k.1 == u ==> k == (k.0, u);
      assert b.unlocks == w.unlocks;
    }
  }

  lemma LockSoFar(db: Db, rows: seq<(Id, Id)>, today: Date, i: nat, u: Id)
    requires u in db.units && i < |rows|
    ensures var w := Withdrawn(db, Passed(db, rows, today, i));
            u in w.units && (w.units[u].lock <==>
              db.units[u].lock || exists j :: 0 <= j < i && rows[j].1 == u && Expired(db, rows[j].0, u, today))
  {
    hide Expired;
    var done := Passed(db, rows, today, i);
    if j :| 0 <= j < i && rows[j].1 == u && Expired(db, rows[j].0, u, today) {
      assert (rows[j].0, rows[j].1) in done;
    }
    hide Covers;
  }

  lemma HeldSoFar(db: Db, done: set<(Id, Id)>, a: Id, u: Id)
    requires (a, u) !in done
    ensures HeldBySome(Withdrawn(db, done), a, u) <==> HeldBySome(db, a, u)
    ensures ActiveOf(Withdrawn(db, done), a) == ActiveOf(db, a)
  {
  }

  /** Setting a deadline changes that deadline only, apart from the block that may come with it. */
  lemma DeadlineSetRow(db: Db, a: Id, u: Id, to: Option<Date>, block: bool, p: (Id, Id))
    ensures var d := DeadlineSet(db, a, u, to, block);
            && (p in d.deadlines <==> if p == (a, u) then to.Some? else p in db.deadlines)
            && (p in d.deadlines ==> d.deadlines[p] == if p == (a, u) then to.value else db.deadlines[p])
            && (!block ==> d == db.(deadlines := d.deadlines))
            && (block ==> d == Withdrawn(db.(deadlines := d.deadlines), {(a, u)}))
  {
    hide Covers;
  }

  lemma WithdrawnUnknown(db: Db, a: Id, u: Id)
    requires u !in db.units
    ensures Withdrawn(db, {(a, u)}) == db
  {
    assert Withdrawn(db, {(a, u)}).units == db.units;
    assert Withdrawn(db, {(a, u)}).unlocks == db.unlocks;
  }

  lemma WithdrawnOne(db: Db, a: Id, u: Id)
    requires u in db.units
    ensures var w := Withdrawn(db, {(a, u)});
            && w == db.(units := w.units, unlocks := w.unlocks)
            && w.units == db.units[u := db.units[u].(lock := true)]
            && w.unlocks == set k | k in db.unlocks && !(k.1 == u && k.0 in ActiveOf(db, a))
  {
    assert (a, u) in {(a, u)} && (a, u).1 == u;
    assert Withdrawn(db, {(a, u)}).units == db.units[u := db.units[u].(lock := true)];
  }

  /** What one pair changed, later pairs do not restore. */
  lemma NeverBack(db: Db, done: set<(Id, Id)>, p: (Id, Id))
    requires Withdrawn(Withdrawn(db, done), {p}) != Withdrawn(db, done)
    ensures Withdrawn(db, done + {p}) != db
  {
    WithdrawnTwice(db, done, {p});
    WithdrawnTwice(db, done + {p}, done);
    assert done + {p} + done == done + {p};
    hide Withdrawn;
  }
}
