/** The collector's loops, each pushing the blockers it finds onto the list it is given. */
module ActionCollector {
  import opened Wrappers
  import opened Text
  import opened ActionConclusion
  import opened ActionReadiness

  // ---- The numbers that labels quote ----

  /** The places of the sessions still to be held. */
  function PendingAt(ss: seq<Session>): set<int> { set i | 0 <= i < |ss| && ss[i].state != Held }

  /** The places of the empty cells of the grade sheet. */
  function EmptyCells(f: Facts): set<(int, int)> {
    set i, j | 0 <= i < |f.enrolments| && 0 <= j < |f.modules|
               && (forall g :: g in f.grades ==> !(g.enrolment == f.enrolments[i].id && g.kind == "pauta:" + f.modules[j])) :: (i, j)
  }

  /** The number the label of a gap quotes: sessions to be held, tasks done, cells empty; the others quote none. */
  function Quoted(f: Facts, id: BlockerId): nat {
    match id
    case SessionsPending => |PendingAt(Sessions(f))|
    case TasksMissing(m) => |DoneRows(f, m, f.tasks)|
    case GradesMissing => |EmptyCells(f)|
    case _ => 0
  }

  predicate Plain(id: BlockerId) { id != SessionsPending && !id.TasksMissing? && id != GradesMissing }

  /** What was pushed quotes no number and is of a kind that quotes none. */
  predicate PlainPushed(found: seq<Blocker>, blockers: seq<Blocker>) {
    forall b :: b in blockers ==> b in found || (b.shown == 0 && Plain(b.id))
  }

  predicate AllQuoted(f: Facts, bs: seq<Blocker>) { forall b :: b in bs ==> b.shown == Quoted(f, b.id) }

  lemma PlainQuoted(f: Facts, found: seq<Blocker>, blockers: seq<Blocker>)
    requires AllQuoted(f, found) && PlainPushed(found, blockers)
    ensures AllQuoted(f, blockers)
  {
  }

  /** One more blocker that quotes nothing. */
  lemma AddPlain(found: seq<Blocker>, bs: seq<Blocker>, b: Blocker)
    requires b.shown == 0 && Plain(b.id)
    ensures Ids(bs + [b]) == Ids(bs) + {b.id}
    ensures PlainPushed(found, bs) ==> PlainPushed(found, bs + [b])
  {
    IdsOne(bs, b);
    hide Ids;
  }

  /** One more blocker that quotes its number. */
  lemma AddQuoted(f: Facts, bs: seq<Blocker>, b: Blocker)
    requires b.shown == Quoted(f, b.id)
    ensures Ids(bs + [b]) == Ids(bs) + {b.id}
    ensures AllQuoted(f, bs) ==> AllQuoted(f, bs + [b])
  {
    IdsOne(bs, b);
    hide Ids, Quoted;
  }

  lemma NonePushed(found: seq<Blocker>)
    ensures PlainPushed(found, found)
  {
  }

  lemma PlainThenPlain(found: seq<Blocker>, bs: seq<Blocker>, more: seq<Blocker>)
    requires PlainPushed(found, bs) && PlainPushed(bs, more)
    ensures PlainPushed(found, more)
  {
  }

  lemma NoEnrolmentGaps(categories: seq<string>)
    ensures EnrolmentGaps([], categories) == {}
  {
  }

  lemma NoGapsYet(f: Facts)
    ensures TaskGaps(f, []) == {} && GapsOfTrainers(f, []) == {}
    ensures f.tasks == [] ==> TaskGaps(f, f.enrolments) == {}
  {
  }

  lemma NonePending(ss: seq<Session>)
    requires ss == []
    ensures PendingAt(ss) == {}
  {
  }

  lemma PendingSnoc(ss: seq<Session>, s: Session)
    ensures |PendingAt(ss + [s])| == |PendingAt(ss)| + if s.state != Held then 1 else 0
  {
    assert PendingAt(ss + [s]) == PendingAt(ss) + if s.state != Held then {|ss|} else {};
  }

  method PushScheduleBlockers(f: Facts, found: seq<Blocker>) returns (blockers: seq<Blocker>)
    ensures Ids(blockers) == Ids(found) + ScheduleGaps(f)
    ensures AllQuoted(f, found) ==> AllQuoted(f, blockers)
  {
    hide Ids, AllQuoted, PendingAt, Sessions;
    blockers := found;
    if f.schedules == [] {
      AddQuoted(f, blockers, Blocker(NoSchedule, 0));
      blockers := blockers + [Blocker(NoSchedule, 0)];
    } else {
      if !Latest(f.schedules).value.approved {
        AddQuoted(f, blockers, Blocker(ScheduleUnapproved, 0));
        blockers := blockers + [Blocker(ScheduleUnapproved, 0)];
      }
    }
    var sessions := Sessions(f);
    if |sessions| == 0 {
      AddQuoted(f, blockers, Blocker(NoSessions, 0));
      blockers := blockers + [Blocker(NoSessions, 0)];
    }
    var pending := 0;
    NonePending(sessions[..0]);
    for i := 0 to |sessions|
      invariant pending > 0 <==> exists s :: s in sessions[..i] && s.state != Held
      invariant pending == |PendingAt(sessions[..i])|
    {
      PendingSnoc(sessions[..i], sessions[i]);
      assert sessions[..i + 1] == sessions[..i] + [sessions[i]];
      if sessions[i].state != Held {
        pending := pending + 1;
      }
    }
    assert sessions[..|sessions|] == sessions;
    if pending > 0 {
      AddQuoted(f, blockers, Blocker(SessionsPending, pending));
      blockers := blockers + [Blocker(SessionsPending, pending)];
    }
  }

  method PushSheetBlockers(s: Session, groups: seq<Group>, found: seq<Blocker>) returns (blockers: seq<Blocker>)
    ensures Ids(blockers) == Ids(found) + SheetGaps(s, groups)
    ensures PlainPushed(found, blockers)
  {
    hide Ids, PlainPushed;
    NonePushed(found);
    blockers := found;
    for i := 0 to |groups|
      invariant Ids(blockers) == Ids(found) + SheetGaps(s, groups[..i])
      invariant PlainPushed(found, blockers)
    {
      var g := groups[i];
      SheetGapsSnoc(s, groups[..i], g);
      assert groups[..i + 1] == groups[..i] + [g];
      if g.activeEnrolments > 0 && !SheetDone(s, g.id) {
        AddPlain(found, blockers, Blocker(SheetOpen(s.id, g.id), 0));
        blockers := blockers + [Blocker(SheetOpen(s.id, g.id), 0)];
      }
    }
    assert groups[..|groups|] == groups;
  }

  lemma SheetGapsSnoc(s: Session, groups: seq<Group>, g: Group)
    ensures SheetGaps(s, groups + [g]) ==
            SheetGaps(s, groups) + if g.activeEnrolments > 0 && !SheetDone(s, g.id) then {SheetOpen(s.id, g.id)} else {}
  {
    assert forall x :: x in groups + [g] <==> x in groups || x == g;
  }

  lemma SessionGapsSnoc(ss: seq<Session>, s: Session, groups: seq<Group>)
    ensures SessionGaps(ss + [s], groups) == SessionGaps(ss, groups) + if s.state == Held then HeldGaps(s, groups) else {}
  {
    assert forall x :: x in ss + [s] <==> x in ss || x == s;
    assert forall b :: b in HeldGaps(s, groups) && s.state == Held ==> b in SessionGaps(ss + [s], groups);
    assert forall b :: b in SessionGaps(ss, groups) ==> b in SessionGaps(ss + [s], groups);
  }

  method PushSessionBlockers(ss: seq<Session>, groups: seq<Group>, found: seq<Blocker>) returns (blockers: seq<Blocker>)
    ensures Ids(blockers) == Ids(found) + SessionGaps(ss, groups)
    ensures PlainPushed(found, blockers)
  {
    hide Ids, PlainPushed, SheetGaps;
    NonePushed(found);
    blockers := found;
    for i := 0 to |ss|
      invariant Ids(blockers) == Ids(found) + SessionGaps(ss[..i], groups)
      invariant PlainPushed(found, blockers)
    {
      var s := ss[i];
      SessionGapsSnoc(ss[..i], s, groups);
      assert ss[..i + 1] == ss[..i] + [s];
      if s.state == Held {
        if |s.summaries| == 0 || (!s.summaries[0].immutable && s.summaries[0].length < 10) {
          AddPlain(found, blockers, Blocker(SummaryMissing(s.id), 0));
          blockers := blockers + [Blocker(SummaryMissing(s.id), 0)];
        } else if !s.summaries[0].immutable || !s.summaries[0].signed {
          AddPlain(found, blockers, Blocker(SummaryUnsigned(s.id), 0));
          blockers := blockers + [Blocker(SummaryUnsigned(s.id), 0)];
        }
        assert Ids(blockers) == Ids(found) + SessionGaps(ss[..i], groups) + SummaryGap(s);
        ghost var before := blockers;
        blockers := PushSheetBlockers(s, groups, blockers);
        PlainThenPlain(found, before, blockers);
      }
    }
    assert ss[..|ss|] == ss;
  }

  // ---- Tasks: comparing two counts decides whether every task is done ----

  /** The completed progress rows of the enrolment among the given tasks. */
  function DoneRows(f: Facts, enrolment: string, tasks: seq<string>): set<(string, string)> {
    set k | k in f.progress && k.0 == enrolment && k.1 in tasks && f.progress[k]
  }

  lemma DoneRowsSnoc(f: Facts, enrolment: string, tasks: seq<string>, t: string)
    requires t !in tasks
    ensures |DoneRows(f, enrolment, tasks + [t])| ==
            |DoneRows(f, enrolment, tasks)| + if TaskDone(f, enrolment, t) then 1 else 0
  {
    assert forall x :: x in tasks + [t] <==> x in tasks || x == t;
    assert DoneRows(f, enrolment, tasks + [t]) ==
           DoneRows(f, enrolment, tasks) + if TaskDone(f, enrolment, t) then {(enrolment, t)} else {};
    assert (enrolment, t) !in DoneRows(f, enrolment, tasks);
  }

  /** The count of completed rows falls short of the number of tasks exactly when one of them is not done. */
  lemma {:induction false} CountDecides(f: Facts, enrolment: string, tasks: seq<string>)
    requires forall i, j :: 0 <= i < j < |tasks| ==> tasks[i] != tasks[j]
    ensures |DoneRows(f, enrolment, tasks)| <= |tasks|
    ensures |DoneRows(f, enrolment, tasks)| < |tasks| <==> exists t :: t in tasks && !TaskDone(f, enrolment, t)
  {
    hide TaskDone, DoneRows;
    if tasks == [] {
      NoRows(f, enrolment);
    } else {
      var front, last := tasks[..|tasks| - 1], tasks[|tasks| - 1];
      assert tasks == front + [last];
      CountDecides(f, enrolment, front);
      DoneRowsSnoc(f, enrolment, front, last);
    }
  }

  lemma NoRows(f: Facts, enrolment: string)
    ensures |DoneRows(f, enrolment, [])| == 0
  {
    assert DoneRows(f, enrolment, []) == {};
  }

  lemma TaskGapsSnoc(f: Facts, ms: seq<Enrolment>, m: Enrolment)
    ensures TaskGaps(f, ms + [m]) ==
            TaskGaps(f, ms) + if exists t :: t in f.tasks && !TaskDone(f, m.id, t) then {TasksMissing(m.id)} else {}
  {
    assert forall x :: x in ms + [m] <==> x in ms || x == m;
  }

  method PushTaskBlockers(f: Facts, found: seq<Blocker>) returns (blockers: seq<Blocker>)
    requires WellKeyed(f)
    ensures Ids(blockers) == Ids(found) + TaskGaps(f, f.enrolments)
    ensures AllQuoted(f, found) ==> AllQuoted(f, blockers)
  {
    hide Ids, AllQuoted, TaskGaps, DoneRows;
    NoGapsYet(f);
    blockers := found;
    if |f.tasks| == 0 {
      return;
    }
    for i := 0 to |f.enrolments|
      invariant Ids(blockers) == Ids(found) + TaskGaps(f, f.enrolments[..i])
      invariant AllQuoted(f, found) ==> AllQuoted(f, blockers)
    {
      var m := f.enrolments[i];
      var done := |DoneRows(f, m.id, f.tasks)|;
      CountDecides(f, m.id, f.tasks);
      TaskGapsSnoc(f, f.enrolments[..i], m);
      assert f.enrolments[..i + 1] == f.enrolments[..i] + [m];
      if done < |f.tasks| {
        AddQuoted(f, blockers, Blocker(TasksMissing(m.id), done));
        blockers := blockers + [Blocker(TasksMissing(m.id), done)];
      }
    }
    assert f.enrolments[..|f.enrolments|] == f.enrolments;
  }

  // ---- Grades: cells looked up by a key built from two ids ----

  function CellKey(enrolment: string, kind: string): string { enrolment + ":" + kind }

  function FilledKeys(f: Facts): set<string> { set g | g in f.grades :: CellKey(g.enrolment, g.kind) }

  /** The key of a cell is among the filled ones exactly when the cell has a grade. */
  lemma KeyDecides(f: Facts, enrolment: string, mod: string)
    requires WellKeyed(f) && ':' !in enrolment
    ensures CellKey(enrolment, GradeKind(mod)) in FilledKeys(f) <==> Graded(f, enrolment, mod)
  {
    var key := CellKey(enrolment, GradeKind(mod));
    if key in FilledKeys(f) {
      var g :| g in f.grades && CellKey(g.enrolment, g.kind) == key;
      assert [':'] == ":";
      FirstPart(g.enrolment, g.kind, enrolment, GradeKind(mod), ':');
      assert g == Grade(enrolment, GradeKind(mod));
    }
    if Graded(f, enrolment, mod) {
      assert Grade(enrolment, GradeKind(mod)) in f.grades;
    }
  }

  /** How many of the modules have no grade for the enrolment. */
  function MissingInRow(f: Facts, enrolment: string, modules: seq<string>): nat {
    if modules == [] then 0 else
      MissingInRow(f, enrolment, modules[..|modules| - 1])
      + if Graded(f, enrolment, modules[|modules| - 1]) then 0 else 1
  }

  /** The empty cells of the grade sheet of the enrolments. */
  function MissingCells(f: Facts, ms: seq<Enrolment>): nat {
    if ms == [] then 0 else MissingCells(f, ms[..|ms| - 1]) + MissingInRow(f, ms[|ms| - 1].id, f.modules)
  }

  lemma {:induction false} MissingInRowIff(f: Facts, enrolment: string, modules: seq<string>)
    ensures MissingInRow(f, enrolment, modules) > 0 <==> exists x :: x in modules && !Graded(f, enrolment, x)
  {
    if modules == [] {
    } else {
      assert modules == modules[..|modules| - 1] + [modules[|modules| - 1]];
      MissingInRowIff(f, enrolment, modules[..|modules| - 1]);
    }
  }

  lemma {:induction false} MissingCellsIff(f: Facts, ms: seq<Enrolment>)
    ensures MissingCells(f, ms) > 0 <==> exists m, x :: m in ms && x in f.modules && !Graded(f, m.id, x)
  {
    if ms == [] {
    } else {
      assert ms == ms[..|ms| - 1] + [ms[|ms| - 1]];
      MissingCellsIff(f, ms[..|ms| - 1]);
      MissingInRowIff(f, ms[|ms| - 1].id, f.modules);
    }
  }

  /** The empty cells of one row and of the first rows, as places. */
  function EmptyInRow(f: Facts, enrolment: string, n: nat): set<int>
    requires n <= |f.modules|
  {
    set j | 0 <= j < n && !Graded(f, enrolment, f.modules[j])
  }

  function EmptyInRows(f: Facts, n: nat): set<(int, int)>
    requires n <= |f.enrolments|
  {
    set i, j | 0 <= i < n && 0 <= j < |f.modules| && !Graded(f, f.enrolments[i].id, f.modules[j]) :: (i, j)
  }

  lemma {:induction false} MissingInRowCount(f: Facts, enrolment: string, n: nat)
    requires n <= |f.modules|
    ensures MissingInRow(f, enrolment, f.modules[..n]) == |EmptyInRow(f, enrolment, n)|
  {
    hide Graded;
    if n == 0 {
      assert EmptyInRow(f, enrolment, 0) == {};
    } else {
      MissingInRowCount(f, enrolment, n - 1);
      assert f.modules[..n][..n - 1] == f.modules[..n - 1];
      EmptyRowStep(f, enrolment, n);
    }
  }

  function Column(row: set<int>, i: int): set<(int, int)> { set j | j in row :: (i, j) }

  lemma ColumnAdd(row: set<int>, x: int, i: int)
    requires x !in row
    ensures |Column(row + {x}, i)| == |Column(row, i)| + 1 && |row + {x}| == |row| + 1
  {
    assert Column(row + {x}, i) == Column(row, i) + {(i, x)} && (i, x) !in Column(row, i);
  }

  lemma NoColumn(f: Facts, enrolment: string, i: int)
    ensures |Column(EmptyInRow(f, enrolment, 0), i)| == 0 && |EmptyInRow(f, enrolment, 0)| == 0
  {
    assert EmptyInRow(f, enrolment, 0) == {} && Column({}, i) == {};
  }

  lemma EmptyRowStep(f: Facts, enrolment: string, n: nat)
    requires 0 < n <= |f.modules|
    ensures Graded(f, enrolment, f.modules[n - 1]) ==> EmptyInRow(f, enrolment, n) == EmptyInRow(f, enrolment, n - 1)
    ensures !Graded(f, enrolment, f.modules[n - 1]) ==> EmptyInRow(f, enrolment, n) == EmptyInRow(f, enrolment, n - 1) + {n - 1}
    ensures n - 1 !in EmptyInRow(f, enrolment, n - 1)
  {
    hide Graded;
  }

  lemma {:induction false} InColumn(f: Facts, enrolment: string, n: nat, i: int)
    requires n <= |f.modules|
    ensures |Column(EmptyInRow(f, enrolment, n), i)| == |EmptyInRow(f, enrolment, n)|
  {
    hide EmptyInRow, Column, Graded;
    if n == 0 {
      NoColumn(f, enrolment, i);
    } else {
      InColumn(f, enrolment, n - 1, i);
      EmptyRowStep(f, enrolment, n);
      if !Graded(f, enrolment, f.modules[n - 1]) {
        ColumnAdd(EmptyInRow(f, enrolment, n - 1), n - 1, i);
      }
      hide *;
    }
  }

  lemma RowsSplit(f: Facts, n: nat)
    requires 0 < n <= |f.enrolments|
    ensures var cells := Column(EmptyInRow(f, f.enrolments[n - 1].id, |f.modules|), n - 1);
            EmptyInRows(f, n) == EmptyInRows(f, n - 1) + cells && EmptyInRows(f, n - 1) !! cells
  {
    hide Graded;
  }

  lemma {:induction false} MissingRowsCount(f: Facts, n: nat)
    requires n <= |f.enrolments|
    ensures MissingCells(f, f.enrolments[..n]) == |EmptyInRows(f, n)|
  {
    hide Graded, MissingInRow, EmptyInRow, Column;
    if n == 0 {
      assert EmptyInRows(f, 0) == {};
    } else {
      var id := f.enrolments[n - 1].id;
      MissingRowsCount(f, n - 1);
      MissingInRowCount(f, id, |f.modules|);
      assert f.modules[..|f.modules|] == f.modules && f.enrolments[..n][..n - 1] == f.enrolments[..n - 1];
      InColumn(f, id, |f.modules|, n - 1);
      RowsSplit(f, n);
      hide EmptyInRows;
    }
  }

  lemma MissingCellsCount(f: Facts, n: nat)
    requires n == |f.enrolments|
    ensures MissingCells(f, f.enrolments) == |EmptyCells(f)|
  {
    MissingRowsCount(f, n);
    assert f.enrolments[..n] == f.enrolments;
    forall i, j | 0 <= i < n && 0 <= j < |f.modules|
      ensures Graded(f, f.enrolments[i].id, f.modules[j]) <==>
              exists g :: g in f.grades && g.enrolment == f.enrolments[i].id && g.kind == "pauta:" + f.modules[j]
    {
      GradedIff(f, f.enrolments[i].id, f.modules[j]);
    }
    hide Graded, MissingCells;
    assert EmptyInRows(f, n) == EmptyCells(f);
  }

  method CountMissing(f: Facts, enrolment: string, filled: set<string>) returns (missing: nat)
    requires WellKeyed(f) && ':' !in enrolment && filled == FilledKeys(f)
    ensures missing == MissingInRow(f, enrolment, f.modules)
  {
    missing := 0;
    for j := 0 to |f.modules|
      invariant missing == MissingInRow(f, enrolment, f.modules[..j])
    {
      KeyDecides(f, enrolment, f.modules[j]);
      assert f.modules[..j + 1][..j] == f.modules[..j];
      if CellKey(enrolment, GradeKind(f.modules[j])) !in filled {
        missing := missing + 1;
      }
    }
    assert f.modules[..|f.modules|] == f.modules;
  }

  method PushGradeBlocker(f: Facts, found: seq<Blocker>) returns (blockers: seq<Blocker>)
    requires WellKeyed(f)
    ensures Ids(blockers) == Ids(found) + GradeGaps(f)
    ensures blockers == found + if GradeGaps(f) != {} then [Blocker(GradesMissing, |EmptyCells(f)|)] else []
  {
    blockers := found;
    var filled := FilledKeys(f);
    var missing := 0;
    for i := 0 to |f.enrolments|
      invariant missing == MissingCells(f, f.enrolments[..i])
    {
      var row := CountMissing(f, f.enrolments[i].id, filled);
      assert f.enrolments[..i + 1][..i] == f.enrolments[..i];
      missing := missing + row;
    }
    assert f.enrolments[..|f.enrolments|] == f.enrolments;
    MissingCellsIff(f, f.enrolments);
    MissingCellsCount(f, |f.enrolments|);
    if missing > 0 {
      IdsOne(blockers, Blocker(GradesMissing, missing));
      blockers := blockers + [Blocker(GradesMissing, missing)];
    }
  }

  // ---- Consents and documents ----

  method PushEnrolmentDoc(m: Enrolment, categories: seq<string>, found: seq<Blocker>) returns (blockers: seq<Blocker>)
    ensures Ids(blockers) == Ids(found) + set c | c in categories && FirstLacking(m, categories, c) :: EnrolmentDocMissing(m.id, c)
    ensures PlainPushed(found, blockers)
  {
    hide Ids, PlainPushed;
    NonePushed(found);
    blockers := found;
    for i := 0 to |categories|
      invariant blockers == found
      invariant forall j :: 0 <= j < i ==> DocDelivered(m, categories[j])
    {
      if !DocDelivered(m, categories[i]) {
        var b := Blocker(EnrolmentDocMissing(m.id, categories[i]), 0);
        AddPlain(found, blockers, b);
        blockers := blockers + [b];
        assert forall c :: FirstLacking(m, categories, c) <==> c == categories[i];
        return;
      }
    }
  }

  lemma EnrolmentGapsSnoc(ms: seq<Enrolment>, m: Enrolment, categories: seq<string>)
    ensures EnrolmentGaps(ms + [m], categories) == EnrolmentGaps(ms, categories) + DocGaps(m, categories)
  {
    hide DocGaps;
    assert forall x :: x in ms + [m] <==> x in ms || x == m;
    assert forall b :: b in DocGaps(m, categories) ==> b in EnrolmentGaps(ms + [m], categories);
    assert forall b :: b in EnrolmentGaps(ms, categories) ==> b in EnrolmentGaps(ms + [m], categories);
  }

  method PushEnrolmentBlockers(ms: seq<Enrolment>, categories: seq<string>, found: seq<Blocker>) returns (blockers: seq<Blocker>)
    ensures Ids(blockers) == Ids(found) + EnrolmentGaps(ms, categories)
    ensures PlainPushed(found, blockers)
  {
    hide Ids, PlainPushed, FirstLacking, DocDelivered, EnrolmentGaps;
    NonePushed(found);
    assert EnrolmentGaps(ms[..0], categories) == {} by { NoEnrolmentGaps(categories); }
    blockers := found;
    for i := 0 to |ms|
      invariant Ids(blockers) == Ids(found) + EnrolmentGaps(ms[..i], categories)
      invariant PlainPushed(found, blockers)
    {
      var m := ms[i];
      EnrolmentGapsSnoc(ms[..i], m, categories);
      assert ms[..i + 1] == ms[..i] + [m];
      if m.consent.Some? && !m.consent.value {
        AddPlain(found, blockers, Blocker(ConsentMissing(m.id), 0));
        blockers := blockers + [Blocker(ConsentMissing(m.id), 0)];
      }
      ghost var before := blockers;
      blockers := PushEnrolmentDoc(m, categories, blockers);
      PlainThenPlain(found, before, blockers);
      if !m.personalDocsComplete {
        AddPlain(found, blockers, Blocker(PersonalDocsMissing(m.trainee), 0));
        blockers := blockers + [Blocker(PersonalDocsMissing(m.trainee), 0)];
      }
    }
    assert ms[..|ms|] == ms;
  }

  function TrainersOf(ss: seq<Session>): seq<string> {
    if ss == [] then [] else
      var rest, t := TrainersOf(ss[..|ss| - 1]), ss[|ss| - 1].trainer;
      if t.None? || t.value in rest then rest else rest + [t.value]
  }

  function GapsOfTrainers(f: Facts, ids: seq<string>): set<BlockerId> {
    set id, b | id in ids && b in TrainerGap(f, id) :: b
  }

  lemma {:induction false} TrainersOfIff(ss: seq<Session>)
    ensures forall id :: id in TrainersOf(ss) <==> exists s :: s in ss && s.trainer == Some(id)
  {
    if ss == [] {
    } else {
      assert ss == ss[..|ss| - 1] + [ss[|ss| - 1]];
      TrainersOfIff(ss[..|ss| - 1]);
      assert ss[|ss| - 1] in ss;
    }
  }

  lemma TrainerGapsByIds(f: Facts, ss: seq<Session>)
    ensures GapsOfTrainers(f, TrainersOf(ss)) == TrainerGaps(f, ss)
  {
    hide TrainerGap;
    TrainersOfIff(ss);
    forall b
      ensures b in GapsOfTrainers(f, TrainersOf(ss)) <==> b in TrainerGaps(f, ss)
    {
      if b in GapsOfTrainers(f, TrainersOf(ss)) {
        var id :| id in TrainersOf(ss) && b in TrainerGap(f, id);
        var s :| s in ss && s.trainer == Some(id);
        assert b in TrainerGap(f, s.trainer.value);
      }
      if b in TrainerGaps(f, ss) {
        var s :| s in ss && s.trainer.Some? && b in TrainerGap(f, s.trainer.value);
        assert s.trainer.value in TrainersOf(ss);
      }
    }
  }

  lemma GapsOfTrainersSnoc(f: Facts, ids: seq<string>, id: string)
    ensures GapsOfTrainers(f, ids + [id]) == GapsOfTrainers(f, ids) + TrainerGap(f, id)
  {
    hide TrainerGap;
    assert forall x :: x in ids + [id] <==> x in ids || x == id;
    assert forall b :: b in TrainerGap(f, id) ==> b in GapsOfTrainers(f, ids + [id]);
    assert forall b :: b in GapsOfTrainers(f, ids) ==> b in GapsOfTrainers(f, ids + [id]);
  }

  method PushTrainerBlockers(f: Facts, ss: seq<Session>, found: seq<Blocker>) returns (blockers: seq<Blocker>)
    ensures Ids(blockers) == Ids(found) + TrainerGaps(f, ss)
    ensures PlainPushed(found, blockers)
  {
    hide Ids, PlainPushed, GapsOfTrainers, TrainersOf;
    NonePushed(found);
    NoGapsYet(f);
    blockers := found;
    var ids := TrainersOf(ss);
    for i := 0 to |ids|
      invariant Ids(blockers) == Ids(found) + GapsOfTrainers(f, ids[..i])
      invariant PlainPushed(found, blockers)
    {
      var id := ids[i];
      GapsOfTrainersSnoc(f, ids[..i], id);
      assert ids[..i + 1] == ids[..i] + [id];
      if id in f.trainers {
        if !f.trainers[id].consent {
          AddPlain(found, blockers, Blocker(TrainerConsentMissing(id), 0));
          blockers := blockers + [Blocker(TrainerConsentMissing(id), 0)];
        }
        if !f.trainers[id].docsComplete {
          AddPlain(found, blockers, Blocker(TrainerDocsMissing(id), 0));
          blockers := blockers + [Blocker(TrainerDocsMissing(id), 0)];
        }
      }
    }
    assert ids[..|ids|] == ids;
    TrainerGapsByIds(f, ss);
  }

  // ---- The first blocker of each id, at most forty ----

  predicate DistinctIds(bs: seq<Blocker>) {
    forall i, j :: 0 <= i < j < |bs| ==> bs[i].id != bs[j].id
  }

  /** The blockers that come before any other of the same id. */
  function Firsts(bs: seq<Blocker>): seq<Blocker> {
    if bs == [] then [] else
      var front, last := bs[..|bs| - 1], bs[|bs| - 1];
      if last.id in Ids(front) then Firsts(front) else Firsts(front) + [last]
  }

  lemma {:induction false} FirstsKeepIds(bs: seq<Blocker>)
    ensures Ids(Firsts(bs)) == Ids(bs) && DistinctIds(Firsts(bs))
  {
    if bs == [] {
    } else {
      var front, last := bs[..|bs| - 1], bs[|bs| - 1];
      assert bs == front + [last];
      FirstsKeepIds(front);
      IdsOne(front, last);
      IdsOne(Firsts(front), last);
      assert forall i :: 0 <= i < |Firsts(front)| ==> Firsts(front)[i].id in Ids(Firsts(front));
    }
  }

  lemma FirstsAmong(bs: seq<Blocker>)
    ensures forall b :: b in Firsts(bs) ==> b in bs
  {
    forall b | b in Firsts(bs)
      ensures b in bs
    {
      FirstsIff(bs, b);
    }
  }

  predicate FirstAt(bs: seq<Blocker>, b: Blocker, i: int) {
    0 <= i < |bs| && bs[i] == b && forall j :: 0 <= j < i ==> bs[j].id != b.id
  }

  lemma IdAt(bs: seq<Blocker>, id: BlockerId)
    ensures id in Ids(bs) <==> exists j :: 0 <= j < |bs| && bs[j].id == id
  {
    if j :| 0 <= j < |bs| && bs[j].id == id {
      assert bs[j] in bs;
    }
  }

  /** A blocker is kept exactly at the first place of its id. */
  lemma {:induction false} FirstsIff(bs: seq<Blocker>, b: Blocker)
    ensures b in Firsts(bs) <==> exists i :: FirstAt(bs, b, i)
  {
    if bs == [] {
    } else {
      var n := |bs| - 1;
      var front, last := bs[..n], bs[n];
      FirstsIff(front, b);
      IdAt(front, last.id);
      hide Ids;
      assert forall i :: 0 <= i < n ==> front[i] == bs[i];
      FirstAtSnoc(front, last, b);
      assert bs == front + [last];
      hide FirstAt;
    }
  }

  lemma FirstAtSnoc(front: seq<Blocker>, last: Blocker, b: Blocker)
    ensures (exists i :: FirstAt(front + [last], b, i)) <==>
            (exists i :: FirstAt(front, b, i)) || (b == last && forall j :: 0 <= j < |front| ==> front[j].id != last.id)
  {
    var bs := front + [last];
    forall i
      ensures FirstAt(bs, b, i) <==>
              FirstAt(front, b, i) || (i == |front| && b == last && forall j :: 0 <= j < |front| ==> front[j].id != last.id)
    {
      assert forall j :: 0 <= j < |front| ==> bs[j] == front[j];
    }
    if b == last && forall j :: 0 <= j < |front| ==> front[j].id != last.id {
      assert FirstAt(bs, b, |front|);
    }
    hide FirstAt;
  }

  method FirstOfEach(bs: seq<Blocker>) returns (kept: seq<Blocker>)
    ensures kept == Firsts(bs)
  {
    kept := [];
    var seen: set<BlockerId> := {};
    for n := 0 to |bs|
      invariant kept == Firsts(bs[..n]) && seen == Ids(bs[..n])
    {
      assert bs[..n + 1] == bs[..n] + [bs[n]];
      IdsOne(bs[..n], bs[n]);
      if bs[n].id !in seen {
        kept := kept + [bs[n]];
        seen := seen + {bs[n].id};
      }
    }
    assert bs[..|bs|] == bs;
  }

  lemma {:induction false} DistinctCount(bs: seq<Blocker>)
    requires DistinctIds(bs)
    ensures |Ids(bs)| == |bs|
  {
    if bs != [] {
      var front, last := bs[..|bs| - 1], bs[|bs| - 1];
      assert bs == front + [last];
      DistinctCount(front);
      IdsOne(front, last);
      assert last.id !in Ids(front);
    } else {
      assert Ids(bs) == {};
    }
  }

  lemma PrefixKeeps(bs: seq<Blocker>, n: nat)
    requires n <= |bs| && DistinctIds(bs)
    ensures Ids(bs[..n]) <= Ids(bs) && DistinctIds(bs[..n])
  {
    IdsConcat(bs[..n], bs[n..]);
    assert bs == bs[..n] + bs[n..];
  }

  /** What the reply keeps of the blockers found. */
  method Report(bs: seq<Blocker>) returns (reply: seq<Blocker>)
    ensures DistinctIds(reply) && |reply| <= MAX_BLOCKERS
    ensures Ids(reply) <= Ids(bs)
    ensures |Ids(bs)| <= MAX_BLOCKERS ==> Ids(reply) == Ids(bs)
    ensures reply == [] <==> Ids(bs) == {}
    ensures reply == if |Firsts(bs)| <= 40 then Firsts(bs) else Firsts(bs)[..40]
  {
    hide Ids, Firsts, DistinctIds;
    var kept := FirstOfEach(bs);
    FirstsKeepIds(bs);
    DistinctCount(kept);
    if |kept| <= MAX_BLOCKERS {
      reply := kept;
    } else {
      reply := kept[..MAX_BLOCKERS];
      PrefixKeeps(kept, MAX_BLOCKERS);
    }
    NoneIffEmpty(reply);
    NoneIffEmpty(kept);
  }

  lemma NoneIffEmpty(bs: seq<Blocker>)
    ensures Ids(bs) == {} <==> bs == []
  {
    assert bs != [] ==> bs[0].id in Ids(bs);
  }

  method CollectOpen(f: Facts, state: ActionState) returns (blockers: seq<Blocker>)
    requires WellKeyed(f)
    ensures Ids(blockers) == Gaps(f, state) && AllQuoted(f, blockers)
  {
    hide ScheduleGaps, SessionGaps, TaskGaps, GradeGaps, EnrolmentGaps, TrainerGaps, Sessions, WellKeyed, Ids, PlainPushed,
      AllQuoted, EmptyCells, PendingAt, DoneRows;
    NothingQuoted(f);
    blockers := [];
    if state != Running {
      AddQuoted(f, blockers, Blocker(NotRunning, 0));
      blockers := blockers + [Blocker(NotRunning, 0)];
    }
    blockers := PushScheduleBlockers(f, blockers);
    ghost var scheduled := blockers;
    blockers := PushSessionBlockers(Sessions(f), f.groups, blockers);
    PlainQuoted(f, scheduled, blockers);
    blockers := PushTaskBlockers(f, blockers);
    GradeQuoted(f, blockers);
    blockers := PushGradeBlocker(f, blockers);
    ghost var graded := blockers;
    blockers := PushEnrolmentBlockers(f.enrolments, f.requiredCategories, blockers);
    PlainQuoted(f, graded, blockers);
    ghost var enrolled := blockers;
    blockers := PushTrainerBlockers(f, Sessions(f), blockers);
    PlainQuoted(f, enrolled, blockers);
    if !f.complianceReady {
      AddQuoted(f, blockers, Blocker(ComplianceIncomplete, 0));
      blockers := blockers + [Blocker(ComplianceIncomplete, 0)];
    }
  }

  lemma NothingQuoted(f: Facts)
    ensures Ids([]) == {} && AllQuoted(f, [])
  {
  }

  lemma GradeQuoted(f: Facts, bs: seq<Blocker>)
    requires AllQuoted(f, bs)
    ensures AllQuoted(f, bs + [Blocker(GradesMissing, |EmptyCells(f)|)]) && AllQuoted(f, bs + [])
  {
    assert bs + [] == bs;
    AddQuoted(f, bs, Blocker(GradesMissing, |EmptyCells(f)|));
  }

  /**
   The reply lists real gaps only, each once, all of them when there are at most forty, and is
   empty exactly when the action is already concluded or is ready to be.
   */
  method CollectConclusaoBlockers(f: Facts, state: ActionState) returns (blockers: seq<Blocker>)
    requires WellKeyed(f)
    ensures blockers == [] <==> state == Concluded || Ready(f, state)
    ensures DistinctIds(blockers) && |blockers| <= 40
    ensures state == Cancelled ==> blockers == [Blocker(IsCancelled, 0)]
    ensures state == Planned || state == Running ==>
              && (forall b :: b in blockers ==> IsGap(f, state, b.id) && b.shown == Quoted(f, b.id))
              && (|Gaps(f, state)| <= 40 ==> forall b :: IsGap(f, state, b) <==> b in Ids(blockers))
  {
    if state == Cancelled {
      return [Blocker(IsCancelled, 0)];
    }
    if state == Concluded {
      return [];
    }
    hide Gaps, IsGap, WellKeyed, DistinctIds;
    blockers := CollectOpen(f, state);
    FirstsAmong(blockers);
    blockers := Report(blockers);
    NoGapsIffReady(f, state);
    forall b
      ensures b in Gaps(f, state) <==> IsGap(f, state, b)
    {
      GapsIff(f, state, b);
    }
    assert forall b :: b in blockers ==> b.id in Ids(blockers);
    hide Ids, Ready, Quoted;
  }
}
