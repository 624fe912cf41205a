/** The three writes of progress behind their guards: what of a module still moves after its deadline. */
module LmsAccess {
  import opened Wrappers
  import opened Dates
  import opened LmsDeadlines
  import D = LmsDeadlineRuns
  import P = LmsProgress

  datatype TaskKind = Scorm | QuizTask | OtherTask

  datatype Task = Task(kind: TaskKind, unit_: Option<Id>, published: bool)

  type Tasks = map<Id, Task>

  /** The gate: a task of a unit needs the unit open, any task the earlier ones done. */
  predicate Gate(db: Db, t: Task, m: Id, today: Date, earlierDone: bool) {
    && m in db.enrolments && t.published
    && if t.unit_.Some? then TaskOpen(db, m, t.unit_.value, today, earlierDone) else earlierDone
  }

  /** Published, earlier work done, and for a unit released with no deadline before today. */
  predicate OpenByDates(db: Db, t: Task, m: Id, today: Date, earlierDone: bool) {
    && m in db.enrolments && t.published && earlierDone
    && match t.unit_
       case None => true
       case Some(u) => (m, u) in db.unlocks && !OverdueFor(db, db.enrolments[m].action, u, today)
  }

  lemma GateByDates(db: Db, t: Task, m: Id, today: Date, earlierDone: bool)
    requires DatesWritten(db) && Written(today)
    ensures Gate(db, t, m, today, earlierDone) <==> OpenByDates(db, t, m, today, earlierDone)
  {
    if m in db.enrolments && t.unit_.Some? && (db.enrolments[m].action, t.unit_.value) in db.deadlines {
      ReachedIff(db.deadlines[(db.enrolments[m].action, t.unit_.value)], today);
    }
    hide Reached, Later, Written;
  }

  /** On the day of the deadline a released, published task with the earlier work done is open. */
  lemma OpenOnDeadlineDay(db: Db, t: Task, m: Id, today: Date)
    requires DatesWritten(db) && Written(today) && m in db.enrolments && t.published && t.unit_.Some?
    requires var p := (db.enrolments[m].action, t.unit_.value); p in db.deadlines && db.deadlines[p] == today
    requires (m, t.unit_.value) in db.unlocks
    ensures Gate(db, t, m, today, true)
  {
    GateByDates(db, t, m, today, true);
    hide Gate;
  }

  /** Which writes are admitted, by dates. */
  lemma AdmittedIff(db: Db, tasks: Tasks, s: P.Step, today: Date, earlierDone: bool)
    requires DatesWritten(db) && Written(today)
    ensures Admitted(db, tasks, s, today, earlierDone) <==>
            && s.key.enrolment in db.enrolments && s.key.task in tasks
            && var t := tasks[s.key.task];
            if s.Commit? then t.kind == Scorm && t.published
            else OpenByDates(db, t, s.key.enrolment, today, earlierDone) && (s.Quiz? ==> t.kind == QuizTask)
  {
    if s.key.task in tasks {
      GateByDates(db, tasks[s.key.task], s.key.enrolment, today, earlierDone);
    }
    hide Gate, OpenByDates;
  }

  /** The learner's path and quizzes pass the gate; a SCORM commit asks for no more than the enrolment and the package. */
  predicate Admitted(db: Db, tasks: Tasks, s: P.Step, today: Date, earlierDone: bool) {
    && s.key.task in tasks && s.key.enrolment in db.enrolments
    && var t := tasks[s.key.task];
    match s
    case Path(_, _, _, _) => Gate(db, t, s.key.enrolment, today, earlierDone)
    case Quiz(_, _, _, _, _) => t.kind == QuizTask && Gate(db, t, s.key.enrolment, today, earlierDone)
    case Commit(_, _, _) => t.kind == Scorm && t.published
  }

  function Served(db: Db, tasks: Tasks, rows: P.Rows, s: P.Step, today: Date, earlierDone: bool, number: string -> P.Num): P.Rows {
    if Admitted(db, tasks, s, today, earlierDone) then P.Apply(rows, s, number) else rows
  }

  // ---- The service ----

  class LearnerService {
    const number: string -> P.Num
    const tasks: Tasks
    const progress: P.ProgressService
    var db: Db

    constructor (db: Db, tasks: Tasks, number: string -> P.Num)
      ensures this.db == db && this.tasks == tasks && this.number == number
      ensures fresh(progress) && progress.rows == map[]
    {
      this.db, this.tasks, this.number := db, tasks, number;
      progress := new P.ProgressService();
    }

    method AssertTaskOpen(m: Id, x: Id, today: Date, earlierDone: bool) returns (open: bool)
      requires x in tasks
      ensures open <==> Gate(db, tasks[x], m, today, earlierDone)
      ensures DatesWritten(db) && Written(today) ==> (open <==> OpenByDates(db, tasks[x], m, today, earlierDone))
    {
      if DatesWritten(db) && Written(today) {
        GateByDates(db, tasks[x], m, today, earlierDone);
      }
      if m !in db.enrolments {
        return false;
      }
      var t := tasks[x];
      if t.unit_.Some? {
        var u, a := t.unit_.value, db.enrolments[m].action;
        if (a, u) in db.deadlines && Reached(db.deadlines[(a, u)], today) {
          return false;
        }
        if (m, u) !in db.unlocks {
          return false;
        }
      }
      return t.published && earlierDone;
    }

    method UpdateProgress(k: P.Key, percent: Option<int>, score: Option<int>, now: int, today: Date, earlierDone: bool) returns (ok: bool)
      modifies progress
      ensures ok <==> Admitted(db, tasks, P.Path(k, percent, score, now), today, earlierDone)
      ensures progress.rows == Served(db, tasks, old(progress.rows), P.Path(k, percent, score, now), today, earlierDone, number)
    {
      if k.enrolment !in db.enrolments || k.task !in tasks {
        return false;
      }
      ok := AssertTaskOpen(k.enrolment, k.task, today, earlierDone);
      if ok {
        progress.UpdateProgress(k, percent, score, now);
      }
    }

    method CommitCmi(k: P.Key, cmi: P.Cmi, now: int, today: Date, earlierDone: bool) returns (ok: bool)
      modifies progress
      ensures ok <==> Admitted(db, tasks, P.Commit(k, cmi, now), today, earlierDone) && P.CommitWrite(cmi, number).Write?
      ensures progress.rows == Served(db, tasks, old(progress.rows), P.Commit(k, cmi, now), today, earlierDone, number)
    {
      if k.enrolment !in db.enrolments || k.task !in tasks || tasks[k.task].kind != Scorm || !tasks[k.task].published {
        return false;
      }
      ok := progress.CommitCmi(k, cmi, now, number);
    }

    method SubmitQuiz(k: P.Key, earned: nat, total: nat, minimum: Option<nat>, now: int, today: Date, earlierDone: bool)
      returns (ok: bool)
      modifies progress
      ensures ok <==> Admitted(db, tasks, P.Quiz(k, earned, total, minimum, now), today, earlierDone)
      ensures progress.rows ==
              Served(db, tasks, old(progress.rows), P.Quiz(k, earned, total, minimum, now), today, earlierDone, number)
    {
      if k.enrolment !in db.enrolments || k.task !in tasks || tasks[k.task].kind != QuizTask {
        return false;
      }
      ok := AssertTaskOpen(k.enrolment, k.task, today, earlierDone);
      if ok {
        var _ := progress.SubmitQuiz(k, earned, total, minimum, now);
      }
    }
  }

  // ---- One call after the deadline ----

  function RowAt(rows: P.Rows, k: P.Key): Option<P.Row> { if k in rows then Some(rows[k]) else None }

  /** The key is a task of a module whose deadline, for the action of the enrolment, has passed. */
  predicate PastDeadline(db: Db, tasks: Tasks, k: P.Key, today: Date) {
    && k.enrolment in db.enrolments && k.task in tasks && tasks[k.task].unit_.Some?
    && Expired(db, db.enrolments[k.enrolment].action, tasks[k.task].unit_.value, today)
  }

  /** The step commits the package of this task. */
  predicate CommitsTo(tasks: Tasks, s: P.Step, k: P.Key) {
    s.Commit? && s.key == k && k.task in tasks && tasks[k.task].kind == Scorm && tasks[k.task].published
  }

  lemma OtherRowsStay(rows: P.Rows, s: P.Step, k: P.Key, number: string -> P.Num)
    requires s.key != k
    ensures RowAt(P.Apply(rows, s, number), k) == RowAt(rows, k)
  {
    hide P.CommitWrite, P.QuizScore;
  }

  /** The row of a task past its deadline changes by the commits of its package only. */
  lemma StepPastDeadline(db: Db, tasks: Tasks, rows: P.Rows, s: P.Step, k: P.Key, today: Date, earlierDone: bool, number: string -> P.Num)
    requires PastDeadline(db, tasks, k, today)
    ensures RowAt(Served(db, tasks, rows, s, today, earlierDone, number), k) ==
            RowAt(if CommitsTo(tasks, s, k) then P.Apply(rows, s, number) else rows, k)
  {
    hide P.Apply, Expired;
    if s.key != k {
      OtherRowsStay(rows, s, k, number);
    }
  }

  // ---- Runs after the deadline ----

  /** A call of the deadline service, or a write of a learner on a day. */
  datatype Event =
    | Manage(step: D.Step)
    | Learn(write: P.Step, today: Date, earlierDone: bool)

  function Next(db: Db, tasks: Tasks, rows: P.Rows, e: Event, number: string -> P.Num): (Db, P.Rows) {
    match e
    case Manage(s) => (D.Apply(db, s), rows)
    case Learn(s, today, earlierDone) => (db, Served(db, tasks, rows, s, today, earlierDone, number))
  }

  function After(db: Db, tasks: Tasks, rows: P.Rows, tr: seq<Event>, number: string -> P.Num): (Db, P.Rows) {
    if tr == [] then (db, rows) else
      var (d, r) := After(db, tasks, rows, tr[..|tr| - 1], number);
      Next(d, tasks, r, tr[|tr| - 1], number)
  }

  /** No earlier than the day, and the deadline is not edited. */
  predicate Leaves(e: Event, a: Id, u: Id, from: Date) {
    match e
    case Manage(s) => D.Leaves(s, a, u, from)
    case Learn(_, today, _) => Written(today) && !Later(from, today)
  }

  predicate LeavesAll(tr: seq<Event>, a: Id, u: Id, from: Date) {
    forall i :: 0 <= i < |tr| ==> Leaves(tr[i], a, u, from)
  }

  /** The commits of the package of this task, in the order of the run. */
  function CommitsOf(tasks: Tasks, tr: seq<Event>, k: P.Key): seq<P.Step> {
    if tr == [] then [] else
      var e := tr[|tr| - 1];
      CommitsOf(tasks, tr[..|tr| - 1], k) + if e.Learn? && CommitsTo(tasks, e.write, k) then [e.write] else []
  }

  function Committed(rows: P.Rows, steps: seq<P.Step>, number: string -> P.Num): P.Rows {
    if steps == [] then rows else P.Apply(Committed(rows, steps[..|steps| - 1], number), steps[|steps| - 1], number)
  }

  /** The enrolment, its action and the deadline of the module are still there. */
  predicate StillThere(db: Db, d: Db, m: Id, u: Id) {
    && m in db.enrolments && m in d.enrolments && d.enrolments[m].action == db.enrolments[m].action
    && var a := db.enrolments[m].action;
    (a, u) in db.deadlines && (a, u) in d.deadlines && d.deadlines[(a, u)] == db.deadlines[(a, u)]
  }

  lemma ManageKeeps(db: Db, d: Db, s: D.Step, m: Id, u: Id, from: Date)
    requires StillThere(db, d, m, u) && D.Leaves(s, db.enrolments[m].action, u, from)
    ensures StillThere(db, D.Apply(d, s), m, u)
  {
    D.StepKeepsRows(d, s, m);
    D.StepKeepsDeadline(d, s, db.enrolments[m].action, u, from);
    hide D.Apply, D.Leaves;
  }

  lemma {:induction false} RunStillThere(db: Db, tasks: Tasks, rows: P.Rows, tr: seq<Event>, m: Id, u: Id, from: Date, number: string -> P.Num)
    requires StillThere(db, db, m, u) && LeavesAll(tr, db.enrolments[m].action, u, from)
    ensures StillThere(db, After(db, tasks, rows, tr, number).0, m, u)
  {
    var a := db.enrolments[m].action;
    hide StillThere, D.Apply, D.Leaves, Served;
    if tr == [] {
    } else {
      var front, e := tr[..|tr| - 1], tr[|tr| - 1];
      RunStillThere(db, tasks, rows, front, m, u, from, number);
      assert Leaves(e, a, u, from);
      if e.Manage? {
        ManageKeeps(db, After(db, tasks, rows, front, number).0, e.step, m, u, from);
      }
    }
  }

  lemma StillPast(db: Db, d: Db, tasks: Tasks, k: P.Key, from: Date, today: Date)
    requires PastDeadline(db, tasks, k, from) && StillThere(db, d, k.enrolment, tasks[k.task].unit_.value)
    requires Written(db.deadlines[(db.enrolments[k.enrolment].action, tasks[k.task].unit_.value)])
    requires Written(from) && Written(today) && !Later(from, today)
    ensures PastDeadline(d, tasks, k, today)
  {
    ReachedForever(db.deadlines[(db.enrolments[k.enrolment].action, tasks[k.task].unit_.value)], from, today);
  }

  /** What a step makes of a row depends on that row alone. */
  lemma ApplyAtKey(rows: P.Rows, other: P.Rows, s: P.Step, number: string -> P.Num)
    requires RowAt(rows, s.key) == RowAt(other, s.key)
    ensures RowAt(P.Apply(rows, s, number), s.key) == RowAt(P.Apply(other, s, number), s.key)
  {
    hide P.CommitWrite, P.QuizScore;
  }

  predicate DeadlinePassed(db: Db, tasks: Tasks, tr: seq<Event>, k: P.Key, from: Date) {
    && PastDeadline(db, tasks, k, from) && Written(from)
    && var (a, u) := (db.enrolments[k.enrolment].action, tasks[k.task].unit_.value);
    Written(db.deadlines[(a, u)]) && LeavesAll(tr, a, u, from)
  }

  /**
   From the passing of its deadline on, through any mixture of releases, blocks, sweeps and writes, the
   row of a task is what the commits of its package alone make of it.
   */
  lemma {:induction false} OnlyCommitsCount(db: Db, tasks: Tasks, rows: P.Rows, tr: seq<Event>, k: P.Key, from: Date, number: string -> P.Num)
    requires DeadlinePassed(db, tasks, tr, k, from)
    ensures RowAt(After(db, tasks, rows, tr, number).1, k) == RowAt(Committed(rows, CommitsOf(tasks, tr, k), number), k)
  {
    hide DeadlinePassed, PastDeadline, P.Apply, Served, D.Apply, CommitsOf, RowAt;
    NoCommits(tasks, rows, k, number);
    if tr == [] {
    } else {
      var front, e := tr[..|tr| - 1], tr[|tr| - 1];
      DeadlineStillPassed(db, tasks, rows, tr, k, from, number);
      OnlyCommitsCount(db, tasks, rows, front, k, from, number);
      var (d, r) := After(db, tasks, rows, front, number);
      assert After(db, tasks, rows, tr, number) == Next(d, tasks, r, e, number);
      hide After, Committed;
      assert tr == front + [e];
      if e.Learn? {
        StepPastDeadline(d, tasks, r, e.write, k, e.today, e.earlierDone, number);
        NextCommit(tasks, rows, r, front, e, k, number);
      } else {
        NoNewCommit(tasks, front, e, k);
      }
    }
  }

  lemma NoCommits(tasks: Tasks, rows: P.Rows, k: P.Key, number: string -> P.Num)
    ensures Committed(rows, CommitsOf(tasks, [], k), number) == rows
  {
  }

  lemma NoNewCommit(tasks: Tasks, front: seq<Event>, e: Event, k: P.Key)
    requires e.Manage?
    ensures CommitsOf(tasks, front + [e], k) == CommitsOf(tasks, front, k)
  {
    assert (front + [e])[..|front|] == front;
  }

  lemma DeadlineStillPassed(db: Db, tasks: Tasks, rows: P.Rows, tr: seq<Event>, k: P.Key, from: Date, number: string -> P.Num)
    requires tr != [] && DeadlinePassed(db, tasks, tr, k, from)
    ensures var (front, e) := (tr[..|tr| - 1], tr[|tr| - 1]);
            && DeadlinePassed(db, tasks, front, k, from)
            && (e.Learn? ==> PastDeadline(After(db, tasks, rows, front, number).0, tasks, k, e.today))
  {
    var u := tasks[k.task].unit_.value;
    assert StillThere(db, db, k.enrolment, u);
    var front, e := tr[..|tr| - 1], tr[|tr| - 1];
    assert Leaves(e, db.enrolments[k.enrolment].action, u, from);
    hide D.Leaves, After, Reached;
    RunStillThere(db, tasks, rows, front, k.enrolment, u, from, number);
    if e.Learn? {
      StillPast(db, After(db, tasks, rows, front, number).0, tasks, k, from, e.today);
    }
  }

  lemma NextCommit(tasks: Tasks, rows: P.Rows, r: P.Rows, front: seq<Event>, e: Event, k: P.Key, number: string -> P.Num)
    requires e.Learn? && RowAt(r, k) == RowAt(Committed(rows, CommitsOf(tasks, front, k), number), k)
    ensures RowAt(if CommitsTo(tasks, e.write, k) then P.Apply(r, e.write, number) else r, k) ==
            RowAt(Committed(rows, CommitsOf(tasks, front + [e], k), number), k)
  {
    hide P.Apply, RowAt;
    assert (front + [e])[..|front|] == front;
    var before := CommitsOf(tasks, front, k);
    if CommitsTo(tasks, e.write, k) {
      assert (before + [e.write])[..|before|] == before;
      ApplyAtKey(r, Committed(rows, before, number), e.write, number);
    } else {
      assert before + [] == before;
    }
  }

  lemma {:induction false} CommitsAreCommits(tasks: Tasks, tr: seq<Event>, k: P.Key)
    ensures forall s :: s in CommitsOf(tasks, tr, k) ==> CommitsTo(tasks, s, k)
    ensures CommitsOf(tasks, tr, k) != [] ==> k.task in tasks && tasks[k.task].kind == Scorm && tasks[k.task].published
  {
    if tr == [] {
    } else {
      CommitsAreCommits(tasks, tr[..|tr| - 1], k);
    }
  }

  /** A task that is no published package stands still from its deadline on. */
  lemma OtherTasksStandStill(db: Db, tasks: Tasks, rows: P.Rows, tr: seq<Event>, k: P.Key, from: Date, number: string -> P.Num)
    requires DeadlinePassed(db, tasks, tr, k, from)
    requires tasks[k.task].kind != Scorm || !tasks[k.task].published
    ensures RowAt(After(db, tasks, rows, tr, number).1, k) == RowAt(rows, k)
  {
    OnlyCommitsCount(db, tasks, rows, tr, k, from, number);
    CommitsAreCommits(tasks, tr, k);
    hide After, CommitsOf;
  }

  function AcceptedCommits(tasks: Tasks, tr: seq<Event>, k: P.Key, number: string -> P.Num): nat {
    if tr == [] then 0 else
      var e := tr[|tr| - 1];
      AcceptedCommits(tasks, tr[..|tr| - 1], k, number) +
      if e.Learn? && CommitsTo(tasks, e.write, k) && P.Accepted(e.write, k, number) then 1 else 0
  }

  lemma {:induction false} CommittedAttempts(tasks: Tasks, rows: P.Rows, tr: seq<Event>, k: P.Key, number: string -> P.Num)
    ensures P.Attempts(Committed(rows, CommitsOf(tasks, tr, k), number), k) == P.Attempts(rows, k) + AcceptedCommits(tasks, tr, k, number)
  {
    hide P.Apply, P.Accepted, P.Attempts, CommitsTo;
    if tr == [] {
    } else {
      var front, e := tr[..|tr| - 1], tr[|tr| - 1];
      CommittedAttempts(tasks, rows, front, k, number);
      var before := CommitsOf(tasks, front, k);
      if e.Learn? && CommitsTo(tasks, e.write, k) {
        assert (before + [e.write])[..|before|] == before;
        P.StepAttempts(Committed(rows, before, number), e.write, k, number);
      } else {
        assert before + [] == before;
      }
    }
  }

  /** The attempts a task gains after its deadline are its accepted commits, no more and no fewer. */
  lemma AttemptsPastDeadline(db: Db, tasks: Tasks, rows: P.Rows, tr: seq<Event>, k: P.Key, from: Date, number: string -> P.Num)
    requires DeadlinePassed(db, tasks, tr, k, from)
    ensures P.Attempts(After(db, tasks, rows, tr, number).1, k) == P.Attempts(rows, k) + AcceptedCommits(tasks, tr, k, number)
  {
    OnlyCommitsCount(db, tasks, rows, tr, k, from, number);
    CommittedAttempts(tasks, rows, tr, k, number);
    hide After, Committed, CommitsOf, AcceptedCommits, DeadlinePassed;
  }

  /** After a sweep, on whatever day, a commit completes a published package of the module, held or not. */
  lemma CommitCompletesPastDeadline(db: Db, tasks: Tasks, rows: P.Rows, k: P.Key, from: Date, later: Date, now: int, number: string -> P.Num)
    requires PastDeadline(db, tasks, k, from) && tasks[k.task].kind == Scorm && tasks[k.task].published
    ensures var cmi: P.Cmi := map["cmi.core.lesson_status" := "completed"];
            P.Completed(Served(Swept(db, from), tasks, rows, P.Commit(k, cmi, now), later, false, number), k)
  {
    var cmi: P.Cmi := map["cmi.core.lesson_status" := "completed"];
    P.CompletedReport(cmi, number);
    SweepTouchesOnly(db, from, ("", ""));
    hide Swept, P.CommitWrite, Expired;
  }
}
