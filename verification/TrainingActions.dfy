/** The life of training actions: created, edited, started, concluded, removed. */
module TrainingActions {
  import opened Wrappers
  import opened Text
  import opened ActionConclusion
  import opened ActionReadiness
  import opened ActionCollector

  datatype Action = Action(code: string, title: string, start: int, end: int, lmsDeadline: Option<int>, state: ActionState)

  /** A date in a request: absent (or null), unreadable, or an instant. */
  datatype DateArg = Absent | Unreadable | At(instant: int)

  datatype Edit = Edit(title: Option<string>, start: DateArg, end: DateArg,
                       lmsDeadline: Option<DateArg>, state: Option<ActionState>)

  datatype Refusal =
    | CourseUnknown | CodeTaken | StateNotAllowed | DateUnreadable | EndBeforeStart
    | NotFound | DeadlineBeforeStart | AlreadyConcluded | NotReady | HasEnrolments | HasSubmissions

  type Actions = map<string, Action>

  predicate CodeUsed(acts: Actions, code: string) {
    exists id :: id in acts && acts[id].code == code
  }

  function Create(acts: Actions, id: string, courseKnown: bool, code: string, title: string,
                  start: DateArg, end: DateArg, state: Option<ActionState>): Result<Actions, Refusal>
  {
    if !courseKnown then Err(CourseUnknown)
    else if CodeUsed(acts, Trim(code)) then Err(CodeTaken)
    else if state.Some? && state.value != Planned && state.value != Cancelled then Err(StateNotAllowed)
    else if !start.At? || !end.At? then Err(DateUnreadable)
    else if end.instant < start.instant then Err(EndBeforeStart)
    else Ok(acts[id := Action(Trim(code), title, start.instant, end.instant, None, state.GetOr(Planned))])
  }

  function DateOr(d: DateArg, old_: int): int { if d.At? then d.instant else old_ }

  function NewDeadline(d: Option<DateArg>, old_: Option<int>): Option<int> {
    match d
    case None => old_
    case Some(At(t)) => Some(t)
    case Some(_) => None
  }

  function Update(acts: Actions, id: string, e: Edit): Result<Actions, Refusal> {
    if id !in acts then Err(NotFound)
    else
      var a := acts[id];
      if e.start.Unreadable? || e.end.Unreadable? then Err(DateUnreadable)
      else
        var (start, end) := (DateOr(e.start, a.start), DateOr(e.end, a.end));
        if end < start then Err(EndBeforeStart)
        else if e.lmsDeadline == Some(Unreadable) then Err(DateUnreadable)
        else
          var deadline := NewDeadline(e.lmsDeadline, a.lmsDeadline);
          if deadline.Some? && deadline.value < start then Err(DeadlineBeforeStart)
          else if e.state.Some? && e.state.value != Planned && e.state.value != Cancelled then Err(StateNotAllowed)
          else if e.state.Some? && a.state == Concluded then Err(AlreadyConcluded)
          else Ok(acts[id := a.(title := if e.title.Some? then Trim(e.title.value) else a.title, start := start, end := end,
                               lmsDeadline := deadline, state := e.state.GetOr(a.state))])
  }

  /** Concluding an action that already is concluded succeeds and changes nothing. */
  function Conclude(acts: Actions, id: string, f: Facts): Result<Actions, Refusal> {
    if id !in acts then Err(NotFound)
    else if acts[id].state == Concluded then Ok(acts)
    else if !Ready(f, acts[id].state) then Err(NotReady)
    else Ok(acts[id := acts[id].(state := Concluded)])
  }

  function Remove(acts: Actions, id: string, enrolments: nat, submissions: nat): Result<Actions, Refusal> {
    if id !in acts then Err(NotFound)
    else if acts[id].state == Running || acts[id].state == Concluded then Err(StateNotAllowed)
    else if enrolments > 0 then Err(HasEnrolments)
    else if submissions > 0 then Err(HasSubmissions)
    else Ok(acts - {id})
  }

  /** Starting the first session moves a planned action on. */
  function MarkRunning(acts: Actions, id: string): Actions {
    if id in acts && acts[id].state == Planned then acts[id := acts[id].(state := Running)] else acts
  }

  function MaxOf(dates: seq<int>): int
    requires dates != []
  {
    var n := |dates| - 1;
    if n == 0 || MaxOf(dates[..n]) < dates[n] then dates[n] else MaxOf(dates[..n])
  }

  /** A schedule import brings one date for the action, or failing that the latest of its modules. */
  function ImportedDeadline(given: Option<int>, modules: seq<int>): Option<int> {
    if given.Some? then given else if modules != [] then Some(MaxOf(modules)) else None
  }

  /** The date of the action if there is one, otherwise the latest of the module dates, otherwise none. */
  lemma ImportedDeadlineIff(given: Option<int>, modules: seq<int>, d: int)
    ensures ImportedDeadline(given, modules) == Some(d) <==>
            given == Some(d) || (given == None && d in modules && forall x :: x in modules ==> x <= d)
  {
    if modules != [] {
      MaxIsLatest(modules);
    }
    hide MaxOf;
  }

  /** The import writes the deadline without looking at the start of the action. */
  function ImportDeadline(acts: Actions, id: string, given: Option<int>, modules: seq<int>): Actions {
    var d := ImportedDeadline(given, modules);
    if id in acts && d.Some? then acts[id := acts[id].(lmsDeadline := d)] else acts
  }

  class ActionService {
    var actions: Actions

    constructor ()
      ensures actions == map[]
    {
      actions := map[];
    }

    method CreateAction(id: string, courseKnown: bool, code: string, title: string,
                        start: DateArg, end: DateArg, state: Option<ActionState>) returns (r: Result<Action, Refusal>)
      requires id !in actions
      modifies this
      ensures var next := Create(old(actions), id, courseKnown, code, title, start, end, state);
              match next
              case Ok(acts) => actions == acts && r == Ok(acts[id])
              case Err(why) => actions == old(actions) && r == Err(why)
    {
      if !courseKnown {
        return Err(CourseUnknown);
      }
      var trimmed := Trim(code);
      if exists x :: x in actions && actions[x].code == trimmed {
        return Err(CodeTaken);
      }
      var initial := Planned;
      if state.Some? {
        if state.value != Planned && state.value != Cancelled {
          return Err(StateNotAllowed);
        }
        initial := state.value;
      }
      if !start.At? || !end.At? {
        return Err(DateUnreadable);
      }
      if end.instant < start.instant {
        return Err(EndBeforeStart);
      }
      var a := Action(trimmed, title, start.instant, end.instant, None, initial);
      actions := actions[id := a];
      return Ok(a);
    }

    method UpdateAction(id: string, e: Edit) returns (r: Result<Action, Refusal>)
      modifies this
      ensures match Update(old(actions), id, e)
              case Ok(acts) => actions == acts && r == Ok(acts[id])
              case Err(why) => actions == old(actions) && r == Err(why)
    {
      if id !in actions {
        return Err(NotFound);
      }
      var a := actions[id];
      if e.start.Unreadable? || e.end.Unreadable? {
        return Err(DateUnreadable);
      }
      var start := if e.start.At? then e.start.instant else a.start;
      var end := if e.end.At? then e.end.instant else a.end;
      if end < start {
        return Err(EndBeforeStart);
      }
      var deadline := a.lmsDeadline;
      if e.lmsDeadline.Some? {
        if e.lmsDeadline.value == Unreadable {
          return Err(DateUnreadable);
        }
        deadline := if e.lmsDeadline.value.At? then Some(e.lmsDeadline.value.instant) else None;
      }
      if deadline.Some? && deadline.value < start {
        return Err(DeadlineBeforeStart);
      }
      var state := a.state;
      if e.state.Some? {
        if e.state.value == Concluded || e.state.value == Running {
          return Err(StateNotAllowed);
        }
        if a.state == Concluded {
          return Err(AlreadyConcluded);
        }
        state := e.state.value;
      }
      var title := if e.title.Some? then Trim(e.title.value) else a.title;
      a := a.(title := title, start := start, end := end, lmsDeadline := deadline, state := state);
      actions := actions[id := a];
      return Ok(a);
    }

    method Concluir(id: string, f: Facts) returns (r: Result<bool, Refusal>)
      requires WellKeyed(f)
      modifies this
      ensures match Conclude(old(actions), id, f)
              case Ok(acts) => actions == acts && r == Ok(old(actions)[id].state == Concluded)
              case Err(why) => actions == old(actions) && r == Err(why)
    {
      hide Ready, Gaps, WellKeyed;
      if id !in actions {
        return Err(NotFound);
      }
      if actions[id].state == Concluded {
        return Ok(true);
      }
      var blockers := CollectConclusaoBlockers(f, actions[id].state);
      if |blockers| > 0 {
        return Err(NotReady);
      }
      actions := actions[id := actions[id].(state := Concluded)];
      return Ok(false);
    }

    /** `enrolled`: for each group the number of its enrolments, whatever their state. */
    method RemoveAction(id: string, enrolled: seq<nat>, submissions: nat) returns (r: Result<(), Refusal>)
      modifies this
      ensures match Remove(old(actions), id, Enrolments(enrolled), submissions)
              case Ok(acts) => actions == acts && r == Ok(())
              case Err(why) => actions == old(actions) && r == Err(why)
    {
      if id !in actions {
        return Err(NotFound);
      }
      if actions[id].state == Running || actions[id].state == Concluded {
        return Err(StateNotAllowed);
      }
      if Enrolments(enrolled) > 0 {
        return Err(HasEnrolments);
      }
      if submissions > 0 {
        return Err(HasSubmissions);
      }
      actions := actions - {id};
      return Ok(());
    }

    method MarkAcaoEmCurso(id: string)
      modifies this
      ensures actions.Keys == old(actions).Keys && forall x :: x in actions && x != id ==> actions[x] == old(actions)[x]
      ensures id in actions ==>
                && actions[id].state == (if old(actions)[id].state == Planned then Running else old(actions)[id].state)
                && actions[id].(state := Planned) == old(actions)[id].(state := Planned)
      ensures actions == MarkRunning(old(actions), id)
    {
      if id in actions && actions[id].state == Planned {
        actions := actions[id := actions[id].(state := Running)];
      }
    }

    method ImportScheduleDeadline(id: string, given: Option<int>, modules: seq<int>)
      modifies this
      ensures actions == ImportDeadline(old(actions), id, given, modules)
    {
      var deadline := given;
      if deadline.None? && |modules| > 0 {
        var latest := modules[0];
        for i := 1 to |modules|
          invariant latest == MaxOf(modules[..i])
        {
          assert modules[..i + 1][..i] == modules[..i];
          if latest < modules[i] {
            latest := modules[i];
          }
        }
        assert modules[..|modules|] == modules;
        deadline := Some(latest);
      }
      assert deadline == ImportedDeadline(given, modules);
      if id in actions && deadline.Some? {
        actions := actions[id := actions[id].(lmsDeadline := deadline)];
      }
    }
  }

  lemma {:induction false} MaxIsLatest(dates: seq<int>)
    requires dates != []
    ensures MaxOf(dates) in dates && forall d :: d in dates ==> d <= MaxOf(dates)
  {
    if |dates| == 1 {
    } else {
      var front := dates[..|dates| - 1];
      MaxIsLatest(front);
      assert dates == front + [dates[|dates| - 1]];
    }
  }

  function Enrolments(enrolled: seq<nat>): nat {
    if enrolled == [] then 0 else enrolled[0] + Enrolments(enrolled[1..])
  }

  lemma {:induction false} NobodyEnrolledIff(enrolled: seq<nat>)
    ensures Enrolments(enrolled) == 0 <==> forall k :: k in enrolled ==> k == 0
  {
    if enrolled == [] {
    } else {
      var rest := enrolled[1..];
      NobodyEnrolledIff(rest);
      assert enrolled == [enrolled[0]] + rest;
      assert enrolled[0] in enrolled && forall k :: k in rest ==> k in enrolled;
      assert forall k :: k in enrolled ==> k == enrolled[0] || k in rest;
    }
  }

  // ---- What each call asks for, over the fields ----

  /** Callers may only plan or cancel. */
  predicate Settable(state: Option<ActionState>) { state == None || state == Some(Planned) || state == Some(Cancelled) }

  lemma CreatedIff(acts: Actions, id: string, courseKnown: bool, code: string, title: string,
                   start: DateArg, end: DateArg, state: Option<ActionState>)
    ensures var r := Create(acts, id, courseKnown, code, title, start, end, state);
            && (r.Ok? <==>
                  && courseKnown && (forall x :: x in acts ==> acts[x].code != Trim(code)) && Settable(state)
                  && start.At? && end.At? && start.instant <= end.instant)
            && (r.Ok? ==>
                  r.value == acts[id := Action(Trim(code), title, start.instant, end.instant, None,
                                               if state == Some(Cancelled) then Cancelled else Planned)])
  {
    hide Trim;
  }

  /** The date an edit asks for, or the one there is. */
  function Asked(d: DateArg, kept: int): int {
    match d
    case At(t) => t
    case _ => kept
  }

  /** An unreadable date is refused, a null deadline removes it, an absent one keeps it. */
  function AskedDeadline(d: Option<DateArg>, kept: Option<int>): Option<int> {
    match d
    case None => kept
    case Some(Absent) => None
    case Some(Unreadable) => None
    case Some(At(t)) => Some(t)
  }

  lemma EditedIff(acts: Actions, id: string, e: Edit)
    requires id in acts
    ensures var (a, r) := (acts[id], Update(acts, id, e));
            var (start, end) := (Asked(e.start, a.start), Asked(e.end, a.end));
            var deadline := AskedDeadline(e.lmsDeadline, a.lmsDeadline);
            && (r.Ok? <==>
                  && !e.start.Unreadable? && !e.end.Unreadable? && e.lmsDeadline != Some(Unreadable)
                  && start <= end && (deadline.Some? ==> start <= deadline.value)
                  && Settable(e.state) && (e.state.Some? ==> a.state != Concluded))
            && (r.Ok? ==>
                  && r.value.Keys == acts.Keys && (forall x :: x in acts && x != id ==> r.value[x] == acts[x])
                  && r.value[id] == Action(a.code, if e.title.Some? then Trim(e.title.value) else a.title, start, end, deadline,
                                           if e.state.Some? then e.state.value else a.state))
  {
    hide Trim;
  }

  /** A concluding call succeeds on a concluded action, and on a running one that is ready, which it then concludes. */
  lemma ConcludedIff(acts: Actions, id: string, f: Facts)
    ensures var r := Conclude(acts, id, f);
            && (r.Ok? <==> id in acts && (acts[id].state == Concluded || (acts[id].state == Running && Ready(f, Running))))
            && (r.Ok? ==> r.value == acts[id := acts[id].(state := Concluded)])
  {
    assert id in acts && acts[id].state == Concluded ==> acts[id := acts[id].(state := Concluded)] == acts;
  }

  /** An action is removed exactly when it is planned or cancelled, without enrolments and without submissions. */
  lemma RemovedIff(acts: Actions, id: string, enrolled: seq<nat>, submissions: nat)
    ensures var r := Remove(acts, id, Enrolments(enrolled), submissions);
            && (r.Ok? <==>
                  && id in acts && (acts[id].state == Planned || acts[id].state == Cancelled)
                  && (forall k :: k in enrolled ==> k == 0) && submissions == 0)
            && (r.Ok? ==> id !in r.value && forall x :: x in acts && x != id ==> x in r.value && r.value[x] == acts[x])
            && (r.Ok? ==> forall x :: x in r.value ==> x in acts)
  {
    NobodyEnrolledIff(enrolled);
    hide Enrolments;
  }

  /** At the first moment it is ready, the dedicated call concludes a running action, in any run. */
  lemma ReadyIsConcluded(tr: seq<Event>, id: string, f: Facts)
    requires id in After(tr) && After(tr)[id].state == Running
    ensures IsConcluded(After(tr + [Concludes(id, f)]), id) <==> Ready(f, Running)
  {
    assert (tr + [Concludes(id, f)])[..|tr|] == tr;
    ConcludedIff(After(tr), id, f);
    hide Ready;
  }

  // ---- Whole runs ----

  datatype Event =
    | Creates(id: string, courseKnown: bool, code: string, title: string, start: DateArg, end: DateArg, state: Option<ActionState>)
    | Updates(id: string, edit: Edit)
    | Concludes(id: string, facts: Facts)
    | Removes(id: string, enrolments: nat, submissions: nat)
    | Starts(id: string)
    | Imports(id: string, given: Option<int>, modules: seq<int>)

  function OrSame(r: Result<Actions, Refusal>, acts: Actions): Actions {
    if r.Ok? then r.value else acts
  }

  /** A refused call changes nothing. A created action gets an id that is not in use. */
  function Step(acts: Actions, e: Event): Actions {
    match e
    case Creates(id, known, code, title, start, end, state) =>
      if id in acts then acts else OrSame(Create(acts, id, known, code, title, start, end, state), acts)
    case Updates(id, edit) => OrSame(Update(acts, id, edit), acts)
    case Concludes(id, facts) => OrSame(Conclude(acts, id, facts), acts)
    case Removes(id, n, m) => OrSame(Remove(acts, id, n, m), acts)
    case Starts(id) => MarkRunning(acts, id)
    case Imports(id, given, modules) => ImportDeadline(acts, id, given, modules)
  }

  function After(tr: seq<Event>): Actions {
    if tr == [] then map[] else Step(After(tr[..|tr| - 1]), tr[|tr| - 1])
  }

  /** Dates in order, and no code shared by two actions. */
  predicate WellKept(acts: Actions) {
    && (forall id :: id in acts ==> acts[id].start <= acts[id].end)
    && (forall x, y :: x in acts && y in acts && acts[x].code == acts[y].code ==> x == y)
  }

  /** Every change keeps the code and gives dates in order. */
  predicate Rewrites(acts: Actions, id: string, acts': Actions) {
    && id in acts && acts'.Keys == acts.Keys && acts'[id].code == acts[id].code
    && acts'[id].start <= acts'[id].end
    && forall x :: x in acts && x != id ==> acts'[x] == acts[x]
  }

  lemma OtherStepsRewrite(acts: Actions, e: Event)
    requires WellKept(acts) && !e.Creates? && !e.Removes?
    ensures Step(acts, e) == acts || Rewrites(acts, e.id, Step(acts, e))
  {
    hide Ready, Trim, Create, Remove, ImportedDeadline;
  }

  lemma CreateWellKept(acts: Actions, e: Event)
    requires WellKept(acts) && e.Creates?
    ensures WellKept(Step(acts, e))
  {
    hide Trim, Update, Conclude, Remove;
  }

  lemma StepWellKept(acts: Actions, e: Event)
    requires WellKept(acts)
    ensures WellKept(Step(acts, e))
  {
    if e.Creates? {
      CreateWellKept(acts, e);
    } else if !e.Removes? {
      hide Step;
      OtherStepsRewrite(acts, e);
    }
  }

  lemma {:induction false} EveryRunWellKept(tr: seq<Event>)
    ensures WellKept(After(tr))
  {
    hide Step, WellKept;
    if tr == [] {
      NothingYet();
    } else {
      EveryRunWellKept(tr[..|tr| - 1]);
      StepWellKept(After(tr[..|tr| - 1]), tr[|tr| - 1]);
    }
  }

  lemma NothingYet()
    ensures WellKept(map[])
  {
  }

  // ---- The deadline of an action ----

  /** The deadline, if any, is not before the start. */
  predicate WellDated(acts: Actions, id: string) {
    id in acts && acts[id].lmsDeadline.Some? ==> acts[id].start <= acts[id].lmsDeadline.value
  }

  /** An import whose date lies before the start of the action. */
  predicate Spoils(acts: Actions, e: Event, id: string) {
    && e.Imports? && e.id == id && id in acts
    && var d := ImportedDeadline(e.given, e.modules); d.Some? && d.value < acts[id].start
  }

  /** An import of a date from the start on, an accepted edit, or a removal. */
  predicate Redates(acts: Actions, e: Event, id: string) {
    && e.id == id && id in acts
    && match e
       case Imports(_, given, modules) => ImportedDeadline(given, modules).Some? && !Spoils(acts, e, id)
       case Updates(_, edit) => Update(acts, id, edit).Ok?
       case Removes(_, n, m) => Remove(acts, id, n, m).Ok?
       case _ => false
  }

  lemma StepWellDated(acts: Actions, e: Event, id: string)
    ensures WellDated(Step(acts, e), id) <==>
            !Spoils(acts, e, id) && (WellDated(acts, id) || Redates(acts, e, id))
  {
    hide Ready, Trim, CodeUsed, ImportedDeadline;
  }

  /** The i-th call brought a date before the start, and none since has put it right. */
  predicate SpoiltSince(tr: seq<Event>, id: string, i: int) {
    && 0 <= i < |tr| && Spoils(After(tr[..i]), tr[i], id)
    && forall j :: i < j < |tr| ==> !Redates(After(tr[..j]), tr[j], id)
  }

  lemma SpoiltStep(tr: seq<Event>, id: string)
    requires tr != []
    ensures var (front, e) := (tr[..|tr| - 1], tr[|tr| - 1]);
            (exists i :: SpoiltSince(tr, id, i)) <==>
            Spoils(After(front), e, id) || ((exists i :: SpoiltSince(front, id, i)) && !Redates(After(front), e, id))
  {
    hide Spoils, Redates, After;
    var n := |tr| - 1;
    var front := tr[..n];
    assert forall j :: 0 <= j <= n ==> front[..j] == tr[..j];
    if Spoils(After(front), tr[n], id) {
      assert SpoiltSince(tr, id, n);
    }
    forall i | 0 <= i < n
      ensures SpoiltSince(tr, id, i) <==> SpoiltSince(front, id, i) && !Redates(After(front), tr[n], id)
    {
      if SpoiltSince(tr, id, i) {
        assert forall j :: i < j < n ==> front[j] == tr[j];
      }
    }
    if i :| SpoiltSince(front, id, i) && !Redates(After(front), tr[n], id) {
      assert SpoiltSince(tr, id, i);
    }
  }

  /**
   At the end of a run the deadline of an action is not before its start exactly when no schedule
   import brought a date before the start that no later import, accepted edit or removal has put right.
   */
  lemma {:induction false} WellDatedIff(tr: seq<Event>, id: string)
    ensures WellDated(After(tr), id) <==> !exists i :: SpoiltSince(tr, id, i)
  {
    hide Step, Spoils, Redates;
    if tr == [] {
    } else {
      var n := |tr| - 1;
      WellDatedIff(tr[..n], id);
      StepWellDated(After(tr[..n]), tr[n], id);
      NotBoth(After(tr[..n]), tr[n], id);
      SpoiltStep(tr, id);
      hide SpoiltSince, WellDated;
    }
  }

  lemma NotBoth(acts: Actions, e: Event, id: string)
    ensures !(Spoils(acts, e, id) && Redates(acts, e, id))
  {
  }

  // ---- Conclusion ----

  predicate IsConcluded(acts: Actions, id: string) { id in acts && acts[id].state == Concluded }

  /** One call never undoes a conclusion, and only the dedicated one brings it about. */
  lemma StepConclusion(acts: Actions, e: Event, id: string)
    ensures IsConcluded(acts, id) ==> IsConcluded(Step(acts, e), id)
    ensures !IsConcluded(acts, id) && IsConcluded(Step(acts, e), id) ==>
              e.Concludes? && e.id == id && id in acts && Ready(e.facts, acts[id].state)
  {
    hide Ready, Trim, CodeUsed, ImportedDeadline;
  }

  /** A concluded action stays, concluded, for the rest of the run. */
  lemma {:induction false} ConcludedForever(tr: seq<Event>, i: nat, id: string)
    requires i <= |tr| && IsConcluded(After(tr[..i]), id)
    ensures IsConcluded(After(tr), id)
  {
    if i == |tr| {
      assert tr[..i] == tr;
    } else {
      hide Step;
      assert tr[..|tr| - 1][..i] == tr[..i];
      ConcludedForever(tr[..|tr| - 1], i, id);
      StepConclusion(After(tr[..|tr| - 1]), tr[|tr| - 1], id);
    }
  }

  lemma NoneConcluded(id: string)
    ensures !IsConcluded(After([]), id)
  {
  }

  /** The action becomes concluded in the i-th call of the run. */
  predicate ConcludedAt(tr: seq<Event>, i: nat, id: string)
    requires i < |tr|
  {
    !IsConcluded(After(tr[..i]), id) && IsConcluded(After(tr[..i + 1]), id)
  }

  /**
   An action is concluded at the end of a run exactly when some call of the run concluded it,
   and that call was the dedicated one, on a running action with nothing missing.
   */
  lemma {:induction false} ConcludedOnlyWhenReady(tr: seq<Event>, id: string)
    ensures IsConcluded(After(tr), id) <==> exists i :: 0 <= i < |tr| && ConcludedAt(tr, i, id)
    ensures forall i :: 0 <= i < |tr| && ConcludedAt(tr, i, id) ==>
              && tr[i].Concludes? && tr[i].id == id
              && id in After(tr[..i]) && Ready(tr[i].facts, After(tr[..i])[id].state)
  {
    hide Step, Ready, IsConcluded;
    forall i | 0 <= i < |tr| && ConcludedAt(tr, i, id)
      ensures tr[i].Concludes? && tr[i].id == id && id in After(tr[..i]) && Ready(tr[i].facts, After(tr[..i])[id].state)
      ensures IsConcluded(After(tr), id)
    {
      assert tr[..i + 1][..i] == tr[..i];
      StepConclusion(After(tr[..i]), tr[i], id);
      ConcludedForever(tr, i + 1, id);
    }
    if tr != [] {
      var front := tr[..|tr| - 1];
      ConcludedOnlyWhenReady(front, id);
      assert tr[..|tr|] == tr;
      if IsConcluded(After(front), id) {
        var i :| 0 <= i < |front| && ConcludedAt(front, i, id);
        assert front[..i] == tr[..i] && front[..i + 1] == tr[..i + 1];
        assert ConcludedAt(tr, i, id);
      } else if IsConcluded(After(tr), id) {
        assert ConcludedAt(tr, |tr| - 1, id);
      }
    } else {
      NoneConcluded(id);
    }
  }
}
