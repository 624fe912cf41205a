/**
 What keeps a training action from being concluded: the collector that walks the schedule,
 enrolments, grades, documents and compliance of the action and lists what is missing.
 */
module ActionConclusion {
  import opened Wrappers

  datatype ActionState = Planned | Running | Concluded | Cancelled

  datatype SessionState = Held | Pending | CalledOff

  datatype Summary = Summary(immutable: bool, signed: bool, length: nat)

  datatype Sheet = Sheet(group: string, closed: bool, validated: bool, approved: bool)

  /** `summaries` come newest first. */
  datatype Session = Session(id: string, state: SessionState, trainer: Option<string>,
                             summaries: seq<Summary>, sheets: seq<Sheet>)

  datatype Schedule = Schedule(version: int, approved: bool, sessions: seq<Session>)

  datatype Group = Group(id: string, activeEnrolments: nat)

  datatype EnrolmentDoc = EnrolmentDoc(category: string, accepted: bool, acceptedAt: bool)

  /** `consent`: none without a user account, else whether the user accepted. */
  datatype Enrolment = Enrolment(id: string, trainee: string, consent: Option<bool>,
                                 docs: seq<EnrolmentDoc>, personalDocsComplete: bool)

  datatype Trainer = Trainer(consent: bool, docsComplete: bool)

  datatype Grade = Grade(enrolment: string, kind: string)

  /** Everything the collector reads about one action. */
  datatype Facts = Facts(
    schedules: seq<Schedule>,
    groups: seq<Group>,
    enrolments: seq<Enrolment>,
    tasks: seq<string>,
    progress: map<(string, string), bool>,
    modules: seq<string>,
    grades: seq<Grade>,
    requiredCategories: seq<string>,
    trainers: map<string, Trainer>,
    complianceReady: bool)

  datatype BlockerId =
    | IsCancelled | NotRunning | NoSchedule | ScheduleUnapproved | NoSessions | SessionsPending
    | SummaryMissing(session: string) | SummaryUnsigned(session: string) | SheetOpen(session: string, group: string)
    | TasksMissing(enrolment: string) | GradesMissing
    | ConsentMissing(enrolment: string) | EnrolmentDocMissing(enrolment: string, category: string)
    | PersonalDocsMissing(trainee: string)
    | TrainerConsentMissing(trainer: string) | TrainerDocsMissing(trainer: string)
    | ComplianceIncomplete

  /** `shown`: the number the label quotes, 0 when it quotes none. */
  datatype Blocker = Blocker(id: BlockerId, shown: nat)

  const MAX_BLOCKERS := 40

  function Ids(bs: seq<Blocker>): set<BlockerId> { set b | b in bs :: b.id }

  lemma IdsConcat(a: seq<Blocker>, b: seq<Blocker>)
    ensures Ids(a + b) == Ids(a) + Ids(b)
    ensures Ids([]) == {}
  {
  }

  lemma IdsOne(a: seq<Blocker>, b: Blocker)
    ensures Ids(a + [b]) == Ids(a) + {b.id}
  {
    IdsConcat(a, [b]);
  }

  // ---- The data the collector looks at ----

  /** The schedule with the highest version; the first of them on a tie. */
  function Latest(ss: seq<Schedule>): (r: Option<Schedule>)
    ensures r.Some? <==> ss != []
  {
    if ss == [] then None else
      var rest := Latest(ss[..|ss| - 1]);
      if rest.None? || ss[|ss| - 1].version > rest.value.version then Some(ss[|ss| - 1]) else rest
  }

  function NotCalledOff(ss: seq<Session>): (kept: seq<Session>)
    ensures forall s :: s in kept <==> s in ss && s.state != CalledOff
  {
    if ss == [] then [] else
      assert ss == ss[..|ss| - 1] + [ss[|ss| - 1]];
      NotCalledOff(ss[..|ss| - 1]) + if ss[|ss| - 1].state != CalledOff then [ss[|ss| - 1]] else []
  }

  function Sessions(f: Facts): seq<Session> {
    match Latest(f.schedules)
    case None => []
    case Some(s) => NotCalledOff(s.sessions)
  }

  function FindSheet(sheets: seq<Sheet>, group: string): (r: Option<Sheet>)
    ensures r.Some? ==> r.value in sheets && r.value.group == group
    ensures r.None? ==> forall x :: x in sheets ==> x.group != group
  {
    if sheets == [] then None
    else if sheets[0].group == group then Some(sheets[0])
    else FindSheet(sheets[1..], group)
  }

  predicate SheetDone(s: Session, group: string) {
    var x := FindSheet(s.sheets, group);
    x.Some? && (x.value.closed || (x.value.validated && x.value.approved))
  }

  predicate SummaryAbsent(s: Session) {
    s.summaries == [] || (!s.summaries[0].immutable && s.summaries[0].length < 10)
  }

  predicate SummaryDone(s: Session) {
    s.summaries != [] && s.summaries[0].immutable && s.summaries[0].signed
  }

  predicate TaskDone(f: Facts, enrolment: string, task: string) {
    (enrolment, task) in f.progress && f.progress[(enrolment, task)]
  }

  function GradeKind(mod: string): string { "pauta:" + mod }

  predicate Graded(f: Facts, enrolment: string, mod: string) {
    Grade(enrolment, GradeKind(mod)) in f.grades
  }

  function FindDoc(docs: seq<EnrolmentDoc>, category: string): (r: Option<EnrolmentDoc>)
    ensures r.Some? ==> r.value in docs && r.value.category == category
    ensures r.None? ==> forall d :: d in docs ==> d.category != category
  {
    if docs == [] then None
    else if docs[0].category == category then Some(docs[0])
    else FindDoc(docs[1..], category)
  }

  predicate DocDelivered(m: Enrolment, category: string) {
    var d := FindDoc(m.docs, category);
    d.Some? && (d.value.accepted || d.value.acceptedAt)
  }

  /** The category is the first required one the enrolment lacks. */
  predicate FirstLacking(m: Enrolment, categories: seq<string>, c: string) {
    exists i :: 0 <= i < |categories| && categories[i] == c && !DocDelivered(m, c)
                && forall j :: 0 <= j < i ==> DocDelivered(m, categories[j])
  }

  /** Ids are UUIDs: no colon, and the published tasks are distinct rows. */
  predicate WellKeyed(f: Facts) {
    && (forall m :: m in f.enrolments ==> ':' !in m.id)
    && (forall g :: g in f.grades ==> ':' !in g.enrolment)
    && (forall i, j :: 0 <= i < j < |f.tasks| ==> f.tasks[i] != f.tasks[j])
  }

  // ---- What is missing, as a set ----

  function ScheduleGaps(f: Facts): set<BlockerId> {
    (if f.schedules == [] then {NoSchedule}
     else if !Latest(f.schedules).value.approved then {ScheduleUnapproved} else {})
    + (if Sessions(f) == [] then {NoSessions} else {})
    + (if exists s :: s in Sessions(f) && s.state != Held then {SessionsPending} else {})
  }

  function SummaryGap(s: Session): set<BlockerId> {
    if SummaryAbsent(s) then {SummaryMissing(s.id)}
    else if !SummaryDone(s) then {SummaryUnsigned(s.id)}
    else {}
  }

  function SheetGaps(s: Session, groups: seq<Group>): set<BlockerId> {
    set g | g in groups && g.activeEnrolments > 0 && !SheetDone(s, g.id) :: SheetOpen(s.id, g.id)
  }

  function HeldGaps(s: Session, groups: seq<Group>): set<BlockerId> { SummaryGap(s) + SheetGaps(s, groups) }

  function SessionGaps(ss: seq<Session>, groups: seq<Group>): set<BlockerId> {
    set s, b | s in ss && s.state == Held && b in HeldGaps(s, groups) :: b
  }

  function TaskGaps(f: Facts, ms: seq<Enrolment>): set<BlockerId> {
    set m | m in ms && (exists t :: t in f.tasks && !TaskDone(f, m.id, t)) :: TasksMissing(m.id)
  }

  function GradeGaps(f: Facts): set<BlockerId> {
    if exists m, x :: m in f.enrolments && x in f.modules && !Graded(f, m.id, x) then {GradesMissing} else {}
  }

  function DocGaps(m: Enrolment, categories: seq<string>): set<BlockerId> {
    (if m.consent == Some(false) then {ConsentMissing(m.id)} else {})
    + (set c | c in categories && FirstLacking(m, categories, c) :: EnrolmentDocMissing(m.id, c))
    + (if !m.personalDocsComplete then {PersonalDocsMissing(m.trainee)} else {})
  }

  function EnrolmentGaps(ms: seq<Enrolment>, categories: seq<string>): set<BlockerId> {
    set m, b | m in ms && b in DocGaps(m, categories) :: b
  }

  function TrainerGap(f: Facts, id: string): set<BlockerId> {
    if id !in f.trainers then {}
    else (if !f.trainers[id].consent then {TrainerConsentMissing(id)} else {})
         + (if !f.trainers[id].docsComplete then {TrainerDocsMissing(id)} else {})
  }

  function TrainerGaps(f: Facts, ss: seq<Session>): set<BlockerId> {
    set s, b | s in ss && s.trainer.Some? && b in TrainerGap(f, s.trainer.value) :: b
  }

  function Gaps(f: Facts, state: ActionState): set<BlockerId> {
    (if state != Running then {NotRunning} else {})
    + ScheduleGaps(f) + SessionGaps(Sessions(f), f.groups) + TaskGaps(f, f.enrolments) + GradeGaps(f)
    + EnrolmentGaps(f.enrolments, f.requiredCategories) + TrainerGaps(f, Sessions(f))
    + (if !f.complianceReady then {ComplianceIncomplete} else {})
  }

  /** Nothing is missing, part by part. */
  predicate Complete(f: Facts, state: ActionState) {
    && state == Running
    && f.schedules != [] && Latest(f.schedules).value.approved
    && Sessions(f) != []
    && (forall s :: s in Sessions(f) ==> s.state == Held && SummaryDone(s))
    && (forall s, g :: s in Sessions(f) && g in f.groups && g.activeEnrolments > 0 ==> SheetDone(s, g.id))
    && (forall m, t :: m in f.enrolments && t in f.tasks ==> TaskDone(f, m.id, t))
    && (forall m, x :: m in f.enrolments && x in f.modules ==> Graded(f, m.id, x))
    && (forall m :: m in f.enrolments ==> m.consent != Some(false) && m.personalDocsComplete)
    && (forall m, c :: m in f.enrolments && c in f.requiredCategories ==> DocDelivered(m, c))
    && (forall s :: s in Sessions(f) && s.trainer.Some? && s.trainer.value in f.trainers ==>
          f.trainers[s.trainer.value].consent && f.trainers[s.trainer.value].docsComplete)
    && f.complianceReady
  }

  lemma SessionGapsIff(ss: seq<Session>, groups: seq<Group>)
    requires forall s :: s in ss ==> s.state == Held
    ensures SessionGaps(ss, groups) == {} <==>
            && (forall s :: s in ss ==> SummaryDone(s))
            && (forall s, g :: s in ss && g in groups && g.activeEnrolments > 0 ==> SheetDone(s, g.id))
  {
    var gaps := SessionGaps(ss, groups);
    if gaps == {} {
      forall s | s in ss
        ensures SummaryDone(s) && forall g :: g in groups && g.activeEnrolments > 0 ==> SheetDone(s, g.id)
      {
        assert forall b :: b in HeldGaps(s, groups) ==> b in gaps;
        assert SummaryMissing(s.id) !in HeldGaps(s, groups) && SummaryUnsigned(s.id) !in HeldGaps(s, groups);
        assert forall g :: g in groups ==> SheetOpen(s.id, g.id) !in SheetGaps(s, groups);
      }
    }
  }

  lemma {:induction false} SomeCategoryLacking(m: Enrolment, categories: seq<string>, n: nat)
    requires n <= |categories|
    ensures (exists i :: 0 <= i < n && !DocDelivered(m, categories[i])) ==>
              exists c :: c in categories && FirstLacking(m, categories, c)
  {
    if n == 0 {
    } else {
      SomeCategoryLacking(m, categories, n - 1);
      if !(exists i :: 0 <= i < n - 1 && !DocDelivered(m, categories[i])) && !DocDelivered(m, categories[n - 1]) {
        assert FirstLacking(m, categories, categories[n - 1]);
      }
    }
  }

  lemma EnrolmentGapsIff(ms: seq<Enrolment>, categories: seq<string>)
    ensures EnrolmentGaps(ms, categories) == {} <==>
            && (forall m :: m in ms ==> m.consent != Some(false) && m.personalDocsComplete)
            && (forall m, c :: m in ms && c in categories ==> DocDelivered(m, c))
  {
    var gaps := EnrolmentGaps(ms, categories);
    if gaps == {} {
      forall m | m in ms
        ensures m.consent != Some(false) && m.personalDocsComplete && forall c :: c in categories ==> DocDelivered(m, c)
      {
        assert forall b :: b in DocGaps(m, categories) ==> b in gaps;
        assert ConsentMissing(m.id) !in DocGaps(m, categories) && PersonalDocsMissing(m.trainee) !in DocGaps(m, categories);
        assert forall c :: c in categories ==> EnrolmentDocMissing(m.id, c) !in DocGaps(m, categories);
        SomeCategoryLacking(m, categories, |categories|);
      }
    } else {
      var m, b :| m in ms && b in DocGaps(m, categories);
    }
  }

  lemma TrainerGapsIff(f: Facts, ss: seq<Session>)
    ensures TrainerGaps(f, ss) == {} <==>
            forall s :: s in ss && s.trainer.Some? && s.trainer.value in f.trainers ==>
              f.trainers[s.trainer.value].consent && f.trainers[s.trainer.value].docsComplete
  {
    var gaps := TrainerGaps(f, ss);
    if gaps == {} {
      forall s | s in ss && s.trainer.Some? && s.trainer.value in f.trainers
        ensures f.trainers[s.trainer.value].consent && f.trainers[s.trainer.value].docsComplete
      {
        var id := s.trainer.value;
        assert forall b :: b in TrainerGap(f, id) ==> b in gaps;
        assert TrainerConsentMissing(id) !in TrainerGap(f, id) && TrainerDocsMissing(id) !in TrainerGap(f, id);
      }
    } else {
      var s, b :| s in ss && s.trainer.Some? && b in TrainerGap(f, s.trainer.value);
    }
  }

  lemma TaskGapsIff(f: Facts, ms: seq<Enrolment>)
    ensures TaskGaps(f, ms) == {} <==> forall m, t :: m in ms && t in f.tasks ==> TaskDone(f, m.id, t)
  {
    forall m, t | TaskGaps(f, ms) == {} && m in ms && t in f.tasks
      ensures TaskDone(f, m.id, t)
    {
      assert TasksMissing(m.id) !in TaskGaps(f, ms);
    }
  }

  lemma NoGapsIffComplete(f: Facts, state: ActionState)
    ensures Gaps(f, state) == {} <==> Complete(f, state)
  {
    if forall s :: s in Sessions(f) ==> s.state == Held {
      SessionGapsIff(Sessions(f), f.groups);
    } else {
      assert SessionsPending in Gaps(f, state);
    }
    EnrolmentGapsIff(f.enrolments, f.requiredCategories);
    TrainerGapsIff(f, Sessions(f));
    TaskGapsIff(f, f.enrolments);
    hide SessionGaps, EnrolmentGaps, TrainerGaps, TaskGaps, Sessions, Latest, SummaryDone, SheetDone, DocDelivered, Graded, TaskDone;
  }
}
