/** What it takes to conclude an action, and what each gap stands for, over the fields of the rows. */
module ActionReadiness {
  import opened Wrappers
  import opened ActionConclusion

  /** The k-th schedule has the highest version, and is the first that has it. */
  predicate FirstHighest(ss: seq<Schedule>, k: int) {
    && 0 <= k < |ss|
    && (forall j :: 0 <= j < |ss| ==> ss[j].version <= ss[k].version)
    && (forall j :: 0 <= j < k ==> ss[j].version < ss[k].version)
  }

  /** The i-th sheet is the first one of the group. */
  predicate FirstSheet(sheets: seq<Sheet>, group: string, i: int) {
    0 <= i < |sheets| && sheets[i].group == group && forall j :: 0 <= j < i ==> sheets[j].group != group
  }

  /** The i-th document is the first one of the category. */
  predicate FirstDoc(docs: seq<EnrolmentDoc>, category: string, i: int) {
    0 <= i < |docs| && docs[i].category == category && forall j :: 0 <= j < i ==> docs[j].category != category
  }

  /** The group's sheet is closed, or validated by the trainer and approved by the manager. */
  predicate SheetSettled(s: Session, group: string) {
    exists i :: 0 <= i < |s.sheets| && FirstSheet(s.sheets, group, i)
      && (s.sheets[i].closed || (s.sheets[i].validated && s.sheets[i].approved))
  }

  predicate DocSettled(m: Enrolment, category: string) {
    exists i :: 0 <= i < |m.docs| && FirstDoc(m.docs, category, i) && (m.docs[i].accepted || m.docs[i].acceptedAt)
  }

  predicate SessionReady(f: Facts, s: Session) {
    && s.state == Held
    && s.summaries != [] && s.summaries[0].immutable && s.summaries[0].signed
    && (forall g :: g in f.groups && g.activeEnrolments > 0 ==> SheetSettled(s, g.id))
    && (s.trainer.Some? && s.trainer.value in f.trainers ==>
          f.trainers[s.trainer.value].consent && f.trainers[s.trainer.value].docsComplete)
  }

  predicate EnrolmentReady(f: Facts, m: Enrolment) {
    && m.consent != Some(false) && m.personalDocsComplete
    && (forall t :: t in f.tasks ==> (m.id, t) in f.progress && f.progress[(m.id, t)])
    && (forall x :: x in f.modules ==> exists g :: g in f.grades && g.enrolment == m.id && g.kind == "pauta:" + x)
    && (forall c :: c in f.requiredCategories ==> DocSettled(m, c))
  }

  predicate ScheduleReady(f: Facts, sch: Schedule) {
    && sch.approved
    && (exists s :: s in sch.sessions && s.state != CalledOff)
    && (forall s :: s in sch.sessions && s.state != CalledOff ==> SessionReady(f, s))
  }

  /** The action may be concluded. */
  predicate Ready(f: Facts, state: ActionState) {
    && state == Running && f.complianceReady
    && (exists k :: 0 <= k < |f.schedules| && FirstHighest(f.schedules, k) && ScheduleReady(f, f.schedules[k]))
    && (forall m :: m in f.enrolments ==> EnrolmentReady(f, m))
  }

  /** The session belongs to the latest schedule and was not called off. */
  predicate Counts(f: Facts, s: Session) {
    exists k :: 0 <= k < |f.schedules| && FirstHighest(f.schedules, k) && s in f.schedules[k].sessions && s.state != CalledOff
  }

  predicate NoSummary(s: Session) { s.summaries == [] || (!s.summaries[0].immutable && s.summaries[0].length < 10) }

  /** What a session that was held can lack. */
  predicate SessionLacks(f: Facts, s: Session, b: BlockerId) {
    match b
    case SummaryMissing(x) => s.id == x && NoSummary(s)
    case SummaryUnsigned(x) => s.id == x && !NoSummary(s) && !(s.summaries[0].immutable && s.summaries[0].signed)
    case SheetOpen(x, y) =>
      s.id == x && (exists g :: g in f.groups && g.id == y && g.activeEnrolments > 0) && !SheetSettled(s, y)
    case _ => false
  }

  /** What an enrolment can lack; of the documents only the first one is named. */
  predicate EnrolmentLacks(f: Facts, m: Enrolment, b: BlockerId) {
    match b
    case ConsentMissing(x) => m.id == x && m.consent == Some(false)
    case EnrolmentDocMissing(x, c) =>
      m.id == x && exists i :: 0 <= i < |f.requiredCategories| && FirstUnsettled(m, f.requiredCategories, i) && f.requiredCategories[i] == c
    case PersonalDocsMissing(x) => m.trainee == x && !m.personalDocsComplete
    case _ => false
  }

  predicate TrainerLacks(f: Facts, id: string, b: BlockerId) {
    && id in f.trainers
    && match b
       case TrainerConsentMissing(x) => x == id && !f.trainers[id].consent
       case TrainerDocsMissing(x) => x == id && !f.trainers[id].docsComplete
       case _ => false
  }

  /** What each gap stands for. */
  ghost predicate IsGap(f: Facts, state: ActionState, b: BlockerId) {
    match b
    case IsCancelled => false
    case NotRunning => state != Running
    case NoSchedule => f.schedules == []
    case ScheduleUnapproved => exists k :: FirstHighest(f.schedules, k) && !f.schedules[k].approved
    case NoSessions => forall s :: !Counts(f, s)
    case SessionsPending => exists s :: Counts(f, s) && s.state == Pending
    case SummaryMissing(_) => exists s :: Counts(f, s) && s.state == Held && SessionLacks(f, s, b)
    case SummaryUnsigned(_) => exists s :: Counts(f, s) && s.state == Held && SessionLacks(f, s, b)
    case SheetOpen(_, _) => exists s :: Counts(f, s) && s.state == Held && SessionLacks(f, s, b)
    case TasksMissing(x) =>
      exists m, t :: m in f.enrolments && m.id == x && t in f.tasks && !((x, t) in f.progress && f.progress[(x, t)])
    case GradesMissing =>
      exists m, x :: m in f.enrolments && x in f.modules
                     && forall g :: g in f.grades ==> !(g.enrolment == m.id && g.kind == "pauta:" + x)
    case ConsentMissing(_) => exists m :: m in f.enrolments && EnrolmentLacks(f, m, b)
    case EnrolmentDocMissing(_, _) => exists m :: m in f.enrolments && EnrolmentLacks(f, m, b)
    case PersonalDocsMissing(_) => exists m :: m in f.enrolments && EnrolmentLacks(f, m, b)
    case TrainerConsentMissing(_) => exists s :: Counts(f, s) && s.trainer.Some? && TrainerLacks(f, s.trainer.value, b)
    case TrainerDocsMissing(_) => exists s :: Counts(f, s) && s.trainer.Some? && TrainerLacks(f, s.trainer.value, b)
    case ComplianceIncomplete => !f.complianceReady
  }

  predicate FirstUnsettled(m: Enrolment, categories: seq<string>, i: int) {
    0 <= i < |categories| && !DocSettled(m, categories[i]) && forall j :: 0 <= j < i ==> DocSettled(m, categories[j])
  }

  lemma {:induction false} LatestIndex(ss: seq<Schedule>) returns (k: int)
    requires ss != []
    ensures FirstHighest(ss, k) && Latest(ss) == Some(ss[k])
  {
    var n := |ss| - 1;
    var front := ss[..n];
    if front == [] {
      assert Latest(front) == None;
      k := 0;
    } else {
      k := LatestIndex(front);
      assert forall j :: 0 <= j < n ==> front[j] == ss[j];
      if ss[n].version > ss[k].version {
        k := n;
      }
    }
  }

  lemma {:induction false} SheetFound(sheets: seq<Sheet>, group: string) returns (i: int)
    ensures FindSheet(sheets, group).Some? <==> FirstSheet(sheets, group, i)
    ensures FindSheet(sheets, group).Some? ==> FindSheet(sheets, group).value == sheets[i]
    ensures FindSheet(sheets, group).None? ==> forall j :: !FirstSheet(sheets, group, j)
  {
    if sheets == [] || sheets[0].group == group {
      i := 0;
    } else {
      i := SheetFound(sheets[1..], group);
      i := i + 1;
      assert forall j :: 1 <= j < |sheets| ==> sheets[j] == sheets[1..][j - 1];
    }
  }

  lemma {:induction false} DocFound(docs: seq<EnrolmentDoc>, category: string) returns (i: int)
    ensures FindDoc(docs, category).Some? <==> FirstDoc(docs, category, i)
    ensures FindDoc(docs, category).Some? ==> FindDoc(docs, category).value == docs[i]
    ensures FindDoc(docs, category).None? ==> forall j :: !FirstDoc(docs, category, j)
  {
    if docs == [] || docs[0].category == category {
      i := 0;
    } else {
      i := DocFound(docs[1..], category);
      i := i + 1;
      assert forall j :: 1 <= j < |docs| ==> docs[j] == docs[1..][j - 1];
    }
  }

  lemma SheetDoneIff(s: Session, group: string)
    ensures SheetDone(s, group) <==> SheetSettled(s, group)
  {
    var i := SheetFound(s.sheets, group);
    hide FindSheet;
    assert forall j :: FirstSheet(s.sheets, group, j) && FirstSheet(s.sheets, group, i) ==> j == i;
  }

  lemma DocDeliveredIff(m: Enrolment, category: string)
    ensures DocDelivered(m, category) <==> DocSettled(m, category)
  {
    var i := DocFound(m.docs, category);
    hide FindDoc;
    assert forall j :: FirstDoc(m.docs, category, j) && FirstDoc(m.docs, category, i) ==> j == i;
  }

  lemma GradedIff(f: Facts, enrolment: string, mod: string)
    ensures Graded(f, enrolment, mod) <==> exists g :: g in f.grades && g.enrolment == enrolment && g.kind == "pauta:" + mod
  {
    if g :| g in f.grades && g.enrolment == enrolment && g.kind == "pauta:" + mod {
      assert g == Grade(enrolment, GradeKind(mod));
    }
  }

  /** The sessions looked at are those of the latest schedule that were not called off. */
  lemma SessionsCount(f: Facts, s: Session)
    ensures s in Sessions(f) <==> Counts(f, s)
  {
    if f.schedules != [] {
      var k := LatestIndex(f.schedules);
      assert forall j :: FirstHighest(f.schedules, j) ==> j == k;
      hide Latest, FirstHighest;
    }
  }

  lemma SessionPart(f: Facts, s: Session)
    ensures SessionReady(f, s) <==>
            && s.state == Held && SummaryDone(s)
            && (forall g :: g in f.groups && g.activeEnrolments > 0 ==> SheetDone(s, g.id))
            && (s.trainer.Some? && s.trainer.value in f.trainers ==>
                  f.trainers[s.trainer.value].consent && f.trainers[s.trainer.value].docsComplete)
  {
    forall g | g in f.groups
      ensures SheetDone(s, g.id) <==> SheetSettled(s, g.id)
    {
      SheetDoneIff(s, g.id);
    }
    hide SheetDone, SheetSettled;
  }

  lemma EnrolmentPart(f: Facts, m: Enrolment)
    ensures EnrolmentReady(f, m) <==>
            && m.consent != Some(false) && m.personalDocsComplete
            && (forall t :: t in f.tasks ==> TaskDone(f, m.id, t))
            && (forall x :: x in f.modules ==> Graded(f, m.id, x))
            && (forall c :: c in f.requiredCategories ==> DocDelivered(m, c))
  {
    forall x | x in f.modules
      ensures Graded(f, m.id, x) <==> exists g :: g in f.grades && g.enrolment == m.id && g.kind == "pauta:" + x
    {
      GradedIff(f, m.id, x);
    }
    forall c | c in f.requiredCategories
      ensures DocDelivered(m, c) <==> DocSettled(m, c)
    {
      DocDeliveredIff(m, c);
    }
    hide Graded, DocDelivered, DocSettled;
  }

  lemma SchedulePart(f: Facts)
    ensures (exists k :: 0 <= k < |f.schedules| && FirstHighest(f.schedules, k) && ScheduleReady(f, f.schedules[k])) <==>
            && f.schedules != [] && Latest(f.schedules).value.approved
            && Sessions(f) != [] && (forall s :: s in Sessions(f) ==> SessionReady(f, s))
  {
    hide SessionReady;
    if f.schedules != [] {
      var k := LatestIndex(f.schedules);
      assert forall j :: FirstHighest(f.schedules, j) ==> j == k;
      hide Latest, FirstHighest;
      var kept := Sessions(f);
      assert kept != [] ==> kept[0] in kept;
    }
  }

  lemma CompleteIffReady(f: Facts, state: ActionState)
    ensures Complete(f, state) <==> Ready(f, state)
  {
    SchedulePart(f);
    forall s
      ensures SessionReady(f, s) <==>
              && s.state == Held && SummaryDone(s)
              && (forall g :: g in f.groups && g.activeEnrolments > 0 ==> SheetDone(s, g.id))
              && (s.trainer.Some? && s.trainer.value in f.trainers ==>
                    f.trainers[s.trainer.value].consent && f.trainers[s.trainer.value].docsComplete)
    {
      SessionPart(f, s);
    }
    forall m
      ensures EnrolmentReady(f, m) <==>
              && m.consent != Some(false) && m.personalDocsComplete
              && (forall t :: t in f.tasks ==> TaskDone(f, m.id, t))
              && (forall x :: x in f.modules ==> Graded(f, m.id, x))
              && (forall c :: c in f.requiredCategories ==> DocDelivered(m, c))
    {
      EnrolmentPart(f, m);
    }
    hide SessionReady, EnrolmentReady, ScheduleReady, FirstHighest, Latest, Sessions, SummaryDone, SheetDone, TaskDone, Graded, DocDelivered;
  }

  /** Nothing is missing exactly when the action may be concluded. */
  lemma NoGapsIffReady(f: Facts, state: ActionState)
    ensures Gaps(f, state) == {} <==> Ready(f, state)
  {
    hide *;
    NoGapsIffComplete(f, state);
    CompleteIffReady(f, state);
  }

  // ---- Each gap, over the fields ----

  lemma ApprovalGapsIff(f: Facts, state: ActionState, b: BlockerId)
    requires b == NoSchedule || b == ScheduleUnapproved
    ensures b in ScheduleGaps(f) <==> IsGap(f, state, b)
  {
    if f.schedules != [] {
      var k := LatestIndex(f.schedules);
      assert forall j :: FirstHighest(f.schedules, j) ==> j == k;
    }
    hide Latest, FirstHighest, Sessions, Counts, SessionLacks, EnrolmentLacks;
  }

  lemma PendingGapsIff(f: Facts, state: ActionState, b: BlockerId)
    requires b == NoSessions || b == SessionsPending
    ensures b in ScheduleGaps(f) <==> IsGap(f, state, b)
  {
    forall s
      ensures s in Sessions(f) <==> Counts(f, s)
      ensures Counts(f, s) ==> s.state == Held || s.state == Pending
    {
      SessionsCount(f, s);
    }
    hide Latest, FirstHighest, Sessions, Counts, SessionLacks, EnrolmentLacks;
    var kept := Sessions(f);
    assert kept != [] ==> kept[0] in kept;
  }

  lemma HeldGapsIff(f: Facts, s: Session, b: BlockerId)
    ensures b in HeldGaps(s, f.groups) <==> SessionLacks(f, s, b)
  {
    forall y: string
      ensures SheetDone(s, y) <==> SheetSettled(s, y)
    {
      SheetDoneIff(s, y);
    }
    hide SheetDone, SheetSettled;
  }

  lemma SessionGapsMember(f: Facts, state: ActionState, b: BlockerId)
    requires b.SummaryMissing? || b.SummaryUnsigned? || b.SheetOpen?
    ensures b in SessionGaps(Sessions(f), f.groups) <==> IsGap(f, state, b)
  {
    forall s
      ensures s in Sessions(f) <==> Counts(f, s)
      ensures b in HeldGaps(s, f.groups) <==> SessionLacks(f, s, b)
    {
      SessionsCount(f, s);
      HeldGapsIff(f, s, b);
    }
    hide Sessions, Counts, HeldGaps, SessionLacks, EnrolmentLacks, FirstHighest;
  }

  lemma RowGapsMember(f: Facts, state: ActionState, b: BlockerId)
    requires b.TasksMissing? || b == GradesMissing
    ensures b in TaskGaps(f, f.enrolments) + GradeGaps(f) <==> IsGap(f, state, b)
  {
    forall e: string, x: string
      ensures Graded(f, e, x) <==> exists g :: g in f.grades && g.enrolment == e && g.kind == "pauta:" + x
    {
      GradedIff(f, e, x);
    }
    hide Graded;
  }

  lemma DocGapsIff(f: Facts, m: Enrolment, b: BlockerId)
    ensures b in DocGaps(m, f.requiredCategories) <==> EnrolmentLacks(f, m, b)
  {
    forall c: string
      ensures DocDelivered(m, c) <==> DocSettled(m, c)
    {
      DocDeliveredIff(m, c);
    }
    hide DocDelivered, DocSettled;
    forall c
      ensures FirstLacking(m, f.requiredCategories, c) <==>
              exists i :: 0 <= i < |f.requiredCategories| && FirstUnsettled(m, f.requiredCategories, i) && f.requiredCategories[i] == c
      ensures FirstLacking(m, f.requiredCategories, c) ==> c in f.requiredCategories
    {
      if i :| 0 <= i < |f.requiredCategories| && f.requiredCategories[i] == c && !DocDelivered(m, c)
              && forall j :: 0 <= j < i ==> DocDelivered(m, f.requiredCategories[j]) {
        assert FirstUnsettled(m, f.requiredCategories, i);
      }
    }
    hide FirstLacking, FirstUnsettled;
  }

  lemma EnrolmentGapsMember(f: Facts, state: ActionState, b: BlockerId)
    requires b.ConsentMissing? || b.EnrolmentDocMissing? || b.PersonalDocsMissing?
    ensures b in EnrolmentGaps(f.enrolments, f.requiredCategories) <==> IsGap(f, state, b)
  {
    forall m
      ensures b in DocGaps(m, f.requiredCategories) <==> EnrolmentLacks(f, m, b)
    {
      DocGapsIff(f, m, b);
    }
    hide DocGaps, SessionLacks, EnrolmentLacks, FirstHighest, Counts;
  }

  lemma TrainerGapsMember(f: Facts, state: ActionState, b: BlockerId)
    requires b.TrainerConsentMissing? || b.TrainerDocsMissing?
    ensures b in TrainerGaps(f, Sessions(f)) <==> IsGap(f, state, b)
  {
    forall s
      ensures s in Sessions(f) <==> Counts(f, s)
    {
      SessionsCount(f, s);
    }
    assert forall id :: b in TrainerGap(f, id) <==> TrainerLacks(f, id, b);
    hide Sessions, Counts, TrainerGap, TrainerLacks, SessionLacks, EnrolmentLacks, FirstHighest;
  }

  /** The kinds of gap each part of the collector finds. */
  lemma KindsOfGaps(f: Facts, b: BlockerId)
    ensures b in ScheduleGaps(f) ==> b == NoSchedule || b == ScheduleUnapproved || b == NoSessions || b == SessionsPending
    ensures b in SessionGaps(Sessions(f), f.groups) ==> b.SummaryMissing? || b.SummaryUnsigned? || b.SheetOpen?
    ensures b in TaskGaps(f, f.enrolments) + GradeGaps(f) ==> b.TasksMissing? || b == GradesMissing
    ensures b in EnrolmentGaps(f.enrolments, f.requiredCategories) ==> b.ConsentMissing? || b.EnrolmentDocMissing? || b.PersonalDocsMissing?
    ensures b in TrainerGaps(f, Sessions(f)) ==> b.TrainerConsentMissing? || b.TrainerDocsMissing?
  {
    hide Sessions, Latest, SheetDone, DocDelivered, Graded, TaskDone, FirstLacking;
  }

  /** The gaps found are exactly what the fields say is missing. */
  lemma GapsIff(f: Facts, state: ActionState, b: BlockerId)
    ensures b in Gaps(f, state) <==> IsGap(f, state, b)
  {
    KindsOfGaps(f, b);
    hide ScheduleGaps, SessionGaps, TaskGaps, GradeGaps, EnrolmentGaps, TrainerGaps, Sessions;
    match b
    case IsCancelled =>
    case NotRunning =>
    case ComplianceIncomplete =>
    case NoSchedule => ApprovalGapsIff(f, state, b);
    case ScheduleUnapproved => ApprovalGapsIff(f, state, b);
    case NoSessions => PendingGapsIff(f, state, b);
    case SessionsPending => PendingGapsIff(f, state, b);
    case SummaryMissing(_) => SessionGapsMember(f, state, b);
    case SummaryUnsigned(_) => SessionGapsMember(f, state, b);
    case SheetOpen(_, _) => SessionGapsMember(f, state, b);
    case TasksMissing(_) => RowGapsMember(f, state, b);
    case GradesMissing => RowGapsMember(f, state, b);
    case ConsentMissing(_) => EnrolmentGapsMember(f, state, b);
    case EnrolmentDocMissing(_, _) => EnrolmentGapsMember(f, state, b);
    case PersonalDocsMissing(_) => EnrolmentGapsMember(f, state, b);
    case TrainerConsentMissing(_) => TrainerGapsMember(f, state, b);
    case TrainerDocsMissing(_) => TrainerGapsMember(f, state, b);
  }
}
