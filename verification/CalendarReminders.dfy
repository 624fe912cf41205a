/**
 Calendar reminders of meetings: tolerance windows a week, a day and an hour ahead, and a log
 that keeps a reminder from being sent twice. Times are integer milliseconds.
 */
module CalendarReminders {
  import opened Wrappers

  datatype Kind = Created | WeekBefore | DayBefore | HourOfEvent | TeamsRoom
  datatype Source = Session | Meeting

  /** One line of the reminder log: its unique key. */
  datatype Row = Row(source: Source, sourceId: string, user: string, kind: Kind)

  datatype Appointment = Appointment(id: string, tenant: string, at: int, participants: seq<string>,
                                     roles: seq<string>, creator: Option<string>)

  datatype User = User(id: string, tenant: string, active: bool, role: string)

  const MINUTE := 60_000
  const HOUR := 60 * MINUTE
  const DAY := 24 * HOUR
  const WEEK := 7 * DAY
  const BATCH := 200

  // ---- Which reminders are due ----

  function Lead(k: Kind): int {
    match k
    case WeekBefore => WEEK
    case DayBefore => DAY
    case _ => HOUR
  }

  function Tolerance(k: Kind): int {
    match k
    case WeekBefore => HOUR
    case DayBefore => 30 * MINUTE
    case _ => 10 * MINUTE
  }

  predicate Timed(k: Kind) { k == WeekBefore || k == DayBefore || k == HourOfEvent }

  /** The reminder of kind k is due `diff` before the start. */
  predicate Due(k: Kind, diff: int) {
    Timed(k) && Lead(k) - Tolerance(k) <= diff <= Lead(k) + Tolerance(k)
  }

  /** The windows in minutes: an hour around the week, half an hour around the day, ten minutes around the hour. */
  lemma DueIff(diff: int)
    ensures Due(WeekBefore, diff) <==> 10020 * 60_000 <= diff <= 10140 * 60_000
    ensures Due(DayBefore, diff) <==> 1410 * 60_000 <= diff <= 1470 * 60_000
    ensures Due(HourOfEvent, diff) <==> 50 * 60_000 <= diff <= 70 * 60_000
    ensures !Due(Created, diff) && !Due(TeamsRoom, diff)
  {
  }

  /** The kinds due, in the order they are sent; the windows never overlap. */
  function KindsDue(diff: int): (ks: seq<Kind>)
    ensures forall k :: k in ks <==> Due(k, diff)
    ensures |ks| <= 1
  {
    if Due(WeekBefore, diff) then [WeekBefore]
    else if Due(DayBefore, diff) then [DayBefore]
    else if Due(HourOfEvent, diff) then [HourOfEvent]
    else []
  }

  method TiposParaInstante(start: int, now: int) returns (out: seq<Kind>)
    ensures out == KindsDue(start - now)
  {
    out := [];
    var diff := start - now;
    if diff <= WEEK + HOUR && diff >= WEEK - HOUR { out := out + [WeekBefore]; }
    if diff <= DAY + 30 * MINUTE && diff >= DAY - 30 * MINUTE { out := out + [DayBefore]; }
    if diff <= HOUR + 10 * MINUTE && diff >= HOUR - 10 * MINUTE { out := out + [HourOfEvent]; }
  }

  // ---- Who receives them ----

  const AUDIENCE := ["COMERCIAL", "FORMADOR", "FINANCEIRO", "COORDENADOR"]

  function UserIds(users: seq<User>, keep: User -> bool): (ids: seq<string>)
    ensures forall id :: id in ids <==> exists u :: u in users && keep(u) && u.id == id
  {
    if users == [] then [] else
      var front, last := users[..|users| - 1], users[|users| - 1];
      assert users == front + [last];
      UserIds(front, keep) + if keep(last) then [last.id] else []
  }

  /** The participants, else the active members of the audience roles, and always the creator. */
  function Invited(m: Appointment, users: seq<User>): seq<string> {
    var named := if m.participants != [] then m.participants
                 else if exists r :: r in m.roles && r in AUDIENCE
                 then UserIds(users, (u: User) => u.tenant == m.tenant && u.active && u.role in m.roles && u.role in AUDIENCE)
                 else if m.creator.Some? then [m.creator.value] else [];
    if m.creator.Some? && m.creator.value !in named then [m.creator.value] + named else named
  }

  function Recipients(m: Appointment, users: seq<User>): seq<string> {
    var invited := Invited(m, users);
    UserIds(users, (u: User) => u.tenant == m.tenant && u.active && u.id in invited)
  }

  /** A member of one of the audience roles asked for. */
  predicate InAudience(m: Appointment, u: User) {
    u.role in m.roles && (u.role == "COMERCIAL" || u.role == "FORMADOR" || u.role == "FINANCEIRO" || u.role == "COORDENADOR")
  }

  /**
   Reminders go to the active users of the tenant who are the creator, or a participant, or,
   when there are no participants, members of an audience role.
   */
  lemma RecipientsIff(m: Appointment, users: seq<User>, id: string)
    requires forall u, v :: u in users && v in users && u.id == v.id ==> u == v
    ensures id in Recipients(m, users) <==>
            exists u :: u in users && u.id == id && u.tenant == m.tenant && u.active
                        && (m.creator == Some(id) || id in m.participants || (m.participants == [] && InAudience(m, u)))
  {
    assert forall r :: r in AUDIENCE <==> r == "COMERCIAL" || r == "FORMADOR" || r == "FINANCEIRO" || r == "COORDENADOR" by {
      assert |AUDIENCE| == 4 && AUDIENCE[0] == "COMERCIAL" && AUDIENCE[1] == "FORMADOR" && AUDIENCE[2] == "FINANCEIRO" && AUDIENCE[3] == "COORDENADOR";
    }
    hide UserIds, AUDIENCE;
  }

  // ---- One pass of the scheduler ----

  function Upcoming(table: seq<Appointment>, now: int): (ms: seq<Appointment>)
    ensures forall m :: m in ms <==> m in table && m.at >= now
  {
    if table == [] then [] else
      var front, last := table[..|table| - 1], table[|table| - 1];
      assert table == front + [last];
      Upcoming(front, now) + if last.at >= now then [last] else []
  }

  /** The query reads at most 200 meetings that have not started. */
  function Selected(table: seq<Appointment>, now: int): seq<Appointment> {
    var ms := Upcoming(table, now);
    if |ms| <= BATCH then ms else ms[..BATCH]
  }

  /** With at most two hundred meetings to come all of them are read; otherwise two hundred of them. */
  lemma SelectedIff(table: seq<Appointment>, now: int, m: Appointment)
    ensures |Selected(table, now)| <= 200
    ensures m in Selected(table, now) ==> m in table && m.at >= now
    ensures |Upcoming(table, now)| <= 200 ==> (m in Selected(table, now) <==> m in table && m.at >= now)
    ensures |Upcoming(table, now)| > 200 ==> |Selected(table, now)| == 200
  {
    assert m in Selected(table, now) ==> m in Upcoming(table, now);
  }

  /** The reminders of one meeting and kind, one for each user. */
  function RowsFor(m: Appointment, k: Kind, users: seq<string>): seq<Row> {
    seq(|users|, i requires 0 <= i < |users| => Row(Meeting, m.id, users[i], k))
  }

  function RowsOfKinds(m: Appointment, ks: seq<Kind>, users: seq<string>): seq<Row> {
    if ks == [] then [] else RowsOfKinds(m, ks[..|ks| - 1], users) + RowsFor(m, ks[|ks| - 1], users)
  }

  /** The reminders that one pass attempts, in order. */
  function Attempted(ms: seq<Appointment>, users: seq<User>, now: int): seq<Row> {
    if ms == [] then [] else
      var m := ms[|ms| - 1];
      Attempted(ms[..|ms| - 1], users, now) + RowsOfKinds(m, KindsDue(m.at - now), Recipients(m, users))
  }

  /** A reminder already in the log is not sent; one whose sending fails is not logged. */
  function Send(log: seq<Row>, r: Row, ok: bool): seq<Row> {
    if r in log || !ok then log else log + [r]
  }

  function SendAll(log: seq<Row>, rows: seq<Row>, ok: Row -> bool): seq<Row> {
    if rows == [] then log else
      Send(SendAll(log, rows[..|rows| - 1], ok), rows[|rows| - 1], ok(rows[|rows| - 1]))
  }

  lemma {:induction false} SendAllConcat(log: seq<Row>, a: seq<Row>, b: seq<Row>, ok: Row -> bool)
    ensures SendAll(log, a + b, ok) == SendAll(SendAll(log, a, ok), b, ok)
  {
    if b == [] {
      assert a + b == a;
    } else {
      var front := b[..|b| - 1];
      SendAllConcat(log, a, front, ok);
      assert (a + b)[..|a + b| - 1] == a + front;
    }
  }

  lemma NoneSent(log: seq<Row>, ok: Row -> bool)
    ensures SendAll(log, [], ok) == log
  {
  }

  class CalendarNotifier {
    var log: seq<Row>

    constructor ()
      ensures log == []
    {
      log := [];
    }

    /** `ok`: mail, portal notice and log insert all go through. */
    method EnviarLembrete(r: Row, ok: bool)
      modifies this
      ensures old(log) <= log && |log| <= |old(log)| + 1
      ensures r in log <==> r in old(log) || ok
      ensures forall x :: x in log && x != r ==> x in old(log)
      ensures r in old(log) ==> log == old(log)
      ensures log == Send(old(log), r, ok)
    {
      if r in log {
        return;
      }
      if ok {
        log := log + [r];
      }
    }

    method EnviarATodos(m: Appointment, k: Kind, users: seq<string>, ok: Row -> bool)
      modifies this
      ensures log == SendAll(old(log), RowsFor(m, k, users), ok)
    {
      var rows := RowsFor(m, k, users);
      for i := 0 to |users|
        invariant log == SendAll(old(log), rows[..i], ok)
      {
        EnviarLembrete(Row(Meeting, m.id, users[i], k), ok(Row(Meeting, m.id, users[i], k)));
        assert rows[..i + 1][..i] == rows[..i];
      }
      assert rows[..|users|] == rows;
    }

    method ProcessarReuniao(m: Appointment, users: seq<string>, now: int, ok: Row -> bool)
      modifies this
      ensures log == SendAll(old(log), RowsOfKinds(m, KindsDue(m.at - now), users), ok)
    {
      var kinds := TiposParaInstante(m.at, now);
      for i := 0 to |kinds|
        invariant log == SendAll(old(log), RowsOfKinds(m, kinds[..i], users), ok)
      {
        EnviarATodos(m, kinds[i], users, ok);
        assert kinds[..i + 1][..i] == kinds[..i];
        SendAllConcat(old(log), RowsOfKinds(m, kinds[..i], users), RowsFor(m, kinds[i], users), ok);
      }
      assert kinds[..|kinds|] == kinds;
    }

    method ProcessarReunioes(table: seq<Appointment>, users: seq<User>, now: int, ok: Row -> bool)
      modifies this
      ensures log == SendAll(old(log), Attempted(Selected(table, now), users, now), ok)
    {
      hide Selected, KindsDue, Recipients, RowsOfKinds, SendAll;
      var ms := Selected(table, now);
      assert SendAll(log, Attempted(ms[..0], users, now), ok) == log by { NoneSent(log, ok); }
      for i := 0 to |ms|
        invariant log == SendAll(old(log), Attempted(ms[..i], users, now), ok)
      {
        ProcessarReuniao(ms[i], Recipients(ms[i], users), now, ok);
        assert ms[..i + 1][..i] == ms[..i];
        SendAllConcat(old(log), Attempted(ms[..i], users, now),
                      RowsOfKinds(ms[i], KindsDue(ms[i].at - now), Recipients(ms[i], users)), ok);
      }
      assert ms[..|ms|] == ms;
    }
  }

  // ---- What one pass adds to the log ----

  predicate NoRepeats(log: seq<Row>) {
    forall i, j :: 0 <= i < j < |log| ==> log[i] != log[j]
  }

  lemma {:induction false} SendAllAdds(log: seq<Row>, rows: seq<Row>, ok: Row -> bool)
    ensures log <= SendAll(log, rows, ok)
    ensures NoRepeats(log) ==> NoRepeats(SendAll(log, rows, ok))
    ensures forall r :: r in SendAll(log, rows, ok) <==> r in log || (r in rows && ok(r))
  {
    if rows == [] {
    } else {
      var front, last := rows[..|rows| - 1], rows[|rows| - 1];
      assert rows == front + [last];
      SendAllAdds(log, front, ok);
    }
  }

  lemma {:induction false} RowsOfKindsIff(m: Appointment, ks: seq<Kind>, users: seq<string>, r: Row)
    ensures r in RowsOfKinds(m, ks, users) <==>
            r.source == Meeting && r.sourceId == m.id && r.kind in ks && r.user in users
  {
    if ks == [] {
    } else {
      var front, last := ks[..|ks| - 1], ks[|ks| - 1];
      assert ks == front + [last];
      RowsOfKindsIff(m, front, users, r);
      if r == Row(Meeting, m.id, r.user, last) && r.user in users {
        var i :| 0 <= i < |users| && users[i] == r.user;
        assert RowsFor(m, last, users)[i] == r;
      }
    }
  }

  predicate Concerns(m: Appointment, users: seq<User>, now: int, r: Row) {
    r.source == Meeting && r.sourceId == m.id && Due(r.kind, m.at - now) && r.user in Recipients(m, users)
  }

  lemma {:induction false} AttemptedIff(ms: seq<Appointment>, users: seq<User>, now: int, r: Row)
    ensures r in Attempted(ms, users, now) <==> exists m :: m in ms && Concerns(m, users, now, r)
  {
    hide KindsDue, Recipients, RowsOfKinds;
    if ms == [] {
    } else {
      var front, last := ms[..|ms| - 1], ms[|ms| - 1];
      assert ms == front + [last];
      AttemptedIff(front, users, now, r);
      RowsOfKindsIff(last, KindsDue(last.at - now), Recipients(last, users), r);
      assert last in ms;
    }
  }

  // ---- Whole runs ----

  /** A scheduler pass, or a reminder another part of the service sends directly. */
  datatype Event =
    | Tick(now: int, table: seq<Appointment>, users: seq<User>, ok: Row -> bool)
    | Direct(row: Row, sent: bool)

  function Step(log: seq<Row>, e: Event): seq<Row> {
    match e
    case Tick(now, table, users, ok) => SendAll(log, Attempted(Selected(table, now), users, now), ok)
    case Direct(row, sent) => Send(log, row, sent)
  }

  function After(tr: seq<Event>): seq<Row> {
    if tr == [] then [] else Step(After(tr[..|tr| - 1]), tr[|tr| - 1])
  }

  /** In any run at all no reminder is logged twice. */
  lemma {:induction false} NeverLoggedTwice(tr: seq<Event>)
    ensures NoRepeats(After(tr))
  {
    if tr == [] {
    } else {
      NeverLoggedTwice(tr[..|tr| - 1]);
      var e := tr[|tr| - 1];
      if e.Tick? {
        SendAllAdds(After(tr[..|tr| - 1]), Attempted(Selected(e.table, e.now), e.users, e.now), e.ok);
      }
    }
  }

  /** The event is a pass that attempts the reminder and gets it through, or sends it directly. */
  ghost predicate Got(e: Event, r: Row) {
    match e
    case Tick(now, table, users, ok) => ok(r) && exists m :: m in Selected(table, now) && Concerns(m, users, now, r)
    case Direct(row, sent) => row == r && sent
  }

  lemma StepGot(log: seq<Row>, e: Event, r: Row)
    ensures r in Step(log, e) <==> r in log || Got(e, r)
  {
    hide Concerns, Selected, SendAll, Attempted;
    if e.Tick? {
      var ms := Selected(e.table, e.now);
      SendAllAdds(log, Attempted(ms, e.users, e.now), e.ok);
      AttemptedIff(ms, e.users, e.now, r);
    }
  }

  /** In any run at all a reminder is in the log exactly when some pass selected its meeting, found it due and got it through. */
  lemma {:induction false} InLogIff(tr: seq<Event>, r: Row)
    ensures r in After(tr) <==> exists i :: 0 <= i < |tr| && Got(tr[i], r)
  {
    hide Step, Got;
    if tr == [] {
    } else {
      var n := |tr| - 1;
      var front := tr[..n];
      InLogIff(front, r);
      StepGot(After(front), tr[n], r);
      assert After(tr) == Step(After(front), tr[n]);
      hide After;
      assert forall i :: 0 <= i < n ==> front[i] == tr[i];
      if i :| 0 <= i < n && Got(front[i], r) {
        assert Got(tr[i], r);
      }
      if i :| 0 <= i <= n && Got(tr[i], r) {
        assert i < n ==> Got(front[i], r);
      }
    }
  }

  function LastTick(tr: seq<Event>): Option<int> {
    if tr == [] then None
    else if tr[|tr| - 1].Tick? then Some(tr[|tr| - 1].now)
    else LastTick(tr[..|tr| - 1])
  }

  /** The longest pause between passes that cannot jump over the hour window. */
  const MAX_GAP := 20 * MINUTE + 1

  /** Passes start before the week window opens and never pause for longer than the gap. */
  predicate Punctual(tr: seq<Event>, at: int, gap: int) {
    tr == [] ||
    (Punctual(tr[..|tr| - 1], at, gap) &&
     (tr[|tr| - 1].Tick? ==>
        match LastTick(tr[..|tr| - 1])
        case None => tr[|tr| - 1].now <= at - WEEK - HOUR
        case Some(c) => c <= tr[|tr| - 1].now <= c + gap))
  }

  /** The pass sees the meeting at its fixed time with the user invited, and sends to them. */
  ghost predicate Reaches(e: Event, id: string, at: int, user: string) {
    match e
    case Direct(row, _) => !(row.source == Meeting && Timed(row.kind))
    case Tick(now, table, users, ok) =>
      && (forall m :: m in table && m.id == id ==> m.at == at)
      && (now <= at ==> exists m :: m in Selected(table, now) && m.id == id && user in Recipients(m, users))
      && (forall k :: Timed(k) ==> ok(Row(Meeting, id, user, k)))
  }

  /** Both reminders are in the log, the first one earlier. */
  predicate InOrder(log: seq<Row>, first: Row, second: Row) {
    exists i, j :: 0 <= i < j < |log| && log[i] == first && log[j] == second
  }

  /** After a pass at time c the log holds exactly the reminders whose window has opened. */
  predicate UpToDate(log: seq<Row>, c: Option<int>, id: string, at: int, user: string) {
    var week, day, hour := Row(Meeting, id, user, WeekBefore), Row(Meeting, id, user, DayBefore), Row(Meeting, id, user, HourOfEvent);
    && (week in log <==> c.Some? && c.value >= at - WEEK - HOUR)
    && (day in log <==> c.Some? && c.value >= at - DAY - 30 * MINUTE)
    && (hour in log <==> c.Some? && c.value >= at - HOUR - 10 * MINUTE)
    && (day in log ==> InOrder(log, week, day))
    && (hour in log ==> InOrder(log, day, hour))
  }

  lemma SelectedAreUpcoming(table: seq<Appointment>, now: int, m: Appointment)
    requires m in Selected(table, now)
    ensures m in table && m.at >= now
  {
    assert m in Upcoming(table, now);
  }

  lemma TickAdds(log: seq<Row>, e: Event, id: string, at: int, user: string, k: Kind)
    requires e.Tick? && Reaches(e, id, at, user) && Timed(k)
    ensures log <= Step(log, e)
    ensures Row(Meeting, id, user, k) in Step(log, e) <==> Row(Meeting, id, user, k) in log || Due(k, at - e.now)
  {
    hide Selected, KindsDue, Recipients, Attempted, SendAll, RowsOfKinds;
    var r := Row(Meeting, id, user, k);
    var ms := Selected(e.table, e.now);
    SendAllAdds(log, Attempted(ms, e.users, e.now), e.ok);
    AttemptedIff(ms, e.users, e.now, r);
    if Due(k, at - e.now) {
      var m :| m in ms && m.id == id && user in Recipients(m, e.users);
      SelectedAreUpcoming(e.table, e.now, m);
      assert Concerns(m, e.users, e.now, r);
    }
    if r in Attempted(ms, e.users, e.now) {
      var m :| m in ms && Concerns(m, e.users, e.now, r);
      SelectedAreUpcoming(e.table, e.now, m);
    }
  }

  lemma LaterInOrder(log: seq<Row>, log': seq<Row>, first: Row, second: Row)
    requires log <= log' && second in log'
    requires second in log ==> InOrder(log, first, second)
    requires second !in log ==> first in log
    ensures InOrder(log', first, second)
  {
    if second in log {
      var i, j :| 0 <= i < j < |log| && log[i] == first && log[j] == second;
      assert log'[i] == first && log'[j] == second;
    } else {
      var i :| 0 <= i < |log| && log[i] == first;
      var j :| 0 <= j < |log'| && log'[j] == second;
      assert log'[..|log|] == log;
      assert log'[i] == first && j >= |log|;
    }
  }

  lemma TickUpToDate(log: seq<Row>, c: Option<int>, e: Event, id: string, at: int, user: string)
    requires e.Tick? && Reaches(e, id, at, user) && UpToDate(log, c, id, at, user)
    requires match c case None => e.now <= at - WEEK - HOUR case Some(t) => t <= e.now <= t + MAX_GAP
    ensures UpToDate(Step(log, e), Some(e.now), id, at, user)
  {
    hide Step, Reaches;
    var log' := Step(log, e);
    var week, day, hour := Row(Meeting, id, user, WeekBefore), Row(Meeting, id, user, DayBefore), Row(Meeting, id, user, HourOfEvent);
    TickAdds(log, e, id, at, user, WeekBefore);
    TickAdds(log, e, id, at, user, DayBefore);
    TickAdds(log, e, id, at, user, HourOfEvent);
    if day in log' {
      LaterInOrder(log, log', week, day);
    }
    if hour in log' {
      LaterInOrder(log, log', day, hour);
    }
  }

  lemma DirectUpToDate(log: seq<Row>, c: Option<int>, e: Event, id: string, at: int, user: string)
    requires e.Direct? && Reaches(e, id, at, user) && UpToDate(log, c, id, at, user)
    ensures UpToDate(Step(log, e), c, id, at, user)
  {
    var log' := Step(log, e);
    var week, day, hour := Row(Meeting, id, user, WeekBefore), Row(Meeting, id, user, DayBefore), Row(Meeting, id, user, HourOfEvent);
    assert log <= log';
    if day in log {
      LaterInOrder(log, log', week, day);
    }
    if hour in log {
      LaterInOrder(log, log', day, hour);
    }
  }

  lemma {:induction false} RunUpToDate(tr: seq<Event>, id: string, at: int, user: string)
    requires Punctual(tr, at, MAX_GAP) && forall e :: e in tr ==> Reaches(e, id, at, user)
    ensures UpToDate(After(tr), LastTick(tr), id, at, user)
  {
    if tr == [] {
    } else {
      var front, last := tr[..|tr| - 1], tr[|tr| - 1];
      assert last in tr && forall e :: e in front ==> e in tr;
      RunUpToDate(front, id, at, user);
      if last.Tick? {
        TickUpToDate(After(front), LastTick(front), last, id, at, user);
      } else {
        DirectUpToDate(After(front), LastTick(front), last, id, at, user);
      }
    }
  }

  /** Exactly one reminder of each kind, in the order week, day, hour. */
  predicate Complete(log: seq<Row>, id: string, user: string) {
    && NoRepeats(log)
    && InOrder(log, Row(Meeting, id, user, WeekBefore), Row(Meeting, id, user, DayBefore))
    && InOrder(log, Row(Meeting, id, user, DayBefore), Row(Meeting, id, user, HourOfEvent))
  }

  /** The user is invited to the meeting throughout, and the passes go on until fifty minutes before the start. */
  ghost predicate Followed(tr: seq<Event>, id: string, at: int, user: string) {
    (forall e :: e in tr ==> Reaches(e, id, at, user)) && LastTick(tr).Some? && LastTick(tr).value >= at - 50 * MINUTE
  }

  /** Punctual passes leave exactly one reminder of each kind. */
  lemma ExactlyOnceEach(tr: seq<Event>, id: string, at: int, user: string)
    requires Punctual(tr, at, MAX_GAP) && Followed(tr, id, at, user)
    ensures Complete(After(tr), id, user)
  {
    NeverLoggedTwice(tr);
    RunUpToDate(tr, id, at, user);
  }

  /** Punctual or not: a reminder is in the log exactly when some pass fell into its window. */
  lemma {:induction false} LoggedIff(tr: seq<Event>, id: string, at: int, user: string, k: Kind)
    requires Timed(k) && forall e :: e in tr ==> Reaches(e, id, at, user)
    ensures Row(Meeting, id, user, k) in After(tr) <==>
            exists i :: 0 <= i < |tr| && tr[i].Tick? && Due(k, at - tr[i].now)
  {
    hide Due, Reaches, Step;
    if tr == [] {
    } else {
      var n := |tr| - 1;
      var front, last := tr[..n], tr[n];
      assert last in tr && forall e :: e in front ==> e in tr;
      LoggedIff(front, id, at, user, k);
      StepAdds(After(front), last, id, at, user, k);
      assert After(tr) == Step(After(front), last);
      hide After;
      if i :| 0 <= i < n && front[i].Tick? && Due(k, at - front[i].now) {
        assert tr[i] == front[i];
      }
      if i :| 0 <= i <= n && tr[i].Tick? && Due(k, at - tr[i].now) {
        assert i < n ==> front[i] == tr[i];
      }
    }
  }

  lemma StepAdds(log: seq<Row>, e: Event, id: string, at: int, user: string, k: Kind)
    requires Reaches(e, id, at, user) && Timed(k)
    ensures Row(Meeting, id, user, k) in Step(log, e) <==>
            Row(Meeting, id, user, k) in log || (e.Tick? && Due(k, at - e.now))
  {
    if e.Tick? {
      TickAdds(log, e, id, at, user, k);
      hide Step, Due;
    }
  }

  // ---- Longer pauses ----

  lemma {:induction false} ShorterGap(tr: seq<Event>, at: int, gap: int, longer: int)
    requires Punctual(tr, at, gap) && gap <= longer
    ensures Punctual(tr, at, longer)
  {
    if tr == [] {
    } else {
      ShorterGap(tr[..|tr| - 1], at, gap, longer);
    }
  }

  function PassAt(start: int, gap: int, i: int): int { start + i * gap }

  /** Passes at even distances, each of which sees the one meeting and its one participant. */
  function Regular(id: string, at: int, user: string, start: int, gap: int, n: nat): seq<Event> {
    if n == 0 then [] else
      Regular(id, at, user, start, gap, n - 1) +
      [Tick(PassAt(start, gap, n - 1), [Appointment(id, "", at, [user], [], None)], [User(user, "", true, "")], (r: Row) => true)]
  }

  lemma RegularReaches(id: string, at: int, user: string, now: int)
    ensures Reaches(Tick(now, [Appointment(id, "", at, [user], [], None)], [User(user, "", true, "")], (r: Row) => true),
                    id, at, user)
  {
    var m, u := Appointment(id, "", at, [user], [], None), User(user, "", true, "");
    assert Invited(m, [u]) == [user];
    assert u in [u];
    assert user in Recipients(m, [u]);
    if now <= at {
      assert Upcoming([m], now) == [m] by { assert [m][..0] == []; }
      assert m in Selected([m], now);
    }
    hide Recipients, Selected;
  }

  lemma AppendPass(tr: seq<Event>, at: int, gap: int, e: Event)
    requires Punctual(tr, at, gap) && e.Tick?
    requires match LastTick(tr) case None => e.now <= at - WEEK - HOUR case Some(c) => c <= e.now <= c + gap
    ensures Punctual(tr + [e], at, gap) && LastTick(tr + [e]) == Some(e.now)
  {
    assert (tr + [e])[..|tr|] == tr;
  }

  lemma {:induction false} RegularRun(id: string, at: int, user: string, start: int, gap: int, n: nat)
    requires gap >= 0 && start <= at - WEEK - HOUR
    ensures var tr := Regular(id, at, user, start, gap, n);
            && |tr| == n && Punctual(tr, at, gap) && (forall e :: e in tr ==> Reaches(e, id, at, user))
            && (forall i :: 0 <= i < n ==> tr[i].Tick? && tr[i].now == PassAt(start, gap, i))
            && LastTick(tr) == if n == 0 then None else Some(PassAt(start, gap, n - 1))
  {
    NextPass(start, gap, n);
    hide Reaches, PassAt;
    if n == 0 {
    } else {
      hide Punctual, LastTick;
      RegularRun(id, at, user, start, gap, n - 1);
      var front, tr := Regular(id, at, user, start, gap, n - 1), Regular(id, at, user, start, gap, n);
      RegularReaches(id, at, user, PassAt(start, gap, n - 1));
      AppendPass(front, at, gap, tr[n - 1]);
    }
  }

  lemma NextPass(start: int, gap: int, n: nat)
    ensures PassAt(start, gap, 0) == start
    ensures PassAt(start, gap, n - 1) == PassAt(start, gap, n - 2) + gap
  {
  }

  /** Passes one millisecond further apart than MAX_GAP can jump the hour window. */
  lemma LongerGapMisses(id: string, at: int, user: string) returns (tr: seq<Event>)
    ensures Punctual(tr, at, MAX_GAP + 1) && Followed(tr, id, at, user)
    ensures Row(Meeting, id, user, HourOfEvent) !in After(tr)
  {
    hide Reaches, After, Punctual, Regular;
    var start := Outset(at);
    tr := Regular(id, at, user, start, MAX_GAP + 1, 600);
    assert start <= at - WEEK - HOUR && start + 599 * (MAX_GAP + 1) >= at - 50 * MINUTE;
    RegularRun(id, at, user, start, MAX_GAP + 1, 600);
    LoggedIff(tr, id, at, user, HourOfEvent);
    hide Due, Outset, LastTick, PassAt;
    forall i | 0 <= i < |tr|
      ensures !Due(HourOfEvent, at - tr[i].now)
    {
      Jumped(at, i);
    }
  }

  /** The last pass but one comes a millisecond before the hour window. */
  function Outset(at: int): int { at - HOUR - 10 * MINUTE - 1 - 598 * (MAX_GAP + 1) }

  lemma Jumped(at: int, i: nat)
    requires i < 600
    ensures !Due(HourOfEvent, at - PassAt(Outset(at), MAX_GAP + 1, i))
  {
  }

  /** Every run with pauses up to the gap is complete exactly when the gap is at most twenty minutes and a millisecond. */
  lemma CompleteIff(id: string, at: int, user: string, gap: int)
    ensures (forall tr :: Punctual(tr, at, gap) && Followed(tr, id, at, user) ==> Complete(After(tr), id, user))
            <==> gap <= 20 * MINUTE + 1
  {
    hide Punctual, Followed, After;
    if gap <= MAX_GAP {
      forall tr | Punctual(tr, at, gap) && Followed(tr, id, at, user)
        ensures Complete(After(tr), id, user)
      {
        ShorterGap(tr, at, gap, MAX_GAP);
        ExactlyOnceEach(tr, id, at, user);
      }
    } else {
      var tr := LongerGapMisses(id, at, user);
      ShorterGap(tr, at, MAX_GAP + 1, gap);
      assert !Complete(After(tr), id, user);
    }
  }
}
