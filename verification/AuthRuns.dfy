/** What holds over whole runs of logins, refreshes, logouts and password resets. */
module AuthRuns {
  import opened Wrappers
  import opened Auth

  datatype Action =
    | Login(kind: Kind, subject: string, minted: Token, ttlMs: int)
    | UseCookie(cookie: Option<Token>, minted: Token)
    | LogOut(cookie: Option<Token>)
    | UseExchange(token: Token, slugOk: bool)
    | RevokeAll(kind: Kind, subject: string)
    | AskReset(kind: Kind, subject: string, email: string, minted: Token)
    | ConfirmTenantLink(token: Token, refOk: bool, mfa: MfaReply, newHash: string)
    | ConfirmPlatformLink(token: Token, refOk: bool, newHash: string)
    | EditAccounts(users: map<string, User>, admins: map<string, Admin>)

  datatype Event = Event(at: int, act: Action)

  ghost function Step(cfg: Config, a: Tables, e: Event): (Tables, Outcome) {
    match e.act
    case Login(k, s, minted, ttl) =>
      (a.(sessions := OpenSession(a.sessions, k, s, minted, e.at + ttl)), Granted(k, s, ttl / 1000))
    case UseCookie(cookie, minted) => Refresh(a, cfg, cookie, minted, e.at)
    case LogOut(cookie) => (Logout(a, cookie, e.at), Done)
    case UseExchange(t, slugOk) => (a, Exchange(a, t, slugOk, e.at))
    case RevokeAll(k, s) => (a.(sessions := DropLive(a.sessions, k, s)), Done)
    case AskReset(k, s, email, minted) => (IssueReset(a, cfg, k, s, email, minted, e.at), Done)
    case ConfirmTenantLink(t, refOk, mfa, newHash) => ConfirmTenant(a, cfg, t, refOk, mfa, newHash, e.at)
    case ConfirmPlatformLink(t, refOk, newHash) => ConfirmPlatform(a, t, refOk, newHash, e.at)
    case EditAccounts(users, admins) => (a.(users := users, admins := admins), Done)
  }

  /** A newly drawn token is not one that the table already holds; only the two kinds log in. */
  predicate Mints(a: Tables, act: Action) {
    match act
    case Login(k, _, minted, _) => minted !in a.sessions && !k.Unknown?
    case UseCookie(_, minted) => minted !in a.sessions
    case AskReset(_, _, _, minted) => minted !in a.resets
    case _ => true
  }

  ghost function After(cfg: Config, a0: Tables, tr: seq<Event>): Tables {
    if tr == [] then a0 else Step(cfg, After(cfg, a0, tr[..|tr| - 1]), tr[|tr| - 1]).0
  }

  /** The outcome of the i-th call of a run. */
  ghost function OutcomeAt(cfg: Config, a0: Tables, tr: seq<Event>, i: nat): Outcome
    requires i < |tr|
  {
    Step(cfg, After(cfg, a0, tr[..i]), tr[i]).1
  }

  ghost predicate Proper(cfg: Config, a0: Tables, tr: seq<Event>) {
    forall i :: 0 <= i < |tr| ==> Mints(After(cfg, a0, tr[..i]), tr[i].act)
  }

  predicate Healthy(ss: map<Token, Session>) {
    OneLive(ss) && forall t :: t in ss ==> !ss[t].kind.Unknown?
  }

  lemma Prefixes(cfg: Config, a0: Tables, tr: seq<Event>, n: nat)
    requires n <= |tr|
    ensures Proper(cfg, a0, tr) ==> Proper(cfg, a0, tr[..n])
    ensures forall i :: 0 <= i <= n ==> tr[..n][..i] == tr[..i]
    ensures n > 0 ==> After(cfg, a0, tr[..n]) == Step(cfg, After(cfg, a0, tr[..n - 1]), tr[n - 1]).0
  {
    assert forall i :: 0 <= i <= n ==> tr[..n][..i] == tr[..i];
    if Proper(cfg, a0, tr) {
      forall i | 0 <= i < n
        ensures Mints(After(cfg, a0, tr[..n][..i]), tr[..n][i].act)
      {
        assert Mints(After(cfg, a0, tr[..i]), tr[i].act);
      }
    }
  }

  lemma Whole(cfg: Config, a0: Tables, tr: seq<Event>)
    requires tr != []
    ensures forall i :: 0 <= i < |tr| ==> tr[..|tr| - 1][..i] == tr[..i]
    ensures After(cfg, a0, tr) == Step(cfg, After(cfg, a0, tr[..|tr| - 1]), tr[|tr| - 1]).0
    ensures Proper(cfg, a0, tr) ==>
              Proper(cfg, a0, tr[..|tr| - 1]) && Mints(After(cfg, a0, tr[..|tr| - 1]), tr[|tr| - 1].act)
  {
    Prefixes(cfg, a0, tr, |tr| - 1);
  }

  lemma Start(cfg: Config, a0: Tables)
    ensures After(cfg, a0, []) == a0
  {
  }

  // ---- One live session; revocation is final ----

  predicate Revoked(ss: map<Token, Session>, t: Token) { t in ss && !ss[t].Live() }

  predicate KeepsRevoked(ss: map<Token, Session>, ss': map<Token, Session>) {
    forall t :: t in ss && !ss[t].Live() ==> t in ss' && ss'[t] == ss[t]
  }

  lemma OpenHealthy(ss: map<Token, Session>, k: Kind, s: string, minted: Token, expiresAt: int)
    requires Healthy(ss) && minted !in ss && !k.Unknown?
    ensures Healthy(OpenSession(ss, k, s, minted, expiresAt))
    ensures KeepsRevoked(ss, OpenSession(ss, k, s, minted, expiresAt))
  {
  }

  lemma RevokeOneHealthy(ss: map<Token, Session>, t: Token, now: int)
    requires Healthy(ss) && t in ss && ss[t].Live()
    ensures Healthy(ss[t := ss[t].(revokedAt := Some(now))])
    ensures KeepsRevoked(ss, ss[t := ss[t].(revokedAt := Some(now))])
  {
  }

  lemma RevokeLiveHealthy(ss: map<Token, Session>, k: Kind, s: string, now: int)
    requires Healthy(ss)
    ensures Healthy(RevokeLive(ss, k, s, now)) && KeepsRevoked(ss, RevokeLive(ss, k, s, now))
    ensures Ended(RevokeLive(ss, k, s, now), k, s)
  {
  }

  lemma RefreshHealthy(cfg: Config, a: Tables, cookie: Option<Token>, minted: Token, now: int)
    requires Healthy(a.sessions) && minted !in a.sessions
    ensures var ss' := Refresh(a, cfg, cookie, minted, now).0.sessions;
            Healthy(ss') && KeepsRevoked(a.sessions, ss')
  {
    hide Healthy, OpenSession, RevokeLive;
    if cookie.Some? && cookie.value in a.sessions {
      var row := a.sessions[cookie.value];
      if row.Live() {
        var revoked := a.sessions[cookie.value := row.(revokedAt := Some(now))];
        RevokeOneHealthy(a.sessions, cookie.value, now);
        if !row.kind.Unknown? {
          OpenHealthy(revoked, row.kind, row.subject, minted, now + cfg.refreshMs);
        }
      } else {
        RevokeLiveHealthy(a.sessions, row.kind, row.subject, now);
      }
    }
  }

  /** Dropping some live rows and keeping the rest as they are. */
  predicate DropsOnlyLive(ss: map<Token, Session>, ss': map<Token, Session>) {
    && (forall t :: t in ss' ==> t in ss && ss'[t] == ss[t])
    && KeepsRevoked(ss, ss')
  }

  lemma DroppingShrinks(ss: map<Token, Session>, k: Kind, s: string, accounts: set<string>)
    ensures DropsOnlyLive(ss, DropLive(ss, k, s)) && DropsOnlyLive(ss, EndSessions(ss, accounts)) && DropsOnlyLive(ss, ss)
  {
  }

  lemma OtherStepsDropOnlyLive(cfg: Config, a: Tables, e: Event)
    requires !e.act.Login? && !e.act.UseCookie? && !e.act.LogOut?
    ensures DropsOnlyLive(a.sessions, Step(cfg, a, e).0.sessions)
  {
    hide Siblings, MarkVerified, SyncPasswordHash, Refresh, DropLive, EndSessions, DropsOnlyLive;
    DroppingShrinks(a.sessions, Tenant, "", {});
    match e.act {
      case RevokeAll(k, s) => DroppingShrinks(a.sessions, k, s, {});
      case ConfirmTenantLink(t, _, _, _) =>
        if t in a.resets {
          DroppingShrinks(a.sessions, Tenant, "", Siblings(a, cfg, a.resets[t].email));
        }
      case ConfirmPlatformLink(t, _, _) =>
        if t in a.resets {
          DroppingShrinks(a.sessions, Platform, a.resets[t].subject, {});
        }
      case _ =>
    }
  }

  lemma StepHealthy(cfg: Config, a: Tables, e: Event)
    requires Healthy(a.sessions) && Mints(a, e.act)
    ensures Healthy(Step(cfg, a, e).0.sessions) && KeepsRevoked(a.sessions, Step(cfg, a, e).0.sessions)
  {
    hide Refresh, ConfirmTenant, ConfirmPlatform, DropLive, OpenSession;
    match e.act {
      case Login(k, s, minted, ttl) => OpenHealthy(a.sessions, k, s, minted, e.at + ttl);
      case UseCookie(cookie, minted) => RefreshHealthy(cfg, a, cookie, minted, e.at);
      case LogOut(cookie) =>
        if cookie.Some? && cookie.value in a.sessions && a.sessions[cookie.value].Live() {
          RevokeOneHealthy(a.sessions, cookie.value, e.at);
        }
      case _ => OtherStepsDropOnlyLive(cfg, a, e);
    }
  }

  /** In every reachable state each account has at most one unrevoked session. */
  lemma {:induction false} OneLiveSession(cfg: Config, a0: Tables, tr: seq<Event>)
    requires Healthy(a0.sessions) && Proper(cfg, a0, tr)
    ensures Healthy(After(cfg, a0, tr).sessions)
  {
    hide Step, Mints, Healthy, After, Ended;
    if tr == [] {
      Start(cfg, a0);
    } else {
      Whole(cfg, a0, tr);
      OneLiveSession(cfg, a0, tr[..|tr| - 1]);
      StepHealthy(cfg, After(cfg, a0, tr[..|tr| - 1]), tr[|tr| - 1]);
    }
  }

  /** A revoked row is never deleted, un-revoked or otherwise changed. */
  lemma {:induction false} RevokedForever(cfg: Config, a0: Tables, tr: seq<Event>, i: nat, t: Token)
    requires Healthy(a0.sessions) && Proper(cfg, a0, tr) && i <= |tr|
    requires Revoked(After(cfg, a0, tr[..i]).sessions, t)
    ensures Revoked(After(cfg, a0, tr).sessions, t)
    ensures After(cfg, a0, tr).sessions[t] == After(cfg, a0, tr[..i]).sessions[t]
  {
    hide Step, Mints, Healthy, After, Ended;
    if i == |tr| {
      assert tr[..i] == tr;
    } else {
      var front := tr[..|tr| - 1];
      Whole(cfg, a0, tr);
      RevokedForever(cfg, a0, front, i, t);
      OneLiveSession(cfg, a0, front);
      StepHealthy(cfg, After(cfg, a0, front), tr[|tr| - 1]);
    }
  }

  /** A refresh that retires the presented token and grants access. */
  ghost predicate Rotates(cfg: Config, a: Tables, e: Event, t: Token) {
    && e.act.UseCookie? && e.act.cookie == Some(t)
    && t in a.sessions && a.sessions[t].Live() && Step(cfg, a, e).1.Granted?
  }

  lemma RotationRevokes(cfg: Config, a: Tables, e: Event, t: Token)
    requires Rotates(cfg, a, e, t) && Mints(a, e.act)
    ensures Revoked(Step(cfg, a, e).0.sessions, t)
  {
  }

  /** No refresh token is rotated twice, in any run. */
  lemma NeverRotatedTwice(cfg: Config, a0: Tables, tr: seq<Event>, i: nat, j: nat, t: Token)
    requires Healthy(a0.sessions) && Proper(cfg, a0, tr) && i < j < |tr|
    requires Rotates(cfg, After(cfg, a0, tr[..i]), tr[i], t)
    ensures !Rotates(cfg, After(cfg, a0, tr[..j]), tr[j], t)
  {
    Prefixes(cfg, a0, tr, i + 1);
    Prefixes(cfg, a0, tr, j);
    RotationRevokes(cfg, After(cfg, a0, tr[..i]), tr[i], t);
    hide Step, Mints, Healthy, After, Ended;
    RevokedForever(cfg, a0, tr[..j], i + 1, t);
  }

  /**
   Access is granted exactly when the account is active and the presented token is its usable
   session, or was revoked within the grace period while the account still has one. Afterwards
   the account has a usable session, and no other account's sessions have changed.
   */
  lemma RefreshGrantsIff(cfg: Config, a: Tables, t: Token, minted: Token, now: int)
    requires Healthy(a.sessions) && minted !in a.sessions && cfg.refreshMs > 0
    ensures var (a', out) := Refresh(a, cfg, Some(t), minted, now);
            && (out.Granted? <==>
                  && t in a.sessions && AccountActive(a, a.sessions[t].kind, a.sessions[t].subject)
                  && (exists u :: Usable(a.sessions, u, a.sessions[t].kind, a.sessions[t].subject, now)
                                  && (u == t || (!a.sessions[t].Live() && now - a.sessions[t].revokedAt.value <= 30_000))))
            && (out.Granted? ==>
                  && out.kind == a.sessions[t].kind && out.subject == a.sessions[t].subject
                  && exists u :: Usable(a'.sessions, u, out.kind, out.subject, now))
            && (forall x :: x in a.sessions && (t !in a.sessions || !a.sessions[x].Of(a.sessions[t].kind, a.sessions[t].subject)) ==>
                  x in a'.sessions && a'.sessions[x] == a.sessions[x])
  {
    if t in a.sessions {
      var row := a.sessions[t];
      var (a', out) := Refresh(a, cfg, Some(t), minted, now);
      if row.Live() && out.Granted? {
        assert Usable(a.sessions, t, row.kind, row.subject, now);
        assert Usable(a'.sessions, minted, row.kind, row.subject, now);
      }
      assert row.Live() ==> forall u :: Usable(a.sessions, u, row.kind, row.subject, now) ==> u == t;
    }
  }

  // ---- Replays ----

  predicate Ended(ss: map<Token, Session>, k: Kind, s: string) {
    forall t :: t in ss && ss[t].Of(k, s) ==> !ss[t].Live()
  }

  /**
   Presenting a revoked token either is the tolerated race (access granted, nothing changed,
   and only within the grace period while a usable session exists) or ends every session of
   the account.
   */
  lemma ReplayDichotomy(cfg: Config, a: Tables, t: Token, minted: Token, now: int)
    requires Revoked(a.sessions, t)
    ensures var row := a.sessions[t];
            var (a', out) := Refresh(a, cfg, Some(t), minted, now);
            if out.Granted?
            then a' == a && now - row.revokedAt.value <= 30_000
                 && exists u :: Usable(a.sessions, u, row.kind, row.subject, now)
            else out == Denied(SessionCompromised) && Ended(a'.sessions, row.kind, row.subject)
  {
  }

  lemma RefreshEnded(cfg: Config, a: Tables, cookie: Option<Token>, minted: Token, now: int, k: Kind, s: string)
    requires Healthy(a.sessions) && Ended(a.sessions, k, s) && minted !in a.sessions
    ensures Ended(Refresh(a, cfg, cookie, minted, now).0.sessions, k, s)
    ensures var out := Refresh(a, cfg, cookie, minted, now).1; !(out.Granted? && out.kind == k && out.subject == s)
  {
    if cookie.Some? && cookie.value in a.sessions {
      var row := a.sessions[cookie.value];
      assert row.Of(k, s) ==> !row.Live() && forall t :: !Usable(a.sessions, t, k, s, now);
    }
  }

  /** The call is an exchange of an unexpired session of the account, revoked or not. */
  predicate Exchanges(a: Tables, e: Event, k: Kind, s: string) {
    && e.act.UseExchange? && e.act.token in a.sessions && a.sessions[e.act.token].Of(k, s)
    && e.at < a.sessions[e.act.token].expiresAt && (k == Platform || e.act.slugOk) && AccountActive(a, k, s)
  }

  lemma StepEnded(cfg: Config, a: Tables, e: Event, k: Kind, s: string)
    requires Healthy(a.sessions) && Mints(a, e.act) && Ended(a.sessions, k, s)
    requires !(e.act.Login? && e.act.kind == k && e.act.subject == s)
    ensures Ended(Step(cfg, a, e).0.sessions, k, s)
    ensures var out := Step(cfg, a, e).1; (out.Granted? && out.kind == k && out.subject == s) <==> Exchanges(a, e, k, s)
  {
    if e.act.UseExchange? {
      hide Refresh, OpenSession, DropLive, ConfirmTenant, ConfirmPlatform, Logout, Ended;
    } else {
      hide Refresh, Healthy, Exchange;
      if e.act.UseCookie? {
        hide OpenSession, DropLive, ConfirmTenant, ConfirmPlatform, Logout;
        RefreshEnded(cfg, a, e.act.cookie, e.act.minted, e.at, k, s);
      }
    }
  }

  predicate NoLogin(tr: seq<Event>, from: nat, k: Kind, s: string) {
    forall j :: from <= j < |tr| ==> !(tr[j].act.Login? && tr[j].act.kind == k && tr[j].act.subject == s)
  }

  lemma {:induction false} EndedUntilLogin(cfg: Config, a0: Tables, tr: seq<Event>, i: nat, k: Kind, s: string)
    requires Healthy(a0.sessions) && Proper(cfg, a0, tr) && i <= |tr|
    requires Ended(After(cfg, a0, tr[..i]).sessions, k, s) && NoLogin(tr, i, k, s)
    ensures Ended(After(cfg, a0, tr).sessions, k, s)
  {
    hide Step, Mints, Healthy, After, Ended;
    if i == |tr| {
      assert tr[..i] == tr;
    } else {
      var front := tr[..|tr| - 1];
      Whole(cfg, a0, tr);
      assert NoLogin(front, i, k, s);
      EndedUntilLogin(cfg, a0, front, i, k, s);
      OneLiveSession(cfg, a0, front);
      StepEnded(cfg, After(cfg, a0, front), tr[|tr| - 1], k, s);
    }
  }

  lemma CompromiseEnds(cfg: Config, a: Tables, e: Event, t: Token)
    requires e.act.UseCookie? && e.act.cookie == Some(t) && Step(cfg, a, e).1 == Denied(SessionCompromised)
    ensures t in a.sessions && Ended(Step(cfg, a, e).0.sessions, a.sessions[t].kind, a.sessions[t].subject)
  {
    if t in a.sessions && !a.sessions[t].Live() {
      ReplayDichotomy(cfg, a, t, e.act.minted, e.at);
    }
  }

  /**
   After a replay judged a compromise, until somebody logs in to the account again, a later call
   of the run grants access to it exactly when it is the exchange of an unexpired session of it.
   */
  lemma CompromiseEndsAccess(cfg: Config, a0: Tables, tr: seq<Event>, i: nat, j: nat, t: Token)
    requires Healthy(a0.sessions) && Proper(cfg, a0, tr) && i < j < |tr|
    requires tr[i].act.UseCookie? && tr[i].act.cookie == Some(t)
    requires OutcomeAt(cfg, a0, tr, i) == Denied(SessionCompromised)
    ensures t in After(cfg, a0, tr[..i]).sessions
    ensures var row := After(cfg, a0, tr[..i]).sessions[t];
            var out := OutcomeAt(cfg, a0, tr, j);
            NoLogin(tr[..j + 1], i + 1, row.kind, row.subject) ==>
              ((out.Granted? && out.kind == row.kind && out.subject == row.subject) <==>
               Exchanges(After(cfg, a0, tr[..j]), tr[j], row.kind, row.subject))
  {
    hide Mints, Healthy, Ended, Step, After, Exchanges;
    var ss := After(cfg, a0, tr[..i]).sessions;
    Prefixes(cfg, a0, tr, i + 1);
    Prefixes(cfg, a0, tr, j);
    CompromiseEnds(cfg, After(cfg, a0, tr[..i]), tr[i], t);
    var (k, s) := (ss[t].kind, ss[t].subject);
    if NoLogin(tr[..j + 1], i + 1, k, s) {
      assert NoLogin(tr[..j], i + 1, k, s) by {
        assert forall n :: i + 1 <= n < j ==> tr[..j][n] == tr[..j + 1][n];
      }
      EndedUntilLogin(cfg, a0, tr[..j], i + 1, k, s);
      OneLiveSession(cfg, a0, tr[..j]);
      assert tr[..j + 1][j] == tr[j];
      StepEnded(cfg, After(cfg, a0, tr[..j]), tr[j], k, s);
    }
  }

  lemma CompromiseOfRevoked(cfg: Config, a: Tables, e: Event, t: Token)
    requires e.act.UseCookie? && e.act.cookie == Some(t) && Step(cfg, a, e).1 == Denied(SessionCompromised)
    ensures Revoked(a.sessions, t)
  {
  }

  /**
   The session whose replay was judged a compromise still gets access by exchange at the end of the
   run, exactly while it has not expired, for an active account and the entity named.
   */
  lemma CompromisedStillExchanged(cfg: Config, a0: Tables, tr: seq<Event>, i: nat, t: Token, slugOk: bool, now: int)
    requires Healthy(a0.sessions) && Proper(cfg, a0, tr) && i < |tr|
    requires tr[i].act.UseCookie? && tr[i].act.cookie == Some(t)
    requires OutcomeAt(cfg, a0, tr, i) == Denied(SessionCompromised)
    ensures t in After(cfg, a0, tr[..i]).sessions
    ensures var (row, end) := (After(cfg, a0, tr[..i]).sessions[t], After(cfg, a0, tr));
            Exchange(end, t, slugOk, now).Granted? <==>
            now < row.expiresAt && (row.kind == Platform || slugOk) && AccountActive(end, row.kind, row.subject)
  {
    CompromiseOfRevoked(cfg, After(cfg, a0, tr[..i]), tr[i], t);
    hide Step, Mints, Healthy, After;
    RevokedForever(cfg, a0, tr, i, t);
  }

  // ---- Displaced devices ----

  predicate MintsToken(act: Action, t: Token) {
    (act.Login? || act.UseCookie?) && act.minted == t
  }

  lemma StepAbsent(cfg: Config, a: Tables, e: Event, t: Token)
    requires t !in a.sessions && !MintsToken(e.act, t)
    ensures t !in Step(cfg, a, e).0.sessions
  {
    hide Siblings, MarkVerified, SyncPasswordHash, Usable;
  }

  lemma {:induction false} AbsentUntilMinted(cfg: Config, a0: Tables, tr: seq<Event>, i: nat, t: Token)
    requires i <= |tr| && t !in After(cfg, a0, tr[..i]).sessions
    requires forall n :: i <= n < |tr| ==> !MintsToken(tr[n].act, t)
    ensures t !in After(cfg, a0, tr).sessions
  {
    hide Step, Mints, Healthy, After, Ended;
    if i == |tr| {
      assert tr[..i] == tr;
    } else {
      Whole(cfg, a0, tr);
      AbsentUntilMinted(cfg, a0, tr[..|tr| - 1], i, t);
      StepAbsent(cfg, After(cfg, a0, tr[..|tr| - 1]), tr[|tr| - 1], t);
    }
  }

  lemma LoginDisplaces(cfg: Config, a: Tables, e: Event, t: Token)
    requires e.act.Login? && e.act.minted != t
    requires t in a.sessions && a.sessions[t].Live() && a.sessions[t].Of(e.act.kind, e.act.subject)
    ensures t !in Step(cfg, a, e).0.sessions
  {
  }

  lemma AbsentRefused(cfg: Config, a: Tables, e: Event, t: Token)
    requires e.act.UseCookie? && e.act.cookie == Some(t) && t !in a.sessions
    ensures Step(cfg, a, e) == (a, Denied(SessionExpired))
  {
  }

  /**
   A token displaced by a newer login is refused whenever it comes back, and the refusal
   leaves every session, the newer one included, as it was.
   */
  lemma DisplacedIsHarmless(cfg: Config, a0: Tables, tr: seq<Event>, i: nat, j: nat, t: Token)
    requires i < j < |tr| && tr[i].act.Login? && tr[i].act.minted != t
    requires var ss := After(cfg, a0, tr[..i]).sessions;
             t in ss && ss[t].Live() && ss[t].Of(tr[i].act.kind, tr[i].act.subject)
    requires forall n :: i < n < j ==> !MintsToken(tr[n].act, t)
    requires tr[j].act.UseCookie? && tr[j].act.cookie == Some(t)
    ensures OutcomeAt(cfg, a0, tr, j) == Denied(SessionExpired)
    ensures After(cfg, a0, tr[..j + 1]) == After(cfg, a0, tr[..j])
  {
    hide Step, After, Mints;
    Prefixes(cfg, a0, tr, i + 1);
    Prefixes(cfg, a0, tr, j);
    Prefixes(cfg, a0, tr, j + 1);
    LoginDisplaces(cfg, After(cfg, a0, tr[..i]), tr[i], t);
    AbsentUntilMinted(cfg, a0, tr[..j], i + 1, t);
    AbsentRefused(cfg, After(cfg, a0, tr[..j]), tr[j], t);
  }

  // ---- Password-reset links ----

  datatype Issued = Issued(token: Token, at: int)

  /** The latest link issued to an account in the run. */
  function LatestLink(tr: seq<Event>, k: Kind, s: string): Option<Issued> {
    if tr == [] then None else
      var last := tr[|tr| - 1];
      if last.act.AskReset? && last.act.kind == k && last.act.subject == s
      then Some(Issued(last.act.minted, last.at)) else LatestLink(tr[..|tr| - 1], k, s)
  }

  /** An unused link is the latest of its account and still carries its own deadline. */
  predicate UnusedIsLatest(cfg: Config, a: Tables, tr: seq<Event>) {
    forall t :: t in a.resets && a.resets[t].usedAt.None? ==>
      LatestLink(tr, a.resets[t].kind, a.resets[t].subject) == Some(Issued(t, a.resets[t].expiresAt - cfg.resetTtlMs))
  }

  predicate Used(a: Tables, t: Token) { t in a.resets && a.resets[t].usedAt.Some? }

  /** The same links; one of them may have become used. */
  predicate OnlyUses(rs: map<Token, Reset>, rs': map<Token, Reset>) {
    rs'.Keys == rs.Keys && forall t :: t in rs ==> rs'[t] == rs[t] || rs'[t].usedAt.Some?
  }

  lemma OtherStepsOnlyUse(cfg: Config, a: Tables, e: Event)
    requires !e.act.AskReset?
    ensures OnlyUses(a.resets, Step(cfg, a, e).0.resets)
  {
    hide Siblings, EndSessions, DropLive, MarkVerified, SyncPasswordHash, OpenSession, RevokeLive, Usable;
  }

  lemma StepLinks(cfg: Config, a: Tables, tr: seq<Event>, e: Event)
    requires UnusedIsLatest(cfg, a, tr) && Mints(a, e.act)
    ensures UnusedIsLatest(cfg, Step(cfg, a, e).0, tr + [e])
  {
    hide Refresh, ConfirmTenant, ConfirmPlatform, Logout, OpenSession, DropLive;
    assert (tr + [e])[..|tr|] == tr;
    if !e.act.AskReset? {
      OtherStepsOnlyUse(cfg, a, e);
    }
  }

  lemma StepUsed(cfg: Config, a: Tables, e: Event, t: Token)
    requires Used(a, t) && Mints(a, e.act)
    ensures Used(Step(cfg, a, e).0, t)
  {
    hide Refresh, ConfirmTenant, ConfirmPlatform, Logout, OpenSession, DropLive;
    if !e.act.AskReset? {
      OtherStepsOnlyUse(cfg, a, e);
    }
  }

  lemma {:induction false} LinksOfRun(cfg: Config, a0: Tables, tr: seq<Event>)
    requires a0.resets == map[] && Proper(cfg, a0, tr)
    ensures UnusedIsLatest(cfg, After(cfg, a0, tr), tr)
  {
    hide Step, Mints;
    if tr == [] {
    } else {
      var front, last := tr[..|tr| - 1], tr[|tr| - 1];
      Prefixes(cfg, a0, tr, |front|);
      LinksOfRun(cfg, a0, front);
      StepLinks(cfg, After(cfg, a0, front), front, last);
      assert front + [last] == tr;
    }
  }

  lemma {:induction false} UsedForever(cfg: Config, a0: Tables, tr: seq<Event>, i: nat, t: Token)
    requires Proper(cfg, a0, tr) && i <= |tr| && Used(After(cfg, a0, tr[..i]), t)
    ensures Used(After(cfg, a0, tr), t)
  {
    hide Step, Mints, Healthy, After, Ended;
    if i == |tr| {
      assert tr[..i] == tr;
    } else {
      Whole(cfg, a0, tr);
      UsedForever(cfg, a0, tr[..|tr| - 1], i, t);
      StepUsed(cfg, After(cfg, a0, tr[..|tr| - 1]), tr[|tr| - 1], t);
    }
  }

  /** The call accepts a new password on the strength of the link. */
  ghost predicate AcceptsLink(cfg: Config, a: Tables, e: Event, t: Token) {
    && (e.act.ConfirmTenantLink? || e.act.ConfirmPlatformLink?) && e.act.token == t
    && Step(cfg, a, e).1 == Accepted
  }

  lemma AcceptanceUses(cfg: Config, a: Tables, e: Event, t: Token)
    requires AcceptsLink(cfg, a, e, t)
    ensures Used(Step(cfg, a, e).0, t) && ValidReset(a, t, e.at)
  {
  }

  lemma UsedRefused(cfg: Config, a: Tables, e: Event, t: Token)
    requires Used(a, t)
    ensures !AcceptsLink(cfg, a, e, t)
  {
  }

  /** A link is accepted only if it is the latest of its account and its time is not up. */
  lemma AcceptedOnlyIfLatest(cfg: Config, a0: Tables, tr: seq<Event>, i: nat, t: Token)
    requires a0.resets == map[] && Proper(cfg, a0, tr) && i < |tr|
    requires AcceptsLink(cfg, After(cfg, a0, tr[..i]), tr[i], t)
    ensures t in After(cfg, a0, tr[..i]).resets
    ensures var row := After(cfg, a0, tr[..i]).resets[t];
            var latest := LatestLink(tr[..i], row.kind, row.subject);
            latest.Some? && latest.value.token == t && tr[i].at < latest.value.at + cfg.resetTtlMs
  {
    Prefixes(cfg, a0, tr, i);
    AcceptanceUses(cfg, After(cfg, a0, tr[..i]), tr[i], t);
    hide Step;
    LinksOfRun(cfg, a0, tr[..i]);
  }

  /** No link is accepted twice, in any run. */
  lemma NeverAcceptedTwice(cfg: Config, a0: Tables, tr: seq<Event>, i: nat, j: nat, t: Token)
    requires Proper(cfg, a0, tr) && i < j < |tr|
    requires AcceptsLink(cfg, After(cfg, a0, tr[..i]), tr[i], t)
    ensures !AcceptsLink(cfg, After(cfg, a0, tr[..j]), tr[j], t)
  {
    hide AcceptsLink, Step, Mints;
    Prefixes(cfg, a0, tr, i + 1);
    Prefixes(cfg, a0, tr, j);
    AcceptanceUses(cfg, After(cfg, a0, tr[..i]), tr[i], t);
    UsedForever(cfg, a0, tr[..j], i + 1, t);
    UsedRefused(cfg, After(cfg, a0, tr[..j]), tr[j], t);
  }

  /**
   An accepted reset leaves every account with the email on the new hash, ends the sessions of
   the active ones, and touches no other account or session.
   */
  lemma AcceptedResetReachesEveryAccount(cfg: Config, a: Tables, t: Token, refOk: bool, mfa: MfaReply, newHash: string, now: int)
    requires ConfirmTenant(a, cfg, t, refOk, mfa, newHash, now).1 == Accepted
    ensures t in a.resets
    ensures var a' := ConfirmTenant(a, cfg, t, refOk, mfa, newHash, now).0;
            var email := cfg.normalizeEmail(a.resets[t].email);
            && a'.users.Keys == a.users.Keys
            && (forall u :: u in a.users ==>
                  if a.users[u].email == email
                  then a'.users[u].passwordHash == newHash && !a'.users[u].mustChangePassword
                       && (a.users[u].active ==> Ended(a'.sessions, Tenant, u) && a'.users[u].emailVerified)
                  else a'.users[u] == a.users[u])
            && (forall x :: x in a.sessions && x !in a'.sessions ==>
                  && a.sessions[x].kind == Tenant && a.sessions[x].Live()
                  && a.sessions[x].subject in Siblings(a, cfg, a.resets[t].email))
            && (forall x :: x in a'.sessions ==> x in a.sessions && a'.sessions[x] == a.sessions[x])
  {
  }
}
