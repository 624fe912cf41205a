/** What each call of the service answers and leaves behind, over the columns of the tables. */
module AuthOutcomes {
  import opened Wrappers
  import opened Auth
  import opened AuthRuns

  // ---- Refreshing ----

  /** The account exists in the table of its kind and is active. */
  predicate Enabled(a: Tables, kind: Kind, subject: string) {
    (kind == Platform && subject in a.admins && a.admins[subject].active)
    || (kind != Platform && subject in a.users && a.users[subject].active)
  }

  /** The row is an unrevoked, unexpired session of the account. */
  predicate Holds(row: Session, kind: Kind, subject: string, now: int) {
    row.kind == kind && row.subject == subject && row.revokedAt == None && row.expiresAt > now
  }

  /** The token's own session is good, or was revoked at most thirty seconds ago while another one is good. */
  predicate LetIn(a: Tables, t: Token, now: int) {
    && t in a.sessions
    && var row := a.sessions[t];
    && Enabled(a, row.kind, row.subject)
    && (Holds(row, row.kind, row.subject, now)
        || (row.revokedAt.Some? && now - row.revokedAt.value <= 30_000
            && exists u :: u in a.sessions && Holds(a.sessions[u], row.kind, row.subject, now)))
  }

  lemma RefreshLetsIn(cfg: Config, a: Tables, t: Token, minted: Token, now: int)
    requires Healthy(a.sessions)
    ensures Refresh(a, cfg, Some(t), minted, now).1.Granted? <==> LetIn(a, t, now)
  {
    if t in a.sessions {
      var row := a.sessions[t];
      assert forall u :: Usable(a.sessions, u, row.kind, row.subject, now) <==>
                         u in a.sessions && Holds(a.sessions[u], row.kind, row.subject, now);
      hide Usable, OpenSession, RevokeLive;
    }
  }

  /** A rotation retires the token, adds the new session for the configured time, and touches nothing else. */
  lemma RotationState(cfg: Config, a: Tables, t: Token, minted: Token, now: int)
    requires Healthy(a.sessions) && minted !in a.sessions && LetIn(a, t, now) && a.sessions[t].revokedAt == None
    ensures var row := a.sessions[t];
            Refresh(a, cfg, Some(t), minted, now) ==
            (a.(sessions := a.sessions[t := row.(revokedAt := Some(now))]
                                      [minted := Session(row.kind, row.subject, now + cfg.refreshMs, None)]),
             Granted(row.kind, row.subject, cfg.refreshMs / 1000))
  {
    var row := a.sessions[t];
    var revoked := a.sessions[t := row.(revokedAt := Some(now))];
    assert DropLive(revoked, row.kind, row.subject) == revoked;
  }

  /** A tolerated replay changes nothing and reports the rest of the session in use, at least a second. */
  lemma GraceState(cfg: Config, a: Tables, t: Token, minted: Token, now: int) returns (u: Token)
    requires Healthy(a.sessions) && LetIn(a, t, now) && a.sessions[t].revokedAt.Some?
    ensures var row := a.sessions[t];
            && u in a.sessions && Holds(a.sessions[u], row.kind, row.subject, now)
            && Refresh(a, cfg, Some(t), minted, now) ==
               (a, Granted(row.kind, row.subject,
                           if a.sessions[u].expiresAt - now < 2000 then 1 else (a.sessions[u].expiresAt - now) / 1000))
  {
    var row := a.sessions[t];
    u :| u in a.sessions && Holds(a.sessions[u], row.kind, row.subject, now);
    assert Usable(a.sessions, u, row.kind, row.subject, now);
    assert forall v :: Usable(a.sessions, v, row.kind, row.subject, now) ==> v == u;
  }

  /** A refusal says why, and changes sessions only where it must. */
  lemma RefusalState(cfg: Config, a: Tables, t: Token, minted: Token, now: int)
    requires Healthy(a.sessions) && !LetIn(a, t, now)
    ensures var (a', out) := Refresh(a, cfg, Some(t), minted, now);
            && a'.resets == a.resets && a'.users == a.users && a'.admins == a.admins
            && if t !in a.sessions then out == Denied(SessionExpired) && a' == a
               else
                 var row := a.sessions[t];
                 if row.revokedAt.Some? then
                   && out == Denied(SessionCompromised) && a'.sessions.Keys == a.sessions.Keys
                   && forall x :: x in a.sessions ==>
                        a'.sessions[x] ==
                        if a.sessions[x].kind == row.kind && a.sessions[x].subject == row.subject && a.sessions[x].revokedAt == None
                        then a.sessions[x].(revokedAt := Some(now)) else a.sessions[x]
                 else if row.expiresAt <= now then out == Denied(SessionExpired) && a' == a
                 else out == Denied(AccountInactive) && a'.sessions == a.sessions[t := row.(revokedAt := Some(now))]
  {
    RefreshLetsIn(cfg, a, t, minted, now);
  }

  // ---- Logging in and out ----

  /** A login leaves the account one live session, of the time asked for, and every other row as it was. */
  lemma LoginState(cfg: Config, a: Tables, e: Event, x: Token)
    requires e.act.Login?
    ensures var ss := Step(cfg, a, e).0.sessions;
            && e.act.minted in ss && ss[e.act.minted] == Session(e.act.kind, e.act.subject, e.at + e.act.ttlMs, None)
            && (x != e.act.minted ==>
                  (x in ss <==> x in a.sessions && !(a.sessions[x].kind == e.act.kind && a.sessions[x].subject == e.act.subject
                                                     && a.sessions[x].revokedAt == None))
                  && (x in ss ==> ss[x] == a.sessions[x]))
  {
  }

  /** A logout revokes the presented session, if it is live, and nothing else. */
  lemma LogoutState(a: Tables, t: Token, now: int)
    ensures var a' := Logout(a, Some(t), now);
            && a' == a.(sessions := a'.sessions) && a'.sessions.Keys == a.sessions.Keys
            && (forall x :: x in a.sessions && x != t ==> a'.sessions[x] == a.sessions[x])
            && (t in a.sessions ==>
                  && a'.sessions[t].revokedAt == (if a.sessions[t].revokedAt == None then Some(now) else a.sessions[t].revokedAt)
                  && a'.sessions[t].(revokedAt := None) == a.sessions[t].(revokedAt := None))
  {
  }

  /** From a logout on the session is revoked for good, so that it can never be rotated again. */
  lemma LoggedOutForGood(cfg: Config, a0: Tables, tr: seq<Event>, i: nat, j: nat, t: Token)
    requires Healthy(a0.sessions) && Proper(cfg, a0, tr) && i < j < |tr|
    requires tr[i].act == LogOut(Some(t)) && t in After(cfg, a0, tr[..i]).sessions
    ensures var ss := After(cfg, a0, tr[..j]).sessions; t in ss && ss[t].revokedAt.Some?
    ensures !Rotates(cfg, After(cfg, a0, tr[..j]), tr[j], t)
  {
    Prefixes(cfg, a0, tr, i + 1);
    Prefixes(cfg, a0, tr, j);
    LogoutState(After(cfg, a0, tr[..i]), t, tr[i].at);
    assert Revoked(After(cfg, a0, tr[..i + 1]).sessions, t);
    hide Step, Mints, Healthy, After, Ended;
    RevokedForever(cfg, a0, tr[..j], i + 1, t);
  }

  /** A social login is completed for an unexpired session of an active account of the entity named. */
  lemma ExchangeGrantedIff(a: Tables, t: Token, slugOk: bool, now: int)
    ensures Exchange(a, t, slugOk, now).Granted? <==>
            && t in a.sessions && a.sessions[t].expiresAt > now
            && Enabled(a, a.sessions[t].kind, a.sessions[t].subject) && (a.sessions[t].kind == Platform || slugOk)
  {
  }

  // ---- Password reset ----

  /** A new link takes the place of the account's unused ones and lasts for the configured time. */
  lemma LinkIssued(a: Tables, cfg: Config, k: Kind, s: string, email: string, minted: Token, now: int, x: Token)
    ensures var a' := IssueReset(a, cfg, k, s, email, minted, now);
            && a' == a.(resets := a'.resets)
            && minted in a'.resets && a'.resets[minted] == Reset(k, s, email, now + cfg.resetTtlMs, None)
            && (x != minted ==>
                  (x in a'.resets <==> x in a.resets && !(a.resets[x].kind == k && a.resets[x].subject == s && a.resets[x].usedAt == None))
                  && (x in a'.resets ==> a'.resets[x] == a.resets[x]))
  {
  }

  /** The link is unused, in time, of this kind, and presented with the reference that belongs to it. */
  predicate LinkGood(a: Tables, t: Token, kind: Kind, refOk: bool, now: int) {
    t in a.resets && a.resets[t].usedAt == None && a.resets[t].expiresAt > now && a.resets[t].kind == kind && refOk
  }

  /** The account is active and uses the address of the link. */
  predicate Owner(a: Tables, cfg: Config, t: Token, u: string)
    requires t in a.resets
  {
    u in a.users && a.users[u].active && a.users[u].email == cfg.normalizeEmail(a.resets[t].email)
  }

  predicate MayReset(a: Tables, cfg: Config, t: Token, refOk: bool, now: int) {
    LinkGood(a, t, Tenant, refOk, now) && Owner(a, cfg, t, a.resets[t].subject)
  }

  predicate NeedsCode(a: Tables, cfg: Config, t: Token)
    requires t in a.resets
  {
    exists u :: u in a.users && Owner(a, cfg, t, u) && a.users[u].mfaEnabled
  }

  /**
   A tenant reset is accepted exactly for a good link whose subject is an active owner of the address,
   with the right code if any active owner of the address uses a second factor. A refusal names the
   first thing wrong and changes nothing.
   */
  lemma TenantResetAcceptedIff(a: Tables, cfg: Config, t: Token, refOk: bool, mfa: MfaReply, newHash: string, now: int)
    ensures var (a', out) := ConfirmTenant(a, cfg, t, refOk, mfa, newHash, now);
            && (out == Accepted <==> MayReset(a, cfg, t, refOk, now) && (NeedsCode(a, cfg, t) ==> mfa == RightCode))
            && (out == Denied(MfaCodeRequired) <==> MayReset(a, cfg, t, refOk, now) && NeedsCode(a, cfg, t) && mfa == NoCode)
            && (out == Denied(MfaCodeWrong) <==> MayReset(a, cfg, t, refOk, now) && NeedsCode(a, cfg, t) && mfa == WrongCode)
            && (out == Denied(LinkInvalid) <==> !MayReset(a, cfg, t, refOk, now))
            && (out != Accepted ==> a' == a)
  {
    if MayReset(a, cfg, t, refOk, now) {
      assert forall u :: u in Siblings(a, cfg, a.resets[t].email) <==> Owner(a, cfg, t, u);
      hide EndSessions, MarkVerified, SyncPasswordHash;
    }
  }

  /** What an accepted tenant reset leaves, row by row. */
  lemma TenantResetState(a: Tables, cfg: Config, t: Token, refOk: bool, mfa: MfaReply, newHash: string, now: int)
    requires ConfirmTenant(a, cfg, t, refOk, mfa, newHash, now).1 == Accepted
    ensures t in a.resets
    ensures var a' := ConfirmTenant(a, cfg, t, refOk, mfa, newHash, now).0;
            && a'.admins == a.admins && a'.resets == a.resets[t := a.resets[t].(usedAt := Some(now))]
            && a'.users.Keys == a.users.Keys
            && (forall u :: u in a.users ==>
                  a'.users[u] ==
                  if a.users[u].email == cfg.normalizeEmail(a.resets[t].email)
                  then a.users[u].(passwordHash := newHash, mustChangePassword := false,
                                   emailVerified := a.users[u].emailVerified || a.users[u].active)
                  else a.users[u])
            && (forall x :: x in a'.sessions <==>
                  x in a.sessions && !(a.sessions[x].kind == Tenant && a.sessions[x].revokedAt == None && Owner(a, cfg, t, a.sessions[x].subject)))
            && (forall x :: x in a'.sessions ==> a'.sessions[x] == a.sessions[x])
  {
  }

  /** A platform reset is accepted exactly for a good link of an administrator; a refusal changes nothing. */
  lemma PlatformResetAcceptedIff(a: Tables, t: Token, refOk: bool, newHash: string, now: int)
    ensures var (a', out) := ConfirmPlatform(a, t, refOk, newHash, now);
            && (out == Accepted <==> LinkGood(a, t, Platform, refOk, now) && a.resets[t].subject in a.admins)
            && (out != Accepted ==> a' == a)
            && (out == Accepted ==>
                  var s := a.resets[t].subject;
                  && a'.users == a.users && a'.resets == a.resets[t := a.resets[t].(usedAt := Some(now))]
                  && a'.admins == a.admins[s := a.admins[s].(passwordHash := newHash)]
                  && (forall x :: x in a'.sessions <==>
                        x in a.sessions && !(a.sessions[x].kind == Platform && a.sessions[x].subject == s && a.sessions[x].revokedAt == None))
                  && (forall x :: x in a'.sessions ==> a'.sessions[x] == a.sessions[x]))
  {
  }

  /**
   In any run from no links: a call accepts a tenant reset exactly when its link is good and owned and any
   second factor is answered; then the link is the latest of its account. Otherwise the tables stay.
   */
  lemma TenantResetsOfRun(cfg: Config, a0: Tables, tr: seq<Event>, i: nat)
    requires a0.resets == map[] && Proper(cfg, a0, tr) && i < |tr| && tr[i].act.ConfirmTenantLink?
    ensures var (a, t) := (After(cfg, a0, tr[..i]), tr[i].act.token);
            && (OutcomeAt(cfg, a0, tr, i) == Accepted <==>
                  MayReset(a, cfg, t, tr[i].act.refOk, tr[i].at) && (NeedsCode(a, cfg, t) ==> tr[i].act.mfa == RightCode))
            && (OutcomeAt(cfg, a0, tr, i) == Accepted ==>
                  var latest := LatestLink(tr[..i], Tenant, a.resets[t].subject);
                  latest.Some? && latest.value.token == t && tr[i].at < latest.value.at + cfg.resetTtlMs)
            && (OutcomeAt(cfg, a0, tr, i) != Accepted ==> After(cfg, a0, tr[..i + 1]) == a)
  {
    var (a, act) := (After(cfg, a0, tr[..i]), tr[i].act);
    TenantResetAcceptedIff(a, cfg, act.token, act.refOk, act.mfa, act.newHash, tr[i].at);
    Prefixes(cfg, a0, tr, i + 1);
    assert Step(cfg, a, tr[i]) == ConfirmTenant(a, cfg, act.token, act.refOk, act.mfa, act.newHash, tr[i].at);
    hide ConfirmTenant, After, Step, NeedsCode;
    if OutcomeAt(cfg, a0, tr, i) == Accepted {
      AcceptedOnlyIfLatest(cfg, a0, tr, i, act.token);
    }
  }
}
