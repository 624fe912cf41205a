/**
 Refresh sessions (one live session per account, rotation with reuse detection) and
 password-reset links. Opaque tokens are identified with their stored hashes; times are
 integer milliseconds. Each call of the service is one atomic step.
 */
module Auth {
  import opened Wrappers

  type Token = string

  datatype Kind = Tenant | Platform | Unknown(name: string)

  datatype Session = Session(kind: Kind, subject: string, expiresAt: int, revokedAt: Option<int>)
  {
    predicate Live() { revokedAt.None? }
    predicate Of(k: Kind, s: string) { kind == k && subject == s }
  }

  datatype Reset = Reset(kind: Kind, subject: string, email: string, expiresAt: int, usedAt: Option<int>)

  datatype User = User(email: string, active: bool, passwordHash: string,
                       mustChangePassword: bool, mfaEnabled: bool, emailVerified: bool)

  datatype Admin = Admin(active: bool, passwordHash: string)

  /** The tables the service reads and writes. */
  datatype Tables = Tables(sessions: map<Token, Session>, resets: map<Token, Reset>,
                           users: map<string, User>, admins: map<string, Admin>)

  datatype Config = Config(normalizeEmail: string -> string, refreshMs: int, resetTtlMs: int)

  datatype Denial =
    | NoCookie | SessionCompromised | SessionExpired | SessionInvalid | AccountInactive
    | LinkInvalid | MfaCodeRequired | MfaCodeWrong | AccountMissing

  datatype MfaReply = NoCode | WrongCode | RightCode

  datatype Outcome =
    | Granted(kind: Kind, subject: string, refreshExpiresInSec: int)
    | Accepted
    | Denied(why: Denial)
    | Done

  const GRACE_MS := 30_000

  function Max(a: int, b: int): int { if a < b then b else a }

  // ---- Refresh sessions ----

  function DropLive(ss: map<Token, Session>, k: Kind, s: string): map<Token, Session> {
    map t | t in ss && !(ss[t].Of(k, s) && ss[t].Live()) :: ss[t]
  }

  function RevokeLive(ss: map<Token, Session>, k: Kind, s: string, now: int): map<Token, Session> {
    map t | t in ss :: if ss[t].Of(k, s) && ss[t].Live() then ss[t].(revokedAt := Some(now)) else ss[t]
  }

  /** A new session displaces the live ones of the account by deleting them. */
  function OpenSession(ss: map<Token, Session>, k: Kind, s: string, minted: Token, expiresAt: int): map<Token, Session> {
    DropLive(ss, k, s)[minted := Session(k, s, expiresAt, None)]
  }

  predicate Usable(ss: map<Token, Session>, t: Token, k: Kind, s: string, now: int) {
    t in ss && ss[t].Of(k, s) && ss[t].Live() && now < ss[t].expiresAt
  }

  predicate AccountActive(a: Tables, k: Kind, s: string) {
    match k
    case Platform => s in a.admins && a.admins[s].active
    case _ => s in a.users && a.users[s].active
  }

  ghost function Refresh(a: Tables, cfg: Config, cookie: Option<Token>, minted: Token, now: int): (Tables, Outcome) {
    if cookie.None? then (a, Denied(NoCookie))
    else if cookie.value !in a.sessions then (a, Denied(SessionExpired))
    else
      var row := a.sessions[cookie.value];
      if !row.Live() then
        if now - row.revokedAt.value <= GRACE_MS
           && (exists t :: Usable(a.sessions, t, row.kind, row.subject, now))
           && AccountActive(a, row.kind, row.subject)
        then
          var t :| Usable(a.sessions, t, row.kind, row.subject, now);
          (a, Granted(if row.kind == Platform then Platform else Tenant, row.subject,
                      Max(1, (a.sessions[t].expiresAt - now) / 1000)))
        else (a.(sessions := RevokeLive(a.sessions, row.kind, row.subject, now)), Denied(SessionCompromised))
      else if row.expiresAt <= now then (a, Denied(SessionExpired))
      else if row.kind.Unknown? then (a, Denied(SessionInvalid))
      else
        var revoked := a.sessions[cookie.value := row.(revokedAt := Some(now))];
        if !AccountActive(a, row.kind, row.subject) then (a.(sessions := revoked), Denied(AccountInactive))
        else (a.(sessions := OpenSession(revoked, row.kind, row.subject, minted, now + cfg.refreshMs)),
              Granted(row.kind, row.subject, cfg.refreshMs / 1000))
  }

  function Logout(a: Tables, cookie: Option<Token>, now: int): Tables {
    if cookie.Some? && cookie.value in a.sessions && a.sessions[cookie.value].Live()
    then a.(sessions := a.sessions[cookie.value := a.sessions[cookie.value].(revokedAt := Some(now))])
    else a
  }

  /** What completes a social login: the session looked up by its token and expiry, not by revocation. */
  function Exchange(a: Tables, t: Token, slugOk: bool, now: int): Outcome {
    if t !in a.sessions || a.sessions[t].expiresAt <= now then Denied(SessionExpired)
    else
      var row := a.sessions[t];
      if !AccountActive(a, row.kind, row.subject) || (row.kind != Platform && !slugOk) then Denied(SessionInvalid)
      else Granted(if row.kind == Platform then Platform else Tenant, row.subject, Max(1, (row.expiresAt - now) / 1000))
  }

  // ---- Password reset ----

  function IssueReset(a: Tables, cfg: Config, k: Kind, s: string, email: string, minted: Token, now: int): Tables {
    a.(resets := (map t | t in a.resets && !(a.resets[t].kind == k && a.resets[t].subject == s && a.resets[t].usedAt.None?)
                    :: a.resets[t])
                 [minted := Reset(k, s, email, now + cfg.resetTtlMs, None)])
  }

  predicate ValidReset(a: Tables, t: Token, now: int) {
    t in a.resets && a.resets[t].usedAt.None? && now < a.resets[t].expiresAt
  }

  /** Active accounts that share the (normalised) email of the link. */
  function Siblings(a: Tables, cfg: Config, email: string): set<string> {
    set u | u in a.users && a.users[u].active && a.users[u].email == cfg.normalizeEmail(email)
  }

  /** The same hash for every account, active or not, that uses the email. */
  function SyncPasswordHash(users: map<string, User>, email: string, newHash: string): map<string, User> {
    map u | u in users ::
      if users[u].email == email then users[u].(passwordHash := newHash, mustChangePassword := false) else users[u]
  }

  /** Following the link proves possession of the email. */
  function MarkVerified(users: map<string, User>, email: string): map<string, User> {
    map u | u in users ::
      if users[u].email == email && users[u].active then users[u].(emailVerified := true) else users[u]
  }

  function EndSessions(ss: map<Token, Session>, accounts: set<string>): map<Token, Session> {
    map x | x in ss && !(ss[x].kind == Tenant && ss[x].subject in accounts && ss[x].Live()) :: ss[x]
  }

  function ConfirmTenant(a: Tables, cfg: Config, t: Token, refOk: bool, mfa: MfaReply, newHash: string, now: int)
    : (Tables, Outcome)
  {
    if !ValidReset(a, t, now) || a.resets[t].kind != Tenant || !refOk then (a, Denied(LinkInvalid))
    else
      var row := a.resets[t];
      var siblings := Siblings(a, cfg, row.email);
      if row.subject !in siblings then (a, Denied(LinkInvalid))
      else if (exists u :: u in siblings && a.users[u].mfaEnabled) && mfa != RightCode
      then (a, Denied(if mfa == NoCode then MfaCodeRequired else MfaCodeWrong))
      else
        var email := cfg.normalizeEmail(row.email);
        (Tables(
           EndSessions(a.sessions, siblings),
           a.resets[t := row.(usedAt := Some(now))],
           MarkVerified(SyncPasswordHash(a.users, email, newHash), email),
           a.admins), Accepted)
  }

  function ConfirmPlatform(a: Tables, t: Token, refOk: bool, newHash: string, now: int): (Tables, Outcome) {
    if !ValidReset(a, t, now) || a.resets[t].kind != Platform || !refOk then (a, Denied(LinkInvalid))
    else
      var row := a.resets[t];
      if row.subject !in a.admins then (a, Denied(AccountMissing))
      else
        (a.(sessions := DropLive(a.sessions, Platform, row.subject),
            resets := a.resets[t := row.(usedAt := Some(now))],
            admins := a.admins[row.subject := a.admins[row.subject].(passwordHash := newHash)]), Accepted)
  }

  /** Verifying a password against a stored hash; a malformed hash gives no answer. */
  predicate Fits(verify: (string, string) -> Option<bool>, hash: Option<string>, password: string) {
    hash.Some? && hash.value != "" && verify(hash.value, password) == Some(true)
  }

  /** The first hash that fits; missing, empty and repeated ones are passed over. */
  method MatchPasswordHash(hashes: seq<Option<string>>, password: string, verify: (string, string) -> Option<bool>)
    returns (r: Option<string>)
    ensures r.None? <==> forall i :: 0 <= i < |hashes| ==> !Fits(verify, hashes[i], password)
    ensures r.Some? ==> exists i :: 0 <= i < |hashes| && hashes[i] == r && Fits(verify, r, password)
                                    && forall j :: 0 <= j < i ==> !Fits(verify, hashes[j], password)
  {
    var seen: set<string> := {};
    for i := 0 to |hashes|
      invariant forall h :: h in seen ==> !Fits(verify, Some(h), password)
      invariant forall j :: 0 <= j < i ==> !Fits(verify, hashes[j], password)
    {
      if hashes[i].Some? && hashes[i].value != "" && hashes[i].value !in seen {
        if verify(hashes[i].value, password) == Some(true) {
          return hashes[i];
        }
        seen := seen + {hashes[i].value};
      }
    }
    r := None;
  }

  // ---- The service ----

  /** At most one unrevoked session per account. */
  predicate OneLive(ss: map<Token, Session>) {
    forall t, u :: t in ss && u in ss && ss[t].Live() && ss[u].Live() && ss[t].Of(ss[u].kind, ss[u].subject) ==> t == u
  }

  class AuthService {
    const cfg: Config
    var sessions: map<Token, Session>
    var resets: map<Token, Reset>
    var users: map<string, User>
    var admins: map<string, Admin>

    constructor (cfg: Config, users: map<string, User>, admins: map<string, Admin>)
      ensures this.cfg == cfg && State() == Tables(map[], map[], users, admins)
    {
      this.cfg, this.users, this.admins := cfg, users, admins;
      sessions, resets := map[], map[];
    }

    function State(): Tables
      reads this
    {
      Tables(sessions, resets, users, admins)
    }

    method RevokeOtherRefreshSessions(kind: Kind, subject: string)
      modifies this`sessions
      ensures forall t :: t in sessions <==> t in old(sessions) && !(old(sessions)[t].Of(kind, subject) && old(sessions)[t].Live())
      ensures forall t :: t in sessions ==> sessions[t] == old(sessions)[t]
      ensures sessions == DropLive(old(sessions), kind, subject)
    {
      sessions := map t | t in sessions && !(sessions[t].Of(kind, subject) && sessions[t].Live()) :: sessions[t];
    }

    method CompleteLogin(kind: Kind, subject: string, minted: Token, ttlMs: int, now: int) returns (r: Outcome)
      modifies this`sessions
      ensures sessions == OpenSession(old(sessions), kind, subject, minted, now + ttlMs)
      ensures r == Granted(kind, subject, ttlMs / 1000)
    {
      RevokeOtherRefreshSessions(kind, subject);
      sessions := sessions[minted := Session(kind, subject, now + ttlMs, None)];
      r := Granted(kind, subject, ttlMs / 1000);
    }

    method RefreshFromCookie(cookie: Option<Token>, minted: Token, now: int) returns (r: Outcome)
      requires OneLive(sessions)
      modifies this`sessions
      ensures (State(), r) == Refresh(old(State()), cfg, cookie, minted, now)
    {
      if cookie.None? {
        return Denied(NoCookie);
      }
      var hash := cookie.value;
      if hash in sessions && sessions[hash].revokedAt.Some? {
        var row := sessions[hash];
        if now - row.revokedAt.value <= GRACE_MS {
          if t :| t in sessions && Usable(sessions, t, row.kind, row.subject, now) {
            if row.kind == Platform {
              if row.subject in admins && admins[row.subject].active {
                return Granted(Platform, row.subject, Max(1, (sessions[t].expiresAt - now) / 1000));
              }
            } else if row.subject in users && users[row.subject].active {
              return Granted(Tenant, row.subject, Max(1, (sessions[t].expiresAt - now) / 1000));
            }
          }
        }
        sessions := map t | t in sessions ::
          if sessions[t].Of(row.kind, row.subject) && sessions[t].Live()
          then sessions[t].(revokedAt := Some(now)) else sessions[t];
        return Denied(SessionCompromised);
      }
      if hash !in sessions || sessions[hash].expiresAt <= now {
        return Denied(SessionExpired);
      }
      var row := sessions[hash];
      if row.kind != Tenant && row.kind != Platform {
        return Denied(SessionInvalid);
      }
      sessions := sessions[hash := row.(revokedAt := Some(now))];
      if row.kind == Platform {
        if row.subject !in admins || !admins[row.subject].active {
          return Denied(AccountInactive);
        }
        r := CompleteLogin(Platform, row.subject, minted, cfg.refreshMs, now);
        return;
      }
      if row.subject !in users || !users[row.subject].active {
        return Denied(AccountInactive);
      }
      r := CompleteLogin(Tenant, row.subject, minted, cfg.refreshMs, now);
    }

    method LogoutFromCookie(cookie: Option<Token>, now: int)
      modifies this`sessions
      ensures State() == Logout(old(State()), cookie, now)
    {
      if cookie.Some? {
        var hash := cookie.value;
        if hash in sessions && sessions[hash].revokedAt.None? {
          sessions := sessions[hash := sessions[hash].(revokedAt := Some(now))];
        }
      }
    }

    /** `slugOk`: no entity is named, or it is the one of the account. */
    method CompleteOAuthExchange(t: Token, slugOk: bool, now: int) returns (r: Outcome)
      ensures r == Exchange(State(), t, slugOk, now)
    {
      if t !in sessions || sessions[t].expiresAt <= now {
        return Denied(SessionExpired);
      }
      var row := sessions[t];
      var refreshSec := Max(1, (row.expiresAt - now) / 1000);
      if row.kind == Platform {
        if row.subject !in admins || !admins[row.subject].active {
          return Denied(SessionInvalid);
        }
        return Granted(Platform, row.subject, refreshSec);
      }
      if row.subject !in users || !users[row.subject].active || !slugOk {
        return Denied(SessionInvalid);
      }
      return Granted(Tenant, row.subject, refreshSec);
    }

    method IssuePasswordReset(kind: Kind, subject: string, email: string, minted: Token, now: int)
      modifies this`resets
      ensures State() == IssueReset(old(State()), cfg, kind, subject, email, minted, now)
    {
      resets := map t | t in resets && !(resets[t].kind == kind && resets[t].subject == subject && resets[t].usedAt.None?)
        :: resets[t];
      resets := resets[minted := Reset(kind, subject, email, now + cfg.resetTtlMs, None)];
    }

    /** Ends the sessions of the accounts one by one, as the loop after the transaction does. */
    method EndSessionsOf(accounts: set<string>)
      modifies this`sessions
      ensures sessions == EndSessions(old(sessions), accounts)
    {
      var pending := accounts;
      while pending != {}
        invariant pending <= accounts
        invariant sessions == EndSessions(old(sessions), accounts - pending)
      {
        var u :| u in pending;
        RevokeOtherRefreshSessions(Tenant, u);
        pending := pending - {u};
      }
    }

    method SyncPasswordHashByEmail(email: string, newHash: string)
      modifies this`users
      ensures users.Keys == old(users).Keys
      ensures forall u :: u in users ==>
                users[u] == if old(users)[u].email == email
                            then old(users)[u].(passwordHash := newHash, mustChangePassword := false)
                            else old(users)[u]
      ensures users == SyncPasswordHash(old(users), email, newHash)
    {
      users := map u | u in users ::
        if users[u].email == email then users[u].(passwordHash := newHash).(mustChangePassword := false) else users[u];
    }

    method ConfirmEmail(email: string)
      modifies this`users
      ensures users == MarkVerified(old(users), email)
    {
      users := map u | u in users ::
        if users[u].email == email && users[u].active && !users[u].emailVerified
        then users[u].(emailVerified := true) else users[u];
    }

    method ConfirmTenantPasswordReset(t: Token, refOk: bool, mfa: MfaReply, newHash: string, now: int) returns (r: Outcome)
      modifies this`sessions, this`resets, this`users
      ensures (State(), r) == ConfirmTenant(old(State()), cfg, t, refOk, mfa, newHash, now)
    {
      if !ValidReset(State(), t, now) || resets[t].kind != Tenant || !refOk {
        return Denied(LinkInvalid);
      }
      var row := resets[t];
      var email := cfg.normalizeEmail(row.email);
      var siblings := set u | u in users && users[u].email == email && users[u].active;
      assert siblings == Siblings(State(), cfg, row.email);
      if row.subject !in siblings {
        return Denied(LinkInvalid);
      }
      if exists u :: u in siblings && users[u].mfaEnabled {
        if mfa == NoCode {
          return Denied(MfaCodeRequired);
        }
        if mfa == WrongCode {
          return Denied(MfaCodeWrong);
        }
      }
      SyncPasswordHashByEmail(email, newHash);
      resets := resets[t := row.(usedAt := Some(now))];
      ConfirmEmail(email);
      EndSessionsOf(siblings);
      return Accepted;
    }

    method ConfirmPlatformPasswordReset(t: Token, refOk: bool, newHash: string, now: int) returns (r: Outcome)
      modifies this`sessions, this`resets, this`admins
      ensures (State(), r) == ConfirmPlatform(old(State()), t, refOk, newHash, now)
    {
      if !ValidReset(State(), t, now) || resets[t].kind != Platform || !refOk {
        return Denied(LinkInvalid);
      }
      var row := resets[t];
      if row.subject !in admins {
        return Denied(AccountMissing);
      }
      admins := admins[row.subject := admins[row.subject].(passwordHash := newHash)];
      resets := resets[t := row.(usedAt := Some(now))];
      RevokeOtherRefreshSessions(Platform, row.subject);
      return Accepted;
    }
  }
}
