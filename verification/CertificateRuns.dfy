/** Runs of emissions, revocations and edits: exactly when a presented token is confirmed. */
module CertificateRuns {
  import opened Wrappers
  import opened Text
  import opened Certificates

  datatype Step =
    | Emit(enrolment: Id, token: string, now: int, ttlDays: int)
    | Revoke(enrolment: Id, now: int)
    | Edit(enrolment: Id, content: Content)
    | Attend(enrolment: Id, presences: seq<bool>)

  function Apply(db: Db, env: Env, s: Step): Db {
    match s
    case Emit(m, token, now, ttlDays) =>
      if EmitOk(db, env, m, token) then db.(certs := db.certs[m := Issued(db, env, m, token, now, ttlDays)]) else db
    case Revoke(m, now) =>
      if m in db.certs then db.(certs := db.certs[m := db.certs[m].(revokedAt := Some(now))]) else db
    case Edit(m, content) => if m in db.contents then db.(contents := db.contents[m := content]) else db
    case Attend(m, presences) => db.(presences := db.presences[m := presences])
  }

  function After(start: Db, env: Env, tr: seq<Step>): Db {
    if tr == [] then start else Apply(After(start, env, tr[..|tr| - 1]), env, tr[|tr| - 1])
  }

  /** The i-th step issued the enrolment's certificate. */
  predicate Emits(start: Db, env: Env, tr: seq<Step>, m: Id, i: int)
    requires 0 <= i < |tr|
  {
    tr[i].Emit? && tr[i].enrolment == m && EmitOk(After(start, env, tr[..i]), env, m, tr[i].token)
  }

  predicate LatestEmission(start: Db, env: Env, tr: seq<Step>, m: Id, i: int) {
    0 <= i < |tr| && Emits(start, env, tr, m, i) && forall j :: i < j < |tr| ==> !Emits(start, env, tr, m, j)
  }

  predicate RevokedSince(tr: seq<Step>, m: Id, i: int) {
    exists j :: 0 <= j < |tr| && i < j && tr[j].Revoke? && tr[j].enrolment == m
  }

  predicate Fresh(start: Db) { start.certs == map[] }

  // ---- The table over a run ----

  lemma StepUnique(db: Db, env: Env, s: Step)
    requires Unique(db)
    ensures Unique(Apply(db, env, s))
  {
    hide Payload, PublicCode;
  }

  /** No two rows ever share a public code or a token. */
  lemma {:induction false} RunUnique(start: Db, env: Env, tr: seq<Step>)
    requires Fresh(start)
    ensures Unique(After(start, env, tr))
  {
    if tr == [] {
    } else {
      hide Apply, Unique;
      RunUnique(start, env, tr[..|tr| - 1]);
      StepUnique(After(start, env, tr[..|tr| - 1]), env, tr[|tr| - 1]);
    }
  }

  lemma {:induction false} EnrolmentsKept(start: Db, env: Env, tr: seq<Step>)
    ensures After(start, env, tr).contents.Keys == start.contents.Keys
  {
    hide EmitOk, Issued;
    if tr == [] {
    } else {
      EnrolmentsKept(start, env, tr[..|tr| - 1]);
    }
  }

  /** What the row of an enrolment says, from the last emission and the revocations since. */
  predicate RowTells(start: Db, env: Env, tr: seq<Step>, m: Id, i: int, row: Cert)
    requires 0 <= i < |tr| && tr[i].Emit?
  {
    var before := After(start, env, tr[..i]);
    && m in before.contents
    && row.(revokedAt := None) == Issued(before, env, m, tr[i].token, tr[i].now, tr[i].ttlDays)
    && (row.revokedAt.Some? <==> RevokedSince(tr, m, i))
  }

  lemma LatestStep(start: Db, env: Env, tr: seq<Step>, m: Id, i: int)
    requires tr != []
    ensures var n := |tr| - 1;
            LatestEmission(start, env, tr, m, i) <==>
            if Emits(start, env, tr, m, n) then i == n else LatestEmission(start, env, tr[..n], m, i)
  {
    hide After, EmitOk;
    var n := |tr| - 1;
    var front := tr[..n];
    forall k | 0 <= k < n
      ensures Emits(start, env, front, m, k) <==> Emits(start, env, tr, m, k)
    {
      assert front[..k] == tr[..k] && front[k] == tr[k];
    }
    hide Emits;
  }

  lemma RevokedStep(tr: seq<Step>, m: Id, i: int)
    requires tr != [] && i < |tr| - 1
    ensures var s := tr[|tr| - 1];
            RevokedSince(tr, m, i) <==> RevokedSince(tr[..|tr| - 1], m, i) || (s.Revoke? && s.enrolment == m)
  {
    var front := tr[..|tr| - 1];
    if RevokedSince(tr, m, i) {
      var j :| 0 <= j < |tr| && i < j && tr[j].Revoke? && tr[j].enrolment == m;
      assert j < |front| ==> front[j] == tr[j];
    }
    if RevokedSince(front, m, i) {
      var j :| 0 <= j < |front| && i < j && front[j].Revoke? && front[j].enrolment == m;
      assert tr[j] == front[j];
    }
  }

  lemma EmitStep(start: Db, env: Env, tr: seq<Step>, m: Id)
    requires tr != [] && Emits(start, env, tr, m, |tr| - 1)
    ensures var db := After(start, env, tr);
            m in db.certs && RowTells(start, env, tr, m, |tr| - 1, db.certs[m])
  {
    hide Payload, PublicCode, Taken;
    assert !RevokedSince(tr, m, |tr| - 1);
  }

  lemma OtherStep(db: Db, env: Env, s: Step, m: Id)
    requires !(s.Emit? && s.enrolment == m && EmitOk(db, env, m, s.token))
    ensures var n := Apply(db, env, s);
            && (m in n.certs <==> m in db.certs)
            && (m in db.certs ==>
                  n.certs[m].(revokedAt := None) == db.certs[m].(revokedAt := None)
                  && (n.certs[m].revokedAt.Some? <==> db.certs[m].revokedAt.Some? || (s.Revoke? && s.enrolment == m)))
  {
    hide Issued, EmitOk;
  }

  /** The row of an enrolment is the work of its latest emission and the revocations after it. */
  lemma {:induction false} RowHistory(start: Db, env: Env, tr: seq<Step>, m: Id, i: int)
    requires Fresh(start) && LatestEmission(start, env, tr, m, i)
    ensures var db := After(start, env, tr); m in db.certs && RowTells(start, env, tr, m, i, db.certs[m])
  {
    var n := |tr| - 1;
    var front := tr[..n];
    if Emits(start, env, tr, m, n) {
      LatestStep(start, env, tr, m, i);
      EmitStep(start, env, tr, m);
    } else {
      LatestStep(start, env, tr, m, i);
      RowHistory(start, env, front, m, i);
      OtherStep(After(start, env, front), env, tr[n], m);
      RevokedStep(tr, m, i);
      assert front[..i] == tr[..i] && front[i] == tr[i];
      hide Apply, LatestEmission, RevokedSince, Issued, EmitOk;
    }
  }

  lemma {:induction false} RowFromEmission(start: Db, env: Env, tr: seq<Step>, m: Id)
    requires Fresh(start)
    ensures m in After(start, env, tr).certs <==> exists i :: LatestEmission(start, env, tr, m, i)
  {
    hide LatestEmission, Apply, EmitOk, Issued;
    if tr != [] {
      var n := |tr| - 1;
      RowFromEmission(start, env, tr[..n], m);
      forall i
        ensures LatestEmission(start, env, tr, m, i) <==>
                if Emits(start, env, tr, m, n) then i == n else LatestEmission(start, env, tr[..n], m, i)
      {
        LatestStep(start, env, tr, m, i);
      }
      if Emits(start, env, tr, m, n) {
        EmitStep(start, env, tr, m);
        assert LatestEmission(start, env, tr, m, n);
      } else {
        OtherStep(After(start, env, tr[..n]), env, tr[n], m);
      }
    } else {
      forall i
        ensures !LatestEmission(start, env, tr, m, i)
      {
        NoEmission(start, env, m, i);
      }
    }
  }

  lemma NoEmission(start: Db, env: Env, m: Id, i: int)
    ensures !LatestEmission(start, env, [], m, i)
  {
  }

  // ---- The main result ----

  /** What is presented belongs to the emission: its token, or with the prefix the enrolment's public code. */
  predicate Presents(env: Env, presented: string, m: Id, token: string) {
    if |presented| >= 3 && presented[..3] == "NF-" then "NF-" + env.upper(Take(env.sha(m), 8)) == env.upper(presented)
    else presented == token
  }

  /** The emission at i is what is presented, was not revoked since, has not expired, and still describes an eligible learner. */
  predicate Stands(start: Db, env: Env, tr: seq<Step>, presented: string, m: Id, i: int, now: int, ttlDays: int) {
    && LatestEmission(start, env, tr, m, i)
    && Presents(env, presented, m, tr[i].token)
    && !RevokedSince(tr, m, i)
    && (ttlDays > 0 ==> now - tr[i].now < 86_400_000 * if tr[i].ttlDays > 0 then tr[i].ttlDays else ttlDays)
    && (var then_, end := After(start, env, tr[..i]), After(start, env, tr);
        && m in then_.contents && m in end.contents && Payload(then_.contents[m]) == Payload(end.contents[m])
        && m in end.presences && var ps := end.presences[m]; ps != [] && 200 * Present(ps) >= 119 * |ps|)
  }

  lemma ConfirmsStands(start: Db, env: Env, tr: seq<Step>, presented: string, m: Id, i: int, now: int, ttlDays: int)
    requires Fresh(start) && CollisionFree(env) && LatestEmission(start, env, tr, m, i)
    ensures Confirms(After(start, env, tr), env, presented, m, now, ttlDays) <==>
            Stands(start, env, tr, presented, m, i, now, ttlDays)
  {
    RowHistory(start, env, tr, m, i);
    var then_, end := After(start, env, tr[..i]), After(start, env, tr);
    EnrolmentsKept(start, env, tr);
    EnrolmentsKept(start, env, tr[..i]);
    EligibleIff(PresencesOf(end, m));
    LifetimeIff(tr[i].now, tr[i].ttlDays, ttlDays, now);
    assert env.sha(tr[i].token) == env.sha(presented) <==> tr[i].token == presented;
    assert env.sha(Payload(then_.contents[m])) == env.sha(Payload(end.contents[m])) <==>
           Payload(then_.contents[m]) == Payload(end.contents[m]);
    hide After, Payload, Eligible, Rate, LatestEmission, RevokedSince, StartsWith, Present, PublicCode;
  }

  /**
   After any run what is presented is confirmed exactly when the latest emission of some enrolment
   stands: same token, no revocation since, not expired, same payload, attendance at the threshold.
   */
  lemma ConfirmedIff(start: Db, env: Env, tr: seq<Step>, presented: string, now: int, ttlDays: int)
    requires Fresh(start) && CollisionFree(env)
    ensures (exists m :: Confirms(After(start, env, tr), env, presented, m, now, ttlDays)) <==>
            (exists m, i :: Stands(start, env, tr, presented, m, i, now, ttlDays))
  {
    var end := After(start, env, tr);
    if m :| Confirms(end, env, presented, m, now, ttlDays) {
      assert m in end.certs;
      RowFromEmission(start, env, tr, m);
      var i :| LatestEmission(start, env, tr, m, i);
      hide Confirms, Stands, LatestEmission;
      ConfirmsStands(start, env, tr, presented, m, i, now, ttlDays);
    }
    if m, i :| Stands(start, env, tr, presented, m, i, now, ttlDays) {
      assert LatestEmission(start, env, tr, m, i);
      hide Confirms, Stands, LatestEmission;
      ConfirmsStands(start, env, tr, presented, m, i, now, ttlDays);
    }
  }

  /** If the content certified was free of the separator, the content of now is the same, whatever the edits since. */
  lemma UnchangedContent(start: Db, env: Env, tr: seq<Step>, presented: string, m: Id, i: int, now: int, ttlDays: int)
    requires Stands(start, env, tr, presented, m, i, now, ttlDays)
    requires SeparatorFree(After(start, env, tr[..i]).contents[m]) && Dated(After(start, env, tr).contents[m])
    ensures Same(After(start, env, tr[..i]).contents[m], After(start, env, tr).contents[m])
  {
    PayloadIdentifies(After(start, env, tr[..i]).contents[m], After(start, env, tr).contents[m]);
  }

  /** A token issued before the latest emission is confirmed for nobody who was not issued it last. */
  lemma SupersededTokenDead(start: Db, env: Env, tr: seq<Step>, m: Id, i: int, token: string, now: int, ttlDays: int)
    requires Fresh(start) && CollisionFree(env) && !StartsWith(token, PREFIX)
    requires LatestEmission(start, env, tr, m, i) && tr[i].token != token
    requires forall j :: 0 <= j < |tr| && tr[j].Emit? && tr[j].enrolment != m ==> tr[j].token != token
    ensures !exists o :: Confirms(After(start, env, tr), env, token, o, now, ttlDays)
  {
    ConfirmedIff(start, env, tr, token, now, ttlDays);
    hide After, Payload, EmitOk, Confirms;
    forall o, k
      ensures !Stands(start, env, tr, token, o, k, now, ttlDays)
    {
    }
  }

  /**
   A token that happens to start with the prefix is taken for a public code: unless its upper-case
   form is one, it is never confirmed, not even by the emission that issued it.
   */
  lemma PrefixedTokenUseless(start: Db, env: Env, tr: seq<Step>, token: string, now: int, ttlDays: int)
    requires Fresh(start) && CollisionFree(env)
    requires StartsWith(token, PREFIX) && forall m :: env.upper(token) != PublicCode(env, m)
    ensures !exists m :: Confirms(After(start, env, tr), env, token, m, now, ttlDays)
  {
    ConfirmedIff(start, env, tr, token, now, ttlDays);
    hide After, Payload, EmitOk, Confirms, PublicCode, LatestEmission;
    forall m, i
      ensures !Stands(start, env, tr, token, m, i, now, ttlDays)
    {
    }
  }

  /** Revoking ends it for the token and for the code, until a new emission. */
  lemma RevokedNotConfirmed(start: Db, env: Env, tr: seq<Step>, more: seq<Step>, m: Id, at: int, presented: string, now: int, ttlDays: int)
    requires Fresh(start) && CollisionFree(env)
    requires forall j :: 0 <= j < |more| ==> !(more[j].Emit? && more[j].enrolment == m)
    ensures !Confirms(After(start, env, tr + [Revoke(m, at)] + more), env, presented, m, now, ttlDays)
  {
    var all := tr + [Revoke(m, at)] + more;
    RowFromEmission(start, env, all, m);
    if i :| LatestEmission(start, env, all, m, i) {
      LatestBefore(start, env, tr, more, m, at, i);
      ConfirmsStands(start, env, all, presented, m, i, now, ttlDays);
      hide After, LatestEmission, Payload;
      assert all[|tr|] == Revoke(m, at);
    }
  }

  lemma LatestBefore(start: Db, env: Env, tr: seq<Step>, more: seq<Step>, m: Id, at: int, i: int)
    requires forall j :: 0 <= j < |more| ==> !(more[j].Emit? && more[j].enrolment == m)
    requires LatestEmission(start, env, tr + [Revoke(m, at)] + more, m, i)
    ensures i < |tr|
  {
    hide After, EmitOk;
    var all := tr + [Revoke(m, at)] + more;
    assert all[|tr|] == Revoke(m, at);
    assert forall k :: |tr| < k < |all| ==> all[k] == more[k - |tr| - 1];
  }
}
