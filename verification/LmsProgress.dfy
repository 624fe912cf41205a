/** Progress rows of LMS tasks and their three writers: the learner's path, SCORM packages and quizzes. */
module LmsProgress {
  import opened Wrappers
  import opened Text

  type Id = string

  datatype Row = Row(percent: int, score: Option<int>, attempts: nat, completedAt: Option<int>)

  datatype Key = Key(enrolment: Id, task: Id)

  type Rows = map<Key, Row>

  // ---- What a SCORM package reports ----

  type Cmi = map<string, string>

  /** The number a text stands for. */
  datatype Num = NaN | NegInf | PosInf | Finite(value: real)

  function Get(cmi: Cmi, key: string): Option<string> { if key in cmi then Some(cmi[key]) else None }

  function Or(a: Option<string>, b: Option<string>): Option<string> { if a.Some? then a else b }

  function LowerChar(c: char): char { if 'A' <= c <= 'Z' then (c as int + 32) as char else c }

  function Lower(s: string): string { seq(|s|, i requires 0 <= i < |s| => LowerChar(s[i])) }

  function Status(s: Option<string>): string { Trim(Lower(s.GetOr(""))) }

  const PERCENT_OF: map<string, int> := map["not attempted" := 0, "incomplete" := 25, "browsed" := 50,
                                            "completed" := 100, "passed" := 100, "failed" := 50]

  /** Names the lookup finds on every object; what it finds is no number. */
  const INHERITED := {"constructor", "__proto__"}

  /** Lowest value of the column. */
  const MIN_INT := -0x8000_0000

  /** A number capped at 100, as the column takes it: whole and in range, or the write is refused. */
  function Stored(n: Num): Option<int> {
    match n
    case PosInf => Some(100)
    case Finite(x) =>
      var y := if x > 100.0 then 100.0 else x;
      if y == y.Floor as real && MIN_INT <= y.Floor then Some(y.Floor) else None
    case _ => None
  }

  function AtLeastZero(n: Num): Num {
    match n
    case NegInf => Finite(0.0)
    case Finite(x) => if x < 0.0 then Finite(0.0) else n
    case _ => n
  }

  /** Hundred times the number, rounded half up. */
  function Percentage(n: Num): Num {
    if n.Finite? then Finite((100.0 * n.value + 0.5).Floor as real) else n
  }

  function LessonStatus(cmi: Cmi): string { Status(Or(Get(cmi, "cmi.core.lesson_status"), Get(cmi, "cmi.completion_status"))) }

  function SuccessStatus(cmi: Cmi): string { Status(Or(Get(cmi, "cmi.core.lesson_status"), Get(cmi, "cmi.success_status"))) }

  predicate Given(cmi: Cmi, key: string) { key in cmi && cmi[key] != "" }

  datatype Written = Refused | Write(percent: int, score: Option<int>)

  /** The percentage reported: Ok(None) if nothing is reported, Err if it cannot be stored. */
  function ReportedPercent(cmi: Cmi, number: string -> Num): Result<Option<int>, ()> {
    var status := LessonStatus(cmi);
    if status in PERCENT_OF then Ok(Some(PERCENT_OF[status]))
    else if status in INHERITED then Err(())
    else if SuccessStatus(cmi) == "passed" then Ok(Some(100))
    else if SuccessStatus(cmi) == "failed" then Ok(Some(50))
    else if Given(cmi, "cmi.core.score.raw") then
      var p := Stored(number(cmi["cmi.core.score.raw"]));
      if p.Some? then Ok(p) else Err(())
    else if Given(cmi, "cmi.score.scaled") then
      var p := Stored(Percentage(number(cmi["cmi.score.scaled"])));
      if p.Some? then Ok(p) else Err(())
    else Ok(None)
  }

  function RawScore(cmi: Cmi): Option<string> { Or(Get(cmi, "cmi.core.score.raw"), Get(cmi, "cmi.score.raw")) }

  function CommitWrite(cmi: Cmi, number: string -> Num): Written {
    var p := ReportedPercent(cmi, number);
    var raw := RawScore(cmi);
    if p.Err? then Refused
    else if raw.None? || raw.value == "" then Write(p.value.GetOr(0), None)
    else
      var score := Stored(AtLeastZero(number(raw.value)));
      if score.Some? then Write(p.value.GetOr(0), score) else Refused
  }

  lemma StoredFull(n: Num)
    ensures Stored(n) == Some(100) <==> n == PosInf || (n.Finite? && n.value >= 100.0)
    ensures Stored(n).Some? ==> Stored(n).value <= 100
  {
  }

  lemma PercentageFull(n: Num)
    ensures Stored(Percentage(n)) == Some(100) <==> n == PosInf || (n.Finite? && n.value >= 0.995)
  {
    StoredFull(Percentage(n));
  }

  predicate Done(status: string) { status == "completed" || status == "passed" }

  predicate Known(status: string) {
    status in {"not attempted", "incomplete", "browsed", "completed", "passed", "failed"}
  }

  predicate Full(n: Num, least: real) { n == PosInf || (n.Finite? && n.value >= least) }

  /** The score alone amounts to the whole: the raw one if there is one, otherwise the scaled one. */
  predicate FullByScore(cmi: Cmi, number: string -> Num) {
    if Given(cmi, "cmi.core.score.raw") then Full(number(cmi["cmi.core.score.raw"]), 100.0)
    else Given(cmi, "cmi.score.scaled") && Full(number(cmi["cmi.score.scaled"]), 0.995)
  }

  /**
   The report amounts to the whole: by its lesson status; failing a known one, by success status;
   failing both, by a raw score of at least 100 or, without one, a scaled score of at least 0.995.
   */
  predicate ReportsAll(cmi: Cmi, number: string -> Num) {
    var (lesson, success) := (LessonStatus(cmi), SuccessStatus(cmi));
    && lesson !in INHERITED
    && (Done(lesson)
        || (!Known(lesson) && success == "passed")
        || (!Known(lesson) && success != "passed" && success != "failed" && FullByScore(cmi, number)))
  }

  lemma ReportsAllIff(cmi: Cmi, number: string -> Num)
    ensures ReportsAll(cmi, number) <==> ReportedPercent(cmi, number) == Ok(Some(100))
    ensures var p := ReportedPercent(cmi, number); p.Ok? && p.value.Some? ==> p.value.value <= 100
  {
    hide Stored, Percentage, LessonStatus, SuccessStatus;
    StatusTable(LessonStatus(cmi));
    if Given(cmi, "cmi.core.score.raw") {
      StoredFull(number(cmi["cmi.core.score.raw"]));
    } else if Given(cmi, "cmi.score.scaled") {
      StoredFull(Percentage(number(cmi["cmi.score.scaled"])));
      PercentageFull(number(cmi["cmi.score.scaled"]));
    }
    hide Known, Done, PERCENT_OF, INHERITED;
  }

  lemma StatusTable(s: string)
    ensures s in PERCENT_OF <==> Known(s)
    ensures Known(s) ==> (PERCENT_OF[s] == 100 <==> Done(s)) && 0 <= PERCENT_OF[s] <= 100
    ensures Known(s) ==> s !in INHERITED
  {
  }

  /** The percentage that each lesson status stands for. */
  lemma StatusPercent(cmi: Cmi, number: string -> Num)
    ensures var (s, p) := (LessonStatus(cmi), ReportedPercent(cmi, number));
            && (s == "not attempted" ==> p == Ok(Some(0))) && (s == "incomplete" ==> p == Ok(Some(25)))
            && (s == "browsed" ==> p == Ok(Some(50))) && (s == "failed" ==> p == Ok(Some(50)))
            && (s == "completed" || s == "passed" ==> p == Ok(Some(100)))
            && (!Known(s) && s !in {"constructor", "__proto__"} ==>
                  && (SuccessStatus(cmi) == "passed" ==> p == Ok(Some(100)))
                  && (SuccessStatus(cmi) == "failed" ==> p == Ok(Some(50))))
  {
    StatusTable(LessonStatus(cmi));
    hide LessonStatus, SuccessStatus, Stored, Percentage;
  }

  /** Where the statuses come from: the key of SCORM 1.2 before that of SCORM 2004. */
  lemma StatusKeys(cmi: Cmi)
    ensures var core := "cmi.core.lesson_status";
            && (core in cmi ==> LessonStatus(cmi) == Trim(Lower(cmi[core])) && SuccessStatus(cmi) == Trim(Lower(cmi[core])))
            && (core !in cmi && "cmi.completion_status" in cmi ==> LessonStatus(cmi) == Trim(Lower(cmi["cmi.completion_status"])))
            && (core !in cmi && "cmi.success_status" in cmi ==> SuccessStatus(cmi) == Trim(Lower(cmi["cmi.success_status"])))
  {
    hide Trim, Lower;
  }

  /** A whole score between 0 and 100 is stored as it is, a higher one as 100, a lower one as 0. */
  lemma ScoreStored(cmi: Cmi, number: string -> Num, n: int)
    requires ReportedPercent(cmi, number).Ok?
    requires var raw := RawScore(cmi); raw.Some? && raw.value != "" && number(raw.value) == Finite(n as real)
    ensures CommitWrite(cmi, number) ==
            Write(ReportedPercent(cmi, number).value.GetOr(0), Some(if n < 0 then 0 else if n > 100 then 100 else n))
  {
    hide ReportedPercent, RawScore;
  }

  /** An endless score is stored as the nearest limit; no number, or a fraction, refuses the report. */
  lemma ScoreExtremes(cmi: Cmi, number: string -> Num)
    requires ReportedPercent(cmi, number).Ok? && RawScore(cmi).Some? && RawScore(cmi).value != ""
    ensures var (n, p, w) := (number(RawScore(cmi).value), ReportedPercent(cmi, number).value.GetOr(0), CommitWrite(cmi, number));
            && (n == NegInf ==> w == Write(p, Some(0))) && (n == PosInf ==> w == Write(p, Some(100)))
            && (n == NaN ==> w == Refused)
            && (n.Finite? && 0.0 < n.value < 100.0 && n.value != n.value.Floor as real ==> w == Refused)
  {
    hide ReportedPercent, RawScore;
  }

  /** Nothing is stored for a status that only names something every object has. */
  lemma InheritedRefused(cmi: Cmi, number: string -> Num)
    ensures LessonStatus(cmi) == "constructor" || LessonStatus(cmi) == "__proto__" ==> CommitWrite(cmi, number) == Refused
  {
    StatusTable(LessonStatus(cmi));
    hide LessonStatus;
  }

  /** What the column takes: a whole number from -2147483648 on, capped at 100. */
  lemma StoredIff(n: Num, v: int)
    ensures Stored(n) == Some(v) <==>
            (v == 100 && (n == PosInf || (n.Finite? && n.value >= 100.0)))
            || (-2147483648 <= v < 100 && n == Finite(v as real))
  {
  }

  lemma LowerIs(s: string, i: nat)
    requires i < |s|
    ensures |Lower(s)| == |s| && Lower(s)[i] as int == s[i] as int + if 65 <= s[i] as int <= 90 then 32 else 0
  {
  }

  lemma RawScoreKeys(cmi: Cmi)
    ensures "cmi.core.score.raw" in cmi ==> RawScore(cmi) == Some(cmi["cmi.core.score.raw"])
    ensures "cmi.core.score.raw" !in cmi && "cmi.score.raw" in cmi ==> RawScore(cmi) == Some(cmi["cmi.score.raw"])
    ensures "cmi.core.score.raw" !in cmi && "cmi.score.raw" !in cmi ==> RawScore(cmi) == None
  {
  }

  // ---- The three writers ----

  /** No percentage leaves the stored one; a given score, or one derived from the percentage, replaces the stored one. */
  function PathScore(percent: Option<int>, score: Option<int>): Option<int> {
    var p := percent.GetOr(0);
    if score.Some? then score else if p >= 100 then Some(100) else if p > 0 then Some(p) else None
  }

  function Merge(rows: Rows, k: Key, percent: Option<int>, score: Option<int>, completedAt: Option<int>): Rows {
    if k in rows then
      var r := rows[k];
      rows[k := Row(percent.GetOr(r.percent), if score.Some? then score else r.score, r.attempts + 1,
                    if completedAt.Some? then completedAt else r.completedAt)]
    else rows[k := Row(percent.GetOr(0), score, 1, completedAt)]
  }

  function When(now: int, percent: int): Option<int> { if percent >= 100 then Some(now) else None }

  /** The share of points earned, rounded half up; no closed question scores nothing. */
  function QuizScore(earned: nat, total: nat): nat {
    if total > 0 then (200 * earned + total) / (2 * total) else 0
  }

  const DEFAULT_MINIMUM := 60

  predicate QuizPassed(earned: nat, total: nat, minimum: Option<nat>) {
    QuizScore(earned, total) >= minimum.GetOr(DEFAULT_MINIMUM)
  }

  datatype Step =
    | Path(key: Key, percent: Option<int>, score: Option<int>, now: int)
    | Commit(key: Key, cmi: Cmi, now: int)
    | Quiz(key: Key, earned: nat, total: nat, minimum: Option<nat>, now: int)

  /** The limits on requests: percentages, scores and minimum marks between 0 and 100. */
  predicate Allowed(s: Step) {
    match s
    case Path(_, percent, score, _) =>
      (percent.Some? ==> 0 <= percent.value <= 100) && (score.Some? ==> 0 <= score.value <= 100)
    case Commit(_, _, _) => true
    case Quiz(_, earned, total, minimum, _) => earned <= total && (minimum.Some? ==> minimum.value <= 100)
  }

  function Apply(rows: Rows, s: Step, number: string -> Num): Rows {
    match s
    case Path(k, percent, score, now) =>
      Merge(rows, k, percent, PathScore(percent, score), When(now, percent.GetOr(0)))
    case Commit(k, cmi, now) =>
      var w := CommitWrite(cmi, number);
      if w.Refused? then rows else Merge(rows, k, Some(w.percent), w.score, When(now, w.percent))
    case Quiz(k, earned, total, minimum, now) =>
      var (score, passed) := (QuizScore(earned, total), QuizPassed(earned, total, minimum));
      rows[k := Row(if passed then 100 else score, Some(score), if k in rows then rows[k].attempts + 1 else 1,
                    if passed then Some(now) else None)]
  }

  class ProgressService {
    var rows: Rows

    constructor ()
      ensures rows == map[]
    {
      rows := map[];
    }

    method UpdateProgress(k: Key, percent: Option<int>, score: Option<int>, now: int)
      modifies this
      ensures rows == Apply(old(rows), Path(k, percent, score, now), _ => NaN)
    {
      var p := percent.GetOr(0);
      var given := if score.Some? then score else if p >= 100 then Some(100) else if p > 0 then Some(p) else None;
      var completedAt := if p >= 100 then Some(now) else None;
      if k in rows {
        var r := rows[k];
        rows := rows[k := r.(percent := percent.GetOr(r.percent), attempts := r.attempts + 1,
                             score := if given.Some? then given else r.score,
                             completedAt := if completedAt.Some? then completedAt else r.completedAt)];
      } else {
        rows := rows[k := Row(p, given, 1, completedAt)];
      }
    }

    /** A report whose percentage or score is no whole number is refused by the table and changes nothing. */
    method CommitCmi(k: Key, cmi: Cmi, now: int, number: string -> Num) returns (ok: bool)
      modifies this
      ensures rows == Apply(old(rows), Commit(k, cmi, now), number)
      ensures ok <==> CommitWrite(cmi, number).Write?
      ensures ok ==> k in rows && (rows[k].completedAt == Some(now) || !ReportsAll(cmi, number))
    {
      hide LessonStatus, SuccessStatus, Stored, Percentage, AtLeastZero;
      ReportsAllIff(cmi, number);
      hide ReportsAll;
      var lesson, success := LessonStatus(cmi), SuccessStatus(cmi);
      var percent: Option<int> := None;
      if lesson in PERCENT_OF {
        percent := Some(PERCENT_OF[lesson]);
      } else if lesson in INHERITED {
        return false;
      }
      if percent.None? && success == "passed" {
        percent := Some(100);
      }
      if percent.None? && success == "failed" {
        percent := Some(50);
      }
      if percent.None? && Given(cmi, "cmi.core.score.raw") {
        percent := Stored(number(cmi["cmi.core.score.raw"]));
        if percent.None? {
          return false;
        }
      }
      if percent.None? && Given(cmi, "cmi.score.scaled") {
        percent := Stored(Percentage(number(cmi["cmi.score.scaled"])));
        if percent.None? {
          return false;
        }
      }
      hide PERCENT_OF, INHERITED;
      var raw := RawScore(cmi);
      var score: Option<int> := None;
      if raw.Some? && raw.value != "" {
        score := Stored(AtLeastZero(number(raw.value)));
        if score.None? {
          return false;
        }
      }
      var p := percent.GetOr(0);
      rows := Merge(rows, k, Some(p), score, When(now, p));
      ok := true;
    }

    /** A failed quiz clears the completion date. */
    method SubmitQuiz(k: Key, earned: nat, total: nat, minimum: Option<nat>, now: int) returns (passed: bool)
      modifies this
      ensures rows == Apply(old(rows), Quiz(k, earned, total, minimum, now), _ => NaN)
      ensures passed <==> QuizPassed(earned, total, minimum)
    {
      var score := QuizScore(earned, total);
      passed := score >= minimum.GetOr(DEFAULT_MINIMUM);
      var attempts := if k in rows then rows[k].attempts + 1 else 1;
      rows := rows[k := Row(if passed then 100 else score, Some(score), attempts, if passed then Some(now) else None)];
    }
  }

  // ---- Single steps ----

  predicate Completed(rows: Rows, k: Key) { k in rows && rows[k].completedAt.Some? }

  /** A full percentage is always accompanied by a completion date. */
  predicate WellKept(rows: Rows) {
    forall k :: k in rows ==> (rows[k].percent >= 100 ==> rows[k].completedAt.Some?) && rows[k].percent <= 100
  }

  predicate Completes(s: Step, k: Key, number: string -> Num) {
    s.key == k &&
    match s
    case Path(_, percent, _, _) => percent == Some(100)
    case Commit(_, cmi, _) => ReportsAll(cmi, number) && CommitWrite(cmi, number).Write?
    case Quiz(_, earned, total, minimum, _) => QuizPassed(earned, total, minimum)
  }

  predicate FailsQuiz(s: Step, k: Key) {
    s.Quiz? && s.key == k && !QuizPassed(s.earned, s.total, s.minimum)
  }

  predicate Accepted(s: Step, k: Key, number: string -> Num) {
    s.key == k && (s.Commit? ==> CommitWrite(s.cmi, number).Write?)
  }

  lemma ScoreAtMostHundred(earned: nat, total: nat)
    requires earned <= total
    ensures QuizScore(earned, total) <= 100
  {
    if total > 0 {
      var n := 200 * earned + total;
      assert n < 101 * (2 * total);
      assert (n / (2 * total)) * (2 * total) <= n;
      Quotient(n / (2 * total), 2 * total);
    }
  }

  lemma Quotient(q: nat, d: nat)
    requires q * d < 101 * d
    ensures q <= 100
  {
    assert q >= 101 ==> q * d >= 101 * d;
  }

  /** One step: completion appears with a completing step, goes only with a failed quiz, and otherwise stays as it was. */
  lemma StepCompletion(rows: Rows, s: Step, k: Key, number: string -> Num)
    requires Allowed(s)
    ensures var n := Apply(rows, s, number);
            && (Completes(s, k, number) ==> Completed(n, k) && n[k].completedAt == Some(s.now))
            && (FailsQuiz(s, k) ==> !Completed(n, k))
            && (!Completes(s, k, number) && !FailsQuiz(s, k) ==>
                  (Completed(n, k) <==> Completed(rows, k))
                  && (Completed(rows, k) ==> n[k].completedAt == rows[k].completedAt))
  {
    hide ReportedPercent, ReportsAll, QuizScore, RawScore, Stored, AtLeastZero;
    if s.Commit? {
      ReportsAllIff(s.cmi, number);
    }
  }

  lemma StepWellKept(rows: Rows, s: Step, number: string -> Num)
    requires Allowed(s) && WellKept(rows)
    ensures WellKept(Apply(rows, s, number))
  {
    hide ReportedPercent, ReportsAll, QuizScore, RawScore, Stored, AtLeastZero;
    if s.Commit? {
      ReportsAllIff(s.cmi, number);
    }
    if s.Quiz? {
      ScoreAtMostHundred(s.earned, s.total);
    }
  }

  /** The nearest whole percentage of the points, halves up. */
  lemma QuizScoreNearest(earned: nat, total: nat)
    ensures total == 0 ==> QuizScore(earned, total) == 0
    ensures total > 0 ==>
              var q := QuizScore(earned, total);
              2 * total * q <= 200 * earned + total < 2 * total * q + 2 * total
  {
    if total > 0 {
      var n, d := 200 * earned + total, 2 * total;
      assert (n / d) * d <= n < (n / d) * d + d;
    }
  }

  /** What a step writes into the row it is for, column by column. */
  lemma StepRow(rows: Rows, s: Step, number: string -> Num)
    requires Accepted(s, s.key, number)
    ensures var n := Apply(rows, s, number);
            && s.key in n
            && var (before, row) := (if s.key in rows then rows[s.key] else Row(0, None, 0, None), n[s.key]);
            && row.attempts == before.attempts + 1
            && match s
               case Path(_, percent, score, now) =>
                 && row.percent == (if percent.Some? then percent.value else before.percent)
                 && row.score == (if score.Some? then score
                                  else if percent.Some? && percent.value >= 100 then Some(100)
                                  else if percent.Some? && percent.value > 0 then percent else before.score)
                 && row.completedAt == (if percent.Some? && percent.value >= 100 then Some(now) else before.completedAt)
               case Commit(_, cmi, now) =>
                 var w := CommitWrite(cmi, number);
                 && row.percent == w.percent && row.score == (if w.score.Some? then w.score else before.score)
                 && row.completedAt == (if w.percent >= 100 then Some(now) else before.completedAt)
               case Quiz(_, earned, total, minimum, now) =>
                 var (q, least) := (QuizScore(earned, total), if minimum.Some? then minimum.value else 60);
                 && row.score == Some(q)
                 && row.percent == (if q >= least then 100 else q)
                 && row.completedAt == (if q >= least then Some(now) else None)
  {
    hide CommitWrite, QuizScore;
  }

  function Attempts(rows: Rows, k: Key): nat { if k in rows then rows[k].attempts else 0 }

  lemma StepAttempts(rows: Rows, s: Step, k: Key, number: string -> Num)
    ensures Attempts(Apply(rows, s, number), k) == Attempts(rows, k) + if Accepted(s, k, number) then 1 else 0
  {
    hide CommitWrite, QuizScore;
  }

  // ---- Runs from the empty table ----

  function After(tr: seq<Step>, number: string -> Num): Rows {
    if tr == [] then map[] else Apply(After(tr[..|tr| - 1], number), tr[|tr| - 1], number)
  }

  predicate AllAllowed(tr: seq<Step>) { forall i :: 0 <= i < |tr| ==> Allowed(tr[i]) }

  lemma {:induction false} RunWellKept(tr: seq<Step>, number: string -> Num)
    requires AllAllowed(tr)
    ensures WellKept(After(tr, number))
  {
    hide Apply, WellKept, Allowed;
    if tr != [] {
      RunWellKept(tr[..|tr| - 1], number);
      StepWellKept(After(tr[..|tr| - 1], number), tr[|tr| - 1], number);
    } else {
      EmptyWellKept();
    }
  }

  lemma EmptyWellKept()
    ensures WellKept(map[])
  {
  }

  function AcceptedCount(tr: seq<Step>, k: Key, number: string -> Num): nat {
    if tr == [] then 0 else
      AcceptedCount(tr[..|tr| - 1], k, number) + if Accepted(tr[|tr| - 1], k, number) then 1 else 0
  }

  /** The attempts counted are the accepted writes. */
  lemma {:induction false} AttemptsCounted(tr: seq<Step>, k: Key, number: string -> Num)
    ensures Attempts(After(tr, number), k) == AcceptedCount(tr, k, number)
  {
    hide Apply, Accepted;
    if tr == [] {
    } else {
      AttemptsCounted(tr[..|tr| - 1], k, number);
      StepAttempts(After(tr[..|tr| - 1], number), tr[|tr| - 1], k, number);
    }
  }

  /** The i-th step completes the row and no later one completes it again or fails its quiz. */
  predicate LastCompletes(tr: seq<Step>, k: Key, number: string -> Num, i: int) {
    && 0 <= i < |tr| && Completes(tr[i], k, number)
    && forall j :: i < j < |tr| ==> !Completes(tr[j], k, number) && !FailsQuiz(tr[j], k)
  }

  ghost predicate CompletedIn(tr: seq<Step>, k: Key, number: string -> Num, at: int) {
    exists i :: LastCompletes(tr, k, number, i) && tr[i].now == at
  }

  lemma CompletedInStep(tr: seq<Step>, k: Key, number: string -> Num, at: int)
    requires tr != []
    ensures var (front, s) := (tr[..|tr| - 1], tr[|tr| - 1]);
            CompletedIn(tr, k, number, at) <==>
            if Completes(s, k, number) then s.now == at
            else !FailsQuiz(s, k) && CompletedIn(front, k, number, at)
  {
    hide Completes, FailsQuiz;
    var n := |tr| - 1;
    var front := tr[..n];
    if Completes(tr[n], k, number) {
      assert LastCompletes(tr, k, number, n);
      assert forall i :: LastCompletes(tr, k, number, i) ==> !(i < n < |tr|);
    } else {
      forall i | 0 <= i < n
        ensures LastCompletes(tr, k, number, i) <==> LastCompletes(front, k, number, i) && !FailsQuiz(tr[n], k)
      {
        assert LastCompletes(tr, k, number, i) ==> forall j :: i < j < n ==> front[j] == tr[j];
      }
      assert forall i :: LastCompletes(front, k, number, i) ==> front[i] == tr[i];
    }
  }

  /**
   After any run a task is completed exactly when some step completed it and no failed quiz came
   later; the date is that of the last completing step.
   */
  lemma {:induction false} CompletionHistory(tr: seq<Step>, k: Key, number: string -> Num, at: int)
    requires AllAllowed(tr)
    ensures Completed(After(tr, number), k) && After(tr, number)[k].completedAt == Some(at) <==> CompletedIn(tr, k, number, at)
  {
    hide Apply, Allowed, Completes, FailsQuiz;
    if tr != [] {
      CompletionHistory(tr[..|tr| - 1], k, number, at);
      StepCompletion(After(tr[..|tr| - 1], number), tr[|tr| - 1], k, number);
      CompletedInStep(tr, k, number, at);
      hide CompletedIn;
    } else {
      hide After;
      NothingCompleted(k, number);
    }
  }

  lemma NothingCompleted(k: Key, number: string -> Num)
    ensures !Completed(After([], number), k)
    ensures forall at :: !CompletedIn([], k, number, at)
  {
  }

  /** Where no quiz writes, completion is for good, whatever the percentage becomes. */
  lemma {:induction false} CompletedForever(tr: seq<Step>, more: seq<Step>, k: Key, number: string -> Num)
    requires AllAllowed(tr + more) && Completed(After(tr, number), k)
    requires forall i :: 0 <= i < |more| ==> !(more[i].Quiz? && more[i].key == k)
    ensures Completed(After(tr + more, number), k)
  {
    hide Apply, Allowed, Completes;
    if more == [] {
      assert tr + more == tr;
    } else {
      var n := |more| - 1;
      var all := tr + more;
      assert all[..|all| - 1] == tr + more[..n];
      CompletedForever(tr, more[..n], k, number);
      assert all[|all| - 1] == more[n];
      StepCompletion(After(tr + more[..n], number), more[n], k, number);
      hide AllAllowed, Completed;
    }
  }

  /** A completed task shows 25 per cent after the package is opened again, and stays completed. */
  lemma PercentMayDrop(k: Key, number: string -> Num, now: int)
    ensures var rows := After([Path(k, Some(100), None, now), Commit(k, map["cmi.core.lesson_status" := "incomplete"], now)], number);
            k in rows && rows[k].percent == 25 && Completed(rows, k)
  {
    var cmi: Cmi := map["cmi.core.lesson_status" := "incomplete"];
    Incomplete(cmi, number);
    hide CommitWrite;
    var first, second := Path(k, Some(100), None, now), Commit(k, cmi, now);
    var tr := [first, second];
    assert tr[..1] == [first] && [first][..0] == [];
    assert After([first], number) == Apply(map[], first, number);
  }

  lemma Incomplete(cmi: Cmi, number: string -> Num)
    requires cmi == map["cmi.core.lesson_status" := "incomplete"]
    ensures CommitWrite(cmi, number) == Write(25, None)
  {
    assert Lower("incomplete") == "incomplete";
    TrimKeeps("incomplete");
    assert LessonStatus(cmi) == "incomplete";
  }

  lemma CompletedReport(cmi: Cmi, number: string -> Num)
    requires cmi == map["cmi.core.lesson_status" := "completed"]
    ensures CommitWrite(cmi, number) == Write(100, None)
  {
    assert Lower("completed") == "completed";
    TrimKeeps("completed");
    assert LessonStatus(cmi) == "completed";
  }

  /** A learner who failed a quiz again loses the completion of before. */
  lemma FailedQuizTakesCompletion(rows: Rows, k: Key, number: string -> Num, earned: nat, total: nat, minimum: Option<nat>, now: int)
    requires Completed(rows, k) && earned <= total && (minimum.Some? ==> minimum.value <= 100)
    ensures var s := Quiz(k, earned, total, minimum, now);
            Completed(Apply(rows, s, number), k) <==> QuizPassed(earned, total, minimum)
  {
    StepCompletion(rows, Quiz(k, earned, total, minimum, now), k, number);
    hide Apply;
  }
}
