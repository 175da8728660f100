/** The alert and verdict tables, the SQL the triage code runs on them, and what the text
    comparisons in that SQL mean for instants. */
module AlertStore {
  import opened Optional
  import opened IsoTime
  import opened JsonLike

  datatype Status = Queued | Deferred | Analyzing | Analyzed | Failed

  /** What groups alerts for inheritance; columns may be NULL. */
  datatype Group = Group(signature: Option<int>, src: Option<string>, dst: Option<string>)

  /** An alert row.  Rows are never deleted and `alert_id` is unique, so a row's position in
      the table stands for its id.  The column `ingest_timestamp` holds IsoFormat(ingest). */
  datatype Alert = Alert(group: Group, ingest: Instant, status: Status, verdict: Option<string>)

  /** A verdict row; `details` stands for the columns that are only copied. */
  datatype Verdict = Verdict(alert: nat, category: string, confidence: real, reasoning: string,
                             details: string, llmInputs: string, isCurrent: bool)

  /** Verdicts are keyed by `verdict_id`, their primary key. */
  datatype Db = Db(alerts: seq<Alert>, verdicts: map<string, Verdict>)

  // ---------------------------------------------------------------- updates

  function SetStatus(db: Db, k: nat, status: Status): Db
    requires k < |db.alerts|
  {
    db.(alerts := db.alerts[k := db.alerts[k].(status := status)])
  }

  function Link(db: Db, k: nat, verdict: string): Db
    requires k < |db.alerts|
  {
    db.(alerts := db.alerts[k := db.alerts[k].(status := Analyzed, verdict := Some(verdict))])
  }

  function Superseded(v: Verdict, k: nat): Verdict {
    if v.alert == k then v.(isCurrent := false) else v
  }

  function MarkSuperseded(db: Db, k: nat): Db {
    db.(verdicts := map id | id in db.verdicts :: Superseded(db.verdicts[id], k))
  }

  function Record(db: Db, id: string, v: Verdict): Db {
    db.(verdicts := db.verdicts[id := v])
  }

  function Insert(db: Db, g: Group, ingest: Instant, status: Status): Db {
    db.(alerts := db.alerts + [Alert(g, ingest, status, None)])
  }

  /** The stores as the program holds them: two mutable tables. */
  class Store {
    var alerts: seq<Alert>
    var verdicts: map<string, Verdict>

    constructor ()
      ensures Contents() == Db([], map[])
    {
      alerts, verdicts := [], map[];
    }

    ghost function Contents(): Db
      reads this
    {
      Db(alerts, verdicts)
    }

    method InsertAlert(g: Group, now: Instant, status: Status) returns (k: nat)
      modifies this
      ensures k == |old(alerts)| && Contents() == Insert(old(Contents()), g, now, status)
    {
      k := |alerts|;
      alerts := alerts + [Alert(g, now, status, None)];
    }

    method UpdateAlertStatus(k: nat, status: Status)
      requires k < |alerts|
      modifies this`alerts
      ensures Contents() == SetStatus(old(Contents()), k, status)
    {
      alerts := alerts[k := alerts[k].(status := status)];
    }

    method RecordVerdict(id: string, v: Verdict) returns (ok: bool)
      modifies this`verdicts
      ensures ok <==> id !in old(verdicts)
      ensures Contents() == if ok then Record(old(Contents()), id, v) else old(Contents())
    {
      ok := id !in verdicts;
      if ok { verdicts := verdicts[id := v]; }
    }

    method MarkPreviousVerdictsSuperseded(k: nat)
      modifies this`verdicts
      ensures Contents() == MarkSuperseded(old(Contents()), k)
    {
      var todo := verdicts.Keys;
      ghost var before := verdicts;
      while todo != {}
        invariant todo <= before.Keys && verdicts.Keys == before.Keys
        invariant forall id :: id in before.Keys ==>
                    verdicts[id] == if id in todo then before[id] else Superseded(before[id], k)
        decreases todo
      {
        var id :| id in todo;
        if verdicts[id].alert == k && verdicts[id].isCurrent {
          verdicts := verdicts[id := verdicts[id].(isCurrent := false)];
        }
        todo := todo - {id};
      }
    }

    method LinkVerdictToAlert(k: nat, verdict: string)
      requires k < |alerts|
      modifies this`alerts
      ensures Contents() == Link(old(Contents()), k, verdict)
    {
      alerts := alerts[k := alerts[k].(status := Analyzed, verdict := Some(verdict))];
    }
  }

  // ---------------------------------------------------------------- queries

  /** SELECT count(*) over rows that are not deferred and whose ingest text is at least `since`. */
  function CountSinceText(alerts: seq<Alert>, since: string): nat {
    if alerts == [] then 0
    else
      var a := alerts[|alerts| - 1];
      CountSinceText(alerts[..|alerts| - 1], since)
      + if a.status != Deferred && AtMost(since, IsoFormat(a.ingest)) then 1 else 0
  }

  /** `count_analyzed_today` with the reset hour read from the environment. */
  function CountAnalyzedToday(alerts: seq<Alert>, now: Instant, resetHour: nat): nat
    requires resetHour < 24
  {
    CountSinceText(alerts, IsoFormat(ResetTime(now, resetHour)))
  }

  /** The rows `query_alerts(status="queued", limit=1)` may return: queued, oldest text first. */
  predicate IsOldestQueued(alerts: seq<Alert>, k: nat) {
    && k < |alerts| && alerts[k].status == Queued
    && forall j :: 0 <= j < |alerts| && alerts[j].status == Queued ==>
         AtMost(IsoFormat(alerts[k].ingest), IsoFormat(alerts[j].ingest))
  }

  const WINDOW: int := HOUR

  predicate GroupKnown(g: Group) {
    g.signature.Some? && g.src.Some? && g.dst.Some?
  }

  /** Row j passes every condition of the inheritance query but the two on ingest time. */
  predicate EligibleRow(db: Db, g: Group, j: nat) {
    && j < |db.alerts| && db.alerts[j].group == g && db.alerts[j].status == Analyzed
    && db.alerts[j].verdict.Some? && db.alerts[j].verdict.value in db.verdicts
    && !Like(PATTERN, db.verdicts[db.alerts[j].verdict.value].llmInputs)
  }

  /** The WHERE clause of `find_recent_verdict_for_group`, comparing text; `bounded` keeps the
      upper bound on ingest time. */
  predicate Matches(db: Db, g: Group, since: string, candidate: string, bounded: bool, j: nat) {
    && EligibleRow(db, g, j)
    && AtMost(since, IsoFormat(db.alerts[j].ingest))
    && (bounded ==> AtMost(IsoFormat(db.alerts[j].ingest), candidate))
  }

  /** r is an answer of `find_recent_verdict_for_group`: NULL group columns find nothing, and
      otherwise a matching row with the greatest ingest text, or None when none matches. */
  ghost predicate IsRecentVerdict(db: Db, g: Group, candidate: Instant, bounded: bool, r: Option<string>)
    requires WINDOW <= candidate
  {
    if !GroupKnown(g) then r == None
    else
      var text := IsoFormat(candidate);
      var since := IsoFormat(candidate - WINDOW);
      match r
      case None => forall j: nat :: !Matches(db, g, since, text, bounded, j)
      case Some(id) => exists j: nat :: NewestMatch(db, g, since, text, bounded, j) && db.alerts[j].verdict == Some(id)
  }

  ghost predicate NewestMatch(db: Db, g: Group, since: string, candidate: string, bounded: bool, j: nat) {
    && Matches(db, g, since, candidate, bounded, j)
    && forall i: nat :: Matches(db, g, since, candidate, bounded, i) ==>
         AtMost(IsoFormat(db.alerts[i].ingest), IsoFormat(db.alerts[j].ingest))
  }

  // ---------------------------------------------------------------- what the queries mean

  /** Rows that are not deferred with ingest time in [lo, hi). */
  function CountBetween(alerts: seq<Alert>, lo: int, hi: int): nat {
    if alerts == [] then 0
    else
      var a := alerts[|alerts| - 1];
      CountBetween(alerts[..|alerts| - 1], lo, hi) + if a.status != Deferred && lo <= a.ingest < hi then 1 else 0
  }

  /** The text filter counts exactly the rows at or after the instant. */
  lemma {:induction false} CountTextIsCount(alerts: seq<Alert>, since: Instant, hi: int)
    requires forall i :: 0 <= i < |alerts| ==> alerts[i].ingest < hi
    ensures CountSinceText(alerts, IsoFormat(since)) == CountBetween(alerts, since, hi)
  {
    if alerts != [] {
      CountTextIsCount(alerts[..|alerts| - 1], since, hi);
      TextOrderIsTimeOrder(since, alerts[|alerts| - 1].ingest);
    }
  }

  /** Oldest by text is oldest by time. */
  lemma OldestQueuedByTime(alerts: seq<Alert>, k: nat)
    ensures IsOldestQueued(alerts, k) <==>
            k < |alerts| && alerts[k].status == Queued &&
            forall j :: 0 <= j < |alerts| && alerts[j].status == Queued ==> alerts[k].ingest <= alerts[j].ingest
  {
    if k < |alerts| {
      forall j | 0 <= j < |alerts|
        ensures AtMost(IsoFormat(alerts[k].ingest), IsoFormat(alerts[j].ingest)) <==> alerts[k].ingest <= alerts[j].ingest
      {
        TextOrderIsTimeOrder(alerts[k].ingest, alerts[j].ingest);
      }
    }
  }

  /** The window on text is the window on time: at most one hour before, and not after. */
  lemma MatchesByTime(db: Db, g: Group, candidate: Instant, bounded: bool, j: nat)
    requires WINDOW <= candidate
    ensures Matches(db, g, IsoFormat(candidate - WINDOW), IsoFormat(candidate), bounded, j) <==>
            EligibleRow(db, g, j) && candidate - WINDOW <= db.alerts[j].ingest
            && (bounded ==> db.alerts[j].ingest <= candidate)
  {
    hide IsoFormat;
    if j < |db.alerts| {
      var x, since := db.alerts[j].ingest, candidate - WINDOW;
      assert AtMost(IsoFormat(since), IsoFormat(x)) <==> since <= x by { TextOrderIsTimeOrder(since, x); }
      assert AtMost(IsoFormat(x), IsoFormat(candidate)) <==> x <= candidate by { TextOrderIsTimeOrder(x, candidate); }
    }
  }

  /** Row j as the source's query describes it, column by column: an analyzed alert of the group
      whose stored verdict does not match the pattern, ingested in the hour up to the candidate. */
  ghost predicate Fit(db: Db, g: Group, candidate: Instant, j: int) {
    && 0 <= j < |db.alerts| && db.alerts[j].status == Analyzed
    && db.alerts[j].group.signature == g.signature && db.alerts[j].group.src == g.src && db.alerts[j].group.dst == g.dst
    && db.alerts[j].verdict.Some? && db.alerts[j].verdict.value in db.verdicts
    && !Like("%\"inherited_from\"%", db.verdicts[db.alerts[j].verdict.value].llmInputs)
    && candidate - 3600 * 1_000_000 <= db.alerts[j].ingest <= candidate
  }

  /** Row j is fit and no fit row is younger. */
  ghost predicate Fittest(db: Db, g: Group, candidate: Instant, j: int) {
    Fit(db, g, candidate, j) && forall i :: Fit(db, g, candidate, i) ==> db.alerts[i].ingest <= db.alerts[j].ingest
  }

  lemma FitMatches(db: Db, g: Group, candidate: Instant, j: nat)
    requires WINDOW <= candidate
    ensures Fit(db, g, candidate, j) <==> Matches(db, g, IsoFormat(candidate - WINDOW), IsoFormat(candidate), true, j)
  {
    hide IsoFormat, AtMost, Like;
    assert PATTERN == "%\"inherited_from\"%";
    MatchesByTime(db, g, candidate, true, j);
  }

  lemma NewestIsFittest(db: Db, g: Group, candidate: Instant, j: nat)
    requires WINDOW <= candidate && NewestMatch(db, g, IsoFormat(candidate - WINDOW), IsoFormat(candidate), true, j)
    ensures Fittest(db, g, candidate, j)
  {
    hide IsoFormat, AtMost, Like, Matches, Fit;
    FitMatches(db, g, candidate, j);
    FitInTable(db, g, candidate, j);
    forall i | Fit(db, g, candidate, i) ensures 0 <= i < |db.alerts| && db.alerts[i].ingest <= db.alerts[j].ingest {
      FitInTable(db, g, candidate, i);
      FitMatches(db, g, candidate, i);
      TextOrderIsTimeOrder(db.alerts[i].ingest, db.alerts[j].ingest);
    }
  }

  /** The query finds a verdict exactly when a fit row exists, and then that of a youngest one;
      a NULL group column finds nothing. */
  lemma RecentVerdictMeans(db: Db, g: Group, candidate: Instant, r: Option<string>)
    requires WINDOW <= candidate && IsRecentVerdict(db, g, candidate, true, r)
    ensures g.signature.Some? && g.src.Some? && g.dst.Some? ==> (r.Some? <==> exists j :: Fit(db, g, candidate, j))
    ensures r.Some? ==> exists j :: Fittest(db, g, candidate, j) && db.alerts[j].verdict == r
    ensures g.signature.None? || g.src.None? || g.dst.None? ==> r == None
  {
    hide IsoFormat, AtMost, Like, Fit;
    if r.Some? {
      var j := AnswerRow(db, g, candidate, r.value);
      NewestIsFittest(db, g, candidate, j);
    } else if GroupKnown(g) {
      if j :| Fit(db, g, candidate, j) {
        FitInTable(db, g, candidate, j);
        FitMatches(db, g, candidate, j);
      }
    }
  }

  lemma AnswerRow(db: Db, g: Group, candidate: Instant, id: string) returns (j: nat)
    requires WINDOW <= candidate && IsRecentVerdict(db, g, candidate, true, Some(id))
    ensures NewestMatch(db, g, IsoFormat(candidate - WINDOW), IsoFormat(candidate), true, j)
    ensures j < |db.alerts| && db.alerts[j].verdict == Some(id) && GroupKnown(g)
  {
    hide IsoFormat, AtMost, Like;
    j :| NewestMatch(db, g, IsoFormat(candidate - WINDOW), IsoFormat(candidate), true, j) && db.alerts[j].verdict == Some(id);
  }

  lemma FitInTable(db: Db, g: Group, candidate: Instant, j: int)
    requires Fit(db, g, candidate, j)
    ensures 0 <= j < |db.alerts|
  {
    hide Like;
  }

  lemma AnalyzedRow(db: Db, g: Group, j: nat)
    ensures EligibleRow(db, g, j) ==> j < |db.alerts| && db.alerts[j].status == Analyzed
  {
  }

  /** Where every analyzed row is no younger than the candidate, the upper bound removes no
      row, so the query has the same answers with it and without it. */
  lemma BoundIsRedundant(db: Db, g: Group, candidate: Instant, r: Option<string>)
    requires WINDOW <= candidate
    requires forall j :: 0 <= j < |db.alerts| && db.alerts[j].status == Analyzed ==> db.alerts[j].ingest <= candidate
    ensures IsRecentVerdict(db, g, candidate, true, r) <==> IsRecentVerdict(db, g, candidate, false, r)
  {
    hide IsoFormat, AtMost, EligibleRow;
    var text, since := IsoFormat(candidate), IsoFormat(candidate - WINDOW);
    hide Matches;
    forall j: nat
      ensures Matches(db, g, since, text, true, j) <==> Matches(db, g, since, text, false, j)
    {
      AnalyzedRow(db, g, j);
      MatchesByTime(db, g, candidate, true, j);
      MatchesByTime(db, g, candidate, false, j);
    }
    forall j: nat
      ensures NewestMatch(db, g, since, text, true, j) <==> NewestMatch(db, g, since, text, false, j)
    {
    }
  }

  // ---------------------------------------------------------------- counting lemmas

  /** Rows agree on what the count looks at. */
  predicate SameAdmissions(a: seq<Alert>, b: seq<Alert>) {
    && |a| == |b|
    && forall i :: 0 <= i < |a| ==> a[i].ingest == b[i].ingest && (a[i].status == Deferred <==> b[i].status == Deferred)
  }

  lemma {:induction false} CountSame(a: seq<Alert>, b: seq<Alert>, lo: int, hi: int)
    requires SameAdmissions(a, b)
    ensures CountBetween(a, lo, hi) == CountBetween(b, lo, hi)
  {
    if a != [] { CountSame(a[..|a| - 1], b[..|b| - 1], lo, hi); }
  }

  lemma CountAppend(a: seq<Alert>, x: Alert, lo: int, hi: int)
    ensures CountBetween(a + [x], lo, hi)
         == CountBetween(a, lo, hi) + if x.status != Deferred && lo <= x.ingest < hi then 1 else 0
  {
  }

  lemma {:induction false} CountNone(a: seq<Alert>, lo: int, hi: int)
    requires forall i :: 0 <= i < |a| ==> a[i].ingest < lo
    ensures CountBetween(a, lo, hi) == 0
  {
    if a != [] { CountNone(a[..|a| - 1], lo, hi); }
  }
}
