/** The dispatcher's handler and the triage worker as the program runs them, call by call on the
    shared store, each shown to take steps of the Triage machine; what holds in every run of the
    machine therefore holds of them. */
module TriageWorker {
  import opened Optional
  import opened IsoTime
  import opened JsonLike
  import opened AlertStore
  import opened Triage

  // ---------------------------------------------------------------- queries

  /** `query_alerts(status="queued", limit=1)`: rows in text order of ingest, the first of them. */
  method QueryOldestQueued(store: Store) returns (r: Option<nat>)
    ensures match r
            case Some(k) => IsOldestQueued(store.alerts, k)
            case None => forall j :: 0 <= j < |store.alerts| ==> store.alerts[j].status != Queued
  {
    r := None;
    hide IsoFormat, AtMost;
    for j := 0 to |store.alerts|
      invariant r.Some? ==> r.value < j && store.alerts[r.value].status == Queued
      invariant r.None? ==> forall i :: 0 <= i < j ==> store.alerts[i].status != Queued
      invariant r.Some? ==> forall i :: 0 <= i < j && store.alerts[i].status == Queued ==>
                  store.alerts[r.value].ingest <= store.alerts[i].ingest
    {
      if store.alerts[j].status == Queued {
        if r.None? {
          r := Some(j);
        } else {
          TextOrderIsTimeOrder(store.alerts[r.value].ingest, store.alerts[j].ingest);
          if !AtMost(IsoFormat(store.alerts[r.value].ingest), IsoFormat(store.alerts[j].ingest)) {
            r := Some(j);
          }
        }
      }
    }
    if r.Some? { OldestQueuedByTime(store.alerts, r.value); }
  }

  /** `find_recent_verdict_for_group`: matching rows in descending text order, the first of them. */
  method FindRecentVerdict(store: Store, g: Group, candidate: Instant) returns (r: Option<string>)
    requires WINDOW <= candidate
    ensures IsRecentVerdict(store.Contents(), g, candidate, true, r)
    ensures g.signature.Some? && g.src.Some? && g.dst.Some? ==>
              (r.Some? <==> exists j :: Fit(store.Contents(), g, candidate, j))
    ensures r.Some? ==> exists j :: Fittest(store.Contents(), g, candidate, j) && store.alerts[j].verdict == r
  {
    r := AnswerQuery(store, g, candidate);
    hide IsRecentVerdict, Fit;
    RecentVerdictMeans(store.Contents(), g, candidate, r);
  }

  method AnswerQuery(store: Store, g: Group, candidate: Instant) returns (r: Option<string>)
    requires WINDOW <= candidate
    ensures IsRecentVerdict(store.Contents(), g, candidate, true, r)
  {
    if !GroupKnown(g) {
      return None;
    }
    hide IsoFormat, Matches, NewestMatch, IsRecentVerdict, GroupKnown;
    var db, text, since := Db(store.alerts, store.verdicts), IsoFormat(candidate), IsoFormat(candidate - WINDOW);
    var best := FindNewest(db, g, since, text);
    NewestAnswers(db, g, candidate, since, text, best);
    r := if best.None? then None else db.alerts[best.value].verdict;
  }

  lemma NewestAnswers(db: Db, g: Group, candidate: Instant, since: string, text: string, best: Option<nat>)
    requires WINDOW <= candidate && since == IsoFormat(candidate - WINDOW) && text == IsoFormat(candidate) && GroupKnown(g)
    requires best.None? ==> forall j: nat :: !Matches(db, g, since, text, true, j)
    requires best.Some? ==> NewestMatch(db, g, since, text, true, best.value)
    ensures best.Some? ==> best.value < |db.alerts|
    ensures IsRecentVerdict(db, g, candidate, true, if best.None? then None else db.alerts[best.value].verdict)
  {
    hide IsoFormat, Matches;
    if best.Some? { MatchInTable(db, g, since, text, best.value); }
  }

  ghost predicate NewestSoFar(db: Db, g: Group, since: string, text: string, j: nat, best: Option<nat>)
    requires j <= |db.alerts|
  {
    match best
    case None => forall i: nat :: i < j ==> !Matches(db, g, since, text, true, i)
    case Some(b) =>
      && b < j && Matches(db, g, since, text, true, b)
      && forall i: nat :: i < j && Matches(db, g, since, text, true, i) ==> db.alerts[i].ingest <= db.alerts[b].ingest
  }

  method FindNewest(db: Db, g: Group, since: string, text: string) returns (best: Option<nat>)
    ensures match best
            case None => forall j: nat :: !Matches(db, g, since, text, true, j)
            case Some(b) => NewestMatch(db, g, since, text, true, b)
  {
    hide IsoFormat, AtMost, Matches, NewestMatch;
    best := None;
    for j := 0 to |db.alerts|
      invariant NewestSoFar(db, g, since, text, j, best)
    {
      if Matches(db, g, since, text, true, j) {
        if best.None? {
          best := Some(j);
        } else {
          TextOrderIsTimeOrder(db.alerts[j].ingest, db.alerts[best.value].ingest);
          if !AtMost(IsoFormat(db.alerts[j].ingest), IsoFormat(db.alerts[best.value].ingest)) {
            best := Some(j);
          }
        }
      }
    }
    NewestOfAll(db, g, since, text, best);
  }

  lemma NewestOfAll(db: Db, g: Group, since: string, text: string, best: Option<nat>)
    requires NewestSoFar(db, g, since, text, |db.alerts|, best)
    ensures best.None? ==> forall j: nat :: !Matches(db, g, since, text, true, j)
    ensures best.Some? ==> NewestMatch(db, g, since, text, true, best.value)
  {
    hide IsoFormat, AtMost, Matches;
    forall i: nat | Matches(db, g, since, text, true, i)
      ensures i < |db.alerts| && best.Some? && AtMost(IsoFormat(db.alerts[i].ingest), IsoFormat(db.alerts[best.value].ingest))
    {
      MatchInTable(db, g, since, text, i);
      TextOrderIsTimeOrder(db.alerts[i].ingest, db.alerts[best.value].ingest);
    }
  }

  lemma OldestIsQueued(alerts: seq<Alert>, k: nat)
    requires IsOldestQueued(alerts, k)
    ensures k < |alerts| && alerts[k].status == Queued
  {
  }

  lemma SupersedeKeeps(db: Db, k: nat)
    ensures var r := MarkSuperseded(db, k); r.alerts == db.alerts && r.verdicts.Keys == db.verdicts.Keys
  {
  }

  lemma MatchInTable(db: Db, g: Group, since: string, text: string, i: nat)
    requires Matches(db, g, since, text, true, i)
    ensures i < |db.alerts| && db.alerts[i].verdict.Some?
  {
  }

  // ---------------------------------------------------------------- the program

  /** Which store and LLM calls of one alert go through. */
  datatype Calls = Calls(start: bool, search: bool, fetch: bool, response: Option<Response>,
                         clear: bool, record: bool, link: bool, markFailed: bool)

  /** The alert rows when an exception ends the processing of row k. */
  function AfterFailure(alerts: seq<Alert>, k: nat, marked: bool): seq<Alert>
    requires k < |alerts|
  {
    if marked then alerts[k := alerts[k].(status := AlertStore.Failed)] else alerts
  }

  /** The row of a processed alert: analyzed and linked when all went well; after an error failed
      if that could be stored, and otherwise as the first call left it. */
  function RowAfter(a: Alert, id: string, calls: Calls, done: bool): Alert {
    if done then a.(status := Analyzed, verdict := Some(id))
    else if calls.markFailed then a.(status := AlertStore.Failed)
    else if calls.start then a.(status := Analyzing)
    else a
  }

  /** The verdict table after a verdict of alert k was stored under id: nothing else is new, and
      of the old rows only the alert's own change, which are current no more. */
  predicate Stored(before: map<string, Verdict>, after: map<string, Verdict>, k: nat, id: string) {
    && after.Keys == before.Keys + {id}
    && forall x :: x in before ==> x in after && after[x] == (if before[x].alert == k then before[x].(isCurrent := false) else before[x])
  }

  /** The new row: the current verdict of alert k with the columns of the verdict found, or else
      those of the answer. */
  predicate NewRow(v: Verdict, k: nat, before: map<string, Verdict>, found: Option<string>, answer: Option<Response>) {
    && v.alert == k && v.isCurrent
    && if found.Some? && found.value in before then
         var source := before[found.value];
         && v.category == source.category && v.confidence == source.confidence && v.reasoning == source.reasoning
         && v.details == source.details && v.llmInputs == InheritedInputs(found.value)
       else
         && answer.Some? && v.category == answer.value.category && v.confidence == answer.value.confidence
         && v.reasoning == answer.value.reasoning && v.details == answer.value.details
         && v.llmInputs == ProducedInputs(answer.value.prompt)
  }

  lemma InheritsRow(k: nat, source: string, before: map<string, Verdict>, answer: Option<Response>)
    requires source in before
    ensures NewRow(InheritedRow(k, source, before[source]), k, before, Some(source), answer)
  {
    hide InheritedInputs;
  }

  lemma ProducesRow(k: nat, before: map<string, Verdict>, found: Option<string>, answer: Response)
    requires found.Some? ==> found.value !in before
    ensures NewRow(ProducedRow(k, answer), k, before, found, Some(answer))
  {
    hide ProducedInputs;
  }

  lemma StoredBy(db: Db, k: nat, id: string, v: Verdict)
    requires k < |db.alerts| && id !in db.verdicts
    ensures var after := Link(Record(MarkSuperseded(db, k), id, v), k, id);
            && Stored(db.verdicts, after.verdicts, k, id) && after.verdicts[id] == v
            && after.alerts == db.alerts[k := db.alerts[k].(status := Analyzed, verdict := Some(id))]
  {
  }

  class System {
    const config: Config
    const store: Store
    ghost var states: seq<State>
    ghost var steps: seq<Step>

    /** What has happened is a run of the machine that ends with the store's contents. */
    ghost predicate Valid()
      reads this, store
    {
      && ValidConfig(config) && IsRun(config, states, steps)
      && Last().db == store.Contents()
    }

    ghost function Last(): State
      reads this
      requires states != []
    {
      states[|states| - 1]
    }

    constructor (config: Config, now: Instant)
      requires ValidConfig(config)
      ensures Valid() && Last().now == now && Last().worker.Idle? && Last().holder.Free? && fresh(store)
      ensures this.config == config
    {
      this.config := config;
      store := new Store();
      states, steps := [Init(now)], [];
    }

    /** The run only grows. */
    twostate predicate Grows()
      reads this
    {
      old(states) <= states && old(steps) <= steps
    }

    /** One more step; the store already shows its effect. */
    ghost method Log(step: Step)
      requires ValidConfig(config) && IsRun(config, states, steps) && Enabled(config, Last(), step)
      requires Apply(config, Last(), step).db == store.Contents()
      modifies this`states, this`steps
      ensures Valid() && states == old(states) + [Apply(config, old(Last()), step)] && steps == old(steps) + [step]
      ensures Last() == Apply(config, old(Last()), step)
    {
      hide Apply, Enabled;
      states, steps := states + [Apply(config, Last(), step)], steps + [step];
    }

    method Advance(to: Instant)
      requires Valid() && Last().now <= to
      modifies this`states, this`steps
      ensures Grows()
      ensures Valid() && Last() == old(Last()).(now := to)
    {
      Log(Tick(to));
    }

    /** The handler of one alert inside the cap lock: it counts at one clock reading and stamps
        the row at another.  An exception of the count leaves the handler without an insert. */
    method Handle(g: Group, countAt: Instant, stampAt: Instant, countOk: bool, insertOk: bool)
      requires Valid() && Last().holder.Free? && Last().now <= countAt <= stampAt && ClockReading(stampAt)
      modifies this, store
      ensures Grows()
      ensures Valid() && Last().holder.Free? && Last().worker == old(Last().worker)
      ensures store.Contents() ==
        if countOk && insertOk
        then Insert(old(store.Contents()), g, stampAt,
                    if CountAnalyzedToday(old(store.alerts), countAt, config.resetHour) < config.cap then Queued else Deferred)
        else old(store.Contents())
    {
      hide IsRun, CountAnalyzedToday;
      Advance(countAt);
      if !countOk {
        return;
      }
      var count := CountAnalyzedToday(store.alerts, countAt, config.resetHour);
      var status := if count < config.cap then Queued else Deferred;
      Log(Count(g));
      Advance(stampAt);
      Log(Stamp);
      if insertOk {
        var k := store.InsertAlert(g, stampAt, status);
      }
      Log(Commit(insertOk));
    }

    /** `_dequeue_next`: the oldest queued alert, unless the cap is reached or nothing is queued. */
    method DequeueNext(now: Instant) returns (k: Option<nat>)
      requires Valid() && Last().worker.Idle? && Last().now <= now
      modifies this`states, this`steps
      ensures Grows()
      ensures Valid() && Last().db == old(Last().db) && Last().holder == old(Last().holder)
      ensures k.None? <==> (CountAnalyzedToday(store.alerts, now, config.resetHour) >= config.cap
                            || forall j :: 0 <= j < |store.alerts| ==> store.alerts[j].status != Queued)
      ensures Last().worker == if k.Some? then Took(k.value) else Idle
      ensures k.Some? ==> IsOldestQueued(store.alerts, k.value)
    {
      hide IsRun, CountAnalyzedToday, IsOldestQueued;
      Advance(now);
      var count := CountAnalyzedToday(store.alerts, now, config.resetHour);
      if count >= config.cap {
        return None;
      }
      Log(CheckCap);
      k := QueryOldestQueued(store);
      if k.Some? {
        OldestIsQueued(store.alerts, k.value);
        Log(Dequeue(k.value));
      } else {
        Log(Stop);
      }
    }

    /** The handler of an exception in `_process_alert`. */
    method GiveUp(k: nat, ok: bool)
      requires Valid() && HasAlert(Last().worker) && !Last().worker.Failing? && Last().worker.k == k < |store.alerts|
      modifies this, store
      ensures Grows()
      ensures Valid() && Last().worker.Idle?
      ensures store.Contents() == if ok then SetStatus(old(store.Contents()), k, AlertStore.Failed) else old(store.Contents())
    {
      hide IsRun;
      Log(Fail);
      if ok {
        store.UpdateAlertStatus(k, AlertStore.Failed);
      }
      Log(MarkFailed(ok));
    }

    /** The last three store calls of both paths. */
    method Persist(k: nat, id: string, v: Verdict, calls: Calls) returns (done: bool)
      requires Valid() && Last().worker == Composed(k, id, v) && k < |store.alerts| && id !in store.verdicts
      modifies this, store
      ensures Grows()
      ensures Valid() && Last().worker.Idle?
      ensures done <==> calls.clear && calls.record && calls.link
      ensures !done ==> store.alerts == AfterFailure(old(store.alerts), k, calls.markFailed)
      ensures done ==> store.alerts == old(store.alerts)[k := old(store.alerts)[k].(status := Analyzed, verdict := Some(id))]
      ensures done ==> Stored(old(store.verdicts), store.verdicts, k, id) && store.verdicts[id] == v
    {
      hide IsRun, MarkSuperseded, Stored, Record, Link;
      SupersedeKeeps(store.Contents(), k);
      StoredBy(store.Contents(), k, id, v);
      done := false;
      if !calls.clear {
        GiveUp(k, calls.markFailed);
        return;
      }
      store.MarkPreviousVerdictsSuperseded(k);
      Log(Clear);
      done := RecordAndLink(k, id, v, calls);
    }

    method RecordAndLink(k: nat, id: string, v: Verdict, calls: Calls) returns (done: bool)
      requires Valid() && Last().worker == Cleared(k, id, v) && k < |store.alerts| && id !in store.verdicts
      modifies this, store
      ensures Grows()
      ensures Valid() && Last().worker.Idle?
      ensures done <==> calls.record && calls.link
      ensures !done ==> store.alerts == AfterFailure(old(store.alerts), k, calls.markFailed)
      ensures done ==> store.Contents() == Link(Record(old(store.Contents()), id, v), k, id)
    {
      hide IsRun;
      done := false;
      if !calls.record {
        GiveUp(k, calls.markFailed);
        return;
      }
      var ok := store.RecordVerdict(id, v);
      Log(RecordIt);
      if !calls.link {
        GiveUp(k, calls.markFailed);
        return;
      }
      store.LinkVerdictToAlert(k, id);
      Log(LinkIt);
      done := true;
    }

    /** `_process_alert` for a fresh verdict id, with any pattern of failing calls.  When every
        call goes through, the alert ends analyzed and linked to its one current verdict. */
    method ProcessAlert(k: nat, id: string, calls: Calls) returns (done: bool, found: Option<string>)
      requires Valid() && Last().worker == Took(k) && id !in store.verdicts
      requires k < |store.alerts| && ClockReading(store.alerts[k].ingest)
      modifies this, store
      ensures Grows()
      ensures Valid() && Last().worker.Idle?
      ensures done ==> IsRecentVerdict(SetStatus(old(store.Contents()), k, Analyzing),
                old(store.alerts)[k].group, old(store.alerts)[k].ingest, true, found)
      ensures done ==> Stored(old(store.verdicts), store.verdicts, k, id)
      ensures done ==> NewRow(store.verdicts[id], k, old(store.verdicts), found, calls.response)
      ensures store.alerts == old(store.alerts)[k := RowAfter(old(store.alerts)[k], id, calls, done)]
      ensures calls.start && calls.search && calls.fetch && calls.response.Some? && calls.clear && calls.record && calls.link ==> done
    {
      hide IsRun, IsRecentVerdict, Stored, NewRow;
      done, found := false, None;
      if !calls.start {
        GiveUp(k, calls.markFailed);
        return;
      }
      store.UpdateAlertStatus(k, Analyzing);
      Log(Start);
      if !calls.search {
        GiveUp(k, calls.markFailed);
        return;
      }
      found := FindRecentVerdict(store, store.alerts[k].group, store.alerts[k].ingest);
      Log(Search(found));
      done := Conclude(k, id, found, calls);
    }

    /** Inherits the verdict found, or else asks the LLM. */
    method Conclude(k: nat, id: string, found: Option<string>, calls: Calls) returns (done: bool)
      requires Valid() && Last().worker == Searched(k, found) && id !in store.verdicts && k < |store.alerts|
      modifies this, store
      ensures Grows()
      ensures Valid() && Last().worker.Idle?
      ensures done ==> store.alerts == old(store.alerts)[k := old(store.alerts)[k].(status := Analyzed, verdict := Some(id))]
      ensures done ==> Stored(old(store.verdicts), store.verdicts, k, id)
      ensures done ==> NewRow(store.verdicts[id], k, old(store.verdicts), found, calls.response)
      ensures !done ==> store.alerts == AfterFailure(old(store.alerts), k, calls.markFailed)
      ensures calls.fetch && calls.response.Some? && calls.clear && calls.record && calls.link ==> done
    {
      hide IsRun, Stored, InheritedInputs, ProducedInputs, InheritedRow, NewRow;
      done := false;
      if found.Some? {
        if !calls.fetch {
          GiveUp(k, calls.markFailed);
          return;
        }
        Log(Fetch);
        if found.value in store.verdicts {
          InheritsRow(k, found.value, store.verdicts, calls.response);
          var v := InheritedRow(k, found.value, store.verdicts[found.value]);
          Log(Inherit(id));
          done := Persist(k, id, v, calls);
          return;
        }
      }
      done := AskLlm(k, id, found, calls);
    }

    /** No sibling: the verdict is the LLM's, or the alert fails. */
    method AskLlm(k: nat, id: string, ghost found: Option<string>, calls: Calls) returns (done: bool)
      requires Valid() && Last().worker == Searched(k, None) && id !in store.verdicts && k < |store.alerts|
      requires found.Some? ==> found.value !in store.verdicts
      modifies this, store
      ensures Grows()
      ensures Valid() && Last().worker.Idle?
      ensures done ==> store.alerts == old(store.alerts)[k := old(store.alerts)[k].(status := Analyzed, verdict := Some(id))]
      ensures done ==> Stored(old(store.verdicts), store.verdicts, k, id)
      ensures done ==> NewRow(store.verdicts[id], k, old(store.verdicts), found, calls.response)
      ensures !done ==> store.alerts == AfterFailure(old(store.alerts), k, calls.markFailed)
      ensures calls.response.Some? && calls.clear && calls.record && calls.link ==> done
    {
      hide IsRun, Stored, InheritedInputs, ProducedInputs, ProducedRow, NewRow;
      done := false;
      if calls.response.None? {
        GiveUp(k, calls.markFailed);
        return;
      }
      ProducesRow(k, store.verdicts, found, calls.response.value);
      var v := ProducedRow(k, calls.response.value);
      Log(Produce(id, calls.response.value));
      done := Persist(k, id, v, calls);
    }

    /** One turn of the worker's loop. */
    method Turn(now: Instant, id: string, calls: Calls) returns (k: Option<nat>, done: bool)
      requires Valid() && Last().worker.Idle? && Last().now <= now && id !in store.verdicts
      modifies this, store
      ensures Grows()
      ensures Valid() && Last().worker.Idle?
      ensures k.Some? ==> IsOldestQueued(old(store.alerts), k.value)
      ensures k.Some? ==> k.value < |old(store.alerts)|
      ensures k.Some? ==> store.alerts == old(store.alerts)[k.value := RowAfter(old(store.alerts)[k.value], id, calls, done)]
      ensures (&& k.Some? && calls.start && calls.search && calls.fetch && calls.response.Some?
               && calls.clear && calls.record && calls.link) ==> done
      ensures k.Some? <==> (&& CountAnalyzedToday(old(store.alerts), now, config.resetHour) < config.cap
                            && exists j :: 0 <= j < |old(store.alerts)| && old(store.alerts)[j].status == Queued)
      ensures k.None? ==> store.Contents() == old(store.Contents())
    {
      hide IsRun, CountAnalyzedToday, IsOldestQueued, RowAfter;
      done := false;
      k := DequeueNext(now);
      if k.Some? {
        OldestIsQueued(store.alerts, k.value);
        IngestWasRead();
        var found;
        done, found := ProcessAlert(k.value, id, calls);
      }
    }

    /** Stored ingest times were clock readings. */
    lemma IngestWasRead()
      requires Valid()
      ensures forall k :: 0 <= k < |store.alerts| ==> ClockReading(store.alerts[k].ingest)
    {
      hide Enabled, Apply;
      InvariantHolds(config, states, steps, |states| - 1);
    }
  }
}
