/** Admission, triage and verdict inheritance as one state machine.

    Dispatcher handlers admit alerts under the daily cap; one worker takes them oldest first
    and either produces a verdict or copies one from a sibling.  Every await between two
    store calls is a place where another task may run, so each store call is one step.  Any
    call may fail and the worker or a handler may be cancelled between any two steps. */
module Triage {
  import opened Optional
  import opened IsoTime
  import opened JsonLike
  import opened AlertStore

  /** VX_TRIAGE_DAILY_CAP and VX_DAILY_RESET_HOUR. */
  datatype Config = Config(cap: int, resetHour: nat)

  predicate ValidConfig(c: Config) {
    c.resetHour < 24
  }

  /** The handler inside the cap lock, if any: it has counted, and then stamped its row. */
  datatype Holder =
    | Free
    | Counted(group: Group, status: Status, countedAt: Instant)
    | Stamped(group: Group, status: Status, countedAt: Instant, stamp: Instant)

  /** Where the worker stands between two awaits of `run` and `_process_alert`. */
  datatype Worker =
    | Idle
    | BelowCap
    | Took(k: nat)
    | Started(k: nat)
    | Searched(k: nat, found: Option<string>)
    | Fetched(k: nat, source: string, row: Verdict)
    | Composed(k: nat, id: string, verdict: Verdict)
    | Cleared(k: nat, id: string, verdict: Verdict)
    | Recorded(k: nat, id: string)
    | Failing(k: nat)

  /** `dequeued` is the log of `alert_dequeued` lines. */
  datatype State = State(db: Db, now: Instant, holder: Holder, worker: Worker, dequeued: seq<nat>)

  /** What the LLM client answers, with the prompt it was given. */
  datatype Response = Response(category: string, confidence: real, reasoning: string, details: string, prompt: string)

  datatype Step =
    | Tick(to: Instant)
    | Count(group: Group)
    | Stamp
    | Commit(ok: bool)
    | Abandon
    | CheckCap
    | Dequeue(k: nat)
    | Start
    | Search(found: Option<string>)
    | Fetch
    | Inherit(id: string)
    | Produce(id: string, response: Response)
    | Clear
    | RecordIt
    | LinkIt
    | Fail
    | MarkFailed(ok: bool)
    | Stop

  function Init(now: Instant): State {
    State(Db([], map[]), now, Free, Idle, [])
  }

  /** Clock readings leave room for the hour the inheritance query subtracts. */
  predicate ClockReading(t: Instant) {
    WINDOW <= t
  }

  predicate HasAlert(w: Worker) {
    !w.Idle? && !w.BelowCap?
  }

  ghost predicate Enabled(c: Config, s: State, step: Step)
    requires ValidConfig(c)
  {
    match step
    case Tick(to) => s.now <= to
    case Count(_) => s.holder.Free?
    case Stamp => s.holder.Counted? && ClockReading(s.now)
    case Commit(_) => s.holder.Stamped?
    case Abandon => true
    case CheckCap => s.worker.Idle? && CountAnalyzedToday(s.db.alerts, s.now, c.resetHour) < c.cap
    case Dequeue(k) => s.worker.BelowCap? && IsOldestQueued(s.db.alerts, k)
    case Start => s.worker.Took? && s.worker.k < |s.db.alerts|
    case Search(found) =>
      && s.worker.Started? && s.worker.k < |s.db.alerts|
      && var a := s.db.alerts[s.worker.k];
         ClockReading(a.ingest) && IsRecentVerdict(s.db, a.group, a.ingest, true, found)
    case Fetch => s.worker.Searched? && s.worker.found.Some?
    case Inherit(id) => s.worker.Fetched? && id !in s.db.verdicts
    case Produce(id, _) => s.worker.Searched? && s.worker.found.None? && id !in s.db.verdicts
    case Clear => s.worker.Composed?
    case RecordIt => s.worker.Cleared?
    case LinkIt => s.worker.Recorded? && s.worker.k < |s.db.alerts|
    case Fail => HasAlert(s.worker) && !s.worker.Failing?
    case MarkFailed(_) => s.worker.Failing? && s.worker.k < |s.db.alerts|
    case Stop => true
  }

  function CapStatus(c: Config, s: State): Status
    requires ValidConfig(c)
  {
    if CountAnalyzedToday(s.db.alerts, s.now, c.resetHour) < c.cap then Queued else Deferred
  }

  /** The row an inheriting alert gets: the source's columns and a link to the source. */
  function InheritedRow(k: nat, source: string, row: Verdict): Verdict {
    Verdict(k, row.category, row.confidence, row.reasoning, row.details, InheritedInputs(source), true)
  }

  function ProducedRow(k: nat, r: Response): Verdict {
    Verdict(k, r.category, r.confidence, r.reasoning, r.details, ProducedInputs(r.prompt), true)
  }

  ghost function Apply(c: Config, s: State, step: Step): State
    requires ValidConfig(c) && Enabled(c, s, step)
  {
    match step
    case Tick(to) => s.(now := to)
    case Count(g) => s.(holder := Counted(g, CapStatus(c, s), s.now))
    case Stamp => s.(holder := Stamped(s.holder.group, s.holder.status, s.holder.countedAt, s.now))
    case Commit(ok) =>
      if ok then s.(holder := Free, db := Insert(s.db, s.holder.group, s.holder.stamp, s.holder.status))
      else s.(holder := Free)
    case Abandon => s.(holder := Free)
    case CheckCap => s.(worker := BelowCap)
    case Dequeue(k) => s.(worker := Took(k), dequeued := s.dequeued + [k])
    case Start => s.(worker := Started(s.worker.k), db := SetStatus(s.db, s.worker.k, Analyzing))
    case Search(found) => s.(worker := Searched(s.worker.k, found))
    case Fetch =>
      var id := s.worker.found.value;
      if id in s.db.verdicts then s.(worker := Fetched(s.worker.k, id, s.db.verdicts[id]))
      else s.(worker := Searched(s.worker.k, None))
    case Inherit(id) => s.(worker := Composed(s.worker.k, id, InheritedRow(s.worker.k, s.worker.source, s.worker.row)))
    case Produce(id, r) => s.(worker := Composed(s.worker.k, id, ProducedRow(s.worker.k, r)))
    case Clear => s.(worker := Cleared(s.worker.k, s.worker.id, s.worker.verdict), db := MarkSuperseded(s.db, s.worker.k))
    case RecordIt => s.(worker := Recorded(s.worker.k, s.worker.id), db := Record(s.db, s.worker.id, s.worker.verdict))
    case LinkIt => s.(worker := Idle, db := Link(s.db, s.worker.k, s.worker.id))
    case Fail => s.(worker := Failing(s.worker.k))
    case MarkFailed(ok) => s.(worker := Idle, db := if ok then SetStatus(s.db, s.worker.k, AlertStore.Failed) else s.db)
    case Stop => s.(worker := Idle)
  }

  /** A run: an initial state and any steps, each enabled where it is taken. */
  ghost predicate IsRun(c: Config, states: seq<State>, steps: seq<Step>)
    requires ValidConfig(c)
  {
    && |states| == |steps| + 1
    && states[0] == Init(states[0].now)
    && forall i :: 0 <= i < |steps| ==> Enabled(c, states[i], steps[i]) && states[i + 1] == Apply(c, states[i], steps[i])
  }

  /** Cancellation and failure may come at any point: the worker and the handler in the lock can
      be stopped in every state, and while an alert is being processed any call may fail; none of
      this touches the tables. */
  lemma AlwaysInterruptible(c: Config, s: State)
    requires ValidConfig(c)
    ensures Enabled(c, s, Stop) && Apply(c, s, Stop) == s.(worker := Idle)
    ensures Enabled(c, s, Abandon) && Apply(c, s, Abandon) == s.(holder := Free)
    ensures !s.worker.Idle? && !s.worker.BelowCap? && !s.worker.Failing? ==>
              Enabled(c, s, Fail) && Apply(c, s, Fail) == s.(worker := Failing(s.worker.k))
    ensures s.holder.Stamped? ==> Enabled(c, s, Commit(false)) && Apply(c, s, Commit(false)) == s.(holder := Free)
  {
  }

  // ---------------------------------------------------------------- order of ingest

  /** Rows are stored in ingest order and the row in the making is the youngest. */
  ghost predicate Ordered(s: State) {
    && (forall i, j :: 0 <= i < j < |s.db.alerts| ==> s.db.alerts[i].ingest <= s.db.alerts[j].ingest)
    && (forall i :: 0 <= i < |s.db.alerts| ==> ClockReading(s.db.alerts[i].ingest) && s.db.alerts[i].ingest <= s.now)
    && (!s.holder.Free? ==>
          && s.holder.countedAt <= s.now
          && forall i :: 0 <= i < |s.db.alerts| ==> s.db.alerts[i].ingest <= s.holder.countedAt)
    && (!s.holder.Free? ==> s.holder.status in {Queued, Deferred})
    && (s.holder.Stamped? ==> ClockReading(s.holder.stamp) && s.holder.countedAt <= s.holder.stamp <= s.now)
  }

  predicate IsHandlerStep(step: Step) {
    step.Tick? || step.Count? || step.Stamp? || step.Commit? || step.Abandon?
  }

  /** The worker touches neither clock nor lock nor any ingest stamp. */
  lemma WorkerKeepsIngest(c: Config, s: State, step: Step)
    requires ValidConfig(c) && Enabled(c, s, step) && !IsHandlerStep(step)
    ensures var t := Apply(c, s, step);
            && t.now == s.now && t.holder == s.holder && |t.db.alerts| == |s.db.alerts|
            && forall i :: 0 <= i < |s.db.alerts| ==> t.db.alerts[i].ingest == s.db.alerts[i].ingest
  {
    hide CountAnalyzedToday, IsRecentVerdict, IsOldestQueued, InheritedRow, ProducedRow, Superseded;
  }

  lemma HandlerKeepsOrder(c: Config, s: State, step: Step)
    requires ValidConfig(c) && Enabled(c, s, step) && IsHandlerStep(step) && Ordered(s)
    ensures Ordered(Apply(c, s, step))
  {
    hide CountAnalyzedToday;
  }

  lemma OrderedKept(c: Config, s: State, step: Step)
    requires ValidConfig(c) && Enabled(c, s, step) && Ordered(s)
    ensures Ordered(Apply(c, s, step))
  {
    hide Enabled, Apply;
    if IsHandlerStep(step) {
      HandlerKeepsOrder(c, s, step);
    } else {
      WorkerKeepsIngest(c, s, step);
    }
  }

  // ---------------------------------------------------------------- first in, first out

  /** The last alert dequeued divides the table: queued rows are no older, and every row the
      worker ever touched is no younger. */
  ghost predicate Fifo(s: State) {
    && (forall i :: 0 <= i < |s.dequeued| ==> s.dequeued[i] < |s.db.alerts|)
    && (forall i, j :: 0 <= i < j < |s.dequeued| ==>
          s.db.alerts[s.dequeued[i]].ingest <= s.db.alerts[s.dequeued[j]].ingest)
    && (HasAlert(s.worker) ==> s.dequeued != [] && s.worker.k == s.dequeued[|s.dequeued| - 1])
    && (forall j :: 0 <= j < |s.db.alerts| && s.db.alerts[j].status == Queued && s.dequeued != [] ==>
          s.db.alerts[s.dequeued[|s.dequeued| - 1]].ingest <= s.db.alerts[j].ingest)
    && (forall j :: 0 <= j < |s.db.alerts| && s.db.alerts[j].status in {Analyzing, Analyzed, AlertStore.Failed} ==>
          s.dequeued != [] && s.db.alerts[j].ingest <= s.db.alerts[s.dequeued[|s.dequeued| - 1]].ingest)
  }

  lemma FifoKept(c: Config, s: State, step: Step)
    requires ValidConfig(c) && Enabled(c, s, step) && Ordered(s) && Fifo(s)
    ensures Fifo(Apply(c, s, step))
  {
    hide *;
    if step.Dequeue? {
      DequeueFifoKept(c, s, step);
    } else if step.Commit? {
      CommitFifoKept(c, s, step);
    } else if step.Start? || step.LinkIt? || step.MarkFailed? {
      UpdateFifoKept(c, s, step);
    } else {
      QuietFifoKept(c, s, step);
    }
  }

  lemma DequeueFifoKept(c: Config, s: State, step: Step)
    requires ValidConfig(c) && Enabled(c, s, step) && Fifo(s) && step.Dequeue?
    ensures Fifo(Apply(c, s, step))
  {
    hide IsoFormat, AtMost;
    OldestQueuedByTime(s.db.alerts, step.k);
    var s' := Apply(c, s, step);
    assert s'.db == s.db && s'.dequeued == s.dequeued + [step.k];
  }

  lemma CommitFifoKept(c: Config, s: State, step: Step)
    requires ValidConfig(c) && Enabled(c, s, step) && Ordered(s) && Fifo(s) && step.Commit?
    ensures Fifo(Apply(c, s, step))
  {
    hide CountAnalyzedToday, IsRecentVerdict, IsOldestQueued;
    var s' := Apply(c, s, step);
    assert s'.dequeued == s.dequeued;
    assert forall i :: 0 <= i < |s.db.alerts| ==> s'.db.alerts[i] == s.db.alerts[i];
  }

  lemma UpdateFifoKept(c: Config, s: State, step: Step)
    requires ValidConfig(c) && Enabled(c, s, step) && Fifo(s) && (step.Start? || step.LinkIt? || step.MarkFailed?)
    ensures Fifo(Apply(c, s, step))
  {
    hide CountAnalyzedToday, IsRecentVerdict, IsOldestQueued;
    var s' := Apply(c, s, step);
    assert s'.dequeued == s.dequeued && |s'.db.alerts| == |s.db.alerts|;
    assert forall i :: 0 <= i < |s.db.alerts| ==> s'.db.alerts[i].ingest == s.db.alerts[i].ingest;
    assert forall i :: 0 <= i < |s.db.alerts| && i != s.worker.k ==> s'.db.alerts[i] == s.db.alerts[i];
  }

  lemma QuietFifoKept(c: Config, s: State, step: Step)
    requires ValidConfig(c) && Enabled(c, s, step) && Fifo(s)
    requires !step.Commit? && !step.Dequeue? && !step.Start? && !step.LinkIt? && !step.MarkFailed?
    ensures Fifo(Apply(c, s, step))
  {
    hide CountAnalyzedToday, IsRecentVerdict, IsOldestQueued;
    var s' := Apply(c, s, step);
    assert s'.dequeued == s.dequeued && s'.db.alerts == s.db.alerts;
    assert HasAlert(s'.worker) ==> HasAlert(s.worker) && s'.worker.k == s.worker.k;
  }

  // ---------------------------------------------------------------- statuses and current verdicts

  ghost predicate NoCurrent(db: Db, k: nat) {
    forall id :: id in db.verdicts && db.verdicts[id].isCurrent ==> db.verdicts[id].alert != k
  }

  /** The row at k has exactly the verdict its `verdict_id` names, and that one is current. */
  predicate LinkedRow(db: Db, k: nat)
    requires k < |db.alerts|
  {
    match db.alerts[k].verdict
    case None => db.alerts[k].status != Analyzed
    case Some(id) =>
      && db.alerts[k].status == Analyzed
      && id in db.verdicts && db.verdicts[id].alert == k && db.verdicts[id].isCurrent
  }

  ghost predicate OneCurrent(db: Db) {
    forall x, y ::
      (&& x in db.verdicts && db.verdicts[x].isCurrent
       && y in db.verdicts && db.verdicts[y].isCurrent
       && db.verdicts[x].alert == db.verdicts[y].alert) ==> x == y
  }

  /** What the worker may rely on at each place. */
  ghost predicate WorkerSees(db: Db, w: Worker) {
    HasAlert(w) ==>
      && w.k < |db.alerts|
      && (w.Took? ==> db.alerts[w.k].status == Queued)
      && (w.Failing? ==> db.alerts[w.k].status in {Queued, Analyzing})
      && (!w.Took? && !w.Failing? ==> db.alerts[w.k].status == Analyzing)
      && (w.Composed? || w.Cleared? ==> w.id !in db.verdicts && w.verdict.alert == w.k)
      && (w.Cleared? ==> NoCurrent(db, w.k))
      && (w.Recorded? ==> w.id in db.verdicts && db.verdicts[w.id].alert == w.k && db.verdicts[w.id].isCurrent)
  }

  ghost predicate RowsCurrent(w: Worker) {
    w.Composed? || w.Cleared? ==> w.verdict.isCurrent
  }

  ghost predicate Linked(s: State) {
    && OneCurrent(s.db)
    && (forall k :: 0 <= k < |s.db.alerts| ==> LinkedRow(s.db, k))
    && (forall id :: id in s.db.verdicts ==> s.db.verdicts[id].alert < |s.db.alerts|)
    && WorkerSees(s.db, s.worker)
    && RowsCurrent(s.worker)
  }

  lemma LinkedKept(c: Config, s: State, step: Step)
    requires ValidConfig(c) && Enabled(c, s, step) && Ordered(s) && Linked(s)
    ensures Linked(Apply(c, s, step))
  {
    hide *;
    if step.Commit? || step.RecordIt? {
      AddLinkedKept(c, s, step);
    } else if step.Clear? {
      ClearLinkedKept(c, s);
    } else if step.Start? || step.LinkIt? || step.MarkFailed? {
      UpdateLinkedKept(c, s, step);
    } else {
      QuietLinkedKept(c, s, step);
    }
  }

  lemma AddLinkedKept(c: Config, s: State, step: Step)
    requires ValidConfig(c) && Enabled(c, s, step) && Ordered(s) && Linked(s) && (step.Commit? || step.RecordIt?)
    ensures Linked(Apply(c, s, step))
  {
    var s' := Apply(c, s, step);
    forall k | 0 <= k < |s'.db.alerts| ensures LinkedRow(s'.db, k) {
      if k < |s.db.alerts| { assert LinkedRow(s.db, k); }
    }
  }

  lemma QuietLinkedKept(c: Config, s: State, step: Step)
    requires ValidConfig(c) && Enabled(c, s, step) && Linked(s)
    requires !step.Commit? && !step.RecordIt? && !step.Clear? && !step.Start? && !step.LinkIt? && !step.MarkFailed?
    ensures Linked(Apply(c, s, step))
  {
    assert Apply(c, s, step).db == s.db;
  }

  lemma ClearLinkedKept(c: Config, s: State)
    requires ValidConfig(c) && Enabled(c, s, Clear) && Linked(s)
    ensures Linked(Apply(c, s, Clear))
  {
    var db, db' := s.db, MarkSuperseded(s.db, s.worker.k);
    forall k | 0 <= k < |db.alerts| ensures LinkedRow(db', k) { assert LinkedRow(db, k); }
  }

  lemma UpdateLinkedKept(c: Config, s: State, step: Step)
    requires ValidConfig(c) && Enabled(c, s, step) && Linked(s) && (step.Start? || step.LinkIt? || step.MarkFailed?)
    ensures Linked(Apply(c, s, step))
  {
    hide CountAnalyzedToday, IsRecentVerdict, IsOldestQueued;
    var db' := Apply(c, s, step).db;
    forall k | 0 <= k < |db'.alerts| ensures LinkedRow(db', k) { assert LinkedRow(s.db, k); }
  }

  // ---------------------------------------------------------------- inheritance

  ghost predicate IsProduced(v: Verdict) {
    exists prompt :: v.llmInputs == ProducedInputs(prompt)
  }

  /** The verdict `source` may be copied to the alert at k: it is stored and produced, and
      belongs to another alert of the same group that arrived at most an hour earlier. */
  ghost predicate IsSourceFor(db: Db, k: nat, source: string) {
    && source in db.verdicts && IsProduced(db.verdicts[source])
    && var j := db.verdicts[source].alert;
       && j < |db.alerts| && k < |db.alerts| && j != k
       && GroupKnown(db.alerts[k].group) && db.alerts[j].group == db.alerts[k].group
       && db.alerts[k].ingest - WINDOW <= db.alerts[j].ingest <= db.alerts[k].ingest
  }

  predicate Copies(v: Verdict, row: Verdict) {
    v.category == row.category && v.confidence == row.confidence && v.reasoning == row.reasoning && v.details == row.details
  }

  /** v was inherited from the verdict `source`. */
  ghost predicate InheritedFrom(db: Db, v: Verdict, source: string) {
    v.llmInputs == InheritedInputs(source) && IsSourceFor(db, v.alert, source) && Copies(v, db.verdicts[source])
  }

  ghost predicate ProducedOrInherited(db: Db, v: Verdict) {
    IsProduced(v) || exists source :: InheritedFrom(db, v, source)
  }

  ghost predicate OneHop(s: State) {
    && (forall id :: id in s.db.verdicts ==> ProducedOrInherited(s.db, s.db.verdicts[id]))
    && (s.worker.Searched? && s.worker.found.Some? ==> IsSourceFor(s.db, s.worker.k, s.worker.found.value))
    && (s.worker.Fetched? ==> IsSourceFor(s.db, s.worker.k, s.worker.source) && Copies(s.worker.row, s.db.verdicts[s.worker.source]))
    && (s.worker.Composed? || s.worker.Cleared? ==> ProducedOrInherited(s.db, s.worker.verdict))
  }

  /** What no step ever changes about rows that exist. */
  ghost predicate Extends(db: Db, db': Db) {
    && |db.alerts| <= |db'.alerts|
    && (forall i :: 0 <= i < |db.alerts| ==>
          db'.alerts[i].ingest == db.alerts[i].ingest && db'.alerts[i].group == db.alerts[i].group)
    && (forall id :: id in db.verdicts ==>
          id in db'.verdicts && db'.verdicts[id].(isCurrent := true) == db.verdicts[id].(isCurrent := true))
  }

  lemma StepExtends(c: Config, s: State, step: Step)
    requires ValidConfig(c) && Enabled(c, s, step) && Linked(s)
    ensures Extends(s.db, Apply(c, s, step).db)
  {
  }

  lemma SourceStays(db: Db, db': Db, k: nat, source: string)
    requires Extends(db, db') && IsSourceFor(db, k, source)
    ensures IsSourceFor(db', k, source) && Copies(db'.verdicts[source], db.verdicts[source])
  {
  }

  lemma ProvenanceStays(db: Db, db': Db, v: Verdict, v': Verdict)
    requires Extends(db, db') && ProducedOrInherited(db, v) && v'.(isCurrent := true) == v.(isCurrent := true)
    ensures ProducedOrInherited(db', v')
  {
    assert v'.llmInputs == v.llmInputs && v'.alert == v.alert && Copies(v', v);
    if source :| InheritedFrom(db, v, source) {
      SourceStays(db, db', v.alert, source);
      assert InheritedFrom(db', v', source);
    }
  }

  /** The answer of the inheritance query is a fit source: the LIKE keeps inherited rows out,
      FIFO keeps younger ones out, and the candidate itself is not analyzed yet. */
  /** The row an answer of the inheritance query comes from. */
  lemma FoundRow(db: Db, g: Group, candidate: Instant, id: string) returns (j: nat)
    requires WINDOW <= candidate && IsRecentVerdict(db, g, candidate, true, Some(id))
    ensures GroupKnown(g) && EligibleRow(db, g, j) && db.alerts[j].verdict == Some(id)
    ensures candidate - WINDOW <= db.alerts[j].ingest <= candidate
  {
    hide IsoFormat, AtMost, Like;
    var text, since := IsoFormat(candidate), IsoFormat(candidate - WINDOW);
    j :| NewestMatch(db, g, since, text, true, j) && db.alerts[j].verdict == Some(id);
    MatchesByTime(db, g, candidate, true, j);
  }

  lemma SearchFindsSource(s: State, found: Option<string>)
    requires Linked(s) && OneHop(s) && s.worker.Started? && found.Some?
    requires var a := s.db.alerts[s.worker.k]; ClockReading(a.ingest) && IsRecentVerdict(s.db, a.group, a.ingest, true, found)
    ensures IsSourceFor(s.db, s.worker.k, found.value)
  {
    hide IsRecentVerdict, Like, InheritedInputs, ProducedInputs;
    var k, id := s.worker.k, found.value;
    var a := s.db.alerts[k];
    var j := FoundRow(s.db, a.group, a.ingest, id);
    assert LinkedRow(s.db, j);
    if source :| InheritedFrom(s.db, s.db.verdicts[id], source) {
      InheritedAlwaysMatches(source);
      assert false;
    }
  }

  lemma VerdictsKept(c: Config, s: State, step: Step)
    requires ValidConfig(c) && Enabled(c, s, step) && Linked(s) && OneHop(s)
    ensures var db := Apply(c, s, step).db; forall id :: id in db.verdicts ==> ProducedOrInherited(db, db.verdicts[id])
  {
    hide ProducedOrInherited, IsSourceFor, IsRecentVerdict, CountAnalyzedToday, IsOldestQueued, InheritedRow, ProducedRow;
    StepExtends(c, s, step);
    var db := Apply(c, s, step).db;
    forall id | id in db.verdicts ensures ProducedOrInherited(db, db.verdicts[id]) {
      if id in s.db.verdicts {
        ProvenanceStays(s.db, db, s.db.verdicts[id], db.verdicts[id]);
      } else {
        ProvenanceStays(s.db, db, s.worker.verdict, s.worker.verdict);
      }
    }
  }

  lemma OneHopKept(c: Config, s: State, step: Step)
    requires ValidConfig(c) && Enabled(c, s, step) && Linked(s) && OneHop(s)
    ensures OneHop(Apply(c, s, step))
  {
    hide SetStatus, Link, MarkSuperseded, Record, Insert;
    hide ProducedOrInherited, IsSourceFor, IsRecentVerdict, CountAnalyzedToday, IsOldestQueued, InheritedRow, ProducedRow;
    VerdictsKept(c, s, step);
    StepExtends(c, s, step);
    WorkerSourceStays(s, Apply(c, s, step).db);
    if step.Search? && step.found.Some? {
      SearchFindsSource(s, step.found);
    } else if step.Inherit? {
      InheritFits(s, step.id);
    } else if step.Produce? {
      ProduceFits(s, step.id, step.response);
    }
  }

  lemma InheritFits(s: State, id: string)
    requires OneHop(s) && s.worker.Fetched?
    ensures ProducedOrInherited(s.db, InheritedRow(s.worker.k, s.worker.source, s.worker.row))
  {
    assert InheritedFrom(s.db, InheritedRow(s.worker.k, s.worker.source, s.worker.row), s.worker.source);
  }

  lemma ProduceFits(s: State, id: string, r: Response)
    requires s.worker.Searched?
    ensures ProducedOrInherited(s.db, ProducedRow(s.worker.k, r))
  {
  }

  lemma WorkerSourceStays(s: State, db': Db)
    requires OneHop(s) && Extends(s.db, db')
    ensures s.worker.Searched? && s.worker.found.Some? ==> IsSourceFor(db', s.worker.k, s.worker.found.value)
    ensures s.worker.Fetched? ==> IsSourceFor(db', s.worker.k, s.worker.source) && Copies(s.worker.row, db'.verdicts[s.worker.source])
    ensures s.worker.Composed? || s.worker.Cleared? ==> ProducedOrInherited(db', s.worker.verdict)
  {
    if s.worker.Searched? && s.worker.found.Some? {
      SourceStays(s.db, db', s.worker.k, s.worker.found.value);
    } else if s.worker.Fetched? {
      SourceStays(s.db, db', s.worker.k, s.worker.source);
    } else if s.worker.Composed? || s.worker.Cleared? {
      ProvenanceStays(s.db, db', s.worker.verdict, s.worker.verdict);
    }
  }

  // ---------------------------------------------------------------- the daily cap

  /** Admitted alerts stamped on day d from the reset hour on. */
  function InWindow(alerts: seq<Alert>, d: int, h: nat): nat {
    CountBetween(alerts, d * DAY + h * HOUR, (d + 1) * DAY)
  }

  /** The count the code compares with the cap, in time rather than text. */
  lemma CountTodayIsWindow(alerts: seq<Alert>, now: Instant, h: nat)
    requires h < 24 && forall i :: 0 <= i < |alerts| ==> alerts[i].ingest <= now
    ensures CountAnalyzedToday(alerts, now, h) == InWindow(alerts, now / DAY, h)
  {
    hide IsoFormat;
    var d := now / DAY;
    assert now < (d + 1) * DAY;
    CountTextIsCount(alerts, ResetTime(now, h), (d + 1) * DAY);
  }

  ghost predicate CapKeptOn(c: Config, s: State) {
    && (forall d :: InWindow(s.db.alerts, d, c.resetHour) <= if c.cap < 0 then 0 else c.cap)
    && (!s.holder.Free? && s.holder.status == Queued ==>
          InWindow(s.db.alerts, s.holder.countedAt / DAY, c.resetHour) < c.cap)
  }

  lemma CapKept(c: Config, s: State, step: Step)
    requires ValidConfig(c) && Enabled(c, s, step) && Ordered(s) && Linked(s) && CapKeptOn(c, s)
    ensures CapKeptOn(c, Apply(c, s, step))
  {
    hide CountAnalyzedToday, IsRecentVerdict, InWindow, MarkSuperseded;
    if step.Commit? && step.ok {
      CommitCapKept(c, s);
    } else {
      var s' := Apply(c, s, step);
      if step.Count? { CountTodayIsWindow(s.db.alerts, s.now, c.resetHour); }
      AdmissionsKept(c, s, step);
      forall d ensures InWindow(s'.db.alerts, d, c.resetHour) == InWindow(s.db.alerts, d, c.resetHour) {
        WindowSame(s.db.alerts, s'.db.alerts, d, c.resetHour);
      }
    }
  }

  lemma AdmissionsKept(c: Config, s: State, step: Step)
    requires ValidConfig(c) && Enabled(c, s, step) && Linked(s) && !(step.Commit? && step.ok)
    ensures SameAdmissions(s.db.alerts, Apply(c, s, step).db.alerts)
  {
    hide CountAnalyzedToday, IsRecentVerdict;
  }

  lemma WindowSame(a: seq<Alert>, b: seq<Alert>, d: int, h: nat)
    requires SameAdmissions(a, b)
    ensures InWindow(a, d, h) == InWindow(b, d, h)
  {
    CountSame(a, b, d * DAY + h * HOUR, (d + 1) * DAY);
  }

  lemma CommitCapKept(c: Config, s: State)
    requires ValidConfig(c) && Enabled(c, s, Commit(true)) && Ordered(s) && CapKeptOn(c, s)
    ensures CapKeptOn(c, Apply(c, s, Commit(true)))
  {
    var x := Alert(s.holder.group, s.holder.stamp, s.holder.status, None);
    forall d ensures InWindow(s.db.alerts + [x], d, c.resetHour) <= if c.cap < 0 then 0 else c.cap {
      OneMoreInWindow(s.db.alerts, x, d, c.resetHour, c.cap, s.holder.countedAt);
    }
  }

  /** The row lands on the day of its stamp.  If that is the day of the count, the count left
      room; if midnight came in between, the new window was still empty. */
  lemma OneMoreInWindow(alerts: seq<Alert>, x: Alert, d: int, h: nat, cap: int, at: Instant)
    requires at <= x.ingest && forall i :: 0 <= i < |alerts| ==> alerts[i].ingest <= at
    requires InWindow(alerts, d, h) <= if cap < 0 then 0 else cap
    requires x.status != Deferred ==> InWindow(alerts, at / DAY, h) < cap
    ensures InWindow(alerts + [x], d, h) <= if cap < 0 then 0 else cap
  {
    var lo, hi := d * DAY + h * HOUR, (d + 1) * DAY;
    CountAppend(alerts, x, lo, hi);
    if x.status != Deferred && lo <= x.ingest < hi && d != at / DAY {
      DayLater(at, x.ingest, d);
      CountNone(alerts, lo, hi);
    }
  }

  lemma DayLater(at: int, t: int, d: int)
    requires at <= t && d * DAY <= t < (d + 1) * DAY && d != at / DAY
    ensures at < d * DAY
  {
  }

  // ---------------------------------------------------------------- every run

  ghost predicate Invariant(c: Config, s: State) {
    Ordered(s) && Fifo(s) && Linked(s) && OneHop(s) && CapKeptOn(c, s)
  }

  lemma InvariantStart(c: Config, now: Instant)
    ensures Invariant(c, Init(now))
  {
  }

  lemma InvariantKept(c: Config, s: State, step: Step)
    requires ValidConfig(c) && Enabled(c, s, step) && Invariant(c, s)
    ensures Invariant(c, Apply(c, s, step))
  {
    hide Ordered, Fifo, Linked, OneHop, CapKeptOn, Enabled, Apply;
    OrderedKept(c, s, step);
    FifoKept(c, s, step);
    LinkedKept(c, s, step);
    OneHopKept(c, s, step);
    CapKept(c, s, step);
  }

  /** Every state of every run satisfies the invariant. */
  lemma {:induction false} InvariantHolds(c: Config, states: seq<State>, steps: seq<Step>, i: nat)
    requires ValidConfig(c) && IsRun(c, states, steps) && i < |states|
    ensures Invariant(c, states[i])
  {
    hide Invariant, Enabled, Apply;
    if i == 0 {
      InvariantStart(c, states[0].now);
    } else {
      InvariantHolds(c, states, steps, i - 1);
      InvariantKept(c, states[i - 1], steps[i - 1]);
      assert states[i - 1 + 1] == Apply(c, states[i - 1], steps[i - 1]);
    }
  }

  /** In every run alerts leave the queue in ingest order.  While one is being processed every
      analyzed alert is no younger, so the upper bound of the inheritance query is redundant:
      the query has the same answers with it and without it. */
  lemma QueueIsFifo(c: Config, states: seq<State>, steps: seq<Step>, n: nat)
    requires ValidConfig(c) && IsRun(c, states, steps) && n < |states|
    ensures var s := states[n];
            && (forall i :: 0 <= i < |s.dequeued| ==> s.dequeued[i] < |s.db.alerts|)
            && (forall i, j :: 0 <= i < j < |s.dequeued| ==>
                  s.db.alerts[s.dequeued[i]].ingest <= s.db.alerts[s.dequeued[j]].ingest)
    ensures var s := states[n];
            HasAlert(s.worker) ==>
              && s.worker.k < |s.db.alerts|
              && var a := s.db.alerts[s.worker.k];
                 && ClockReading(a.ingest)
                 && (forall j :: 0 <= j < |s.db.alerts| && s.db.alerts[j].status == Analyzed ==> s.db.alerts[j].ingest <= a.ingest)
                 && forall r :: IsRecentVerdict(s.db, a.group, a.ingest, true, r) <==> IsRecentVerdict(s.db, a.group, a.ingest, false, r)
  {
    hide IsRecentVerdict, Enabled, Apply;
    InvariantHolds(c, states, steps, n);
    var s := states[n];
    if HasAlert(s.worker) {
      var a := s.db.alerts[s.worker.k];
      forall r ensures IsRecentVerdict(s.db, a.group, a.ingest, true, r) <==> IsRecentVerdict(s.db, a.group, a.ingest, false, r) {
        BoundIsRedundant(s.db, a.group, a.ingest, r);
      }
    }
  }

  /** In every reachable state a verdict is either produced or inherited and not both; an
      inherited one names a stored produced verdict of another alert with the same group,
      ingested at most one hour before and not after, and copies its judgement.  Chains of
      inheritance therefore have length one. */
  lemma InheritanceIsOneHop(c: Config, states: seq<State>, steps: seq<Step>, n: nat, id: string)
    requires ValidConfig(c) && IsRun(c, states, steps) && n < |states| && id in states[n].db.verdicts
    ensures var db := states[n].db; var v := db.verdicts[id];
            && (IsProduced(v) <==> !exists source :: InheritedFrom(db, v, source))
            && forall source :: v.llmInputs == InheritedInputs(source) ==>
                 forall other :: source in db.verdicts ==> db.verdicts[source].llmInputs != InheritedInputs(other)
  {
    hide ProducedInputs, InheritedInputs, Enabled, Apply;
    InvariantHolds(c, states, steps, n);
    var db := states[n].db;
    var v := db.verdicts[id];
    assert ProducedOrInherited(db, v);
    if prompt :| v.llmInputs == ProducedInputs(prompt) {
      forall source ensures v.llmInputs != InheritedInputs(source) { ShapesDiffer(source, prompt); }
    } else {
      var named :| InheritedFrom(db, v, named);
      forall source, other | v.llmInputs == InheritedInputs(source) && source in db.verdicts
        ensures db.verdicts[source].llmInputs != InheritedInputs(other)
      {
        InheritedInjective(named, source);
        var prompt :| db.verdicts[source].llmInputs == ProducedInputs(prompt);
        ShapesDiffer(other, prompt);
      }
    }
  }

  /** The verdict was produced from a prompt that the query does not take for inheritance. */
  ghost predicate ProducedUnmarked(v: Verdict) {
    exists prompt :: v.llmInputs == ProducedInputs(prompt) && !EndsMarked(prompt)
  }

  /** Alert j is one whose verdict alert k may inherit: analyzed, of the same signature, source
      and destination, with a verdict that was produced, and ingested in the hour up to k. */
  ghost predicate FitSibling(db: Db, k: nat, j: int)
    requires k < |db.alerts|
  {
    var a := db.alerts[k];
    && 0 <= j < |db.alerts| && db.alerts[j].status == Analyzed
    && db.alerts[j].group.signature == a.group.signature && db.alerts[j].group.src == a.group.src
    && db.alerts[j].group.dst == a.group.dst
    && db.alerts[j].verdict.Some? && db.alerts[j].verdict.value in db.verdicts
    && ProducedUnmarked(db.verdicts[db.alerts[j].verdict.value])
    && a.ingest - 3600 * 1_000_000 <= db.alerts[j].ingest <= a.ingest
  }

  ghost predicate YoungestSibling(db: Db, k: nat, j: int)
    requires k < |db.alerts|
  {
    FitSibling(db, k, j) && forall i :: FitSibling(db, k, i) ==> db.alerts[i].ingest <= db.alerts[j].ingest
  }

  lemma UnmarkedExactly(db: Db, v: Verdict)
    requires ProducedOrInherited(db, v)
    ensures ProducedUnmarked(v) <==> !Like("%\"inherited_from\"%", v.llmInputs)
  {
    assert PATTERN == "%\"inherited_from\"%";
    hide Like, EndsMarked, ProducedInputs, InheritedInputs, IsSourceFor;
    if prompt :| v.llmInputs == ProducedInputs(prompt) && !EndsMarked(prompt) {
      ProducedMatches(prompt);
    }
    if !Like(PATTERN, v.llmInputs) {
      if source :| InheritedFrom(db, v, source) { InheritedAlwaysMatches(source); }
      var prompt :| v.llmInputs == ProducedInputs(prompt);
      ProducedMatches(prompt);
    }
  }

  lemma SiblingIsFit(s: State, k: nat, j: int)
    requires OneHop(s) && k < |s.db.alerts|
    ensures FitSibling(s.db, k, j) <==> Fit(s.db, s.db.alerts[k].group, s.db.alerts[k].ingest, j)
  {
    hide Like, ProducedUnmarked, ProducedOrInherited;
    if 0 <= j < |s.db.alerts| && s.db.alerts[j].verdict.Some? && s.db.alerts[j].verdict.value in s.db.verdicts {
      UnmarkedExactly(s.db, s.db.verdicts[s.db.alerts[j].verdict.value]);
    }
  }

  /** In every run, while an alert with a complete group is being searched for a sibling, the
      query finds a verdict exactly when a fit sibling exists, and then that of a youngest one. */
  lemma SiblingFoundExactlyWhen(c: Config, states: seq<State>, steps: seq<Step>, n: nat, found: Option<string>)
    requires ValidConfig(c) && IsRun(c, states, steps) && n < |states| && states[n].worker.Started?
    requires Enabled(c, states[n], Search(found))
    ensures var db, k := states[n].db, states[n].worker.k;
            && k < |db.alerts|
            && var g := db.alerts[k].group;
               && (g.signature.Some? && g.src.Some? && g.dst.Some? ==> (found.Some? <==> exists j :: FitSibling(db, k, j)))
               && (g.signature.None? || g.src.None? || g.dst.None? ==> found == None)
               && (found.Some? ==> exists j :: YoungestSibling(db, k, j) && db.alerts[j].verdict == found)
  {
    var s, k := states[n], states[n].worker.k;
    var a := s.db.alerts[k];
    assert WINDOW <= a.ingest && IsRecentVerdict(s.db, a.group, a.ingest, true, found);
    hide Enabled, Apply, IsRecentVerdict, Fit, FitSibling;
    InvariantHolds(c, states, steps, n);
    assert OneHop(s);
    hide IsRun, Invariant, OneHop;
    RecentVerdictMeans(s.db, a.group, a.ingest, found);
    forall j ensures FitSibling(s.db, k, j) <==> Fit(s.db, a.group, a.ingest, j) { SiblingIsFit(s, k, j); }
    if found.Some? {
      var j :| Fittest(s.db, a.group, a.ingest, j) && s.db.alerts[j].verdict == found;
      YoungestIsFittest(s.db, k, j);
    }
  }

  lemma YoungestIsFittest(db: Db, k: nat, j: int)
    requires k < |db.alerts| && Fittest(db, db.alerts[k].group, db.alerts[k].ingest, j)
    requires forall i :: FitSibling(db, k, i) <==> Fit(db, db.alerts[k].group, db.alerts[k].ingest, i)
    ensures YoungestSibling(db, k, j)
  {
    hide Fit, ProducedUnmarked;
  }

  /** The columns of a verdict are, one by one, what the LLM answered. */
  predicate Carries(v: Verdict, r: Response) {
    && v.category == r.category && v.confidence == r.confidence && v.reasoning == r.reasoning
    && v.details == r.details && v.llmInputs == ProducedInputs(r.prompt)
  }

  /** The step that composed a verdict row under this id. */
  ghost predicate Composes(step: Step, id: string, v: Verdict) {
    || (step.Produce? && step.id == id && Carries(v, step.response))
    || (step == Inherit(id) && exists source :: v.llmInputs == InheritedInputs(source))
  }

  ghost predicate WasComposed(steps: seq<Step>, id: string, v: Verdict) {
    exists step :: step in steps && Composes(step, id, v)
  }

  ghost predicate AllComposed(s: State, steps: seq<Step>) {
    && (forall id :: id in s.db.verdicts ==> WasComposed(steps, id, s.db.verdicts[id]))
    && (s.worker.Composed? || s.worker.Cleared? ==> WasComposed(steps, s.worker.id, s.worker.verdict))
  }

  lemma StillComposed(steps: seq<Step>, step: Step, id: string, v: Verdict, v': Verdict)
    requires WasComposed(steps, id, v) && v'.(isCurrent := true) == v.(isCurrent := true)
    ensures WasComposed(steps + [step], id, v')
  {
    hide InheritedInputs, ProducedInputs;
    var x :| x in steps && Composes(x, id, v);
    assert x in steps + [step] && Composes(x, id, v');
  }

  lemma NowComposed(c: Config, s: State, steps: seq<Step>, step: Step)
    requires ValidConfig(c) && Enabled(c, s, step) && (step.Produce? || step.Inherit?)
    ensures var w := Apply(c, s, step).worker; w.Composed? && WasComposed(steps + [step], w.id, w.verdict)
  {
    hide InheritedInputs, ProducedInputs;
    var w := Apply(c, s, step).worker;
    assert step in steps + [step] && Composes(step, w.id, w.verdict);
  }

  lemma ComposedKept(c: Config, s: State, steps: seq<Step>, step: Step)
    requires ValidConfig(c) && Enabled(c, s, step) && Linked(s) && AllComposed(s, steps)
    ensures AllComposed(Apply(c, s, step), steps + [step])
  {
    hide WasComposed, CountAnalyzedToday, IsRecentVerdict, IsOldestQueued, InheritedRow, ProducedRow, SetStatus, Link, Insert;
    var t := Apply(c, s, step);
    forall id | id in t.db.verdicts ensures WasComposed(steps + [step], id, t.db.verdicts[id]) {
      VerdictBefore(c, s, step, id);
      if id in s.db.verdicts {
        StillComposed(steps, step, id, s.db.verdicts[id], t.db.verdicts[id]);
      } else {
        StillComposed(steps, step, id, s.worker.verdict, t.db.verdicts[id]);
      }
    }
    if step.Produce? || step.Inherit? {
      NowComposed(c, s, steps, step);
    } else if t.worker.Composed? || t.worker.Cleared? {
      StillComposed(steps, step, s.worker.id, s.worker.verdict, s.worker.verdict);
    }
  }

  /** A verdict row of the next state is an old one up to `is_current`, or the one being recorded. */
  lemma VerdictBefore(c: Config, s: State, step: Step, id: string)
    requires ValidConfig(c) && Enabled(c, s, step) && Linked(s) && id in Apply(c, s, step).db.verdicts
    ensures var v := Apply(c, s, step).db.verdicts[id];
            if id in s.db.verdicts then v.(isCurrent := true) == s.db.verdicts[id].(isCurrent := true)
            else step.RecordIt? && s.worker.Cleared? && id == s.worker.id && v == s.worker.verdict
  {
    hide CountAnalyzedToday, IsRecentVerdict, IsOldestQueued, InheritedRow, ProducedRow;
  }

  lemma {:induction false} EveryVerdictComposed(c: Config, states: seq<State>, steps: seq<Step>, n: nat)
    requires ValidConfig(c) && IsRun(c, states, steps) && n < |states|
    ensures AllComposed(states[n], steps[..n])
  {
    hide Enabled, Apply, AllComposed;
    if n == 0 {
      StartsComposed(states[0].now, steps[..0]);
    } else {
      EveryVerdictComposed(c, states, steps, n - 1);
      InvariantHolds(c, states, steps, n - 1);
      assert Enabled(c, states[n - 1], steps[n - 1]) && states[n - 1 + 1] == Apply(c, states[n - 1], steps[n - 1]);
      assert steps[..n] == steps[..n - 1] + [steps[n - 1]];
      ComposedKept(c, states[n - 1], steps[..n - 1], steps[n - 1]);
    }
  }

  lemma StartsComposed(now: Instant, steps: seq<Step>)
    ensures AllComposed(Init(now), steps)
  {
  }

  /** In every run a produced verdict carries, column by column, an answer the LLM gave for it. */
  lemma ProducedCarriesResponse(c: Config, states: seq<State>, steps: seq<Step>, n: nat, id: string)
    requires ValidConfig(c) && IsRun(c, states, steps) && n < |states| && id in states[n].db.verdicts
    requires IsProduced(states[n].db.verdicts[id])
    ensures var v := states[n].db.verdicts[id];
            exists r :: Produce(id, r) in steps[..n] && v.category == r.category && v.confidence == r.confidence
              && v.reasoning == r.reasoning && v.details == r.details && v.llmInputs == ProducedInputs(r.prompt)
  {
    hide Enabled, Apply, InheritedInputs, ProducedInputs;
    EveryVerdictComposed(c, states, steps, n);
    var v := states[n].db.verdicts[id];
    var step :| step in steps[..n] && Composes(step, id, v);
    if step == Inherit(id) {
      var source :| v.llmInputs == InheritedInputs(source);
      var prompt :| v.llmInputs == ProducedInputs(prompt);
      ShapesDiffer(source, prompt);
      assert false;
    }
    assert step == Produce(id, step.response);
  }

  /** In every run and whatever fails, an alert has at most one current verdict; it is analyzed
      exactly when `verdict_id` is set, and then that verdict is its current one. */
  lemma AnalyzedMeansLinked(c: Config, states: seq<State>, steps: seq<Step>, n: nat)
    requires ValidConfig(c) && IsRun(c, states, steps) && n < |states|
    ensures var db := states[n].db;
            && (forall x, y :: (&& x in db.verdicts && db.verdicts[x].isCurrent
                                && y in db.verdicts && db.verdicts[y].isCurrent
                                && db.verdicts[x].alert == db.verdicts[y].alert) ==> x == y)
            && forall k :: 0 <= k < |db.alerts| ==>
                 && (db.alerts[k].status == Analyzed <==> db.alerts[k].verdict.Some?)
                 && (db.alerts[k].verdict.Some? ==>
                       && db.alerts[k].verdict.value in db.verdicts
                       && db.verdicts[db.alerts[k].verdict.value].isCurrent
                       && db.verdicts[db.alerts[k].verdict.value].alert == k)
  {
    hide Enabled, Apply;
    InvariantHolds(c, states, steps, n);
    var db := states[n].db;
    forall k | 0 <= k < |db.alerts|
      ensures db.alerts[k].status == Analyzed <==> db.alerts[k].verdict.Some?
      ensures db.alerts[k].verdict.Some? ==>
                && db.alerts[k].verdict.value in db.verdicts
                && db.verdicts[db.alerts[k].verdict.value].isCurrent
                && db.verdicts[db.alerts[k].verdict.value].alert == k
    {
      assert LinkedRow(db, k);
    }
  }

  /** How a status may change, in any number of steps. */
  predicate Later(a: Status, b: Status) {
    a == b || (a == Queued && b != Deferred) || (a == Analyzing && (b == Analyzed || b == AlertStore.Failed))
  }

  lemma StatusStep(c: Config, s: State, step: Step, k: nat)
    requires ValidConfig(c) && Enabled(c, s, step) && Linked(s) && k < |s.db.alerts|
    ensures var s' := Apply(c, s, step); k < |s'.db.alerts| && Later(s.db.alerts[k].status, s'.db.alerts[k].status)
  {
  }

  /** No status returns to queued, deferred rows stay deferred, and verdicts are final. */
  lemma {:induction false} StatusNeverReturns(c: Config, states: seq<State>, steps: seq<Step>, i: nat, j: nat, k: nat)
    requires ValidConfig(c) && IsRun(c, states, steps) && i <= j < |states| && k < |states[i].db.alerts|
    ensures k < |states[j].db.alerts| && Later(states[i].db.alerts[k].status, states[j].db.alerts[k].status)
    ensures var a, b := states[i].db.alerts[k].status, states[j].db.alerts[k].status;
            && (b == Queued ==> a == Queued) && (a == Deferred <==> b == Deferred)
            && (a == Analyzed ==> b == Analyzed) && (a == AlertStore.Failed ==> b == AlertStore.Failed)
    decreases j
  {
    hide Enabled, Apply;
    if i < j {
      StatusNeverReturns(c, states, steps, i, j - 1, k);
      InvariantHolds(c, states, steps, j - 1);
      StatusStep(c, states[j - 1], steps[j - 1], k);
      assert states[j - 1 + 1] == Apply(c, states[j - 1], steps[j - 1]);
    }
  }

  /** For every interleaving, and also when the count is read before midnight and the row lands
      after it, each day's window from the reset hour to midnight holds at most the cap. */
  lemma DailyCapHolds(c: Config, states: seq<State>, steps: seq<Step>, n: nat, d: int)
    requires c.resetHour < 24 && IsRun(c, states, steps) && n < |states|
    ensures CountBetween(states[n].db.alerts, d * DAY + c.resetHour * HOUR, (d + 1) * DAY) <= if c.cap < 0 then 0 else c.cap
    ensures c.resetHour == 0 ==> CountBetween(states[n].db.alerts, d * DAY, (d + 1) * DAY) <= if c.cap < 0 then 0 else c.cap
  {
    hide Enabled, Apply;
    InvariantHolds(c, states, steps, n);
    assert InWindow(states[n].db.alerts, d, c.resetHour) <= if c.cap < 0 then 0 else c.cap;
  }

  /** Before the reset hour the reset lies ahead, nothing is counted and nothing is deferred. */
  lemma NothingDeferredBeforeReset(c: Config, states: seq<State>, steps: seq<Step>, n: nat)
    requires ValidConfig(c) && IsRun(c, states, steps) && n < |states|
    requires states[n].now % DAY < c.resetHour * HOUR
    ensures CapStatus(c, states[n]) == if 0 < c.cap then Queued else Deferred
  {
    hide Enabled, Apply, IsoFormat;
    InvariantHolds(c, states, steps, n);
    var s := states[n];
    CountTodayIsWindow(s.db.alerts, s.now, c.resetHour);
    CountNone(s.db.alerts, s.now / DAY * DAY + c.resetHour * HOUR, (s.now / DAY + 1) * DAY);
  }

  lemma {:induction false} WindowGrows(c: Config, states: seq<State>, steps: seq<Step>, i: nat, j: nat, d: int)
    requires ValidConfig(c) && IsRun(c, states, steps) && i <= j < |states|
    ensures InWindow(states[i].db.alerts, d, c.resetHour) <= InWindow(states[j].db.alerts, d, c.resetHour)
    decreases j
  {
    hide Enabled, Apply, InWindow;
    if i < j {
      WindowGrows(c, states, steps, i, j - 1, d);
      InvariantHolds(c, states, steps, j - 1);
      WindowStep(c, states[j - 1], steps[j - 1], d);
      assert states[j - 1 + 1] == Apply(c, states[j - 1], steps[j - 1]);
    }
  }

  lemma WindowStep(c: Config, s: State, step: Step, d: int)
    requires ValidConfig(c) && Enabled(c, s, step) && Linked(s)
    ensures InWindow(s.db.alerts, d, c.resetHour) <= InWindow(Apply(c, s, step).db.alerts, d, c.resetHour)
  {
    hide CountBetween;
    var s' := Apply(c, s, step);
    if step.Commit? && step.ok {
      CountAppend(s.db.alerts, Alert(s.holder.group, s.holder.stamp, s.holder.status, None),
                  d * DAY + c.resetHour * HOUR, (d + 1) * DAY);
    } else {
      AdmissionsKept(c, s, step);
      WindowSame(s.db.alerts, s'.db.alerts, d, c.resetHour);
    }
  }

  /** Once the cap is reached with the worker idle, the worker takes nothing more that day: it
      stays idle and no row changes, queued ones included. */
  lemma {:induction false} CapStopsWorker(c: Config, states: seq<State>, steps: seq<Step>, i: nat, j: nat)
    requires ValidConfig(c) && IsRun(c, states, steps) && i <= j < |states|
    requires states[i].worker.Idle? && c.cap <= CountAnalyzedToday(states[i].db.alerts, states[i].now, c.resetHour)
    requires states[j].now / DAY == states[i].now / DAY
    ensures states[j].worker.Idle? && states[i].db.alerts <= states[j].db.alerts && states[j].dequeued == states[i].dequeued
    decreases j
  {
    hide CountAnalyzedToday, InWindow, Enabled, Apply;
    if i < j {
      var s, step := states[j - 1], steps[j - 1];
      assert Enabled(c, s, step) && states[j - 1 + 1] == Apply(c, s, step);
      NowGrows(c, states, steps, i, j - 1);
      NowGrows(c, states, steps, j - 1, j);
      SameDay(states[i].now, s.now, states[j].now);
      CapStopsWorker(c, states, steps, i, j - 1);
      CountStaysHigh(c, states, steps, i, j - 1);
      IdleStep(c, s, step);
    }
  }

  lemma SameDay(a: int, b: int, d: int)
    requires a <= b <= d && a / DAY == d / DAY
    ensures b / DAY == a / DAY
  {
  }

  lemma CountStaysHigh(c: Config, states: seq<State>, steps: seq<Step>, i: nat, j: nat)
    requires ValidConfig(c) && IsRun(c, states, steps) && i <= j < |states| && states[j].now / DAY == states[i].now / DAY
    ensures CountAnalyzedToday(states[i].db.alerts, states[i].now, c.resetHour)
         <= CountAnalyzedToday(states[j].db.alerts, states[j].now, c.resetHour)
  {
    hide CountAnalyzedToday, InWindow, Enabled, Apply;
    InvariantHolds(c, states, steps, i);
    InvariantHolds(c, states, steps, j);
    WindowGrows(c, states, steps, i, j, states[i].now / DAY);
    CountTodayIsWindow(states[i].db.alerts, states[i].now, c.resetHour);
    CountTodayIsWindow(states[j].db.alerts, states[j].now, c.resetHour);
  }

  lemma IdleStep(c: Config, s: State, step: Step)
    requires ValidConfig(c) && Enabled(c, s, step)
    requires s.worker.Idle? && c.cap <= CountAnalyzedToday(s.db.alerts, s.now, c.resetHour)
    ensures Apply(c, s, step).worker.Idle? && s.db.alerts <= Apply(c, s, step).db.alerts
    ensures Apply(c, s, step).dequeued == s.dequeued
  {
    hide CountAnalyzedToday;
  }

  lemma {:induction false} NowGrows(c: Config, states: seq<State>, steps: seq<Step>, i: nat, j: nat)
    requires ValidConfig(c) && IsRun(c, states, steps) && i <= j < |states|
    ensures states[i].now <= states[j].now
    decreases j
  {
    if i < j {
      NowGrows(c, states, steps, i, j - 1);
      assert Enabled(c, states[j - 1], steps[j - 1]) && states[j - 1 + 1] == Apply(c, states[j - 1], steps[j - 1]);
    }
  }

  /** A handler that is let in: it counts, stamps and commits. */
  lemma Admission(c: Config, s: State, g: Group) returns (counted: State, stamped: State)
    requires ValidConfig(c) && s.holder.Free? && ClockReading(s.now) && CapStatus(c, s) == Queued
    ensures counted == s.(holder := Counted(g, Queued, s.now)) && stamped == s.(holder := Stamped(g, Queued, s.now, s.now))
    ensures Enabled(c, s, Count(g)) && counted == Apply(c, s, Count(g))
    ensures Enabled(c, counted, Stamp) && stamped == Apply(c, counted, Stamp)
    ensures Enabled(c, stamped, Commit(true))
    ensures s.(db := Insert(s.db, g, s.now, Queued)) == Apply(c, stamped, Commit(true))
  {
    hide CountAnalyzedToday;
    counted, stamped := s.(holder := Counted(g, Queued, s.now)), s.(holder := Stamped(g, Queued, s.now, s.now));
  }

  lemma GrowRun(c: Config, states: seq<State>, steps: seq<Step>, step: Step) returns (states': seq<State>, steps': seq<Step>)
    requires ValidConfig(c) && IsRun(c, states, steps) && Enabled(c, states[|steps|], step)
    ensures IsRun(c, states', steps') && |states'| == |steps'| + 1 && states <= states' && steps <= steps'
    ensures states'[|steps'|] == Apply(c, states[|steps|], step)
  {
    hide Enabled, Apply;
    states', steps' := states + [Apply(c, states[|steps|], step)], steps + [step];
  }

  /** A run in which one more alert is admitted at once. */
  lemma AdmitOne(c: Config, states: seq<State>, steps: seq<Step>) returns (states': seq<State>, steps': seq<Step>)
    requires ValidConfig(c) && IsRun(c, states, steps)
    requires var s := states[|steps|]; s.holder.Free? && ClockReading(s.now) && CapStatus(c, s) == Queued
    ensures IsRun(c, states', steps') && |states'| == |steps'| + 1
    ensures var s := states[|steps|];
            states'[|steps'|] == s.(db := s.db.(alerts := s.db.alerts + [Alert(Group(None, None, None), s.now, Queued, None)]))
  {
    hide Enabled, Apply, CapStatus;
    var counted, stamped := Admission(c, states[|steps|], Group(None, None, None));
    states', steps' := GrowRun(c, states, steps, Count(Group(None, None, None)));
    states', steps' := GrowRun(c, states', steps', Stamp);
    states', steps' := GrowRun(c, states', steps', Commit(true));
  }

  /** Before the reset hour any number of alerts is admitted. */
  lemma {:induction false} ManyBeforeReset(c: Config, k: nat) returns (states: seq<State>, steps: seq<Step>)
    requires ValidConfig(c) && 0 < c.cap && 0 < c.resetHour
    ensures IsRun(c, states, steps)
    ensures var s := states[|steps|];
            s.now == DAY && s.holder.Free? && CountBetween(s.db.alerts, DAY, DAY + DAY) == k
  {
    hide Enabled, Apply, CapStatus;
    if k == 0 {
      states, steps := [Init(DAY)], [];
    } else {
      states, steps := ManyBeforeReset(c, k - 1);
      hide IsRun;
      var s := states[|steps|];
      NothingDeferredBeforeReset(c, states, steps, |steps|);
      states, steps := AdmitOne(c, states, steps);
      CountAppend(s.db.alerts, Alert(Group(None, None, None), DAY, Queued, None), DAY, DAY + DAY);
    }
  }

  // ---------------------------------------------------------------- waiting behind the cap

  /** k alerts ingested at the reset hour of the second day, all queued. */
  ghost predicate Filled(c: Config, s: State, k: nat) {
    && s.now == DAY + c.resetHour * HOUR && s.holder.Free? && s.worker.Idle? && |s.db.alerts| == k
    && (forall i :: 0 <= i < k ==> s.db.alerts[i].status == Queued && s.db.alerts[i].ingest == s.now)
    && CountBetween(s.db.alerts, s.now, DAY + DAY) == k
  }

  lemma FilledCount(c: Config, s: State, k: nat)
    requires ValidConfig(c) && Filled(c, s, k)
    ensures CountAnalyzedToday(s.db.alerts, s.now, c.resetHour) == k
  {
    hide CountAnalyzedToday, CountBetween;
    CountTodayIsWindow(s.db.alerts, s.now, c.resetHour);
    assert s.now / DAY == 1;
  }

  lemma {:induction false} FillQueue(c: Config, k: nat) returns (states: seq<State>, steps: seq<Step>)
    requires ValidConfig(c) && k <= c.cap
    ensures IsRun(c, states, steps) && Filled(c, states[|steps|], k)
  {
    hide Enabled, Apply, CountAnalyzedToday;
    if k == 0 {
      states, steps := [Init(DAY + c.resetHour * HOUR)], [];
    } else {
      states, steps := FillQueue(c, k - 1);
      hide IsRun;
      var s := states[|steps|];
      FilledCount(c, s, k - 1);
      states, steps := AdmitOne(c, states, steps);
      CountAppend(s.db.alerts, Alert(Group(None, None, None), s.now, Queued, None), s.now, DAY + DAY);
    }
  }

  /** For every positive cap a run ends with the cap reached, the worker idle and alerts queued. */
  lemma AlertsWaitBehindCap(c: Config) returns (states: seq<State>, steps: seq<Step>)
    requires c.resetHour < 24 && 1 <= c.cap
    ensures IsRun(c, states, steps) && SomeQueued(states[|steps|]) && states[|steps|].worker.Idle?
    ensures c.cap <= CountAnalyzedToday(states[|steps|].db.alerts, states[|steps|].now, c.resetHour)
  {
    hide CountAnalyzedToday, Enabled, Apply;
    states, steps := FillQueue(c, c.cap);
    FilledCount(c, states[|steps|], c.cap);
    assert states[|steps|].db.alerts[0].status == Queued;
  }

  ghost predicate SomeQueued(s: State) {
    exists k :: 0 <= k < |s.db.alerts| && s.db.alerts[k].status == Queued
  }

  lemma {:induction false} OldestExists(alerts: seq<Alert>) returns (k: nat)
    requires exists i :: 0 <= i < |alerts| && alerts[i].status == Queued
    ensures k < |alerts| && alerts[k].status == Queued
    ensures forall j :: 0 <= j < |alerts| && alerts[j].status == Queued ==> alerts[k].ingest <= alerts[j].ingest
  {
    var n := |alerts| - 1;
    if i :| 0 <= i < n && alerts[i].status == Queued {
      assert alerts[..n][i].status == Queued;
      k := OldestExists(alerts[..n]);
      assert forall j :: 0 <= j < n ==> alerts[..n][j] == alerts[j];
      if alerts[n].status == Queued && alerts[n].ingest < alerts[k].ingest { k := n; }
    } else {
      k := n;
    }
  }

  /** The run goes on, within the UTC day, to the dequeuing of another alert. */
  ghost predicate DequeuesToday(c: Config, states: seq<State>, steps: seq<Step>)
    requires ValidConfig(c) && IsRun(c, states, steps)
  {
    exists states': seq<State>, steps': seq<Step> :: Continues(c, states, steps, states', steps') && |states'[|steps'|].dequeued| > |states[|steps|].dequeued|
  }

  ghost predicate Continues(c: Config, states: seq<State>, steps: seq<Step>, states': seq<State>, steps': seq<Step>)
    requires ValidConfig(c) && IsRun(c, states, steps)
  {
    IsRun(c, states', steps') && states <= states' && steps <= steps' && states'[|steps'|].now / DAY == states[|steps|].now / DAY
  }

  /** From an idle worker and a waiting alert, some continuation of the run within the same UTC
      day dequeues exactly when the count is below the cap. */
  lemma DequeuesTodayExactlyWhen(c: Config, states: seq<State>, steps: seq<Step>)
    requires ValidConfig(c) && IsRun(c, states, steps) && states[|steps|].worker.Idle? && SomeQueued(states[|steps|])
    ensures DequeuesToday(c, states, steps)
       <==> CountAnalyzedToday(states[|steps|].db.alerts, states[|steps|].now, c.resetHour) < c.cap
  {
    hide CountAnalyzedToday, Enabled, Apply;
    var s := states[|steps|];
    if CountAnalyzedToday(s.db.alerts, s.now, c.resetHour) < c.cap {
      TakeOne(c, states, steps);
    } else {
      forall states': seq<State>, steps': seq<Step> | Continues(c, states, steps, states', steps')
        ensures states'[|steps'|].dequeued == s.dequeued
      {
        CapStopsWorker(c, states', steps', |steps|, |steps'|);
      }
    }
  }

  lemma TakeSteps(c: Config, s: State, k: nat)
    requires ValidConfig(c) && s.worker.Idle? && CountAnalyzedToday(s.db.alerts, s.now, c.resetHour) < c.cap
    requires IsOldestQueued(s.db.alerts, k)
    ensures Enabled(c, s, CheckCap) && Apply(c, s, CheckCap) == s.(worker := BelowCap)
    ensures var t := s.(worker := BelowCap);
            && Enabled(c, t, Dequeue(k))
            && Apply(c, t, Dequeue(k)) == s.(worker := Took(k), dequeued := s.dequeued + [k])
  {
    hide CountAnalyzedToday, IsOldestQueued;
  }

  lemma PickOldest(s: State) returns (k: nat)
    requires SomeQueued(s)
    ensures IsOldestQueued(s.db.alerts, k)
  {
    hide IsoFormat, AtMost, IsOldestQueued;
    k := OldestExists(s.db.alerts);
    OldestQueuedByTime(s.db.alerts, k);
  }

  lemma TakeOne(c: Config, states: seq<State>, steps: seq<Step>)
    requires ValidConfig(c) && IsRun(c, states, steps) && states[|steps|].worker.Idle? && SomeQueued(states[|steps|])
    requires CountAnalyzedToday(states[|steps|].db.alerts, states[|steps|].now, c.resetHour) < c.cap
    ensures DequeuesToday(c, states, steps)
  {
    var s := states[|steps|];
    hide *;
    var k := PickOldest(s);
    TakeSteps(c, s, k);
    var states1, steps1 := GrowRun(c, states, steps, CheckCap);
    var states2, steps2 := GrowRun(c, states1, steps1, Dequeue(k));
    Dequeued(c, states, steps, states2, steps2);
  }

  lemma Dequeued(c: Config, states: seq<State>, steps: seq<Step>, states': seq<State>, steps': seq<Step>)
    requires ValidConfig(c) && IsRun(c, states, steps) && IsRun(c, states', steps') && states <= states' && steps <= steps'
    requires states'[|steps'|].now == states[|steps|].now && |states'[|steps'|].dequeued| > |states[|steps|].dequeued|
    ensures DequeuesToday(c, states, steps)
  {
    hide Enabled, Apply;
    assert Continues(c, states, steps, states', steps');
  }

  // ---------------------------------------------------------------- the cap and the whole day

  /** Without a cap above zero nothing is ever admitted. */
  ghost predicate NoneAdmitted(s: State) {
    && s.worker.Idle? && (!s.holder.Free? ==> s.holder.status == Deferred)
    && forall i :: 0 <= i < |s.db.alerts| ==> s.db.alerts[i].status == Deferred
  }

  lemma {:induction false} NoneAdmittedHolds(c: Config, states: seq<State>, steps: seq<Step>, i: nat)
    requires ValidConfig(c) && IsRun(c, states, steps) && i < |states| && c.cap <= 0
    ensures NoneAdmitted(states[i])
  {
    hide CountAnalyzedToday;
    if i > 0 {
      NoneAdmittedHolds(c, states, steps, i - 1);
      assert Enabled(c, states[i - 1], steps[i - 1]) && states[i - 1 + 1] == Apply(c, states[i - 1], steps[i - 1]);
    }
  }

  lemma {:induction false} CountDeferred(alerts: seq<Alert>, lo: int, hi: int)
    requires forall i :: 0 <= i < |alerts| ==> alerts[i].status == Deferred
    ensures CountBetween(alerts, lo, hi) == 0
  {
    if alerts != [] { CountDeferred(alerts[..|alerts| - 1], lo, hi); }
  }

  /** In no run does any UTC day get more than the cap. */
  ghost predicate WholeDayBound(c: Config)
    requires ValidConfig(c)
  {
    forall states, steps, d :: IsRun(c, states, steps) ==> DayCount(states, steps, d) <= if c.cap < 0 then 0 else c.cap
  }

  function DayCount(states: seq<State>, steps: seq<Step>, d: int): nat {
    if |states| == |steps| + 1 then CountBetween(states[|steps|].db.alerts, d * DAY, (d + 1) * DAY) else 0
  }

  /** The cap bounds every whole UTC day exactly when the reset hour is midnight or the cap lets
      nothing in; with any later reset hour and any positive cap some run exceeds it. */
  lemma WholeDayBoundExactlyWhen(c: Config)
    requires c.resetHour < 24
    ensures WholeDayBound(c) <==> c.resetHour == 0 || c.cap <= 0
  {
    hide Enabled, Apply;
    if c.resetHour == 0 || c.cap <= 0 {
      forall states: seq<State>, steps: seq<Step>, d | IsRun(c, states, steps)
        ensures DayCount(states, steps, d) <= if c.cap < 0 then 0 else c.cap
      {
        if c.resetHour == 0 {
          DailyCapHolds(c, states, steps, |steps|, d);
        } else {
          NoneAdmittedHolds(c, states, steps, |steps|);
          CountDeferred(states[|steps|].db.alerts, d * DAY, (d + 1) * DAY);
        }
      }
    } else {
      var states, steps := ManyBeforeReset(c, c.cap + 1);
      assert DayCount(states, steps, 1) == c.cap + 1;
    }
  }
}
