/** The ingestion pipeline: tailer, broadcaster, batching indexer and alert dispatcher as one
    machine whose steps may come in any order, any flush, count or insert failing.

    Queues are unbounded and a store call takes effect wholly or not at all; the handlers of the
    dispatcher are tasks that sleep, take the cap lock, count and insert. */
module Pipeline {
  import opened Optional

  datatype Event = Event(raw: string, isAlert: bool)

  datatype Broadcaster = Idle | Holding(e: Event) | Indexed(e: Event)

  datatype State = State(
    emitted: seq<Event>,
    tailerQueue: seq<Event>,
    broadcaster: Broadcaster,
    indexerQueue: seq<Event>,
    batch: seq<Event>,
    flushing: bool,
    stored: seq<Event>,
    dispatcherQueue: seq<Event>,
    sleeping: multiset<Event>,
    lockHolder: Option<Event>,
    inserted: multiset<Event>,
    failedInserts: multiset<Event>,
    failedCounts: multiset<Event>)

  const INITIAL := State([], [], Idle, [], [], false, [], [], multiset{}, None, multiset{}, multiset{}, multiset{})

  datatype Step =
    | Emit(e: Event)
    | Take
    | ToIndexer
    | ToDispatcher
    | Receive
    | Timeout
    | Flush(ok: bool)
    | Dispatch
    | Lock(e: Event)
    | CountFails
    | Insert(ok: bool)

  predicate Enabled(s: State, a: Step) {
    match a
    case Emit(_) => true
    case Take => s.broadcaster.Idle? && s.tailerQueue != []
    case ToIndexer => s.broadcaster.Holding?
    case ToDispatcher => s.broadcaster.Indexed?
    case Receive => !s.flushing && s.indexerQueue != []
    case Timeout => !s.flushing
    case Flush(_) => s.flushing
    case Dispatch => s.dispatcherQueue != []
    case Lock(e) => e in s.sleeping && s.lockHolder.None?
    case CountFails => s.lockHolder.Some?
    case Insert(_) => s.lockHolder.Some?
  }

  function Apply(s: State, a: Step, batchSize: int): State
    requires Enabled(s, a)
  {
    match a
    case Emit(e) => s.(emitted := s.emitted + [e], tailerQueue := s.tailerQueue + [e])
    case Take => s.(broadcaster := Holding(s.tailerQueue[0]), tailerQueue := s.tailerQueue[1..])
    case ToIndexer =>
      var e := s.broadcaster.e;
      s.(indexerQueue := s.indexerQueue + [e], broadcaster := if e.isAlert then Indexed(e) else Idle)
    case ToDispatcher =>
      s.(dispatcherQueue := s.dispatcherQueue + [s.broadcaster.e], broadcaster := Idle)
    case Receive =>
      s.(batch := s.batch + [s.indexerQueue[0]], indexerQueue := s.indexerQueue[1..],
         flushing := |s.batch| + 1 >= batchSize)
    case Timeout => s.(flushing := s.batch != [])
    case Flush(ok) =>
      if ok then s.(stored := s.stored + s.batch, batch := [], flushing := false) else s.(flushing := false)
    case Dispatch =>
      var e := s.dispatcherQueue[0];
      s.(dispatcherQueue := s.dispatcherQueue[1..],
         sleeping := if e.isAlert then s.sleeping + multiset{e} else s.sleeping)
    case Lock(e) => s.(sleeping := s.sleeping - multiset{e}, lockHolder := Some(e))
    case CountFails => s.(lockHolder := None, failedCounts := s.failedCounts + multiset{s.lockHolder.value})
    case Insert(ok) =>
      var e := multiset{s.lockHolder.value};
      if ok then s.(lockHolder := None, inserted := s.inserted + e)
      else s.(lockHolder := None, failedInserts := s.failedInserts + e)
  }

  ghost predicate IsRun(states: seq<State>, steps: seq<Step>, batchSize: int) {
    && |states| == |steps| + 1 && states[0] == INITIAL
    && forall i :: 0 <= i < |steps| ==> Enabled(states[i], steps[i]) && states[i + 1] == Apply(states[i], steps[i], batchSize)
  }

  /** A flush, a count and an insert may fail whenever they are made. */
  lemma AnythingMayFail(s: State, batchSize: int)
    ensures s.flushing ==> Enabled(s, Flush(false)) && Apply(s, Flush(false), batchSize) == s.(flushing := false)
    ensures s.lockHolder.Some? ==> Enabled(s, CountFails) && Enabled(s, Insert(false))
    ensures forall e :: Enabled(s, Emit(e))
  {
  }

  // ---------------------------------------------------------------- events

  /** The event the broadcaster has taken and not yet passed to the indexer. */
  function InFlight(s: State): seq<Event> {
    if s.broadcaster.Holding? then [s.broadcaster.e] else []
  }

  /** Where every event is, in order. */
  function Trail(s: State): seq<Event> {
    s.stored + (s.batch + (s.indexerQueue + (InFlight(s) + s.tailerQueue)))
  }

  lemma Shift(a: seq<Event>, x: Event, b: seq<Event>, r: seq<Event>)
    ensures a + (([x] + b) + r) == (a + [x]) + (b + r)
  {
  }

  lemma Absorb(a: seq<Event>, b: seq<Event>, r: seq<Event>)
    ensures a + (b + r) == (a + b) + ([] + r)
  {
  }

  lemma Extended(a: seq<Event>, b: seq<Event>, c: seq<Event>, d: seq<Event>, q: seq<Event>, e: Event)
    ensures a + (b + (c + (d + (q + [e])))) == a + (b + (c + (d + q))) + [e]
  {
  }

  lemma EmitTrail(s: State, e: Event)
    ensures Trail(s.(emitted := s.emitted + [e], tailerQueue := s.tailerQueue + [e])) == Trail(s) + [e]
  {
    Extended(s.stored, s.batch, s.indexerQueue, InFlight(s), s.tailerQueue, e);
  }

  lemma ReceiveTrail(s: State, flushing: bool)
    requires s.indexerQueue != []
    ensures Trail(s.(batch := s.batch + [s.indexerQueue[0]], indexerQueue := s.indexerQueue[1..], flushing := flushing)) == Trail(s)
  {
    assert [s.indexerQueue[0]] + s.indexerQueue[1..] == s.indexerQueue;
    Shift(s.batch, s.indexerQueue[0], s.indexerQueue[1..], InFlight(s) + s.tailerQueue);
  }

  lemma FlushTrail(s: State)
    ensures Trail(s.(stored := s.stored + s.batch, batch := [], flushing := false)) == Trail(s)
  {
    Absorb(s.stored, s.batch, s.indexerQueue + (InFlight(s) + s.tailerQueue));
  }

  lemma TakeTrail(s: State)
    requires s.broadcaster.Idle? && s.tailerQueue != []
    ensures Trail(s.(broadcaster := Holding(s.tailerQueue[0]), tailerQueue := s.tailerQueue[1..])) == Trail(s)
  {
    assert [s.tailerQueue[0]] + s.tailerQueue[1..] == s.tailerQueue == [] + s.tailerQueue;
  }

  lemma PassTrail(s: State, next: Broadcaster)
    requires s.broadcaster.Holding? && !next.Holding?
    ensures Trail(s.(indexerQueue := s.indexerQueue + [s.broadcaster.e], broadcaster := next)) == Trail(s)
  {
    Absorb(s.indexerQueue, [s.broadcaster.e], s.tailerQueue);
  }

  /** Where other parts of the state change, the trail does not. */
  lemma SameTrail(s: State, t: State)
    requires s.stored == t.stored && s.batch == t.batch && s.indexerQueue == t.indexerQueue && s.tailerQueue == t.tailerQueue
    requires InFlight(s) == InFlight(t)
    ensures Trail(s) == Trail(t)
  {
  }

  lemma TrailKept(s: State, a: Step, batchSize: int)
    requires Enabled(s, a) && Trail(s) == s.emitted
    ensures var t := Apply(s, a, batchSize); Trail(t) == t.emitted
  {
    hide Trail;
    var t := Apply(s, a, batchSize);
    match a
    case Emit(e) => EmitTrail(s, e);
    case Take => TakeTrail(s);
    case ToIndexer => PassTrail(s, t.broadcaster);
    case Receive => ReceiveTrail(s, t.flushing);
    case Flush(ok) => if ok { FlushTrail(s); } else { SameTrail(s, t); }
    case _ => SameTrail(s, t);
  }

  // ---------------------------------------------------------------- alerts

  function Alerts(q: seq<Event>): multiset<Event> {
    if q == [] then multiset{}
    else Alerts(q[..|q| - 1]) + if q[|q| - 1].isAlert then multiset{q[|q| - 1]} else multiset{}
  }

  lemma {:induction false} AlertsConcat(p: seq<Event>, q: seq<Event>)
    ensures Alerts(p + q) == Alerts(p) + Alerts(q)
  {
    if q == [] {
      assert p + q == p;
    } else {
      assert (p + q)[..|p + q| - 1] == p + q[..|q| - 1];
      AlertsConcat(p, q[..|q| - 1]);
    }
  }

  function OfOption(o: Option<Event>): multiset<Event> {
    if o.Some? then multiset{o.value} else multiset{}
  }

  /** The alert the broadcaster has taken and not yet passed to the dispatcher. */
  function InFlightAlert(s: State): multiset<Event> {
    if !s.broadcaster.Idle? && s.broadcaster.e.isAlert then multiset{s.broadcaster.e} else multiset{}
  }

  /** How many copies of an alert have left the dispatcher's queue, and how many have not. */
  function Handled(s: State, x: Event): nat {
    s.inserted[x] + s.failedInserts[x] + s.failedCounts[x] + OfOption(s.lockHolder)[x] + s.sleeping[x]
  }

  function Once(e: Event, x: Event): nat {
    if e == x && e.isAlert then 1 else 0
  }

  function Copies(q: seq<Event>, x: Event): nat {
    Alerts(q)[x]
  }

  function Upstream(s: State, x: Event): nat {
    Copies(s.dispatcherQueue, x) + (if s.broadcaster.Idle? then 0 else Once(s.broadcaster.e, x)) + Copies(s.tailerQueue, x)
  }

  lemma AlertsFirst(q: seq<Event>, x: Event)
    requires q != []
    ensures Copies(q, x) == Once(q[0], x) + Copies(q[1..], x)
  {
    assert q == [q[0]] + q[1..];
    AlertsConcat([q[0]], q[1..]);
    assert [q[0]][..0] == [];
  }

  lemma AlertsLast(q: seq<Event>, e: Event, x: Event)
    ensures Copies(q + [e], x) == Copies(q, x) + Once(e, x)
  {
  }

  ghost predicate Accounted(s: State) {
    && (forall x :: Handled(s, x) + Upstream(s, x) == Copies(s.emitted, x))
    && (s.broadcaster.Indexed? ==> s.broadcaster.e.isAlert)
  }

  lemma Added(m: multiset<Event>, e: Event, x: Event)
    ensures (m + multiset{e})[x] == m[x] + multiset{e}[x]
    ensures e in m ==> (m - multiset{e})[x] + multiset{e}[x] == m[x]
    ensures multiset{e}[x] == if e == x then 1 else 0
  {
  }

  lemma HandledAfter(s: State, a: Step, batchSize: int, x: Event)
    requires Enabled(s, a)
    ensures Handled(Apply(s, a, batchSize), x) == Handled(s, x) + if a.Dispatch? then Once(s.dispatcherQueue[0], x) else 0
  {
    match a
    case Dispatch => Added(s.sleeping, s.dispatcherQueue[0], x);
    case Lock(e) => Added(s.sleeping, e, x);
    case CountFails => Added(s.failedCounts, s.lockHolder.value, x);
    case Insert(_) =>
      Added(s.inserted, s.lockHolder.value, x);
      Added(s.failedInserts, s.lockHolder.value, x);
    case _ =>
  }

  lemma UpstreamAfter(s: State, a: Step, batchSize: int, x: Event)
    requires Enabled(s, a) && (s.broadcaster.Indexed? ==> s.broadcaster.e.isAlert)
    ensures Upstream(Apply(s, a, batchSize), x) + (if a.Dispatch? then Once(s.dispatcherQueue[0], x) else 0)
            == Upstream(s, x) + if a.Emit? then Once(a.e, x) else 0
  {
    hide Copies;
    match a
    case Emit(e) => AlertsLast(s.tailerQueue, e, x);
    case Take => AlertsFirst(s.tailerQueue, x);
    case ToDispatcher => AlertsLast(s.dispatcherQueue, s.broadcaster.e, x);
    case Dispatch => AlertsFirst(s.dispatcherQueue, x);
    case _ =>
  }

  lemma FatesKept(s: State, a: Step, batchSize: int)
    requires Enabled(s, a) && Accounted(s)
    ensures Accounted(Apply(s, a, batchSize))
  {
    hide Copies, Handled, Upstream, Once;
    var t := Apply(s, a, batchSize);
    forall x ensures Handled(t, x) + Upstream(t, x) == Copies(t.emitted, x) {
      HandledAfter(s, a, batchSize, x);
      UpstreamAfter(s, a, batchSize, x);
      assert Handled(s, x) + Upstream(s, x) == Copies(s.emitted, x);
      if a.Emit? { AlertsLast(s.emitted, a.e, x); }
    }
  }

  // ---------------------------------------------------------------- the batch

  /** Flushes that failed since the last one that succeeded. */
  function FailuresInARow(steps: seq<Step>): nat {
    if steps == [] then 0
    else match steps[|steps| - 1]
      case Flush(ok) => if ok then 0 else FailuresInARow(steps[..|steps| - 1]) + 1
      case _ => FailuresInARow(steps[..|steps| - 1])
  }

  ghost predicate Bounded(s: State, failures: nat, batchSize: int) {
    && (s.flushing ==> s.batch != [])
    && |s.batch| <= (if batchSize < 1 then 1 else batchSize) - (if s.flushing then 0 else 1) + failures
  }

  lemma BoundedKept(s: State, a: Step, failures: nat, batchSize: int)
    requires Enabled(s, a) && Bounded(s, failures, batchSize)
    ensures Bounded(Apply(s, a, batchSize), if a.Flush? then (if a.ok then 0 else failures + 1) else failures, batchSize)
  {
  }

  // ---------------------------------------------------------------- every run

  ghost predicate Good(s: State, failures: nat, batchSize: int) {
    Trail(s) == s.emitted && Accounted(s) && Bounded(s, failures, batchSize)
  }

  lemma {:induction false} InvariantHolds(states: seq<State>, steps: seq<Step>, batchSize: int)
    requires IsRun(states, steps, batchSize)
    ensures Good(states[|steps|], FailuresInARow(steps), batchSize)
  {
    hide Trail, Accounted, Bounded, Apply, Enabled;
    if steps == [] {
      InitialGood(batchSize);
    } else {
      var n := |steps| - 1;
      var s, a := states[n], steps[n];
      assert IsRun(states[..n + 1], steps[..n], batchSize);
      InvariantHolds(states[..n + 1], steps[..n], batchSize);
      TrailKept(s, a, batchSize);
      FatesKept(s, a, batchSize);
      BoundedKept(s, a, FailuresInARow(steps[..n]), batchSize);
    }
  }

  lemma InitialGood(batchSize: int)
    ensures Good(INITIAL, 0, batchSize)
  {
  }

  /** At every moment of every run, whatever fails: stored rows, held batch, indexer queue, the
      event in flight and the tailer queue are exactly the emitted events, in order, so the
      stored rows are a prefix of them and, once everything is drained, all of them; and the
      batch exceeds its size by no more than the flushes failed in a row. */
  lemma NoEventLost(states: seq<State>, steps: seq<Step>, batchSize: int)
    requires IsRun(states, steps, batchSize)
    ensures var s := states[|steps|];
            && s.stored + s.batch + s.indexerQueue + InFlight(s) + s.tailerQueue == s.emitted
            && s.stored <= s.emitted && s.stored + s.batch <= s.emitted
            && (s.batch + s.indexerQueue + InFlight(s) + s.tailerQueue == [] ==> s.stored == s.emitted)
            && |s.batch| <= (if batchSize < 1 then 1 else batchSize) + FailuresInARow(steps)
  {
    InvariantHolds(states, steps, batchSize);
    var s := states[|steps|];
    Nested(s.stored, s.batch, s.indexerQueue, InFlight(s), s.tailerQueue);
  }

  lemma Nested(a: seq<Event>, b: seq<Event>, c: seq<Event>, d: seq<Event>, e: seq<Event>)
    ensures var all := a + b + c + d + e;
            && all == a + (b + (c + (d + e))) && a <= all && a + b <= all
            && (b + c + d + e == [] ==> a == all) && (c + d + e == [] ==> a + b == all)
  {
  }

  /** At every moment of every run each emitted alert is inserted, lost to a failed insert or a
      failed count, with a handler, or still upstream: none twice and none missing. */
  lemma EveryAlertAccounted(states: seq<State>, steps: seq<Step>, batchSize: int)
    requires IsRun(states, steps, batchSize)
    ensures var s := states[|steps|];
            s.inserted + s.failedInserts + s.failedCounts + OfOption(s.lockHolder) + s.sleeping
            + Alerts(s.dispatcherQueue) + InFlightAlert(s) + Alerts(s.tailerQueue) == Alerts(s.emitted)
  {
    hide Alerts, Trail, Bounded;
    InvariantHolds(states, steps, batchSize);
    var s := states[|steps|];
    var all := s.inserted + s.failedInserts + s.failedCounts + OfOption(s.lockHolder) + s.sleeping
      + Alerts(s.dispatcherQueue) + InFlightAlert(s) + Alerts(s.tailerQueue);
    forall x ensures all[x] == Alerts(s.emitted)[x] {
      assert Handled(s, x) + Upstream(s, x) == Copies(s.emitted, x);
      assert InFlightAlert(s)[x] == if s.broadcaster.Idle? then 0 else Once(s.broadcaster.e, x);
    }
  }

  /** Cancellation flushes the batch once more; the stored rows stay a prefix of what was emitted. */
  lemma ShutdownKeepsPrefix(states: seq<State>, steps: seq<Step>, batchSize: int, flushed: bool)
    requires IsRun(states, steps, batchSize)
    ensures var s := states[|steps|];
            var rows := if flushed then s.stored + s.batch else s.stored;
            rows <= s.emitted && (flushed && s.indexerQueue + InFlight(s) + s.tailerQueue == [] ==> rows == s.emitted)
  {
    NoEventLost(states, steps, batchSize);
    var s := states[|steps|];
    Nested(s.stored, s.batch, s.indexerQueue, InFlight(s), s.tailerQueue);
  }

  // ---------------------------------------------------------------- nothing gets stuck

  /** What is left to do, weighed so that every step below brings it down. */
  function Work(s: State): nat {
    11 * |s.tailerQueue|
    + (match s.broadcaster case Idle => 0 case Holding(_) => 10 case Indexed(_) => 4)
    + 5 * |s.indexerQueue| + 3 * |s.batch| + (if s.batch != [] && !s.flushing then 1 else 0)
    + 3 * |s.dispatcherQueue| + 2 * |s.sleeping| + (if s.lockHolder.Some? then 1 else 0)
  }

  predicate Drained(s: State) {
    && s.tailerQueue == [] && s.broadcaster.Idle? && s.indexerQueue == [] && s.batch == [] && s.dispatcherQueue == []
    && s.sleeping == multiset{} && s.lockHolder.None?
  }

  /** Neither a new event nor a failure. */
  predicate Quiet(a: Step) {
    !a.Emit? && !a.CountFails? && (a.Flush? ==> a.ok) && (a.Insert? ==> a.ok)
  }

  lemma LockWork(s: State, batchSize: int) returns (a: Step)
    requires s.lockHolder.None? && s.sleeping != multiset{}
    ensures Enabled(s, a) && Quiet(a) && Work(Apply(s, a, batchSize)) < Work(s)
  {
    var e :| e in s.sleeping;
    a := Lock(e);
    assert |s.sleeping - multiset{e}| == |s.sleeping| - 1;
  }

  lemma HandlerWork(s: State, batchSize: int) returns (a: Step)
    requires s.lockHolder.Some? || s.sleeping != multiset{} || s.dispatcherQueue != []
    ensures Enabled(s, a) && Quiet(a) && Work(Apply(s, a, batchSize)) < Work(s)
  {
    if s.lockHolder.Some? {
      a := Insert(true);
    } else if s.sleeping != multiset{} {
      a := LockWork(s, batchSize);
    } else {
      a := Dispatch;
    }
  }

  /** While anything is left to do, some quiet step does part of it. */
  lemma SomeWorkDone(s: State, batchSize: int) returns (a: Step)
    requires !Drained(s) && (s.flushing ==> s.batch != [])
    ensures Enabled(s, a) && Quiet(a) && Work(Apply(s, a, batchSize)) < Work(s)
  {
    if s.lockHolder.Some? || s.sleeping != multiset{} || s.dispatcherQueue != [] {
      a := HandlerWork(s, batchSize);
    } else if s.flushing {
      a := Flush(true);
    } else {
      a := UpstreamWork(s, batchSize);
    }
  }

  lemma UpstreamWork(s: State, batchSize: int) returns (a: Step)
    requires !Drained(s) && s.lockHolder.None? && s.sleeping == multiset{} && s.dispatcherQueue == []
    requires !s.flushing
    ensures Enabled(s, a) && Quiet(a) && Work(Apply(s, a, batchSize)) < Work(s)
  {
    if s.batch != [] {
      a := Timeout;
    } else if s.broadcaster.Holding? {
      a := ToIndexer;
    } else if s.broadcaster.Indexed? {
      a := ToDispatcher;
    } else if s.tailerQueue != [] {
      a := Take;
    } else {
      a := Receive;
    }
  }

  lemma QuietKeeps(s: State, a: Step, batchSize: int)
    requires Enabled(s, a) && Quiet(a)
    ensures var t := Apply(s, a, batchSize);
            t.emitted == s.emitted && t.failedInserts == s.failedInserts && t.failedCounts == s.failedCounts
  {
  }

  lemma GrowRun(states: seq<State>, steps: seq<Step>, a: Step, batchSize: int)
    requires IsRun(states, steps, batchSize) && Enabled(states[|steps|], a)
    ensures IsRun(states + [Apply(states[|steps|], a, batchSize)], steps + [a], batchSize)
  {
    hide Enabled, Apply;
  }

  lemma {:induction false} Drain(states: seq<State>, steps: seq<Step>, batchSize: int)
    returns (states': seq<State>, more: seq<Step>)
    requires IsRun(states, steps, batchSize)
    ensures IsRun(states', steps + more, batchSize) && (forall a :: a in more ==> Quiet(a))
    ensures var s, t := states[|steps|], states'[|steps + more|];
            && Drained(t) && t.emitted == s.emitted
            && t.failedInserts == s.failedInserts && t.failedCounts == s.failedCounts
    decreases Work(states[|steps|])
  {
    hide Enabled, Apply, Work, Drained, Trail, Accounted, Quiet;
    var s := states[|steps|];
    if Drained(s) {
      states', more := states, [];
      assert steps + more == steps;
    } else {
      InvariantHolds(states, steps, batchSize);
      var a := SomeWorkDone(s, batchSize);
      QuietKeeps(s, a, batchSize);
      GrowRun(states, steps, a, batchSize);
      states', more := Drain(states + [Apply(s, a, batchSize)], steps + [a], batchSize);
      assert steps + [a] + more == steps + ([a] + more);
      more := [a] + more;
    }
  }

  /** From every state of every run the pipeline can finish: there are steps without a new event
      or a failure after which every event emitted so far is stored, in order, and every alert
      among them is inserted but for those lost to a failure before. */
  lemma EverythingCanFinish(states: seq<State>, steps: seq<Step>, batchSize: int)
    returns (states': seq<State>, more: seq<Step>)
    requires IsRun(states, steps, batchSize)
    ensures IsRun(states', steps + more, batchSize) && (forall a :: a in more ==> Quiet(a))
    ensures var s, t := states[|steps|], states'[|steps + more|];
            && t.stored == s.emitted
            && t.inserted + s.failedInserts + s.failedCounts == Alerts(s.emitted)
  {
    states', more := Drain(states, steps, batchSize);
    var t := states'[|steps + more|];
    NoEventLost(states', steps + more, batchSize);
    EveryAlertAccounted(states', steps + more, batchSize);
    assert Alerts([]) == multiset{};
  }

  // ---------------------------------------------------------------- the loops

  function OnlyAlerts(q: seq<Event>): seq<Event> {
    if q == [] then []
    else OnlyAlerts(q[..|q| - 1]) + if q[|q| - 1].isAlert then [q[|q| - 1]] else []
  }

  lemma {:induction false} OnlyAlertsKeeps(q: seq<Event>)
    ensures multiset(OnlyAlerts(q)) == Alerts(q)
  {
    if q != [] { OnlyAlertsKeeps(q[..|q| - 1]); }
  }

  /** The broadcaster's loop over the events that are there. */
  method Broadcast(source: seq<Event>) returns (indexerQueue: seq<Event>, dispatcherQueue: seq<Event>)
    ensures indexerQueue == source && dispatcherQueue == OnlyAlerts(source)
    ensures multiset(dispatcherQueue) == Alerts(source)
  {
    indexerQueue, dispatcherQueue := [], [];
    for i := 0 to |source|
      invariant indexerQueue == source[..i] && dispatcherQueue == OnlyAlerts(source[..i])
    {
      var event := source[i];
      assert source[..i + 1][..i] == source[..i];
      indexerQueue := indexerQueue + [event];
      if event.isAlert {
        dispatcherQueue := dispatcherQueue + [event];
      }
    }
    assert source[..|source|] == source;
    OnlyAlertsKeeps(source);
  }

  /** One turn of the indexer's loop: an event or a timeout, and how a flush would end. */
  datatype Turn = Turn(arrival: Option<Event>, flushOk: bool)

  function Arrivals(turns: seq<Turn>): seq<Event> {
    if turns == [] then []
    else Arrivals(turns[..|turns| - 1])
         + if turns[|turns| - 1].arrival.Some? then [turns[|turns| - 1].arrival.value] else []
  }

  /** How many events the loop holds after the turns: an arrival that fills the batch and a
      timeout are the points where it flushes. */
  function Held(turns: seq<Turn>, batchSize: int): nat {
    if turns == [] then 0
    else
      var t, n := turns[|turns| - 1], Held(turns[..|turns| - 1], batchSize);
      var m := if t.arrival.Some? then n + 1 else n;
      if t.flushOk && (t.arrival.None? || m >= batchSize) then 0 else m
  }

  /** The turns at the end in which no flush could succeed. */
  function FailingTail(turns: seq<Turn>): nat {
    if turns == [] || turns[|turns| - 1].flushOk then 0 else FailingTail(turns[..|turns| - 1]) + 1
  }

  /** A batch is held below its size but for the turns that failed since. */
  lemma {:induction false} HeldBounded(turns: seq<Turn>, batchSize: int)
    ensures Held(turns, batchSize) <= (if batchSize < 1 then 1 else batchSize) - 1 + FailingTail(turns)
  {
    if turns != [] { HeldBounded(turns[..|turns| - 1], batchSize); }
  }

  /** Turn i empties the batch: a timeout, or an arrival that fills it, whose flush succeeds. */
  predicate Flushes(turns: seq<Turn>, i: int, batchSize: int)
    requires 0 <= i < |turns|
  {
    turns[i].flushOk && (turns[i].arrival.None? || Held(turns[..i], batchSize) + 1 >= batchSize)
  }

  /** After a turn that flushed, only what arrived later can be held. */
  lemma {:induction false} HeldSince(turns: seq<Turn>, i: nat, batchSize: int)
    requires i < |turns| && Flushes(turns, i, batchSize)
    ensures Held(turns, batchSize) <= |Arrivals(turns[i + 1..])|
  {
    var n := |turns| - 1;
    if i == n {
      assert turns[..n] == turns[..i];
    } else {
      assert turns[..n][i + 1..] == turns[i + 1..n] && turns[..n][..i] == turns[..i];
      HeldSince(turns[..n], i, batchSize);
      assert turns[i + 1..] == turns[i + 1..n] + [turns[n]];
      ArrivalsNext(turns[i + 1..n], turns[n]);
    }
  }

  lemma ArrivalsNext(turns: seq<Turn>, t: Turn)
    ensures Arrivals(turns + [t]) == Arrivals(turns) + if t.arrival.Some? then [t.arrival.value] else []
  {
    assert (turns + [t])[..|turns|] == turns;
  }

  class EveIndexer {
    const batchSize: int
    var rows: seq<Event>

    constructor (batchSize: int)
      ensures this.batchSize == batchSize && rows == []
    {
      this.batchSize, rows := batchSize, [];
    }

    method Flush(batch: seq<Event>, ok: bool) returns (done: bool)
      modifies this
      ensures done == ok && rows == if ok then old(rows) + batch else old(rows)
    {
      if ok {
        rows := rows + batch;
      }
      return ok;
    }

    /** The loop, cut off after any number of turns and followed by the flush on cancellation.
        Rows and what is lost are what was there and what arrived, in order.  Lost is at most
        what the batch held, and that is less than a full batch but for the flushes that failed
        since the last one that went through, and nothing from before that one. */
    method Run(turns: seq<Turn>, lastFlushOk: bool) returns (lost: seq<Event>)
      modifies this
      ensures rows + lost == old(rows) + Arrivals(turns)
      ensures |lost| == if lastFlushOk then 0 else Held(turns, batchSize)
      ensures |lost| <= (if batchSize < 1 then 1 else batchSize) - 1 + FailingTail(turns)
      ensures forall i :: 0 <= i < |turns| && Flushes(turns, i, batchSize) ==> |lost| <= |Arrivals(turns[i + 1..])|
    {
      var batch: seq<Event> := [];
      ghost var before := rows;
      assert rows + batch == before + Arrivals(turns[..0]);
      for i := 0 to |turns|
        invariant rows + batch == before + Arrivals(turns[..i])
        invariant |batch| == Held(turns[..i], batchSize)
      {
        ghost var all := rows + batch;
        batch := Take(batch, turns[i]);
        assert turns[..i + 1] == turns[..i] + [turns[i]] && turns[..i + 1][..i] == turns[..i];
        ArrivalsNext(turns[..i], turns[i]);
        assert before + Arrivals(turns[..i + 1]) == all + if turns[i].arrival.Some? then [turns[i].arrival.value] else [];
      }
      assert turns[..|turns|] == turns;
      HeldBounded(turns, batchSize);
      forall i | 0 <= i < |turns| && Flushes(turns, i, batchSize)
        ensures Held(turns, batchSize) <= |Arrivals(turns[i + 1..])|
      {
        HeldSince(turns, i, batchSize);
      }
      lost := batch;
      if batch != [] {
        var done := Flush(batch, lastFlushOk);
        if done {
          lost := [];
        }
      }
    }

    /** One turn of the loop. */
    method Take(held: seq<Event>, turn: Turn) returns (batch: seq<Event>)
      modifies this
      ensures rows + batch == old(rows) + held + if turn.arrival.Some? then [turn.arrival.value] else []
      ensures var m := |held| + if turn.arrival.Some? then 1 else 0;
              |batch| == if turn.flushOk && (turn.arrival.None? || m >= batchSize) then 0 else m
    {
      batch := held;
      if turn.arrival.Some? {
        batch := batch + [turn.arrival.value];
        if |batch| >= batchSize {
          var done := Flush(batch, turn.flushOk);
          if done {
            batch := [];
          }
        }
      } else if batch != [] {
        var done := Flush(batch, turn.flushOk);
        if done {
          batch := [];
        }
      }
    }
  }
}
