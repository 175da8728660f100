/** The circuit breaker as a function of everything that happened to it.

    Calls run concurrently; what the lock serialises is a history of entries and completions in
    any order.  A cancelled call enters and never completes. */
module CircuitBreaker {

  datatype Mode = Closed | Open | HalfOpen

  datatype Event =
    | Enter(time: real)
    | Success(time: real)
    | Failure(time: real)

  type History = seq<Event>

  /** The clock never goes back. */
  predicate Clocked(h: History) {
    forall i, j :: 0 <= i < j < |h| ==> h[i].time <= h[j].time
  }

  /** It is enough to compare neighbours. */
  lemma {:induction false} ClockedStepwise(h: History)
    ensures Clocked(h) <==> forall i :: 0 <= i < |h| - 1 ==> h[i].time <= h[i + 1].time
  {
    if |h| > 1 && forall i :: 0 <= i < |h| - 1 ==> h[i].time <= h[i + 1].time {
      var n := |h| - 1;
      ClockedStepwise(h[..n]);
      assert Clocked(h[..n]) && h[n - 1].time <= h[n - 1 + 1].time;
      forall i | 0 <= i < n ensures h[i].time <= h[n].time { assert h[..n][i] == h[i] && h[..n][n - 1] == h[n - 1]; }
      forall i, j | 0 <= i < j < |h| ensures h[i].time <= h[j].time {
        if j < n { assert h[..n][i].time <= h[..n][j].time; }
      }
    }
  }

  // ---------------------------------------------------------------- what a caller can count

  function Completions(h: History): (c: History)
    ensures forall e :: e in c <==> e in h && !e.Enter?
  {
    if h == [] then []
    else
      var last := h[|h| - 1];
      assert h == h[..|h| - 1] + [last];
      Completions(h[..|h| - 1]) + if last.Enter? then [] else [last]
  }

  /** The last n completions were all failures. */
  predicate LastFailed(h: History, n: nat) {
    var c := Completions(h);
    n <= |c| && forall i :: |c| - n <= i < |c| ==> c[i].Failure?
  }

  /** The latest completion came less than `timeout` before `now`. */
  predicate Recent(h: History, now: real, timeout: real) {
    var c := Completions(h);
    c != [] && now - c[|c| - 1].time < timeout
  }

  // ---------------------------------------------------------------- the state machine

  datatype Breaker = Breaker(mode: Mode, failures: nat, openedAt: real)

  const INITIAL := Breaker(Closed, 0, 0.0)

  function CheckReset(b: Breaker, now: real, timeout: real): Breaker {
    if b.mode.Open? && now - b.openedAt >= timeout then b.(mode := HalfOpen) else b
  }

  function OnFailure(b: Breaker, now: real, failMax: int): Breaker {
    if b.failures + 1 >= failMax || b.mode.HalfOpen? then Breaker(Open, b.failures + 1, now)
    else b.(failures := b.failures + 1)
  }

  function Next(b: Breaker, e: Event, failMax: int, timeout: real): Breaker {
    match e
    case Enter(now) => CheckReset(b, now, timeout)
    case Success(_) => b.(mode := Closed, failures := 0)
    case Failure(now) => OnFailure(b, now, failMax)
  }

  function After(h: History, failMax: int, timeout: real): Breaker {
    if h == [] then INITIAL
    else Next(After(h[..|h| - 1], failMax, timeout), h[|h| - 1], failMax, timeout)
  }

  function Max1(n: int): nat {
    if n < 1 then 1 else n
  }

  // ---------------------------------------------------------------- what the state means

  /** `failures` is the length of the run of failures the history ends with, and the mode
      follows from it and from the time of the latest failure. */
  ghost predicate Explains(b: Breaker, h: History, failMax: int, timeout: real) {
    var c := Completions(h);
    && LastFailed(h, b.failures)
    && (b.failures < |c| ==> c[|c| - b.failures - 1].Success?)
    && (b.mode.Closed? <==> b.failures < Max1(failMax))
    && (!b.mode.Closed? ==> b.openedAt == c[|c| - 1].time)
    && (b.mode.HalfOpen? ==> exists i :: 0 <= i < |h| && h[i].time - b.openedAt >= timeout)
  }

  lemma CompletionsNext(h: History, e: Event)
    ensures Completions(h + [e]) == Completions(h) + if e.Enter? then [] else [e]
  {
    assert (h + [e])[..|h|] == h;
  }

  lemma StepExplained(b: Breaker, h: History, e: Event, failMax: int, timeout: real)
    requires Explains(b, h, failMax, timeout)
    ensures Explains(Next(b, e, failMax, timeout), h + [e], failMax, timeout)
  {
    hide Completions;
    CompletionsNext(h, e);
    if b.mode.HalfOpen? {
      var i :| 0 <= i < |h| && h[i].time - b.openedAt >= timeout;
      assert (h + [e])[i] == h[i];
    }
    assert (h + [e])[|h|] == e;
  }

  lemma {:induction false} StateExplained(h: History, failMax: int, timeout: real)
    ensures Explains(After(h, failMax, timeout), h, failMax, timeout)
  {
    hide Explains, Next;
    if h == [] {
      NothingExplained(failMax, timeout);
    } else {
      var n := |h| - 1;
      StateExplained(h[..n], failMax, timeout);
      StepExplained(After(h[..n], failMax, timeout), h[..n], h[n], failMax, timeout);
      assert h == h[..n] + [h[n]];
    }
  }

  lemma NothingExplained(failMax: int, timeout: real)
    ensures Explains(INITIAL, [], failMax, timeout)
  {
  }

  /** The mode is not CLOSED exactly when the last fail_max completions all failed. */
  lemma NotClosedMeansFailing(h: History, failMax: int, timeout: real)
    ensures var b := After(h, failMax, timeout);
            && (!b.mode.Closed? <==> LastFailed(h, Max1(failMax)))
            && (!b.mode.Closed? <==> b.failures >= Max1(failMax))
  {
    StateExplained(h, failMax, timeout);
  }

  predicate Refuses(b: Breaker, now: real, timeout: real) {
    CheckReset(b, now, timeout).mode.Open?
  }

  /** For every interleaving: a call is refused exactly when the last fail_max completions all
      failed and the latest of them came less than reset_timeout ago. */
  lemma RefusedExactlyWhen(h: History, now: real, failMax: int, timeout: real)
    requires Clocked(h + [Enter(now)])
    ensures Refuses(After(h, failMax, timeout), now, timeout)
            <==> LastFailed(h, Max1(failMax)) && Recent(h, now, timeout)
  {
    StateExplained(h, failMax, timeout);
    NotClosedMeansFailing(h, failMax, timeout);
    var b := After(h, failMax, timeout);
    if b.mode.HalfOpen? {
      var i :| 0 <= i < |h| && h[i].time - b.openedAt >= timeout;
      var t := h + [Enter(now)];
      assert t[i].time <= t[|h|].time;
    }
  }

  // ---------------------------------------------------------------- HALF_OPEN

  function NextWithoutDisjunct(b: Breaker, e: Event, failMax: int, timeout: real): Breaker {
    if !e.Failure? then Next(b, e, failMax, timeout)
    else if b.failures + 1 >= failMax then Breaker(Open, b.failures + 1, e.time)
    else b.(failures := b.failures + 1)
  }

  /** Asking for HALF_OPEN when a call fails changes nothing in any reachable state. */
  lemma HalfOpenDisjunctRedundant(h: History, e: Event, failMax: int, timeout: real)
    ensures var b := After(h, failMax, timeout);
            NextWithoutDisjunct(b, e, failMax, timeout) == Next(b, e, failMax, timeout)
  {
    StateExplained(h, failMax, timeout);
  }

  /** Nothing limits the callers to one probe: once the timeout has passed, every further
      entry is admitted until a call completes. */
  lemma {:induction false} EveryProbeAdmitted(h: History, probes: History, now: real, failMax: int, timeout: real)
    requires Clocked(h + probes + [Enter(now)]) && forall e :: e in probes ==> e.Enter?
    requires LastFailed(h, Max1(failMax)) && !Recent(h, if probes == [] then now else probes[0].time, timeout)
    ensures !Refuses(After(h + probes, failMax, timeout), now, timeout)
  {
    RefusedExactlyWhen(h + probes, now, failMax, timeout);
    EntriesComplete(h, probes);
    if probes != [] {
      var t := h + probes + [Enter(now)];
      assert t[|h|] == probes[0] && t[|t| - 1] == Enter(now);
    }
  }

  lemma {:induction false} EntriesComplete(h: History, probes: History)
    requires forall e :: e in probes ==> e.Enter?
    ensures Completions(h + probes) == Completions(h)
  {
    if probes == [] {
      assert h + probes == h;
    } else {
      var t := h + probes;
      assert t[..|t| - 1] == h + probes[..|probes| - 1];
      assert t[|t| - 1] == probes[|probes| - 1] && t[|t| - 1] in probes;
      EntriesComplete(h, probes[..|probes| - 1]);
    }
  }

  // ---------------------------------------------------------------- the object

  class AsyncCircuitBreaker {
    const failMax: int
    const resetTimeout: real
    var state: Mode
    var failures: nat
    var openedAt: real
    ghost var history: History

    ghost predicate Valid()
      reads this
    {
      Clocked(history) && Breaker(state, failures, openedAt) == After(history, failMax, resetTimeout)
    }

    /** The clock of the next step is not before any earlier one. */
    ghost predicate Later(now: real)
      reads this
    {
      forall e :: e in history ==> e.time <= now
    }

    constructor (failMax: int, resetTimeout: real)
      ensures Valid() && history == [] && state == Closed
      ensures this.failMax == failMax && this.resetTimeout == resetTimeout
    {
      this.failMax, this.resetTimeout := failMax, resetTimeout;
      state, failures, openedAt, history := Closed, 0, 0.0, [];
    }

    /** The guarded start of a call. */
    method Admit(now: real) returns (admitted: bool)
      requires Valid() && Later(now)
      modifies this
      ensures Valid() && history == old(history) + [Enter(now)]
      ensures admitted <==> !(LastFailed(old(history), Max1(failMax)) && Recent(old(history), now, resetTimeout))
    {
      hide Completions, After, LastFailed, Recent;
      Extend(history, Enter(now), failMax, resetTimeout);
      RefusedExactlyWhen(history, now, failMax, resetTimeout);
      if state == Open && now - openedAt >= resetTimeout {
        state := HalfOpen;
      }
      admitted := state != Open;
      history := history + [Enter(now)];
    }

    method RecordSuccess(now: real)
      requires Valid() && Later(now)
      modifies this
      ensures Valid() && history == old(history) + [Success(now)] && state == Closed && failures == 0
    {
      hide Completions, After, Clocked;
      Extend(history, Success(now), failMax, resetTimeout);
      failures, state := 0, Closed;
      history := history + [Success(now)];
    }

    method RecordFailure(now: real)
      requires Valid() && Later(now)
      modifies this
      ensures Valid() && history == old(history) + [Failure(now)]
      ensures state != Closed <==> LastFailed(history, Max1(failMax))
    {
      hide Completions, After, LastFailed, Clocked;
      Extend(history, Failure(now), failMax, resetTimeout);
      NotClosedMeansFailing(history + [Failure(now)], failMax, resetTimeout);
      failures := failures + 1;
      if failures >= failMax || state == HalfOpen {
        state, openedAt := Open, now;
      }
      history := history + [Failure(now)];
    }
  }

  lemma Extend(h: History, e: Event, failMax: int, timeout: real)
    requires Clocked(h) && forall e' :: e' in h ==> e'.time <= e.time
    ensures Clocked(h + [e])
    ensures After(h + [e], failMax, timeout) == Next(After(h, failMax, timeout), e, failMax, timeout)
  {
  }
}
