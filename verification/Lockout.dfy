/** The login lockout over every run of attempts from all clients.

    An attempt reads the clock when it checks the lock, when it decides whether the lock has
    passed and when it sets a new one; nothing of another attempt comes in between. */
module Lockout {
  import opened Optional

  const MAX_FAILURES: nat := 5
  const LOCKOUT_SECONDS: real := 60.0

  datatype Entry = Entry(failures: nat, lockedUntil: real)

  type Table = map<string, Entry>

  datatype Attempt = Attempt(ip: string, check: real, compare: real, lock: real, correct: bool)

  predicate Sane(a: Attempt) {
    0.0 <= a.check <= a.compare <= a.lock
  }

  type History = seq<Attempt>

  ghost predicate Clocked(h: History) {
    && (forall i :: 0 <= i < |h| ==> Sane(h[i]))
    && (forall i, j :: 0 <= i < j < |h| ==> h[i].lock <= h[j].check)
  }

  /** Readings of one attempt, and attempts one after another, in the order of the clock. */
  lemma {:induction false} ClockedStepwise(h: History)
    requires forall i :: 0 <= i < |h| ==> 0.0 <= h[i].check <= h[i].compare <= h[i].lock
    requires forall i :: 0 <= i < |h| - 1 ==> h[i].lock <= h[i + 1].check
    ensures Clocked(h)
  {
    if |h| > 1 {
      var n := |h| - 1;
      ClockedStepwise(h[..n]);
      assert h[n - 1].lock <= h[n - 1 + 1].check;
      forall i | 0 <= i < n ensures h[i].lock <= h[n].check {
        assert h[..n][i] == h[i] && h[..n][n - 1] == h[n - 1];
        if i < n - 1 { assert h[..n][i].lock <= h[..n][n - 1].check; }
      }
      forall i, j | 0 <= i < j < |h| ensures h[i].lock <= h[j].check {
        if j < n { assert h[..n][i].lock <= h[..n][j].check; }
      }
    }
  }

  predicate Locked(m: Table, ip: string, now: real) {
    ip in m && m[ip].lockedUntil != 0.0 && now < m[ip].lockedUntil
  }

  function Failed(m: Table, a: Attempt): Entry {
    var e := if a.ip in m then m[a.ip] else Entry(0, 0.0);
    var e' := if e.lockedUntil != 0.0 && a.compare > e.lockedUntil then Entry(0, 0.0) else e;
    var n := e'.failures + 1;
    if n >= MAX_FAILURES then Entry(n, a.lock + LOCKOUT_SECONDS) else Entry(n, e'.lockedUntil)
  }

  function Step(m: Table, a: Attempt): Table {
    if Locked(m, a.ip, a.check) then m
    else if a.correct then m - {a.ip}
    else m[a.ip := Failed(m, a)]
  }

  function Run(h: History): Table {
    if h == [] then map[] else Step(Run(h[..|h| - 1]), h[|h| - 1])
  }

  /** When the passwords a client sent since its last successful login were checked and rejected. */
  function Rejections(h: History, ip: string): seq<real> {
    if h == [] then []
    else
      var before, a := h[..|h| - 1], h[|h| - 1];
      if a.ip != ip || Locked(Run(before), ip, a.check) then Rejections(before, ip)
      else if a.correct then []
      else Rejections(before, ip) + [a.check]
  }

  // ---------------------------------------------------------------- every run

  /** The entry follows from the rejections: a lock reaches a lockout beyond the latest of them,
      and without one the last fewer than five came a lockout after the one before. */
  ghost predicate Explained(m: Table, ip: string, rs: seq<real>) {
    var n := |rs|;
    if ip !in m then n == 0
    else
      var f := m[ip].failures;
      && 1 <= n && 1 <= f
      && (m[ip].lockedUntil != 0.0 ==> f >= MAX_FAILURES && m[ip].lockedUntil >= rs[n - 1] + LOCKOUT_SECONDS)
      && (m[ip].lockedUntil == 0.0 ==>
            f <= n && f < MAX_FAILURES && (f < n ==> rs[n - f] - rs[n - f - 1] >= LOCKOUT_SECONDS))
  }

  ghost predicate Ordered(rs: seq<real>) {
    forall i, j :: 0 <= i <= j < |rs| ==> rs[i] <= rs[j]
  }

  /** Of any six rejected checks the last comes a lockout or more after the first. */
  ghost predicate Spaced(rs: seq<real>) {
    forall i :: 0 <= i && i + MAX_FAILURES < |rs| ==> rs[i + MAX_FAILURES] - rs[i] >= LOCKOUT_SECONDS
  }

  ghost predicate Inv(m: Table, ip: string, rs: seq<real>) {
    Explained(m, ip, rs) && Ordered(rs) && Spaced(rs) && (forall r :: r in rs ==> 0.0 <= r)
  }

  lemma RejectionSpaced(m: Table, a: Attempt, rs: seq<real>)
    requires Inv(m, a.ip, rs) && Sane(a) && !Locked(m, a.ip, a.check) && (rs != [] ==> rs[|rs| - 1] <= a.check)
    ensures Ordered(rs + [a.check]) && Spaced(rs + [a.check])
  {
  }

  lemma RejectionExplained(m: Table, a: Attempt, rs: seq<real>)
    requires Inv(m, a.ip, rs) && Sane(a) && !Locked(m, a.ip, a.check) && !a.correct
    requires rs != [] ==> rs[|rs| - 1] <= a.check
    ensures Explained(Step(m, a), a.ip, rs + [a.check])
  {
  }

  lemma {:induction false} InvariantHolds(h: History, ip: string)
    requires Clocked(h)
    ensures Inv(Run(h), ip, Rejections(h, ip))
    ensures forall r :: r in Rejections(h, ip) ==> exists a :: a in h && r == a.check
  {
    hide Explained, Spaced, Ordered, Step;
    if h == [] {
      NoRejections(ip);
    } else {
      var n := |h| - 1;
      var a, m, rs := h[n], Run(h[..n]), Rejections(h[..n], ip);
      InvariantHolds(h[..n], ip);
      assert a in h && forall x :: x in h[..n] ==> x in h;
      if a.ip != ip || Locked(m, ip, a.check) || a.correct {
        OthersKeep(m, a, ip, rs);
      } else {
        forall r | r in rs ensures r <= a.check {
          var x :| x in h[..n] && r == x.check;
        }
        assert rs != [] ==> rs[|rs| - 1] in rs;
        RejectionSpaced(m, a, rs);
        RejectionExplained(m, a, rs);
      }
    }
  }

  lemma NoRejections(ip: string)
    ensures Inv(map[], ip, [])
  {
  }

  lemma OthersKeep(m: Table, a: Attempt, ip: string, rs: seq<real>)
    requires Inv(m, ip, rs) && (a.ip != ip || Locked(m, ip, a.check) || a.correct)
    ensures Inv(Step(m, a), ip, if a.ip != ip || Locked(m, ip, a.check) then rs else [])
  {
  }

  lemma {:induction false} BlocksSpaced(rs: seq<real>, i: nat, k: nat)
    requires Spaced(rs) && i + MAX_FAILURES * k < |rs|
    ensures rs[i + MAX_FAILURES * k] - rs[i] >= LOCKOUT_SECONDS * k as real
  {
    if k > 0 {
      BlocksSpaced(rs, i, k - 1);
      assert i + MAX_FAILURES * (k - 1) + MAX_FAILURES == i + MAX_FAILURES * k;
    }
  }

  /** Between two successful logins of a client, the rejected checks in a window of length T
      number at most 5 * (floor(T / 60) + 1); in less than 60 seconds that is five. */
  lemma RejectionsBounded(h: History, ip: string, i: nat, j: nat)
    requires forall k :: 0 <= k < |h| ==> 0.0 <= h[k].check <= h[k].compare <= h[k].lock
    requires forall k :: 0 <= k < |h| - 1 ==> h[k].lock <= h[k + 1].check
    requires i <= j < |Rejections(h, ip)|
    ensures var rs := Rejections(h, ip);
            var window := rs[j] - rs[i];
            && window >= 0.0 && j - i + 1 <= 5 * ((window / 60.0).Floor + 1)
            && (window < 60.0 ==> j - i + 1 <= 5)
  {
    ClockedStepwise(h);
    InvariantHolds(h, ip);
    var rs := Rejections(h, ip);
    hide Clocked, Rejections, Explained;
    var k := (j - i) / MAX_FAILURES;
    BlocksSpaced(rs, i, k);
    assert rs[i + MAX_FAILURES * k] <= rs[j];
    assert (rs[j] - rs[i]) / LOCKOUT_SECONDS >= k as real;
  }

  /** What a rejected check does to a client whose lock was set: the count starts anew exactly
      when the lock has passed by the second clock reading; otherwise, that is on the edge, the
      count goes on and the client is locked again at once. */
  lemma CountRestartsExactlyWhen(h: History, a: Attempt)
    requires Clocked(h + [a]) && !a.correct && a.ip in Run(h) && Run(h)[a.ip].lockedUntil != 0.0 && !Locked(Run(h), a.ip, a.check)
    ensures Rejections(h + [a], a.ip) == Rejections(h, a.ip) + [a.check] && a.ip in Run(h + [a])
    ensures var old', new' := Run(h)[a.ip], Run(h + [a])[a.ip];
            && (new'.failures == 1 <==> a.compare > old'.lockedUntil)
            && (a.compare > old'.lockedUntil ==> new' == Entry(1, 0.0))
            && (a.compare <= old'.lockedUntil ==>
                  a.check == a.compare == old'.lockedUntil && new' == Entry(old'.failures + 1, a.lock + LOCKOUT_SECONDS))
  {
    assert (h + [a])[..|h|] == h;
    assert Sane((h + [a])[|h|]);
    ClockedPrefix(h, a);
    InvariantHolds(h, a.ip);
    hide Clocked, Rejections, Ordered, Spaced;
    RejectedStep(h, a);
  }

  lemma ClockedPrefix(h: History, a: Attempt)
    requires Clocked(h + [a])
    ensures Clocked(h)
  {
    var all := h + [a];
    assert forall i :: 0 <= i < |h| ==> all[i] == h[i];
  }

  lemma RejectedStep(h: History, a: Attempt)
    requires !a.correct && !Locked(Run(h), a.ip, a.check)
    ensures Rejections(h + [a], a.ip) == Rejections(h, a.ip) + [a.check]
    ensures Run(h + [a]) == Run(h)[a.ip := Failed(Run(h), a)]
  {
    assert (h + [a])[..|h|] == h;
  }

  // ---------------------------------------------------------------- the functions

  datatype Reply = TooMany | Incorrect | Welcome

  class LoginGuard {
    var entries: Table
    ghost var history: History

    ghost predicate Valid()
      reads this
    {
      Clocked(history) && entries == Run(history)
    }

    constructor ()
      ensures Valid() && history == []
    {
      entries, history := map[], [];
    }

    method CheckLockout(ip: string, now: real) returns (until: Option<real>)
      ensures until.Some? <==> Locked(entries, ip, now)
      ensures until.Some? ==> until.value == entries[ip].lockedUntil
    {
      if ip !in entries {
        return None;
      }
      var lockedUntil := entries[ip].lockedUntil;
      if lockedUntil != 0.0 && now < lockedUntil {
        return Some(lockedUntil);
      }
      return None;
    }

    method RecordFailure(a: Attempt) returns (failures: nat, until: Option<real>)
      modifies this
      ensures entries == old(entries)[a.ip := Failed(old(entries), a)] && history == old(history)
      ensures failures == entries[a.ip].failures && (until.Some? <==> failures >= 5)
      ensures until.Some? ==> until.value == entries[a.ip].lockedUntil == a.lock + 60.0
    {
      if a.ip !in entries {
        entries := entries[a.ip := Entry(0, 0.0)];
      }
      var entry := entries[a.ip];
      if entry.lockedUntil != 0.0 && a.compare > entry.lockedUntil {
        entry := Entry(0, 0.0);
      }
      entry := entry.(failures := entry.failures + 1);
      failures, until := entry.failures, None;
      if entry.failures >= MAX_FAILURES {
        entry := entry.(lockedUntil := a.lock + LOCKOUT_SECONDS);
        until := Some(entry.lockedUntil);
      }
      entries := entries[a.ip := entry];
    }

    /** The login route.  A rejected password adds to the client's rejections, a correct one
        that gets through ends them, and a locked client's password is not looked at. */
    method PostLogin(a: Attempt) returns (reply: Reply)
      requires Valid() && Clocked(history + [a])
      modifies this
      ensures Valid() && history == old(history) + [a]
      ensures reply.Welcome? <==> a.correct && !Locked(old(entries), a.ip, a.check)
      ensures reply.TooMany? <==>
        Locked(old(entries), a.ip, a.check) || (!a.correct && a.ip in entries && entries[a.ip].failures >= 5)
      ensures forall ip :: ip != a.ip ==> (ip in entries <==> ip in old(entries)) && (ip in entries ==> entries[ip] == old(entries)[ip])
      ensures Rejections(history, a.ip) ==
        if reply.Welcome? then []
        else if Locked(old(entries), a.ip, a.check) then Rejections(old(history), a.ip)
        else Rejections(old(history), a.ip) + [a.check]
    {
      assert (history + [a])[..|history|] == history;
      history := history + [a];
      var until := CheckLockout(a.ip, a.check);
      if until.Some? {
        return TooMany;
      }
      if !a.correct {
        var failures, lockedUntil := RecordFailure(a);
        return if lockedUntil.Some? then TooMany else Incorrect;
      }
      entries := entries - {a.ip};
      return Welcome;
    }
  }
}
