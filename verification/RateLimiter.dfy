/** The token bucket over every sequence of loop passes.

    `acquire` holds its lock across the whole loop, sleeps included, so the passes of all callers
    form one sequence; a pass reads the clock, refills and either grants or goes to sleep.
    Time and tokens are real numbers. */
module RateLimiter {

  datatype Config = Config(rate: int, period: real)

  predicate Sane(cfg: Config) {
    cfg.rate >= 1 && cfg.period > 0.0
  }

  datatype Bucket = Bucket(tokens: real, lastRefill: real)

  /** The tokens that flow in during d seconds. */
  function Flow(d: real, cfg: Config): real
    requires Sane(cfg)
  {
    d * (cfg.rate as real / cfg.period)
  }

  function Refill(b: Bucket, now: real, cfg: Config): Bucket
    requires Sane(cfg)
  {
    var full := b.tokens + Flow(now - b.lastRefill, cfg);
    Bucket(if full > cfg.rate as real then cfg.rate as real else full, now)
  }

  predicate Grants(b: Bucket, now: real, cfg: Config)
    requires Sane(cfg)
  {
    Refill(b, now, cfg).tokens >= 1.0
  }

  function Step(b: Bucket, now: real, cfg: Config): Bucket
    requires Sane(cfg)
  {
    var r := Refill(b, now, cfg);
    if r.tokens >= 1.0 then r.(tokens := r.tokens - 1.0) else r
  }

  /** The bucket after the passes whose clock readings are ts. */
  function After(start: real, ts: seq<real>, cfg: Config): Bucket
    requires Sane(cfg)
  {
    if ts == [] then Bucket(cfg.rate as real, start)
    else Step(After(start, ts[..|ts| - 1], cfg), ts[|ts| - 1], cfg)
  }

  predicate Clocked(start: real, ts: seq<real>) {
    && (forall i :: 0 <= i < |ts| ==> start <= ts[i])
    && (forall i, j :: 0 <= i < j < |ts| ==> ts[i] <= ts[j])
  }

  predicate Granted(start: real, ts: seq<real>, k: nat, cfg: Config)
    requires Sane(cfg) && k < |ts|
  {
    Grants(After(start, ts[..k], cfg), ts[k], cfg)
  }

  /** How many of the passes a..b granted. */
  function GrantCount(start: real, ts: seq<real>, a: nat, b: nat, cfg: Config): nat
    requires Sane(cfg) && a <= b <= |ts|
    decreases b
  {
    if a == b then 0
    else GrantCount(start, ts, a, b - 1, cfg) + if Granted(start, ts, b - 1, cfg) then 1 else 0
  }

  // ---------------------------------------------------------------- every run

  predicate Within(b: Bucket, cfg: Config) {
    0.0 <= b.tokens <= cfg.rate as real
  }

  lemma FlowAdds(d: real, e: real, cfg: Config)
    requires Sane(cfg)
    ensures Flow(d + e, cfg) == Flow(d, cfg) + Flow(e, cfg)
  {
  }

  lemma FlowGrows(d: real, e: real, cfg: Config)
    requires Sane(cfg) && d < e
    ensures Flow(d, cfg) < Flow(e, cfg)
  {
  }

  lemma FlowFills(cfg: Config)
    requires Sane(cfg)
    ensures Flow(0.0, cfg) == 0.0 && Flow(cfg.period, cfg) == cfg.rate as real
  {
  }

  lemma Gain(b: Bucket, now: real, cfg: Config)
    requires Sane(cfg) && Within(b, cfg) && b.lastRefill <= now
    ensures Within(Refill(b, now, cfg), cfg)
    ensures Refill(b, now, cfg).tokens <= b.tokens + Flow(now - b.lastRefill, cfg)
  {
    hide Flow;
    FlowFills(cfg);
    if b.lastRefill < now { FlowGrows(0.0, now - b.lastRefill, cfg); }
  }

  lemma {:induction false} TokensWithin(start: real, ts: seq<real>, cfg: Config)
    requires Sane(cfg) && Clocked(start, ts)
    ensures var b := After(start, ts, cfg);
            Within(b, cfg) && b.lastRefill == if ts == [] then start else ts[|ts| - 1]
  {
    hide Refill;
    if ts != [] {
      var n := |ts| - 1;
      TokensWithin(start, ts[..n], cfg);
      Gain(After(start, ts[..n], cfg), ts[n], cfg);
      StepKeeps(After(start, ts[..n], cfg), ts[n], cfg);
    }
  }

  lemma StepKeeps(b: Bucket, now: real, cfg: Config)
    requires Sane(cfg)
    ensures Step(b, now, cfg).lastRefill == now
    ensures Step(b, now, cfg).tokens == Refill(b, now, cfg).tokens - if Grants(b, now, cfg) then 1.0 else 0.0
  {
  }

  lemma AfterNext(start: real, ts: seq<real>, k: nat, cfg: Config)
    requires Sane(cfg) && Clocked(start, ts) && k < |ts|
    ensures Clocked(start, ts[..k]) && Clocked(start, ts[..k + 1])
    ensures After(start, ts[..k + 1], cfg) == Step(After(start, ts[..k], cfg), ts[k], cfg)
  {
    assert ts[..k + 1][..k] == ts[..k];
  }

  /** Tokens spent and tokens left never exceed a full bucket plus what flowed in. */
  lemma {:induction false} SpentAndLeft(start: real, ts: seq<real>, a: nat, b: nat, cfg: Config)
    requires Sane(cfg) && Clocked(start, ts) && a < b <= |ts|
    ensures GrantCount(start, ts, a, b, cfg) as real + After(start, ts[..b], cfg).tokens
            <= cfg.rate as real + Flow(ts[b - 1] - ts[a], cfg)
    decreases b
  {
    hide Refill, Flow, Grants, Step, After;
    var k := b - 1;
    AfterNext(start, ts, k, cfg);
    TokensWithin(start, ts[..k], cfg);
    var before := After(start, ts[..k], cfg);
    Gain(before, ts[k], cfg);
    StepKeeps(before, ts[k], cfg);
    if a < k {
      SpentAndLeft(start, ts, a, k, cfg);
      FlowAdds(ts[k - 1] - ts[a], ts[k] - ts[k - 1], cfg);
      assert ts[k - 1] - ts[a] + (ts[k] - ts[k - 1]) == ts[k] - ts[a];
    } else {
      FlowFills(cfg);
      assert GrantCount(start, ts, a, k, cfg) == 0;
    }
  }

  lemma {:induction false} ClockedStepwise(start: real, ts: seq<real>)
    requires ts != [] && start <= ts[0] && forall k :: 0 <= k < |ts| - 1 ==> ts[k] <= ts[k + 1]
    ensures Clocked(start, ts)
  {
    if |ts| > 1 {
      var n := |ts| - 1;
      ClockedStepwise(start, ts[..n]);
      assert ts[n - 1] <= ts[n - 1 + 1];
      forall i | 0 <= i < n ensures start <= ts[i] <= ts[n] { assert ts[..n][i] == ts[i] && ts[..n][n - 1] == ts[n - 1]; }
      forall i, j | 0 <= i < j < |ts| ensures ts[i] <= ts[j] {
        if j < n { assert ts[..n][i] <= ts[..n][j]; }
      }
    }
  }

  /** In every run, from any grant to any later one there are at most
      rate + (rate / period) * (time between them) grants: fewer than twice the rate in less
      than a period, and at most twice the rate in a closed one. */
  lemma GrantsBounded(start: real, ts: seq<real>, i: nat, j: nat, cfg: Config)
    requires cfg.rate >= 1 && cfg.period > 0.0 && i <= j < |ts|
    requires start <= ts[0] && forall k :: 0 <= k < |ts| - 1 ==> ts[k] <= ts[k + 1]
    ensures GrantCount(start, ts, i, j + 1, cfg) as real <= cfg.rate as real + Flow(ts[j] - ts[i], cfg)
    ensures ts[j] - ts[i] <= cfg.period ==> GrantCount(start, ts, i, j + 1, cfg) <= 2 * cfg.rate
    ensures ts[j] - ts[i] < cfg.period ==> GrantCount(start, ts, i, j + 1, cfg) < 2 * cfg.rate
  {
    hide Flow, GrantCount, After, Clocked;
    ClockedStepwise(start, ts);
    SpentAndLeft(start, ts, i, j + 1, cfg);
    TokensPrefix(start, ts, j + 1, cfg);
    FlowFills(cfg);
    if ts[j] - ts[i] < cfg.period { FlowGrows(ts[j] - ts[i], cfg.period, cfg); }
  }

  lemma TokensPrefix(start: real, ts: seq<real>, k: nat, cfg: Config)
    requires Sane(cfg) && Clocked(start, ts) && k <= |ts|
    ensures After(start, ts[..k], cfg).tokens >= 0.0
  {
    TokensWithin(start, ts[..k], cfg);
  }

  // ---------------------------------------------------------------- twice the rate is reached

  /** The time in which one token flows in. */
  function Drip(cfg: Config): real
    requires Sane(cfg)
  {
    cfg.period / cfg.rate as real
  }

  function DripTime(start: real, m: nat, cfg: Config): real
    requires Sane(cfg)
  {
    if m == 0 then start else DripTime(start, m - 1, cfg) + Drip(cfg)
  }

  function BurstTime(start: real, k: nat, cfg: Config): real
    requires Sane(cfg)
  {
    DripTime(start, if k < cfg.rate then 0 else k - cfg.rate + 1, cfg)
  }

  /** A burst of `rate` passes at once, then one pass per new token. */
  function BurstThenDrip(start: real, cfg: Config): (ts: seq<real>)
    requires Sane(cfg)
    ensures |ts| == 2 * cfg.rate && forall k :: 0 <= k < |ts| ==> ts[k] == BurstTime(start, k, cfg)
  {
    seq(2 * cfg.rate, k requires 0 <= k => BurstTime(start, k, cfg))
  }

  lemma DripIsOneToken(cfg: Config)
    requires Sane(cfg)
    ensures Drip(cfg) > 0.0 && Flow(Drip(cfg), cfg) == 1.0
  {
    Inverse(cfg.period, cfg.rate as real);
  }

  lemma Inverse(a: real, b: real)
    requires a > 0.0 && b > 0.0
    ensures a / b > 0.0 && (a / b) * (b / a) == 1.0
  {
  }

  lemma FullStep(b: Bucket, now: real, cfg: Config)
    requires Sane(cfg) && 1.0 <= b.tokens + Flow(now - b.lastRefill, cfg) <= cfg.rate as real
    ensures Grants(b, now, cfg) && Step(b, now, cfg) == Bucket(b.tokens + Flow(now - b.lastRefill, cfg) - 1.0, now)
  {
  }

  function Times(k: real, d: real): real {
    k * d
  }

  lemma OneMore(k: nat, d: real)
    requires k > 0
    ensures Times((k - 1) as real, d) + d == Times(k as real, d)
  {
    var x := (k - 1) as real;
    assert k as real == x + 1.0;
    assert (x + 1.0) * d == x * d + d;
  }

  lemma {:induction false} DripTimeIs(start: real, m: nat, cfg: Config)
    requires Sane(cfg)
    ensures DripTime(start, m, cfg) == start + Times(m as real, Drip(cfg))
  {
    if m == 0 {
      assert Times(0.0, Drip(cfg)) == 0.0;
    } else {
      hide Drip, Times;
      DripTimeIs(start, m - 1, cfg);
      OneMore(m, Drip(cfg));
    }
  }

  lemma {:induction false} DripTimeGrows(start: real, m: nat, n: nat, cfg: Config)
    requires Sane(cfg) && m <= n
    ensures DripTime(start, m, cfg) <= DripTime(start, n, cfg)
  {
    hide Drip;
    DripIsOneToken(cfg);
    if m < n { DripTimeGrows(start, m, n - 1, cfg); }
  }

  function BurstBucket(start: real, k: nat, cfg: Config): Bucket
    requires Sane(cfg)
  {
    if k <= cfg.rate then Bucket((cfg.rate - k) as real, start)
    else Bucket(0.0, DripTime(start, k - cfg.rate, cfg))
  }

  lemma BurstStep(start: real, k: nat, cfg: Config)
    requires Sane(cfg) && k < 2 * cfg.rate
    ensures var b, now := BurstBucket(start, k, cfg), BurstThenDrip(start, cfg)[k];
            Grants(b, now, cfg) && Step(b, now, cfg) == BurstBucket(start, k + 1, cfg)
  {
    hide Flow, Drip, Grants, Step, BurstThenDrip;
    DripIsOneToken(cfg);
    FlowFills(cfg);
    var b, now := BurstBucket(start, k, cfg), BurstThenDrip(start, cfg)[k];
    if k >= cfg.rate {
      assert b.lastRefill == DripTime(start, k - cfg.rate, cfg);
      assert now - b.lastRefill == Drip(cfg);
    } else {
      assert now - b.lastRefill == 0.0;
    }
    FullStep(b, now, cfg);
  }

  lemma {:induction false} EveryPassGrants(start: real, k: nat, cfg: Config)
    requires Sane(cfg) && k <= 2 * cfg.rate
    ensures var ts := BurstThenDrip(start, cfg);
            After(start, ts[..k], cfg) == BurstBucket(start, k, cfg) && GrantCount(start, ts, 0, k, cfg) == k
  {
    hide Grants, Step, BurstThenDrip, BurstTime, DripTime;
    if k > 0 {
      var ts := BurstThenDrip(start, cfg);
      EveryPassGrants(start, k - 1, cfg);
      assert ts[..k][..k - 1] == ts[..k - 1] && ts[..k][k - 1] == ts[k - 1];
      BurstStep(start, k - 1, cfg);
    }
  }

  /** "At most `rate` grants in any period" is false: a closed period can hold twice as many,
      for every rate and period, so the bound above is tight. */
  lemma TwiceTheRateInAPeriod(start: real, cfg: Config)
    requires cfg.rate >= 1 && cfg.period > 0.0
    ensures var ts := BurstThenDrip(start, cfg);
            && Clocked(start, ts) && ts[|ts| - 1] - ts[0] == cfg.period
            && GrantCount(start, ts, 0, |ts|, cfg) == 2 * cfg.rate
  {
    hide Drip, After, GrantCount, DripTime, BurstThenDrip, BurstTime;
    var ts := BurstThenDrip(start, cfg);
    EveryPassGrants(start, 2 * cfg.rate, cfg);
    forall i, j | 0 <= i <= j < |ts| ensures start <= ts[i] <= ts[j] {
      BurstOrdered(start, i, j, cfg);
    }
    BurstEnds(start, cfg);
  }

  lemma BurstOrdered(start: real, i: nat, j: nat, cfg: Config)
    requires Sane(cfg) && i <= j
    ensures start <= BurstTime(start, i, cfg) <= BurstTime(start, j, cfg)
  {
    var m, n := if i < cfg.rate then 0 else i - cfg.rate + 1, if j < cfg.rate then 0 else j - cfg.rate + 1;
    DripTimeGrows(start, 0, m, cfg);
    DripTimeGrows(start, m, n, cfg);
  }

  lemma BurstEnds(start: real, cfg: Config)
    requires Sane(cfg)
    ensures BurstTime(start, 2 * cfg.rate - 1, cfg) - BurstTime(start, 0, cfg) == cfg.period
  {
    hide Drip;
    DripTimeIs(start, cfg.rate, cfg);
    DripsFillPeriod(cfg);
  }

  lemma DripsFillPeriod(cfg: Config)
    requires Sane(cfg)
    ensures Times(cfg.rate as real, Drip(cfg)) == cfg.period
  {
  }

  // ---------------------------------------------------------------- the object

  /** How long to sleep for the missing part of a token. */
  function Wait(deficit: real, cfg: Config): real
    requires Sane(cfg)
  {
    deficit * (cfg.period / cfg.rate as real)
  }

  lemma WaitIsEnough(tokens: real, d: real, cfg: Config)
    requires Sane(cfg) && tokens < 1.0 && d >= Wait(1.0 - tokens, cfg)
    ensures Wait(1.0 - tokens, cfg) > 0.0 && tokens + Flow(d, cfg) >= 1.0
  {
  }

  class Limiter {
    const cfg: Config
    ghost const start: real
    var tokens: real
    var lastRefill: real
    ghost var passes: seq<real>

    ghost predicate Valid()
      reads this
    {
      Sane(cfg) && Clocked(start, passes) && Bucket(tokens, lastRefill) == After(start, passes, cfg)
    }

    constructor (cfg: Config, now: real)
      requires cfg.rate >= 1 && cfg.period > 0.0
      ensures Valid() && this.cfg == cfg && start == now && passes == []
    {
      this.cfg, start := cfg, now;
      tokens, lastRefill, passes := cfg.rate as real, now, [];
    }

    /** One turn of the loop: read the clock, refill, and take a token if there is one. */
    method Pass(now: real) returns (granted: bool)
      requires Valid() && lastRefill <= now
      modifies this
      ensures Valid() && passes == old(passes) + [now] && lastRefill == now
      ensures granted == old(Grants(Bucket(tokens, lastRefill), now, cfg)) == Granted(start, passes, |old(passes)|, cfg)
      ensures !granted ==> tokens < 1.0 && tokens == old(Refill(Bucket(tokens, lastRefill), now, cfg).tokens)
    {
      hide Flow, After, Clocked;
      NextPass(start, passes, now, cfg);
      passes := passes + [now];
      var elapsed := now - lastRefill;
      var full := tokens + Flow(elapsed, cfg);
      tokens := if full > cfg.rate as real then cfg.rate as real else full;
      lastRefill := now;
      granted := tokens >= 1.0;
      if granted {
        tokens := tokens - 1.0;
      }
    }

    /** Waits for a token.  The first clock reading is `now`; the k-th sleep takes as long as
        asked plus oversleep(k).  One pass is enough if a token is there, and otherwise two. */
    method Acquire(now: real, oversleep: nat -> real) returns (grantedAt: real)
      requires Valid() && lastRefill <= now && forall k :: oversleep(k) >= 0.0
      modifies this
      ensures Valid()
      ensures passes == old(passes) + if old(Grants(Bucket(tokens, lastRefill), now, cfg)) then [now] else [now, grantedAt]
      ensures Granted(start, passes, |passes| - 1, cfg) && grantedAt == passes[|passes| - 1]
      ensures |passes| == |old(passes)| + 2 ==> !Granted(start, passes, |old(passes)|, cfg)
      ensures |passes| == |old(passes)| + 2 ==>
        Flow(grantedAt - oversleep(0) - now, cfg) == 1.0 - old(Refill(Bucket(tokens, lastRefill), now, cfg).tokens)
    {
      hide Flow, Wait, After, Grants, Clocked, Granted;
      var t, n: nat := now, 0;
      ghost var before := passes;
      while true
        invariant Valid() && lastRefill <= t && n <= 1
        invariant n == 0 ==> passes == before && tokens == old(tokens) && lastRefill == old(lastRefill) && t == now
        invariant n == 1 ==> passes == before + [now] && !old(Grants(Bucket(tokens, lastRefill), now, cfg))
        invariant n == 1 ==> !Granted(start, passes, |before|, cfg) && Grants(Bucket(tokens, lastRefill), t, cfg)
        invariant n == 1 ==> Flow(t - oversleep(0) - now, cfg) == 1.0 - old(Refill(Bucket(tokens, lastRefill), now, cfg).tokens)
        decreases 2 - n
      {
        var granted := Pass(t);
        if granted {
          grantedAt := t;
          if n == 1 { EarlierPass(start, before + [now], t, |before|, cfg); }
          return;
        }
        var deficit := 1.0 - tokens;
        var wait := Wait(deficit, cfg);
        EnoughAfterWait(Bucket(tokens, lastRefill), t + wait + oversleep(n), cfg);
        WaitFills(deficit, cfg);
        t := t + wait + oversleep(n);
        n := n + 1;
      }
    }
  }

  /** The sleep asked for is exactly the time in which the missing part flows in. */
  lemma WaitFills(deficit: real, cfg: Config)
    requires Sane(cfg)
    ensures Flow(Wait(deficit, cfg), cfg) == deficit
  {
    var v, w := cfg.rate as real / cfg.period, cfg.period / cfg.rate as real;
    Inverse(cfg.period, cfg.rate as real);
    assert deficit * w * v == deficit * (w * v);
  }

  lemma EnoughAfterWait(b: Bucket, t: real, cfg: Config)
    requires Sane(cfg) && b.tokens < 1.0 && t >= b.lastRefill + Wait(1.0 - b.tokens, cfg)
    ensures Grants(b, t, cfg) && Wait(1.0 - b.tokens, cfg) > 0.0
  {
    hide Flow, Wait;
    WaitIsEnough(b.tokens, t - b.lastRefill, cfg);
  }

  /** A later pass does not change whether an earlier one granted. */
  lemma EarlierPass(start: real, ts: seq<real>, t: real, k: nat, cfg: Config)
    requires Sane(cfg) && k < |ts|
    ensures Granted(start, ts + [t], k, cfg) == Granted(start, ts, k, cfg)
  {
    hide After, Grants;
    assert (ts + [t])[..k] == ts[..k];
  }

  lemma NextPass(start: real, ts: seq<real>, t: real, cfg: Config)
    requires Sane(cfg) && Clocked(start, ts) && After(start, ts, cfg).lastRefill <= t
    ensures Clocked(start, ts + [t])
    ensures After(start, ts + [t], cfg) == Step(After(start, ts, cfg), t, cfg)
    ensures Granted(start, ts + [t], |ts|, cfg) == Grants(After(start, ts, cfg), t, cfg)
  {
  }
}
