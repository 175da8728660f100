/** The VirusTotal client: cached answers, live queries and the stale fallback.

    A lookup touches the cache at up to two points, and other lookups may come between any two
    of them: it checks the primary entry, and after the live query it either falls back on the
    stale entry or stores the response, first as primary and then as stale entry.  Every cache
    call may fail, and the lookup may be cancelled before any of them; a call that fails or is
    never made leaves the cache as it is.  The reference is the log of stores: an answer depends
    only on the latest response stored for the indicator under the key that is read. */
module VirusTotal {
  import opened Optional
  import opened TtlCache
  import opened VtResponse

  datatype Kind = Ip | Domain | Hash | Url

  datatype Indicator = Indicator(kind: Kind, value: string)

  datatype Reason = BreakerOpen | RateLimited | Timeout | NetworkError | Other | AuthFailed | MalformedResponse

  /** How a live query ended. */
  datatype Outcome = Fetched(response: Value) | AuthError | Failure(reason: Reason)

  datatype Record = Record(response: Value, fetchedAt: real)

  datatype Result =
    | NotConfigured
    | Contributed(report: Report, age: Option<int>)
    | Failing(reason: Reason)
    | Raised

  predicate Supported(i: Indicator) {
    i.kind == Ip || i.kind == Domain
  }

  function KindName(k: Kind): string {
    match k
    case Ip => "ip"
    case Domain => "domain"
    case Hash => "hash"
    case Url => "url"
  }

  function Key(i: Indicator): string {
    "vt:" + KindName(i.kind) + ":" + i.value
  }

  function StaleKey(i: Indicator): string {
    Key(i) + ":stale"
  }

  /** The result a response gives; the age is None for a response just fetched. */
  function Parse(r: Value, age: Option<int>): Result {
    match ParseResponse(r)
    case Contributes(report) => Contributed(report, age)
    case Malformed => Failing(MalformedResponse)
    case Raises => Raised
  }

  function ParseCached(r: Record, now: real): Result {
    Parse(r.response, Some((now - r.fetchedAt).Floor))
  }

  // ---------------------------------------------------------------- steps on the cache

  /** `ok`: the cache call goes through.  A store has the number of the lookup that makes it. */
  datatype Step =
    | Check(i: Indicator, now: real, ok: bool)
    | Refuse(i: Indicator)
    | FallBack(i: Indicator, now: real, reason: Reason, ok: bool)
    | StorePrimary(i: Indicator, call: nat, record: Record, now: real, ok: bool)
    | StoreStale(i: Indicator, call: nat, record: Record, now: real, ok: bool)

  type Cache = History<Record>

  /** What a step returns to the caller, None when the lookup goes on. */
  function Answer(h: Cache, s: Step): Option<Result> {
    if s.Refuse? then Some(Failing(AuthFailed))
    else if !s.ok then Some(Raised)
    else match s
      case Check(i, now, _) =>
        (var r := Live(h, Key(i), now);
         if r.None? then None else Some(ParseCached(r.value, now)))
      case FallBack(i, now, reason, _) =>
        (var r := Live(h, StaleKey(i), now);
         Some(if r.None? then Failing(reason) else ParseCached(r.value, now)))
      case StorePrimary(_, _, _, _, _) => None
      case StoreStale(_, _, record, _, _) => Some(Parse(record.response, None))
  }

  /** The cache operations of a step. */
  function Effects(s: Step, ttl: int): Cache {
    if s.Refuse? || !s.ok then []
    else match s
      case Check(i, now, _) => [Get(Key(i), now)]
      case FallBack(i, now, _, _) => [Get(StaleKey(i), now)]
      case StorePrimary(i, _, record, now, _) => [Set(Key(i), record, ttl, now)]
      case StoreStale(i, _, record, now, _) => [Set(StaleKey(i), record, ttl * 7, now)]
  }

  function CacheAfter(steps: seq<Step>, ttl: int): Cache {
    if steps == [] then [] else CacheAfter(steps[..|steps| - 1], ttl) + Effects(steps[|steps| - 1], ttl)
  }

  // ---------------------------------------------------------------- the reference

  predicate Stores(s: Step, i: Indicator, stale: bool) {
    (if stale then s.StoreStale? else s.StorePrimary?) && s.i == i && s.ok
  }

  /** The latest store of the indicator that went through, as primary or as stale entry. */
  function Latest(steps: seq<Step>, i: Indicator, stale: bool): Option<Step> {
    if steps == [] then None
    else
      var s := steps[|steps| - 1];
      if Stores(s, i, stale) then Some(s) else Latest(steps[..|steps| - 1], i, stale)
  }

  predicate IsStore(o: Option<Step>) {
    o.Some? ==> o.value.StorePrimary? || o.value.StoreStale?
  }

  /** The record of a store, while it lasts. */
  function Within(o: Option<Step>, now: real, ttl: int): Option<Record>
    requires IsStore(o)
  {
    if o.Some? && now <= o.value.now + ttl as real then Some(o.value.record) else None
  }

  lemma {:induction false} LatestIsStore(steps: seq<Step>, i: Indicator, stale: bool)
    ensures IsStore(Latest(steps, i, stale))
    ensures Latest(steps, i, stale).Some? ==> Latest(steps, i, stale).value in steps && Stores(Latest(steps, i, stale).value, i, stale)
  {
    if steps != [] { LatestIsStore(steps[..|steps| - 1], i, stale); }
  }

  /** The record a step reads by the log of stores alone: the latest one under its key, if it
      is recent enough. */
  function Read(steps: seq<Step>, i: Indicator, stale: bool, now: real, ttl: int): Option<Record> {
    LatestIsStore(steps, i, stale);
    Within(Latest(steps, i, stale), now, if stale then ttl * 7 else ttl)
  }

  function Expected(steps: seq<Step>, s: Step, ttl: int): Option<Result> {
    if s.Refuse? then Some(Failing(AuthFailed))
    else if !s.ok then Some(Raised)
    else match s
      case Check(i, now, _) =>
        (var r := Read(steps, i, false, now, ttl);
         if r.None? then None else Some(ParseCached(r.value, now)))
      case FallBack(i, now, reason, _) =>
        (var r := Read(steps, i, true, now, ttl);
         Some(if r.None? then Failing(reason) else ParseCached(r.value, now)))
      case StorePrimary(_, _, _, _, _) => None
      case StoreStale(_, _, record, _, _) => Some(Parse(record.response, None))
  }

  // ---------------------------------------------------------------- keys

  predicate Plain(i: Indicator) {
    Supported(i) && !(|i.value| >= 6 && i.value[|i.value| - 6..] == ":stale")
  }

  /** The indicators the theorems cover. */
  lemma PlainExactly(i: Indicator)
    ensures Plain(i) <==> (i.kind == Ip || i.kind == Domain) && !exists x :: i.value == x + ":stale"
  {
    var v := i.value;
    if |v| >= 6 && v[|v| - 6..] == ":stale" { assert v == v[..|v| - 6] + ":stale"; }
    if x :| v == x + ":stale" { assert v[|v| - 6..] == ":stale"; }
  }

  /** The keys in the cache, as they are documented. */
  lemma KeyTexts(v: string)
    ensures Key(Indicator(Ip, v)) == "vt:ip:" + v && Key(Indicator(Domain, v)) == "vt:domain:" + v
    ensures StaleKey(Indicator(Ip, v)) == "vt:ip:" + v + ":stale"
    ensures StaleKey(Indicator(Domain, v)) == "vt:domain:" + v + ":stale"
  {
  }

  lemma KeyInjective(i: Indicator, j: Indicator)
    requires Supported(i) && Supported(j) && Key(i) == Key(j)
    ensures i == j
  {
    assert Key(i)[3] == KindName(i.kind)[0] && Key(j)[3] == KindName(j.kind)[0];
    assert Key(i)[4 + |KindName(i.kind)|..] == i.value && Key(j)[4 + |KindName(j.kind)|..] == j.value;
  }

  lemma StaleIsKey(i: Indicator)
    ensures StaleKey(i) == Key(Indicator(i.kind, i.value + ":stale"))
  {
  }

  /** Entries of different indicators, and the two entries of one, never share a key. */
  lemma KeysApart(i: Indicator, j: Indicator)
    requires Plain(i) && Plain(j)
    ensures StaleKey(i) != Key(j)
    ensures Key(i) == Key(j) <==> i == j
    ensures StaleKey(i) == StaleKey(j) <==> i == j
  {
    hide Key, StaleKey;
    var si, sj := Indicator(i.kind, i.value + ":stale"), Indicator(j.kind, j.value + ":stale");
    StaleIsKey(i);
    StaleIsKey(j);
    if Key(i) == Key(j) { KeyInjective(i, j); }
    if Key(si) == Key(j) { KeyInjective(si, j); }
    if Key(si) == Key(sj) {
      KeyInjective(si, sj);
      assert i.value == si.value[..|si.value| - 6] == j.value;
    }
  }

  // ---------------------------------------------------------------- every run

  ghost predicate AllPlain(steps: seq<Step>) {
    forall s :: s in steps ==> Plain(s.i)
  }

  lemma LiveEffects(h: Cache, s: Step, key: string, now: real, ttl: int)
    ensures Live(h + Effects(s, ttl), key, now) ==
      if Stores(s, s.i, false) && key == Key(s.i) then Within(Some(s), now, ttl)
      else if Stores(s, s.i, true) && key == StaleKey(s.i) then Within(Some(s), now, ttl * 7)
      else Live(h, key, now)
  {
    hide Key, StaleKey;
    var es := Effects(s, ttl);
    if es == [] {
      assert h + es == h;
    } else {
      assert (h + es)[..|h|] == h && es == [es[0]];
    }
  }

  /** The primary entry holds the latest response stored as primary and the stale entry the
      latest one stored as stale, each for its own time. */
  lemma {:induction false} CacheMirrorsStores(steps: seq<Step>, i: Indicator, now: real, ttl: int)
    requires AllPlain(steps) && Plain(i)
    ensures Live(CacheAfter(steps, ttl), Key(i), now) == Read(steps, i, false, now, ttl)
    ensures Live(CacheAfter(steps, ttl), StaleKey(i), now) == Read(steps, i, true, now, ttl)
  {
    hide Key, StaleKey, Plain, Effects;
    if steps != [] {
      var before, s := steps[..|steps| - 1], steps[|steps| - 1];
      assert s in steps;
      CacheMirrorsStores(before, i, now, ttl);
      KeysApart(i, s.i);
      KeysApart(s.i, i);
      LiveEffects(CacheAfter(before, ttl), s, Key(i), now, ttl);
      LiveEffects(CacheAfter(before, ttl), s, StaleKey(i), now, ttl);
    }
  }

  /** In every run of interleaved lookups each answer is the one the log of stores gives. */
  lemma AnswersAreExpected(steps: seq<Step>, s: Step, ttl: int)
    requires AllPlain(steps) && Plain(s.i)
    ensures Answer(CacheAfter(steps, ttl), s) == Expected(steps, s, ttl)
  {
    hide Plain, Key, StaleKey, ParseCached, Read, Parse;
    if s.Check? || s.FallBack? { CacheMirrorsStores(steps, s.i, s.now, ttl); }
  }

  /** A cached CONTRIBUTED answer is the report of a response stored for that same indicator, at
      most TTL ago as primary entry and 7 * TTL ago as stale one, with its age since the fetch. */
  lemma ContributedWasStored(steps: seq<Step>, s: Step, ttl: int) returns (store: Step)
    requires AllPlain(steps) && Plain(s.i) && (s.Check? || s.FallBack?)
    requires Answer(CacheAfter(steps, ttl), s).Some? && Answer(CacheAfter(steps, ttl), s).value.Contributed?
    ensures var r := Answer(CacheAfter(steps, ttl), s).value;
            && store in steps && Stores(store, s.i, s.FallBack?)
            && ParseResponse(store.record.response) == Contributes(r.report)
            && r.age == Some((s.now - store.record.fetchedAt).Floor)
            && s.now - store.now <= (if s.Check? then ttl else ttl * 7) as real
  {
    hide Plain, Key, StaleKey, ParseResponse, Latest;
    AnswersAreExpected(steps, s, ttl);
    LatestIsStore(steps, s.i, s.FallBack?);
    store := Latest(steps, s.i, s.FallBack?).value;
  }

  /** Exactly when a failed query ends in FAILING: the fallback read goes through and the latest
      response stored as stale is missing, too old or malformed. */
  lemma FailingExactlyWhen(steps: seq<Step>, s: Step, ttl: int)
    requires AllPlain(steps) && Plain(s.i) && s.FallBack?
    ensures var a, last := Answer(CacheAfter(steps, ttl), s), Latest(steps, s.i, true);
            && a.Some? && IsStore(last)
            && (a.value.Failing? <==>
                s.ok && (last.None? || last.value.now + (ttl * 7) as real < s.now || ParseResponse(last.value.record.response).Malformed?))
  {
    hide Plain, Key, StaleKey, ParseResponse, Latest;
    AnswersAreExpected(steps, s, ttl);
    LatestIsStore(steps, s.i, true);
  }

  /** The response a step parses: the one just stored, or the latest one it reads. */
  function Consulted(steps: seq<Step>, s: Step, ttl: int): Option<Value> {
    match s
    case StoreStale(_, _, record, _, _) => Some(record.response)
    case Check(i, now, _) => Responded(Read(steps, i, false, now, ttl))
    case FallBack(i, now, _, _) => Responded(Read(steps, i, true, now, ttl))
    case _ => None
  }

  function Responded(r: Option<Record>): Option<Value> {
    if r.None? then None else Some(r.value.response)
  }

  /** The parser lets an exception through: the response is no object, or it marks no 404 and
      has something else at `data.attributes` or at its statistics. */
  predicate Unreadable(raw: Value) {
    !raw.Dict? || (!Flagged(raw) && (NoObjectAt(raw, ATTRIBUTES) || NoObjectAt(raw, STATS)))
  }

  /** A lookup raises, against its documentation, exactly when a cache call of it fails or the
      response it parses, fresh or cached, is unreadable. */
  lemma RaisesExactlyWhen(steps: seq<Step>, s: Step, ttl: int)
    requires AllPlain(steps) && Plain(s.i)
    ensures Answer(CacheAfter(steps, ttl), s) == Some(Raised) <==>
      !s.Refuse? && (!s.ok || (Consulted(steps, s, ttl).Some? && Unreadable(Consulted(steps, s, ttl).value)))
  {
    AnswersAreExpected(steps, s, ttl);
    hide Plain, Key, StaleKey, ParseResponse, Read, Unreadable;
    ParseRaises();
  }

  lemma ParseRaises()
    ensures forall r, age :: Parse(r, age).Raised? <==> Unreadable(r)
  {
    hide ParseResponse;
    forall r, age ensures Parse(r, age).Raised? <==> Unreadable(r) { ParsesExactly(r); }
  }

  // ---------------------------------------------------------------- when the two entries agree

  /** Step p is the primary store of the lookup whose stale store is step q. */
  ghost predicate PrimaryOf(steps: seq<Step>, p: int, q: int) {
    && 0 <= p < q < |steps| && steps[p].StorePrimary? && steps[p].ok && steps[q].StoreStale?
    && steps[p].call == steps[q].call && steps[p].i == steps[q].i && steps[p].record == steps[q].record
  }

  /** A lookup stores its response once as primary and, after that went through, once as stale. */
  ghost predicate Protocol(steps: seq<Step>) {
    && (forall q :: 0 <= q < |steps| && steps[q].StoreStale? ==> exists p :: PrimaryOf(steps, p, q))
    && (forall p, p' :: (&& 0 <= p < |steps| && 0 <= p' < |steps| && steps[p].StorePrimary? && steps[p'].StorePrimary?
                         && steps[p].call == steps[p'].call) ==> p == p')
  }

  predicate LastStore(steps: seq<Step>, i: Indicator, stale: bool, k: int) {
    0 <= k < |steps| && Stores(steps[k], i, stale) && forall j :: k < j < |steps| ==> !Stores(steps[j], i, stale)
  }

  lemma {:induction false} LatestAt(steps: seq<Step>, i: Indicator, stale: bool) returns (k: int)
    ensures Latest(steps, i, stale).None? ==> k == -1 && forall j :: 0 <= j < |steps| ==> !Stores(steps[j], i, stale)
    ensures Latest(steps, i, stale).Some? ==> LastStore(steps, i, stale, k) && Latest(steps, i, stale) == Some(steps[k])
  {
    k := -1;
    if steps != [] {
      var n := |steps| - 1;
      if Stores(steps[n], i, stale) {
        k := n;
      } else {
        k := LatestAt(steps[..n], i, stale);
      }
    }
  }

  lemma LatestNext(steps: seq<Step>, s: Step, i: Indicator, stale: bool)
    ensures Latest(steps + [s], i, stale) == if Stores(s, i, stale) then Some(s) else Latest(steps, i, stale)
  {
    assert (steps + [s])[..|steps|] == steps;
  }

  /** Both entries come from the same fetch, or there is neither. */
  predicate Agree(steps: seq<Step>, i: Indicator) {
    LatestIsStore(steps, i, false);
    LatestIsStore(steps, i, true);
    var p, q := Latest(steps, i, false), Latest(steps, i, true);
    (p.None? && q.None?) || (p.Some? && q.Some? && p.value.call == q.value.call)
  }

  /** The lookup that stored the primary entry last has also stored the stale entry last. */
  ghost predicate LastFetchCompleted(steps: seq<Step>, i: Indicator) {
    forall p :: LastStore(steps, i, false, p) ==>
      exists q :: p < q && LastStore(steps, i, true, q) && steps[q].call == steps[p].call
  }

  /** The two entries of an indicator agree exactly when the last lookup that stored its response
      went on to store it as stale, and no other lookup did so later; then both hold one record. */
  lemma EntriesAgreeExactlyWhen(steps: seq<Step>, i: Indicator)
    requires Protocol(steps)
    ensures Agree(steps, i) <==> LastFetchCompleted(steps, i)
    ensures IsStore(Latest(steps, i, false)) && IsStore(Latest(steps, i, true))
    ensures Agree(steps, i) && Latest(steps, i, false).Some? ==>
      Latest(steps, i, true).Some? && Latest(steps, i, true).value.record == Latest(steps, i, false).value.record
  {
    LatestIsStore(steps, i, false);
    LatestIsStore(steps, i, true);
    var p := LatestAt(steps, i, false);
    var q := LatestAt(steps, i, true);
    hide Latest;
    if Latest(steps, i, true).Some? {
      var p' :| PrimaryOf(steps, p', q);
      assert Stores(steps[p'], i, false);
    }
  }

  /** A lookup that loses its second store, to an error or to cancellation, leaves the entries in
      disagreement: after TTL a failed query is FAILING although a well-formed response was
      fetched less than 7 * TTL ago. */
  lemma LostStaleStore(i: Indicator, r: Value, t: real, ttl: int, reason: Reason)
    requires Plain(i) && ttl >= 1 && ParseResponse(r).Contributes?
    ensures var record := Record(r, t);
            var steps := [StorePrimary(i, 0, record, t, true), StoreStale(i, 0, record, t, false)];
            && AllPlain(steps) && Protocol(steps) && !Agree(steps, i)
            && Answer(CacheAfter(steps, ttl), Check(i, t + ttl as real, true)) == Some(ParseCached(record, t + ttl as real))
            && Answer(CacheAfter(steps, ttl), Check(i, t + ttl as real + 1.0, true)).None?
            && Answer(CacheAfter(steps, ttl), FallBack(i, t + ttl as real + 1.0, reason, true)) == Some(Failing(reason))
            && t + ttl as real + 1.0 < t + (ttl * 7) as real
  {
    hide Plain, Key, StaleKey, CacheAfter, ParseResponse, Answer;
    var record := Record(r, t);
    var a, b := StorePrimary(i, 0, record, t, true), StoreStale(i, 0, record, t, false);
    var steps := [a, b];
    assert steps == [] + [a] + [b];
    LatestNext([], a, i, false);
    LatestNext([], a, i, true);
    LatestNext([a], b, i, false);
    LatestNext([a], b, i, true);
    assert Latest(steps, i, false) == Some(a) && Latest(steps, i, true) == None;
    assert PrimaryOf(steps, 0, 1);
    hide Latest;
    AnswersAreExpected(steps, Check(i, t + ttl as real, true), ttl);
    AnswersAreExpected(steps, Check(i, t + ttl as real + 1.0, true), ttl);
    AnswersAreExpected(steps, FallBack(i, t + ttl as real + 1.0, reason, true), ttl);
  }

  /** "FAILING only if nothing well-formed was fetched within 7 * TTL" is also false where every
      store goes through: a malformed response takes the place of a good stale one. */
  lemma MalformedHidesGood(i: Indicator, good: Value, bad: Value, t: real, ttl: int, reason: Reason)
    requires Plain(i) && ttl >= 1 && ParseResponse(good).Contributes? && ParseResponse(bad).Malformed?
    ensures var later := t + ttl as real + 1.0;
            var g, b := Record(good, t), Record(bad, later);
            var steps := [StorePrimary(i, 0, g, t, true), StoreStale(i, 0, g, t, true),
                          StorePrimary(i, 1, b, later, true), StoreStale(i, 1, b, later, true)];
            && AllPlain(steps) && Answer(CacheAfter(steps[..2], ttl), Check(i, later, true)).None?
            && Answer(CacheAfter(steps, ttl), FallBack(i, t + 2.0 * ttl as real + 2.0, reason, true)) == Some(Failing(MalformedResponse))
            && t + 2.0 * ttl as real + 2.0 <= t + (ttl * 7) as real
  {
    hide Plain, Key, StaleKey, CacheAfter, ParseResponse, Answer;
    var later, end := t + ttl as real + 1.0, t + 2.0 * ttl as real + 2.0;
    var g, b := Record(good, t), Record(bad, later);
    var s0, s1 := StorePrimary(i, 0, g, t, true), StoreStale(i, 0, g, t, true);
    var s2, s3 := StorePrimary(i, 1, b, later, true), StoreStale(i, 1, b, later, true);
    var steps := [s0, s1, s2, s3];
    assert steps[..2] == [s0, s1] == [s0] + [s1] && [s0] == [] + [s0] && steps == [s0, s1, s2] + [s3];
    LatestNext([], s0, i, false);
    LatestNext([s0], s1, i, false);
    LatestNext([s0, s1, s2], s3, i, true);
    hide Latest;
    AnswersAreExpected([s0, s1], Check(i, later, true), ttl);
    AnswersAreExpected(steps, FallBack(i, end, reason, true), ttl);
  }

  /** Values ending in ":stale" are excluded for a reason: a lookup of `x:stale` is answered
      with what was fetched for x. */
  lemma StaleSuffixCollides(x: string, kind: Kind, r: Value, t: real, ttl: int)
    requires ttl >= 0
    ensures var i, record := Indicator(kind, x), Record(r, t);
            var steps := [StorePrimary(i, 0, record, t, true), StoreStale(i, 0, record, t, true)];
            Answer(CacheAfter(steps, ttl), Check(Indicator(kind, x + ":stale"), t, true)) == Some(ParseCached(record, t))
  {
    hide Key, StaleKey, ParseResponse;
    var i, record := Indicator(kind, x), Record(r, t);
    var a, b := StorePrimary(i, 0, record, t, true), StoreStale(i, 0, record, t, true);
    StaleIsKey(i);
    assert [a, b][..1] == [a];
    LiveEffects(CacheAfter([a], ttl), b, StaleKey(i), t, ttl);
  }

  // ---------------------------------------------------------------- the object

  /** The clock readings of a lookup, how its live query ends and which cache calls go through.
      After a failed query the first call is the fallback, otherwise the two are the stores. */
  datatype Calls = Calls(checkAt: real, checkOk: bool, outcome: Outcome, fetchedAt: real,
                         firstAt: real, firstOk: bool, secondAt: real, secondOk: bool)

  predicate Ordered(c: Calls) {
    c.checkAt <= c.fetchedAt <= c.firstAt <= c.secondAt
  }

  /** The result of a whole lookup with nothing in between, by the log of stores. */
  function ExpectedLookup(steps: seq<Step>, i: Indicator, c: Calls, ttl: int): Result {
    var hit := Expected(steps, Check(i, c.checkAt, c.checkOk), ttl);
    if hit.Some? then hit.value
    else match c.outcome
      case AuthError => Failing(AuthFailed)
      case Failure(reason) =>
        (var r := Read(steps, i, true, c.firstAt, ttl);
         if !c.firstOk then Raised else if r.None? then Failing(reason) else ParseCached(r.value, c.firstAt))
      case Fetched(r) => if c.firstOk && c.secondOk then Parse(r, None) else Raised
  }

  /** A whole lookup raises exactly when a cache call it comes to fails, or the response it ends
      up parsing, from the primary entry, the stale entry or the live query, is unreadable. */
  lemma LookupRaisesExactlyWhen(steps: seq<Step>, i: Indicator, c: Calls, ttl: int)
    ensures var hit := Responded(Read(steps, i, false, c.checkAt, ttl));
            var stale := Responded(Read(steps, i, true, c.firstAt, ttl));
            ExpectedLookup(steps, i, c, ttl).Raised? <==>
              || !c.checkOk
              || (hit.Some? && Unreadable(hit.value))
              || (hit.None? && c.outcome.Failure? && (!c.firstOk || (stale.Some? && Unreadable(stale.value))))
              || (hit.None? && c.outcome.Fetched? && (!c.firstOk || !c.secondOk || Unreadable(c.outcome.response)))
  {
    hide Read, Unreadable, Parse;
    ParseRaises();
  }

  class VirusTotalClient {
    const configured: bool
    const ttl: int
    const cache: SQLiteCache<Record, string>
    ghost var steps: seq<Step>

    ghost predicate Valid()
      reads this, cache
    {
      && cache.Valid() && cache.history == CacheAfter(steps, ttl)
      && (forall r :: cache.loads(cache.dumps(r)) == r)
    }

    constructor (configured: bool, ttl: int, cache: SQLiteCache<Record, string>)
      requires cache.Valid() && cache.history == [] && forall r :: cache.loads(cache.dumps(r)) == r
      ensures Valid() && steps == [] && this.cache == cache && this.ttl == ttl && this.configured == configured
    {
      this.configured, this.ttl, this.cache := configured, ttl, cache;
      steps := [];
    }

    /** The check of the primary entry, or the fallback on the stale one. */
    method ReadEntry(s: Step) returns (answer: Option<Result>)
      requires Valid() && (s.Check? || s.FallBack?) && Before(cache.history, s.now)
      modifies this, cache
      ensures Valid() && steps == old(steps) + [s] && Before(cache.history, s.now)
      ensures answer == Answer(old(CacheAfter(steps, ttl)), s)
    {
      hide Key, StaleKey, Live, Encoded, Run, CacheAfter, ParseCached;
      Follow(steps, s, ttl);
      steps := steps + [s];
      if !s.ok {
        return Some(Raised);
      }
      var r := cache.Get(if s.Check? then Key(s.i) else StaleKey(s.i), s.now);
      if r.None? {
        return if s.Check? then None else Some(Failing(s.reason));
      }
      return Some(ParseCached(r.value, s.now));
    }

    /** One of the two stores of a fetched response. */
    method StoreEntry(s: Step) returns (answer: Option<Result>)
      requires Valid() && (s.StorePrimary? || s.StoreStale?) && Before(cache.history, s.now)
      modifies this, cache
      ensures Valid() && steps == old(steps) + [s] && Before(cache.history, s.now)
      ensures answer == Answer(old(CacheAfter(steps, ttl)), s)
    {
      hide Key, StaleKey, Live, Encoded, Run, CacheAfter, Parse;
      Follow(steps, s, ttl);
      steps := steps + [s];
      if !s.ok {
        return Some(Raised);
      }
      if s.StorePrimary? {
        cache.Set(Key(s.i), s.record, ttl, s.now);
        return None;
      }
      cache.Set(StaleKey(s.i), s.record, ttl * 7, s.now);
      return Some(Parse(s.record.response, None));
    }

    /** A whole lookup with nothing in between; `call` is its number. */
    method Lookup(i: Indicator, call: nat, c: Calls) returns (result: Result)
      requires Valid() && Before(cache.history, c.checkAt) && Ordered(c)
      modifies this, cache
      ensures Valid()
      ensures result.NotConfigured? <==> !configured || (i.kind != Ip && i.kind != Domain)
      ensures AllPlain(old(steps)) && Plain(i) && configured ==> result == ExpectedLookup(old(steps), i, c, ttl)
    {
      if !configured || !Supported(i) {
        return NotConfigured;
      }
      hide Key, StaleKey, Encoded, Run, CacheAfter, Answer, ExpectedLookup, Plain, AllPlain, Live, Parse, Effects;
      ghost var before := steps;
      var check := Check(i, c.checkAt, c.checkOk);
      StepsConfigured(CacheAfter(before, ttl), check);
      if AllPlain(before) && Plain(i) { LookupExpected(before, i, call, c, ttl); }
      var hit := ReadEntry(check);
      if hit.Some? {
        return hit.value;
      }
      result := QueryLive(i, call, c);
    }

    /** What follows a miss. */
    method QueryLive(i: Indicator, call: nat, c: Calls) returns (result: Result)
      requires Valid() && Before(cache.history, c.firstAt) && c.firstAt <= c.secondAt
      modifies this, cache
      ensures Valid() && !result.NotConfigured?
      ensures match c.outcome
              case AuthError => result == Failing(AuthFailed)
              case Failure(reason) =>
                Some(result) == Answer(CacheAfter(old(steps), ttl), FallBack(i, c.firstAt, reason, c.firstOk))
              case Fetched(r) => result == if c.firstOk && c.secondOk then Parse(r, None) else Raised
    {
      hide Key, StaleKey, Encoded, Run, CacheAfter, Answer, Live, Parse, Effects;
      match c.outcome {
        case AuthError =>
          Follow(steps, Refuse(i), ttl);
          RefuseIsQuiet(i, ttl);
          steps := steps + [Refuse(i)];
          result := Failing(AuthFailed);
        case Failure(reason) =>
          var s := FallBack(i, c.firstAt, reason, c.firstOk);
          StepsConfigured(CacheAfter(steps, ttl), s);
          var answer := ReadEntry(s);
          result := answer.value;
        case Fetched(r) =>
          ParseConfigured(r, None);
          result := StoreBoth(i, call, Record(r, c.fetchedAt), c);
      }
    }

    /** The two stores of a fetched response. */
    method StoreBoth(i: Indicator, call: nat, record: Record, c: Calls) returns (result: Result)
      requires Valid() && Before(cache.history, c.firstAt) && c.firstAt <= c.secondAt
      modifies this, cache
      ensures Valid()
      ensures result == if c.firstOk && c.secondOk then Parse(record.response, None) else Raised
    {
      hide Key, StaleKey, Encoded, Run, CacheAfter, Answer, Live, Parse, Effects;
      var s := StorePrimary(i, call, record, c.firstAt, c.firstOk);
      StepsConfigured(CacheAfter(steps, ttl), s);
      var answer := StoreEntry(s);
      if answer.Some? {
        return answer.value;
      }
      var t := StoreStale(i, call, record, c.secondAt, c.secondOk);
      StepsConfigured(CacheAfter(steps, ttl), t);
      answer := StoreEntry(t);
      result := answer.value;
    }
  }

  lemma RefuseIsQuiet(i: Indicator, ttl: int)
    ensures Effects(Refuse(i), ttl) == []
  {
  }

  lemma ParseConfigured(r: Value, age: Option<int>)
    ensures !Parse(r, age).NotConfigured?
  {
    hide ParseResponse;
  }

  lemma StepsConfigured(h: Cache, s: Step)
    ensures Answer(h, s).Some? ==> !Answer(h, s).value.NotConfigured?
    ensures !s.Check? && !s.StorePrimary? ==> Answer(h, s).Some?
    ensures s.StorePrimary? ==> Answer(h, s) == if s.ok then None else Some(Raised)
    ensures s.StoreStale? ==> Answer(h, s) == Some(if s.ok then Parse(s.record.response, None) else Raised)
  {
    hide ParseResponse;
  }

  /** The steps of one lookup give its result; a check in between changes nothing. */
  lemma LookupExpected(steps: seq<Step>, i: Indicator, call: nat, c: Calls, ttl: int)
    requires AllPlain(steps) && Plain(i)
    ensures var check := Check(i, c.checkAt, c.checkOk);
            var hit := Answer(CacheAfter(steps, ttl), check);
            && (hit.Some? ==> ExpectedLookup(steps, i, c, ttl) == hit.value)
            && (hit.None? && c.outcome.AuthError? ==> ExpectedLookup(steps, i, c, ttl) == Failing(AuthFailed))
            && (hit.None? && c.outcome.Failure? ==>
                  Some(ExpectedLookup(steps, i, c, ttl))
                  == Answer(CacheAfter(steps + [check], ttl), FallBack(i, c.firstAt, c.outcome.reason, c.firstOk)))
            && (hit.None? && c.outcome.Fetched? ==>
                  ExpectedLookup(steps, i, c, ttl) == if c.firstOk && c.secondOk then Parse(c.outcome.response, None) else Raised)
  {
    hide Plain, Answer, CacheAfter, Parse, ParseCached;
    var check := Check(i, c.checkAt, c.checkOk);
    AnswersAreExpected(steps, check, ttl);
    assert (steps + [check])[..|steps|] == steps;
    if c.outcome.Failure? { AnswersAreExpected(steps + [check], FallBack(i, c.firstAt, c.outcome.reason, c.firstOk), ttl); }
  }

  lemma Follow(steps: seq<Step>, s: Step, ttl: int)
    ensures CacheAfter(steps + [s], ttl) == CacheAfter(steps, ttl) + Effects(s, ttl)
  {
    assert (steps + [s])[..|steps|] == steps;
  }
}
