/** The two TTL caches over every history of operations.

    The reference reads only the history: a key has a value when the last write to it was a set
    whose time to live has not passed. */
module TtlCache {
  import opened Optional

  datatype Event<V> =
    | Set(key: string, value: V, ttl: int, time: real)
    | Get(key: string, time: real)
    | Delete(key: string, time: real)
    | ClearExpired(time: real)

  type History<V> = seq<Event<V>>

  ghost predicate Before<V>(h: History<V>, now: real) {
    forall i :: 0 <= i < |h| ==> h[i].time <= now
  }

  // ---------------------------------------------------------------- reference

  predicate Writes<V>(e: Event<V>, key: string) {
    (e.Set? || e.Delete?) && e.key == key
  }

  /** The value of a key: that of the last write, if it was a set and has not expired. */
  function Live<V>(h: History<V>, key: string, now: real): Option<V> {
    if h == [] then None
    else
      var e := h[|h| - 1];
      if !Writes(e, key) then Live(h[..|h| - 1], key, now)
      else if e.Set? && now <= e.time + e.ttl as real then Some(e.value)
      else None
  }

  /** What Live means without recursion. */
  lemma {:induction false} LiveMeans<V>(h: History<V>, key: string, now: real, v: V)
    ensures Live(h, key, now) == Some(v) <==>
      exists i :: LastWriteAt(h, key, i) && h[i].Set? && h[i].value == v && now <= h[i].time + h[i].ttl as real
  {
    if h != [] {
      var h', n := h[..|h| - 1], |h| - 1;
      LiveMeans(h', key, now, v);
      if Writes(h[n], key) {
        assert LastWriteAt(h, key, n);
      } else {
        assert forall i :: LastWriteAt(h, key, i) <==> LastWriteAt(h', key, i);
      }
    }
  }

  predicate LastWriteAt<V>(h: History<V>, key: string, i: int) {
    0 <= i < |h| && Writes(h[i], key) && forall j :: i < j < |h| ==> !Writes(h[j], key)
  }

  /** Only the writes of a history matter: reads, and so lazy eviction, and clear_expired can be
      dropped or added anywhere without changing any value. */
  function OnlyWrites<V>(h: History<V>): History<V> {
    if h == [] then []
    else
      var e := h[|h| - 1];
      OnlyWrites(h[..|h| - 1]) + if e.Set? || e.Delete? then [e] else []
  }

  lemma {:induction false} EvictionNeverShows<V>(h: History<V>, key: string, now: real)
    ensures Live(OnlyWrites(h), key, now) == Live(h, key, now)
  {
    if h != [] {
      var e, w := h[|h| - 1], OnlyWrites(h[..|h| - 1]);
      EvictionNeverShows(h[..|h| - 1], key, now);
      assert (w + [e])[..|w|] == w;
      assert w + [] == w;
    }
  }

  // ---------------------------------------------------------------- the tables

  datatype Entry<V> = Entry(value: V, expiry: real)

  type Table<V> = map<string, Entry<V>>

  predicate Expired<V>(m: Table<V>, key: string, now: real) {
    key in m && now > m[key].expiry
  }

  function Evict<V>(m: Table<V>, key: string, now: real): Table<V> {
    if Expired(m, key, now) then m - {key} else m
  }

  function EvictAll<V>(m: Table<V>, now: real): Table<V> {
    map k | k in m && !Expired(m, k, now) :: m[k]
  }

  function Step<V>(m: Table<V>, e: Event<V>): Table<V> {
    match e
    case Set(key, value, ttl, time) => m[key := Entry(value, time + ttl as real)]
    case Get(key, time) => Evict(m, key, time)
    case Delete(key, _) => m - {key}
    case ClearExpired(time) => EvictAll(m, time)
  }

  function Run<V>(h: History<V>): Table<V> {
    if h == [] then map[] else Step(Run(h[..|h| - 1]), h[|h| - 1])
  }

  function Look<V>(m: Table<V>, key: string, now: real): Option<V> {
    if key in m && now <= m[key].expiry then Some(m[key].value) else None
  }

  /** Whatever has been evicted, a get answers as the history says. */
  lemma {:induction false} LookIsLive<V>(h: History<V>, key: string, now: real)
    requires Before(h, now)
    ensures Look(Run(h), key, now) == Live(h, key, now)
  {
    if h != [] {
      var n := |h| - 1;
      LookIsLive(h[..n], key, now);
      assert h[n].time <= now;
    }
  }

  /** A row is held until an event on it comes after its expiry. */
  predicate HeldFrom<V>(h: History<V>, key: string, i: int) {
    && LastWriteAt(h, key, i) && h[i].Set?
    && forall j :: i < j < |h| ==> !Evicts(h[j], key, h[i].time + h[i].ttl as real)
  }

  predicate Evicts<V>(e: Event<V>, key: string, expiry: real) {
    e.time > expiry && (e.ClearExpired? || (e.Get? && e.key == key))
  }

  /** Exactly which rows the table holds after a history. */
  lemma {:induction false} RowsHeld<V>(h: History<V>, key: string, expiry: real)
    ensures (key in Run(h) && Run(h)[key].expiry == expiry)
            <==> exists i :: HeldFrom(h, key, i) && h[i].time + h[i].ttl as real == expiry
  {
    if h != [] {
      var h', n := h[..|h| - 1], |h| - 1;
      RowsHeld(h', key, expiry);
      if Writes(h[n], key) {
        if h[n].Set? { assert HeldFrom(h, key, n); }
        assert forall i :: LastWriteAt(h, key, i) ==> i == n;
      } else {
        forall i ensures HeldFrom(h, key, i) <==>
          HeldFrom(h', key, i) && !Evicts(h[n], key, h[i].time + h[i].ttl as real)
        {
          assert LastWriteAt(h, key, i) <==> LastWriteAt(h', key, i);
        }
      }
    }
  }

  // ---------------------------------------------------------------- a late eviction

  /** The key has a set in this stretch that is its last write there and has not expired. */
  ghost predicate FreshlySet<V>(h: History<V>, key: string, now: real) {
    exists i :: LastWriteAt(h, key, i) && h[i].Set? && now <= h[i].time + h[i].ttl as real
  }

  lemma {:induction false} LiveConcat<V>(a: History<V>, b: History<V>, key: string, now: real)
    ensures Live(a + b, key, now) ==
      if exists i :: LastWriteAt(b, key, i) then Live(b, key, now) else Live(a, key, now)
  {
    if b == [] {
      assert a + b == a;
    } else {
      var n := |b| - 1;
      assert (a + b)[..|a + b| - 1] == a + b[..n];
      LiveConcat(a, b[..n], key, now);
      if Writes(b[n], key) {
        assert LastWriteAt(b, key, n);
      } else {
        assert forall i :: LastWriteAt(b, key, i) <==> LastWriteAt(b[..n], key, i);
      }
    }
  }

  /** The SQLite cache reads a row and deletes it, when it has expired, in a later statement that
      names only the key.  `before` is what happened until the row was read, found expired at t;
      `between` is what other tasks did until the deletion.  The deletion takes a value away,
      that is, a reader would have seen one without it, exactly when one of those tasks set the
      same key and that set is still the last write and alive. */
  lemma LateEvictionShowsExactlyWhen<V>(before: History<V>, between: History<V>, key: string, t: real, now: real)
    requires Before(before, t) && t <= now && Before(before + between, now) && Expired(Run(before), key, t)
    ensures var table := Run(before + between);
            && Look(table - {key}, key, now) == None
            && (Look(table, key, now).Some? <==> FreshlySet(between, key, now))
            && forall other :: other != key ==> Look(table - {key}, other, now) == Look(table, other, now)
  {
    LookIsLive(before, key, now) by { assert Before(before, now); }
    LookIsLive(before + between, key, now);
    LiveConcat(before, between, key, now);
    hide Live, Run;
    if Live(between, key, now).Some? {
      LiveMeans(between, key, now, Live(between, key, now).value);
    }
    if FreshlySet(between, key, now) {
      var i :| LastWriteAt(between, key, i) && between[i].Set? && now <= between[i].time + between[i].ttl as real;
      LiveMeans(between, key, now, between[i].value);
    }
  }

  // ---------------------------------------------------------------- the two implementations

  /** The values as SQLite stores them, encoded. */
  function Encoded<V, T>(m: Table<V>, dumps: V -> T): Table<T> {
    map k | k in m :: Entry(dumps(m[k].value), m[k].expiry)
  }

  function Decoded<V, T>(r: Option<T>, loads: T -> V): Option<V> {
    match r
    case None => None
    case Some(t) => Some(loads(t))
  }

  lemma {:induction false} LiveWasSet<V>(h: History<V>, key: string, now: real)
    requires Live(h, key, now).Some?
    ensures exists e :: e in h && e.Set? && e.value == Live(h, key, now).value
  {
    if !Writes(h[|h| - 1], key) {
      LiveWasSet(h[..|h| - 1], key, now);
      var e :| e in h[..|h| - 1] && e.Set? && e.value == Live(h, key, now).value;
      assert e in h;
    } else {
      assert h[|h| - 1] in h;
    }
  }

  /** A memory cache and a SQLite cache that saw the same writes give the same answers, whatever
      was read, evicted or cleared in between, for values JSON gives back unchanged. */
  lemma CachesAgree<V, T>(mem: History<V>, sql: History<V>, key: string, now: real, dumps: V -> T, loads: T -> V)
    requires Before(mem, now) && Before(sql, now) && OnlyWrites(mem) == OnlyWrites(sql)
    requires forall e :: e in sql && e.Set? ==> loads(dumps(e.value)) == e.value
    ensures Look(Run(mem), key, now) == Decoded(Look(Encoded(Run(sql), dumps), key, now), loads)
  {
    LookIsLive(mem, key, now);
    LookIsLive(sql, key, now);
    EvictionNeverShows(mem, key, now);
    EvictionNeverShows(sql, key, now);
    if Live(sql, key, now).Some? { LiveWasSet(sql, key, now); }
  }

  lemma EncodedStep<V, T>(m: Table<V>, e: Event<V>, dumps: V -> T)
    ensures var r := Encoded(m, dumps);
            Encoded(Step(m, e), dumps) ==
              match e
              case Set(key, value, ttl, time) => r[key := Entry(dumps(value), time + ttl as real)]
              case Get(key, time) => Evict(r, key, time)
              case Delete(key, _) => r - {key}
              case ClearExpired(time) => EvictAll(r, time)
  {
  }

  lemma Extend<V>(h: History<V>, e: Event<V>)
    ensures Run(h + [e]) == Step(Run(h), e)
    ensures Before(h, e.time) ==> Before(h + [e], e.time)
  {
  }

  class InMemoryTTLCache<V(!new)> {
    var store: Table<V>
    ghost var history: History<V>

    ghost predicate Valid()
      reads this
    {
      store == Run(history)
    }

    constructor ()
      ensures Valid() && history == []
    {
      store, history := map[], [];
    }

    method Get(key: string, now: real) returns (r: Option<V>)
      requires Valid() && Before(history, now)
      modifies this
      ensures Valid() && history == old(history) + [Event.Get(key, now)]
      ensures r == Live(old(history), key, now)
    {
      LookIsLive(history, key, now);
      hide Run, Live, Before;
      Extend(history, Event.Get(key, now));
      history := history + [Event.Get(key, now)];
      if key !in store {
        return None;
      }
      var entry := store[key];
      if now > entry.expiry {
        store := store - {key};
        return None;
      }
      return Some(entry.value);
    }

    method Set(key: string, value: V, ttl: int, now: real)
      requires Valid() && Before(history, now)
      modifies this
      ensures Valid() && history == old(history) + [Event.Set(key, value, ttl, now)]
    {
      hide Run, Live, Before;
      Extend(history, Event.Set(key, value, ttl, now));
      history := history + [Event.Set(key, value, ttl, now)];
      store := store[key := Entry(value, now + ttl as real)];
    }

    method Delete(key: string, now: real)
      requires Valid() && Before(history, now)
      modifies this
      ensures Valid() && history == old(history) + [Event.Delete(key, now)]
    {
      hide Run, Live, Before;
      Extend(history, Event.Delete(key, now));
      history := history + [Event.Delete(key, now)];
      store := store - {key};
    }
  }

  class SQLiteCache<V(!new), T(!new)> {
    const dumps: V -> T
    const loads: T -> V
    var rows: Table<T>
    ghost var history: History<V>

    ghost predicate Valid()
      reads this
    {
      rows == Encoded(Run(history), dumps)
    }

    constructor (dumps: V -> T, loads: T -> V)
      ensures Valid() && history == [] && this.dumps == dumps && this.loads == loads
    {
      this.dumps, this.loads := dumps, loads;
      rows, history := map[], [];
    }

    method Get(key: string, now: real) returns (r: Option<V>)
      requires Valid() && Before(history, now)
      modifies this
      ensures Valid() && history == old(history) + [Event.Get(key, now)]
      ensures match Live(old(history), key, now) case None => r == None case Some(v) => r == Some(loads(dumps(v)))
    {
      LookIsLive(history, key, now);
      hide Run, Live, Before;
      Extend(history, Event.Get(key, now));
      EncodedStep(Run(history), Event.Get(key, now), dumps);
      history := history + [Event.Get(key, now)];
      if key !in rows {
        return None;
      }
      var row := rows[key];
      if now > row.expiry {
        rows := rows - {key};
        return None;
      }
      return Some(loads(row.value));
    }

    method Set(key: string, value: V, ttl: int, now: real)
      requires Valid() && Before(history, now)
      modifies this
      ensures Valid() && history == old(history) + [Event.Set(key, value, ttl, now)]
    {
      hide Run, Live, Before;
      Extend(history, Event.Set(key, value, ttl, now));
      EncodedStep(Run(history), Event.Set(key, value, ttl, now), dumps);
      history := history + [Event.Set(key, value, ttl, now)];
      rows := rows[key := Entry(dumps(value), now + ttl as real)];
    }

    method Delete(key: string, now: real)
      requires Valid() && Before(history, now)
      modifies this
      ensures Valid() && history == old(history) + [Event.Delete(key, now)]
    {
      hide Run, Live, Before;
      Extend(history, Event.Delete(key, now));
      EncodedStep(Run(history), Event.Delete(key, now), dumps);
      history := history + [Event.Delete(key, now)];
      rows := rows - {key};
    }

    method ClearExpired(now: real) returns (deleted: nat)
      requires Valid() && Before(history, now)
      modifies this
      ensures Valid() && history == old(history) + [Event.ClearExpired(now)]
      ensures deleted == |set k | k in old(rows) && Expired(old(rows), k, now)|
      ensures forall k :: k in rows <==> k in old(rows) && !Expired(old(rows), k, now)
    {
      hide Run, Live, Before;
      Extend(history, Event.ClearExpired(now));
      EncodedStep(Run(history), Event.ClearExpired(now), dumps);
      history := history + [Event.ClearExpired(now)];
      deleted := |set k | k in rows && rows[k].expiry < now|;
      assert (set k | k in rows && rows[k].expiry < now) == (set k | k in rows && Expired(rows, k, now));
      rows := map k | k in rows && !(rows[k].expiry < now) :: rows[k];
    }
  }
}
