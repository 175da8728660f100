/** The rows of the queue page: alerts grouped by signature, addresses and hour, with the verdict
    of the group if its members agree on one. */
module QueueRows {
  import opened Optional
  import opened Sequences
  import opened IsoTime
  import opened AlertStore

  /** An alert of the page and its id. */
  datatype Item = Item(id: nat, alert: Alert)

  /** The hour is the ingest time with minutes, seconds and microseconds replaced by zero. */
  datatype Key = Key(group: Group, hour: int)

  function KeyOf(x: Item): Key {
    Key(x.alert.group, x.alert.ingest / HOUR)
  }

  function Members(items: seq<Item>, k: Key): seq<Item> {
    if items == [] then []
    else
      var x := items[|items| - 1];
      Members(items[..|items| - 1], k) + if KeyOf(x) == k then [x] else []
  }

  type Verdicts = map<string, Verdict>

  // ---------------------------------------------------------------- a row

  /** A row; `members` are the alerts it counts. */
  datatype Row = Row(
    members: seq<Item>,
    link: nat,
    count: nat,
    ingest: Instant,
    status: Status,
    category: Option<string>,
    confidence: Option<real>,
    mixed: bool,
    breakdown: seq<(string, nat)>)

  function Rank(s: Status): nat {
    match s
    case Analyzed => 5
    case Analyzing => 4
    case Queued => 3
    case Failed => 2
    case Deferred => 1
  }

  /** The first member with the largest key, as `max` finds it. */
  function First(items: seq<Item>, key: Item -> int): (x: Item)
    requires items != []
    ensures x in items && forall y :: y in items ==> key(y) <= key(x)
  {
    if |items| == 1 then items[0]
    else
      var x, y := First(items[..|items| - 1], key), items[|items| - 1];
      assert items == items[..|items| - 1] + [y];
      if key(y) > key(x) then y else x
  }

  /** Of equal ones `max` takes the first. */
  lemma {:induction false} FirstIsFirst(items: seq<Item>, key: Item -> int) returns (i: nat)
    requires items != []
    ensures i < |items| && items[i] == First(items, key) && forall j :: 0 <= j < i ==> key(items[j]) < key(items[i])
  {
    if |items| == 1 {
      i := 0;
    } else {
      var n := |items| - 1;
      i := FirstIsFirst(items[..n], key);
      if key(items[n]) > key(First(items[..n], key)) {
        i := n;
        forall j | 0 <= j < n ensures key(items[j]) < key(items[n]) { assert items[..n][j] in items[..n]; }
      }
    }
  }

  function Newest(items: seq<Item>): Item
    requires items != []
  {
    First(items, (x: Item) => x.alert.ingest)
  }

  function WithVerdict(items: seq<Item>): (r: seq<Item>)
    ensures forall x :: x in r <==> x in items && x.alert.verdict.Some?
  {
    if items == [] then []
    else
      var x := items[|items| - 1];
      assert items == items[..|items| - 1] + [x];
      WithVerdict(items[..|items| - 1]) + if x.alert.verdict.Some? then [x] else []
  }

  /** The category of a member's verdict; "" when there is none to be found. */
  function CategoryOf(x: Item, vs: Verdicts): string {
    if x.alert.verdict.Some? && x.alert.verdict.value in vs then vs[x.alert.verdict.value].category else ""
  }

  /** The categories known among the members with a verdict, in order. */
  function Known(items: seq<Item>, vs: Verdicts): seq<string> {
    if items == [] then []
    else
      var c := CategoryOf(items[|items| - 1], vs);
      Known(items[..|items| - 1], vs) + if c == "" then [] else [c]
  }

  function Label(category: string): string {
    if category == "likely_tp" then "TP"
    else if category == "suspicious_investigate" then "Investigate"
    else if category == "likely_fp" then "FP"
    else category
  }

  /** How many elements of s have the key k. */
  function Tally<T, K(==)>(s: seq<T>, key: T -> K, k: K): nat {
    if s == [] then 0 else Tally(s[..|s| - 1], key, k) + if key(s[|s| - 1]) == k then 1 else 0
  }

  function Itself(c: string): string {
    c
  }

  function Count(cs: seq<string>, c: string): nat {
    Tally(cs, Itself, c)
  }

  /** Insertion that keeps the order of equals, and the stable descending sort it gives. */
  function Put<T>(x: T, s: seq<T>, key: T -> int): seq<T> {
    if s == [] || key(s[0]) < key(x) then [x] + s else [s[0]] + Put(x, s[1..], key)
  }

  function SortDown<T>(s: seq<T>, key: T -> int): seq<T> {
    if s == [] then [] else Put(s[|s| - 1], SortDown(s[..|s| - 1], key), key)
  }

  /** `Counter.most_common()`. */
  function MostCommon(cs: seq<string>): seq<string> {
    SortDown(Distinct(cs), (c: string) => Count(cs, c))
  }

  function Breakdown(cs: seq<string>): seq<(string, nat)> {
    var order := MostCommon(cs);
    seq(|order|, i requires 0 <= i < |order| => (Label(order[i]), Count(cs, order[i])))
  }

  function StoredVerdict(x: Item, vs: Verdicts): Option<Verdict> {
    if x.alert.verdict.Some? && x.alert.verdict.value in vs then Some(vs[x.alert.verdict.value]) else None
  }

  function RowOf(members: seq<Item>, vs: Verdicts): Row
    requires members != []
  {
    var analyzed := WithVerdict(members);
    if analyzed == [] then RowWith(members, Newest(members), [], None)
    else RowWith(members, Newest(analyzed), Known(analyzed, vs), StoredVerdict(Newest(analyzed), vs))
  }

  /** The row that links to member x, given the known categories and the verdict of x. */
  function RowWith(members: seq<Item>, x: Item, known: seq<string>, v: Option<Verdict>): Row
    requires members != []
  {
    var mixed := |Distinct(known)| > 1;
    var shown := !mixed && v.Some?;
    Row(members, x.id, |members|, Newest(members).alert.ingest,
        First(members, (m: Item) => Rank(m.alert.status)).alert.status,
        if shown then Some(v.value.category) else None,
        if shown then Some(v.value.confidence) else None,
        mixed, if mixed then Breakdown(known) else [])
  }

  // ---------------------------------------------------------------- what a row says

  lemma {:induction false} KnownAre(items: seq<Item>, vs: Verdicts, c: string)
    ensures c in Known(items, vs) <==> c != "" && exists x :: x in items && CategoryOf(x, vs) == c
  {
    hide CategoryOf;
    if items != [] {
      var n := |items| - 1;
      KnownAre(items[..n], vs, c);
      assert forall x :: x in items <==> x in items[..n] || x == items[n];
    }
  }

  predicate Disagree(x: Item, y: Item, vs: Verdicts) {
    CategoryOf(x, vs) != "" && CategoryOf(y, vs) != "" && CategoryOf(x, vs) != CategoryOf(y, vs)
  }

  /** A row is mixed exactly when two members have different known categories; a row that shows
      a category shows that of every member whose category is known. */
  lemma RowCategory(members: seq<Item>, vs: Verdicts)
    requires members != []
    ensures var r := RowOf(members, vs);
            && (r.mixed <==> SomeDisagree(members, vs))
            && (r.category.Some? && r.category.value != "" ==>
                  forall x :: x in members && CategoryOf(x, vs) != "" ==> CategoryOf(x, vs) == r.category.value)
            && (r.mixed ==> r.category.None? && r.confidence.None?)
  {
    hide Distinct, Known, Breakdown, WithVerdict, First, Newest, CategoryOf;
    MixedMeans(members, vs);
    ShownIsKnown(members, vs);
  }

  ghost predicate SomeDisagree(members: seq<Item>, vs: Verdicts) {
    exists x, y :: x in members && y in members && Disagree(x, y, vs)
  }

  lemma MixedMeans(members: seq<Item>, vs: Verdicts)
    requires members != []
    ensures RowOf(members, vs).mixed <==> SomeDisagree(members, vs)
  {
    var known := Known(WithVerdict(members), vs);
    assert WithVerdict(members) == [] ==> known == [];
    assert RowOf(members, vs).mixed <==> |Distinct(known)| > 1;
    hide RowOf, Distinct, Known, WithVerdict, CategoryOf;
    DistinctMany(known);
    if SomeDisagree(members, vs) {
      var x, y :| x in members && y in members && Disagree(x, y, vs);
      KnownOfMembers(members, vs, CategoryOf(x, vs));
      KnownOfMembers(members, vs, CategoryOf(y, vs));
    }
    if a, b :| a in known && b in known && a != b {
      KnownOfMembers(members, vs, a);
      KnownOfMembers(members, vs, b);
      var x :| x in members && CategoryOf(x, vs) == a;
      var y :| y in members && CategoryOf(y, vs) == b;
      assert Disagree(x, y, vs);
    }
  }

  lemma DistinctMany(cs: seq<string>)
    ensures |Distinct(cs)| > 1 <==> exists a, b :: a in cs && b in cs && a != b
  {
    DistinctIs(cs);
    var d := Distinct(cs);
    hide Distinct;
    if |d| > 1 { assert d[0] in cs && d[1] in cs; }
  }

  lemma KnownOfMembers(members: seq<Item>, vs: Verdicts, c: string)
    ensures c in Known(WithVerdict(members), vs) <==> c != "" && exists x :: x in members && CategoryOf(x, vs) == c
  {
    hide Known;
    KnownAre(WithVerdict(members), vs, c);
    assert forall x :: x in members && CategoryOf(x, vs) != "" ==> x in WithVerdict(members);
  }

  lemma ShownIsKnown(members: seq<Item>, vs: Verdicts)
    requires members != []
    ensures var r := RowOf(members, vs);
            r.category.Some? ==> exists x :: x in members && CategoryOf(x, vs) == r.category.value
  {
  }

  /** The row stands for its members: how many, the newest, the best status, and the member whose
      verdict it links to. */
  lemma RowMembers(members: seq<Item>, vs: Verdicts)
    requires members != []
    ensures var r := RowOf(members, vs);
            && r.count == |members|
            && (exists x :: x in members && x.alert.ingest == r.ingest)
            && (forall x :: x in members ==> x.alert.ingest <= r.ingest && Rank(x.alert.status) <= Rank(r.status))
            && (exists x :: x in members && x.alert.status == r.status)
            && (exists x :: x in members && x.id == r.link
                  && ((exists y :: y in members && y.alert.verdict.Some?) ==> x.alert.verdict.Some?))
  {
  }

  /** x is a member with a verdict, and no member with one is newer. */
  predicate NewestWithVerdict(members: seq<Item>, x: Item) {
    && x in members && x.alert.verdict.Some?
    && forall y :: y in members && y.alert.verdict.Some? ==> y.alert.ingest <= x.alert.ingest
  }

  /** Bubbling: where any member has a verdict, the row links to a newest such member, and unless
      members disagree it shows that member's stored category and confidence, however many newer
      members still wait; without any verdict it links to a newest member and shows none. */
  lemma RowShows(members: seq<Item>, vs: Verdicts)
    requires members != []
    ensures var r := RowOf(members, vs);
            && ((exists y :: y in members && y.alert.verdict.Some?) ==>
                  exists x :: NewestWithVerdict(members, x) && r.link == x.id && Shows(r, x, vs))
            && ((forall y :: y in members ==> y.alert.verdict.None?) ==>
                  && r.category.None? && r.confidence.None?
                  && exists x :: x in members && r.link == x.id && forall y :: y in members ==> y.alert.ingest <= x.alert.ingest)
  {
    var analyzed := WithVerdict(members);
    hide RowOf, WithVerdict;
    if analyzed != [] {
      var x := RowShowsVerdict(members, vs);
    } else {
      assert forall y :: y in members && y.alert.verdict.Some? ==> y in analyzed;
      var x := RowShowsNothing(members, vs);
    }
  }

  lemma RowShowsVerdict(members: seq<Item>, vs: Verdicts) returns (x: Item)
    requires members != [] && WithVerdict(members) != []
    ensures NewestWithVerdict(members, x) && RowOf(members, vs).link == x.id && Shows(RowOf(members, vs), x, vs)
  {
    hide Known, Distinct, Breakdown;
    x := Newest(WithVerdict(members));
  }

  lemma RowShowsNothing(members: seq<Item>, vs: Verdicts) returns (x: Item)
    requires members != [] && WithVerdict(members) == []
    ensures var r := RowOf(members, vs);
            && r.category.None? && r.confidence.None? && x in members && r.link == x.id
            && forall y :: y in members ==> y.alert.ingest <= x.alert.ingest
  {
    hide Known, Distinct, Breakdown;
    x := Newest(members);
  }

  predicate Shows(r: Row, x: Item, vs: Verdicts)
    requires x.alert.verdict.Some?
  {
    var id := x.alert.verdict.value;
    !r.mixed ==> if id in vs then r.category == Some(vs[id].category) && r.confidence == Some(vs[id].confidence)
                 else r.category.None? && r.confidence.None?
  }

  predicate SomeHas(members: seq<Item>, s: Status) {
    exists x :: x in members && x.alert.status == s
  }

  /** The status of a row, best first. */
  lemma RowStatus(members: seq<Item>, vs: Verdicts)
    requires members != []
    ensures RowOf(members, vs).status ==
      if SomeHas(members, Analyzed) then Analyzed
      else if SomeHas(members, Analyzing) then Analyzing
      else if SomeHas(members, Queued) then Queued
      else if SomeHas(members, Failed) then Failed
      else Deferred
  {
    hide Known, Distinct, Breakdown, WithVerdict, Newest;
    var best := First(members, (x: Item) => Rank(x.alert.status));
    assert RowOf(members, vs).status == best.alert.status;
    assert best in members && forall y :: y in members ==> Rank(y.alert.status) <= Rank(best.alert.status);
    assert SomeHas(members, best.alert.status);
    hide First;
  }

  lemma LabelsAre(category: string)
    ensures Label("likely_tp") == "TP" && Label("suspicious_investigate") == "Investigate" && Label("likely_fp") == "FP"
    ensures category !in ["likely_tp", "suspicious_investigate", "likely_fp"] ==> Label(category) == category
  {
  }

  // ---------------------------------------------------------------- the breakdown

  ghost predicate Down<T>(s: seq<T>, key: T -> int) {
    forall i, j :: 0 <= i < j < |s| ==> key(s[i]) >= key(s[j])
  }

  lemma {:induction false} PutKeeps<T>(x: T, s: seq<T>, key: T -> int)
    ensures multiset(Put(x, s, key)) == multiset(s) + multiset{x}
  {
    if s != [] && key(s[0]) >= key(x) {
      PutKeeps(x, s[1..], key);
      assert s == [s[0]] + s[1..];
    }
  }

  lemma {:induction false} PutSorts<T>(x: T, s: seq<T>, key: T -> int)
    requires Down(s, key)
    ensures Down(Put(x, s, key), key)
  {
    if s != [] && key(s[0]) >= key(x) {
      var r := Put(x, s[1..], key);
      PutSorts(x, s[1..], key);
      PutKeeps(x, s[1..], key);
      forall y | y in r ensures key(s[0]) >= key(y) {
        assert y in multiset(r);
        assert y == x || y in s[1..];
      }
    }
  }

  /** The sort gives a permutation in descending order. */
  lemma {:induction false} SortSorts<T>(s: seq<T>, key: T -> int)
    ensures Down(SortDown(s, key), key) && multiset(SortDown(s, key)) == multiset(s)
  {
    if s != [] {
      SortSorts(s[..|s| - 1], key);
      hide Put;
      PutSorts(s[|s| - 1], SortDown(s[..|s| - 1], key), key);
      PutKeeps(s[|s| - 1], SortDown(s[..|s| - 1], key), key);
      assert s == s[..|s| - 1] + [s[|s| - 1]];
    }
  }

  /** The elements with key k, in order. */
  function WithKey<T>(s: seq<T>, key: T -> int, k: int): seq<T> {
    if s == [] then [] else (if key(s[0]) == k then [s[0]] else []) + WithKey(s[1..], key, k)
  }

  lemma {:induction false} WithKeyConcat<T>(a: seq<T>, b: seq<T>, key: T -> int, k: int)
    ensures WithKey(a + b, key, k) == WithKey(a, key, k) + WithKey(b, key, k)
  {
    if a == [] {
      assert a + b == b;
    } else {
      var head := if key(a[0]) == k then [a[0]] else [];
      assert (a + b)[0] == a[0] && (a + b)[1..] == a[1..] + b;
      assert WithKey(a + b, key, k) == head + WithKey(a[1..] + b, key, k);
      WithKeyConcat(a[1..], b, key, k);
      assert head + (WithKey(a[1..], key, k) + WithKey(b, key, k)) == head + WithKey(a[1..], key, k) + WithKey(b, key, k);
    }
  }

  lemma {:induction false} NoneWithKey<T>(s: seq<T>, key: T -> int, k: int)
    requires forall i :: 0 <= i < |s| ==> key(s[i]) != k
    ensures WithKey(s, key, k) == []
  {
    if s != [] { NoneWithKey(s[1..], key, k); }
  }

  lemma {:induction false} PutIsStable<T>(x: T, s: seq<T>, key: T -> int, k: int)
    requires Down(s, key)
    ensures WithKey(Put(x, s, key), key, k) == WithKey(s, key, k) + if key(x) == k then [x] else []
  {
    if s == [] || key(s[0]) < key(x) {
      assert ([x] + s)[1..] == s;
      if key(x) == k { NoneWithKey(s, key, k); }
    } else {
      PutIsStable(x, s[1..], key, k);
    }
  }

  /** Elements that compare equal keep their order. */
  lemma {:induction false} SortIsStable<T>(s: seq<T>, key: T -> int, k: int)
    ensures WithKey(SortDown(s, key), key, k) == WithKey(s, key, k)
  {
    if s != [] {
      var n := |s| - 1;
      SortIsStable(s[..n], key, k);
      SortSorts(s[..n], key);
      PutIsStable(s[n], SortDown(s[..n], key), key, k);
      WithKeyConcat(s[..n], [s[n]], key, k);
      assert s == s[..n] + [s[n]] && [s[n]][1..] == [];
    }
  }

  ghost predicate Once<T>(s: seq<T>) {
    forall i, j :: 0 <= i < j < |s| ==> s[i] != s[j]
  }

  lemma {:induction false} OnceIs<T>(s: seq<T>)
    ensures Once(s) <==> forall x :: multiset(s)[x] <= 1
  {
    if s != [] {
      var n := |s| - 1;
      var a, b := s[..n], s[n];
      OnceIs(a);
      assert s == a + [b];
      if Once(s) {
        assert b !in a;
        assert multiset(s)[b] == 1;
      } else if Once(a) {
        assert b in a;
        assert multiset(s)[b] >= 2;
      }
      assert forall x :: multiset(s)[x] >= multiset(a)[x];
    }
  }

  function TallyAll<T, K(==)>(s: seq<T>, key: T -> K, ks: seq<K>): nat {
    if ks == [] then 0 else TallyAll(s, key, ks[..|ks| - 1]) + Tally(s, key, ks[|ks| - 1])
  }

  lemma {:induction false} TallyNext<T, K>(s: seq<T>, x: T, key: T -> K, ks: seq<K>)
    requires Once(ks)
    ensures TallyAll(s + [x], key, ks) == TallyAll(s, key, ks) + if key(x) in ks then 1 else 0
  {
    assert (s + [x])[..|s|] == s;
    if ks != [] {
      var n := |ks| - 1;
      TallyNext(s, x, key, ks[..n]);
      assert ks == ks[..n] + [ks[n]];
    }
  }

  lemma {:induction false} TallyNone<T, K>(key: T -> K, ks: seq<K>)
    ensures TallyAll([], key, ks) == 0
  {
    if ks != [] { TallyNone(key, ks[..|ks| - 1]); }
  }

  /** Counted by distinct keys that cover them, the elements add up. */
  lemma {:induction false} TallyTotal<T, K>(s: seq<T>, key: T -> K, ks: seq<K>)
    requires Once(ks) && forall x :: x in s ==> key(x) in ks
    ensures TallyAll(s, key, ks) == |s|
  {
    if s == [] {
      TallyNone(key, ks);
    } else {
      var n := |s| - 1;
      assert s == s[..n] + [s[n]];
      TallyTotal(s[..n], key, ks);
      TallyNext(s[..n], s[n], key, ks);
    }
  }

  function SumCounts(b: seq<(string, nat)>): nat {
    if b == [] then 0 else SumCounts(b[..|b| - 1]) + b[|b| - 1].1
  }

  lemma {:induction false} SumIsTally(cs: seq<string>, order: seq<string>, b: seq<(string, nat)>)
    requires |b| == |order| && forall i :: 0 <= i < |b| ==> b[i].1 == Count(cs, order[i])
    ensures SumCounts(b) == TallyAll(cs, Itself, order)
  {
    if b != [] { SumIsTally(cs, order[..|order| - 1], b[..|b| - 1]); }
  }

  lemma MostCommonAre(cs: seq<string>)
    ensures var order := MostCommon(cs);
            Once(order) && (forall c :: c in order <==> c in cs) && Down(order, (c: string) => Count(cs, c))
  {
    hide Count, Distinct, SortDown;
    var d, order := Distinct(cs), MostCommon(cs);
    DistinctIs(cs);
    SortSorts(d, (c: string) => Count(cs, c));
    OnceIs(d);
    OnceIs(order);
    assert forall c :: c in order <==> c in multiset(order);
    assert forall c :: c in d <==> c in multiset(d);
  }

  /** How many of the alerts have a stored verdict of the category. */
  function InCategory(items: seq<Item>, vs: Verdicts, c: string): nat {
    if items == [] then 0
    else InCategory(items[..|items| - 1], vs, c) + if CategoryOf(items[|items| - 1], vs) == c then 1 else 0
  }

  /** The numbers of a breakdown count the members of each category. */
  lemma {:induction false} KnownCounts(items: seq<Item>, vs: Verdicts, c: string)
    requires c != ""
    ensures Count(Known(WithVerdict(items), vs), c) == InCategory(items, vs, c)
  {
    if items != [] {
      var n := |items| - 1;
      KnownCounts(items[..n], vs, c);
      hide Known, Count;
      if items[n].alert.verdict.Some? {
        KnownNext(WithVerdict(items[..n]), items[n], vs, c);
      } else {
        assert WithVerdict(items) == WithVerdict(items[..n]);
      }
    } else {
      assert Known([], vs) == [];
    }
  }

  lemma CountNext(cs: seq<string>, y: string, c: string)
    ensures Count(cs + [y], c) == Count(cs, c) + if y == c then 1 else 0
  {
    assert (cs + [y])[..|cs|] == cs;
  }

  lemma KnownAppend(items: seq<Item>, x: Item, vs: Verdicts)
    ensures Known(items + [x], vs) == Known(items, vs) + if CategoryOf(x, vs) == "" then [] else [CategoryOf(x, vs)]
  {
    hide CategoryOf;
    assert (items + [x])[..|items|] == items;
  }

  lemma KnownNext(items: seq<Item>, x: Item, vs: Verdicts, c: string)
    requires c != ""
    ensures Count(Known(items + [x], vs), c) == Count(Known(items, vs), c) + if CategoryOf(x, vs) == c then 1 else 0
  {
    hide CategoryOf, Known, Count;
    KnownAppend(items, x, vs);
    if CategoryOf(x, vs) == "" {
      assert Known(items, vs) + [] == Known(items, vs);
    } else {
      CountNext(Known(items, vs), CategoryOf(x, vs), c);
    }
  }

  /** The breakdown of a mixed row lists each known category once, most frequent first, and its
      numbers add up to the members whose category is known. */
  lemma BreakdownAddsUp(members: seq<Item>, vs: Verdicts)
    requires members != [] && RowOf(members, vs).mixed
    ensures var r, known := RowOf(members, vs), Known(WithVerdict(members), vs);
            && SumCounts(r.breakdown) == |known| && |r.breakdown| == |MostCommon(known)|
            && (forall i :: 0 <= i < |r.breakdown| ==>
                  r.breakdown[i] == (Label(MostCommon(known)[i]), Count(known, MostCommon(known)[i])))
            && (forall i, j :: 0 <= i < j < |r.breakdown| ==> r.breakdown[i].1 >= r.breakdown[j].1)
  {
    var known := Known(WithVerdict(members), vs);
    var r, order := RowOf(members, vs), MostCommon(known);
    assert r.breakdown == Breakdown(known);
    hide Known, WithVerdict, RowOf, MostCommon, Label, Distinct, Count;
    MostCommonAre(known);
    SumIsTally(known, order, r.breakdown);
    TallyTotal(known, Itself, order);
  }

  // ---------------------------------------------------------------- all rows

  function RowKey(r: Row): Key
    requires r.members != []
  {
    KeyOf(r.members[0])
  }

  ghost predicate Stands(r: Row, items: seq<Item>, vs: Verdicts) {
    r.members != [] && r == RowOf(r.members, vs) && r.members == Members(items, RowKey(r))
  }

  /** Distinct rows, each made of all the alerts with its key, that leave no alert out. */
  ghost predicate Partition(rows: seq<Row>, items: seq<Item>, vs: Verdicts) {
    && Once(rows) && (forall r :: r in rows ==> Stands(r, items, vs))
    && forall x :: x in items ==> exists r :: r in rows && x in r.members
  }

  lemma {:induction false} MembersAre(items: seq<Item>, k: Key)
    ensures forall x :: x in Members(items, k) <==> x in items && KeyOf(x) == k
    ensures |Members(items, k)| == Tally(items, KeyOf, k)
  {
    if items != [] {
      MembersAre(items[..|items| - 1], k);
      assert items == items[..|items| - 1] + [items[|items| - 1]];
    }
  }

  /** Each alert is in exactly one row. */
  lemma InOneRow(rows: seq<Row>, items: seq<Item>, vs: Verdicts, x: Item)
    requires Partition(rows, items, vs) && x in items
    ensures exists i :: 0 <= i < |rows| && x in rows[i].members
    ensures forall i, j :: 0 <= i < |rows| && 0 <= j < |rows| && x in rows[i].members && x in rows[j].members ==> i == j
  {
    hide RowOf, Members;
    var r :| r in rows && x in r.members;
    forall i, j | 0 <= i < |rows| && 0 <= j < |rows| && x in rows[i].members && x in rows[j].members ensures i == j {
      SameKeySameRow(rows[i], rows[j], items, vs, x);
    }
  }

  lemma SameKeySameRow(r: Row, r': Row, items: seq<Item>, vs: Verdicts, x: Item)
    requires Stands(r, items, vs) && Stands(r', items, vs) && x in r.members && x in r'.members
    ensures r == r' && KeyOf(x) == RowKey(r)
  {
    hide RowOf;
    MembersAre(items, RowKey(r));
    MembersAre(items, RowKey(r'));
  }

  /** Two alerts share a row exactly when signature, source and destination agree and both were
      ingested in the same hour of the clock. */
  lemma SameRowExactlyWhen(rows: seq<Row>, items: seq<Item>, vs: Verdicts, x: Item, y: Item)
    requires Partition(rows, items, vs) && x in items && y in items
    ensures (exists r :: r in rows && x in r.members && y in r.members) <==>
      && x.alert.group.signature == y.alert.group.signature && x.alert.group.src == y.alert.group.src
      && x.alert.group.dst == y.alert.group.dst
      && x.alert.ingest / 3_600_000_000 == y.alert.ingest / 3_600_000_000
  {
    hide RowOf, Members;
    assert KeyOf(x) == KeyOf(y) <==>
      && x.alert.group.signature == y.alert.group.signature && x.alert.group.src == y.alert.group.src
      && x.alert.group.dst == y.alert.group.dst
      && x.alert.ingest / 3_600_000_000 == y.alert.ingest / 3_600_000_000;
    hide KeyOf;
    var r :| r in rows && x in r.members;
    SameKeySameRow(r, r, items, vs, x);
    MembersAre(items, RowKey(r));
    if r' :| r' in rows && x in r'.members && y in r'.members {
      SameKeySameRow(r', r', items, vs, x);
      SameKeySameRow(r', r', items, vs, y);
    }
  }

  function TotalCount(rows: seq<Row>): nat {
    if rows == [] then 0 else TotalCount(rows[..|rows| - 1]) + rows[|rows| - 1].count
  }

  lemma {:induction false} TotalIsTally(rows: seq<Row>, keys: seq<Key>, items: seq<Item>, vs: Verdicts)
    requires |keys| == |rows| && forall i :: 0 <= i < |rows| ==> Stands(rows[i], items, vs) && keys[i] == RowKey(rows[i])
    ensures TotalCount(rows) == TallyAll(items, KeyOf, keys)
  {
    hide Members, Newest, First;
    if rows != [] {
      var n := |rows| - 1;
      TotalIsTally(rows[..n], keys[..n], items, vs);
      MembersAre(items, keys[n]);
    }
  }

  /** The counts of the rows add up to the number of alerts. */
  lemma CountsAddUp(rows: seq<Row>, items: seq<Item>, vs: Verdicts)
    requires Partition(rows, items, vs)
    ensures TotalCount(rows) == |items|
  {
    hide RowOf, Members;
    var keys := seq(|rows|, i requires 0 <= i < |rows| => assert rows[i] in rows; RowKey(rows[i]));
    TotalIsTally(rows, keys, items, vs);
    forall x | x in items ensures KeyOf(x) in keys {
      var r :| r in rows && x in r.members;
      var i :| 0 <= i < |rows| && rows[i] == r;
      SameKeySameRow(r, r, items, vs, x);
      assert keys[i] == KeyOf(x);
    }
    TallyTotal(items, KeyOf, keys);
  }

  // ---------------------------------------------------------------- the loops

  ghost predicate Grouped(groups: map<Key, seq<Item>>, order: seq<Key>, items: seq<Item>) {
    && Once(order) && (forall k :: k in order <==> k in groups)
    && (forall k :: k in groups ==> groups[k] != [] && groups[k] == Members(items, k))
    && (forall x :: x in items ==> KeyOf(x) in groups)
  }

  /** The alerts by key, the keys in order of first occurrence. */
  method GroupItems(items: seq<Item>) returns (groups: map<Key, seq<Item>>, order: seq<Key>)
    ensures Grouped(groups, order, items)
  {
    groups, order := map[], [];
    assert Grouped(groups, order, items[..0]);
    hide Grouped, Members, KeyOf;
    for i := 0 to |items|
      invariant Grouped(groups, order, items[..i])
    {
      var x := items[i];
      GroupNext(groups, order, items[..i], x);
      assert items[..i + 1] == items[..i] + [x];
      var key := KeyOf(x);
      ghost var before := groups;
      if key !in groups {
        order := order + [key];
        groups := groups[key := []];
      }
      groups := groups[key := groups[key] + [x]];
      assert groups == before[key := (if key in before then before[key] else []) + [x]];
    }
    assert items[..|items|] == items;
  }

  lemma MembersNext(items: seq<Item>, x: Item, k: Key)
    ensures Members(items + [x], k) == Members(items, k) + if KeyOf(x) == k then [x] else []
  {
    hide KeyOf;
    assert (items + [x])[..|items|] == items;
  }

  lemma GroupNext(groups: map<Key, seq<Item>>, order: seq<Key>, items: seq<Item>, x: Item)
    requires Grouped(groups, order, items)
    ensures var k := KeyOf(x);
            Grouped(groups[k := (if k in groups then groups[k] else []) + [x]], if k in groups then order else order + [k], items + [x])
  {
    hide KeyOf, Members;
    var k := KeyOf(x);
    NoGroupYet(groups, order, items, k);
    var next := groups[k := (if k in groups then groups[k] else []) + [x]];
    forall k' | k' in next ensures next[k'] != [] && next[k'] == Members(items + [x], k') {
      MembersNext(items, x, k');
    }
  }

  lemma NoGroupYet(groups: map<Key, seq<Item>>, order: seq<Key>, items: seq<Item>, k: Key)
    requires Grouped(groups, order, items)
    ensures k !in groups ==> Members(items, k) == []
  {
    MembersAre(items, k);
    hide KeyOf;
    var ms := Members(items, k);
    assert ms != [] ==> ms[0] in ms;
  }

  ghost predicate Covers(vs: Verdicts, store: Verdicts, items: seq<Item>) {
    && (forall id :: id in vs ==> id in store && vs[id] == store[id])
    && (forall x :: x in items && x.alert.verdict.Some? && x.alert.verdict.value in store ==> x.alert.verdict.value in vs)
  }

  method CollectVerdicts(items: seq<Item>, store: Verdicts) returns (vs: Verdicts)
    ensures Covers(vs, store, items)
  {
    vs := map[];
    for i := 0 to |items|
      invariant Covers(vs, store, items[..i])
    {
      assert items[..i + 1] == items[..i] + [items[i]];
      var id := items[i].alert.verdict;
      if id.Some? && id.value !in vs && id.value in store {
        vs := vs[id.value := store[id.value]];
      }
    }
    assert items[..|items|] == items;
  }

  lemma {:induction false} KnownSame(items: seq<Item>, vs: Verdicts, store: Verdicts)
    requires Covers(vs, store, items)
    ensures Known(items, vs) == Known(items, store)
  {
    if items != [] {
      assert items[|items| - 1] in items;
      KnownSame(items[..|items| - 1], vs, store);
    }
  }

  /** Looking verdicts up in the collected map or in the store gives the same row. */
  lemma RowSame(members: seq<Item>, vs: Verdicts, store: Verdicts)
    requires members != [] && Covers(vs, store, members)
    ensures RowOf(members, vs) == RowOf(members, store)
  {
    hide RowWith, Known, First;
    var analyzed := WithVerdict(members);
    if analyzed != [] {
      assert Covers(vs, store, analyzed);
      KnownSame(analyzed, vs, store);
      assert Newest(analyzed) in analyzed;
    }
  }

  /** The page: rows that partition the alerts, newest first. */
  method BuildQueueRows(items: seq<Item>, store: Verdicts) returns (rows: seq<Row>)
    ensures Partition(rows, items, store) && TotalCount(rows) == |items|
    ensures Down(rows, (r: Row) => r.ingest)
  {
    var vs := CollectVerdicts(items, store);
    var groups, order := GroupItems(items);
    var unsorted := [];
    hide RowOf, Members;
    for i := 0 to |order|
      invariant |unsorted| == i
      invariant forall j :: 0 <= j < i ==> order[j] in groups && unsorted[j] == RowOf(groups[order[j]], store)
    {
      var members := groups[order[i]];
      MembersAre(items, order[i]);
      RowSame(members, vs, store);
      unsorted := unsorted + [RowOf(members, vs)];
    }
    RowsPartition(unsorted, groups, order, items, store);
    rows := SortDown(unsorted, (r: Row) => r.ingest);
    SortSorts(unsorted, (r: Row) => r.ingest);
    SortedPartition(unsorted, rows, items, store);
    CountsAddUp(rows, items, store);
  }

  lemma RowHas(members: seq<Item>, vs: Verdicts)
    requires members != []
    ensures RowOf(members, vs).members == members
  {
  }

  lemma RowsPartition(rows: seq<Row>, groups: map<Key, seq<Item>>, order: seq<Key>, items: seq<Item>, vs: Verdicts)
    requires Grouped(groups, order, items) && |rows| == |order|
    requires forall j :: 0 <= j < |order| ==> rows[j] == RowOf(groups[order[j]], vs)
    ensures Partition(rows, items, vs)
  {
    hide RowOf, Members;
    forall j | 0 <= j < |order|
      ensures rows[j].members == groups[order[j]] && Stands(rows[j], items, vs) && RowKey(rows[j]) == order[j]
    {
      RowHas(groups[order[j]], vs);
      MembersAre(items, order[j]);
      assert groups[order[j]][0] in groups[order[j]];
    }
    forall x | x in items ensures exists r :: r in rows && x in r.members {
      var k := KeyOf(x);
      assert k in order;
      var j :| 0 <= j < |order| && order[j] == k;
      MembersAre(items, k);
      assert rows[j] in rows && x in rows[j].members;
    }
  }

  lemma SortedPartition(rows: seq<Row>, sorted: seq<Row>, items: seq<Item>, vs: Verdicts)
    requires Partition(rows, items, vs) && multiset(sorted) == multiset(rows)
    ensures Partition(sorted, items, vs)
  {
    hide RowOf, Members, Stands;
    OnceIs(rows);
    OnceIs(sorted);
    assert forall r :: r in sorted <==> r in multiset(sorted);
    assert forall r :: r in rows <==> r in multiset(rows);
    forall x | x in items ensures exists r :: r in sorted && x in r.members {
      var r :| r in rows && x in r.members;
      assert r in sorted;
    }
  }
}
