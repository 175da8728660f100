/** What repeated in-place substitution of address-group variables computes.

    A group is a list of positive entries, literals and references; negated entries never
    become positive again and are left out here (AddressText shows that the code's strings
    behave like these lists).  The reference semantics is reachability: the literals of a
    group are those of every group its references lead to. */
module AddressGroups {

  datatype Entry = Lit(text: string) | Ref(name: string)

  type Groups = map<string, seq<Entry>>

  const MAX_PASSES: nat := 10

  function ExpandEntry(e: Entry, g: Groups): seq<Entry> {
    if e.Ref? && e.name in g then g[e.name] else [e]
  }

  function Expand(es: seq<Entry>, g: Groups): seq<Entry> {
    if es == [] then [] else ExpandEntry(es[0], g) + Expand(es[1..], g)
  }

  /** One pass over the groups in dictionary order; later groups see earlier results. */
  function Pass(g: Groups, order: seq<string>): (r: Groups)
    requires forall n :: n in order ==> n in g
    ensures r.Keys == g.Keys
    decreases |order|
  {
    if order == [] then g
    else Pass(g[order[0] := Expand(g[order[0]], g)], order[1..])
  }

  function Passes(g: Groups, order: seq<string>, k: nat): (r: Groups)
    requires forall n :: n in order ==> n in g
    ensures r.Keys == g.Keys
  {
    if k == 0 then g else Pass(Passes(g, order, k - 1), order)
  }

  // ---------------------------------------------------------------- reachability

  /** p follows references from group to group. */
  predicate IsPath(g: Groups, p: seq<string>) {
    && p != [] && (forall i :: 0 <= i < |p| ==> p[i] in g)
    && forall i :: 0 <= i < |p| - 1 ==> Ref(p[i + 1]) in g[p[i]]
  }

  predicate PathFrom(g: Groups, name: string, p: seq<string>) {
    IsPath(g, p) && p[0] == name
  }

  /** p leads from `name` to a group that holds the literal x. */
  predicate LeadsTo(g: Groups, name: string, p: seq<string>, x: string) {
    PathFrom(g, name, p) && Lit(x) in g[p[|p| - 1]]
  }

  ghost predicate Reaches(g: Groups, name: string, x: string) {
    exists p :: LeadsTo(g, name, p, x)
  }

  lemma JoinPaths(g: Groups, p: seq<string>, q: seq<string>)
    requires IsPath(g, p) && IsPath(g, q) && Ref(q[0]) in g[p[|p| - 1]]
    ensures IsPath(g, p + q)
  {
  }

  lemma {:induction false} ExpandMembers(es: seq<Entry>, g: Groups, x: Entry)
    ensures x in Expand(es, g) <==> exists e :: e in es && x in ExpandEntry(e, g)
  {
    if es != [] {
      ExpandMembers(es[1..], g, x);
      assert forall e :: e in es <==> e == es[0] || e in es[1..];
    }
  }

  // ---------------------------------------------------------------- what every pass keeps

  /** Nothing is invented: a literal of the current group `name` is reachable in the raw
      groups, and a reference that can still be expanded ends a raw chain of at least n. */
  ghost predicate Sound(raw: Groups, es: seq<Entry>, name: string, n: nat) {
    && (forall x :: Lit(x) in es ==> Reaches(raw, name, x))
    && (forall m :: Ref(m) in es && m in raw ==> exists p :: Chain(raw, name, p, m) && n <= |p|)
  }

  /** p leads from `name` to a group that refers to m. */
  predicate Chain(raw: Groups, name: string, p: seq<string>, m: string) {
    PathFrom(raw, name, p) && Ref(m) in raw[p[|p| - 1]]
  }

  /** Nothing is lost: a literal at the end of a raw path is there already, or a reference at
      least n steps along the path is. */
  ghost predicate Covers(raw: Groups, es: seq<Entry>, name: string, n: nat) {
    forall p, x :: LeadsTo(raw, name, p, x) ==>
      Lit(x) in es || exists d :: n <= d < |p| && Ref(p[d]) in es
  }

  ghost predicate Good(raw: Groups, g: Groups, name: string, n: nat)
    requires name in g
  {
    Sound(raw, g[name], name, n) && Covers(raw, g[name], name, n)
  }

  ghost predicate AllGood(raw: Groups, g: Groups, n: nat) {
    g.Keys == raw.Keys && forall name :: name in g ==> Good(raw, g, name, n)
  }

  lemma RawIsGood(raw: Groups)
    ensures AllGood(raw, raw, 1)
  {
    forall name | name in raw ensures Good(raw, raw, name, 1) {
      assert PathFrom(raw, name, [name]);
      forall x | Lit(x) in raw[name] ensures Reaches(raw, name, x) {
        assert LeadsTo(raw, name, [name], x);
      }
      forall m | Ref(m) in raw[name] ensures Chain(raw, name, [name], m) {}
      forall p, x | LeadsTo(raw, name, p, x)
        ensures Lit(x) in raw[name] || exists d :: 1 <= d < |p| && Ref(p[d]) in raw[name]
      {
        if |p| > 1 { assert Ref(p[0 + 1]) in raw[p[0]]; }
      }
    }
  }

  /** Expanding a reference joins its chain with those of the group it names. */
  lemma JoinReach(raw: Groups, name: string, p: seq<string>, m: string, x: string)
    requires Chain(raw, name, p, m) && Reaches(raw, m, x)
    ensures Reaches(raw, name, x)
  {
    var q :| LeadsTo(raw, m, q, x);
    JoinPaths(raw, p, q);
    assert (p + q)[|p + q| - 1] == q[|q| - 1];
    assert LeadsTo(raw, name, p + q, x);
  }

  lemma JoinChain(raw: Groups, name: string, p: seq<string>, m: string, q: seq<string>, k: string)
    requires Chain(raw, name, p, m) && Chain(raw, m, q, k)
    ensures Chain(raw, name, p + q, k)
  {
  }

  lemma EntryLitSound(raw: Groups, g: Groups, name: string, n: nat, e: Entry, x: string)
    requires AllGood(raw, g, n) && name in g && e in g[name] && Lit(x) in ExpandEntry(e, g)
    ensures Reaches(raw, name, x)
  {
    hide Covers, Reaches, Chain;
    assert Good(raw, g, name, n);
    if e != Lit(x) {
      assert Good(raw, g, e.name, n);
      var p :| Chain(raw, name, p, e.name);
      JoinReach(raw, name, p, e.name, x);
    }
  }

  lemma EntryRefSound(raw: Groups, g: Groups, name: string, n: nat, e: Entry, m: string) returns (p: seq<string>)
    requires AllGood(raw, g, n) && name in g && e in g[name] && Ref(m) in ExpandEntry(e, g) && m in raw
    ensures Chain(raw, name, p, m) && 2 * n <= |p|
  {
    hide Covers, Reaches, Chain;
    assert Good(raw, g, name, n);
    assert Good(raw, g, e.name, n);
    p :| Chain(raw, name, p, e.name) && n <= |p|;
    var q :| Chain(raw, e.name, q, m) && n <= |q|;
    JoinChain(raw, name, p, e.name, q, m);
    p := p + q;
  }

  /** Expanding one group doubles the distance it has covered. */
  lemma ExpandSound(raw: Groups, g: Groups, name: string, n: nat)
    requires AllGood(raw, g, n) && name in g
    ensures Sound(raw, Expand(g[name], g), name, 2 * n)
  {
    hide Good, Reaches, Chain, Expand, ExpandEntry;
    forall x | Lit(x) in Expand(g[name], g) ensures Reaches(raw, name, x) {
      ExpandMembers(g[name], g, Lit(x));
      var e :| e in g[name] && Lit(x) in ExpandEntry(e, g);
      EntryLitSound(raw, g, name, n, e, x);
    }
    forall m | Ref(m) in Expand(g[name], g) && m in raw ensures exists p :: Chain(raw, name, p, m) && 2 * n <= |p| {
      ExpandMembers(g[name], g, Ref(m));
      var e :| e in g[name] && Ref(m) in ExpandEntry(e, g);
      var p := EntryRefSound(raw, g, name, n, e, m);
    }
  }

  lemma {:induction false} ExpandKeeps(es: seq<Entry>, g: Groups, e: Entry, y: Entry)
    requires e in es && y in ExpandEntry(e, g)
    ensures y in Expand(es, g)
  {
    if e != es[0] { ExpandKeeps(es[1..], g, e, y); }
  }

  lemma LeadSuffix(raw: Groups, name: string, p: seq<string>, a: nat, x: string)
    requires LeadsTo(raw, name, p, x) && a < |p|
    ensures p[a] in raw && LeadsTo(raw, p[a], p[a..], x)
  {
  }

  /** One path: its literal has arrived, or a reference twice as far along has. */
  lemma PathCovered(raw: Groups, g: Groups, name: string, n: nat, p: seq<string>, x: string) returns (d: nat)
    requires AllGood(raw, g, n) && name in g && LeadsTo(raw, name, p, x)
    ensures Lit(x) in Expand(g[name], g) || (2 * n <= d < |p| && Ref(p[d]) in Expand(g[name], g))
  {
    hide Expand, Sound, LeadsTo;
    var es := g[name];
    d := 0;
    assert Good(raw, g, name, n);
    if Lit(x) in es {
      ExpandKeeps(es, g, Lit(x), Lit(x));
    } else {
      var a :| n <= a < |p| && Ref(p[a]) in es;
      LeadSuffix(raw, name, p, a, x);
      var q := p[a..];
      assert Good(raw, g, p[a], n);
      if Lit(x) in g[p[a]] {
        ExpandKeeps(es, g, Ref(p[a]), Lit(x));
      } else {
        var f :| n <= f < |q| && Ref(q[f]) in g[p[a]];
        d := a + f;
        assert q[f] == p[d];
        ExpandKeeps(es, g, Ref(p[a]), Ref(p[d]));
      }
    }
  }

  lemma ExpandCovers(raw: Groups, g: Groups, name: string, n: nat)
    requires AllGood(raw, g, n) && name in g
    ensures Covers(raw, Expand(g[name], g), name, 2 * n)
  {
    hide Expand, Good, LeadsTo;
    forall p, x | LeadsTo(raw, name, p, x)
      ensures Lit(x) in Expand(g[name], g) || exists d :: 2 * n <= d < |p| && Ref(p[d]) in Expand(g[name], g)
    {
      var d := PathCovered(raw, g, name, n, p, x);
    }
  }

  lemma Weaken(raw: Groups, g: Groups, name: string, m: nat, n: nat)
    requires name in g && Good(raw, g, name, n) && m <= n
    ensures Good(raw, g, name, m)
  {
  }

  /** A pass doubles the distance of every group it visits, in whatever order. */
  lemma {:induction false} PassDoubles(raw: Groups, g: Groups, order: seq<string>, n: nat, done: set<string>)
    requires AllGood(raw, g, n) && forall k :: k in order ==> k in g
    requires forall k :: k in done && k in g ==> Good(raw, g, k, 2 * n)
    ensures AllGood(raw, Pass(g, order), n)
    ensures forall k :: k in g && (k in done || k in order) ==> Good(raw, Pass(g, order), k, 2 * n)
    decreases |order|
  {
    hide Sound, Covers, Expand;
    if order != [] {
      var name := order[0];
      ExpandSound(raw, g, name, n);
      ExpandCovers(raw, g, name, n);
      var h := g[name := Expand(g[name], g)];
      assert Good(raw, h, name, 2 * n);
      Weaken(raw, h, name, n, 2 * n);
      forall k | k in h ensures Good(raw, h, k, n) {
        if k != name { assert Good(raw, g, k, n); }
      }
      forall k | k in done + {name} && k in h ensures Good(raw, h, k, 2 * n) {
        if k != name { assert Good(raw, g, k, 2 * n); }
      }
      PassDoubles(raw, h, order[1..], n, done + {name});
    }
  }

  function Pow2(k: nat): nat {
    if k == 0 then 1 else 2 * Pow2(k - 1)
  }

  lemma TenDoublings()
    ensures Pow2(MAX_PASSES) == 1024
  {
  }

  /** The dictionary order lists every group. */
  ghost predicate Lists(order: seq<string>, g: Groups) {
    forall n :: n in order <==> n in g
  }

  lemma {:induction false} PassesCover(raw: Groups, order: seq<string>, k: nat)
    requires Lists(order, raw)
    ensures AllGood(raw, Passes(raw, order, k), Pow2(k))
  {
    hide Good, Pass;
    if k == 0 {
      RawIsGood(raw);
    } else {
      PassesCover(raw, order, k - 1);
      PassDoubles(raw, Passes(raw, order, k - 1), order, Pow2(k - 1), {});
    }
  }

  // ---------------------------------------------------------------- main results

  /** Whatever the definitions, cyclic or not, and in any dictionary order: every literal
      present after the passes is reachable, every literal that fewer than 1024 references
      lead to is present, and a reference can be left unexpanded only behind a chain of 1024. */
  lemma ResolvedGroups(raw: Groups, order: seq<string>, name: string)
    requires Lists(order, raw) && name in raw
    ensures var es := Passes(raw, order, MAX_PASSES)[name];
            && (forall x :: Lit(x) in es ==> Reaches(raw, name, x))
            && (forall p, x :: LeadsTo(raw, name, p, x) && |p| <= 1024 ==> Lit(x) in es)
            && (forall m :: Ref(m) in es && m in raw ==> exists p :: Chain(raw, name, p, m) && 1024 <= |p|)
  {
    hide Passes, Pow2;
    PassesCover(raw, order, MAX_PASSES);
    TenDoublings();
    var g := Passes(raw, order, MAX_PASSES);
    assert Good(raw, g, name, 1024);
  }

  // ---------------------------------------------------------------- configurations of at most 1024 groups

  predicate Distinct(p: seq<string>) {
    forall i, j :: 0 <= i < j < |p| ==> p[i] != p[j]
  }

  /** A path that visits a group twice can skip the loop. */
  lemma {:induction false} SkipLoops(g: Groups, name: string, p: seq<string>, x: string) returns (q: seq<string>)
    requires LeadsTo(g, name, p, x)
    ensures LeadsTo(g, name, q, x) && Distinct(q)
    decreases |p|
  {
    if Distinct(p) {
      q := p;
    } else {
      var i, j :| 0 <= i < j < |p| && p[i] == p[j];
      var r := p[..i] + p[j..];
      forall k | 0 <= k < |r| - 1 ensures Ref(r[k + 1]) in g[r[k]] {
        if k < i - 1 {
          assert r[k] == p[k] && r[k + 1] == p[k + 1];
        } else if k == i - 1 {
          assert r[k] == p[k] && r[k + 1] == p[j] == p[k + 1];
        } else {
          assert r[k] == p[k - i + j] && r[k + 1] == p[k - i + j + 1];
        }
      }
      q := SkipLoops(g, name, r, x);
    }
  }

  lemma {:induction false} DistinctBound(p: seq<string>, names: set<string>)
    requires Distinct(p) && forall i :: 0 <= i < |p| ==> p[i] in names
    ensures |p| <= |names|
  {
    if p != [] {
      var q := p[..|p| - 1];
      assert forall i :: 0 <= i < |q| ==> q[i] in names - {p[|p| - 1]};
      DistinctBound(q, names - {p[|p| - 1]});
    }
  }

  /** With at most 1024 groups the passes find exactly the reachable literals, cycles or not. */
  lemma ResolvedIsReachable(raw: Groups, order: seq<string>, name: string, x: string)
    requires Lists(order, raw) && name in raw && |raw| <= 1024
    ensures Lit(x) in Passes(raw, order, MAX_PASSES)[name] <==> Reaches(raw, name, x)
  {
    hide Passes;
    ResolvedGroups(raw, order, name);
    if p :| LeadsTo(raw, name, p, x) {
      var q := SkipLoops(raw, name, p, x);
      DistinctBound(q, raw.Keys);
    }
  }

  /** Groups that only lead to one another: following references from them never ends. */
  ghost predicate Trapped(g: Groups, names: set<string>) {
    forall n :: n in names ==> StaysIn(g, names, n)
  }

  ghost predicate StaysIn(g: Groups, names: set<string>, n: string) {
    n in g && exists m :: m in names && Ref(m) in g[n]
  }

  lemma TrappedExpand(g: Groups, names: set<string>, n: string)
    requires Trapped(g, names) && n in names
    ensures n in g && exists k :: k in names && Ref(k) in Expand(g[n], g)
  {
    hide Trapped, Expand;
    assert StaysIn(g, names, n) by { TrappedAt(g, names, n); }
    var m :| m in names && Ref(m) in g[n];
    TrappedAt(g, names, m);
    var k :| k in names && Ref(k) in g[m];
    ExpandKeeps(g[n], g, Ref(m), Ref(k));
  }

  lemma TrappedAt(g: Groups, names: set<string>, n: string)
    requires Trapped(g, names) && n in names
    ensures StaysIn(g, names, n)
  {
  }

  lemma TrappedStep(g: Groups, names: set<string>, name: string, n: string)
    requires Trapped(g, names) && name in g && n in names
    ensures StaysIn(g[name := Expand(g[name], g)], names, n)
  {
    hide Trapped, Expand;
    TrappedAt(g, names, n);
    TrappedExpand(g, names, n);
  }

  lemma {:induction false} TrappedPass(g: Groups, order: seq<string>, names: set<string>)
    requires Trapped(g, names) && forall n :: n in order ==> n in g
    ensures Trapped(Pass(g, order), names)
    decreases |order|
  {
    hide Expand, StaysIn;
    if order != [] {
      var name := order[0];
      var h := g[name := Expand(g[name], g)];
      forall n | n in names ensures StaysIn(h, names, n) {
        TrappedStep(g, names, name, n);
      }
      TrappedPass(h, order[1..], names);
    }
  }

  lemma {:induction false} TrappedPasses(g: Groups, order: seq<string>, names: set<string>, k: nat)
    requires Trapped(g, names) && forall n :: n in order ==> n in g
    ensures Trapped(Passes(g, order, k), names)
  {
    hide Trapped, Pass;
    if k > 0 {
      TrappedPasses(g, order, names, k - 1);
      TrappedPass(Passes(g, order, k - 1), order, names);
    }
  }

  /** A path longer than there are groups closes a loop. */
  lemma LongPathTraps(g: Groups, p: seq<string>) returns (names: set<string>)
    requires IsPath(g, p) && |g| < |p|
    ensures Trapped(g, names) && p[0] in names
  {
    if Distinct(p) {
      DistinctBound(p, g.Keys);
      assert false;
    }
    var i, j :| 0 <= i < j < |p| && p[i] == p[j];
    names := set k | 0 <= k < j :: p[k];
    forall n | n in names ensures StaysIn(g, names, n) {
      var k :| 0 <= k < j && p[k] == n;
      assert Ref(p[k + 1]) in g[p[k]];
      assert p[k + 1] in names by {
        if k + 1 == j { assert p[k + 1] == p[i]; }
      }
    }
  }

  /** With at most 1024 groups a known variable is left over in `name` exactly when its
      references run into a cycle. */
  lemma LeftoverMeansCycle(raw: Groups, order: seq<string>, name: string)
    requires Lists(order, raw) && name in raw && |raw| <= 1024
    ensures (exists m :: m in raw && Ref(m) in Passes(raw, order, MAX_PASSES)[name])
       <==> (exists names :: Trapped(raw, names) && name in names)
  {
    hide Passes, Trapped;
    ResolvedGroups(raw, order, name);
    if m :| m in raw && Ref(m) in Passes(raw, order, MAX_PASSES)[name] {
      var names := LeftoverTraps(raw, order, name, m);
    }
    if names :| Trapped(raw, names) && name in names {
      TrappedLeavesRef(raw, order, name, names);
    }
  }

  lemma LeftoverTraps(raw: Groups, order: seq<string>, name: string, m: string) returns (names: set<string>)
    requires Lists(order, raw) && name in raw && |raw| <= 1024 && m in raw && Ref(m) in Passes(raw, order, MAX_PASSES)[name]
    ensures Trapped(raw, names) && name in names
  {
    hide Passes, Trapped;
    ResolvedGroups(raw, order, name);
    var p :| Chain(raw, name, p, m) && 1024 <= |p|;
    JoinPaths(raw, p, [m]);
    names := LongPathTraps(raw, p + [m]);
  }

  lemma TrappedLeavesRef(raw: Groups, order: seq<string>, name: string, names: set<string>)
    requires Lists(order, raw) && Trapped(raw, names) && name in names
    ensures name in raw && exists m :: m in raw && Ref(m) in Passes(raw, order, MAX_PASSES)[name]
  {
    hide Passes, Trapped;
    var g := Passes(raw, order, MAX_PASSES);
    TrappedPasses(raw, order, names, MAX_PASSES);
    TrappedAt(g, names, name);
    var m :| m in names && Ref(m) in g[name];
    TrappedAt(raw, names, m);
  }

  // ---------------------------------------------------------------- the bound is tight

  /** What group i of a row holds: a reference `hop` groups on, or beyond the end a literal. */
  function RowEntry(q: seq<string>, i: nat, hop: nat, x: string): seq<Entry> {
    if i + hop < |q| then [Ref(q[i + hop])] else [Lit(x)]
  }

  ghost predicate Row(g: Groups, q: seq<string>, from: nat, to: nat, hop: nat, x: string) {
    forall i :: from <= i < to <= |q| ==> q[i] in g && g[q[i]] == RowEntry(q, i, hop, x)
  }

  lemma RowExpand(g: Groups, q: seq<string>, i: nat, hop: nat, x: string)
    requires i < |q| && Row(g, q, i, |q|, hop, x)
    ensures Expand(g[q[i]], g) == RowEntry(q, i, 2 * hop, x)
  {
    var e := RowEntry(q, i, hop, x)[0];
    assert g[q[i]] == [e] && [e][1..] == [];
    assert Expand([e], g) == ExpandEntry(e, g) + [];
    if i + hop < |q| { assert g[q[i + hop]] == RowEntry(q, i + hop, hop, x); }
  }

  lemma {:induction false} RowPass(g: Groups, q: seq<string>, i: nat, hop: nat, x: string)
    requires Distinct(q) && i <= |q| && Row(g, q, i, |q|, hop, x) && Row(g, q, 0, i, 2 * hop, x)
    requires forall n :: n in q ==> n in g
    ensures Row(Pass(g, q[i..]), q, 0, |q|, 2 * hop, x)
    decreases |q| - i
  {
    hide Expand, RowEntry;
    if i < |q| {
      var name := q[i];
      RowExpand(g, q, i, hop, x);
      var h := g[name := Expand(g[name], g)];
      assert forall k :: 0 <= k < |q| && k != i ==> q[k] != name;
      assert q[i..][0] == name && q[i..][1..] == q[i + 1..];
      RowPass(h, q, i + 1, hop, x);
    }
  }

  lemma {:induction false} RowPasses(g: Groups, q: seq<string>, k: nat, x: string)
    requires Distinct(q) && Row(g, q, 0, |q|, 1, x) && forall n :: n in q ==> n in g
    ensures Row(Passes(g, q, k), q, 0, |q|, Pow2(k), x)
  {
    hide Pass, RowEntry;
    if k > 0 {
      RowPasses(g, q, k - 1, x);
      assert q[0..] == q;
      RowPass(Passes(g, q, k - 1), q, 0, Pow2(k - 1), x);
    }
  }

  /** Ten passes are not enough for a chain of 1024 references listed front to back: the first
      group is left with a reference and its literal is missing. */
  lemma ChainOf1024IsTooLong(g: Groups, q: seq<string>, x: string)
    requires Distinct(q) && |q| == 1025 && Row(g, q, 0, |q|, 1, x) && forall n :: n in q ==> n in g
    ensures Passes(g, q, MAX_PASSES)[q[0]] == [Ref(q[1024])]
  {
    hide Passes, Pow2, Distinct;
    RowPasses(g, q, MAX_PASSES, x);
    TenDoublings();
  }
}
