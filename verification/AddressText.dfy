/** The address-group strings themselves: expansion by regular expression, splitting at commas
    and stripping, shown to act on flat groups as AddressGroups describes on lists. */
module AddressText {
  import opened Optional
  import opened AddressGroups

  // ---------------------------------------------------------------- splitting and stripping

  predicate Space(c: char) {
    c in {' ', '\t', '\n', '\r', '\U{B}', '\U{C}'}
  }

  predicate AllSpace(s: string) {
    forall c :: c in s ==> Space(c)
  }

  function StripLeft(s: string): string {
    if s != "" && Space(s[0]) then StripLeft(s[1..]) else s
  }

  function StripRight(s: string): string {
    if s != "" && Space(s[|s| - 1]) then StripRight(s[..|s| - 1]) else s
  }

  function Strip(s: string): string {
    StripRight(StripLeft(s))
  }

  /** The value without outer white space and outer brackets. */
  function Inner(v: string): string {
    var s := Strip(v);
    if s != "" && s[0] == '[' && s[|s| - 1] == ']' then s[1..|s| - 1] else s
  }

  /** The position of the first comma, or the length. */
  function CommaAt(s: string): (i: nat)
    ensures i <= |s| && ',' !in s[..i] && (i < |s| ==> s[i] == ',')
  {
    if s == "" || s[0] == ',' then 0
    else
      var i := CommaAt(s[1..]);
      assert s[..i + 1] == [s[0]] + s[1..][..i];
      i + 1
  }

  function Token(chunk: string): seq<string> {
    if Strip(chunk) == "" then [] else [Strip(chunk)]
  }

  /** `[e.strip() for e in s.split(",") if e.strip()]`. */
  function Tokens(s: string): seq<string>
    decreases |s|
  {
    var i := CommaAt(s);
    Token(s[..i]) + if i < |s| then Tokens(s[i + 1..]) else []
  }

  function Items(v: string): seq<string> {
    Tokens(Inner(v))
  }

  // ---------------------------------------------------------------- expansion

  predicate NameChar(c: char) {
    'A' <= c <= 'Z' || '0' <= c <= '9' || c == '_'
  }

  /** How many characters of the regular expression's variable name s starts with. */
  function NameLen(s: string): (n: nat)
    ensures n <= |s| && forall i :: 0 <= i < n ==> NameChar(s[i])
  {
    if s == "" || !NameChar(s[0]) then 0 else 1 + NameLen(s[1..])
  }

  /** Every entry with a `!` in front, joined again. */
  function NegJoin(items: seq<string>): string {
    if items == [] then ""
    else if |items| == 1 then "!" + items[0]
    else "!" + items[0] + ", " + NegJoin(items[1..])
  }

  type Vars = map<string, string>

  function Replace(negate: bool, name: string, vars: Vars): string {
    if name !in vars then (if negate then "!$" else "$") + name
    else if negate then NegJoin(Items(vars[name]))
    else Inner(vars[name])
  }

  /** The length of the regular expression's match at the start of s, 0 when there is none. */
  function MatchLen(s: string): (n: nat)
    ensures n <= |s|
  {
    if |s| >= 3 && s[0] == '!' && s[1] == '$' && NameChar(s[2]) then 2 + NameLen(s[2..])
    else if |s| >= 2 && s[0] == '$' && NameChar(s[1]) then 1 + NameLen(s[1..])
    else 0
  }

  function Head(s: string, vars: Vars): string
    requires s != ""
  {
    var n := MatchLen(s);
    if n == 0 then [s[0]]
    else if s[0] == '!' then Replace(true, s[2..n], vars)
    else Replace(false, s[1..n], vars)
  }

  function Tail(s: string): (t: string)
    requires s != ""
    ensures |t| < |s|
  {
    var n := MatchLen(s);
    if n == 0 then s[1..] else s[n..]
  }

  /** `re.sub(r"(!?)\$([A-Z0-9_]+)", replacer, s)`. */
  function ExpandText(s: string, vars: Vars): string
    decreases |s|
  {
    if s == "" then "" else Head(s, vars) + ExpandText(Tail(s), vars)
  }

  // ---------------------------------------------------------------- stripping lemmas

  lemma {:induction false} StripLeftSplit(s: string) returns (w: string)
    ensures AllSpace(w) && s == w + StripLeft(s)
  {
    w := "";
    if s != "" && Space(s[0]) {
      w := StripLeftSplit(s[1..]);
      w := [s[0]] + w;
    }
  }

  lemma {:induction false} StripRightSplit(s: string) returns (w: string)
    ensures AllSpace(w) && s == StripRight(s) + w
  {
    w := "";
    if s != "" && Space(s[|s| - 1]) {
      w := StripRightSplit(s[..|s| - 1]);
      assert s == s[..|s| - 1] + [s[|s| - 1]];
      w := w + [s[|s| - 1]];
    }
  }

  /** Any text is its stripped form between white space. */
  lemma StripSplit(s: string) returns (w: string, w': string)
    ensures AllSpace(w) && AllSpace(w') && s == w + Strip(s) + w'
  {
    w := StripLeftSplit(s);
    w' := StripRightSplit(StripLeft(s));
  }

  lemma {:induction false} StripLeftPad(w: string, s: string)
    requires AllSpace(w)
    ensures StripLeft(w + s) == StripLeft(s)
  {
    if w == "" {
      assert w + s == s;
    } else {
      assert Space(w[0]) && (w + s)[1..] == w[1..] + s;
      StripLeftPad(w[1..], s);
    }
  }

  lemma {:induction false} StripRightPad(s: string, w: string)
    requires AllSpace(w)
    ensures StripRight(s + w) == StripRight(s)
  {
    if w == "" {
      assert s + w == s;
    } else {
      assert Space(w[|w| - 1]) && (s + w)[..|s + w| - 1] == s + w[..|w| - 1];
      StripRightPad(s, w[..|w| - 1]);
    }
  }

  lemma {:induction false} StripLeftAppend(s: string, w: string)
    requires AllSpace(w)
    ensures StripRight(StripLeft(s + w)) == StripRight(StripLeft(s))
  {
    if s == "" {
      assert s + w == w + "";
      StripLeftPad(w, "");
    } else if Space(s[0]) {
      assert (s + w)[1..] == s[1..] + w;
      StripLeftAppend(s[1..], w);
    } else {
      assert StripLeft(s + w) == s + w;
      StripRightPad(s, w);
    }
  }

  lemma StripPad(w: string, s: string, w': string)
    requires AllSpace(w) && AllSpace(w')
    ensures Strip(w + s + w') == Strip(s)
  {
    assert w + s + w' == w + (s + w');
    StripLeftPad(w, s + w');
    StripLeftAppend(s, w');
  }

  /** A text that neither starts nor ends with white space. */
  predicate Tight(t: string) {
    t != "" && !Space(t[0]) && !Space(t[|t| - 1])
  }

  lemma {:induction false} StripRightTight(s: string)
    ensures StripRight(s) != "" ==> !Space(StripRight(s)[|StripRight(s)| - 1]) && StripRight(s)[0] == s[0]
  {
    if s != "" && Space(s[|s| - 1]) { StripRightTight(s[..|s| - 1]); }
  }

  lemma {:induction false} StripLeftTight(s: string)
    ensures StripLeft(s) != "" ==> !Space(StripLeft(s)[0])
  {
    if s != "" && Space(s[0]) { StripLeftTight(s[1..]); }
  }

  lemma StripTight(s: string)
    ensures Strip(s) != "" ==> Tight(Strip(s))
    ensures forall c :: c in Strip(s) ==> c in s
  {
    StripLeftTight(s);
    StripRightTight(StripLeft(s));
    var w, w' := StripSplit(s);
  }

  lemma TightStrip(t: string)
    requires Tight(t)
    ensures Strip(t) == t
  {
  }

  // ---------------------------------------------------------------- token lemmas

  lemma {:induction false} CommaAtConcat(a: string, b: string)
    ensures CommaAt(a + "," + b) == if CommaAt(a) < |a| then CommaAt(a) else |a|
  {
    var s := a + "," + b;
    if a != "" && a[0] != ',' {
      assert s[1..] == a[1..] + "," + b;
      CommaAtConcat(a[1..], b);
    }
  }

  lemma TokensStep(s: string, a: string, b: string)
    requires s == a + "," + b && ',' !in a
    ensures Tokens(s) == Token(a) + Tokens(b)
  {
    hide Token;
    CommaAtConcat(a, b);
    assert s[..|a|] == a && s[|a| + 1..] == b;
  }

  lemma {:induction false} TokensComma(a: string, b: string)
    ensures Tokens(a + "," + b) == Tokens(a) + Tokens(b)
    decreases |a|
  {
    hide Token, Tokens;
    var i := CommaAt(a);
    if i == |a| {
      assert a[..i] == a;
      TokensStep(a + "," + b, a, b);
      NoCommaAt(a);
    } else {
      var h, t := a[..i], a[i + 1..];
      assert a == h + "," + t;
      TokensStep(a, h, t);
      assert a + "," + b == h + "," + (t + "," + b);
      TokensStep(a + "," + b, h, t + "," + b);
      TokensComma(t, b);
    }
  }

  lemma NoCommaAt(s: string)
    requires ',' !in s
    ensures Tokens(s) == Token(s)
  {
    hide Token;
    var i := CommaAt(s);
    assert i == |s|;
    assert s[..i] == s;
    assert Tokens(s) == Token(s) + [];
  }

  lemma SpaceIsNoComma(w: string)
    requires AllSpace(w)
    ensures ',' !in w
  {
  }

  lemma PadChunk(w: string, a: string, w': string)
    requires AllSpace(w) && AllSpace(w') && ',' !in a
    ensures Tokens(w + a + w') == Tokens(a)
  {
    hide Strip, AllSpace, Tokens;
    SpaceIsNoComma(w);
    SpaceIsNoComma(w');
    NoCommaAt(a);
    NoCommaAt(w + a + w');
    StripPad(w, a, w');
  }

  lemma {:induction false} TokensLead(w: string, r: string)
    requires AllSpace(w)
    ensures Tokens(w + r) == Tokens(r)
  {
    assert AllSpace("") && w + r + "" == w + r;
    hide Tokens, AllSpace;
    var i := CommaAt(r);
    if i == |r| {
      assert r[..i] == r;
      PadChunk(w, r, "");
    } else {
      var a, b := r[..i], r[i + 1..];
      assert r == a + "," + b && w + r == (w + a) + "," + b && w + a + "" == w + a;
      TokensComma(w + a, b);
      TokensComma(a, b);
      PadChunk(w, a, "");
    }
  }

  lemma {:induction false} TokensTrail(r: string, w: string)
    requires AllSpace(w)
    ensures Tokens(r + w) == Tokens(r)
    decreases |r|
  {
    assert AllSpace("") && "" + r + w == r + w;
    hide Tokens, AllSpace;
    var i := CommaAt(r);
    if i == |r| {
      assert r[..i] == r;
      PadChunk("", r, w);
    } else {
      var a, b := r[..i], r[i + 1..];
      assert r == a + "," + b && r + w == a + "," + (b + w);
      TokensComma(a, b + w);
      TokensComma(a, b);
      TokensTrail(b, w);
    }
  }

  /** White space around a list changes nothing. */
  lemma TokensPad(w: string, r: string, w': string)
    requires AllSpace(w) && AllSpace(w')
    ensures Tokens(w + r + w') == Tokens(r)
  {
    hide Tokens, AllSpace;
    TokensTrail(w + r, w');
    TokensLead(w, r);
  }

  /** What every token of a list looks like. */
  predicate TokenShape(t: string) {
    Tight(t) && ',' !in t
  }

  lemma {:induction false} TokensShape(s: string)
    ensures forall t :: t in Tokens(s) ==> TokenShape(t) && forall c :: c in t ==> c in s
    decreases |s|
  {
    var i := CommaAt(s);
    StripTight(s[..i]);
    if i < |s| { TokensShape(s[i + 1..]); }
  }

  lemma OneToken(t: string)
    requires TokenShape(t)
    ensures Tokens(t) == [t]
  {
    NoCommaAt(t);
    TightStrip(t);
  }

  // ---------------------------------------------------------------- expansion lemmas

  lemma {:induction false} NameLenStops(a: string, c: char, b: string)
    requires !NameChar(c)
    ensures NameLen(a + [c] + b) == NameLen(a)
  {
    var s := a + [c] + b;
    if a != "" {
      assert s[1..] == a[1..] + [c] + b;
      NameLenStops(a[1..], c, b);
    }
  }

  /** A character no reference contains. */
  predicate Separator(c: char) {
    !NameChar(c) && c != '$' && c != '!'
  }

  lemma HeadStops(a: string, c: char, b: string, vars: Vars)
    requires a != "" && Separator(c)
    ensures Head(a + [c] + b, vars) == Head(a, vars) && Tail(a + [c] + b) == Tail(a) + [c] + b
  {
    hide Replace, NameLen;
    var s, n := a + [c] + b, MatchLen(a);
    if |a| >= 2 {
      assert s[1..] == a[1..] + [c] + b && s[2..] == a[2..] + [c] + b;
      NameLenStops(a[1..], c, b);
      NameLenStops(a[2..], c, b);
    }
    assert MatchLen(s) == n;
    assert forall i :: 0 <= i <= n ==> s[i..n] == a[i..n];
  }

  /** Expansion never looks across a character that cannot belong to a reference. */
  lemma {:induction false} ExpandSplit(a: string, c: char, b: string, vars: Vars)
    requires Separator(c)
    ensures ExpandText(a + [c] + b, vars) == ExpandText(a, vars) + [c] + ExpandText(b, vars)
    decreases |a|
  {
    hide Head, Tail, Separator;
    var s := a + [c] + b;
    if a == "" {
      HeadIsChar(c, b, vars);
      assert s == [c] + b;
    } else {
      HeadStops(a, c, b, vars);
      ExpandSplit(Tail(a), c, b, vars);
    }
  }

  lemma HeadIsChar(c: char, b: string, vars: Vars)
    requires Separator(c)
    ensures Head([c] + b, vars) == [c] && Tail([c] + b) == b
  {
  }

  lemma SpaceIsSeparator(w: string)
    requires AllSpace(w) && w != ""
    ensures Separator(w[0]) && AllSpace(w[1..])
  {
    assert w[0] in w;
  }

  lemma {:induction false} ExpandLead(w: string, s: string, vars: Vars)
    requires AllSpace(w)
    ensures ExpandText(w + s, vars) == w + ExpandText(s, vars)
  {
    hide Head, Tail, AllSpace, Separator;
    if w == "" {
      assert w + s == s;
    } else {
      SpaceIsSeparator(w);
      assert w + s == [w[0]] + (w[1..] + s);
      HeadIsChar(w[0], w[1..] + s, vars);
      ExpandLead(w[1..], s, vars);
    }
  }

  lemma ExpandTrail(s: string, w: string, vars: Vars)
    requires AllSpace(w)
    ensures ExpandText(s + w, vars) == ExpandText(s, vars) + w
  {
    hide ExpandText, Separator, AllSpace;
    if w == "" {
      assert s + w == s;
    } else {
      var c, v := w[0], w[1..];
      SpaceIsSeparator(w);
      assert w == [c] + v && s + w == s + [c] + v && v + "" == v;
      ExpandLead(v, "", vars);
      ExpandEmpty(vars);
      ExpandSplit(s, c, v, vars);
    }
  }

  lemma ExpandPad(w: string, s: string, w': string, vars: Vars)
    requires AllSpace(w) && AllSpace(w')
    ensures ExpandText(w + s + w', vars) == w + ExpandText(s, vars) + w'
  {
    hide ExpandText, AllSpace;
    ExpandTrail(w + s, w', vars);
    ExpandLead(w, s, vars);
  }

  lemma ExpandEmpty(vars: Vars)
    ensures ExpandText("", vars) == ""
  {
  }

  lemma NoMatch(s: string, vars: Vars)
    requires '$' !in s && s != ""
    ensures Head(s, vars) == [s[0]] && Tail(s) == s[1..]
  {
    hide NameLen, Replace;
    assert MatchLen(s) == 0;
  }

  lemma {:induction false} ExpandNoDollar(s: string, vars: Vars)
    requires '$' !in s
    ensures ExpandText(s, vars) == s
  {
    hide Head, Tail;
    if s != "" {
      NoMatch(s, vars);
      ExpandNoDollar(s[1..], vars);
    }
  }

  // ---------------------------------------------------------------- flat groups

  function DropBangs(t: string): string {
    if t != "" && t[0] == '!' then DropBangs(t[1..]) else t
  }

  predicate IsReference(u: string) {
    |u| >= 2 && u[0] == '$' && NameLen(u[1..]) == |u| - 1
  }

  /** An optionally negated reference, or text without any reference. */
  predicate FlatToken(t: string) {
    IsReference(DropBangs(t)) || '$' !in t
  }

  predicate NoBrackets(s: string) {
    '[' !in s && ']' !in s
  }

  /** A list, with or without outer brackets, whose elements are negated one by one. */
  predicate Flat(v: string) {
    NoBrackets(Inner(v)) && forall t :: t in Items(v) ==> FlatToken(t)
  }

  predicate AllFlat(vars: Vars) {
    forall n :: n in vars ==> Flat(vars[n])
  }

  /** A positive token is a literal or a reference; a negated one is nothing. */
  function EntryOf(t: string): seq<Entry> {
    if t == "" || t[0] == '!' then []
    else if t[0] == '$' then [Ref(t[1..])]
    else [Lit(t)]
  }

  function Entries(ts: seq<string>): seq<Entry> {
    if ts == [] then [] else EntryOf(ts[0]) + Entries(ts[1..])
  }

  function GroupsOf(vars: Vars): (g: Groups)
    ensures g.Keys == vars.Keys
  {
    map n | n in vars :: Entries(Items(vars[n]))
  }

  lemma {:induction false} EntriesConcat(a: seq<string>, b: seq<string>)
    ensures Entries(a + b) == Entries(a) + Entries(b)
  {
    if a == [] {
      assert a + b == b;
    } else {
      assert (a + b)[1..] == a[1..] + b;
      EntriesConcat(a[1..], b);
    }
  }

  // ---------------------------------------------------------------- one token

  function Bangs(k: nat): string {
    if k == 0 then "" else "!" + Bangs(k - 1)
  }

  /** Tokens that are negated and flat. */
  predicate AllNegated(ts: seq<string>) {
    forall t :: t in ts ==> t != "" && t[0] == '!' && FlatToken(t)
  }

  lemma {:induction false} NegatedGiveNothing(ts: seq<string>)
    requires AllNegated(ts)
    ensures Entries(ts) == []
  {
    hide FlatToken;
    if ts != [] {
      assert forall t :: t in ts[1..] ==> t in ts;
      NegatedGiveNothing(ts[1..]);
    }
  }

  lemma {:induction false} BangsAre(j: nat, u: string)
    ensures |Bangs(j)| == j && forall c :: c in Bangs(j) ==> c == '!'
    ensures DropBangs(Bangs(j) + u) == DropBangs(u)
  {
    if j == 0 {
      assert Bangs(j) + u == u;
    } else {
      BangsAre(j - 1, u);
      assert (Bangs(j) + u)[1..] == Bangs(j - 1) + u;
    }
  }

  /** Negating a flat token again keeps it flat. */
  lemma BangToken(j: nat, t: string)
    requires TokenShape(t) && FlatToken(t)
    ensures TokenShape(Bangs(j) + "!" + t) && AllNegated([Bangs(j) + "!" + t])
  {
    hide IsReference;
    var u := Bangs(j) + ("!" + t);
    BangsAre(j, "!" + t);
    assert ("!" + t)[1..] == t;
    assert u == Bangs(j) + "!" + t;
  }

  lemma OnlyBangs(j: nat)
    ensures AllNegated(Tokens(Bangs(j)))
  {
    BangsAre(j, "");
    assert Bangs(j) + "" == Bangs(j);
    hide Bangs, Tokens;
    if j == 0 {
      NoCommaAt("");
    } else {
      assert Bangs(j)[j - 1] in Bangs(j);
      OneToken(Bangs(j));
    }
  }

  /** A negated list is a list of negated elements. */
  lemma {:induction false} NegatedList(j: nat, items: seq<string>)
    requires forall t :: t in items ==> TokenShape(t) && FlatToken(t)
    ensures AllNegated(Tokens(Bangs(j) + NegJoin(items)))
    decreases |items|
  {
    hide Tokens, TokenShape, FlatToken;
    var empty := Bangs(0);
    assert AllSpace(" ");
    if items == [] {
      OnlyBangs(j);
      assert Bangs(j) + NegJoin(items) == Bangs(j);
    } else {
      hide AllSpace, Bangs;
      var u, rest := Bangs(j) + "!" + items[0], NegJoin(items[1..]);
      BangToken(j, items[0]);
      OneToken(u);
      if |items| == 1 {
        assert Bangs(j) + NegJoin(items) == u;
      } else {
        assert Bangs(j) + NegJoin(items) == u + "," + (" " + rest);
        TokensComma(u, " " + rest);
        TokensLead(" ", rest);
        NegatedList(0, items[1..]);
        assert empty + rest == rest;
      }
    }
  }

  lemma ExpandBang(r: string, vars: Vars)
    requires r != "" && r[0] == '!'
    ensures ExpandText("!" + r, vars) == "!" + ExpandText(r, vars)
  {
  }

  lemma {:induction false} ExpandBangs(j: nat, u: string, vars: Vars)
    requires u != "" && u[0] == '!'
    ensures ExpandText(Bangs(j) + u, vars) == Bangs(j) + ExpandText(u, vars)
  {
    hide ExpandText;
    if j == 0 {
      assert Bangs(j) + u == u;
    } else {
      var r := Bangs(j - 1) + u;
      BangsAre(j - 1, u);
      assert Bangs(j) + u == "!" + r;
      ExpandBang(r, vars);
      ExpandBangs(j - 1, u, vars);
    }
  }

  lemma {:induction false} UnBang(t: string) returns (j: nat)
    requires t != "" && t[0] == '!'
    ensures t == Bangs(j) + ("!" + DropBangs(t))
  {
    j := 0;
    if |t| > 1 && t[1] == '!' {
      j := UnBang(t[1..]);
      j := j + 1;
      assert t == "!" + t[1..];
    }
  }

  lemma ExpandReference(negate: bool, name: string, vars: Vars)
    requires name != "" && NameLen(name) == |name|
    ensures ExpandText((if negate then "!$" else "$") + name, vars) == Replace(negate, name, vars)
  {
    hide Replace;
    var s := (if negate then "!$" else "$") + name;
    assert NameChar(name[0]);
    assert s[if negate then 2 else 1..] == name == s[if negate then 2 else 1..|s|];
    assert MatchLen(s) == |s|;
    assert Tail(s) == "" && Head(s, vars) == Replace(negate, name, vars);
  }

  predicate FlatTokens(ts: seq<string>) {
    forall t :: t in ts ==> TokenShape(t) && FlatToken(t)
  }

  lemma FlatItems(v: string)
    requires Flat(v)
    ensures FlatTokens(Items(v))
  {
    hide FlatToken, TokenShape, Inner, Tokens;
    TokensShape(Inner(v));
  }

  ghost predicate Simulates(text: string, es: seq<Entry>, vars: Vars) {
    var ts := Tokens(ExpandText(text, vars));
    FlatTokens(ts) && Entries(ts) == Expand(es, GroupsOf(vars))
  }

  lemma ExpandOne(e: Entry, g: Groups)
    ensures Expand([e], g) == ExpandEntry(e, g)
  {
  }

  lemma EntriesOne(t: string)
    ensures Entries([t]) == EntryOf(t)
  {
  }

  lemma PlainToken(t: string, vars: Vars)
    requires TokenShape(t) && '$' !in t
    ensures Simulates(t, EntryOf(t), vars)
  {
    hide ExpandText, Tokens, GroupsOf;
    ExpandNoDollar(t, vars);
    OneToken(t);
    ExpandOne(Lit(t), GroupsOf(vars));
    EntriesOne(t);
    assert t[0] in t;
  }

  lemma UnknownToken(t: string, vars: Vars)
    requires TokenShape(t) && FlatToken(t) && ExpandText(t, vars) == t
    requires EntryOf(t) != [] ==> t[0] == '$' && t[1..] !in vars
    ensures Simulates(t, EntryOf(t), vars)
  {
    hide ExpandText, Tokens, FlatToken;
    OneToken(t);
    ExpandOne(Ref(t[1..]), GroupsOf(vars));
    EntriesOne(t);
  }

  lemma PositiveReference(name: string, vars: Vars)
    requires TokenShape("$" + name) && IsReference("$" + name) && AllFlat(vars)
    ensures Simulates("$" + name, [Ref(name)], vars)
  {
    var t := "$" + name;
    assert t[1..] == name;
    hide ExpandText, Tokens, Flat, NameLen, Inner, TokenShape;
    ExpandReference(false, name, vars);
    ExpandOne(Ref(name), GroupsOf(vars));
    if name in vars {
      FlatItems(vars[name]);
    } else {
      assert DropBangs(t) == t;
      UnknownToken(t, vars);
    }
  }

  lemma NegatedReference(j: nat, name: string, t: string, vars: Vars)
    requires t == Bangs(j) + ("!$" + name) && name != "" && NameLen(name) == |name|
    requires TokenShape(t) && FlatToken(t) && t[0] == '!' && AllFlat(vars)
    ensures Simulates(t, [], vars)
  {
    hide ExpandText, Tokens, Flat, NameLen, Inner, TokenShape, FlatToken, NegJoin, Bangs;
    ExpandBangs(j, "!$" + name, vars);
    ExpandReference(true, name, vars);
    if name in vars {
      FlatItems(vars[name]);
      NegatedList(j, Items(vars[name]));
      NegatedGiveNothing(Tokens(ExpandText(t, vars)));
      TokensShape(ExpandText(t, vars));
    } else {
      UnknownToken(t, vars);
    }
  }

  lemma TokenExpands(t: string, vars: Vars)
    requires TokenShape(t) && FlatToken(t) && AllFlat(vars)
    ensures Simulates(t, EntryOf(t), vars)
  {
    assert t[0] in t;
    hide TokenShape, AllFlat, NameLen, Simulates;
    if '$' !in t {
      PlainToken(t, vars);
    } else if t[0] == '!' {
      var j := UnBang(t);
      var name := DropBangs(t)[1..];
      assert "!" + DropBangs(t) == "!$" + name;
      NegatedReference(j, name, t, vars);
    } else {
      assert DropBangs(t) == t;
      assert t[0] == '$';
      assert t == "$" + t[1..];
      PositiveReference(t[1..], vars);
    }
  }

  // ---------------------------------------------------------------- a whole value

  lemma {:induction false} ExpandConcat(a: seq<Entry>, b: seq<Entry>, g: Groups)
    ensures Expand(a + b, g) == Expand(a, g) + Expand(b, g)
  {
    if a == [] {
      assert a + b == b;
    } else {
      assert (a + b)[1..] == a[1..] + b;
      ExpandConcat(a[1..], b, g);
    }
  }

  lemma ChunkExpands(a: string, vars: Vars)
    requires ',' !in a && AllFlat(vars) && FlatTokens(Tokens(a))
    ensures Simulates(a, Entries(Tokens(a)), vars)
  {
    hide ExpandText, AllFlat, Tokens, AllSpace, Strip, EntryOf, TokenShape, FlatToken, GroupsOf;
    NoCommaAt(a);
    var w, w' := StripSplit(a);
    ExpandPad(w, Strip(a), w', vars);
    TokensPad(w, ExpandText(Strip(a), vars), w');
    if Strip(a) == "" {
      ExpandEmpty(vars);
      NoCommaAt("");
      assert Strip("") == "" by { StripEmpty(); }
    } else {
      assert Tokens(a) == [Strip(a)];
      EntriesOne(Strip(a));
      TokenExpands(Strip(a), vars);
    }
  }

  lemma StripEmpty()
    ensures Strip("") == ""
  {
  }

  /** Expanding a comma-separated text expands its list of entries. */
  lemma {:induction false} ListExpands(r: string, vars: Vars)
    requires AllFlat(vars) && FlatTokens(Tokens(r))
    ensures Simulates(r, Entries(Tokens(r)), vars)
    decreases |r|
  {
    hide ExpandText, AllFlat, Tokens, TokenShape, FlatToken, GroupsOf, Expand, Entries, CommaAt;
    var i := CommaAt(r);
    if i == |r| {
      assert r[..i] == r;
      ChunkExpands(r, vars);
    } else {
      var a, b := r[..i], r[i + 1..];
      assert r == a + "," + b;
      TokensComma(a, b);
      ChunkExpands(a, vars);
      ListExpands(b, vars);
      ExpandSplit(a, ',', b, vars);
      TokensComma(ExpandText(a, vars), ExpandText(b, vars));
      EntriesConcat(Tokens(a), Tokens(b));
      EntriesConcat(Tokens(ExpandText(a, vars)), Tokens(ExpandText(b, vars)));
      ExpandConcat(Entries(Tokens(a)), Entries(Tokens(b)), GroupsOf(vars));
    }
  }

  lemma {:induction false} NegJoinNoBrackets(items: seq<string>)
    requires forall t :: t in items ==> NoBrackets(t)
    ensures NoBrackets(NegJoin(items))
  {
    if items != [] {
      assert NoBrackets(items[0]) && NoBrackets("!, ");
      NegJoinNoBrackets(items[1..]);
      assert forall c :: c in NegJoin(items) ==> c in items[0] || c in "!, " || c in NegJoin(items[1..]);
    }
  }

  lemma HeadNoBrackets(s: string, vars: Vars)
    requires s != "" && NoBrackets(s) && AllFlat(vars)
    ensures NoBrackets(Head(s, vars)) && NoBrackets(Tail(s))
  {
    hide Tokens, Inner, NegJoin, FlatToken, TokenShape;
    forall n | n in vars ensures NoBrackets(NegJoin(Items(vars[n]))) {
      TokensShape(Inner(vars[n]));
      NegJoinNoBrackets(Items(vars[n]));
    }
  }

  lemma {:induction false} ExpandNoBrackets(s: string, vars: Vars)
    requires NoBrackets(s) && AllFlat(vars)
    ensures NoBrackets(ExpandText(s, vars))
    decreases |s|
  {
    hide Head, Tail, AllFlat;
    if s != "" {
      HeadNoBrackets(s, vars);
      ExpandNoBrackets(Tail(s), vars);
    }
  }

  lemma BracketedInner(w: string, r: string, w': string)
    requires AllSpace(w) && AllSpace(w')
    ensures Inner(w + "[" + r + "]" + w') == r
  {
    hide AllSpace, StripLeft, StripRight;
    var s := "[" + r + "]";
    assert w + "[" + r + "]" + w' == w + s + w';
    StripPad(w, s, w');
    TightStrip(s);
  }

  lemma PlainInner(w: string, r: string, w': string)
    requires AllSpace(w) && AllSpace(w') && NoBrackets(r)
    ensures NoBrackets(Inner(w + r + w')) && Items(w + r + w') == Tokens(r)
  {
    StripTight(r);
    hide AllSpace, StripLeft, StripRight, Tokens;
    StripPad(w, r, w');
    var u, u' := StripSplit(r);
    TokensPad(u, Strip(r), u');
  }

  /** Expanding a flat value gives a flat value with the expanded entries. */
  lemma ValueExpands(v: string, vars: Vars)
    requires Flat(v) && AllFlat(vars)
    ensures Flat(ExpandText(v, vars))
    ensures Entries(Items(ExpandText(v, vars))) == Expand(Entries(Items(v)), GroupsOf(vars))
  {
    var s, r, e := Strip(v), Inner(v), ExpandText(Inner(v), vars);
    hide ExpandText, Tokens, AllFlat, FlatToken, TokenShape, Entries, Expand, GroupsOf, AllSpace, Strip;
    FlatItems(v);
    ListExpands(r, vars);
    ExpandNoBrackets(r, vars);
    var w, w' := StripSplit(v);
    if s != "" && s[0] == '[' && s[|s| - 1] == ']' {
      assert s == "[" + r + "]";
      assert v == w + s + w';
      ExpandPad(w, s, w', vars);
      ExpandBracketed(r, vars);
      assert w + ("[" + e + "]") + w' == w + "[" + e + "]" + w';
      BracketedInner(w, e, w');
    } else {
      ExpandPad(w, s, w', vars);
      PlainInner(w, e, w');
    }
  }

  lemma ExpandBracketed(r: string, vars: Vars)
    ensures ExpandText("[" + r + "]", vars) == "[" + ExpandText(r, vars) + "]"
  {
    hide ExpandText;
    ExpandEmpty(vars);
    assert "[" + r + "]" == "" + ['['] + (r + [']'] + "");
    ExpandSplit("", '[', r + [']'] + "", vars);
    ExpandSplit(r, ']', "", vars);
  }

  // ---------------------------------------------------------------- the passes

  /** One pass over the strings in dictionary order. */
  function TextPass(vars: Vars, order: seq<string>): (r: Vars)
    requires forall n :: n in order ==> n in vars
    ensures r.Keys == vars.Keys
    decreases |order|
  {
    if order == [] then vars
    else TextPass(vars[order[0] := ExpandText(vars[order[0]], vars)], order[1..])
  }

  function TextPasses(vars: Vars, order: seq<string>, k: nat): (r: Vars)
    requires forall n :: n in order ==> n in vars
    ensures r.Keys == vars.Keys
  {
    if k == 0 then vars else TextPass(TextPasses(vars, order, k - 1), order)
  }

  lemma {:induction false} TextPassAppend(vars: Vars, a: seq<string>, b: seq<string>)
    requires forall n :: n in a + b ==> n in vars
    ensures (forall n :: n in a ==> n in vars) && (forall n :: n in b ==> n in vars)
    ensures TextPass(vars, a + b) == TextPass(TextPass(vars, a), b)
    decreases |a|
  {
    assert forall n :: n in a || n in b ==> n in a + b;
    if a == [] {
      assert a + b == b;
    } else {
      assert (a + b)[1..] == a[1..] + b;
      TextPassAppend(vars[a[0] := ExpandText(vars[a[0]], vars)], a[1..], b);
    }
  }

  lemma {:induction false} StablePasses(vars: Vars, order: seq<string>, k: nat, m: nat)
    requires (forall n :: n in order ==> n in vars) && k <= m
    requires TextPass(TextPasses(vars, order, k), order) == TextPasses(vars, order, k)
    ensures TextPasses(vars, order, m) == TextPasses(vars, order, k)
  {
    if k < m { StablePasses(vars, order, k, m - 1); }
  }

  lemma {:induction false} TextPassSimulates(vars: Vars, order: seq<string>)
    requires (forall n :: n in order ==> n in vars) && AllFlat(vars)
    ensures AllFlat(TextPass(vars, order))
    ensures GroupsOf(TextPass(vars, order)) == Pass(GroupsOf(vars), order)
    decreases |order|
  {
    hide Flat, ExpandText, Items, Entries, Expand;
    if order != [] {
      var n := order[0];
      var next := vars[n := ExpandText(vars[n], vars)];
      ValueExpands(vars[n], vars);
      assert GroupsOf(next) == GroupsOf(vars)[n := Expand(GroupsOf(vars)[n], GroupsOf(vars))];
      TextPassSimulates(next, order[1..]);
    }
  }

  /** The strings go through the same passes as the lists of entries they stand for. */
  lemma {:induction false} TextPassesSimulate(vars: Vars, order: seq<string>, k: nat)
    requires (forall n :: n in order ==> n in vars) && AllFlat(vars)
    ensures AllFlat(TextPasses(vars, order, k))
    ensures GroupsOf(TextPasses(vars, order, k)) == Passes(GroupsOf(vars), order, k)
  {
    hide Flat, GroupsOf, TextPass;
    if k > 0 {
      TextPassesSimulate(vars, order, k - 1);
      TextPassSimulates(TextPasses(vars, order, k - 1), order);
    }
  }

  lemma TextPassNext(vars: Vars, order: seq<string>, i: nat)
    requires (forall n :: n in order ==> n in vars) && i < |order|
    ensures (forall n :: n in order[..i] ==> n in vars) && (forall n :: n in order[..i + 1] ==> n in vars)
    ensures var r := TextPass(vars, order[..i]);
            TextPass(vars, order[..i + 1]) == r[order[i] := ExpandText(r[order[i]], r)]
  {
    hide ExpandText;
    assert order[..i + 1] == order[..i] + [order[i]];
    TextPassAppend(vars, order[..i], [order[i]]);
    var r := TextPass(vars, order[..i]);
    var next := r[order[i] := ExpandText(r[order[i]], r)];
    assert [order[i]][1..] == [];
    assert TextPass(next, []) == next;
  }

  /** The loop over the live dictionary that stops after a pass without a change. */
  method ResolveVariableReferences(raw: Vars, order: seq<string>) returns (resolved: Vars)
    requires forall n :: n in order <==> n in raw
    ensures resolved == TextPasses(raw, order, MAX_PASSES)
  {
    hide ExpandText, TextPass;
    resolved := raw;
    for k := 0 to MAX_PASSES
      invariant resolved == TextPasses(raw, order, k)
    {
      var changed;
      resolved, changed := ResolvePass(resolved, order);
      if !changed {
        StablePasses(raw, order, k, MAX_PASSES);
        return;
      }
    }
  }

  method ResolvePass(vars: Vars, order: seq<string>) returns (resolved: Vars, changed: bool)
    requires forall n :: n in order ==> n in vars
    ensures resolved == TextPass(vars, order) && (!changed ==> resolved == vars)
  {
    hide ExpandText;
    resolved, changed := vars, false;
    for i := 0 to |order|
      invariant resolved == TextPass(vars, order[..i])
      invariant !changed ==> resolved == vars
    {
      hide TextPass;
      TextPassNext(vars, order, i);
      var name := order[i];
      var newValue := ExpandText(resolved[name], resolved);
      if newValue != resolved[name] {
        resolved := resolved[name := newValue];
        changed := true;
      }
    }
    assert order[..|order|] == order;
  }

  // ---------------------------------------------------------------- parsed networks

  predicate IsAny(s: string) {
    |s| == 3 && s[0] in "aA" && s[1] in "nN" && s[2] in "yY"
  }

  /** The networks a value yields: those its positive literals parse to. */
  ghost predicate Yields<N(!new)>(value: string, parse: string -> Option<N>, net: N) {
    exists x :: Lit(x) in Entries(Items(value)) && parse(x) == Some(net)
  }

  function OneNetwork<N>(t: string, parse: string -> Option<N>): seq<N> {
    if t == "" || t[0] == '!' || t[0] == '$' || parse(t).None? then [] else [parse(t).value]
  }

  /** The networks of a list of tokens, in order. */
  function Networks<N>(ts: seq<string>, parse: string -> Option<N>): seq<N> {
    if ts == [] then [] else Networks(ts[..|ts| - 1], parse) + OneNetwork(ts[|ts| - 1], parse)
  }

  lemma {:induction false} NetworksYield<N(!new)>(ts: seq<string>, parse: string -> Option<N>, net: N)
    ensures net in Networks(ts, parse) <==> exists x :: Lit(x) in Entries(ts) && parse(x) == Some(net)
  {
    if ts != [] {
      var a, t := ts[..|ts| - 1], ts[|ts| - 1];
      assert ts == a + [t];
      EntriesConcat(a, [t]);
      EntriesOne(t);
      NetworksYield(a, parse, net);
    }
  }

  /** The loop over the entries: negated and unexpanded ones and what is no address are skipped. */
  method ParseAddressValue<N(!new)>(value: string, parse: string -> Option<N>) returns (networks: seq<N>)
    requires forall s :: s in ["any", "Any", "aNy", "anY", "ANy", "AnY", "aNY", "ANY"] ==> parse(s) == None
    ensures networks == Networks(Items(value), parse)
    ensures forall net :: net in networks <==> Yields(value, parse, net)
  {
    hide Tokens, Inner, Strip;
    networks := [];
    forall net ensures net in Networks(Items(value), parse) <==> Yields(value, parse, net) {
      NetworksYield(Items(value), parse, net);
    }
    if IsAny(Strip(value)) {
      AnySpelled(Strip(value));
      AnyYieldsNothing(value, parse);
      return;
    }
    var entries := Items(value);
    for i := 0 to |entries|
      invariant networks == Networks(entries[..i], parse)
    {
      var entry := entries[i];
      assert entries[..i + 1][..i] == entries[..i];
      if entry == "" || entry[0] == '!' || entry[0] == '$' {
        continue;
      }
      var p := parse(entry);
      if p.Some? { networks := networks + [p.value]; }
    }
    assert entries[..|entries|] == entries;
  }

  lemma AnySpelled(s: string)
    requires IsAny(s)
    ensures s in ["any", "Any", "aNy", "anY", "ANy", "AnY", "aNY", "ANY"]
  {
    assert s == [s[0], s[1], s[2]];
  }

  lemma AnyYieldsNothing<N(!new)>(value: string, parse: string -> Option<N>)
    requires IsAny(Strip(value)) && parse(Strip(value)) == None
    ensures Networks(Items(value), parse) == []
  {
    StripTight(value);
    hide Strip, Tokens;
    var s := Strip(value);
    assert ',' !in s;
    OneToken(s);
    assert [s][..0] == [];
  }

  /** The networks of a group are exactly what the literals reachable through un-negated
      references parse to, for every flat configuration of at most 1024 groups, cyclic or not;
      nothing else is ever yielded, and with more groups nothing within 1023 references is missed. */
  lemma NetworksAreReachable<N(!new)>(raw: Vars, order: seq<string>, name: string, parse: string -> Option<N>, net: N)
    requires (forall n :: n in order <==> n in raw) && AllFlat(raw) && name in raw
    ensures var value := TextPasses(raw, order, MAX_PASSES)[name];
            && (Yields(value, parse, net) ==> exists x :: Reaches(GroupsOf(raw), name, x) && parse(x) == Some(net))
            && (forall p, x :: LeadsTo(GroupsOf(raw), name, p, x) && |p| <= 1024 && parse(x) == Some(net)
                  ==> Yields(value, parse, net))
            && (forall x :: |raw| <= 1024 && Reaches(GroupsOf(raw), name, x) && parse(x) == Some(net)
                  ==> Yields(value, parse, net))
  {
    hide AllFlat, Items, Entries, TextPasses, Passes, Reaches, LeadsTo;
    TextPassesSimulate(raw, order, MAX_PASSES);
    var g := GroupsOf(raw);
    ResolvedGroups(g, order, name);
    if |raw| <= 1024 {
      assert g.Keys == raw.Keys && |g| == |raw.Keys|;
      forall x ensures Lit(x) in Passes(g, order, MAX_PASSES)[name] <==> Reaches(g, name, x) {
        ResolvedIsReachable(g, order, name, x);
      }
    }
  }

  // ---------------------------------------------------------------- negated bracket lists

  /** The elements of a list with commas between them. */
  function Joined(ts: seq<string>): string
    requires ts != []
  {
    if |ts| == 1 then ts[0] else ts[0] + ", " + Joined(ts[1..])
  }

  predicate AllTokens(ts: seq<string>) {
    forall t :: t in ts ==> TokenShape(t)
  }

  lemma ClosedToken(t: string)
    requires TokenShape(t)
    ensures Tokens(t + "]") == [t + "]"] && Tokens("![" + t) == ["![" + t] && Tokens("![" + t + "]") == ["![" + t + "]"]
  {
    hide Tokens;
    OneToken(t + "]");
    OneToken("![" + t);
    OneToken("![" + t + "]");
  }

  /** Only the last element of a joined list meets the closing bracket. */
  lemma {:induction false} JoinedTokens(mid: seq<string>, last: string)
    requires AllTokens(mid) && TokenShape(last)
    ensures Tokens(Joined(mid + [last]) + "]") == mid + [last + "]"]
  {
    if mid == [] {
      ClosedToken(last);
      assert Joined(mid + [last]) == last;
    } else {
      assert AllTokens(mid[1..]) && TokenShape(mid[0]);
      hide *;
      JoinedTokens(mid[1..], last);
      JoinStep(mid[0], Joined(mid[1..] + [last]), mid[1..] + [last + "]"]);
      JoinedCons(mid, last);
      SameList(mid, last + "]");
    }
  }

  lemma JoinStep(t: string, rest: string, tail: seq<string>)
    requires TokenShape(t) && Tokens(rest + "]") == tail
    ensures Tokens(t + ", " + rest + "]") == [t] + tail
  {
    hide *;
    CommaSpace(t, rest);
    ListAfter(t, rest + "]");
    OneToken(t);
  }

  lemma SameList(mid: seq<string>, x: string)
    requires mid != []
    ensures [mid[0]] + (mid[1..] + [x]) == mid + [x]
  {
  }

  lemma JoinedCons(mid: seq<string>, last: string)
    requires mid != []
    ensures Joined(mid + [last]) == mid[0] + ", " + Joined(mid[1..] + [last])
  {
    assert (mid + [last])[1..] == mid[1..] + [last];
  }

  lemma CommaSpace(a: string, b: string)
    ensures a + ", " + b + "]" == a + "," + (" " + (b + "]"))
  {
    assert ", " == "," + " ";
  }

  lemma ListAfter(t: string, rest: string)
    ensures Tokens(t + "," + (" " + rest)) == Tokens(t) + Tokens(rest)
  {
    assert AllSpace(" ");
    hide Tokens, AllSpace;
    TokensComma(t, " " + rest);
    TokensLead(" ", rest);
  }

  function NegatedBrackets(ts: seq<string>): string
    requires ts != []
  {
    "![" + Joined(ts) + "]"
  }

  lemma NegatedInner(ts: seq<string>)
    requires ts != []
    ensures Inner(NegatedBrackets(ts)) == NegatedBrackets(ts)
  {
    hide Joined, StripLeft, StripRight;
    TightStrip(NegatedBrackets(ts));
  }

  lemma NegatedItems(first: string, mid: seq<string>, last: string)
    requires TokenShape(first) && AllTokens(mid) && TokenShape(last)
    ensures Items(NegatedBrackets([first] + mid + [last])) == ["![" + first] + (mid + [last + "]"])
  {
    var ts, rest := [first] + mid + [last], Joined(mid + [last]) + "]";
    assert ts[1..] == mid + [last];
    NegatedInner(ts);
    NegatedSplit(ts);
    hide *;
    ListAfter("![" + first, rest);
    ClosedToken(first);
    JoinedTokens(mid, last);
    ItemsAre(NegatedBrackets(ts));
  }

  lemma ItemsAre(v: string)
    ensures Items(v) == Tokens(Inner(v))
  {
  }

  lemma NegatedSplit(ts: seq<string>)
    requires |ts| > 1
    ensures NegatedBrackets(ts) == ("![" + ts[0]) + "," + (" " + (Joined(ts[1..]) + "]"))
  {
    var first, rest := ts[0], Joined(ts[1..]);
    assert Joined(ts) == first + ", " + rest;
    assert ", " == "," + " ";
  }

  /** Outside flat lists negation is lost.  The code cuts `![a, b, c]` at its commas, so the first
      element carries the `!`, the last one the `]`, and every element in between stands alone:
      exactly those, and the last one with its bracket, are the positive entries. */
  lemma NegatedListExactly(ts: seq<string>)
    requires ts != [] && AllTokens(ts)
    ensures Entries(Items(NegatedBrackets(ts))) ==
      if |ts| == 1 then [] else Entries(ts[1..|ts| - 1]) + EntryOf(ts[|ts| - 1] + "]")
  {
    if |ts| == 1 {
      NegatedInner(ts);
      ClosedToken(ts[0]);
      EntriesOne("![" + ts[0] + "]");
    } else {
      var first, mid, last := ts[0], ts[1..|ts| - 1], ts[|ts| - 1];
      assert ts == [first] + mid + [last];
      hide Items, TokenShape, NegatedBrackets;
      NegatedItems(first, mid, last);
      EntriesConcat(["![" + first], mid + [last + "]"]);
      EntriesConcat(mid, [last + "]"]);
      EntriesOne("![" + first);
      EntriesOne(last + "]");
    }
  }

  /** Neither negated nor a variable. */
  predicate Positive(t: string) {
    t != "" && t[0] != '!' && t[0] != '$'
  }

  lemma {:induction false} EntriesHave(ts: seq<string>, x: string)
    ensures Lit(x) in Entries(ts) <==> x in ts && Positive(x)
  {
    if ts != [] {
      assert ts == [ts[0]] + ts[1..];
      EntriesHave(ts[1..], x);
    }
  }

  /** Such a list yields a network exactly when an element strictly inside it is not negated, is
      no variable and parses to that network. */
  lemma NegatedListYieldsExactlyWhen<N(!new)>(ts: seq<string>, parse: string -> Option<N>, net: N)
    requires ts != [] && AllTokens(ts) && forall s :: ']' in s ==> parse(s) == None
    ensures Yields(NegatedBrackets(ts), parse, net) <==>
      exists i :: 0 < i < |ts| - 1 && Positive(ts[i]) && parse(ts[i]) == Some(net)
  {
    hide Items, NegatedBrackets, AllTokens, Entries, Positive;
    NegatedListExactly(ts);
    if |ts| > 1 {
      var mid, last := ts[1..|ts| - 1], ts[|ts| - 1] + "]";
      assert last[|last| - 1] == ']' && ']' in last;
      if x :| Lit(x) in Entries(mid) && parse(x) == Some(net) {
        EntriesHave(mid, x);
        var j :| 0 <= j < |mid| && mid[j] == x;
        assert ts[j + 1] == x;
      }
      if i :| 0 < i < |ts| - 1 && Positive(ts[i]) && parse(ts[i]) == Some(net) {
        assert mid[i - 1] == ts[i];
        EntriesHave(mid, ts[i]);
      }
    }
  }

  // ---------------------------------------------------------------- the texts themselves

  /** A nonempty name of capital letters, digits and underscores stands for its group: `$NAME`
      becomes the group's text without brackets, `!$NAME` its elements negated one by one. */
  lemma ReferenceExpands(name: string, v: string, vars: Vars)
    requires name != "" && forall c :: c in name ==> 'A' <= c <= 'Z' || '0' <= c <= '9' || c == '_'
    requires name in vars && vars[name] == v
    ensures ExpandText("$" + name, vars) == Inner(v)
    ensures ExpandText("!$" + name, vars) == NegJoin(Items(v))
  {
    WholeName(name);
    hide NameLen, Inner, Items, ExpandText;
    ExpandReference(false, name, vars);
    ExpandReference(true, name, vars);
  }

  lemma {:induction false} WholeName(name: string)
    requires forall c :: c in name ==> 'A' <= c <= 'Z' || '0' <= c <= '9' || c == '_'
    ensures NameLen(name) == |name|
  {
    if name != "" {
      assert name[0] in name && forall c :: c in name[1..] ==> c in name;
      WholeName(name[1..]);
    }
  }

  /** From position k on, t is a reference, and everything before it negates it. */
  predicate ReferenceFrom(t: string, k: int) {
    && 0 <= k && k + 1 < |t| && t[k] == '$'
    && (forall i :: 0 <= i < k ==> t[i] == '!')
    && (forall i :: k < i < |t| ==> 'A' <= t[i] <= 'Z' || '0' <= t[i] <= '9' || t[i] == '_')
  }

  lemma {:induction false} BangsDropped(t: string, k: nat)
    requires k < |t| && t[k] != '!' && forall i :: 0 <= i < k ==> t[i] == '!'
    ensures DropBangs(t) == t[k..]
  {
    if k > 0 {
      BangsDropped(t[1..], k - 1);
      assert t[1..][k - 1..] == t[k..];
    }
  }

  lemma {:induction false} BangsBefore(t: string) returns (k: nat)
    ensures k <= |t| && DropBangs(t) == t[k..] && forall i :: 0 <= i < k ==> t[i] == '!'
  {
    k := 0;
    if t != "" && t[0] == '!' {
      k := BangsBefore(t[1..]);
      assert t[1..][k..] == t[k + 1..];
      k := k + 1;
    }
  }

  /** The elements that lists may have: texts without `$`, and references with any number of
      `!` in front. */
  lemma FlatTokenExactly(t: string)
    ensures FlatToken(t) <==> '$' !in t || exists k :: ReferenceFrom(t, k)
  {
    if IsReference(DropBangs(t)) {
      var k := BangsBefore(t);
      var u := t[k..];
      assert forall i :: 0 <= i < |u| - 1 ==> NameChar(u[1..][i]);
      forall i | k < i < |t| ensures NameChar(t[i]) { assert u[1..][i - k - 1] == t[i]; }
      assert t[k] == u[0];
      assert ReferenceFrom(t, k);
    }
    if k :| ReferenceFrom(t, k) {
      BangsDropped(t, k);
      var name := t[k + 1..];
      assert t[k..][1..] == name;
      forall c | c in name ensures 'A' <= c <= 'Z' || '0' <= c <= '9' || c == '_' {
        var i :| 0 <= i < |name| && name[i] == c;
        assert t[k + 1 + i] == c;
      }
      WholeName(name);
    }
  }

  /** Which values the theorems on flat groups cover. */
  lemma FlatExactlyWhen(v: string)
    ensures Flat(v) <==>
      && '[' !in Inner(v) && ']' !in Inner(v)
      && forall t :: t in Items(v) ==> '$' !in t || exists k :: ReferenceFrom(t, k)
  {
    hide Inner, Items, FlatToken, ReferenceFrom;
    forall t ensures FlatToken(t) <==> '$' !in t || exists k :: ReferenceFrom(t, k) { FlatTokenExactly(t); }
  }

  predicate White(c: char) {
    c == ' ' || c == '\t' || c == '\n' || c == '\r' || c == '\U{B}' || c == '\U{C}'
  }

  /** An element, a list of elements and a bracketed list give back what they were made of, with
      or without white space around them. */
  lemma ItemsOfList(ts: seq<string>, w: string, w': string)
    requires ts != [] && forall c :: c in w + w' ==> White(c)
    requires forall t :: t in ts ==>
      && t != "" && !White(t[0]) && !White(t[|t| - 1]) && ',' !in t && '[' !in t && ']' !in t
    ensures Items(w + Joined(ts) + w') == ts && Items(w + "[" + Joined(ts) + "]" + w') == ts
    ensures Inner(w + "[" + Joined(ts) + "]" + w') == Joined(ts)
  {
    assert AllSpace(w) && AllSpace(w') by {
      assert forall c :: c in w || c in w' ==> c in w + w';
    }
    hide Tokens, AllSpace;
    JoinedIsList(ts);
    BracketedInner(w, Joined(ts), w');
    PlainInner(w, Joined(ts), w');
  }

  lemma {:induction false} JoinedIsList(ts: seq<string>)
    requires ts != []
    requires forall t :: t in ts ==> TokenShape(t) && NoBrackets(t)
    ensures Tokens(Joined(ts)) == ts && NoBrackets(Joined(ts))
  {
    hide Tokens, TokenShape;
    OneToken(ts[0]);
    if |ts| > 1 {
      assert ts[0] + ", " + Joined(ts[1..]) == ts[0] + "," + (" " + Joined(ts[1..]));
      ListAfter(ts[0], Joined(ts[1..]));
      JoinedIsList(ts[1..]);
    }
  }
}
