/** The test that tells inherited verdicts from produced ones: a SQL LIKE over the text
    that `json.dumps` gives for the `llm_inputs` column.

    LIKE sees encoded text, ignores ASCII case and reads `_` as "any one character", so it
    is not obvious what the pattern accepts.  The module gives LIKE and the encoder, and
    says for every JSON value exactly when the encoded text matches. */
module JsonLike {

  // ---------------------------------------------------------------- LIKE

  /** SQLite compares letters in LIKE without regard to ASCII case. */
  function Fold(c: char): char {
    if 'A' <= c <= 'Z' then (c as int + 32) as char else c
  }

  /** SQLite's LIKE without an ESCAPE clause. */
  predicate Like(p: string, t: string)
    decreases |p| + |t|
  {
    if p == "" then t == ""
    else if p[0] == '%' then Like(p[1..], t) || (t != "" && Like(p, t[1..]))
    else t != "" && (p[0] == '_' || Fold(p[0]) == Fold(t[0])) && Like(p[1..], t[1..])
  }

  const MARK: string := "\"inherited_from\""
  const PATTERN: string := "%" + MARK + "%"

  /** p, read character by character, fits the start of t. */
  predicate Fits(p: string, t: string) {
    p == "" || (t != "" && (p[0] == '_' || Fold(p[0]) == Fold(t[0])) && Fits(p[1..], t[1..]))
  }

  /** The mark sits at position i of t. */
  predicate MarkAt(t: string, i: int) {
    0 <= i <= |t| - 16 && Fits(MARK, t[i..i + 16])
  }

  predicate Contains(t: string) {
    exists i :: 0 <= i <= |t| && MarkAt(t, i)
  }

  lemma {:induction false} FitsAt(p: string, t: string, j: int)
    requires Fits(p, t) && 0 <= j < |p|
    ensures j < |t| && (p[j] == '_' || Fold(p[j]) == Fold(t[j]))
  {
    if j > 0 { FitsAt(p[1..], t[1..], j - 1); }
  }

  lemma {:induction false} FitsFromChars(p: string, t: string)
    requires |p| <= |t|
    requires forall j :: 0 <= j < |p| ==> p[j] == '_' || Fold(p[j]) == Fold(t[j])
    ensures Fits(p, t)
  {
    if p != "" {
      forall j | 0 <= j < |p| - 1 ensures p[1..][j] == '_' || Fold(p[1..][j]) == Fold(t[1..][j]) {
        assert p[1..][j] == p[j + 1] && t[1..][j] == t[j + 1];
      }
      FitsFromChars(p[1..], t[1..]);
    }
  }

  /** Only the first |p| characters of t matter. */
  lemma {:induction false} FitsTake(p: string, t: string)
    ensures Fits(p, t) <==> |p| <= |t| && Fits(p, t[..|p|])
  {
    if p != "" && t != "" {
      FitsTake(p[1..], t[1..]);
      if |p| <= |t| { assert t[..|p|][1..] == t[1..][..|p| - 1]; }
    }
  }

  lemma {:induction false} LikeTail(t: string)
    ensures Like("%", t)
  {
    if t != "" { LikeTail(t[1..]); }
  }

  lemma {:induction false} LikePrefix(p: string, t: string)
    requires '%' !in p
    ensures Like(p + "%", t) <==> Fits(p, t)
  {
    if p == "" {
      assert p + "%" == "%";
      LikeTail(t);
    } else {
      assert (p + "%")[0] == p[0] && (p + "%")[1..] == p[1..] + "%";
      if t != "" { LikePrefix(p[1..], t[1..]); }
    }
  }

  lemma ContainsStep(t: string)
    requires t != ""
    ensures Contains(t) <==> MarkAt(t, 0) || Contains(t[1..])
  {
    forall i | MarkAt(t[1..], i) ensures MarkAt(t, i + 1) { assert t[1..][i..i + 16] == t[i + 1..i + 17]; }
    forall i | MarkAt(t, i) && i > 0 ensures MarkAt(t[1..], i - 1) { assert t[1..][i - 1..i + 15] == t[i..i + 16]; }
  }

  /** The query's LIKE is a search for the mark at some position. */
  lemma {:induction false} LikeIsContains(t: string)
    ensures Like(PATTERN, t) <==> Contains(t)
    decreases |t|
  {
    assert PATTERN[0] == '%' && PATTERN[1..] == MARK + "%";
    LikePrefix(MARK, t);
    FitsTake(MARK, t);
    assert Fits(MARK, t) <==> MarkAt(t, 0) by { if |t| >= 16 { assert t[..16] == t[0..16]; } }
    if t != "" {
      LikeIsContains(t[1..]);
      ContainsStep(t);
    } else {
      assert !Contains(t);
    }
  }

  /** Every character of a mark but its wildcard, at 10. */
  lemma MarkChar(t: string, i: int, j: int)
    requires MarkAt(t, i) && 0 <= j < 16 && j != 10
    ensures Fold(t[i + j]) == MARK[j]
  {
    FitsAt(MARK, t[i..i + 16], j);
    assert MARK[j] != '_' && Fold(MARK[j]) == MARK[j];
  }

  // ---------------------------------------------------------------- encoding

  datatype Json =
    | Str(s: string)
    | Num(digits: string)
    | Arr(items: seq<Json>)
    | Obj(members: seq<Member>)

  datatype Member = Member(key: string, value: Json)

  const FORM_FEED: char := '\U{C}'

  /** Characters that `json.dumps` copies unchanged. */
  predicate Plain(c: char) {
    ' ' <= c <= '~' && c != '"' && c != '\\'
  }

  function HexDigit(d: int): (c: char)
    requires 0 <= d < 16
    ensures c != '"' && c != '\\'
  {
    "0123456789abcdef"[d]
  }

  function UnicodeEscape(n: int): (s: string)
    requires 0 <= n < 0x10000
    ensures |s| == 6 && s[0] == '\\' && s[1] == 'u' && '"' !in s
  {
    "\\u" + [HexDigit(n / 4096), HexDigit(n / 256 % 16), HexDigit(n / 16 % 16), HexDigit(n % 16)]
  }

  function EscapeChar(c: char): string {
    if Plain(c) then [c]
    else if c == '"' then "\\\""
    else if c == '\\' then "\\\\"
    else if c == '\n' then "\\n"
    else if c == '\r' then "\\r"
    else if c == '\t' then "\\t"
    else if c == FORM_FEED then "\\f"
    else if c == '\U{8}' then "\\b"
    else if c as int < 0x10000 then UnicodeEscape(c as int)
    else
      var n := c as int - 0x10000;
      UnicodeEscape(0xD800 + n / 1024) + UnicodeEscape(0xDC00 + n % 1024)
  }

  /** The escapes of section 7 of RFC 8259 as `json.dumps` writes them. */
  lemma EscapesAre(c: char)
    ensures EscapeChar('"') == "\\\"" && EscapeChar('\\') == "\\\\" && EscapeChar('\n') == "\\n" && EscapeChar('\r') == "\\r"
    ensures EscapeChar('\t') == "\\t" && EscapeChar('\U{C}') == "\\f" && EscapeChar('\U{8}') == "\\b"
    ensures ' ' <= c <= '~' && c != '"' && c != '\\' ==> EscapeChar(c) == [c]
  {
  }

  function Escape(s: string): string {
    if s == "" then "" else EscapeChar(s[0]) + Escape(s[1..])
  }

  function Literal(s: string): string {
    "\"" + Escape(s) + "\""
  }

  /** `json.dumps` with its default separators and ASCII output. */
  function Dumps(v: Json): string {
    match v
    case Str(s) => Literal(s)
    case Num(d) => d
    case Arr(items) => "[" + DumpsItems(items) + "]"
    case Obj(members) => "{" + DumpsMembers(members) + "}"
  }

  function DumpsItems(items: seq<Json>): string {
    if |items| == 0 then ""
    else if |items| == 1 then Dumps(items[0])
    else Dumps(items[0]) + ", " + DumpsItems(items[1..])
  }

  function DumpsMembers(members: seq<Member>): string {
    if |members| == 0 then ""
    else if |members| == 1 then Literal(members[0].key) + ": " + Dumps(members[0].value)
    else Literal(members[0].key) + ": " + Dumps(members[0].value) + ", " + DumpsMembers(members[1..])
  }

  // ---------------------------------------------------------------- what matches

  /** w spells the word d, in upper or lower case. */
  predicate Spells(w: string, d: string) {
    |w| == |d| && Fits(d, w)
  }

  /** The whole of w is `inherited?from`, where `?` is one character that encodes to
      itself, or `inherited` + form feed + `rom`, whose encoding is `inherited\from`. */
  predicate MarkText(w: string) {
    || (|w| == 14 && Spells(w[..9], "inherited") && Plain(w[9]) && Spells(w[10..], "from"))
    || (|w| == 13 && Spells(w[..9], "inherited") && w[9] == FORM_FEED && Spells(w[10..], "rom"))
  }

  /** s is a mark text, or ends with a quote followed by one. */
  predicate EndsMarked(s: string) {
    exists k :: 0 <= k <= |s| && MarkedFrom(s, k)
  }

  predicate MarkedFrom(s: string, k: int) {
    0 <= k <= |s| && (k == 0 || s[k - 1] == '"') && MarkText(s[k..])
  }

  /** Some string of v, key or value, ends marked. */
  predicate Marked(v: Json) {
    match v
    case Str(s) => EndsMarked(s)
    case Num(_) => false
    case Arr(items) => MarkedItems(items)
    case Obj(members) => MarkedMembers(members)
  }

  predicate MarkedItems(items: seq<Json>) {
    items != [] && (Marked(items[0]) || MarkedItems(items[1..]))
  }

  predicate MarkedMembers(members: seq<Member>) {
    members != [] && (EndsMarked(members[0].key) || Marked(members[0].value) || MarkedMembers(members[1..]))
  }

  /** Number texts hold no quote; nothing else is asked of them. */
  predicate WellFormed(v: Json) {
    match v
    case Str(_) => true
    case Num(d) => '"' !in d
    case Arr(items) => forall x :: x in items ==> WellFormed(x)
    case Obj(members) => forall m :: m in members ==> WellFormed(m.value)
  }

  // ---------------------------------------------------------------- one string literal

  lemma EscapeCharShape(c: char)
    ensures |EscapeChar(c)| >= 1
    ensures !Plain(c) ==> |EscapeChar(c)| >= 2 && EscapeChar(c)[0] == '\\'
    ensures forall p :: 0 <= p < |EscapeChar(c)| && EscapeChar(c)[p] == '"' ==> c == '"' && p == 1
    ensures |EscapeChar(c)| >= 2 && EscapeChar(c)[1] == 'f' ==> c == FORM_FEED
    ensures |EscapeChar(c)| >= 2 ==> EscapeChar(c)[1] != 'F'
  {
  }

  /** Inside an encoded string a quote always follows a backslash. */
  lemma {:induction false} QuoteIsEscaped(s: string, p: int)
    requires 0 <= p < |Escape(s)| && Escape(s)[p] == '"'
    ensures p > 0 && Escape(s)[p - 1] == '\\'
  {
    EscapeCharShape(s[0]);
    var n := |EscapeChar(s[0])|;
    if p >= n {
      QuoteIsEscaped(s[1..], p - n);
      assert Escape(s)[p - 1] == Escape(s[1..])[p - n - 1];
    }
  }

  /** Reading position p of an encoding, past its first character or right after a quote. */
  lemma TailOfEscape(s: string, p: int)
    requires s != "" && 0 < p <= |Escape(s)| && Escape(s)[p - 1] == '"'
    ensures var n := |EscapeChar(s[0])|;
            if p <= n then s[0] == '"' && Escape(s)[p..] == Escape(s[1..])
            else Escape(s)[p - 1] == Escape(s[1..])[p - n - 1] && Escape(s)[p..] == Escape(s[1..])[p - n..]
  {
    EscapeCharShape(s[0]);
    TailOfConcat(EscapeChar(s[0]), Escape(s[1..]), p);
  }

  lemma TailOfConcat(x: string, y: string, p: int)
    requires 0 < p <= |x| + |y|
    ensures if p <= |x| then (x + y)[p - 1] == x[p - 1] && (p == |x| ==> (x + y)[p..] == y)
            else (x + y)[p - 1] == y[p - |x| - 1] && (x + y)[p..] == y[p - |x|..]
  {
  }

  /** The text after an encoded quote encodes what follows that quote. */
  lemma {:induction false} AfterQuote(s: string, p: int) returns (k: int)
    requires 0 <= p <= |Escape(s)| && (p == 0 || Escape(s)[p - 1] == '"')
    ensures 0 <= k <= |s| && Escape(s[k..]) == Escape(s)[p..]
    ensures if p == 0 then k == 0 else k > 0 && s[k - 1] == '"'
  {
    if p == 0 {
      k := 0;
      assert s[0..] == s;
    } else {
      EscapeCharShape(s[0]);
      var n := |EscapeChar(s[0])|;
      TailOfEscape(s, p);
      if p <= n {
        k := 1;
      } else {
        k := AfterQuote(s[1..], p - n);
        k := k + 1;
        assert s[1..][k - 1..] == s[k..];
      }
    }
  }

  lemma DecodeOne(u: string, w: string)
    requires w != "" && |w| <= |Escape(u)| && Escape(u)[..|w|] == w && '\\' !in w
    ensures u != "" && u[0] == w[0] && Escape(u)[1..] == Escape(u[1..]) && Escape(u[1..])[..|w| - 1] == w[1..]
  {
    hide EscapeChar;
    EscapeCharShape(u[0]);
    assert Escape(u)[0] == w[0];
    PlainEscape(u[0]);
  }

  lemma PlainEscape(c: char)
    ensures Plain(c) ==> EscapeChar(c) == [c]
  {
  }

  /** Encoded text without backslashes is the text itself. */
  lemma {:induction false} DecodePlain(u: string, w: string)
    requires |w| <= |Escape(u)| && Escape(u)[..|w|] == w && '\\' !in w
    ensures |w| <= |u| && u[..|w|] == w && Escape(u[|w|..]) == Escape(u)[|w|..]
  {
    if w == "" {
      assert u[0..] == u;
    } else {
      DecodeOne(u, w);
      hide Escape;
      DecodePlain(u[1..], w[1..]);
      assert u[1..][|w| - 1..] == u[|w|..];
      assert Escape(u)[1..][|w| - 1..] == Escape(u)[|w|..];
    }
  }

  lemma {:induction false} EscapePlain(u: string)
    requires forall c :: c in u ==> Plain(c)
    ensures Escape(u) == u
  {
    if u != "" { EscapePlain(u[1..]); }
  }

  lemma {:induction false} EscapeConcat(a: string, b: string)
    ensures Escape(a + b) == Escape(a) + Escape(b)
  {
    if a == "" {
      assert a + b == b;
    } else {
      assert (a + b)[0] == a[0] && (a + b)[1..] == a[1..] + b;
      EscapeConcat(a[1..], b);
    }
  }

  lemma SpelledIsPlain(w: string, d: string)
    requires Spells(w, d) && forall c :: c in d ==> 'a' <= c <= 'z'
    ensures forall c :: c in w ==> Plain(c)
    ensures '\\' !in w
  {
    forall j | 0 <= j < |w| ensures Plain(w[j]) {
      FitsAt(d, w, j);
      assert d[j] in d;
    }
  }

  /** Text whose whole encoding holds no backslash is its own encoding. */
  lemma DecodeAll(u: string)
    requires '\\' !in Escape(u)
    ensures u == Escape(u)
  {
  }

  /** Text that encodes to the inside of the mark is a mark text. */
  lemma DecodeMark(u: string, head: string, c: char, tail: string)
    requires Escape(u) == head + [c] + tail && Spells(head, "inherited") && Spells(tail, "from") && c != '"'
    ensures MarkText(u)
  {
    hide Escape, EscapeChar;
    SpelledIsPlain(head, "inherited");
    SpelledIsPlain(tail, "from");
    if c != '\\' {
      DecodeAll(u);
      EscapedCharIsPlain(u, 9);
      assert u[..9] == head && u[10..] == tail;
    } else {
      assert Escape(u)[..9] == head;
      DecodePlain(u, head);
      assert Escape(u)[9..] == "\\" + tail;
      DecodeFormFeed(u[9..], tail);
      assert u[10..] == u[9..][1..];
    }
  }

  lemma DecodeFormFeed(v: string, f: string)
    requires Escape(v) == "\\" + f && Spells(f, "from") && '\\' !in f
    ensures |v| == 4 && v[0] == FORM_FEED && Spells(v[1..], "rom")
  {
    FitsAt("from", f, 0);
    FormFeedFirst(v[0], Escape(v[1..]), f);
    DecodeAll(v[1..]);
    assert "from"[1..] == "rom";
  }

  lemma FormFeedFirst(c: char, y: string, f: string)
    requires EscapeChar(c) + y == "\\" + f && |f| == 4 && Fold(f[0]) == 'f'
    ensures c == FORM_FEED && y == f[1..]
  {
    var x := EscapeChar(c);
    EscapeCharShape(c);
    assert (x + y)[0] == x[0] == '\\';
    assert (x + y)[1] == x[1] == f[0];
    assert x == "\\f";
    assert (x + y)[2..] == y && ("\\" + f)[2..] == f[1..];
  }

  /** A character that stands unchanged in its own encoding is plain. */
  lemma {:induction false} EscapedCharIsPlain(u: string, k: int)
    requires Escape(u) == u && 0 <= k < |u| && '\\' !in u
    ensures Plain(u[k])
  {
    EscapeCharShape(u[0]);
    assert Escape(u)[0] == EscapeChar(u[0])[0];
    if k > 0 {
      assert Escape(u)[1..] == Escape(u[1..]);
      EscapedCharIsPlain(u[1..], k - 1);
    }
  }

  lemma EscapeAround(head: string, c: char, tail: string)
    requires (forall d :: d in head ==> Plain(d)) && (forall d :: d in tail ==> Plain(d))
    ensures Escape(head + [c] + tail) == head + EscapeChar(c) + tail
  {
    calc {
      Escape(head + [c] + tail);
      { EscapeConcat(head + [c], tail); EscapePlain(tail); }
      Escape(head + [c]) + tail;
      { EscapeConcat(head, [c]); EscapePlain(head); }
      head + Escape([c]) + tail;
      { EscapeOne(c); }
      head + EscapeChar(c) + tail;
    }
  }

  lemma EscapeOne(c: char)
    ensures Escape([c]) == EscapeChar(c)
  {
  }

  /** The inside of the mark, for an encoded mark text. */
  lemma EncodeMark(w: string)
    requires MarkText(w)
    ensures var e := Escape(w); |e| == 14 && Spells(e[..9], "inherited") && Spells(e[10..], "from")
  {
    var head, tail := w[..9], w[10..];
    SpelledIsPlain(head, "inherited");
    SpelledIsPlain(tail, if |w| == 14 then "from" else "rom");
    EscapeAround(head, w[9], tail);
    assert w == head + [w[9]] + tail;
    MarkInside(head, w[9], tail);
  }

  lemma MarkInside(head: string, c: char, tail: string)
    requires Spells(head, "inherited")
    requires (Plain(c) && Spells(tail, "from")) || (c == FORM_FEED && Spells(tail, "rom"))
    ensures var e := head + EscapeChar(c) + tail; |e| == 14 && Spells(e[..9], "inherited") && Spells(e[10..], "from")
  {
    var e := head + EscapeChar(c) + tail;
    assert e[..9] == head;
    if Plain(c) {
      assert e[10..] == tail;
    } else {
      assert e[10..] == "f" + tail;
      assert "from"[1..] == "rom" && ("f" + tail)[1..] == tail;
    }
  }

  /** In an encoded string the mark can only close it: its last quote is not escaped. */
  lemma MarkClosesLiteral(s: string, i: int)
    requires MarkAt(Literal(s), i)
    ensures i + 16 == |Literal(s)|
    ensures i == 0 || Escape(s)[i - 1] == '"'
  {
    var e, t := Escape(s), Literal(s);
    MarkChar(t, i, 0);
    MarkChar(t, i, 14);
    MarkChar(t, i, 15);
    if i + 15 < |t| - 1 {
      assert t[i + 15] == e[i + 14] && t[i + 14] == e[i + 13];
      QuoteIsEscaped(s, i + 14);
      assert false;
    }
  }

  /** The word of the mark that starts at its character k. */
  lemma MarkWord(t: string, i: int, k: int, d: string)
    requires MarkAt(t, i) && 0 <= k <= 16 - |d| && (k + |d| <= 10 || k > 10) && MARK[k..k + |d|] == d
    ensures Spells(t[i + k..i + k + |d|], d)
  {
    var w := t[i + k..i + k + |d|];
    forall j | 0 <= j < |d| ensures Fold(d[j]) == Fold(w[j]) {
      MarkChar(t, i, k + j);
      assert w[j] == t[i + (k + j)] && d[j] == MARK[k + j];
    }
    FitsFromChars(d, w);
  }

  lemma MarkParts(e: string, i: int)
    requires 0 <= i && |e| == i + 14 && MarkAt("\"" + e + "\"", i)
    ensures Spells(e[i..i + 9], "inherited") && Spells(e[i + 10..], "from") && Fold(e[i + 8]) == 'd'
    ensures e[i..] == e[i..i + 9] + [e[i + 9]] + e[i + 10..]
  {
    var t := "\"" + e + "\"";
    MarkWord(t, i, 1, "inherited");
    MarkWord(t, i, 11, "from");
    MarkChar(t, i, 9);
    assert t[i + 1..i + 10] == e[i..i + 9] && t[i + 11..i + 15] == e[i + 10..];
  }

  lemma MatchEndsMarked(s: string, i: int)
    requires MarkAt(Literal(s), i)
    ensures EndsMarked(s)
  {
    var e := Escape(s);
    MarkClosesLiteral(s, i);
    MarkParts(e, i);
    if e[i + 9] == '"' {
      QuoteIsEscaped(s, i + 9);
      assert false;
    }
    var k := AfterQuote(s, i);
    DecodeMark(s[k..], e[i..i + 9], e[i + 9], e[i + 10..]);
    assert MarkedFrom(s, k);
  }

  /** The character in front of encoded position |Escape(pre)| of a literal is a quote. */
  lemma QuoteBefore(pre: string, f: string)
    requires pre == "" || pre[|pre| - 1] == '"'
    ensures ("\"" + Escape(pre) + f)[|Escape(pre)|] == '"'
  {
  }

  lemma QuotedMarkFits(f: string)
    requires |f| == 14 && Spells(f[..9], "inherited") && Spells(f[10..], "from")
    ensures Fits(MARK, "\"" + f + "\"")
  {
    var w := "\"" + f + "\"";
    forall j | 0 <= j < 16 ensures MARK[j] == '_' || Fold(MARK[j]) == Fold(w[j]) {
      if 1 <= j <= 9 {
        FitsAt("inherited", f[..9], j - 1);
        assert MARK[j] == "inherited"[j - 1];
      } else if 11 <= j <= 14 {
        FitsAt("from", f[10..], j - 11);
        assert MARK[j] == "from"[j - 11];
      }
    }
    FitsFromChars(MARK, w);
  }

  lemma EndsMarkedMatches(pre: string, w: string)
    requires (pre == "" || pre[|pre| - 1] == '"') && MarkText(w)
    ensures MarkAt(Literal(pre + w), |Escape(pre)|)
  {
    var f := Escape(w);
    EncodeMark(w);
    QuotedMarkFits(f);
    QuoteBefore(pre, f + "\"");
    EscapeConcat(pre, w);
    MarkAtEnd(Escape(pre), f);
  }

  lemma MarkAtEnd(p: string, f: string)
    requires |f| == 14 && ("\"" + p + (f + "\""))[|p|] == '"' && Fits(MARK, "\"" + f + "\"")
    ensures MarkAt("\"" + (p + f) + "\"", |p|)
  {
    var t := "\"" + (p + f) + "\"";
    assert t == "\"" + p + (f + "\"");
    assert t[|p|..|p| + 16] == "\"" + f + "\"";
  }

  /** An encoded string matches exactly when it ends marked, however often the marked text,
      quoted or not, occurs elsewhere in it. */
  lemma LiteralMatches(s: string)
    ensures Contains(Literal(s)) <==> EndsMarked(s)
  {
    forall i | MarkAt(Literal(s), i) ensures EndsMarked(s) { MatchEndsMarked(s, i); }
    forall k | MarkedFrom(s, k) ensures MarkAt(Literal(s), |Escape(s[..k])|) {
      EndsMarkedMatches(s[..k], s[k..]);
      assert s == s[..k] + s[k..];
    }
  }

  // ---------------------------------------------------------------- whole values

  predicate Punctuation(c: char) {
    c in {' ', ',', ':', '[', ']', '{', '}'}
  }

  /** A mark never covers punctuation that is not followed by an f. */
  lemma NoMarkAcross(t: string, i: int, n: int)
    requires MarkAt(t, i) && 0 <= n < |t| && Punctuation(t[n])
    requires n == 0 || n == |t| - 1 || Fold(t[n + 1]) != 'f'
    ensures n < i || i + 16 <= n
  {
    if i <= n < i + 16 {
      MarkChar(t, i, if n - i == 10 then 11 else n - i);
      assert false;
    }
  }

  lemma SliceOf(l: string, m: string, r: string, i: int)
    requires 0 <= i <= |m| - 16
    ensures (l + m + r)[|l| + i..|l| + i + 16] == m[i..i + 16]
  {
  }

  lemma MarkOnOneSide(a: string, c: char, b: string, i: int)
    requires Punctuation(c) && (a == "" || b == "" || Fold(b[0]) != 'f')
    requires MarkAt(a + [c] + b, i)
    ensures MarkAt(a, i) || MarkAt(b, i - |a| - 1)
  {
    var t := a + [c] + b;
    assert b != "" ==> t[|a| + 1] == b[0];
    NoMarkAcross(t, i, |a|);
    if i + 16 <= |a| {
      SliceOf("", a, [c] + b, i);
      assert t == "" + a + ([c] + b);
    } else {
      SliceOf(a + [c], b, "", i - |a| - 1);
      assert t == (a + [c]) + b + "";
    }
  }

  /** So a text cut at such punctuation matches exactly when one of its parts does. */
  lemma CutAt(a: string, c: char, b: string)
    requires Punctuation(c) && (a == "" || b == "" || Fold(b[0]) != 'f')
    ensures Contains(a + [c] + b) <==> Contains(a) || Contains(b)
  {
    var t := a + [c] + b;
    if i :| MarkAt(t, i) {
      MarkOnOneSide(a, c, b, i);
    }
    if i :| MarkAt(a, i) {
      SliceOf("", a, [c] + b, i);
      assert t == "" + a + ([c] + b);
      assert MarkAt(t, i);
    }
    if i :| MarkAt(b, i) {
      SliceOf(a + [c], b, "", i);
      assert t == (a + [c]) + b + "";
      assert MarkAt(t, |a + [c]| + i);
    }
  }

  lemma ShortIsUnmarked(t: string)
    requires |t| < 16
    ensures !Contains(t)
  {
  }

  lemma CutSeparator(a: string, sep: string, b: string)
    requires sep == ", " || sep == ": "
    ensures Contains(a + sep + b) <==> Contains(a) || Contains(b)
  {
    CutAt(a, sep[0], " " + b);
    CutAt("", ' ', b);
    ShortIsUnmarked("");
    assert a + sep + b == a + [sep[0]] + (" " + b);
    assert "" + [' '] + b == " " + b;
  }

  lemma CutBrackets(open: string, a: string, close: string)
    requires open in {"[", "{"} && close in {"]", "}"}
    ensures Contains(open + a + close) <==> Contains(a)
  {
    CutAt("", open[0], a + close);
    CutAt(a, close[0], "");
    ShortIsUnmarked("");
    assert open + a + close == "" + [open[0]] + (a + close);
    assert a + [close[0]] + "" == a + close;
  }

  /** Main result on values: encoded JSON matches exactly when one of its strings ends marked. */
  lemma {:induction false} DumpsMatches(v: Json)
    requires WellFormed(v)
    ensures Contains(Dumps(v)) <==> Marked(v)
    decreases v, 1
  {
    match v
    case Str(s) => LiteralMatches(s);
    case Num(d) =>
      if i :| MarkAt(d, i) {
        MarkChar(d, i, 0);
        assert false;
      }
    case Arr(items) =>
      CutBrackets("[", DumpsItems(items), "]");
      ItemsMatch(items);
    case Obj(members) =>
      CutBrackets("{", DumpsMembers(members), "}");
      MembersMatch(members);
  }

  lemma {:induction false} ItemsMatch(items: seq<Json>)
    requires forall x :: x in items ==> WellFormed(x)
    ensures Contains(DumpsItems(items)) <==> MarkedItems(items)
    decreases items, 0
  {
    if |items| == 0 {
      ShortIsUnmarked("");
    } else {
      DumpsMatches(items[0]);
      if |items| == 1 {
        assert !MarkedItems(items[1..]);
      } else {
        ItemsMatch(items[1..]);
        CutSeparator(Dumps(items[0]), ", ", DumpsItems(items[1..]));
      }
    }
  }

  lemma {:induction false} MembersMatch(members: seq<Member>)
    requires forall m :: m in members ==> WellFormed(m.value)
    ensures Contains(DumpsMembers(members)) <==> MarkedMembers(members)
    decreases members, 0
  {
    if |members| == 0 {
      ShortIsUnmarked("");
    } else {
      var key, value := Literal(members[0].key), Dumps(members[0].value);
      LiteralMatches(members[0].key);
      DumpsMatches(members[0].value);
      CutSeparator(key, ": ", value);
      if |members| == 1 {
        assert !MarkedMembers(members[1..]);
      } else {
        MembersMatch(members[1..]);
        CutSeparator(key + ": " + value, ", ", DumpsMembers(members[1..]));
      }
    }
  }

  // ---------------------------------------------------------------- the two shapes of llm_inputs

  const STRING_TYPE: Json := Obj([Member("type", Str("string"))])
  const CATEGORY_SCHEMA: Json := Obj([
    Member("type", Str("string")),
    Member("enum", Arr([Str("likely_fp"), Str("suspicious_investigate"), Str("likely_tp")]))])
  const FACTS_SCHEMA: Json := Obj([Member("type", Str("array")), Member("items", STRING_TYPE)])
  const PROPERTIES: Json := Obj([
    Member("verdict_category", CATEGORY_SCHEMA),
    Member("confidence_score", Obj([Member("type", Str("number"))])),
    Member("reasoning", STRING_TYPE),
    Member("contributing_facts", FACTS_SCHEMA)])
  const REQUIRED: Json :=
    Arr([Str("verdict_category"), Str("confidence_score"), Str("reasoning"), Str("contributing_facts")])

  /** The schema every produced verdict records beside its prompt. */
  const OUTPUT_SCHEMA: Json := Obj([
    Member("type", Str("object")), Member("properties", PROPERTIES), Member("required", REQUIRED)])

  /** `json.dumps({"inherited_from": source_verdict_id})`. */
  function InheritedInputs(source: string): string {
    Dumps(Obj([Member("inherited_from", Str(source))]))
  }

  /** `json.dumps(response.llm_inputs)` for the production LLM client. */
  function ProducedInputs(prompt: string): string {
    Dumps(Obj([Member("prompt", Str(prompt)), Member("output_schema", OUTPUT_SCHEMA)]))
  }

  /** Too short to hold the mark, or not ending in m. */
  predicate Harmless(s: string) {
    |s| < 13 || Fold(s[|s| - 1]) != 'm'
  }

  predicate HarmlessJson(v: Json) {
    match v
    case Str(s) => Harmless(s)
    case Num(d) => '"' !in d
    case Arr(items) => forall i :: 0 <= i < |items| ==> HarmlessJson(items[i])
    case Obj(members) => forall i :: 0 <= i < |members| ==> Harmless(members[i].key) && HarmlessJson(members[i].value)
  }

  lemma HarmlessString(s: string)
    requires Harmless(s)
    ensures !EndsMarked(s)
  {
    if k :| MarkedFrom(s, k) {
      MarkTextEnd(s[k..]);
      assert false;
    }
  }

  lemma MarkTextEnd(w: string)
    requires MarkText(w)
    ensures |w| >= 13 && Fold(w[|w| - 1]) == 'm'
  {
    if |w| == 14 {
      FitsAt("from", w[10..], 3);
    } else {
      FitsAt("rom", w[10..], 2);
    }
  }

  lemma {:induction false} HarmlessIsUnmarked(v: Json)
    requires HarmlessJson(v)
    ensures WellFormed(v) && !Marked(v)
    decreases v, 1
  {
    match v
    case Str(s) => HarmlessString(s);
    case Num(_) =>
    case Arr(items) =>
      forall i | 0 <= i < |items| ensures WellFormed(items[i]) && !Marked(items[i]) { HarmlessIsUnmarked(items[i]); }
      UnmarkedItems(items);
    case Obj(members) =>
      forall i | 0 <= i < |members|
        ensures WellFormed(members[i].value) && !Marked(members[i].value) && !EndsMarked(members[i].key)
      {
        HarmlessString(members[i].key);
        HarmlessIsUnmarked(members[i].value);
      }
      UnmarkedMembers(members);
  }

  lemma {:induction false} UnmarkedItems(items: seq<Json>)
    requires forall i :: 0 <= i < |items| ==> !Marked(items[i])
    ensures !MarkedItems(items)
  {
    if items != [] { UnmarkedItems(items[1..]); }
  }

  lemma {:induction false} UnmarkedMembers(members: seq<Member>)
    requires forall i :: 0 <= i < |members| ==> !EndsMarked(members[i].key) && !Marked(members[i].value)
    ensures !MarkedMembers(members)
  {
    if members != [] { UnmarkedMembers(members[1..]); }
  }

  lemma SchemaIsHarmless()
    ensures HarmlessJson(OUTPUT_SCHEMA)
  {
    PropertiesAreHarmless();
    assert HarmlessJson(REQUIRED);
  }

  lemma PropertiesAreHarmless()
    ensures HarmlessJson(PROPERTIES)
  {
    assert HarmlessJson(STRING_TYPE);
    assert HarmlessJson(CATEGORY_SCHEMA) by {
      assert HarmlessJson(Arr([Str("likely_fp"), Str("suspicious_investigate"), Str("likely_tp")]));
    }
    assert HarmlessJson(FACTS_SCHEMA);
    assert HarmlessJson(Obj([Member("type", Str("number"))]));
  }

  lemma SpellsItself(d: string)
    ensures Spells(d, d)
  {
    FitsFromChars(d, d);
  }

  lemma KeyIsMarked()
    ensures EndsMarked("inherited_from")
  {
    var k := "inherited_from";
    SpellsItself("inherited");
    SpellsItself("from");
    assert k[0..] == k && k[..9] == "inherited" && k[10..] == "from";
    assert MarkedFrom(k, 0);
  }

  /** Every inherited verdict is excluded by the query, whatever its source id. */
  lemma InheritedAlwaysMatches(source: string)
    ensures Like(PATTERN, InheritedInputs(source))
  {
    var v := Obj([Member("inherited_from", Str(source))]);
    KeyIsMarked();
    assert WellFormed(v) by { assert WellFormed(Str(source)); }
    assert Marked(v) by { assert MarkedMembers(v.members); }
    DumpsMatches(v);
    LikeIsContains(InheritedInputs(source));
  }

  /** A produced verdict is excluded exactly when its prompt ends marked. */
  lemma ProducedMatches(prompt: string)
    ensures Like(PATTERN, ProducedInputs(prompt)) <==> EndsMarked(prompt)
  {
    var p, o := Member("prompt", Str(prompt)), Member("output_schema", OUTPUT_SCHEMA);
    SchemaIsHarmless();
    HarmlessIsUnmarked(OUTPUT_SCHEMA);
    HarmlessString("prompt");
    HarmlessString("output_schema");
    assert [p, o][1..] == [o] && [o][1..] == [];
    assert MarkedMembers([p, o]) <==> EndsMarked(prompt) || MarkedMembers([o]);
    assert !MarkedMembers([o]);
    assert WellFormed(Str(prompt));
    DumpsMatches(Obj([p, o]));
    LikeIsContains(ProducedInputs(prompt));
  }

  /** The quoted mark inside a prompt is harmless; only at the very end does it count. */
  lemma QuotedInsidePrompt()
    ensures !Like(PATTERN, ProducedInputs("see \"inherited_from\" above"))
    ensures Like(PATTERN, ProducedInputs("inherited_from"))
  {
    HarmlessString("see \"inherited_from\" above");
    ProducedMatches("see \"inherited_from\" above");
    KeyIsMarked();
    ProducedMatches("inherited_from");
  }

  /** w is the word d, each letter in lower or upper case. */
  predicate Letters(w: string, d: string) {
    |w| == |d| && forall i :: 0 <= i < |d| ==> 'a' <= d[i] <= 'z' && (w[i] == d[i] || w[i] == d[i] - 'a' + 'A')
  }

  lemma SpellsExactly(w: string, d: string)
    requires forall i :: 0 <= i < |d| ==> 'a' <= d[i] <= 'z'
    ensures Spells(w, d) <==> Letters(w, d)
  {
    if Spells(w, d) {
      forall i | 0 <= i < |d| ensures w[i] == d[i] || w[i] == d[i] - 'a' + 'A' { FitsAt(d, w, i); }
    }
    if Letters(w, d) { FitsFromChars(d, w); }
  }

  /** From k on, at the start of the prompt or behind a quote, stands `inherited?from` with one
      printable character other than quote and backslash, or `inherited`, a form feed and `rom`. */
  predicate SpelledMark(s: string, k: int) {
    && 0 <= k <= |s| && (k == 0 || s[k - 1] == '"')
    && var w := s[k..];
       || (|w| == 14 && Letters(w[..9], "inherited") && ' ' <= w[9] <= '~' && w[9] != '"' && w[9] != '\\' && Letters(w[10..], "from"))
       || (|w| == 13 && Letters(w[..9], "inherited") && w[9] == '\U{C}' && Letters(w[10..], "rom"))
  }

  /** Exactly which prompts make the query take a produced verdict for an inherited one. */
  lemma PromptTakenExactlyWhen(prompt: string)
    ensures Like("%\"inherited_from\"%", ProducedInputs(prompt)) <==> exists k :: SpelledMark(prompt, k)
  {
    assert PATTERN == "%\"inherited_from\"%";
    hide Like, ProducedInputs, Spells, Letters;
    ProducedMatches(prompt);
    forall k ensures MarkedFrom(prompt, k) <==> SpelledMark(prompt, k) { MarkSpelled(prompt, k); }
    hide MarkedFrom, SpelledMark;
    if k :| SpelledMark(prompt, k) {
      assert MarkedFrom(prompt, k);
      MarkInRange(prompt, k);
    }
  }

  lemma MarkInRange(s: string, k: int)
    requires MarkedFrom(s, k)
    ensures 0 <= k <= |s|
  {
  }

  lemma MarkSpelled(s: string, k: int)
    ensures MarkedFrom(s, k) <==> SpelledMark(s, k)
  {
    hide Spells, Letters;
    if 0 <= k <= |s| {
      var w := s[k..];
      if |w| >= 13 {
        SpellsExactly(w[..9], "inherited");
        SpellsExactly(w[10..], "from");
        SpellsExactly(w[10..], "rom");
      }
    }
  }

  /** This prompt nowhere spells `inherited?from`, yet its verdict is taken for an inherited
      one: a form feed encodes as a backslash and an f. */
  lemma FormFeedPrompt()
    ensures Like(PATTERN, ProducedInputs("inherited" + [FORM_FEED] + "rom"))
  {
    var b := "inherited" + [FORM_FEED] + "rom";
    SpellsItself("inherited");
    SpellsItself("rom");
    assert b[0..] == b && b[..9] == "inherited" && b[10..] == "rom";
    assert MarkedFrom(b, 0);
    ProducedMatches(b);
  }

  /** The two shapes never coincide. */
  lemma ShapesDiffer(source: string, prompt: string)
    ensures InheritedInputs(source) != ProducedInputs(prompt)
  {
    ObjectStart([Member("inherited_from", Str(source))]);
    ObjectStart([Member("prompt", Str(prompt)), Member("output_schema", OUTPUT_SCHEMA)]);
  }

  lemma ObjectStart(members: seq<Member>)
    requires members != [] && members[0].key != "" && Plain(members[0].key[0])
    ensures var t := Dumps(Obj(members)); |t| > 2 && t[2] == members[0].key[0]
  {
  }

  // ---------------------------------------------------------------- encoding is injective

  lemma UnicodeEscapeInjective(m: int, n: int)
    requires 0 <= m < 0x10000 && 0 <= n < 0x10000 && UnicodeEscape(m) == UnicodeEscape(n)
    ensures m == n
  {
    hide HexDigit;
    var a, b := UnicodeEscape(m), UnicodeEscape(n);
    assert a[2] == b[2] && a[3] == b[3] && a[4] == b[4] && a[5] == b[5];
    HexDigitInjective(m / 4096, n / 4096);
    HexDigitInjective(m / 256 % 16, n / 256 % 16);
    HexDigitInjective(m / 16 % 16, n / 16 % 16);
    HexDigitInjective(m % 16, n % 16);
    HexSplit(m);
    HexSplit(n);
  }

  lemma HexDigitInjective(i: int, j: int)
    requires 0 <= i < 16 && 0 <= j < 16 && HexDigit(i) == HexDigit(j)
    ensures i == j
  {
  }

  lemma HexSplit(n: int)
    requires 0 <= n < 0x10000
    ensures n == n / 4096 * 4096 + n / 256 % 16 * 256 + n / 16 % 16 * 16 + n % 16
  {
    assert n / 16 == n / 256 * 16 + n / 16 % 16;
    assert n / 256 == n / 4096 * 16 + n / 256 % 16;
  }

  /** Escapes of the form \uXXXX: one for the basic plane, a surrogate pair beyond it. */
  predicate LongEscape(c: char) {
    |EscapeChar(c)| >= 6
  }

  lemma LongEscapesDiffer(c: char, d: char, x: string, y: string)
    requires LongEscape(c) && LongEscape(d) && EscapeChar(c) + x == EscapeChar(d) + y
    ensures c == d
  {
    hide UnicodeEscape;
    var s, t := EscapeChar(c) + x, EscapeChar(d) + y;
    var m := if c as int < 0x10000 then c as int else 0xD800 + (c as int - 0x10000) / 1024;
    var n := if d as int < 0x10000 then d as int else 0xD800 + (d as int - 0x10000) / 1024;
    assert s[..6] == UnicodeEscape(m) && t[..6] == UnicodeEscape(n);
    UnicodeEscapeInjective(m, n);
    if c as int >= 0x10000 {
      var p, q := 0xDC00 + (c as int - 0x10000) % 1024, 0xDC00 + (d as int - 0x10000) % 1024;
      assert s[6..12] == UnicodeEscape(p) && t[6..12] == UnicodeEscape(q);
      UnicodeEscapeInjective(p, q);
    }
  }

  lemma EscapeCharPrefixFree(c: char, d: char, x: string, y: string)
    requires EscapeChar(c) + x == EscapeChar(d) + y
    ensures c == d && x == y
  {
    hide EscapeChar;
    EscapeCharShape(c);
    EscapeCharShape(d);
    var s := EscapeChar(c) + x;
    assert s[0] == EscapeChar(c)[0] == EscapeChar(d)[0];
    if |EscapeChar(c)| >= 2 && |EscapeChar(d)| >= 2 { assert s[1] == EscapeChar(c)[1] == EscapeChar(d)[1]; }
    FirstCharsDecide(c, d);
    if LongEscape(c) && LongEscape(d) { LongEscapesDiffer(c, d, x, y); }
    assert s[|EscapeChar(c)|..] == x;
    assert (EscapeChar(d) + y)[|EscapeChar(d)|..] == y;
  }

  lemma FirstCharsDecide(c: char, d: char)
    requires EscapeChar(c)[0] == EscapeChar(d)[0]
    requires |EscapeChar(c)| >= 2 && |EscapeChar(d)| >= 2 ==> EscapeChar(c)[1] == EscapeChar(d)[1]
    ensures c == d || (LongEscape(c) && LongEscape(d))
  {
  }

  lemma {:induction false} EscapeInjective(a: string, b: string)
    requires Escape(a) == Escape(b)
    ensures a == b
  {
    if a == "" || b == "" {
      if a != b { EscapeCharShape(if a == "" then b[0] else a[0]); }
    } else {
      EscapeCharPrefixFree(a[0], b[0], Escape(a[1..]), Escape(b[1..]));
      EscapeInjective(a[1..], b[1..]);
    }
  }

  /** The text of an inherited row names one source only. */
  lemma InheritedInjective(a: string, b: string)
    requires InheritedInputs(a) == InheritedInputs(b)
    ensures a == b
  {
    var l := "{" + (Literal("inherited_from") + ": ") + "\"";
    InheritedText(a);
    InheritedText(b);
    assert (l + Escape(a) + "\"}")[|l|..|l| + |Escape(a)|] == Escape(a);
    assert (l + Escape(b) + "\"}")[|l|..|l| + |Escape(b)|] == Escape(b);
    EscapeInjective(a, b);
  }

  lemma InheritedText(a: string)
    ensures InheritedInputs(a) == "{" + (Literal("inherited_from") + ": ") + "\"" + Escape(a) + "\"}"
  {
    hide Escape;
    var m := Member("inherited_from", Str(a));
    assert DumpsMembers([m]) == Literal(m.key) + ": " + Dumps(m.value);
  }

  /** The text of a produced row: the prompt, then the schema. */
  lemma ProducedText(prompt: string)
    ensures ProducedInputs(prompt) == "{" + (Literal("prompt") + ": " + Literal(prompt) + ", "
              + (Literal("output_schema") + ": " + Dumps(OUTPUT_SCHEMA))) + "}"
  {
    hide Escape;
    var p, o := Member("prompt", Str(prompt)), Member("output_schema", OUTPUT_SCHEMA);
    assert [p, o][1..] == [o];
    assert DumpsMembers([o]) == Literal(o.key) + ": " + Dumps(o.value);
    assert DumpsMembers([p, o]) == Literal(p.key) + ": " + Dumps(p.value) + ", " + DumpsMembers([o]);
  }
}
