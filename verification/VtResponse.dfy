/** The parser of VirusTotal responses on decoded JSON, exception by exception.

    A response may be any JSON value.  What Python raises on each access decides whether the
    client contributes a report, calls the response malformed, or lets the exception through. */
module VtResponse {
  import opened Optional

  datatype Value =
    | Null
    | Bool(b: bool)
    | Number(n: real)
    | Text(s: string)
    | List(items: seq<Value>)
    | Dict(fields: seq<Field>)

  datatype Field = Field(key: string, value: Value)

  /** What an expression does: it has a value or raises. */
  datatype Py<+T> = Ok(value: T) | KeyError | TypeError | AttributeError {
    predicate IsFailure() {
      !Ok?
    }

    function PropagateFailure<U>(): Py<U>
      requires IsFailure()
    {
      match this
      case KeyError => KeyError
      case TypeError => TypeError
      case AttributeError => AttributeError
    }

    function Extract(): T
      requires !IsFailure()
    {
      value
    }
  }

  // ---------------------------------------------------------------- Python's accesses

  /** The value of a key; of equal keys the last one counts. */
  function Entry(fields: seq<Field>, key: string): Option<Value> {
    if fields == [] then None
    else
      var later := Entry(fields[1..], key);
      if later.Some? then later else if fields[0].key == key then Some(fields[0].value) else None
  }

  /** `v.get(key)`. */
  function DotGet(v: Value, key: string): Py<Option<Value>> {
    if v.Dict? then Ok(Entry(v.fields, key)) else AttributeError
  }

  /** `v[key]`. */
  function Subscript(v: Value, key: string): Py<Value> {
    if !v.Dict? then TypeError
    else
      var e := Entry(v.fields, key);
      if e.Some? then Ok(e.value) else KeyError
  }

  predicate Truthy(v: Value) {
    match v
    case Null => false
    case Bool(b) => b
    case Number(n) => n != 0.0
    case Text(s) => s != ""
    case List(items) => items != []
    case Dict(fields) => fields != []
  }

  predicate Numeric(v: Value) {
    v.Number? || v.Bool?
  }

  function NumberOf(v: Value): real {
    if v.Number? then v.n else if v.Bool? && v.b then 1.0 else 0.0
  }

  /** `sum(d.values())`. */
  function Sum(fields: seq<Field>): Py<real> {
    if fields == [] then Ok(0.0)
    else
      var rest :- Sum(fields[1..]);
      if Entry(fields[1..], fields[0].key).Some? then Ok(rest)
      else if Numeric(fields[0].value) then Ok(rest + NumberOf(fields[0].value))
      else TypeError
  }

  function Add(a: Value, b: Value): Py<real> {
    if Numeric(a) && Numeric(b) then Ok(NumberOf(a) + NumberOf(b)) else TypeError
  }

  function Or(o: Option<Value>, default: Value): Value {
    if o.Some? then o.value else default
  }

  // ---------------------------------------------------------------- the parser

  datatype Report =
    | NotInDatabase
    | Stats(malicious: Value, suspicious: Value, total: real, flagged: real, reputation: Option<Value>)

  datatype Parsed = Contributes(report: Report) | Malformed | Raises

  /** The body of the `try`. */
  function Read(raw: Value): Py<Report> {
    var data :- Subscript(raw, "data");
    var attrs :- Subscript(data, "attributes");
    ReadAttributes(attrs)
  }

  function ReadAttributes(attrs: Value): Py<Report> {
    var found :- DotGet(attrs, "last_analysis_stats");
    var stats := Or(found, Dict([]));
    var malicious :- DotGet(stats, "malicious");
    var suspicious :- DotGet(stats, "suspicious");
    var total :- if Truthy(stats) then Sum(stats.fields) else Ok(0.0);
    var reputation :- DotGet(attrs, "reputation");
    var m, s := Or(malicious, Number(0.0)), Or(suspicious, Number(0.0));
    var flagged :- Add(m, s);
    Ok(Stats(m, s, total, flagged, reputation))
  }

  /** `_parse_vt_response`: KeyError and TypeError are caught, AttributeError is not. */
  function ParseResponse(raw: Value): Parsed {
    match DotGet(raw, "_not_found")
    case Ok(flag) =>
      if flag.Some? && Truthy(flag.value) then Contributes(NotInDatabase)
      else
        (match Read(raw)
         case Ok(report) => Contributes(report)
         case AttributeError => Raises
         case _ => Malformed)
    case _ => Raises
  }

  // ---------------------------------------------------------------- which responses do what

  function Child(v: Value, key: string): Option<Value> {
    if v.Dict? then Entry(v.fields, key) else None
  }

  /** The value at a path of keys, if every step on the way is an object that has the key. */
  function At(v: Value, path: seq<string>): Option<Value>
    decreases |path|
  {
    if path == [] then Some(v)
    else
      var e := Child(v, path[0]);
      if e.None? then None else At(e.value, path[1..])
  }

  const ATTRIBUTES := ["data", "attributes"]
  const STATS := ["data", "attributes", "last_analysis_stats"]

  /** The response marks a 404. */
  predicate Flagged(raw: Value) {
    At(raw, ["_not_found"]).Some? && Truthy(At(raw, ["_not_found"]).value)
  }

  predicate NoObjectAt(raw: Value, path: seq<string>) {
    At(raw, path).Some? && !At(raw, path).value.Dict?
  }

  /** Every value of the object is a number; booleans are numbers. */
  ghost predicate AllNumeric(fields: seq<Field>) {
    forall key :: Entry(fields, key).Some? ==> Entry(fields, key).value.Number? || Entry(fields, key).value.Bool?
  }

  ghost predicate StatsNotNumeric(raw: Value) {
    At(raw, STATS).Some? && At(raw, STATS).value.Dict? && !AllNumeric(At(raw, STATS).value.fields)
  }

  lemma {:induction false} SumOfNumbers(fields: seq<Field>)
    ensures Sum(fields).Ok? <==> AllNumeric(fields)
    ensures !Sum(fields).Ok? ==> Sum(fields).TypeError?
  {
    if fields != [] {
      var f, rest := fields[0], fields[1..];
      SumOfNumbers(rest);
      assert forall key :: key != f.key ==> Entry(fields, key) == Entry(rest, key);
      assert Entry(fields, f.key).Some?;
      if AllNumeric(fields) {
        forall key | Entry(rest, key).Some? ensures Numeric(Entry(rest, key).value) {
          assert Entry(fields, key) == Entry(rest, key);
        }
      }
    }
  }

  lemma AtOne(v: Value, k: string)
    ensures At(v, [k]) == Child(v, k)
  {
    hide Child;
    assert [k][1..] == [];
  }

  lemma AtTwo(v: Value, k: string, l: string)
    ensures At(v, [k, l]) == if Child(v, k).None? then None else Child(Child(v, k).value, l)
  {
    hide Child;
    assert [k, l][1..] == [l];
    if Child(v, k).Some? { AtOne(Child(v, k).value, l); }
  }

  lemma AtThree(v: Value, k: string, l: string, m: string)
    ensures At(v, [k, l, m]) == if At(v, [k, l]).None? then None else Child(At(v, [k, l]).value, m)
  {
    hide Child;
    AtTwo(v, k, l);
    assert [k, l, m][1..] == [l, m];
    if Child(v, k).Some? { AtTwo(Child(v, k).value, l, m); }
  }

  ghost predicate GoodStats(stats: Value) {
    stats.Dict? && AllNumeric(stats.fields)
  }

  /** What becomes of the attributes: an exception that is let through, one that is caught, or a
      report whose counts are those of the statistics. */
  lemma AttributesRead(attrs: Value)
    ensures var stats := Or(Child(attrs, "last_analysis_stats"), Dict([]));
            && (ReadAttributes(attrs).AttributeError? <==> !attrs.Dict? || !stats.Dict?)
            && (ReadAttributes(attrs).Ok? <==> attrs.Dict? && GoodStats(stats))
  {
    var stats := Or(Child(attrs, "last_analysis_stats"), Dict([]));
    assert AllNumeric([]);
    hide Entry, Sum, Truthy;
    if attrs.Dict? && stats.Dict? {
      SumOfNumbers(stats.fields);
      EmptyIsFalse(stats);
    }
  }

  lemma EmptyIsFalse(v: Value)
    ensures v.Dict? && !Truthy(v) ==> v == Dict([])
  {
  }

  /** Every response does exactly one of three things.  It raises when it is no object, or when
      it marks no 404 and something other than an object stands at `data.attributes` or at
      `data.attributes.last_analysis_stats`; it is malformed when it marks no 404 and has
      nothing at `data.attributes`, or statistics that are not all numbers; otherwise it
      contributes. */
  lemma ParsesExactly(raw: Value)
    ensures ParseResponse(raw).Raises? <==>
      !raw.Dict? || (!Flagged(raw) && (NoObjectAt(raw, ATTRIBUTES) || NoObjectAt(raw, STATS)))
    ensures ParseResponse(raw).Malformed? <==>
      raw.Dict? && !Flagged(raw) && (At(raw, ATTRIBUTES).None? || StatsNotNumeric(raw))
    ensures ParseResponse(raw) == Contributes(NotInDatabase) <==> Flagged(raw)
  {
    hide Entry, At, ReadAttributes, Truthy;
    AtOne(raw, "_not_found");
    AtTwo(raw, "data", "attributes");
    AtThree(raw, "data", "attributes", "last_analysis_stats");
    if At(raw, ATTRIBUTES).Some? {
      AttributesRead(At(raw, ATTRIBUTES).value);
      ReadsNoMark(At(raw, ATTRIBUTES).value);
    }
    NoStats();
  }

  lemma ReadsNoMark(attrs: Value)
    ensures ReadAttributes(attrs) != Ok(NotInDatabase) && !ReadAttributes(attrs).KeyError?
  {
    hide Entry, Truthy;
    var stats := Or(Child(attrs, "last_analysis_stats"), Dict([]));
    if stats.Dict? { SumOfNumbers(stats.fields); }
    hide Sum;
  }

  lemma NoStats()
    ensures AllNumeric([])
  {
  }

  // ---------------------------------------------------------------- what a report says

  lemma {:induction false} SumHolds(fields: seq<Field>, k: string, l: string)
    requires Sum(fields).Ok? && k != l && forall key :: Entry(fields, key).Some? ==> NumberOf(Entry(fields, key).value) >= 0.0
    ensures Sum(fields).value >= NumberOf(Or(Entry(fields, k), Number(0.0))) + NumberOf(Or(Entry(fields, l), Number(0.0)))
    ensures Sum(fields).value >= 0.0
  {
    if fields != [] {
      var f, rest := fields[0], fields[1..];
      assert forall key :: key != f.key ==> Entry(fields, key) == Entry(rest, key);
      assert Entry(fields, f.key).Some?;
      assert forall key :: Entry(rest, key).Some? ==> Entry(fields, key) == Entry(rest, key);
      SumHolds(rest, k, l);
    }
  }

  // ---------------------------------------------------------------- the total

  predicate NoRepeat(keys: seq<string>) {
    forall i, j :: 0 <= i < j < |keys| ==> keys[i] != keys[j]
  }

  /** The keys are exactly those the object has. */
  ghost predicate Lists(keys: seq<string>, fields: seq<Field>) {
    NoRepeat(keys) && forall key :: key in keys <==> Entry(fields, key).Some?
  }

  function SumOver(keys: seq<string>, fields: seq<Field>): real {
    if keys == [] then 0.0
    else SumOver(keys[1..], fields) + NumberOf(Or(Entry(fields, keys[0]), Number(0.0)))
  }

  lemma {:induction false} SumOverSame(keys: seq<string>, fields: seq<Field>, other: seq<Field>)
    requires forall key :: key in keys ==> Entry(fields, key) == Entry(other, key)
    ensures SumOver(keys, fields) == SumOver(keys, other)
  {
    hide Entry;
    if keys != [] {
      assert keys[0] in keys && forall key :: key in keys[1..] ==> key in keys;
      SumOverSame(keys[1..], fields, other);
    }
  }

  lemma {:induction false} SumWithout(keys: seq<string>, i: nat, fields: seq<Field>)
    requires i < |keys|
    ensures SumOver(keys, fields) == SumOver(keys[..i] + keys[i + 1..], fields) + NumberOf(Or(Entry(fields, keys[i]), Number(0.0)))
  {
    hide Entry;
    var less := keys[..i] + keys[i + 1..];
    if i == 0 {
      assert less == keys[1..];
    } else {
      SumWithout(keys[1..], i - 1, fields);
      assert less[0] == keys[0] && less[1..] == keys[1..][..i - 1] + keys[1..][i..];
    }
  }

  /** `sum(d.values())` adds up the value of every key once, in whatever order they are listed. */
  lemma {:induction false} SumIsOverKeys(fields: seq<Field>, keys: seq<string>)
    requires Sum(fields).Ok? && Lists(keys, fields)
    ensures Sum(fields).value == SumOver(keys, fields)
  {
    if fields == [] {
      NonEmptyHas(keys);
    } else {
      var f, rest := fields[0], fields[1..];
      assert forall key :: key != f.key ==> Entry(fields, key) == Entry(rest, key);
      assert Entry(fields, f.key).Some?;
      if Entry(rest, f.key).Some? {
        assert forall key :: Entry(fields, key) == Entry(rest, key);
        SumIsOverKeys(rest, keys);
        SumOverSame(keys, fields, rest);
      } else {
        var i :| 0 <= i < |keys| && keys[i] == f.key;
        var less := keys[..i] + keys[i + 1..];
        WithoutOne(keys, i);
        SumIsOverKeys(rest, less);
        SumWithout(keys, i, fields);
        SumOverSame(less, fields, rest);
      }
    }
  }

  lemma NonEmptyHas(keys: seq<string>)
    ensures keys != [] ==> exists key :: key in keys
  {
    if keys != [] { assert keys[0] in keys; }
  }

  lemma WithoutOne(keys: seq<string>, i: nat)
    requires NoRepeat(keys) && i < |keys|
    ensures var less := keys[..i] + keys[i + 1..];
            NoRepeat(less) && forall key :: key in less <==> key in keys && key != keys[i]
  {
    var less := keys[..i] + keys[i + 1..];
    assert forall j :: 0 <= j < |less| ==> less[j] == keys[if j < i then j else j + 1];
    forall key ensures key in less <==> key in keys && key != keys[i] {
      if key in keys && key != keys[i] {
        var j :| 0 <= j < |keys| && keys[j] == key;
        assert less[if j < i then j else j - 1] == key;
      }
    }
  }

  /** A report's numbers: both counts are read from the statistics and default to zero, flagged is
      their sum, the total is the sum over all keys of the statistics, each once, and the
      reputation is read beside them; where no count is negative no more engines are flagged than
      there are. */
  lemma ReportCounts(raw: Value, keys: seq<string>)
    requires ParseResponse(raw).Contributes? && !Flagged(raw)
    ensures var r, stats := ParseResponse(raw).report, Or(At(raw, STATS), Dict([]));
            && r.Stats? && stats.Dict?
            && r.malicious == Or(Entry(stats.fields, "malicious"), Number(0.0))
            && r.suspicious == Or(Entry(stats.fields, "suspicious"), Number(0.0))
            && r.flagged == NumberOf(r.malicious) + NumberOf(r.suspicious)
            && r.reputation == At(raw, ["data", "attributes", "reputation"])
            && (Lists(keys, stats.fields) ==> r.total == SumOver(keys, stats.fields))
            && ((forall key :: Entry(stats.fields, key).Some? ==> NumberOf(Entry(stats.fields, key).value) >= 0.0) ==>
                  r.flagged <= r.total)
  {
    hide Entry, At, Sum, Truthy, SumOver, Lists;
    AtOne(raw, "_not_found");
    AtTwo(raw, "data", "attributes");
    AtThree(raw, "data", "attributes", "last_analysis_stats");
    AtThree(raw, "data", "attributes", "reputation");
    ParsesExactly(raw);
    var stats := Or(At(raw, STATS), Dict([]));
    EmptyIsFalse(stats);
    EmptySum();
    SumOfNumbers(stats.fields);
    if Lists(keys, stats.fields) && Sum(stats.fields).Ok? { SumIsOverKeys(stats.fields, keys); }
    if Sum(stats.fields).Ok? && forall key :: Entry(stats.fields, key).Some? ==> NumberOf(Entry(stats.fields, key).value) >= 0.0 {
      SumHolds(stats.fields, "malicious", "suspicious");
    }
  }

  lemma EmptySum()
    ensures Sum([]) == Ok(0.0) && forall key :: Entry([], key) == None
  {
  }

  // ---------------------------------------------------------------- witnesses

  function Single(key: string, v: Value): Value {
    Dict([Field(key, v)])
  }

  lemma SingleChild(key: string, v: Value, k: string)
    ensures Child(Single(key, v), k) == if k == key then Some(v) else None
  {
    assert [Field(key, v)][1..] == [];
    assert Entry([], k) == None;
  }

  /** A response that holds nothing but the given attributes. */
  function Holding(attrs: Value): Value {
    Single("data", Single("attributes", attrs))
  }

  lemma HoldingAt(attrs: Value)
    ensures Holding(attrs).Dict? && !Flagged(Holding(attrs)) && At(Holding(attrs), ATTRIBUTES) == Some(attrs)
    ensures At(Holding(attrs), STATS) == Child(attrs, "last_analysis_stats")
  {
    var raw := Holding(attrs);
    hide At, Child;
    AtOne(raw, "_not_found");
    AtTwo(raw, "data", "attributes");
    AtThree(raw, "data", "attributes", "last_analysis_stats");
    assert |"data"| != |"_not_found"|;
    SingleChild("data", Single("attributes", attrs), "_not_found");
    SingleChild("data", Single("attributes", attrs), "data");
    SingleChild("attributes", attrs, "attributes");
  }

  /** `{"data": {"attributes": {"last_analysis_stats": null}}}` raises, and so does a list; with
      attributes that have no statistics the response contributes. */
  lemma NullStatsRaise()
    ensures ParseResponse(Holding(Single("last_analysis_stats", Null))).Raises?
    ensures ParseResponse(List([])).Raises?
    ensures ParseResponse(Holding(Dict([]))).Contributes?
  {
    hide ParseResponse, At;
    HoldingAt(Single("last_analysis_stats", Null));
    SingleChild("last_analysis_stats", Null, "last_analysis_stats");
    ParsesExactly(Holding(Single("last_analysis_stats", Null)));
    ParsesExactly(List([]));
    HoldingAt(Dict([]));
    ParsesExactly(Holding(Dict([])));
  }

  /** Of equal keys the last one counts, as in a Python dict. */
  lemma {:induction false} EntryIsLast(fields: seq<Field>, key: string, v: Value)
    ensures Entry(fields, key) == Some(v) <==>
      exists i :: LastAt(fields, key, i) && fields[i].value == v
  {
    if fields != [] {
      var rest := fields[1..];
      EntryIsLast(rest, key, v);
      assert forall i :: 0 <= i < |rest| ==> (LastAt(rest, key, i) <==> LastAt(fields, key, i + 1));
      if Entry(rest, key).None? { NoEntry(rest, key); }
      if Entry(rest, key).Some? {
        EntryIsLast(rest, key, Entry(rest, key).value);
        var i :| LastAt(rest, key, i) && rest[i].value == Entry(rest, key).value;
        assert LastAt(fields, key, i + 1);
      } else if fields[0].key == key {
        assert LastAt(fields, key, 0);
      }
    }
  }

  predicate LastAt(fields: seq<Field>, key: string, i: int) {
    0 <= i < |fields| && fields[i].key == key && forall j :: i < j < |fields| ==> fields[j].key != key
  }

  lemma {:induction false} NoEntry(fields: seq<Field>, key: string)
    requires Entry(fields, key).None?
    ensures forall i :: 0 <= i < |fields| ==> fields[i].key != key
  {
    if fields != [] { NoEntry(fields[1..], key); }
  }

  /** Which values count as false and as numbers in Python. */
  lemma ValuesCount(v: Value)
    ensures Truthy(v) <==> v !in [Null, Bool(false), Number(0.0), Text(""), List([]), Dict([])]
    ensures NumberOf(Bool(true)) == 1.0 && NumberOf(Bool(false)) == 0.0 && (v.Number? ==> NumberOf(v) == v.n)
  {
  }

  /** The mark the client itself stores for a 404 contributes an empty report. */
  lemma SentinelContributes()
    ensures ParseResponse(Single("_not_found", Bool(true))) == Contributes(NotInDatabase)
  {
    var raw := Single("_not_found", Bool(true));
    hide ParseResponse, At, Child;
    SingleChild("_not_found", Bool(true), "_not_found");
    AtOne(raw, "_not_found");
    ParsesExactly(raw);
  }
}
