/** Which indicators of an alert's flow are looked up, and that internal ones never leave.

    Events are already decoded: a missing field is an empty string, and `queries` lists the
    query names whatever shape the record has.  Address parsing and HOME_NET membership come
    from libraries and configuration and are parameters. */
module Indicators {
  import opened Optional
  import opened Sequences
  import VirusTotal

  const MAX_IPS: nat := 2
  const MAX_DOMAINS: nat := 3
  const INTERNAL_SUFFIXES: seq<string> :=
    [".local", ".lan", ".internal", ".corp", ".home", ".home.arpa", ".localdomain"]

  /** `special`: private, loopback, link-local, reserved, multicast or carrier-grade NAT. */
  datatype Nets = Nets(isIp: string -> bool, special: string -> bool, configured: bool, inHomeNet: string -> bool)

  predicate Home(n: Nets, ip: string) {
    n.configured && n.inHomeNet(ip)
  }

  /** The text of an answer, None when it is not a string. */
  datatype Answer = Answer(rrname: string, rdata: Option<string>)

  datatype Dns = Dns(rrname: string, queries: seq<string>, rdata: Option<string>, answers: seq<Answer>, grouped: seq<Option<string>>)

  datatype Endpoints = Endpoints(toClient: bool, src: string, dst: string)

  datatype Event =
    | DnsEvent(dns: Dns)
    | HttpEvent(hostname: string, ends: Endpoints)
    | TlsEvent(sni: string, ends: Endpoints)
    | OtherEvent

  // ---------------------------------------------------------------- names

  function Lower(s: string): string {
    if s == "" then ""
    else [if 'A' <= s[0] <= 'Z' then s[0] - 'A' + 'a' else s[0]] + Lower(s[1..])
  }

  function DropDots(s: string): string {
    if s != "" && s[|s| - 1] == '.' then DropDots(s[..|s| - 1]) else s
  }

  function Normal(s: string): string {
    DropDots(Lower(s))
  }

  predicate EndsWith(s: string, suffix: string) {
    |suffix| <= |s| && s[|s| - |suffix|..] == suffix
  }

  predicate Under(name: string, suffix: string) {
    suffix != "" && (name == suffix[1..] || EndsWith(name, suffix))
  }

  predicate IsInternalName(domain: string) {
    exists suffix :: suffix in INTERNAL_SUFFIXES && Under(Normal(domain), suffix)
  }

  // ---------------------------------------------------------------- dns answers

  /** The names an event asks for. */
  function Asked(d: Dns): seq<string> {
    [d.rrname] + d.queries
  }

  /** An event answers `ip` for the name it spells `raw`: every address in the event counts for
      every name asked, and an answer's also for its own name. */
  ghost predicate AnswersRaw(d: Dns, raw: string, ip: string) {
    || ((raw == d.rrname || raw in d.queries) && (d.rdata == Some(ip) || Some(ip) in d.grouped))
    || exists a :: a in d.answers && a.rdata == Some(ip) && (raw == d.rrname || raw in d.queries || raw == a.rrname)
  }

  /** Some dns event of the flow answers the address `ip` for `name`. */
  ghost predicate Answers(n: Nets, events: seq<Event>, name: string, ip: string) {
    n.isIp(ip) && exists e, raw :: e in events && e.DnsEvent? && raw != "" && Normal(raw) == name && AnswersRaw(e.dns, raw, ip)
  }

  // ---------------------------------------------------------------- the answer map

  type AnswerMap = map<string, set<string>>

  predicate Has(m: AnswerMap, name: string, ip: string) {
    name in m && ip in m[name]
  }

  ghost predicate Spelled(names: seq<string>, name: string) {
    exists raw :: raw in names && raw != "" && Normal(raw) == name
  }

  lemma SpelledAppend(names: seq<string>, x: string, name: string)
    ensures Spelled(names + [x], name) <==> Spelled(names, name) || (x != "" && Normal(x) == name)
  {
  }

  /** One call of the inner `_add`: an answer and the names it counts for. */
  datatype Record = Record(names: seq<string>, rdata: Option<string>)

  ghost predicate Given(n: Nets, rs: seq<Record>, name: string, ip: string) {
    n.isIp(ip) && exists r :: r in rs && r.rdata == Some(ip) && Spelled(r.names, name)
  }

  ghost predicate Collects(n: Nets, m: AnswerMap, rs: seq<Record>) {
    forall name, ip :: Has(m, name, ip) <==> Given(n, rs, name, ip)
  }

  lemma GivenAppend(n: Nets, rs: seq<Record>, r: Record, name: string, ip: string)
    ensures Given(n, rs + [r], name, ip) <==>
      Given(n, rs, name, ip) || (n.isIp(ip) && r.rdata == Some(ip) && Spelled(r.names, name))
  {
  }

  method AddAnswer(n: Nets, m: AnswerMap, r: Record, ghost rs: seq<Record>) returns (m': AnswerMap)
    requires Collects(n, m, rs)
    ensures Collects(n, m', rs + [r])
  {
    hide Given, Normal, Spelled;
    forall name, ip { GivenAppend(n, rs, r, name, ip); }
    m' := m;
    if r.rdata.None? || !n.isIp(r.rdata.value) {
      return;
    }
    assert forall name :: !Spelled([], name) by { forall name { NotSpelled(name); } }
    for i := 0 to |r.names|
      invariant forall name, ip :: Has(m', name, ip) <==>
        Has(m, name, ip) || (r.rdata == Some(ip) && Spelled(r.names[..i], name))
    {
      assert r.names[..i + 1] == r.names[..i] + [r.names[i]];
      forall name { SpelledAppend(r.names[..i], r.names[i], name); }
      if r.names[i] != "" {
        var key := Normal(r.names[i]);
        m' := m'[key := (if key in m' then m'[key] else {}) + {r.rdata.value}];
      }
    }
    assert r.names[..|r.names|] == r.names;
  }

  lemma NotSpelled(name: string)
    ensures !Spelled([], name)
  {
  }

  function AnswerRecords(asked: seq<string>, answers: seq<Answer>): seq<Record> {
    if answers == [] then []
    else
      var a := answers[|answers| - 1];
      AnswerRecords(asked, answers[..|answers| - 1]) + [Record(asked + [a.rrname], a.rdata)]
  }

  function GroupedRecords(asked: seq<string>, grouped: seq<Option<string>>): seq<Record> {
    if grouped == [] then []
    else GroupedRecords(asked, grouped[..|grouped| - 1]) + [Record(asked, grouped[|grouped| - 1])]
  }

  function EventRecords(e: Event): seq<Record> {
    if !e.DnsEvent? then []
    else
      [Record(Asked(e.dns), e.dns.rdata)] + AnswerRecords(Asked(e.dns), e.dns.answers)
      + GroupedRecords(Asked(e.dns), e.dns.grouped)
  }

  function Records(events: seq<Event>): seq<Record> {
    if events == [] then [] else Records(events[..|events| - 1]) + EventRecords(events[|events| - 1])
  }

  lemma {:induction false} AnswerRecordsAre(asked: seq<string>, answers: seq<Answer>, r: Record)
    ensures r in AnswerRecords(asked, answers) <==>
      exists a :: a in answers && r == Record(asked + [a.rrname], a.rdata)
  {
    if answers != [] {
      var n := |answers| - 1;
      AnswerRecordsAre(asked, answers[..n], r);
      assert forall a :: a in answers <==> a in answers[..n] || a == answers[n];
    }
  }

  lemma {:induction false} GroupedRecordsAre(asked: seq<string>, grouped: seq<Option<string>>, r: Record)
    ensures r in GroupedRecords(asked, grouped) <==> r.names == asked && r.rdata in grouped
  {
    if grouped != [] { GroupedRecordsAre(asked, grouped[..|grouped| - 1], r); }
  }

  lemma {:induction false} RecordsAre(events: seq<Event>, r: Record)
    ensures r in Records(events) <==> exists e :: e in events && r in EventRecords(e)
  {
    hide EventRecords;
    if events != [] {
      var n := |events| - 1;
      RecordsAre(events[..n], r);
      assert forall e :: e in events <==> e in events[..n] || e == events[n];
    }
  }

  /** One event's records say what the event answers. */
  lemma EventAnswers(e: Event, raw: string, ip: string)
    ensures (exists r :: r in EventRecords(e) && r.rdata == Some(ip) && raw in r.names)
            <==> e.DnsEvent? && AnswersRaw(e.dns, raw, ip)
  {
    if e.DnsEvent? {
      var d := e.dns;
      var asked := Asked(d);
      assert raw in asked <==> raw == d.rrname || raw in d.queries;
      hide Asked, AnswerRecords, GroupedRecords;
      forall r ensures r in EventRecords(e) <==>
        || r == Record(asked, d.rdata) || (exists a :: a in d.answers && r == Record(asked + [a.rrname], a.rdata))
        || (r.names == asked && r.rdata in d.grouped)
      {
        AnswerRecordsAre(asked, d.answers, r);
        GroupedRecordsAre(asked, d.grouped, r);
      }
      if AnswersRaw(d, raw, ip) {
        if raw in asked && d.rdata == Some(ip) {
          assert Record(asked, d.rdata) in EventRecords(e);
        } else if raw in asked && Some(ip) in d.grouped {
          assert Record(asked, Some(ip)) in EventRecords(e);
        } else {
          var a :| a in d.answers && a.rdata == Some(ip) && (raw == d.rrname || raw in d.queries || raw == a.rrname);
          assert Record(asked + [a.rrname], a.rdata) in EventRecords(e);
        }
      }
    }
  }

  lemma GivenIsAnswers(n: Nets, events: seq<Event>, name: string, ip: string)
    ensures Given(n, Records(events), name, ip) <==> Answers(n, events, name, ip)
  {
    hide Normal, Records, EventRecords, AnswersRaw;
    if Given(n, Records(events), name, ip) {
      var r :| r in Records(events) && r.rdata == Some(ip) && Spelled(r.names, name);
      RecordsAre(events, r);
      var e :| e in events && r in EventRecords(e);
      var raw :| raw in r.names && raw != "" && Normal(raw) == name;
      EventAnswers(e, raw, ip);
    }
    if Answers(n, events, name, ip) {
      var e, raw :| e in events && e.DnsEvent? && raw != "" && Normal(raw) == name && AnswersRaw(e.dns, raw, ip);
      EventAnswers(e, raw, ip);
      var r :| r in EventRecords(e) && r.rdata == Some(ip) && raw in r.names;
      RecordsAre(events, r);
      assert Spelled(r.names, name);
    }
  }

  /** The map of names to answers: exactly the addresses some dns event of the flow answers,
      CNAME chains included. */
  method DnsAnswerIps(n: Nets, events: seq<Event>) returns (m: AnswerMap)
    ensures forall name, ip :: Has(m, name, ip) <==> Answers(n, events, name, ip)
  {
    hide Given, Asked;
    m := map[];
    assert Collects(n, m, []) by { forall name, ip { NotGiven(n, name, ip); } }
    for i := 0 to |events|
      invariant Collects(n, m, Records(events[..i]))
    {
      var e := events[i];
      ghost var before := Records(events[..i]);
      assert events[..i + 1][..i] == events[..i];
      if !e.DnsEvent? {
        assert before + [] == before;
        continue;
      }
      m := AddEvent(n, m, e, before);
    }
    assert events[..|events|] == events;
    forall name, ip ensures Has(m, name, ip) <==> Answers(n, events, name, ip) {
      GivenIsAnswers(n, events, name, ip);
    }
  }

  lemma NotGiven(n: Nets, name: string, ip: string)
    ensures !Given(n, [], name, ip)
  {
  }

  method AddEvent(n: Nets, m: AnswerMap, e: Event, ghost before: seq<Record>) returns (m': AnswerMap)
    requires e.DnsEvent? && Collects(n, m, before)
    ensures Collects(n, m', before + EventRecords(e))
  {
    hide Collects, Asked;
    var d := e.dns;
    var names := Asked(d);
    ghost var rs := before + [Record(names, d.rdata)];
    m' := AddAnswer(n, m, Record(names, d.rdata), before);
    assert rs + AnswerRecords(names, d.answers[..0]) == rs;
    for j := 0 to |d.answers|
      invariant Collects(n, m', rs + AnswerRecords(names, d.answers[..j]))
    {
      var a := d.answers[j];
      assert d.answers[..j + 1][..j] == d.answers[..j];
      var r := Record(names + [a.rrname], a.rdata);
      assert rs + AnswerRecords(names, d.answers[..j + 1]) == rs + AnswerRecords(names, d.answers[..j]) + [r];
      m' := AddAnswer(n, m', r, rs + AnswerRecords(names, d.answers[..j]));
    }
    assert d.answers[..|d.answers|] == d.answers;
    rs := rs + AnswerRecords(names, d.answers);
    assert rs + GroupedRecords(names, d.grouped[..0]) == rs;
    for j := 0 to |d.grouped|
      invariant Collects(n, m', rs + GroupedRecords(names, d.grouped[..j]))
    {
      assert d.grouped[..j + 1][..j] == d.grouped[..j];
      var r := Record(names, d.grouped[j]);
      assert rs + GroupedRecords(names, d.grouped[..j + 1]) == rs + GroupedRecords(names, d.grouped[..j]) + [r];
      m' := AddAnswer(n, m', r, rs + GroupedRecords(names, d.grouped[..j]));
    }
    assert d.grouped[..|d.grouped|] == d.grouped;
    assert before + EventRecords(e) == rs + GroupedRecords(names, d.grouped);
  }

  // ---------------------------------------------------------------- extraction

  /** The name an event contributes. */
  function Candidate(e: Event): string {
    match e
    case DnsEvent(d) => if d.rrname != "" then d.rrname else if d.queries != [] then d.queries[0] else ""
    case HttpEvent(hostname, _) => hostname
    case TlsEvent(sni, _) => sni
    case OtherEvent => ""
  }

  /** The server address of an http or tls event. */
  function ServerIp(e: Event): string {
    if e.HttpEvent? || e.TlsEvent? then (if e.ends.toClient then e.ends.src else e.ends.dst) else ""
  }

  predicate Considered(name: string) {
    name != "" && '.' in name && !EndsWith(name, ".arpa")
  }

  ghost predicate AnsweredAtHome(n: Nets, flow: seq<Event>, name: string) {
    exists ip :: Answers(n, flow, name, ip) && Home(n, ip)
  }

  /** An event whose name may be looked up. */
  ghost predicate Eligible(n: Nets, flow: seq<Event>, e: Event) {
    var name := Candidate(e);
    && Considered(name) && !n.isIp(name) && !IsInternalName(name)
    && !AnsweredAtHome(n, flow, Normal(name))
    && !(ServerIp(e) != "" && Home(n, ServerIp(e)))
  }

  ghost function EligibleNames(n: Nets, flow: seq<Event>, events: seq<Event>): seq<string> {
    if events == [] then []
    else
      var e := events[|events| - 1];
      EligibleNames(n, flow, events[..|events| - 1]) + if Eligible(n, flow, e) then [Candidate(e)] else []
  }

  /** The names that are bare addresses. */
  function BareIps(n: Nets, events: seq<Event>): seq<string> {
    if events == [] then []
    else
      var name := Candidate(events[|events| - 1]);
      BareIps(n, events[..|events| - 1]) + if Considered(name) && n.isIp(name) then [name] else []
  }

  function First(s: seq<string>, k: nat): (r: seq<string>)
    ensures |r| <= k && r <= s
  {
    if |s| <= k then s else s[..k]
  }

  lemma {:induction false} DistinctGrows(a: seq<string>, b: seq<string>)
    ensures Distinct(a) <= Distinct(a + b)
  {
    if b == [] {
      assert a + b == a;
    } else {
      assert (a + b)[..|a + b| - 1] == a + b[..|b| - 1];
      DistinctGrows(a, b[..|b| - 1]);
    }
  }

  /** Adding one element at a time to a capped list of distinct elements. */
  lemma CappedAppend(s: seq<string>, x: string, k: nat)
    ensures var before := First(Distinct(s), k);
            First(Distinct(s + [x]), k) == if x !in before && |before| < k then before + [x] else before
  {
    DistinctIs(s);
    assert (s + [x])[..|s|] == s;
  }

  /** The first j events hold enough names. */
  ghost predicate Enough(n: Nets, flow: seq<Event>, j: int) {
    0 <= j <= |flow| && |Distinct(EligibleNames(n, flow, flow[..j]))| >= MAX_DOMAINS
  }

  /** k events are looked at: all of them, or the fewest that hold enough names. */
  ghost predicate StopsAt(n: Nets, flow: seq<Event>, k: nat) {
    k <= |flow| && (k == |flow| || Enough(n, flow, k)) && NotEnoughBefore(n, flow, k)
  }

  ghost predicate NotEnoughBefore(n: Nets, flow: seq<Event>, k: int) {
    forall j :: 0 <= j < k ==> !Enough(n, flow, j)
  }

  lemma NotEnoughYet(n: Nets, flow: seq<Event>, k: nat)
    requires NotEnoughBefore(n, flow, k) && !Enough(n, flow, k)
    ensures NotEnoughBefore(n, flow, k + 1)
  {
  }

  lemma {:induction false} EligibleConcat(n: Nets, flow: seq<Event>, a: seq<Event>, b: seq<Event>)
    ensures EligibleNames(n, flow, a + b) == EligibleNames(n, flow, a) + EligibleNames(n, flow, b)
  {
    hide Eligible, Candidate;
    if b == [] {
      assert a + b == a;
    } else {
      assert (a + b)[..|a + b| - 1] == a + b[..|b| - 1];
      EligibleConcat(n, flow, a, b[..|b| - 1]);
    }
  }

  /** Stopping early finds the same first names. */
  lemma StoppedEarly(n: Nets, flow: seq<Event>, k: nat)
    requires StopsAt(n, flow, k)
    ensures First(Distinct(EligibleNames(n, flow, flow[..k])), MAX_DOMAINS)
            == First(Distinct(EligibleNames(n, flow, flow)), MAX_DOMAINS)
  {
    hide EligibleNames, Distinct;
    assert flow == flow[..k] + flow[k..];
    if k < |flow| {
      EligibleConcat(n, flow, flow[..k], flow[k..]);
      DistinctGrows(EligibleNames(n, flow, flow[..k]), EligibleNames(n, flow, flow[k..]));
    } else {
      assert flow[..k] == flow;
    }
  }

  function Present(s: string): seq<string> {
    if s == "" then [] else [s]
  }

  method HomeNetNames(n: Nets, flow: seq<Event>) returns (names: set<string>)
    ensures forall name :: name in names <==> AnsweredAtHome(n, flow, name)
  {
    names := {};
    if n.configured {
      var answers := DnsAnswerIps(n, flow);
      names := set name | name in answers && exists ip :: ip in answers[name] && n.inHomeNet(ip);
      hide Answers;
      forall name ensures name in names <==> AnsweredAtHome(n, flow, name) {
        assert forall ip :: name in answers && ip in answers[name] <==> Has(answers, name, ip);
      }
    }
  }

  lemma {:induction false} NamesAreEligible(n: Nets, flow: seq<Event>, events: seq<Event>, name: string)
    ensures name in EligibleNames(n, flow, events) <==> exists e :: e in events && Eligible(n, flow, e) && Candidate(e) == name
  {
    hide Eligible, Candidate;
    if events != [] {
      var m := |events| - 1;
      NamesAreEligible(n, flow, events[..m], name);
      assert forall e :: e in events <==> e in events[..m] || e == events[m];
    }
  }

  lemma NamesAreNoIps(n: Nets, flow: seq<Event>, events: seq<Event>, name: string)
    requires name in EligibleNames(n, flow, events)
    ensures !n.isIp(name)
  {
  }

  ghost predicate DomainsAfter(n: Nets, flow: seq<Event>, i: nat, domains: seq<string>)
    requires i <= |flow|
  {
    domains == Distinct(EligibleNames(n, flow, flow[..i]))
  }

  ghost predicate IpsAfter(n: Nets, flow: seq<Event>, base: seq<string>, i: nat, ips: seq<string>)
    requires i <= |flow|
  {
    ips == First(Distinct(base + BareIps(n, flow[..i])), MAX_IPS)
  }

  lemma NextDomains(n: Nets, flow: seq<Event>, i: nat, domains: seq<string>)
    requires i < |flow| && DomainsAfter(n, flow, i, domains)
    ensures var name := Candidate(flow[i]);
            DomainsAfter(n, flow, i + 1, if Eligible(n, flow, flow[i]) && name !in domains then domains + [name] else domains)
  {
    hide Eligible, Candidate;
    var before := EligibleNames(n, flow, flow[..i]);
    assert flow[..i + 1][..i] == flow[..i];
    DistinctIs(before);
    assert (before + [Candidate(flow[i])])[..|before|] == before && before + [] == before;
  }

  lemma NextIps(n: Nets, flow: seq<Event>, base: seq<string>, i: nat, ips: seq<string>)
    requires i < |flow| && IpsAfter(n, flow, base, i, ips)
    ensures var name := Candidate(flow[i]);
            IpsAfter(n, flow, base, i + 1,
              if Considered(name) && n.isIp(name) && name !in ips && |ips| < MAX_IPS then ips + [name] else ips)
  {
    hide Candidate, Distinct, Considered;
    var found, name := BareIps(n, flow[..i]), Candidate(flow[i]);
    assert flow[..i + 1][..i] == flow[..i];
    CappedAppend(base + found, name, MAX_IPS);
    assert base + (found + [name]) == base + found + [name] && base + (found + []) == base + found;
  }

  /** The domains are the first three distinct eligible names, names that are skipped using up
      nothing; the addresses are the first two distinct ones of the alert and of the
      bare-address names seen until the third domain was found. */
  ghost predicate Extracted(n: Nets, src: string, dst: string, flow: seq<Event>, ips: seq<string>, domains: seq<string>) {
    && domains == First(Distinct(EligibleNames(n, flow, flow)), 3)
    && exists k: nat :: StopsAt(n, flow, k)
         && ips == First(Distinct(Present(src) + Present(dst) + BareIps(n, flow[..k])), 2)
  }

  /** The loops over the alert's addresses and the flow's events. */
  method ExtractIndicators(n: Nets, src: string, dst: string, flow: seq<Event>)
    returns (ips: seq<string>, domains: seq<string>)
    ensures Extracted(n, src, dst, flow, ips, domains)
  {
    var homeNetNames := HomeNetNames(n, flow);
    ips := AlertIps(src, dst);
    ghost var base := Present(src) + Present(dst);
    assert base + BareIps(n, flow[..0]) == base;
    ghost var k;
    ips, domains, k := ScanFlow(n, flow, homeNetNames, base, ips);
    StoppedEarly(n, flow, k);
    Short(domains, MAX_DOMAINS);
  }

  method ScanFlow(n: Nets, flow: seq<Event>, homeNetNames: set<string>, ghost base: seq<string>, start: seq<string>)
    returns (ips: seq<string>, domains: seq<string>, ghost k: nat)
    requires IpsAfter(n, flow, base, 0, start) && forall name :: name in homeNetNames <==> AnsweredAtHome(n, flow, name)
    ensures StopsAt(n, flow, k) && |domains| <= MAX_DOMAINS
    ensures DomainsAfter(n, flow, k, domains) && IpsAfter(n, flow, base, k, ips)
  {
    ips, domains, k := start, [], |flow|;
    assert DomainsAfter(n, flow, 0, domains);
    hide IpsAfter, Enough, DomainsAfter, AnsweredAtHome, NotEnoughBefore;
    assert NotEnoughBefore(n, flow, 0) by { NothingBefore(n, flow); }
    for i := 0 to |flow|
      invariant |domains| < MAX_DOMAINS && k == |flow|
      invariant NotEnoughBefore(n, flow, i)
      invariant DomainsAfter(n, flow, i, domains) && IpsAfter(n, flow, base, i, ips)
    {
      EnoughNames(n, flow, i, domains);
      NotEnoughYet(n, flow, i);
      ips, domains := ConsiderEvent(n, flow, homeNetNames, base, i, ips, domains);
      EnoughNames(n, flow, i + 1, domains);
      if |domains| >= MAX_DOMAINS {
        k := i + 1;
        break;
      }
    }
  }

  lemma NothingBefore(n: Nets, flow: seq<Event>)
    ensures NotEnoughBefore(n, flow, 0)
  {
  }

  lemma EnoughNames(n: Nets, flow: seq<Event>, i: nat, domains: seq<string>)
    requires i <= |flow| && DomainsAfter(n, flow, i, domains)
    ensures Enough(n, flow, i) <==> |domains| >= MAX_DOMAINS
  {
  }

  lemma Short(s: seq<string>, k: nat)
    ensures |s| <= k ==> First(s, k) == s
  {
  }

  /** One turn of the loop over the flow's events. */
  method ConsiderEvent(n: Nets, flow: seq<Event>, homeNetNames: set<string>, ghost base: seq<string>, i: nat, ips: seq<string>, domains: seq<string>)
    returns (ips': seq<string>, domains': seq<string>)
    requires i < |flow| && forall name :: name in homeNetNames <==> AnsweredAtHome(n, flow, name)
    requires DomainsAfter(n, flow, i, domains) && IpsAfter(n, flow, base, i, ips)
    ensures DomainsAfter(n, flow, i + 1, domains') && IpsAfter(n, flow, base, i + 1, ips')
    ensures |domains'| <= |domains| + 1
  {
    var event := flow[i];
    var domain, serverIp := Candidate(event), ServerIp(event);
    ips', domains' := ips, domains;
    NextDomains(n, flow, i, domains);
    NextIps(n, flow, base, i, ips);
    if domain in domains {
      DistinctIs(EligibleNames(n, flow, flow[..i]));
      NamesAreNoIps(n, flow, flow[..i], domain);
    }
    hide DomainsAfter, IpsAfter, Considered, IsInternalName, Normal, Home, AnsweredAtHome, Candidate, ServerIp;
    if Considered(domain) && domain !in domains {
      if n.isIp(domain) {
        if domain !in ips && |ips| < MAX_IPS {
          ips' := ips + [domain];
        }
      } else {
        if IsInternalName(domain) {
          return;
        }
        if Normal(domain) in homeNetNames {
          return;
        }
        if serverIp != "" && Home(n, serverIp) {
          return;
        }
        domains' := domains + [domain];
      }
    }
  }

  method AlertIps(src: string, dst: string) returns (ips: seq<string>)
    ensures ips == First(Distinct(Present(src) + Present(dst)), MAX_IPS)
  {
    ips := [];
    CappedAppend([], src, MAX_IPS);
    CappedAppend(Present(src), dst, MAX_IPS);
    assert [] + [src] == [src] && Present(src) + [] == Present(src);
    if src != "" {
      ips := [src];
    }
    if dst != "" && dst !in ips {
      ips := ips + [dst];
    }
  }

  // ---------------------------------------------------------------- nothing internal leaves

  lemma FirstOfDistinct(s: seq<string>, k: nat)
    ensures var r := First(Distinct(s), k);
            && |r| <= k && (forall x :: x in r ==> x in s)
            && forall i, j :: 0 <= i < j < |r| ==> r[i] != r[j]
  {
    DistinctIs(s);
  }

  /** Every extracted domain comes from an event, is no address, is under no internal suffix and
      has no HOME_NET answer in any dns event of the flow; the lists are short and distinct. */
  lemma DomainsAreExternal(n: Nets, src: string, dst: string, flow: seq<Event>, ips: seq<string>, domains: seq<string>)
    requires Extracted(n, src, dst, flow, ips, domains)
    ensures |ips| <= 2 && |domains| <= 3
    ensures forall i, j :: 0 <= i < j < |ips| ==> ips[i] != ips[j]
    ensures forall i, j :: 0 <= i < j < |domains| ==> domains[i] != domains[j]
    ensures forall d :: d in domains ==>
      && (exists e :: e in flow && Candidate(e) == d) && '.' in d && !n.isIp(d) && !IsInternalName(d)
      && forall ip :: Answers(n, flow, Normal(d), ip) ==> !Home(n, ip)
  {
    var k: nat :| StopsAt(n, flow, k)
      && ips == First(Distinct(Present(src) + Present(dst) + BareIps(n, flow[..k])), 2);
    FirstOfDistinct(Present(src) + Present(dst) + BareIps(n, flow[..k]), 2);
    FirstOfDistinct(EligibleNames(n, flow, flow), 3);
    hide Answers, IsInternalName, Normal, Home, Distinct, First, EligibleNames, BareIps, StopsAt;
    forall d | d in domains
      ensures (exists e :: e in flow && Candidate(e) == d) && '.' in d && !n.isIp(d) && !IsInternalName(d)
      ensures forall ip :: Answers(n, flow, Normal(d), ip) ==> !Home(n, ip)
    {
      NamesAreEligible(n, flow, flow, d);
    }
  }

  /** An eligible name is found unless three others come first: exactly which names are returned. */
  lemma DomainFoundExactlyWhen(n: Nets, src: string, dst: string, flow: seq<Event>, ips: seq<string>, domains: seq<string>)
    requires Extracted(n, src, dst, flow, ips, domains) && |domains| < 3
    ensures forall d :: d in domains <==> exists e :: e in flow && Eligible(n, flow, e) && Candidate(e) == d
  {
    DistinctIs(EligibleNames(n, flow, flow));
    hide Distinct, Eligible, EligibleNames, StopsAt;
    forall d ensures d in domains <==> exists e :: e in flow && Eligible(n, flow, e) && Candidate(e) == d {
      NamesAreEligible(n, flow, flow, d);
    }
  }

  /** An address that the event answers. */
  ghost predicate AddressIn(d: Dns, ip: string) {
    d.rdata == Some(ip) || Some(ip) in d.grouped || exists a :: a in d.answers && a.rdata == Some(ip)
  }

  /** Whatever name a dns event of the flow asks for, first or in its list of queries: if any
      address in the event is a HOME_NET one, no spelling of that name is returned. */
  lemma AskedNamesStayHome(n: Nets, src: string, dst: string, flow: seq<Event>, ips: seq<string>, domains: seq<string>,
                           e: Event, raw: string, ip: string)
    requires Extracted(n, src, dst, flow, ips, domains)
    requires e in flow && e.DnsEvent? && raw != "" && (raw == e.dns.rrname || raw in e.dns.queries)
    requires AddressIn(e.dns, ip) && n.isIp(ip) && n.configured && n.inHomeNet(ip)
    ensures Answers(n, flow, Normal(raw), ip)
    ensures forall d :: d in domains ==> Normal(d) != Normal(raw)
  {
    hide Extracted, Normal, IsInternalName;
    assert AnswersRaw(e.dns, raw, ip);
    DomainsAreExternal(n, src, dst, flow, ips, domains);
  }

  // ---------------------------------------------------------------- the tests, spelled out

  /** A name that no test excludes whatever event it comes from. */
  ghost predicate MayLeave(n: Nets, flow: seq<Event>, name: string) {
    && name != "" && '.' in name && !(|name| >= 5 && name[|name| - 5..] == ".arpa")
    && !n.isIp(name) && !IsInternalName(name)
    && forall ip :: Answers(n, flow, Normal(name), ip) ==> !(n.configured && n.inHomeNet(ip))
  }

  predicate ServedAtHome(n: Nets, ends: Endpoints) {
    var server := if ends.toClient then ends.src else ends.dst;
    server != "" && n.configured && n.inHomeNet(server)
  }

  /** Which events make a name eligible: dns events by their first name, or else their first
      query; http and tls events by host name or server name unless the server is at home. */
  lemma EligibleExactly(n: Nets, flow: seq<Event>)
    ensures forall d :: Eligible(n, flow, DnsEvent(d)) <==>
      MayLeave(n, flow, if d.rrname == "" && d.queries != [] then d.queries[0] else d.rrname)
    ensures forall host, ends :: Eligible(n, flow, HttpEvent(host, ends)) <==> MayLeave(n, flow, host) && !ServedAtHome(n, ends)
    ensures forall sni, ends :: Eligible(n, flow, TlsEvent(sni, ends)) <==> MayLeave(n, flow, sni) && !ServedAtHome(n, ends)
    ensures !Eligible(n, flow, OtherEvent)
  {
    hide Answers, IsInternalName, Normal;
  }

  /** A name is internal when, in lower case and without final dots, it is one of these names or
      ends in one of them after a dot. */
  lemma InternalExactly(domain: string)
    ensures var m := Normal(domain);
            IsInternalName(domain) <==>
              || m == "local" || m == "lan" || m == "internal" || m == "corp" || m == "home" || m == "home.arpa" || m == "localdomain"
              || EndsWith(m, ".local") || EndsWith(m, ".lan") || EndsWith(m, ".internal") || EndsWith(m, ".corp")
              || EndsWith(m, ".home") || EndsWith(m, ".home.arpa") || EndsWith(m, ".localdomain")
  {
    hide Normal, EndsWith;
    var m := Normal(domain);
    assert IsInternalName(domain) <==>
      || Under(m, INTERNAL_SUFFIXES[0]) || Under(m, INTERNAL_SUFFIXES[1]) || Under(m, INTERNAL_SUFFIXES[2])
      || Under(m, INTERNAL_SUFFIXES[3]) || Under(m, INTERNAL_SUFFIXES[4]) || Under(m, INTERNAL_SUFFIXES[5])
      || Under(m, INTERNAL_SUFFIXES[6]) by {
      if IsInternalName(domain) {
        var suffix :| suffix in INTERNAL_SUFFIXES && Under(m, suffix);
      }
      assert forall i :: 0 <= i < 7 ==> INTERNAL_SUFFIXES[i] in INTERNAL_SUFFIXES;
    }
  }

  function LowerChar(c: char): char {
    if 'A' <= c <= 'Z' then c - 'A' + 'a' else c
  }

  lemma {:induction false} LowerIs(s: string)
    ensures |Lower(s)| == |s| && forall i :: 0 <= i < |s| ==> Lower(s)[i] == LowerChar(s[i])
  {
    if s != "" { LowerIs(s[1..]); }
  }

  lemma {:induction false} DropDotsIs(s: string) returns (k: nat)
    ensures k <= |s| && DropDots(s) == s[..k] && (k > 0 ==> s[k - 1] != '.') && forall i :: k <= i < |s| ==> s[i] == '.'
  {
    k := |s|;
    if s != "" && s[|s| - 1] == '.' {
      k := DropDotsIs(s[..|s| - 1]);
    } else {
      assert s[..k] == s;
    }
  }

  /** The form names are compared in: lower case, final dots gone, nothing else changed. */
  lemma NormalExactly(s: string) returns (k: nat)
    ensures k <= |s| && |Normal(s)| == k
    ensures forall i :: 0 <= i < k ==> Normal(s)[i] == (if 'A' <= s[i] <= 'Z' then s[i] - 'A' + 'a' else s[i])
    ensures (forall i :: k <= i < |s| ==> s[i] == '.') && (k > 0 ==> s[k - 1] != '.')
  {
    LowerIs(s);
    k := DropDotsIs(Lower(s));
  }

  function IpIndicators(ips: seq<string>): (r: seq<VirusTotal.Indicator>)
    ensures |r| == |ips| && forall i :: 0 <= i < |ips| ==> r[i] == VirusTotal.Indicator(VirusTotal.Ip, ips[i])
  {
    seq(|ips|, i requires 0 <= i < |ips| => VirusTotal.Indicator(VirusTotal.Ip, ips[i]))
  }

  function DomainIndicators(domains: seq<string>): (r: seq<VirusTotal.Indicator>)
    ensures |r| == |domains| && forall i :: 0 <= i < |domains| ==> r[i] == VirusTotal.Indicator(VirusTotal.Domain, domains[i])
  {
    seq(|domains|, i requires 0 <= i < |domains| => VirusTotal.Indicator(VirusTotal.Domain, domains[i]))
  }

  predicate IsPublicIp(n: Nets, ip: string) {
    n.isIp(ip) && !n.special(ip) && !Home(n, ip)
  }

  datatype Source = VtSource | GeoSource | RdapSource | NoSource

  /** The sources `_enrich_one` asks about an indicator. */
  function Asks(n: Nets, i: VirusTotal.Indicator): seq<Source> {
    match i.kind
    case Ip => if IsPublicIp(n, i.value) then [VtSource, GeoSource] else [GeoSource]
    case Domain => [VtSource, RdapSource]
    case _ => [NoSource]
  }

  /** Which sources are asked: VirusTotal about every domain and every public address outside
      HOME_NET, the geography of every address, the registry of every domain. */
  lemma AsksExactly(n: Nets, i: VirusTotal.Indicator)
    ensures VtSource in Asks(n, i) <==>
      || i.kind == VirusTotal.Domain
      || (i.kind == VirusTotal.Ip && n.isIp(i.value) && !n.special(i.value) && !(n.configured && n.inHomeNet(i.value)))
    ensures GeoSource in Asks(n, i) <==> i.kind == VirusTotal.Ip
    ensures RdapSource in Asks(n, i) <==> i.kind == VirusTotal.Domain
  {
  }

  /** No private, reserved or HOME_NET address, no name under an internal suffix and no name with a
      HOME_NET answer in the flow is looked up in VirusTotal.  A name answered with a private
      address outside HOME_NET is. */
  lemma NothingInternalToVirusTotal(n: Nets, src: string, dst: string, flow: seq<Event>, ips: seq<string>, domains: seq<string>, i: VirusTotal.Indicator)
    requires Extracted(n, src, dst, flow, ips, domains)
    requires i in IpIndicators(ips) + DomainIndicators(domains) && VtSource in Asks(n, i)
    ensures n.isIp(i.value) ==> !n.special(i.value) && !Home(n, i.value)
    ensures !n.isIp(i.value) ==> !IsInternalName(i.value) && forall ip :: Answers(n, flow, Normal(i.value), ip) ==> !Home(n, ip)
  {
    hide Extracted, Answers, IsInternalName, Normal;
    DomainsAreExternal(n, src, dst, flow, ips, domains);
    if i.kind == VirusTotal.Domain { assert i.value in domains; }
  }

  /** The exclusion by server address is per event: a name served from HOME_NET in one event is
      still returned when another event names it with a server outside. */
  lemma ServerExclusionIsPerEvent(n: Nets, name: string, inside: string, outside: string)
    requires Considered(name) && !n.isIp(name) && !IsInternalName(name) && inside != "" && Home(n, inside) && !Home(n, outside)
    ensures var flow := [HttpEvent(name, Endpoints(false, "", inside)), TlsEvent(name, Endpoints(false, "", outside))];
            !Eligible(n, flow, flow[0]) && Distinct(EligibleNames(n, flow, flow)) == [name]
  {
    hide IsInternalName, Normal, Considered;
    var a, b := HttpEvent(name, Endpoints(false, "", inside)), TlsEvent(name, Endpoints(false, "", outside));
    var flow := [a, b];
    assert forall x, ip :: !Answers(n, flow, x, ip);
    assert Eligible(n, flow, b) && !Eligible(n, flow, a);
    assert flow[..1] == [a] && [a][..0] == [] && [name][..0] == [];
    assert EligibleNames(n, flow, [a]) == [];
    assert EligibleNames(n, flow, flow) == [name];
  }

  /** Only HOME_NET answers keep a name inside: one answered with a private address that the
      configuration does not list is looked up. */
  lemma PrivateAnswersLeave(n: Nets, name: string, ip: string)
    requires Considered(name) && !n.isIp(name) && !IsInternalName(name) && n.isIp(ip) && n.special(ip) && !Home(n, ip)
    ensures var flow := [DnsEvent(Dns(name, [], None, [Answer(name, Some(ip))], []))];
            Answers(n, flow, Normal(name), ip) && Distinct(EligibleNames(n, flow, flow)) == [name]
  {
    assert name != "";
    hide IsInternalName, Normal, Considered;
    var d := Dns(name, [], None, [Answer(name, Some(ip))], []);
    var flow := [DnsEvent(d)];
    assert flow[0] in flow && d.answers[0] in d.answers;
    assert AnswersRaw(d, name, ip);
    assert forall raw, x :: AnswersRaw(d, raw, x) ==> x == ip;
    assert forall x, y :: Answers(n, flow, x, y) ==> y == ip;
    assert Eligible(n, flow, flow[0]);
    assert flow[..0] == [] && [name][..0] == [];
    assert EligibleNames(n, flow, flow) == [name];
  }
}
