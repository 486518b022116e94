/**
  The record of a resolution: which lookups it made, in which zones, with which servers, and which nested
  resolutions of nameserver addresses it started. ValidWalk says what the resolver does at each point,
  given the outcomes of its lookups.
  */
module Walk {
  import opened Sequences
  import opened Names
  import opened Records
  import opened Helper

  const MAX_HOPS: nat := 20
  const MAX_CNAME_RESTARTS: nat := 8
  const MAX_GLUE_DEPTH: nat := 4
  const MAX_TOTAL_LOOKUPS: nat := 100

  type Resolved = Outcome<LookupResult, Error>
  type Servers = Outcome<seq<NameServer>, Error>

  /** One lookup of a resolution, and the search for the next servers if it was a referral that narrows. */
  datatype Hop = Hop(call: Call, glue: Glue)

  datatype Glue = NoReferral | Referral(nested: seq<Walk>, servers: Servers)

  /** What is being resolved, and how deep inside searches for nameserver addresses. */
  datatype Question = Question(name: Name, qtype: U16, depth: nat)

  /** One resolution of one question, started with some budget left. */
  datatype Walk = Walk(question: Question, budget: int, hops: seq<Hop>, result: Resolved)

  // ---- Reading a referral ----

  /** The owner of the first NS record. */
  function DelegationOwner(ns: seq<RR>): Name {
    if ns == [] then Empty else if ns[0].data.NS? then ns[0].owner else DelegationOwner(ns[1..])
  }

  /** The distinct hosts named by the NS records, in order of first appearance. */
  function UniqueNSNames(ns: seq<RR>): seq<Name> {
    if ns == [] then []
    else
      var front, last := UniqueNSNames(ns[..|ns| - 1]), ns[|ns| - 1];
      if last.data.NS? && !FoldIn(last.data.host, front) then front + [last.data.host] else front
  }

  /** The address one glue record gives for name, if it does. */
  function GlueOf(name: Name, r: RR): seq<NameServer> {
    var addr := match r.data case A(ip) => AddrFromSlice(ip) case AAAA(ip) => AddrFromSlice(ip) case _ => None;
    if EqualFold(r.owner, name) && addr.Some? then [NameServer(name, addr.value)] else []
  }

  /** The addresses glue gives for name. */
  function GlueFor(name: Name, extra: seq<RR>): seq<NameServer> {
    if extra == [] then [] else GlueFor(name, extra[..|extra| - 1]) + GlueOf(name, extra[|extra| - 1])
  }

  function AllGlue(names: seq<Name>, extra: seq<RR>): seq<NameServer> {
    if names == [] then [] else AllGlue(names[..|names| - 1], extra) + GlueFor(names[|names| - 1], extra)
  }

  /** The addresses in an answer to a question for name's A records. */
  function AnswerAddrs(name: Name, answer: seq<RR>): seq<NameServer> {
    if answer == [] then []
    else
      var last := answer[|answer| - 1];
      AnswerAddrs(name, answer[..|answer| - 1]) +
        if last.data.A? && AddrFromSlice(last.data.ip).Some? then [NameServer(name, last.data.ip)] else []
  }

  function ResultAddrs(name: Name, result: Resolved): seq<NameServer> {
    if result.Err? then [] else AnswerAddrs(name, result.value.answer)
  }

  /** Success without an answer but with NS records: go on in a narrower zone. */
  predicate IsReferral(r: Resolved) {
    r.Ok? && r.value.rcode == RCODE_SUCCESS && r.value.answer == [] && HasNS(r.value.ns)
  }

  // ---- The lookups of a walk, in order ----

  ghost function Calls(w: Walk): seq<Call>
    decreases w, 1
  {
    HopCalls(w.hops)
  }

  ghost function HopCalls(hops: seq<Hop>): seq<Call>
    decreases hops, 0
  {
    if hops == [] then []
    else HopCalls(hops[..|hops| - 1]) + CallsOf(hops[|hops| - 1])
  }

  /** A lookup and then those of the search for the next servers. */
  ghost function CallsOf(hop: Hop): seq<Call>
    decreases hop, 3
  {
    [hop.call] + GlueCalls(hop.glue)
  }

  ghost function GlueCalls(glue: Glue): seq<Call>
    decreases glue, 3
  {
    if glue.Referral? then WalkCalls(glue.nested) else []
  }

  ghost function WalkCalls(ws: seq<Walk>): seq<Call>
    decreases ws, 2
  {
    if ws == [] then [] else WalkCalls(ws[..|ws| - 1]) + Calls(ws[|ws| - 1])
  }

  // ---- What a resolution may do ----

  /** The zone and the servers after hops, each of which was followed. */
  ghost function NextZone(hops: seq<Hop>): Name {
    if hops != [] && hops[|hops| - 1].call.outcome.Ok? then DelegationOwner(hops[|hops| - 1].call.outcome.value.ns)
    else ROOT
  }

  ghost function NextServers(hops: seq<Hop>, roots: seq<NameServer>): seq<NameServer> {
    if hops == [] then roots
    else
      var glue := hops[|hops| - 1].glue;
      if glue.Referral? && glue.servers.Ok? then glue.servers.value else roots
  }

  /** The last error among the results of ws. */
  ghost function LastError(ws: seq<Walk>): Option<Error> {
    if ws == [] then None
    else if ws[|ws| - 1].result.Err? then Some(ws[|ws| - 1].result.error)
    else LastError(ws[..|ws| - 1])
  }

  /** The next lookup asks the question in the zone reached so far, of the servers found for it. */
  ghost predicate Asks(q: Question, roots: seq<NameServer>, before: seq<Hop>, c: Call) {
    && c.name == q.name && c.qtype == q.qtype
    && c.zone == NextZone(before) && c.servers == NextServers(before, roots)
  }

  ghost predicate Narrows(c: Call) {
    IsReferral(c.outcome) && !EqualFold(DelegationOwner(c.outcome.value.ns), c.zone)
  }

  ghost predicate Fruitless(name: Name, w: Walk) {
    ResultAddrs(name, w.result) == []
  }

  ghost predicate AllFruitless(names: seq<Name>, nested: seq<Walk>) {
    && |nested| <= |names|
    && forall j {:trigger Fruitless(names[j], nested[j])} :: 0 <= j < |nested| ==> Fruitless(names[j], nested[j])
  }

  /** The last of the nested resolutions was the first to yield an address. */
  ghost predicate FirstFruit(names: seq<Name>, nested: seq<Walk>, servers: Servers) {
    && 0 < |nested| <= |names|
    && var n := |nested| - 1;
    && AllFruitless(names, nested[..n])
    && ResultAddrs(names[n], nested[n].result) != []
    && servers == Ok(ResultAddrs(names[n], nested[n].result))
  }

  /** All names were tried and none yielded an address. */
  ghost predicate NoFruit(names: seq<Name>, nested: seq<Walk>, servers: Servers) {
    |nested| == |names| && AllFruitless(names, nested) && servers == Err(NoAddress(names, LastError(nested)))
  }

  ghost predicate NestedAt(depth: nat, name: Name, before: seq<Walk>, w: Walk, budget: int) {
    w.question == Question(name, TYPE_A, depth + 1) && w.budget == budget - |WalkCalls(before)|
  }

  /** The resolutions of the first names' addresses, one after another on the same budget. */
  ghost predicate NestedWalks(depth: nat, names: seq<Name>, nested: seq<Walk>, budget: int) {
    && |nested| <= |names|
    && forall j {:trigger NestedAt(depth, names[j], nested[..j], nested[j], budget)} :: 0 <= j < |nested| ==>
         NestedAt(depth, names[j], nested[..j], nested[j], budget)
  }

  /** How the servers of a referral were found: from glue, or by resolving names one after another. */
  ghost predicate FoundServers(depth: nat, ns: seq<RR>, extra: seq<RR>, nested: seq<Walk>, servers: Servers,
                               budget: int)
  {
    var names := UniqueNSNames(ns);
    var glued := AllGlue(names, extra);
    if glued != [] then nested == [] && servers == Ok(glued)
    else if depth >= MAX_GLUE_DEPTH then nested == [] && servers == Err(GlueTooDeep(names))
    else
      && NestedWalks(depth, names, nested, budget)
      && (FirstFruit(names, nested, servers) || NoFruit(names, nested, servers))
  }

  /** The search for servers that a referral starts. */
  ghost predicate Followed(depth: nat, r: LookupResult, glue: Glue, budget: int) {
    glue.Referral? && FoundServers(depth, r.ns, r.extra, glue.nested, glue.servers, budget)
  }

  /** One lookup of a resolution, made while budget was left, and what it made of a referral. */
  ghost predicate HopOk(q: Question, roots: seq<NameServer>, before: seq<Hop>, h: Hop, budget: int) {
    var rest := budget - |HopCalls(before)| - 1;
    && rest >= 0
    && Asks(q, roots, before, h.call)
    && if Narrows(h.call) then Followed(q.depth, h.call.outcome.value, h.glue, rest) else h.glue.NoReferral?
  }

  ghost predicate AllHops(q: Question, roots: seq<NameServer>, hops: seq<Hop>, budget: int) {
    forall i {:trigger HopOk(q, roots, hops[..i], hops[i], budget)} :: 0 <= i < |hops| ==>
      HopOk(q, roots, hops[..i], hops[i], budget)
  }

  /** The hop found servers for a narrower zone. */
  predicate GoesOn(h: Hop) {
    h.glue.Referral? && h.glue.servers.Ok?
  }

  ghost predicate AllGoOn(hops: seq<Hop>) {
    forall i {:trigger GoesOn(hops[i])} :: 0 <= i < |hops| ==> GoesOn(hops[i])
  }

  /** What came of a referral: no progress, servers for the delegated zone, or a failure to find any. */
  ghost predicate Taken(q: Question, zone: Name, r: LookupResult, glue: Glue, budget: int, next: Servers) {
    var delegatedZone := DelegationOwner(r.ns);
    if EqualFold(delegatedZone, zone) then glue.NoReferral? && next == Err(NoProgress(q.name, q.qtype, zone))
    else
      && Followed(q.depth, r, glue, budget)
      && next == if glue.servers.Ok? then glue.servers
                 else Err(ReferralFailed(q.name, q.qtype, delegatedZone, glue.servers.error))
  }

  /** What a resolution returns that ends at h. */
  ghost predicate EndsAt(q: Question, h: Hop, result: Resolved) {
    var c := h.call;
    if !IsReferral(c.outcome) then result == c.outcome
    else if !Narrows(c) then result == Err(NoProgress(q.name, q.qtype, c.zone))
    else
      && h.glue.Referral? && h.glue.servers.Err?
      && result == Err(ReferralFailed(q.name, q.qtype, DelegationOwner(c.outcome.value.ns), h.glue.servers.error))
  }

  /** The last lookup did not end the resolution: it ran out of hops, or out of budget. */
  ghost predicate GivesUp(w: Walk) {
    && AllGoOn(w.hops)
    && if |w.hops| == MAX_HOPS then w.result == Err(HopsExceeded(w.question.name, w.question.qtype))
       else w.budget - |HopCalls(w.hops)| <= 0 && w.result == Err(BudgetExceeded(w.question.name, w.question.qtype))
  }

  /** The last lookup settled the resolution. */
  ghost predicate Settles(w: Walk) {
    w.hops != [] && AllGoOn(w.hops[..|w.hops| - 1]) && EndsAt(w.question, w.hops[|w.hops| - 1], w.result)
  }

  /** w itself is what the resolver may do, taking the nested resolutions as given. */
  ghost predicate ValidHere(w: Walk, roots: seq<NameServer>) {
    && |w.hops| <= MAX_HOPS
    && AllHops(w.question, roots, w.hops, w.budget)
    && (GivesUp(w) || Settles(w))
  }

  /** w and all resolutions nested in it, at every depth, are what the resolver may do. */
  ghost predicate ValidWalk(w: Walk, roots: seq<NameServer>)
    decreases w, 1
  {
    ValidHere(w, roots) && ValidHops(w.hops, roots)
  }

  ghost predicate ValidHops(hops: seq<Hop>, roots: seq<NameServer>)
    decreases hops, 0
  {
    forall i {:trigger ValidHop(hops[i], roots)} :: 0 <= i < |hops| ==> ValidHop(hops[i], roots)
  }

  ghost predicate ValidHop(h: Hop, roots: seq<NameServer>)
    decreases h, 3
  {
    ValidGlue(h.glue, roots)
  }

  ghost predicate ValidGlue(glue: Glue, roots: seq<NameServer>)
    decreases glue, 3
  {
    glue.Referral? ==> ValidWalks(glue.nested, roots)
  }

  ghost predicate ValidWalks(ws: seq<Walk>, roots: seq<NameServer>)
    decreases ws, 2
  {
    forall i {:trigger ValidWalk(ws[i], roots)} :: 0 <= i < |ws| ==> ValidWalk(ws[i], roots)
  }

  // ---- One step more ----

  /** Adding a hop's lookups to those of the hops before it. */
  lemma CallsJoin(calls: seq<Call>, before: seq<Call>, h: Hop)
    ensures calls + before + [h.call] + GlueCalls(h.glue) == calls + (before + CallsOf(h))
    ensures |before + CallsOf(h)| == |before| + 1 + |GlueCalls(h.glue)|
  {
    Associative(calls + before, [h.call], GlueCalls(h.glue));
    Associative(calls, before, CallsOf(h));
  }

  lemma HopsMore(hops: seq<Hop>, h: Hop, roots: seq<NameServer>)
    requires ValidHops(hops, roots) && ValidHop(h, roots)
    ensures HopCalls(hops + [h]) == HopCalls(hops) + CallsOf(h)
    ensures ValidHops(hops + [h], roots)
  {
    assert (hops + [h])[..|hops|] == hops;
    forall i | 0 <= i < |hops + [h]|
      ensures ValidHop((hops + [h])[i], roots)
    {
      if i < |hops| {
        assert ValidHop(hops[i], roots);
      }
    }
  }

  lemma WalksMore(ws: seq<Walk>, w: Walk, roots: seq<NameServer>)
    requires ValidWalks(ws, roots) && ValidWalk(w, roots)
    ensures WalkCalls(ws + [w]) == WalkCalls(ws) + Calls(w)
    ensures ValidWalks(ws + [w], roots)
  {
    assert (ws + [w])[..|ws|] == ws;
    forall i | 0 <= i < |ws + [w]|
      ensures ValidWalk((ws + [w])[i], roots)
    {
      if i < |ws| {
        assert ValidWalk(ws[i], roots);
      }
    }
  }

  /** A lookup that settles the question by itself. */
  lemma PlainHop(q: Question, roots: seq<NameServer>, before: seq<Hop>, c: Call, budget: int)
    requires budget - |HopCalls(before)| > 0 && Asks(q, roots, before, c) && !IsReferral(c.outcome)
    ensures HopOk(q, roots, before, Hop(c, NoReferral), budget)
    ensures EndsAt(q, Hop(c, NoReferral), c.outcome)
  {
  }

  /** A referral taken up with rest of the budget left. */
  lemma ReferralHop(q: Question, roots: seq<NameServer>, before: seq<Hop>, c: Call, glue: Glue, budget: int, rest: int,
                    next: Servers)
    requires rest == budget - |HopCalls(before)| - 1 && rest >= 0
    requires Asks(q, roots, before, c) && IsReferral(c.outcome)
    requires Taken(q, c.zone, c.outcome.value, glue, rest, next)
    ensures HopOk(q, roots, before, Hop(c, glue), budget)
    ensures next.Ok? ==> GoesOn(Hop(c, glue)) && glue.servers == next
    ensures next.Err? ==> EndsAt(q, Hop(c, glue), Err(next.error))
  {
  }

  lemma AllHopsMore(q: Question, roots: seq<NameServer>, hops: seq<Hop>, h: Hop, budget: int)
    requires AllHops(q, roots, hops, budget) && HopOk(q, roots, hops, h, budget)
    ensures AllHops(q, roots, hops + [h], budget)
  {
    var more := hops + [h];
    forall i | 0 <= i < |more|
      ensures HopOk(q, roots, more[..i], more[i], budget)
    {
      if i < |hops| {
        assert more[..i] == hops[..i];
        assert HopOk(q, roots, hops[..i], hops[i], budget);
      } else {
        assert more[..i] == hops;
      }
    }
  }

  lemma AllGoOnMore(hops: seq<Hop>, h: Hop)
    requires AllGoOn(hops) && GoesOn(h)
    ensures AllGoOn(hops + [h])
  {
    forall i | 0 <= i < |hops + [h]|
      ensures GoesOn((hops + [h])[i])
    {
      if i < |hops| {
        assert GoesOn(hops[i]);
      }
    }
  }

  /** Going on after one more referral. */
  lemma WentOn(q: Question, roots: seq<NameServer>, hops: seq<Hop>, h: Hop, budget: int)
    requires AllHops(q, roots, hops, budget) && AllGoOn(hops) && ValidHops(hops, roots)
    requires HopOk(q, roots, hops, h, budget) && GoesOn(h) && ValidHop(h, roots)
    ensures AllHops(q, roots, hops + [h], budget) && AllGoOn(hops + [h]) && ValidHops(hops + [h], roots)
    ensures HopCalls(hops + [h]) == HopCalls(hops) + CallsOf(h)
    ensures NextZone(hops + [h]) == DelegationOwner(h.call.outcome.value.ns)
    ensures NextServers(hops + [h], roots) == h.glue.servers.value
  {
    HopsMore(hops, h, roots);
    AllHopsMore(q, roots, hops, h, budget);
    AllGoOnMore(hops, h);
  }

  /** Ending at one more lookup. */
  lemma Settled(q: Question, roots: seq<NameServer>, hops: seq<Hop>, h: Hop, result: Resolved, budget: int)
    returns (w: Walk)
    requires |hops| < MAX_HOPS && AllHops(q, roots, hops, budget) && AllGoOn(hops) && ValidHops(hops, roots)
    requires HopOk(q, roots, hops, h, budget) && EndsAt(q, h, result) && ValidHop(h, roots)
    ensures w == Walk(q, budget, hops + [h], result) && ValidWalk(w, roots)
    ensures Calls(w) == HopCalls(hops) + CallsOf(h)
  {
    w := Walk(q, budget, hops + [h], result);
    assert w.hops[..|w.hops| - 1] == hops;
    HopsMore(hops, h, roots);
    AllHopsMore(q, roots, hops, h, budget);
    assert Settles(w);
  }

  lemma NestedMore(depth: nat, names: seq<Name>, nested: seq<Walk>, w: Walk, budget: int)
    requires |nested| < |names| && NestedWalks(depth, names, nested, budget)
    requires NestedAt(depth, names[|nested|], nested, w, budget)
    ensures NestedWalks(depth, names, nested + [w], budget)
  {
    var more := nested + [w];
    forall j | 0 <= j < |more|
      ensures NestedAt(depth, names[j], more[..j], more[j], budget)
    {
      if j < |nested| {
        assert more[..j] == nested[..j];
        assert NestedAt(depth, names[j], nested[..j], nested[j], budget);
      } else {
        assert more[..j] == nested;
      }
    }
  }

  lemma LastErrorMore(nested: seq<Walk>, w: Walk)
    ensures LastError(nested + [w]) == if w.result.Err? then Some(w.result.error) else LastError(nested)
  {
    assert (nested + [w])[..|nested|] == nested;
  }

  lemma FruitlessMore(names: seq<Name>, nested: seq<Walk>, w: Walk)
    requires |nested| < |names| && AllFruitless(names, nested) && Fruitless(names[|nested|], w)
    ensures AllFruitless(names, nested + [w])
  {
    var more := nested + [w];
    forall j | 0 <= j < |more|
      ensures Fruitless(names[j], more[j])
    {
      if j < |nested| {
        assert Fruitless(names[j], nested[j]);
      }
    }
  }

  lemma FruitFound(names: seq<Name>, nested: seq<Walk>, w: Walk, addrs: seq<NameServer>)
    requires |nested| < |names| && AllFruitless(names, nested)
    requires addrs == ResultAddrs(names[|nested|], w.result) && addrs != []
    ensures FirstFruit(names, nested + [w], Ok(addrs))
  {
    assert (nested + [w])[..|nested|] == nested;
  }
}
