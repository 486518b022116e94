/** The recursive handler: iterative resolution from the roots, over one shared budget of lookups. */
module Recursive {
  import opened Sequences
  import opened Names
  import opened Records
  import opened Helper
  import opened Walk
  import opened Chase
  import opened Run
  import opened Descent

  /** The lookups left, shared by a resolution and all those nested inside it. */
  class Budget {
    var left: int

    constructor (left: int)
      ensures this.left == left
    {
      this.left := left;
    }
  }

  lemma FoldInMore(n: Name, names: seq<Name>, m: Name)
    ensures FoldIn(n, names + [m]) <==> FoldIn(n, names) || EqualFold(m, n)
  {
    if FoldIn(n, names) {
      var i :| 0 <= i < |names| && EqualFold(names[i], n);
      assert EqualFold((names + [m])[i], n);
    }
    assert (names + [m])[|names|] == m;
  }

  method UniqueNames(ns: seq<RR>) returns (names: seq<Name>)
    ensures names == UniqueNSNames(ns)
  {
    var seen: set<Name> := {};
    names := [];
    for i := 0 to |ns|
      invariant names == UniqueNSNames(ns[..i])
      invariant forall n :: Fold(n) in seen <==> FoldIn(n, names)
    {
      assert ns[..i + 1][..i] == ns[..i];
      if !ns[i].data.NS? {
        continue;
      }
      var host := ns[i].data.host;
      var key := Fold(host);
      if key in seen {
        continue;
      }
      ghost var before := names;
      seen := seen + {key};
      names := names + [host];
      forall n
        ensures FoldIn(n, names) <==> FoldIn(n, before) || EqualFold(host, n)
      {
        FoldInMore(n, before, host);
      }
    }
    assert ns[..|ns|] == ns;
  }

  method CollectGlue(names: seq<Name>, extra: seq<RR>) returns (out: seq<NameServer>)
    ensures out == AllGlue(names, extra)
  {
    out := [];
    for i := 0 to |names|
      invariant out == AllGlue(names[..i], extra)
    {
      assert names[..i + 1][..i] == names[..i];
      for j := 0 to |extra|
        invariant out == AllGlue(names[..i], extra) + GlueFor(names[i], extra[..j])
      {
        assert extra[..j + 1][..j] == extra[..j];
        Associative(AllGlue(names[..i], extra), GlueFor(names[i], extra[..j]), GlueOf(names[i], extra[j]));
        match extra[j].data {
          case A(ip) =>
            if EqualFold(extra[j].owner, names[i]) && AddrFromSlice(ip).Some? {
              out := out + [NameServer(names[i], ip)];
            }
          case AAAA(ip) =>
            if EqualFold(extra[j].owner, names[i]) && AddrFromSlice(ip).Some? {
              out := out + [NameServer(names[i], ip)];
            }
          case _ =>
        }
      }
      assert extra[..|extra|] == extra;
    }
    assert names[..|names|] == names;
  }

  method CollectAddrs(name: Name, answer: seq<RR>) returns (out: seq<NameServer>)
    ensures out == AnswerAddrs(name, answer)
  {
    out := [];
    for i := 0 to |answer|
      invariant out == AnswerAddrs(name, answer[..i])
    {
      assert answer[..i + 1][..i] == answer[..i];
      if answer[i].data.A? {
        if AddrFromSlice(answer[i].data.ip).Some? {
          out := out + [NameServer(name, answer[i].data.ip)];
        }
      }
    }
    assert answer[..|answer|] == answer;
  }

  /** One more host's resolution. */
  lemma HostResolved(depth: nat, names: seq<Name>, nested: seq<Walk>, w: Walk, budget: int, roots: seq<NameServer>,
                     calls: seq<Call>)
    requires |nested| < |names| && NestedWalks(depth, names, nested, budget) && ValidWalks(nested, roots)
    requires ValidWalk(w, roots) && NestedAt(depth, names[|nested|], nested, w, budget)
    ensures NestedWalks(depth, names, nested + [w], budget) && ValidWalks(nested + [w], roots)
    ensures LastError(nested + [w]) == if w.result.Err? then Some(w.result.error) else LastError(nested)
    ensures calls + WalkCalls(nested) + Calls(w) == calls + WalkCalls(nested + [w])
    ensures |WalkCalls(nested + [w])| == |WalkCalls(nested)| + |Calls(w)|
  {
    LastErrorMore(nested, w);
    NestedMore(depth, names, nested, w, budget);
    WalksMore(nested, w, roots);
    Associative(calls, WalkCalls(nested), Calls(w));
  }

  /** Walk the delegations from the root down to the zone that settles the question. */
  method ResolveIterative(helper: RequestHelper, name: Name, qtype: U16, budget: Budget, depth: nat)
    returns (result: Resolved, ghost walk: Walk)
    requires helper.Valid()
    modifies helper`calls, helper`exchanges, helper`polls, helper.cache, budget
    ensures helper.Valid()
    ensures walk == Walk(Question(name, qtype, depth), old(budget.left), walk.hops, result)
    ensures ValidWalk(walk, helper.rootHints)
    ensures helper.calls == old(helper.calls) + Calls(walk)
    ensures budget.left == old(budget.left) - |Calls(walk)|
    decreases if depth < MAX_GLUE_DEPTH then MAX_GLUE_DEPTH - depth else 0, 3
  {
    ghost var q, roots, start := Question(name, qtype, depth), helper.rootHints, budget.left;
    ghost var calls := helper.calls;
    ghost var hops: seq<Hop> := [];
    var zone := ROOT;
    var nameservers := helper.rootHints;
    for hop := 0 to MAX_HOPS
      invariant helper.Valid() && |hops| == hop
      invariant AllHops(q, roots, hops, start) && AllGoOn(hops) && ValidHops(hops, roots)
      invariant zone == NextZone(hops) && nameservers == NextServers(hops, roots)
      invariant helper.calls == calls + HopCalls(hops)
      invariant budget.left == start - |HopCalls(hops)|
    {
      if budget.left <= 0 {
        result := Err(BudgetExceeded(name, qtype));
        walk := Walk(q, start, hops, result);
        assert GivesUp(walk);
        return;
      }
      budget.left := budget.left - 1;
      var outcome, call, _, _ := helper.Lookup(name, qtype, zone, nameservers);
      ghost var rest := budget.left;
      if !IsReferral(outcome) {
        PlainHop(q, roots, hops, call, start);
        CallsJoin(calls, HopCalls(hops), Hop(call, NoReferral));
        walk := Settled(q, roots, hops, Hop(call, NoReferral), outcome, start);
        return outcome, walk;
      }
      var next, glue := FollowReferral(helper, name, qtype, zone, outcome.value, budget, depth);
      ghost var last := Hop(call, glue);
      ReferralHop(q, roots, hops, call, glue, start, rest, next);
      CallsJoin(calls, HopCalls(hops), last);
      if next.Err? {
        result := Err(next.error);
        walk := Settled(q, roots, hops, last, result, start);
        return;
      }
      WentOn(q, roots, hops, last, start);
      hops := hops + [last];
      zone := DelegationOwner(outcome.value.ns);
      nameservers := next.value;
    }
    result := Err(HopsExceeded(name, qtype));
    walk := Walk(q, start, hops, result);
    assert GivesUp(walk);
  }

  /** Take up a referral: it must lead to another zone, and servers must be found for it. */
  method FollowReferral(helper: RequestHelper, name: Name, qtype: U16, zone: Name, r: LookupResult, budget: Budget,
                        depth: nat)
    returns (next: Servers, ghost glue: Glue)
    requires helper.Valid() && IsReferral(Ok(r))
    modifies helper`calls, helper`exchanges, helper`polls, helper.cache, budget
    ensures helper.Valid()
    ensures Taken(Question(name, qtype, depth), zone, r, glue, old(budget.left), next)
    ensures ValidGlue(glue, helper.rootHints)
    ensures helper.calls == old(helper.calls) + GlueCalls(glue)
    ensures budget.left == old(budget.left) - |GlueCalls(glue)|
    decreases if depth < MAX_GLUE_DEPTH then MAX_GLUE_DEPTH - depth else 0, 2
  {
    var delegatedZone := DelegationOwner(r.ns);
    if EqualFold(delegatedZone, zone) {
      return Err(NoProgress(name, qtype, zone)), NoReferral;
    }
    var servers, nested := ResolveNameservers(helper, r.ns, r.extra, budget, depth);
    glue := Referral(nested, servers);
    if servers.Err? {
      next := Err(ReferralFailed(name, qtype, delegatedZone, servers.error));
    } else {
      next := servers;
    }
  }

  /** The addresses to ask next: from glue, or else by resolving the nameservers' names one by one. */
  method ResolveNameservers(helper: RequestHelper, ns: seq<RR>, extra: seq<RR>, budget: Budget, depth: nat)
    returns (servers: Servers, ghost nested: seq<Walk>)
    requires helper.Valid()
    modifies helper`calls, helper`exchanges, helper`polls, helper.cache, budget
    ensures helper.Valid()
    ensures FoundServers(depth, ns, extra, nested, servers, old(budget.left))
    ensures ValidWalks(nested, helper.rootHints)
    ensures helper.calls == old(helper.calls) + WalkCalls(nested)
    ensures budget.left == old(budget.left) - |WalkCalls(nested)|
    decreases if depth < MAX_GLUE_DEPTH then MAX_GLUE_DEPTH - depth else 0, 1
  {
    var names := UniqueNames(ns);
    nested := [];
    var out := CollectGlue(names, extra);
    if |out| > 0 {
      return Ok(out), nested;
    }
    if depth >= MAX_GLUE_DEPTH {
      return Err(GlueTooDeep(names)), nested;
    }
    servers, nested := ResolveHosts(helper, names, budget, depth);
  }

  /** Resolve the names one by one until one yields an address. */
  method ResolveHosts(helper: RequestHelper, names: seq<Name>, budget: Budget, depth: nat)
    returns (servers: Servers, ghost nested: seq<Walk>)
    requires helper.Valid() && depth < MAX_GLUE_DEPTH
    modifies helper`calls, helper`exchanges, helper`polls, helper.cache, budget
    ensures helper.Valid()
    ensures NestedWalks(depth, names, nested, old(budget.left))
    ensures FirstFruit(names, nested, servers) || NoFruit(names, nested, servers)
    ensures ValidWalks(nested, helper.rootHints)
    ensures helper.calls == old(helper.calls) + WalkCalls(nested)
    ensures budget.left == old(budget.left) - |WalkCalls(nested)|
    decreases MAX_GLUE_DEPTH - depth, 0
  {
    ghost var roots, start, calls := helper.rootHints, budget.left, helper.calls;
    var lastErr: Option<Error> := None;
    nested := [];
    for i := 0 to |names|
      invariant helper.Valid() && |nested| == i
      invariant NestedWalks(depth, names, nested, start) && ValidWalks(nested, roots)
      invariant AllFruitless(names, nested) && lastErr == LastError(nested)
      invariant helper.calls == calls + WalkCalls(nested)
      invariant budget.left == start - |WalkCalls(nested)|
    {
      var result, walk := ResolveIterative(helper, names[i], TYPE_A, budget, depth + 1);
      HostResolved(depth, names, nested, walk, start, roots, calls);
      ghost var before := nested;
      nested := nested + [walk];
      if result.Err? {
        lastErr := Some(result.error);
        FruitlessMore(names, before, walk);
        continue;
      }
      var out := CollectAddrs(names[i], result.value.answer);
      if |out| > 0 {
        FruitFound(names, before, walk, out);
        return Ok(out), nested;
      }
      FruitlessMore(names, before, walk);
    }
    return Err(NoAddress(names, lastErr)), nested;
  }

  /** Where an answer says to start again, if it does. */
  method RestartTarget(answer: seq<RR>, name: Name, qtype: U16) returns (target: Name, needsRestart: bool)
    ensures needsRestart ==> Dangles(answer, qtype, name, target)
    ensures !needsRestart ==> forall t :: !Dangles(answer, qtype, name, t)
  {
    ghost var why;
    target, needsRestart, why := UnresolvedCNAMETarget(answer, name, qtype);
  }

  // ---- How a request ends ----

  /** The resolutions so far are those of a request. */
  ghost predicate Underway(name: Name, qtype: U16, walks: seq<Walk>, roots: seq<NameServer>) {
    0 < |walks| <= MAX_CNAME_RESTARTS && Restarted(name, qtype, walks) && ValidWalks(walks, roots)
  }

  lemma EndsInError(name: Name, qtype: U16, walks: seq<Walk>, roots: seq<NameServer>)
    requires Underway(name, qtype, walks, roots) && walks[|walks| - 1].result.Err?
    ensures ValidRun(name, qtype, walks, roots, Err(walks[|walks| - 1].result.error))
  {
  }

  lemma EndsNegatively(name: Name, qtype: U16, walks: seq<Walk>, roots: seq<NameServer>, r: LookupResult)
    requires Underway(name, qtype, walks, roots) && walks[|walks| - 1].result == Ok(r)
    requires r.rcode != RCODE_SUCCESS || r.answer == []
    ensures ValidRun(name, qtype, walks, roots, Ok(Response(r.rcode, Joined(walks), r.ns)))
  {
  }

  lemma EndsAnswered(name: Name, qtype: U16, walks: seq<Walk>, roots: seq<NameServer>, r: LookupResult, asked: Name)
    requires Underway(name, qtype, walks, roots)
    requires walks[|walks| - 1].result == Ok(r) && walks[|walks| - 1].question.name == asked
    requires r.rcode == RCODE_SUCCESS && r.answer != [] && forall t :: !Dangles(r.answer, qtype, asked, t)
    ensures ValidRun(name, qtype, walks, roots, Ok(Response(RCODE_SUCCESS, Joined(walks), [])))
  {
  }

  lemma EndsOutOfRestarts(name: Name, qtype: U16, walks: seq<Walk>, roots: seq<NameServer>, target: Name)
    requires Underway(name, qtype, walks, roots)
    requires |walks| == MAX_CNAME_RESTARTS && Restarts(walks[|walks| - 1], target)
    ensures ValidRun(name, qtype, walks, roots, Err(RestartsExceeded(name, qtype)))
  {
    var last := |walks| - 1;
    assert StartsAfter(name, qtype, walks[..last], walks[last]);
    assert Dangles(walks[last].result.value.answer, qtype, walks[last].question.name, target);
  }

  lemma TrustedAfter(before: seq<Call>, calls: seq<Call>)
    requires AllTrustworthy(before + calls)
    ensures AllTrustworthy(calls)
  {
    forall c | c in calls
      ensures Trustworthy(c)
    {
      assert c in before + calls;
    }
  }

  /** What follows from a valid run of trustworthy calls. */
  lemma RunPromises(name: Name, qtype: U16, walks: seq<Walk>, roots: seq<NameServer>, outcome: Handled,
                    before: seq<Call>)
    requires name.Fq? && ValidRun(name, qtype, walks, roots, outcome)
    requires AllTrustworthy(before + WalkCalls(walks))
    ensures |WalkCalls(walks)| <= 100 && AllGrounded(WalkCalls(walks))
    ensures outcome.Ok? ==> Reported(name, qtype, walks, outcome.value)
  {
    TrustedAfter(before, WalkCalls(walks));
    RunGrounded(walks, roots);
    RunWithinBudget(name, qtype, walks, roots, outcome);
    if outcome.Ok? {
      ReportedExact(name, qtype, walks, roots, outcome);
    }
  }

  /** The resolutions so far have led to the name to resolve next, with the answers joined so far. */
  ghost predicate LedTo(name: Name, qtype: U16, walks: seq<Walk>, roots: seq<NameServer>, current: Name,
                        answer: seq<RR>)
  {
    && Restarted(name, qtype, walks) && ValidWalks(walks, roots) && answer == Joined(walks)
    && if walks == [] then current == name else Restarts(walks[|walks| - 1], current)
  }

  lemma ResolvedOnce(name: Name, qtype: U16, walks: seq<Walk>, w: Walk, roots: seq<NameServer>, current: Name,
                     answer: seq<RR>, calls: seq<Call>)
    requires LedTo(name, qtype, walks, roots, current, answer) && |walks| < MAX_CNAME_RESTARTS
    requires ValidWalk(w, roots) && w.question == Question(current, qtype, 0)
    requires w.budget == MAX_TOTAL_LOOKUPS - |WalkCalls(walks)|
    ensures Underway(name, qtype, walks + [w], roots)
    ensures Joined(walks + [w]) == answer + if w.result.Ok? then w.result.value.answer else []
    ensures calls + WalkCalls(walks) + Calls(w) == calls + WalkCalls(walks + [w])
    ensures |WalkCalls(walks + [w])| == |WalkCalls(walks)| + |Calls(w)|
  {
    OneMore(name, qtype, walks, w, roots, calls);
  }

  lemma LedFurther(name: Name, qtype: U16, walks: seq<Walk>, roots: seq<NameServer>, r: LookupResult, asked: Name,
                   target: Name)
    requires Underway(name, qtype, walks, roots)
    requires walks[|walks| - 1].result == Ok(r) && walks[|walks| - 1].question == Question(asked, qtype, 0)
    requires r.rcode == RCODE_SUCCESS && r.answer != [] && Dangles(r.answer, qtype, asked, target)
    ensures LedTo(name, qtype, walks, roots, target, Joined(walks))
  {
  }

  /** Resolve one name from the root: the request is decided, or goes on with another name. */
  method ResolveOnce(helper: RequestHelper, name: Name, qtype: U16, current: Name, answer: seq<RR>, budget: Budget,
                     ghost before: seq<Walk>, ghost calls: seq<Call>)
    returns (decided: Option<Handled>, target: Name, joined: seq<RR>, ghost walks: seq<Walk>)
    requires helper.Valid() && |before| < MAX_CNAME_RESTARTS
    requires LedTo(name, qtype, before, helper.rootHints, current, answer)
    requires helper.calls == calls + WalkCalls(before) && budget.left == MAX_TOTAL_LOOKUPS - |WalkCalls(before)|
    modifies helper`calls, helper`exchanges, helper`polls, helper.cache, budget
    ensures helper.Valid() && |walks| == |before| + 1
    ensures helper.calls == calls + WalkCalls(walks) && budget.left == MAX_TOTAL_LOOKUPS - |WalkCalls(walks)|
    ensures decided.Some? ==> ValidRun(name, qtype, walks, helper.rootHints, decided.value)
    ensures decided.None? ==>
      Underway(name, qtype, walks, helper.rootHints) && LedTo(name, qtype, walks, helper.rootHints, target, joined)
  {
    var result, walk := ResolveIterative(helper, current, qtype, budget, 0);
    ResolvedOnce(name, qtype, before, walk, helper.rootHints, current, answer, calls);
    walks := before + [walk];
    target, joined := current, answer;
    if result.Err? {
      EndsInError(name, qtype, walks, helper.rootHints);
      decided := Some(Err(result.error));
      return;
    }
    joined := answer + result.value.answer;
    if result.value.rcode != RCODE_SUCCESS || |result.value.answer| == 0 {
      EndsNegatively(name, qtype, walks, helper.rootHints, result.value);
      decided := Some(Ok(Response(result.value.rcode, joined, result.value.ns)));
      return;
    }
    var needsRestart;
    target, needsRestart := RestartTarget(result.value.answer, current, qtype);
    if !needsRestart {
      EndsAnswered(name, qtype, walks, helper.rootHints, result.value, current);
      decided := Some(Ok(Response(RCODE_SUCCESS, joined, [])));
      return;
    }
    LedFurther(name, qtype, walks, helper.rootHints, result.value, current, target);
    decided := None;
  }

  /** Resolve a query, starting again from the root for every CNAME that leads out of a zone. */
  method ResolveRestarting(helper: RequestHelper, name: Name, qtype: U16)
    returns (outcome: Handled, ghost walks: seq<Walk>)
    requires helper.Valid()
    modifies helper`calls, helper`exchanges, helper`polls, helper.cache
    ensures helper.Valid()
    ensures ValidRun(name, qtype, walks, helper.rootHints, outcome)
    ensures helper.calls == old(helper.calls) + WalkCalls(walks)
  {
    var budget := new Budget(MAX_TOTAL_LOOKUPS);
    var current := name;
    var answer: seq<RR> := [];
    ghost var calls := helper.calls;
    walks := [];
    for restarts := 0 to MAX_CNAME_RESTARTS
      invariant helper.Valid() && |walks| == restarts
      invariant LedTo(name, qtype, walks, helper.rootHints, current, answer)
      invariant walks != [] ==> Underway(name, qtype, walks, helper.rootHints)
      invariant helper.calls == calls + WalkCalls(walks) && budget.left == MAX_TOTAL_LOOKUPS - |WalkCalls(walks)|
    {
      var decided;
      decided, current, answer, walks :=
        ResolveOnce(helper, name, qtype, current, answer, budget, walks, calls);
      if decided.Some? {
        return decided.value, walks;
      }
    }
    outcome := Err(RestartsExceeded(name, qtype));
    EndsOutOfRestarts(name, qtype, walks, helper.rootHints, current);
  }

  /** Resolve a query: what its response promises. */
  method Handle(helper: RequestHelper, name: Name, qtype: U16) returns (outcome: Handled, ghost walks: seq<Walk>)
    requires helper.Valid() && name.Fq?
    modifies helper`calls, helper`exchanges, helper`polls, helper.cache
    ensures helper.Valid()
    ensures ValidRun(name, qtype, walks, helper.rootHints, outcome)
    ensures helper.calls == old(helper.calls) + WalkCalls(walks) && |WalkCalls(walks)| <= 100
    ensures AllGrounded(WalkCalls(walks))
    ensures outcome.Ok? ==> Reported(name, qtype, walks, outcome.value)
  {
    ghost var before := helper.calls;
    outcome, walks := ResolveRestarting(helper, name, qtype);
    RunPromises(name, qtype, walks, helper.rootHints, outcome, before);
  }
}
