/** What a resolution makes of each of its lookups, in terms of the records that came back. */
module Steps {
  import opened Sequences
  import opened Names
  import opened Records
  import opened Helper
  import opened Walk
  import opened WalkProofs
  import opened Addresses

  // ---- Reading a lookup's result ----

  /** ns[k] is the first NS record. */
  predicate FirstNS(ns: seq<RR>, k: nat) {
    k < |ns| && ns[k].data.NS? && forall j :: 0 <= j < k ==> !ns[j].data.NS?
  }

  lemma {:induction false} DelegationOwnerExact(ns: seq<RR>, k: nat)
    requires FirstNS(ns, k)
    ensures DelegationOwner(ns) == ns[k].owner && HasNS(ns)
  {
    assert ns[k] in ns;
    if k == 0 {
    } else {
      assert !ns[0].data.NS?;
      DelegationOwnerExact(ns[1..], k - 1);
    }
  }

  // ---- What a lookup leads to ----

  /** Every lookup asks the question; the first one asks the root's servers. */
  lemma QuestionAsked(w: Walk, roots: seq<NameServer>, i: nat)
    requires ValidWalk(w, roots) && i < |w.hops|
    ensures w.hops[i].call.name == w.question.name && w.hops[i].call.qtype == w.question.qtype
    ensures i == 0 ==> w.hops[i].call.zone == Fq([]) && w.hops[i].call.servers == roots
  {
    AsksAt(w, roots, i);
  }

  lemma HopNotReferral(q: Question, roots: seq<NameServer>, before: seq<Hop>, h: Hop, budget: int)
    requires HopOk(q, roots, before, h, budget) && !Narrows(h.call)
    ensures !GoesOn(h)
  {
  }

  /** A hop without a narrowing referral is where the resolution ended. */
  lemma NotGoneOn(w: Walk, roots: seq<NameServer>, i: nat)
    requires ValidWalk(w, roots) && i < |w.hops| && !Narrows(w.hops[i].call)
    ensures i == |w.hops| - 1 && EndsAt(w.question, w.hops[i], w.result)
  {
    HopAt(w, roots, i);
    HopNotReferral(w.question, roots, w.hops[..i], w.hops[i], w.budget);
  }

  /** A lookup that fails is the last, and its error the result. */
  lemma FailureEnds(w: Walk, roots: seq<NameServer>, i: nat)
    requires ValidWalk(w, roots) && i < |w.hops| && w.hops[i].call.outcome.Err?
    ensures i == |w.hops| - 1 && w.result == w.hops[i].call.outcome
  {
    NotGoneOn(w, roots, i);
  }

  lemma ReferralEndsBadly(w: Walk, roots: seq<NameServer>, i: nat)
    requires ValidWalk(w, roots) && i < |w.hops| && IsReferral(w.hops[i].call.outcome)
    ensures i == |w.hops| - 1 ==> w.result.Err?
  {
  }

  /** A lookup that succeeds is the last, with its outcome as the result, exactly if it settles the question. */
  lemma FinalEnds(w: Walk, roots: seq<NameServer>, i: nat)
    requires ValidWalk(w, roots) && i < |w.hops| && w.hops[i].call.outcome.Ok?
    ensures i == |w.hops| - 1 && w.result == w.hops[i].call.outcome <==>
      var r := w.hops[i].call.outcome.value;
      r.rcode != 0 || r.answer != [] || forall x :: x in r.ns ==> !x.data.NS?
  {
    var c := w.hops[i].call;
    if IsReferral(c.outcome) {
      ReferralEndsBadly(w, roots, i);
    } else {
      NotGoneOn(w, roots, i);
    }
  }

  lemma FollowedHop(w: Walk, roots: seq<NameServer>, i: nat)
    requires ValidWalk(w, roots) && i < |w.hops| && Narrows(w.hops[i].call)
    ensures w.hops[i].glue.Referral?
    ensures i < |w.hops| - 1 ==> w.hops[i].glue.servers.Ok?
  {
    HopAt(w, roots, i);
  }

  lemma BudgetNonnegative(w: Walk, roots: seq<NameServer>)
    requires ValidWalk(w, roots) && w.hops != []
    ensures w.budget > 0
  {
    HopAt(w, roots, 0);
    assert HopCalls(w.hops[..0]) == [];
  }

  /** A resolution whose last hop found servers stopped for want of hops or of budget. */
  lemma GaveUp(w: Walk, roots: seq<NameServer>)
    requires ValidWalk(w, roots) && w.hops != [] && Narrows(w.hops[|w.hops| - 1].call)
    requires w.hops[|w.hops| - 1].glue.Referral? && w.hops[|w.hops| - 1].glue.servers.Ok?
    ensures || (|w.hops| == 20 && w.result == Err(HopsExceeded(w.question.name, w.question.qtype)))
            || (|w.hops| < 20 && |Calls(w)| == w.budget
                && w.result == Err(BudgetExceeded(w.question.name, w.question.qtype)))
  {
    WalkWithinBudget(w, roots);
    BudgetNonnegative(w, roots);
  }

  lemma ServersFailed(w: Walk, roots: seq<NameServer>)
    requires ValidWalk(w, roots) && w.hops != [] && Narrows(w.hops[|w.hops| - 1].call)
    requires w.hops[|w.hops| - 1].glue.Referral? && w.hops[|w.hops| - 1].glue.servers.Err?
    ensures var h := w.hops[|w.hops| - 1];
      w.result == Err(ReferralFailed(w.question.name, w.question.qtype, DelegationOwner(h.call.outcome.value.ns),
                                     h.glue.servers.error))
  {
    HopAt(w, roots, |w.hops| - 1);
  }

  /** A narrowing referral is followed, or fails for want of servers, of hops or of budget. */
  lemma NarrowingLeads(w: Walk, roots: seq<NameServer>, i: nat)
    requires ValidWalk(w, roots) && i < |w.hops| && Narrows(w.hops[i].call)
    ensures var h, q, last := w.hops[i], w.question, i == |w.hops| - 1;
      var owner := DelegationOwner(h.call.outcome.value.ns);
      && h.glue.Referral?
      && if h.glue.servers.Err? then
           last && w.result == Err(ReferralFailed(q.name, q.qtype, owner, h.glue.servers.error))
         else if last then
           || (|w.hops| == 20 && w.result == Err(HopsExceeded(q.name, q.qtype)))
           || (|w.hops| < 20 && |Calls(w)| == w.budget && w.result == Err(BudgetExceeded(q.name, q.qtype)))
         else w.hops[i + 1].call.zone == owner && w.hops[i + 1].call.servers == h.glue.servers.value
  {
    FollowedHop(w, roots, i);
    if i < |w.hops| - 1 {
      AsksNext(w, roots, i + 1);
    } else if w.hops[i].glue.servers.Ok? {
      GaveUp(w, roots);
    } else {
      ServersFailed(w, roots);
    }
  }

  /**
    A referral leads to the owner of its first NS record. If that is the zone asked, up to case, there is no
    progress; if no servers are found for it, the resolution fails; otherwise it goes on there with these servers,
    unless it is out of hops, or has spent its budget.
    */
  lemma ReferralLeads(w: Walk, roots: seq<NameServer>, i: nat, k: nat)
    requires ValidWalk(w, roots) && i < |w.hops| && w.hops[i].call.outcome.Ok?
    requires var r := w.hops[i].call.outcome.value; r.rcode == 0 && r.answer == [] && FirstNS(r.ns, k)
    ensures var h, q, last := w.hops[i], w.question, i == |w.hops| - 1;
      var owner := h.call.outcome.value.ns[k].owner;
      if EqualFold(owner, h.call.zone) then last && w.result == Err(NoProgress(q.name, q.qtype, h.call.zone))
      else
        && h.glue.Referral?
        && if h.glue.servers.Err? then
             last && w.result == Err(ReferralFailed(q.name, q.qtype, owner, h.glue.servers.error))
           else if last then
             || (|w.hops| == 20 && w.result == Err(HopsExceeded(q.name, q.qtype)))
             || (|w.hops| < 20 && |Calls(w)| == w.budget && w.result == Err(BudgetExceeded(q.name, q.qtype)))
           else w.hops[i + 1].call.zone == owner && w.hops[i + 1].call.servers == h.glue.servers.value
  {
    DelegationOwnerExact(w.hops[i].call.outcome.value.ns, k);
    if EqualFold(w.hops[i].call.outcome.value.ns[k].owner, w.hops[i].call.zone) {
      NotGoneOn(w, roots, i);
    } else {
      NarrowingLeads(w, roots, i);
    }
  }

  /** A resolution that makes no lookup had no budget. */
  lemma NoLookup(w: Walk, roots: seq<NameServer>)
    requires ValidWalk(w, roots) && w.hops == []
    ensures w.budget <= 0 && w.result == Err(BudgetExceeded(w.question.name, w.question.qtype))
  {
  }

  // ---- The search for servers ----

  /** The result has a usable A record with this address. */
  ghost predicate ResultGives(r: Resolved, addr: Addr) {
    r.Ok? && AnswerGives(r.value.answer, addr)
  }

  lemma FruitlessExact(name: Name, w: Walk)
    ensures Fruitless(name, w) <==> forall addr :: !ResultGives(w.result, addr)
  {
    var found := ResultAddrs(name, w.result);
    if found != [] {
      AnswerAddrsExact(name, w.result.value.answer, found[0]);
      assert ResultGives(w.result, found[0].addr);
    }
    if addr :| ResultGives(w.result, addr) {
      AnswerAddrsExact(name, w.result.value.answer, NameServer(name, addr));
    }
  }

  ghost predicate FailedLast(nested: seq<Walk>, e: Error, j: int) {
    && 0 <= j < |nested| && nested[j].result == Err(e)
    && forall k :: j < k < |nested| ==> nested[k].result.Ok?
  }

  /** The error reported is the one of the last resolution that failed, if any did. */
  lemma {:induction false} LastErrorExact(nested: seq<Walk>, e: Error)
    ensures LastError(nested) == Some(e) <==> exists j :: FailedLast(nested, e, j)
  {
    if nested == [] {
    } else {
      var n := |nested| - 1;
      LastErrorExact(nested[..n], e);
      if j :| FailedLast(nested[..n], e, j) {
        assert nested[n].result.Ok? ==> FailedLast(nested, e, j);
      }
      if j :| FailedLast(nested, e, j) {
        assert j < n ==> FailedLast(nested[..n], e, j);
      }
      assert nested[n].result == Err(e) ==> FailedLast(nested, e, n);
    }
  }

  lemma NoGlueExact(names: seq<Name>, extra: seq<RR>)
    ensures AllGlue(names, extra) == [] <==> forall s: NameServer :: s.name in names ==> !GlueGives(extra, s)
  {
    forall s
      ensures s in AllGlue(names, extra) <==> s.name in names && GlueGives(extra, s)
    {
      AllGlueExact(names, extra, s);
    }
    if AllGlue(names, extra) != [] {
      assert AllGlue(names, extra)[0] in AllGlue(names, extra);
    }
  }

  lemma LastFruit(names: seq<Name>, nested: seq<Walk>, servers: Servers)
    requires FirstFruit(names, nested, servers)
    ensures servers.Ok? && var n := |nested| - 1;
      && (forall s: NameServer :: s in servers.value <==> s.name == names[n] && ResultGives(nested[n].result, s.addr))
      && (exists addr :: ResultGives(nested[n].result, addr))
      && forall j, addr :: 0 <= j < n ==> !ResultGives(nested[j].result, addr)
  {
    var n := |nested| - 1;
    forall s
      ensures s in servers.value <==> s.name == names[n] && ResultGives(nested[n].result, s.addr)
    {
      AnswerAddrsExact(names[n], nested[n].result.value.answer, s);
    }
    FruitlessExact(names[n], nested[n]);
    forall j, addr | 0 <= j < n
      ensures !ResultGives(nested[j].result, addr)
    {
      assert Fruitless(names[j], nested[..n][j]);
      FruitlessExact(names[j], nested[j]);
    }
  }

  // ---- The search a lookup leads to ----

  /** What usable glue for s means for the servers that a hop found. */
  ghost predicate ServedByGlue(h: Hop, s: NameServer)
    requires h.glue.Referral? && h.call.outcome.Ok?
  {
    var r := h.call.outcome.value;
    s.name in UniqueNSNames(r.ns) && GlueGives(r.extra, s) ==>
      && h.glue.nested == [] && h.glue.servers.Ok? && s in h.glue.servers.value
      && forall x :: x in h.glue.servers.value <==> x.name in UniqueNSNames(r.ns) && GlueGives(r.extra, x)
  }

  lemma HopServedByGlue(q: Question, roots: seq<NameServer>, before: seq<Hop>, h: Hop, budget: int, s: NameServer)
    requires HopOk(q, roots, before, h, budget) && h.glue.Referral?
    ensures h.call.outcome.Ok? && ServedByGlue(h, s)
  {
    HopNarrowed(q, roots, before, h, budget);
    var r := h.call.outcome.value;
    forall x
      ensures x in AllGlue(UniqueNSNames(r.ns), r.extra) <==> x.name in UniqueNSNames(r.ns) && GlueGives(r.extra, x)
    {
      AllGlueExact(UniqueNSNames(r.ns), r.extra, x);
    }
  }

  /** If a referral has usable glue for one of its hosts, nothing is resolved: the servers are what the glue gives. */
  lemma GlueServes(w: Walk, roots: seq<NameServer>, i: nat, s: NameServer)
    requires ValidWalk(w, roots) && i < |w.hops| && w.hops[i].glue.Referral?
    ensures w.hops[i].call.outcome.Ok?
    ensures var h, r := w.hops[i], w.hops[i].call.outcome.value;
      s.name in UniqueNSNames(r.ns) && GlueGives(r.extra, s) ==>
        && h.glue.nested == [] && h.glue.servers.Ok? && s in h.glue.servers.value
        && forall x :: x in h.glue.servers.value <==> x.name in UniqueNSNames(r.ns) && GlueGives(r.extra, x)
  {
    HopAt(w, roots, i);
    HopServedByGlue(w.question, roots, w.hops[..i], w.hops[i], w.budget, s);
  }

  /** What comes of a referral without usable glue, at some depth. */
  ghost predicate ServedByHosts(depth: nat, h: Hop)
    requires h.glue.Referral? && h.call.outcome.Ok?
  {
    var glue, names := h.glue, UniqueNSNames(h.call.outcome.value.ns);
    if depth >= 4 then glue.nested == [] && glue.servers == Err(GlueTooDeep(names))
    else
      && |glue.nested| <= |names|
      && (glue.servers.Ok? <==> exists j, addr :: 0 <= j < |glue.nested| && ResultGives(glue.nested[j].result, addr))
      && (glue.servers.Ok? ==> glue.nested != [] && forall s: NameServer :: s in glue.servers.value <==>
            s.name == names[|glue.nested| - 1] && ResultGives(glue.nested[|glue.nested| - 1].result, s.addr))
      && (forall j, addr :: 0 <= j < |glue.nested| - 1 ==> !ResultGives(glue.nested[j].result, addr))
      && (glue.servers.Err? ==>
            |glue.nested| == |names| && glue.servers == Err(NoAddress(names, LastError(glue.nested))))
  }

  lemma HopServedByHosts(q: Question, roots: seq<NameServer>, before: seq<Hop>, h: Hop, budget: int)
    requires HopOk(q, roots, before, h, budget) && h.glue.Referral? && h.call.outcome.Ok?
    requires forall s: NameServer :: s.name in UniqueNSNames(h.call.outcome.value.ns) ==>
      !GlueGives(h.call.outcome.value.extra, s)
    ensures ServedByHosts(q.depth, h)
  {
    HopNarrowed(q, roots, before, h, budget);
    var names, nested := UniqueNSNames(h.call.outcome.value.ns), h.glue.nested;
    NoGlueExact(names, h.call.outcome.value.extra);
    forall j | 0 <= j < |nested| && j < |names|
      ensures Fruitless(names[j], nested[j]) <==> forall addr :: !ResultGives(nested[j].result, addr)
    {
      FruitlessExact(names[j], nested[j]);
    }
    if FirstFruit(names, nested, h.glue.servers) {
      LastFruit(names, nested, h.glue.servers);
    }
  }

  /**
    Without usable glue its hosts are resolved in turn, unless the resolution is itself four deep: servers are
    found exactly if one of the resolutions holds a usable A record, and then they are what that resolution
    holds; otherwise all hosts are resolved.
    */
  lemma HostsServe(w: Walk, roots: seq<NameServer>, i: nat)
    requires ValidWalk(w, roots) && i < |w.hops| && w.hops[i].glue.Referral? && w.hops[i].call.outcome.Ok?
    requires forall s: NameServer :: s.name in UniqueNSNames(w.hops[i].call.outcome.value.ns) ==>
      !GlueGives(w.hops[i].call.outcome.value.extra, s)
    ensures ServedByHosts(w.question.depth, w.hops[i])
  {
    HopAt(w, roots, i);
    HopServedByHosts(w.question, roots, w.hops[..i], w.hops[i], w.budget);
  }

  lemma HostAsked(q: Question, roots: seq<NameServer>, before: seq<Hop>, h: Hop, budget: int, j: nat)
    requires HopOk(q, roots, before, h, budget) && h.glue.Referral? && j < |h.glue.nested|
    ensures h.call.outcome.Ok? && j < |UniqueNSNames(h.call.outcome.value.ns)|
    ensures h.glue.nested[j].question == Question(UniqueNSNames(h.call.outcome.value.ns)[j], 1, q.depth + 1)
  {
    HopNarrowed(q, roots, before, h, budget);
    var names := UniqueNSNames(h.call.outcome.value.ns);
    assert NestedAt(q.depth, names[j], h.glue.nested[..j], h.glue.nested[j], budget - |HopCalls(before)| - 1);
  }

  /** What is resolved for a host is the question for its A records, one level deeper, host by host. */
  lemma HostsAsked(w: Walk, roots: seq<NameServer>, i: nat, j: nat)
    requires ValidWalk(w, roots) && i < |w.hops| && w.hops[i].glue.Referral? && j < |w.hops[i].glue.nested|
    ensures w.hops[i].call.outcome.Ok? && j < |UniqueNSNames(w.hops[i].call.outcome.value.ns)|
    ensures w.hops[i].glue.nested[j].question ==
            Question(UniqueNSNames(w.hops[i].call.outcome.value.ns)[j], 1, w.question.depth + 1)
  {
    HopAt(w, roots, i);
    HostAsked(w.question, roots, w.hops[..i], w.hops[i], w.budget, j);
  }
}
