/** What holds of every resolution, at every depth, whatever the servers reply and the cache holds. */
module WalkProofs {
  import opened Sequences
  import opened Names
  import opened Records
  import opened Bailiwick
  import opened Helper
  import opened Walk

  // ---- The shared budget ----

  function Positive(n: int): nat {
    if n > 0 then n else 0
  }

  /** A resolution makes at most as many lookups as there is budget, counting those nested in it. */
  lemma {:induction false} WalkWithinBudget(w: Walk, roots: seq<NameServer>)
    requires ValidWalk(w, roots)
    ensures |Calls(w)| <= Positive(w.budget)
    decreases w, 1
  {
    HopsWithinBudget(w.question, roots, w.hops, w.budget);
  }

  lemma {:induction false} HopsWithinBudget(q: Question, roots: seq<NameServer>, hops: seq<Hop>, budget: int)
    requires AllHops(q, roots, hops, budget) && ValidHops(hops, roots)
    ensures |HopCalls(hops)| <= Positive(budget)
    decreases hops, 0
  {
    if hops == [] {
    } else {
      var n := |hops| - 1;
      assert ValidHop(hops[n], roots);
      assert HopOk(q, roots, hops[..n], hops[n], budget);
      HopWithinBudget(q, roots, hops[..n], hops[n], budget);
      assert HopCalls(hops) == HopCalls(hops[..n]) + CallsOf(hops[n]);
    }
  }

  lemma {:induction false} HopWithinBudget(q: Question, roots: seq<NameServer>, before: seq<Hop>, h: Hop, budget: int)
    requires HopOk(q, roots, before, h, budget) && ValidHop(h, roots)
    ensures |HopCalls(before)| + |CallsOf(h)| <= budget
    decreases h, 3
  {
    assert ValidGlue(h.glue, roots);
    if h.glue.Referral? {
      var names := UniqueNSNames(h.call.outcome.value.ns);
      var rest := budget - |HopCalls(before)| - 1;
      assert GlueCalls(h.glue) == WalkCalls(h.glue.nested);
      if h.glue.nested != [] {
        NestedWithinBudget(q.depth, roots, names, h.glue.nested, rest);
      }
    }
  }

  lemma {:induction false} NestedWithinBudget(depth: nat, roots: seq<NameServer>, names: seq<Name>,
                                               nested: seq<Walk>, budget: int)
    requires budget >= 0 && NestedWalks(depth, names, nested, budget) && ValidWalks(nested, roots)
    ensures |WalkCalls(nested)| <= budget
    decreases nested, 2
  {
    if nested == [] {
    } else {
      var n := |nested| - 1;
      var before := nested[..n];
      forall j | 0 <= j < n
        ensures ValidWalk(before[j], roots) && NestedAt(depth, names[j], before[..j], before[j], budget)
      {
        assert before[..j] == nested[..j];
        assert ValidWalk(nested[j], roots) && NestedAt(depth, names[j], nested[..j], nested[j], budget);
      }
      NestedWithinBudget(depth, roots, names, before, budget);
      assert ValidWalk(nested[n], roots) && NestedAt(depth, names[n], nested[..n], nested[n], budget);
      WalkWithinBudget(nested[n], roots);
    }
  }

  // ---- Nesting ----

  /** v is w, or was started, directly or not, to find the servers of one of w's referrals, levels deep. */
  ghost predicate Inside(v: Walk, w: Walk, level: nat)
    decreases w
  {
    if level == 0 then v == w
    else exists i, j :: 0 <= i < |w.hops| && InsideAt(v, w.hops[i], j, level)
  }

  ghost predicate InsideAt(v: Walk, h: Hop, j: int, level: nat)
    requires level > 0
    decreases h
  {
    h.glue.Referral? && 0 <= j < |h.glue.nested| && Inside(v, h.glue.nested[j], level - 1)
  }

  /** The hop at i, whether followed or final. */
  lemma HopAt(w: Walk, roots: seq<NameServer>, i: nat)
    requires ValidWalk(w, roots) && i < |w.hops|
    ensures HopOk(w.question, roots, w.hops[..i], w.hops[i], w.budget)
    ensures i < |w.hops| - 1 || GivesUp(w) ==> GoesOn(w.hops[i])
    ensures w.hops[i].glue.Referral? ==> ValidWalks(w.hops[i].glue.nested, roots)
  {
    assert ValidHop(w.hops[i], roots);
    assert ValidGlue(w.hops[i].glue, roots);
    if i < |w.hops| - 1 && Settles(w) {
      assert GoesOn(w.hops[..|w.hops| - 1][i]);
    }
  }

  lemma AsksAt(w: Walk, roots: seq<NameServer>, i: nat)
    requires ValidWalk(w, roots) && i < |w.hops|
    ensures Asks(w.question, roots, w.hops[..i], w.hops[i].call)
  {
    HopAt(w, roots, i);
  }

  lemma {:induction false} HopCallsContain(hops: seq<Hop>, i: nat)
    requires i < |hops|
    ensures forall c :: c in CallsOf(hops[i]) ==> c in HopCalls(hops)
  {
    if i == |hops| - 1 {
    } else {
      HopCallsContain(hops[..|hops| - 1], i);
    }
  }

  lemma {:induction false} WalkCallsContain(ws: seq<Walk>, j: nat)
    requires j < |ws|
    ensures forall c :: c in Calls(ws[j]) ==> c in WalkCalls(ws)
  {
    if j == |ws| - 1 {
    } else {
      WalkCallsContain(ws[..|ws| - 1], j);
    }
  }

  lemma NestedOk(q: Question, roots: seq<NameServer>, before: seq<Hop>, h: Hop, budget: int, j: nat)
    requires HopOk(q, roots, before, h, budget)
    requires h.glue.Referral? && ValidWalks(h.glue.nested, roots) && j < |h.glue.nested|
    ensures ValidWalk(h.glue.nested[j], roots)
    ensures q.depth < MAX_GLUE_DEPTH
    ensures h.glue.nested[j].question.depth == q.depth + 1 && h.glue.nested[j].question.qtype == TYPE_A
  {
    var names := UniqueNSNames(h.call.outcome.value.ns);
    assert NestedAt(q.depth, names[j], h.glue.nested[..j], h.glue.nested[j], budget - |HopCalls(before)| - 1);
  }

  lemma NestedCalls(w: Walk, i: nat, j: nat)
    requires i < |w.hops| && w.hops[i].glue.Referral? && j < |w.hops[i].glue.nested|
    ensures forall c :: c in Calls(w.hops[i].glue.nested[j]) ==> c in Calls(w)
    ensures AllTrustworthy(Calls(w)) ==> AllTrustworthy(Calls(w.hops[i].glue.nested[j]))
  {
    WalkCallsContain(w.hops[i].glue.nested, j);
    HopCallsContain(w.hops, i);
    assert GlueCalls(w.hops[i].glue) == WalkCalls(w.hops[i].glue.nested);
    assert forall c :: c in GlueCalls(w.hops[i].glue) ==> c in CallsOf(w.hops[i]);
  }

  /** The resolutions nested in a valid one. */
  lemma NestedAtHop(w: Walk, roots: seq<NameServer>, i: nat, j: nat)
    requires ValidWalk(w, roots)
    requires i < |w.hops| && w.hops[i].glue.Referral? && j < |w.hops[i].glue.nested|
    ensures var v := w.hops[i].glue.nested[j];
      && ValidWalk(v, roots)
      && w.question.depth < MAX_GLUE_DEPTH
      && v.question.depth == w.question.depth + 1 && v.question.qtype == TYPE_A
  {
    HopAt(w, roots, i);
    NestedOk(w.question, roots, w.hops[..i], w.hops[i], w.budget, j);
  }

  /** Resolutions nest at most four deep, and each nested one is as valid as the outermost. */
  lemma {:induction false} InsideValid(v: Walk, w: Walk, level: nat, roots: seq<NameServer>)
    requires ValidWalk(w, roots) && Inside(v, w, level)
    ensures ValidWalk(v, roots)
    ensures v.question.depth == w.question.depth + level
    ensures level > 0 ==> v.question.depth <= 4 && v.question.qtype == 1
    decreases w
  {
    if level == 0 {
    } else {
      var i, j :| 0 <= i < |w.hops| && InsideAt(v, w.hops[i], j, level);
      NestedAtHop(w, roots, i, j);
      InsideValid(v, w.hops[i].glue.nested[j], level - 1, roots);
    }
  }

  /** The lookups of a nested resolution are among those of the outermost. */
  lemma {:induction false} InsideCalls(v: Walk, w: Walk, level: nat)
    requires Inside(v, w, level)
    ensures forall c :: c in Calls(v) ==> c in Calls(w)
    decreases w
  {
    if level == 0 {
    } else {
      var i, j :| 0 <= i < |w.hops| && InsideAt(v, w.hops[i], j, level);
      InsideCalls(v, w.hops[i].glue.nested[j], level - 1);
      NestedCalls(w, i, j);
    }
  }

  // ---- The zones of a resolution ----

  lemma {:induction false} DelegationOwnerFound(ns: seq<RR>)
    requires HasNS(ns)
    ensures exists r :: r in ns && r.data.NS? && r.owner == DelegationOwner(ns)
  {
    if !ns[0].data.NS? {
      var r :| r in ns && r.data.NS?;
      assert r in ns[1..];
      DelegationOwnerFound(ns[1..]);
    }
  }

  /** The NS records that survive the filter all delegate one zone. */
  lemma FilteredDelegation(zone: Name, name: Name, ns: seq<RR>)
    requires zone.Fq? && name.Fq? && HasNS(FilteredNs(zone, name, ns))
    ensures var cut := DelegationOwner(FilteredNs(zone, name, ns));
      && EqualFold(DelegatedZone(zone, name, ns), cut) && cut.Fq? && DelegatedZone(zone, name, ns).Fq?
      && (exists rr :: rr in ns && rr.owner == cut && Delegates(zone, name, rr))
      && (forall rr :: rr in FilteredNs(zone, name, ns) && rr.data.NS? ==> EqualFold(rr.owner, cut))
  {
    var kept, d := FilteredNs(zone, name, ns), DelegatedZone(zone, name, ns);
    var cut := DelegationOwner(kept);
    DelegationOwnerFound(kept);
    FilterMembers(ns, KeptNs(zone, name, d));
    var rr :| rr in kept && rr.data.NS? && rr.owner == cut;
    assert KeptNs(zone, name, d)(rr);
    assert EqualFold(rr.owner, d);
  }

  lemma FilteredGlueBelow(d: Name, cut: Name, extra: seq<RR>)
    requires EqualFold(d, cut)
    ensures forall e :: e in FilteredExtra(d, extra) ==> IsSubDomain(cut, e.owner)
  {
    FilterMembers(extra, Below(d));
    forall e | e in FilteredExtra(d, extra)
      ensures IsSubDomain(cut, e.owner)
    {
      SubDomainFolds(d, cut, e.owner, e.owner);
    }
  }

  /**
    A referral that the filter lets through delegates to one zone: every NS record in it has that owner,
    which is in the zone asked and encloses the name; and all its glue is at or below it.
    */
  lemma ReferralSound(c: Call)
    requires Trustworthy(c) && IsReferral(c.outcome)
    ensures c.via.Replied?
    ensures var r, cut := c.outcome.value, DelegationOwner(c.outcome.value.ns);
      && cut.Fq? && IsSubDomain(Fqdn(c.zone), cut) && IsSubDomain(cut, Fqdn(c.name))
      && (exists rr :: rr in c.via.reply.ns && rr.data.NS? && rr.owner == cut)
      && (forall rr :: rr in r.ns && rr.data.NS? ==> EqualFold(rr.owner, cut))
      && (forall rr :: rr in r.extra ==> IsSubDomain(cut, rr.owner))
  {
    var zone, name := Fqdn(c.zone), Fqdn(c.name);
    assert c.via.Replied?;
    var reply := c.via.reply;
    FilteredDelegation(zone, name, reply.ns);
    FilteredGlueBelow(DelegatedZone(zone, name, reply.ns), DelegationOwner(c.outcome.value.ns), reply.extra);
  }

  lemma HopNarrowed(q: Question, roots: seq<NameServer>, before: seq<Hop>, h: Hop, budget: int)
    requires HopOk(q, roots, before, h, budget) && h.glue.Referral?
    ensures Narrows(h.call)
    ensures Followed(q.depth, h.call.outcome.value, h.glue, budget - |HopCalls(before)| - 1)
  {
  }

  /** The zone and the servers of lookup i are what the referral before it led to. */
  lemma AsksNext(w: Walk, roots: seq<NameServer>, i: nat)
    requires ValidWalk(w, roots) && 0 < i < |w.hops|
    ensures var h, c := w.hops[i - 1], w.hops[i].call;
      && GoesOn(h) && Narrows(h.call)
      && c.zone == DelegationOwner(h.call.outcome.value.ns) && c.servers == h.glue.servers.value
  {
    var before := w.hops[..i];
    assert before[i - 1] == w.hops[i - 1];
    HopAt(w, roots, i - 1);
    HopNarrowed(w.question, roots, w.hops[..i - 1], w.hops[i - 1], w.budget);
    AsksAt(w, roots, i);
  }

  lemma HopTrusted(w: Walk, i: nat)
    requires AllTrustworthy(Calls(w)) && i < |w.hops|
    ensures Trustworthy(w.hops[i].call)
  {
    HopCallsContain(w.hops, i);
    assert w.hops[i].call in CallsOf(w.hops[i]);
  }

  /** A trustworthy referral that narrows leads strictly down towards the name. */
  lemma ReferralNarrows(c: Call)
    requires Trustworthy(c) && Narrows(c) && c.zone.Fq?
    ensures var cut := DelegationOwner(c.outcome.value.ns);
      && cut.Fq? && IsSubDomain(c.zone, cut) && IsSubDomain(cut, Fqdn(c.name))
      && LabelCount(c.zone) < LabelCount(cut)
  {
    ReferralSound(c);
    SubDomainStrict(c.zone, DelegationOwner(c.outcome.value.ns));
  }

  /** One referral down. */
  lemma ZoneNarrowed(w: Walk, roots: seq<NameServer>, i: nat)
    requires ValidWalk(w, roots) && AllTrustworthy(Calls(w)) && 0 < i < |w.hops| && w.hops[i - 1].call.zone.Fq?
    ensures var prev, zone := w.hops[i - 1].call, w.hops[i].call.zone;
      && IsReferral(prev.outcome) && zone == DelegationOwner(prev.outcome.value.ns)
      && zone.Fq? && IsSubDomain(prev.zone, zone) && IsSubDomain(zone, Fqdn(w.question.name))
      && LabelCount(prev.zone) < LabelCount(zone)
  {
    AsksNext(w, roots, i);
    AsksAt(w, roots, i - 1);
    HopTrusted(w, i - 1);
    ReferralNarrows(w.hops[i - 1].call);
  }

  /** The zone of each lookup encloses the name, and has at least as many labels as there were lookups before it. */
  lemma {:induction false} ZonesEnclose(w: Walk, roots: seq<NameServer>, i: nat)
    requires ValidWalk(w, roots) && AllTrustworthy(Calls(w)) && i < |w.hops|
    ensures var zone := w.hops[i].call.zone;
      && zone.Fq? && IsSubDomain(zone, Fqdn(w.question.name)) && LabelCount(zone) >= i
      && (i == 0 ==> zone == ROOT)
    ensures i > 0 ==>
      var prev, zone := w.hops[i - 1].call, w.hops[i].call.zone;
      && IsReferral(prev.outcome) && zone == DelegationOwner(prev.outcome.value.ns)
      && IsSubDomain(prev.zone, zone) && LabelCount(prev.zone) < LabelCount(zone)
  {
    AsksAt(w, roots, i);
    if i == 0 {
    } else {
      ZonesEnclose(w, roots, i - 1);
      ZoneNarrowed(w, roots, i);
    }
  }

  ghost predicate StepsDown(a: Name, b: Name) {
    IsSubDomain(a, b) && LabelCount(a) < LabelCount(b)
  }

  lemma {:induction false} StepsDownFar(zones: seq<Name>, i: nat, j: nat)
    requires i < j < |zones|
    requires forall k :: 0 < k < |zones| ==> StepsDown(zones[k - 1], zones[k])
    ensures StepsDown(zones[i], zones[j])
    decreases j
  {
    if i == j - 1 {
      assert StepsDown(zones[j - 1], zones[j]);
    } else {
      StepsDownFar(zones, i, j - 1);
      assert StepsDown(zones[j - 1], zones[j]);
      SubDomainTransitive(zones[i], zones[j - 1], zones[j]);
    }
  }

  /** Zones along one resolution only ever gain labels, and each encloses all later ones. */
  lemma ZonesNarrow(w: Walk, roots: seq<NameServer>, i: nat, j: nat)
    requires ValidWalk(w, roots) && AllTrustworthy(Calls(w)) && i < j < |w.hops|
    ensures IsSubDomain(w.hops[i].call.zone, w.hops[j].call.zone)
    ensures LabelCount(w.hops[i].call.zone) < LabelCount(w.hops[j].call.zone)
  {
    var zones := seq(|w.hops|, k requires 0 <= k < |w.hops| => w.hops[k].call.zone);
    forall k | 0 < k < |zones|
      ensures StepsDown(zones[k - 1], zones[k])
    {
      ZonesEnclose(w, roots, k);
    }
    StepsDownFar(zones, i, j);
  }

  /** A resolution makes at most one lookup of its own for each label of the name, and one at the root. */
  lemma HopsBoundedByLabels(w: Walk, roots: seq<NameServer>)
    requires ValidWalk(w, roots) && AllTrustworthy(Calls(w))
    ensures |w.hops| <= LabelCount(w.question.name) + 1
  {
    if w.hops != [] {
      ZonesEnclose(w, roots, |w.hops| - 1);
      SubDomainStrict(w.hops[|w.hops| - 1].call.zone, Fqdn(w.question.name));
    }
  }

  /** The hop limit cannot be what stops the resolution of a name with fewer than twenty labels. */
  lemma HopLimitNeedsLabels(w: Walk, roots: seq<NameServer>)
    requires ValidWalk(w, roots) && AllTrustworthy(Calls(w))
    requires w.result == Err(HopsExceeded(w.question.name, w.question.qtype))
    ensures LabelCount(w.question.name) >= 20
  {
    if !GivesUp(w) {
      HopTrusted(w, |w.hops| - 1);
      assert false;
    }
    var n := MAX_HOPS - 1;
    ZonesEnclose(w, roots, n);
    HopAt(w, roots, n);
    assert GoesOn(w.hops[n]);
    HopCallsContain(w.hops, n);
    assert w.hops[n].call in CallsOf(w.hops[n]);
    ReferralSound(w.hops[n].call);
    var cut := DelegationOwner(w.hops[n].call.outcome.value.ns);
    SubDomainStrict(w.hops[n].call.zone, cut);
    SubDomainStrict(cut, Fqdn(w.question.name));
  }

  // ---- The servers of a resolution ----

  /** The names list, in order of first appearance, the NS hosts of ns, up to case: places first, in that spelling. */
  ghost predicate FirstSeen(ns: seq<RR>, names: seq<Name>, first: seq<nat>) {
    && |first| == |names|
    && (forall i, j :: 0 <= i < j < |first| ==> first[i] < first[j])
    && (forall i :: 0 <= i < |first| ==> first[i] < |ns| && ns[first[i]].data == NS(names[i]))
    && (forall i, q :: 0 <= i < |first| && 0 <= q < first[i] && ns[q].data.NS? ==>
          !EqualFold(ns[q].data.host, names[i]))
  }

  lemma FirstSeenStill(ns: seq<RR>, names: seq<Name>, first: seq<nat>)
    requires ns != [] && FirstSeen(ns[..|ns| - 1], names, first)
    ensures FirstSeen(ns, names, first)
  {
    assert forall q :: 0 <= q < |ns| - 1 ==> ns[q] == ns[..|ns| - 1][q];
  }

  lemma FirstSeenMore(ns: seq<RR>, names: seq<Name>, first: seq<nat>)
    requires ns != [] && FirstSeen(ns[..|ns| - 1], names, first)
    requires ns[|ns| - 1].data.NS?
    requires var front := ns[..|ns| - 1];
      forall q :: 0 <= q < |front| && front[q].data.NS? ==> !EqualFold(front[q].data.host, ns[|ns| - 1].data.host)
    ensures FirstSeen(ns, names + [ns[|ns| - 1].data.host], first + [|ns| - 1])
  {
    var front := ns[..|ns| - 1];
    assert forall q :: 0 <= q < |front| ==> ns[q] == front[q];
  }

  lemma HostsListed(ns: seq<RR>, names: seq<Name>, host: Name)
    requires forall r :: r in ns && r.data.NS? ==> FoldIn(r.data.host, names)
    requires !FoldIn(host, names)
    ensures forall q :: 0 <= q < |ns| && ns[q].data.NS? ==> !EqualFold(ns[q].data.host, host)
  {
    forall q | 0 <= q < |ns| && ns[q].data.NS?
      ensures !EqualFold(ns[q].data.host, host)
    {
      assert ns[q] in ns;
      var i :| 0 <= i < |names| && EqualFold(names[i], ns[q].data.host);
      assert EqualFold(names[i], host) <==> EqualFold(ns[q].data.host, host);
    }
  }

  /** The names of the servers of a referral: its NS hosts, each once up to case. */
  lemma {:induction false} UniqueNSNamesExact(ns: seq<RR>)
    ensures forall i, j :: 0 <= i < j < |UniqueNSNames(ns)| ==> !EqualFold(UniqueNSNames(ns)[i], UniqueNSNames(ns)[j])
    ensures forall n :: n in UniqueNSNames(ns) ==> exists r :: r in ns && r.data == NS(n)
    ensures forall r :: r in ns && r.data.NS? ==> FoldIn(r.data.host, UniqueNSNames(ns))
  {
    if ns == [] {
    } else {
      var front, last := ns[..|ns| - 1], ns[|ns| - 1];
      UniqueNSNamesExact(front);
      assert ns == front + [last];
      var before, names := UniqueNSNames(front), UniqueNSNames(ns);
      forall r | r in ns && r.data.NS?
        ensures FoldIn(r.data.host, names)
      {
        if FoldIn(r.data.host, before) {
          var i :| 0 <= i < |before| && EqualFold(before[i], r.data.host);
          assert names[i] == before[i];
        } else {
          assert names[|before|] == r.data.host;
        }
      }
      assert last in ns;
    }
  }

  /** They come in the order of their first appearance, and are spelled as there. */
  lemma {:induction false} UniqueNSNamesFirstSeen(ns: seq<RR>) returns (first: seq<nat>)
    ensures FirstSeen(ns, UniqueNSNames(ns), first)
  {
    if ns == [] {
      first := [];
    } else {
      var front, last := ns[..|ns| - 1], ns[|ns| - 1];
      first := UniqueNSNamesFirstSeen(front);
      if last.data.NS? && !FoldIn(last.data.host, UniqueNSNames(front)) {
        UniqueNSNamesExact(front);
        HostsListed(front, UniqueNSNames(front), last.data.host);
        FirstSeenMore(ns, UniqueNSNames(front), first);
        first := first + [|front|];
      } else {
        FirstSeenStill(ns, UniqueNSNames(front), first);
      }
    }
  }

  /** s is named by the glue record r and has its address. */
  ghost predicate GluedBy(s: NameServer, r: RR) {
    EqualFold(r.owner, s.name) && (r.data == A(s.addr) || r.data == AAAA(s.addr)) && |s.addr| in {4, 16}
  }

  lemma {:induction false} GlueForSound(name: Name, extra: seq<RR>, s: NameServer)
    requires s in GlueFor(name, extra)
    ensures s.name == name && exists r :: r in extra && GluedBy(s, r)
  {
    var front, last := extra[..|extra| - 1], extra[|extra| - 1];
    assert last in extra;
    if s in GlueFor(name, front) {
      GlueForSound(name, front, s);
    } else {
      assert GluedBy(s, last);
    }
  }

  lemma {:induction false} AllGlueSound(names: seq<Name>, extra: seq<RR>, s: NameServer)
    requires s in AllGlue(names, extra)
    ensures s.name in names && exists r :: r in extra && GluedBy(s, r)
  {
    var front, last := names[..|names| - 1], names[|names| - 1];
    assert last in names;
    if s in AllGlue(front, extra) {
      AllGlueSound(front, extra, s);
    } else {
      GlueForSound(last, extra, s);
    }
  }

  lemma {:induction false} AnswerAddrsSound(name: Name, answer: seq<RR>, s: NameServer)
    requires s in AnswerAddrs(name, answer)
    ensures s.name == name && exists r :: r in answer && r.data == A(s.addr)
  {
    var front, last := answer[..|answer| - 1], answer[|answer| - 1];
    assert last in answer;
    if s in AnswerAddrs(name, front) {
      AnswerAddrsSound(name, front, s);
    }
  }

  /** s came with the referral, as glue inside the delegated zone. */
  ghost predicate FromGlue(s: NameServer, h: Hop) {
    && h.call.outcome.Ok?
    && exists r :: (r in h.call.outcome.value.extra && GluedBy(s, r)
                    && IsSubDomain(DelegationOwner(h.call.outcome.value.ns), r.owner))
  }

  ghost predicate HasAddr(r: Resolved, addr: Addr) {
    r.Ok? && exists rr :: rr in r.value.answer && rr.data == A(addr)
  }

  /** s was found by a resolution of its own name, started for this referral. */
  ghost predicate FromNested(s: NameServer, h: Hop, depth: nat) {
    && h.glue.Referral?
    && exists v :: (v in h.glue.nested
                    && v.question == Question(s.name, TYPE_A, depth + 1) && HasAddr(v.result, s.addr))
  }

  /** s is a host named by the referral, with an address from in-zone glue or a resolution of exactly that host. */
  ghost predicate Justified(s: NameServer, h: Hop, depth: nat) {
    && h.call.outcome.Ok?
    && (exists rr :: rr in h.call.outcome.value.ns && rr.data == NS(s.name))
    && (FromGlue(s, h) || FromNested(s, h, depth))
  }

  /** All glue is at or below the delegated zone. */
  ghost predicate GlueInside(r: Resolved) {
    IsReferral(r) && forall rr :: rr in r.value.extra ==> IsSubDomain(DelegationOwner(r.value.ns), rr.owner)
  }

  lemma GluedJustified(h: Hop, depth: nat, s: NameServer)
    requires GlueInside(h.call.outcome)
    requires s in AllGlue(UniqueNSNames(h.call.outcome.value.ns), h.call.outcome.value.extra)
    ensures Justified(s, h, depth)
  {
    var r := h.call.outcome.value;
    UniqueNSNamesExact(r.ns);
    AllGlueSound(UniqueNSNames(r.ns), r.extra, s);
  }

  lemma NestedJustified(h: Hop, depth: nat, n: nat, s: NameServer)
    requires h.call.outcome.Ok? && h.glue.Referral? && n < |h.glue.nested|
    requires var names := UniqueNSNames(h.call.outcome.value.ns);
      && n < |names| && s in ResultAddrs(names[n], h.glue.nested[n].result)
      && h.glue.nested[n].question == Question(names[n], TYPE_A, depth + 1)
    ensures Justified(s, h, depth)
  {
    var names := UniqueNSNames(h.call.outcome.value.ns);
    UniqueNSNamesExact(h.call.outcome.value.ns);
    AnswerAddrsSound(names[n], h.glue.nested[n].result.value.answer, s);
    assert h.glue.nested[n] in h.glue.nested;
  }

  lemma FoundJustified(q: Question, roots: seq<NameServer>, before: seq<Hop>, h: Hop, budget: int, s: NameServer)
    requires HopOk(q, roots, before, h, budget) && GoesOn(h) && s in h.glue.servers.value
    requires GlueInside(h.call.outcome)
    ensures Justified(s, h, q.depth)
  {
    HopNarrowed(q, roots, before, h, budget);
    var r := h.call.outcome.value;
    var names := UniqueNSNames(r.ns);
    if AllGlue(names, r.extra) != [] {
      GluedJustified(h, q.depth, s);
    } else {
      var n := |h.glue.nested| - 1;
      assert NestedAt(q.depth, names[n], h.glue.nested[..n], h.glue.nested[n], budget - |HopCalls(before)| - 1);
      NestedJustified(h, q.depth, n, s);
    }
  }

  lemma FoundSome(q: Question, roots: seq<NameServer>, before: seq<Hop>, h: Hop, budget: int)
    requires HopOk(q, roots, before, h, budget) && GoesOn(h)
    ensures h.glue.servers.value != []
  {
    HopNarrowed(q, roots, before, h, budget);
  }

  /** Every list of servers after the first is nonempty, and every server in it is justified by the last referral. */
  lemma ServersJustified(w: Walk, roots: seq<NameServer>, i: nat)
    requires ValidWalk(w, roots) && AllTrustworthy(Calls(w)) && 0 < i < |w.hops|
    ensures w.hops[i].call.servers != []
    ensures forall s :: s in w.hops[i].call.servers ==> Justified(s, w.hops[i - 1], w.question.depth)
  {
    var before, h := w.hops[..i - 1], w.hops[i - 1];
    AsksNext(w, roots, i);
    HopTrusted(w, i - 1);
    ReferralSound(h.call);
    HopAt(w, roots, i - 1);
    FoundSome(w.question, roots, before, h, w.budget);
    forall s | s in h.glue.servers.value
      ensures Justified(s, h, w.question.depth)
    {
      FoundJustified(w.question, roots, before, h, w.budget, s);
    }
  }
}
