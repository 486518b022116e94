/** What the bailiwick filter guarantees, whatever a server sends. */
module BailiwickProofs {
  import opened Sequences
  import opened Names
  import opened Records
  import opened Bailiwick

  // ---- Which records survive ----

  function OwnerIn(names: seq<Name>): RR -> bool {
    (r: RR) => FoldIn(r.owner, names)
  }

  ghost predicate Distinct(names: seq<Name>) {
    forall i, j :: 0 <= i < j < |names| ==> !EqualFold(names[i], names[j])
  }

  lemma FoldInLast(n: Name, names: seq<Name>)
    requires names != []
    ensures FoldIn(n, names) <==> FoldIn(n, names[..|names| - 1]) || EqualFold(names[|names| - 1], n)
  {
    var front := names[..|names| - 1];
    if FoldIn(n, names) {
      var i :| 0 <= i < |names| && EqualFold(names[i], n);
      assert i < |front| ==> EqualFold(front[i], n);
    }
    if FoldIn(n, front) {
      var i :| 0 <= i < |front| && EqualFold(front[i], n);
      assert EqualFold(names[i], n);
    }
  }

  lemma {:induction false} GatherMember(ans: seq<RR>, names: seq<Name>, r: RR)
    ensures r in Gather(ans, names) <==> r in ans && FoldIn(r.owner, names)
  {
    if names == [] {
    } else {
      GatherMember(ans, names[..|names| - 1], r);
      FilterMember(ans, OwnedBy(names[|names| - 1]), r);
      FoldInLast(r.owner, names);
    }
  }

  /** The filter keeps exactly the answer records owned by a name on the chain. */
  lemma FilteredAnswerExact(zone: Name, name: Name, ans: seq<RR>, r: RR)
    ensures r in FilteredAnswer(zone, name, ans) <==> r in ans && FoldIn(r.owner, Chain(zone, name, ans))
  {
    GatherMember(ans, Chain(zone, name, ans), r);
  }

  lemma {:induction false} GatherOnce(ans: seq<RR>, names: seq<Name>)
    requires Distinct(names)
    ensures multiset(Gather(ans, names)) == multiset(Filter(ans, OwnerIn(names)))
  {
    if names == [] {
      FilterEmpty(ans, OwnerIn(names));
    } else {
      var front, last := names[..|names| - 1], names[|names| - 1];
      GatherOnce(ans, front);
      forall r: RR
        ensures OwnerIn(names)(r) <==> OwnerIn(front)(r) || OwnedBy(last)(r)
        ensures !(OwnerIn(front)(r) && OwnedBy(last)(r))
      {
        FoldInLast(r.owner, names);
        if FoldIn(r.owner, front) {
          var i :| 0 <= i < |front| && EqualFold(front[i], r.owner);
          assert !EqualFold(names[i], last);
        }
      }
      FilterDisjoint(ans, OwnerIn(front), OwnedBy(last), OwnerIn(names));
    }
  }

  /** Each record is used once: the filtered answer is a sub-multiset of the answer. */
  lemma FilteredAnswerOnce(zone: Name, name: Name, ans: seq<RR>)
    ensures multiset(FilteredAnswer(zone, name, ans)) ==
            multiset(Filter(ans, OwnerIn(Chain(zone, name, ans))))
    ensures |Chain(zone, name, ans)| <= |ans|
  {
    GatherOnce(ans, Chain(zone, name, ans));
    DistinctOwners(ans, Chain(zone, name, ans));
  }

  lemma NoAnswerFiltered(zone: Name, name: Name)
    ensures FilteredAnswer(zone, name, []) == []
  {
    FilteredAnswerOnce(zone, name, []);
  }

  /** Nothing from outside the zone survives in any section. */
  lemma FilterStaysInZone(zone: Name, name: Name, ans: seq<RR>, ns: seq<RR>, extra: seq<RR>, r: RR)
    requires zone.Fq? && name.Fq?
    requires || r in FilteredAnswer(zone, name, ans)
             || r in FilteredNs(zone, name, ns)
             || r in FilteredExtra(DelegatedZone(zone, name, ns), extra)
    ensures IsSubDomain(zone, r.owner)
  {
    var cut := DelegatedZone(zone, name, ns);
    if r in FilteredAnswer(zone, name, ans) {
      var names := Chain(zone, name, ans);
      FilteredAnswerExact(zone, name, ans, r);
      var i :| 0 <= i < |names| && EqualFold(names[i], r.owner);
      SubDomainFolds(zone, zone, names[i], r.owner);
    } else if r in FilteredNs(zone, name, ns) {
      FilterMember(ns, KeptNs(zone, name, cut), r);
    } else {
      FilterMember(extra, Below(cut), r);
      DelegatedZoneSound(zone, name, ns);
      SubDomainTransitive(zone, cut, r.owner);
    }
  }

  /**
    The authority section record by record: the delegated zone is the owner of the first NS record, of whatever
    host, whose owner is inside the zone and encloses the name; all NS records of that owner that qualify
    survive, and all SOAs from inside the zone, and nothing else.
    */
  lemma FilterAuthorityExact(zone: Name, name: Name, ns: seq<RR>, i: nat)
    requires i < |ns| && ns[i].data.NS? && IsSubDomain(zone, ns[i].owner) && IsSubDomain(ns[i].owner, name)
    requires forall j :: 0 <= j < i && ns[j].data.NS? ==>
      !IsSubDomain(zone, ns[j].owner) || !IsSubDomain(ns[j].owner, name)
    ensures DelegatedZone(zone, name, ns) == ns[i].owner
    ensures forall r :: r in FilteredNs(zone, name, ns) <==>
      && r in ns && IsSubDomain(zone, r.owner)
      && (r.data.SOA? || (r.data.NS? && IsSubDomain(r.owner, name) && EqualFold(r.owner, ns[i].owner)))
  {
    FilterStep(ns, i, Delegation(zone, name));
    FilterEmpty(ns[..i], Delegation(zone, name));
    FilterAppend(ns[..i + 1], ns[i + 1..], Delegation(zone, name));
    assert ns == ns[..i + 1] + ns[i + 1..];
    FilterMembers(ns, KeptNs(zone, name, ns[i].owner));
  }

  /** Without such a record there is no delegation, no glue survives, and of the authority section only SOAs do. */
  lemma NoDelegationExact(zone: Name, name: Name, ns: seq<RR>, extra: seq<RR>)
    requires forall r :: r in ns && r.data.NS? ==> !IsSubDomain(zone, r.owner) || !IsSubDomain(r.owner, name)
    ensures DelegatedZone(zone, name, ns) == Empty && FilteredExtra(DelegatedZone(zone, name, ns), extra) == []
    ensures forall r :: r in FilteredNs(zone, name, ns) <==> r in ns && r.data.SOA? && IsSubDomain(zone, r.owner)
  {
    FilterEmpty(ns, Delegation(zone, name));
    FilterMembers(ns, KeptNs(zone, name, Empty));
  }

  /** Of the additional section exactly the records at or below the delegated zone survive. */
  lemma FilterGlueExact(cut: Name, extra: seq<RR>)
    ensures forall r :: r in FilteredExtra(cut, extra) <==> r in extra && cut != Empty && IsSubDomain(cut, r.owner)
  {
    FilterMembers(extra, Below(cut));
  }

  // ---- Filtering twice changes nothing ----

  lemma {:induction false} OwnedGather(ans: seq<RR>, names: seq<Name>, e: Name)
    requires Distinct(names)
    ensures Owned(Gather(ans, names), e) == if FoldIn(e, names) then Owned(ans, e) else []
  {
    if names == [] {
    } else {
      var front, last := names[..|names| - 1], names[|names| - 1];
      OwnedGather(ans, front, e);
      FilterAppend(Gather(ans, front), Owned(ans, last), OwnedBy(e));
      FoldInLast(e, names);
      if EqualFold(last, e) {
        FilterTwice(ans, OwnedBy(last), OwnedBy(e), OwnedBy(e));
        assert !FoldIn(e, front) by {
          forall i | 0 <= i < |front|
            ensures !EqualFold(front[i], e)
          {
            assert front[i] == names[i];
          }
        }
      } else {
        FilterMembers(ans, OwnedBy(last));
        FilterEmpty(Owned(ans, last), OwnedBy(e));
      }
    }
  }

  lemma {:induction false} GatherCongruent(a: seq<RR>, b: seq<RR>, names: seq<Name>)
    requires forall i :: 0 <= i < |names| ==> Owned(a, names[i]) == Owned(b, names[i])
    ensures Gather(a, names) == Gather(b, names)
  {
    if names == [] {
    } else {
      GatherCongruent(a, b, names[..|names| - 1]);
    }
  }

  /** Two answers whose records agree along a chain have that chain in common. */
  lemma SameChain(a: seq<RR>, b: seq<RR>, zone: Name, name: Name, names: seq<Name>)
    requires CompleteChain(a, zone, name, names)
    requires forall i :: 0 <= i < |names| ==> Owns(b, names[i])
    requires forall i :: 0 <= i < |names| ==> FirstTarget(Owned(a, names[i])) == FirstTarget(Owned(b, names[i]))
    requires forall e :: !Owns(a, e) ==> !Owns(b, e)
    ensures CompleteChain(b, zone, name, names)
  {
  }

  lemma RefilteredAnswer(zone: Name, name: Name, ans: seq<RR>)
    ensures var f := FilteredAnswer(zone, name, ans);
      FilteredAnswer(zone, name, f) == f && Chain(zone, name, f) == Chain(zone, name, ans)
  {
    var names := Chain(zone, name, ans);
    var f := Gather(ans, names);
    forall i | 0 <= i < |names|
      ensures Owned(f, names[i]) == Owned(ans, names[i]) && Owns(f, names[i])
    {
      OwnedGather(ans, names, names[i]);
      OwnedEmpty(ans, names[i]);
      OwnedEmpty(f, names[i]);
    }
    forall e | !Owns(ans, e)
      ensures !Owns(f, e)
    {
      OwnedGather(ans, names, e);
      OwnedEmpty(ans, e);
      OwnedEmpty(f, e);
    }
    SameChain(ans, f, zone, name, names);
    ChainUnique(f, zone, name, names, Chain(zone, name, f));
    GatherCongruent(ans, f, names);
  }

  lemma {:induction false} FilterKeepsFirst(s: seq<RR>, p: RR -> bool)
    requires s != [] ==> p(s[0])
    ensures s != [] ==> Filter(s, p) != [] && Filter(s, p)[0] == s[0]
  {
    if |s| <= 1 {
    } else {
      FilterKeepsFirst(s[..|s| - 1], p);
    }
  }

  lemma RefilteredNs(zone: Name, name: Name, ns: seq<RR>)
    requires zone.Fq? && name.Fq?
    ensures var f := FilteredNs(zone, name, ns);
      && DelegatedZone(zone, name, f) == DelegatedZone(zone, name, ns)
      && FilteredNs(zone, name, f) == f
  {
    var cut := DelegatedZone(zone, name, ns);
    var f := FilteredNs(zone, name, ns);
    var agreeing := (r: RR) => Delegates(zone, name, r) && EqualFold(r.owner, cut);
    FilterEmpty(ns, Delegation(zone, name));
    if Filter(ns, Delegation(zone, name)) != [] {
      FilterMember(ns, Delegation(zone, name), Filter(ns, Delegation(zone, name))[0]);
    }
    FilterTwice(ns, KeptNs(zone, name, cut), Delegation(zone, name), agreeing);
    FilterTwice(ns, Delegation(zone, name), agreeing, agreeing);
    FilterKeepsFirst(Filter(ns, Delegation(zone, name)), agreeing);
    FilterMembers(ns, Delegation(zone, name));
    FilterEmpty(ns, agreeing);
    FilterMembers(ns, KeptNs(zone, name, cut));
    FilterAll(f, KeptNs(zone, name, cut));
  }

  /** The filter is idempotent on all four of its outputs. */
  lemma FilterIdempotent(zone: Name, name: Name, ans: seq<RR>, ns: seq<RR>, extra: seq<RR>)
    requires zone.Fq? && name.Fq?
    ensures var ans', ns' := FilteredAnswer(zone, name, ans), FilteredNs(zone, name, ns);
      var cut := DelegatedZone(zone, name, ns);
      var extra' := FilteredExtra(cut, extra);
      && FilteredAnswer(zone, name, ans') == ans'
      && FilteredNs(zone, name, ns') == ns'
      && DelegatedZone(zone, name, ns') == cut
      && FilteredExtra(cut, extra') == extra'
  {
    RefilteredAnswer(zone, name, ans);
    RefilteredNs(zone, name, ns);
    var cut := DelegatedZone(zone, name, ns);
    FilterMembers(extra, Below(cut));
    FilterAll(Filter(extra, Below(cut)), Below(cut));
  }

  // ---- Trusting less keeps a prefix ----

  lemma {:induction false} GatherPrefix(ans: seq<RR>, names: seq<Name>, n: nat)
    requires n <= |names|
    ensures Gather(ans, names[..n]) <= Gather(ans, names)
  {
    if n < |names| {
      var front := names[..|names| - 1];
      GatherPrefix(ans, front, n);
      assert front[..n] == names[..n];
    } else {
      assert names[..n] == names;
    }
  }

  /**
    Narrowing the trusted zone only cuts the filtered answer short, exactly where the wider chain
    first leaves the narrower zone.
    */
  lemma NarrowerZoneGivesPrefix(wide: Name, narrow: Name, name: Name, ans: seq<RR>)
    requires IsSubDomain(wide, narrow)
    ensures FilteredAnswer(narrow, name, ans) <= FilteredAnswer(wide, name, ans)
    ensures Chain(narrow, name, ans) <= Chain(wide, name, ans)
    ensures var n := |Chain(narrow, name, ans)|;
      n < |Chain(wide, name, ans)| ==> !IsSubDomain(narrow, Chain(wide, name, ans)[n])
  {
    var small, large := Chain(narrow, name, ans), Chain(wide, name, ans);
    forall i | 0 <= i < |small|
      ensures IsSubDomain(wide, small[i])
    {
      SubDomainTransitive(wide, narrow, small[i]);
    }
    assert OnChain(ans, wide, name, small);
    if |large| < |small| {
      ChainPrefix(ans, wide, name, small, large, |large|);
      assert large == small[..|large|];
      NotStoppedInside(ans, wide, name, small, |large|);
    }
    ChainPrefix(ans, wide, name, small, large, |small|);
    assert small[..|small|] == small;
    GatherPrefix(ans, large, |small|);
    if |small| < |large| {
      NotStoppedInside(ans, wide, name, large, |small|);
    }
  }

  // ---- The order of the answer section ----

  /** All CNAMEs of one owner name the same target; in particular when each owner has at most one. */
  ghost predicate OneTarget(ans: seq<RR>) {
    forall r, s :: r in ans && s in ans && r.data.CNAME? && s.data.CNAME? && EqualFold(r.owner, s.owner)
      ==> r.data.target == s.data.target
  }

  /** t is a target of n's CNAMEs, or Empty if n has none. */
  ghost predicate Targets(ans: seq<RR>, n: Name, t: Name) {
    || (exists r :: r in ans && r.data.CNAME? && EqualFold(r.owner, n) && r.data.target == t)
    || (t == Empty && forall r :: r in ans && EqualFold(r.owner, n) ==> !r.data.CNAME?)
  }

  lemma {:induction false} FirstTargetFound(rrs: seq<RR>)
    ensures || (exists r :: r in rrs && r.data.CNAME? && r.data.target == FirstTarget(rrs))
            || (FirstTarget(rrs) == Empty && forall r :: r in rrs ==> !r.data.CNAME?)
  {
    if rrs == [] || rrs[0].data.CNAME? {
    } else {
      FirstTargetFound(rrs[1..]);
      assert rrs == [rrs[0]] + rrs[1..];
    }
  }

  lemma FirstTargetTargets(ans: seq<RR>, n: Name)
    ensures Targets(ans, n, FirstTarget(Owned(ans, n)))
  {
    FilterMembers(ans, OwnedBy(n));
    FirstTargetFound(Owned(ans, n));
  }

  lemma TargetUnique(ans: seq<RR>, n: Name, t: Name, u: Name)
    requires OneTarget(ans) && Targets(ans, n, t) && Targets(ans, n, u)
    ensures t == u
  {
  }

  lemma TargetsPermuted(a: seq<RR>, b: seq<RR>, n: Name, t: Name)
    requires multiset(a) == multiset(b) && Targets(a, n, t)
    ensures Targets(b, n, t)
  {
    SameElements(a, b);
  }

  lemma OneTargetPermuted(a: seq<RR>, b: seq<RR>)
    requires multiset(a) == multiset(b) && OneTarget(a)
    ensures OneTarget(b)
  {
    SameElements(a, b);
  }

  lemma {:induction false} GatherPermuted(a: seq<RR>, b: seq<RR>, names: seq<Name>)
    requires multiset(a) == multiset(b)
    ensures multiset(Gather(a, names)) == multiset(Gather(b, names))
  {
    if names == [] {
    } else {
      GatherPermuted(a, b, names[..|names| - 1]);
      FilterPermutation(a, b, OwnedBy(names[|names| - 1]));
    }
  }

  /** Reordering the answer section changes neither the chain nor which records survive. */
  lemma FilterIgnoresOrder(zone: Name, name: Name, a: seq<RR>, b: seq<RR>)
    requires multiset(a) == multiset(b) && OneTarget(a)
    ensures Chain(zone, name, a) == Chain(zone, name, b)
    ensures multiset(FilteredAnswer(zone, name, a)) == multiset(FilteredAnswer(zone, name, b))
  {
    var names := Chain(zone, name, a);
    SameElements(a, b);
    OneTargetPermuted(a, b);
    forall i | 0 <= i < |names|
      ensures FirstTarget(Owned(a, names[i])) == FirstTarget(Owned(b, names[i]))
    {
      FirstTargetTargets(a, names[i]);
      FirstTargetTargets(b, names[i]);
      TargetsPermuted(a, b, names[i], FirstTarget(Owned(a, names[i])));
      TargetUnique(b, names[i], FirstTarget(Owned(a, names[i])), FirstTarget(Owned(b, names[i])));
    }
    SameChain(a, b, zone, name, names);
    ChainUnique(b, zone, name, names, Chain(zone, name, b));
    GatherPermuted(a, b, names);
  }
}
