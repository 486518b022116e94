/** The filter does not see the case in which names are spelled. */
module Respelling {
  import opened Sequences
  import opened Names
  import opened Records
  import opened Bailiwick

  /** The same record, but for the case of the names in it. */
  predicate Respelled(r: RR, s: RR) {
    && EqualFold(r.owner, s.owner) && r.ttl == s.ttl
    && (|| r.data == s.data
        || (r.data.CNAME? && s.data.CNAME? && EqualFold(r.data.target, s.data.target))
        || (r.data.NS? && s.data.NS? && EqualFold(r.data.host, s.data.host)))
  }

  predicate AllRespelled(a: seq<RR>, b: seq<RR>) {
    |a| == |b| && forall i :: 0 <= i < |a| ==> Respelled(a[i], b[i])
  }

  predicate AllEqualFold(a: seq<Name>, b: seq<Name>) {
    |a| == |b| && forall i :: 0 <= i < |a| ==> EqualFold(a[i], b[i])
  }

  lemma {:induction false} FilterRespelled(a: seq<RR>, b: seq<RR>, p: RR -> bool, q: RR -> bool)
    requires AllRespelled(a, b) && forall r, s :: Respelled(r, s) ==> p(r) == q(s)
    ensures AllRespelled(Filter(a, p), Filter(b, q))
  {
    if a == [] {
    } else {
      FilterRespelled(a[..|a| - 1], b[..|b| - 1], p, q);
      assert Respelled(a[|a| - 1], b[|b| - 1]);
    }
  }

  lemma OwnedRespelled(a: seq<RR>, b: seq<RR>, n: Name, m: Name)
    requires AllRespelled(a, b) && EqualFold(n, m)
    ensures AllRespelled(Owned(a, n), Owned(b, m))
    ensures Owns(a, n) <==> Owns(b, m)
  {
    FilterRespelled(a, b, OwnedBy(n), OwnedBy(m));
    OwnedEmpty(a, n);
    OwnedEmpty(b, m);
  }

  lemma {:induction false} FirstTargetRespelled(a: seq<RR>, b: seq<RR>)
    requires AllRespelled(a, b)
    ensures EqualFold(FirstTarget(a), FirstTarget(b))
  {
    if a == [] {
    } else {
      assert Respelled(a[0], b[0]);
      FirstTargetRespelled(a[1..], b[1..]);
    }
  }

  lemma ExpectRespelled(a: seq<RR>, b: seq<RR>, name: Name, name': Name, names: seq<Name>, names': seq<Name>)
    requires AllRespelled(a, b) && EqualFold(name, name') && AllEqualFold(names, names')
    ensures EqualFold(Expect(a, name, names), Expect(b, name', names'))
  {
    if names != [] {
      OwnedRespelled(a, b, names[|names| - 1], names'[|names| - 1]);
      FirstTargetRespelled(Owned(a, names[|names| - 1]), Owned(b, names'[|names| - 1]));
    }
  }

  lemma FoldInRespelled(n: Name, m: Name, names: seq<Name>, names': seq<Name>)
    requires EqualFold(n, m) && AllEqualFold(names, names')
    ensures FoldIn(n, names) <==> FoldIn(m, names')
  {
    if i :| 0 <= i < |names| && EqualFold(names[i], n) {
      assert EqualFold(names'[i], m);
    }
    if i :| 0 <= i < |names| && EqualFold(names'[i], m) {
      assert EqualFold(names[i], n);
    }
  }

  lemma StopsRespelled(a: seq<RR>, b: seq<RR>, zone: Name, zone': Name, name: Name, name': Name,
                       names: seq<Name>, names': seq<Name>)
    requires AllRespelled(a, b) && EqualFold(zone, zone') && EqualFold(name, name') && AllEqualFold(names, names')
    ensures Stops(a, zone, name, names) <==> Stops(b, zone', name', names')
  {
    var e, e' := Expect(a, name, names), Expect(b, name', names');
    ExpectRespelled(a, b, name, name', names, names');
    SubDomainFolds(zone, zone', e, e');
    OwnedRespelled(a, b, e, e');
    FoldInRespelled(e, e', names, names');
  }

  lemma ExpectInside(ans: seq<RR>, zone: Name, name: Name, names: seq<Name>, n: nat)
    requires OnChain(ans, zone, name, names) && n < |names|
    ensures Expect(ans, name, names[..n]) == names[n]
  {
    if n > 0 {
      assert names[n - 1 + 1] == FirstTarget(Owned(ans, names[n - 1]));
    }
  }

  lemma OneMoreEqualFold(a: seq<Name>, b: seq<Name>, n: nat)
    requires n < |a| && n < |b| && AllEqualFold(a[..n], b[..n]) && EqualFold(a[n], b[n])
    ensures AllEqualFold(a[..n + 1], b[..n + 1])
  {
    assert a[..n + 1] == a[..n] + [a[n]] && b[..n + 1] == b[..n] + [b[n]];
  }

  /** Each of the names is what the ones before it make the chain ask for. */
  ghost predicate Follows(ans: seq<RR>, name: Name, names: seq<Name>) {
    forall n {:trigger names[..n]} :: 0 <= n < |names| ==> Expect(ans, name, names[..n]) == names[n]
  }

  lemma ChainFollows(ans: seq<RR>, zone: Name, name: Name, names: seq<Name>)
    requires OnChain(ans, zone, name, names)
    ensures Follows(ans, name, names)
  {
    forall n {:trigger names[..n]} | 0 <= n < |names|
      ensures Expect(ans, name, names[..n]) == names[n]
    {
      ExpectInside(ans, zone, name, names, n);
    }
  }

  lemma {:induction false} NamesTogether(a: seq<RR>, b: seq<RR>, name: Name, name': Name,
                                         names: seq<Name>, names': seq<Name>, n: nat)
    requires AllRespelled(a, b) && EqualFold(name, name')
    requires Follows(a, name, names) && Follows(b, name', names') && n <= |names| && n <= |names'|
    ensures AllEqualFold(names[..n], names'[..n])
  {
    if n == 0 {
    } else {
      NamesTogether(a, b, name, name', names, names', n - 1);
      ExpectRespelled(a, b, name, name', names[..n - 1], names'[..n - 1]);
      OneMoreEqualFold(names, names', n - 1);
    }
  }

  lemma FoldsBack(a: seq<RR>, b: seq<RR>, names: seq<Name>, names': seq<Name>)
    requires AllRespelled(a, b) && AllEqualFold(names, names')
    ensures AllRespelled(b, a) && AllEqualFold(names', names)
  {
    forall i | 0 <= i < |a|
      ensures Respelled(b[i], a[i])
    {
      assert Respelled(a[i], b[i]);
    }
  }

  /** A chain does not go on where one that spells the same names has stopped. */
  lemma StoppedTogether(a: seq<RR>, b: seq<RR>, zone: Name, zone': Name, name: Name, name': Name,
                        names: seq<Name>, names': seq<Name>)
    requires AllRespelled(a, b) && EqualFold(zone, zone') && EqualFold(name, name')
    requires OnChain(a, zone, name, names) && Stops(b, zone', name', names')
    requires |names'| <= |names| && AllEqualFold(names[..|names'|], names')
    ensures |names'| == |names|
  {
    var n := |names'|;
    if n < |names| {
      NotStoppedInside(a, zone, name, names, n);
      StopsRespelled(a, b, zone, zone', name, name', names[..n], names');
    }
  }

  lemma ChainRespelled(a: seq<RR>, b: seq<RR>, zone: Name, zone': Name, name: Name, name': Name)
    requires AllRespelled(a, b) && EqualFold(zone, zone') && EqualFold(name, name')
    ensures AllEqualFold(Chain(zone, name, a), Chain(zone', name', b))
  {
    var names, names' := Chain(zone, name, a), Chain(zone', name', b);
    var n := if |names| <= |names'| then |names| else |names'|;
    ChainFollows(a, zone, name, names);
    ChainFollows(b, zone', name', names');
    NamesTogether(a, b, name, name', names, names', n);
    assert names[..|names|] == names && names'[..|names'|] == names';
    if n < |names| {
      StoppedTogether(a, b, zone, zone', name, name', names, names');
    } else if n < |names'| {
      FoldsBack(a, b, names[..n], names'[..n]);
      StoppedTogether(b, a, zone', zone, name', name, names', names);
    }
  }

  lemma {:induction false} GatherRespelled(a: seq<RR>, b: seq<RR>, names: seq<Name>, names': seq<Name>)
    requires AllRespelled(a, b) && AllEqualFold(names, names')
    ensures AllRespelled(Gather(a, names), Gather(b, names'))
  {
    if names == [] {
    } else {
      var n := |names| - 1;
      GatherRespelled(a, b, names[..n], names'[..n]);
      OwnedRespelled(a, b, names[n], names'[n]);
    }
  }

  lemma DelegatesRespelled(zone: Name, zone': Name, name: Name, name': Name, r: RR, s: RR)
    requires EqualFold(zone, zone') && EqualFold(name, name') && Respelled(r, s)
    ensures Delegates(zone, name, r) <==> Delegates(zone', name', s)
  {
    SubDomainFolds(zone, zone', r.owner, s.owner);
    SubDomainFolds(r.owner, s.owner, name, name');
  }

  lemma NsRespelled(zone: Name, zone': Name, name: Name, name': Name, a: seq<RR>, b: seq<RR>)
    requires AllRespelled(a, b) && EqualFold(zone, zone') && EqualFold(name, name')
    ensures EqualFold(DelegatedZone(zone, name, a), DelegatedZone(zone', name', b))
    ensures AllRespelled(FilteredNs(zone, name, a), FilteredNs(zone', name', b))
  {
    forall r, s | Respelled(r, s)
      ensures Delegation(zone, name)(r) == Delegation(zone', name')(s)
    {
      DelegatesRespelled(zone, zone', name, name', r, s);
    }
    FilterRespelled(a, b, Delegation(zone, name), Delegation(zone', name'));
    var cut, cut' := DelegatedZone(zone, name, a), DelegatedZone(zone', name', b);
    var cuts := Filter(a, Delegation(zone, name));
    if cuts != [] {
      assert Respelled(cuts[0], Filter(b, Delegation(zone', name'))[0]);
    }
    forall r, s | Respelled(r, s)
      ensures KeptNs(zone, name, cut)(r) == KeptNs(zone', name', cut')(s)
    {
      DelegatesRespelled(zone, zone', name, name', r, s);
      SubDomainFolds(zone, zone', r.owner, s.owner);
    }
    FilterRespelled(a, b, KeptNs(zone, name, cut), KeptNs(zone', name', cut'));
  }

  lemma ExtraRespelled(cut: Name, cut': Name, a: seq<RR>, b: seq<RR>)
    requires AllRespelled(a, b) && EqualFold(cut, cut')
    ensures AllRespelled(FilteredExtra(cut, a), FilteredExtra(cut', b))
  {
    forall r, s | Respelled(r, s)
      ensures Below(cut)(r) == Below(cut')(s)
    {
      SubDomainFolds(cut, cut', r.owner, s.owner);
    }
    FilterRespelled(a, b, Below(cut), Below(cut'));
  }

  /**
    Spelling the zone, the name and the names in the records of a reply in other case leaves which records
    the filter keeps, and in which order, unchanged, and the delegated zone but for its case.
    */
  lemma FilterIgnoresCase(zone: Name, zone': Name, name: Name, name': Name, ans: seq<RR>, ans': seq<RR>,
                          ns: seq<RR>, ns': seq<RR>, extra: seq<RR>, extra': seq<RR>)
    requires EqualFold(zone, zone') && EqualFold(name, name')
    requires AllRespelled(ans, ans') && AllRespelled(ns, ns') && AllRespelled(extra, extra')
    ensures AllRespelled(FilteredAnswer(zone, name, ans), FilteredAnswer(zone', name', ans'))
    ensures AllRespelled(FilteredNs(zone, name, ns), FilteredNs(zone', name', ns'))
    ensures var cut, cut' := DelegatedZone(zone, name, ns), DelegatedZone(zone', name', ns');
      EqualFold(cut, cut') && AllRespelled(FilteredExtra(cut, extra), FilteredExtra(cut', extra'))
  {
    ChainRespelled(ans, ans', zone, zone', name, name');
    GatherRespelled(ans, ans', Chain(zone, name, ans), Chain(zone', name', ans'));
    NsRespelled(zone, zone', name, name', ns, ns');
    ExtraRespelled(DelegatedZone(zone, name, ns), DelegatedZone(zone', name', ns'), extra, extra');
  }
}
