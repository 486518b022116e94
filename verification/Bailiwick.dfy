/**
  The bailiwick filter: which records of a reply a server trusted only for a zone may supply.
  Each section has a specification that does not follow the loops: the answer section is laid out
  along a chain of names, the authority section is decided by its first acceptable delegation.
  */
module Bailiwick {
  import opened Sequences
  import opened Names
  import opened Records

  // ---- Answer section ----

  function OwnedBy(n: Name): RR -> bool {
    (r: RR) => EqualFold(r.owner, n)
  }

  function NotOwnedBy(n: Name): RR -> bool {
    (r: RR) => !EqualFold(r.owner, n)
  }

  /** The records of ans owned by n, in order. */
  function Owned(ans: seq<RR>, n: Name): seq<RR> {
    Filter(ans, OwnedBy(n))
  }

  predicate Owns(ans: seq<RR>, n: Name) {
    exists r :: r in ans && EqualFold(r.owner, n)
  }

  /** The target of the first CNAME, or Empty. */
  function FirstTarget(rrs: seq<RR>): Name {
    if rrs == [] then Empty
    else if rrs[0].data.CNAME? then rrs[0].data.target
    else FirstTarget(rrs[1..])
  }

  /** The name the chain asks for after names. */
  function Expect(ans: seq<RR>, name: Name, names: seq<Name>): Name {
    if names == [] then name else FirstTarget(Owned(ans, names[|names| - 1]))
  }

  /**
    names is a stretch of the CNAME chain that starts at name and stays in zone: pairwise distinct
    names, each owning records, each the target of its predecessor's first CNAME.
    */
  ghost predicate OnChain(ans: seq<RR>, zone: Name, name: Name, names: seq<Name>) {
    && (forall i :: 0 <= i < |names| ==> names[i].Fq? && IsSubDomain(zone, names[i]) && Owns(ans, names[i]))
    && (forall i, j :: 0 <= i < j < |names| ==> !EqualFold(names[i], names[j]))
    && (names != [] ==> names[0] == name)
    && (forall i :: 0 <= i < |names| - 1 ==> names[i + 1] == FirstTarget(Owned(ans, names[i])))
  }

  /** The chain cannot go on from names. */
  ghost predicate Stops(ans: seq<RR>, zone: Name, name: Name, names: seq<Name>) {
    var e := Expect(ans, name, names);
    e.Empty? || !IsSubDomain(zone, e) || !Owns(ans, e) || FoldIn(e, names)
  }

  ghost predicate CompleteChain(ans: seq<RR>, zone: Name, name: Name, names: seq<Name>) {
    OnChain(ans, zone, name, names) && Stops(ans, zone, name, names)
  }

  /** All records of the names, name by name. */
  function Gather(ans: seq<RR>, names: seq<Name>): seq<RR> {
    if names == [] then []
    else Gather(ans, names[..|names| - 1]) + Owned(ans, names[|names| - 1])
  }

  lemma OwnedEmpty(ans: seq<RR>, n: Name)
    ensures Owned(ans, n) == [] <==> !Owns(ans, n)
  {
    FilterEmpty(ans, OwnedBy(n));
  }

  lemma OwnedFolds(ans: seq<RR>, n: Name, m: Name)
    requires EqualFold(n, m)
    ensures Owned(ans, n) == Owned(ans, m)
  {
    FilterExt(ans, OwnedBy(n), OwnedBy(m));
  }

  /** Pigeonhole: distinct names that all own records are no more than the records. */
  lemma {:induction false} DistinctOwners(ans: seq<RR>, names: seq<Name>)
    requires forall i :: 0 <= i < |names| ==> Owns(ans, names[i])
    requires forall i, j :: 0 <= i < j < |names| ==> !EqualFold(names[i], names[j])
    ensures |names| <= |ans|
    decreases names
  {
    if names == [] {
    } else {
      var front, last := names[..|names| - 1], names[|names| - 1];
      var rest := Filter(ans, NotOwnedBy(last));
      FilterMembers(ans, NotOwnedBy(last));
      forall i | 0 <= i < |front|
        ensures Owns(rest, front[i])
      {
        assert front[i] == names[i];
        var r :| r in ans && EqualFold(r.owner, front[i]);
        assert r in rest;
      }
      DistinctOwners(rest, front);
      FilterSplitLength(ans, OwnedBy(last), NotOwnedBy(last));
      OwnedEmpty(ans, last);
    }
  }

  lemma OnChainExtends(ans: seq<RR>, zone: Name, name: Name, names: seq<Name>)
    requires OnChain(ans, zone, name, names) && !Stops(ans, zone, name, names)
    ensures OnChain(ans, zone, name, names + [Expect(ans, name, names)])
  {
  }

  /** The complete chain, grown name by name; the pigeonhole bounds it. */
  ghost function Grow(ans: seq<RR>, zone: Name, name: Name, names: seq<Name>): (r: seq<Name>)
    requires OnChain(ans, zone, name, names)
    ensures CompleteChain(ans, zone, name, r)
    decreases |ans| - |names|
  {
    if Stops(ans, zone, name, names) then names
    else
      OnChainExtends(ans, zone, name, names);
      DistinctOwners(ans, names + [Expect(ans, name, names)]);
      Grow(ans, zone, name, names + [Expect(ans, name, names)])
  }

  ghost function Chain(zone: Name, name: Name, ans: seq<RR>): (r: seq<Name>)
    ensures CompleteChain(ans, zone, name, r)
  {
    Grow(ans, zone, name, [])
  }

  lemma {:induction false} ChainPrefix(ans: seq<RR>, zone: Name, name: Name, a: seq<Name>, b: seq<Name>, n: nat)
    requires OnChain(ans, zone, name, a) && OnChain(ans, zone, name, b)
    requires n <= |a| && n <= |b|
    ensures a[..n] == b[..n]
  {
    if n <= 1 {
    } else {
      ChainPrefix(ans, zone, name, a, b, n - 1);
      assert a[..n - 1][n - 2] == b[..n - 1][n - 2];
      assert a[n - 2 + 1] == FirstTarget(Owned(ans, a[n - 2]));
      assert a[..n] == a[..n - 1] + [a[n - 1]];
      assert b[..n] == b[..n - 1] + [b[n - 1]];
    }
  }

  /** A chain goes on from each of its proper prefixes. */
  lemma NotStoppedInside(ans: seq<RR>, zone: Name, name: Name, names: seq<Name>, n: nat)
    requires OnChain(ans, zone, name, names) && n < |names|
    ensures OnChain(ans, zone, name, names[..n]) && !Stops(ans, zone, name, names[..n])
    ensures Expect(ans, name, names[..n]) == names[n]
  {
    if n > 0 {
      assert names[n - 1 + 1] == FirstTarget(Owned(ans, names[n - 1]));
    }
  }

  /** There is only one complete chain. */
  lemma ChainUnique(ans: seq<RR>, zone: Name, name: Name, a: seq<Name>, b: seq<Name>)
    requires CompleteChain(ans, zone, name, a) && CompleteChain(ans, zone, name, b)
    ensures a == b
  {
    var n := if |a| <= |b| then |a| else |b|;
    ChainPrefix(ans, zone, name, a, b, n);
    assert a[..|a|] == a && b[..|b|] == b;
    if |a| < |b| {
      assert a == b[..|a|];
      NotStoppedInside(ans, zone, name, b, |a|);
    } else if |b| < |a| {
      assert b == a[..|b|];
      NotStoppedInside(ans, zone, name, a, |b|);
    }
  }

  /** The answer records a server trusted for zone may supply on a question for name. */
  ghost function FilteredAnswer(zone: Name, name: Name, ans: seq<RR>): seq<RR> {
    Gather(ans, Chain(zone, name, ans))
  }

  // ---- Authority and additional sections ----

  /** r delegates a zone inside the trusted one that encloses name. */
  predicate Delegates(zone: Name, name: Name, r: RR) {
    r.data.NS? && IsSubDomain(zone, r.owner) && IsSubDomain(r.owner, name)
  }

  function Delegation(zone: Name, name: Name): RR -> bool {
    (r: RR) => Delegates(zone, name, r)
  }

  function KeptNs(zone: Name, name: Name, cut: Name): RR -> bool {
    (r: RR) =>
      || (Delegates(zone, name, r) && EqualFold(r.owner, cut))
      || (r.data.SOA? && IsSubDomain(zone, r.owner))
  }

  function Below(cut: Name): RR -> bool {
    (r: RR) => IsSubDomain(cut, r.owner)
  }

  /** The zone the reply delegates to: the owner of its first acceptable NS record. */
  function DelegatedZone(zone: Name, name: Name, ns: seq<RR>): Name {
    var cuts := Filter(ns, Delegation(zone, name));
    if cuts == [] then Empty else cuts[0].owner
  }

  function FilteredNs(zone: Name, name: Name, ns: seq<RR>): seq<RR> {
    Filter(ns, KeptNs(zone, name, DelegatedZone(zone, name, ns)))
  }

  function FilteredExtra(cut: Name, extra: seq<RR>): seq<RR> {
    if cut.Empty? then [] else Filter(extra, Below(cut))
  }

  lemma DelegatedZoneSound(zone: Name, name: Name, ns: seq<RR>)
    requires zone.Fq? && name.Fq?
    ensures var cut := DelegatedZone(zone, name, ns);
      && (cut.Fq? ==> IsSubDomain(zone, cut) && IsSubDomain(cut, name))
      && (cut.Empty? <==> forall r :: r in ns ==> !Delegates(zone, name, r))
  {
    var cuts := Filter(ns, Delegation(zone, name));
    FilterMembers(ns, Delegation(zone, name));
    FilterEmpty(ns, Delegation(zone, name));
    if cuts != [] {
      assert cuts[0] in cuts;
    }
  }

  // ---- The filter itself ----

  /** The records of ans that names does not use up. */
  function Unused(names: seq<Name>): RR -> bool {
    (r: RR) => !FoldIn(r.owner, names)
  }

  lemma UnusedOwned(ans: seq<RR>, names: seq<Name>, e: Name)
    ensures Owned(Filter(ans, Unused(names)), e) == if FoldIn(e, names) then [] else Owned(ans, e)
  {
    if FoldIn(e, names) {
      FilterMembers(ans, Unused(names));
      OwnedEmpty(Filter(ans, Unused(names)), e);
    } else {
      FilterTwice(ans, Unused(names), OwnedBy(e), OwnedBy(e));
    }
  }

  lemma UnusedNext(ans: seq<RR>, names: seq<Name>, e: Name)
    ensures Filter(Filter(ans, Unused(names)), NotOwnedBy(e)) == Filter(ans, Unused(names + [e]))
  {
    forall r | r in ans
      ensures Unused(names + [e])(r) <==> Unused(names)(r) && NotOwnedBy(e)(r)
    {
      if FoldIn(r.owner, names) {
        var i :| 0 <= i < |names| && EqualFold(names[i], r.owner);
        assert EqualFold((names + [e])[i], r.owner);
      }
      if EqualFold(r.owner, e) {
        assert EqualFold((names + [e])[|names|], r.owner);
      }
    }
    FilterTwice(ans, Unused(names), NotOwnedBy(e), Unused(names + [e]));
  }

  /** One pass over the remaining records: those owned by wanted, and the others. */
  method Split(remaining: seq<RR>, wanted: Name) returns (matched: seq<RR>, rest: seq<RR>)
    ensures matched == Owned(remaining, wanted)
    ensures rest == Filter(remaining, NotOwnedBy(wanted))
  {
    matched, rest := [], [];
    for i := 0 to |remaining|
      invariant matched == Filter(remaining[..i], OwnedBy(wanted))
      invariant rest == Filter(remaining[..i], NotOwnedBy(wanted))
    {
      FilterStep(remaining, i, OwnedBy(wanted));
      FilterStep(remaining, i, NotOwnedBy(wanted));
      if EqualFold(remaining[i].owner, wanted) {
        matched := matched + [remaining[i]];
      } else {
        rest := rest + [remaining[i]];
      }
    }
    assert remaining[..|remaining|] == remaining;
  }

  method FirstTargetOf(matched: seq<RR>) returns (next: Name)
    ensures next == FirstTarget(matched)
  {
    next := Empty;
    for i := 0 to |matched|
      invariant next == Empty
      invariant FirstTarget(matched) == FirstTarget(matched[i..])
    {
      if matched[i].data.CNAME? {
        return matched[i].data.target;
      }
    }
  }

  method FollowChain(zone: Name, name: Name, answer: seq<RR>) returns (filteredAnswer: seq<RR>)
    requires zone.Fq? && name.Fq?
    ensures filteredAnswer == FilteredAnswer(zone, name, answer)
  {
    filteredAnswer := [];
    var remaining := answer;
    var wanted := name;
    ghost var names: seq<Name> := [];
    FilterAll(answer, Unused([]));
    while IsSubDomain(zone, wanted)
      invariant OnChain(answer, zone, name, names)
      invariant wanted == Expect(answer, name, names) && wanted.Fq?
      invariant filteredAnswer == Gather(answer, names)
      invariant remaining == Filter(answer, Unused(names))
      decreases |remaining|
    {
      var matched, rest := Split(remaining, wanted);
      UnusedOwned(answer, names, wanted);
      OwnedEmpty(answer, wanted);
      if |matched| == 0 {
        assert Stops(answer, zone, name, names);
        break;
      }
      OnChainExtends(answer, zone, name, names);
      UnusedNext(answer, names, wanted);
      FilterSplitLength(remaining, OwnedBy(wanted), NotOwnedBy(wanted));
      names := names + [wanted];
      assert names[..|names| - 1] + [wanted] == names;
      filteredAnswer := filteredAnswer + matched;
      remaining := rest;

      var next := FirstTargetOf(matched);
      if next == Empty {
        assert Stops(answer, zone, name, names);
        break;
      }
      wanted := next;
    }
    assert Stops(answer, zone, name, names);
    ChainUnique(answer, zone, name, names, Chain(zone, name, answer));
  }

  /** What one more authority record changes. */
  lemma FirstDelegationStays(zone: Name, name: Name, ns: seq<RR>, i: nat)
    requires zone.Fq? && name.Fq? && i < |ns|
    ensures var before, after := DelegatedZone(zone, name, ns[..i]), DelegatedZone(zone, name, ns[..i + 1]);
      && after == (if before.Fq? then before else if Delegates(zone, name, ns[i]) then ns[i].owner else Empty)
      && FilteredNs(zone, name, ns[..i + 1]) ==
         FilteredNs(zone, name, ns[..i]) + if KeptNs(zone, name, after)(ns[i]) then [ns[i]] else []
  {
    var before, after := DelegatedZone(zone, name, ns[..i]), DelegatedZone(zone, name, ns[..i + 1]);
    FilterStep(ns, i, Delegation(zone, name));
    DelegatedZoneSound(zone, name, ns[..i]);
    FilterEmpty(ns[..i], Delegation(zone, name));
    FilterStep(ns, i, KeptNs(zone, name, after));
    FilterExt(ns[..i], KeptNs(zone, name, before), KeptNs(zone, name, after));
  }

  method FilterAuthority(zone: Name, name: Name, ns: seq<RR>)
    returns (filteredNs: seq<RR>, delegatedZone: Name)
    requires zone.Fq? && name.Fq?
    ensures delegatedZone == DelegatedZone(zone, name, ns)
    ensures filteredNs == FilteredNs(zone, name, ns)
  {
    filteredNs, delegatedZone := [], Empty;
    for i := 0 to |ns|
      invariant delegatedZone == DelegatedZone(zone, name, ns[..i])
      invariant filteredNs == FilteredNs(zone, name, ns[..i])
    {
      var rr := ns[i];
      FirstDelegationStays(zone, name, ns, i);
      match rr.data {
        case NS(_) =>
          var owner := rr.owner;
          if !IsSubDomain(zone, owner) || !IsSubDomain(owner, name) {
            continue;
          }
          if delegatedZone == Empty {
            delegatedZone := owner;
          } else if !EqualFold(owner, delegatedZone) {
            continue;
          }
          filteredNs := filteredNs + [rr];
        case SOA(_) =>
          if IsSubDomain(zone, rr.owner) {
            filteredNs := filteredNs + [rr];
          }
        case _ =>
      }
    }
    assert ns[..|ns|] == ns;
  }

  method FilterInBailiwick(zone: Name, name: Name, answer: seq<RR>, ns: seq<RR>, extra: seq<RR>)
    returns (filteredAnswer: seq<RR>, filteredNs: seq<RR>, filteredExtra: seq<RR>, delegatedZone: Name)
    requires zone.Fq? && name.Fq?
    ensures filteredAnswer == FilteredAnswer(zone, name, answer)
    ensures delegatedZone == DelegatedZone(zone, name, ns)
    ensures filteredNs == FilteredNs(zone, name, ns)
    ensures filteredExtra == FilteredExtra(delegatedZone, extra)
  {
    filteredAnswer := FollowChain(zone, name, answer);
    filteredNs, delegatedZone := FilterAuthority(zone, name, ns);
    filteredExtra := [];
    if delegatedZone != Empty {
      for i := 0 to |extra|
        invariant filteredExtra == Filter(extra[..i], Below(delegatedZone))
      {
        FilterStep(extra, i, Below(delegatedZone));
        if IsSubDomain(delegatedZone, extra[i].owner) {
          filteredExtra := filteredExtra + [extra[i]];
        }
      }
      assert extra[..|extra|] == extra;
    }
  }
}
