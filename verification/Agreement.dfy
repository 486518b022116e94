/**
  The bailiwick filter and the chaser walk the same CNAME chain by different rules: the filter follows
  an owner's first CNAME, the chaser its last. When no owner's CNAMEs disagree they meet.
  */
module Agreement {
  import opened Sequences
  import opened Names
  import opened Records
  import opened Bailiwick
  import opened BailiwickProofs
  import opened Chase

  lemma {:induction false} LastTargetFound(rrs: seq<RR>)
    ensures || (exists r :: r in rrs && r.data.CNAME? && r.data.target == LastTarget(rrs))
            || (LastTarget(rrs) == Empty && forall r :: r in rrs ==> !r.data.CNAME?)
  {
    if rrs == [] || rrs[|rrs| - 1].data.CNAME? {
    } else {
      LastTargetFound(rrs[..|rrs| - 1]);
      assert rrs == rrs[..|rrs| - 1] + [rrs[|rrs| - 1]];
    }
  }

  lemma LastTargetTargets(ans: seq<RR>, n: Name)
    ensures Targets(ans, n, LastTarget(Owned(ans, n)))
  {
    FilterMembers(ans, OwnedBy(n));
    LastTargetFound(Owned(ans, n));
  }

  lemma FirstIsLast(ans: seq<RR>, n: Name)
    requires OneTarget(ans)
    ensures FirstTarget(Owned(ans, n)) == LastTarget(Owned(ans, n))
  {
    FirstTargetTargets(ans, n);
    LastTargetTargets(ans, n);
    TargetUnique(ans, n, FirstTarget(Owned(ans, n)), LastTarget(Owned(ans, n)));
  }

  // ---- The chaser and the order of the answer ----

  lemma HopIgnoresOrder(a: seq<RR>, b: seq<RR>, qtype: U16, n: Name)
    requires multiset(a) == multiset(b) && OneTarget(a)
    ensures Owns(a, n) <==> Owns(b, n)
    ensures Hop(a, qtype, n) == Hop(b, qtype, n)
  {
    SameElements(a, b);
    OneTargetPermuted(a, b);
    LastTargetTargets(a, n);
    LastTargetTargets(b, n);
    TargetsPermuted(a, b, n, LastTarget(Owned(a, n)));
    TargetUnique(b, n, LastTarget(Owned(a, n)), LastTarget(Owned(b, n)));
  }

  lemma {:induction false} AfterIgnoresOrder(a: seq<RR>, b: seq<RR>, qtype: U16, name: Name, k: nat)
    requires multiset(a) == multiset(b) && OneTarget(a)
    ensures After(a, qtype, name, k) == After(b, qtype, name, k)
  {
    if k == 0 {
    } else {
      AfterIgnoresOrder(a, b, qtype, name, k - 1);
      if After(a, qtype, name, k - 1).Some? {
        HopIgnoresOrder(a, b, qtype, After(a, qtype, name, k - 1).value);
      }
    }
  }

  /** Reordering an answer does not change whether, or where, resolution restarts. */
  lemma ChaserIgnoresOrder(a: seq<RR>, b: seq<RR>, qtype: U16, name: Name, target: Name)
    requires multiset(a) == multiset(b) && OneTarget(a)
    ensures Dangles(a, qtype, name, target) <==> Dangles(b, qtype, name, target)
  {
    SameElements(a, b);
    forall k: nat
      ensures After(a, qtype, name, k) == After(b, qtype, name, k)
    {
      AfterIgnoresOrder(a, b, qtype, name, k);
    }
    assert Owns(a, target) <==> Owns(b, target);
  }

  /** Nor does reordering a reply change whether, or where, its filtered answer makes resolution restart. */
  lemma RestartIgnoresOrder(zone: Name, a: seq<RR>, b: seq<RR>, qtype: U16, name: Name, target: Name)
    requires multiset(a) == multiset(b) && OneTarget(a)
    ensures Dangles(FilteredAnswer(zone, name, a), qtype, name, target) <==>
            Dangles(FilteredAnswer(zone, name, b), qtype, name, target)
  {
    var f := FilteredAnswer(zone, name, a);
    FilterIgnoresOrder(zone, name, a, b);
    forall r | r in f
      ensures r in a
    {
      FilteredAnswerExact(zone, name, a, r);
    }
    ChaserIgnoresOrder(f, FilteredAnswer(zone, name, b), qtype, name, target);
  }

  // ---- The two walkers ----

  /** The filter gave up on e because it left the zone, or because the raw answer has nothing for it. */
  ghost predicate CutShort(zone: Name, ans: seq<RR>, e: Name) {
    e.Fq? && (!IsSubDomain(zone, e) || !Owns(ans, e))
  }

  /** A name on the chain owns a record that answers the question. */
  ghost predicate ChainAnswers(zone: Name, name: Name, ans: seq<RR>, qtype: U16) {
    exists i :: 0 <= i < |Chain(zone, name, ans)| && OwnsType(ans, Chain(zone, name, ans)[i], qtype)
  }

  /** On the filtered answer, a chain name that does not answer the question hops to its first target. */
  lemma ChainNameHops(zone: Name, name: Name, ans: seq<RR>, qtype: U16, n: Name)
    requires OneTarget(ans)
    requires FoldIn(n, Chain(zone, name, ans))
    ensures var f, t := FilteredAnswer(zone, name, ans), FirstTarget(Owned(ans, n));
      && Owns(f, n)
      && Hop(f, qtype, n) == if OwnsType(ans, n, qtype) || t.Empty? then None else Some(t)
  {
    var names := Chain(zone, name, ans);
    var f := FilteredAnswer(zone, name, ans);
    OwnedGather(ans, names, n);
    var i :| 0 <= i < |names| && EqualFold(names[i], n);
    OwnedFolds(ans, names[i], n);
    OwnedEmpty(ans, names[i]);
    OwnedEmpty(ans, n);
    OwnedEmpty(f, n);
    FirstIsLast(ans, n);
    FilterMembers(ans, OwnedBy(n));
    FilterMembers(f, OwnedBy(n));
    forall r: RR | EqualFold(r.owner, n)
      ensures r in f <==> r in ans
    {
      assert r in f <==> r in Owned(f, n);
      assert r in ans <==> r in Owned(ans, n);
    }
  }

  /** The chaser retraces the filter's chain name by name until one answers the question. */
  lemma {:induction false} ChaserFollowsChain(zone: Name, name: Name, ans: seq<RR>, qtype: U16, k: nat)
    requires OneTarget(ans)
    requires k < |Chain(zone, name, ans)|
    requires forall i :: 0 <= i < k ==> !OwnsType(ans, Chain(zone, name, ans)[i], qtype)
    ensures After(FilteredAnswer(zone, name, ans), qtype, name, k) == Some(Chain(zone, name, ans)[k])
  {
    var names := Chain(zone, name, ans);
    if k == 0 {
    } else {
      ChaserFollowsChain(zone, name, ans, qtype, k - 1);
      assert EqualFold(names[k - 1], names[k - 1]);
      ChainNameHops(zone, name, ans, qtype, names[k - 1]);
      assert names[k - 1 + 1] == FirstTarget(Owned(ans, names[k - 1]));
    }
  }

  lemma {:induction false} FirstAnswering(ans: seq<RR>, names: seq<Name>, qtype: U16) returns (i: nat)
    requires exists k :: 0 <= k < |names| && OwnsType(ans, names[k], qtype)
    ensures i < |names| && OwnsType(ans, names[i], qtype)
    ensures forall k :: 0 <= k < i ==> !OwnsType(ans, names[k], qtype)
  {
    var front := names[..|names| - 1];
    if exists k :: 0 <= k < |front| && OwnsType(ans, front[k], qtype) {
      i := FirstAnswering(ans, front, qtype);
      assert forall k :: 0 <= k < i ==> names[k] == front[k];
    } else {
      i := |front|;
      assert forall k :: 0 <= k < i ==> names[k] == front[k];
    }
  }

  /** If a chain name answers the question, the chaser stops there. */
  lemma AnsweringNameStops(zone: Name, name: Name, ans: seq<RR>, qtype: U16, target: Name)
    requires OneTarget(ans) && ChainAnswers(zone, name, ans, qtype)
    ensures !Dangles(FilteredAnswer(zone, name, ans), qtype, name, target)
  {
    var names := Chain(zone, name, ans);
    var i := FirstAnswering(ans, names, qtype);
    ChaserFollowsChain(zone, name, ans, qtype, i);
    assert EqualFold(names[i], names[i]);
    ChainNameHops(zone, name, ans, qtype, names[i]);
    ChainEnded(FilteredAnswer(zone, name, ans), qtype, name, i);
  }

  /** On a chain that closes on itself, every name's target is on the chain. */
  lemma CycleClosed(zone: Name, name: Name, ans: seq<RR>, n: Name)
    requires var names := Chain(zone, name, ans);
      names != [] && FoldIn(Expect(ans, name, names), names) && FoldIn(n, names)
    ensures FoldIn(FirstTarget(Owned(ans, n)), Chain(zone, name, ans))
  {
    var names := Chain(zone, name, ans);
    var i :| 0 <= i < |names| && EqualFold(names[i], n);
    OwnedFolds(ans, names[i], n);
    if i + 1 < |names| {
      assert names[i + 1] == FirstTarget(Owned(ans, names[i]));
      assert EqualFold(names[i + 1], names[i + 1]);
    }
  }

  /** Once the chain closes on itself the chaser never leaves it. */
  lemma {:induction false} ChaserStaysOnCycle(zone: Name, name: Name, ans: seq<RR>, qtype: U16, k: nat)
    requires OneTarget(ans)
    requires var names := Chain(zone, name, ans);
      names != [] && FoldIn(Expect(ans, name, names), names)
    ensures var at := After(FilteredAnswer(zone, name, ans), qtype, name, k);
      at.Some? ==> FoldIn(at.value, Chain(zone, name, ans))
  {
    if k == 0 {
      assert EqualFold(Chain(zone, name, ans)[0], name);
    } else {
      ChaserStaysOnCycle(zone, name, ans, qtype, k - 1);
      var prev := After(FilteredAnswer(zone, name, ans), qtype, name, k - 1);
      if prev.Some? {
        ChainNameHops(zone, name, ans, qtype, prev.value);
        CycleClosed(zone, name, ans, prev.value);
      }
    }
  }

  /** On a chain that closes on itself no name is missing. */
  lemma CycleNeverMissing(zone: Name, name: Name, ans: seq<RR>, qtype: U16, target: Name)
    requires OneTarget(ans)
    requires var names := Chain(zone, name, ans);
      names != [] && FoldIn(Expect(ans, name, names), names)
    ensures !Dangles(FilteredAnswer(zone, name, ans), qtype, name, target)
  {
    var f := FilteredAnswer(zone, name, ans);
    forall k: nat | After(f, qtype, name, k).Some?
      ensures Owns(f, After(f, qtype, name, k).value)
    {
      ChaserStaysOnCycle(zone, name, ans, qtype, k);
      ChainNameHops(zone, name, ans, qtype, After(f, qtype, name, k).value);
    }
  }

  /** A name the filter cut off owns nothing in the filtered answer. */
  lemma CutNameMissing(zone: Name, name: Name, ans: seq<RR>)
    requires CutShort(zone, ans, Expect(ans, name, Chain(zone, name, ans)))
    ensures !Owns(FilteredAnswer(zone, name, ans), Expect(ans, name, Chain(zone, name, ans)))
  {
    var names, e := Chain(zone, name, ans), Expect(ans, name, Chain(zone, name, ans));
    forall r | r in FilteredAnswer(zone, name, ans)
      ensures !EqualFold(r.owner, e)
    {
      FilteredAnswerExact(zone, name, ans, r);
      var i :| 0 <= i < |names| && EqualFold(names[i], r.owner);
      if EqualFold(r.owner, e) {
        SubDomainFolds(zone, zone, names[i], e);
      }
    }
  }

  /** Where the chain ends, if no name on it answers the question. */
  lemma LastNameHops(zone: Name, name: Name, ans: seq<RR>, qtype: U16)
    requires OneTarget(ans) && Chain(zone, name, ans) != [] && !ChainAnswers(zone, name, ans, qtype)
    ensures var f, n := FilteredAnswer(zone, name, ans), |Chain(zone, name, ans)|;
      var e := Expect(ans, name, Chain(zone, name, ans));
      && After(f, qtype, name, n - 1).Some? && Owns(f, After(f, qtype, name, n - 1).value)
      && Hop(f, qtype, After(f, qtype, name, n - 1).value) == if e.Empty? then None else Some(e)
  {
    var names := Chain(zone, name, ans);
    var last := names[|names| - 1];
    assert EqualFold(last, last);
    ChaserFollowsChain(zone, name, ans, qtype, |names| - 1);
    ChainNameHops(zone, name, ans, qtype, last);
  }

  /** With a name missing after k hops, the chaser asks for a restart there and nowhere else. */
  lemma CutNameDangles(f: seq<RR>, qtype: U16, name: Name, k: nat, e: Name, target: Name)
    requires qtype != TYPE_CNAME && k >= 1
    requires After(f, qtype, name, k) == Some(e) && !Owns(f, e)
    ensures Dangles(f, qtype, name, target) <==> target == e
  {
    assert Dangles(f, qtype, name, e);
    if Dangles(f, qtype, name, target) {
      DanglesUnique(f, qtype, name, target, e);
    }
  }

  /**
    The walkers exactly: on a nonempty filtered answer the chaser asks for a restart if and only if the
    filter stopped because the next name left the zone or owned nothing in the raw answer, and no name of
    its chain answers the question; and it restarts at that next name.
    */
  lemma WalkersExact(zone: Name, name: Name, ans: seq<RR>, qtype: U16, target: Name)
    requires OneTarget(ans) && qtype != TYPE_CNAME
    requires FilteredAnswer(zone, name, ans) != []
    ensures var e := Expect(ans, name, Chain(zone, name, ans));
      Dangles(FilteredAnswer(zone, name, ans), qtype, name, target) <==>
        target == e && CutShort(zone, ans, e) && !ChainAnswers(zone, name, ans, qtype)
  {
    var names := Chain(zone, name, ans);
    var f := FilteredAnswer(zone, name, ans);
    var n, e := |names|, Expect(ans, name, names);
    if ChainAnswers(zone, name, ans, qtype) {
      AnsweringNameStops(zone, name, ans, qtype, target);
    } else if e.Empty? {
      LastNameHops(zone, name, ans, qtype);
      ChainEnded(f, qtype, name, n - 1);
    } else if CutShort(zone, ans, e) {
      LastNameHops(zone, name, ans, qtype);
      CutNameMissing(zone, name, ans);
      assert After(f, qtype, name, n) == Some(e);
      CutNameDangles(f, qtype, name, n, e, target);
    } else {
      CycleNeverMissing(zone, name, ans, qtype, target);
    }
  }

  /** The walkers agree on target: a restart there if and only if the filter stopped short there. */
  ghost predicate Agree(zone: Name, name: Name, ans: seq<RR>, qtype: U16, target: Name) {
    var e := Expect(ans, name, Chain(zone, name, ans));
    Dangles(FilteredAnswer(zone, name, ans), qtype, name, target) <==> target == e && CutShort(zone, ans, e)
  }

  /** They agree on every target, except exactly when the chain was cut short although a name on it answers. */
  lemma AgreementExact(zone: Name, name: Name, ans: seq<RR>, qtype: U16)
    requires OneTarget(ans) && qtype != TYPE_CNAME
    requires FilteredAnswer(zone, name, ans) != []
    ensures (forall target :: Agree(zone, name, ans, qtype, target)) <==>
            !(CutShort(zone, ans, Expect(ans, name, Chain(zone, name, ans))) && ChainAnswers(zone, name, ans, qtype))
  {
    var e := Expect(ans, name, Chain(zone, name, ans));
    WalkersExact(zone, name, ans, qtype, e);
    if CutShort(zone, ans, e) && ChainAnswers(zone, name, ans, qtype) {
      assert !Agree(zone, name, ans, qtype, e);
    } else {
      forall target
        ensures Agree(zone, name, ans, qtype, target)
      {
        WalkersExact(zone, name, ans, qtype, target);
      }
    }
  }

  /** No owner has both a CNAME and a record that answers the question. */
  ghost predicate NoMixedOwner(ans: seq<RR>, qtype: U16) {
    forall r, s :: r in ans && s in ans && r.data.CNAME? && s.Type() == qtype ==> !EqualFold(r.owner, s.owner)
  }

  /** A chain that goes on to a further name owns CNAMEs throughout, so without mixed owners nothing on it answers. */
  lemma CutChainUnanswered(zone: Name, name: Name, ans: seq<RR>, qtype: U16)
    requires NoMixedOwner(ans, qtype) && Chain(zone, name, ans) != [] && Expect(ans, name, Chain(zone, name, ans)).Fq?
    ensures !ChainAnswers(zone, name, ans, qtype)
  {
    var names := Chain(zone, name, ans);
    forall i | 0 <= i < |names|
      ensures !OwnsType(ans, names[i], qtype)
    {
      FirstTargetTargets(ans, names[i]);
      if i < |names| - 1 {
        assert names[i + 1] == FirstTarget(Owned(ans, names[i]));
      }
      var r :| r in ans && r.data.CNAME? && EqualFold(r.owner, names[i]);
    }
  }

  /** Without mixed owners the walkers always agree. */
  lemma WalkersAgree(zone: Name, name: Name, ans: seq<RR>, qtype: U16, target: Name)
    requires OneTarget(ans) && NoMixedOwner(ans, qtype) && qtype != TYPE_CNAME
    requires FilteredAnswer(zone, name, ans) != []
    ensures Agree(zone, name, ans, qtype, target)
  {
    WalkersExact(zone, name, ans, qtype, target);
    if Expect(ans, name, Chain(zone, name, ans)).Fq? {
      CutChainUnanswered(zone, name, ans, qtype);
    }
  }

  // ---- Why the hypotheses are there ----

  const X: Name := Fq(["x"])
  const Y: Name := Fq(["y"])
  const Z: Name := Fq(["z"])

  /** x has two CNAMEs; the first one's target is answered, the second one's is not. */
  const TWO_CNAMES: seq<RR> := [RR(X, 0, CNAME(Y)), RR(X, 0, CNAME(Z)), RR(Y, 0, A([192, 0, 2, 1]))]
  const SWAPPED: seq<RR> := [RR(X, 0, CNAME(Z)), RR(X, 0, CNAME(Y)), RR(Y, 0, A([192, 0, 2, 1]))]

  lemma ThreeNames()
    ensures !EqualFold(X, Y) && !EqualFold(X, Z) && !EqualFold(Y, Z)
  {
    assert FoldLabel("x")[0] == 'x' && FoldLabel("y")[0] == 'y' && FoldLabel("z")[0] == 'z';
    assert FoldLabels(["x"])[0] == FoldLabel("x");
    assert FoldLabels(["y"])[0] == FoldLabel("y");
    assert FoldLabels(["z"])[0] == FoldLabel("z");
  }

  lemma TwoOwned(a: RR, b: RR, c: RR, n: Name)
    requires EqualFold(a.owner, n) && EqualFold(b.owner, n) && !EqualFold(c.owner, n)
    ensures Owned([a, b, c], n) == [a, b]
  {
    assert [a, b, c] == [a, b] + [c];
    FilterAppend([a, b], [c], OwnedBy(n));
    FilterAll([a, b], OwnedBy(n));
    FilterEmpty([c], OwnedBy(n));
  }

  lemma LastOwned(a: RR, b: RR, c: RR, n: Name)
    requires !EqualFold(a.owner, n) && !EqualFold(b.owner, n) && EqualFold(c.owner, n)
    ensures Owned([a, b, c], n) == [c]
  {
    assert [a, b, c] == [a, b] + [c];
    FilterAppend([a, b], [c], OwnedBy(n));
    FilterEmpty([a, b], OwnedBy(n));
    FilterAll([c], OwnedBy(n));
  }

  lemma TwoCNAMEsOwned()
    ensures Owned(TWO_CNAMES, X) == TWO_CNAMES[..2] && Owned(TWO_CNAMES, Y) == [TWO_CNAMES[2]]
    ensures Owned(SWAPPED, X) == SWAPPED[..2]
  {
    ThreeNames();
    TwoOwned(TWO_CNAMES[0], TWO_CNAMES[1], TWO_CNAMES[2], X);
    LastOwned(TWO_CNAMES[0], TWO_CNAMES[1], TWO_CNAMES[2], Y);
    TwoOwned(SWAPPED[0], SWAPPED[1], SWAPPED[2], X);
  }

  /** The filter follows x to y and keeps everything. */
  lemma TwoCNAMEsFiltered()
    ensures Chain(ROOT, X, TWO_CNAMES) == [X, Y]
    ensures FilteredAnswer(ROOT, X, TWO_CNAMES) == TWO_CNAMES
    ensures Expect(TWO_CNAMES, X, [X, Y]).Empty?
  {
    ThreeNames();
    TwoCNAMEsOwned();
    var r := TWO_CNAMES;
    assert r[0] in r && r[2] in r;
    assert [X, Y][..1] == [X];
    assert FirstTarget(r[..2]) == Y;
    assert FirstTarget([r[2]]) == Empty;
    assert CompleteChain(r, ROOT, X, [X, Y]);
    ChainUnique(r, ROOT, X, [X, Y], Chain(ROOT, X, r));
    assert Gather(r, [X, Y]) == Gather(r, [X]) + Owned(r, Y);
    assert Gather(r, [X]) == Gather(r, []) + Owned(r, X);
  }

  /** With two CNAMEs at one owner the walkers disagree: nothing was cut short, yet a restart is asked for. */
  lemma WalkersDisagree()
    ensures var e := Expect(TWO_CNAMES, X, Chain(ROOT, X, TWO_CNAMES));
      !CutShort(ROOT, TWO_CNAMES, e) && Dangles(FilteredAnswer(ROOT, X, TWO_CNAMES), TYPE_A, X, Z)
    ensures !Agree(ROOT, X, TWO_CNAMES, TYPE_A, Z)
  {
    ThreeNames();
    TwoCNAMEsOwned();
    TwoCNAMEsFiltered();
    var f := TWO_CNAMES;
    assert f[0] in f;
    assert LastTarget(f[..2]) == Z;
    assert Hop(f, TYPE_A, X) == Some(Z);
    assert After(f, TYPE_A, X, 0) == Some(X);
    assert After(f, TYPE_A, X, 1) == Some(Z);
  }

  lemma SwappedFiltered()
    ensures Chain(ROOT, X, SWAPPED) == [X]
  {
    ThreeNames();
    TwoCNAMEsOwned();
    var r := SWAPPED;
    assert r[0] in r;
    assert FirstTarget(r[..2]) == Z;
    assert CompleteChain(r, ROOT, X, [X]);
    ChainUnique(r, ROOT, X, [X], Chain(ROOT, X, r));
  }

  lemma FirstTwoSwapped<T>(a: T, b: T, c: T)
    ensures multiset([a, b, c]) == multiset([b, a, c])
  {
  }

  lemma AddressSurvives()
    ensures TWO_CNAMES[2] in FilteredAnswer(ROOT, X, TWO_CNAMES)
  {
    TwoCNAMEsFiltered();
    assert TWO_CNAMES[2] in TWO_CNAMES;
  }

  lemma AddressLost()
    ensures TWO_CNAMES[2] !in FilteredAnswer(ROOT, X, SWAPPED)
  {
    ThreeNames();
    SwappedFiltered();
    FilteredAnswerExact(ROOT, X, SWAPPED, TWO_CNAMES[2]);
    assert !FoldIn(Y, [X]);
  }

  /** And the order of the answer section then decides what survives. */
  lemma OrderMatters()
    ensures multiset(TWO_CNAMES) == multiset(SWAPPED)
    ensures TWO_CNAMES[2] in FilteredAnswer(ROOT, X, TWO_CNAMES)
    ensures TWO_CNAMES[2] !in FilteredAnswer(ROOT, X, SWAPPED)
  {
    FirstTwoSwapped(TWO_CNAMES[0], TWO_CNAMES[1], TWO_CNAMES[2]);
    AddressSurvives();
    AddressLost();
  }

  /** x has a CNAME and an address as well. */
  const MIXED_OWNER: seq<RR> := [RR(X, 0, CNAME(Y)), RR(X, 0, A([192, 0, 2, 1]))]

  lemma MixedOwnerChain()
    ensures Chain(ROOT, X, MIXED_OWNER) == [X] && Expect(MIXED_OWNER, X, [X]) == Y
    ensures OneTarget(MIXED_OWNER) && OwnsType(MIXED_OWNER, X, TYPE_A) && !Owns(MIXED_OWNER, Y)
  {
    ThreeNames();
    var r := MIXED_OWNER;
    FilterAll(r, OwnedBy(X));
    assert r[0] in r && r[1] in r;
    assert FirstTarget(r) == Y;
    assert CompleteChain(r, ROOT, X, [X]);
    ChainUnique(r, ROOT, X, [X], Chain(ROOT, X, r));
  }

  /** With a mixed owner the walkers disagree the other way: the chain was cut short, yet no restart is asked for. */
  lemma MixedOwnerDisagrees(target: Name)
    ensures OneTarget(MIXED_OWNER)
    ensures CutShort(ROOT, MIXED_OWNER, Expect(MIXED_OWNER, X, Chain(ROOT, X, MIXED_OWNER)))
    ensures !Dangles(FilteredAnswer(ROOT, X, MIXED_OWNER), TYPE_A, X, target)
    ensures !Agree(ROOT, X, MIXED_OWNER, TYPE_A, Y)
  {
    MixedOwnerChain();
    assert OwnsType(MIXED_OWNER, Chain(ROOT, X, MIXED_OWNER)[0], TYPE_A);
    AnsweringNameStops(ROOT, X, MIXED_OWNER, TYPE_A, Y);
    AnsweringNameStops(ROOT, X, MIXED_OWNER, TYPE_A, target);
  }
}
