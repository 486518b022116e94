/** The two chain walkers in terms of the records themselves: along first CNAMEs, and along last ones. */
module ChainPaths {
  import opened Sequences
  import opened Names
  import opened Records
  import opened Bailiwick
  import opened BailiwickProofs
  import opened Chase

  /** ans[i] is a CNAME record of n. */
  predicate CNAMEAt(ans: seq<RR>, n: Name, i: int)
    requires 0 <= i < |ans|
  {
    ans[i].data.CNAME? && EqualFold(ans[i].owner, n)
  }

  /** The first CNAME record of n has the target t. */
  ghost predicate FirstCNAME(ans: seq<RR>, n: Name, t: Name) {
    exists i :: 0 <= i < |ans| && CNAMEAt(ans, n, i) && ans[i].data.target == t
                && forall j :: 0 <= j < i ==> !CNAMEAt(ans, n, j)
  }

  /** The last CNAME record of n has the target t. */
  ghost predicate LastCNAME(ans: seq<RR>, n: Name, t: Name) {
    exists i :: 0 <= i < |ans| && CNAMEAt(ans, n, i) && ans[i].data.target == t
                && forall j :: i < j < |ans| ==> !CNAMEAt(ans, n, j)
  }

  // ---- First and last targets ----

  lemma {:induction false} FirstTargetAfter(a: seq<RR>, r: RR, b: seq<RR>)
    requires r.data.CNAME? && forall x :: x in a ==> !x.data.CNAME?
    ensures FirstTarget(a + [r] + b) == r.data.target
  {
    var s := a + [r] + b;
    if a == [] {
      assert s[0] == r;
    } else {
      assert s[0] == a[0] && a[0] in a && s[1..] == a[1..] + [r] + b;
      FirstTargetAfter(a[1..], r, b);
    }
  }

  lemma {:induction false} LastTargetBefore(a: seq<RR>, r: RR, b: seq<RR>)
    requires r.data.CNAME? && forall x :: x in b ==> !x.data.CNAME?
    ensures LastTarget(a + [r] + b) == r.data.target
  {
    var s := a + [r] + b;
    if b == [] {
      assert s == a + [r];
    } else {
      var c := b[..|b| - 1];
      assert s[|s| - 1] == b[|b| - 1] && b[|b| - 1] in b && s[..|s| - 1] == a + [r] + c;
      LastTargetBefore(a, r, c);
    }
  }

  lemma {:induction false} NoFirst(rrs: seq<RR>)
    requires forall x :: x in rrs ==> !x.data.CNAME?
    ensures FirstTarget(rrs) == Empty
  {
    if rrs == [] {
    } else {
      assert rrs[0] in rrs;
      NoFirst(rrs[1..]);
    }
  }

  lemma {:induction false} NoLast(rrs: seq<RR>)
    requires forall x :: x in rrs ==> !x.data.CNAME?
    ensures LastTarget(rrs) == Empty
  {
    if rrs == [] {
    } else {
      assert rrs[|rrs| - 1] in rrs;
      NoLast(rrs[..|rrs| - 1]);
    }
  }

  lemma NoTargets(rrs: seq<RR>)
    requires forall x :: x in rrs ==> !x.data.CNAME?
    ensures FirstTarget(rrs) == Empty && LastTarget(rrs) == Empty
  {
    NoFirst(rrs);
    NoLast(rrs);
  }

  /** The records of n around one of them. */
  lemma OwnedAround(ans: seq<RR>, n: Name, i: nat)
    requires i < |ans| && EqualFold(ans[i].owner, n)
    ensures Owned(ans, n) == Owned(ans[..i], n) + [ans[i]] + Owned(ans[i + 1..], n)
  {
    FilterStep(ans, i, OwnedBy(n));
    FilterAppend(ans[..i + 1], ans[i + 1..], OwnedBy(n));
    assert ans == ans[..i + 1] + ans[i + 1..];
  }

  lemma OwnedWithoutCNAMEs(ans: seq<RR>, n: Name)
    requires forall i :: 0 <= i < |ans| ==> !CNAMEAt(ans, n, i)
    ensures forall x :: x in Owned(ans, n) ==> !x.data.CNAME?
  {
    FilterMembers(ans, OwnedBy(n));
    forall x | x in Owned(ans, n)
      ensures !x.data.CNAME?
    {
      var i :| 0 <= i < |ans| && ans[i] == x;
      assert !CNAMEAt(ans, n, i);
    }
  }

  lemma FirstCNAMETarget(ans: seq<RR>, n: Name, t: Name)
    requires FirstCNAME(ans, n, t)
    ensures FirstTarget(Owned(ans, n)) == t
  {
    var i :| 0 <= i < |ans| && CNAMEAt(ans, n, i) && ans[i].data.target == t
             && forall j :: 0 <= j < i ==> !CNAMEAt(ans, n, j);
    OwnedAround(ans, n, i);
    assert forall j :: 0 <= j < i ==> CNAMEAt(ans[..i], n, j) == CNAMEAt(ans, n, j);
    OwnedWithoutCNAMEs(ans[..i], n);
    FirstTargetAfter(Owned(ans[..i], n), ans[i], Owned(ans[i + 1..], n));
  }

  lemma LastCNAMETarget(ans: seq<RR>, n: Name, t: Name)
    requires LastCNAME(ans, n, t)
    ensures LastTarget(Owned(ans, n)) == t
  {
    var i :| 0 <= i < |ans| && CNAMEAt(ans, n, i) && ans[i].data.target == t
             && forall j :: i < j < |ans| ==> !CNAMEAt(ans, n, j);
    OwnedAround(ans, n, i);
    var rest := ans[i + 1..];
    assert forall j :: 0 <= j < |rest| ==> CNAMEAt(rest, n, j) == CNAMEAt(ans, n, j + i + 1);
    OwnedWithoutCNAMEs(rest, n);
    LastTargetBefore(Owned(ans[..i], n), ans[i], Owned(rest, n));
  }

  lemma {:induction false} SomeFirstCNAME(ans: seq<RR>, n: Name, k: nat) returns (i: nat)
    requires k < |ans| && CNAMEAt(ans, n, k)
    ensures i <= k && CNAMEAt(ans, n, i) && forall j :: 0 <= j < i ==> !CNAMEAt(ans, n, j)
  {
    if j :| 0 <= j < k && CNAMEAt(ans, n, j) {
      i := SomeFirstCNAME(ans, n, j);
    } else {
      i := k;
    }
  }

  lemma {:induction false} SomeLastCNAME(ans: seq<RR>, n: Name, k: nat) returns (i: nat)
    requires k < |ans| && CNAMEAt(ans, n, k)
    ensures k <= i < |ans| && CNAMEAt(ans, n, i) && forall j :: i < j < |ans| ==> !CNAMEAt(ans, n, j)
    decreases |ans| - k
  {
    if j :| k < j < |ans| && CNAMEAt(ans, n, j) {
      i := SomeLastCNAME(ans, n, j);
    } else {
      i := k;
    }
  }

  /** The filter's and the chaser's next name are the targets of the first and of the last CNAME record. */
  lemma TargetsExact(ans: seq<RR>, n: Name, t: Name)
    requires t.Fq?
    ensures FirstTarget(Owned(ans, n)) == t <==> FirstCNAME(ans, n, t)
    ensures LastTarget(Owned(ans, n)) == t <==> LastCNAME(ans, n, t)
  {
    if k :| 0 <= k < |ans| && CNAMEAt(ans, n, k) {
      var i := SomeFirstCNAME(ans, n, k);
      assert FirstCNAME(ans, n, ans[i].data.target);
      FirstCNAMETarget(ans, n, ans[i].data.target);
      var j := SomeLastCNAME(ans, n, k);
      assert LastCNAME(ans, n, ans[j].data.target);
      LastCNAMETarget(ans, n, ans[j].data.target);
      if FirstCNAME(ans, n, t) {
        FirstCNAMETarget(ans, n, t);
      }
      if LastCNAME(ans, n, t) {
        LastCNAMETarget(ans, n, t);
      }
    } else {
      OwnedWithoutCNAMEs(ans, n);
      NoTargets(Owned(ans, n));
    }
  }

  // ---- The filter ----

  /** From name, first CNAMEs lead along path, which stays inside zone. */
  ghost predicate FirstPath(zone: Name, name: Name, ans: seq<RR>, path: seq<Name>) {
    && |path| > 0 && path[0] == name
    && (forall i :: 0 <= i < |path| ==> path[i].Fq? && IsSubDomain(zone, path[i]))
    && (forall i :: 0 <= i < |path| - 1 ==> FirstCNAME(ans, path[i], path[i + 1]))
  }

  ghost predicate FirstPathTo(zone: Name, name: Name, ans: seq<RR>, path: seq<Name>, n: Name) {
    FirstPath(zone, name, ans, path) && EqualFold(path[|path| - 1], n)
  }

  lemma ChainIsPath(zone: Name, name: Name, ans: seq<RR>, i: nat)
    requires i < |Chain(zone, name, ans)|
    ensures FirstPath(zone, name, ans, Chain(zone, name, ans)[..i + 1])
  {
    var names := Chain(zone, name, ans);
    forall k | 0 <= k < i
      ensures FirstCNAME(ans, names[k], names[k + 1])
    {
      TargetsExact(ans, names[k], names[k + 1]);
    }
  }

  lemma PathOwns(zone: Name, name: Name, ans: seq<RR>, path: seq<Name>, k: nat)
    requires FirstPath(zone, name, ans, path) && k < |path| && Owns(ans, path[|path| - 1])
    ensures Owns(ans, path[k])
  {
    if k < |path| - 1 {
      assert FirstCNAME(ans, path[k], path[k + 1]);
      var i :| 0 <= i < |ans| && CNAMEAt(ans, path[k], i) && ans[i].data.target == path[k + 1];
      assert ans[i] in ans;
    }
  }

  lemma {:induction false} PathOnChain(zone: Name, name: Name, ans: seq<RR>, path: seq<Name>, k: nat)
    requires FirstPath(zone, name, ans, path) && k < |path| && Owns(ans, path[|path| - 1])
    ensures FoldIn(path[k], Chain(zone, name, ans))
  {
    var names := Chain(zone, name, ans);
    PathOwns(zone, name, ans, path, k);
    if k == 0 {
      if names != [] {
        assert EqualFold(names[0], name);
      }
    } else {
      PathOnChain(zone, name, ans, path, k - 1);
      var i :| 0 <= i < |names| && EqualFold(names[i], path[k - 1]);
      assert FirstCNAME(ans, path[k - 1], path[k - 1 + 1]);
      TargetsExact(ans, path[k - 1], path[k]);
      OwnedFolds(ans, names[i], path[k - 1]);
      if i < |names| - 1 {
        assert names[i + 1] == path[k];
        assert EqualFold(names[i + 1], path[k]);
      }
    }
  }

  lemma PathEndsOnChain(zone: Name, name: Name, ans: seq<RR>, path: seq<Name>, r: RR)
    requires r in ans && FirstPathTo(zone, name, ans, path, r.owner)
    ensures FoldIn(r.owner, Chain(zone, name, ans))
  {
    var names, last := Chain(zone, name, ans), path[|path| - 1];
    PathOnChain(zone, name, ans, path, |path| - 1);
    var i :| 0 <= i < |names| && EqualFold(names[i], last);
    assert EqualFold(names[i], r.owner);
  }

  /**
    A record survives in the answer section if and only if it is owned by a name to which first CNAMEs lead from
    the queried one without leaving the zone.
    */
  lemma FilteredAnswerByPath(zone: Name, name: Name, ans: seq<RR>, r: RR)
    ensures r in FilteredAnswer(zone, name, ans) <==>
            r in ans && exists path :: FirstPathTo(zone, name, ans, path, r.owner)
  {
    var names := Chain(zone, name, ans);
    FilteredAnswerExact(zone, name, ans, r);
    if r in FilteredAnswer(zone, name, ans) {
      var i :| 0 <= i < |names| && EqualFold(names[i], r.owner);
      ChainIsPath(zone, name, ans, i);
      assert FirstPathTo(zone, name, ans, names[..i + 1], r.owner);
    }
    if r in ans && exists path :: FirstPathTo(zone, name, ans, path, r.owner) {
      var path :| FirstPathTo(zone, name, ans, path, r.owner);
      PathEndsOnChain(zone, name, ans, path, r);
    }
  }

  // ---- The chaser ----

  /** From name, last CNAMEs lead along path, past names that own no record of the queried type. */
  ghost predicate LastPath(ans: seq<RR>, qtype: U16, name: Name, path: seq<Name>) {
    && |path| > 0 && path[0] == name
    && (forall i :: 0 < i < |path| ==> path[i].Fq? && LastCNAME(ans, path[i - 1], path[i]))
    && (forall i, r :: 0 <= i < |path| - 1 && r in ans && EqualFold(r.owner, path[i]) ==> r.Type() != qtype)
  }

  ghost predicate LastPathTo(ans: seq<RR>, qtype: U16, name: Name, path: seq<Name>, t: Name) {
    LastPath(ans, qtype, name, path) && |path| > 1 && path[|path| - 1] == t
  }

  lemma HopExact(ans: seq<RR>, qtype: U16, n: Name, t: Name)
    requires t.Fq?
    ensures Hop(ans, qtype, n) == Some(t) <==>
            LastCNAME(ans, n, t) && forall r :: r in ans && EqualFold(r.owner, n) ==> r.Type() != qtype
  {
    TargetsExact(ans, n, t);
    if LastCNAME(ans, n, t) {
      var i :| 0 <= i < |ans| && CNAMEAt(ans, n, i) && ans[i].data.target == t;
      assert ans[i] in ans;
    }
  }

  lemma {:induction false} PathFollowed(ans: seq<RR>, qtype: U16, name: Name, path: seq<Name>, k: nat)
    requires LastPath(ans, qtype, name, path) && k < |path|
    ensures After(ans, qtype, name, k) == Some(path[k])
  {
    if k == 0 {
    } else {
      PathFollowed(ans, qtype, name, path, k - 1);
      HopExact(ans, qtype, path[k - 1], path[k]);
    }
  }

  lemma HopFq(ans: seq<RR>, qtype: U16, n: Name)
    ensures Hop(ans, qtype, n).Some? ==> Hop(ans, qtype, n).value.Fq?
  {
  }

  lemma PathMore(ans: seq<RR>, qtype: U16, name: Name, front: seq<Name>, t: Name)
    requires LastPath(ans, qtype, name, front) && Hop(ans, qtype, front[|front| - 1]) == Some(t)
    ensures LastPath(ans, qtype, name, front + [t])
  {
    var n := |front| - 1;
    HopFq(ans, qtype, front[n]);
    HopExact(ans, qtype, front[n], t);
    var path := front + [t];
    forall i | 0 < i < |path|
      ensures path[i].Fq? && LastCNAME(ans, path[i - 1], path[i])
    {
      assert i < |front| ==> path[i] == front[i];
    }
    forall i, r | 0 <= i < |path| - 1 && r in ans && EqualFold(r.owner, path[i])
      ensures r.Type() != qtype
    {
      assert path[i] == front[i];
    }
  }

  lemma {:induction false} AfterIsPath(ans: seq<RR>, qtype: U16, name: Name, k: nat) returns (path: seq<Name>)
    requires After(ans, qtype, name, k).Some?
    ensures LastPath(ans, qtype, name, path) && |path| == k + 1 && path[k] == After(ans, qtype, name, k).value
  {
    if k == 0 {
      path := [name];
    } else {
      AfterDefined(ans, qtype, name, k - 1, k);
      var front := AfterIsPath(ans, qtype, name, k - 1);
      var t := After(ans, qtype, name, k).value;
      PathMore(ans, qtype, name, front, t);
      path := front + [t];
    }
  }

  /**
    A restart at t is asked for if and only if the question is not for a CNAME, last CNAMEs lead in one or more
    steps from name to t, past names that own no record of the queried type, and t owns no record at all.
    */
  lemma RestartByPath(ans: seq<RR>, qtype: U16, name: Name, t: Name)
    ensures Dangles(ans, qtype, name, t) <==>
      && qtype != 5
      && (exists path :: LastPathTo(ans, qtype, name, path, t))
      && forall r :: r in ans ==> !EqualFold(r.owner, t)
  {
    if Dangles(ans, qtype, name, t) {
      var k: nat :| k >= 1 && After(ans, qtype, name, k) == Some(t) && !Owns(ans, t);
      var path := AfterIsPath(ans, qtype, name, k);
      assert LastPathTo(ans, qtype, name, path, t);
    }
    if path :| LastPathTo(ans, qtype, name, path, t) {
      PathFollowed(ans, qtype, name, path, |path| - 1);
    }
  }
}
