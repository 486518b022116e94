/** Connected answers: every record's owner is reachable from a name along the answer's own CNAMEs. */
module Reach {
  import opened Sequences
  import opened Names
  import opened Records
  import opened Bailiwick
  import opened BailiwickProofs
  import opened Chase
  import opened Agreement

  ghost predicate Link(ans: seq<RR>, n: Name, m: Name) {
    exists r :: r in ans && r.data.CNAME? && EqualFold(r.owner, n) && r.data.target == m
  }

  ghost predicate Route(ans: seq<RR>, path: seq<Name>) {
    |path| > 0 && forall i :: 0 <= i < |path| - 1 ==> Link(ans, path[i], path[i + 1])
  }

  ghost predicate RouteTo(ans: seq<RR>, path: seq<Name>, n: Name, m: Name) {
    Route(ans, path) && path[0] == n && EqualFold(path[|path| - 1], m)
  }

  /** Following CNAMEs of ans from n leads to m. */
  ghost predicate Reaches(ans: seq<RR>, n: Name, m: Name) {
    exists path :: RouteTo(ans, path, n, m)
  }

  /** An answer to a question about n that hangs together. */
  ghost predicate Connected(ans: seq<RR>, n: Name) {
    forall r :: r in ans ==> Reaches(ans, n, r.owner)
  }

  lemma ReachesSelf(ans: seq<RR>, n: Name, m: Name)
    requires EqualFold(n, m)
    ensures Reaches(ans, n, m)
  {
    assert RouteTo(ans, [n], n, m);
  }

  lemma ReachesMore(a: seq<RR>, b: seq<RR>, n: Name, m: Name)
    requires Reaches(a, n, m) && forall r :: r in a ==> r in b
    ensures Reaches(b, n, m)
  {
    var path :| RouteTo(a, path, n, m);
    forall i | 0 <= i < |path| - 1
      ensures Link(b, path[i], path[i + 1])
    {
      assert Link(a, path[i], path[i + 1]);
    }
    assert RouteTo(b, path, n, m);
  }

  lemma ReachesTransitive(ans: seq<RR>, n: Name, m: Name, k: Name)
    requires Reaches(ans, n, m) && Reaches(ans, m, k)
    ensures Reaches(ans, n, k)
  {
    var p :| RouteTo(ans, p, n, m);
    var q :| RouteTo(ans, q, m, k);
    var path := p + q[1..];
    forall i | 0 <= i < |path| - 1
      ensures Link(ans, path[i], path[i + 1])
    {
      if i < |p| - 1 {
        assert Link(ans, p[i], p[i + 1]);
      } else {
        assert Link(ans, q[i - |p| + 1], q[i - |p| + 2]);
      }
    }
    assert RouteTo(ans, path, n, k);
  }

  /** Appending an answer connected to a reachable name keeps the whole connected. */
  lemma ConnectedAppend(a: seq<RR>, b: seq<RR>, n: Name, m: Name)
    requires Connected(a, n) && Connected(b, m)
    requires a != [] ==> Reaches(a, n, m)
    requires a == [] ==> n == m
    ensures Connected(a + b, n)
  {
    if a == [] {
      ReachesSelf(a, n, m);
    }
    forall r | r in a + b
      ensures Reaches(a + b, n, r.owner)
    {
      if r in a {
        ReachesMore(a, a + b, n, r.owner);
      } else {
        ReachesMore(a, a + b, n, m);
        ReachesMore(b, a + b, m, r.owner);
        ReachesTransitive(a + b, n, m, r.owner);
      }
    }
  }

  /** Consecutive chain names are linked by a CNAME the filter keeps. */
  lemma ChainLinked(zone: Name, name: Name, ans: seq<RR>, i: nat)
    requires i + 1 < |Chain(zone, name, ans)|
    ensures Link(FilteredAnswer(zone, name, ans), Chain(zone, name, ans)[i], Chain(zone, name, ans)[i + 1])
  {
    var names := Chain(zone, name, ans);
    assert names[i + 1] == FirstTarget(Owned(ans, names[i]));
    FirstTargetTargets(ans, names[i]);
    var r :| r in ans && r.data.CNAME? && EqualFold(r.owner, names[i]) && r.data.target == names[i + 1];
    FilteredAnswerExact(zone, name, ans, r);
    assert EqualFold(names[i], r.owner);
  }

  lemma ChainReached(zone: Name, name: Name, ans: seq<RR>, i: nat)
    requires i < |Chain(zone, name, ans)|
    ensures Reaches(FilteredAnswer(zone, name, ans), name, Chain(zone, name, ans)[i])
  {
    var names, f := Chain(zone, name, ans), FilteredAnswer(zone, name, ans);
    var path := names[..i + 1];
    forall k | 0 <= k < |path| - 1
      ensures Link(f, path[k], path[k + 1])
    {
      ChainLinked(zone, name, ans, k);
    }
    assert RouteTo(f, path, name, names[i]);
  }

  /** The filtered answer is connected: its chain is its own route. */
  lemma FilteredAnswerConnected(zone: Name, name: Name, ans: seq<RR>)
    ensures Connected(FilteredAnswer(zone, name, ans), name)
  {
    var names, f := Chain(zone, name, ans), FilteredAnswer(zone, name, ans);
    forall r | r in f
      ensures Reaches(f, name, r.owner)
    {
      FilteredAnswerExact(zone, name, ans, r);
      var i :| 0 <= i < |names| && EqualFold(names[i], r.owner);
      ChainReached(zone, name, ans, i);
      ReachesSelf(f, names[i], r.owner);
      ReachesTransitive(f, name, names[i], r.owner);
    }
  }

  lemma HopIsLink(ans: seq<RR>, qtype: U16, n: Name)
    requires Hop(ans, qtype, n).Some?
    ensures Link(ans, n, Hop(ans, qtype, n).value) && Hop(ans, qtype, n).value.Fq?
  {
    LastTargetTargets(ans, n);
  }

  /** A restart goes to a name the answer leads to. */
  lemma {:induction false} AfterReaches(ans: seq<RR>, qtype: U16, name: Name, k: nat)
    requires After(ans, qtype, name, k).Some?
    ensures Reaches(ans, name, After(ans, qtype, name, k).value)
    ensures k > 0 ==> After(ans, qtype, name, k).value.Fq?
  {
    if k == 0 {
      ReachesSelf(ans, name, name);
    } else {
      var n, m := After(ans, qtype, name, k - 1).value, After(ans, qtype, name, k).value;
      AfterReaches(ans, qtype, name, k - 1);
      HopIsLink(ans, qtype, n);
      assert RouteTo(ans, [n, m], n, m);
      ReachesTransitive(ans, name, n, m);
    }
  }

  lemma DanglesReachable(ans: seq<RR>, qtype: U16, name: Name, target: Name)
    requires Dangles(ans, qtype, name, target)
    ensures Reaches(ans, name, target) && target.Fq?
  {
    var k: nat :| k >= 1 && After(ans, qtype, name, k) == Some(target) && !Owns(ans, target);
    AfterReaches(ans, qtype, name, k);
  }

  /** An answer without CNAMEs makes nothing restart. */
  lemma NoCNAMENoRestart(ans: seq<RR>, qtype: U16, name: Name, target: Name)
    requires forall r :: r in ans ==> !r.data.CNAME?
    ensures !Dangles(ans, qtype, name, target)
  {
    FilterMembers(ans, OwnedBy(name));
    LastTargetFound(Owned(ans, name));
    assert Hop(ans, qtype, name).None?;
    forall k: nat | k >= 1
      ensures After(ans, qtype, name, k).None?
    {
      if After(ans, qtype, name, k).Some? {
        AfterDefined(ans, qtype, name, 0, k);
        AfterDefined(ans, qtype, name, 1, k);
      }
    }
  }

  /** Without CNAMEs, connected means owned by the name itself. */
  lemma ConnectedWithoutCNAMEs(ans: seq<RR>, n: Name)
    requires forall r :: r in ans ==> !r.data.CNAME?
    ensures Connected(ans, n) <==> forall r :: r in ans ==> EqualFold(n, r.owner)
  {
    forall r | r in ans
      ensures Reaches(ans, n, r.owner) <==> EqualFold(n, r.owner)
    {
      if EqualFold(n, r.owner) {
        ReachesSelf(ans, n, r.owner);
      }
      if Reaches(ans, n, r.owner) {
        var path :| RouteTo(ans, path, n, r.owner);
        if |path| > 1 {
          assert Link(ans, path[0], path[1]);
        }
      }
    }
  }
}
