/**
  The chaser: does an accepted answer end in a CNAME whose target it says nothing about, so that
  resolution must restart from the root for that target?
  */
module Chase {
  import opened Sequences
  import opened Names
  import opened Records
  import opened Bailiwick

  /** The target of the last CNAME, or Empty. */
  function LastTarget(rrs: seq<RR>): Name {
    if rrs == [] then Empty
    else if rrs[|rrs| - 1].data.CNAME? then rrs[|rrs| - 1].data.target
    else LastTarget(rrs[..|rrs| - 1])
  }

  predicate OwnsType(ans: seq<RR>, n: Name, qtype: U16) {
    exists r :: r in ans && EqualFold(r.owner, n) && r.Type() == qtype
  }

  /** Where the chain goes from n, if n neither answers the question nor ends the chain. */
  function Hop(ans: seq<RR>, qtype: U16, n: Name): Option<Name> {
    if !Owns(ans, n) || OwnsType(ans, n, qtype) || LastTarget(Owned(ans, n)).Empty? then None
    else Some(LastTarget(Owned(ans, n)))
  }

  function Next(ans: seq<RR>, qtype: U16, at: Option<Name>): Option<Name> {
    if at.None? then None else Hop(ans, qtype, at.value)
  }

  /** The k-th name of the chain from name. */
  function After(ans: seq<RR>, qtype: U16, name: Name, k: nat): Option<Name> {
    if k == 0 then Some(name) else Next(ans, qtype, After(ans, qtype, name, k - 1))
  }

  /** After one or more CNAMEs the chain reaches target, which owns no record at all. */
  ghost predicate Dangles(ans: seq<RR>, qtype: U16, name: Name, target: Name) {
    && qtype != TYPE_CNAME
    && exists k: nat :: k >= 1 && After(ans, qtype, name, k) == Some(target) && !Owns(ans, target)
  }

  /** The chain comes back to a name it has already been through. */
  ghost predicate Loops(ans: seq<RR>, qtype: U16, name: Name) {
    exists i: nat, j: nat :: i < j
      && After(ans, qtype, name, i).Some? && After(ans, qtype, name, j).Some?
      && EqualFold(After(ans, qtype, name, i).value, After(ans, qtype, name, j).value)
  }

  /** The chain reaches a name without records. */
  ghost predicate EndsMissing(ans: seq<RR>, qtype: U16, name: Name) {
    exists k: nat :: After(ans, qtype, name, k).Some? && !Owns(ans, After(ans, qtype, name, k).value)
  }

  /** The chain reaches a name with a record of the queried type. */
  ghost predicate EndsAnswered(ans: seq<RR>, qtype: U16, name: Name) {
    exists k: nat :: After(ans, qtype, name, k).Some? && OwnsType(ans, After(ans, qtype, name, k).value, qtype)
  }

  lemma HopFolds(ans: seq<RR>, qtype: U16, n: Name, m: Name)
    requires EqualFold(n, m)
    ensures Hop(ans, qtype, n) == Hop(ans, qtype, m)
  {
    OwnedFolds(ans, n, m);
  }

  lemma {:induction false} AfterDefined(ans: seq<RR>, qtype: U16, name: Name, i: nat, k: nat)
    requires i <= k && After(ans, qtype, name, k).Some?
    ensures After(ans, qtype, name, i).Some?
    ensures i < k ==> Hop(ans, qtype, After(ans, qtype, name, i).value) == After(ans, qtype, name, i + 1)
    decreases k
  {
    if i == k {
    } else {
      AfterDefined(ans, qtype, name, i, k - 1);
    }
  }

  /** Both chains have ended, or both are at the same name. */
  predicate Alike(a: Option<Name>, b: Option<Name>) {
    if a.None? then b.None? else b.Some? && EqualFold(a.value, b.value)
  }

  lemma NextAlike(ans: seq<RR>, qtype: U16, a: Option<Name>, b: Option<Name>)
    requires Alike(a, b)
    ensures Alike(Next(ans, qtype, a), Next(ans, qtype, b))
  {
    if a.Some? {
      HopFolds(ans, qtype, a.value, b.value);
    }
  }

  /** Two equal names continue alike. */
  lemma {:induction false} AfterRepeats(ans: seq<RR>, qtype: U16, name: Name, i: nat, j: nat, d: nat)
    requires Alike(After(ans, qtype, name, i), After(ans, qtype, name, j))
    ensures Alike(After(ans, qtype, name, i + d), After(ans, qtype, name, j + d))
  {
    if d == 0 {
    } else {
      AfterRepeats(ans, qtype, name, i, j, d - 1);
      var a, b := After(ans, qtype, name, i + d - 1), After(ans, qtype, name, j + d - 1);
      NextAlike(ans, qtype, a, b);
      assert After(ans, qtype, name, i + d) == Next(ans, qtype, a);
      assert After(ans, qtype, name, j + d) == Next(ans, qtype, b);
    }
  }

  /** A chain that comes back goes on for ever. */
  lemma {:induction false} LoopForever(ans: seq<RR>, qtype: U16, name: Name, i: nat, j: nat, k: nat)
    requires i < j
    requires After(ans, qtype, name, i).Some? && After(ans, qtype, name, j).Some?
    requires EqualFold(After(ans, qtype, name, i).value, After(ans, qtype, name, j).value)
    ensures After(ans, qtype, name, k).Some?
    decreases k
  {
    if k <= j {
      AfterDefined(ans, qtype, name, k, j);
    } else {
      LoopForever(ans, qtype, name, i, j, k - (j - i));
      AfterRepeats(ans, qtype, name, i, j, k - j);
      assert i + (k - j) == k - (j - i) && j + (k - j) == k;
    }
  }

  /** The names of the first n places of the chain. */
  ghost function Places(ans: seq<RR>, qtype: U16, name: Name, n: nat): seq<Name>
    requires n > 0 ==> After(ans, qtype, name, n - 1).Some?
  {
    if n == 0 then []
    else
      AfterDefined(ans, qtype, name, if n == 1 then 0 else n - 2, n - 1);
      Places(ans, qtype, name, n - 1) + [After(ans, qtype, name, n - 1).value]
  }

  lemma {:induction false} PlacesAt(ans: seq<RR>, qtype: U16, name: Name, n: nat)
    requires n > 0 ==> After(ans, qtype, name, n - 1).Some?
    ensures |Places(ans, qtype, name, n)| == n
    ensures forall i: nat :: i < n ==> After(ans, qtype, name, i) == Some(Places(ans, qtype, name, n)[i])
  {
    if n == 0 {
    } else {
      AfterDefined(ans, qtype, name, if n == 1 then 0 else n - 2, n - 1);
      PlacesAt(ans, qtype, name, n - 1);
    }
  }

  /** Pigeonhole: a chain longer than the answer has been somewhere twice. */
  lemma LongChainLoops(ans: seq<RR>, qtype: U16, name: Name)
    requires After(ans, qtype, name, |ans| + 1).Some?
    ensures Loops(ans, qtype, name)
  {
    var n := |ans| + 1;
    AfterDefined(ans, qtype, name, n - 1, n);
    var names := Places(ans, qtype, name, n);
    PlacesAt(ans, qtype, name, n);
    forall i | 0 <= i < n
      ensures Owns(ans, names[i])
    {
      AfterDefined(ans, qtype, name, i, n);
      assert After(ans, qtype, name, i) == Some(names[i]);
    }
    if forall i, j :: 0 <= i < j < n ==> !EqualFold(names[i], names[j]) {
      DistinctOwners(ans, names);
      assert false;
    } else {
      var i, j :| 0 <= i < j < n && EqualFold(names[i], names[j]);
      assert After(ans, qtype, name, i) == Some(names[i]) && After(ans, qtype, name, j) == Some(names[j]);
    }
  }

  /** A chain ends, once and for all, at a name with no next hop. */
  lemma EndsOnce(ans: seq<RR>, qtype: U16, name: Name, i: nat, k: nat)
    requires After(ans, qtype, name, i).Some? && Hop(ans, qtype, After(ans, qtype, name, i).value).None?
    requires After(ans, qtype, name, k).Some?
    ensures k <= i
  {
    if k > i {
      AfterDefined(ans, qtype, name, i, k);
      AfterDefined(ans, qtype, name, i + 1, k);
    }
  }

  /** Why the chaser stopped. */
  datatype Verdict = NotChased | Answered | DeadEnd | Missing | Looping

  /** What one more record changes. */
  lemma OwnedStep(answer: seq<RR>, i: nat, n: Name, qtype: U16)
    requires i < |answer|
    ensures var before, after, mine := answer[..i], answer[..i + 1], EqualFold(answer[i].owner, n);
      && (Owns(after, n) <==> Owns(before, n) || mine)
      && (OwnsType(after, n, qtype) <==> OwnsType(before, n, qtype) || (mine && answer[i].Type() == qtype))
      && LastTarget(Owned(after, n)) ==
           if mine && answer[i].data.CNAME? then answer[i].data.target else LastTarget(Owned(before, n))
  {
    FilterStep(answer, i, OwnedBy(n));
    var before, after := answer[..i], answer[..i + 1];
    assert after == before + [answer[i]];
    assert answer[i] in after;
    assert (Owned(before, n) + [answer[i]])[..|Owned(before, n)|] == Owned(before, n);
  }

  /** A chain that ends does not loop, and only its last name can be missing or hold an answer. */
  lemma EndOfChain(ans: seq<RR>, qtype: U16, name: Name, i: nat)
    requires After(ans, qtype, name, i).Some? && Hop(ans, qtype, After(ans, qtype, name, i).value).None?
    ensures !Loops(ans, qtype, name)
    ensures forall k: nat :: After(ans, qtype, name, k).Some? ==> k <= i
    ensures forall k: nat :: k < i && After(ans, qtype, name, k).Some? ==>
      Owns(ans, After(ans, qtype, name, k).value) && !OwnsType(ans, After(ans, qtype, name, k).value, qtype)
  {
    forall k: nat | After(ans, qtype, name, k).Some?
      ensures k <= i
    {
      EndsOnce(ans, qtype, name, i, k);
    }
    if Loops(ans, qtype, name) {
      var a: nat, b: nat :| a < b && After(ans, qtype, name, a).Some? && After(ans, qtype, name, b).Some?
        && EqualFold(After(ans, qtype, name, a).value, After(ans, qtype, name, b).value);
      LoopForever(ans, qtype, name, a, b, i + 1);
    }
    forall k: nat | k < i && After(ans, qtype, name, k).Some?
      ensures Hop(ans, qtype, After(ans, qtype, name, k).value).Some?
    {
      AfterDefined(ans, qtype, name, k, i);
      AfterDefined(ans, qtype, name, k + 1, i);
    }
  }

  /** On a loop every name has a next hop, so none is missing and none holds an answer. */
  lemma LoopingChain(ans: seq<RR>, qtype: U16, name: Name)
    requires Loops(ans, qtype, name)
    ensures forall k: nat :: After(ans, qtype, name, k).Some? ==>
      Hop(ans, qtype, After(ans, qtype, name, k).value).Some?
  {
    var i: nat, j: nat :| i < j && After(ans, qtype, name, i).Some? && After(ans, qtype, name, j).Some?
      && EqualFold(After(ans, qtype, name, i).value, After(ans, qtype, name, j).value);
    forall k: nat | After(ans, qtype, name, k).Some?
      ensures Hop(ans, qtype, After(ans, qtype, name, k).value).Some?
    {
      LoopForever(ans, qtype, name, i, j, k + 1);
    }
  }

  /** How a chain ends is decided by its last name. */
  lemma ChainEnded(ans: seq<RR>, qtype: U16, name: Name, i: nat)
    requires After(ans, qtype, name, i).Some? && Hop(ans, qtype, After(ans, qtype, name, i).value).None?
    ensures var n := After(ans, qtype, name, i).value;
      && !Loops(ans, qtype, name)
      && (EndsMissing(ans, qtype, name) <==> !Owns(ans, n))
      && (EndsAnswered(ans, qtype, name) <==> OwnsType(ans, n, qtype))
      && forall t :: Dangles(ans, qtype, name, t) <==> qtype != TYPE_CNAME && i > 0 && t == n && !Owns(ans, n)
  {
    EndOfChain(ans, qtype, name, i);
  }

  lemma ChainLooped(ans: seq<RR>, qtype: U16, name: Name)
    requires Loops(ans, qtype, name)
    ensures !EndsMissing(ans, qtype, name) && !EndsAnswered(ans, qtype, name)
    ensures forall t :: !Dangles(ans, qtype, name, t)
  {
    LoopingChain(ans, qtype, name);
  }

  lemma SameEnd(ans: seq<RR>, qtype: U16, name: Name, i: nat, t: Name, j: nat, u: Name)
    requires After(ans, qtype, name, i) == Some(t) && Hop(ans, qtype, t).None?
    requires After(ans, qtype, name, j) == Some(u) && Hop(ans, qtype, u).None?
    ensures i == j
  {
    EndsOnce(ans, qtype, name, i, j);
    EndsOnce(ans, qtype, name, j, i);
  }

  /** At most one name dangles. */
  lemma DanglesUnique(ans: seq<RR>, qtype: U16, name: Name, t: Name, u: Name)
    requires Dangles(ans, qtype, name, t) && Dangles(ans, qtype, name, u)
    ensures t == u
  {
    var i: nat :| i >= 1 && After(ans, qtype, name, i) == Some(t) && !Owns(ans, t);
    var j: nat :| j >= 1 && After(ans, qtype, name, j) == Some(u) && !Owns(ans, u);
    SameEnd(ans, qtype, name, i, t, j, u);
  }

  /** One scan of the answer for the records of wanted. */
  method Scan(answer: seq<RR>, wanted: Name, qtype: U16) returns (found: bool, answers: bool, cname: Name)
    ensures answers <==> OwnsType(answer, wanted, qtype)
    ensures found <==> Owns(answer, wanted)
    ensures !answers ==> cname == LastTarget(Owned(answer, wanted))
  {
    found, answers, cname := false, false, Empty;
    for i := 0 to |answer|
      invariant found <==> Owns(answer[..i], wanted)
      invariant !OwnsType(answer[..i], wanted, qtype)
      invariant !answers
      invariant cname == LastTarget(Owned(answer[..i], wanted))
    {
      var rr := answer[i];
      OwnedStep(answer, i, wanted, qtype);
      if !EqualFold(rr.owner, wanted) {
        continue;
      }
      found := true;
      if rr.Type() == qtype {
        assert rr in answer;
        return true, true, cname;
      }
      if rr.data.CNAME? {
        cname := rr.data.target;
      }
    }
    assert answer[..|answer|] == answer;
  }

  method UnresolvedCNAMETarget(answer: seq<RR>, name: Name, qtype: U16)
    returns (target: Name, needsRestart: bool, ghost why: Verdict)
    ensures needsRestart ==> Dangles(answer, qtype, name, target)
    ensures !needsRestart ==> forall t :: !Dangles(answer, qtype, name, t)
    ensures !needsRestart ==> target == if why.Missing? then name else Empty
    ensures why.NotChased? <==> qtype == TYPE_CNAME
    ensures why.Missing? <==> qtype != TYPE_CNAME && EndsMissing(answer, qtype, name)
    ensures why.Looping? <==> qtype != TYPE_CNAME && Loops(answer, qtype, name)
    ensures why.Answered? <==> qtype != TYPE_CNAME && EndsAnswered(answer, qtype, name)
  {
    if qtype == TYPE_CNAME {
      return Empty, false, NotChased;
    }
    var wanted := name;
    for hops := 0 to |answer| + 1
      invariant After(answer, qtype, name, hops) == Some(wanted)
    {
      var found, answers, cname := Scan(answer, wanted, qtype);
      if Hop(answer, qtype, wanted).None? {
        ChainEnded(answer, qtype, name, hops);
      }
      if answers {
        return Empty, false, Answered;
      }
      if !found {
        return wanted, hops > 0, Missing;
      }
      if cname == Empty {
        return Empty, false, DeadEnd;
      }
      wanted := cname;
    }
    LongChainLoops(answer, qtype, name);
    ChainLooped(answer, qtype, name);
    return Empty, false, Looping;
  }
}
