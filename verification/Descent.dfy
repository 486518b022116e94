/** Every lookup of a whole request, nested ones included, asks a zone it was led down to. */
module Descent {
  import opened Names
  import opened Records
  import opened Helper
  import opened Walk
  import opened WalkProofs

  /** d, a lookup for the same question in a strictly enclosing zone, returned NS records of c's zone. */
  ghost predicate DelegatedBy(c: Call, d: Call) {
    && d.name == c.name && d.qtype == c.qtype && d.outcome.Ok? && d.via.Replied?
    && (exists rr :: rr in d.outcome.value.ns && rr.data.NS? && rr.owner == c.zone)
    && IsSubDomain(d.zone, c.zone) && LabelCount(d.zone) < LabelCount(c.zone)
  }

  /** c's zone encloses its name, and is the root or was delegated by another of the calls. */
  ghost predicate Grounded(c: Call, calls: seq<Call>) {
    && c.zone.Fq? && IsSubDomain(c.zone, Fqdn(c.name))
    && (c.zone == ROOT || exists d :: d in calls && DelegatedBy(c, d))
  }

  ghost predicate AllGrounded(calls: seq<Call>) {
    forall c :: c in calls ==> Grounded(c, calls)
  }

  lemma GroundedMore(c: Call, some: seq<Call>, calls: seq<Call>)
    requires Grounded(c, some) && forall d :: d in some ==> d in calls
    ensures Grounded(c, calls)
  {
  }

  lemma {:induction false} HopCallsSplit(hops: seq<Hop>, c: Call) returns (i: nat)
    requires c in HopCalls(hops)
    ensures i < |hops| && c in CallsOf(hops[i])
  {
    var n := |hops| - 1;
    if c in CallsOf(hops[n]) {
      i := n;
    } else {
      i := HopCallsSplit(hops[..n], c);
    }
  }

  lemma {:induction false} WalkCallsSplit(ws: seq<Walk>, c: Call) returns (j: nat)
    requires c in WalkCalls(ws)
    ensures j < |ws| && c in Calls(ws[j])
  {
    var n := |ws| - 1;
    if c in Calls(ws[n]) {
      j := n;
    } else {
      j := WalkCallsSplit(ws[..n], c);
    }
  }

  lemma OwnCallGrounded(w: Walk, roots: seq<NameServer>, i: nat)
    requires ValidWalk(w, roots) && AllTrustworthy(Calls(w)) && i < |w.hops|
    ensures Grounded(w.hops[i].call, Calls(w))
  {
    ZonesEnclose(w, roots, i);
    AsksAt(w, roots, i);
    if i > 0 {
      var d := w.hops[i - 1].call;
      AsksAt(w, roots, i - 1);
      HopTrusted(w, i - 1);
      ReferralSound(d);
      DelegationOwnerFound(d.outcome.value.ns);
      HopCallsContain(w.hops, i - 1);
      assert d in CallsOf(w.hops[i - 1]);
      assert DelegatedBy(w.hops[i].call, d);
    }
  }

  /** Within one resolution and all those nested in it. */
  lemma {:induction false} WalkGrounded(w: Walk, roots: seq<NameServer>, c: Call)
    requires ValidWalk(w, roots) && AllTrustworthy(Calls(w)) && c in Calls(w)
    ensures Grounded(c, Calls(w))
    decreases w
  {
    var i := HopCallsSplit(w.hops, c);
    var h := w.hops[i];
    if c == h.call {
      OwnCallGrounded(w, roots, i);
    } else {
      assert c in GlueCalls(h.glue);
      var j := WalkCallsSplit(h.glue.nested, c);
      NestedAtHop(w, roots, i, j);
      NestedCalls(w, i, j);
      WalkGrounded(h.glue.nested[j], roots, c);
      GroundedMore(c, Calls(h.glue.nested[j]), Calls(w));
    }
  }

  /** Across all resolutions of a request. */
  lemma RunGrounded(walks: seq<Walk>, roots: seq<NameServer>)
    requires ValidWalks(walks, roots) && AllTrustworthy(WalkCalls(walks))
    ensures AllGrounded(WalkCalls(walks))
  {
    forall c | c in WalkCalls(walks)
      ensures Grounded(c, WalkCalls(walks))
    {
      var j := WalkCallsSplit(walks, c);
      assert ValidWalk(walks[j], roots);
      WalkCallsContain(walks, j);
      WalkGrounded(walks[j], roots, c);
      GroundedMore(c, Calls(walks[j]), WalkCalls(walks));
    }
  }

  /** At every depth: how long, how deep, and with which servers. */
  lemma EveryResolution(v: Walk, w: Walk, level: nat, roots: seq<NameServer>)
    requires ValidWalk(w, roots) && AllTrustworthy(Calls(w)) && w.question.depth == 0 && Inside(v, w, level)
    ensures level <= 4 && v.question.depth == level
    ensures |v.hops| <= LabelCount(v.question.name) + 1
    ensures forall i :: 0 < i < |v.hops| ==>
      v.hops[i].call.servers != [] && forall s :: s in v.hops[i].call.servers ==> Justified(s, v.hops[i - 1], level)
  {
    InsideValid(v, w, level, roots);
    InsideCalls(v, w, level);
    HopsBoundedByLabels(v, roots);
    forall i | 0 < i < |v.hops|
      ensures v.hops[i].call.servers != []
      ensures forall s :: s in v.hops[i].call.servers ==> Justified(s, v.hops[i - 1], level)
    {
      ServersJustified(v, roots, i);
    }
  }
}
