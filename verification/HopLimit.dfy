/**
  The hop limit is exact: it cannot stop the resolution of a name with fewer than twenty labels, and for
  every longer name there are servers that make it do so, one label at a time.
  */
module HopLimit {
  import opened Sequences
  import opened Names
  import opened Records
  import opened Bailiwick
  import opened BailiwickProofs
  import opened Writes
  import opened CacheLog
  import opened Helper
  import opened Replay
  import opened Histories
  import opened Walk
  import opened WalkProofs

  const ADDR: Addr := [192, 0, 2, 1]

  /** The ancestor of name with k labels. */
  function Ancestor(name: Name, k: nat): Name
    requires name.Fq? && k <= |name.labels|
  {
    Fq(name.labels[|name.labels| - k..])
  }

  function NsRecord(zone: Name): RR {
    RR(zone, 0, NS(zone))
  }

  function GlueRecord(zone: Name): RR {
    RR(zone, 0, A(ADDR))
  }

  /** A referral to zone, served by zone itself at a fixed address. */
  function Referring(zone: Name): Reply {
    Reply(RCODE_SUCCESS, [], [NsRecord(zone)], [GlueRecord(zone)])
  }

  function ServersAt(name: Name, roots: seq<NameServer>, k: nat): seq<NameServer>
    requires name.Fq? && k <= |name.labels|
  {
    if k == 0 then roots else [NameServer(Ancestor(name, k), ADDR)]
  }

  /** The lookup in the ancestor with k labels, referred to the next one down. */
  function DownHop(name: Name, qtype: U16, roots: seq<NameServer>, k: nat): Hop
    requires name.Fq? && k < |name.labels|
  {
    var next := Ancestor(name, k + 1);
    Hop(Call(name, qtype, Ancestor(name, k), ServersAt(name, roots, k),
             Ok(LookupResult(RCODE_SUCCESS, [], [NsRecord(next)], [GlueRecord(next)])), Replied(0, Referring(next))),
        Referral([], Ok([NameServer(next, ADDR)])))
  }

  function DownHops(name: Name, qtype: U16, roots: seq<NameServer>, n: nat): seq<Hop>
    requires name.Fq? && n <= |name.labels|
  {
    if n == 0 then [] else DownHops(name, qtype, roots, n - 1) + [DownHop(name, qtype, roots, n - 1)]
  }

  lemma AncestorsNest(name: Name, j: nat, k: nat)
    requires name.Fq? && j <= k <= |name.labels|
    ensures IsSubDomain(Ancestor(name, j), Ancestor(name, k))
    ensures IsSubDomain(Ancestor(name, k), name)
    ensures j < k ==> !EqualFold(Ancestor(name, j), Ancestor(name, k))
  {
    var a, b := Ancestor(name, j), Ancestor(name, k);
    assert b.labels[k - j..] == a.labels;
    assert |FoldLabels(a.labels)| == j && |FoldLabels(b.labels)| == k;
  }

  lemma NsRecordDelegates(zone: Name, name: Name, next: Name)
    requires IsSubDomain(zone, next) && IsSubDomain(next, name)
    ensures DelegatedZone(zone, name, [NsRecord(next)]) == next
  {
    FilterAll([NsRecord(next)], Delegation(zone, name));
  }

  lemma NsRecordFiltered(zone: Name, name: Name, next: Name)
    requires IsSubDomain(zone, next) && IsSubDomain(next, name)
    ensures DelegatedZone(zone, name, [NsRecord(next)]) == next
    ensures FilteredNs(zone, name, [NsRecord(next)]) == [NsRecord(next)]
  {
    NsRecordDelegates(zone, name, next);
    assert KeptNs(zone, name, next)(NsRecord(next));
    FilterAll([NsRecord(next)], KeptNs(zone, name, next));
  }

  /** The filter accepts a referral one level down as it is. */
  lemma ReferringAccepted(zone: Name, name: Name, next: Name)
    requires zone.Fq? && name.Fq? && next.Fq?
    requires IsSubDomain(zone, next) && IsSubDomain(next, name)
    ensures FilteredResult(zone, name, Referring(next)) ==
            LookupResult(RCODE_SUCCESS, [], [NsRecord(next)], [GlueRecord(next)])
  {
    NoAnswerFiltered(zone, name);
    NsRecordFiltered(zone, name, next);
    SubDomainReflexive(next);
    FilterAll([GlueRecord(next)], Below(next));
  }

  lemma ReferringRead(next: Name)
    ensures UniqueNSNames([NsRecord(next)]) == [next]
    ensures AllGlue([next], [GlueRecord(next)]) == [NameServer(next, ADDR)]
    ensures DelegationOwner([NsRecord(next)]) == next
  {
    assert [NsRecord(next)][..0] == [];
    assert [next][..0] == [];
    assert [GlueRecord(next)][..0] == [];
    assert GlueFor(next, [GlueRecord(next)]) == [NameServer(next, ADDR)];
  }

  /** The first n hops down from the root are in order. */
  ghost predicate InOrder(name: Name, qtype: U16, roots: seq<NameServer>, n: nat, budget: int)
    requires name.Fq? && n <= |name.labels|
  {
    var q, hops := Question(name, qtype, 0), DownHops(name, qtype, roots, n);
    && |hops| == n && |HopCalls(hops)| == n
    && AllHops(q, roots, hops, budget) && AllGoOn(hops) && ValidHops(hops, roots)
    && NextZone(hops) == Ancestor(name, n) && NextServers(hops, roots) == ServersAt(name, roots, n)
    && AllTrustworthy(HopCalls(hops))
  }

  lemma NoNested(h: Hop, roots: seq<NameServer>)
    requires h.glue.Referral? && h.glue.nested == []
    ensures ValidHop(h, roots) && CallsOf(h) == [h.call]
  {
    assert ValidWalks([], roots);
    assert ValidGlue(h.glue, roots);
    assert GlueCalls(h.glue) == WalkCalls([]);
  }

  lemma DownHopTrusted(name: Name, qtype: U16, roots: seq<NameServer>, k: nat)
    requires name.Fq? && k < |name.labels| && roots != []
    ensures Trustworthy(DownHop(name, qtype, roots, k).call) && Narrows(DownHop(name, qtype, roots, k).call)
  {
    AncestorsNest(name, k, k + 1);
    ReferringAccepted(Ancestor(name, k), name, Ancestor(name, k + 1));
    ReferringRead(Ancestor(name, k + 1));
    assert NsRecord(Ancestor(name, k + 1)) in [NsRecord(Ancestor(name, k + 1))];
  }

  lemma DownHopOk(q: Question, roots: seq<NameServer>, before: seq<Hop>, h: Hop, budget: int, next: Name)
    requires budget - |HopCalls(before)| > 0 && Asks(q, roots, before, h.call) && Narrows(h.call)
    requires h.call.outcome.value.ns == [NsRecord(next)] && h.call.outcome.value.extra == [GlueRecord(next)]
    requires h.glue == Referral([], Ok([NameServer(next, ADDR)]))
    ensures HopOk(q, roots, before, h, budget)
  {
    ReferringRead(next);
  }

  lemma OneHopDown(name: Name, qtype: U16, roots: seq<NameServer>, k: nat, budget: int)
    requires name.Fq? && k < |name.labels| && k < budget && roots != []
    requires InOrder(name, qtype, roots, k, budget)
    ensures InOrder(name, qtype, roots, k + 1, budget)
  {
    var q, hops, h := Question(name, qtype, 0), DownHops(name, qtype, roots, k), DownHop(name, qtype, roots, k);
    DownHopTrusted(name, qtype, roots, k);
    DownHopOk(q, roots, hops, h, budget, Ancestor(name, k + 1));
    ReferringRead(Ancestor(name, k + 1));
    NoNested(h, roots);
    WentOn(q, roots, hops, h, budget);
    assert DownHops(name, qtype, roots, k + 1) == hops + [h];
  }

  lemma {:induction false} DownHopsInOrder(name: Name, qtype: U16, roots: seq<NameServer>, n: nat, budget: int)
    requires name.Fq? && n <= |name.labels| && n <= budget && roots != []
    ensures InOrder(name, qtype, roots, n, budget)
  {
    if n == 0 {
      assert name.labels[|name.labels|..] == [];
    } else {
      DownHopsInOrder(name, qtype, roots, n - 1, budget);
      OneHopDown(name, qtype, roots, n - 1, budget);
    }
  }

  // ---- A history of these lookups ----

  function ReferralWrites(next: Name): seq<Write> {
    [Put(CacheKey(next, TYPE_NS, CLASS_INET), [NsRecord(next)]),
     Put(CacheKey(next, TYPE_A, CLASS_INET), [GlueRecord(next)])]
  }

  lemma SingleListed(r: RR)
    ensures Listing([KeyOf(r)], [r])
  {
    assert r in [r];
  }

  lemma SingleGroup(r: RR)
    ensures Group([r], KeyOf(r)) == [r]
  {
    FilterAll([r], InGroup(KeyOf(r)));
  }

  lemma GlueListed(next: Name)
    ensures var g := NameType(next, TYPE_A);
      && Listing([g], [GlueRecord(next)])
      && GlueWrites([GlueRecord(next)], [g]) == [Put(CacheKey(next, TYPE_A, CLASS_INET), [GlueRecord(next)])]
  {
    SingleListed(GlueRecord(next));
    SingleGroup(GlueRecord(next));
  }

  /** A referral one level down is cached under the zone it delegates, and nowhere else. */
  lemma ReferringWrites(src: Source, next: Name)
    requires src.zone.Fq? && src.name.Fq? && next.Fq? && src.reply == Referring(next)
    requires IsSubDomain(src.zone, next) && IsSubDomain(next, src.name)
    ensures Listing([NameType(next, TYPE_A)], SourceExtra(src))
    ensures ReplyWrites(src, [NameType(next, TYPE_A)]) == ReferralWrites(next)
  {
    ReferringAccepted(src.zone, src.name, next);
    NsRecordFiltered(src.zone, src.name, next);
    GlueListed(next);
    assert NsRecord(next) in src.reply.ns;
    assert SourceAnswer(src) == [] && SourceNs(src) == [NsRecord(next)] && SourceExtra(src) == [GlueRecord(next)];
    assert AnswerWrites(src) == [] && NegativeWrites(src) == [];
    assert NsWrites(src) == ReferralWrites(next)[..1];
  }

  lemma UntouchedMore(log: seq<Event>, key: CacheKey, who: nat, src: Source, ws: seq<Write>)
    requires Untouched(log, key)
    requires forall w :: w in ws ==> w.Put? && w.key.name != key.name
    ensures Untouched(log + (Reads(who, key, 0) + WritesAt(who, src, ws, 0)), key)
  {
    var own := Reads(who, key, 0) + WritesAt(who, src, ws, 0);
    forall i | 0 <= i < |log + own|
      ensures !Touches((log + own)[i], key)
    {
      var j := i - |log|;
      if i < |log| {
        assert !Touches(log[i], key);
      } else if j < 2 {
        assert (log + own)[i] == Reads(who, key, 0)[j];
      } else {
        assert ws[j - 2] in ws;
        assert (log + own)[i] == Wrote(who, src, ws[j - 2], 0, 0);
      }
    }
  }

  /** The log is one in which the first n hops down happened on an empty cache, and none was answered by it. */
  ghost predicate Told(name: Name, qtype: U16, roots: seq<NameServer>, n: nat, log: seq<Event>)
    requires name.Fq? && n <= |name.labels|
  {
    && Occurred(HopCalls(DownHops(name, qtype, roots, n)), 0, log) && Possible(log, 0)
    && (n < |name.labels| ==> Untouched(log, CacheKey(name, qtype, CLASS_INET)))
  }

  lemma ReferralElsewhere(log: seq<Event>, key: CacheKey, src: Source, next: Name)
    requires Untouched(log, key) && next != key.name
    ensures Untouched(log + (Reads(0, key, 0) + WritesAt(0, src, ReferralWrites(next), 0)), key)
  {
    UntouchedMore(log, key, 0, src, ReferralWrites(next));
  }

  /** A lookup that is referred to next, if nothing was written under its question so far. */
  lemma ReferralContacted(c: Call, next: Name, log: seq<Event>) returns (own: seq<Event>)
    requires Trustworthy(c) && c.via.Replied? && c.via.reply == Referring(next) && next.Fq?
    requires IsSubDomain(Fqdn(c.zone), next) && IsSubDomain(next, Fqdn(c.name))
    requires Possible(log, 0) && Untouched(log, QuestionKey(SourceOf(c)))
    ensures own == Reads(0, QuestionKey(SourceOf(c)), 0) + WritesAt(0, SourceOf(c), ReferralWrites(next), 0)
    ensures Made(c, 0, log, log + own, own, [NameType(next, TYPE_A)]) && Possible(log + own, 0)
  {
    ReferringWrites(SourceOf(c), next);
    own := Contacted(log, c, 0, [NameType(next, TYPE_A)], 0);
  }

  /** The lookup of one hop down. */
  lemma HopContacted(name: Name, qtype: U16, roots: seq<NameServer>, k: nat, log: seq<Event>) returns (own: seq<Event>)
    requires name.Fq? && k < |name.labels| && roots != []
    requires Possible(log, 0) && Untouched(log, CacheKey(name, qtype, CLASS_INET))
    ensures Made(DownHop(name, qtype, roots, k).call, 0, log, log + own, own, [NameType(Ancestor(name, k + 1), TYPE_A)])
    ensures Possible(log + own, 0)
    ensures k + 1 < |name.labels| ==> Untouched(log + own, CacheKey(name, qtype, CLASS_INET))
  {
    AncestorsNest(name, k, k + 1);
    DownHopTrusted(name, qtype, roots, k);
    var c := DownHop(name, qtype, roots, k).call;
    own := ReferralContacted(c, Ancestor(name, k + 1), log);
    if k + 1 < |name.labels| {
      ReferralElsewhere(log, QuestionKey(SourceOf(c)), SourceOf(c), Ancestor(name, k + 1));
    }
  }

  lemma DownCallsMore(name: Name, qtype: U16, roots: seq<NameServer>, k: nat)
    requires name.Fq? && k < |name.labels|
    ensures HopCalls(DownHops(name, qtype, roots, k + 1)) ==
            HopCalls(DownHops(name, qtype, roots, k)) + [DownHop(name, qtype, roots, k).call]
  {
    var hops, h := DownHops(name, qtype, roots, k), DownHop(name, qtype, roots, k);
    NoNested(h, roots);
    assert (hops + [h])[..|hops|] == hops;
  }

  lemma OneHopTold(name: Name, qtype: U16, roots: seq<NameServer>, k: nat, n: nat, log: seq<Event>)
    returns (more: seq<Event>)
    requires name.Fq? && n == k + 1 <= |name.labels| && roots != [] && Told(name, qtype, roots, k, log)
    ensures Told(name, qtype, roots, n, more)
  {
    var own := HopContacted(name, qtype, roots, k, log);
    more := log + own;
    DownCallsMore(name, qtype, roots, k);
    OccurredMore(HopCalls(DownHops(name, qtype, roots, k)), DownHop(name, qtype, roots, k).call, 0, log, more, own,
                 [NameType(Ancestor(name, k + 1), TYPE_A)]);
  }

  lemma ToldNothing(name: Name, qtype: U16, roots: seq<NameServer>)
    requires name.Fq?
    ensures Told(name, qtype, roots, 0, [])
  {
    assert HopCalls(DownHops(name, qtype, roots, 0)) == [];
  }

  lemma {:induction false} DownHopsTold(name: Name, qtype: U16, roots: seq<NameServer>, n: nat)
    returns (log: seq<Event>)
    requires name.Fq? && n <= |name.labels| && roots != []
    ensures Told(name, qtype, roots, n, log)
  {
    if n == 0 {
      log := [];
      ToldNothing(name, qtype, roots);
    } else {
      log := DownHopsTold(name, qtype, roots, n - 1);
      log := OneHopTold(name, qtype, roots, n - 1, n, log);
    }
  }

  // ---- The limit ----

  /** For every name of twenty labels or more, some servers exhaust the hops, starting from an empty cache. */
  lemma HopLimitReached(name: Name, qtype: U16, roots: seq<NameServer>) returns (w: Walk, log: seq<Event>)
    requires LabelCount(name) >= 20 && roots != []
    ensures ValidWalk(w, roots) && AllTrustworthy(Calls(w))
    ensures w.question == Question(name, qtype, 0) && w.budget == 100
    ensures w.result == Err(HopsExceeded(name, qtype))
    ensures Occurred(Calls(w), 0, log) && Possible(log, 0)
  {
    DownHopsInOrder(name, qtype, roots, MAX_HOPS, MAX_TOTAL_LOOKUPS);
    log := DownHopsTold(name, qtype, roots, MAX_HOPS);
    w := Walk(Question(name, qtype, 0), MAX_TOTAL_LOOKUPS, DownHops(name, qtype, roots, MAX_HOPS),
              Err(HopsExceeded(name, qtype)));
    assert GivesUp(w);
  }

  /** A resolution that can happen, and that the hop limit stops. */
  ghost predicate StoppedByHops(name: Name, qtype: U16, roots: seq<NameServer>, w: Walk, log: seq<Event>) {
    && ValidWalk(w, roots) && AllTrustworthy(Calls(w))
    && w.question == Question(name, qtype, 0) && w.budget == 100
    && w.result == Err(HopsExceeded(name, qtype))
    && Occurred(Calls(w), 0, log) && Possible(log, 0)
  }

  /** The hop limit can stop the resolution of a name if and only if the name has twenty labels. */
  lemma HopLimitExact(name: Name, qtype: U16, roots: seq<NameServer>)
    requires roots != []
    ensures (exists w, log :: StoppedByHops(name, qtype, roots, w, log)) <==> LabelCount(name) >= 20
  {
    if LabelCount(name) >= 20 {
      var w, log := HopLimitReached(name, qtype, roots);
      assert StoppedByHops(name, qtype, roots, w, log);
    }
    if w, log :| StoppedByHops(name, qtype, roots, w, log) {
      HopLimitNeedsLabels(w, roots);
    }
  }
}
