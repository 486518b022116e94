/** A request for NS records that a cached delegation answers with a record of an unrelated name. */
module DelegationInstance {
  import opened Sequences
  import opened Names
  import opened Records
  import opened Bailiwick
  import opened BailiwickProofs
  import opened Reach
  import opened Writes
  import opened CacheLog
  import opened Helper
  import opened Replay
  import opened Histories
  import Chase
  import opened Walk
  import opened Run

  function ZoneX(): Name {
    Fq(["x"])
  }

  /** A delegation of x that also carries the SOA of the root. */
  function Mixed(): seq<RR> {
    [RR(ZoneX(), 60, NS(ZoneX())), RR(ROOT, 60, SOA(60))]
  }

  function MixedSource(): Source {
    Source(ROOT, ZoneX(), TYPE_A, Reply(RCODE_SUCCESS, [], Mixed(), []))
  }

  lemma MixedFiltered()
    ensures SourceAnswer(MixedSource()) == [] && SourceCut(MixedSource()) == ZoneX()
    ensures SourceNs(MixedSource()) == Mixed()
  {
    var ns, x := Mixed(), ZoneX();
    SubDomainReflexive(x);
    NoAnswerFiltered(ROOT, x);
    FilterStep(ns, 0, Delegation(ROOT, x));
    FilterStep(ns, 1, Delegation(ROOT, x));
    FilterStep(ns, 0, KeptNs(ROOT, x, x));
    FilterStep(ns, 1, KeptNs(ROOT, x, x));
    assert ns[..0 + 1 + 1] == ns && ns[..0] == [];
  }

  function DelegationWrite(): Write {
    Put(CacheKey(ZoneX(), TYPE_NS, CLASS_INET), Mixed())
  }

  lemma MixedWrites()
    ensures ReplyWrites(MixedSource(), []) == [DelegationWrite()] && Listing([], SourceExtra(MixedSource()))
    ensures LegitWrite(MixedSource(), DelegationWrite()) && DelegationWrite() in NsWrites(MixedSource())
  {
    MixedFiltered();
    assert Mixed()[0] in Mixed();
    assert GlueWrites([], []) == [];
    ReplyWritesLegit(MixedSource(), []);
    assert DelegationWrite() in ReplyWrites(MixedSource(), []);
  }

  lemma MixedDisconnected()
    ensures !Connected(Mixed(), ZoneX())
  {
    ConnectedWithoutCNAMEs(Mixed(), ZoneX());
    assert Mixed()[1] in Mixed();
    assert |FoldLabels(ZoneX().labels)| != |FoldLabels(ROOT.labels)|;
  }

  lemma DelegationFound(log: seq<Event>)
    ensures var more := log + [Wrote(0, MixedSource(), DelegationWrite(), 0, 0)];
      SpecGet(more, CacheKey(ZoneX(), TYPE_NS, CLASS_INET), 0) == Some(Mixed())
  {
    LastOfLog(log, Wrote(0, MixedSource(), DelegationWrite(), 0, 0));
  }

  lemma DelegationWrittenAt()
    ensures WritesAt(0, MixedSource(), ReplyWrites(MixedSource(), []), 0) ==
            [Wrote(0, MixedSource(), DelegationWrite(), 0, 0)]
  {
    MixedWrites();
  }

  /** An earlier request for the address of x leaves the delegation behind. */
  lemma Delegated(c: Call) returns (own: seq<Event>)
    requires Trustworthy(c) && c.via.Replied? && SourceOf(c) == MixedSource()
    ensures Made(c, 0, [], own, own, []) && Possible(own, 0)
    ensures SpecGet(own, CacheKey(ZoneX(), TYPE_NS, CLASS_INET), 0) == Some(Mixed())
  {
    MixedWrites();
    own := Contacted([], c, 0, [], 0);
    assert [] + own == own;
    DelegationWrittenAt();
    DelegationFound(Reads(0, QuestionKey(MixedSource()), 0));
  }

  /** A resolution that its first lookup settles. */
  lemma SettledAtOnce(q: Question, roots: seq<NameServer>, c: Call, budget: int) returns (w: Walk)
    requires budget > 0 && Asks(q, roots, [], c) && !IsReferral(c.outcome)
    ensures w.question == q && w.budget == budget && w.result == c.outcome
    ensures ValidWalk(w, roots) && Calls(w) == [c]
  {
    PlainHop(q, roots, [], c, budget);
    assert ValidGlue(NoReferral, roots);
    w := Settled(q, roots, [], Hop(c, NoReferral), c.outcome, budget);
  }

  lemma SingleRun(name: Name, w: Walk, roots: seq<NameServer>)
    requires ValidWalk(w, roots) && w.question == Question(name, TYPE_NS, 0) && w.budget == MAX_TOTAL_LOOKUPS
    requires w.result.Ok? && w.result.value.rcode == RCODE_SUCCESS && w.result.value.answer != []
    requires forall r :: r in w.result.value.answer ==> !r.data.CNAME?
    ensures ValidRun(name, TYPE_NS, [w], roots, Ok(Response(RCODE_SUCCESS, w.result.value.answer, [])))
    ensures WalkCalls([w]) == Calls(w)
  {
    forall t
      ensures !Chase.Dangles(w.result.value.answer, TYPE_NS, name, t)
    {
      NoCNAMENoRestart(w.result.value.answer, TYPE_NS, name, t);
    }
    assert [w][..0] == [] && StartsAfter(name, TYPE_NS, [w][..0], [w][0]);
    assert Joined([w]) == [] + w.result.value.answer == w.result.value.answer;
  }

  function NsCall(roots: seq<NameServer>): Call {
    Call(ZoneX(), TYPE_NS, ROOT, roots, Ok(LookupResult(RCODE_SUCCESS, Mixed(), [], [])), PositiveHit(MixedSource()))
  }

  /** A later one for the NS records of x is answered by it. */
  lemma NsAnswered(before: seq<Event>, roots: seq<NameServer>) returns (own: seq<Event>)
    requires Possible(before, 0) && SpecGet(before, CacheKey(ZoneX(), TYPE_NS, CLASS_INET), 0) == Some(Mixed())
    ensures Trustworthy(NsCall(roots)) && Made(NsCall(roots), 1, before, before + own, own, [])
    ensures Possible(before + own, 0)
  {
    MixedWrites();
    own := Histories.Hit(before, NsCall(roots), 1, 0);
  }

  lemma NsRun(roots: seq<NameServer>) returns (w: Walk)
    ensures Calls(w) == WalkCalls([w]) == [NsCall(roots)]
    ensures ValidRun(ZoneX(), TYPE_NS, [w], roots, Ok(Response(RCODE_SUCCESS, Mixed(), [])))
  {
    w := SettledAtOnce(Question(ZoneX(), TYPE_NS, 0), roots, NsCall(roots), MAX_TOTAL_LOOKUPS);
    SingleRun(ZoneX(), w, roots);
  }

  /** And that is the whole of a request whose response does not hang together. */
  lemma NsAnswerDisconnected(c: Call, roots: seq<NameServer>) returns (before: seq<Event>, own: seq<Event>, w: Walk)
    requires Trustworthy(c) && c.via.Replied? && SourceOf(c) == MixedSource()
    ensures Made(c, 0, [], before, before, []) && Possible(before + own, 0)
    ensures Trustworthy(NsCall(roots)) && Made(NsCall(roots), 1, before, before + own, own, [])
    ensures WalkCalls([w]) == [NsCall(roots)]
    ensures ValidRun(ZoneX(), TYPE_NS, [w], roots, Ok(Response(RCODE_SUCCESS, Mixed(), [])))
    ensures !Connected(Mixed(), ZoneX())
  {
    before := Delegated(c);
    own := NsAnswered(before, roots);
    w := NsRun(roots);
    MixedDisconnected();
  }
}
