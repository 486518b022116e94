/**
  Everything one reply makes a lookup write to the cache: the answer, the delegation, the glue group by
  group, and a negative entry.
  */
module Writes {
  import opened Sequences
  import opened Names
  import opened Records
  import opened Bailiwick
  import opened BailiwickProofs
  import opened Reach

  /** Times are counted in nanoseconds. */
  const SECOND: int := 1_000_000_000

  const DEFAULT_NEGATIVE_TTL: int := 60 * SECOND

  datatype CacheKey = CacheKey(name: Name, qtype: U16, qclass: U16)
  datatype NameKey = NameKey(name: Name, qclass: U16)
  datatype NameType = NameType(name: Name, qtype: U16)

  /** The question a reply was taken as an answer to, and the zone its server was trusted for. */
  datatype Source = Source(zone: Name, name: Name, qtype: U16, reply: Reply)

  datatype Write =
    | Put(key: CacheKey, rrs: seq<RR>)
    | PutNXDomain(nameKey: NameKey, ttl: int)
    | PutNoData(key: CacheKey, ttl: int)

  // ---- Negative TTLs ----

  function InZoneSOA(zone: Name): RR -> bool {
    (r: RR) => r.data.SOA? && IsSubDomain(zone, r.owner)
  }

  /** The smaller of TTL and MINIMUM of the first SOA inside the zone, or a minute without one. */
  function NegativeTtl(zone: Name, ns: seq<RR>): int {
    var soas := Filter(ns, InZoneSOA(zone));
    if soas == [] || !soas[0].data.SOA? then DEFAULT_NEGATIVE_TTL
    else SECOND * if soas[0].data.minTtl < soas[0].ttl then soas[0].data.minTtl else soas[0].ttl
  }

  method NegativeTTL(zone: Name, ns: seq<RR>) returns (ttl: int)
    ensures ttl == NegativeTtl(zone, ns)
  {
    for i := 0 to |ns|
      invariant Filter(ns[..i], InZoneSOA(zone)) == []
    {
      FilterStep(ns, i, InZoneSOA(zone));
      if !ns[i].data.SOA? || !IsSubDomain(zone, ns[i].owner) {
        continue;
      }
      ttl := ns[i].ttl;
      if ns[i].data.minTtl < ttl {
        ttl := ns[i].data.minTtl;
      }
      assert ns == ns[..i + 1] + ns[i + 1..];
      FilterAppend(ns[..i + 1], ns[i + 1..], InZoneSOA(zone));
      return ttl * SECOND;
    }
    assert ns[..|ns|] == ns;
    return DEFAULT_NEGATIVE_TTL;
  }

  /** The smaller of TTL and MINIMUM of the first SOA record from inside the zone, in seconds. */
  lemma NegativeTtlExact(zone: Name, ns: seq<RR>, i: nat)
    requires i < |ns| && ns[i].data.SOA? && IsSubDomain(zone, ns[i].owner)
    requires forall j :: 0 <= j < i && ns[j].data.SOA? ==> !IsSubDomain(zone, ns[j].owner)
    ensures NegativeTtl(zone, ns) ==
      1_000_000_000 * if ns[i].data.minTtl <= ns[i].ttl then ns[i].data.minTtl else ns[i].ttl
  {
    FilterStep(ns, i, InZoneSOA(zone));
    FilterEmpty(ns[..i], InZoneSOA(zone));
    assert ns == ns[..i + 1] + ns[i + 1..];
    FilterAppend(ns[..i + 1], ns[i + 1..], InZoneSOA(zone));
  }

  /** A minute if there is none. */
  lemma NegativeTtlDefault(zone: Name, ns: seq<RR>)
    requires forall r :: r in ns && r.data.SOA? ==> !IsSubDomain(zone, r.owner)
    ensures NegativeTtl(zone, ns) == 60 * 1_000_000_000
  {
    FilterEmpty(ns, InZoneSOA(zone));
  }

  /** The lookup derives the TTL from the raw authority section; the filtered one gives the same. */
  lemma NegativeTtlAgrees(zone: Name, name: Name, ns: seq<RR>)
    ensures NegativeTtl(zone, FilteredNs(zone, name, ns)) == NegativeTtl(zone, ns)
  {
    FilterTwice(ns, KeptNs(zone, name, DelegatedZone(zone, name, ns)), InZoneSOA(zone), InZoneSOA(zone));
  }

  // ---- Glue groups ----

  function KeyOf(r: RR): NameType {
    NameType(r.owner, r.Type())
  }

  function InGroup(g: NameType): RR -> bool {
    (r: RR) => KeyOf(r) == g
  }

  /** The records of one owner, as spelled, and one type, in order. */
  function Group(rrs: seq<RR>, g: NameType): seq<RR> {
    Filter(rrs, InGroup(g))
  }

  method GroupByNameType(rrs: seq<RR>) returns (groups: map<NameType, seq<RR>>)
    ensures forall g :: g in groups <==> exists r :: r in rrs && r.owner == g.name && r.Type() == g.qtype
    ensures forall g :: g in groups ==> groups[g] == Group(rrs, g) && groups[g] != []
  {
    groups := map[];
    for i := 0 to |rrs|
      invariant forall g :: g in groups <==> Group(rrs[..i], g) != []
      invariant forall g :: g in groups ==> groups[g] == Group(rrs[..i], g)
    {
      var key := KeyOf(rrs[i]);
      forall g
        ensures Group(rrs[..i + 1], g) == Group(rrs[..i], g) + if g == key then [rrs[i]] else []
      {
        FilterStep(rrs, i, InGroup(g));
      }
      groups := groups[key := (if key in groups then groups[key] else []) + [rrs[i]]];
    }
    assert rrs[..|rrs|] == rrs;
    forall g: NameType
      ensures Group(rrs, g) != [] <==> exists r :: r in rrs && r.owner == g.name && r.Type() == g.qtype
    {
      FilterEmpty(rrs, InGroup(g));
    }
  }

  /** A group holds exactly the records of its owner, in this spelling, and of its type. */
  lemma GroupExact(rrs: seq<RR>, g: NameType, r: RR)
    ensures r in Group(rrs, g) <==> r in rrs && r.owner == g.name && r.Type() == g.qtype
  {
    FilterMember(rrs, InGroup(g), r);
  }

  /** One way of iterating over the groups of rrs: every key once. */
  ghost predicate Listing(order: seq<NameType>, rrs: seq<RR>) {
    && (forall i, j :: 0 <= i < j < |order| ==> order[i] != order[j])
    && (forall g :: g in order <==> exists r :: r in rrs && KeyOf(r) == g)
  }

  function AllGroups(rrs: seq<RR>, order: seq<NameType>): seq<RR> {
    if order == [] then []
    else AllGroups(rrs, order[..|order| - 1]) + Group(rrs, order[|order| - 1])
  }

  function InGroups(order: seq<NameType>): RR -> bool {
    (r: RR) => KeyOf(r) in order
  }

  lemma {:induction false} GroupsOnce(rrs: seq<RR>, order: seq<NameType>)
    requires forall i, j :: 0 <= i < j < |order| ==> order[i] != order[j]
    ensures multiset(AllGroups(rrs, order)) == multiset(Filter(rrs, InGroups(order)))
  {
    if order == [] {
      FilterEmpty(rrs, InGroups(order));
    } else {
      var front, last := order[..|order| - 1], order[|order| - 1];
      GroupsOnce(rrs, front);
      assert order == front + [last];
      assert last !in front;
      FilterDisjoint(rrs, InGroups(front), InGroup(last), InGroups(order));
    }
  }

  /** Grouping neither loses nor duplicates a record. */
  lemma GroupsPartition(rrs: seq<RR>, order: seq<NameType>)
    requires Listing(order, rrs)
    ensures multiset(AllGroups(rrs, order)) == multiset(rrs)
  {
    GroupsOnce(rrs, order);
    FilterAll(rrs, InGroups(order));
  }

  // ---- What a reply writes ----

  /** A reply that neither answers nor refers anyone anywhere. */
  predicate IsNoData(reply: Reply, filtered: seq<RR>) {
    reply.rcode == RCODE_SUCCESS && filtered == [] && !HasNS(reply.ns)
  }

  ghost function SourceAnswer(src: Source): seq<RR> {
    FilteredAnswer(src.zone, src.name, src.reply.answer)
  }

  function SourceNs(src: Source): seq<RR> {
    FilteredNs(src.zone, src.name, src.reply.ns)
  }

  function SourceCut(src: Source): Name {
    DelegatedZone(src.zone, src.name, src.reply.ns)
  }

  function SourceExtra(src: Source): seq<RR> {
    FilteredExtra(SourceCut(src), src.reply.extra)
  }

  function QuestionKey(src: Source): CacheKey {
    CacheKey(src.name, src.qtype, CLASS_INET)
  }

  function GlueWrites(rrs: seq<RR>, order: seq<NameType>): seq<Write> {
    seq(|order|, i requires 0 <= i < |order| =>
      Put(CacheKey(order[i].name, order[i].qtype, CLASS_INET), Group(rrs, order[i])))
  }

  ghost function AnswerWrites(src: Source): seq<Write> {
    if src.reply.rcode == RCODE_SUCCESS && SourceAnswer(src) != [] then [Put(QuestionKey(src), SourceAnswer(src))]
    else []
  }

  function NsWrites(src: Source): seq<Write> {
    if SourceNs(src) != [] then [Put(CacheKey(SourceCut(src), TYPE_NS, CLASS_INET), SourceNs(src))] else []
  }

  ghost function NegativeWrites(src: Source): seq<Write> {
    if src.reply.rcode == RCODE_NAME_ERROR then
      [PutNXDomain(NameKey(src.name, CLASS_INET), NegativeTtl(src.zone, src.reply.ns))]
    else if IsNoData(src.reply, SourceAnswer(src)) then
      [PutNoData(QuestionKey(src), NegativeTtl(src.zone, src.reply.ns))]
    else []
  }

  /** All writes caused by one reply, in order, when the glue groups come up in the given order. */
  ghost function ReplyWrites(src: Source, order: seq<NameType>): seq<Write> {
    AnswerWrites(src) + NsWrites(src) + GlueWrites(SourceExtra(src), order) + NegativeWrites(src)
  }

  /** w is one of the writes the source may cause. */
  ghost predicate LegitWrite(src: Source, w: Write) {
    && src.zone.Fq? && src.name.Fq?
    && match w
       case Put(key, rrs) =>
         && rrs != [] && key.qclass == CLASS_INET
         && (|| w in AnswerWrites(src)
             || w in NsWrites(src)
             || rrs == Group(SourceExtra(src), NameType(key.name, key.qtype)))
       case _ => w in NegativeWrites(src)
  }

  lemma ReplyWritesLegit(src: Source, order: seq<NameType>)
    requires src.zone.Fq? && src.name.Fq?
    requires Listing(order, SourceExtra(src))
    ensures forall w :: w in ReplyWrites(src, order) ==> LegitWrite(src, w)
  {
    forall w | w in GlueWrites(SourceExtra(src), order)
      ensures LegitWrite(src, w)
    {
      var i :| 0 <= i < |order| && w == GlueWrites(SourceExtra(src), order)[i];
      assert order[i] in order;
      FilterEmpty(SourceExtra(src), InGroup(order[i]));
    }
  }

  /** The source denies the question: NXDOMAIN for its name, or NODATA for its name and type. */
  ghost predicate Denied(src: Source, key: CacheKey, rcode: nat) {
    && src.name == key.name && key.qclass == CLASS_INET
    && if rcode == RCODE_NAME_ERROR then src.reply.rcode == RCODE_NAME_ERROR
       else rcode == RCODE_SUCCESS && src.qtype == key.qtype && IsNoData(src.reply, SourceAnswer(src))
  }

  /** Every record written under a positive key was inside the zone its server was trusted for. */
  lemma LegitPutInZone(src: Source, w: Write, r: RR)
    requires LegitWrite(src, w) && w.Put? && r in w.rrs
    ensures IsSubDomain(src.zone, r.owner)
  {
    if w !in AnswerWrites(src) && w !in NsWrites(src) {
      FilterMember(SourceExtra(src), InGroup(NameType(w.key.name, w.key.qtype)), r);
    }
    FilterStaysInZone(src.zone, src.name, src.reply.answer, src.reply.ns, src.reply.extra, r);
  }

  /** Entries of every type but NS answer their own key. */
  lemma LegitPutConnected(src: Source, w: Write)
    requires LegitWrite(src, w) && w.Put? && w.key.qtype != TYPE_NS
    ensures Connected(w.rrs, w.key.name)
  {
    if w in AnswerWrites(src) {
      FilteredAnswerConnected(src.zone, src.name, src.reply.answer);
    } else {
      forall r | r in w.rrs
        ensures Reaches(w.rrs, w.key.name, r.owner)
      {
        FilterMember(SourceExtra(src), InGroup(NameType(w.key.name, w.key.qtype)), r);
        ReachesSelf(w.rrs, w.key.name, r.owner);
      }
    }
  }

  /** The delegation entry answers its key exactly when every SOA that came along has the same owner. */
  lemma NsPutConnected(src: Source, w: Write)
    requires src.zone.Fq? && src.name.Fq? && w in NsWrites(src)
    ensures Connected(w.rrs, w.key.name) <==> forall r :: r in w.rrs && r.data.SOA? ==> EqualFold(w.key.name, r.owner)
  {
    FilterMembers(src.reply.ns, KeptNs(src.zone, src.name, SourceCut(src)));
    ConnectedWithoutCNAMEs(w.rrs, w.key.name);
  }

  /** When only SOAs survive, the entry goes under the empty name, which no lookup asks for. */
  lemma OnlySOAsUnreachable(src: Source, w: Write, name: Name)
    requires src.zone.Fq? && src.name.Fq? && w in NsWrites(src)
    requires forall r :: r in w.rrs ==> r.data.SOA?
    ensures w.key.name != Fqdn(name)
  {
    DelegatedZoneSound(src.zone, src.name, src.reply.ns);
    var cuts := Filter(src.reply.ns, Delegation(src.zone, src.name));
    if cuts != [] {
      FilterMember(src.reply.ns, Delegation(src.zone, src.name), cuts[0]);
      FilterMember(src.reply.ns, KeptNs(src.zone, src.name, SourceCut(src)), cuts[0]);
    }
  }

  // ---- All writes of a reply, spelled out ----

  lemma GlueWritesExact(rrs: seq<RR>, order: seq<NameType>, w: Write)
    requires Listing(order, rrs)
    ensures w in GlueWrites(rrs, order) <==>
      exists r :: r in rrs && w == Put(CacheKey(r.owner, r.Type(), 1), Group(rrs, NameType(r.owner, r.Type())))
  {
    if w in GlueWrites(rrs, order) {
      var i :| 0 <= i < |order| && GlueWrites(rrs, order)[i] == w;
      assert order[i] in order;
      var r :| r in rrs && KeyOf(r) == order[i];
      assert w == Put(CacheKey(r.owner, r.Type(), 1), Group(rrs, NameType(r.owner, r.Type())));
    }
    if r :| r in rrs && w == Put(CacheKey(r.owner, r.Type(), 1), Group(rrs, NameType(r.owner, r.Type()))) {
      assert KeyOf(r) in order;
      var i :| 0 <= i < |order| && order[i] == KeyOf(r);
      assert GlueWrites(rrs, order)[i] == w;
    }
  }

  lemma DenialsExact(src: Source, w: Write)
    ensures w in NegativeWrites(src) <==>
      || (src.reply.rcode == 3 && w == PutNXDomain(NameKey(src.name, 1), NegativeTtl(src.zone, src.reply.ns)))
      || (src.reply.rcode == 0 && SourceAnswer(src) == [] && (forall r :: r in src.reply.ns ==> !r.data.NS?)
          && w == PutNoData(CacheKey(src.name, src.qtype, 1), NegativeTtl(src.zone, src.reply.ns)))
  {
  }

  lemma InFour<T>(a: seq<T>, b: seq<T>, c: seq<T>, d: seq<T>, x: T)
    ensures x in a + b + c + d <==> x in a || x in b || x in c || x in d
  {
  }

  /**
    A reply makes a lookup write: its filtered answer under the question, if its RCode is 0 and that is not empty;
    its filtered authority section under the delegated zone, if that is not empty; each glue group under its owner
    and type; and a denial of the name if its RCode is 3, or of the question if its RCode is 0, no answer was
    accepted and it came without any NS record. And nothing else.
    */
  lemma ReplyWritesExact(src: Source, order: seq<NameType>, w: Write)
    requires Listing(order, SourceExtra(src))
    ensures w in ReplyWrites(src, order) <==>
      var answer := FilteredAnswer(src.zone, src.name, src.reply.answer);
      var ns, cut := FilteredNs(src.zone, src.name, src.reply.ns), DelegatedZone(src.zone, src.name, src.reply.ns);
      var extra := FilteredExtra(cut, src.reply.extra);
      || (src.reply.rcode == 0 && answer != [] && w == Put(CacheKey(src.name, src.qtype, 1), answer))
      || (ns != [] && w == Put(CacheKey(cut, 2, 1), ns))
      || (exists r :: r in extra && w == Put(CacheKey(r.owner, r.Type(), 1), Group(extra, NameType(r.owner, r.Type()))))
      || (src.reply.rcode == 3 && w == PutNXDomain(NameKey(src.name, 1), NegativeTtl(src.zone, src.reply.ns)))
      || (src.reply.rcode == 0 && answer == [] && (forall r :: r in src.reply.ns ==> !r.data.NS?)
          && w == PutNoData(CacheKey(src.name, src.qtype, 1), NegativeTtl(src.zone, src.reply.ns)))
  {
    GlueWritesExact(SourceExtra(src), order, w);
    DenialsExact(src, w);
    InFour(AnswerWrites(src), NsWrites(src), GlueWrites(SourceExtra(src), order), NegativeWrites(src), w);
  }
}
