/** One request's view of the resolver: cache-backed lookups over an arbitrary network. */
module Helper {
  import opened Sequences
  import opened Names
  import opened Records
  import opened Bailiwick
  import opened Writes
  import opened CacheLog
  import opened Cache
  import opened Network

  /** How a lookup came by its outcome. */
  datatype Via =
    | PositiveHit(src: Source)
    | NegativeHit(src: Source)
    | Replied(server: nat, reply: Reply)
    | Failed

  datatype Call = Call(name: Name, qtype: U16, zone: Name, servers: seq<NameServer>,
                       outcome: Outcome<LookupResult, Error>, via: Via)

  /** What is left of a reply when its server is trusted only for zone. */
  ghost function FilteredResult(zone: Name, name: Name, reply: Reply): LookupResult {
    LookupResult(
      reply.rcode,
      FilteredAnswer(zone, name, reply.answer),
      FilteredNs(zone, name, reply.ns),
      FilteredExtra(DelegatedZone(zone, name, reply.ns), reply.extra))
  }

  /** All that a caller may rely on, whatever the servers and the other requests do. */
  ghost predicate Trustworthy(c: Call) {
    var name, zone := Fqdn(c.name), Fqdn(c.zone);
    match c.via
    case PositiveHit(src) =>
      c.outcome.Ok? && var r := c.outcome.value;
      && r == LookupResult(RCODE_SUCCESS, r.answer, [], [])
      && LegitWrite(src, Put(CacheKey(name, c.qtype, CLASS_INET), r.answer))
    case NegativeHit(src) =>
      c.outcome.Ok? && var r := c.outcome.value;
      r == LookupResult(r.rcode, [], [], []) && Denied(src, CacheKey(name, c.qtype, CLASS_INET), r.rcode)
    case Replied(k, reply) =>
      k < |c.servers| && c.outcome == Ok(FilteredResult(zone, name, reply))
    case Failed =>
      c.outcome.Err? &&
      if c.servers == [] then c.outcome.error == CacheMissNoServers(name, c.qtype)
      else c.outcome.error in {Cancelled, AllServersFailed(name, c.qtype)}
  }

  ghost predicate AllTrustworthy(calls: seq<Call>) {
    forall c :: c in calls ==> Trustworthy(c)
  }

  /** e is the write w by one request on account of one source. */
  predicate IsWrite(e: Event, who: nat, src: Source, w: Write) {
    e.Wrote? && e == Wrote(who, src, w, e.stamp, e.now)
  }

  /** The writes of ws, in order, by one request on account of one source. */
  ghost predicate WroteAll(events: seq<Event>, who: nat, src: Source, ws: seq<Write>) {
    |events| == |ws| && forall i :: 0 <= i < |ws| ==> IsWrite(events[i], who, src, ws[i])
  }

  /** The earliest reading of the clock that an operation made. */
  function Begun(e: Event): int {
    if e.Wrote? then e.stamp else e.now
  }

  /** All these operations happened between two times. */
  ghost predicate Within(events: seq<Event>, from: int, to: int) {
    forall e :: e in events ==> from <= Begun(e) && e.now <= to
  }

  ghost predicate BegunAfter(events: seq<Event>, t: int) {
    forall e :: e in events ==> t <= Begun(e)
  }

  /** A hit takes one read of the cache; anything else a second one, of the negative entries. */
  ghost predicate CacheReads(events: seq<Event>, who: nat, key: CacheKey, hit: bool) {
    && |events| == (if hit then 1 else 2)
    && events[0].Got? && events[0] == Got(who, key, events[0].now)
    && (!hit ==> events[1].GotNegative? && events[1] == GotNegative(who, key, events[1].now))
  }

  /** All writes of the reply, if there was one. */
  ghost predicate ReplyTraffic(c: Call, who: nat, events: seq<Event>, order: seq<NameType>) {
    match c.via
    case Replied(_, reply) =>
      var src := Source(Fqdn(c.zone), Fqdn(c.name), c.qtype, reply);
      Listing(order, SourceExtra(src)) && WroteAll(events, who, src, ReplyWrites(src, order))
    case Failed => events == []
    case _ => false
  }

  /** What a call itself does to the cache: its reads, and after them all writes of the reply. */
  ghost predicate CacheTraffic(c: Call, who: nat, events: seq<Event>, order: seq<NameType>) {
    var key := CacheKey(Fqdn(c.name), c.qtype, CLASS_INET);
    if c.via.PositiveHit? || c.via.NegativeHit? then CacheReads(events, who, key, c.via.PositiveHit?)
    else
      && |events| >= 2 && CacheReads(events[..2], who, key, false)
      && ReplyTraffic(c, who, events[2..], order) && BegunAfter(events[2..], events[1].now)
  }

  function AskOf(c: Call): Ask {
    Ask(Fqdn(c.name), c.qtype, c.servers)
  }

  /** How a call ends that is not served from the cache: as the asking of its servers, if there are any. */
  ghost predicate EndsAsAsked(w: World, k: nat, p: nat, c: Call, n: nat, polled: nat) {
    if c.via.PositiveHit? || c.via.NegativeHit? || c.servers == [] then n == polled == 0
    else if c.via.Replied? then
      && n == polled == c.via.server + 1
      && RepliesFirst(w, k, p, AskOf(c), c.via.server) && Answer(w, k, AskOf(c), c.via.server) == Some(c.via.reply)
    else if c.outcome == Err(Cancelled) then n + 1 == polled && CutOff(w, k, p, AskOf(c), n)
    else n == polled == |c.servers| && InVain(w, k, p, AskOf(c), n)
  }

  /**
    The questions a call puts to its servers: each in turn under a live context until one replies, the
    context being read before each. The exchanges grow from before to now, and the readings from p to p'.
    */
  ghost predicate NetworkTraffic(w: World, c: Call, before: seq<Exchange>, p: nat, now: seq<Exchange>, p': nat) {
    && |before| <= |now| <= |before| + |c.servers| && p <= p'
    && now == before + Traffic(w, |before|, AskOf(c), |now| - |before|)
    && EndsAsAsked(w, |before|, p, c, |now| - |before|, p' - p)
  }

  /** The traffic of a call once its servers were asked. */
  lemma TrafficEnds(w: World, c: Call, before: seq<Exchange>, p: nat, now: seq<Exchange>, p': nat,
                    answered: Option<Reply>, error: Error, n: nat)
    requires c.servers != [] && Ends(w, |before|, p, AskOf(c), answered, error == Cancelled, n)
    requires now == before + Traffic(w, |before|, AskOf(c), if answered.Some? then n + 1 else n)
    requires p' == p + if answered.Some? || error == Cancelled then n + 1 else n
    requires if answered.Some? then c.via == Replied(n, answered.value) else c.via == Failed && c.outcome == Err(error)
    ensures NetworkTraffic(w, c, before, p, now, p')
  {
  }

  /** A call that asks nobody. */
  lemma NoTraffic(w: World, c: Call, before: seq<Exchange>, p: nat)
    requires c.via.PositiveHit? || c.via.NegativeHit? || c.servers == []
    ensures NetworkTraffic(w, c, before, p, before, p)
  {
    assert Traffic(w, |before|, AskOf(c), 0) == [];
  }

  lemma Decided(w: World, k: nat, p: nat, c: Call, n: nat, polled: nat)
    requires Trustworthy(c) && EndsAsAsked(w, k, p, c, n, polled)
    requires !c.via.PositiveHit? && !c.via.NegativeHit? && c.servers != []
    ensures c.outcome.Ok? <==> exists i :: RepliesFirst(w, k, p, AskOf(c), i)
    ensures forall i :: RepliesFirst(w, k, p, AskOf(c), i) ==>
      c.outcome == Ok(FilteredResult(Fqdn(c.zone), Fqdn(c.name), Answer(w, k, AskOf(c), i).value))
    ensures c.outcome == Err(Cancelled) <==> exists i :: CutOff(w, k, p, AskOf(c), i)
    ensures c.outcome == Err(AllServersFailed(Fqdn(c.name), c.qtype)) <==> InVain(w, k, p, AskOf(c), |c.servers|)
  {
    var a := AskOf(c);
    forall i | RepliesFirst(w, k, p, a, i) || CutOff(w, k, p, a, i)
      ensures i == if c.via.Replied? then c.via.server else n
    {
      OneStop(w, k, p, a, i, if c.via.Replied? then c.via.server else n);
    }
    if InVain(w, k, p, a, |a.servers|) && (c.via.Replied? || c.outcome == Err(Cancelled)) {
      OneStop(w, k, p, a, if c.via.Replied? then c.via.server else n, |a.servers|);
    }
  }

  /**
    After a miss the world decides: the call succeeds exactly if some server is the first to reply under a
    live context, with that reply filtered; it is cancelled exactly if the context is before that; and it fails
    for want of a reply exactly if all servers are asked in vain. With a live context it succeeds exactly if
    any of the servers would reply, and otherwise all of them are asked.
    */
  lemma MissDecided(w: World, c: Call, before: seq<Exchange>, p: nat, now: seq<Exchange>, p': nat)
    requires Trustworthy(c) && NetworkTraffic(w, c, before, p, now, p')
    requires !c.via.PositiveHit? && !c.via.NegativeHit?
    ensures c.servers == [] ==> c.outcome == Err(CacheMissNoServers(Fqdn(c.name), c.qtype))
    ensures c.servers != [] ==>
      var k, a := |before|, AskOf(c);
      && (c.outcome.Ok? <==> exists i :: RepliesFirst(w, k, p, a, i))
      && (forall i :: RepliesFirst(w, k, p, a, i) ==>
            c.outcome == Ok(FilteredResult(Fqdn(c.zone), Fqdn(c.name), Answer(w, k, a, i).value)))
      && (c.outcome == Err(Cancelled) <==> exists i :: CutOff(w, k, p, a, i))
      && (c.outcome == Err(AllServersFailed(Fqdn(c.name), c.qtype)) <==> InVain(w, k, p, a, |c.servers|))
    ensures c.servers != [] && (w.doneAfter.None? || p + |c.servers| <= w.doneAfter.value) ==>
      && (c.outcome.Ok? <==> exists i: nat ::
            i < |c.servers| && w.network(|before| + i, c.servers[i], Fqdn(c.name), c.qtype).Some?)
      && (c.outcome.Err? ==> |now| == |before| + |c.servers|)
  {
    if c.servers != [] {
      Decided(w, |before|, p, c, |now| - |before|, p' - p);
      if w.doneAfter.None? || p + |c.servers| <= w.doneAfter.value {
        LiveContext(w, |before|, p, AskOf(c));
        assert forall i: nat :: i < |c.servers| ==>
          Answer(w, |before|, AskOf(c), i) == w.network(|before| + i, c.servers[i], Fqdn(c.name), c.qtype);
      }
    }
  }

  lemma WroteJoin(a: seq<Event>, b: seq<Event>, who: nat, src: Source, ws: seq<Write>, ws': seq<Write>)
    requires WroteAll(a, who, src, ws) && WroteAll(b, who, src, ws')
    ensures WroteAll(a + b, who, src, ws + ws')
  {
  }

  lemma WroteGroup(events: seq<Event>, e: Event, who: nat, src: Source, rrs: seq<RR>, order: seq<NameType>, g: NameType)
    requires WroteAll(events, who, src, GlueWrites(rrs, order))
    requires IsWrite(e, who, src, Put(CacheKey(g.name, g.qtype, CLASS_INET), Group(rrs, g)))
    ensures WroteAll(events + [e], who, src, GlueWrites(rrs, order + [g]))
  {
    assert GlueWrites(rrs, order + [g]) == GlueWrites(rrs, order) + [e.write];
  }

  lemma WroteReply(a: seq<Event>, n: seq<Event>, g: seq<Event>, c: seq<Event>, who: nat, src: Source,
                   order: seq<NameType>)
    requires WroteAll(a, who, src, AnswerWrites(src)) && WroteAll(n, who, src, NsWrites(src))
    requires WroteAll(g, who, src, GlueWrites(SourceExtra(src), order))
    requires WroteAll(c, who, src, NegativeWrites(src))
    ensures WroteAll(a + n + g + c, who, src, ReplyWrites(src, order))
  {
    var ws := AnswerWrites(src) + NsWrites(src);
    WroteJoin(a, n, who, src, AnswerWrites(src), NsWrites(src));
    WroteJoin(a + n, g, who, src, ws, GlueWrites(SourceExtra(src), order));
    WroteJoin(a + n + g, c, who, src, ws + GlueWrites(SourceExtra(src), order), NegativeWrites(src));
  }

  /** order lists, once each, the groups not left in keys. */
  ghost predicate Listed(order: seq<NameType>, all: set<NameType>, keys: set<NameType>) {
    && (forall i, j :: 0 <= i < j < |order| ==> order[i] != order[j])
    && (forall g :: g in order <==> g in all && g !in keys)
  }

  lemma ListedNext(order: seq<NameType>, all: set<NameType>, keys: set<NameType>, key: NameType)
    requires Listed(order, all, keys) && key in keys && keys <= all
    ensures Listed(order + [key], all, keys - {key})
  {
    assert key !in order;
  }

  /** The read e, where it stands in the log after its first n events, saw hit. */
  ghost predicate Saw(log: seq<Event>, n: nat, e: Event, hit: Option<seq<RR>>)
    requires e.Got?
  {
    exists at :: n <= at < |log| && log[at] == e && SpecGet(log[..at], e.key, e.now) == hit
  }

  ghost predicate SawNegative(log: seq<Event>, n: nat, e: Event, rcode: Option<nat>)
    requires e.GotNegative?
  {
    exists at :: n <= at < |log| && log[at] == e && SpecGetNegative(log[..at], e.key, e.now) == rcode
  }

  lemma SawStill(log: seq<Event>, log': seq<Event>, n: nat, e: Event, hit: Option<seq<RR>>)
    requires e.Got? && log <= log' && Saw(log, n, e, hit)
    ensures Saw(log', n, e, hit)
  {
    var at :| n <= at < |log| && log[at] == e && SpecGet(log[..at], e.key, e.now) == hit;
    assert log'[..at] == log[..at];
  }

  lemma SawNegativeStill(log: seq<Event>, log': seq<Event>, n: nat, n': nat, e: Event, rcode: Option<nat>)
    requires e.GotNegative? && log <= log' && n' <= n && SawNegative(log, n, e, rcode)
    ensures SawNegative(log', n', e, rcode)
  {
    var at :| n <= at < |log| && log[at] == e && SpecGetNegative(log[..at], e.key, e.now) == rcode;
    assert log'[..at] == log[..at];
  }

  /** What a call got from the positive entries of the cache. */
  function PositiveOutcome(c: Call): Option<seq<RR>> {
    if c.via.PositiveHit? && c.outcome.Ok? then Some(c.outcome.value.answer) else None
  }

  /** What a call got from the negative entries of the cache. */
  function NegativeOutcome(c: Call): Option<nat> {
    if c.via.NegativeHit? && c.outcome.Ok? then Some(c.outcome.value.rcode) else None
  }

  /** The outcome of a call is what its reads of the cache, after the first n events, saw, if they saw anything. */
  ghost predicate FollowsCache(c: Call, log: seq<Event>, n: nat, own: seq<Event>) {
    && own != [] && own[0].Got?
    && Saw(log, n, own[0], PositiveOutcome(c))
    && (!c.via.PositiveHit? ==> |own| > 1 && own[1].GotNegative? && SawNegative(log, n, own[1], NegativeOutcome(c)))
  }

  /** While the log grew from before to log, who made the call c, doing own to the cache. */
  ghost predicate Made(c: Call, who: nat, before: seq<Event>, log: seq<Event>, own: seq<Event>, order: seq<NameType>) {
    && before <= log && Own(log, who) == Own(before, who) + own
    && CacheTraffic(c, who, own, order) && FollowsCache(c, log, |before|, own)
  }

  /** A call that the positive entries answer. */
  lemma PositiveMade(c: Call, who: nat, before: seq<Event>, log: seq<Event>, e: Event, answer: seq<RR>)
    requires before <= log && Own(log, who) == Own(before, who) + [e]
    requires c.via.PositiveHit? && c.outcome == Ok(LookupResult(RCODE_SUCCESS, answer, [], []))
    requires LegitWrite(c.via.src, Put(CacheKey(Fqdn(c.name), c.qtype, CLASS_INET), answer))
    requires e.Got? && e == Got(who, CacheKey(Fqdn(c.name), c.qtype, CLASS_INET), e.now)
    requires Saw(log, |before|, e, Some(answer))
    ensures Trustworthy(c) && Made(c, who, before, log, [e], [])
  {
  }

  /** A call that the negative entries answer. */
  lemma NegativeMade(c: Call, who: nat, before: seq<Event>, log: seq<Event>, e: Event, e': Event, rcode: nat)
    requires before <= log && Own(log, who) == Own(before, who) + [e] + [e']
    requires c.via.NegativeHit? && c.outcome == Ok(LookupResult(rcode, [], [], []))
    requires Denied(c.via.src, CacheKey(Fqdn(c.name), c.qtype, CLASS_INET), rcode)
    requires CacheReads([e, e'], who, CacheKey(Fqdn(c.name), c.qtype, CLASS_INET), false)
    requires Saw(log, |before|, e, None) && SawNegative(log, |before|, e', Some(rcode))
    ensures Trustworthy(c) && Made(c, who, before, log, [e, e'], [])
  {
    Associative(Own(before, who), [e], [e']);
  }

  /** A miss, and then the writes of a reply, if any. */
  lemma MissMade(c: Call, who: nat, before: seq<Event>, log: seq<Event>, seen: seq<Event>, writes: seq<Event>,
                 order: seq<NameType>)
    requires before <= log && Own(log, who) == Own(before, who) + (seen + writes)
    requires c.via.Replied? || c.via.Failed?
    requires CacheReads(seen, who, CacheKey(Fqdn(c.name), c.qtype, CLASS_INET), false)
    requires ReplyTraffic(c, who, writes, order) && BegunAfter(writes, seen[1].now)
    requires Saw(log, |before|, seen[0], None) && SawNegative(log, |before|, seen[1], None)
    ensures Made(c, who, before, log, seen + writes, order)
  {
    assert (seen + writes)[..2] == seen && (seen + writes)[2..] == writes;
  }

  /** The log is one in which who made these calls, one after another. */
  ghost predicate Occurred(calls: seq<Call>, who: nat, log: seq<Event>)
    decreases |calls|, 1
  {
    calls == [] || exists before, after, own, order :: LastMade(calls, who, log, before, after, own, order)
  }

  /** The last call was made while the log grew from before to after, and those before it by then. */
  ghost predicate LastMade(calls: seq<Call>, who: nat, log: seq<Event>, before: seq<Event>, after: seq<Event>,
                           own: seq<Event>, order: seq<NameType>)
    requires calls != []
    decreases |calls|, 0
  {
    && after <= log && Occurred(calls[..|calls| - 1], who, before)
    && Made(calls[|calls| - 1], who, before, after, own, order)
  }

  lemma OccurredMore(calls: seq<Call>, c: Call, who: nat, before: seq<Event>, log: seq<Event>, own: seq<Event>,
                     order: seq<NameType>)
    requires Occurred(calls, who, before) && Made(c, who, before, log, own, order)
    ensures Occurred(calls + [c], who, log)
  {
    assert (calls + [c])[..|calls|] == calls;
    assert LastMade(calls + [c], who, log, before, log, own, order);
  }

  lemma CallsMore(calls: seq<Call>, c: Call, who: nat, before: seq<Event>, log: seq<Event>, own: seq<Event>,
                  order: seq<NameType>)
    requires AllTrustworthy(calls) && Occurred(calls, who, before)
    requires Trustworthy(c) && Made(c, who, before, log, own, order)
    ensures AllTrustworthy(calls + [c]) && Occurred(calls + [c], who, log)
  {
    OccurredMore(calls, c, who, before, log, own, order);
  }

  lemma OwnOthers(log: seq<Event>, others: seq<Event>, who: nat)
    requires OthersOnly(others, who)
    ensures Own(log + others, who) == Own(log, who)
    ensures LegitLog(log) ==> LegitLog(log + others)
  {
    FilterAppend(log, others, By(who));
    FilterEmpty(others, By(who));
  }

  /** The source of the negative entry that the log dictates. */
  lemma DeniedBy(log: seq<Event>, key: CacheKey, now: int) returns (src: Source)
    requires LegitLog(log) && SpecGetNegative(log, key, now).Some?
    ensures Denied(src, key, SpecGetNegative(log, key, now).value)
  {
    var j;
    if SpecGetNegative(log, key, now).value == RCODE_NAME_ERROR {
      j := LatestNXDomainWritten(log, NameKey(key.name, key.qclass));
    } else {
      j := LatestNoDataWritten(log, key);
    }
    src := log[j].src;
    assert Legit(log[j]) && log[j].write in NegativeWrites(src);
  }

  lemma OwnEvent(log: seq<Event>, e: Event)
    ensures Own(log + [e], e.who) == Own(log, e.who) + [e]
    ensures LegitLog(log) && Legit(e) ==> LegitLog(log + [e])
  {
    FilterAppend(log, [e], By(e.who));
  }

  class RequestHelper {
    const cache: Cache
    const rootHints: seq<NameServer>
    const id: nat
    const world: World
    /** The exchanges so far, and how often the context was read. */
    var exchanges: seq<Exchange>
    var polls: nat
    ghost var calls: seq<Call>

    constructor (cache: Cache, rootHints: seq<NameServer>, id: nat, world: World)
      ensures this.cache == cache && this.rootHints == rootHints && this.id == id && this.world == world
      ensures calls == [] && exchanges == [] && polls == 0
    {
      this.cache, this.rootHints, this.id, this.world := cache, rootHints, id, world;
      calls, exchanges, polls := [], [], 0;
    }

    ghost predicate CacheValid()
      reads cache
    {
      cache.Valid() && LegitLog(cache.log)
    }

    ghost predicate Valid()
      reads this, cache
    {
      CacheValid() && AllTrustworthy(calls) && Occurred(calls, id, cache.log)
    }

    /** Only other requests did anything to the cache. */
    twostate predicate Idle()
      reads cache
    {
      CacheValid() && cache.now >= old(cache.now) && old(cache.log) <= cache.log
      && Own(cache.log, id) == Own(old(cache.log), id)
    }

    /** This request did exactly own to the cache since then, among whatever the other requests did. */
    twostate predicate Did(own: seq<Event>)
      reads cache
    {
      && CacheValid() && cache.now >= old(cache.now) && old(cache.log) <= cache.log
      && Own(cache.log, id) == Own(old(cache.log), id) + own
      && Within(own, old(cache.now), cache.now)
    }

    method Interleave()
      requires CacheValid()
      modifies cache
      ensures Idle()
    {
      ghost var others := cache.Others(id);
      OwnOthers(old(cache.log), others, id);
    }

    /** Whether the context is cancelled. */
    method ContextErr() returns (cancelled: bool)
      modifies `polls
      ensures cancelled == Done(world, old(polls), 0) && polls == old(polls) + 1
    {
      cancelled := Done(world, polls, 0);
      polls := polls + 1;
    }

    /** Ask one server. What comes back, if anything, is up to the world. */
    method ExchangeContext(server: NameServer, name: Name, qtype: U16) returns (reply: Option<Reply>)
      requires CacheValid()
      modifies `exchanges, cache
      ensures reply == world.network(|old(exchanges)|, server, name, qtype)
      ensures exchanges == old(exchanges) + [Exchange(server, name, qtype, reply)]
      ensures Idle()
    {
      Interleave();
      reply := world.network(|exchanges|, server, name, qtype);
      exchanges := exchanges + [Exchange(server, name, qtype, reply)];
    }

    method CacheGet(name: Name, qtype: U16) returns (hit: Option<seq<RR>>, ghost src: Source, ghost e: Event)
      requires CacheValid()
      modifies cache
      ensures e.Got? && e == Got(id, CacheKey(name, qtype, CLASS_INET), e.now) && Did([e])
      ensures hit.Some? ==> LegitWrite(src, Put(CacheKey(name, qtype, CLASS_INET), hit.value))
      ensures Saw(cache.log, |old(cache.log)|, e, hit)
    {
      Interleave();
      ghost var key := CacheKey(name, qtype, CLASS_INET);
      ghost var before := cache.log;
      hit := cache.Get(id, name, qtype, CLASS_INET);
      e := Got(id, key, cache.now);
      OwnEvent(before, e);
      assert cache.log[..|before|] == before;
      if hit.Some? {
        ghost var j := LatestWritten(before, key);
        assert Legit(before[j]);
        src := before[j].src;
      } else {
        src := Source(Empty, Empty, 0, Reply(0, [], [], []));
      }
    }

    method CacheGetNegative(name: Name, qtype: U16) returns (rcode: Option<nat>, ghost src: Source, ghost e: Event)
      requires CacheValid()
      modifies cache
      ensures e.GotNegative? && e == GotNegative(id, CacheKey(name, qtype, CLASS_INET), e.now) && Did([e])
      ensures rcode.Some? ==> Denied(src, CacheKey(name, qtype, CLASS_INET), rcode.value)
      ensures SawNegative(cache.log, |old(cache.log)|, e, rcode)
    {
      Interleave();
      ghost var key := CacheKey(name, qtype, CLASS_INET);
      ghost var before := cache.log;
      rcode := cache.GetNegative(id, name, qtype, CLASS_INET);
      e := GotNegative(id, key, cache.now);
      OwnEvent(before, e);
      assert cache.log[..|before|] == before;
      src := Source(Empty, Empty, 0, Reply(0, [], [], []));
      if rcode.Some? {
        src := DeniedBy(before, key, cache.now);
      }
    }

    method CacheSet(ghost src: Source, name: Name, qtype: U16, rrs: seq<RR>) returns (ghost e: Event)
      requires CacheValid()
      requires rrs != [] && LegitWrite(src, Put(CacheKey(name, qtype, CLASS_INET), rrs))
      modifies cache
      ensures IsWrite(e, id, src, Put(CacheKey(name, qtype, CLASS_INET), rrs)) && Did([e])
    {
      ghost var before := cache.log;
      ghost var others, stamp := cache.Set(id, src, name, qtype, CLASS_INET, rrs);
      e := Wrote(id, src, Put(CacheKey(name, qtype, CLASS_INET), rrs), stamp, cache.now);
      OwnOthers(before, others, id);
      OwnEvent(before + others, e);
      assert cache.log == before + others + [e];
    }

    method CacheSetNXDomain(ghost src: Source, name: Name, ttl: int) returns (ghost e: Event)
      requires CacheValid()
      requires LegitWrite(src, PutNXDomain(NameKey(name, CLASS_INET), ttl))
      modifies cache
      ensures IsWrite(e, id, src, PutNXDomain(NameKey(name, CLASS_INET), ttl)) && Did([e])
    {
      Interleave();
      ghost var before := cache.log;
      cache.SetNXDomain(id, src, name, CLASS_INET, ttl);
      e := Wrote(id, src, PutNXDomain(NameKey(name, CLASS_INET), ttl), cache.now, cache.now);
      OwnEvent(before, e);
    }

    method CacheSetNoData(ghost src: Source, name: Name, qtype: U16, ttl: int) returns (ghost e: Event)
      requires CacheValid()
      requires LegitWrite(src, PutNoData(CacheKey(name, qtype, CLASS_INET), ttl))
      modifies cache
      ensures IsWrite(e, id, src, PutNoData(CacheKey(name, qtype, CLASS_INET), ttl)) && Did([e])
    {
      Interleave();
      ghost var before := cache.log;
      cache.SetNoData(id, src, name, qtype, CLASS_INET, ttl);
      e := Wrote(id, src, PutNoData(CacheKey(name, qtype, CLASS_INET), ttl), cache.now, cache.now);
      OwnEvent(before, e);
    }

    method StoreGroup(ghost src: Source, g: NameType, rrs: seq<RR>) returns (ghost e: Event)
      requires CacheValid()
      requires src.zone.Fq? && src.name.Fq? && rrs == Group(SourceExtra(src), g) && rrs != []
      modifies cache
      ensures IsWrite(e, id, src, Put(CacheKey(g.name, g.qtype, CLASS_INET), rrs)) && Did([e])
    {
      assert NameType(g.name, g.qtype) == g;
      e := CacheSet(src, g.name, g.qtype, rrs);
    }

    /** Cache each glue group; the iteration order of the groups is arbitrary. */
    method StoreGlue(ghost src: Source, extra: seq<RR>) returns (ghost order: seq<NameType>, ghost own: seq<Event>)
      requires CacheValid()
      requires src.zone.Fq? && src.name.Fq? && extra == SourceExtra(src)
      modifies cache
      ensures Listing(order, extra) && Did(own)
      ensures WroteAll(own, id, src, GlueWrites(extra, order))
    {
      var groups := GroupByNameType(extra);
      var keys := groups.Keys;
      ghost var before := Own(cache.log, id);
      order, own := [], [];
      while keys != {}
        invariant keys <= groups.Keys && Listed(order, groups.Keys, keys)
        invariant Did(own) && WroteAll(own, id, src, GlueWrites(extra, order))
      {
        var key :| key in keys;
        ghost var e := StoreGroup(src, key, groups[key]);
        WroteGroup(own, e, id, src, extra, order, key);
        ListedNext(order, groups.Keys, keys, key);
        Associative(before, own, [e]);
        order, own := order + [key], own + [e];
        keys := keys - {key};
      }
    }

    method StoreAnswer(src: Source, answer: seq<RR>) returns (ghost own: seq<Event>)
      requires CacheValid()
      requires src.zone.Fq? && src.name.Fq? && answer == SourceAnswer(src)
      modifies cache
      ensures Did(own) && WroteAll(own, id, src, AnswerWrites(src))
    {
      own := [];
      if src.reply.rcode == RCODE_SUCCESS && |answer| > 0 {
        assert Put(QuestionKey(src), answer) in AnswerWrites(src);
        ghost var e := CacheSet(src, src.name, src.qtype, answer);
        own := [e];
      }
    }

    method StoreNs(src: Source, ns: seq<RR>, delegatedZone: Name) returns (ghost own: seq<Event>)
      requires CacheValid()
      requires src.zone.Fq? && src.name.Fq? && ns == SourceNs(src) && delegatedZone == SourceCut(src)
      modifies cache
      ensures Did(own) && WroteAll(own, id, src, NsWrites(src))
    {
      own := [];
      if |ns| > 0 {
        assert Put(CacheKey(delegatedZone, TYPE_NS, CLASS_INET), ns) in NsWrites(src);
        ghost var e := CacheSet(src, delegatedZone, TYPE_NS, ns);
        own := [e];
      }
    }

    method StoreNegative(src: Source, answer: seq<RR>) returns (ghost own: seq<Event>)
      requires CacheValid()
      requires src.zone.Fq? && src.name.Fq? && answer == SourceAnswer(src)
      modifies cache
      ensures Did(own) && WroteAll(own, id, src, NegativeWrites(src))
    {
      own := [];
      if src.reply.rcode == RCODE_NAME_ERROR {
        var ttl := NegativeTTL(src.zone, src.reply.ns);
        assert PutNXDomain(NameKey(src.name, CLASS_INET), ttl) in NegativeWrites(src);
        ghost var e := CacheSetNXDomain(src, src.name, ttl);
        own := [e];
      } else if src.reply.rcode == RCODE_SUCCESS && |answer| == 0 && !HasNS(src.reply.ns) {
        var ttl := NegativeTTL(src.zone, src.reply.ns);
        assert PutNoData(QuestionKey(src), ttl) in NegativeWrites(src);
        ghost var e := CacheSetNoData(src, src.name, src.qtype, ttl);
        own := [e];
      }
    }

    /** Cache everything a reply is good for. */
    method StoreReply(src: Source, answer: seq<RR>, ns: seq<RR>, extra: seq<RR>, delegatedZone: Name)
      returns (ghost order: seq<NameType>, ghost own: seq<Event>)
      requires CacheValid()
      requires src.zone.Fq? && src.name.Fq?
      requires answer == SourceAnswer(src) && ns == SourceNs(src) && extra == SourceExtra(src)
      requires delegatedZone == SourceCut(src)
      modifies cache
      ensures Listing(order, extra) && Did(own)
      ensures WroteAll(own, id, src, ReplyWrites(src, order))
    {
      ghost var before := Own(cache.log, id);
      own := StoreAnswer(src, answer);
      ghost var referral := StoreNs(src, ns, delegatedZone);
      ghost var glue;
      order, glue := StoreGlue(src, extra);
      ghost var negative := StoreNegative(src, answer);
      WroteReply(own, referral, glue, negative, id, src, order);
      Associative(before, own, referral);
      Associative(before, own + referral, glue);
      Associative(before, own + referral + glue, negative);
      own := own + referral + glue + negative;
    }

    /** Put the question to each server in turn until one replies or the context is cancelled. */
    method QueryServers(name: Name, qtype: U16, servers: seq<NameServer>)
      returns (answered: Option<Reply>, error: Error, ghost server: nat)
      requires CacheValid() && servers != []
      modifies `exchanges, `polls, cache
      ensures Idle()
      ensures answered.None? ==> error == Cancelled || error == AllServersFailed(name, qtype)
      ensures Ends(world, |old(exchanges)|, old(polls), Ask(name, qtype, servers), answered, error == Cancelled, server)
      ensures exchanges == old(exchanges) +
        Traffic(world, |old(exchanges)|, Ask(name, qtype, servers), if answered.Some? then server + 1 else server)
      ensures polls == old(polls) + if answered.Some? || error == Cancelled then server + 1 else server
    {
      ghost var k, p, a := |exchanges|, polls, Ask(name, qtype, servers);
      server := 0;
      for i := 0 to |servers|
        invariant Idle() && InVain(world, k, p, a, i)
        invariant exchanges == old(exchanges) + Traffic(world, k, a, i) && polls == p + i
      {
        var cancelled := ContextErr();
        if cancelled {
          return None, Cancelled, i;
        }
        answered := ExchangeContext(servers[i], name, qtype);
        TrafficMore(world, k, a, i, old(exchanges), exchanges, answered);
        if answered.Some? {
          return answered, AllServersFailed(name, qtype), i;
        }
        InVainMore(world, k, p, a, i);
      }
      return None, AllServersFailed(name, qtype), |servers|;
    }

    /** The outcome that the negative entries have for a call that missed the positive ones with its read e. */
    method ConsultNegative(name: Name, qtype: U16, ghost zone: Name, ghost servers: seq<NameServer>,
                           ghost before: seq<Event>, ghost e: Event)
      returns (cached: Option<LookupResult>, ghost via: Via, ghost e': Event)
      requires CacheValid() && before <= cache.log && Own(cache.log, id) == Own(before, id) + [e]
      requires e.Got? && e == Got(id, CacheKey(Fqdn(name), qtype, CLASS_INET), e.now)
      requires Saw(cache.log, |before|, e, None)
      modifies cache
      ensures Did([e']) && CacheReads([e, e'], id, CacheKey(Fqdn(name), qtype, CLASS_INET), false)
      ensures Saw(cache.log, |before|, e, None)
      ensures cached.Some? ==>
        var c := Call(name, qtype, zone, servers, Ok(cached.value), via);
        via.NegativeHit? && Trustworthy(c) && Made(c, id, before, cache.log, [e, e'], [])
      ensures cached.None? ==> SawNegative(cache.log, |before|, e', None)
    {
      ghost var log := cache.log;
      var rcode, src, seen := CacheGetNegative(Fqdn(name), qtype);
      e' := seen;
      SawStill(log, cache.log, |before|, e, None);
      SawNegativeStill(cache.log, cache.log, |log|, |before|, e', rcode);
      if rcode.Some? {
        cached, via := Some(LookupResult(rcode.value, [], [], [])), NegativeHit(src);
        ghost var c := Call(name, qtype, zone, servers, Ok(cached.value), via);
        NegativeMade(c, id, before, cache.log, e, e', rcode.value);
        return;
      }
      return None, Failed, e';
    }

    /** The outcome that the cache has for a call, if it has one. */
    method ConsultCache(name: Name, qtype: U16, ghost zone: Name, ghost servers: seq<NameServer>)
      returns (cached: Option<LookupResult>, ghost via: Via, ghost own: seq<Event>)
      requires CacheValid()
      modifies cache
      ensures Did(own)
      ensures cached.Some? ==>
        var c := Call(name, qtype, zone, servers, Ok(cached.value), via);
        && (via.PositiveHit? || via.NegativeHit?)
        && Trustworthy(c) && Made(c, id, old(cache.log), cache.log, own, [])
      ensures cached.None? ==>
        && CacheReads(own, id, CacheKey(Fqdn(name), qtype, CLASS_INET), false)
        && Saw(cache.log, |old(cache.log)|, own[0], None) && SawNegative(cache.log, |old(cache.log)|, own[1], None)
    {
      ghost var before := cache.log;
      var hit, src, e := CacheGet(Fqdn(name), qtype);
      own := [e];
      if hit.Some? {
        cached, via := Some(LookupResult(RCODE_SUCCESS, hit.value, [], [])), PositiveHit(src);
        PositiveMade(Call(name, qtype, zone, servers, Ok(cached.value), via), id, before, cache.log, e, hit.value);
        return;
      }
      ghost var e';
      cached, via, e' := ConsultNegative(name, qtype, zone, servers, before, e);
      Associative(Own(before, id), [e], [e']);
      own := [e, e'];
    }

    /** Filter a reply and cache what it is good for. */
    method Digest(src: Source) returns (result: LookupResult, ghost order: seq<NameType>, ghost own: seq<Event>)
      requires CacheValid()
      requires src.zone.Fq? && src.name.Fq?
      modifies cache
      ensures result == FilteredResult(src.zone, src.name, src.reply)
      ensures Listing(order, SourceExtra(src)) && Did(own) && WroteAll(own, id, src, ReplyWrites(src, order))
    {
      var answer, ns, extra, delegatedZone :=
        FilterInBailiwick(src.zone, src.name, src.reply.answer, src.reply.ns, src.reply.extra);
      order, own := StoreReply(src, answer, ns, extra, delegatedZone);
      result := LookupResult(src.reply.rcode, answer, ns, extra);
    }

    /** On a cache miss: ask the servers, and filter and cache the reply. */
    method Contact(name: Name, qtype: U16, zone: Name, servers: seq<NameServer>)
      returns (outcome: Outcome<LookupResult, Error>, ghost via: Via, ghost own: seq<Event>, ghost order: seq<NameType>)
      requires CacheValid()
      modifies `exchanges, `polls, cache
      ensures Did(own) && ReplyTraffic(Call(name, qtype, zone, servers, outcome, via), id, own, order)
      ensures Trustworthy(Call(name, qtype, zone, servers, outcome, via))
      ensures NetworkTraffic(world, Call(name, qtype, zone, servers, outcome, via),
                             old(exchanges), old(polls), exchanges, polls)
    {
      var fname, fzone := Fqdn(name), Fqdn(zone);
      own, order := [], [];
      if |servers| == 0 {
        outcome, via := Err(CacheMissNoServers(fname, qtype)), Failed;
        NoTraffic(world, Call(name, qtype, zone, servers, outcome, via), exchanges, polls);
        return;
      }
      var answered, error, server := QueryServers(fname, qtype, servers);
      if answered.None? {
        outcome, via := Err(error), Failed;
      } else {
        via := Replied(server, answered.value);
        var result;
        result, order, own := Digest(Source(fzone, fname, qtype, answered.value));
        outcome := Ok(result);
      }
      TrafficEnds(world, Call(name, qtype, zone, servers, outcome, via), old(exchanges), old(polls), exchanges, polls,
                  answered, error, server);
    }

    /** The rest of a lookup whose reads of the cache saw nothing. */
    method LookupMissed(name: Name, qtype: U16, zone: Name, servers: seq<NameServer>,
                        ghost before: seq<Event>, ghost seen: seq<Event>, ghost start: int)
      returns (outcome: Outcome<LookupResult, Error>, ghost call: Call, ghost own: seq<Event>,
               ghost order: seq<NameType>)
      requires CacheValid() && before <= cache.log && Own(cache.log, id) == Own(before, id) + seen
      requires CacheReads(seen, id, CacheKey(Fqdn(name), qtype, CLASS_INET), false) && Within(seen, start, cache.now)
      requires start <= cache.now
      requires Saw(cache.log, |before|, seen[0], None) && SawNegative(cache.log, |before|, seen[1], None)
      modifies `exchanges, `polls, cache
      ensures call == Call(name, qtype, zone, servers, outcome, call.via) && Trustworthy(call)
      ensures CacheValid() && Made(call, id, before, cache.log, own, order) && Within(own, start, cache.now)
      ensures NetworkTraffic(world, call, old(exchanges), old(polls), exchanges, polls)
    {
      ghost var log := cache.log;
      ghost var via, writes;
      outcome, via, writes, order := Contact(name, qtype, zone, servers);
      call := Call(name, qtype, zone, servers, outcome, via);
      SawStill(log, cache.log, |before|, seen[0], None);
      SawNegativeStill(log, cache.log, |before|, |before|, seen[1], None);
      Associative(Own(before, id), seen, writes);
      assert seen[1] in seen;
      MissMade(call, id, before, cache.log, seen, writes, order);
      own := seen + writes;
    }

    /** One question, from the cache or from one of the servers. */
    method LookupOnce(name: Name, qtype: U16, zone: Name, servers: seq<NameServer>)
      returns (outcome: Outcome<LookupResult, Error>, ghost call: Call, ghost own: seq<Event>,
               ghost order: seq<NameType>)
      requires CacheValid()
      modifies `exchanges, `polls, cache
      ensures call == Call(name, qtype, zone, servers, outcome, call.via) && Trustworthy(call)
      ensures CacheValid() && Made(call, id, old(cache.log), cache.log, own, order)
      ensures Within(own, old(cache.now), cache.now)
      ensures NetworkTraffic(world, call, old(exchanges), old(polls), exchanges, polls)
    {
      ghost var before, start := cache.log, cache.now;
      var cached, via, seen := ConsultCache(name, qtype, zone, servers);
      own, order := seen, [];
      if cached.Some? {
        outcome := Ok(cached.value);
        call := Call(name, qtype, zone, servers, outcome, via);
        NoTraffic(world, call, exchanges, polls);
      } else {
        outcome, call, own, order := LookupMissed(name, qtype, zone, servers, before, seen, start);
      }
    }

    /** The shared building block of all handlers. */
    method Lookup(name: Name, qtype: U16, zone: Name, servers: seq<NameServer>)
      returns (outcome: Outcome<LookupResult, Error>, ghost call: Call, ghost own: seq<Event>,
               ghost order: seq<NameType>)
      requires Valid()
      modifies `calls, `exchanges, `polls, cache
      ensures calls == old(calls) + [call] && call == Call(name, qtype, zone, servers, outcome, call.via)
      ensures Valid()
      ensures Made(call, id, old(cache.log), cache.log, own, order) && Within(own, old(cache.now), cache.now)
      ensures NetworkTraffic(world, call, old(exchanges), old(polls), exchanges, polls)
    {
      outcome, call, own, order := LookupOnce(name, qtype, zone, servers);
      CallsMore(calls, call, id, old(cache.log), cache.log, own, order);
      calls := calls + [call];
    }
  }
}
