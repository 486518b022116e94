/**
  What a second lookup of the same question sees of the first one's reply, when other requests use the
  cache all the time but none of them writes under the question.
  */
module Replay {
  import opened Sequences
  import opened Names
  import opened Records
  import opened Writes
  import opened CacheLog
  import opened Cache
  import opened Helper

  // ---- Which replies are remembered ----

  /** The question and the reply of a call that a server answered. */
  function SourceOf(c: Call): Source
    requires c.via.Replied?
  {
    Source(Fqdn(c.zone), Fqdn(c.name), c.qtype, c.via.reply)
  }

  /** No delegation or glue of the reply is cached under the question itself. */
  ghost predicate NoCollision(src: Source) {
    && (SourceNs(src) == [] || CacheKey(SourceCut(src), TYPE_NS, CLASS_INET) != QuestionKey(src))
    && Group(SourceExtra(src), NameType(src.name, src.qtype)) == []
  }

  ghost predicate Answers(src: Source) {
    src.reply.rcode == RCODE_SUCCESS && SourceAnswer(src) != []
  }

  ghost predicate IsDenial(src: Source) {
    src.reply.rcode == RCODE_NAME_ERROR || IsNoData(src.reply, SourceAnswer(src))
  }

  /** The replies a lookup remembers under the question. */
  ghost predicate Remembered(src: Source) {
    Answers(src) || IsDenial(src)
  }

  /** For how long. */
  ghost function Lifetime(src: Source): int {
    if Answers(src) then MinTtl(SourceAnswer(src)) * SECOND else NegativeTtl(src.zone, src.reply.ns)
  }

  /** The write that remembers the reply among those of the reply: the first for an answer, else the last. */
  ghost function Remembering(src: Source, own: seq<Event>): int {
    if Answers(src) then 2 else |own| - 1
  }

  /** When a remembered reply stops being served. */
  ghost function Until(src: Source, own: seq<Event>): int
    requires 0 <= Remembering(src, own) < |own| && own[Remembering(src, own)].Wrote?
  {
    own[Remembering(src, own)].stamp + Lifetime(src)
  }

  /** e is a write under the question. */
  predicate Touches(e: Event, key: CacheKey) {
    Stores(e, key) || StoresNXDomain(e, NameKey(key.name, key.qclass)) || StoresNoData(e, key)
  }

  lemma OnlyTheQuestionTouches(src: Source, order: seq<NameType>, i: nat)
    requires src.zone.Fq? && src.name.Fq? && Listing(order, SourceExtra(src)) && NoCollision(src)
    requires i < |ReplyWrites(src, order)|
    ensures var w := ReplyWrites(src, order)[i];
      w.Put? && w.key == QuestionKey(src) ==> i == 0 && Answers(src)
    ensures !ReplyWrites(src, order)[i].Put? ==>
      i == |ReplyWrites(src, order)| - 1 && ReplyWrites(src, order)[i] in NegativeWrites(src)
  {
    var a, n, g := AnswerWrites(src), NsWrites(src), GlueWrites(SourceExtra(src), order);
    if |a| + |n| <= i < |a| + |n| + |g| {
      var k := i - |a| - |n|;
      assert ReplyWrites(src, order)[i] == g[k];
      assert order[k] in order;
      FilterEmpty(SourceExtra(src), InGroup(order[k]));
    } else if i >= |a| + |n| + |g| {
      assert ReplyWrites(src, order)[i] == NegativeWrites(src)[i - |a| - |n| - |g|];
    }
  }

  /** A remembered reply really is written: an answer first, a negative reply last. */
  lemma RememberedWritten(src: Source, order: seq<NameType>)
    ensures Remembered(src) ==> ReplyWrites(src, order) != []
    ensures Answers(src) ==> ReplyWrites(src, order)[0] == Put(QuestionKey(src), SourceAnswer(src))
    ensures IsDenial(src) ==>
      && NegativeWrites(src) != []
      && ReplyWrites(src, order)[|ReplyWrites(src, order)| - 1] == NegativeWrites(src)[0]
    ensures !IsDenial(src) ==> NegativeWrites(src) == []
    ensures Answers(src) ==> !IsDenial(src)
  {
  }

  // ---- Parts of a log that leave a question alone ----

  ghost predicate Quiet(log: seq<Event>, a: int, b: int, key: CacheKey) {
    0 <= a <= b <= |log| && forall i :: a <= i < b ==> !Touches(log[i], key)
  }

  /** What the log up to b says about the question is what it said up to a. */
  ghost predicate SameFor(log: seq<Event>, a: int, b: int, key: CacheKey)
    requires 0 <= a <= b <= |log|
  {
    var nameKey := NameKey(key.name, key.qclass);
    && Latest(log[..b], key) == Latest(log[..a], key)
    && LatestNXDomain(log[..b], nameKey) == LatestNXDomain(log[..a], nameKey)
    && LatestNoData(log[..b], key) == LatestNoData(log[..a], key)
  }

  lemma {:induction false} QuietSame(log: seq<Event>, a: int, b: int, key: CacheKey)
    requires Quiet(log, a, b, key)
    ensures SameFor(log, a, b, key)
    decreases b
  {
    if a == b {
    } else {
      QuietSame(log, a, b - 1, key);
      assert log[..b][..b - 1] == log[..b - 1];
    }
  }

  /** Between a and b only the event at z is a write under the question. */
  ghost predicate OnlyAt(log: seq<Event>, a: int, z: int, b: int, key: CacheKey) {
    a <= z < b && Quiet(log, a, z, key) && Quiet(log, z + 1, b, key)
  }

  lemma OneWrite(log: seq<Event>, a: int, z: int, b: int, key: CacheKey)
    requires OnlyAt(log, a, z, b, key)
    ensures Latest(log[..b], key) ==
      if Stores(log[z], key) then Some(NewEntry(log[z].write.rrs, log[z].stamp)) else Latest(log[..a], key)
    ensures var nameKey := NameKey(key.name, key.qclass);
      LatestNXDomain(log[..b], nameKey) ==
        if StoresNXDomain(log[z], nameKey) then Some(log[z].stamp + log[z].write.ttl)
        else LatestNXDomain(log[..a], nameKey)
    ensures LatestNoData(log[..b], key) ==
      if StoresNoData(log[z], key) then Some(log[z].stamp + log[z].write.ttl) else LatestNoData(log[..a], key)
  {
    QuietSame(log, a, z, key);
    QuietSame(log, z + 1, b, key);
    assert log[..z + 1][..z] == log[..z];
  }

  // ---- Where a call's operations are in the log ----

  /** The log has own at the places at, in order. */
  ghost predicate Placed(log: seq<Event>, at: seq<nat>, own: seq<Event>) {
    && |at| == |own|
    && (forall i :: 0 <= i < |at| ==> at[i] < |log| && log[at[i]] == own[i])
    && (forall i, j :: 0 <= i < j < |at| ==> at[i] < at[j])
  }

  /** The read at this place saw what the call got from the cache. */
  ghost predicate GotAt(c: Call, log: seq<Event>, p: nat, e: Event) {
    p <= |log| && SpecGet(log[..p], CacheKey(Fqdn(c.name), c.qtype, CLASS_INET), e.now) == PositiveOutcome(c)
  }

  ghost predicate GotNegativeAt(c: Call, log: seq<Event>, p: nat, e: Event) {
    p <= |log| && SpecGetNegative(log[..p], CacheKey(Fqdn(c.name), c.qtype, CLASS_INET), e.now) == NegativeOutcome(c)
  }

  /** The log has the call c by who, with its operations at the places at. */
  ghost predicate CallAt(c: Call, who: nat, log: seq<Event>, at: seq<nat>, own: seq<Event>, order: seq<NameType>) {
    && Trustworthy(c) && CacheTraffic(c, who, own, order) && Placed(log, at, own)
    && own != [] && GotAt(c, log, at[0], own[0])
    && (!c.via.PositiveHit? ==> |own| > 1 && GotNegativeAt(c, log, at[1], own[1]))
  }

  /** A call's only reads come first. */
  lemma ReadsFirst(c: Call, who: nat, own: seq<Event>, order: seq<NameType>)
    requires CacheTraffic(c, who, own, order)
    ensures var key := CacheKey(Fqdn(c.name), c.qtype, CLASS_INET);
      && own != [] && own[0].Got? && own[0] == Got(who, key, own[0].now)
      && (!c.via.PositiveHit? ==> |own| > 1 && own[1].GotNegative? && own[1] == GotNegative(who, key, own[1].now))
      && (c.via.PositiveHit? ==> |own| == 1)
    ensures forall i :: 0 < i < |own| ==> !own[i].Got?
    ensures forall i :: 0 <= i < |own| && i != 1 ==> !own[i].GotNegative?
  {
    if c.via.Replied? || c.via.Failed? {
      assert own[..2][0] == own[0] && own[..2][1] == own[1];
      forall i | 2 <= i < |own|
        ensures own[i].Wrote?
      {
        assert own[2..][i - 2] == own[i];
      }
    }
  }

  /** Where the operations of who are from n on. */
  lemma {:induction false} OwnPlaces(log: seq<Event>, n: nat, who: nat) returns (at: seq<nat>)
    requires n <= |log|
    ensures Placed(log, at, Own(log[n..], who))
    ensures forall i :: 0 <= i < |at| ==> n <= at[i]
    ensures forall k :: n <= k < |log| && log[k].who == who ==> k in at
  {
    if n == |log| {
      at := [];
    } else {
      var front, last := log[..|log| - 1], |log| - 1;
      at := OwnPlaces(front, n, who);
      assert log[n..][..|log[n..]| - 1] == front[n..];
      if log[last].who == who {
        var before := at;
        at := at + [last];
        forall k | n <= k < |log| && log[k].who == who
          ensures k in at
        {
          if k < last {
            assert front[k].who == who && k in before;
          }
        }
      }
    }
  }

  lemma SameTail<T>(a: seq<T>, b: seq<T>, c: seq<T>)
    requires a + b == a + c
    ensures b == c
  {
    assert b == (a + b)[|a|..] == c;
  }

  lemma FirstReadPlace(c: Call, who: nat, log: seq<Event>, n: nat, at: seq<nat>, own: seq<Event>, later: seq<Event>)
    requires own != [] && own[0].Got? && own[0] == Got(who, CacheKey(Fqdn(c.name), c.qtype, CLASS_INET), own[0].now)
    requires forall i :: 0 < i < |own| ==> !own[i].Got?
    requires Saw(log, n, own[0], PositiveOutcome(c)) && log <= later
    requires Placed(log, at, own) && forall k :: n <= k < |log| && log[k].who == who ==> k in at
    ensures GotAt(c, later, at[0], own[0])
  {
    var p :| n <= p < |log| && log[p] == own[0] && SpecGet(log[..p], own[0].key, own[0].now) == PositiveOutcome(c);
    assert log[p].who == who;
    var i :| 0 <= i < |at| && at[i] == p;
    assert own[i] == log[p];
    assert later[..p] == log[..p];
  }

  lemma SecondReadPlace(c: Call, who: nat, log: seq<Event>, n: nat, at: seq<nat>, own: seq<Event>, later: seq<Event>)
    requires |own| > 1 && own[1].GotNegative?
    requires own[1] == GotNegative(who, CacheKey(Fqdn(c.name), c.qtype, CLASS_INET), own[1].now)
    requires forall i :: 0 <= i < |own| && i != 1 ==> !own[i].GotNegative?
    requires SawNegative(log, n, own[1], NegativeOutcome(c)) && log <= later
    requires Placed(log, at, own) && forall k :: n <= k < |log| && log[k].who == who ==> k in at
    ensures GotNegativeAt(c, later, at[1], own[1])
  {
    var p :| n <= p < |log| && log[p] == own[1] &&
      SpecGetNegative(log[..p], own[1].key, own[1].now) == NegativeOutcome(c);
    assert log[p].who == who;
    var i :| 0 <= i < |at| && at[i] == p;
    assert own[i] == log[p];
    assert later[..p] == log[..p];
  }

  /** The places of a call made while the log grew from before to log, seen in a longer log. */
  lemma MadePlaces(c: Call, who: nat, before: seq<Event>, log: seq<Event>, own: seq<Event>, order: seq<NameType>,
                   later: seq<Event>)
    returns (at: seq<nat>)
    requires Trustworthy(c) && Made(c, who, before, log, own, order) && log <= later
    ensures CallAt(c, who, later, at, own, order)
    ensures forall i :: 0 <= i < |at| ==> |before| <= at[i] < |log|
    ensures forall k :: |before| <= k < |log| && later[k].who == who ==> k in at
  {
    assert log == before + log[|before|..];
    FilterAppend(before, log[|before|..], By(who));
    SameTail(Own(before, who), own, Own(log[|before|..], who));
    at := OwnPlaces(log, |before|, who);
    ReadsFirst(c, who, own, order);
    FirstReadPlace(c, who, log, |before|, at, own, later);
    if !c.via.PositiveHit? {
      SecondReadPlace(c, who, log, |before|, at, own, later);
    }
  }

  // ---- What is there for the next reader ----

  /** own[z] is the write that remembers the reply. */
  ghost predicate RemembersAt(src: Source, own: seq<Event>, z: int) {
    && 2 <= z < |own| && own[z].Wrote?
    && own[z].write ==
         if Answers(src) then Put(QuestionKey(src), SourceAnswer(src))
         else if src.reply.rcode == RCODE_NAME_ERROR then
           PutNXDomain(NameKey(src.name, CLASS_INET), NegativeTtl(src.zone, src.reply.ns))
         else PutNoData(QuestionKey(src), NegativeTtl(src.zone, src.reply.ns))
  }

  lemma WriteAt(c: Call, who: nat, own: seq<Event>, order: seq<NameType>, i: nat)
    requires CacheTraffic(c, who, own, order) && c.via.Replied? && 2 <= i < |own|
    ensures i - 2 < |ReplyWrites(SourceOf(c), order)| == |own| - 2
    ensures own[i].Wrote? && own[i].write == ReplyWrites(SourceOf(c), order)[i - 2]
  {
    assert own[i] == own[2..][i - 2];
    assert IsWrite(own[2..][i - 2], who, SourceOf(c), ReplyWrites(SourceOf(c), order)[i - 2]);
  }

  /** Of the writes of a reply, only the one that remembers it touches the question. */
  lemma WritesTouching(c: Call, who: nat, own: seq<Event>, order: seq<NameType>, i: nat)
    requires CacheTraffic(c, who, own, order) && c.via.Replied? && NoCollision(SourceOf(c))
    requires i < |own| && Touches(own[i], QuestionKey(SourceOf(c)))
    ensures Remembered(SourceOf(c)) && i == Remembering(SourceOf(c), own)
  {
    var src := SourceOf(c);
    ReadsFirst(c, who, own, order);
    RememberedWritten(src, order);
    if i >= 2 {
      WriteAt(c, who, own, order, i);
      OnlyTheQuestionTouches(src, order, i - 2);
    }
  }

  lemma RememberedAt(c: Call, who: nat, own: seq<Event>, order: seq<NameType>)
    requires CacheTraffic(c, who, own, order) && c.via.Replied? && Remembered(SourceOf(c))
    ensures RemembersAt(SourceOf(c), own, Remembering(SourceOf(c), own))
  {
    var src := SourceOf(c);
    RememberedWritten(src, order);
    assert |own[2..]| == |ReplyWrites(src, order)|;
    WriteAt(c, who, own, order, Remembering(src, own));
  }

  /** Reads that come after a miss and after one write under the question see that write, while it lasts. */
  lemma ReadsAfterWrite(log: seq<Event>, a: nat, b: nat, z: nat, p: nat, q: nat, key: CacheKey,
                        missed: int, denied: int, t: int, u: int)
    requires OnlyAt(log, a, z, p, key) && OnlyAt(log, b, z, q, key)
    requires SpecGet(log[..a], key, missed) == None && missed <= t
    requires SpecGetNegative(log[..b], key, denied) == None && denied <= u
    ensures SpecGet(log[..p], key, t) ==
      if Stores(log[z], key) && t <= log[z].stamp + MinTtl(log[z].write.rrs) * SECOND then Some(log[z].write.rrs)
      else None
    ensures SpecGetNegative(log[..q], key, u) ==
      if StoresNXDomain(log[z], NameKey(key.name, key.qclass)) && u <= log[z].stamp + log[z].write.ttl then
        Some(RCODE_NAME_ERROR)
      else if StoresNoData(log[z], key) && u <= log[z].stamp + log[z].write.ttl then Some(RCODE_SUCCESS)
      else None
  {
    OneWrite(log, a, z, p, key);
    OneWrite(log, b, z, q, key);
  }

  lemma ReadsAfterNothing(log: seq<Event>, a: nat, b: nat, p: nat, q: nat, key: CacheKey,
                          missed: int, denied: int, t: int, u: int)
    requires Quiet(log, a, p, key) && Quiet(log, b, q, key)
    requires SpecGet(log[..a], key, missed) == None && missed <= t
    requires SpecGetNegative(log[..b], key, denied) == None && denied <= u
    ensures SpecGet(log[..p], key, t) == None && SpecGetNegative(log[..q], key, u) == None
  {
    QuietSame(log, a, p, key);
    QuietSame(log, b, q, key);
  }

  /** From the first operation of a call up to q, only operations of that call are writes under the question. */
  ghost predicate Undisturbed(log: seq<Event>, at: seq<nat>, q: int, key: CacheKey)
    requires at != []
  {
    q <= |log| && forall i: nat :: at[0] <= i < q && Touches(log[i], key) ==> i in at
  }

  /** From the first read of a call on, only the write that remembers its reply touches the question. */
  lemma OnlyOneTouches(c: Call, who: nat, log: seq<Event>, at: seq<nat>, own: seq<Event>, order: seq<NameType>,
                       q: int, i: nat)
    requires CacheTraffic(c, who, own, order) && Placed(log, at, own) && c.via.Replied? && NoCollision(SourceOf(c))
    requires own != [] && Undisturbed(log, at, q, QuestionKey(SourceOf(c)))
    requires at[0] <= i < q && Touches(log[i], QuestionKey(SourceOf(c)))
    ensures Remembered(SourceOf(c))
    ensures var k := Remembering(SourceOf(c), own); 0 <= k < |at| && i == at[k]
  {
    var k :| 0 <= k < |at| && at[k] == i;
    assert own[k] == log[i];
    WritesTouching(c, who, own, order, k);
  }

  /** What reads at p and q, at the times t and u, see of the reply to a call whose last operation came before. */
  ghost predicate Serves(src: Source, own: seq<Event>, log: seq<Event>, p: nat, q: nat, t: int, u: int)
    requires p <= |log| && q <= |log|
    requires Remembered(src) ==> RemembersAt(src, own, Remembering(src, own))
  {
    var key := QuestionKey(src);
    && SpecGet(log[..p], key, t) ==
         (if Answers(src) && t <= Until(src, own) then Some(SourceAnswer(src)) else None)
    && SpecGetNegative(log[..q], key, u) ==
         (if IsDenial(src) && u <= Until(src, own) then Some(src.reply.rcode) else None)
  }

  /**
    Whatever other requests read and write elsewhere, after a miss and the writes of its reply the cache
    holds an outcome for the question exactly while a remembered reply lasts: its answer or its denial.
    */
  lemma SecondLookup(c: Call, who: nat, log: seq<Event>, at: seq<nat>, own: seq<Event>, order: seq<NameType>,
                     p: nat, q: nat, t: int, u: int)
    requires CallAt(c, who, log, at, own, order) && c.via.Replied? && NoCollision(SourceOf(c))
    requires at[|at| - 1] < p <= q <= |log| && Undisturbed(log, at, q, QuestionKey(SourceOf(c)))
    requires own[0].now <= t && own[1].now <= u
    ensures Remembered(SourceOf(c)) ==> RemembersAt(SourceOf(c), own, Remembering(SourceOf(c), own))
    ensures Serves(SourceOf(c), own, log, p, q, t, u)
  {
    var src, key := SourceOf(c), QuestionKey(SourceOf(c));
    forall i: nat | at[0] <= i < q && Touches(log[i], key)
      ensures Remembered(src) && 0 <= Remembering(src, own) < |at| && i == at[Remembering(src, own)]
    {
      OnlyOneTouches(c, who, log, at, own, order, q, i);
    }
    RememberedWritten(src, order);
    if Remembered(src) {
      RememberedAt(c, who, own, order);
      ReadsAfterWrite(log, at[0], at[1], at[Remembering(src, own)], p, q, key, own[0].now, own[1].now, t, u);
    } else {
      ReadsAfterNothing(log, at[0], at[1], p, q, key, own[0].now, own[1].now, t, u);
    }
  }

  // ---- Two lookups ----

  predicate IsHit(c: Call) {
    c.via.PositiveHit? || c.via.NegativeHit?
  }

  predicate SameQuestion(c: Call, c': Call) {
    Fqdn(c'.name) == Fqdn(c.name) && c'.qtype == c.qtype
  }

  /** The read of a call that decides whether it is served what src is remembered for. */
  ghost function DecidingRead(src: Source, own': seq<Event>): Event
    requires own' != []
  {
    if Answers(src) || |own'| == 1 then own'[0] else own'[1]
  }

  /** What the first call's reply lets a later call return from the cache: NXDOMAIN comes back without records. */
  function Replayed(first: LookupResult): LookupResult {
    LookupResult(first.rcode, if first.rcode == RCODE_NAME_ERROR then [] else first.answer, [], [])
  }

  /** The later call is served the first one's reply exactly while that is remembered and lasts. */
  ghost predicate ServedInTime(c: Call, own: seq<Event>, c': Call, own': seq<Event>)
    requires c.via.Replied? && c.outcome.Ok? && own' != []
    requires Remembered(SourceOf(c)) ==> RemembersAt(SourceOf(c), own, Remembering(SourceOf(c), own))
  {
    if Remembered(SourceOf(c)) && DecidingRead(SourceOf(c), own').now <= Until(SourceOf(c), own) then
      IsHit(c') && c'.outcome == Ok(Replayed(c.outcome.value))
    else !IsHit(c')
  }

  /** The call is a hit exactly if its reads, the negative one after a miss, find something. */
  ghost predicate HitIfFound(c: Call, hit: Option<seq<RR>>, rcode: Option<nat>, count: nat) {
    if hit.Some? then
      c.via.PositiveHit? && count == 1 && c.outcome == Ok(LookupResult(RCODE_SUCCESS, hit.value, [], []))
    else
      && count > 1
      && if rcode.Some? then c.via.NegativeHit? && c.outcome == Ok(LookupResult(rcode.value, [], [], [])) else !IsHit(c)
  }

  lemma HitDecided(c: Call, who: nat, log: seq<Event>, at: seq<nat>, own: seq<Event>, order: seq<NameType>)
    requires CallAt(c, who, log, at, own, order)
    ensures var key, n := CacheKey(Fqdn(c.name), c.qtype, CLASS_INET), if |at| > 1 then 1 else 0;
      HitIfFound(c, SpecGet(log[..at[0]], key, own[0].now), SpecGetNegative(log[..at[n]], key, own[n].now), |own|)
  {
    ReadsFirst(c, who, own, order);
  }

  lemma ServedDecided(c: Call, own: seq<Event>, c': Call, own': seq<Event>, hit: Option<seq<RR>>, rcode: Option<nat>)
    requires c.via.Replied? && c.outcome.Ok? && own' != []
    requires c.outcome.value.rcode == c.via.reply.rcode && c.outcome.value.answer == SourceAnswer(SourceOf(c))
    requires Remembered(SourceOf(c)) ==> RemembersAt(SourceOf(c), own, Remembering(SourceOf(c), own))
    requires HitIfFound(c', hit, rcode, |own'|)
    requires var src, n := SourceOf(c), if |own'| > 1 then 1 else 0;
      && hit == (if Answers(src) && own'[0].now <= Until(src, own) then Some(SourceAnswer(src)) else None)
      && rcode == (if IsDenial(src) && own'[n].now <= Until(src, own) then Some(src.reply.rcode) else None)
    ensures ServedInTime(c, own, c', own')
  {
    RememberedWritten(SourceOf(c), []);
  }

  lemma PlacesInTime(log: seq<Event>, at: seq<nat>, own: seq<Event>, at': seq<nat>, own': seq<Event>)
    requires Timely(log) && Placed(log, at, own) && Placed(log, at', own')
    requires own != [] && own' != [] && at[|at| - 1] < at'[0]
    ensures forall i, j :: 0 <= i < |own| && 0 <= j < |own'| ==> own[i].now <= own'[j].now
  {
    forall i, j | 0 <= i < |own| && 0 <= j < |own'|
      ensures own[i].now <= own'[j].now
    {
      assert at[i] <= at[|at| - 1] && at'[0] <= at'[j];
    }
  }

  /**
    Two calls for one question, by any requests, among any other operations of any requests that are no
    writes under the question: the second one is served from the cache exactly while the reply to the first
    one is remembered and lasts, with its RCode and, unless that is NXDOMAIN, its answer.
    */
  lemma CallReplayed(log: seq<Event>, c: Call, who: nat, at: seq<nat>, own: seq<Event>, order: seq<NameType>,
                     c': Call, who': nat, at': seq<nat>, own': seq<Event>, order': seq<NameType>)
    requires Timely(log)
    requires CallAt(c, who, log, at, own, order) && c.via.Replied? && NoCollision(SourceOf(c))
    requires CallAt(c', who', log, at', own', order') && SameQuestion(c, c')
    requires at[|at| - 1] < at'[0]
    requires Undisturbed(log, at, if |at'| > 1 then at'[1] else at'[0], QuestionKey(SourceOf(c)))
    ensures c.outcome == Ok(FilteredResult(Fqdn(c.zone), Fqdn(c.name), c.via.reply))
    ensures Remembered(SourceOf(c)) ==> RemembersAt(SourceOf(c), own, Remembering(SourceOf(c), own))
    ensures ServedInTime(c, own, c', own')
  {
    var n, key := if |at'| > 1 then 1 else 0, QuestionKey(SourceOf(c));
    PlacesInTime(log, at, own, at', own');
    SecondLookup(c, who, log, at, own, order, at'[0], at'[n], own'[0].now, own'[n].now);
    HitDecided(c', who', log, at', own', order');
    ServedDecided(c, own, c', own', SpecGet(log[..at'[0]], key, own'[0].now),
                  SpecGetNegative(log[..at'[n]], key, own'[n].now));
  }

  /** A reply is remembered for its lifetime, counted from a time between the miss and the last of its writes. */
  lemma UntilInTime(log: seq<Event>, c: Call, who: nat, at: seq<nat>, own: seq<Event>, order: seq<NameType>)
    requires Timely(log) && AllStamped(log)
    requires CallAt(c, who, log, at, own, order) && c.via.Replied? && Remembered(SourceOf(c))
    ensures RemembersAt(SourceOf(c), own, Remembering(SourceOf(c), own))
    ensures own[1].now + Lifetime(SourceOf(c)) <= Until(SourceOf(c), own) <= own[|own| - 1].now + Lifetime(SourceOf(c))
  {
    RememberedAt(c, who, own, order);
    var z := Remembering(SourceOf(c), own);
    assert own[z] == own[2..][z - 2] && own[z] in own[2..];
    assert Stamped(log[at[z]]);
    assert at[z] <= at[|at| - 1];
  }

  /** From n0 on, the only writes under key are who's before n1 and those of who' from n2 on. */
  ghost predicate OnlyTheirWrites(log: seq<Event>, n0: int, n1: int, n2: int, who: nat, who': nat, key: CacheKey) {
    forall i :: 0 <= i < |log| && n0 <= i && Touches(log[i], key) ==>
      (i < n1 && log[i].who == who) || (n2 <= i && log[i].who == who')
  }

  lemma TheirsUndisturbed(c': Call, who': nat, log: seq<Event>, at': seq<nat>, own': seq<Event>, order': seq<NameType>,
                          at: seq<nat>, n0: nat, n1: nat, n2: nat, who: nat, key: CacheKey)
    requires CallAt(c', who', log, at', own', order') && n1 <= n2 <= |log|
    requires forall k :: n2 <= k < |log| && log[k].who == who' ==> k in at'
    requires at != [] && n0 <= at[0] && forall k :: n0 <= k < n1 && log[k].who == who ==> k in at
    requires OnlyTheirWrites(log, n0, n1, n2, who, who', key)
    ensures Undisturbed(log, at, if |at'| > 1 then at'[1] else at'[0], key)
  {
    ReadsFirst(c', who', own', order');
    var q := if |at'| > 1 then at'[1] else at'[0];
    forall i: nat | at[0] <= i < q
      ensures n2 <= i && log[i].who == who' ==> !Touches(log[i], key)
    {
      if n2 <= i && log[i].who == who' {
        var k :| 0 <= k < |at'| && at'[k] == i;
        assert log[i] == own'[k] && own'[0].Got?;
      }
    }
  }

  /**
    The same for two calls of Lookup, the second begun after the end of the first, in terms of what Lookup
    promises about the log before and after each of them.
    */
  lemma LookupReplayed(log0: seq<Event>, log1: seq<Event>, log2: seq<Event>, log3: seq<Event>,
                       c: Call, who: nat, own: seq<Event>, order: seq<NameType>,
                       c': Call, who': nat, own': seq<Event>, order': seq<NameType>)
    requires Timely(log3) && AllStamped(log3) && log1 <= log2
    requires Trustworthy(c) && Made(c, who, log0, log1, own, order) && c.via.Replied? && NoCollision(SourceOf(c))
    requires Trustworthy(c') && Made(c', who', log2, log3, own', order') && SameQuestion(c, c')
    requires OnlyTheirWrites(log3, |log0|, |log1|, |log2|, who, who', QuestionKey(SourceOf(c)))
    ensures c.outcome == Ok(FilteredResult(Fqdn(c.zone), Fqdn(c.name), c.via.reply)) && |own| > 1 && own' != []
    ensures Remembered(SourceOf(c)) ==>
      && RemembersAt(SourceOf(c), own, Remembering(SourceOf(c), own))
      && own[1].now + Lifetime(SourceOf(c)) <= Until(SourceOf(c), own) <= own[|own| - 1].now + Lifetime(SourceOf(c))
    ensures ServedInTime(c, own, c', own')
  {
    var at := MadePlaces(c, who, log0, log1, own, order, log3);
    var at' := MadePlaces(c', who', log2, log3, own', order', log3);
    TheirsUndisturbed(c', who', log3, at', own', order', at, |log0|, |log1|, |log2|, who, QuestionKey(SourceOf(c)));
    CallReplayed(log3, c, who, at, own, order, c', who', at', own', order');
    if Remembered(SourceOf(c)) {
      UntilInTime(log3, c, who, at, own, order);
    }
  }

  /** Served in time, the second call repeats the first one's answer unless that was an NXDOMAIN with records. */
  lemma SecondAnswerSame(c: Call, own: seq<Event>, c': Call, own': seq<Event>)
    requires c.via.Replied? && c.outcome.Ok? && own' != [] && Remembered(SourceOf(c))
    requires RemembersAt(SourceOf(c), own, Remembering(SourceOf(c), own))
    requires ServedInTime(c, own, c', own') && DecidingRead(SourceOf(c), own').now <= Until(SourceOf(c), own)
    ensures c'.outcome.Ok? && c'.outcome.value.rcode == c.outcome.value.rcode
    ensures c'.outcome.value.answer == c.outcome.value.answer <==>
      c.outcome.value.rcode != RCODE_NAME_ERROR || c.outcome.value.answer == []
  {
  }
}
