/** An instance of the replay theorem: a name that does not exist, asked for twice. */
module ReplayInstance {
  import opened Sequences
  import opened Names
  import opened Records
  import opened BailiwickProofs
  import opened Writes
  import opened CacheLog
  import opened Cache
  import opened Helper
  import opened Replay
  import opened Histories

  function BareNXDomain(): Reply {
    Reply(RCODE_NAME_ERROR, [], [], [])
  }

  function NoSuchName(): LookupResult {
    LookupResult(RCODE_NAME_ERROR, [], [], [])
  }

  /** A bare NXDOMAIN is remembered for a minute, and for nothing else. */
  lemma OnlyNXDomainWritten(src: Source)
    requires src.reply == BareNXDomain()
    ensures NoCollision(src) && Listing([], SourceExtra(src))
    ensures ReplyWrites(src, []) == [PutNXDomain(NameKey(src.name, CLASS_INET), DEFAULT_NEGATIVE_TTL)]
    ensures FilteredResult(src.zone, src.name, src.reply) == NoSuchName()
    ensures IsDenial(src) && Lifetime(src) == DEFAULT_NEGATIVE_TTL
  {
    NoAnswerFiltered(src.zone, src.name);
    NegativeTtlDefault(src.zone, []);
    assert GlueWrites([], []) == [];
  }

  /** The read that decides is one of the call's two. */
  lemma DecidedEarly(c: Call, who: nat, own: seq<Event>, order: seq<NameType>, src: Source)
    requires CacheTraffic(c, who, own, order)
    ensures own != [] && DecidingRead(src, own) in own && !DecidingRead(src, own).Wrote?
  {
    ReadsFirst(c, who, own, order);
  }

  lemma InAMinute(c: Call, own: seq<Event>, c': Call, who': nat, own': seq<Event>, order': seq<NameType>)
    requires c.via.Replied? && c.outcome == Ok(NoSuchName()) && IsDenial(SourceOf(c)) && |own| > 1
    requires RemembersAt(SourceOf(c), own, Remembering(SourceOf(c), own))
    requires own[1].now + 60 * SECOND <= Until(SourceOf(c), own)
    requires Trustworthy(c') && CacheTraffic(c', who', own', order') && own' != [] && ServedInTime(c, own, c', own')
    requires forall e :: e in own' && !e.Wrote? ==> e.now <= own[1].now + 60 * SECOND
    ensures c'.via.NegativeHit? && c'.outcome == Ok(NoSuchName())
  {
    DecidedEarly(c', who', own', order', SourceOf(c));
  }

  /**
    Whatever other requests do elsewhere: the same question within a minute is answered with NXDOMAIN from
    the cache, and no server is asked.
    */
  lemma NoSuchNameReplayed(log0: seq<Event>, log1: seq<Event>, log2: seq<Event>, log3: seq<Event>,
                           c: Call, who: nat, own: seq<Event>, order: seq<NameType>,
                           c': Call, who': nat, own': seq<Event>, order': seq<NameType>)
    requires Timely(log3) && AllStamped(log3) && log1 <= log2
    requires Trustworthy(c) && Made(c, who, log0, log1, own, order)
    requires c.via.Replied? && c.via.reply == BareNXDomain()
    requires Trustworthy(c') && Made(c', who', log2, log3, own', order') && SameQuestion(c, c')
    requires OnlyTheirWrites(log3, |log0|, |log1|, |log2|, who, who', QuestionKey(SourceOf(c)))
    requires |own| > 1 && forall e :: e in own' && !e.Wrote? ==> e.now <= own[1].now + 60 * SECOND
    ensures c'.via.NegativeHit? && c'.outcome == c.outcome == Ok(NoSuchName())
  {
    OnlyNXDomainWritten(SourceOf(c));
    LookupReplayed(log0, log1, log2, log3, c, who, own, order, c', who', own', order');
    InAMinute(c, own, c', who', own', order');
  }

  lemma ReadKeeps(log: seq<Event>, e: Event, key: CacheKey)
    requires !e.Wrote?
    ensures SameFor(log + [e], |log|, |log| + 1, key)
  {
    assert (log + [e])[..|log| + 1][..|log|] == (log + [e])[..|log|];
  }

  /** An NXDOMAIN that was the last write is there for its time, whoever reads in between. */
  lemma EntryThere(log: seq<Event>, e: Event, between: Event, who: nat, key: CacheKey, t: int)
    requires Latest(log, key).None? && e.Wrote? && !between.Wrote?
    requires e.write == PutNXDomain(NameKey(key.name, key.qclass), DEFAULT_NEGATIVE_TTL)
    requires t <= e.stamp + DEFAULT_NEGATIVE_TTL
    ensures SpecGet(log + [e] + [between], key, t) == None
    ensures SpecGetNegative(log + [e] + [between] + [Got(who, key, t)], key, t) == Some(RCODE_NAME_ERROR)
  {
    var wrote := log + [e];
    var read := wrote + [between];
    LastOfLog(log, e);
    ReadKeeps(wrote, between, key);
    ReadKeeps(read, Got(who, key, t), key);
    assert read[..|wrote|] == wrote && read[..|read|] == read;
    assert (read + [Got(who, key, t)])[..|read|] == read;
    assert (read + [Got(who, key, t)])[..|read| + 1] == read + [Got(who, key, t)];
  }

  /** The reads of a call leave the question as it was. */
  lemma ReadsLeaveNothing(who: nat, key: CacheKey, t: int)
    ensures Untouched([], key) && Latest(Reads(who, key, t), key).None?
  {
    UntouchedEmpty(Reads(who, key, t), key);
  }

  /** A call that finds the entry at the end of a log. */
  lemma DeniedAgain(log: seq<Event>, c: Call, who: nat, t: int) returns (own: seq<Event>)
    requires Possible(log, t) && c.via.NegativeHit? && c.outcome == Ok(NoSuchName())
    requires Denied(c.via.src, CacheKey(Fqdn(c.name), c.qtype, CLASS_INET), RCODE_NAME_ERROR)
    requires var key := CacheKey(Fqdn(c.name), c.qtype, CLASS_INET);
      SpecGet(log, key, t) == None && SpecGetNegative(log + [Got(who, key, t)], key, t) == Some(RCODE_NAME_ERROR)
    ensures own == Reads(who, CacheKey(Fqdn(c.name), c.qtype, CLASS_INET), t)
    ensures Trustworthy(c) && Made(c, who, log, log + own, own, []) && Possible(log + own, t)
  {
    var key := CacheKey(Fqdn(c.name), c.qtype, CLASS_INET);
    own := Reads(who, key, t);
    assert own + [] == own;
    ReadsSaw(log, who, key, t, [], Some(RCODE_NAME_ERROR));
    EventsPossible(log, who, key, t, []);
    Associative(Own(log, who), [own[0]], [own[1]]);
    NegativeMade(c, who, log, log + own, own[0], own[1], RCODE_NAME_ERROR);
  }

  /** On an empty cache the name is looked up. */
  lemma AskedOnce(c: Call) returns (e: Event, own: seq<Event>)
    requires Trustworthy(c) && c.via.Replied? && c.via.reply == BareNXDomain()
    ensures e == Wrote(0, SourceOf(c), PutNXDomain(NameKey(Fqdn(c.name), CLASS_INET), DEFAULT_NEGATIVE_TTL), 0, 0)
    ensures own == Reads(0, QuestionKey(SourceOf(c)), 0) + [e]
    ensures Made(c, 0, [], own, own, []) && Possible(own, 0)
    ensures Denied(SourceOf(c), QuestionKey(SourceOf(c)), RCODE_NAME_ERROR)
  {
    var src := SourceOf(c);
    OnlyNXDomainWritten(src);
    ReadsLeaveNothing(0, QuestionKey(src), 0);
    e := Wrote(0, src, PutNXDomain(NameKey(Fqdn(c.name), CLASS_INET), DEFAULT_NEGATIVE_TTL), 0, 0);
    own := Contacted([], c, 0, [], 0);
    assert WritesAt(0, src, ReplyWrites(src, []), 0) == [e];
    assert [] + own == own;
  }

  lemma OnlyItWrites(key: CacheKey, e: Event, between: Event)
    requires e.who == 0 && !between.Wrote?
    ensures OnlyTheirWrites(Reads(0, key, 0) + [e] + [between] + Reads(1, key, SECOND), 0, 3, 4, 0, 1, key)
  {
    var log := Reads(0, key, 0) + [e] + [between] + Reads(1, key, SECOND);
    assert log == [Got(0, key, 0), GotNegative(0, key, 0), e, between,
                   Got(1, key, SECOND), GotNegative(1, key, SECOND)];
  }

  /** Asked again, after a third party's read, it is denied. */
  lemma AskedAgain(c: Call, key: CacheKey, e: Event, between: Event) returns (own: seq<Event>)
    requires c.via.NegativeHit? && c.outcome == Ok(NoSuchName()) && key == CacheKey(Fqdn(c.name), c.qtype, CLASS_INET)
    requires Denied(c.via.src, key, RCODE_NAME_ERROR)
    requires e.Wrote? && e.write == PutNXDomain(NameKey(key.name, key.qclass), DEFAULT_NEGATIVE_TTL) && e.stamp == 0
    requires !between.Wrote? && Possible(Reads(0, key, 0) + [e] + [between], SECOND)
    ensures var log := Reads(0, key, 0) + [e] + [between];
      && own == Reads(1, key, SECOND)
      && Trustworthy(c) && Made(c, 1, log, log + own, own, []) && Possible(log + own, SECOND)
  {
    ReadsLeaveNothing(0, key, 0);
    EntryThere(Reads(0, key, 0), e, between, 1, key, SECOND);
    own := DeniedAgain(Reads(0, key, 0) + [e] + [between], c, 1, SECOND);
  }

  /** Such a history: asked on an empty cache, read by a third party, asked again by another request a second later. */
  lemma AskedTwice(c: Call, c': Call) returns (log1: seq<Event>, log2: seq<Event>, own: seq<Event>, own': seq<Event>)
    requires Trustworthy(c) && c.via.Replied? && c.via.reply == BareNXDomain()
    requires c'.via == NegativeHit(SourceOf(c)) && c'.outcome == Ok(NoSuchName()) && SameQuestion(c, c')
    ensures Made(c, 0, [], log1, own, []) && log1 < log2
    ensures Trustworthy(c') && Made(c', 1, log2, log2 + own', own', [])
    ensures Possible(log2 + own', SECOND)
    ensures OnlyTheirWrites(log2 + own', 0, |log1|, |log2|, 0, 1, QuestionKey(SourceOf(c)))
  {
    var key := QuestionKey(SourceOf(c));
    var e;
    e, own := AskedOnce(c);
    var between := Got(2, key, SECOND);
    log1, log2 := own, own + [between];
    PossibleLater(log1, between, 0);
    own' := AskedAgain(c', key, e, between);
    OnlyItWrites(key, e, between);
  }
}
