/** Histories that can happen: how a call extends one, for building instances of what the other modules allow. */
module Histories {
  import opened Sequences
  import opened Names
  import opened Records
  import opened Writes
  import opened CacheLog
  import opened Cache
  import opened Helper
  import opened Replay

  /** The log is one that the cache can have by the time now. */
  ghost predicate Possible(log: seq<Event>, now: int) {
    Timely(log) && HappenedBy(log, now) && AllStamped(log) && LegitLog(log)
  }

  ghost predicate Untouched(log: seq<Event>, key: CacheKey) {
    Quiet(log, 0, |log|, key)
  }

  function Reads(who: nat, key: CacheKey, t: int): seq<Event> {
    [Got(who, key, t), GotNegative(who, key, t)]
  }

  /** The writes ws, all at the time t. */
  function WritesAt(who: nat, src: Source, ws: seq<Write>, t: int): seq<Event> {
    seq(|ws|, i requires 0 <= i < |ws| => Wrote(who, src, ws[i], t, t))
  }

  lemma PossibleMore(log: seq<Event>, own: seq<Event>, t: int)
    requires Possible(log, t) && forall e :: e in own ==> e.now == t && Stamped(e) && Legit(e)
    ensures Possible(log + own, t)
  {
  }

  /** A read by anyone, at any later time. */
  lemma PossibleLater(log: seq<Event>, e: Event, now: int)
    requires Possible(log, now) && !e.Wrote? && now <= e.now
    ensures Possible(log + [e], e.now)
  {
  }

  lemma OwnAppend(log: seq<Event>, own: seq<Event>, who: nat)
    requires forall e :: e in own ==> e.who == who
    ensures Own(log + own, who) == Own(log, who) + own
  {
    FilterAppend(log, own, By(who));
    FilterAll(own, By(who));
  }

  lemma UntouchedEmpty(log: seq<Event>, key: CacheKey)
    requires Untouched(log, key)
    ensures Latest(log, key).None? && LatestNXDomain(log, NameKey(key.name, key.qclass)).None?
    ensures LatestNoData(log, key).None?
  {
    QuietSame(log, 0, |log|, key);
    assert log[..|log|] == log && log[..0] == [];
  }

  /** The two reads of a lookup, at the end of a log and before its writes. */
  lemma ReadsSaw(log: seq<Event>, who: nat, key: CacheKey, t: int, writes: seq<Event>, rcode: Option<nat>)
    requires SpecGet(log, key, t) == None && SpecGetNegative(log + [Got(who, key, t)], key, t) == rcode
    ensures var own := Reads(who, key, t) + writes;
      Saw(log + own, |log|, own[0], None) && SawNegative(log + own, |log|, own[1], rcode)
  {
    var own := Reads(who, key, t) + writes;
    var all := log + own;
    assert own[0] == Got(who, key, t) && own[1] == GotNegative(who, key, t);
    assert all[|log|] == own[0] && all[..|log|] == log;
    assert all[|log| + 1] == own[1] && all[..|log| + 1] == log + [Got(who, key, t)];
  }

  lemma WritesMade(who: nat, src: Source, order: seq<NameType>, t: int)
    requires src.zone.Fq? && src.name.Fq? && Listing(order, SourceExtra(src))
    ensures var writes := WritesAt(who, src, ReplyWrites(src, order), t);
      && WroteAll(writes, who, src, ReplyWrites(src, order)) && BegunAfter(writes, t)
      && forall e :: e in writes ==> e.who == who && e.now == t && Stamped(e) && Legit(e)
  {
    ReplyWritesLegit(src, order);
  }

  lemma EventsPossible(log: seq<Event>, who: nat, key: CacheKey, t: int, writes: seq<Event>)
    requires Possible(log, t)
    requires forall e :: e in writes ==> e.who == who && e.now == t && Stamped(e) && Legit(e)
    ensures var own := Reads(who, key, t) + writes;
      Own(log + own, who) == Own(log, who) + own && Possible(log + own, t)
  {
    var own := Reads(who, key, t) + writes;
    OwnAppend(log, own, who);
    PossibleMore(log, own, t);
  }

  /** A question under which nothing was ever written is asked of the servers. */
  lemma Contacted(log: seq<Event>, c: Call, who: nat, order: seq<NameType>, t: int) returns (own: seq<Event>)
    requires Possible(log, t) && Trustworthy(c) && c.via.Replied? && Untouched(log, QuestionKey(SourceOf(c)))
    requires SourceOf(c).zone.Fq? && SourceOf(c).name.Fq? && Listing(order, SourceExtra(SourceOf(c)))
    ensures own ==
      Reads(who, QuestionKey(SourceOf(c)), t) + WritesAt(who, SourceOf(c), ReplyWrites(SourceOf(c), order), t)
    ensures Made(c, who, log, log + own, own, order) && Possible(log + own, t)
  {
    var src, key := SourceOf(c), QuestionKey(SourceOf(c));
    var seen, writes := Reads(who, key, t), WritesAt(who, src, ReplyWrites(src, order), t);
    own := seen + writes;
    UntouchedEmpty(log, key);
    ReadsSaw(log, who, key, t, writes, None);
    WritesMade(who, src, order, t);
    EventsPossible(log, who, key, t, writes);
    MissMade(c, who, log, log + own, seen, writes, order);
  }

  /** A question whose entry is there and fresh is answered by it. */
  lemma Hit(log: seq<Event>, c: Call, who: nat, t: int) returns (own: seq<Event>)
    requires Possible(log, t) && Trustworthy(c) && c.via.PositiveHit?
    requires SpecGet(log, CacheKey(Fqdn(c.name), c.qtype, CLASS_INET), t) == Some(c.outcome.value.answer)
    ensures own == [Got(who, CacheKey(Fqdn(c.name), c.qtype, CLASS_INET), t)]
    ensures Made(c, who, log, log + own, own, []) && Possible(log + own, t)
  {
    own := [Got(who, CacheKey(Fqdn(c.name), c.qtype, CLASS_INET), t)];
    var all := log + own;
    assert all[|log|] == own[0] && all[..|log|] == log;
    OwnAppend(log, own, who);
    PossibleMore(log, own, t);
    PositiveMade(c, who, log, all, own[0], c.outcome.value.answer);
  }
}
