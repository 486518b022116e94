/**
  The record cache shared by all requests. Its ghost log is the history of the operations performed on
  it, in the order in which they held its mutex.
  */
module Cache {
  import opened Sequences
  import opened Names
  import opened Records
  import opened Writes
  import opened CacheLog
  import opened Bailiwick

  function By(who: nat): Event -> bool {
    (e: Event) => e.who == who
  }

  /** Every number names a request. */
  predicate Someone(who: nat) {
    true
  }

  /** The events of one request. */
  function Own(log: seq<Event>, who: nat): seq<Event> {
    Filter(log, By(who))
  }

  /** Legitimate operations of requests other than me. */
  ghost predicate OthersOnly(events: seq<Event>, me: nat) {
    forall e :: e in events ==> e.who != me && Legit(e)
  }

  class Cache {
    var entries: map<CacheKey, Entry>
    var nxdomain: map<NameKey, int>
    var nodata: map<CacheKey, int>
    /** The wall clock. */
    var now: int
    ghost var log: seq<Event>

    ghost function Contents(): State
      reads this
    {
      State(entries, nxdomain, nodata)
    }

    /** The maps are what a replay of the log leaves, and its reads are in time order. */
    ghost predicate Valid()
      reads this
    {
      Consistent(Contents(), log, now)
    }

    /** One more operation, performed at some time between then and now. */
    twostate predicate Performed(e: Event)
      reads this
    {
      log == old(log) + [e] && old(now) <= e.now <= now && Valid()
    }

    constructor (start: int)
      ensures Valid() && log == [] && now == start
    {
      entries, nxdomain, nodata := map[], map[], map[];
      now := start;
      log := [];
    }

    /** Time passes between any two readings. */
    method ReadClock() returns (t: int)
      modifies `now
      ensures t == now && now >= old(now)
    {
      var later: int := *;
      if later > now {
        now := later;
      }
      t := now;
    }

    /** The hit a read of key would see is what the log dictates. */
    method Get(ghost who: nat, name: Name, qtype: U16, qclass: U16) returns (hit: Option<seq<RR>>)
      requires Valid()
      modifies this
      ensures Performed(Got(who, CacheKey(name, qtype, qclass), now))
      ensures hit == SpecGet(old(log), CacheKey(name, qtype, qclass), now)
    {
      var key := CacheKey(name, qtype, qclass);
      var t := ReadClock();
      ReadsFollowLog(log, key, t);
      Recorded(Contents(), log, Got(who, key, t), old(now), t);
      log := log + [Got(who, key, t)];
      if key !in entries {
        return None;
      }
      if t > entries[key].expires {
        entries := entries - {key};
        return None;
      }
      return Some(entries[key].rrs);
    }

    /** The negative answer at time t, and what is left of the two negative maps. */
    method DropExpiredNegative(typeKey: CacheKey, nameKey: NameKey, t: int) returns (rcode: Option<nat>)
      requires nameKey == NameKey(typeKey.name, typeKey.qclass)
      modifies `nxdomain, `nodata
      ensures Contents() == AfterGetNegative(old(Contents()), typeKey, t)
      ensures rcode == GetNegativeResult(old(Contents()), typeKey, t)
    {
      if nameKey in nxdomain {
        if t > nxdomain[nameKey] {
          nxdomain := nxdomain - {nameKey};
        } else {
          return Some(RCODE_NAME_ERROR);
        }
      }
      if typeKey in nodata {
        if t > nodata[typeKey] {
          nodata := nodata - {typeKey};
        } else {
          return Some(RCODE_SUCCESS);
        }
      }
      return None;
    }

    method GetNegative(ghost who: nat, name: Name, qtype: U16, qclass: U16) returns (rcode: Option<nat>)
      requires Valid()
      modifies this
      ensures Performed(GotNegative(who, CacheKey(name, qtype, qclass), now))
      ensures rcode == SpecGetNegative(old(log), CacheKey(name, qtype, qclass), now)
    {
      var nameKey := NameKey(name, qclass);
      var typeKey := CacheKey(name, qtype, qclass);
      var t := ReadClock();
      ReadsFollowLog(log, typeKey, t);
      Recorded(Contents(), log, GotNegative(who, typeKey, t), old(now), t);
      log := log + [GotNegative(who, typeKey, t)];
      rcode := DropExpiredNegative(typeKey, nameKey, t);
    }

    /** The clock is read before the mutex is taken, so stamp may be older than the latest read. */
    method Store(ghost who: nat, ghost src: Source, key: CacheKey, rrs: seq<RR>, expires: int, ghost stamp: int)
      requires Valid()
      requires rrs != [] && stamp <= now
      requires expires == stamp + MinTtl(rrs) * SECOND
      modifies this
      ensures now == old(now) && Performed(Wrote(who, src, Put(key, rrs), stamp, now))
    {
      EntryRecorded(Contents(), log, who, src, key, rrs, stamp, now);
      log := log + [Wrote(who, src, Put(key, rrs), stamp, now)];
      entries := entries[key := Entry(rrs, expires)];
    }

    /** Deny name at every type until ttl has passed from the present. */
    method SetNXDomain(ghost who: nat, ghost src: Source, name: Name, qclass: U16, ttl: int)
      requires Valid()
      modifies this
      ensures Performed(Wrote(who, src, PutNXDomain(NameKey(name, qclass), ttl), now, now))
    {
      var key := NameKey(name, qclass);
      var t := ReadClock();
      ghost var e := Wrote(who, src, PutNXDomain(key, ttl), t, t);
      NXDomainRecorded(Contents(), log, who, src, key, ttl, old(now), t);
      log := log + [e];
      nxdomain := nxdomain[key := t + ttl];
    }

    /** Deny name at one type until ttl has passed from the present. */
    method SetNoData(ghost who: nat, ghost src: Source, name: Name, qtype: U16, qclass: U16, ttl: int)
      requires Valid()
      modifies this
      ensures Performed(Wrote(who, src, PutNoData(CacheKey(name, qtype, qclass), ttl), now, now))
    {
      var key := CacheKey(name, qtype, qclass);
      var t := ReadClock();
      ghost var e := Wrote(who, src, PutNoData(key, ttl), t, t);
      NoDataRecorded(Contents(), log, who, src, key, ttl, old(now), t);
      log := log + [e];
      nodata := nodata[key := t + ttl];
    }

    /** The store another request makes, with whatever clock reading in the past it started from. */
    method OtherStore(ghost who: nat, ghost src: Source, key: CacheKey, rrs: seq<RR>) returns (ghost e: Event)
      requires Valid()
      requires rrs != [] && LegitWrite(src, Put(key, rrs))
      modifies this
      ensures Performed(e) && e.who == who && Legit(e)
    {
      var stamp: int := *;
      if stamp > now {
        stamp := now;
      }
      var expires := NewEntry(rrs, stamp).expires;
      Store(who, src, key, rrs, expires, stamp);
      e := Wrote(who, src, Put(key, rrs), stamp, now);
    }

    /** One write of another request that some server has answered, trusted for some zone. */
    method OtherReply(ghost who: nat, name: Name, qtype: U16) returns (ghost e: Event)
      requires Valid() && name.Fq?
      modifies this
      ensures Performed(e) && e.who == who && Legit(e)
    {
      var zone: Name, reply: Reply, group: NameType := *, *, *;
      zone := Fqdn(zone);
      ghost var src := Source(zone, name, qtype, reply);
      var answer, ns, extra, cut := FilterInBailiwick(zone, name, reply.answer, reply.ns, reply.extra);
      var glue := GroupByNameType(extra);
      var choice: int := *;
      if choice == 0 && reply.rcode == RCODE_SUCCESS && answer != [] {
        e := OtherStore(who, src, CacheKey(name, qtype, CLASS_INET), answer);
      } else if choice == 1 && ns != [] {
        e := OtherStore(who, src, CacheKey(cut, TYPE_NS, CLASS_INET), ns);
      } else if choice == 2 && group in glue {
        e := OtherStore(who, src, CacheKey(group.name, group.qtype, CLASS_INET), glue[group]);
      } else if reply.rcode == RCODE_NAME_ERROR {
        var ttl := NegativeTTL(zone, reply.ns);
        SetNXDomain(who, src, name, CLASS_INET, ttl);
        e := Wrote(who, src, PutNXDomain(NameKey(name, CLASS_INET), ttl), now, now);
      } else if IsNoData(reply, answer) {
        var ttl := NegativeTTL(zone, reply.ns);
        SetNoData(who, src, name, qtype, CLASS_INET, ttl);
        e := Wrote(who, src, PutNoData(CacheKey(name, qtype, CLASS_INET), ttl), now, now);
      } else {
        var _ := Get(who, name, qtype, CLASS_INET);
        e := Got(who, CacheKey(name, qtype, CLASS_INET), now);
      }
    }

    /** One operation by some other request: a read, or a write caused by an arbitrary reply. */
    method Other(ghost me: nat) returns (ghost e: Event)
      requires Valid()
      modifies this
      ensures Performed(e) && e.who != me && Legit(e)
    {
      assert Someone(me + 1);
      ghost var who: nat :| Someone(who) && who != me;
      var choice: int := *;
      var name: Name, qtype: U16 := *, *;
      if choice == 0 {
        var _ := Get(who, name, qtype, CLASS_INET);
        return Got(who, CacheKey(name, qtype, CLASS_INET), now);
      } else if choice == 1 {
        var _ := GetNegative(who, name, qtype, CLASS_INET);
        return GotNegative(who, CacheKey(name, qtype, CLASS_INET), now);
      } else {
        e := OtherReply(who, Fqdn(name), qtype);
      }
    }

    /** Any number of operations by other requests, each one legitimate, in any order. */
    method Others(ghost me: nat) returns (ghost others: seq<Event>)
      requires Valid()
      modifies this
      ensures Valid() && now >= old(now)
      ensures log == old(log) + others && OthersOnly(others, me)
    {
      others := [];
      var steps: int := *;
      while steps > 0
        invariant Valid() && now >= old(now)
        invariant log == old(log) + others && OthersOnly(others, me)
      {
        ghost var e := Other(me);
        others := others + [e];
        steps := steps - 1;
      }
    }

    /**
      Store rrs until the smallest of their TTLs has passed since a reading of the clock made during the
      call. Between that reading and the store, other requests may use the cache, and time may pass.
      */
    method Set(ghost who: nat, ghost src: Source, name: Name, qtype: U16, qclass: U16, rrs: seq<RR>)
      returns (ghost others: seq<Event>, ghost stamp: int)
      requires Valid()
      modifies this
      ensures Valid() && old(now) <= stamp <= now
      ensures OthersOnly(others, who)
      ensures log == old(log) + others +
        if rrs == [] then [] else [Wrote(who, src, Put(CacheKey(name, qtype, qclass), rrs), stamp, now)]
    {
      if |rrs| == 0 {
        return [], now;
      }
      var ttl := rrs[0].ttl;
      for i := 1 to |rrs|
        invariant ttl == MinTtl(rrs[..i])
      {
        if rrs[i].ttl < ttl {
          ttl := rrs[i].ttl;
        }
        assert rrs[..i + 1][..i] == rrs[..i];
      }
      assert rrs[..|rrs|] == rrs;
      var t := ReadClock();
      stamp := t;
      others := Others(who);
      var _ := ReadClock();
      Store(who, src, CacheKey(name, qtype, qclass), rrs, t + ttl * SECOND, t);
    }
  }
}
