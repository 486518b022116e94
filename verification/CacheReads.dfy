/** What a read of the cache returns and deletes, write by write. */
module CacheReads {
  import opened Sequences
  import opened Names
  import opened Records
  import opened Writes
  import opened CacheLog

  lemma {:induction false} LatestAt(log: seq<Event>, key: CacheKey, j: nat)
    requires j < |log| && Stores(log[j], key) && forall k :: j < k < |log| ==> !Stores(log[k], key)
    ensures Latest(log, key) == Some(NewEntry(log[j].write.rrs, log[j].stamp))
  {
    if j == |log| - 1 {
    } else {
      LatestAt(log[..|log| - 1], key, j);
    }
  }

  lemma {:induction false} LatestNXDomainAt(log: seq<Event>, nameKey: NameKey, j: nat)
    requires j < |log| && StoresNXDomain(log[j], nameKey)
    requires forall k :: j < k < |log| ==> !StoresNXDomain(log[k], nameKey)
    ensures LatestNXDomain(log, nameKey) == Some(log[j].stamp + log[j].write.ttl)
  {
    if j == |log| - 1 {
    } else {
      LatestNXDomainAt(log[..|log| - 1], nameKey, j);
    }
  }

  lemma {:induction false} LatestNoDataAt(log: seq<Event>, key: CacheKey, j: nat)
    requires j < |log| && StoresNoData(log[j], key) && forall k :: j < k < |log| ==> !StoresNoData(log[k], key)
    ensures LatestNoData(log, key) == Some(log[j].stamp + log[j].write.ttl)
  {
    if j == |log| - 1 {
    } else {
      LatestNoDataAt(log[..|log| - 1], key, j);
    }
  }

  lemma {:induction false} NeverWritten(log: seq<Event>, key: CacheKey)
    ensures (forall k :: 0 <= k < |log| ==> !Stores(log[k], key)) ==> Latest(log, key).None?
    ensures var nameKey := NameKey(key.name, key.qclass);
      (forall k :: 0 <= k < |log| ==> !StoresNXDomain(log[k], nameKey)) ==> LatestNXDomain(log, nameKey).None?
    ensures (forall k :: 0 <= k < |log| ==> !StoresNoData(log[k], key)) ==> LatestNoData(log, key).None?
  {
    if log == [] {
    } else {
      NeverWritten(log[..|log| - 1], key);
    }
  }

  /**
    A read of records returns what was last stored under exactly this spelling, type and class, until the TTL of
    any of the records has passed, in seconds, since the clock reading of that store.
    */
  lemma GetExact(log: seq<Event>, key: CacheKey, now: int, j: nat, rrs: seq<RR>)
    requires j < |log| && log[j].Wrote? && log[j].write == Put(key, rrs) && rrs != []
    requires forall k :: j < k < |log| && log[k].Wrote? && log[k].write.Put? && log[k].write.rrs != [] ==>
      log[k].write.key != key
    ensures SpecGet(log, key, now) ==
      if forall r :: r in rrs ==> now <= log[j].stamp + r.ttl * 1_000_000_000 then Some(rrs) else None
  {
    LatestAt(log, key, j);
    MinTtlIsLeast(rrs);
    assert NewEntry(rrs, log[j].stamp).expires == log[j].stamp + MinTtl(rrs) * 1_000_000_000;
  }

  /** Nothing stored, nothing returned. */
  lemma GetNothing(log: seq<Event>, key: CacheKey, now: int)
    requires forall k :: 0 <= k < |log| && log[k].Wrote? && log[k].write.Put? && log[k].write.rrs != [] ==>
      log[k].write.key != key
    ensures SpecGet(log, key, now) == None
  {
    NeverWritten(log, key);
  }

  /** The last denial of the name, at log[j], has not expired by now. */
  ghost predicate NXDomainLasts(log: seq<Event>, key: CacheKey, now: int, j: int) {
    && 0 <= j < |log| && log[j].Wrote? && log[j].write.PutNXDomain?
    && log[j].write.nameKey == NameKey(key.name, key.qclass) && now <= log[j].stamp + log[j].write.ttl
    && forall k :: j < k < |log| && log[k].Wrote? && log[k].write.PutNXDomain? ==>
         log[k].write.nameKey != NameKey(key.name, key.qclass)
  }

  /** The last denial of the type, at log[j], has not expired by now. */
  ghost predicate NoDataLasts(log: seq<Event>, key: CacheKey, now: int, j: int) {
    && 0 <= j < |log| && log[j].Wrote? && log[j].write.PutNoData?
    && log[j].write.key == key && now <= log[j].stamp + log[j].write.ttl
    && forall k :: j < k < |log| && log[k].Wrote? && log[k].write.PutNoData? ==> log[k].write.key != key
  }

  lemma NXDomainFound(log: seq<Event>, key: CacheKey, now: int)
    ensures var nx := LatestNXDomain(log, NameKey(key.name, key.qclass));
      nx.Some? && now <= nx.value <==> exists j :: NXDomainLasts(log, key, now, j)
  {
    var nameKey := NameKey(key.name, key.qclass);
    if LatestNXDomain(log, nameKey).Some? {
      var j := LatestNXDomainWritten(log, nameKey);
      assert now <= LatestNXDomain(log, nameKey).value ==> NXDomainLasts(log, key, now, j);
    }
    if j :| NXDomainLasts(log, key, now, j) {
      LatestNXDomainAt(log, nameKey, j);
    }
  }

  lemma NoDataFound(log: seq<Event>, key: CacheKey, now: int)
    ensures var nd := LatestNoData(log, key);
      nd.Some? && now <= nd.value <==> exists j :: NoDataLasts(log, key, now, j)
  {
    if LatestNoData(log, key).Some? {
      var j := LatestNoDataWritten(log, key);
      assert now <= LatestNoData(log, key).value ==> NoDataLasts(log, key, now, j);
    }
    if j :| NoDataLasts(log, key, now, j) {
      LatestNoDataAt(log, key, j);
    }
  }

  /** A read of denials returns NXDOMAIN, code 3, while that lasts for the name, else 0 while NODATA does. */
  lemma GetNegativeExact(log: seq<Event>, key: CacheKey, now: int)
    ensures SpecGetNegative(log, key, now) ==
      if exists j :: NXDomainLasts(log, key, now, j) then Some(3)
      else if exists j :: NoDataLasts(log, key, now, j) then Some(0)
      else None
  {
    NXDomainFound(log, key, now);
    NoDataFound(log, key, now);
  }

  /** A read of records deletes the entry it reads if that has expired, and nothing else. */
  lemma GetDropsExpired(s: State, key: CacheKey, now: int)
    ensures var s' := AfterGet(s, key, now);
      && s'.nxdomain == s.nxdomain && s'.nodata == s.nodata
      && (forall k :: k in s'.entries <==> k in s.entries && !(k == key && s.entries[k].expires < now))
      && forall k :: k in s'.entries ==> s'.entries[k] == s.entries[k]
  {
  }

  /** A read of denials deletes expired ones of the name and, unless the name is still denied, of the type. */
  lemma GetNegativeDropsExpired(s: State, key: CacheKey, now: int)
    ensures var s', nameKey := AfterGetNegative(s, key, now), NameKey(key.name, key.qclass);
      && s'.entries == s.entries
      && (forall k :: k in s'.nxdomain <==> k in s.nxdomain && !(k == nameKey && s.nxdomain[k] < now))
      && (forall k :: k in s'.nodata <==> k in s.nodata && !(k == key && s.nodata[k] < now && nameKey !in s'.nxdomain))
      && (forall k :: k in s'.nxdomain ==> s'.nxdomain[k] == s.nxdomain[k])
      && forall k :: k in s'.nodata ==> s'.nodata[k] == s.nodata[k]
  {
  }
}
