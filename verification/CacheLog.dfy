/**
  The cache as a function of its history. A history is a log of events, each with the clock while it
  held the mutex; a write also has the source that caused it and the clock reading its expiry is counted
  from. Exec replays the cache's own maps, which delete entries lazily; Spec answers from the log alone
  and never deletes.
  */
module CacheLog {
  import opened Sequences
  import opened Names
  import opened Records
  import opened Writes

  datatype Entry = Entry(rrs: seq<RR>, expires: int)

  datatype State = State(
    entries: map<CacheKey, Entry>,
    nxdomain: map<NameKey, int>,
    nodata: map<CacheKey, int>)

  const EMPTY: State := State(map[], map[], map[])

  /** who is the request that caused the event. */
  datatype Event =
    | Got(who: nat, key: CacheKey, now: int)
    | GotNegative(who: nat, key: CacheKey, now: int)
    | Wrote(who: nat, src: Source, write: Write, stamp: int, now: int)

  // ---- The maps ----

  function MinTtl(rrs: seq<RR>): U32
    requires rrs != []
  {
    if |rrs| == 1 then rrs[0].ttl
    else
      var m := MinTtl(rrs[..|rrs| - 1]);
      if rrs[|rrs| - 1].ttl < m then rrs[|rrs| - 1].ttl else m
  }

  /** MinTtl is the smallest TTL. */
  lemma {:induction false} MinTtlIsLeast(rrs: seq<RR>)
    requires rrs != []
    ensures forall r :: r in rrs ==> MinTtl(rrs) <= r.ttl
    ensures exists r :: r in rrs && r.ttl == MinTtl(rrs)
  {
    if |rrs| == 1 {
      assert rrs[0] in rrs;
    } else {
      MinTtlIsLeast(rrs[..|rrs| - 1]);
      assert rrs == rrs[..|rrs| - 1] + [rrs[|rrs| - 1]];
      var r :| r in rrs[..|rrs| - 1] && r.ttl == MinTtl(rrs[..|rrs| - 1]);
      assert r in rrs && rrs[|rrs| - 1] in rrs;
    }
  }

  function NewEntry(rrs: seq<RR>, stamp: int): Entry {
    Entry(rrs, stamp + if rrs == [] then 0 else MinTtl(rrs) * SECOND)
  }

  function AfterGet(s: State, key: CacheKey, now: int): State {
    if key in s.entries && now > s.entries[key].expires then s.(entries := s.entries - {key}) else s
  }

  function GetResult(s: State, key: CacheKey, now: int): Option<seq<RR>> {
    if key in s.entries && now <= s.entries[key].expires then Some(s.entries[key].rrs) else None
  }

  function AfterGetNegative(s: State, key: CacheKey, now: int): State {
    var nameKey := NameKey(key.name, key.qclass);
    if nameKey in s.nxdomain && now <= s.nxdomain[nameKey] then s
    else
      State(s.entries,
            if nameKey in s.nxdomain then s.nxdomain - {nameKey} else s.nxdomain,
            if key in s.nodata && now > s.nodata[key] then s.nodata - {key} else s.nodata)
  }

  function GetNegativeResult(s: State, key: CacheKey, now: int): Option<nat> {
    var nameKey := NameKey(key.name, key.qclass);
    if nameKey in s.nxdomain && now <= s.nxdomain[nameKey] then Some(RCODE_NAME_ERROR)
    else if key in s.nodata && now <= s.nodata[key] then Some(RCODE_SUCCESS)
    else None
  }

  function Apply(s: State, w: Write, stamp: int): State {
    match w
    case Put(key, rrs) => if rrs == [] then s else s.(entries := s.entries[key := NewEntry(rrs, stamp)])
    case PutNXDomain(nameKey, ttl) => s.(nxdomain := s.nxdomain[nameKey := stamp + ttl])
    case PutNoData(key, ttl) => s.(nodata := s.nodata[key := stamp + ttl])
  }

  function Step(s: State, e: Event): State {
    match e
    case Got(_, key, now) => AfterGet(s, key, now)
    case GotNegative(_, key, now) => AfterGetNegative(s, key, now)
    case Wrote(_, _, w, stamp, _) => Apply(s, w, stamp)
  }

  function Exec(log: seq<Event>): State {
    if log == [] then EMPTY else Step(Exec(log[..|log| - 1]), log[|log| - 1])
  }

  // ---- The log alone ----

  /** e stores records under key. */
  predicate Stores(e: Event, key: CacheKey) {
    e.Wrote? && e.write.Put? && e.write.key == key && e.write.rrs != []
  }

  predicate StoresNXDomain(e: Event, nameKey: NameKey) {
    e.Wrote? && e.write.PutNXDomain? && e.write.nameKey == nameKey
  }

  predicate StoresNoData(e: Event, key: CacheKey) {
    e.Wrote? && e.write.PutNoData? && e.write.key == key
  }

  /** The entry of the latest write under key. */
  function Latest(log: seq<Event>, key: CacheKey): Option<Entry> {
    if log == [] then None
    else
      var e := log[|log| - 1];
      if Stores(e, key) then Some(NewEntry(e.write.rrs, e.stamp))
      else Latest(log[..|log| - 1], key)
  }

  function LatestNXDomain(log: seq<Event>, nameKey: NameKey): Option<int> {
    if log == [] then None
    else
      var e := log[|log| - 1];
      if StoresNXDomain(e, nameKey) then Some(e.stamp + e.write.ttl)
      else LatestNXDomain(log[..|log| - 1], nameKey)
  }

  function LatestNoData(log: seq<Event>, key: CacheKey): Option<int> {
    if log == [] then None
    else
      var e := log[|log| - 1];
      if StoresNoData(e, key) then Some(e.stamp + e.write.ttl)
      else LatestNoData(log[..|log| - 1], key)
  }

  /** What a read of key at time now should see. */
  function SpecGet(log: seq<Event>, key: CacheKey, now: int): Option<seq<RR>> {
    var e := Latest(log, key);
    if e.Some? && now <= e.value.expires then Some(e.value.rrs) else None
  }

  /** NXDOMAIN speaks for every type, and before NODATA. */
  function SpecGetNegative(log: seq<Event>, key: CacheKey, now: int): Option<nat> {
    var nx, nd := LatestNXDomain(log, NameKey(key.name, key.qclass)), LatestNoData(log, key);
    if nx.Some? && now <= nx.value then Some(RCODE_NAME_ERROR)
    else if nd.Some? && now <= nd.value then Some(RCODE_SUCCESS)
    else None
  }

  // ---- Lazy deletion is unobservable ----

  /** All reads of the log happened by time now. Writes may carry any stamp. */
  ghost predicate ReadBy(log: seq<Event>, now: int) {
    forall e :: e in log && !e.Wrote? ==> e.now <= now
  }

  /** Read times do not decrease along the log. */
  ghost predicate WellTimed(log: seq<Event>) {
    forall i, j :: 0 <= i < j < |log| && !log[i].Wrote? && !log[j].Wrote? ==> log[i].now <= log[j].now
  }

  /** Some read happened after t. */
  ghost predicate ReadPast(log: seq<Event>, t: int) {
    exists e :: e in log && !e.Wrote? && t < e.now
  }

  ghost predicate EntryAgrees(log: seq<Event>, s: State, key: CacheKey) {
    if key in s.entries then Latest(log, key) == Some(s.entries[key])
    else Latest(log, key).Some? ==> ReadPast(log, Latest(log, key).value.expires)
  }

  ghost predicate NXDomainAgrees(log: seq<Event>, s: State, key: NameKey) {
    if key in s.nxdomain then LatestNXDomain(log, key) == Some(s.nxdomain[key])
    else LatestNXDomain(log, key).Some? ==> ReadPast(log, LatestNXDomain(log, key).value)
  }

  ghost predicate NoDataAgrees(log: seq<Event>, s: State, key: CacheKey) {
    if key in s.nodata then LatestNoData(log, key) == Some(s.nodata[key])
    else LatestNoData(log, key).Some? ==> ReadPast(log, LatestNoData(log, key).value)
  }

  /** What is cached is what was last written; what is gone had expired before some read. */
  ghost predicate Refines(log: seq<Event>, s: State) {
    && (forall key :: EntryAgrees(log, s, key))
    && (forall key :: NXDomainAgrees(log, s, key))
    && (forall key :: NoDataAgrees(log, s, key))
  }

  lemma ReadPastGrows(log: seq<Event>, e: Event, t: int)
    ensures ReadPast(log + [e], t) <==> ReadPast(log, t) || (!e.Wrote? && t < e.now)
  {
    if ReadPast(log, t) {
      var r :| r in log && !r.Wrote? && t < r.now;
      assert r in log + [e];
    }
    assert e in log + [e];
  }

  lemma LastOfLog(log: seq<Event>, e: Event)
    ensures (log + [e])[..|log|] == log && (log + [e])[|log|] == e
  {
  }

  lemma EntryStep(log: seq<Event>, s: State, e: Event, key: CacheKey)
    requires EntryAgrees(log, s, key)
    ensures EntryAgrees(log + [e], Step(s, e), key)
  {
    LastOfLog(log, e);
    if Latest(log, key).Some? {
      ReadPastGrows(log, e, Latest(log, key).value.expires);
    }
  }

  lemma NXDomainStep(log: seq<Event>, s: State, e: Event, key: NameKey)
    requires NXDomainAgrees(log, s, key)
    ensures NXDomainAgrees(log + [e], Step(s, e), key)
  {
    LastOfLog(log, e);
    if LatestNXDomain(log, key).Some? {
      ReadPastGrows(log, e, LatestNXDomain(log, key).value);
    }
  }

  lemma NoDataStep(log: seq<Event>, s: State, e: Event, key: CacheKey)
    requires NoDataAgrees(log, s, key)
    ensures NoDataAgrees(log + [e], Step(s, e), key)
  {
    LastOfLog(log, e);
    if LatestNoData(log, key).Some? {
      ReadPastGrows(log, e, LatestNoData(log, key).value);
    }
  }

  lemma StepRefines(log: seq<Event>, s: State, e: Event)
    requires Refines(log, s)
    ensures Refines(log + [e], Step(s, e))
  {
    forall key
      ensures EntryAgrees(log + [e], Step(s, e), key)
    {
      EntryStep(log, s, e, key);
    }
    forall key
      ensures NXDomainAgrees(log + [e], Step(s, e), key)
    {
      NXDomainStep(log, s, e, key);
    }
    forall key
      ensures NoDataAgrees(log + [e], Step(s, e), key)
    {
      NoDataStep(log, s, e, key);
    }
  }

  lemma {:induction false} ExecRefines(log: seq<Event>)
    ensures Refines(log, Exec(log))
  {
    if log == [] {
    } else {
      var front := log[..|log| - 1];
      ExecRefines(front);
      StepRefines(front, Exec(front), log[|log| - 1]);
      assert front + [log[|log| - 1]] == log;
    }
  }

  /**
    The cache refines its log: a read no earlier than the reads before it sees exactly what the latest
    writes dictate, whatever has been deleted meanwhile.
    */
  lemma ReadsFollowLog(log: seq<Event>, key: CacheKey, now: int)
    requires ReadBy(log, now)
    ensures GetResult(Exec(log), key, now) == SpecGet(log, key, now)
    ensures GetNegativeResult(Exec(log), key, now) == SpecGetNegative(log, key, now)
  {
    ExecRefines(log);
    var s := Exec(log);
    assert EntryAgrees(log, s, key);
    assert NXDomainAgrees(log, s, NameKey(key.name, key.qclass));
    assert NoDataAgrees(log, s, key);
  }

  /** Over a whole run: every read in a log with nondecreasing read times. */
  lemma EveryReadFollowsLog(log: seq<Event>, i: nat)
    requires WellTimed(log) && i < |log| && !log[i].Wrote?
    ensures var e := log[i];
      && GetResult(Exec(log[..i]), e.key, e.now) == SpecGet(log[..i], e.key, e.now)
      && GetNegativeResult(Exec(log[..i]), e.key, e.now) == SpecGetNegative(log[..i], e.key, e.now)
  {
    forall e | e in log[..i] && !e.Wrote?
      ensures e.now <= log[i].now
    {
      var j :| 0 <= j < i && log[..i][j] == e;
      assert log[j] == e;
    }
    ReadsFollowLog(log[..i], log[i].key, log[i].now);
  }

  // ---- Histories ----

  /** The clock never goes back along the log. */
  ghost predicate Timely(log: seq<Event>) {
    forall i, j :: 0 <= i < j < |log| ==> log[i].now <= log[j].now
  }

  ghost predicate HappenedBy(log: seq<Event>, now: int) {
    forall e :: e in log ==> e.now <= now
  }

  /**
    The expiry of a negative entry is counted from the clock at its store; that of a positive one from a
    reading made before the mutex was taken.
    */
  predicate Stamped(e: Event) {
    e.Wrote? ==> e.stamp <= e.now && (e.write.Put? || e.stamp == e.now)
  }

  ghost predicate AllStamped(log: seq<Event>) {
    forall e :: e in log ==> Stamped(e)
  }

  /** s is what remains of a history that can have happened by time now. */
  ghost predicate Consistent(s: State, log: seq<Event>, now: int) {
    s == Exec(log) && Timely(log) && HappenedBy(log, now) && AllStamped(log)
  }

  lemma Recorded(s: State, log: seq<Event>, e: Event, before: int, now: int)
    requires Consistent(s, log, before)
    requires before <= e.now <= now && Stamped(e)
    ensures Consistent(Step(s, e), log + [e], now)
  {
    assert (log + [e])[..|log|] == log;
  }

  lemma EntryRecorded(s: State, log: seq<Event>, who: nat, src: Source, key: CacheKey, rrs: seq<RR>,
                      stamp: int, now: int)
    requires Consistent(s, log, now) && rrs != [] && stamp <= now
    ensures Consistent(State(s.entries[key := NewEntry(rrs, stamp)], s.nxdomain, s.nodata),
                       log + [Wrote(who, src, Put(key, rrs), stamp, now)], now)
  {
    Recorded(s, log, Wrote(who, src, Put(key, rrs), stamp, now), now, now);
  }

  lemma NXDomainRecorded(s: State, log: seq<Event>, who: nat, src: Source, key: NameKey, ttl: int,
                         before: int, now: int)
    requires Consistent(s, log, before) && before <= now
    ensures Consistent(State(s.entries, s.nxdomain[key := now + ttl], s.nodata),
                       log + [Wrote(who, src, PutNXDomain(key, ttl), now, now)], now)
  {
    Recorded(s, log, Wrote(who, src, PutNXDomain(key, ttl), now, now), before, now);
  }

  lemma NoDataRecorded(s: State, log: seq<Event>, who: nat, src: Source, key: CacheKey, ttl: int, before: int, now: int)
    requires Consistent(s, log, before) && before <= now
    ensures Consistent(State(s.entries, s.nxdomain, s.nodata[key := now + ttl]),
                       log + [Wrote(who, src, PutNoData(key, ttl), now, now)], now)
  {
    Recorded(s, log, Wrote(who, src, PutNoData(key, ttl), now, now), before, now);
  }

  // ---- Where a served entry comes from ----

  /** The latest write under key, located in the log. */
  lemma {:induction false} LatestWritten(log: seq<Event>, key: CacheKey) returns (j: nat)
    requires Latest(log, key).Some?
    ensures j < |log| && Stores(log[j], key)
    ensures Latest(log, key) == Some(NewEntry(log[j].write.rrs, log[j].stamp))
    ensures forall k :: j < k < |log| ==> !Stores(log[k], key)
  {
    if Stores(log[|log| - 1], key) {
      j := |log| - 1;
    } else {
      j := LatestWritten(log[..|log| - 1], key);
    }
  }

  lemma {:induction false} LatestNXDomainWritten(log: seq<Event>, nameKey: NameKey) returns (j: nat)
    requires LatestNXDomain(log, nameKey).Some?
    ensures j < |log| && StoresNXDomain(log[j], nameKey)
    ensures LatestNXDomain(log, nameKey) == Some(log[j].stamp + log[j].write.ttl)
    ensures forall k :: j < k < |log| ==> !StoresNXDomain(log[k], nameKey)
  {
    if StoresNXDomain(log[|log| - 1], nameKey) {
      j := |log| - 1;
    } else {
      j := LatestNXDomainWritten(log[..|log| - 1], nameKey);
    }
  }

  lemma {:induction false} LatestNoDataWritten(log: seq<Event>, key: CacheKey) returns (j: nat)
    requires LatestNoData(log, key).Some?
    ensures j < |log| && StoresNoData(log[j], key)
    ensures LatestNoData(log, key) == Some(log[j].stamp + log[j].write.ttl)
    ensures forall k :: j < k < |log| ==> !StoresNoData(log[k], key)
  {
    if StoresNoData(log[|log| - 1], key) {
      j := |log| - 1;
    } else {
      j := LatestNoDataWritten(log[..|log| - 1], key);
    }
  }

  ghost predicate Legit(e: Event) {
    e.Wrote? ==> LegitWrite(e.src, e.write)
  }

  ghost predicate LegitLog(log: seq<Event>) {
    forall e :: e in log ==> Legit(e)
  }

  /**
    In every interleaving of reads and of writes caused by replies: a hit is the latest write under its
    key, all its owners are inside the zone that write's server was trusted for, and it is not served
    later than its smallest TTL after the clock at its store.
    */
  lemma HitsAreInZoneAndFresh(s: State, log: seq<Event>, clock: int, key: CacheKey, now: int) returns (j: nat)
    requires Consistent(s, log, clock) && LegitLog(log)
    requires GetResult(s, key, now).Some?
    ensures j < |log| && Stores(log[j], key) && log[j].write.rrs == GetResult(s, key, now).value
    ensures forall k :: j < k < |log| ==> !Stores(log[k], key)
    ensures log[j].stamp <= log[j].now <= clock
    ensures forall k :: j < k < |log| ==> log[j].now <= log[k].now
    ensures forall r :: r in log[j].write.rrs ==>
      IsSubDomain(log[j].src.zone, r.owner) && now <= log[j].stamp + r.ttl * SECOND <= log[j].now + r.ttl * SECOND
  {
    ExecRefines(log);
    assert EntryAgrees(log, s, key);
    j := LatestWritten(log, key);
    assert Legit(log[j]) && Stamped(log[j]);
    MinTtlIsLeast(log[j].write.rrs);
    forall r | r in log[j].write.rrs
      ensures IsSubDomain(log[j].src.zone, r.owner) && now <= log[j].stamp + r.ttl * SECOND
    {
      LegitPutInZone(log[j].src, log[j].write, r);
    }
  }

  /** e stores a negative answer to questions for key: with NXDOMAIN for its name, or with NODATA for its type. */
  predicate Denies(e: Event, key: CacheKey, rcode: nat) {
    if rcode == RCODE_NAME_ERROR then StoresNXDomain(e, NameKey(key.name, key.qclass)) else StoresNoData(e, key)
  }

  /**
    A negative hit comes from a reply that said NXDOMAIN to a question for that very name, or NODATA to
    that very question, and it is not served later than the negative TTL of that reply after its store.
    */
  lemma NegativeHitsAreFresh(s: State, log: seq<Event>, clock: int, key: CacheKey, now: int) returns (j: nat)
    requires Consistent(s, log, clock) && LegitLog(log)
    requires GetNegativeResult(s, key, now).Some?
    ensures var rcode := GetNegativeResult(s, key, now).value;
      && j < |log| && Denies(log[j], key, rcode) && (forall k :: j < k < |log| ==> !Denies(log[k], key, rcode))
      && Denied(log[j].src, key, rcode)
    ensures log[j].stamp == log[j].now <= clock
    ensures now <= log[j].now + NegativeTtl(log[j].src.zone, log[j].src.reply.ns)
  {
    ExecRefines(log);
    var rcode := GetNegativeResult(s, key, now).value;
    if rcode == RCODE_NAME_ERROR {
      assert NXDomainAgrees(log, s, NameKey(key.name, key.qclass));
      j := LatestNXDomainWritten(log, NameKey(key.name, key.qclass));
    } else {
      assert NoDataAgrees(log, s, key);
      j := LatestNoDataWritten(log, key);
    }
    assert Legit(log[j]) && Stamped(log[j]);
    assert log[j].write in NegativeWrites(log[j].src);
  }

  // ---- Glue in any order ----

  function ApplyAll(s: State, ws: seq<Write>, stamp: int): State {
    if ws == [] then s else Apply(ApplyAll(s, ws[..|ws| - 1], stamp), ws[|ws| - 1], stamp)
  }

  lemma {:induction false} GlueApplied(s: State, rrs: seq<RR>, order: seq<NameType>, stamp: int, key: CacheKey)
    requires forall g :: g in order ==> Group(rrs, g) != []
    ensures var s', g := ApplyAll(s, GlueWrites(rrs, order), stamp), NameType(key.name, key.qtype);
      && s'.nxdomain == s.nxdomain && s'.nodata == s.nodata
      && if key.qclass == CLASS_INET && g in order then
           key in s'.entries && s'.entries[key] == NewEntry(Group(rrs, g), stamp)
         else
           (key in s'.entries <==> key in s.entries) && (key in s.entries ==> s'.entries[key] == s.entries[key])
  {
    var ws := GlueWrites(rrs, order);
    if order == [] {
    } else {
      var front, last := order[..|order| - 1], order[|order| - 1];
      assert order == front + [last];
      assert ws[..|ws| - 1] == GlueWrites(rrs, front);
      GlueApplied(s, rrs, front, stamp, key);
    }
  }

  /** The order in which a map iteration yields the glue groups does not show in the cache. */
  lemma GlueOrderIrrelevant(s: State, rrs: seq<RR>, a: seq<NameType>, b: seq<NameType>, stamp: int)
    requires Listing(a, rrs) && Listing(b, rrs)
    ensures ApplyAll(s, GlueWrites(rrs, a), stamp) == ApplyAll(s, GlueWrites(rrs, b), stamp)
  {
    forall g | g in a
      ensures Group(rrs, g) != []
    {
      FilterEmpty(rrs, InGroup(g));
    }
    var sa, sb := ApplyAll(s, GlueWrites(rrs, a), stamp), ApplyAll(s, GlueWrites(rrs, b), stamp);
    forall key
      ensures key in sa.entries <==> key in sb.entries
      ensures key in sa.entries ==> sa.entries[key] == sb.entries[key]
      ensures sa.nxdomain == sb.nxdomain && sa.nodata == sb.nodata
    {
      GlueApplied(s, rrs, a, stamp, key);
      GlueApplied(s, rrs, b, stamp, key);
    }
    GlueApplied(s, rrs, a, stamp, CacheKey(Empty, 0, 0));
    GlueApplied(s, rrs, b, stamp, CacheKey(Empty, 0, 0));
    assert sa.entries == sb.entries;
  }
}
