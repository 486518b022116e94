/**
  Least-recently-used eviction as a function on the list of stored records, most recent first, and what
  it means over whole runs of operations.
  */
module Lru {
  import opened Sequences

  type Id = string

  datatype TraceRecord = TraceRecord(
    id: Id, name: string, qtype: string, rcode: string, outcome: string,
    client: string, protocol: string, durationMs: int, createdAt: int, trace: seq<string>)

  datatype Item = Item(id: Id, record: TraceRecord)

  datatype Op = Put(id: Id, record: TraceRecord) | Get(id: Id)

  predicate Has(s: seq<Item>, id: Id) {
    exists x :: x in s && x.id == id
  }

  function Other(id: Id): Item -> bool {
    (x: Item) => x.id != id
  }

  function Same(id: Id): Item -> bool {
    (x: Item) => x.id == id
  }

  function Remove(s: seq<Item>, id: Id): seq<Item> {
    Filter(s, Other(id))
  }

  function Take(s: seq<Item>, n: nat): seq<Item> {
    if |s| <= n then s else s[..n]
  }

  /** The list after one operation. */
  function After(capacity: nat, s: seq<Item>, op: Op): seq<Item> {
    match op
    case Put(id, record) => Take([Item(id, record)] + s, capacity)
    case Get(id) => if Has(s, id) then Filter(s, Same(id)) + Remove(s, id) else s
  }

  /** The list after a whole run. */
  function Run(capacity: nat, ops: seq<Op>): seq<Item> {
    if ops == [] then [] else After(capacity, Run(capacity, ops[..|ops| - 1]), ops[|ops| - 1])
  }

  lemma RunMore(capacity: nat, ops: seq<Op>, op: Op)
    ensures Run(capacity, ops + [op]) == After(capacity, Run(capacity, ops), op)
  {
    assert (ops + [op])[..|ops|] == ops;
  }

  /** No id is put twice. */
  predicate FreshIds(ops: seq<Op>) {
    forall i, j :: 0 <= i < j < |ops| && ops[i].Put? && ops[j].Put? ==> ops[i].id != ops[j].id
  }

  predicate WasPut(ops: seq<Op>, id: Id) {
    exists op :: op in ops && op.Put? && op.id == id
  }

  /** The last operation of the run used id: it put it, or got it successfully. */
  predicate LastTouches(capacity: nat, ops: seq<Op>, id: Id)
    requires ops != []
  {
    var op := ops[|ops| - 1];
    op.id == id && (op.Put? || Has(Run(capacity, ops[..|ops| - 1]), id))
  }

  /** The other ids used since id itself was last used. */
  function UsedSince(capacity: nat, ops: seq<Op>, id: Id): set<Id> {
    if ops == [] || LastTouches(capacity, ops, id) then {}
    else
      var last := ops[|ops| - 1].id;
      UsedSince(capacity, ops[..|ops| - 1], id) + if LastTouches(capacity, ops, last) then {last} else {}
  }

  // ---- Lists without repeated ids ----

  predicate DistinctIds(s: seq<Item>) {
    forall i, j :: 0 <= i < j < |s| ==> s[i].id != s[j].id
  }

  lemma {:induction false} RemoveDistinct(s: seq<Item>, id: Id)
    requires DistinctIds(s)
    ensures DistinctIds(Remove(s, id)) && !Has(Remove(s, id), id)
  {
    FilterMembers(s, Other(id));
    if s == [] {
    } else {
      var front := s[..|s| - 1];
      RemoveDistinct(front, id);
      FilterMembers(front, Other(id));
      assert s == front + [s[|s| - 1]];
      forall i, j | 0 <= i < j < |Remove(s, id)|
        ensures Remove(s, id)[i].id != Remove(s, id)[j].id
      {
        var last := s[|s| - 1];
        if j == |Remove(front, id)| {
          var x := Remove(front, id)[i];
          assert x in Remove(front, id);
          var k :| 0 <= k < |front| && front[k] == x;
          assert s[k] == x;
        }
      }
    }
  }

  lemma DistinctFront(s: seq<Item>)
    requires DistinctIds(s) && s != []
    ensures DistinctIds(s[..|s| - 1]) && !Has(s[..|s| - 1], s[|s| - 1].id)
  {
    var front := s[..|s| - 1];
    forall x | x in front
      ensures x.id != s[|s| - 1].id
    {
      var k :| 0 <= k < |front| && front[k] == x;
      assert s[k] == x;
    }
  }

  /** The one item with id, alone. */
  lemma {:induction false} SameSingle(s: seq<Item>, id: Id)
    requires DistinctIds(s) && Has(s, id)
    ensures |Filter(s, Same(id))| == 1 && Filter(s, Same(id))[0] in s && Filter(s, Same(id))[0].id == id
    ensures |Remove(s, id)| == |s| - 1
  {
    var front, last := s[..|s| - 1], s[|s| - 1];
    DistinctFront(s);
    assert s == front + [last];
    if last.id == id {
      FilterEmpty(front, Same(id));
      FilterAll(front, Other(id));
    } else {
      SameSingle(front, id);
    }
  }

  lemma FrontDistinct(x: Item, s: seq<Item>)
    requires DistinctIds(s) && !Has(s, x.id)
    ensures DistinctIds([x] + s)
  {
    forall i, j | 0 <= i < j < |[x] + s|
      ensures ([x] + s)[i].id != ([x] + s)[j].id
    {
      assert s[j - 1] in s;
    }
  }

  lemma AfterDistinct(capacity: nat, s: seq<Item>, op: Op)
    requires DistinctIds(s) && (op.Put? ==> !Has(s, op.id))
    ensures DistinctIds(After(capacity, s, op))
  {
    if op.Put? {
      FrontDistinct(Item(op.id, op.record), s);
    } else if Has(s, op.id) {
      SameSingle(s, op.id);
      RemoveDistinct(s, op.id);
      FrontDistinct(Filter(s, Same(op.id))[0], Remove(s, op.id));
      assert Filter(s, Same(op.id)) == [Filter(s, Same(op.id))[0]];
    }
  }

  /** An operation stores nothing but what it puts. */
  lemma AfterMembers(capacity: nat, s: seq<Item>, op: Op)
    ensures forall x :: x in After(capacity, s, op) ==> x in s || (op.Put? && x == Item(op.id, op.record))
    ensures op.Get? ==> forall x :: x in s ==> x in After(capacity, s, op)
  {
    FilterMembers(s, Same(op.id));
    FilterMembers(s, Other(op.id));
  }

  /** Only what was put is stored. */
  lemma {:induction false} StoredWasPut(capacity: nat, ops: seq<Op>, id: Id)
    requires Has(Run(capacity, ops), id)
    ensures WasPut(ops, id)
  {
    if ops == [] {
    } else {
      var front, op := ops[..|ops| - 1], ops[|ops| - 1];
      var s := Run(capacity, front);
      assert ops == front + [op];
      assert op in ops;
      if !(op.Put? && op.id == id) {
        AfterMembers(capacity, s, op);
        StoredWasPut(capacity, front, id);
      }
    }
  }

  /** What is stored under an id is a record that was put under it. */
  lemma {:induction false} StoredRecord(capacity: nat, ops: seq<Op>, x: Item)
    requires x in Run(capacity, ops)
    ensures Put(x.id, x.record) in ops
  {
    if ops == [] {
    } else {
      var front, op := ops[..|ops| - 1], ops[|ops| - 1];
      assert ops == front + [op];
      AfterMembers(capacity, Run(capacity, front), op);
      if x in Run(capacity, front) {
        StoredRecord(capacity, front, x);
      }
    }
  }

  lemma FreshPrefix(ops: seq<Op>)
    requires FreshIds(ops) && ops != []
    ensures FreshIds(ops[..|ops| - 1])
    ensures ops[|ops| - 1].Put? ==> !WasPut(ops[..|ops| - 1], ops[|ops| - 1].id)
  {
    var front, last := ops[..|ops| - 1], ops[|ops| - 1];
    if last.Put? {
      forall op | op in front && op.Put?
        ensures op.id != last.id
      {
        var i :| 0 <= i < |front| && front[i] == op;
        assert ops[i] == op;
      }
    }
  }

  lemma {:induction false} RunDistinct(capacity: nat, ops: seq<Op>)
    requires FreshIds(ops)
    ensures DistinctIds(Run(capacity, ops)) && |Run(capacity, ops)| <= capacity
  {
    if ops == [] {
    } else {
      var front, op := ops[..|ops| - 1], ops[|ops| - 1];
      var s := Run(capacity, front);
      FreshPrefix(ops);
      RunDistinct(capacity, front);
      if op.Put? && Has(s, op.id) {
        StoredWasPut(capacity, front, op.id);
      }
      AfterDistinct(capacity, s, op);
      if op.Get? && Has(s, op.id) {
        SameSingle(s, op.id);
      }
    }
  }

  // ---- Exactly LRU ----

  /** The list of all ids ever used, most recent first, as if nothing were ever evicted. */
  function Recency(capacity: nat, ops: seq<Op>): seq<Item> {
    if ops == [] then []
    else
      var front, op := ops[..|ops| - 1], ops[|ops| - 1];
      var r := Recency(capacity, front);
      match op
      case Put(id, record) => [Item(id, record)] + r
      case Get(id) => if Has(Run(capacity, front), id) then Filter(r, Same(id)) + Remove(r, id) else r
  }

  /** The ids in front of id. */
  function Ahead(s: seq<Item>, id: Id): set<Id> {
    if s == [] || s[0].id == id then {} else {s[0].id} + Ahead(s[1..], id)
  }

  lemma {:induction false} AheadRemove(s: seq<Item>, id: Id, other: Id)
    requires id != other && DistinctIds(s)
    ensures Ahead(Remove(s, other), id) + {other} == Ahead(s, id) + {other}
  {
    if s == [] {
    } else {
      assert s == [s[0]] + s[1..];
      FilterAppend([s[0]], s[1..], Other(other));
      AheadRemove(s[1..], id, other);
      if s[0].id != other {
        assert Remove(s, other) == [s[0]] + Remove(s[1..], other);
      } else {
        assert Remove(s, other) == Remove(s[1..], other);
      }
    }
  }

  lemma {:induction false} AheadWithin(s: seq<Item>, id: Id, x: Id)
    requires forall y :: y in s ==> y.id != x
    ensures x !in Ahead(s, id)
  {
    if s == [] {
    } else {
      assert s == [s[0]] + s[1..];
      AheadWithin(s[1..], id, x);
    }
  }

  /** In a list without repetitions, the ids ahead count the position. */
  lemma {:induction false} AheadCounts(s: seq<Item>, id: Id, n: nat)
    requires DistinctIds(s) && Has(s, id)
    ensures Has(Take(s, n), id) <==> |Ahead(s, id)| < n
  {
    assert s == [s[0]] + s[1..];
    if s[0].id == id {
      if n > 0 {
        assert Take(s, n)[0] == s[0];
      } else {
        assert Take(s, n) == [];
      }
    } else {
      var rest := s[1..];
      assert Has(rest, id);
      if n > 0 {
        AheadCounts(rest, id, n - 1);
        assert Take(s, n) == [s[0]] + Take(rest, n - 1);
        AheadWithin(rest, id, s[0].id);
        assert |Ahead(s, id)| == |Ahead(rest, id)| + 1;
      } else {
        assert Take(s, n) == [];
      }
    }
  }

  /** What the untruncated list knows: the store is its front, and what is ahead of an id was used since. */
  ghost predicate Remembers(capacity: nat, ops: seq<Op>, r: seq<Item>) {
    && DistinctIds(r)
    && Run(capacity, ops) == Take(r, capacity)
    && (forall id :: Has(r, id) <==> WasPut(ops, id))
    && (forall id :: Has(r, id) ==> Ahead(r, id) == UsedSince(capacity, ops, id))
  }

  lemma RestUntouched(s: seq<Item>, rest: seq<Item>, id: Id)
    requires DistinctIds(s + rest) && Has(s, id)
    ensures Filter(rest, Same(id)) == [] && Remove(rest, id) == rest
  {
    var x :| x in s && x.id == id;
    var i :| 0 <= i < |s| && s[i] == x;
    forall y | y in rest
      ensures y.id != id
    {
      var k :| 0 <= k < |rest| && rest[k] == y;
      assert (s + rest)[|s| + k] == y && (s + rest)[i] == x;
    }
    FilterEmpty(rest, Same(id));
    FilterAll(rest, Other(id));
  }

  lemma TakeAppend(a: seq<Item>, b: seq<Item>, n: nat)
    requires |a| <= n && (b != [] ==> |a| == n)
    ensures Take(a + b, n) == a
  {
  }

  /** Moving an item of the front to the front of it all. */
  lemma TouchTake(r: seq<Item>, n: nat, id: Id)
    requires DistinctIds(r) && Has(Take(r, n), id)
    ensures Take(Filter(r, Same(id)) + Remove(r, id), n) == Filter(Take(r, n), Same(id)) + Remove(Take(r, n), id)
  {
    var s := Take(r, n);
    var rest := r[|s|..];
    assert r == s + rest;
    FilterAppend(s, rest, Same(id));
    FilterAppend(s, rest, Other(id));
    RestUntouched(s, rest, id);
    SameSingle(s, id);
    var moved := Filter(s, Same(id)) + Remove(s, id);
    Associative(Filter(s, Same(id)), Remove(s, id), rest);
    assert Filter(r, Same(id)) == Filter(s, Same(id)) + [] == Filter(s, Same(id));
    TakeAppend(moved, rest, n);
  }

  lemma TakePut(r: seq<Item>, x: Item, n: nat)
    ensures Take([x] + r, n) == Take([x] + Take(r, n), n)
  {
  }

  lemma WasPutMore(ops: seq<Op>, op: Op, id: Id)
    ensures WasPut(ops + [op], id) <==> WasPut(ops, id) || (op.Put? && op.id == id)
  {
    if WasPut(ops, id) {
      var o :| o in ops && o.Put? && o.id == id;
      assert o in ops + [op];
    }
    assert op in ops + [op];
  }

  lemma UsedMore(capacity: nat, ops: seq<Op>, op: Op, id: Id)
    requires op.Put? || Has(Run(capacity, ops), op.id)
    ensures UsedSince(capacity, ops + [op], id) == if op.id == id then {} else UsedSince(capacity, ops, id) + {op.id}
  {
    assert (ops + [op])[..|ops|] == ops;
  }

  lemma HasFront(x: Item, s: seq<Item>, id: Id)
    ensures Has([x] + s, id) <==> x.id == id || Has(s, id)
  {
    if Has(s, id) {
      var y :| y in s && y.id == id;
      assert y in [x] + s;
    }
    assert x in [x] + s;
  }

  lemma PutRemembered(capacity: nat, ops: seq<Op>, r: seq<Item>, op: Op)
    requires Remembers(capacity, ops, r) && op.Put? && !WasPut(ops, op.id)
    ensures Remembers(capacity, ops + [op], [Item(op.id, op.record)] + r)
  {
    var ops', x := ops + [op], Item(op.id, op.record);
    var r' := [x] + r;
    assert ops'[..|ops|] == ops;
    FrontDistinct(x, r);
    TakePut(r, x, capacity);
    forall id
      ensures Has(r', id) <==> WasPut(ops', id)
      ensures Has(r', id) ==> Ahead(r', id) == UsedSince(capacity, ops', id)
    {
      WasPutMore(ops, op, id);
      UsedMore(capacity, ops, op, id);
      HasFront(x, r, id);
      assert r'[1..] == r;
    }
  }

  lemma HasRemove(s: seq<Item>, id: Id, other: Id)
    ensures Has(Remove(s, other), id) <==> id != other && Has(s, id)
  {
    FilterMembers(s, Other(other));
    if id != other && Has(s, id) {
      var y :| y in s && y.id == id;
      assert y in Remove(s, other);
    }
  }

  /** What moving op's item to the front of r means for one id. */
  lemma MovedToFront(capacity: nat, ops: seq<Op>, r: seq<Item>, op: Op, x: Item, id: Id)
    requires Remembers(capacity, ops, r) && op.Get? && Has(Run(capacity, ops), op.id)
    requires x.id == op.id && Has(r, op.id)
    ensures var r' := [x] + Remove(r, op.id);
      && (Has(r', id) <==> WasPut(ops + [op], id))
      && (Has(r', id) ==> Ahead(r', id) == UsedSince(capacity, ops + [op], id))
  {
    var rest := Remove(r, op.id);
    WasPutMore(ops, op, id);
    UsedMore(capacity, ops, op, id);
    HasFront(x, rest, id);
    HasRemove(r, id, op.id);
    assert ([x] + rest)[1..] == rest;
    if id != op.id {
      AheadRemove(r, id, op.id);
    }
  }

  lemma GetRemembered(capacity: nat, ops: seq<Op>, r: seq<Item>, op: Op)
    requires Remembers(capacity, ops, r) && op.Get? && Has(Run(capacity, ops), op.id)
    ensures Remembers(capacity, ops + [op], Filter(r, Same(op.id)) + Remove(r, op.id))
  {
    assert (ops + [op])[..|ops|] == ops;
    assert Has(r, op.id) by {
      var y :| y in Run(capacity, ops) && y.id == op.id;
      assert y in r;
    }
    SameSingle(r, op.id);
    var x, rest := Filter(r, Same(op.id))[0], Remove(r, op.id);
    assert Filter(r, Same(op.id)) + rest == [x] + rest;
    RemoveDistinct(r, op.id);
    FrontDistinct(x, rest);
    TouchTake(r, capacity, op.id);
    forall id
      ensures Has([x] + rest, id) <==> WasPut(ops + [op], id)
      ensures Has([x] + rest, id) ==> Ahead([x] + rest, id) == UsedSince(capacity, ops + [op], id)
    {
      MovedToFront(capacity, ops, r, op, x, id);
    }
  }

  lemma MissRemembered(capacity: nat, ops: seq<Op>, r: seq<Item>, op: Op)
    requires Remembers(capacity, ops, r) && op.Get? && !Has(Run(capacity, ops), op.id)
    ensures Remembers(capacity, ops + [op], r)
  {
    var ops' := ops + [op];
    assert ops'[..|ops|] == ops;
    forall id
      ensures WasPut(ops', id) <==> WasPut(ops, id)
      ensures UsedSince(capacity, ops', id) == UsedSince(capacity, ops, id)
    {
    }
  }

  lemma {:induction false} RecencyRemembers(capacity: nat, ops: seq<Op>)
    requires FreshIds(ops)
    ensures Remembers(capacity, ops, Recency(capacity, ops))
  {
    if ops == [] {
    } else {
      var front, op := ops[..|ops| - 1], ops[|ops| - 1];
      assert ops == front + [op];
      FreshPrefix(ops);
      RecencyRemembers(capacity, front);
      var r := Recency(capacity, front);
      if op.Put? {
        PutRemembered(capacity, front, r, op);
      } else if Has(Run(capacity, front), op.id) {
        GetRemembered(capacity, front, r, op);
      } else {
        MissRemembered(capacity, front, r, op);
      }
    }
  }

  /**
    Exactly LRU: after any run with fresh ids, an id is stored if and only if it was put and fewer than
    capacity distinct other ids were used since its own last use.
    */
  lemma StoredExactly(capacity: nat, ops: seq<Op>, id: Id)
    requires FreshIds(ops)
    ensures Has(Run(capacity, ops), id) <==> WasPut(ops, id) && |UsedSince(capacity, ops, id)| < capacity
  {
    var r := Recency(capacity, ops);
    RecencyRemembers(capacity, ops);
    if Has(r, id) {
      AheadCounts(r, id, capacity);
    }
  }

  // ---- A larger store contains a smaller one ----

  function Within(ids: set<Id>): Item -> bool {
    (x: Item) => x.id in ids
  }

  function Ids(s: seq<Item>): set<Id> {
    set x | x in s :: x.id
  }

  /** small is part of large: the same records in the same order, some left out. */
  predicate PartOf(small: seq<Item>, large: seq<Item>) {
    Filter(large, Within(Ids(small))) == small
  }

  lemma HasIds(s: seq<Item>, id: Id)
    ensures Has(s, id) <==> id in Ids(s)
  {
  }

  lemma IdsFront(x: Item, s: seq<Item>)
    ensures Ids([x] + s) == {x.id} + Ids(s)
  {
  }

  /** Leaving out some records of a part leaves a part. */
  lemma PartOfPart(small: seq<Item>, part: seq<Item>, large: seq<Item>)
    requires PartOf(small, part) && PartOf(part, large)
    ensures PartOf(small, large)
  {
    FilterMembers(part, Within(Ids(small)));
    FilterMembers(large, Within(Ids(part)));
    forall x | x in large
      ensures Within(Ids(small))(x) <==> Within(Ids(part))(x) && Within(Ids(small))(x)
    {
      if x.id in Ids(small) {
        var y :| y in small && y.id == x.id;
        assert y in part;
      }
    }
    FilterTwice(large, Within(Ids(part)), Within(Ids(small)), Within(Ids(small)));
  }

  lemma DropLastPart(s: seq<Item>)
    requires DistinctIds(s) && s != []
    ensures PartOf(s[..|s| - 1], s)
  {
    var front, last := s[..|s| - 1], s[|s| - 1];
    DistinctFront(s);
    HasIds(front, last.id);
    FilterAll(front, Within(Ids(front)));
    assert s == front + [last];
    FilterAppend(front, [last], Within(Ids(front)));
  }

  /** Both lists lose their last record: still a part. */
  lemma DropBoth(small: seq<Item>, large: seq<Item>)
    requires PartOf(small, large) && DistinctIds(large) && DistinctIds(small) && small != [] && large != []
    ensures PartOf(small[..|small| - 1], large[..|large| - 1])
  {
    var a, b := small[..|small| - 1], large[..|large| - 1];
    var last := large[|large| - 1];
    DropLastPart(small);
    PartOfPart(a, small, large);
    assert large == b + [last];
    FilterAppend(b, [last], Within(Ids(a)));
    if last.id in Ids(a) {
      FilterAppend(b, [last], Within(Ids(small)));
      assert Ids(a) <= Ids(small);
      assert small == Filter(b, Within(Ids(small))) + [last];
      DistinctFront(small);
      HasIds(a, last.id);
      assert false;
    }
  }

  lemma FrontPart(x: Item, small: seq<Item>, large: seq<Item>)
    requires PartOf(small, large) && !Has(large, x.id)
    ensures PartOf([x] + small, [x] + large)
  {
    IdsFront(x, small);
    FilterAppend([x], large, Within(Ids([x] + small)));
    HasIds(large, x.id);
    FilterExt(large, Within(Ids([x] + small)), Within(Ids(small)));
  }

  lemma RemovePart(small: seq<Item>, large: seq<Item>, id: Id)
    requires PartOf(small, large)
    ensures PartOf(Remove(small, id), Remove(large, id))
  {
    var ids := Ids(Remove(small, id));
    FilterMembers(small, Other(id));
    forall x: Item
      ensures x.id in ids <==> x.id in Ids(small) && x.id != id
    {
      HasRemove(small, x.id, id);
      HasIds(small, x.id);
      HasIds(Remove(small, id), x.id);
    }
    var both := (x: Item) => x.id in Ids(small) && x.id != id;
    FilterTwice(large, Other(id), Within(ids), both);
    FilterTwice(large, Within(Ids(small)), Other(id), both);
  }

  lemma PartMembers(small: seq<Item>, large: seq<Item>)
    requires PartOf(small, large)
    ensures forall x :: x in small ==> x in large
  {
    FilterMembers(large, Within(Ids(small)));
  }

  /** The item with id is the same in a list and in a part of it that has it. */
  lemma SameInPart(small: seq<Item>, large: seq<Item>, id: Id)
    requires PartOf(small, large) && Has(small, id)
    ensures Filter(small, Same(id)) == Filter(large, Same(id))
  {
    HasIds(small, id);
    FilterTwice(large, Within(Ids(small)), Same(id), Same(id));
  }

  /** How many records a run has put. */
  function Puts(ops: seq<Op>): nat {
    if ops == [] then 0 else Puts(ops[..|ops| - 1]) + if ops[|ops| - 1].Put? then 1 else 0
  }

  /** A store is as full as its capacity and its puts allow. */
  lemma {:induction false} RunLength(capacity: nat, ops: seq<Op>)
    requires FreshIds(ops)
    ensures |Run(capacity, ops)| == if Puts(ops) < capacity then Puts(ops) else capacity
  {
    if ops == [] {
    } else {
      var front, op := ops[..|ops| - 1], ops[|ops| - 1];
      FreshPrefix(ops);
      RunDistinct(capacity, front);
      RunLength(capacity, front);
      if op.Get? && Has(Run(capacity, front), op.id) {
        SameSingle(Run(capacity, front), op.id);
      }
    }
  }

  lemma GetPart(a: seq<Item>, b: seq<Item>, m: nat, n: nat, id: Id)
    requires PartOf(a, b) && DistinctIds(a) && DistinctIds(b)
    ensures PartOf(After(m, a, Get(id)), After(n, b, Get(id)))
  {
    PartMembers(a, b);
    if Has(b, id) {
      RemoveDistinct(b, id);
      SameSingle(b, id);
      var x := Filter(b, Same(id))[0];
      assert Filter(b, Same(id)) == [x];
      if Has(a, id) {
        SameInPart(a, b, id);
        RemovePart(a, b, id);
        FrontPart(x, Remove(a, id), Remove(b, id));
      } else {
        RemovePart(a, b, id);
        FilterAll(a, Other(id));
        FilterAppend([x], Remove(b, id), Within(Ids(a)));
        HasIds(a, id);
      }
    }
  }

  lemma PutPart(a: seq<Item>, b: seq<Item>, m: nat, n: nat, x: Item)
    requires PartOf(a, b) && DistinctIds(a) && DistinctIds(b) && !Has(b, x.id)
    requires m <= n && |a| <= m && |b| <= n && (|b| == n ==> |a| == m)
    ensures PartOf(Take([x] + a, m), Take([x] + b, n))
  {
    PartMembers(a, b);
    FrontPart(x, a, b);
    FrontDistinct(x, b);
    assert !Has(a, x.id);
    FrontDistinct(x, a);
    if |a| == m {
      if |b| == n {
        DropBoth([x] + a, [x] + b);
      } else {
        DropLastPart([x] + a);
        PartOfPart(([x] + a)[..m], [x] + a, [x] + b);
      }
    }
  }

  /**
    Inclusion: fed the same operations, a larger store always contains the records of a smaller one, in
    the same order of recency, although their Gets do not all hit alike.
    */
  lemma {:induction false} LargerContainsSmaller(m: nat, n: nat, ops: seq<Op>)
    requires m <= n && FreshIds(ops)
    ensures PartOf(Run(m, ops), Run(n, ops))
    ensures forall x :: x in Run(m, ops) ==> x in Run(n, ops)
  {
    if ops == [] {
    } else {
      var front, op := ops[..|ops| - 1], ops[|ops| - 1];
      FreshPrefix(ops);
      LargerContainsSmaller(m, n, front);
      RunDistinct(m, front);
      RunDistinct(n, front);
      RunLength(m, front);
      RunLength(n, front);
      if op.Put? {
        if Has(Run(n, front), op.id) {
          StoredWasPut(n, front, op.id);
        }
        PutPart(Run(m, front), Run(n, front), m, n, Item(op.id, op.record));
      } else {
        GetPart(Run(m, front), Run(n, front), m, n, op.id);
      }
    }
    PartMembers(Run(m, ops), Run(n, ops));
  }
}
