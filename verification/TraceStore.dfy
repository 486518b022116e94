/** The bounded store of trace records: a list of elements, most recent first, and an index into it. */
module TraceStore {
  import opened Sequences
  import opened Lru

  class Element {
    const id: Id
    const record: TraceRecord

    constructor (id: Id, record: TraceRecord)
      ensures this.id == id && this.record == record
    {
      this.id, this.record := id, record;
    }
  }

  function ItemOf(e: Element): Item {
    Item(e.id, e.record)
  }

  function Items(ll: seq<Element>): seq<Item> {
    seq(|ll|, i requires 0 <= i < |ll| => ItemOf(ll[i]))
  }

  function NotElement(el: Element): Element -> bool {
    (e: Element) => e != el
  }

  /** The list holds each element once, and index entries are for elements of the list. */
  ghost predicate Linked(ll: seq<Element>, index: map<Id, Element>) {
    && (forall i, j :: 0 <= i < j < |ll| ==> ll[i] != ll[j])
    && (forall id :: id in index ==> index[id] in ll && index[id].id == id)
  }

  /** Every element of the list is the one its id's index entry is for. */
  ghost predicate Indexed(ll: seq<Element>, index: map<Id, Element>) {
    forall e :: e in ll ==> e.id in index && index[e.id] == e
  }

  /** The elements of a well-formed list and the ids of its items. */
  lemma ListedItems(ll: seq<Element>, index: map<Id, Element>, id: Id)
    requires Linked(ll, index)
    ensures id in index ==> ItemOf(index[id]) in Items(ll) && Has(Items(ll), id)
    ensures Indexed(ll, index) && Has(Items(ll), id) ==> id in index
  {
    if id in index {
      var i :| 0 <= i < |ll| && ll[i] == index[id];
      assert Items(ll)[i] == ItemOf(index[id]);
    }
    if Has(Items(ll), id) {
      var x :| x in Items(ll) && x.id == id;
      var i :| 0 <= i < |ll| && Items(ll)[i] == x;
      assert ll[i] in ll;
    }
  }

  /** Under a bijection no id is listed twice. */
  lemma ItemsDistinct(ll: seq<Element>, index: map<Id, Element>)
    requires Linked(ll, index) && Indexed(ll, index)
    ensures DistinctIds(Items(ll))
  {
    forall i, j | 0 <= i < j < |ll|
      ensures ll[i].id != ll[j].id
    {
      assert ll[i] in ll && ll[j] in ll;
    }
  }

  lemma {:induction false} ItemsWithout(ll: seq<Element>, el: Element)
    requires forall e :: e in ll && e != el ==> e.id != el.id
    ensures Items(Filter(ll, NotElement(el))) == Remove(Items(ll), el.id)
  {
    if ll == [] {
    } else {
      var front, last := ll[..|ll| - 1], ll[|ll| - 1];
      ItemsWithout(front, el);
      assert Items(ll)[..|ll| - 1] == Items(front);
      assert last in ll;
      var kept := Filter(front, NotElement(el));
      assert Items(kept + [last]) == Items(kept) + [ItemOf(last)];
    }
  }

  lemma {:induction false} OnlyElement(ll: seq<Element>, el: Element)
    requires forall i, j :: 0 <= i < j < |ll| ==> ll[i] != ll[j]
    ensures var rest := Filter(ll, NotElement(el));
      && (forall i, j :: 0 <= i < j < |rest| ==> rest[i] != rest[j])
      && (forall e :: e in rest <==> e in ll && e != el)
      && |rest| == |ll| - if el in ll then 1 else 0
  {
    if ll == [] {
    } else {
      var front, last := ll[..|ll| - 1], ll[|ll| - 1];
      assert ll == front + [last];
      OnlyElement(front, el);
      assert last !in front;
    }
  }

  lemma ItemsFront(el: Element, ll: seq<Element>)
    ensures Items([el] + ll) == [ItemOf(el)] + Items(ll)
  {
  }

  lemma SameItem(ll: seq<Element>, index: map<Id, Element>, el: Element)
    requires Linked(ll, index) && Indexed(ll, index) && el in ll
    ensures Filter(Items(ll), Same(el.id)) == [ItemOf(el)]
  {
    ItemsDistinct(ll, index);
    var i :| 0 <= i < |ll| && ll[i] == el;
    assert Items(ll)[i] == ItemOf(el);
    SameSingle(Items(ll), el.id);
    var x := Filter(Items(ll), Same(el.id))[0];
    var j :| 0 <= j < |ll| && Items(ll)[j] == x;
    assert i == j;
  }

  lemma ToFrontItems(ll: seq<Element>, index: map<Id, Element>, el: Element)
    requires Linked(ll, index) && Indexed(ll, index) && el in ll
    ensures Items([el] + Filter(ll, NotElement(el))) == Filter(Items(ll), Same(el.id)) + Remove(Items(ll), el.id)
  {
    ItemsWithout(ll, el);
    SameItem(ll, index, el);
    ItemsFront(el, Filter(ll, NotElement(el)));
  }

  lemma ElementToFront(ll: seq<Element>, index: map<Id, Element>, el: Element)
    requires Linked(ll, index) && el.id in index && index[el.id] == el
    ensures var ll' := [el] + Filter(ll, NotElement(el));
      && |ll'| == |ll| && Linked(ll', index)
      && (Indexed(ll, index) ==> Indexed(ll', index))
      && (Indexed(ll, index) ==> Items(ll') == Filter(Items(ll), Same(el.id)) + Remove(Items(ll), el.id))
  {
    OnlyElement(ll, el);
    var rest := Filter(ll, NotElement(el));
    forall e | e in [el] + rest
      ensures e in ll
    {
      if e == el {
        assert index[el.id] in ll;
      } else {
        FilterMember(ll, NotElement(el), e);
      }
    }
    if Indexed(ll, index) {
      ToFrontItems(ll, index, el);
    }
  }

  /** What a put leaves of the list and of the index, with or without an eviction. */
  ghost predicate AfterPut(ll: seq<Element>, index: map<Id, Element>, el: Element,
                           ll': seq<Element>, index': map<Id, Element>)
  {
    var all := [el] + ll;
    || (ll' == all && index' == index[el.id := el])
    || (|ll| > 0 && ll' == all[..|all| - 1] && index' == index[el.id := el] - {all[|all| - 1].id})
  }

  lemma PutLinked(ll: seq<Element>, index: map<Id, Element>, el: Element, ll': seq<Element>, index': map<Id, Element>)
    requires Linked(ll, index) && el !in ll && AfterPut(ll, index, el, ll', index')
    ensures Linked(ll', index') && el in ll'
    ensures forall e :: e in ll' ==> e == el || e in ll
  {
    var all := [el] + ll;
    assert ll'[0] == el;
    forall id | id in index'
      ensures index'[id] in ll' && index'[id].id == id
    {
      if index'[id] != el {
        var i :| 0 <= i < |ll| && ll[i] == index[id];
        assert all[i + 1] == index[id];
        assert i + 1 < |ll'| ==> ll'[i + 1] == index[id];
      }
    }
  }

  /** An element that stays does not share its id with an evicted one. */
  lemma KeptApart(ll: seq<Element>, index: map<Id, Element>, el: Element,
                  ll': seq<Element>, index': map<Id, Element>, e: Element)
    requires Linked(ll, index) && Indexed(ll, index) && el !in ll && AfterPut(ll, index, el, ll', index')
    requires el.id !in index && e in ll'
    ensures e.id in index' && index'[e.id] == e
  {
    var all := [el] + ll;
    var i :| 0 <= i < |ll'| && ll'[i] == e;
    assert all[i] == e;
    if |ll'| < |all| {
      var last := all[|all| - 1];
      assert last == ll[|ll| - 1] && last in ll;
      assert i > 0 ==> e == ll[i - 1];
    }
  }

  /** A put keeps the bijection exactly if its id was not in it. */
  lemma PutIndexed(ll: seq<Element>, index: map<Id, Element>, el: Element, ll': seq<Element>, index': map<Id, Element>)
    requires Linked(ll, index) && Indexed(ll, index) && el !in ll && AfterPut(ll, index, el, ll', index')
    ensures Indexed(ll', index') <==> el.id !in index
  {
    var all := [el] + ll;
    PutLinked(ll, index, el, ll', index');
    if el.id in index {
      var stale := index[el.id];
      if stale !in ll' {
        var i :| 0 <= i < |ll| && ll[i] == stale;
        assert all[i + 1] == stale;
        assert ll' <= all;
        assert i + 1 >= |ll'|;
        assert stale == all[|all| - 1];
      }
    } else {
      forall e | e in ll'
        ensures e.id in index' && index'[e.id] == e
      {
        KeptApart(ll, index, el, ll', index', e);
      }
    }
  }

  class TraceStore {
    const capacity: nat
    var ll: seq<Element>
    var index: map<Id, Element>
    /** The operations performed so far. */
    ghost var ops: seq<Op>

    ghost predicate Sound()
      reads this
    {
      capacity > 0 && |ll| <= capacity && Linked(ll, index)
    }

    /** List and index are in bijection, and hold what the history of operations leaves. */
    ghost predicate Valid()
      reads this
    {
      Sound() && Indexed(ll, index) && Items(ll) == Run(capacity, ops)
    }

    constructor (capacity: nat)
      requires capacity > 0
      ensures Valid() && ops == [] && this.capacity == capacity
    {
      this.capacity := capacity;
      ll, index, ops := [], map[], [];
    }

    /**
      Store a record as the most recent one, evicting the least recent if there is no room. The store
      stays in bijection exactly when id is fresh: an id already present leaves a stale element behind,
      and evicting that element takes the index entry of the new one with it.
      */
    method Put(id: Id, record: TraceRecord, now: int)
      requires Sound()
      modifies this
      ensures Sound()
      ensures ops == old(ops) + [Lru.Put(id, record.(id := id, createdAt := now))]
      ensures Items(ll) == After(capacity, Items(old(ll)), ops[|old(ops)|])
      ensures ll != [] && AfterPut(old(ll), old(index), ll[0], ll, index)
      ensures old(Valid()) ==> (Valid() <==> id !in old(index))
    {
      var el := new Element(id, record.(id := id, createdAt := now));
      ll := [el] + ll;
      index := index[id := el];
      assert Items(ll) == [ItemOf(el)] + Items(old(ll));
      if |ll| > capacity {
        var oldest := ll[|ll| - 1];
        ll := ll[..|ll| - 1];
        index := index - {oldest.id};
        assert Items(ll) == Items([el] + old(ll))[..capacity];
      }
      ops := ops + [Lru.Put(id, el.record)];
      RunMore(capacity, old(ops), ops[|old(ops)|]);
      PutLinked(old(ll), old(index), el, ll, index);
      if old(Valid()) {
        PutIndexed(old(ll), old(index), el, ll, index);
      }
    }

    /**
      Return the record stored under id, if any, and make it the most recent one. With fresh ids there is
      a hit exactly when id was put and fewer than capacity other ids were used since id itself was.
      */
    method Get(id: Id) returns (hit: Option<TraceRecord>)
      requires Sound()
      modifies this
      ensures Sound() && index == old(index) && (old(Valid()) ==> Valid())
      ensures hit == if id in index then Some(index[id].record) else None
      ensures ll == if id in index then [index[id]] + Filter(old(ll), NotElement(index[id])) else old(ll)
      ensures hit.Some? ==> Item(id, hit.value) in Items(old(ll))
      ensures old(Valid()) && hit.Some? ==> Lru.Put(id, hit.value) in old(ops)
      ensures old(Valid()) ==>
        && (hit.Some? <==> Has(Items(old(ll)), id))
        && Items(ll) == After(capacity, Items(old(ll)), Lru.Get(id))
      ensures ops == old(ops) + [Lru.Get(id)]
      ensures old(Valid()) && FreshIds(old(ops)) ==>
        (hit.Some? <==> WasPut(old(ops), id) && |UsedSince(capacity, old(ops), id)| < capacity)
    {
      if FreshIds(ops) {
        StoredExactly(capacity, ops, id);
      }
      RunMore(capacity, ops, Lru.Get(id));
      ops := ops + [Lru.Get(id)];
      ListedItems(ll, index, id);
      if id !in index {
        return None;
      }
      var el := index[id];
      if Items(ll) == Run(capacity, old(ops)) {
        StoredRecord(capacity, old(ops), ItemOf(el));
      }
      ElementToFront(ll, index, el);
      ll := [el] + Filter(ll, NotElement(el));
      hit := Some(el.record);
    }
  }
}
