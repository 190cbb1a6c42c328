/** The pager's bounded page cache: recency ticks and a lazily cleaned eviction heap,
    proved to behave as an exact least-recently-used map. */
module PageCache {
  import opened Bytes

  const TICK_LIMIT: nat := 0x1_0000_0000_0000_0000

  // ------------------------------------------------------------- the simple form

  /** An exact LRU map: `order` lists the cached pages from least to most recently used. */
  datatype Lru = Lru(contents: PageMap, order: seq<u32>)

  predicate Distinct(order: seq<u32>)
  {
    order == [] || (Distinct(order[..|order| - 1]) && order[|order| - 1] !in order[..|order| - 1])
  }

  /** The order lists exactly the cached pages, each once. */
  ghost predicate LruOk(l: Lru)
  {
    Distinct(l.order) && forall p :: p in l.order <==> p in l.contents
  }

  function Without(order: seq<u32>, p: u32): (r: seq<u32>)
    ensures forall q :: q in r <==> q in order && q != p
  {
    if order == [] then []
    else
      var init, last := order[..|order| - 1], order[|order| - 1];
      assert order == init + [last];
      if last == p then Without(init, p) else Without(init, p) + [last]
  }

  function Touch(l: Lru, p: u32): Lru { l.(order := Without(l.order, p) + [p]) }

  function Store(l: Lru, p: u32, page: Page): Lru { Lru(l.contents[p := page], Without(l.order, p) + [p]) }

  function Drop(l: Lru, p: u32): Lru { Lru(l.contents - {p}, Without(l.order, p)) }

  // -------------------------------------------------------------- recency ticks

  datatype Entry = Entry(page: Page, tick: nat)

  type Entries = map<u32, Entry>

  function TickOf(es: Entries, p: u32): int { if p in es then es[p].tick else -1 }

  /** Ticks increase along `order`. */
  predicate InUseOrder(es: Entries, order: seq<u32>)
  {
    order == [] ||
    (InUseOrder(es, order[..|order| - 1])
     && forall q :: q in order[..|order| - 1] ==> TickOf(es, q) < TickOf(es, order[|order| - 1]))
  }

  lemma {:induction false} RemoveFromOrder(es: Entries, order: seq<u32>, p: u32)
    requires Distinct(order)
    ensures Distinct(Without(order, p)) && p !in Without(order, p)
    ensures InUseOrder(es, order) ==> InUseOrder(es, Without(order, p))
  {
    if order != [] {
      var init, last := order[..|order| - 1], order[|order| - 1];
      RemoveFromOrder(es, init, p);
      if last != p {
        var r := Without(init, p) + [last];
        assert r[..|r| - 1] == Without(init, p);
      }
    }
  }

  /** Only the ticks of the pages in `order` matter. */
  lemma {:induction false} SameTicks(es: Entries, es': Entries, order: seq<u32>)
    requires forall q :: q in order ==> TickOf(es, q) == TickOf(es', q)
    ensures InUseOrder(es, order) ==> InUseOrder(es', order)
  {
    if order != [] {
      var init := order[..|order| - 1];
      assert order == init + [order[|order| - 1]];
      SameTicks(es, es', init);
    }
  }

  lemma {:induction false} FirstIsOldest(es: Entries, order: seq<u32>)
    requires order != [] && InUseOrder(es, order)
    ensures forall q :: q in order && q != order[0] ==> TickOf(es, order[0]) < TickOf(es, q)
  {
    if |order| > 1 {
      var init := order[..|order| - 1];
      assert order == init + [order[|order| - 1]];
      FirstIsOldest(es, init);
      assert init[0] == order[0] && order[0] in init;
    }
  }

  type Heap = multiset<(nat, u32)>

  /** Every live entry can be found through the heap, whatever else is in it, and unless
      the tick has wrapped around, ticks tell the recency order. */
  ghost predicate Tracked(es: Entries, heap: Heap, order: seq<u32>, tick: nat, wrapped: bool)
  {
    && Distinct(order) && Members(order) == es.Keys
    && (forall p :: p in es ==> (es[p].tick, p) in heap)
    && (!wrapped ==> InUseOrder(es, order) && Ticked(es, tick))
  }

  predicate Ticked(es: Entries, tick: nat) { forall p :: p in es ==> es[p].tick <= tick }

  ghost function ModelOf(es: Entries, order: seq<u32>): Lru { Lru(map p | p in es :: es[p].page, order) }

  lemma Refreshed(es: Entries, heap: Heap, order: seq<u32>, tick: nat, wrapped: bool, p: u32, page: Page, t: nat, wraps: bool)
    requires Tracked(es, heap, order, tick, wrapped) && (wrapped ==> wraps) && (!wraps ==> tick < t)
    ensures var es' := es[p := Entry(page, t)];
            var order' := Without(order, p) + [p];
            && Tracked(es', heap + multiset{(t, p)}, order', t, wraps)
            && ModelOf(es', order') == Store(ModelOf(es, order), p, page)
  {
    hide Distinct, InUseOrder, Without, ModelOf, TickOf, Members, Ticked;
    var rest := Without(order, p);
    var es' := es[p := Entry(page, t)];
    RemoveFromOrder(es, order, p);
    Restamped(es, order, tick, p, page, t);
    OrderSnoc(es', rest, p);
    StoredModel(es, order, p, page, t);
    MembersAfter(order, p);
    assert es'.Keys == es.Keys + {p};
  }

  lemma StillTracked(es: Entries, heap: Heap, order: seq<u32>, tick: nat, wrapped: bool, t: nat, wraps: bool)
    requires Tracked(es, heap, order, tick, wrapped) && (wrapped ==> wraps) && (!wraps ==> tick < t)
    ensures Tracked(es, heap, order, t, wraps)
  {
    hide Distinct, InUseOrder;
  }

  lemma OrderSnoc(es: Entries, rest: seq<u32>, p: u32)
    requires Distinct(rest) && p !in rest
    ensures Distinct(rest + [p])
    ensures InUseOrder(es, rest) && (forall q :: q in rest ==> TickOf(es, q) < TickOf(es, p)) ==> InUseOrder(es, rest + [p])
  {
    assert (rest + [p])[..|rest|] == rest;
  }

  lemma Restamped(es: Entries, order: seq<u32>, tick: nat, p: u32, page: Page, t: nat)
    requires Distinct(order) && Members(order) == es.Keys
    ensures var es', rest := es[p := Entry(page, t)], Without(order, p);
            InUseOrder(es, order) && Ticked(es, tick) && tick < t ==>
              InUseOrder(es', rest) && Ticked(es', t) && forall q :: q in rest ==> TickOf(es', q) < TickOf(es', p)
  {
    var es', rest := es[p := Entry(page, t)], Without(order, p);
    RemoveFromOrder(es, order, p);
    SameTicks(es, es', rest);
    assert forall q :: q in rest ==> q in Members(order);
  }

  lemma StoredModel(es: Entries, order: seq<u32>, p: u32, page: Page, t: nat)
    ensures ModelOf(es[p := Entry(page, t)], Without(order, p) + [p]) == Store(ModelOf(es, order), p, page)
  {
    assert ModelOf(es[p := Entry(page, t)], Without(order, p) + [p]).contents == ModelOf(es, order).contents[p := page];
  }

  lemma DroppedModel(es: Entries, order: seq<u32>, p: u32)
    ensures ModelOf(es - {p}, Without(order, p)) == Drop(ModelOf(es, order), p)
  {
    assert ModelOf(es - {p}, Without(order, p)).contents == ModelOf(es, order).contents - {p};
  }

  lemma Forgotten(es: Entries, heap: Heap, heap': Heap, order: seq<u32>, tick: nat, wrapped: bool, t: nat, p: u32)
    requires Tracked(es, heap, order, tick, wrapped)
    requires heap' == heap || heap' == heap - multiset{(t, p)}
    ensures p in es ==> p in order && |es - {p}| == |es| - 1
    ensures Tracked(es - {p}, heap', Without(order, p), tick, wrapped)
    ensures ModelOf(es - {p}, Without(order, p)) == Drop(ModelOf(es, order), p)
  {
    hide Distinct, InUseOrder, Without, ModelOf, Ticked, Members;
    MembersAfter(order, p);
    assert (es - {p}).Keys == es.Keys - {p};
    assert Ticked(es, tick) ==> Ticked(es - {p}, tick) by { FewerTicked(es, tick, p); }
    ForgottenOrder(es, order, p);
    DroppedModel(es, order, p);
    OneFewer(es, p);
  }

  lemma ForgottenOrder(es: Entries, order: seq<u32>, p: u32)
    requires Distinct(order)
    ensures Distinct(Without(order, p))
    ensures InUseOrder(es, order) ==> InUseOrder(es - {p}, Without(order, p))
  {
    hide Distinct, InUseOrder, Without;
    RemoveFromOrder(es, order, p);
    SameTicks(es, es - {p}, Without(order, p));
  }

  lemma MembersAfter(order: seq<u32>, p: u32)
    ensures Members(Without(order, p)) == Members(order) - {p}
    ensures Members(Without(order, p) + [p]) == Members(order) + {p}
    ensures p in order <==> p in Members(order)
  {
  }

  lemma FewerTicked(es: Entries, tick: nat, p: u32)
    ensures Ticked(es, tick) ==> Ticked(es - {p}, tick)
  {
  }

  lemma OneFewer(es: Entries, p: u32)
    ensures p in es ==> |es - {p}| == |es| - 1
  {
    assert (es - {p}).Keys == es.Keys - {p};
  }

  /** Discarding a candidate that is not current loses no live entry. */
  lemma Discarded(es: Entries, heap: Heap, order: seq<u32>, tick: nat, wrapped: bool, t: nat, p: u32)
    requires Tracked(es, heap, order, tick, wrapped) && !(p in es && es[p].tick == t)
    ensures Tracked(es, heap - multiset{(t, p)}, order, tick, wrapped)
  {
    hide Distinct, InUseOrder, Ticked;
  }

  /** The smallest candidate, if current, is the least recently used page. */
  lemma OldestFound(es: Entries, heap: Heap, order: seq<u32>, tick: nat, p: u32)
    requires Tracked(es, heap, order, tick, false) && p in es
    requires forall x :: x in heap ==> Before((es[p].tick, p), x)
    ensures order != [] && order[0] == p
  {
    assert p in Members(order);
    FirstIsOldest(es, order);
    assert order[0] in order && order[0] in Members(order);
    var first := order[0];
    assert (es[first].tick, first) in heap;
  }

  lemma {:induction false} DistinctCount(order: seq<u32>, s: set<u32>)
    requires Distinct(order) && Members(order) == s
    ensures |order| == |s|
  {
    if order == [] {
      assert s == {};
    } else {
      var init, last := order[..|order| - 1], order[|order| - 1];
      assert order == init + [last];
      DistinctCount(init, s - {last});
      assert s == (s - {last}) + {last};
    }
  }

  // ------------------------------------------------------------------ the cache

  class Cache {
    const capacity: nat
    var entries: Entries
    /** Eviction candidates, popped smallest tick first; some may be stale. */
    var heap: Heap
    var tick: nat
    ghost var order: seq<u32>
    ghost var wrapped: bool

    ghost function Model(): (l: Lru)
      reads this
    {
      ModelOf(entries, order)
    }

    ghost predicate Valid()
      reads this
    {
      tick < TICK_LIMIT && |entries| <= capacity && Tracked(entries, heap, order, tick, wrapped)
    }

    /** The recency order lists exactly the cached pages, each once. */
    lemma ValidIsLru()
      requires Valid()
      ensures LruOk(Model()) && |Model().order| == |Model().contents|
    {
      hide Distinct;
      assert Model().contents.Keys == entries.Keys;
      DistinctCount(order, entries.Keys);
      forall p ensures p in order <==> p in entries { assert p in Members(order) <==> p in entries.Keys; }
    }

    constructor (capacity: nat)
      ensures Valid() && Model() == Lru(map[], []) && this.capacity == capacity && !wrapped
    {
      this.capacity := capacity;
      entries, heap, tick := map[], multiset{}, 0;
      order, wrapped := [], false;
    }

    method NextTick() returns (t: nat)
      requires tick < TICK_LIMIT
      modifies this`tick, this`wrapped
      ensures tick == t < TICK_LIMIT
      ensures wrapped == (old(wrapped) || old(tick) + 1 == TICK_LIMIT)
      ensures !wrapped ==> old(tick) < t
    {
      wrapped := wrapped || tick + 1 == TICK_LIMIT;
      tick := (tick + 1) % TICK_LIMIT;
      t := tick;
    }

    /** A hit returns the cached bytes and makes the page the most recent one. */
    method Get(p: u32) returns (r: Option<Page>)
      requires Valid()
      modifies this
      ensures Valid() && (old(wrapped) ==> wrapped)
      ensures r == if p in old(Model()).contents then Some(old(Model()).contents[p]) else None
      ensures Model() == if p in old(Model()).contents then Touch(old(Model()), p) else old(Model())
    {
      hide Tracked, Without, Touch, Store;
      var t := NextTick();
      StillTracked(entries, heap, order, old(tick), old(wrapped), t, wrapped);
      if p !in entries {
        return None;
      }
      var page := entries[p].page;
      Refreshed(entries, heap, order, old(tick), old(wrapped), p, page, t, wrapped);
      SameKeys(entries, order, p, Entry(page, t));
      entries := entries[p := Entry(page, t)];
      heap := heap + multiset{(t, p)};
      order := Without(order, p) + [p];
      if |heap| > Max(4 * capacity, 16) {
        Compact();
      }
      return Some(page);
    }

    /** Rebuilds the heap from the live entries; nothing else changes. */
    method Compact()
      requires Valid()
      modifies this`heap
      ensures Valid() && |heap| == |entries|
    {
      hide Distinct, InUseOrder;
      var left := entries.Keys;
      heap := multiset{};
      while left != {}
        invariant left <= entries.Keys && |heap| + |left| == |entries|
        invariant forall p :: p in entries && p !in left ==> (entries[p].tick, p) in heap
        decreases left
      {
        var p :| p in left;
        heap := heap + multiset{(entries[p].tick, p)};
        left := left - {p};
      }
    }

    /** Stores a page as the most recent one; over capacity, the least recent one goes. */
    method Insert(p: u32, page: Page)
      requires Valid()
      modifies this
      ensures Valid() && (old(wrapped) ==> wrapped)
      ensures var stored := Store(old(Model()), p, page);
              if |stored.contents| <= capacity then Model() == stored
              else exists v :: v in stored.order && Model() == Drop(stored, v) && (!wrapped ==> v == stored.order[0])
    {
      hide Distinct, InUseOrder, Tracked;
      var t := NextTick();
      Refreshed(entries, heap, order, old(tick), old(wrapped), p, page, t, wrapped);
      entries := entries[p := Entry(page, t)];
      heap := heap + multiset{(t, p)};
      order := Without(order, p) + [p];
      assert Model().contents.Keys == entries.Keys;
      if |entries| > capacity {
        var victim := EvictOne();
      }
    }

    /** Pops candidates until a current one turns up and removes that page. */
    method EvictOne() returns (r: Option<(u32, Page)>)
      requires tick < TICK_LIMIT && |entries| <= capacity + 1 && Tracked(entries, heap, order, tick, wrapped)
      modifies this`entries, this`heap, this`order
      ensures Valid()
      ensures r.None? ==> old(entries) == map[] && Model() == old(Model())
      ensures r.Some? ==> r.value.0 in old(order) && r.value.0 in old(entries) && r.value.1 == old(entries)[r.value.0].page
      ensures r.Some? ==> Model() == Drop(old(Model()), r.value.0) && entries == old(entries) - {r.value.0}
      ensures r.Some? && !wrapped ==> r.value.0 == old(order)[0]
    {
      hide Tracked, Without, ModelOf, Drop;
      while heap != multiset{}
        invariant Tracked(entries, heap, order, tick, wrapped) && entries == old(entries) && order == old(order)
        decreases |heap|
      {
        var least := Smallest(heap);
        var t, p := least.0, least.1;
        if p in entries && entries[p].tick == t {
          r := Some((p, entries[p].page));
          if !wrapped { OldestFound(entries, heap, order, tick, p); }
          Forgotten(entries, heap, heap - multiset{least}, order, tick, wrapped, t, p);
          heap := heap - multiset{least};
          entries := entries - {p};
          order := Without(order, p);
          return;
        }
        Discarded(entries, heap, order, tick, wrapped, t, p);
        heap := heap - multiset{least};
      }
      NoEntries(entries, heap, order, tick, wrapped);
      return None;
    }

    /** Makes room for one more page, handing back the evicted buffer. */
    method EvictOneIfFull() returns (r: Option<Page>)
      requires Valid()
      modifies this
      ensures Valid() && wrapped == old(wrapped)
      ensures r.None? ==> Model() == old(Model()) && (|old(Model()).contents| < capacity || old(Model()).contents == map[])
      ensures r.Some? ==> |old(Model()).contents| >= capacity
      ensures r.Some? ==> exists v :: v in old(order) && v in old(Model()).contents && r.value == old(Model()).contents[v]
                                      && Model() == Drop(old(Model()), v) && (!wrapped ==> v == old(order)[0])
      ensures capacity > 0 ==> |Model().contents| < capacity
    {
      hide Tracked;
      assert Model().contents.Keys == entries.Keys;
      if |entries| < capacity {
        return None;
      }
      var victim := EvictOne();
      assert Model().contents.Keys == entries.Keys;
      return if victim.None? then None else Some(victim.value.1);
    }

    method Invalidate(p: u32)
      requires Valid()
      modifies this
      ensures Valid() && wrapped == old(wrapped) && Model() == Drop(old(Model()), p)
    {
      hide Tracked;
      Forgotten(entries, heap, heap, order, tick, wrapped, tick, p);
      entries := entries - {p};
      order := Without(order, p);
    }
  }

  lemma SameKeys(es: Entries, order: seq<u32>, p: u32, e: Entry)
    requires p in es && e.page == es[p].page
    ensures |es[p := e]| == |es|
    ensures var l := ModelOf(es, order); p in l.contents && l.contents[p] == e.page && Store(l, p, e.page) == Touch(l, p)
  {
    assert es[p := e].Keys == es.Keys;
    assert ModelOf(es, order).contents[p := e.page] == ModelOf(es, order).contents;
  }

  lemma NoEntries(es: Entries, heap: Heap, order: seq<u32>, tick: nat, wrapped: bool)
    requires heap == multiset{} && Tracked(es, heap, order, tick, wrapped)
    ensures es == map[]
  {
    hide Distinct, InUseOrder;
  }

  predicate Before(a: (nat, u32), b: (nat, u32)) { a.0 < b.0 || (a.0 == b.0 && a.1 <= b.1) }

  method Smallest(heap: Heap) returns (m: (nat, u32))
    requires heap != multiset{}
    ensures m in heap && forall x :: x in heap ==> Before(m, x)
  {
    m :| m in heap;
    var rest := heap;
    while rest != multiset{}
      invariant m in heap && rest <= heap
      invariant forall x :: x in heap && x !in rest ==> Before(m, x)
      decreases |rest|
    {
      var x :| x in rest;
      if !Before(m, x) { m := x; }
      rest := rest[x := 0];
    }
  }
}
