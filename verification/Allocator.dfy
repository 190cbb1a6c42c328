/** Allocating and freeing pages against the freelist in page 1, on the database a
    connection currently sees, and the integrity check that walks the same list. */
module Allocator {
  import opened Bytes
  import opened Freelist

  const PAGE_COUNT_OFFSET: nat := 28
  const FREELIST_TRUNK_PAGE_OFFSET: nat := 32
  const FREELIST_PAGE_COUNT_OFFSET: nat := 36

  datatype StoreError = NoSuchPage(page: u32) | BadTrunk(error: FreelistError)

  /** Whole pages of a legal size, page 1 among them. */
  ghost predicate Shaped(w: PageMap, pageSize: nat)
  {
    && 512 <= pageSize <= 65536 && 1 in w && forall p :: p in w ==> |w[p]| == pageSize
  }

  function CountIn(page1: Page): u32
    requires |page1| >= 40
  {
    U32At(page1, PAGE_COUNT_OFFSET)
  }

  function HeadIn(page1: Page): u32
    requires |page1| >= 40
  {
    U32At(page1, FREELIST_TRUNK_PAGE_OFFSET)
  }

  function FreeCountIn(page1: Page): u32
    requires |page1| >= 40
  {
    U32At(page1, FREELIST_PAGE_COUNT_OFFSET)
  }

  function WithCount(page1: Page, count: u32): (r: Page)
    requires |page1| >= 40
    ensures |r| == |page1|
  {
    Put(page1, PAGE_COUNT_OFFSET, BE32(count))
  }

  function WithFree(page1: Page, head: u32, count: u32): (r: Page)
    requires |page1| >= 40
    ensures |r| == |page1|
  {
    Put(Put(page1, FREELIST_TRUNK_PAGE_OFFSET, BE32(head)), FREELIST_PAGE_COUNT_OFFSET, BE32(count))
  }

  /** Where the fields of page 1 stand, and that setting them leaves all other bytes alone. */
  lemma PageOneFields(page1: Page, count: u32, head: u32, free: u32)
    requires |page1| >= 40
    ensures CountIn(page1) == U32At(page1, 28) && HeadIn(page1) == U32At(page1, 32) && FreeCountIn(page1) == U32At(page1, 36)
    ensures var r := WithCount(page1, count); r[28..32] == BE32(count) && r[..28] == page1[..28] && r[32..] == page1[32..]
    ensures var r := WithFree(page1, head, free);
            r[32..36] == BE32(head) && r[36..40] == BE32(free) && r[..32] == page1[..32] && r[40..] == page1[40..]
  {
    hide BE32, U32At;
  }

  /** Setting the page count touches that field only. */
  lemma FieldsAfterCount(page1: Page, count: u32)
    requires |page1| >= 40
    ensures var r := WithCount(page1, count);
            CountIn(r) == count && HeadIn(r) == HeadIn(page1) && FreeCountIn(r) == FreeCountIn(page1)
  {
    hide BE32, U32At;
    var r := WithCount(page1, count);
    ReadBack32(r, 28, count);
    assert r[32..36] == page1[32..36] && r[36..40] == page1[36..40];
    SameField32(r, page1, 32, 32);
    SameField32(r, page1, 36, 36);
  }

  /** Setting the two freelist fields touches those only. */
  lemma FieldsAfterFree(page1: Page, head: u32, count: u32)
    requires |page1| >= 40
    ensures var r := WithFree(page1, head, count);
            CountIn(r) == CountIn(page1) && HeadIn(r) == head && FreeCountIn(r) == count
  {
    hide BE32, U32At;
    var r := WithFree(page1, head, count);
    assert r[28..32] == page1[28..32] && r[32..36] == BE32(head);
    SameField32(r, page1, 28, 28);
    ReadBack32(r, 32, head);
    ReadBack32(r, 36, count);
  }

  // --------------------------------------------------------------- the operations

  function SaturatingNext(n: u32): u32 { if n == U32_MAX then n else n + 1 }

  /** Pops the last leaf of the first trunk, or the trunk itself, or extends the file. */
  function Allocate(w: PageMap, pageSize: nat): Result<(u32, PageMap), StoreError>
    requires 512 <= pageSize && 1 in w && |w[1]| == pageSize
  {
    var page1 := w[1];
    var head := HeadIn(page1);
    if head == 0 then
      var n := SaturatingNext(CountIn(page1));
      var w1 := w[n := Zeros(pageSize)];
      Ok((n, w1[1 := WithCount(w1[1], n)]))
    else if head !in w then Err(NoSuchPage(head))
    else match ParseTrunk(w[head])
      case Err(e) => Err(BadTrunk(e))
      case Ok(t) =>
        var count := if FreeCountIn(page1) == 0 then 0 else FreeCountIn(page1) - 1;
        if t.leaves == [] then
          Ok((head, w[1 := WithFree(page1, t.next, count)]))
        else
          var n := |t.leaves| - 1;
          assert FitsIn(Trunk(t.next, t.leaves[..n]), |w[head]|);
          var w1 := w[head := TrunkBytes(Trunk(t.next, t.leaves[..n]), |w[head]|)];
          if |w1[1]| < 40 then Err(NoSuchPage(1))
          else Ok((t.leaves[n], w1[1 := WithFree(w1[1], head, count)]))
  }

  /** Adds a leaf to the first trunk if it has room, otherwise makes the page the new
      first trunk. */
  function Deallocate(w: PageMap, pageSize: nat, p: u32): Result<PageMap, StoreError>
    requires 512 <= pageSize <= 65536 && 1 in w && forall q :: q in w ==> |w[q]| == pageSize
  {
    var page1 := w[1];
    var head := HeadIn(page1);
    var count := SaturatingNext(FreeCountIn(page1));
    if head != 0 && head !in w then Err(NoSuchPage(head))
    else if head != 0 && ParseTrunk(w[head]).Err? then Err(BadTrunk(ParseTrunk(w[head]).error))
    else if head != 0 && |ParseTrunk(w[head]).value.leaves| < MaxLeaves(pageSize) then
      var t := ParseTrunk(w[head]).value;
      var w1 := w[head := TrunkBytes(Trunk(t.next, t.leaves + [p]), pageSize)];
      Ok(w1[1 := WithFree(w1[1], head, count)])
    else if p !in w then Err(NoSuchPage(p))
    else
      var w1 := w[p := TrunkBytes(Trunk(head, []), pageSize)];
      Ok(w1[1 := WithFree(w1[1], p, count)])
  }

  // -------------------------------------------------------------------- the chain

  /** The trunk pages in chain order, each with its leaves. */
  type Chain = seq<(u32, seq<u32>)>

  function FreeSet(ts: Chain): set<u32>
  {
    if ts == [] then {} else {ts[0].0} + Members(ts[0].1) + FreeSet(ts[1..])
  }

  /** Pages on the list, counted with repetition. */
  function Size(ts: Chain): nat
  {
    if ts == [] then 0 else 1 + |ts[0].1| + Size(ts[1..])
  }

  /** Following the list from `head` finds exactly `ts`. */
  ghost predicate Follows(w: PageMap, pageSize: nat, head: u32, ts: Chain)
    decreases |ts|
  {
    if ts == [] then head == 0
    else
      && head != 0 && ts[0].0 == head && head in w && ParseTrunk(w[head]).Ok?
      && ParseTrunk(w[head]).value.leaves == ts[0].1 && |ts[0].1| <= MaxLeaves(pageSize)
      && Follows(w, pageSize, ParseTrunk(w[head]).value.next, ts[1..])
  }

  predicate Numbered(p: u32, count: nat) { 1 <= p <= count }

  function Pages(count: nat): set<u32> { set p: u32 | Numbered(p, count) }

  /** The freelist is a chain of distinct pages, none of them page 1, all inside the
      database; the header counts them. */
  ghost predicate FreeInv(w: PageMap, pageSize: nat, ts: Chain)
  {
    && Shaped(w, pageSize) && w.Keys == Pages(CountIn(w[1]))
    && Follows(w, pageSize, HeadIn(w[1]), ts)
    && |FreeSet(ts)| == Size(ts) == FreeCountIn(w[1])
    && FreeSet(ts) <= Pages(CountIn(w[1])) - {1}
  }

  lemma {:induction false} FollowsFrame(w: PageMap, w': PageMap, pageSize: nat, head: u32, ts: Chain)
    requires Follows(w, pageSize, head, ts)
    requires forall p :: p in FreeSet(ts) && p in w ==> p in w' && w'[p] == w[p]
    ensures Follows(w', pageSize, head, ts)
    decreases |ts|
  {
    hide ParseTrunk, MaxLeaves;
    if ts != [] {
      FollowsFrame(w, w', pageSize, ParseTrunk(w[head]).value.next, ts[1..]);
    }
  }

  lemma {:induction false} SizeBounds(ts: Chain)
    ensures |FreeSet(ts)| <= Size(ts)
  {
    if ts != [] {
      SizeBounds(ts[1..]);
      LeafCount(ts[0].1);
      Union3({ts[0].0}, Members(ts[0].1), FreeSet(ts[1..]));
    }
  }

  lemma {:induction false} LeafCount(leaves: seq<u32>)
    ensures |Members(leaves)| <= |leaves|
  {
    if leaves != [] {
      var n := |leaves| - 1;
      LeafCount(leaves[..n]);
      assert Members(leaves) == Members(leaves[..n]) + {leaves[n]};
    }
  }

  lemma Union3(a: set<u32>, b: set<u32>, c: set<u32>)
    ensures |a + b + c| <= |a| + |b| + |c|
    ensures |a + b + c| == |a| + |b| + |c| ==> a !! b && (a + b) !! c
  {
    assert |a + b| == |a| + |b| - |a * b|;
    assert |(a + b) + c| == |a + b| + |c| - |(a + b) * c|;
    if |a + b + c| == |a| + |b| + |c| {
      assert a * b == {} && (a + b) * c == {};
      assert forall x :: x in a && x in b ==> x in a * b;
      assert forall x :: x in a + b && x in c ==> x in (a + b) * c;
    }
  }

  /** Counted without loss, the first trunk, its leaves and the rest are all different. */
  lemma SplitFirst(ts: Chain)
    requires ts != [] && |FreeSet(ts)| == Size(ts)
    ensures var leaves, rest := ts[0].1, ts[1..];
            && |Members(leaves)| == |leaves| && |FreeSet(rest)| == Size(rest)
            && ts[0].0 !in Members(leaves) && ts[0].0 !in FreeSet(rest) && Members(leaves) !! FreeSet(rest)
  {
    SizeBounds(ts[1..]);
    LeafCount(ts[0].1);
    Union3({ts[0].0}, Members(ts[0].1), FreeSet(ts[1..]));
  }

  // ------------------------------------------------------------------- allocating

  /** The chain once a page has been taken from it. */
  function Popped(ts: Chain): Chain
  {
    if ts == [] then []
    else if ts[0].1 == [] then ts[1..]
    else [(ts[0].0, ts[0].1[..|ts[0].1| - 1])] + ts[1..]
  }

  /** The page taken: the last leaf, else the trunk, else the page after the last. */
  function Taken(ts: Chain, count: u32): u32
  {
    if ts == [] then SaturatingNext(count)
    else if ts[0].1 == [] then ts[0].0
    else ts[0].1[|ts[0].1| - 1]
  }

  lemma PoppedSets(ts: Chain, count: u32)
    requires ts != [] && |FreeSet(ts)| == Size(ts)
    ensures Taken(ts, count) in FreeSet(ts) && Taken(ts, count) !in FreeSet(Popped(ts))
    ensures FreeSet(Popped(ts)) == FreeSet(ts) - {Taken(ts, count)}
    ensures Size(Popped(ts)) == Size(ts) - 1 == |FreeSet(Popped(ts))|
  {
    hide Members, FreeSet, Size, Popped, Taken;
    if ts[0].1 == [] { PopTrunkSet(ts); } else { PopLeafSet(ts); }
    assert FreeSet(Popped(ts)) == FreeSet(ts) - {Taken(ts, count)};
  }

  lemma PopTrunkSet(ts: Chain)
    requires ts != [] && ts[0].1 == [] && |FreeSet(ts)| == Size(ts)
    ensures Popped(ts) == ts[1..] && forall c :: Taken(ts, c) == ts[0].0
    ensures ts[0].0 !in FreeSet(ts[1..]) && FreeSet(ts) == FreeSet(ts[1..]) + {ts[0].0}
    ensures Size(ts[1..]) == Size(ts) - 1 == |FreeSet(ts[1..])|
  {
    hide Members, FreeSet, Size;
    SplitFirst(ts);
    Unfold(ts);
    NoLeaves();
  }

  lemma PopLeafSet(ts: Chain)
    requires ts != [] && ts[0].1 != [] && |FreeSet(ts)| == Size(ts)
    ensures var p := ts[0].1[|ts[0].1| - 1];
            && (forall c :: Taken(ts, c) == p) && p !in FreeSet(Popped(ts)) && FreeSet(ts) == FreeSet(Popped(ts)) + {p}
            && Size(Popped(ts)) == Size(ts) - 1 == |FreeSet(Popped(ts))|
  {
    hide Members, FreeSet, Size;
    var leaves := ts[0].1;
    var n := |leaves| - 1;
    SplitFirst(ts);
    Unfold(ts);
    Unfold(Popped(ts));
    DropLastLeaf(leaves);
    assert Popped(ts)[1..] == ts[1..];
    assert FreeSet(ts) == FreeSet(Popped(ts)) + {leaves[n]};
  }

  lemma Unfold(ts: Chain)
    requires ts != []
    ensures FreeSet(ts) == {ts[0].0} + Members(ts[0].1) + FreeSet(ts[1..])
    ensures Size(ts) == 1 + |ts[0].1| + Size(ts[1..])
  {
  }

  lemma NoLeaves()
    ensures Members([]) == {}
  {
  }

  lemma DropLastLeaf(leaves: seq<u32>)
    requires leaves != [] && |Members(leaves)| == |leaves|
    ensures var n := |leaves| - 1;
            leaves[n] in Members(leaves) && Members(leaves[..n]) == Members(leaves) - {leaves[n]}
  {
    var n := |leaves| - 1;
    LeafCount(leaves[..n]);
    assert Members(leaves) == Members(leaves[..n]) + {leaves[n]};
    assert leaves[n] !in Members(leaves[..n]);
  }

  /** Extending: nothing is free, the new page is numbered one past the last. */
  lemma AllocateExtends(w: PageMap, pageSize: nat)
    requires FreeInv(w, pageSize, []) && CountIn(w[1]) < U32_MAX
    ensures var n := CountIn(w[1]) + 1;
            var r := Allocate(w, pageSize);
            && r.Ok? && r.value.0 == n && n !in w
            && r.value.1 == w[n := Zeros(pageSize)][1 := WithCount(w[1], n)]
            && FreeInv(r.value.1, pageSize, [])
  {
    hide U32At, Put, Zeros;
    var n := CountIn(w[1]) + 1;
    var w' := Allocate(w, pageSize).value.1;
    FieldsAfterCount(w[1], n);
    assert Numbered(1, CountIn(w[1])) by { assert 1 in w.Keys; }
    assert n !in w by { assert !Numbered(n, CountIn(w[1])); }
    assert w'.Keys == w.Keys + {n};
    assert Pages(n) == Pages(CountIn(w[1])) + {n} by {
      forall p: u32 ensures Numbered(p, n) <==> Numbered(p, n - 1) || p == n {}
    }
  }

  /** The database after a page has been taken from the list. */
  function AfterPop(w: PageMap, pageSize: nat, ts: Chain): PageMap
    requires ts != [] && Follows(w, pageSize, ts[0].0, ts) && Shaped(w, pageSize) && FreeCountIn(w[1]) > 0
  {
    var t := ParseTrunk(w[ts[0].0]).value;
    var n := |t.leaves| - 1;
    if t.leaves == [] then w[1 := WithFree(w[1], t.next, FreeCountIn(w[1]) - 1)]
    else w[ts[0].0 := TrunkBytes(Trunk(t.next, t.leaves[..n]), pageSize)]
          [1 := WithFree(w[1], ts[0].0, FreeCountIn(w[1]) - 1)]
  }

  lemma PopFollows(w: PageMap, pageSize: nat, ts: Chain)
    requires FreeInv(w, pageSize, ts) && ts != []
    ensures FreeCountIn(w[1]) > 0
    ensures var w' := AfterPop(w, pageSize, ts);
            && |w'[1]| == pageSize && HeadIn(w'[1]) == (if Popped(ts) == [] then 0 else Popped(ts)[0].0)
            && CountIn(w'[1]) == CountIn(w[1]) && FreeCountIn(w'[1]) == FreeCountIn(w[1]) - 1
            && Follows(w', pageSize, HeadIn(w'[1]), Popped(ts))
  {
    hide U32At, Put, TrunkBytes, ParseTrunk, WithFree, MaxLeaves, FreeSet, Members, Size;
    SplitFirst(ts);
    Unfold(ts);
    FirstTrunk(w, pageSize, ts);
    var t := ParseTrunk(w[ts[0].0]).value;
    FieldsAfterFree(w[1], if ts[0].1 == [] then t.next else ts[0].0, FreeCountIn(w[1]) - 1);
    FollowsFrame(w, AfterPop(w, pageSize, ts), pageSize, t.next, ts[1..]);
    if ts[0].1 != [] {
      CutTrunk(t, pageSize);
      assert Popped(ts)[1..] == ts[1..];
    }
  }

  lemma CutTrunk(t: Trunk, pageSize: nat)
    requires t.leaves != [] && |t.leaves| <= MaxLeaves(pageSize) && 512 <= pageSize <= 65536
    ensures var cut := Trunk(t.next, t.leaves[..|t.leaves| - 1]);
            FitsIn(cut, pageSize) && ParseTrunk(TrunkBytes(cut, pageSize)) == Ok(cut)
  {
    TrunkRoundTrip(Trunk(t.next, t.leaves[..|t.leaves| - 1]), pageSize);
  }

  /** Reusing: the page taken was free, and the others stay on the list. */
  lemma AllocateReuses(w: PageMap, pageSize: nat, ts: Chain)
    requires FreeInv(w, pageSize, ts) && ts != []
    ensures FreeCountIn(w[1]) > 0
    ensures Allocate(w, pageSize) == Ok((Taken(ts, CountIn(w[1])), AfterPop(w, pageSize, ts)))
    ensures FreeInv(AfterPop(w, pageSize, ts), pageSize, Popped(ts))
    ensures AfterPop(w, pageSize, ts).Keys == w.Keys
  {
    hide U32At, Follows, Allocate, AfterPop, Popped, FreeSet, Size, Taken;
    PopFollows(w, pageSize, ts);
    PoppedSets(ts, CountIn(w[1]));
    PopShape(w, pageSize, ts);
    AllocateIs(w, pageSize, ts);
  }

  lemma PopShape(w: PageMap, pageSize: nat, ts: Chain)
    requires FreeInv(w, pageSize, ts) && ts != [] && FreeCountIn(w[1]) > 0
    ensures Follows(w, pageSize, ts[0].0, ts)
    ensures Shaped(AfterPop(w, pageSize, ts), pageSize) && AfterPop(w, pageSize, ts).Keys == w.Keys
  {
    hide U32At, Put, TrunkBytes, ParseTrunk, WithFree, Follows, FreeSet, Size;
    FirstTrunk(w, pageSize, ts);
    assert AfterPop(w, pageSize, ts).Keys == w.Keys;
  }

  lemma AllocateIs(w: PageMap, pageSize: nat, ts: Chain)
    requires FreeInv(w, pageSize, ts) && ts != [] && FreeCountIn(w[1]) > 0
    ensures Allocate(w, pageSize) == Ok((Taken(ts, CountIn(w[1])), AfterPop(w, pageSize, ts)))
  {
    hide U32At, Put, TrunkBytes, ParseTrunk, WithFree, FreeSet, Size;
    FirstTrunk(w, pageSize, ts);
  }

  lemma FirstTrunk(w: PageMap, pageSize: nat, ts: Chain)
    requires FreeInv(w, pageSize, ts) && ts != []
    ensures var t0 := ts[0].0;
            && t0 == HeadIn(w[1]) != 0 && t0 != 1 && t0 in w && t0 in FreeSet(ts)
            && ParseTrunk(w[t0]).Ok? && ParseTrunk(w[t0]).value.leaves == ts[0].1 && |ts[0].1| <= MaxLeaves(pageSize)
  {
    hide U32At, ParseTrunk, MaxLeaves;
    assert ts[0].0 in FreeSet(ts);
  }

  /** Taking a page writes page 1 and at most the first trunk. */
  lemma PopFrame(w: PageMap, pageSize: nat, ts: Chain, p: u32)
    requires FreeInv(w, pageSize, ts) && ts != [] && FreeCountIn(w[1]) > 0
    requires p in w && p != 1 && (p !in FreeSet(ts) || ts[0].1 == [])
    ensures AfterPop(w, pageSize, ts)[p] == w[p]
  {
    hide U32At, Put, TrunkBytes, ParseTrunk, MaxLeaves, WithFree, Follows;
    FirstTrunk(w, pageSize, ts);
  }

  // ---------------------------------------------------------------------- freeing

  /** The chain once page `p` has been returned to it. */
  function Pushed(ts: Chain, pageSize: nat, p: u32): Chain
  {
    if ts != [] && |ts[0].1| < MaxLeaves(pageSize) then [(ts[0].0, ts[0].1 + [p])] + ts[1..]
    else [(p, [])] + ts
  }

  lemma PushedSets(ts: Chain, pageSize: nat, p: u32)
    requires |FreeSet(ts)| == Size(ts) && p !in FreeSet(ts)
    ensures FreeSet(Pushed(ts, pageSize, p)) == FreeSet(ts) + {p}
    ensures Size(Pushed(ts, pageSize, p)) == Size(ts) + 1 == |FreeSet(Pushed(ts, pageSize, p))|
  {
    hide MaxLeaves;
    var ts' := Pushed(ts, pageSize, p);
    if ts != [] && |ts[0].1| < MaxLeaves(pageSize) {
      assert Members(ts[0].1 + [p]) == Members(ts[0].1) + {p};
      assert ts'[1..] == ts[1..];
    } else {
      assert Members([]) == {};
      assert ts'[1..] == ts;
    }
  }

  predicate HasRoom(ts: Chain, pageSize: nat) { ts != [] && |ts[0].1| < MaxLeaves(pageSize) }

  /** The database after page `p` has been put on the list. */
  function AfterPush(w: PageMap, pageSize: nat, ts: Chain, p: u32): PageMap
    requires FreeInv(w, pageSize, ts) && p in w && FreeCountIn(w[1]) < U32_MAX
  {
    hide U32At;
    if HasRoom(ts, pageSize) then
      w[ts[0].0 := TrunkBytes(Trunk(ParseTrunk(w[ts[0].0]).value.next, ts[0].1 + [p]), pageSize)]
       [1 := WithFree(w[1], ts[0].0, FreeCountIn(w[1]) + 1)]
    else
      w[p := TrunkBytes(Trunk(HeadIn(w[1]), []), pageSize)][1 := WithFree(w[1], p, FreeCountIn(w[1]) + 1)]
  }

  lemma PushFollows(w: PageMap, pageSize: nat, ts: Chain, p: u32)
    requires FreeInv(w, pageSize, ts) && p in w && p != 1 && p !in FreeSet(ts) && FreeCountIn(w[1]) < U32_MAX
    ensures var w' := AfterPush(w, pageSize, ts, p);
            && |w'[1]| == pageSize && CountIn(w'[1]) == CountIn(w[1]) && FreeCountIn(w'[1]) == FreeCountIn(w[1]) + 1
            && Follows(w', pageSize, HeadIn(w'[1]), Pushed(ts, pageSize, p))
  {
    hide U32At, Put, TrunkBytes, ParseTrunk, BE32;
    var ts' := Pushed(ts, pageSize, p);
    var w' := AfterPush(w, pageSize, ts, p);
    FieldsAfterFree(w[1], if HasRoom(ts, pageSize) then ts[0].0 else p, FreeCountIn(w[1]) + 1);
    if HasRoom(ts, pageSize) {
      SplitFirst(ts);
      FirstTrunk(w, pageSize, ts);
      var next := ParseTrunk(w[ts[0].0]).value.next;
      TrunkRoundTrip(Trunk(next, ts[0].1 + [p]), pageSize);
      FollowsFrame(w, w', pageSize, next, ts[1..]);
      assert ts'[1..] == ts[1..];
    } else {
      TrunkRoundTrip(Trunk(HeadIn(w[1]), []), pageSize);
      FollowsFrame(w, w', pageSize, HeadIn(w[1]), ts);
      assert ts'[1..] == ts;
    }
  }

  /** Freeing a page in use puts exactly that page on the list. */
  lemma DeallocateKeeps(w: PageMap, pageSize: nat, ts: Chain, p: u32)
    requires FreeInv(w, pageSize, ts) && p in w && p != 1 && p !in FreeSet(ts)
    ensures FreeCountIn(w[1]) < U32_MAX
    ensures Deallocate(w, pageSize, p) == Ok(AfterPush(w, pageSize, ts, p))
    ensures FreeInv(AfterPush(w, pageSize, ts, p), pageSize, Pushed(ts, pageSize, p))
    ensures AfterPush(w, pageSize, ts, p).Keys == w.Keys
  {
    hide U32At, Follows, Deallocate, AfterPush, Pushed, FreeSet, Size;
    PushedSets(ts, pageSize, p);
    CountFits(w, pageSize, ts);
    PushFollows(w, pageSize, ts, p);
    PushShape(w, pageSize, ts, p);
    DeallocateIs(w, pageSize, ts, p);
    assert p in Pages(CountIn(w[1]));
  }

  lemma PushShape(w: PageMap, pageSize: nat, ts: Chain, p: u32)
    requires FreeInv(w, pageSize, ts) && p in w && FreeCountIn(w[1]) < U32_MAX
    ensures Shaped(AfterPush(w, pageSize, ts, p), pageSize) && AfterPush(w, pageSize, ts, p).Keys == w.Keys
  {
    hide U32At, Put, TrunkBytes, ParseTrunk, WithFree, Follows, FreeSet, Size;
    if ts != [] { FirstTrunk(w, pageSize, ts); }
    assert AfterPush(w, pageSize, ts, p).Keys == w.Keys;
  }

  lemma DeallocateIs(w: PageMap, pageSize: nat, ts: Chain, p: u32)
    requires FreeInv(w, pageSize, ts) && p in w && p != 1 && p !in FreeSet(ts) && FreeCountIn(w[1]) < U32_MAX
    ensures Deallocate(w, pageSize, p) == Ok(AfterPush(w, pageSize, ts, p))
  {
    hide U32At, Put, TrunkBytes, ParseTrunk, WithFree;
    if ts != [] { FirstTrunk(w, pageSize, ts); }
  }

  /** Freeing writes page 1, the first trunk, and, only when that trunk is full or there
      is none, the freed page itself. */
  lemma PushFrame(w: PageMap, pageSize: nat, ts: Chain, p: u32, q: u32)
    requires FreeInv(w, pageSize, ts) && p in w && FreeCountIn(w[1]) < U32_MAX
    requires q in w && q != 1 && q !in FreeSet(ts) && (q != p || HasRoom(ts, pageSize))
    ensures AfterPush(w, pageSize, ts, p)[q] == w[q]
  {
    hide U32At, Put, TrunkBytes, ParseTrunk, WithFree, Follows;
    if ts != [] { FirstTrunk(w, pageSize, ts); }
  }

  /** Fewer pages are free than there are, so the count does not saturate. */
  lemma CountFits(w: PageMap, pageSize: nat, ts: Chain)
    requires FreeInv(w, pageSize, ts)
    ensures FreeCountIn(w[1]) < CountIn(w[1])
  {
    hide U32At, Follows;
    PagesCount(CountIn(w[1]));
    assert 1 in w.Keys;
    Subset(FreeSet(ts), Pages(CountIn(w[1])) - {1});
  }

  lemma {:induction false} PagesCount(n: u32)
    ensures |Pages(n)| == n
  {
    if n == 0 {
      assert Pages(0) == {} by { forall p: u32 ensures !Numbered(p, 0) {} }
    } else {
      PagesCount(n - 1);
      assert Pages(n) == Pages(n - 1) + {n} by {
        forall p: u32 ensures Numbered(p, n) <==> Numbered(p, n - 1) || p == n {}
      }
      assert n !in Pages(n - 1) by { assert !Numbered(n, n - 1); }
    }
  }

  lemma Subset(a: set<u32>, b: set<u32>)
    requires a <= b
    ensures |a| <= |b|
  {
    assert b == a + (b - a);
  }
}
