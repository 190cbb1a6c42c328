/** Freeing a whole b-tree: which pages it visits, in which order, and what returning
    them one by one does to the freelist. */
module FreeTree {
  import opened Bytes
  import opened Freelist
  import opened Allocator
  import opened TreePages

  /** A page, the overflow chain of each of its cells (empty if the cell has none), and
      the subtrees below it from left to right. */
  datatype Tree = Tree(page: u32, kind: PageKind, chains: seq<seq<u32>>, kids: seq<Tree>)

  function Concat(chains: seq<seq<u32>>): seq<u32>
  {
    if chains == [] then [] else chains[0] + Concat(chains[1..])
  }

  /** Every page of the tree, in the order the pages are freed. */
  function PagesOf(t: Tree): (ps: seq<u32>)
    ensures |ps| >= 1
    decreases t, 0
  {
    Concat(t.chains) + PagesOfAll(t.kids) + [t.page]
  }

  function PagesOfAll(ts: seq<Tree>): seq<u32>
    decreases ts, 1
  {
    if ts == [] then [] else PagesOf(ts[0]) + PagesOfAll(ts[1..])
  }

  // ---------------------------------------------------------------- reading the tree

  /** `c` is an overflow chain: each page names the next one, the last names none. */
  ghost predicate IsChain(w: PageMap, c: seq<u32>) { forall i :: 0 <= i < |c| ==> Links(w, c[i], NextIn(c, i)) }

  function NextIn(c: seq<u32>, i: nat): u32 { if i + 1 < |c| then c[i + 1] else 0 }

  ghost predicate Links(w: PageMap, p: u32, next: u32) { p != 0 && p in w && |w[p]| >= 4 && U32At(w[p], 0) == next }

  ghost predicate CellChain(buf: Page, hs: nat, k: PageKind, i: nat, usable: nat, c: seq<u32>)
  {
    match OverflowOf(buf, hs, k, i, usable)
    case Ok(None) => c == []
    case Ok(Some(o)) => c != [] && c[0] == o.first && |c| == o.hops && o.payload <= MAX_PAYLOAD_LEN
    case Err(_) => false
  }

  /** The page itself: kind, cell count, chains and child pointers. */
  ghost predicate IsNode(buf: Page, usable: nat, t: Tree)
  {
    var hs := HeaderStart(t.page);
    && KindOf(buf, hs) == Ok(t.kind) && CellCount(buf, hs).Ok?
    && var n := CellCount(buf, hs).value;
    && (t.kind == TableInterior ==> t.chains == [])
    && (t.kind != TableInterior ==> |t.chains| == n && forall i :: 0 <= i < n ==> CellChain(buf, hs, t.kind, i, usable, t.chains[i]))
    && (!Interior(t.kind) ==> t.kids == [])
    && (Interior(t.kind) ==>
          && |t.kids| == n + 1 && RightmostOf(buf, hs) == Ok(t.kids[n].page)
          && forall i :: 0 <= i < n ==> ChildOf(buf, hs, t.kind, i) == Ok(t.kids[i].page))
  }

  ghost predicate IsTree(w: PageMap, usable: nat, t: Tree)
    decreases t, 0
  {
    && t.page in w && IsNode(w[t.page], usable, t)
    && (forall i :: 0 <= i < |t.chains| ==> IsChain(w, t.chains[i]))
    && AreTrees(w, usable, t.kids)
  }

  ghost predicate AreTrees(w: PageMap, usable: nat, ts: seq<Tree>)
    decreases ts, 1
  {
    ts == [] || (IsTree(w, usable, ts[0]) && AreTrees(w, usable, ts[1..]))
  }

  // ---------------------------------------------------------------- freeing in order

  lemma DeallocateShaped(w: PageMap, pageSize: nat, p: u32)
    requires Shaped(w, pageSize)
    ensures Deallocate(w, pageSize, p).Ok? ==> Shaped(Deallocate(w, pageSize, p).value, pageSize)
  {
    hide U32At, Put, TrunkBytes, ParseTrunk, WithFree;
  }

  /** Returning pages one after another. */
  function DeallocAll(w: PageMap, pageSize: nat, ps: seq<u32>): Result<PageMap, StoreError>
    requires Shaped(w, pageSize)
    decreases |ps|
  {
    if ps == [] then Ok(w)
    else match Deallocate(w, pageSize, ps[0])
      case Err(e) => Err(e)
      case Ok(w1) => DeallocateShaped(w, pageSize, ps[0]); DeallocAll(w1, pageSize, ps[1..])
  }

  function PushAll(ts: Chain, pageSize: nat, ps: seq<u32>): Chain
    decreases |ps|
  {
    if ps == [] then ts else PushAll(Pushed(ts, pageSize, ps[0]), pageSize, ps[1..])
  }

  lemma {:induction false} PushAllAppend(ts: Chain, pageSize: nat, a: seq<u32>, b: seq<u32>)
    ensures PushAll(ts, pageSize, a + b) == PushAll(PushAll(ts, pageSize, a), pageSize, b)
    decreases |a|
  {
    hide Pushed;
    if a == [] {
      assert a + b == b;
    } else {
      assert (a + b)[1..] == a[1..] + b;
      PushAllAppend(Pushed(ts, pageSize, a[0]), pageSize, a[1..], b);
    }
  }

  lemma {:induction false} DeallocAllAppend(w: PageMap, pageSize: nat, a: seq<u32>, b: seq<u32>)
    requires Shaped(w, pageSize) && DeallocAll(w, pageSize, a).Ok?
    ensures Shaped(DeallocAll(w, pageSize, a).value, pageSize)
    ensures DeallocAll(w, pageSize, a + b) == DeallocAll(DeallocAll(w, pageSize, a).value, pageSize, b)
    decreases |a|
  {
    hide Deallocate;
    if a == [] {
      assert a + b == b;
    } else {
      assert (a + b)[1..] == a[1..] + b;
      DeallocateShaped(w, pageSize, a[0]);
      DeallocAllAppend(Deallocate(w, pageSize, a[0]).value, pageSize, a[1..], b);
    }
  }

  /** Pages in use, each listed once, none of them page 1. */
  ghost predicate Freeable(w: PageMap, ts: Chain, ps: seq<u32>)
  {
    && (forall i, j :: 0 <= i < j < |ps| ==> ps[i] != ps[j])
    && (forall i :: 0 <= i < |ps| ==> ps[i] in w && ps[i] != 1 && ps[i] !in FreeSet(ts))
  }

  /** Page `q` is neither free, nor page 1, nor among `ps`. */
  ghost predicate Bystander(w: PageMap, ts: Chain, ps: seq<u32>, q: u32) { q in w && q != 1 && q !in FreeSet(ts) && q !in ps }

  /** Freeing such pages puts exactly them on the list and disturbs no other page. */
  lemma {:induction false} DeallocAllKeeps(w: PageMap, pageSize: nat, ts: Chain, ps: seq<u32>)
    requires FreeInv(w, pageSize, ts) && Freeable(w, ts, ps)
    ensures DeallocAll(w, pageSize, ps).Ok?
    ensures var w' := DeallocAll(w, pageSize, ps).value;
            && FreeInv(w', pageSize, PushAll(ts, pageSize, ps)) && w'.Keys == w.Keys
            && FreeSet(PushAll(ts, pageSize, ps)) == FreeSet(ts) + (set p | p in ps)
            && FreeCountIn(w'[1]) == FreeCountIn(w[1]) + |ps| && CountIn(w'[1]) == CountIn(w[1])
            && (forall q :: Bystander(w, ts, ps, q) ==> w'[q] == w[q])
    decreases |ps|
  {
    hide U32At, Follows, Deallocate, AfterPush, Pushed, FreeSet, Size;
    if ps != [] {
      var p, rest := ps[0], ps[1..];
      assert ps == [p] + rest;
      StepKeeps(w, pageSize, ts, p);
      var w1, ts1 := AfterPush(w, pageSize, ts, p), Pushed(ts, pageSize, p);
      FreeableRest(w, w1, ts, ts1, ps);
      DeallocAllKeeps(w1, pageSize, ts1, rest);
      var w' := DeallocAll(w, pageSize, ps).value;
      forall q | Bystander(w, ts, ps, q) ensures w'[q] == w[q] {
        assert Bystander(w1, ts1, rest, q) && Bystander(w, ts, [p], q);
      }
    }
  }

  lemma FreeableRest(w: PageMap, w1: PageMap, ts: Chain, ts1: Chain, ps: seq<u32>)
    requires ps != [] && Freeable(w, ts, ps) && w1.Keys == w.Keys && FreeSet(ts1) == FreeSet(ts) + {ps[0]}
    ensures Freeable(w1, ts1, ps[1..])
  {
    hide FreeSet;
  }

  lemma StepKeeps(w: PageMap, pageSize: nat, ts: Chain, p: u32)
    requires FreeInv(w, pageSize, ts) && p in w && p != 1 && p !in FreeSet(ts)
    ensures FreeCountIn(w[1]) < U32_MAX && Shaped(w, pageSize)
    ensures var w1 := AfterPush(w, pageSize, ts, p);
            && Deallocate(w, pageSize, p) == Ok(w1) && FreeInv(w1, pageSize, Pushed(ts, pageSize, p)) && w1.Keys == w.Keys
            && FreeSet(Pushed(ts, pageSize, p)) == FreeSet(ts) + {p}
            && FreeCountIn(w1[1]) == FreeCountIn(w[1]) + 1 && CountIn(w1[1]) == CountIn(w[1])
            && (forall q :: Bystander(w, ts, [p], q) ==> w1[q] == w[q])
            && (HasRoom(ts, pageSize) ==> w1[p] == w[p])
  {
    hide U32At, Follows, Deallocate, AfterPush, Pushed, FreeSet, Size;
    DeallocateKeeps(w, pageSize, ts, p);
    PushFollows(w, pageSize, ts, p);
    PushedSets(ts, pageSize, p);
    forall q | Bystander(w, ts, [p], q) ensures AfterPush(w, pageSize, ts, p)[q] == w[q] {
      PushFrame(w, pageSize, ts, p, q);
    }
    if HasRoom(ts, pageSize) { PushFrame(w, pageSize, ts, p, p); }
  }
}
