/** Dropping a b-tree: the walk frees every page of a well-formed tree exactly once, in
    post-order, and nothing else; and exactly when it gets to the end. */
module FreeTreeWalk {
  import opened Bytes
  import opened Cells
  import opened Freelist
  import opened Allocator
  import opened TreePages
  import opened FreeTree
  import opened OverflowReread
  import opened Records

  // ------------------------------------------------------------------ when it succeeds

  /** The pages after returning `ps` one by one. */
  ghost function Freed(w: PageMap, pageSize: nat, ps: seq<u32>): PageMap
  {
    if Shaped(w, pageSize) && DeallocAll(w, pageSize, ps).Ok? then DeallocAll(w, pageSize, ps).value else w
  }

  /** Every interior index page of the tree can still read and decode its keys when its own
      overflow chains, and everything before it, have been returned. */
  ghost predicate Passes(w: PageMap, pageSize: nat, usable: nat, enc: TextEncoding, t: Tree)
    decreases t, 0
  {
    var w1 := Freed(w, pageSize, Concat(t.chains));
    && (t.kind == IndexInterior ==> t.page in w && ReadsKeys(w1, w[t.page], HeaderStart(t.page), |t.chains|, usable, enc))
    && PassAll(w1, pageSize, usable, enc, t.kids)
  }

  ghost predicate PassAll(w: PageMap, pageSize: nat, usable: nat, enc: TextEncoding, kids: seq<Tree>)
    decreases kids, 1
  {
    kids == [] || (Passes(w, pageSize, usable, enc, kids[0]) && PassAll(Freed(w, pageSize, PagesOf(kids[0])), pageSize, usable, enc, kids[1..]))
  }

  /** The keys of every interior index page decode as the tree stands. */
  ghost predicate Keyed(w: PageMap, usable: nat, enc: TextEncoding, t: Tree)
    decreases t, 0
  {
    && (t.kind == IndexInterior ==> t.page in w && ReadsKeys(w, w[t.page], HeaderStart(t.page), |t.chains|, usable, enc))
    && KeyedAll(w, usable, enc, t.kids)
  }

  ghost predicate KeyedAll(w: PageMap, usable: nat, enc: TextEncoding, kids: seq<Tree>)
    decreases kids, 1
  {
    kids == [] || (Keyed(w, usable, enc, kids[0]) && KeyedAll(w, usable, enc, kids[1..]))
  }

  /** Each of the pages finds room in the first trunk when its turn comes. */
  ghost predicate RoomFor(ts: Chain, pageSize: nat, ps: seq<u32>)
  {
    forall x :: 0 <= x < |ps| ==> HasRoom(PushAll(ts, pageSize, ps[..x]), pageSize)
  }

  /** Every overflow page of an interior index page becomes a leaf of the freelist. */
  ghost predicate Roomy(ts: Chain, pageSize: nat, t: Tree)
    decreases t, 0
  {
    (t.kind == IndexInterior ==> RoomFor(ts, pageSize, Concat(t.chains))) && RoomyAll(PushAll(ts, pageSize, Concat(t.chains)), pageSize, t.kids)
  }

  ghost predicate RoomyAll(ts: Chain, pageSize: nat, kids: seq<Tree>)
    decreases kids, 1
  {
    kids == [] || (Roomy(ts, pageSize, kids[0]) && RoomyAll(PushAll(ts, pageSize, PagesOf(kids[0])), pageSize, kids[1..]))
  }

  /** Without overflowing cells on interior index pages, nothing is read twice. */
  ghost predicate Plain(t: Tree)
    decreases t, 0
  {
    (t.kind == IndexInterior ==> Concat(t.chains) == []) && PlainAll(t.kids)
  }

  ghost predicate PlainAll(kids: seq<Tree>)
    decreases kids, 1
  {
    kids == [] || (Plain(kids[0]) && PlainAll(kids[1..]))
  }

  lemma {:induction false} PlainIsRoomy(ts: Chain, pageSize: nat, t: Tree)
    requires Plain(t)
    ensures Roomy(ts, pageSize, t)
    decreases t, 0
  {
    PlainAllRoomy(PushAll(ts, pageSize, Concat(t.chains)), pageSize, t.kids);
  }

  lemma {:induction false} PlainAllRoomy(ts: Chain, pageSize: nat, kids: seq<Tree>)
    requires PlainAll(kids)
    ensures RoomyAll(ts, pageSize, kids)
    decreases kids, 1
  {
    if kids != [] {
      PlainIsRoomy(ts, pageSize, kids[0]);
      PlainAllRoomy(PushAll(ts, pageSize, PagesOf(kids[0])), pageSize, kids[1..]);
    }
  }

  // -------------------------------------------------------------------- frame of a tree

  ghost predicate SameOn(w: PageMap, w': PageMap, ps: seq<u32>)
  {
    forall i :: 0 <= i < |ps| && ps[i] in w ==> ps[i] in w' && w'[ps[i]] == w[ps[i]]
  }

  lemma SameOnParts(w: PageMap, w': PageMap, a: seq<u32>, b: seq<u32>)
    requires SameOn(w, w', a + b)
    ensures SameOn(w, w', a) && SameOn(w, w', b)
  {
    forall i | 0 <= i < |a| && a[i] in w ensures a[i] in w' && w'[a[i]] == w[a[i]] { assert (a + b)[i] == a[i]; }
    forall i | 0 <= i < |b| && b[i] in w ensures b[i] in w' && w'[b[i]] == w[b[i]] { assert (a + b)[|a| + i] == b[i]; }
  }

  lemma {:induction false} ChainMember(chains: seq<seq<u32>>, i: nat)
    requires i < |chains|
    ensures |Concat(chains[..i])| + |chains[i]| <= |Concat(chains)|
    ensures Concat(chains)[|Concat(chains[..i])|..|Concat(chains[..i])| + |chains[i]|] == chains[i]
  {
    if i > 0 {
      ChainMember(chains[1..], i - 1);
      assert chains[1..][..i - 1] == chains[..i][1..];
      assert chains[..i][0] == chains[0];
      var at, n := |Concat(chains[1..][..i - 1])|, |chains[i]|;
      assert Concat(chains)[|chains[0]| + at..|chains[0]| + at + n] == Concat(chains[1..])[at..at + n];
    } else {
      assert chains[..0] == [];
    }
  }

  lemma ChainsKept(w: PageMap, w': PageMap, chains: seq<seq<u32>>)
    requires SameOn(w, w', Concat(chains)) && forall i :: 0 <= i < |chains| ==> IsChain(w, chains[i])
    ensures forall i :: 0 <= i < |chains| ==> IsChain(w', chains[i])
  {
    hide U32At, Concat, IsChain, SameOn;
    forall i | 0 <= i < |chains| ensures IsChain(w', chains[i]) {
      ChainMember(chains, i);
      ChainKept(w, w', Concat(chains), |Concat(chains[..i])|, chains[i]);
    }
  }

  lemma ChainKept(w: PageMap, w': PageMap, ps: seq<u32>, at: nat, c: seq<u32>)
    requires SameOn(w, w', ps) && IsChain(w, c) && at + |c| <= |ps| && ps[at..at + |c|] == c
    ensures IsChain(w', c)
  {
    hide U32At;
    forall j | 0 <= j < |c| ensures c[j] in w' && w'[c[j]] == w[c[j]] {
      assert c[j] == ps[at..at + |c|][j] == ps[at + j];
    }
  }

  /** A tree is read off its own pages alone. */
  lemma {:induction false} TreeKept(w: PageMap, w': PageMap, usable: nat, t: Tree)
    requires IsTree(w, usable, t) && SameOn(w, w', PagesOf(t))
    ensures IsTree(w', usable, t)
    decreases t, 0
  {
    hide IsNode, IsChain, Concat, SameOn;
    SameOnParts(w, w', Concat(t.chains) + PagesOfAll(t.kids), [t.page]);
    SameOnParts(w, w', Concat(t.chains), PagesOfAll(t.kids));
    assert t.page in w' && w'[t.page] == w[t.page] by { LastSame(w, w', t.page); }
    ChainsKept(w, w', t.chains);
    TreesKept(w, w', usable, t.kids);
  }

  lemma LastSame(w: PageMap, w': PageMap, p: u32)
    requires SameOn(w, w', [p]) && p in w
    ensures p in w' && w'[p] == w[p]
  {
    assert [p][0] == p;
  }

  lemma {:induction false} TreesKept(w: PageMap, w': PageMap, usable: nat, ks: seq<Tree>)
    requires AreTrees(w, usable, ks) && SameOn(w, w', PagesOfAll(ks))
    ensures AreTrees(w', usable, ks)
    decreases ks, 1
  {
    hide SameOn, IsTree;
    if ks != [] {
      SameOnParts(w, w', PagesOf(ks[0]), PagesOfAll(ks[1..]));
      TreeKept(w, w', usable, ks[0]);
      TreesKept(w, w', usable, ks[1..]);
    }
  }

  // -------------------------------------------------------------- freeing a part first

  /** Free `a` out of `a + b`: what is left of the list, and the pages of `b` as before. */
  lemma FreeFirst(w: PageMap, pageSize: nat, ts: Chain, a: seq<u32>, b: seq<u32>)
    requires FreeInv(w, pageSize, ts) && Freeable(w, ts, a + b)
    ensures Shaped(w, pageSize) && DeallocAll(w, pageSize, a).Ok? && Freeable(w, ts, a) && Freeable(w, ts, b)
    ensures var w1, ts1 := DeallocAll(w, pageSize, a).value, PushAll(ts, pageSize, a);
            && FreeInv(w1, pageSize, ts1) && Shaped(w1, pageSize) && Freeable(w1, ts1, b) && SameOn(w, w1, b)
            && DeallocAll(w, pageSize, a + b) == DeallocAll(w1, pageSize, b)
  {
    hide U32At, Follows, FreeSet, Size, DeallocAll, PushAll;
    var ps := a + b;
    assert forall i :: 0 <= i < |a| ==> ps[i] == a[i];
    assert forall i :: 0 <= i < |b| ==> ps[|a| + i] == b[i];
    assert Freeable(w, ts, a) && Freeable(w, ts, b);
    DeallocAllKeeps(w, pageSize, ts, a);
    DeallocAllAppend(w, pageSize, a, b);
    forall i | 0 <= i < |b| ensures b[i] !in a && Bystander(w, ts, a, b[i]) {
      assert forall j :: 0 <= j < |a| ==> ps[j] != ps[|a| + i];
    }
  }

  // -------------------------------------------------------------------- overflow chains

  ghost predicate ChainReady(w: PageMap, pageSize: nat, ts: Chain, c: seq<u32>)
  {
    FreeInv(w, pageSize, ts) && IsChain(w, c) && Freeable(w, ts, c)
  }

  lemma ChainStep(w: PageMap, pageSize: nat, ts: Chain, c: seq<u32>)
    requires ChainReady(w, pageSize, ts, c) && c != []
    ensures Shaped(w, pageSize) && c[0] != 0 && c[0] in w && Field(w[c[0]], 0) == Ok(Head(c[1..])) && Deallocate(w, pageSize, c[0]).Ok?
    ensures var w1 := Deallocate(w, pageSize, c[0]).value;
            && Shaped(w1, pageSize) && ChainReady(w1, pageSize, PushAll(ts, pageSize, [c[0]]), c[1..])
            && DeallocAll(w, pageSize, c) == DeallocAll(w1, pageSize, c[1..])
    ensures c[0] !in c[1..]
  {
    hide U32At, FreeInv, PushAll, Deallocate, SameOn;
    assert c == [c[0]] + c[1..];
    FreeFirst(w, pageSize, ts, [c[0]], c[1..]);
    var w1 := DeallocAll(w, pageSize, [c[0]]).value;
    assert DeallocAll(w, pageSize, [c[0]]) == Deallocate(w, pageSize, c[0]) by { JustOne(w, pageSize, c[0]); }
    ChainTail(w, c);
    assert c[1..][0..0 + |c[1..]|] == c[1..];
    ChainKept(w, w1, c[1..], 0, c[1..]);
  }

  lemma JustOne(w: PageMap, pageSize: nat, p: u32)
    requires Shaped(w, pageSize)
    ensures DeallocAll(w, pageSize, [p]) == Deallocate(w, pageSize, p)
  {
    hide Deallocate;
    DeallocateShaped(w, pageSize, p);
  }

  /** Frees an overflow chain page by page, reading each link before its page goes. */
  method FreeOverflowChain(w: PageMap, pageSize: nat, first: u32, visited: nat, ghost ts: Chain, ghost c: seq<u32>)
    returns (r: Result<PageMap, TreeError>, v: nat)
    requires Shaped(w, pageSize) && visited <= MAX_PAGES_VISITED
    ensures r.Ok? ==> Shaped(r.value, pageSize) && visited <= v <= MAX_PAGES_VISITED
    ensures ChainReady(w, pageSize, ts, c) && first == Head(c) ==> (r.Ok? <==> visited + |c| <= MAX_PAGES_VISITED)
    ensures ChainReady(w, pageSize, ts, c) && first == Head(c) && r.Ok? ==> DeallocAll(w, pageSize, c) == Ok(r.value) && v == visited + |c|
  {
    hide U32At, ChainReady, Deallocate, Shaped, PushAll;
    ghost var good := ChainReady(w, pageSize, ts, c) && first == Head(c);
    ghost var rest, left := c, ts;
    var cur, p, seen := w, first, {};
    v := visited;
    while p != 0
      invariant Shaped(cur, pageSize) && visited <= v <= MAX_PAGES_VISITED
      invariant good ==> p == Head(rest) && v + |rest| == visited + |c| && ChainReady(cur, pageSize, left, rest)
      invariant good ==> DeallocAll(w, pageSize, c) == DeallocAll(cur, pageSize, rest) && forall i :: 0 <= i < |rest| ==> rest[i] !in seen
      decreases MAX_PAGES_VISITED - v
    {
      if good { ChainStep(cur, pageSize, left, rest); }
      v := v + 1;
      if v > MAX_PAGES_VISITED {
        return Err(TraversalTooLong), v;
      }
      if p in seen {
        return Err(OverflowChainCycle(p)), v;
      }
      seen := seen + {p};
      if p !in cur {
        return Err(Unreadable(p)), v;
      }
      var next := Field(cur[p], 0);
      if next.Err? {
        return Err(next.error), v;
      }
      NeedsShape(cur, pageSize);
      DeallocateShaped(cur, pageSize, p);
      var freed := Deallocate(cur, pageSize, p);
      if freed.Err? {
        return Err(FreelistFailure), v;
      }
      cur, p := freed.value, next.value;
      if good {
        left, rest := PushAll(left, pageSize, [rest[0]]), rest[1..];
      }
    }
    if good { NoPagesLeft(cur, pageSize, left, rest); }
    return Ok(cur), v;
  }

  lemma NeedsShape(w: PageMap, pageSize: nat)
    requires Shaped(w, pageSize)
    ensures 512 <= pageSize <= 65536 && 1 in w && forall q :: q in w ==> |w[q]| == pageSize
  {
  }

  lemma NoPagesLeft(w: PageMap, pageSize: nat, ts: Chain, c: seq<u32>)
    requires ChainReady(w, pageSize, ts, c) && Head(c) == 0
    ensures c == []
  {
    hide FreeInv, Freeable, U32At;
  }

  // ---------------------------------------------------------------- the cells of a page

  ghost predicate CellsReady(w: PageMap, pageSize: nat, ts: Chain, chains: seq<seq<u32>>)
  {
    FreeInv(w, pageSize, ts) && (forall i :: 0 <= i < |chains| ==> IsChain(w, chains[i])) && Freeable(w, ts, Concat(chains))
  }

  lemma CellsStep(w: PageMap, pageSize: nat, ts: Chain, chains: seq<seq<u32>>)
    requires CellsReady(w, pageSize, ts, chains) && chains != []
    ensures Shaped(w, pageSize) && ChainReady(w, pageSize, ts, chains[0]) && DeallocAll(w, pageSize, chains[0]).Ok?
    ensures var w1 := DeallocAll(w, pageSize, chains[0]).value;
            && Shaped(w1, pageSize) && CellsReady(w1, pageSize, PushAll(ts, pageSize, chains[0]), chains[1..])
            && DeallocAll(w, pageSize, Concat(chains)) == DeallocAll(w1, pageSize, Concat(chains[1..]))
    ensures |Concat(chains)| == |chains[0]| + |Concat(chains[1..])|
  {
    hide U32At, FreeInv, PushAll, DeallocAll, SameOn, IsChain;
    FreeFirst(w, pageSize, ts, chains[0], Concat(chains[1..]));
    ChainsKept(w, DeallocAll(w, pageSize, chains[0]).value, chains[1..]);
  }

  lemma CellsDone(w: PageMap, pageSize: nat)
    requires Shaped(w, pageSize)
    ensures DeallocAll(w, pageSize, Concat([])) == Ok(w) && Concat([]) == []
  {
  }

  /** Frees the overflow chain of every cell of one page. */
  method FreeCells(w: PageMap, pageSize: nat, usable: nat, buf: Page, hs: nat, k: PageKind, n: nat, visited: nat,
                   ghost ts: Chain, ghost chains: seq<seq<u32>>)
    returns (r: Result<PageMap, TreeError>, v: nat)
    requires Shaped(w, pageSize) && visited <= MAX_PAGES_VISITED
    ensures r.Ok? ==> Shaped(r.value, pageSize) && visited <= v <= MAX_PAGES_VISITED
    ensures Listed(buf, hs, k, n, usable, chains) && CellsReady(w, pageSize, ts, chains) ==>
              && (r.Ok? <==> visited + |Concat(chains)| <= MAX_PAGES_VISITED)
              && (r.Ok? ==> DeallocAll(w, pageSize, Concat(chains)) == Ok(r.value) && v == visited + |Concat(chains)|)
  {
    hide U32At, CellsReady, ChainReady, Shaped, PushAll, DeallocAll, Concat, OverflowOf;
    ghost var good := Listed(buf, hs, k, n, usable, chains) && CellsReady(w, pageSize, ts, chains);
    ghost var left := ts;
    var cur := w;
    v := visited;
    if good { assert chains[0..] == chains; }
    for i := 0 to n
      invariant Shaped(cur, pageSize) && visited <= v <= MAX_PAGES_VISITED
      invariant good ==> CellsReady(cur, pageSize, left, chains[i..]) && v + |Concat(chains[i..])| == visited + |Concat(chains)|
      invariant good ==> DeallocAll(w, pageSize, Concat(chains)) == DeallocAll(cur, pageSize, Concat(chains[i..]))
    {
      if good {
        CellsStep(cur, pageSize, left, chains[i..]);
        assert chains[i..][0] == chains[i] && chains[i..][1..] == chains[i + 1..];
        assert CellChain(buf, hs, k, i, usable, chains[i]);
      }
      var o := OverflowOf(buf, hs, k, i, usable);
      if o.Err? {
        return Err(o.error), v;
      }
      if o.value.Some? {
        var freed;
        freed, v := FreeOverflowChain(cur, pageSize, o.value.value.first, v, left, if good then chains[i] else []);
        if freed.Err? {
          return Err(freed.error), v;
        }
        cur := freed.value;
      } else if good {
        NoneFreed(cur, pageSize, left);
      }
      if good { left := PushAll(left, pageSize, chains[i]); }
    }
    if good {
      assert chains[n..] == [];
      CellsDone(cur, pageSize);
    }
    return Ok(cur), v;
  }

  lemma NoneFreed(w: PageMap, pageSize: nat, ts: Chain)
    requires Shaped(w, pageSize)
    ensures DeallocAll(w, pageSize, []) == Ok(w)
  {
  }

  /** The page lists exactly these chains, cell by cell. */
  ghost predicate Listed(buf: Page, hs: nat, k: PageKind, n: nat, usable: nat, chains: seq<seq<u32>>)
  {
    |chains| == n && forall i :: 0 <= i < n ==> CellChain(buf, hs, k, i, usable, chains[i])
  }

  // --------------------------------------------------------------------- reading twice

  /** Decodes the children of an interior page; on an index page every key is read in full
      and decoded, so its overflow chain is followed a second time. */
  method Children(w: PageMap, usable: nat, enc: TextEncoding, buf: Page, hs: nat, k: PageKind, n: nat, ghost t: Tree)
    returns (r: Result<seq<u32>, TreeError>)
    requires Interior(k)
    ensures NodeOn(buf, hs, k, n, usable, t) ==> (r.Ok? <==> (k == IndexInterior ==> ReadsKeys(w, buf, hs, n, usable, enc)))
    ensures NodeOn(buf, hs, k, n, usable, t) && r.Ok? ==> Roots(r.value, t.kids)
  {
    hide ChildOf, RightmostOf, KeyAt, Decodes, Decoded, CellChain, CellStart, KindOf, CellCount;
    ghost var node := NodeOn(buf, hs, k, n, usable, t);
    var out := [];
    for i := 0 to n
      invariant |out| == i
      invariant node ==> forall j :: 0 <= j < i ==> out[j] == t.kids[j].page
      invariant k == IndexInterior ==> ReadsKeys(w, buf, hs, i, usable, enc)
    {
      var child := ChildOf(buf, hs, k, i);
      if child.Err? {
        return Err(child.error);
      }
      if k == IndexInterior {
        var start := CellStart(buf, hs, k, i);
        assert start.Err? ==> !ReadsKey(w, buf, hs, i, usable, enc);
        if start.Err? {
          return Err(start.error);
        }
        var key := ReadKey(w, buf, start.value + 4, usable, enc);
        assert key.Ok? <==> ReadsKey(w, buf, hs, i, usable, enc);
        if key.Err? {
          return Err(key.error);
        }
      }
      out := out + [child.value];
    }
    var right := RightmostOf(buf, hs);
    if right.Err? {
      return Err(right.error);
    }
    return Ok(out + [right.value]);
  }

  /** `buf` is the interior page `t`, with its header at `hs` and `n` cells. */
  ghost predicate NodeOn(buf: Page, hs: nat, k: PageKind, n: nat, usable: nat, t: Tree)
  {
    IsNode(buf, usable, t) && t.kind == k && hs == HeaderStart(t.page) && n + 1 == |t.kids| && Interior(k)
  }

  ghost predicate ReadsThrough(w: PageMap, c: seq<u32>) { c != [] && Reread(w, c[0], |c|, {}).Ok? }

  ghost predicate AllRead(w: PageMap, chains: seq<seq<u32>>)
  {
    forall i :: 0 <= i < |chains| && chains[i] != [] ==> ReadsThrough(w, chains[i])
  }

  /** Every overflowing cell of an interior index page can be followed again once all its
      chains are on the freelist. */
  ghost predicate AllRereadable(ts: Chain, pageSize: nat, chains: seq<seq<u32>>)
  {
    forall i :: 0 <= i < |chains| && chains[i] != [] ==>
      Rereadable(ts, pageSize, Concat(chains), |Concat(chains[..i])|, |chains[i]|)
  }

  /** The second reading finds all pages exactly under the condition on the freelist. */
  lemma AllReadIff(w: PageMap, pageSize: nat, ts: Chain, chains: seq<seq<u32>>)
    requires CellsReady(w, pageSize, ts, chains)
    ensures Shaped(w, pageSize) && DeallocAll(w, pageSize, Concat(chains)).Ok?
    ensures AllRead(DeallocAll(w, pageSize, Concat(chains)).value, chains) <==> AllRereadable(ts, pageSize, chains)
  {
    hide FreeInv, DeallocAll, Rereadable, Reread, Concat, Freeable, IsChain;
    CanFree(w, pageSize, ts, Concat(chains));
    var w' := DeallocAll(w, pageSize, Concat(chains)).value;
    forall i | 0 <= i < |chains| && chains[i] != []
      ensures ReadsThrough(w', chains[i]) <==> Rereadable(ts, pageSize, Concat(chains), |Concat(chains[..i])|, |chains[i]|)
    {
      ChainMember(chains, i);
      RereadIff(w, pageSize, ts, Concat(chains), |Concat(chains[..i])|, chains[i]);
    }
  }

  /** Key `i` of an interior index page can be read in full after its chains are gone if
      and only if the freelist lets its own chain be followed. */
  lemma KeyReadIff(w: PageMap, pageSize: nat, usable: nat, ts: Chain, buf: Page, t: Tree, i: nat)
    requires IsNode(buf, usable, t) && t.kind == IndexInterior && CellsReady(w, pageSize, ts, t.chains) && usable <= pageSize
    requires i < |t.chains| && t.chains[i] != [] && |t.chains[i]| <= MAX_PAGES_VISITED
    ensures Shaped(w, pageSize) && DeallocAll(w, pageSize, Concat(t.chains)).Ok? && CellStart(buf, HeaderStart(t.page), IndexInterior, i).Ok?
    ensures KeyAt(DeallocAll(w, pageSize, Concat(t.chains)).value, buf, CellStart(buf, HeaderStart(t.page), IndexInterior, i).value + 4, usable).Ok?
       <==> Rereadable(ts, pageSize, Concat(t.chains), |Concat(t.chains[..i])|, |t.chains[i]|)
  {
    hide FreeInv, DeallocAll, Rereadable, Reread, Concat, Freeable, IsChain, KeyAt, CellChain, ChildOf, RightmostOf, CellStart, KindOf, CellCount;
    CanFree(w, pageSize, ts, Concat(t.chains));
    var w' := DeallocAll(w, pageSize, Concat(t.chains)).value;
    ChainMember(t.chains, i);
    RereadIff(w, pageSize, ts, Concat(t.chains), |Concat(t.chains[..i])|, t.chains[i]);
    ShapedFree(w', pageSize, PushAll(ts, pageSize, Concat(t.chains)));
    PagesLargeEnough(w', pageSize, usable);
    KeyIffReread(w', buf, HeaderStart(t.page), i, usable, t.chains[i]);
  }

  /** A key can be read in full if and only if as many pages as its chain had can be
      followed from its overflow pointer. */
  lemma KeyIffReread(w: PageMap, buf: Page, hs: nat, i: nat, usable: nat, c: seq<u32>)
    requires CellChain(buf, hs, IndexInterior, i, usable, c) && c != [] && |c| <= MAX_PAGES_VISITED
    requires forall q :: q in w ==> 4 + PerOverflowPage(usable) <= |w[q]|
    ensures CellStart(buf, hs, IndexInterior, i).Ok?
    ensures KeyAt(w, buf, CellStart(buf, hs, IndexInterior, i).value + 4, usable).Ok? <==> Reread(w, c[0], |c|, {}).Ok?
  {
    hide Reread, CellHead, LocalPayloadSize, ReadOn, U32At, Pieces, CellStart;
    var at := CellStart(buf, hs, IndexInterior, i).value + 4;
    var len := CellHead(buf[at..], false).value.0;
    ReadIffReread(w, c[0], len - LocalPayloadSize(usable, len, true), PerOverflowPage(usable), {});
  }

  lemma PagesLargeEnough(w: PageMap, pageSize: nat, usable: nat)
    requires Shaped(w, pageSize) && usable <= pageSize
    ensures forall q :: q in w ==> 4 + PerOverflowPage(usable) <= |w[q]|
  {
  }

  /** Keys that decode after the chains are gone could all be followed: what the freelist
      must at least allow. */
  lemma KeysNeedChains(w: PageMap, buf: Page, usable: nat, enc: TextEncoding, t: Tree)
    requires IsNode(buf, usable, t) && t.kind == IndexInterior
    requires ReadsKeys(w, buf, HeaderStart(t.page), |t.chains|, usable, enc)
    ensures AllRead(w, t.chains)
  {
    hide Reread, KeyAt, Decodes, OverflowOf, ChildOf, RightmostOf;
    forall i | 0 <= i < |t.chains| && t.chains[i] != [] ensures ReadsThrough(w, t.chains[i]) {
      assert ReadsKey(w, buf, HeaderStart(t.page), i, usable, enc);
      KeyNeedsChain(w, buf, HeaderStart(t.page), i, usable, t.chains[i], enc);
    }
  }

  /** A chain whose pages all became leaves still holds its bytes. */
  lemma LeavesKept(w: PageMap, pageSize: nat, ts: Chain, ps: seq<u32>)
    requires FreeInv(w, pageSize, ts) && Freeable(w, ts, ps) && RoomFor(ts, pageSize, ps)
    ensures Shaped(w, pageSize) && DeallocAll(w, pageSize, ps).Ok? && SameOn(w, DeallocAll(w, pageSize, ps).value, ps)
  {
    hide FreeInv, DeallocAll, PushAll, HasRoom;
    CanFree(w, pageSize, ts, ps);
    forall x | 0 <= x < |ps|
      ensures ps[x] in DeallocAll(w, pageSize, ps).value && DeallocAll(w, pageSize, ps).value[ps[x]] == w[ps[x]]
    {
      LeafPage(w, pageSize, ts, ps, x);
    }
  }

  /** A page's keys depend on its chains' pages alone. */
  lemma KeysKept(w: PageMap, w': PageMap, buf: Page, usable: nat, enc: TextEncoding, t: Tree)
    requires IsNode(buf, usable, t) && t.kind == IndexInterior && SameOn(w, w', Concat(t.chains))
    requires forall i :: 0 <= i < |t.chains| ==> IsChain(w, t.chains[i])
    ensures ReadsKeys(w', buf, HeaderStart(t.page), |t.chains|, usable, enc) <==> ReadsKeys(w, buf, HeaderStart(t.page), |t.chains|, usable, enc)
  {
    hide KeyAt, Decodes, OverflowOf, ChildOf, RightmostOf, Concat, ReadsKey;
    forall i | 0 <= i < |t.chains|
      ensures ReadsKey(w', buf, HeaderStart(t.page), i, usable, enc) <==> ReadsKey(w, buf, HeaderStart(t.page), i, usable, enc)
    {
      var c, at := t.chains[i], |Concat(t.chains[..i])|;
      ChainMember(t.chains, i);
      SamePages(w, w', Concat(t.chains), at, c);
      KeyKept(w, w', buf, HeaderStart(t.page), i, usable, c, enc);
    }
  }

  lemma SamePages(w: PageMap, w': PageMap, ps: seq<u32>, at: nat, c: seq<u32>)
    requires SameOn(w, w', ps) && IsChain(w, c) && at + |c| <= |ps| && ps[at..at + |c|] == c
    ensures forall j :: 0 <= j < |c| ==> c[j] in w' && w'[c[j]] == w[c[j]]
  {
    forall j | 0 <= j < |c| ensures c[j] in w' && w'[c[j]] == w[c[j]] {
      assert Links(w, c[j], NextIn(c, j));
      assert c[j] == ps[at..at + |c|][j] == ps[at + j];
    }
  }

  // ------------------------------------------------------------------------- the tree

  ghost predicate TreeReady(w: PageMap, pageSize: nat, usable: nat, ts: Chain, t: Tree)
  {
    FreeInv(w, pageSize, ts) && IsTree(w, usable, t) && Freeable(w, ts, PagesOf(t))
  }

  ghost predicate KidsReady(w: PageMap, pageSize: nat, usable: nat, ts: Chain, ks: seq<Tree>)
  {
    FreeInv(w, pageSize, ts) && AreTrees(w, usable, ks) && Freeable(w, ts, PagesOfAll(ks))
  }

  lemma KidsStep(w: PageMap, pageSize: nat, usable: nat, ts: Chain, ks: seq<Tree>)
    requires KidsReady(w, pageSize, usable, ts, ks) && ks != []
    ensures Shaped(w, pageSize) && TreeReady(w, pageSize, usable, ts, ks[0]) && DeallocAll(w, pageSize, PagesOf(ks[0])).Ok?
    ensures var w1 := DeallocAll(w, pageSize, PagesOf(ks[0])).value;
            && Shaped(w1, pageSize) && KidsReady(w1, pageSize, usable, PushAll(ts, pageSize, PagesOf(ks[0])), ks[1..])
            && DeallocAll(w, pageSize, PagesOfAll(ks)) == DeallocAll(w1, pageSize, PagesOfAll(ks[1..]))
    ensures |PagesOfAll(ks)| == |PagesOf(ks[0])| + |PagesOfAll(ks[1..])|
  {
    hide FreeInv, PushAll, DeallocAll, SameOn, IsTree, Freeable, PagesOf;
    FreeFirst(w, pageSize, ts, PagesOf(ks[0]), PagesOfAll(ks[1..]));
    TreesKept(w, DeallocAll(w, pageSize, PagesOf(ks[0])).value, usable, ks[1..]);
  }

  /** A ready tree: first its chains, then its subtrees, then its own page. */
  lemma TreeStep(w: PageMap, pageSize: nat, usable: nat, ts: Chain, t: Tree)
    requires TreeReady(w, pageSize, usable, ts, t)
    ensures Shaped(w, pageSize) && t.page in w && IsNode(w[t.page], usable, t) && CellsReady(w, pageSize, ts, t.chains)
    ensures DeallocAll(w, pageSize, Concat(t.chains)).Ok?
    ensures var w1, ts1 := DeallocAll(w, pageSize, Concat(t.chains)).value, PushAll(ts, pageSize, Concat(t.chains));
            && Shaped(w1, pageSize) && KidsReady(w1, pageSize, usable, ts1, t.kids) && DeallocAll(w1, pageSize, PagesOfAll(t.kids)).Ok?
            && var w2 := DeallocAll(w1, pageSize, PagesOfAll(t.kids)).value;
               Shaped(w2, pageSize) && DeallocAll(w, pageSize, PagesOf(t)) == Deallocate(w2, pageSize, t.page) && Deallocate(w2, pageSize, t.page).Ok?
    ensures |PagesOf(t)| == |Concat(t.chains)| + |PagesOfAll(t.kids)| + 1
  {
    hide FreeInv, PushAll, DeallocAll, SameOn, IsNode, Freeable, Concat, PagesOfAll, Deallocate, Shaped;
    var a, b, p := Concat(t.chains), PagesOfAll(t.kids), t.page;
    assert PagesOf(t) == a + (b + [p]);
    FreeFirst(w, pageSize, ts, a, b + [p]);
    var w1, ts1 := DeallocAll(w, pageSize, a).value, PushAll(ts, pageSize, a);
    SameOnParts(w, w1, b, [p]);
    TreesKept(w, w1, usable, t.kids);
    FreeFirst(w1, pageSize, ts1, b, [p]);
    var w2 := DeallocAll(w1, pageSize, b).value;
    JustOne(w2, pageSize, p);
    CanFree(w2, pageSize, PushAll(ts1, pageSize, b), [p]);
  }

  /** Frees the tree rooted at `page`, children before their parent. On a well-formed
      tree it succeeds if and only if the tree is within the traversal limit and every
      interior index page can still read and decode its keys once their chains are gone; it
      then has freed exactly the pages of the tree, each once. */
  method FreeBtreePages(w: PageMap, pageSize: nat, usable: nat, enc: TextEncoding, page: u32, visited: nat, ghost ts: Chain, ghost t: Tree)
    returns (r: Result<PageMap, TreeError>, v: nat)
    requires Shaped(w, pageSize) && visited <= MAX_PAGES_VISITED
    ensures r.Ok? ==> Shaped(r.value, pageSize) && visited < v <= MAX_PAGES_VISITED
    ensures TreeReady(w, pageSize, usable, ts, t) && t.page == page ==>
              && (r.Ok? <==> visited + |PagesOf(t)| <= MAX_PAGES_VISITED && Passes(w, pageSize, usable, enc, t))
              && (r.Ok? ==> DeallocAll(w, pageSize, PagesOf(t)) == Ok(r.value) && v == visited + |PagesOf(t)|)
    decreases MAX_PAGES_VISITED - visited, 1
  {
    hide TreeReady, CellsReady, KidsReady, Shaped, PushAll, DeallocAll, Concat, PagesOfAll, PagesOf, Deallocate, KindOf, CellCount,
         PassAll, ReadsKeys, CellChain, Roots;
    ghost var good := TreeReady(w, pageSize, usable, ts, t) && t.page == page;
    if good { TreeStep(w, pageSize, usable, ts, t); }
    v := visited + 1;
    if v > MAX_PAGES_VISITED {
      return Err(TraversalTooLong), v;
    }
    if page !in w {
      return Err(Unreadable(page)), v;
    }
    var buf, hs := w[page], HeaderStart(page);
    var kind := KindOf(buf, hs);
    if kind.Err? {
      return Err(kind.error), v;
    }
    var k := kind.value;
    var count := CellCount(buf, hs);
    if count.Err? {
      return Err(count.error), v;
    }
    var n := count.value;
    var cur := w;
    if k != TableInterior {
      var freed;
      freed, v := FreeCells(w, pageSize, usable, buf, hs, k, n, v, ts, t.chains);
      if freed.Err? {
        return Err(freed.error), v;
      }
      cur := freed.value;
    } else if good {
      NoneFreed(w, pageSize, ts);
      CellsDone(w, pageSize);
    }
    if Interior(k) {
      var kids := Children(cur, usable, enc, buf, hs, k, n, t);
      if kids.Err? {
        return Err(kids.error), v;
      }
      var freed;
      freed, v := FreeKids(cur, pageSize, usable, enc, kids.value, v, if good then PushAll(ts, pageSize, Concat(t.chains)) else ts, t.kids);
      if freed.Err? {
        return Err(freed.error), v;
      }
      cur := freed.value;
    } else if good {
      NoKids(cur, pageSize, usable, enc);
    }
    NeedsShape(cur, pageSize);
    DeallocateShaped(cur, pageSize, page);
    var done := Deallocate(cur, pageSize, page);
    if done.Err? {
      return Err(FreelistFailure), v;
    }
    return Ok(done.value), v;
  }

  lemma NoKids(w: PageMap, pageSize: nat, usable: nat, enc: TextEncoding)
    requires Shaped(w, pageSize)
    ensures DeallocAll(w, pageSize, PagesOfAll([])) == Ok(w) && PagesOfAll([]) == [] && PassAll(w, pageSize, usable, enc, [])
  {
  }

  method FreeKids(w: PageMap, pageSize: nat, usable: nat, enc: TextEncoding, children: seq<u32>, visited: nat,
                  ghost ts: Chain, ghost ks: seq<Tree>)
    returns (r: Result<PageMap, TreeError>, v: nat)
    requires Shaped(w, pageSize) && visited <= MAX_PAGES_VISITED
    ensures r.Ok? ==> Shaped(r.value, pageSize) && visited <= v <= MAX_PAGES_VISITED
    ensures KidsReady(w, pageSize, usable, ts, ks) && Roots(children, ks) ==>
              && (r.Ok? <==> visited + |PagesOfAll(ks)| <= MAX_PAGES_VISITED && PassAll(w, pageSize, usable, enc, ks))
              && (r.Ok? ==> DeallocAll(w, pageSize, PagesOfAll(ks)) == Ok(r.value) && v == visited + |PagesOfAll(ks)|)
    decreases MAX_PAGES_VISITED - visited, 2
  {
    hide KidsReady, TreeReady, Shaped, PushAll, DeallocAll, PagesOf, PagesOfAll, PassAll, Passes, Freed;
    ghost var good := KidsReady(w, pageSize, usable, ts, ks) && Roots(children, ks);
    ghost var left, rest := ts, ks;
    var cur := w;
    v := visited;
    for i := 0 to |children|
      invariant Shaped(cur, pageSize) && visited <= v <= MAX_PAGES_VISITED
      invariant good ==> |rest| == |ks| - i && (forall j :: 0 <= j < |rest| ==> children[i + j] == rest[j].page)
      invariant good ==> KidsReady(cur, pageSize, usable, left, rest) && v + |PagesOfAll(rest)| == visited + |PagesOfAll(ks)|
      invariant good ==> DeallocAll(w, pageSize, PagesOfAll(ks)) == DeallocAll(cur, pageSize, PagesOfAll(rest))
      invariant good ==> (PassAll(w, pageSize, usable, enc, ks) <==> PassAll(cur, pageSize, usable, enc, rest))
    {
      ghost var kid := FirstOr(rest);
      if good {
        KidsStep(cur, pageSize, usable, left, rest);
        PassStep(cur, pageSize, usable, enc, rest);
      }
      var freed;
      freed, v := FreeBtreePages(cur, pageSize, usable, enc, children[i], v, left, kid);
      if freed.Err? {
        return Err(freed.error), v;
      }
      cur := freed.value;
      if good {
        left, rest := PushAll(left, pageSize, PagesOf(rest[0])), rest[1..];
      }
    }
    if good {
      assert rest == [];
      NoKids(cur, pageSize, usable, enc);
    }
    return Ok(cur), v;
  }

  ghost predicate Roots(children: seq<u32>, ks: seq<Tree>)
  {
    |children| == |ks| && forall i :: 0 <= i < |ks| ==> children[i] == ks[i].page
  }

  ghost function FirstOr(ks: seq<Tree>): Tree { if ks == [] then Tree(0, TableLeaf, [], []) else ks[0] }

  lemma PassStep(w: PageMap, pageSize: nat, usable: nat, enc: TextEncoding, ks: seq<Tree>)
    requires ks != [] && Shaped(w, pageSize) && DeallocAll(w, pageSize, PagesOf(ks[0])).Ok?
    ensures PassAll(w, pageSize, usable, enc, ks) <==>
              && Passes(w, pageSize, usable, enc, ks[0])
              && PassAll(DeallocAll(w, pageSize, PagesOf(ks[0])).value, pageSize, usable, enc, ks[1..])
  {
    hide Passes, DeallocAll, PagesOf, Shaped;
  }

  // ------------------------------------------------------------------------ conclusions

  /** Keys of the subtrees stay readable while other pages go. */
  lemma {:induction false} KeyedKept(w: PageMap, w': PageMap, usable: nat, enc: TextEncoding, t: Tree)
    requires IsTree(w, usable, t) && Keyed(w, usable, enc, t) && SameOn(w, w', PagesOf(t))
    ensures Keyed(w', usable, enc, t)
    decreases t, 0
  {
    hide IsNode, IsChain, Concat, SameOn, ReadsKeys;
    SameOnParts(w, w', Concat(t.chains) + PagesOfAll(t.kids), [t.page]);
    SameOnParts(w, w', Concat(t.chains), PagesOfAll(t.kids));
    LastSame(w, w', t.page);
    if t.kind == IndexInterior { KeysKept(w, w', w[t.page], usable, enc, t); }
    KeyedAllKept(w, w', usable, enc, t.kids);
  }

  lemma {:induction false} KeyedAllKept(w: PageMap, w': PageMap, usable: nat, enc: TextEncoding, ks: seq<Tree>)
    requires AreTrees(w, usable, ks) && KeyedAll(w, usable, enc, ks) && SameOn(w, w', PagesOfAll(ks))
    ensures KeyedAll(w', usable, enc, ks)
    decreases ks, 1
  {
    hide SameOn, IsTree, Keyed;
    if ks != [] {
      SameOnParts(w, w', PagesOf(ks[0]), PagesOfAll(ks[1..]));
      KeyedKept(w, w', usable, enc, ks[0]);
      KeyedAllKept(w, w', usable, enc, ks[1..]);
    }
  }

  /** If every overflow page of the interior index pages becomes a freelist leaf, keys that
      decode before the walk decode during it. */
  lemma {:induction false} RoomyPasses(w: PageMap, pageSize: nat, usable: nat, enc: TextEncoding, ts: Chain, t: Tree)
    requires TreeReady(w, pageSize, usable, ts, t) && Keyed(w, usable, enc, t) && Roomy(ts, pageSize, t)
    ensures Passes(w, pageSize, usable, enc, t)
    decreases t, 0
  {
    hide TreeReady, CellsReady, KidsReady, DeallocAll, PushAll, Concat, PagesOfAll, PagesOf, IsNode, ReadsKeys, RoomyAll, KeyedAll, PassAll, RoomFor, Shaped;
    TreeStep(w, pageSize, usable, ts, t);
    var w1, ts1 := DeallocAll(w, pageSize, Concat(t.chains)).value, PushAll(ts, pageSize, Concat(t.chains));
    if t.kind == IndexInterior { KeysStay(w, pageSize, usable, enc, ts, t); }
    SubtreesKeyed(w, pageSize, usable, enc, ts, t);
    RoomyAllPass(w1, pageSize, usable, enc, ts1, t.kids);
  }

  lemma KeysStay(w: PageMap, pageSize: nat, usable: nat, enc: TextEncoding, ts: Chain, t: Tree)
    requires t.page in w && IsNode(w[t.page], usable, t) && CellsReady(w, pageSize, ts, t.chains) && t.kind == IndexInterior
    requires RoomFor(ts, pageSize, Concat(t.chains)) && ReadsKeys(w, w[t.page], HeaderStart(t.page), |t.chains|, usable, enc)
    ensures Shaped(w, pageSize) && DeallocAll(w, pageSize, Concat(t.chains)).Ok?
    ensures ReadsKeys(DeallocAll(w, pageSize, Concat(t.chains)).value, w[t.page], HeaderStart(t.page), |t.chains|, usable, enc)
  {
    hide FreeInv, DeallocAll, IsNode, ReadsKeys, IsChain, Concat, RoomFor, SameOn, Freeable;
    LeavesKept(w, pageSize, ts, Concat(t.chains));
    KeysKept(w, DeallocAll(w, pageSize, Concat(t.chains)).value, w[t.page], usable, enc, t);
  }

  lemma SubtreesKeyed(w: PageMap, pageSize: nat, usable: nat, enc: TextEncoding, ts: Chain, t: Tree)
    requires TreeReady(w, pageSize, usable, ts, t) && KeyedAll(w, usable, enc, t.kids)
    ensures Shaped(w, pageSize) && DeallocAll(w, pageSize, Concat(t.chains)).Ok?
    ensures KeyedAll(DeallocAll(w, pageSize, Concat(t.chains)).value, usable, enc, t.kids)
  {
    hide FreeInv, PushAll, DeallocAll, SameOn, IsNode, Freeable, Concat, PagesOfAll, KeyedAll;
    var a, b, p := Concat(t.chains), PagesOfAll(t.kids), t.page;
    assert PagesOf(t) == a + (b + [p]);
    FreeFirst(w, pageSize, ts, a, b + [p]);
    SameOnParts(w, DeallocAll(w, pageSize, a).value, b, [p]);
    KeyedAllKept(w, DeallocAll(w, pageSize, a).value, usable, enc, t.kids);
  }

  lemma {:induction false} RoomyAllPass(w: PageMap, pageSize: nat, usable: nat, enc: TextEncoding, ts: Chain, ks: seq<Tree>)
    requires KidsReady(w, pageSize, usable, ts, ks) && KeyedAll(w, usable, enc, ks) && RoomyAll(ts, pageSize, ks)
    ensures PassAll(w, pageSize, usable, enc, ks)
    decreases ks, 1
  {
    hide KidsReady, TreeReady, Shaped, DeallocAll, PushAll, PagesOf, PagesOfAll, Roomy, Keyed, Passes;
    if ks != [] {
      KidsStep(w, pageSize, usable, ts, ks);
      RoomyPasses(w, pageSize, usable, enc, ts, ks[0]);
      OthersKeyed(w, pageSize, usable, enc, ts, ks);
      RoomyAllPass(DeallocAll(w, pageSize, PagesOf(ks[0])).value, pageSize, usable, enc, PushAll(ts, pageSize, PagesOf(ks[0])), ks[1..]);
    }
  }

  lemma OthersKeyed(w: PageMap, pageSize: nat, usable: nat, enc: TextEncoding, ts: Chain, ks: seq<Tree>)
    requires KidsReady(w, pageSize, usable, ts, ks) && ks != [] && KeyedAll(w, usable, enc, ks[1..])
    ensures Shaped(w, pageSize) && DeallocAll(w, pageSize, PagesOf(ks[0])).Ok?
    ensures KeyedAll(DeallocAll(w, pageSize, PagesOf(ks[0])).value, usable, enc, ks[1..])
  {
    hide FreeInv, PushAll, DeallocAll, SameOn, IsTree, Freeable, PagesOf, KeyedAll;
    FreeFirst(w, pageSize, ts, PagesOf(ks[0]), PagesOfAll(ks[1..]));
    KeyedAllKept(w, DeallocAll(w, pageSize, PagesOf(ks[0])).value, usable, enc, ks[1..]);
  }

  /** Exactly the tree is gone: the freelist gains its pages and no others, its count their
      number, and every other page in use keeps its bytes. */
  ghost predicate FreedExactly(w: PageMap, w': PageMap, pageSize: nat, ts: Chain, t: Tree)
    requires 1 in w && |w[1]| >= 40
  {
    var ts' := PushAll(ts, pageSize, PagesOf(t));
    && FreeInv(w', pageSize, ts') && FreeSet(ts') == FreeSet(ts) + (set p | p in PagesOf(t))
    && 1 in w' && |w'[1]| >= 40 && FreeCountIn(w'[1]) == FreeCountIn(w[1]) + |PagesOf(t)| && CountIn(w'[1]) == CountIn(w[1])
    && forall q :: Bystander(w, ts, PagesOf(t), q) ==> q in w' && w'[q] == w[q]
  }

  /** A well-formed tree whose interior index pages' overflow pages all find room on the
      freelist is freed exactly. */
  lemma RoomyTreeIsFreed(w: PageMap, pageSize: nat, usable: nat, enc: TextEncoding, ts: Chain, t: Tree)
    requires TreeReady(w, pageSize, usable, ts, t) && Keyed(w, usable, enc, t) && Roomy(ts, pageSize, t)
    ensures Passes(w, pageSize, usable, enc, t) && Shaped(w, pageSize) && DeallocAll(w, pageSize, PagesOf(t)).Ok?
    ensures 1 in w && |w[1]| >= 40 && FreedExactly(w, DeallocAll(w, pageSize, PagesOf(t)).value, pageSize, ts, t)
  {
    hide PagesOf, DeallocAll, PushAll, FreeSet, Follows, Size, U32At, Passes, Keyed, Roomy, IsTree;
    RoomyPasses(w, pageSize, usable, enc, ts, t);
    DeallocAllKeeps(w, pageSize, ts, PagesOf(t));
  }

  /** In particular one without overflowing interior index keys. */
  lemma PlainTreeIsFreed(w: PageMap, pageSize: nat, usable: nat, enc: TextEncoding, ts: Chain, t: Tree)
    requires TreeReady(w, pageSize, usable, ts, t) && Keyed(w, usable, enc, t) && Plain(t)
    ensures Passes(w, pageSize, usable, enc, t) && Shaped(w, pageSize) && DeallocAll(w, pageSize, PagesOf(t)).Ok?
    ensures 1 in w && |w[1]| >= 40 && FreedExactly(w, DeallocAll(w, pageSize, PagesOf(t)).value, pageSize, ts, t)
  {
    hide TreeReady, Keyed, Passes, Plain, Roomy, FreedExactly, DeallocAll, Shaped, PagesOf;
    PlainIsRoomy(ts, pageSize, t);
    RoomyTreeIsFreed(w, pageSize, usable, enc, ts, t);
  }

  /** With nothing on the freelist, the first overflow page freed becomes a trunk; if its
      chain goes on, an interior index page cannot be read again and the walk fails. */
  lemma EmptyFreelistBreaks(w: PageMap, pageSize: nat, usable: nat, enc: TextEncoding, t: Tree, i: nat)
    requires TreeReady(w, pageSize, usable, [], t) && t.kind == IndexInterior && i < |t.chains| && |t.chains[i]| >= 2
    requires forall j :: 0 <= j < i ==> t.chains[j] == []
    ensures !Passes(w, pageSize, usable, enc, t)
  {
    hide TreeReady, CellsReady, KidsReady, DeallocAll, IsNode, ReadsKeys, PassAll, AllRereadable, AllRead, Shaped, PushAll, Concat, PagesOfAll, PagesOf;
    TreeStep(w, pageSize, usable, [], t);
    AllReadIff(w, pageSize, [], t.chains);
    NotRereadable(pageSize, t.chains, i);
    var w1 := DeallocAll(w, pageSize, Concat(t.chains)).value;
    if ReadsKeys(w1, w[t.page], HeaderStart(t.page), |t.chains|, usable, enc) {
      KeysNeedChains(w1, w[t.page], usable, enc, t);
    }
  }

  lemma NotRereadable(pageSize: nat, chains: seq<seq<u32>>, i: nat)
    requires i < |chains| && |chains[i]| >= 2 && forall j :: 0 <= j < i ==> chains[j] == []
    ensures !AllRereadable([], pageSize, chains)
  {
    NothingBefore(chains, i);
    var ps := Concat(chains);
    assert ps[..0] == [] && !Room([], pageSize, ps, 0, 0);
    assert FirstBreak([], pageSize, ps, 0, 0);
    assert !Rereadable([], pageSize, ps, |Concat(chains[..i])|, |chains[i]|);
  }

  lemma {:induction false} NothingBefore(chains: seq<seq<u32>>, i: nat)
    requires i <= |chains| && forall j :: 0 <= j < i ==> chains[j] == []
    ensures Concat(chains[..i]) == []
  {
    if i > 0 {
      NothingBefore(chains[1..], i - 1);
      assert chains[..i][1..] == chains[1..][..i - 1];
    }
  }
}
