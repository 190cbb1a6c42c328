/** An index b-tree as its pages spell it: the keys found in the bytes, and looking a key up
    for insertion or deletion, down to an interior match or to the one leaf that can hold
    it. */
module IndexPages {
  import opened Bytes
  import opened Cells
  import opened Freelist
  import opened Allocator
  import opened TreePages
  import opened FreeTree
  import opened OverflowReread
  import opened FreeTreeWalk
  import opened Records
  import opened IndexKeys
  import opened IndexSearch
  import Index = IndexTree

  // ------------------------------------------------------------------ keys on a page

  /** Where cell `i`'s payload length stands; interior cells start with a child pointer. */
  function EntryAt(buf: Page, hs: nat, k: PageKind, i: nat): Result<nat, TreeError>
  {
    var start :- CellStart(buf, hs, k, i);
    Ok(if k == IndexInterior then start + 4 else start)
  }

  /** The key of cell `i`, if it can be read in full, decodes and holds no real. */
  function KeyOn(w: PageMap, buf: Page, hs: nat, k: PageKind, i: nat, usable: nat, enc: TextEncoding): Option<Key>
  {
    match EntryAt(buf, hs, k, i)
    case Err(_) => None
    case Ok(at) =>
      match KeyAt(w, buf, at, usable)
      case Err(_) => None
      case Ok(payload) => if Decodes(payload, enc) then PlainKey(Decoded(payload, enc)) else None
  }

  ghost predicate KeysRead(w: PageMap, buf: Page, hs: nat, k: PageKind, n: nat, usable: nat, enc: TextEncoding)
  {
    forall i :: 0 <= i < n ==> KeyOn(w, buf, hs, k, i, usable, enc).Some?
  }

  function TheKey(k: Option<Key>): Key { match k case None => [] case Some(key) => key }

  function KeysOn(w: PageMap, buf: Page, hs: nat, k: PageKind, n: nat, usable: nat, enc: TextEncoding): (keys: seq<Key>)
    ensures |keys| == n && forall i :: 0 <= i < n ==> keys[i] == TheKey(KeyOn(w, buf, hs, k, i, usable, enc))
  {
    seq(n, i requires 0 <= i < n => TheKey(KeyOn(w, buf, hs, k, i, usable, enc)))
  }

  // ------------------------------------------------------------------ the index as a tree

  /** Index pages only, every key of which can be read. */
  ghost predicate IsIndex(w: PageMap, usable: nat, enc: TextEncoding, t: Tree)
    decreases t, 0
  {
    && (t.kind == IndexLeaf || (t.kind == IndexInterior && |t.kids| == |t.chains| + 1)) && t.page in w
    && KeysRead(w, w[t.page], HeaderStart(t.page), t.kind, |t.chains|, usable, enc) && AreIndexes(w, usable, enc, t.kids)
  }

  ghost predicate AreIndexes(w: PageMap, usable: nat, enc: TextEncoding, ts: seq<Tree>)
    decreases ts, 1
  {
    ts == [] || (IsIndex(w, usable, enc, ts[0]) && AreIndexes(w, usable, enc, ts[1..]))
  }

  /** The keys of page `t`. */
  function PageKeys(w: PageMap, usable: nat, enc: TextEncoding, t: Tree): (keys: seq<Key>)
    ensures |keys| == |t.chains|
  {
    KeysOn(w, if t.page in w then w[t.page] else [], HeaderStart(t.page), t.kind, |t.chains|, usable, enc)
  }

  /** The index the pages of `t` hold. */
  function IndexOf(w: PageMap, usable: nat, enc: TextEncoding, t: Tree): Index.Tree
    decreases t, 0
  {
    if t.kind == IndexInterior && |t.kids| == |t.chains| + 1
    then Index.Node(IndexesOf(w, usable, enc, t.kids), PageKeys(w, usable, enc, t))
    else Index.Leaf(PageKeys(w, usable, enc, t))
  }

  function IndexesOf(w: PageMap, usable: nat, enc: TextEncoding, ts: seq<Tree>): (r: seq<Index.Tree>)
    ensures |r| == |ts|
    decreases ts, 1
  {
    if ts == [] then [] else [IndexOf(w, usable, enc, ts[0])] + IndexesOf(w, usable, enc, ts[1..])
  }

  lemma {:induction false} IndexShaped(w: PageMap, usable: nat, enc: TextEncoding, t: Tree)
    ensures Index.Shaped(IndexOf(w, usable, enc, t))
    decreases t, 0
  {
    hide PageKeys;
    IndexesShaped(w, usable, enc, t.kids);
  }

  lemma {:induction false} IndexesShaped(w: PageMap, usable: nat, enc: TextEncoding, ts: seq<Tree>)
    ensures forall i :: 0 <= i < |ts| ==> Index.Shaped(IndexesOf(w, usable, enc, ts)[i])
    decreases ts, 1
  {
    hide Index.Shaped, IndexOf;
    if ts != [] {
      IndexShaped(w, usable, enc, ts[0]);
      IndexesShaped(w, usable, enc, ts[1..]);
    }
  }

  lemma {:induction false} KidAt(w: PageMap, usable: nat, enc: TextEncoding, ts: seq<Tree>, i: nat)
    requires AreTrees(w, usable, ts) && AreIndexes(w, usable, enc, ts) && i < |ts|
    ensures IsTree(w, usable, ts[i]) && IsIndex(w, usable, enc, ts[i]) && IndexesOf(w, usable, enc, ts)[i] == IndexOf(w, usable, enc, ts[i])
  {
    hide IsTree, IsIndex, IndexOf;
    if i > 0 { KidAt(w, usable, enc, ts[1..], i - 1); }
  }

  // --------------------------------------------------------------- depends on its own pages

  lemma KeyOnKept(w: PageMap, w': PageMap, buf: Page, hs: nat, k: PageKind, i: nat, usable: nat, enc: TextEncoding, c: seq<u32>)
    requires (k == IndexLeaf || k == IndexInterior) && CellChain(buf, hs, k, i, usable, c) && IsChain(w, c)
    requires forall j :: 0 <= j < |c| ==> c[j] in w' && w'[c[j]] == w[c[j]]
    ensures KeyOn(w', buf, hs, k, i, usable, enc) == KeyOn(w, buf, hs, k, i, usable, enc)
  {
    hide U32At, LocalPayloadSize, ReadOn, Decodes, Decoded, CellHead, IsChain, Pieces, PlainKey;
    var o := OverflowOf(buf, hs, k, i, usable);
    if o.value.Some? {
      var at := EntryAt(buf, hs, k, i).value;
      var head := CellHead(buf[at..], false).value;
      var local := LocalPayloadSize(usable, head.0, true);
      ReadKept(w, w', c, head.0 - local, PerOverflowPage(usable), {});
    }
  }

  lemma PageKeysKept(w: PageMap, w': PageMap, usable: nat, enc: TextEncoding, t: Tree)
    requires IsTree(w, usable, t) && (t.kind == IndexLeaf || t.kind == IndexInterior) && SameOn(w, w', Concat(t.chains)) && t.page in w'
    requires w'[t.page] == w[t.page]
    ensures PageKeys(w', usable, enc, t) == PageKeys(w, usable, enc, t)
    ensures KeysRead(w', w[t.page], HeaderStart(t.page), t.kind, |t.chains|, usable, enc)
       <==> KeysRead(w, w[t.page], HeaderStart(t.page), t.kind, |t.chains|, usable, enc)
  {
    hide KeyOn, CellChain, ChildOf, RightmostOf, KindOf, CellCount, AreTrees, IsChain, SameOn, Concat;
    forall i | 0 <= i < |t.chains|
      ensures KeyOn(w', w[t.page], HeaderStart(t.page), t.kind, i, usable, enc) == KeyOn(w, w[t.page], HeaderStart(t.page), t.kind, i, usable, enc)
    {
      ChainMember(t.chains, i);
      ChainOnSame(w, w', Concat(t.chains), |Concat(t.chains[..i])|, t.chains[i]);
      KeyOnKept(w, w', w[t.page], HeaderStart(t.page), t.kind, i, usable, enc, t.chains[i]);
    }
  }

  lemma ChainOnSame(w: PageMap, w': PageMap, ps: seq<u32>, at: nat, c: seq<u32>)
    requires SameOn(w, w', ps) && IsChain(w, c) && at + |c| <= |ps| && ps[at..at + |c|] == c
    ensures forall j :: 0 <= j < |c| ==> c[j] in w' && w'[c[j]] == w[c[j]]
  {
    hide U32At;
    forall j | 0 <= j < |c| ensures c[j] in w' && w'[c[j]] == w[c[j]] {
      assert Links(w, c[j], NextIn(c, j));
      assert c[j] == ps[at..at + |c|][j] == ps[at + j];
    }
  }

  /** An index is read off its own pages, overflow pages included: writes elsewhere leave
      its entries alone. */
  lemma {:induction false} IndexKept(w: PageMap, w': PageMap, usable: nat, enc: TextEncoding, t: Tree)
    requires IsTree(w, usable, t) && IsIndex(w, usable, enc, t) && SameOn(w, w', PagesOf(t))
    ensures IsIndex(w', usable, enc, t) && IndexOf(w', usable, enc, t) == IndexOf(w, usable, enc, t)
    decreases t, 0
  {
    hide IsNode, IsChain, Concat, SameOn, PageKeys, KeysRead;
    SameOnParts(w, w', Concat(t.chains) + PagesOfAll(t.kids), [t.page]);
    SameOnParts(w, w', Concat(t.chains), PagesOfAll(t.kids));
    LastSame(w, w', t.page);
    PageKeysKept(w, w', usable, enc, t);
    IndexesKept(w, w', usable, enc, t.kids);
  }

  lemma {:induction false} IndexesKept(w: PageMap, w': PageMap, usable: nat, enc: TextEncoding, ts: seq<Tree>)
    requires AreTrees(w, usable, ts) && AreIndexes(w, usable, enc, ts) && SameOn(w, w', PagesOfAll(ts))
    ensures AreIndexes(w', usable, enc, ts) && IndexesOf(w', usable, enc, ts) == IndexesOf(w, usable, enc, ts)
    decreases ts, 1
  {
    hide SameOn, IsTree, IsIndex, IndexOf;
    if ts != [] {
      SameOnParts(w, w', PagesOf(ts[0]), PagesOfAll(ts[1..]));
      IndexKept(w, w', usable, enc, ts[0]);
      IndexesKept(w, w', usable, enc, ts[1..]);
    }
  }

  /** Freeing pages, as dropping another tree does, leaves the entries of every index that
      shares no page with them alone. */
  lemma FreeingKeepsIndexes(w: PageMap, pageSize: nat, usable: nat, enc: TextEncoding, ts: Chain, ps: seq<u32>, t: Tree)
    requires FreeInv(w, pageSize, ts) && Freeable(w, ts, ps) && IsTree(w, usable, t) && IsIndex(w, usable, enc, t)
    requires forall q :: q in PagesOf(t) ==> Bystander(w, ts, ps, q)
    ensures Shaped(w, pageSize) && DeallocAll(w, pageSize, ps).Ok?
    ensures var w' := DeallocAll(w, pageSize, ps).value;
            IsTree(w', usable, t) && IsIndex(w', usable, enc, t) && IndexOf(w', usable, enc, t) == IndexOf(w, usable, enc, t)
  {
    hide IsTree, IsIndex, IndexOf, DeallocAll, Freeable, PagesOf, Shaped, Follows, FreeSet;
    DeallocAllKeeps(w, pageSize, ts, ps);
    var w' := DeallocAll(w, pageSize, ps).value;
    assert SameOn(w, w', PagesOf(t));
    TreeKept(w, w', usable, t);
    IndexKept(w, w', usable, enc, t);
  }

  // -------------------------------------------------------------------- reading a page

  /** Reads one cell's key. */
  method ReadEntry(w: PageMap, buf: Page, hs: nat, k: PageKind, i: nat, usable: nat, enc: TextEncoding) returns (r: Result<Key, TreeError>)
    ensures r.Ok? <==> KeyOn(w, buf, hs, k, i, usable, enc).Some?
    ensures r.Ok? ==> KeyOn(w, buf, hs, k, i, usable, enc) == Some(r.value)
  {
    hide CellStart, KeyAt, Decodes, Decoded, PlainKey;
    var at := EntryAt(buf, hs, k, i);
    if at.Err? {
      return Err(at.error);
    }
    var columns := ReadKey(w, buf, at.value, usable, enc);
    if columns.Err? {
      return Err(columns.error);
    }
    var key := PlainKey(columns.value);
    return if key.Some? then Ok(key.value) else Err(BadRecord);
  }

  /** The child pointers and keys of an interior page, the rightmost pointer last. */
  method CollectEntries(w: PageMap, buf: Page, hs: nat, n: nat, usable: nat, enc: TextEncoding, ghost t: Tree)
    returns (r: Result<(seq<u32>, seq<Key>), TreeError>)
    ensures r.Ok? ==> |r.value.0| == n + 1 && r.value.1 == KeysOn(w, buf, hs, IndexInterior, n, usable, enc)
    ensures NodeOn(buf, hs, IndexInterior, n, usable, t) ==>
              && (r.Ok? <==> KeysRead(w, buf, hs, IndexInterior, n, usable, enc))
              && (r.Ok? ==> Roots(r.value.0, t.kids))
  {
    hide ChildOf, RightmostOf, CellChain, KindOf, CellCount, KeyOn;
    ghost var node := NodeOn(buf, hs, IndexInterior, n, usable, t);
    var out, keys := [], [];
    for i := 0 to n
      invariant |out| == i && keys == KeysOn(w, buf, hs, IndexInterior, i, usable, enc)
      invariant KeysRead(w, buf, hs, IndexInterior, i, usable, enc)
      invariant node ==> forall j :: 0 <= j < i ==> out[j] == t.kids[j].page
    {
      var child := ChildOf(buf, hs, IndexInterior, i);
      if child.Err? {
        return Err(child.error);
      }
      var key := ReadEntry(w, buf, hs, IndexInterior, i, usable, enc);
      if key.Err? {
        return Err(key.error);
      }
      out, keys := out + [child.value], keys + [key.value];
    }
    var right := RightmostOf(buf, hs);
    if right.Err? {
      return Err(right.error);
    }
    return Ok((out + [right.value], keys));
  }

  datatype LeafSearch = Found(at: nat) | NotFound(at: nat)

  /** A key's position on a leaf, or where it would go, reading only the cells it compares. */
  method SearchIndexLeaf(w: PageMap, buf: Page, hs: nat, n: nat, usable: nat, enc: TextEncoding, key: Key)
    returns (r: Result<LeafSearch, TreeError>)
    ensures var keys := KeysOn(w, buf, hs, IndexLeaf, n, usable, enc);
            KeysRead(w, buf, hs, IndexLeaf, n, usable, enc) && Sorted(keys) ==>
              && r.Ok? && r.value.at <= n
              && (r.value.Found? ==> r.value.at < n && keys[r.value.at] == key)
              && (r.value.NotFound? ==> key !in keys && AllLess(keys[..r.value.at], key) && AllGreater(keys[r.value.at..], key))
  {
    hide CompareKeys, KeyOn, KeysOn, Sorted;
    ghost var keys := KeysOn(w, buf, hs, IndexLeaf, n, usable, enc);
    ghost var good := KeysRead(w, buf, hs, IndexLeaf, n, usable, enc) && Sorted(keys);
    var lo, hi := 0, n;
    while lo < hi
      invariant 0 <= lo <= hi <= n
      invariant good ==> AllLess(keys[..lo], key) && AllGreater(keys[hi..], key)
    {
      var mid := lo + (hi - lo) / 2;
      var found := ReadEntry(w, buf, hs, IndexLeaf, mid, usable, enc);
      if found.Err? {
        return Err(found.error);
      }
      assert keys[mid] == found.value;
      KeysFlip(key, found.value);
      match CompareKeys(key, found.value)
      case Equal =>
        return Ok(Found(mid));
      case Less =>
        if good { TailGreater(keys, mid, key); }
        hi := mid;
      case Greater =>
        if good { HeadLess(keys, mid, key); }
        lo := mid + 1;
    }
    if good {
      NotAmong(keys[..lo], keys[lo..], key);
      assert keys == keys[..lo] + keys[lo..];
    }
    return Ok(NotFound(lo));
  }

  // ------------------------------------------------------------------------- descending

  datatype Descent = AtLeaf(ancestors: seq<u32>, leaf: u32) | InteriorMatch(page: u32, child: u32)

  /** The page looking `key` up ends on: an interior page that holds it, or a leaf. */
  ghost function Landing(w: PageMap, usable: nat, enc: TextEncoding, t: Tree, key: Key): Tree
    decreases t
  {
    if IndexOf(w, usable, enc, t).Leaf? || key in PageKeys(w, usable, enc, t) then t
    else Landing(w, usable, enc, t.kids[ChildFor(PageKeys(w, usable, enc, t), key)], key)
  }

  /** The pages read before it. */
  ghost function PathTo(w: PageMap, usable: nat, enc: TextEncoding, t: Tree, key: Key): seq<u32>
    decreases t
  {
    if IndexOf(w, usable, enc, t).Leaf? || key in PageKeys(w, usable, enc, t) then []
    else [t.page] + PathTo(w, usable, enc, t.kids[ChildFor(PageKeys(w, usable, enc, t), key)], key)
  }

  /** `t` is an index, in key order. */
  ghost predicate SortedIndex(w: PageMap, usable: nat, enc: TextEncoding, t: Tree)
  {
    && IsTree(w, usable, t) && IsIndex(w, usable, enc, t)
    && Index.Shaped(IndexOf(w, usable, enc, t)) && Sorted(Index.InOrder(IndexOf(w, usable, enc, t)))
  }

  /** The entries of the index around page `u`, where `key` must be if it is there at all. */
  ghost predicate Narrowed(w: PageMap, usable: nat, enc: TextEncoding, t: Tree, u: Tree, key: Key, pre: seq<Key>, post: seq<Key>)
  {
    && IsTree(w, usable, u) && IsIndex(w, usable, enc, u)
    && Cornered(IndexOf(w, usable, enc, t), IndexOf(w, usable, enc, u), key, pre, post)
    && Landing(w, usable, enc, u, key) == Landing(w, usable, enc, t, key)
  }

  /** What the search makes of the page it is on. */
  lemma PageFacts(w: PageMap, usable: nat, enc: TextEncoding, u: Tree)
    requires IsTree(w, usable, u) && IsIndex(w, usable, enc, u)
    ensures u.page in w && KindOf(w[u.page], HeaderStart(u.page)) == Ok(u.kind) && CellCount(w[u.page], HeaderStart(u.page)) == Ok(|u.chains|)
    ensures u.kind == IndexLeaf || u.kind == IndexInterior
    ensures u.kind == IndexLeaf <==> IndexOf(w, usable, enc, u).Leaf?
    ensures IndexOf(w, usable, enc, u).keys == PageKeys(w, usable, enc, u)
         == KeysOn(w, w[u.page], HeaderStart(u.page), u.kind, |u.chains|, usable, enc)
    ensures KeysRead(w, w[u.page], HeaderStart(u.page), u.kind, |u.chains|, usable, enc)
    ensures u.kind == IndexInterior ==> NodeOn(w[u.page], HeaderStart(u.page), IndexInterior, |u.chains|, usable, u)
    ensures u.kind == IndexInterior ==> |u.kids| == |u.chains| + 1 && AreTrees(w, usable, u.kids) && AreIndexes(w, usable, enc, u.kids)
    ensures u.kind == IndexInterior ==> IndexOf(w, usable, enc, u).kids == IndexesOf(w, usable, enc, u.kids)
  {
    hide CellChain, ChildOf, RightmostOf, KindOf, CellCount, AreTrees, AreIndexes, KeysOn, KeysRead, IndexesOf;
  }

  /** One step down. */
  lemma Narrow(w: PageMap, usable: nat, enc: TextEncoding, t: Tree, u: Tree, key: Key, pre: seq<Key>, post: seq<Key>, i: nat)
    requires Narrowed(w, usable, enc, t, u, key, pre, post) && u.kind == IndexInterior
    requires key !in PageKeys(w, usable, enc, u) && i == ChildFor(PageKeys(w, usable, enc, u), key)
    requires i > 0 ==> CompareKeys(PageKeys(w, usable, enc, u)[i - 1], key) == Less
    requires i < |u.chains| ==> CompareKeys(key, PageKeys(w, usable, enc, u)[i]) == Less
    ensures i < |u.kids| && Index.Shaped(IndexOf(w, usable, enc, u)) && 2 * i <= Index.Steps(IndexOf(w, usable, enc, u))
    ensures var v := IndexOf(w, usable, enc, u);
            Narrowed(w, usable, enc, t, u.kids[i], key, pre + Index.UpTo(v, 2 * i), Index.From(v, 2 * i + 1) + post)
    ensures PagesDown(IndexOf(w, usable, enc, u), key) == 1 + PagesDown(IndexOf(w, usable, enc, u.kids[i]), key)
    ensures PathTo(w, usable, enc, u, key) == [u.page] + PathTo(w, usable, enc, u.kids[i], key)
  {
    hide IsTree, IsIndex, IndexOf, PageKeys, ChildFor, CompareKeys, Index.From, Index.UpTo, Index.InteriorKeys, Sorted, PagesDown;
    PageFacts(w, usable, enc, u);
    KidAt(w, usable, enc, u.kids, i);
    var v := IndexOf(w, usable, enc, u);
    CornerKid(IndexOf(w, usable, enc, t), v, key, pre, post, i);
    KidCount(v, key, i);
  }

  /** Goes down from page `root` until an interior page holds the key or a leaf is reached,
      exactly within the page limit. On a sorted index an interior match is found if and only
      if the key is an interior entry; otherwise the key can only be on that leaf, between
      the entries before and after it. */
  method DescendIndexTree(w: PageMap, usable: nat, enc: TextEncoding, root: u32, key: Key, ghost t: Tree)
    returns (r: Result<Descent, TreeError>, ghost pre: seq<Key>, ghost post: seq<Key>)
    ensures SortedIndex(w, usable, enc, t) && t.page == root ==>
              (r.Ok? <==> PagesDown(IndexOf(w, usable, enc, t), key) <= MAX_PAGES_VISITED)
    ensures SortedIndex(w, usable, enc, t) && t.page == root && r.Ok? ==> Landed(w, usable, enc, t, key, r.value, pre, post)
  {
    hide IsTree, IsIndex, IndexOf, Landing, PathTo, PagesDown, KindOf, CellCount, NodeOn, KeysOn, KeysRead, PageKeys, Cornered, ChildFor,
         CompareKeys, Sorted, Index.From, Index.UpTo, Index.Shaped, Landed;
    ghost var good := SortedIndex(w, usable, enc, t) && t.page == root;
    ghost var u := t;
    pre, post := [], [];
    if good { StartNarrowed(w, usable, enc, t, key); }
    var page, visited, ancestors := root, 0, [];
    while true
      invariant visited == |ancestors| <= MAX_PAGES_VISITED
      invariant good ==> Narrowed(w, usable, enc, t, u, key, pre, post) && u.page == page
      invariant good ==> Index.Shaped(IndexOf(w, usable, enc, u)) && Index.Shaped(IndexOf(w, usable, enc, t))
      invariant good ==> visited + PagesDown(IndexOf(w, usable, enc, u), key) == PagesDown(IndexOf(w, usable, enc, t), key)
      invariant good ==> ancestors + PathTo(w, usable, enc, u, key) == PathTo(w, usable, enc, t, key)
      decreases MAX_PAGES_VISITED - visited
    {
      visited := visited + 1;
      if visited > MAX_PAGES_VISITED {
        return Err(TraversalTooLong), pre, post;
      }
      if good { PageFacts(w, usable, enc, u); }
      if page !in w {
        return Err(Unreadable(page)), pre, post;
      }
      var buf, hs := w[page], HeaderStart(page);
      var kind, count := KindOf(buf, hs), CellCount(buf, hs);
      if kind.Err? {
        return Err(kind.error), pre, post;
      }
      if kind.value == IndexLeaf {
        if good { LandsOnLeaf(w, usable, enc, t, u, key, pre, post, ancestors); }
        return Ok(AtLeaf(ancestors, page)), pre, post;
      }
      if kind.value != IndexInterior {
        return Err(UnexpectedPageType), pre, post;
      }
      if count.Err? {
        return Err(count.error), pre, post;
      }
      var entries := CollectEntries(w, buf, hs, count.value, usable, enc, u);
      if entries.Err? {
        return Err(entries.error), pre, post;
      }
      var children, keys := entries.value.0, entries.value.1;
      var entry := Position(keys, key);
      if entry < |keys| {
        if good { LandsInside(w, usable, enc, t, u, key, pre, post, entry); }
        return Ok(InteriorMatch(page, children[entry])), pre, post;
      }
      var i := Route(keys, key);
      if good {
        Narrow(w, usable, enc, t, u, key, pre, post, i);
        IndexShaped(w, usable, enc, u.kids[i]);
        ghost var v := IndexOf(w, usable, enc, u);
        pre, post := pre + Index.UpTo(v, 2 * i), Index.From(v, 2 * i + 1) + post;
        assert ancestors + ([page] + PathTo(w, usable, enc, u.kids[i], key)) == (ancestors + [page]) + PathTo(w, usable, enc, u.kids[i], key);
        u := u.kids[i];
      }
      ancestors, page := ancestors + [page], children[i];
    }
  }

  /** The result says where the search landed, and what that means for the whole index. */
  ghost predicate Landed(w: PageMap, usable: nat, enc: TextEncoding, t: Tree, key: Key, d: Descent, pre: seq<Key>, post: seq<Key>)
    requires SortedIndex(w, usable, enc, t)
  {
    var index, last := IndexOf(w, usable, enc, t), Landing(w, usable, enc, t, key);
    && (d.InteriorMatch? <==> key in Index.InteriorKeys(index))
    && (d.InteriorMatch? ==> key in Index.InOrder(index) && d.page == last.page && Names(w, usable, enc, last, key, d.child))
    && (d.AtLeaf? ==>
          && d.ancestors == PathTo(w, usable, enc, t, key) && d.leaf == last.page && last.kind == IndexLeaf
          && IsTree(w, usable, last) && IsIndex(w, usable, enc, last)
          && Index.InOrder(index) == pre + PageKeys(w, usable, enc, last) + post && AllLess(pre, key) && AllGreater(post, key)
          && (key in Index.InOrder(index) <==> key in PageKeys(w, usable, enc, last)) && Sorted(PageKeys(w, usable, enc, last)))
  }

  /** `child` is the left child of the first entry of `u` equal to `key`. */
  ghost predicate Names(w: PageMap, usable: nat, enc: TextEncoding, u: Tree, key: Key, child: u32)
  {
    exists e :: 0 <= e < |u.chains| && e < |u.kids| && PageKeys(w, usable, enc, u)[e] == key && key !in PageKeys(w, usable, enc, u)[..e]
                && child == u.kids[e].page
  }

  lemma StartNarrowed(w: PageMap, usable: nat, enc: TextEncoding, t: Tree, key: Key)
    requires SortedIndex(w, usable, enc, t)
    ensures Narrowed(w, usable, enc, t, t, key, [], [])
  {
    hide IsTree, IsIndex, IndexOf, Landing, Sorted, Index.From, Index.InteriorKeys, CompareKeys;
    var all := Index.InOrder(IndexOf(w, usable, enc, t));
    assert [] + all + [] == all;
  }

  lemma LandsOnLeaf(w: PageMap, usable: nat, enc: TextEncoding, t: Tree, u: Tree, key: Key, pre: seq<Key>, post: seq<Key>, ancestors: seq<u32>)
    requires SortedIndex(w, usable, enc, t) && Narrowed(w, usable, enc, t, u, key, pre, post) && u.kind == IndexLeaf
    requires ancestors + PathTo(w, usable, enc, u, key) == PathTo(w, usable, enc, t, key)
    ensures Landed(w, usable, enc, t, key, AtLeaf(ancestors, u.page), pre, post)
    ensures Index.Shaped(IndexOf(w, usable, enc, u)) && PagesDown(IndexOf(w, usable, enc, u), key) == 1
  {
    hide IsTree, IsIndex, IndexOf, PageKeys, Sorted, Index.From, Index.InteriorKeys, CompareKeys, PagesDown, AllLess, AllGreater;
    PageFacts(w, usable, enc, u);
    IndexShaped(w, usable, enc, u);
    LeafReached(IndexOf(w, usable, enc, t), IndexOf(w, usable, enc, u), key, pre, post);
    LastPage(IndexOf(w, usable, enc, u), key);
    assert ancestors + [] == ancestors;
  }

  lemma LandsInside(w: PageMap, usable: nat, enc: TextEncoding, t: Tree, u: Tree, key: Key, pre: seq<Key>, post: seq<Key>, e: nat)
    requires SortedIndex(w, usable, enc, t) && Narrowed(w, usable, enc, t, u, key, pre, post) && u.kind == IndexInterior
    requires e < |u.chains| && PageKeys(w, usable, enc, u)[e] == key && key !in PageKeys(w, usable, enc, u)[..e]
    ensures e < |u.kids| && Landed(w, usable, enc, t, key, InteriorMatch(u.page, u.kids[e].page), pre, post)
    ensures Index.Shaped(IndexOf(w, usable, enc, u)) && PagesDown(IndexOf(w, usable, enc, u), key) == 1
  {
    hide IsTree, IsIndex, IndexOf, PageKeys, Sorted, Index.From, Index.InteriorKeys, CompareKeys, Cornered, PagesDown;
    PageFacts(w, usable, enc, u);
    IndexShaped(w, usable, enc, u);
    MatchFound(IndexOf(w, usable, enc, t), IndexOf(w, usable, enc, u), key, pre, post);
    LastPage(IndexOf(w, usable, enc, u), key);
  }

  /** The entries stay sorted with `key` put in at `at`. */
  ghost predicate SortedWith(all: seq<Key>, at: nat, key: Key)
    requires at <= |all|
  {
    Sorted(all[..at] + [key] + all[at..])
  }

  /** Descent and leaf search together decide membership, and otherwise give the place
      where inserting the key keeps the whole index sorted. */
  method Locate(w: PageMap, usable: nat, enc: TextEncoding, root: u32, key: Key, ghost t: Tree)
    returns (r: Result<bool, TreeError>, ghost at: nat)
    ensures SortedIndex(w, usable, enc, t) && t.page == root ==>
              (r.Ok? <==> PagesDown(IndexOf(w, usable, enc, t), key) <= MAX_PAGES_VISITED)
    ensures SortedIndex(w, usable, enc, t) && t.page == root && r.Ok? ==>
              (r.value <==> key in Index.InOrder(IndexOf(w, usable, enc, t)))
    ensures SortedIndex(w, usable, enc, t) && t.page == root && r == Ok(false) ==>
              at <= |Index.InOrder(IndexOf(w, usable, enc, t))| && SortedWith(Index.InOrder(IndexOf(w, usable, enc, t)), at, key)
  {
    hide IsTree, IsIndex, IndexOf, Landing, PathTo, PagesDown, KindOf, CellCount, KeysOn, KeysRead, PageKeys, CompareKeys, Sorted,
         Index.From, Index.Shaped, Index.InteriorKeys;
    ghost var good := SortedIndex(w, usable, enc, t) && t.page == root;
    ghost var pre, post;
    at := 0;
    var d;
    d, pre, post := DescendIndexTree(w, usable, enc, root, key, t);
    if d.Err? {
      return Err(d.error), 0;
    }
    if d.value.InteriorMatch? {
      return Ok(true), 0;
    }
    ghost var last := Landing(w, usable, enc, t, key);
    if good { PageFacts(w, usable, enc, last); }
    var page := d.value.leaf;
    if page !in w {
      return Err(Unreadable(page)), 0;
    }
    var count := CellCount(w[page], HeaderStart(page));
    if count.Err? {
      return Err(count.error), 0;
    }
    var s := SearchIndexLeaf(w, w[page], HeaderStart(page), count.value, usable, enc, key);
    if s.Err? {
      return Err(s.error), 0;
    }
    if s.value.Found? {
      return Ok(true), 0;
    }
    if good { SortedInsert(pre, PageKeys(w, usable, enc, last), post, s.value.at, key); }
    return Ok(false), |pre| + s.value.at;
  }
}
