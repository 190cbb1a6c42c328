/** A small index, byte by byte: three keys on three pages, looked up. */
module IndexBytes {
  import opened Bytes
  import opened Cells
  import opened TreePages
  import opened FreeTree
  import opened OverflowReread
  import opened Records
  import opened IndexKeys
  import opened IndexSearch
  import opened IndexPages
  import Index = IndexTree

  /** An interior page with one cell, child 3 and a record of the integer 5, and page 4 to the
      right. */
  function RootPage(): (p: Page)
    ensures |p| == 512
  {
    [2, 0, 0, 0, 1, 0, 14, 0, 0, 0, 0, 4, 0, 14, 0, 0, 0, 3, 3, 2, 1, 5] + Zeros(490)
  }

  /** A leaf with one cell, a record of the integer `x`. */
  function LeafPage(x: byte): (p: Page)
    ensures |p| == 512
  {
    [10, 0, 0, 0, 1, 0, 10, 0, 0, 10, 3, 2, 1, x] + Zeros(498)
  }

  function SmallDb(): PageMap { map[2 := RootPage(), 3 := LeafPage(4), 4 := LeafPage(6)] }

  const SMALL_LEAF := Tree(3, IndexLeaf, [[]], [])
  const SMALL_TREE := Tree(2, IndexInterior, [[]], [SMALL_LEAF, SMALL_LEAF.(page := 4)])

  function Key1(x: int): Key { [Integer(x)] }

  /** The record of one small integer. */
  lemma OneInteger(x: byte)
    requires x < 128
    ensures Decodes([2, 1, x], Utf8) && Decoded([2, 1, x], Utf8) == [Plain(Integer(x))]
  {
    var b: seq<byte> := [2, 1, x];
    assert DecodeVarint(b) == Ok((2, 1));
    assert b[1..][0] == 1;
    assert DecodeVarint(b[1..]) == Ok((1, 1));
    assert SerialTypes(b, 2, 2) == Some([]);
    assert SerialTypes(b, 1, 2) == Some([1] + []);
    assert [1] + [] == [1] && [1][1..] == [];
    assert b[2..3] == [x];
    SmallInteger(x);
    assert BodyDecodes(1, b, 2, Utf8) && ColumnAt(1, b, 2, Utf8) == Plain(Integer(x));
    assert BodiesEnd([1], b, 2, Utf8) == BodiesEnd([], b, 3, Utf8) == Some(3);
    assert ColumnsFrom([1], b, 2, Utf8) == [Plain(Integer(x))] + ColumnsFrom([], b, 3, Utf8);
  }

  lemma SmallInteger(x: byte)
    requires x < 128
    ensures TwosComplement([x]) == x
  {
    assert BigEndian([x]) == BigEndian([x][..0]) * 256 + x && BigEndian([]) == 0;
  }

  /** A cell holding such a record, whole on its page. */
  lemma CellOfThree(w: PageMap, buf: Page, at: nat, x: byte)
    requires at + 4 <= |buf| && buf[at..at + 4] == [3, 2, 1, x] && x < 128
    ensures KeyAt(w, buf, at, 512) == Ok([2, 1, x]) && CellHead(buf[at..], false) == Ok((3, 0, 1))
  {
    hide ReadOn;
    assert buf[at] == buf[at..at + 4][0];
    assert DecodeVarint(buf[at..]) == Ok((3, 1));
    assert buf[at + 1..at + 4] == buf[at..at + 4][1..];
    WholePayload();
  }

  lemma WholePayload()
    ensures LocalPayloadSize(512, 3, true) == 3
  {
  }

  lemma EntryOf(w: PageMap, buf: Page, k: PageKind, at: nat, x: byte)
    requires x < 128 && EntryAt(buf, 0, k, 0) == Ok(at) && at + 4 <= |buf| && buf[at..at + 4] == [3, 2, 1, x]
    requires k == IndexLeaf || k == IndexInterior
    ensures KeyOn(w, buf, 0, k, 0, 512, Utf8) == Some(Key1(x)) && CellChain(buf, 0, k, 0, 512, [])
  {
    hide KeyAt, Decodes, Decoded, CellHead, CellStart;
    CellOfThree(w, buf, at, x);
    OneInteger(x);
    assert PlainKey([Plain(Integer(x))]) == Some([Integer(x)] + []) && [Integer(x)] + [] == [Integer(x)];
    WholePayload();
  }

  lemma LeafBytes(w: PageMap, page: u32, x: byte)
    requires page != 1 && x < 128 && page in w && w[page] == LeafPage(x)
    ensures var t := SMALL_LEAF.(page := page);
            IsTree(w, 512, t) && IsIndex(w, 512, Utf8, t) && IndexOf(w, 512, Utf8, t) == Index.Leaf([Key1(x)])
  {
    hide Zeros, KeyOn, CellChain;
    var b, t := LeafPage(x), SMALL_LEAF.(page := page);
    assert CellStart(b, 0, IndexLeaf, 0) == Ok(10);
    assert b[10..14] == [3, 2, 1, x];
    EntryOf(w, b, IndexLeaf, 10, x);
    assert KindOf(b, 0) == Ok(IndexLeaf) && CellCount(b, 0) == Ok(1);
    assert IsNode(b, 512, t);
    assert IsChain(w, []);
    assert AreTrees(w, 512, []) && AreIndexes(w, 512, Utf8, []);
    assert PageKeys(w, 512, Utf8, t) == [Key1(x)];
  }

  lemma RootBytes(w: PageMap)
    ensures var b := RootPage();
            && IsNode(b, 512, SMALL_TREE) && KeyOn(w, b, 0, IndexInterior, 0, 512, Utf8) == Some(Key1(5))
  {
    hide Zeros, KeyOn, CellChain;
    var b := RootPage();
    assert CellStart(b, 0, IndexInterior, 0) == Ok(14);
    assert b[18..22] == [3, 2, 1, 5];
    EntryOf(w, b, IndexInterior, 18, 5);
    assert KindOf(b, 0) == Ok(IndexInterior) && CellCount(b, 0) == Ok(1) && RightmostOf(b, 0) == Ok(4);
    assert ChildOf(b, 0, IndexInterior, 0) == Ok(3);
  }

  /** The pages hold an index of the keys 4, 5 and 6, the middle one on the interior page. */
  lemma SmallIndex()
    ensures SortedIndex(SmallDb(), 512, Utf8, SMALL_TREE)
    ensures Index.InOrder(IndexOf(SmallDb(), 512, Utf8, SMALL_TREE)) == [Key1(4), Key1(5), Key1(6)]
  {
    hide SmallDb, IsTree, IsIndex, IndexOf, Sorted, Index.From, Index.Shaped;
    SmallTrees();
    SmallIs();
    SmallOrder();
  }

  lemma SmallTrees()
    ensures IsTree(SmallDb(), 512, SMALL_TREE) && IsIndex(SmallDb(), 512, Utf8, SMALL_TREE)
  {
    hide RootPage, LeafPage, KeyOn, IsNode, IsChain, IndexOf;
    var w := SmallDb();
    var left, right := SMALL_LEAF, SMALL_LEAF.(page := 4);
    RootBytes(w);
    LeafBytes(w, 3, 4);
    LeafBytes(w, 4, 6);
    EmptyChain(w);
    assert SMALL_TREE.kids == [left] + [right] && [right][1..] == [] && ([left] + [right])[1..] == [right];
    assert AreTrees(w, 512, []) && AreTrees(w, 512, [right]) && AreTrees(w, 512, [left] + [right]);
    assert AreIndexes(w, 512, Utf8, []) && AreIndexes(w, 512, Utf8, [right]) && AreIndexes(w, 512, Utf8, [left] + [right]);
  }

  lemma EmptyChain(w: PageMap)
    ensures IsChain(w, [])
  {
  }

  lemma SmallOrder()
    ensures var t := Index.Node([Index.Leaf([Key1(4)]), Index.Leaf([Key1(6)])], [Key1(5)]);
            && Index.Shaped(t) && Index.InOrder(t) == [Key1(4), Key1(5), Key1(6)] && Sorted(Index.InOrder(t))
            && forall x :: 4 <= x <= 7 ==> PagesDown(t, Key1(x)) <= 2
  {
    var a, b := Index.Leaf([Key1(4)]), Index.Leaf([Key1(6)]);
    var t := Index.Node([a, b], [Key1(5)]);
    Index.LeafFrom(a, 0);
    Index.LeafFrom(b, 0);
    assert Index.From(t, 3) == [] && Index.From(t, 2) == [Key1(6)];
    assert Index.From(t, 1) == [Key1(5)] + [Key1(6)] && Index.From(t, 0) == [Key1(4)] + ([Key1(5)] + [Key1(6)]);
    forall x: int, y: int ensures CompareKeys(Key1(x), Key1(y)) == CompareInts(x, y) {
      assert Key1(x)[1..] == [] && Key1(y)[1..] == [];
    }
  }

  /** Each key is found, on whichever page it is, and one that is not there is not. */
  method SmallIndexLookups() returns (found: seq<Result<bool, TreeError>>)
    ensures found == [Ok(true), Ok(true), Ok(true), Ok(false)]
  {
    hide RootPage, LeafPage, SortedIndex, IndexOf, PagesDown, SortedWith, Index.From;
    SmallIndex();
    SmallDepth();
    found := [];
    for i := 0 to 4
      invariant |found| == i && forall j :: 0 <= j < i ==> found[j] == Ok(j < 3)
    {
      var r;
      ghost var at;
      r, at := Locate(SmallDb(), 512, Utf8, 2, Key1(4 + i), SMALL_TREE);
      found := found + [r];
    }
  }

  lemma SmallDepth()
    ensures Index.Shaped(IndexOf(SmallDb(), 512, Utf8, SMALL_TREE))
    ensures forall x :: 4 <= x <= 7 ==> PagesDown(IndexOf(SmallDb(), 512, Utf8, SMALL_TREE), Key1(x)) <= 2
  {
    hide RootPage, LeafPage, KeyOn, IndexOf, PagesDown;
    IndexShaped(SmallDb(), 512, Utf8, SMALL_TREE);
    SmallIs();
    SmallOrder();
  }

  lemma SmallIs()
    ensures IndexOf(SmallDb(), 512, Utf8, SMALL_TREE) == Index.Node([Index.Leaf([Key1(4)]), Index.Leaf([Key1(6)])], [Key1(5)])
  {
    hide RootPage, LeafPage, KeyOn, IsTree, IsIndex, IsNode;
    var w := SmallDb();
    var left, right := SMALL_LEAF, SMALL_LEAF.(page := 4);
    RootBytes(w);
    LeafBytes(w, 3, 4);
    LeafBytes(w, 4, 6);
    assert SMALL_TREE.kids == [left] + [right] && [right][1..] == [];
    assert IndexesOf(w, 512, Utf8, [right]) == [IndexOf(w, 512, Utf8, right)];
    assert IndexesOf(w, 512, Utf8, [left] + [right]) == [IndexOf(w, 512, Utf8, left)] + IndexesOf(w, 512, Utf8, [right]);
    assert PageKeys(w, 512, Utf8, SMALL_TREE) == [Key1(5)];
  }
}
