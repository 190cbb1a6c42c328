/** Rowids and keys of table pages told from the bytes of their cells, and a small table
    rooted on page 1, byte by byte. */
module TableBytes {
  import opened Bytes
  import opened Cells
  import opened PageLayout
  import opened PageRebuild
  import opened TreePages
  import opened FreeTree
  import opened FreeTreeWalk
  import opened TablePages
  import Table = TableTree

  /** On a well-formed leaf, row `i` is the rowid the bytes of cell `i` carry. */
  lemma RowIdIs(b: seq<byte>, hs: nat, usable: nat, l: Layout, i: nat)
    requires WellFormed(b, hs, Kind(usable, true), l) && i < |l.cells|
    ensures l.cells[i].End() <= |b| && HasRowid((RowId(b, hs, i), CellBytesOf(b, l.cells[i])))
  {
    hide U16At, LocalPayloadSize, WellFormed, CellHead;
    var k := Kind(usable, true);
    LeafCell(b, hs, k, l, i);
    RowidOf(b, l.cells[i], CellHead(b[l.cells[i].at..], true).value);
  }

  /** Cell `i` of an interior page: its pointer stands behind the twelve-byte header, its child
      in the first four bytes, its key in the varint after them. */
  lemma InteriorCellIs(buf: Page, hs: nat, i: nat, n: nat)
    requires hs + 12 + 2 * i + 2 <= |buf| && U16At(buf, hs + 12 + 2 * i) + 4 <= |buf|
    requires VarintEnds(buf[U16At(buf, hs + 12 + 2 * i) + 4..], n)
    ensures var at := U16At(buf, hs + 12 + 2 * i);
            && ChildOf(buf, hs, TableInterior, i) == Ok(U32At(buf, at))
            && KeyOf(buf, hs, i) == Signed(VarintValue(buf[at + 4..], n))
  {
    hide U32At, DecodeVarint, VarintValue;
    VarintIs(buf[U16At(buf, hs + 12 + 2 * i) + 4..]);
  }

  // ------------------------------------------------------------- a table rooted on page 1

  /** Behind the 100 bytes of the file header: an interior page with one cell, child 2 and
      key 300, and page 3 to the right. */
  function RootPage(): (p: Page)
    ensures |p| == 512
  {
    Zeros(100) + [5, 0, 0, 0, 1, 0, 114, 0, 0, 0, 0, 3, 0, 114, 0, 0, 0, 2, 130, 44] + Zeros(392)
  }

  /** A leaf with one cell, an empty payload under a two-byte rowid. */
  function LeafPage(low: byte): (p: Page)
    ensures |p| == 512
  {
    [13, 0, 0, 0, 1, 0, 10, 0, 0, 10, 0, 130, low] + Zeros(499)
  }

  function SmallDb(): PageMap { map[1 := RootPage(), 2 := LeafPage(44), 3 := LeafPage(45)] }

  const SMALL_LEAF := Tree(2, TableLeaf, [[]], [])
  const SMALL_TREE := Tree(1, TableInterior, [], [SMALL_LEAF, SMALL_LEAF.(page := 3)])

  lemma LeafBytes(page: u32, low: byte)
    requires page != 1 && low < 128
    ensures var b := LeafPage(low);
            && IsNode(b, 512, SMALL_LEAF.(page := page)) && CellCount(b, 0) == Ok(1)
            && RowId(b, 0, 0) == 256 + low
  {
    hide Zeros, VarintFrom;
    var b := LeafPage(low);
    assert CellStart(b, 0, TableLeaf, 0) == Ok(10);
    var s := b[10..];
    assert s[0] == 0 && s[1] == 130 && s[2] == low;
    OneByte(s);
    TwoByteVarint(s[1..]);
    assert CellHead(s, true) == Ok((0, 256 + low, 3));
    NothingOverflows();
  }

  lemma OneByte(s: seq<byte>)
    requires s != [] && s[0] == 0
    ensures DecodeVarint(s) == Ok((0, 1))
  {
  }

  lemma TwoByteVarint(s: seq<byte>)
    requires |s| >= 2 && s[0] == 130 && s[1] < 128
    ensures var low: int := s[1]; DecodeVarint(s) == Ok((256 + low, 2))
  {
    var low: int := s[1];
    assert VarintFrom(s, 1, 2) == Ok((256 + low, 2));
  }

  lemma NothingOverflows()
    ensures LocalPayloadSize(512, 0, false) == 0
  {
  }

  lemma RootBytes()
    ensures var b := RootPage();
            && KindOf(b, 100) == Ok(TableInterior) && CellCount(b, 100) == Ok(1) && RightmostOf(b, 100) == Ok(3)
            && ChildOf(b, 100, TableInterior, 0) == Ok(2) && KeyOf(b, 100, 0) == 300
  {
    hide VarintFrom, Zeros;
    var b := RootPage();
    assert CellStart(b, 100, TableInterior, 0) == Ok(114);
    var s := b[118..];
    assert s[0] == 130 && s[1] == 44;
    TwoByteVarint(s);
  }

  /** The pages hold a table of the rows 300 and 301, parted by the key 300. */
  lemma SmallTable()
    ensures IsTree(SmallDb(), 512, SMALL_TREE) && IsTableTree(SMALL_TREE)
    ensures TableOf(SmallDb(), SMALL_TREE) == Table.Node([Table.Leaf([300]), Table.Leaf([301])], [300])
  {
    hide RootPage, LeafPage, RowId, KeyOf, KindOf, CellCount, CellStart, ChildOf, RightmostOf, CellChain;
    var w, left, right := SmallDb(), SMALL_LEAF, SMALL_LEAF.(page := 3);
    RootBytes();
    LeafBytes(2, 44);
    LeafBytes(3, 45);
    LeafTree(w, 2, 44);
    LeafTree(w, 3, 45);
    assert SMALL_TREE.kids == [left] + [right] && [right][1..] == [];
    assert AreTrees(w, 512, [right]) && AreTrees(w, 512, [left] + [right]);
    assert AreTableTrees([right]) && AreTableTrees([left] + [right]);
    assert TablesOf(w, [right]) == [TableOf(w, right)];
    assert TablesOf(w, [left] + [right]) == [TableOf(w, left)] + TablesOf(w, [right]);
    assert KeysOn(w[1], 100, 1) == [300];
  }

  lemma LeafTree(w: PageMap, page: u32, low: byte)
    requires page != 1 && low < 128 && page in w && w[page] == LeafPage(low)
    ensures var t := SMALL_LEAF.(page := page);
            IsTree(w, 512, t) && IsTableTree(t) && TableOf(w, t) == Table.Leaf([256 + low])
  {
    hide LeafPage, RowId, KindOf, CellCount, CellStart, ChildOf, RightmostOf, CellChain;
    LeafBytes(page, low);
    var t := SMALL_LEAF.(page := page);
    assert AreTrees(w, 512, []) && AreTableTrees([]);
    assert TableOf(w, t).rows == [256 + low];
  }

  /** Looking both rows up, and counting them, from the root on page 1. */
  method SmallTableLookups() returns (left: Result<(seq<u32>, u32), TreeError>, right: Result<(seq<u32>, u32), TreeError>, rows: Result<nat, TreeError>)
    ensures left == Ok(([1], 2)) && right == Ok(([1], 3)) && rows == Ok(2)
  {
    hide RootPage, LeafPage, IsTree, TableOf, LeafOf, PathTo;
    SmallTable();
    SmallPaths();
    var w := SmallDb();
    left := FindLeafPage(w, 512, 1, 300, SMALL_TREE);
    right := FindLeafPage(w, 512, 1, 301, SMALL_TREE);
    var visited;
    rows, visited := CountTableRows(w, 512, 1, 0, 0, SMALL_TREE);
    SmallScan();
  }

  lemma SmallPaths()
    ensures PathTo(SmallDb(), SMALL_TREE, 300) == [1] && LeafOf(SmallDb(), SMALL_TREE, 300).page == 2
    ensures PathTo(SmallDb(), SMALL_TREE, 301) == [1] && LeafOf(SmallDb(), SMALL_TREE, 301).page == 3
  {
    hide SmallDb, TableOf;
    SmallTable();
    TableAt(SmallDb(), SMALL_TREE.kids, 0);
    TableAt(SmallDb(), SMALL_TREE.kids, 1);
    KidTables();
    assert Table.ChildFor([300], 300) == 0 && Table.ChildFor([300], 301) == 1;
  }

  lemma KidTables()
    ensures TableOf(SmallDb(), SMALL_TREE).Node? && TableOf(SmallDb(), SMALL_TREE).kids == TablesOf(SmallDb(), SMALL_TREE.kids)
  {
    hide RootPage, LeafPage, RowId, KeyOf, TablesOf;
  }

  lemma SmallScan()
    ensures var t := Table.Node([Table.Leaf([300]), Table.Leaf([301])], [300]);
            Table.Shaped(t) && Table.Scan(t) == [300, 301] && Table.PageCount(t) == 3
  {
    var a, b := Table.Leaf([300]), Table.Leaf([301]);
    var t := Table.Node([a, b], [300]);
    Table.LeafFrom(a, 0);
    Table.LeafFrom(b, 0);
    Table.LeafPages(a, 0);
    Table.LeafPages(b, 0);
    assert Table.From(t, 2) == [] && Table.From(t, 1) == [301] && Table.From(t, 0) == [300] + [301];
    assert Table.PagesFrom(t, 2) == 0 && Table.PagesFrom(t, 1) == 1 && Table.PagesFrom(t, 0) == 2;
  }
}
