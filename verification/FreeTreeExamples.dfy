/** Two index trees, byte by byte, that dropping fails on although every key of theirs can
    be read beforehand: one loses the rest of an overflow chain, the other the bytes of one. */
module FreeTreeExamples {
  import opened Bytes
  import opened Cells
  import opened Freelist
  import opened Allocator
  import opened TreePages
  import opened FreeTree
  import opened Records
  import opened OverflowReread
  import opened FreeTreeWalk

  // ------------------------------------------------------------------------------- parts

  /** A run of the letter `a`. */
  function As(n: nat): (s: seq<byte>)
    ensures |s| == n && forall i :: 0 <= i < n ==> s[i] == 97
  {
    seq(n, _ => 97)
  }

  /** The first page of a database of `count` pages with nothing on its freelist. */
  function FirstPage(count: u32): (p: Page)
    ensures |p| == 512
  {
    Zeros(28) + BE32(count) + Zeros(480)
  }

  lemma FirstPageFields(count: u32)
    ensures var p := FirstPage(count); CountIn(p) == count && HeadIn(p) == 0 && FreeCountIn(p) == 0
  {
    hide BE32;
    var p := FirstPage(count);
    assert p[28..32] == BE32(count);
    ReadBack32(p, 28, count);
  }

  /** An index leaf without entries. */
  function EmptyLeaf(): (p: Page)
    ensures |p| == 512
  {
    [10] + Zeros(511)
  }

  function Leaf(page: u32): Tree { Tree(page, IndexLeaf, [], []) }

  lemma LeafIsTree(w: PageMap, page: u32)
    requires page != 1 && page in w && w[page] == EmptyLeaf()
    ensures IsTree(w, 512, Leaf(page)) && PagesOf(Leaf(page)) == [page]
  {
    assert w[page][0] == 10 && w[page][3] == 0 && w[page][4] == 0;
  }

  /** An overflow page: its successor, then payload. */
  function Overflowing(next: u32, payload: seq<byte>): (p: Page)
    requires |payload| <= 508
    ensures |p| == 512
  {
    BE32(next) + payload + Zeros(508 - |payload|)
  }

  lemma OverflowFields(next: u32, payload: seq<byte>)
    requires |payload| <= 508
    ensures U32At(Overflowing(next, payload), 0) == next && Overflowing(next, payload)[4..4 + |payload|] == payload
  {
    hide BE32;
    var p := Overflowing(next, payload);
    assert p[0..4] == BE32(next);
    ReadBack32(p, 0, next);
  }

  /** The key of a cell at `start`, of which 39 bytes are on the page. */
  lemma KeyCell(w: PageMap, buf: Page, i: nat, start: nat, len: nat, n: nat)
    requires |buf| == 512 && CellStart(buf, 0, IndexInterior, i) == Ok(start) && start + n + 47 <= 512
    requires DecodeVarint(buf[start + 4..]) == Ok((len, n)) && LocalPayloadSize(512, len, true) == 39 < len <= MAX_PAYLOAD_LEN
    ensures OverflowOf(buf, 0, IndexInterior, i, 512) == Ok(Some(Overflow(U32At(buf, start + n + 43), Pieces(len - 39, 508), len)))
    ensures KeyAt(w, buf, start + 4, 512)
         == After(buf[start + n + 4..start + n + 43], ReadOn(w, U32At(buf, start + n + 43), len - 39, 508, {}))
  {
    hide DecodeVarint, LocalPayloadSize, U32At, ReadOn, Pieces, CellStart;
  }

  // ------------------------------------------------------------------------------ decoding

  lemma {:induction false} AsciiValid(b: seq<byte>)
    requires forall i :: 0 <= i < |b| ==> b[i] < 128
    ensures ValidUtf8(b)
  {
    if b != [] { AsciiValid(b[1..]); }
  }

  lemma {:induction false} AfterAscii(a: seq<byte>, b: seq<byte>)
    requires forall i :: 0 <= i < |a| ==> a[i] < 128
    ensures ValidUtf8(a + b) == ValidUtf8(b)
  {
    if a == [] {
      assert a + b == b;
    } else {
      assert (a + b)[1..] == a[1..] + b;
      AfterAscii(a[1..], b);
    }
  }

  /** A record of one text column whose serial type takes two bytes. */
  lemma OneText(payload: seq<byte>, serial: nat)
    requires |payload| >= 3 && payload[0] == 3 && DecodeVarint(payload[1..]) == Ok((serial, 2)) && IsText(serial)
    requires BodyLen(serial) == |payload| - 3
    ensures Decodes(payload, Utf8) <==> ValidUtf8(payload[3..])
  {
    assert DecodeVarint(payload) == Ok((3, 1));
    assert SerialTypes(payload, 3, 3) == Some([]);
    assert [serial] + [] == [serial];
    assert SerialTypes(payload, 1, 3) == Some([serial]);
    assert [serial][1..] == [];
    assert payload[3..|payload|] == payload[3..];
    hide ValidUtf8;
    assert BodyDecodes(serial, payload, 3, Utf8) <==> ValidUtf8(payload[3..]);
    assert BodiesEnd([], payload, |payload|, Utf8) == Some(|payload|);
    assert BodiesEnd([serial], payload, 3, Utf8) == if ValidUtf8(payload[3..]) then Some(|payload|) else None;
  }

  // --------------------------------------------------------- a chain of two pages is cut

  /** Page 2: one key of 611 bytes, 39 of them here, the others on pages 5 and 6. */
  function CutRoot(): (p: Page)
    ensures |p| == 512
  {
    [2, 0, 0, 0, 1, 0, 16, 0, 0, 0, 0, 4, 0, 16, 0, 0] + [0, 0, 0, 3, 132, 99, 3, 137, 77] + As(36) + [0, 0, 0, 5] + Zeros(447)
  }

  function CutPage(p: u32): (r: Page)
    ensures |r| == 512
  {
    if p == 1 then FirstPage(6)
    else if p == 2 then CutRoot()
    else if p == 5 then Overflowing(6, As(508))
    else if p == 6 then Overflowing(0, As(64))
    else EmptyLeaf()
  }

  function CutDb(): PageMap { map p: u32 | Numbered(p, 6) :: CutPage(p) }

  const CUT_TREE := Tree(2, IndexInterior, [[5, 6]], [Leaf(3), Leaf(4)])

  lemma CutHead()
    ensures var buf := CutRoot();
            && KindOf(buf, 0) == Ok(IndexInterior) && CellCount(buf, 0) == Ok(1) && RightmostOf(buf, 0) == Ok(4)
            && CellStart(buf, 0, IndexInterior, 0) == Ok(16) && ChildOf(buf, 0, IndexInterior, 0) == Ok(3)
  {
    hide As, Zeros;
    var buf := CutRoot();
    assert buf[0] == 2 && buf[3] == 0 && buf[4] == 1 && buf[8] == 0 && buf[9] == 0 && buf[10] == 0 && buf[11] == 4;
    assert buf[12] == 0 && buf[13] == 16 && buf[16] == 0 && buf[17] == 0 && buf[18] == 0 && buf[19] == 3;
  }

  lemma CutBytes()
    ensures var buf := CutRoot();
            DecodeVarint(buf[20..]) == Ok((611, 2)) && U32At(buf, 61) == 5 && buf[22..61] == [3, 137, 77] + As(36)
  {
    hide As, Zeros;
    var buf := CutRoot();
    assert buf[61] == 0 && buf[62] == 0 && buf[63] == 0 && buf[64] == 5;
    assert buf[20..][0] == 132 && buf[20..][1] == 99;
    assert VarintFrom(buf[20..], 1, 4) == Ok((611, 2));
  }

  lemma CutCell(w: PageMap)
    ensures OverflowOf(CutRoot(), 0, IndexInterior, 0, 512) == Ok(Some(Overflow(5, 2, 611)))
    ensures KeyAt(w, CutRoot(), 20, 512) == After([3, 137, 77] + As(36), ReadOn(w, 5, 572, 508, {}))
  {
    hide CutRoot, DecodeVarint, U32At, CellStart, OverflowOf, KeyAt, ReadOn;
    CutHead();
    CutBytes();
    assert Pieces(572, 508) == 2 by { assert Pieces(64, 508) == 1; }
    KeyCell(w, CutRoot(), 0, 16, 611, 2);
  }

  lemma CutNode()
    ensures IsNode(CutRoot(), 512, CUT_TREE)
  {
    hide CutRoot, KindOf, CellCount, RightmostOf, ChildOf, OverflowOf;
    CutHead();
    CutCell(map[]);
  }

  lemma InCutDb(p: u32)
    requires Numbered(p, 6)
    ensures p in CutDb() && CutDb()[p] == CutPage(p)
  {
    hide CutPage;
  }

  lemma CutFree()
    ensures FreeInv(CutDb(), 512, [])
  {
    hide CutRoot, FirstPage, EmptyLeaf, Overflowing, As, U32At;
    var w := CutDb();
    FirstPageFields(6);
    InCutDb(1);
    forall p: u32 ensures p in w.Keys <==> p in Pages(6) {}
    assert w.Keys == Pages(6);
  }

  lemma CutChain()
    ensures IsChain(CutDb(), [5, 6])
  {
    hide CutRoot, FirstPage, EmptyLeaf, Overflowing, As, U32At, CutDb;
    InCutDb(5);
    InCutDb(6);
    OverflowFields(6, As(508));
    OverflowFields(0, As(64));
    assert Links(CutDb(), 5, 6) && Links(CutDb(), 6, 0);
  }

  lemma CutIsTree()
    ensures IsTree(CutDb(), 512, CUT_TREE)
  {
    hide CutRoot, FirstPage, EmptyLeaf, Overflowing, CutDb, IsNode, IsChain;
    var w, t := CutDb(), CUT_TREE;
    InCutDb(2);
    InCutDb(3);
    InCutDb(4);
    CutNode();
    CutChain();
    LeafIsTree(w, 3);
    LeafIsTree(w, 4);
    assert t.kids[1..] == [Leaf(4)] && t.kids[1..][1..] == [];
    assert AreTrees(w, 512, t.kids[1..]);
  }

  lemma CutReady()
    ensures TreeReady(CutDb(), 512, 512, [], CUT_TREE)
  {
    hide CutDb, IsTree, FreeInv, PagesOf;
    CutFree();
    CutIsTree();
    CutPages();
    InCutDb(2);
    InCutDb(3);
    InCutDb(4);
    InCutDb(5);
    InCutDb(6);
    assert FreeSet([]) == {};
  }

  lemma CutPages()
    ensures PagesOf(CUT_TREE) == [5, 6, 3, 4, 2]
  {
    assert CUT_TREE.kids[1..] == [Leaf(4)] && [Leaf(4)][1..] == [];
    assert [[5, 6]][1..] == [];
    LeafPages(3);
    LeafPages(4);
  }

  lemma LeafPages(p: u32)
    ensures PagesOf(Leaf(p)) == [p]
  {
  }

  lemma CutPayload()
    ensures ReadOn(CutDb(), 5, 572, 508, {}) == Ok(As(508) + (As(64) + []))
  {
    hide CutRoot, As, U32At, Overflowing, FirstPage, EmptyLeaf, CutDb;
    var w := CutDb();
    InCutDb(5);
    InCutDb(6);
    OverflowFields(6, As(508));
    OverflowFields(0, As(64));
    assert ReadOn(w, 0, 0, 508, {5} + {6}) == Ok([]);
    assert ReadOn(w, 6, 64, 508, {} + {5}) == Ok(As(64) + []);
  }

  lemma CutKey()
    ensures ReadsKey(CutDb(), CutRoot(), 0, 0, 512, Utf8)
  {
    hide CutRoot, As, CutDb, Decodes, KeyAt, ReadOn, CellStart;
    CutHead();
    CutCell(CutDb());
    CutPayload();
    CutText();
  }

  lemma CutText()
    ensures Decodes([3, 137, 77] + As(36) + (As(508) + (As(64) + [])), Utf8)
  {
    hide As, Decodes;
    TextOfAs([3, 137, 77] + As(36) + (As(508) + (As(64) + [])));
  }

  lemma NoKeys(w: PageMap, p: u32)
    ensures Keyed(w, 512, Utf8, Leaf(p))
  {
  }

  /** The key can be read before anything is freed. */
  lemma CutKeyed()
    ensures Keyed(CutDb(), 512, Utf8, CUT_TREE)
  {
    hide CutRoot, CutDb, ReadsKey;
    InCutDb(2);
    CutKey();
    NoKeys(CutDb(), 3);
    NoKeys(CutDb(), 4);
    assert CUT_TREE.kids[1..] == [Leaf(4)] && [Leaf(4)][1..] == [];
    assert KeyedAll(CutDb(), 512, Utf8, CUT_TREE.kids[1..]);
  }

  lemma TextOfAs(payload: seq<byte>)
    requires |payload| == 611 && payload[0] == 3 && payload[1] == 137 && payload[2] == 77
    requires forall i :: 3 <= i < |payload| ==> payload[i] == 97
    ensures Decodes(payload, Utf8)
  {
    assert payload[1..][0] == 137 && payload[1..][1] == 77;
    assert VarintFrom(payload[1..], 1, 9) == Ok((1229, 2));
    OneText(payload, 1229);
    AsciiValid(payload[3..]);
  }

  /** Dropping this index fails: the walk frees page 5 as a trunk and then cannot get from
      it to page 6. */
  method CutIndexFails() returns (r: Result<PageMap, TreeError>, v: nat)
    ensures TreeReady(CutDb(), 512, 512, [], CUT_TREE) && Keyed(CutDb(), 512, Utf8, CUT_TREE)
    ensures !Passes(CutDb(), 512, 512, Utf8, CUT_TREE) && r.Err?
  {
    hide CutDb, Keyed, Passes;
    CutReady();
    CutKeyed();
    EmptyFreelistBreaks(CutDb(), 512, 512, Utf8, CUT_TREE, 0);
    ShapedNow();
    r, v := FreeBtreePages(CutDb(), 512, 512, Utf8, 2, 0, [], CUT_TREE);
  }

  lemma ShapedNow()
    requires TreeReady(CutDb(), 512, 512, [], CUT_TREE)
    ensures Shaped(CutDb(), 512)
  {
    hide CutDb;
  }

  // ------------------------------------------------------ chains of one page are garbled

  /** Page 2: two keys of 103 bytes, 39 of them here, the others on pages 200 and 201. */
  function GarbledRoot(): (p: Page)
    ensures |p| == 512
  {
    [2, 0, 0, 0, 2, 0, 16, 0, 0, 0, 0, 5, 0, 16, 0, 64]
    + [0, 0, 0, 3, 103, 3, 129, 85] + As(36) + [0, 0, 0, 200]
    + [0, 0, 0, 4, 103, 3, 129, 85] + As(36) + [0, 0, 0, 201] + Zeros(400)
  }

  function GarbledPage(p: u32): (r: Page)
    ensures |r| == 512
  {
    if p == 1 then FirstPage(201)
    else if p == 2 then GarbledRoot()
    else if p < 200 then EmptyLeaf()
    else Overflowing(0, As(64))
  }

  function GarbledDb(): PageMap { map p: u32 | Numbered(p, 201) :: GarbledPage(p) }

  const GARBLED_TREE := Tree(2, IndexInterior, [[200], [201]], [Leaf(3), Leaf(4), Leaf(5)])

  lemma InGarbledDb(p: u32)
    requires Numbered(p, 201)
    ensures p in GarbledDb() && GarbledDb()[p] == GarbledPage(p)
  {
    hide GarbledPage;
  }

  lemma GarbledHead()
    ensures var buf := GarbledRoot();
            && KindOf(buf, 0) == Ok(IndexInterior) && CellCount(buf, 0) == Ok(2) && RightmostOf(buf, 0) == Ok(5)
            && CellStart(buf, 0, IndexInterior, 0) == Ok(16) && ChildOf(buf, 0, IndexInterior, 0) == Ok(3)
            && CellStart(buf, 0, IndexInterior, 1) == Ok(64) && ChildOf(buf, 0, IndexInterior, 1) == Ok(4)
  {
    hide As, Zeros;
    var buf := GarbledRoot();
    assert buf[0] == 2 && buf[3] == 0 && buf[4] == 2 && buf[8] == 0 && buf[9] == 0 && buf[10] == 0 && buf[11] == 5;
    assert buf[12] == 0 && buf[13] == 16 && buf[14] == 0 && buf[15] == 64;
    assert buf[16] == 0 && buf[17] == 0 && buf[18] == 0 && buf[19] == 3;
    assert buf[64] == 0 && buf[65] == 0 && buf[66] == 0 && buf[67] == 4;
  }

  lemma GarbledBytes()
    ensures var buf := GarbledRoot();
            && DecodeVarint(buf[20..]) == Ok((103, 1)) && U32At(buf, 60) == 200 && buf[21..60] == [3, 129, 85] + As(36)
            && DecodeVarint(buf[68..]) == Ok((103, 1)) && U32At(buf, 108) == 201 && buf[69..108] == [3, 129, 85] + As(36)
  {
    hide As, Zeros;
    var buf := GarbledRoot();
    assert buf[60] == 0 && buf[61] == 0 && buf[62] == 0 && buf[63] == 200;
    assert buf[108] == 0 && buf[109] == 0 && buf[110] == 0 && buf[111] == 201;
    assert buf[20..][0] == 103 && buf[68..][0] == 103;
  }

  lemma GarbledCell(w: PageMap, i: nat)
    requires i < 2
    ensures OverflowOf(GarbledRoot(), 0, IndexInterior, i, 512) == Ok(Some(Overflow(200 + i, 1, 103)))
    ensures KeyAt(w, GarbledRoot(), 20 + 48 * i, 512) == After([3, 129, 85] + As(36), ReadOn(w, 200 + i, 64, 508, {}))
  {
    hide GarbledRoot, DecodeVarint, U32At, CellStart, OverflowOf, KeyAt, ReadOn;
    GarbledHead();
    GarbledBytes();
    assert Pieces(64, 508) == 1;
    KeyCell(w, GarbledRoot(), i, 16 + 48 * i, 103, 1);
  }

  lemma GarbledNode()
    ensures IsNode(GarbledRoot(), 512, GARBLED_TREE)
  {
    hide GarbledRoot, KindOf, CellCount, RightmostOf, ChildOf, OverflowOf;
    GarbledHead();
    GarbledCell(map[], 0);
    GarbledCell(map[], 1);
  }

  lemma GarbledFree()
    ensures FreeInv(GarbledDb(), 512, [])
  {
    hide GarbledRoot, FirstPage, EmptyLeaf, Overflowing, As, U32At;
    var w := GarbledDb();
    FirstPageFields(201);
    InGarbledDb(1);
    forall p: u32 ensures p in w.Keys <==> p in Pages(201) {}
    assert w.Keys == Pages(201);
  }

  lemma GarbledChain(p: u32)
    requires p == 200 || p == 201
    ensures IsChain(GarbledDb(), [p])
  {
    hide GarbledRoot, FirstPage, EmptyLeaf, Overflowing, As, U32At, GarbledDb;
    InGarbledDb(p);
    OverflowFields(0, As(64));
    assert Links(GarbledDb(), p, 0);
  }

  lemma GarbledIsTree()
    ensures IsTree(GarbledDb(), 512, GARBLED_TREE)
  {
    hide GarbledRoot, FirstPage, EmptyLeaf, Overflowing, GarbledDb, IsNode, IsChain, IsTree;
    var w, t := GarbledDb(), GARBLED_TREE;
    GarbledNode();
    GarbledChain(200);
    GarbledChain(201);
    InGarbledDb(2);
    InGarbledDb(3);
    InGarbledDb(4);
    InGarbledDb(5);
    LeafIsTree(w, 3);
    LeafIsTree(w, 4);
    LeafIsTree(w, 5);
    ThreeTrees(w, Leaf(3), Leaf(4), Leaf(5));
    TreeOf(w, t);
  }

  lemma ThreeTrees(w: PageMap, a: Tree, b: Tree, c: Tree)
    requires IsTree(w, 512, a) && IsTree(w, 512, b) && IsTree(w, 512, c)
    ensures AreTrees(w, 512, [a, b, c])
  {
    hide IsTree;
    assert AreTrees(w, 512, []);
    OneTree(w, c, []);
    OneTree(w, b, [c]);
    OneTree(w, a, [b, c]);
    assert [c] + [] == [c] && [b] + [c] == [b, c] && [a] + [b, c] == [a, b, c];
  }

  lemma OneTree(w: PageMap, t: Tree, ts: seq<Tree>)
    requires IsTree(w, 512, t) && AreTrees(w, 512, ts)
    ensures AreTrees(w, 512, [t] + ts)
  {
    hide IsTree;
    assert ([t] + ts)[0] == t && ([t] + ts)[1..] == ts;
  }

  lemma TreeOf(w: PageMap, t: Tree)
    requires t.page in w && IsNode(w[t.page], 512, t) && AreTrees(w, 512, t.kids)
    requires forall i :: 0 <= i < |t.chains| ==> IsChain(w, t.chains[i])
    ensures IsTree(w, 512, t)
  {
    hide IsNode, AreTrees, IsChain;
  }

  lemma GarbledPages()
    ensures PagesOf(GARBLED_TREE) == [200, 201, 3, 4, 5, 2] && Concat(GARBLED_TREE.chains) == [200, 201]
  {
    TwoChains();
    ThreeLeaves();
    ItsPages(GARBLED_TREE);
  }

  lemma TwoChains()
    ensures Concat([[200], [201]]) == [200, 201]
  {
    assert [[200], [201]][1..] == [[201]] && [[201]][1..] == [];
    assert Concat([[201]]) == [201] + Concat([]);
  }

  lemma ThreeLeaves()
    ensures PagesOfAll([Leaf(3), Leaf(4), Leaf(5)]) == [3, 4, 5]
  {
    hide PagesOf;
    LeafPages(3);
    LeafPages(4);
    LeafPages(5);
    assert PagesOfAll([]) == [];
    PagesCons(Leaf(5), []);
    PagesCons(Leaf(4), [Leaf(5)]);
    PagesCons(Leaf(3), [Leaf(4), Leaf(5)]);
    assert [Leaf(5)] + [] == [Leaf(5)] && [Leaf(4)] + [Leaf(5)] == [Leaf(4), Leaf(5)];
    assert [Leaf(3)] + [Leaf(4), Leaf(5)] == [Leaf(3), Leaf(4), Leaf(5)];
  }

  lemma PagesCons(t: Tree, ts: seq<Tree>)
    ensures PagesOfAll([t] + ts) == PagesOf(t) + PagesOfAll(ts)
  {
    hide PagesOf;
    assert ([t] + ts)[0] == t && ([t] + ts)[1..] == ts;
  }

  lemma ItsPages(t: Tree)
    ensures PagesOf(t) == Concat(t.chains) + PagesOfAll(t.kids) + [t.page]
  {
    hide PagesOfAll, Concat;
  }

  lemma GarbledReady()
    ensures TreeReady(GarbledDb(), 512, 512, [], GARBLED_TREE)
  {
    hide GarbledDb, IsTree, FreeInv, PagesOf;
    GarbledFree();
    GarbledIsTree();
    GarbledPages();
    InGarbledDb(2);
    InGarbledDb(3);
    InGarbledDb(4);
    InGarbledDb(5);
    InGarbledDb(200);
    InGarbledDb(201);
    assert FreeSet([]) == {};
  }

  lemma GarbledKey(i: nat)
    requires i < 2
    ensures ReadsKey(GarbledDb(), GarbledRoot(), 0, i, 512, Utf8)
  {
    hide GarbledRoot, As, GarbledDb, Decodes, KeyAt, CellStart, U32At, Overflowing, FirstPage, EmptyLeaf;
    GarbledHead();
    GarbledCell(GarbledDb(), i);
    InGarbledDb(200 + i);
    OverflowFields(0, As(64));
    assert ReadOn(GarbledDb(), 200 + i, 64, 508, {}) == Ok(As(64) + []);
    ShortText([3, 129, 85] + As(36) + (As(64) + []));
  }

  lemma ShortText(payload: seq<byte>)
    requires |payload| == 103 && payload[0] == 3 && payload[1] == 129 && payload[2] == 85
    ensures Decodes(payload, Utf8) <==> ValidUtf8(payload[3..])
    ensures (forall i :: 3 <= i < |payload| ==> payload[i] == 97) ==> Decodes(payload, Utf8)
  {
    assert payload[1..][0] == 129 && payload[1..][1] == 85;
    assert VarintFrom(payload[1..], 1, 1) == Ok((213, 2));
    OneText(payload, 213);
    if forall i :: 3 <= i < |payload| ==> payload[i] == 97 { AsciiValid(payload[3..]); }
  }

  /** Both keys can be read before anything is freed. */
  lemma GarbledKeyed()
    ensures Keyed(GarbledDb(), 512, Utf8, GARBLED_TREE)
  {
    hide GarbledRoot, GarbledDb, ReadsKey;
    InGarbledDb(2);
    GarbledKey(0);
    GarbledKey(1);
    NoKeys(GarbledDb(), 3);
    NoKeys(GarbledDb(), 4);
    NoKeys(GarbledDb(), 5);
    var ks := GARBLED_TREE.kids;
    assert ks[1..] == [Leaf(4), Leaf(5)] && ks[1..][1..] == [Leaf(5)] && ks[1..][1..][1..] == [];
    assert KeyedAll(GarbledDb(), 512, Utf8, [Leaf(5)]);
    assert KeyedAll(GarbledDb(), 512, Utf8, [Leaf(4), Leaf(5)]);
  }

  // What freeing the two chains leaves on page 200.

  lemma TrunkOn200(w: PageMap)
    requires FreeInv(w, 512, []) && 200 in w && 201 in w
    ensures Shaped(w, 512) && DeallocAll(w, 512, [200, 201]).Ok? && 200 in DeallocAll(w, 512, [200, 201]).value
    ensures DeallocAll(w, 512, [200, 201]).value[200] == TrunkBytes(Trunk(0, [201]), 512)
  {
    hide U32At, Put, TrunkBytes, WithFree, FreeSet, Size, Deallocate, ParseTrunk, Follows;
    EmptyList(w);
    StepKeeps(w, 512, [], 200);
    var w1, ts1 := AfterPush(w, 512, [], 200), Pushed([], 512, 200);
    assert ts1 == [(200, [])] && w1[200] == TrunkBytes(Trunk(0, []), 512);
    TrunkRoundTrip(Trunk(0, []), 512);
    NotListed();
    StepKeeps(w1, 512, ts1, 201);
    assert ts1[0].1 + [201] == [201] && HasRoom(ts1, 512) && ParseTrunk(w1[200]).value.next == 0;
    assert AfterPush(w1, 512, ts1, 201)[200] == TrunkBytes(Trunk(0, [201]), 512);
    TwoSteps(w, w1, AfterPush(w1, 512, ts1, 201));
  }

  lemma EmptyList(w: PageMap)
    requires FreeInv(w, 512, [])
    ensures HeadIn(w[1]) == 0 && FreeSet([]) == {}
  {
  }

  lemma NotListed()
    ensures 201 !in FreeSet([(200, [])])
  {
    var ts: Chain := [(200, [])];
    assert ts[1..] == [];
  }

  lemma TwoSteps(w: PageMap, w1: PageMap, w2: PageMap)
    requires Shaped(w, 512) && Deallocate(w, 512, 200) == Ok(w1) && Shaped(w1, 512) && Deallocate(w1, 512, 201) == Ok(w2)
    ensures DeallocAll(w, 512, [200, 201]) == Ok(w2)
  {
    hide Deallocate;
    assert [200, 201][1..] == [201] && [201][1..] == [];
    DeallocateShaped(w1, 512, 201);
    assert DeallocAll(w2, 512, []) == Ok(w2);
    assert DeallocAll(w1, 512, [201]) == Ok(w2);
  }

  lemma TrunkPageBytes()
    ensures var b := TrunkBytes(Trunk(0, [201]), 512);
            |b| == 512 && b[4..68] == [0, 0, 0, 1, 0, 0, 0, 201] + Zeros(56)
  {
    assert [201][..0] == [];
    assert LeafBytes([201]) == BE32(201);
    assert BE32(1) == [0, 0, 0, 1] && BE32(201) == [0, 0, 0, 201];
    var b := TrunkBytes(Trunk(0, [201]), 512);
    assert b == BE32(0) + [0, 0, 0, 1] + [0, 0, 0, 201] + Zeros(500);
  }

  /** The first key then ends in bytes that are not UTF-8. */
  lemma NotText()
    ensures !Decodes([3, 129, 85] + As(36) + ([0, 0, 0, 1, 0, 0, 0, 201] + Zeros(56) + []), Utf8)
  {
    hide ValidUtf8, Decodes;
    var tail := [201] + Zeros(56);
    var payload := [3, 129, 85] + As(36) + ([0, 0, 0, 1, 0, 0, 0, 201] + Zeros(56) + []);
    ShortText(payload);
    var ascii := As(36) + [0, 0, 0, 1, 0, 0, 0];
    assert payload[3..] == ascii + tail;
    AfterAscii(ascii, tail);
    Unfinished(tail);
  }

  lemma Unfinished(b: seq<byte>)
    requires |b| >= 2 && b[0] == 201 && b[1] == 0
    ensures !ValidUtf8(b)
  {
  }

  lemma GarbledFails()
    ensures !Passes(GarbledDb(), 512, 512, Utf8, GARBLED_TREE)
  {
    hide GarbledRoot, As, GarbledDb, Decodes, KeyAt, CellStart, U32At, TrunkBytes, FreeInv, Shaped, DeallocAll, PassAll, Concat;
    var w := GarbledDb();
    GarbledFree();
    GarbledPages();
    InGarbledDb(2);
    InGarbledDb(200);
    InGarbledDb(201);
    TrunkOn200(w);
    TrunkPageBytes();
    var w1 := DeallocAll(w, 512, [200, 201]).value;
    assert Freed(w, 512, [200, 201]) == w1;
    GarbledHead();
    GarbledCell(w1, 0);
    GarbledRead(w1);
    NotText();
    assert !ReadsKey(w1, GarbledRoot(), 0, 0, 512, Utf8);
  }

  lemma GarbledRead(w: PageMap)
    requires 200 in w && |w[200]| == 512 && w[200][4..68] == [0, 0, 0, 1, 0, 0, 0, 201] + Zeros(56)
    ensures ReadOn(w, 200, 64, 508, {}) == Ok([0, 0, 0, 1, 0, 0, 0, 201] + Zeros(56) + [])
  {
    hide U32At;
    assert ReadOn(w, U32At(w[200], 0), 0, 508, {} + {200}) == Ok([]);
  }

  /** Dropping this index fails as well: page 200 becomes a trunk listing page 201, and its
      number is not UTF-8. */
  method GarbledIndexFails() returns (r: Result<PageMap, TreeError>, v: nat)
    ensures TreeReady(GarbledDb(), 512, 512, [], GARBLED_TREE) && Keyed(GarbledDb(), 512, Utf8, GARBLED_TREE)
    ensures AllRereadable([], 512, GARBLED_TREE.chains) && !Passes(GarbledDb(), 512, 512, Utf8, GARBLED_TREE) && r.Err?
  {
    hide GarbledDb, Keyed, Passes, AllRereadable;
    GarbledReady();
    GarbledKeyed();
    GarbledFails();
    SinglePages();
    GarbledShaped();
    r, v := FreeBtreePages(GarbledDb(), 512, 512, Utf8, 2, 0, [], GARBLED_TREE);
  }

  /** Chains of one page can always be followed to their length. */
  lemma SinglePages()
    ensures AllRereadable([], 512, GARBLED_TREE.chains)
  {
    hide Concat, PushAll;
    ChainMember(GARBLED_TREE.chains, 0);
    ChainMember(GARBLED_TREE.chains, 1);
  }

  lemma GarbledShaped()
    requires TreeReady(GarbledDb(), 512, 512, [], GARBLED_TREE)
    ensures Shaped(GarbledDb(), 512)
  {
    hide GarbledDb;
  }
}
