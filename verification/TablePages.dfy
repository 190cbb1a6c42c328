/** A table b-tree as its pages spell it: the rows and keys found in the bytes, and the row
    count taken from cell counts alone. */
module TablePages {
  import opened Bytes
  import opened Cells
  import opened Allocator
  import opened Freelist
  import opened TreePages
  import opened FreeTree
  import opened FreeTreeWalk
  import Table = TableTree

  /** The rowid of cell `i` of a table leaf. */
  function RowId(buf: Page, hs: nat, i: nat): int
  {
    match CellStart(buf, hs, TableLeaf, i)
    case Err(_) => 0
    case Ok(start) =>
      if start > |buf| then 0
      else match CellHead(buf[start..], true)
        case Err(_) => 0
        case Ok(head) => Signed(head.1)
  }

  /** The key of cell `i` of an interior table page, after its child pointer. */
  function KeyOf(buf: Page, hs: nat, i: nat): int
  {
    match CellStart(buf, hs, TableInterior, i)
    case Err(_) => 0
    case Ok(start) =>
      if start + 4 > |buf| then 0
      else match DecodeVarint(buf[start + 4..])
        case Err(_) => 0
        case Ok(v) => Signed(v.0)
  }

  function KeysOn(buf: Page, hs: nat, n: nat): (keys: seq<int>)
    ensures |keys| == n
  {
    seq(n, i requires 0 <= i < n => KeyOf(buf, hs, i))
  }

  function Rows(buf: Page, hs: nat): nat { match CellCount(buf, hs) case Err(_) => 0 case Ok(n) => n }

  predicate IsTableTree(t: Tree)
    decreases t, 0
  {
    (t.kind == TableLeaf || (t.kind == TableInterior && t.kids != [])) && AreTableTrees(t.kids)
  }

  predicate AreTableTrees(ts: seq<Tree>)
    decreases ts, 1
  {
    ts == [] || (IsTableTree(ts[0]) && AreTableTrees(ts[1..]))
  }

  /** The table the pages of `t` hold. */
  function TableOf(w: PageMap, t: Tree): Table.Tree
    decreases t, 0
  {
    var buf, hs := if t.page in w then w[t.page] else [], HeaderStart(t.page);
    if t.kind == TableInterior && t.kids != [] then
      Table.Node(TablesOf(w, t.kids), KeysOn(buf, hs, |t.kids| - 1))
    else Table.Leaf(seq(Rows(buf, hs), i requires 0 <= i < Rows(buf, hs) => RowId(buf, hs, i)))
  }

  function TablesOf(w: PageMap, ts: seq<Tree>): (r: seq<Table.Tree>)
    ensures |r| == |ts|
    decreases ts, 1
  {
    if ts == [] then [] else [TableOf(w, ts[0])] + TablesOf(w, ts[1..])
  }

  lemma {:induction false} TableShaped(w: PageMap, t: Tree)
    ensures Table.Shaped(TableOf(w, t))
    decreases t, 0
  {
    hide RowId, KeyOf, Rows;
    TablesShaped(w, t.kids);
  }

  lemma {:induction false} TablesShaped(w: PageMap, ts: seq<Tree>)
    ensures forall i :: 0 <= i < |ts| ==> Table.Shaped(TablesOf(w, ts)[i])
    decreases ts, 1
  {
    hide Table.Shaped, TableOf;
    if ts != [] {
      TableShaped(w, ts[0]);
      TablesShaped(w, ts[1..]);
    }
  }

  lemma {:induction false} TableAt(w: PageMap, ts: seq<Tree>, i: nat)
    requires i < |ts|
    ensures TablesOf(w, ts)[i] == TableOf(w, ts[i])
  {
    hide TableOf;
    if i > 0 { TableAt(w, ts[1..], i - 1); }
  }

  lemma {:induction false} TreeAt(w: PageMap, usable: nat, ts: seq<Tree>, i: nat)
    requires AreTrees(w, usable, ts) && AreTableTrees(ts) && i < |ts|
    ensures IsTree(w, usable, ts[i]) && IsTableTree(ts[i])
  {
    hide IsTree, IsTableTree;
    if i > 0 { TreeAt(w, usable, ts[1..], i - 1); }
  }

  /** The table is read off its own pages: writes elsewhere leave its rows alone. */
  lemma {:induction false} TableKept(w: PageMap, w': PageMap, usable: nat, t: Tree)
    requires IsTree(w, usable, t) && SameOn(w, w', PagesOf(t))
    ensures TableOf(w', t) == TableOf(w, t)
    decreases t, 0
  {
    hide IsNode, IsChain, Concat, SameOn, RowId, KeyOf, Rows;
    SameOnParts(w, w', Concat(t.chains) + PagesOfAll(t.kids), [t.page]);
    SameOnParts(w, w', Concat(t.chains), PagesOfAll(t.kids));
    LastSame(w, w', t.page);
    TablesKept(w, w', usable, t.kids);
  }

  lemma {:induction false} TablesKept(w: PageMap, w': PageMap, usable: nat, ts: seq<Tree>)
    requires AreTrees(w, usable, ts) && SameOn(w, w', PagesOfAll(ts))
    ensures TablesOf(w', ts) == TablesOf(w, ts)
    decreases ts, 1
  {
    hide SameOn, IsTree, TableOf;
    if ts != [] {
      SameOnParts(w, w', PagesOf(ts[0]), PagesOfAll(ts[1..]));
      TableKept(w, w', usable, ts[0]);
      TablesKept(w, w', usable, ts[1..]);
    }
  }

  /** Freeing pages leaves the rows of every table that shares no page with them alone. */
  lemma FreeingKeepsTables(w: PageMap, pageSize: nat, usable: nat, ts: Chain, ps: seq<u32>, t: Tree)
    requires FreeInv(w, pageSize, ts) && Freeable(w, ts, ps) && IsTree(w, usable, t)
    requires forall q :: q in PagesOf(t) ==> Bystander(w, ts, ps, q)
    ensures Shaped(w, pageSize) && DeallocAll(w, pageSize, ps).Ok?
    ensures var w' := DeallocAll(w, pageSize, ps).value; IsTree(w', usable, t) && TableOf(w', t) == TableOf(w, t)
  {
    hide IsTree, TableOf, DeallocAll, Freeable, PagesOf, Shaped, Follows, FreeSet;
    DeallocAllKeeps(w, pageSize, ts, ps);
    var w' := DeallocAll(w, pageSize, ps).value;
    assert SameOn(w, w', PagesOf(t));
    TreeKept(w, w', usable, t);
    TableKept(w, w', usable, t);
  }

  // ------------------------------------------------------------- reading interior pages

  /** The child pointers and keys of an interior page, the rightmost pointer last. */
  method CollectEntries(buf: Page, hs: nat, n: nat, usable: nat, ghost t: Tree) returns (r: Result<(seq<u32>, seq<int>), TreeError>)
    ensures NodeOn(buf, hs, TableInterior, n, usable, t) ==> r.Ok?
    ensures r.Ok? ==> |r.value.0| == n + 1 && r.value.1 == KeysOn(buf, hs, n)
    ensures NodeOn(buf, hs, TableInterior, n, usable, t) && r.Ok? ==> Roots(r.value.0, t.kids)
  {
    hide ChildOf, RightmostOf, CellChain, KindOf, CellCount, KeyOf;
    ghost var node := NodeOn(buf, hs, TableInterior, n, usable, t);
    var out, keys := [], [];
    for i := 0 to n
      invariant |out| == i && keys == KeysOn(buf, hs, i)
      invariant node ==> forall j :: 0 <= j < i ==> out[j] == t.kids[j].page
    {
      var child := ChildOf(buf, hs, TableInterior, i);
      if child.Err? {
        return Err(child.error);
      }
      out, keys := out + [child.value], keys + [KeyOf(buf, hs, i)];
    }
    var right := RightmostOf(buf, hs);
    if right.Err? {
      return Err(right.error);
    }
    return Ok((out + [right.value], keys));
  }

  // ------------------------------------------------------------------------- descending

  /** The leaf page a rowid leads to, and the pages above it. */
  ghost function LeafOf(w: PageMap, t: Tree, r: int): Tree
    decreases t
  {
    if TableOf(w, t).Leaf? then t
    else LeafOf(w, t.kids[Table.ChildFor(TableOf(w, t).keys, r)], r)
  }

  ghost function PathTo(w: PageMap, t: Tree, r: int): seq<u32>
    decreases t
  {
    if TableOf(w, t).Leaf? then [] else [t.page] + PathTo(w, t.kids[Table.ChildFor(TableOf(w, t).keys, r)], r)
  }

  /** They are the leaf and the path of the table the pages hold. */
  lemma {:induction false} LeafOnPages(w: PageMap, t: Tree, r: int)
    ensures Table.Shaped(TableOf(w, t))
    ensures TableOf(w, LeafOf(w, t, r)) == Table.LeafFor(TableOf(w, t), r)
    ensures |PathTo(w, t, r)| == |Table.PathFor(TableOf(w, t), r)|
    decreases t
  {
    hide Table.ChildFor, Table.Shaped, Table.LeafFor, Table.PathFor, RowId, KeyOf, KeysOn, Rows, TablesOf;
    TableShaped(w, t);
    Table.PathStep(TableOf(w, t), r);
    if TableOf(w, t).Node? {
      var n := Table.ChildFor(TableOf(w, t).keys, r);
      TableAt(w, t.kids, n);
      LeafOnPages(w, t.kids[n], r);
    }
  }

  /** In an ordered table, a rowid is among the rows if and only if a cell of that one
      leaf page holds it. */
  lemma OnItsPage(w: PageMap, usable: nat, t: Tree, r: int)
    requires IsTree(w, usable, t) && IsTableTree(t) && Table.Ordered(TableOf(w, t))
    ensures var leaf := LeafOf(w, t, r);
            && leaf.page in w && CellCount(w[leaf.page], HeaderStart(leaf.page)).Ok?
            && (r in Table.Scan(TableOf(w, t)) <==>
                  exists i :: 0 <= i < CellCount(w[leaf.page], HeaderStart(leaf.page)).value
                           && RowId(w[leaf.page], HeaderStart(leaf.page), i) == r)
  {
    hide IsTree, RowId, Table.Ordered, Table.Scan, CellCount, LeafOf, Table.LeafFor, KindOf;
    LeafOnPages(w, t, r);
    Table.OnItsLeaf(TableOf(w, t), r);
    LeafIsTree(w, usable, t, r);
    var leaf := LeafOf(w, t, r);
    ItsPage(w, usable, leaf);
    var rows, n := TableOf(w, leaf).rows, CellCount(w[leaf.page], HeaderStart(leaf.page)).value;
    assert |rows| == n && forall i :: 0 <= i < n ==> rows[i] == RowId(w[leaf.page], HeaderStart(leaf.page), i);
    assert r in rows <==> exists i :: 0 <= i < n && rows[i] == r;
  }

  lemma {:induction false} LeafIsTree(w: PageMap, usable: nat, t: Tree, r: int)
    requires IsTree(w, usable, t) && IsTableTree(t)
    ensures IsTree(w, usable, LeafOf(w, t, r)) && IsTableTree(LeafOf(w, t, r)) && TableOf(w, LeafOf(w, t, r)).Leaf?
    decreases t
  {
    hide IsTree, IsTableTree, TableOf, Table.ChildFor;
    if TableOf(w, t).Node? {
      KindFits(w, t);
      NodeParts(w, usable, t);
      var n := Table.ChildFor(TableOf(w, t).keys, r);
      TreeAt(w, usable, t.kids, n);
      LeafIsTree(w, usable, t.kids[n], r);
    }
  }

  lemma KindFits(w: PageMap, t: Tree)
    requires IsTableTree(t)
    ensures TableOf(w, t).Node? <==> t.kind == TableInterior
    ensures t.kind == TableInterior || t.kind == TableLeaf
    ensures t.kind == TableInterior && t.page in w ==> TableOf(w, t).keys == KeysOn(w[t.page], HeaderStart(t.page), |t.kids| - 1)
  {
    hide KeysOn, RowId, Rows, TablesOf;
  }

  /** The descent of the write paths: on every interior page the first child whose key is
      not less than the rowid. Succeeds if and only if the path is within the limit, and
      then returns the page numbers above the leaf and the leaf's own. */
  method FindLeafPage(w: PageMap, usable: nat, root: u32, rowid: int, ghost t: Tree) returns (r: Result<(seq<u32>, u32), TreeError>)
    ensures IsTree(w, usable, t) && IsTableTree(t) && t.page == root ==>
              && (r.Ok? <==> |PathTo(w, t, rowid)| < MAX_PAGES_VISITED)
              && (r.Ok? ==> r.value == (PathTo(w, t, rowid), LeafOf(w, t, rowid).page))
  {
    hide IsTree, IsTableTree, KindOf, CellCount, TableOf, LeafOf, PathTo, NodeOn, KeysOn, Table.ChildFor;
    ghost var good := IsTree(w, usable, t) && IsTableTree(t) && t.page == root;
    ghost var u := t;
    var page, visited, ancestors := root, 0, [];
    while true
      invariant visited == |ancestors| <= MAX_PAGES_VISITED
      invariant good ==> IsTree(w, usable, u) && IsTableTree(u) && u.page == page
      invariant good ==> LeafOf(w, u, rowid) == LeafOf(w, t, rowid) && ancestors + PathTo(w, u, rowid) == PathTo(w, t, rowid)
      decreases MAX_PAGES_VISITED - visited
    {
      visited := visited + 1;
      if visited > MAX_PAGES_VISITED {
        return Err(TraversalTooLong);
      }
      if good {
        ItsPage(w, usable, u);
        StepDown(w, usable, u, rowid);
      }
      if page !in w {
        return Err(Unreadable(page));
      }
      var buf, hs := w[page], HeaderStart(page);
      var kind, count := KindOf(buf, hs), CellCount(buf, hs);
      if kind.Err? {
        return Err(kind.error);
      }
      if kind.value == TableLeaf {
        assert ancestors + [] == ancestors;
        return Ok((ancestors, page));
      }
      if kind.value != TableInterior {
        return Err(UnexpectedPageType);
      }
      if count.Err? {
        return Err(count.error);
      }
      var entries := CollectEntries(buf, hs, count.value, usable, u);
      if entries.Err? {
        return Err(entries.error);
      }
      var next := Table.LinearChild(entries.value.1, rowid);
      if good { u := u.kids[next]; }
      ancestors, page := ancestors + [page], entries.value.0[next];
    }
  }

  /** One step of the descent. */
  lemma StepDown(w: PageMap, usable: nat, t: Tree, r: int)
    requires IsTree(w, usable, t) && IsTableTree(t) && t.page in w && CellCount(w[t.page], HeaderStart(t.page)).Ok?
    ensures t.kind == TableLeaf ==> PathTo(w, t, r) == [] && LeafOf(w, t, r) == t
    ensures t.kind == TableInterior ==>
              var n := Table.ChildFor(KeysOn(w[t.page], HeaderStart(t.page), CellCount(w[t.page], HeaderStart(t.page)).value), r);
              && n < |t.kids| && IsTree(w, usable, t.kids[n]) && IsTableTree(t.kids[n])
              && LeafOf(w, t, r) == LeafOf(w, t.kids[n], r) && PathTo(w, t, r) == [t.page] + PathTo(w, t.kids[n], r)
  {
    hide IsTree, IsTableTree, TableOf, Table.ChildFor, KeysOn, CellCount, KindOf;
    KindFits(w, t);
    ItsPage(w, usable, t);
    if t.kind == TableInterior {
      NodeParts(w, usable, t);
      TreeAt(w, usable, t.kids, Table.ChildFor(TableOf(w, t).keys, r));
    }
  }

  // --------------------------------------------------------------------------- counting

  /** Counts the rows of the tree rooted at `page` from the cell counts of its leaves: the
      length of a scan over the rows the pages hold, if and only if the tree is within the
      traversal limit. */
  method CountTableRows(w: PageMap, usable: nat, page: u32, visited: nat, total: nat, ghost t: Tree)
    returns (r: Result<nat, TreeError>, v: nat)
    requires visited <= MAX_PAGES_VISITED
    ensures r.Ok? ==> visited < v <= MAX_PAGES_VISITED
    ensures IsTree(w, usable, t) && IsTableTree(t) && t.page == page ==>
              && Table.Shaped(TableOf(w, t))
              && (r.Ok? <==> visited + Table.PageCount(TableOf(w, t)) <= MAX_PAGES_VISITED)
              && (r.Ok? ==> r.value == total + |Table.Scan(TableOf(w, t))| && v == visited + Table.PageCount(TableOf(w, t)))
    decreases MAX_PAGES_VISITED - visited, 1
  {
    hide IsTree, KindOf, CellCount, TableOf, Table.Shaped, Table.Scan, Table.PageCount, NodeOn, KeysOn;
    ghost var good := IsTree(w, usable, t) && IsTableTree(t) && t.page == page;
    if good {
      TableShaped(w, t);
      ItsPage(w, usable, t);
      AtLeastOne(TableOf(w, t));
    }
    v := visited + 1;
    if v > MAX_PAGES_VISITED {
      return Err(TraversalTooLong), v;
    }
    if page !in w {
      return Err(Unreadable(page)), v;
    }
    var buf, hs := w[page], HeaderStart(page);
    var kind := KindOf(buf, hs);
    if kind.Err? {
      return Err(kind.error), v;
    }
    if kind.value != TableLeaf && kind.value != TableInterior {
      return Err(UnexpectedPageType), v;
    }
    var count := CellCount(buf, hs);
    if count.Err? {
      return Err(count.error), v;
    }
    if kind.value == TableLeaf {
      if good { LeafRows(w, t); }
      return Ok(total + count.value), v;
    }
    var entries := CollectEntries(buf, hs, count.value, usable, t);
    if entries.Err? {
      return Err(entries.error), v;
    }
    r, v := CountKids(w, usable, entries.value.0, v, total, t);
  }

  /** The children of an interior page, one after another. */
  method CountKids(w: PageMap, usable: nat, children: seq<u32>, visited: nat, total: nat, ghost t: Tree)
    returns (r: Result<nat, TreeError>, v: nat)
    requires visited <= MAX_PAGES_VISITED
    ensures r.Ok? ==> visited <= v <= MAX_PAGES_VISITED
    ensures IsTree(w, usable, t) && IsTableTree(t) && t.kind == TableInterior && Roots(children, t.kids) ==>
              && Table.Shaped(TableOf(w, t))
              && (r.Ok? <==> visited + Table.PagesFrom(TableOf(w, t), 0) <= MAX_PAGES_VISITED)
              && (r.Ok? ==> r.value == total + |Table.Scan(TableOf(w, t))| && v == visited + Table.PagesFrom(TableOf(w, t), 0))
    decreases MAX_PAGES_VISITED - visited, 2
  {
    hide IsTree, IsTableTree, TableOf, TablesOf, Table.Shaped, Table.From, Table.PagesFrom;
    ghost var good := IsTree(w, usable, t) && IsTableTree(t) && t.kind == TableInterior && Roots(children, t.kids);
    ghost var table := TableOf(w, t);
    TableShaped(w, t);
    if good { NodeParts(w, usable, t); }
    v := visited;
    var sum: nat := total;
    for i := 0 to |children|
      invariant visited <= v <= MAX_PAGES_VISITED
      invariant good ==> v + Table.PagesFrom(table, i) == visited + Table.PagesFrom(table, 0)
      invariant good ==> sum + |Table.From(table, i)| == total + |Table.Scan(table)|
    {
      if good {
        TreeAt(w, usable, t.kids, i);
        TableAt(w, t.kids, i);
        OneKid(table, i);
      }
      var sub;
      sub, v := CountTableRows(w, usable, children[i], v, sum, if good then t.kids[i] else t);
      if sub.Err? {
        return Err(sub.error), v;
      }
      sum := sub.value;
    }
    if good {
      Table.FromEnd(table);
      Table.NoPagesPast(table);
    }
    return Ok(sum), v;
  }

  lemma ItsPage(w: PageMap, usable: nat, t: Tree)
    requires IsTree(w, usable, t) && IsTableTree(t)
    ensures t.page in w && KindOf(w[t.page], HeaderStart(t.page)) == Ok(t.kind) && CellCount(w[t.page], HeaderStart(t.page)).Ok?
    ensures t.kind == TableInterior ==>
              NodeOn(w[t.page], HeaderStart(t.page), TableInterior, CellCount(w[t.page], HeaderStart(t.page)).value, usable, t)
    ensures t.kind == TableInterior ==> Table.Shaped(TableOf(w, t)) && Table.PageCount(TableOf(w, t)) == 1 + Table.PagesFrom(TableOf(w, t), 0)
    ensures t.kind == TableInterior || t.kind == TableLeaf
  {
    hide CellChain, ChildOf, RightmostOf, KindOf, CellCount, AreTrees, AreTableTrees, TableOf, Table.Shaped, Table.PagesFrom;
    TableShaped(w, t);
  }

  lemma AtLeastOne(t: Table.Tree)
    requires Table.Shaped(t)
    ensures Table.PageCount(t) >= 1
  {
  }

  lemma LeafRows(w: PageMap, t: Tree)
    requires t.kind == TableLeaf && t.page in w && CellCount(w[t.page], HeaderStart(t.page)).Ok?
    ensures Table.Shaped(TableOf(w, t)) && |Table.Scan(TableOf(w, t))| == CellCount(w[t.page], HeaderStart(t.page)).value
    ensures Table.PageCount(TableOf(w, t)) == 1
  {
    hide RowId, CellCount;
    Table.LeafFrom(TableOf(w, t), 0);
    Table.LeafPages(TableOf(w, t), 0);
  }

  lemma NodeParts(w: PageMap, usable: nat, t: Tree)
    requires IsTree(w, usable, t) && IsTableTree(t) && t.kind == TableInterior
    ensures TableOf(w, t).Node? && TableOf(w, t).kids == TablesOf(w, t.kids) && AreTrees(w, usable, t.kids) && AreTableTrees(t.kids)
    ensures Table.Steps(TableOf(w, t)) == |t.kids| == |TableOf(w, t).keys| + 1
  {
    hide IsNode, KeyOf, AreTrees, AreTableTrees, TablesOf;
  }

  lemma OneKid(t: Table.Tree, i: nat)
    requires Table.Shaped(t) && t.Node? && i < |t.kids|
    ensures Table.Shaped(t.kids[i]) && Table.PagesFrom(t, i) == Table.PageCount(t.kids[i]) + Table.PagesFrom(t, i + 1)
    ensures Table.From(t, i) == Table.Scan(t.kids[i]) + Table.From(t, i + 1)
  {
    Table.FromUnfold(t, i);
    Table.PagesUnfold(t, i);
  }
}
