/** Removing one cell from a leaf page in place: its pointer goes, its bytes go back to
    the gap, a freeblock or the fragment count, and every other cell stays as it was. */
module SpliceDelete {
  import opened Bytes
  import opened Cells
  import opened PageLayout
  import opened SpliceInsert
  import opened Freeblocks
  import PageRebuild

  datatype DeleteError = IndexOutOfBounds | ChainTooLong | BadCell(cell: CellError)

  function DropAt<T>(s: seq<T>, i: nat): (r: seq<T>)
    requires i < |s|
    ensures |r| == |s| - 1
    ensures forall j :: 0 <= j < |r| ==> r[j] == if j < i then s[j] else s[j + 1]
  {
    s[..i] + s[i + 1..]
  }

  // ------------------------------------------------- pointer and cell bytes removed

  /** The pointer entries after `index`, moved down one place. */
  function MovedDown(b: seq<byte>, hs: nat, index: nat, n: nat): (r: seq<byte>)
    requires index < n && PtrAt(hs, n) <= |b|
    ensures |r| == |b|
  {
    Put(b, PtrAt(hs, index), b[PtrAt(hs, index + 1)..PtrAt(hs, n)])
  }

  /** The page once the cell is unlisted and its bytes cleared. */
  function Unlisted(b: seq<byte>, hs: nat, index: nat, n: nat, e: Extent): (r: seq<byte>)
    requires index < n <= 65535 && PtrAt(hs, n) <= e.at && e.End() <= |b|
    ensures |r| == |b|
  {
    Put(Put(MovedDown(b, hs, index, n), hs + 3, BE16(n - 1)), e.at, Zeros(e.len))
  }

  /** Bytes clear of the count, the pointers and the cell are untouched. */
  lemma UnlistedElsewhere(b: seq<byte>, hs: nat, index: nat, n: nat, e: Extent, i: nat, j: nat)
    requires index < n <= 65535 && PtrAt(hs, n) <= e.at && e.End() <= |b| && i <= j <= |b|
    requires j <= hs + 3 || (hs + 5 <= i && j <= PtrAt(hs, 0)) || (PtrAt(hs, n) <= i && (j <= e.at || e.End() <= i))
    ensures Unlisted(b, hs, index, n, e)[i..j] == b[i..j]
  {
    hide Put, BE16, Zeros;
    var b1 := MovedDown(b, hs, index, n);
    PutElsewhere(b, PtrAt(hs, index), b[PtrAt(hs, index + 1)..PtrAt(hs, n)], i, j);
    PutElsewhere(b1, hs + 3, BE16(n - 1), i, j);
    PutElsewhere(Put(b1, hs + 3, BE16(n - 1)), e.at, Zeros(e.len), i, j);
  }

  lemma UnlistedPointers(b: seq<byte>, hs: nat, index: nat, n: nat, e: Extent, i: nat)
    requires index < n <= 65535 && PtrAt(hs, n) <= e.at && e.End() <= |b| && i < n - 1
    ensures U16At(Unlisted(b, hs, index, n, e), PtrAt(hs, i)) == U16At(b, PtrAt(hs, if i < index then i else i + 1))
  {
    hide Put, BE16, Zeros, U16At;
    var b1, r, p := MovedDown(b, hs, index, n), Unlisted(b, hs, index, n, e), PtrAt(hs, i);
    PutElsewhere(b1, hs + 3, BE16(n - 1), p, p + 2);
    PutElsewhere(Put(b1, hs + 3, BE16(n - 1)), e.at, Zeros(e.len), p, p + 2);
    var src := b[PtrAt(hs, index + 1)..PtrAt(hs, n)];
    if i < index {
      PutElsewhere(b, PtrAt(hs, index), src, p, p + 2);
      Field16(r, b, p, p);
    } else {
      var q := PtrAt(hs, i + 1);
      PutHere(b, PtrAt(hs, index), src);
      Within(b1, PtrAt(hs, index), src, p - PtrAt(hs, index), p + 2 - PtrAt(hs, index));
      assert src[p - PtrAt(hs, index)..p + 2 - PtrAt(hs, index)] == b[q..q + 2];
      Field16(r, b, p, q);
    }
  }

  lemma UnlistedCount(b: seq<byte>, hs: nat, index: nat, n: nat, e: Extent)
    requires index < n <= 65535 && PtrAt(hs, n) <= e.at && e.End() <= |b|
    ensures NumCells(Unlisted(b, hs, index, n, e), hs) == n - 1
  {
    hide Put, Zeros, U16At;
    var b1 := MovedDown(b, hs, index, n);
    var b2 := Put(b1, hs + 3, BE16(n - 1));
    PutHere(b1, hs + 3, BE16(n - 1));
    PutElsewhere(b2, e.at, Zeros(e.len), hs + 3, hs + 5);
    ReadBack16(Unlisted(b, hs, index, n, e), hs + 3, n - 1);
  }

  /** The cells left, unmoved and unchanged. */
  lemma UnlistedCells(b: seq<byte>, hs: nat, k: Kind, l: Layout, index: nat)
    requires WellFormed(b, hs, k, l) && index < |l.cells|
    ensures |l.cells| <= 65535 && PtrAt(hs, |l.cells|) <= l.cells[index].at && l.cells[index].End() <= |b|
    ensures var r := Unlisted(b, hs, index, |l.cells|, l.cells[index]);
            && ReadsCells(r, hs, k, DropAt(l.cells, index))
            && (forall i :: 0 <= i < |l.cells| && i != index ==>
                  l.cells[i].End() <= |b| && r[l.cells[i].at..l.cells[i].End()] == b[l.cells[i].at..l.cells[i].End()])
  {
    hide CellLen, U16At, Chain, Total, Unlisted, Slack, NumCells;
    var n, e := |l.cells|, l.cells[index];
    var r, rest := Unlisted(b, hs, index, n, e), DropAt(l.cells, index);
    UnlistedCount(b, hs, index, n, e);
    forall i | 0 <= i < n && i != index ensures r[l.cells[i].at..l.cells[i].End()] == b[l.cells[i].at..l.cells[i].End()] {
      assert Apart(l.cells[i], e);
      UnlistedElsewhere(b, hs, index, n, e, l.cells[i].at, l.cells[i].End());
    }
    forall i | 0 <= i < |rest| ensures PointsTo(r, hs, i, rest[i]) && CellAt(r, k, rest[i]) {
      var j := if i < index then i else i + 1;
      assert rest[i] == l.cells[j] && PointsTo(b, hs, j, l.cells[j]) && CellAt(b, k, l.cells[j]);
      UnlistedPointers(b, hs, index, n, e, i);
      CellKept(b, r, k, l.cells[j]);
    }
  }

  /** The freeblock chain and the other header fields, still as they were. */
  lemma UnlistedRest(b: seq<byte>, hs: nat, k: Kind, l: Layout, index: nat)
    requires WellFormed(b, hs, k, l) && index < |l.cells|
    ensures |l.cells| <= 65535 && PtrAt(hs, |l.cells|) <= l.cells[index].at && l.cells[index].End() <= |b| && hs + 8 <= |b|
    ensures var r := Unlisted(b, hs, index, |l.cells|, l.cells[index]);
            && ContentStart(r, hs) == l.content && r[hs + 7] == b[hs + 7]
            && Chain(r, FirstFreeblock(r, hs), l.blocks)
            && forall i :: 0 <= i <= hs ==> r[i] == b[i]
  {
    hide CellLen, U16At, Chain, Total, Unlisted, Slack, NumCells;
    var n, e := |l.cells|, l.cells[index];
    var r := Unlisted(b, hs, index, n, e);
    UnlistedElsewhere(b, hs, index, n, e, hs + 1, hs + 3);
    UnlistedElsewhere(b, hs, index, n, e, hs + 5, hs + 7);
    UnlistedElsewhere(b, hs, index, n, e, hs + 7, hs + 8);
    UnlistedElsewhere(b, hs, index, n, e, 0, hs + 1);
    Field16(r, b, hs + 1, hs + 1);
    Field16(r, b, hs + 5, hs + 5);
    assert r[hs + 7] == r[hs + 7..hs + 8][0] == b[hs + 7];
    forall i | 0 <= i < |l.blocks| ensures b[l.blocks[i].at..l.blocks[i].at + 4] == r[l.blocks[i].at..l.blocks[i].at + 4] {
      assert Apart(e, l.blocks[i]);
      UnlistedElsewhere(b, hs, index, n, e, l.blocks[i].at, l.blocks[i].at + 4);
    }
    ChainKept(b, r, FirstFreeblock(b, hs), l.blocks);
    forall i | 0 <= i <= hs ensures r[i] == b[i] { assert r[0..hs + 1][i] == b[0..hs + 1][i]; }
  }

  // ---------------------------------------------------------------- the new layout

  /** The first freeblock starts right where the freed cell ends. */
  predicate Touches(l: Layout, e: Extent) { l.blocks != [] && l.blocks[0].at == e.End() }

  function FreedLayout(l: Layout, index: nat): Layout
    requires index < |l.cells|
  {
    var e, cells := l.cells[index], DropAt(l.cells, index);
    if e.at == l.content then
      if Touches(l, e) then Layout(cells, l.blocks[1..], l.blocks[0].End()) else Layout(cells, l.blocks, e.End())
    else if e.len < MIN_FREEBLOCK_SIZE then Layout(cells, l.blocks, l.content)
    else Layout(cells, Added(l.blocks, e), l.content)
  }

  /** Only a small cell in the middle of the content area turns into fragments. */
  predicate Fragments(l: Layout, index: nat)
    requires index < |l.cells|
  {
    l.cells[index].at != l.content && l.cells[index].len < MIN_FREEBLOCK_SIZE
  }

  lemma CellsAfter(l: Layout, hs: nat, size: nat, index: nat)
    requires Tiled(l, hs, size) && index < |l.cells|
    ensures var e, rest := l.cells[index], DropAt(l.cells, index);
            && Packed(rest, l.content, size) && Clear(rest, l.blocks) && (forall i :: 0 <= i < |rest| ==> Apart(rest[i], e))
            && (forall i :: 0 <= i < |l.blocks| ==> Apart(e, l.blocks[i]))
            && Total(rest) == Total(l.cells) - e.len
  {
    hide Total;
    TotalRemove(l.cells, index);
  }

  /** The freed cell bordered the gap: the gap grows, over a touching freeblock too. */
  lemma GapGrows(l: Layout, hs: nat, size: nat, index: nat)
    requires Tiled(l, hs, size) && index < |l.cells| && l.cells[index].at == l.content
    ensures Tiled(FreedLayout(l, index), hs, size) && Slack(FreedLayout(l, index), size) == Slack(l, size)
  {
    hide Total;
    var e, m := l.cells[index], FreedLayout(l, index);
    CellsAfter(l, hs, size, index);
    if Touches(l, e) { FirstTotal(l.blocks); }
    forall i | 0 <= i < |m.cells| ensures Inside(m.cells[i], m.content, size) {
      assert Apart(m.cells[i], e);
      assert Touches(l, e) ==> Apart(m.cells[i], l.blocks[0]);
    }
    forall i | 0 <= i < |m.blocks| ensures Inside(m.blocks[i], m.content, size) {
      var j := if Touches(l, e) then i + 1 else i;
      assert m.blocks[i] == l.blocks[j] && Apart(e, l.blocks[j]);
      assert Touches(l, e) ==> l.blocks[0].End() < l.blocks[j].at;
    }
    forall i, j | 0 <= i < |m.cells| && 0 <= j < |m.blocks| ensures Apart(m.cells[i], m.blocks[j]) {
      assert m.blocks[j] == l.blocks[if Touches(l, e) then j + 1 else j];
    }
  }

  lemma FirstTotal(blocks: seq<Extent>)
    requires blocks != []
    ensures Total(blocks) == blocks[0].len + Total(blocks[1..])
  {
  }

  lemma BlockGrows(l: Layout, hs: nat, size: nat, index: nat)
    requires Tiled(l, hs, size) && index < |l.cells| && l.cells[index].at != l.content && l.cells[index].len >= MIN_FREEBLOCK_SIZE
    ensures Tiled(FreedLayout(l, index), hs, size) && Slack(FreedLayout(l, index), size) == Slack(l, size)
  {
    hide Total, Added;
    var e, m := l.cells[index], FreedLayout(l, index);
    CellsAfter(l, hs, size, index);
    AddedSpaced(l.blocks, e, l.content, size);
    forall i, j | 0 <= i < |m.cells| && 0 <= j < |m.blocks| ensures Apart(m.cells[i], m.blocks[j]) {
      AddedClear(l.blocks, e, m.cells[i], j);
    }
  }

  /** Removing a cell keeps the partition: the bytes go to the gap or to the freeblocks,
      and only a fragment adds to the unaccounted bytes. */
  lemma FreedTiled(l: Layout, hs: nat, size: nat, index: nat)
    requires Tiled(l, hs, size) && index < |l.cells|
    ensures Tiled(FreedLayout(l, index), hs, size)
    ensures Slack(FreedLayout(l, index), size) == Slack(l, size) + if Fragments(l, index) then l.cells[index].len else 0
  {
    hide Total, Added;
    if l.cells[index].at == l.content {
      GapGrows(l, hs, size, index);
    } else if l.cells[index].len < MIN_FREEBLOCK_SIZE {
      CellsAfter(l, hs, size, index);
    } else {
      BlockGrows(l, hs, size, index);
    }
  }

  // ------------------------------------------------------------- the page afterwards

  /** Cells stay readable as long as count, pointers and cell bytes are the same. */
  lemma CellsSurvive(b: seq<byte>, c: seq<byte>, hs: nat, k: Kind, cells: seq<Extent>)
    requires ReadsCells(b, hs, k, cells) && |b| == |c| && b[hs + 3..hs + 5] == c[hs + 3..hs + 5]
    requires PtrAt(hs, |cells|) <= |b| && b[PtrAt(hs, 0)..PtrAt(hs, |cells|)] == c[PtrAt(hs, 0)..PtrAt(hs, |cells|)]
    requires forall i :: 0 <= i < |cells| ==> cells[i].End() <= |b| && b[cells[i].at..cells[i].End()] == c[cells[i].at..cells[i].End()]
    ensures ReadsCells(c, hs, k, cells)
  {
    hide CellLen, U16At;
    Field16(b, c, hs + 3, hs + 3);
    forall i | 0 <= i < |cells| ensures PointsTo(c, hs, i, cells[i]) && CellAt(c, k, cells[i]) {
      var x := b[PtrAt(hs, 0)..PtrAt(hs, |cells|)];
      assert PointsTo(b, hs, i, cells[i]) && CellAt(b, k, cells[i]);
      Within(b, PtrAt(hs, 0), x, 2 * i, 2 * i + 2);
      Within(c, PtrAt(hs, 0), x, 2 * i, 2 * i + 2);
      Field16(b, c, PtrAt(hs, i), PtrAt(hs, i));
      CellKept(b, c, k, cells[i]);
    }
  }

  /** The parts of a page a chain rewrite leaves alone. */
  ghost predicate SameButChain(b: seq<byte>, c: seq<byte>, hs: nat, cells: seq<Extent>)
  {
    && |b| == |c| && hs + 8 <= |b| && b[hs + 7] == c[hs + 7] && (forall i :: 0 <= i <= hs ==> b[i] == c[i])
    && forall i :: 0 <= i < |cells| ==> cells[i].End() <= |b| && b[cells[i].at..cells[i].End()] == c[cells[i].at..cells[i].End()]
  }

  /** Rewriting the freeblock chain of a page laid out as `m`. */
  lemma RelinkedReads(x: seq<byte>, hs: nat, k: Kind, m: Layout)
    requires ReadsCells(x, hs, k, m.cells) && ContentStart(x, hs) == m.content && Tiled(m, hs, |x|)
    ensures Spaced(m.blocks, 0, |x|)
    ensures Reads(Linked(x, hs, m.blocks), hs, k, m) && SameButChain(x, Linked(x, hs, m.blocks), hs, m.cells)
  {
    hide CellLen, U16At, Linked, Chain, Total, Slack, PointsTo, CellAt;
    assert Spaced(m.blocks, 0, |x|);
    var r := Linked(x, hs, m.blocks);
    LinkedChain(x, hs, m.blocks, m.content);
    forall i, j | (i == hs + 3 && j == hs + 5) || (i == hs + 5 && j == hs + 7) || (i == hs + 7 && j == hs + 8)
               || (i == 0 && j == hs + 1) || (i == PtrAt(hs, 0) && j == PtrAt(hs, |m.cells|))
      ensures r[i..j] == x[i..j]
    {
      LinkedElsewhere(x, hs, m.blocks, i, j);
    }
    forall i | 0 <= i < |m.cells| ensures r[m.cells[i].at..m.cells[i].End()] == x[m.cells[i].at..m.cells[i].End()] {
      forall t | 0 <= t < |m.blocks| ensures m.cells[i].End() <= m.blocks[t].at || m.blocks[t].at + 4 <= m.cells[i].at {
        assert Apart(m.cells[i], m.blocks[t]);
      }
      LinkedElsewhere(x, hs, m.blocks, m.cells[i].at, m.cells[i].End());
    }
    CellsSurvive(x, r, hs, k, m.cells);
    Field16(x, r, hs + 5, hs + 5);
    assert r[hs + 7] == r[hs + 7..hs + 8][0] == x[hs + 7];
    forall i | 0 <= i <= hs ensures r[i] == x[i] { assert r[0..hs + 1][i] == x[0..hs + 1][i]; }
  }

  /** Writing one header field below the pointer array, other than the cell count. */
  lemma FieldWritten(x: seq<byte>, hs: nat, k: Kind, cells: seq<Extent>, at: nat, data: seq<byte>)
    requires ReadsCells(x, hs, k, cells) && PtrAt(hs, |cells|) <= |x| && hs + 5 <= at && at + |data| <= hs + 8
    requires forall i :: 0 <= i < |cells| ==> PtrAt(hs, 0) <= cells[i].at && cells[i].End() <= |x|
    ensures ReadsCells(Put(x, at, data), hs, k, cells)
    ensures forall i :: 0 <= i <= hs + 4 ==> Put(x, at, data)[i] == x[i]
    ensures forall i :: 0 <= i < |cells| ==> Put(x, at, data)[cells[i].at..cells[i].End()] == x[cells[i].at..cells[i].End()]
    ensures Put(x, at, data)[hs + 8..] == x[hs + 8..]
  {
    hide CellLen, U16At, PointsTo, CellAt, Put;
    var r := Put(x, at, data);
    PutElsewhere(x, at, data, hs + 3, hs + 5);
    PutElsewhere(x, at, data, PtrAt(hs, 0), PtrAt(hs, |cells|));
    PutElsewhere(x, at, data, 0, hs + 5);
    PutElsewhere(x, at, data, hs + 8, |x|);
    forall i | 0 <= i < |cells| ensures r[cells[i].at..cells[i].End()] == x[cells[i].at..cells[i].End()] {
      PutElsewhere(x, at, data, cells[i].at, cells[i].End());
    }
    CellsSurvive(x, r, hs, k, cells);
    forall i | 0 <= i <= hs + 4 ensures r[i] == x[i] { assert r[0..hs + 5][i] == x[0..hs + 5][i]; }
  }

  lemma Deletable(b: seq<byte>, hs: nat, k: Kind, l: Layout, index: nat)
    requires WellFormed(b, hs, k, l) && index < |l.cells|
    ensures hs + 8 <= |b| <= 65536 && |l.cells| <= 65535 && PtrAt(hs, |l.cells|) <= l.cells[index].at && l.cells[index].End() <= |b|
    ensures Spaced(FreedLayout(l, index).blocks, 0, |b|) && FreedLayout(l, index).content <= |b|
  {
    hide CellLen, U16At, Chain, Total, PointsTo, CellAt, Added, Slack;
    FreedTiled(l, hs, |b|, index);
  }

  /** The finished page, in the three ways a cell's bytes can go. */
  ghost function Deleted(b: seq<byte>, hs: nat, k: Kind, l: Layout, index: nat): (r: seq<byte>)
    requires WellFormed(b, hs, k, l) && index < |l.cells|
    ensures |r| == |b|
  {
    Deletable(b, hs, k, l, index);
    var u, m := Unlisted(b, hs, index, |l.cells|, l.cells[index]), FreedLayout(l, index);
    if l.cells[index].at == l.content then Linked(Put(u, hs + 5, BE16(StoredStart(m.content))), hs, m.blocks)
    else if Fragments(l, index) then Put(u, hs + 7, [Min(u[hs + 7] as int + l.cells[index].len, 255)])
    else Linked(u, hs, m.blocks)
  }

  ghost predicate Untouched(b: seq<byte>, r: seq<byte>, hs: nat, cells: seq<Extent>)
  {
    && |b| == |r| && (forall i :: 0 <= i <= hs && i < |b| ==> b[i] == r[i])
    && forall i :: 0 <= i < |cells| ==> cells[i].End() <= |b| && b[cells[i].at..cells[i].End()] == r[cells[i].at..cells[i].End()]
  }

  lemma GapDeleted(b: seq<byte>, hs: nat, k: Kind, l: Layout, index: nat)
    requires WellFormed(b, hs, k, l) && index < |l.cells| && l.cells[index].at == l.content
    ensures WellFormed(Deleted(b, hs, k, l, index), hs, k, FreedLayout(l, index))
    ensures Untouched(b, Deleted(b, hs, k, l, index), hs, DropAt(l.cells, index))
  {
    hide CellLen, U16At, Linked, Chain, Total, Slack, PointsTo, CellAt, Unlisted, ReadsCells, Put, FreedLayout;
    PageShape(b, hs, k, l);
    UnlistedCells(b, hs, k, l, index);
    UnlistedRest(b, hs, k, l, index);
    FreedTiled(l, hs, |b|, index);
    var u, m := Unlisted(b, hs, index, |l.cells|, l.cells[index]), FreedLayout(l, index);
    FreedCells(l, hs, |b|, index);
    FieldWritten(u, hs, k, m.cells, hs + 5, BE16(StoredStart(m.content)));
    var x := Put(u, hs + 5, BE16(StoredStart(m.content)));
    PutHere(u, hs + 5, BE16(StoredStart(m.content)));
    PutElsewhere(u, hs + 5, BE16(StoredStart(m.content)), hs + 7, hs + 8);
    assert x[hs + 7] == x[hs + 7..hs + 8][0] == u[hs + 7];
    ReadBack16(x, hs + 5, StoredStart(m.content));
    RelinkedReads(x, hs, k, m);
    UntouchedCells(b, u, hs, l, index);
  }

  lemma FreedCells(l: Layout, hs: nat, size: nat, index: nat)
    requires Tiled(l, hs, size) && index < |l.cells| && Tiled(FreedLayout(l, index), hs, size)
    ensures FreedLayout(l, index).cells == DropAt(l.cells, index)
    ensures forall i :: 0 <= i < |FreedLayout(l, index).cells| ==>
              PtrAt(hs, 0) <= FreedLayout(l, index).cells[i].at && FreedLayout(l, index).cells[i].End() <= size
    ensures PtrAt(hs, |FreedLayout(l, index).cells|) <= size && 0 < FreedLayout(l, index).content <= size
  {
    hide Total, Added;
  }

  lemma UntouchedCells(b: seq<byte>, u: seq<byte>, hs: nat, l: Layout, index: nat)
    requires index < |l.cells| && |u| == |b| && hs < |b| && (forall i :: 0 <= i <= hs ==> u[i] == b[i])
    requires forall i :: 0 <= i < |l.cells| && i != index ==>
               l.cells[i].End() <= |b| && u[l.cells[i].at..l.cells[i].End()] == b[l.cells[i].at..l.cells[i].End()]
    ensures Untouched(b, u, hs, DropAt(l.cells, index))
  {
  }

  lemma FragmentDeleted(b: seq<byte>, hs: nat, k: Kind, l: Layout, index: nat)
    requires WellFormed(b, hs, k, l) && index < |l.cells| && Fragments(l, index)
    ensures WellFormed(Deleted(b, hs, k, l, index), hs, k, FreedLayout(l, index))
    ensures Untouched(b, Deleted(b, hs, k, l, index), hs, DropAt(l.cells, index))
  {
    hide CellLen, U16At, Linked, Chain, Total, PointsTo, CellAt, Unlisted, ReadsCells, Put;
    UnlistedCells(b, hs, k, l, index);
    UnlistedRest(b, hs, k, l, index);
    FreedTiled(l, hs, |b|, index);
    var u, m := Unlisted(b, hs, index, |l.cells|, l.cells[index]), FreedLayout(l, index);
    FreedCells(l, hs, |b|, index);
    var data: seq<byte> := [Min(u[hs + 7] as int + l.cells[index].len, 255)];
    FieldWritten(u, hs, k, m.cells, hs + 7, data);
    var r := Put(u, hs + 7, data);
    PutHere(u, hs + 7, data);
    assert r[hs + 7] == r[hs + 7..hs + 8][0];
    PutElsewhere(u, hs + 7, data, hs + 1, hs + 3);
    PutElsewhere(u, hs + 7, data, hs + 5, hs + 7);
    Field16(u, r, hs + 1, hs + 1);
    Field16(u, r, hs + 5, hs + 5);
    ChainAbove(u, r, hs, m);
    UntouchedCells(b, u, hs, l, index);
  }

  lemma ChainAbove(u: seq<byte>, r: seq<byte>, hs: nat, m: Layout)
    requires hs + 8 <= |u| == |r| && u[hs + 8..] == r[hs + 8..] && Tiled(m, hs, |u|) && Chain(u, FirstFreeblock(u, hs), m.blocks)
    ensures Chain(r, FirstFreeblock(u, hs), m.blocks)
  {
    hide U16At, Chain, Total;
    forall i | 0 <= i < |m.blocks| ensures u[m.blocks[i].at..m.blocks[i].at + 4] == r[m.blocks[i].at..m.blocks[i].at + 4] {
      SameAbove(u, r, hs + 8, m.blocks[i].at, m.blocks[i].at + 4);
    }
    ChainKept(u, r, FirstFreeblock(u, hs), m.blocks);
  }

  lemma BlockDeleted(b: seq<byte>, hs: nat, k: Kind, l: Layout, index: nat)
    requires WellFormed(b, hs, k, l) && index < |l.cells| && l.cells[index].at != l.content && !Fragments(l, index)
    ensures WellFormed(Deleted(b, hs, k, l, index), hs, k, FreedLayout(l, index))
    ensures Untouched(b, Deleted(b, hs, k, l, index), hs, DropAt(l.cells, index))
  {
    hide CellLen, U16At, Linked, Chain, Total, Slack, PointsTo, CellAt, Unlisted, ReadsCells, Put, Added;
    UnlistedCells(b, hs, k, l, index);
    UnlistedRest(b, hs, k, l, index);
    FreedTiled(l, hs, |b|, index);
    var u, m := Unlisted(b, hs, index, |l.cells|, l.cells[index]), FreedLayout(l, index);
    FreedCells(l, hs, |b|, index);
    RelinkedReads(u, hs, k, m);
    UntouchedCells(b, u, hs, l, index);
  }

  /** The page stays well formed and holds exactly the other cells, byte for byte. */
  lemma DeletedOk(b: seq<byte>, hs: nat, k: Kind, l: Layout, index: nat)
    requires WellFormed(b, hs, k, l) && index < |l.cells|
    ensures WellFormed(Deleted(b, hs, k, l, index), hs, k, FreedLayout(l, index))
    ensures forall i :: 0 <= i < |l.cells| ==> l.cells[i].End() <= |b|
    ensures FreedLayout(l, index).cells == DropAt(l.cells, index)
    ensures CellsOf(Deleted(b, hs, k, l, index), DropAt(l.cells, index)) == DropAt(CellsOf(b, l.cells), index)
    ensures forall i :: 0 <= i <= hs ==> Deleted(b, hs, k, l, index)[i] == b[i]
  {
    hide WellFormed, Deleted, FreedLayout;
    PageShape(b, hs, k, l);
    if l.cells[index].at == l.content {
      GapDeleted(b, hs, k, l, index);
    } else if Fragments(l, index) {
      FragmentDeleted(b, hs, k, l, index);
    } else {
      BlockDeleted(b, hs, k, l, index);
    }
    LayoutCells(l, index);
  }

  lemma LayoutCells(l: Layout, index: nat)
    requires index < |l.cells|
    ensures FreedLayout(l, index).cells == DropAt(l.cells, index)
  {
    hide Added;
  }

  // --------------------------------------------------------------------- in place

  lemma MoveDownOne(b: seq<byte>, hs: nat, index: nat, i: nat, n: nat)
    requires index <= i && i + 1 < n && PtrAt(hs, n) <= |b|
    ensures var c := Put(b, PtrAt(hs, index), b[PtrAt(hs, index + 1)..PtrAt(hs, i + 1)]);
            && U16At(c, PtrAt(hs, i + 1)) == U16At(b, PtrAt(hs, i + 1))
            && Put(c, PtrAt(hs, i), BE16(U16At(b, PtrAt(hs, i + 1)))) == Put(b, PtrAt(hs, index), b[PtrAt(hs, index + 1)..PtrAt(hs, i + 2)])
  {
    hide U16At, BE16;
    var q := PtrAt(hs, i + 1);
    var moved := b[PtrAt(hs, index + 1)..PtrAt(hs, i + 1)];
    var c := Put(b, PtrAt(hs, index), moved);
    PutElsewhere(b, PtrAt(hs, index), moved, q, q + 2);
    Field16(c, b, q, q);
    FieldBytes(b, q);
    assert b[PtrAt(hs, index + 1)..PtrAt(hs, i + 2)] == moved + b[q..q + 2];
  }

  lemma NoneMovedDown(b: seq<byte>, hs: nat, index: nat)
    requires PtrAt(hs, index + 1) <= |b|
    ensures Put(b, PtrAt(hs, index), b[PtrAt(hs, index + 1)..PtrAt(hs, index + 1)]) == b
  {
  }

  /** Takes the cell off the pointer array and clears its bytes. */
  method Unlist(buf: array<byte>, hs: nat, index: nat, n: nat, start: nat, end: nat)
    requires index < n <= 65535 && PtrAt(hs, n) <= start <= end <= buf.Length
    modifies buf
    ensures buf[..] == Unlisted(old(buf[..]), hs, index, n, Extent(start, end - start))
  {
    hide Put, U16At, BE16, Zeros;
    ghost var b := buf[..];
    NoneMovedDown(b, hs, index);
    var i := index;
    while i < n - 1
      invariant index <= i <= n - 1
      invariant buf[..] == Put(b, PtrAt(hs, index), b[PtrAt(hs, index + 1)..PtrAt(hs, i + 1)])
    {
      MoveDownOne(b, hs, index, i, n);
      var v := U16At(buf[..], PtrAt(hs, i + 1));
      Store(buf, PtrAt(hs, i), BE16(v));
      i := i + 1;
    }
    Store(buf, hs + 3, BE16(n - 1));
    Store(buf, start, Zeros(end - start));
  }

  /** Moves the content start past the freed cell and any block that now touches it. */
  method GrowGap(blocks: seq<Extent>, end: nat, ghost l: Layout, ghost e: Extent) returns (rest: seq<Extent>, content: nat)
    requires blocks == l.blocks && Spaced(blocks, l.content, 65536) && e.at == l.content && e.End() == end
    requires e.len > 0 && forall i :: 0 <= i < |blocks| ==> Apart(e, blocks[i])
    ensures if Touches(l, e) then rest == blocks[1..] && content == blocks[0].End() else rest == blocks && content == end
  {
    rest, content := blocks, end;
    ghost var moved := false;
    assert forall i :: 0 < i < |blocks| ==> blocks[0].End() < blocks[i].at;
    assert blocks != [] ==> Apart(e, blocks[0]) && end <= blocks[0].at;
    while true
      invariant if moved then Touches(l, e) && rest == blocks[1..] && content == blocks[0].End() else rest == blocks && content == end
      decreases |rest|
    {
      var pos := Position(rest, content);
      if pos == |rest| {
        break;
      }
      content := content + rest[pos].len;
      rest := rest[..pos] + rest[pos + 1..];
      moved := true;
    }
  }

  /** The first block starting at `at`, or the number of blocks if there is none. */
  method Position(blocks: seq<Extent>, at: nat) returns (pos: nat)
    ensures pos <= |blocks| && (pos < |blocks| ==> blocks[pos].at == at) && forall i :: 0 <= i < pos ==> blocks[i].at != at
  {
    pos := 0;
    while pos < |blocks| && blocks[pos].at != at
      invariant pos <= |blocks| && forall i :: 0 <= i < pos ==> blocks[i].at != at
    {
      pos := pos + 1;
    }
  }

  /** Removes the cell at pointer position `index`. A freeblock chain past the walk limit
      is reported after the cell has already been taken off the page. */
  method SpliceDeleteCell(buf: array<byte>, hs: nat, usable: nat, index: nat, hasRowid: bool, ghost l: Layout)
    returns (r: Result<(), DeleteError>)
    requires WellFormed(buf[..], hs, Kind(usable, hasRowid), l)
    modifies buf
    ensures r.Ok? <==> index < |l.cells| && (Fragments(l, index) || |l.blocks| <= MAX_FREEBLOCKS)
    ensures r.Ok? ==> WellFormed(buf[..], hs, Kind(usable, hasRowid), FreedLayout(l, index))
    ensures r.Ok? ==> (forall i :: 0 <= i < |l.cells| ==> l.cells[i].End() <= buf.Length)
                      && FreedLayout(l, index).cells == DropAt(l.cells, index)
                      && CellsOf(buf[..], DropAt(l.cells, index)) == DropAt(CellsOf(old(buf[..]), l.cells), index)
    ensures r.Ok? ==> forall i :: 0 <= i <= hs && i < buf.Length ==> buf[i] == old(buf[i])
    ensures index >= |l.cells| ==> r == Err(IndexOutOfBounds) && buf[..] == old(buf[..])
    ensures r.Err? && index < |l.cells| ==>
              r == Err(ChainTooLong) && hs + 8 <= buf.Length && NumCells(buf[..], hs) == |l.cells| - 1
  {
    hide Put, U16At, BE16, WellFormed, CellsOf, FreedLayout, Unlisted, CellHead, LocalPayloadSize, Linked, Chain, Spaced;
    ghost var b, k := buf[..], Kind(usable, hasRowid);
    PageShape(b, hs, k, l);
    var n := NumCells(buf[..], hs);
    if index >= n {
      return Err(IndexOutOfBounds);
    }
    PageRebuild.LeafCell(b, hs, k, l, index);
    var start := U16At(buf[..], PtrAt(hs, index));
    var head := CellHead(buf[start..], hasRowid);
    if head.Err? {
      return Err(BadCell(head.error));
    }
    var local := LocalPayloadSize(usable, head.value.0, !hasRowid);
    var end := start + head.value.2 + local + if local < head.value.0 then 4 else 0;
    Deletable(b, hs, k, l, index);
    UnlistedRest(b, hs, k, l, index);
    UnlistedCount(b, hs, index, n, l.cells[index]);
    DeletedOk(b, hs, k, l, index);
    Unlist(buf, hs, index, n, start, end);
    var done := ReleaseBytes(buf, hs, start, end, b, k, l, index);
    return if done then Ok(()) else Err(ChainTooLong);
  }

  /** Hands the freed bytes to the gap, the fragment count or the freeblock chain. */
  method ReleaseBytes(buf: array<byte>, hs: nat, start: nat, end: nat, ghost b: seq<byte>, ghost k: Kind, ghost l: Layout, ghost index: nat)
    returns (done: bool)
    requires start <= end && WellFormed(b, hs, k, l) && index < |l.cells| && l.cells[index] == Extent(start, end - start)
    requires |l.cells| <= 65535 && PtrAt(hs, |l.cells|) <= start && end <= |b| && buf[..] == Unlisted(b, hs, index, |l.cells|, l.cells[index])
    modifies buf
    ensures done <==> Fragments(l, index) || |l.blocks| <= MAX_FREEBLOCKS
    ensures if done then buf[..] == Deleted(b, hs, k, l, index) else buf[..] == old(buf[..])
  {
    hide Put, U16At, BE16, Unlisted, Linked, Chain, Added, WellFormed, Spaced;
    UnlistedRest(b, hs, k, l, index);
    Deletable(b, hs, k, l, index);
    GapReady(b, hs, k, l, index);
    var content := ContentStart(buf[..], hs);
    if start != content && end - start < MIN_FREEBLOCK_SIZE {
      var frag: int := buf[hs + 7];
      Store(buf, hs + 7, [Min(frag + (end - start), 255)]);
      return true;
    }
    var walked := WalkFreeblocks(buf[..], hs, l.blocks);
    if walked.Err? {
      return false;
    }
    if start == content {
      var rest, newContent := GrowGap(walked.value, end, l, l.cells[index]);
      Store(buf, hs + 5, BE16(StoredStart(newContent)));
      WriteFreeblockChain(buf, hs, rest);
    } else {
      var blocks := AddFreeblock(walked.value, start, end - start);
      WriteFreeblockChain(buf, hs, blocks);
    }
    return true;
  }

  lemma GapReady(b: seq<byte>, hs: nat, k: Kind, l: Layout, index: nat)
    requires WellFormed(b, hs, k, l) && index < |l.cells|
    ensures Spaced(l.blocks, l.content, 65536) && Spaced(l.blocks, 0, 65536) && l.cells[index].len > 0
    ensures forall i :: 0 <= i < |l.blocks| ==> Apart(l.cells[index], l.blocks[i])
  {
    hide CellLen, U16At, Chain, Total, PointsTo, CellAt, Slack;
  }
}
