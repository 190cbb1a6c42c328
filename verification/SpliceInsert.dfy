/** Inserting one cell into a leaf page in place, and rebuilding the page from scratch:
    both leave the same cells in the same order. */
module SpliceInsert {
  import opened Bytes
  import opened Cells
  import opened PageLayout

  /** Writes `data` into the page buffer. */
  method Store(buf: array<byte>, at: nat, data: seq<byte>)
    requires at + |data| <= buf.Length
    modifies buf
    ensures buf[..] == Put(old(buf[..]), at, data)
  {
    forall i | 0 <= i < |data| {
      buf[at + i] := data[i];
    }
  }

  // --------------------------------------------------------------- the new page

  function NewLayout(l: Layout, index: nat, len: nat): Layout
    requires index <= |l.cells| && len <= l.content
  {
    Layout(l.cells[..index] + [Extent(l.content - len, len)] + l.cells[index..], l.blocks, l.content - len)
  }

  /** Room between the pointer array and the content area for the cell and its pointer. */
  predicate HasGap(l: Layout, hs: nat, len: nat) { PtrAt(hs, |l.cells| + 1) + len <= l.content }

  /** The pointer entries from `index` on, moved up one place. */
  function MovedUp(b: seq<byte>, hs: nat, index: nat, n: nat): (r: seq<byte>)
    requires index <= n && PtrAt(hs, n + 1) <= |b|
    ensures |r| == |b|
  {
    Put(b, PtrAt(hs, index + 1), b[PtrAt(hs, index)..PtrAt(hs, n)])
  }

  function Inserted(b: seq<byte>, hs: nat, index: nat, cell: seq<byte>, n: nat, content: nat): (r: seq<byte>)
    requires index <= n < 65535 && PtrAt(hs, n + 1) + |cell| <= content <= |b| <= 65536
    ensures |r| == |b|
  {
    var start := content - |cell|;
    var b1 := Put(b, start, cell);
    var b2 := MovedUp(b1, hs, index, n);
    var b3 := Put(b2, PtrAt(hs, index), BE16(start % 65536));
    var b4 := Put(b3, hs + 5, BE16(StoredStart(start)));
    Put(b4, hs + 3, BE16(n + 1))
  }

  /** Everything at or above the old content area is untouched. */
  lemma InsertedAbove(b: seq<byte>, hs: nat, index: nat, cell: seq<byte>, n: nat, content: nat)
    requires index <= n < 65535 && PtrAt(hs, n + 1) + |cell| <= content <= |b| <= 65536
    ensures var r := Inserted(b, hs, index, cell, n, content);
            r[content - |cell|..content] == cell && r[content..] == b[content..]
  {
    hide Put, BE16, PtrAt;
    PtrOrder(hs, index, n);
    var start := content - |cell|;
    var b1 := Put(b, start, cell);
    var b2 := MovedUp(b1, hs, index, n);
    var b3 := Put(b2, PtrAt(hs, index), BE16(start % 65536));
    var b4 := Put(b3, hs + 5, BE16(StoredStart(start)));
    PutElsewhere(b, start, cell, content, |b|);
    PutHere(b, start, cell);
    forall i, j | (i == content && j == |b|) || (i == start && j == content) ensures Inserted(b, hs, index, cell, n, content)[i..j] == b1[i..j] {
      PutElsewhere(b1, PtrAt(hs, index + 1), b1[PtrAt(hs, index)..PtrAt(hs, n)], i, j);
      PutElsewhere(b2, PtrAt(hs, index), BE16(start % 65536), i, j);
      PutElsewhere(b3, hs + 5, BE16(StoredStart(start)), i, j);
      PutElsewhere(b4, hs + 3, BE16(n + 1), i, j);
    }
  }

  lemma PtrOrder(hs: nat, index: nat, n: nat)
    requires index <= n
    ensures hs + 8 <= PtrAt(hs, index) < PtrAt(hs, index) + 2 == PtrAt(hs, index + 1) <= PtrAt(hs, n + 1) == PtrAt(hs, n) + 2
  {
  }

  /** The header fields after the insertion. */
  lemma InsertedHeader(b: seq<byte>, hs: nat, index: nat, cell: seq<byte>, n: nat, content: nat)
    requires index <= n < 65535 && PtrAt(hs, n + 1) + |cell| <= content <= |b| <= 65536
    ensures var r := Inserted(b, hs, index, cell, n, content);
            && r[hs + 1..hs + 3] == b[hs + 1..hs + 3] && r[hs + 7] == b[hs + 7]
            && NumCells(r, hs) == n + 1 && ContentStart(r, hs) == content - |cell|
  {
    hide Put, PtrAt, U16At;
    PtrOrder(hs, index, n);
    var start := content - |cell|;
    var b1 := Put(b, start, cell);
    var b2 := MovedUp(b1, hs, index, n);
    var b3 := Put(b2, PtrAt(hs, index), BE16(start % 65536));
    var b4 := Put(b3, hs + 5, BE16(StoredStart(start)));
    var r := Inserted(b, hs, index, cell, n, content);
    forall i, j | (i == hs + 1 && j == hs + 3) || (i == hs + 7 && j == hs + 8) ensures r[i..j] == b[i..j] {
      PutElsewhere(b, start, cell, i, j);
      PutElsewhere(b1, PtrAt(hs, index + 1), b1[PtrAt(hs, index)..PtrAt(hs, n)], i, j);
      PutElsewhere(b2, PtrAt(hs, index), BE16(start % 65536), i, j);
      PutElsewhere(b3, hs + 5, BE16(StoredStart(start)), i, j);
      PutElsewhere(b4, hs + 3, BE16(n + 1), i, j);
    }
    assert r[hs + 7] == r[hs + 7..hs + 8][0] == b[hs + 7];
    PutHere(b4, hs + 3, BE16(n + 1));
    ReadBack16(r, hs + 3, n + 1);
    PutHere(b3, hs + 5, BE16(StoredStart(start)));
    PutElsewhere(b4, hs + 3, BE16(n + 1), hs + 5, hs + 7);
    ReadBack16(r, hs + 5, StoredStart(start));
  }

  /** The pointer array after the insertion. */
  lemma InsertedPointers(b: seq<byte>, hs: nat, index: nat, cell: seq<byte>, n: nat, content: nat, i: nat)
    requires index <= n < 65535 && PtrAt(hs, n + 1) + |cell| <= content <= |b| <= 65536 && i <= n && |cell| > 0
    ensures var r := Inserted(b, hs, index, cell, n, content);
            U16At(r, PtrAt(hs, i)) ==
              if i < index then U16At(b, PtrAt(hs, i)) else if i == index then content - |cell| else U16At(b, PtrAt(hs, i - 1))
  {
    hide Put, U16At;
    var start := content - |cell|;
    var b1 := Put(b, start, cell);
    var b2 := MovedUp(b1, hs, index, n);
    var b3 := Put(b2, PtrAt(hs, index), BE16(start % 65536));
    var b4 := Put(b3, hs + 5, BE16(StoredStart(start)));
    var r := Inserted(b, hs, index, cell, n, content);
    var p := PtrAt(hs, i);
    PutElsewhere(b4, hs + 3, BE16(n + 1), p, p + 2);
    PutElsewhere(b3, hs + 5, BE16(StoredStart(start)), p, p + 2);
    if i == index {
      PutHere(b2, p, BE16(start % 65536));
      ReadBack16(r, p, start);
    } else {
      PutElsewhere(b2, PtrAt(hs, index), BE16(start % 65536), p, p + 2);
      MovedEntry(b, b1, hs, index, n, start, cell, i);
      Field16(r, b, p, if i < index then p else PtrAt(hs, i - 1));
    }
  }

  lemma MovedEntry(b: seq<byte>, b1: seq<byte>, hs: nat, index: nat, n: nat, start: nat, cell: seq<byte>, i: nat)
    requires index <= n && PtrAt(hs, n + 1) <= start && start + |cell| <= |b| && b1 == Put(b, start, cell) && i <= n && i != index
    ensures var b2 := MovedUp(b1, hs, index, n);
            b2[PtrAt(hs, i)..PtrAt(hs, i) + 2] == if i < index then b[PtrAt(hs, i)..PtrAt(hs, i) + 2] else b[PtrAt(hs, i - 1)..PtrAt(hs, i - 1) + 2]
  {
    hide Put;
    var src := b1[PtrAt(hs, index)..PtrAt(hs, n)];
    var b2 := Put(b1, PtrAt(hs, index + 1), src);
    var p := PtrAt(hs, i);
    if i < index {
      PutElsewhere(b1, PtrAt(hs, index + 1), src, p, p + 2);
      PutElsewhere(b, start, cell, p, p + 2);
    } else {
      var q := PtrAt(hs, i - 1);
      PutHere(b1, PtrAt(hs, index + 1), src);
      Within(b2, PtrAt(hs, index + 1), src, q - PtrAt(hs, index), q + 2 - PtrAt(hs, index));
      assert src[q - PtrAt(hs, index)..q + 2 - PtrAt(hs, index)] == b1[q..q + 2];
      PutElsewhere(b, start, cell, q, q + 2);
    }
  }

  lemma TiledInsert(l: Layout, hs: nat, size: nat, index: nat, len: nat)
    requires Tiled(l, hs, size) && index <= |l.cells| && HasGap(l, hs, len) && len > 0
    ensures Tiled(NewLayout(l, index, len), hs, size) && Slack(NewLayout(l, index, len), size) == Slack(l, size)
  {
    hide Total;
    var m := NewLayout(l, index, len);
    TotalInsert(l.cells, index, Extent(l.content - len, len));
    forall i | 0 <= i < |m.cells| && i != index ensures m.cells[i] == l.cells[if i < index then i else i - 1] {}
    assert Packed(m.cells, m.content, size);
    assert Clear(m.cells, m.blocks);
  }

  /** The page after the insertion reads as the old layout with the new cell in place. */
  lemma InsertedReads(b: seq<byte>, hs: nat, k: Kind, l: Layout, index: nat, cell: seq<byte>)
    requires Reads(b, hs, k, l) && Tiled(l, hs, |b|) && index <= |l.cells| && HasGap(l, hs, |cell|) && CellLen(cell, k) == Ok(|cell|)
    ensures Reads(Inserted(b, hs, index, cell, |l.cells|, l.content), hs, k, NewLayout(l, index, |cell|))
  {
    hide Inserted, CellLen, Chain, U16At, Total, NumCells, ContentStart;
    var n := |l.cells|;
    var r, m := Inserted(b, hs, index, cell, n, l.content), NewLayout(l, index, |cell|);
    InsertedHeader(b, hs, index, cell, n, l.content);
    InsertedAbove(b, hs, index, cell, n, l.content);
    forall i | 0 <= i < |m.cells| ensures PointsTo(r, hs, i, m.cells[i]) && CellAt(r, k, m.cells[i]) {
      InsertedPointers(b, hs, index, cell, n, l.content, i);
      if i == index {
        NewCellReads(r, k, m.cells[i], cell);
      } else {
        var j := if i < index then i else i - 1;
        assert m.cells[i] == l.cells[j] && PointsTo(b, hs, j, l.cells[j]) && CellAt(b, k, l.cells[j]);
        SameAbove(b, r, l.content, l.cells[j].at, l.cells[j].End());
        CellKept(b, r, k, l.cells[j]);
      }
    }
    BlocksKept(b, r, hs, l);
    Field16(b, r, hs + 1, hs + 1);
  }

  lemma NewCellReads(r: seq<byte>, k: Kind, e: Extent, cell: seq<byte>)
    requires e.End() <= |r| && r[e.at..e.End()] == cell && CellLen(cell, k) == Ok(|cell|)
    ensures CellAt(r, k, e)
  {
    hide CellLen;
    assert r[e.at..][..e.len] == cell;
    CellBytes(cell, r[e.at..], k);
  }

  lemma SameAbove(b: seq<byte>, r: seq<byte>, content: nat, i: nat, j: nat)
    requires content <= i <= j <= |b| == |r| && b[content..] == r[content..]
    ensures b[i..j] == r[i..j]
  {
    forall t | i <= t < j ensures b[t] == r[t] {
      assert b[content..][t - content] == r[content..][t - content];
    }
  }

  lemma BlocksKept(b: seq<byte>, r: seq<byte>, hs: nat, l: Layout)
    requires hs + 8 <= |b| == |r| && Chain(b, U16At(b, hs + 1), l.blocks) && Spaced(l.blocks, l.content, |b|)
    requires l.content <= |b| && b[l.content..] == r[l.content..]
    ensures Chain(r, U16At(b, hs + 1), l.blocks)
  {
    hide U16At, Chain;
    forall i | 0 <= i < |l.blocks| ensures b[l.blocks[i].at..l.blocks[i].at + 4] == r[l.blocks[i].at..l.blocks[i].at + 4] {
      SameAbove(b, r, l.content, l.blocks[i].at, l.blocks[i].at + 4);
    }
    ChainKept(b, r, U16At(b, hs + 1), l.blocks);
  }

  lemma InsertedCells(b: seq<byte>, hs: nat, l: Layout, index: nat, cell: seq<byte>)
    requires hs + 8 <= |b| <= 65536 && Tiled(l, hs, |b|) && index <= |l.cells| && HasGap(l, hs, |cell|)
    ensures var r, m := Inserted(b, hs, index, cell, |l.cells|, l.content), NewLayout(l, index, |cell|);
            && (forall i :: 0 <= i < |m.cells| ==> m.cells[i].End() <= |b|)
            && CellsOf(r, m.cells) == CellsOf(b, l.cells)[..index] + [cell] + CellsOf(b, l.cells)[index..]
  {
    hide Inserted, Total;
    var n := |l.cells|;
    var r, m := Inserted(b, hs, index, cell, n, l.content), NewLayout(l, index, |cell|);
    InsertedAbove(b, hs, index, cell, n, l.content);
    var want := CellsOf(b, l.cells)[..index] + [cell] + CellsOf(b, l.cells)[index..];
    forall i | 0 <= i < |m.cells| ensures m.cells[i].End() <= |b| && CellBytesOf(r, m.cells[i]) == want[i] {
      if i != index {
        var j := if i < index then i else i - 1;
        assert m.cells[i] == l.cells[j];
        SameAbove(b, r, l.content, l.cells[j].at, l.cells[j].End());
      }
    }
  }

  // ------------------------------------------------------------------- in place

  lemma MoveOne(b: seq<byte>, hs: nat, i: nat, n: nat)
    requires i < n && PtrAt(hs, n + 1) <= |b|
    ensures U16At(MovedUp(b, hs, i + 1, n), PtrAt(hs, i)) == U16At(b, PtrAt(hs, i))
    ensures Put(MovedUp(b, hs, i + 1, n), PtrAt(hs, i + 1), BE16(U16At(b, PtrAt(hs, i)))) == MovedUp(b, hs, i, n)
  {
    hide U16At, BE16;
    var p := PtrAt(hs, i);
    var c := MovedUp(b, hs, i + 1, n);
    PutElsewhere(b, PtrAt(hs, i + 2), b[PtrAt(hs, i + 1)..PtrAt(hs, n)], p, p + 2);
    Field16(c, b, p, p);
    FieldBytes(b, p);
    assert b[p..p + 2] + b[p + 2..PtrAt(hs, n)] == b[p..PtrAt(hs, n)];
  }

  lemma NothingMoved(b: seq<byte>, hs: nat, n: nat)
    requires PtrAt(hs, n + 1) <= |b|
    ensures MovedUp(b, hs, n, n) == b
  {
  }

  /** Inserts `cell` at pointer position `index` if the gap takes it; otherwise changes
      nothing. */
  method SpliceInsertCell(buf: array<byte>, hs: nat, index: nat, cell: seq<byte>, ghost k: Kind, ghost l: Layout) returns (done: bool)
    requires WellFormed(buf[..], hs, k, l) && index <= |l.cells| && CellLen(cell, k) == Ok(|cell|)
    modifies buf
    ensures done <==> HasGap(l, hs, |cell|)
    ensures !done ==> buf[..] == old(buf[..])
    ensures done ==> WellFormed(buf[..], hs, k, NewLayout(l, index, |cell|))
    ensures done ==> var cells := CellsOf(old(buf[..]), l.cells);
                     CellsOf(buf[..], NewLayout(l, index, |cell|).cells) == cells[..index] + [cell] + cells[index..]
    ensures done ==> forall i :: 0 <= i <= hs ==> buf[i] == old(buf[i])
  {
    hide U16At, WellFormed, CellLen, CellsOf, Inserted, NewLayout;
    ghost var b := buf[..];
    PageShape(b, hs, k, l);
    var n := NumCells(buf[..], hs);
    var content := ContentStart(buf[..], hs);
    var ptrEnd := PtrAt(hs, n);
    if content < ptrEnd || content - ptrEnd < |cell| + 2 {
      return false;
    }
    InsertedOk(b, hs, k, l, index, cell);
    PlaceCell(buf, hs, index, cell, n, content);
    return true;
  }

  /** Writes the cell, moves the pointers up, and adjusts the header. */
  method PlaceCell(buf: array<byte>, hs: nat, index: nat, cell: seq<byte>, n: nat, content: nat)
    requires index <= n < 65535 && PtrAt(hs, n + 1) + |cell| <= content <= buf.Length <= 65536
    modifies buf
    ensures buf[..] == Inserted(old(buf[..]), hs, index, cell, n, content)
  {
    hide Put, MovedUp, U16At, BE16;
    var start := content - |cell|;
    Store(buf, start, cell);
    ghost var b1 := buf[..];
    NothingMoved(b1, hs, n);
    var i: nat := n;
    while i > index
      invariant index <= i <= n && buf[..] == MovedUp(b1, hs, i, n)
    {
      i := i - 1;
      MoveOne(b1, hs, i, n);
      var v := U16At(buf[..], PtrAt(hs, i));
      Store(buf, PtrAt(hs, i + 1), BE16(v));
    }
    Store(buf, PtrAt(hs, index), BE16(start % 65536));
    Store(buf, hs + 5, BE16(StoredStart(start)));
    Store(buf, hs + 3, BE16(n + 1));
  }

  lemma PageShape(b: seq<byte>, hs: nat, k: Kind, l: Layout)
    requires WellFormed(b, hs, k, l)
    ensures hs + 8 <= |b| <= 65536 && NumCells(b, hs) == |l.cells| && ContentStart(b, hs) == l.content
    ensures PtrAt(hs, |l.cells|) <= l.content <= |b|
    ensures forall i :: 0 <= i < |l.cells| ==> l.cells[i].End() <= |b|
  {
    hide Chain, CellLen, U16At;
  }

  lemma InsertedOk(b: seq<byte>, hs: nat, k: Kind, l: Layout, index: nat, cell: seq<byte>)
    requires WellFormed(b, hs, k, l) && index <= |l.cells| && HasGap(l, hs, |cell|) && CellLen(cell, k) == Ok(|cell|)
    requires forall i :: 0 <= i < |l.cells| ==> l.cells[i].End() <= |b|
    ensures |l.cells| < 65535 && l.content <= |b| <= 65536
    ensures var r, m := Inserted(b, hs, index, cell, |l.cells|, l.content), NewLayout(l, index, |cell|);
            && WellFormed(r, hs, k, m)
            && (forall i :: 0 <= i < |m.cells| ==> m.cells[i].End() <= |b|)
            && CellsOf(r, m.cells) == CellsOf(b, l.cells)[..index] + [cell] + CellsOf(b, l.cells)[index..]
            && (forall i :: 0 <= i <= hs ==> r[i] == b[i])
  {
    hide Reads, Tiled, CellLen, CellsOf, Inserted, U16At;
    PageShape(b, hs, k, l);
    InsertedReads(b, hs, k, l, index, cell);
    TiledInsert(l, hs, |b|, index, |cell|);
    InsertedHeader(b, hs, index, cell, |l.cells|, l.content);
    InsertedCells(b, hs, l, index, cell);
    InsertedBelow(b, hs, index, cell, |l.cells|, l.content);
  }

  /** Page 1 keeps its file header, and every page its type byte. */
  lemma InsertedBelow(b: seq<byte>, hs: nat, index: nat, cell: seq<byte>, n: nat, content: nat)
    requires index <= n < 65535 && PtrAt(hs, n + 1) + |cell| <= content <= |b| <= 65536
    ensures forall i :: 0 <= i <= hs ==> Inserted(b, hs, index, cell, n, content)[i] == b[i]
  {
    hide BE16, Put;
    var start := content - |cell|;
    var b1 := Put(b, start, cell);
    var b2 := MovedUp(b1, hs, index, n);
    var b3 := Put(b2, PtrAt(hs, index), BE16(start % 65536));
    var b4 := Put(b3, hs + 5, BE16(StoredStart(start)));
    var r := Inserted(b, hs, index, cell, n, content);
    PutElsewhere(b, start, cell, 0, hs + 1);
    PutElsewhere(b1, PtrAt(hs, index + 1), b1[PtrAt(hs, index)..PtrAt(hs, n)], 0, hs + 1);
    PutElsewhere(b2, PtrAt(hs, index), BE16(start % 65536), 0, hs + 1);
    PutElsewhere(b3, hs + 5, BE16(StoredStart(start)), 0, hs + 1);
    PutElsewhere(b4, hs + 3, BE16(n + 1), 0, hs + 1);
    forall i | 0 <= i <= hs ensures r[i] == b[i] { assert r[0..hs + 1][i] == b[0..hs + 1][i]; }
  }
}
