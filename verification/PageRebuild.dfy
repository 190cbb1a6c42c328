/** Laying a leaf page out afresh from its cells, and reading the cells back. */
module PageRebuild {
  import opened Bytes
  import opened Cells
  import opened TreePages
  import opened PageLayout
  import opened SpliceInsert

  function Joined(cells: seq<seq<byte>>): (r: seq<byte>)
  {
    if cells == [] then [] else cells[0] + Joined(cells[1..])
  }

  /** Where cell `i` starts when the cells fill the end of a page of `size` bytes. */
  function StartOf(size: nat, cells: seq<seq<byte>>, i: nat): int
    requires i <= |cells|
  {
    size - |Joined(cells[i..])|
  }

  predicate Fits(size: nat, hs: nat, cells: seq<seq<byte>>)
  {
    PtrAt(hs, |cells|) + |Joined(cells)| <= size <= 65536
  }

  lemma {:induction false} BytesAppend(a: seq<seq<byte>>, b: seq<seq<byte>>)
    ensures Joined(a + b) == Joined(a) + Joined(b)
  {
    if a == [] {
      assert a + b == b;
    } else {
      assert (a + b)[1..] == a[1..] + b;
      BytesAppend(a[1..], b);
    }
  }

  lemma Starts(size: nat, hs: nat, cells: seq<seq<byte>>, i: nat)
    requires Fits(size, hs, cells) && i <= |cells|
    ensures PtrAt(hs, |cells|) <= StartOf(size, cells, i) <= size
    ensures i < |cells| ==> StartOf(size, cells, i + 1) == StartOf(size, cells, i) + |cells[i]|
    ensures i < |cells| ==> Joined(cells[i..]) == cells[i] + Joined(cells[i + 1..])
  {
    hide Joined;
    assert cells == cells[..i] + cells[i..];
    BytesAppend(cells[..i], cells[i..]);
    if i < |cells| {
      assert cells[i..][1..] == cells[i + 1..];
      UnfoldBytes(cells[i..]);
    }
  }

  lemma UnfoldBytes(cells: seq<seq<byte>>)
    requires cells != []
    ensures Joined(cells) == cells[0] + Joined(cells[1..])
  {
  }

  /** The pointer array of the first `n` cells. */
  function Pointers(size: nat, cells: seq<seq<byte>>, n: nat): (r: seq<byte>)
    requires n <= |cells|
    ensures |r| == 2 * n
  {
    if n == 0 then [] else Pointers(size, cells, n - 1) + BE16(StartOf(size, cells, n - 1) % 65536)
  }

  lemma {:induction false} PointerEntry(size: nat, cells: seq<seq<byte>>, n: nat, i: nat)
    requires i < n <= |cells|
    ensures Pointers(size, cells, n)[2 * i..2 * i + 2] == BE16(StartOf(size, cells, i) % 65536)
  {
    hide BE16, StartOf;
    if i < n - 1 {
      PointerEntry(size, cells, n - 1, i);
      assert Pointers(size, cells, n)[2 * i..2 * i + 2] == Pointers(size, cells, n - 1)[2 * i..2 * i + 2];
    }
  }

  // -------------------------------------------------------------------- the page

  function HeaderBytes(kind: byte, n: nat, content: nat): (r: seq<byte>)
    requires content <= 65536
    ensures |r| == 8
  {
    [kind, 0, 0] + BE16(n % 65536) + BE16(StoredStart(content)) + [0]
  }

  /** The file header of page 1, if any, the page header, the pointers, a gap of zeros and
      the cells up to the end. */
  function Rebuilt(prefix: seq<byte>, size: nat, kind: byte, cells: seq<seq<byte>>): (r: seq<byte>)
    requires Fits(size, |prefix|, cells)
    ensures |r| == size
  {
    Starts(size, |prefix|, cells, 0);
    assert cells[0..] == cells;
    prefix + HeaderBytes(kind, |cells|, StartOf(size, cells, 0)) + Pointers(size, cells, |cells|)
      + Zeros(StartOf(size, cells, 0) - PtrAt(|prefix|, |cells|)) + Joined(cells)
  }

  function RebuiltLayout(size: nat, hs: nat, cells: seq<seq<byte>>): (l: Layout)
    requires Fits(size, hs, cells)
    ensures |l.cells| == |cells|
  {
    Starts(size, hs, cells, 0);
    Layout(seq(|cells|, i requires 0 <= i < |cells| => Starts(size, hs, cells, i); Extent(StartOf(size, cells, i), |cells[i]|)),
           [], StartOf(size, cells, 0))
  }

  lemma RebuiltFront(prefix: seq<byte>, size: nat, kind: byte, cells: seq<seq<byte>>)
    requires Fits(size, |prefix|, cells)
    ensures 0 <= StartOf(size, cells, 0) <= 65536
    ensures var r, hs := Rebuilt(prefix, size, kind, cells), |prefix|;
            r[..hs] == prefix && r[hs..hs + 8] == HeaderBytes(kind, |cells|, StartOf(size, cells, 0))
  {
    hide Pointers, Joined, Zeros, StartOf, HeaderBytes;
    Starts(size, |prefix|, cells, 0);
  }

  lemma HeaderFields(kind: byte, n: nat, content: nat)
    requires content <= 65536
    ensures var h := HeaderBytes(kind, n, content);
            h[0..3] == [kind, 0, 0] && h[3..5] == BE16(n % 65536) && h[5..7] == BE16(content % 65536) && h[7..8] == [0]
  {
    hide BE16;
  }

  lemma RebuiltBack(prefix: seq<byte>, size: nat, kind: byte, cells: seq<seq<byte>>)
    requires Fits(size, |prefix|, cells)
    ensures 0 <= StartOf(size, cells, 0) <= size && |prefix| + 8 + 2 * |cells| <= size
    ensures var r, hs := Rebuilt(prefix, size, kind, cells), |prefix|;
            r[hs + 8..hs + 8 + 2 * |cells|] == Pointers(size, cells, |cells|) && r[StartOf(size, cells, 0)..] == Joined(cells)
  {
    hide Pointers, Joined, Zeros, StartOf, HeaderBytes;
    Starts(size, |prefix|, cells, 0);
  }

  /** Where everything stands on a rebuilt page: kind, no freeblock, cell count, start of the
      content and no fragment in eight bytes, then the pointers, and at the end the cells. */
  lemma RebuiltBytes(prefix: seq<byte>, size: nat, kind: byte, cells: seq<seq<byte>>)
    requires Fits(size, |prefix|, cells)
    ensures 0 <= StartOf(size, cells, 0) <= size && |prefix| + 8 + 2 * |cells| <= size
    ensures var r, hs, start := Rebuilt(prefix, size, kind, cells), |prefix|, StartOf(size, cells, 0);
            && r[..hs] == prefix && r[hs..hs + 3] == [kind, 0, 0] && r[hs + 3..hs + 5] == BE16(|cells| % 65536)
            && r[hs + 5..hs + 7] == BE16(start % 65536) && r[hs + 7..hs + 8] == [0] && r[start..] == Joined(cells)
  {
    hide BE16, Pointers, Joined, StartOf, Rebuilt, HeaderBytes;
    RebuiltFront(prefix, size, kind, cells);
    RebuiltBack(prefix, size, kind, cells);
    var h := HeaderBytes(kind, |cells|, StartOf(size, cells, 0));
    HeaderFields(kind, |cells|, StartOf(size, cells, 0));
    FourParts(Rebuilt(prefix, size, kind, cells), |prefix|, h);
  }

  lemma FourParts(r: seq<byte>, hs: nat, h: seq<byte>)
    requires hs + 8 <= |r| && |h| == 8 && r[hs..hs + 8] == h
    ensures r[hs..hs + 3] == h[0..3] && r[hs + 3..hs + 5] == h[3..5] && r[hs + 5..hs + 7] == h[5..7] && r[hs + 7..hs + 8] == h[7..8]
  {
    Within(r, hs, h, 0, 3);
    Within(r, hs, h, 3, 5);
    Within(r, hs, h, 5, 7);
    Within(r, hs, h, 7, 8);
  }

  /** Pointer `i` says where cell `i` starts. */
  lemma RebuiltPointer(prefix: seq<byte>, size: nat, kind: byte, cells: seq<seq<byte>>, i: nat)
    requires Fits(size, |prefix|, cells) && i < |cells|
    ensures |prefix| + 8 + 2 * |cells| <= size
    ensures var at := |prefix| + 8 + 2 * i; Rebuilt(prefix, size, kind, cells)[at..at + 2] == BE16(StartOf(size, cells, i) % 65536)
  {
    hide BE16, Pointers, Joined, StartOf, Rebuilt;
    RebuiltBack(prefix, size, kind, cells);
    PointerEntry(size, cells, |cells|, i);
    Within(Rebuilt(prefix, size, kind, cells), |prefix| + 8, Pointers(size, cells, |cells|), 2 * i, 2 * i + 2);
  }

  lemma RebuiltHeader(prefix: seq<byte>, size: nat, kind: byte, cells: seq<seq<byte>>)
    requires Fits(size, |prefix|, cells)
    ensures var r, hs := Rebuilt(prefix, size, kind, cells), |prefix|;
            && r[..hs] == prefix && r[hs] == kind && r[hs + 7] == 0
            && FirstFreeblock(r, hs) == 0 && NumCells(r, hs) == |cells| && ContentStart(r, hs) == StartOf(size, cells, 0)
  {
    hide Rebuilt, BE16, U16At, StartOf;
    RebuiltFront(prefix, size, kind, cells);
    Starts(size, |prefix|, cells, 0);
    var r, hs := Rebuilt(prefix, size, kind, cells), |prefix|;
    var h := HeaderBytes(kind, |cells|, StartOf(size, cells, 0));
    Within(r, hs, h, 3, 5);
    Within(r, hs, h, 5, 7);
    Within(r, hs, h, 1, 3);
    ReadBack16(r, hs + 3, |cells|);
    ReadBack16(r, hs + 5, StoredStart(StartOf(size, cells, 0)));
    assert h[1..3] == [0, 0] == BE16(0) by { ZeroField(); }
    ReadBack16(r, hs + 1, 0);
    assert r[hs] == r[hs..hs + 8][0] && r[hs + 7] == r[hs..hs + 8][7];
  }

  lemma ZeroField()
    ensures BE16(0) == [0, 0]
  {
  }

  lemma RebuiltCell(prefix: seq<byte>, size: nat, kind: byte, cells: seq<seq<byte>>, i: nat)
    requires Fits(size, |prefix|, cells) && i < |cells| && |cells[i]| > 0
    ensures StartOf(size, cells, i) >= 0 && StartOf(size, cells, i) + |cells[i]| <= size
    ensures var r := Rebuilt(prefix, size, kind, cells);
            && r[StartOf(size, cells, i)..StartOf(size, cells, i) + |cells[i]|] == cells[i]
            && U16At(r, PtrAt(|prefix|, i)) == StartOf(size, cells, i)
  {
    hide Pointers, Joined, BE16, Zeros, U16At, HeaderBytes;
    var r, hs := Rebuilt(prefix, size, kind, cells), |prefix|;
    var at := StartOf(size, cells, i);
    Starts(size, hs, cells, 0);
    Starts(size, hs, cells, i);
    Starts(size, hs, cells, i + 1);
    assert cells[0..] == cells;
    TailBytes(r, size, cells, i);
    assert r[PtrAt(hs, 0)..PtrAt(hs, |cells|)] == Pointers(size, cells, |cells|);
    PointerEntry(size, cells, |cells|, i);
    Within(r, PtrAt(hs, 0), Pointers(size, cells, |cells|), 2 * i, 2 * i + 2);
    ReadBack16(r, PtrAt(hs, i), at % 65536);
  }

  lemma TailBytes(r: seq<byte>, size: nat, cells: seq<seq<byte>>, i: nat)
    requires |r| == size && i < |cells| && 0 <= StartOf(size, cells, 0) && r[StartOf(size, cells, 0)..] == Joined(cells[0..])
    requires 0 <= StartOf(size, cells, i) && StartOf(size, cells, i) + |cells[i]| <= size
    ensures r[StartOf(size, cells, i)..StartOf(size, cells, i) + |cells[i]|] == cells[i]
  {
    assert cells[0..] == cells == cells[..i] + ([cells[i]] + cells[i + 1..]);
    BytesAppend(cells[..i], [cells[i]] + cells[i + 1..]);
    BytesAppend([cells[i]], cells[i + 1..]);
    assert cells[i..] == [cells[i]] + cells[i + 1..];
    var m := |Joined(cells[..i])|;
    Within(r, StartOf(size, cells, 0), Joined(cells), m, m + |cells[i]|);
  }

  lemma {:induction false} CellTotal(size: nat, hs: nat, cells: seq<seq<byte>>, i: nat)
    requires Fits(size, hs, cells) && i <= |cells|
    ensures Total(RebuiltLayout(size, hs, cells).cells[i..]) == |Joined(cells[i..])|
    decreases |cells| - i
  {
    hide Joined;
    var es := RebuiltLayout(size, hs, cells).cells;
    if i < |cells| {
      CellTotal(size, hs, cells, i + 1);
      Starts(size, hs, cells, i);
      assert es[i..][1..] == es[i + 1..];
    } else {
      assert es[i..] == [] && cells[i..] == [];
      NoBytes();
    }
  }

  lemma NoBytes()
    ensures Joined([]) == []
  {
  }

  lemma {:induction false} StartsAscend(size: nat, hs: nat, cells: seq<seq<byte>>, i: nat, j: nat)
    requires Fits(size, hs, cells) && i < j <= |cells|
    ensures StartOf(size, cells, i) + |cells[i]| <= StartOf(size, cells, j)
    decreases j - i
  {
    hide StartOf;
    Starts(size, hs, cells, i);
    if i + 1 < j {
      StartsAscend(size, hs, cells, i + 1, j);
    }
  }

  /** Nothing but cells in the content area, and no fragments. */
  lemma RebuiltTiled(size: nat, hs: nat, cells: seq<seq<byte>>)
    requires Fits(size, hs, cells) && forall i :: 0 <= i < |cells| ==> |cells[i]| > 0
    ensures Tiled(RebuiltLayout(size, hs, cells), hs, size) && Slack(RebuiltLayout(size, hs, cells), size) == 0
  {
    hide StartOf, Joined, Total;
    var l := RebuiltLayout(size, hs, cells);
    Starts(size, hs, cells, 0);
    CellTotal(size, hs, cells, 0);
    assert l.cells[0..] == l.cells;
    AllBytes(size, cells);
    forall i | 0 <= i < |l.cells| ensures Inside(l.cells[i], l.content, size) && l.cells[i].len > 0 {
      Starts(size, hs, cells, i);
      Starts(size, hs, cells, i + 1);
      if i > 0 { StartsAscend(size, hs, cells, 0, i); }
    }
    forall i, j | 0 <= i < j < |l.cells| ensures Apart(l.cells[i], l.cells[j]) {
      StartsAscend(size, hs, cells, i, j);
    }
  }

  lemma AllBytes(size: nat, cells: seq<seq<byte>>)
    ensures StartOf(size, cells, 0) == size - |Joined(cells[0..])|
    ensures Total([]) == 0
  {
  }

  ghost predicate Cellular(cells: seq<seq<byte>>, k: Kind)
  {
    forall i :: 0 <= i < |cells| ==> CellLen(cells[i], k) == Ok(|cells[i]|)
  }

  /** Rebuilding, then reading the cells, gives the cells back. */
  lemma RebuiltOk(prefix: seq<byte>, size: nat, kind: byte, cells: seq<seq<byte>>, k: Kind)
    requires Fits(size, |prefix|, cells) && Cellular(cells, k)
    ensures var r, l := Rebuilt(prefix, size, kind, cells), RebuiltLayout(size, |prefix|, cells);
            && WellFormed(r, |prefix|, k, l) && (forall i :: 0 <= i < |l.cells| ==> l.cells[i].End() <= size)
            && CellsOf(r, l.cells) == cells
  {
    hide Rebuilt, U16At, CellLen, StartOf, Joined, Tiled, Slack;
    var r, hs, l := Rebuilt(prefix, size, kind, cells), |prefix|, RebuiltLayout(size, |prefix|, cells);
    RebuiltHeader(prefix, size, kind, cells);
    forall i | 0 <= i < |cells| ensures |cells[i]| > 0 { assert CellLen(cells[i], k) == Ok(|cells[i]|); }
    RebuiltTiled(size, hs, cells);
    forall i | 0 <= i < |cells|
      ensures PointsTo(r, hs, i, l.cells[i]) && CellAt(r, k, l.cells[i]) && CellBytesOf(r, l.cells[i]) == cells[i]
    {
      RebuiltCell(prefix, size, kind, cells, i);
      NewCellReads(r, k, l.cells[i], cells[i]);
    }
    assert CellsOf(r, l.cells) == cells;
  }

  lemma {:induction false} JoinedLength(es: seq<Extent>, cells: seq<seq<byte>>)
    requires |es| == |cells| && forall i :: 0 <= i < |es| ==> |cells[i]| == es[i].len
    ensures |Joined(cells)| == Total(es)
  {
    if cells != [] {
      JoinedLength(es[1..], cells[1..]);
    }
  }

  /** Whenever the splice succeeds, rebuilding the page from the old cells and the new one
      would have fitted too, and leaves the same cells in the same order. */
  lemma SpliceRefinesRebuild(b: seq<byte>, hs: nat, k: Kind, l: Layout, index: nat, cell: seq<byte>)
    requires WellFormed(b, hs, k, l) && index <= |l.cells| && HasGap(l, hs, |cell|) && CellLen(cell, k) == Ok(|cell|)
    ensures |l.cells| < 65535 && l.content <= |b| <= 65536 && forall i :: 0 <= i < |l.cells| ==> l.cells[i].End() <= |b|
    ensures var old_ := CellsOf(b, l.cells);
            var cells := old_[..index] + [cell] + old_[index..];
            var m := NewLayout(l, index, |cell|);
            && Fits(|b|, hs, cells) && Cellular(cells, k)
            && (forall i :: 0 <= i < |m.cells| ==> m.cells[i].End() <= |b|)
            && CellsOf(Inserted(b, hs, index, cell, |l.cells|, l.content), m.cells) == cells
            && (forall i :: 0 <= i < |RebuiltLayout(|b|, hs, cells).cells| ==> RebuiltLayout(|b|, hs, cells).cells[i].End() <= |b|)
            && CellsOf(Rebuilt(b[..hs], |b|, b[hs], cells), RebuiltLayout(|b|, hs, cells).cells) == cells
  {
    hide Reads, Tiled, CellLen, Inserted, U16At, Rebuilt, RebuiltLayout;
    PageShape(b, hs, k, l);
    InsertedOk(b, hs, k, l, index, cell);
    var r, m := Inserted(b, hs, index, cell, |l.cells|, l.content), NewLayout(l, index, |cell|);
    var cells := CellsOf(r, m.cells);
    JoinedLength(m.cells, cells);
    InsertedFits(r, hs, k, m);
    RebuiltOk(b[..hs], |b|, b[hs], cells, k);
  }

  lemma InsertedFits(r: seq<byte>, hs: nat, k: Kind, m: Layout)
    requires WellFormed(r, hs, k, m)
    ensures PtrAt(hs, |m.cells|) + Total(m.cells) <= |r| <= 65536
    ensures forall i :: 0 <= i < |m.cells| ==> m.cells[i].End() <= |r| && CellLen(CellBytesOf(r, m.cells[i]), k) == Ok(m.cells[i].len)
  {
    hide CellLen, U16At, Chain, Total;
    forall i | 0 <= i < |m.cells| ensures m.cells[i].End() <= |r| && CellLen(CellBytesOf(r, m.cells[i]), k) == Ok(m.cells[i].len) {
      var e := m.cells[i];
      assert CellAt(r, k, e);
      var s, t := r[e.at..], CellBytesOf(r, e);
      assert s[..e.len] == t[..e.len];
      CellBytes(s, t, k);
    }
  }

  // ------------------------------------------------------------------- in place

  lemma PatchMiddle(x: seq<byte>, mid: seq<byte>, y: seq<byte>, data: seq<byte>)
    requires |mid| == |data|
    ensures Put(x + mid + y, |x|, data) == x + data + y
  {
  }

  lemma ZerosSplit(m: nat, n: nat)
    ensures Zeros(m + n) == Zeros(m) + Zeros(n)
  {
  }

  /** The page once the cells from `i` on are placed. */
  function Placed(prefix: seq<byte>, size: nat, kind: byte, cells: seq<seq<byte>>, i: nat): (r: seq<byte>)
    requires Fits(size, |prefix|, cells) && i <= |cells|
    ensures |r| == size
  {
    Starts(size, |prefix|, cells, i);
    prefix + [kind] + Zeros(StartOf(size, cells, i) - |prefix| - 1) + Joined(cells[i..])
  }

  lemma PlaceOne(prefix: seq<byte>, size: nat, kind: byte, cells: seq<seq<byte>>, i: nat)
    requires Fits(size, |prefix|, cells) && i < |cells|
    ensures var at := StartOf(size, cells, i);
            && 0 <= at && at + |cells[i]| <= size
            && Put(Placed(prefix, size, kind, cells, i + 1), at, cells[i]) == Placed(prefix, size, kind, cells, i)
  {
    hide Joined, Zeros, StartOf, Put;
    Starts(size, |prefix|, cells, i);
    Starts(size, |prefix|, cells, i + 1);
    var at, n := StartOf(size, cells, i), |cells[i]|;
    var front := prefix + [kind];
    ZerosSplit(at - |front|, n);
    assert Placed(prefix, size, kind, cells, i + 1) == (front + Zeros(at - |front|)) + Zeros(n) + Joined(cells[i + 1..]);
    PatchMiddle(front + Zeros(at - |front|), Zeros(n), Joined(cells[i + 1..]), cells[i]);
  }

  /** The page once the first `i` pointers are written as well. */
  function Pointed(prefix: seq<byte>, size: nat, kind: byte, cells: seq<seq<byte>>, i: nat): (r: seq<byte>)
    requires Fits(size, |prefix|, cells) && i <= |cells|
    ensures |r| == size
  {
    Starts(size, |prefix|, cells, 0);
    assert cells[0..] == cells;
    prefix + [kind] + Zeros(7) + Pointers(size, cells, i) + Zeros(StartOf(size, cells, 0) - PtrAt(|prefix|, i)) + Joined(cells)
  }

  lemma NonePointed(prefix: seq<byte>, size: nat, kind: byte, cells: seq<seq<byte>>)
    requires Fits(size, |prefix|, cells)
    ensures Pointed(prefix, size, kind, cells, 0) == Placed(prefix, size, kind, cells, 0)
  {
    hide Joined, StartOf, Zeros;
    Starts(size, |prefix|, cells, 0);
    assert cells[0..] == cells;
    ZerosSplit(7, StartOf(size, cells, 0) - PtrAt(|prefix|, 0));
  }

  lemma PointOne(prefix: seq<byte>, size: nat, kind: byte, cells: seq<seq<byte>>, i: nat)
    requires Fits(size, |prefix|, cells) && i < |cells|
    ensures Put(Pointed(prefix, size, kind, cells, i), PtrAt(|prefix|, i), BE16(StartOf(size, cells, i) % 65536))
         == Pointed(prefix, size, kind, cells, i + 1)
  {
    hide Joined, StartOf, Zeros, Put, BE16, Pointers;
    Starts(size, |prefix|, cells, 0);
    var rest := StartOf(size, cells, 0) - PtrAt(|prefix|, i + 1);
    ZerosSplit(2, rest);
    var front, x := prefix + [kind] + Zeros(7) + Pointers(size, cells, i), BE16(StartOf(size, cells, i) % 65536);
    PatchMiddle(front, Zeros(2), Zeros(rest) + Joined(cells), x);
    OneMorePointer(size, cells, i);
    Reassociate(front, Zeros(2), Zeros(rest), Joined(cells));
    Reassociate(front, x, Zeros(rest), Joined(cells));
    assert front + x == prefix + [kind] + Zeros(7) + Pointers(size, cells, i + 1);
  }

  lemma OneMorePointer(size: nat, cells: seq<seq<byte>>, i: nat)
    requires i < |cells|
    ensures Pointers(size, cells, i + 1) == Pointers(size, cells, i) + BE16(StartOf(size, cells, i) % 65536)
  {
    hide BE16, StartOf;
  }

  lemma Reassociate(a: seq<byte>, b: seq<byte>, c: seq<byte>, d: seq<byte>)
    ensures a + b + (c + d) == a + (b + c) + d == (a + b) + c + d
  {
  }

  /** The cell count, the content start and the fragment byte complete the page. */
  lemma HeaderWritten(prefix: seq<byte>, size: nat, kind: byte, cells: seq<seq<byte>>)
    requires Fits(size, |prefix|, cells)
    ensures 0 <= StartOf(size, cells, 0) <= 65536
    ensures var b1 := Put(Pointed(prefix, size, kind, cells, |cells|), |prefix| + 3, BE16(|cells| % 65536));
            var b2 := Put(b1, |prefix| + 5, BE16(StoredStart(StartOf(size, cells, 0))));
            Put(b2, |prefix| + 7, [0]) == Rebuilt(prefix, size, kind, cells)
  {
    hide Joined, StartOf, Put, BE16, Pointers, Zeros;
    Starts(size, |prefix|, cells, 0);
    var rest := Pointers(size, cells, |cells|) + Zeros(StartOf(size, cells, 0) - PtrAt(|prefix|, |cells|)) + Joined(cells);
    HeaderPatches(prefix, kind, BE16(|cells| % 65536), BE16(StoredStart(StartOf(size, cells, 0))), rest);
    assert Pointed(prefix, size, kind, cells, |cells|) == prefix + [kind] + Zeros(7) + rest;
  }

  lemma HeaderPatches(prefix: seq<byte>, kind: byte, n: seq<byte>, c: seq<byte>, rest: seq<byte>)
    requires |n| == 2 && |c| == 2
    ensures var b1 := Put(prefix + [kind] + Zeros(7) + rest, |prefix| + 3, n);
            var b2 := Put(b1, |prefix| + 5, c);
            Put(b2, |prefix| + 7, [0]) == prefix + ([kind, 0, 0] + n + c + [0]) + rest
  {
    hide Put;
    var b0, b1 := prefix + [kind] + Zeros(7) + rest, prefix + [kind, 0, 0] + n + ([0, 0, 0] + rest);
    assert b0 == (prefix + [kind, 0, 0]) + [0, 0] + ([0, 0, 0] + rest);
    PatchMiddle(prefix + [kind, 0, 0], [0, 0], [0, 0, 0] + rest, n);
    assert b1 == (prefix + [kind, 0, 0] + n) + [0, 0] + ([0] + rest);
    PatchMiddle(prefix + [kind, 0, 0] + n, [0, 0], [0] + rest, c);
    var b2 := prefix + [kind, 0, 0] + n + c + ([0] + rest);
    assert b2 == (prefix + [kind, 0, 0] + n + c) + [0] + rest;
    PatchMiddle(prefix + [kind, 0, 0] + n + c, [0], rest, [0]);
  }

  /** A write with the bounds check of the page buffer. */
  method TryStore(buf: array<byte>, at: nat, data: seq<byte>) returns (ok: bool)
    modifies buf
    ensures ok <==> at + |data| <= buf.Length
    ensures buf[..] == if ok then Put(old(buf[..]), at, data) else old(buf[..])
  {
    ok := at + |data| <= buf.Length;
    if ok { Store(buf, at, data); }
  }

  /** Lays the page out from `cells`. If they fit, exactly that is on the page, behind the
      file header before `hs`; if not, some write may be refused, but need not be. */
  method WriteLeafPage(buf: array<byte>, hs: nat, kind: byte, cells: seq<seq<byte>>) returns (r: Result<(), TreeError>)
    modifies buf
    ensures Fits(buf.Length, hs, cells) ==> r.Ok? && buf[..] == Rebuilt(old(buf[..hs]), buf.Length, kind, cells)
    ensures hs >= buf.Length ==> r.Err?
  {
    hide Joined, StartOf, Put, BE16, Pointers, Pointed, Placed, Rebuilt, Zeros, Fits;
    ghost var fits := Fits(buf.Length, hs, cells);
    if fits { HeaderFits(buf.Length, hs, cells); }
    if hs >= buf.Length {
      return Err(PageTooShort);
    }
    ghost var prefix := buf[..hs];
    Blank(buf, hs, kind, cells);
    r := PlaceCells(buf, hs, kind, cells, prefix);
  }

  /** The cells from the end of the page backwards, then their pointers, then the header. */
  method PlaceCells(buf: array<byte>, hs: nat, kind: byte, cells: seq<seq<byte>>, ghost prefix: seq<byte>) returns (r: Result<(), TreeError>)
    requires Fits(buf.Length, hs, cells) ==> |prefix| == hs && buf[..] == Placed(prefix, buf.Length, kind, cells, |cells|)
    modifies buf
    ensures Fits(buf.Length, hs, cells) ==> r.Ok? && buf[..] == Rebuilt(prefix, buf.Length, kind, cells)
  {
    hide Joined, StartOf, Put, BE16, Pointers, Pointed, Placed, Rebuilt, Zeros, Fits;
    ghost var fits := Fits(buf.Length, hs, cells);
    var content: nat := buf.Length;
    AllPlaced(buf.Length, cells);
    var offsets: seq<nat> := [];
    var i := |cells|;
    while i > 0
      invariant 0 <= i <= |cells| && |offsets| == |cells| - i && content <= buf.Length
      invariant forall j :: 0 <= j < |offsets| ==> offsets[j] <= buf.Length
      invariant fits ==> content == StartOf(buf.Length, cells, i)
      invariant fits ==> buf[..] == Placed(prefix, buf.Length, kind, cells, i)
      invariant fits ==> forall j :: 0 <= j < |offsets| ==> offsets[j] == StartOf(buf.Length, cells, i + j)
    {
      i := i - 1;
      if fits {
        Starts(buf.Length, hs, cells, i);
        PlaceOne(prefix, buf.Length, kind, cells, i);
      }
      content := if content >= |cells[i]| then content - |cells[i]| else 0;
      var ok := TryStore(buf, content, cells[i]);
      if !ok {
        return Err(PageTooShort);
      }
      offsets := [content] + offsets;
    }
    if fits {
      HeaderFits(buf.Length, hs, cells);
      NonePointed(prefix, buf.Length, kind, cells);
    }
    for j := 0 to |offsets|
      invariant fits ==> buf[..] == Pointed(prefix, buf.Length, kind, cells, j)
    {
      var offset: u16 := if offsets[j] >= 65536 then 0 else offsets[j];
      if fits {
        PointOne(prefix, buf.Length, kind, cells, j);
        assert offset == offsets[j] % 65536;
      }
      var ok := TryStore(buf, PtrAt(hs, j), BE16(offset));
      if !ok {
        return Err(PageTooShort);
      }
    }
    if fits { HeaderWritten(prefix, buf.Length, kind, cells); }
    var count := TryStore(buf, hs + 3, BE16(|cells| % 65536));
    if !count {
      return Err(PageTooShort);
    }
    var start := TryStore(buf, hs + 5, BE16(if content >= 65536 then 0 else content));
    if !start {
      return Err(PageTooShort);
    }
    var fragments := TryStore(buf, hs + 7, [0]);
    return if fragments then Ok(()) else Err(PageTooShort);
  }

  lemma HeaderFits(size: nat, hs: nat, cells: seq<seq<byte>>)
    requires Fits(size, hs, cells)
    ensures hs + 8 <= PtrAt(hs, |cells|) <= size <= 65536
  {
  }

  lemma AllPlaced(size: nat, cells: seq<seq<byte>>)
    ensures StartOf(size, cells, |cells|) == size
  {
  }

  /** Clears the b-tree part of the page and writes its type. */
  method Blank(buf: array<byte>, hs: nat, kind: byte, ghost cells: seq<seq<byte>>)
    requires hs < buf.Length
    modifies buf
    ensures Fits(buf.Length, hs, cells) ==> buf[..] == Placed(old(buf[..hs]), buf.Length, kind, cells, |cells|)
  {
    AllPlaced(buf.Length, cells);
    for i := hs to buf.Length
      invariant buf[..] == old(buf[..hs]) + Zeros(i - hs) + old(buf[..])[i..]
    {
      buf[i] := 0;
    }
    buf[hs] := kind;
    assert buf[..] == old(buf[..hs]) + [kind] + Zeros(buf.Length - hs - 1);
  }

  // ------------------------------------------------------------- reading it back

  /** Every cell of a table leaf, with its rowid. */
  method CollectLeafCells(b: seq<byte>, hs: nat, usable: nat, ghost l: Layout) returns (r: Result<seq<(int, seq<byte>)>, CellError>)
    requires hs + 8 <= |b|
    ensures WellFormed(b, hs, Kind(usable, true), l) ==>
              && r.Ok? && |r.value| == |l.cells| && (forall i :: 0 <= i < |l.cells| ==> l.cells[i].End() <= |b|)
              && forall i :: 0 <= i < |l.cells| ==> r.value[i].1 == CellBytesOf(b, l.cells[i]) && HasRowid(r.value[i])
  {
    hide U16At, LocalPayloadSize, WellFormed, CellHead;
    ghost var k := Kind(usable, true);
    ghost var good := WellFormed(b, hs, k, l);
    var n := NumCells(b, hs);
    if good { PageShape(b, hs, k, l); }
    var out: seq<(int, seq<byte>)> := [];
    for i := 0 to n
      invariant |out| == i
      invariant good ==> forall j :: 0 <= j < i ==> l.cells[j].End() <= |b| && out[j].1 == CellBytesOf(b, l.cells[j]) && HasRowid(out[j])
    {
      if good { LeafCell(b, hs, k, l, i); }
      var at := PtrAt(hs, i);
      if at + 2 > |b| {
        return Err(InvalidCellPointer);
      }
      var start := U16At(b, at);
      if start > |b| {
        return Err(InvalidCellPointer);
      }
      var head := CellHead(b[start..], true);
      if head.Err? {
        return Err(head.error);
      }
      var local := LocalPayloadSize(usable, head.value.0, false);
      var end := start + head.value.2 + local + if local < head.value.0 then 4 else 0;
      if end > |b| {
        return Err(PayloadTooShort);
      }
      if good { RowidOf(b, l.cells[i], head.value); }
      out := out + [(Signed(head.value.1), b[start..end])];
    }
    return Ok(out);
  }

  /** The rowid is the one the cell's own bytes carry. */
  ghost predicate HasRowid(e: (int, seq<byte>))
  {
    CellHead(e.1, true).Ok? && e.0 == Signed(CellHead(e.1, true).value.1)
  }

  lemma LeafCell(b: seq<byte>, hs: nat, k: Kind, l: Layout, i: nat)
    requires WellFormed(b, hs, k, l) && i < |l.cells|
    ensures PtrAt(hs, i) + 2 <= |b| && U16At(b, PtrAt(hs, i)) == l.cells[i].at && l.cells[i].End() <= |b|
    ensures CellHead(b[l.cells[i].at..], k.hasRowid).Ok?
    ensures var head := CellHead(b[l.cells[i].at..], k.hasRowid).value;
            var local := LocalPayloadSize(k.usable, head.0, !k.hasRowid);
            l.cells[i].len == head.2 + local + if local < head.0 then 4 else 0
  {
    hide U16At, Chain, LocalPayloadSize, Tiled, CellHead;
    assert PointsTo(b, hs, i, l.cells[i]) && CellAt(b, k, l.cells[i]);
  }

  lemma RowidOf(b: seq<byte>, e: Extent, head: (nat, nat, nat))
    requires e.End() <= |b| && CellHead(b[e.at..], true) == Ok(head) && head.2 <= e.len
    ensures CellHead(b[e.at..e.End()], true) == Ok(head)
  {
    hide DecodeVarint, CellHead;
    var s, t := b[e.at..], b[e.at..e.End()];
    assert s[..head.2] == t[..head.2];
    HeadBytes(s, t, true);
  }
}
