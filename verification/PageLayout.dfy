/** The slotted b-tree leaf page: header, pointer array, cells, freeblocks and fragments,
    and when together they account for every byte. */
module PageLayout {
  import opened Bytes
  import opened Cells

  const LEAF_TABLE: byte := 13
  const MIN_FREEBLOCK_SIZE: nat := 4
  const MAX_FREEBLOCKS: nat := 10_000

  datatype Extent = Extent(at: nat, len: nat) {
    function End(): nat { at + len }
  }

  /** Where the cells lie, in pointer order, where the freeblocks lie, in chain order, and
      where the content area begins. */
  datatype Layout = Layout(cells: seq<Extent>, blocks: seq<Extent>, content: nat)

  // ----------------------------------------------------------------- header fields

  function NumCells(b: seq<byte>, hs: nat): u16
    requires hs + 8 <= |b|
  {
    U16At(b, hs + 3)
  }

  function PtrAt(hs: nat, i: nat): nat { hs + 8 + 2 * i }

  /** A stored 0 stands for 65536, the one value the field cannot hold. */
  function ContentStart(b: seq<byte>, hs: nat): nat
    requires hs + 8 <= |b|
  {
    if U16At(b, hs + 5) == 0 then 65536 else U16At(b, hs + 5)
  }

  function StoredStart(content: nat): u16
    requires content <= 65536
  {
    if content == 65536 then 0 else content
  }

  function FirstFreeblock(b: seq<byte>, hs: nat): u16
    requires hs + 8 <= |b|
  {
    U16At(b, hs + 1)
  }

  // ------------------------------------------------------------------ what it reads

  /** From offset `off` the freeblock chain runs through exactly `blocks`. */
  ghost predicate Chain(b: seq<byte>, off: nat, blocks: seq<Extent>)
    decreases |blocks|
  {
    if blocks == [] then off == 0
    else
      && off == blocks[0].at && off != 0 && off + 4 <= |b|
      && U16At(b, off + 2) == blocks[0].len && Chain(b, U16At(b, off), blocks[1..])
  }

  ghost predicate CellAt(b: seq<byte>, k: Kind, e: Extent)
  {
    e.End() <= |b| && CellLen(b[e.at..], k) == Ok(e.len)
  }

  ghost predicate PointsTo(b: seq<byte>, hs: nat, i: nat, e: Extent)
  {
    PtrAt(hs, i) + 2 <= |b| && U16At(b, PtrAt(hs, i)) == e.at
  }

  /** The pointer array leads to exactly these cells. */
  ghost predicate ReadsCells(b: seq<byte>, hs: nat, k: Kind, cells: seq<Extent>)
  {
    && hs + 8 <= |b| <= 65536 && NumCells(b, hs) == |cells|
    && (forall i :: 0 <= i < |cells| ==> PointsTo(b, hs, i, cells[i]))
    && (forall i :: 0 <= i < |cells| ==> CellAt(b, k, cells[i]))
  }

  /** The page's bytes read as `l`. */
  ghost predicate Reads(b: seq<byte>, hs: nat, k: Kind, l: Layout)
  {
    && ReadsCells(b, hs, k, l.cells) && ContentStart(b, hs) == l.content
    && Chain(b, FirstFreeblock(b, hs), l.blocks)
  }

  // ----------------------------------------------------------- how the space is used

  predicate Apart(a: Extent, b: Extent) { a.End() <= b.at || b.End() <= a.at }

  predicate Inside(e: Extent, lo: nat, hi: nat) { lo <= e.at && e.End() <= hi }

  /** Cells lie in the content area and do not overlap. */
  ghost predicate Packed(cells: seq<Extent>, lo: nat, hi: nat)
  {
    && (forall i :: 0 <= i < |cells| ==> Inside(cells[i], lo, hi) && cells[i].len > 0)
    && (forall i, j :: 0 <= i < j < |cells| ==> Apart(cells[i], cells[j]))
  }

  /** Freeblocks ascend, hold their own header and never touch one another. */
  ghost predicate Spaced(blocks: seq<Extent>, lo: nat, hi: nat)
  {
    && (forall i :: 0 <= i < |blocks| ==> Inside(blocks[i], lo, hi) && blocks[i].len >= MIN_FREEBLOCK_SIZE)
    && (forall i, j :: 0 <= i < j < |blocks| ==> blocks[i].End() < blocks[j].at)
  }

  ghost predicate Clear(cells: seq<Extent>, blocks: seq<Extent>)
  {
    forall i, j :: 0 <= i < |cells| && 0 <= j < |blocks| ==> Apart(cells[i], blocks[j])
  }

  function Total(es: seq<Extent>): nat
  {
    if es == [] then 0 else es[0].len + Total(es[1..])
  }

  function Slack(l: Layout, size: nat): int { size - l.content - Total(l.cells) - Total(l.blocks) }

  ghost predicate Tiled(l: Layout, hs: nat, size: nat)
  {
    && PtrAt(hs, |l.cells|) <= l.content <= size
    && Packed(l.cells, l.content, size) && Spaced(l.blocks, l.content, size) && Clear(l.cells, l.blocks)
    && Slack(l, size) >= 0
  }

  /** Cells, freeblocks and fragments are the content area, exactly as far as the one-byte
      fragment count can say. */
  ghost predicate WellFormed(b: seq<byte>, hs: nat, k: Kind, l: Layout)
  {
    Reads(b, hs, k, l) && Tiled(l, hs, |b|) && b[hs + 7] as int == Min(Slack(l, |b|), 255)
  }

  function CellBytesOf(b: seq<byte>, e: Extent): seq<byte>
    requires e.End() <= |b|
  {
    b[e.at..e.End()]
  }

  /** The cells themselves, in pointer order. */
  ghost function CellsOf(b: seq<byte>, es: seq<Extent>): (cs: seq<seq<byte>>)
    requires forall i :: 0 <= i < |es| ==> es[i].End() <= |b|
    ensures |cs| == |es|
  {
    seq(|es|, i requires 0 <= i < |es| => CellBytesOf(b, es[i]))
  }

  /** A page has one layout only. */
  lemma {:induction false} OneChain(b: seq<byte>, off: nat, xs: seq<Extent>, ys: seq<Extent>)
    requires Chain(b, off, xs) && Chain(b, off, ys)
    ensures xs == ys
    decreases |xs|
  {
    if xs != [] {
      OneChain(b, U16At(b, off), xs[1..], ys[1..]);
    }
  }

  lemma OneLayout(b: seq<byte>, hs: nat, k: Kind, l: Layout, m: Layout)
    requires Reads(b, hs, k, l) && Reads(b, hs, k, m)
    ensures l == m
  {
    hide U16At, CellLen;
    OneChain(b, FirstFreeblock(b, hs), l.blocks, m.blocks);
    assert |l.cells| == |m.cells|;
    forall i | 0 <= i < |l.cells| ensures l.cells[i] == m.cells[i] {
      assert PointsTo(b, hs, i, l.cells[i]) && PointsTo(b, hs, i, m.cells[i]);
      assert CellAt(b, k, l.cells[i]) && CellAt(b, k, m.cells[i]);
    }
    assert l.cells == m.cells;
  }

  // -------------------------------------------------------------------------- sums

  lemma {:induction false} TotalAppend(a: seq<Extent>, b: seq<Extent>)
    ensures Total(a + b) == Total(a) + Total(b)
  {
    if a == [] {
      assert a + b == b;
    } else {
      assert (a + b)[1..] == a[1..] + b;
      TotalAppend(a[1..], b);
    }
  }

  lemma TotalInsert(es: seq<Extent>, i: nat, e: Extent)
    requires i <= |es|
    ensures Total(es[..i] + [e] + es[i..]) == Total(es) + e.len
  {
    assert es == es[..i] + es[i..];
    TotalAppend(es[..i], es[i..]);
    TotalAppend(es[..i], [e]);
    TotalAppend(es[..i] + [e], es[i..]);
  }

  lemma TotalRemove(es: seq<Extent>, i: nat)
    requires i < |es|
    ensures Total(es[..i] + es[i + 1..]) == Total(es) - es[i].len
  {
    var rest := es[..i] + es[i + 1..];
    assert rest[..i] == es[..i] && rest[i..] == es[i + 1..];
    TotalInsert(rest, i, es[i]);
    assert es == rest[..i] + [es[i]] + rest[i..];
  }

  // ---------------------------------------------------------------- unchanged bytes

  lemma Field16(b: seq<byte>, c: seq<byte>, at: nat, at': nat)
    requires at + 2 <= |b| && at' + 2 <= |c| && b[at..at + 2] == c[at'..at' + 2]
    ensures U16At(b, at) == U16At(c, at')
  {
    assert b[at] == b[at..at + 2][0] && b[at + 1] == b[at..at + 2][1];
    assert c[at'] == c[at'..at' + 2][0] && c[at' + 1] == c[at'..at' + 2][1];
  }

  /** The bytes of a 16-bit field spell its value. */
  lemma FieldBytes(b: seq<byte>, at: nat)
    requires at + 2 <= |b|
    ensures BE16(U16At(b, at)) == b[at..at + 2]
  {
    var hi: int, lo: int := b[at], b[at + 1];
    assert (hi * 256 + lo) / 256 == hi && (hi * 256 + lo) % 256 == lo;
  }

  /** A cell whose bytes are the same still reads the same. */
  lemma CellKept(b: seq<byte>, c: seq<byte>, k: Kind, e: Extent)
    requires CellAt(b, k, e) && e.End() <= |c| && b[e.at..e.End()] == c[e.at..e.End()]
    ensures CellAt(c, k, e)
  {
    hide CellLen;
    assert b[e.at..][..e.len] == b[e.at..e.End()] && c[e.at..][..e.len] == c[e.at..e.End()];
    CellBytes(b[e.at..], c[e.at..], k);
  }

  /** A chain whose block headers are the same still reads the same. */
  lemma {:induction false} ChainKept(b: seq<byte>, c: seq<byte>, off: nat, blocks: seq<Extent>)
    requires Chain(b, off, blocks) && |b| == |c|
    requires forall i :: 0 <= i < |blocks| && blocks[i].at + 4 <= |b| ==> b[blocks[i].at..blocks[i].at + 4] == c[blocks[i].at..blocks[i].at + 4]
    ensures Chain(c, off, blocks)
    decreases |blocks|
  {
    hide U16At;
    if blocks != [] {
      var x := b[off..off + 4];
      assert b[off..off + 2] == x[..2] && b[off + 2..off + 4] == x[2..];
      assert c[off..off + 2] == x[..2] && c[off + 2..off + 4] == x[2..];
      Field16(b, c, off, off);
      Field16(b, c, off + 2, off + 2);
      forall i | 0 <= i < |blocks[1..]| && blocks[1..][i].at + 4 <= |b|
        ensures b[blocks[1..][i].at..blocks[1..][i].at + 4] == c[blocks[1..][i].at..blocks[1..][i].at + 4]
      {
        assert blocks[1..][i] == blocks[i + 1];
      }
      ChainKept(b, c, U16At(b, off), blocks[1..]);
    }
  }
}
