/** The freeblock chain of a page: walking it, writing it, and adding a freed range so
    that no two blocks touch. */
module Freeblocks {
  import opened Bytes
  import opened PageLayout
  import opened SpliceInsert

  // --------------------------------------------------------------------- walking

  datatype WalkError = TraversalTooLong

  /** Follows the chain, giving up after `MAX_FREEBLOCKS`. */
  method WalkFreeblocks(b: seq<byte>, hs: nat, ghost blocks: seq<Extent>) returns (r: Result<seq<Extent>, WalkError>)
    requires hs + 8 <= |b| && Chain(b, FirstFreeblock(b, hs), blocks)
    ensures r == if |blocks| <= MAX_FREEBLOCKS then Ok(blocks) else Err(TraversalTooLong)
  {
    hide U16At;
    var out: seq<Extent> := [];
    var off: nat := FirstFreeblock(b, hs);
    while off != 0
      invariant |out| <= |blocks| && |out| <= MAX_FREEBLOCKS && out == blocks[..|out|] && Chain(b, off, blocks[|out|..])
      decreases |blocks| - |out|
    {
      ghost var rest := blocks[|out|..];
      if |out| + 1 > MAX_FREEBLOCKS {
        return Err(TraversalTooLong);
      }
      var next, size := U16At(b, off), U16At(b, off + 2);
      out := out + [Extent(off, size)];
      assert blocks[|out|..] == rest[1..];
      off := next;
    }
    assert blocks[|out|..] == [];
    assert out == blocks;
    return Ok(out);
  }

  // --------------------------------------------------------------------- writing

  function NextOf(blocks: seq<Extent>, i: nat): nat { if i + 1 < |blocks| then blocks[i + 1].at else 0 }

  /** A block's own header: the next block and its size. */
  function LinkBytes(blocks: seq<Extent>, i: nat): (r: seq<byte>)
    requires i < |blocks|
    ensures |r| == 4
  {
    BE16(NextOf(blocks, i) % 65536) + BE16(blocks[i].len % 65536)
  }

  ghost predicate Linkable(blocks: seq<Extent>, lo: nat, size: nat) { Spaced(blocks, lo, size) && 0 < lo && size <= 65536 }

  /** The page once the first `n` headers are written. */
  ghost function Links(b: seq<byte>, blocks: seq<Extent>, n: nat): (r: seq<byte>)
    requires n <= |blocks| && Spaced(blocks, 0, |b|)
    ensures |r| == |b|
  {
    if n == 0 then b else Put(Links(b, blocks, n - 1), blocks[n - 1].at, LinkBytes(blocks, n - 1))
  }

  ghost function Linked(b: seq<byte>, hs: nat, blocks: seq<Extent>): (r: seq<byte>)
    requires hs + 8 <= |b| && Spaced(blocks, 0, |b|)
    ensures |r| == |b|
  {
    Put(Links(b, blocks, |blocks|), hs + 1, BE16((if blocks == [] then 0 else blocks[0].at) % 65536))
  }

  /** Bytes clear of every block header are untouched. */
  lemma {:induction false} LinksElsewhere(b: seq<byte>, blocks: seq<Extent>, n: nat, i: nat, j: nat)
    requires n <= |blocks| && Spaced(blocks, 0, |b|) && i <= j <= |b|
    requires forall t :: 0 <= t < n ==> j <= blocks[t].at || blocks[t].at + 4 <= i
    ensures Links(b, blocks, n)[i..j] == b[i..j]
  {
    hide Put, LinkBytes;
    if n > 0 {
      LinksElsewhere(b, blocks, n - 1, i, j);
      PutElsewhere(Links(b, blocks, n - 1), blocks[n - 1].at, LinkBytes(blocks, n - 1), i, j);
    }
  }

  lemma {:induction false} LinkEntry(b: seq<byte>, blocks: seq<Extent>, n: nat, i: nat)
    requires i < n <= |blocks| && Spaced(blocks, 0, |b|)
    ensures Links(b, blocks, n)[blocks[i].at..blocks[i].at + 4] == LinkBytes(blocks, i)
  {
    hide Put, LinkBytes;
    var before := Links(b, blocks, n - 1);
    if i == n - 1 {
      PutHere(before, blocks[i].at, LinkBytes(blocks, i));
    } else {
      LinkEntry(b, blocks, n - 1, i);
      PutElsewhere(before, blocks[n - 1].at, LinkBytes(blocks, n - 1), blocks[i].at, blocks[i].at + 4);
    }
  }

  lemma {:induction false} ChainFromLinks(c: seq<byte>, blocks: seq<Extent>, lo: nat, i: nat)
    requires Linkable(blocks, lo, |c|) && i <= |blocks|
    requires forall t :: 0 <= t < |blocks| ==> c[blocks[t].at..blocks[t].at + 4] == LinkBytes(blocks, t)
    ensures Chain(c, if i < |blocks| then blocks[i].at else 0, blocks[i..])
    decreases |blocks| - i
  {
    hide U16At, BE16;
    if i < |blocks| {
      var off := blocks[i].at;
      ChainFromLinks(c, blocks, lo, i + 1);
      assert blocks[i..][1..] == blocks[i + 1..];
      var x := LinkBytes(blocks, i);
      assert c[off..off + 4] == x;
      Within(c, off, x, 0, 2);
      Within(c, off, x, 2, 4);
      ReadBack16(c, off, NextOf(blocks, i) % 65536);
      ReadBack16(c, off + 2, blocks[i].len % 65536);
    }
  }

  /** Where the chain stands: the first block's offset in bytes 1 and 2 of the page header, and
      on each block the next one's offset, 0 at the end, and its own size. */
  lemma LinkedBytes(b: seq<byte>, hs: nat, blocks: seq<Extent>, lo: nat, t: nat)
    requires Linkable(blocks, lo, |b|) && hs + 8 <= lo && hs + 8 <= |b|
    ensures Spaced(blocks, 0, |b|)
    ensures Linked(b, hs, blocks)[hs + 1..hs + 3] == BE16((if blocks == [] then 0 else blocks[0].at) % 65536)
    ensures t < |blocks| ==>
              && blocks[t].at + 4 <= |b|
              && var d, at := Linked(b, hs, blocks), blocks[t].at;
              && d[at..at + 2] == BE16((if t + 1 < |blocks| then blocks[t + 1].at else 0) % 65536)
              && d[at + 2..at + 4] == BE16(blocks[t].len % 65536)
  {
    hide Put, BE16, Links, LinkBytes;
    var c, first := Links(b, blocks, |blocks|), BE16((if blocks == [] then 0 else blocks[0].at) % 65536);
    PutHere(c, hs + 1, first);
    if t < |blocks| {
      LinkEntry(b, blocks, |blocks|, t);
      PutElsewhere(c, hs + 1, first, blocks[t].at, blocks[t].at + 4);
      LinkParts(blocks, t);
      Within(Linked(b, hs, blocks), blocks[t].at, LinkBytes(blocks, t), 0, 2);
      Within(Linked(b, hs, blocks), blocks[t].at, LinkBytes(blocks, t), 2, 4);
    }
  }

  lemma LinkParts(blocks: seq<Extent>, t: nat)
    requires t < |blocks|
    ensures var e := LinkBytes(blocks, t);
            e[0..2] == BE16((if t + 1 < |blocks| then blocks[t + 1].at else 0) % 65536) && e[2..4] == BE16(blocks[t].len % 65536)
  {
    hide BE16;
    Parts(BE16(NextOf(blocks, t) % 65536), BE16(blocks[t].len % 65536), 2);
  }

  /** The chain just written is the chain read back. */
  lemma LinkedChain(b: seq<byte>, hs: nat, blocks: seq<Extent>, lo: nat)
    requires Linkable(blocks, lo, |b|) && hs + 8 <= lo && hs + 8 <= |b|
    ensures Spaced(blocks, 0, |b|) && hs + 8 <= |Linked(b, hs, blocks)| && Chain(Linked(b, hs, blocks), FirstFreeblock(Linked(b, hs, blocks), hs), blocks)
  {
    hide Put, LinkBytes, U16At, BE16, Chain;
    var n, first := |blocks|, if blocks == [] then 0 else blocks[0].at;
    var c, d := Links(b, blocks, n), Linked(b, hs, blocks);
    PutHere(c, hs + 1, BE16(first % 65536));
    ReadBack16(d, hs + 1, first % 65536);
    forall t | 0 <= t < n ensures d[blocks[t].at..blocks[t].at + 4] == LinkBytes(blocks, t) {
      LinkEntry(b, blocks, n, t);
      PutElsewhere(c, hs + 1, BE16(first % 65536), blocks[t].at, blocks[t].at + 4);
    }
    ChainFromLinks(d, blocks, lo, 0);
    assert blocks[0..] == blocks;
  }

  lemma LinkedElsewhere(b: seq<byte>, hs: nat, blocks: seq<Extent>, i: nat, j: nat)
    requires Spaced(blocks, 0, |b|) && hs + 8 <= |b| && i <= j <= |b|
    requires j <= hs + 1 || hs + 3 <= i
    requires forall t :: 0 <= t < |blocks| ==> j <= blocks[t].at || blocks[t].at + 4 <= i
    ensures Linked(b, hs, blocks)[i..j] == b[i..j]
  {
    hide Put, LinkBytes, BE16;
    LinksElsewhere(b, blocks, |blocks|, i, j);
    PutElsewhere(Links(b, blocks, |blocks|), hs + 1, BE16((if blocks == [] then 0 else blocks[0].at) % 65536), i, j);
  }

  lemma TwoFields(b: seq<byte>, at: nat, x: seq<byte>, y: seq<byte>)
    requires |x| == 2 && |y| == 2 && at + 4 <= |b|
    ensures Put(Put(b, at, x), at + 2, y) == Put(b, at, x + y)
  {
  }

  method WriteFreeblockChain(buf: array<byte>, hs: nat, blocks: seq<Extent>)
    requires hs + 8 <= buf.Length && Spaced(blocks, 0, buf.Length)
    modifies buf
    ensures buf[..] == Linked(old(buf[..]), hs, blocks)
  {
    hide Put, BE16;
    ghost var b := buf[..];
    for i := 0 to |blocks|
      invariant buf[..] == Links(b, blocks, i)
    {
      var next := if i + 1 < |blocks| then blocks[i + 1].at else 0;
      TwoFields(buf[..], blocks[i].at, BE16(next % 65536), BE16(blocks[i].len % 65536));
      Store(buf, blocks[i].at, BE16(next % 65536));
      Store(buf, blocks[i].at + 2, BE16(blocks[i].len % 65536));
    }
    var first := if blocks == [] then 0 else blocks[0].at;
    Store(buf, hs + 1, BE16(first % 65536));
  }

  // ------------------------------------------------------------------ adding a range

  /** How many blocks start before `start`. */
  function Before(blocks: seq<Extent>, start: nat): (n: nat)
    ensures n <= |blocks| && (forall i :: 0 <= i < n ==> blocks[i].at < start) && (n < |blocks| ==> blocks[n].at >= start)
  {
    if blocks == [] || blocks[0].at >= start then 0 else 1 + Before(blocks[1..], start)
  }

  predicate MergesLeft(blocks: seq<Extent>, e: Extent)
  {
    var p := Before(blocks, e.at); p > 0 && blocks[p - 1].End() == e.at
  }

  predicate MergesRight(blocks: seq<Extent>, e: Extent)
  {
    var p := Before(blocks, e.at); p < |blocks| && e.End() == blocks[p].at
  }

  /** The blocks kept before and after the range, and the range with what it swallows. */
  function CutLeft(blocks: seq<Extent>, e: Extent): (a: nat)
    ensures a <= Before(blocks, e.at)
  {
    if MergesLeft(blocks, e) then Before(blocks, e.at) - 1 else Before(blocks, e.at)
  }

  function CutRight(blocks: seq<Extent>, e: Extent): (b: nat)
    ensures Before(blocks, e.at) <= b <= |blocks|
  {
    if MergesRight(blocks, e) then Before(blocks, e.at) + 1 else Before(blocks, e.at)
  }

  function Merged(blocks: seq<Extent>, e: Extent): (m: Extent)
    ensures m.at <= e.at && e.End() <= m.End()
  {
    var p := Before(blocks, e.at);
    var lo := if MergesLeft(blocks, e) then blocks[p - 1].at else e.at;
    var hi := if MergesRight(blocks, e) then blocks[p].End() else e.End();
    Extent(lo, hi - lo)
  }

  /** The range takes its place, swallowing the neighbours it touches. */
  function Added(blocks: seq<Extent>, e: Extent): seq<Extent>
  {
    blocks[..CutLeft(blocks, e)] + [Merged(blocks, e)] + blocks[CutRight(blocks, e)..]
  }

  /** `partition_point`, then merging and inserting in place. */
  method AddFreeblock(blocks: seq<Extent>, start: nat, size: nat) returns (r: seq<Extent>)
    requires Spaced(blocks, 0, 65536)
    ensures r == Added(blocks, Extent(start, size))
  {
    ghost var e := Extent(start, size);
    var pos := Partition(blocks, start);
    hide Before, Spaced;
    var left, at, newStart, newSize := MergeLeft(blocks, pos, start, size);
    var right, total := MergeRight(left[at..], newStart, newSize);
    assert Extent(newStart, total) == Merged(blocks, e);
    r := left[..at] + [Extent(newStart, total)] + right;
  }

  /** Takes the block that ends where the range starts. */
  method MergeLeft(blocks: seq<Extent>, pos: nat, start: nat, size: nat) returns (r: seq<Extent>, at: nat, newStart: nat, newSize: nat)
    requires pos <= |blocks|
    ensures at <= pos && at <= |r| && r[..at] == blocks[..at] && r[at..] == blocks[pos..]
    ensures if pos > 0 && blocks[pos - 1].End() == start
            then at == pos - 1 && newStart == blocks[pos - 1].at && newSize == size + blocks[pos - 1].len
            else at == pos && newStart == start && newSize == size
  {
    hide Removed;
    if pos > 0 && blocks[pos - 1].End() == start {
      return Removed(blocks, pos - 1), pos - 1, blocks[pos - 1].at, size + blocks[pos - 1].len;
    }
    return blocks, pos, start, size;
  }

  /** Takes the block that starts where the range ends, out of the blocks after it. */
  method MergeRight(after: seq<Extent>, start: nat, size: nat) returns (rest: seq<Extent>, newSize: nat)
    ensures if after != [] && start + size == after[0].at then rest == after[1..] && newSize == size + after[0].len
            else rest == after && newSize == size
  {
    if after != [] && start + size == after[0].at {
      return after[1..], size + after[0].len;
    }
    return after, size;
  }

  /** `Vec::remove`. */
  function Removed(blocks: seq<Extent>, at: nat): (r: seq<Extent>)
    requires at < |blocks|
    ensures |r| == |blocks| - 1 && r[..at] == blocks[..at] && r[at..] == blocks[at + 1..]
  {
    blocks[..at] + blocks[at + 1..]
  }

  method Partition(blocks: seq<Extent>, start: nat) returns (pos: nat)
    requires Spaced(blocks, 0, 65536)
    ensures pos == Before(blocks, start)
  {
    hide Before;
    pos := 0;
    while pos < |blocks| && blocks[pos].at < start
      invariant pos <= Before(blocks, start)
      decreases |blocks| - pos
    {
      BeforeAscends(blocks, start, pos);
      pos := pos + 1;
    }
  }

  lemma BeforeAscends(blocks: seq<Extent>, start: nat, i: nat)
    requires Spaced(blocks, 0, 65536) && i < |blocks| && blocks[i].at < start
    ensures i < Before(blocks, start)
  {
    hide Before;
  }

  /** A freed range that overlaps nothing, seen among the blocks around it. */
  lemma Around(blocks: seq<Extent>, e: Extent, lo: nat, hi: nat, i: nat)
    requires Spaced(blocks, lo, hi) && e.len > 0 && i < |blocks| && (forall j :: 0 <= j < |blocks| ==> Apart(e, blocks[j]))
    ensures i < Before(blocks, e.at) ==> blocks[i].End() <= e.at && (blocks[i].End() == e.at ==> i == Before(blocks, e.at) - 1)
    ensures i >= Before(blocks, e.at) ==> e.End() <= blocks[i].at && (e.End() == blocks[i].at ==> i == Before(blocks, e.at))
  {
    var p := Before(blocks, e.at);
    assert Apart(e, blocks[i]);
    if i < p {
      assert i < p - 1 ==> blocks[i].End() < blocks[p - 1].at;
      assert Apart(e, blocks[p - 1]);
    } else {
      assert p < i ==> blocks[p].End() < blocks[i].at;
      assert Apart(e, blocks[p]);
    }
  }

  /** The chain stays sorted, disjoint and never adjacent, and grows by exactly the range. */
  lemma AddedSpaced(blocks: seq<Extent>, e: Extent, lo: nat, hi: nat)
    requires Spaced(blocks, lo, hi) && e.len >= MIN_FREEBLOCK_SIZE && Inside(e, lo, hi)
    requires forall j :: 0 <= j < |blocks| ==> Apart(e, blocks[j])
    ensures Spaced(Added(blocks, e), lo, hi) && Total(Added(blocks, e)) == Total(blocks) + e.len
  {
    hide Total, Before, CutLeft, CutRight, Merged;
    MergedShape(blocks, e, lo, hi);
    SpacedAround(blocks, CutLeft(blocks, e), CutRight(blocks, e), Merged(blocks, e), lo, hi);
    AddedTotal(blocks, e);
  }

  lemma MergedShape(blocks: seq<Extent>, e: Extent, lo: nat, hi: nat)
    requires Spaced(blocks, lo, hi) && e.len >= MIN_FREEBLOCK_SIZE && Inside(e, lo, hi)
    requires forall j :: 0 <= j < |blocks| ==> Apart(e, blocks[j])
    ensures Inside(Merged(blocks, e), lo, hi) && Merged(blocks, e).len >= MIN_FREEBLOCK_SIZE
    ensures forall i :: 0 <= i < CutLeft(blocks, e) ==> blocks[i].End() < Merged(blocks, e).at
    ensures forall i :: CutRight(blocks, e) <= i < |blocks| ==> Merged(blocks, e).End() < blocks[i].at
  {
    hide Before;
    var p, m := Before(blocks, e.at), Merged(blocks, e);
    forall i | 0 <= i < CutLeft(blocks, e) ensures blocks[i].End() < m.at {
      Around(blocks, e, lo, hi, i);
      assert i < p - 1 ==> blocks[i].End() < blocks[p - 1].at;
    }
    forall i | CutRight(blocks, e) <= i < |blocks| ensures m.End() < blocks[i].at {
      Around(blocks, e, lo, hi, i);
      assert p < i ==> blocks[p].End() < blocks[i].at;
    }
  }

  lemma SpacedAround(blocks: seq<Extent>, a: nat, b: nat, m: Extent, lo: nat, hi: nat)
    requires Spaced(blocks, lo, hi) && a <= b <= |blocks| && Inside(m, lo, hi) && m.len >= MIN_FREEBLOCK_SIZE
    requires forall i :: 0 <= i < a ==> blocks[i].End() < m.at
    requires forall i :: b <= i < |blocks| ==> m.End() < blocks[i].at
    ensures Spaced(blocks[..a] + [m] + blocks[b..], lo, hi)
  {
  }

  lemma AddedTotal(blocks: seq<Extent>, e: Extent)
    ensures Total(Added(blocks, e)) == Total(blocks) + e.len
  {
    hide Before, Total;
    var a, b, m := CutLeft(blocks, e), CutRight(blocks, e), Merged(blocks, e);
    TotalAppend(blocks[..a], [m]);
    TotalAppend(blocks[..a] + [m], blocks[b..]);
    assert blocks == blocks[..a] + blocks[a..b] + blocks[b..];
    TotalAppend(blocks[..a], blocks[a..b]);
    TotalAppend(blocks[..a] + blocks[a..b], blocks[b..]);
    MiddleTotal(blocks, a, b);
    OneTotal(m);
  }

  lemma OneTotal(m: Extent)
    ensures Total([m]) == m.len
  {
  }

  lemma MiddleTotal(blocks: seq<Extent>, a: nat, b: nat)
    requires a <= b <= |blocks| && b <= a + 2
    ensures Total(blocks[a..b]) == (if a < b then blocks[a].len else 0) + (if a + 1 < b then blocks[a + 1].len else 0)
  {
    if b == a + 2 {
      assert blocks[a..b] == [blocks[a]] + [blocks[a + 1]];
      TotalAppend([blocks[a]], [blocks[a + 1]]);
    } else if b == a + 1 {
      assert blocks[a..b] == [blocks[a]];
    }
  }

  /** A cell clear of the blocks and of the range is clear of the result. */
  lemma AddedClear(blocks: seq<Extent>, e: Extent, c: Extent, i: nat)
    requires c.len > 0 && e.len > 0 && Apart(c, e) && i < |Added(blocks, e)|
    requires forall j :: 0 <= j < |blocks| ==> Apart(c, blocks[j])
    ensures Apart(c, Added(blocks, e)[i])
  {
    hide Before;
    var p, a, b := Before(blocks, e.at), CutLeft(blocks, e), CutRight(blocks, e);
    if i < a {
      assert Added(blocks, e)[i] == blocks[i];
    } else if i > a {
      assert Added(blocks, e)[i] == blocks[b + (i - a - 1)];
    } else {
      assert MergesLeft(blocks, e) ==> Apart(c, blocks[p - 1]);
      assert MergesRight(blocks, e) ==> Apart(c, blocks[p]);
    }
  }
}
