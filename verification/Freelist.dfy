/** Freelist trunk pages as bytes: next-trunk pointer, leaf count, leaf numbers. */
module Freelist {
  import opened Bytes

  datatype FreelistError = PageTooShort(offset: nat, len: nat)

  datatype Trunk = Trunk(next: u32, leaves: seq<u32>)

  function MaxLeaves(pageSize: nat): nat { (if pageSize >= 8 then pageSize - 8 else 0) / 4 }

  /** The first `n` leaf numbers of a trunk page. */
  function LeavesAt(buf: seq<byte>, n: nat): (ls: seq<u32>)
    requires 8 + 4 * n <= |buf|
    ensures |ls| == n
  {
    if n == 0 then [] else LeavesAt(buf, n - 1) + [U32At(buf, 8 + 4 * (n - 1))]
  }

  /** A leaf count that claims more than fits is cut to what fits. */
  function ParseTrunk(buf: seq<byte>): Result<Trunk, FreelistError>
  {
    if |buf| < 4 then Err(PageTooShort(0, |buf|))
    else if |buf| < 8 then Err(PageTooShort(4, |buf|))
    else Ok(Trunk(U32At(buf, 0), LeavesAt(buf, Min(U32At(buf, 4), MaxLeaves(|buf|)))))
  }

  method Parse(buf: seq<byte>) returns (r: Result<Trunk, FreelistError>)
    ensures r == ParseTrunk(buf)
  {
    hide U32At;
    if |buf| < 4 { return Err(PageTooShort(0, |buf|)); }
    if |buf| < 8 { return Err(PageTooShort(4, |buf|)); }
    var count := Min(U32At(buf, 4), MaxLeaves(|buf|));
    var leaves: seq<u32> := [];
    for i := 0 to count
      invariant leaves == LeavesAt(buf, i)
    {
      leaves := leaves + [U32At(buf, 8 + 4 * i)];
    }
    return Ok(Trunk(U32At(buf, 0), leaves));
  }

  function LeafBytes(leaves: seq<u32>): (b: seq<byte>)
    ensures |b| == 4 * |leaves|
  {
    if leaves == [] then [] else LeafBytes(leaves[..|leaves| - 1]) + BE32(leaves[|leaves| - 1])
  }

  predicate FitsIn(t: Trunk, len: nat) { 8 + 4 * |t.leaves| <= len && |t.leaves| <= U32_MAX }

  /** A trunk page of `len` bytes: the fields, then zeros. */
  function TrunkBytes(t: Trunk, len: nat): (b: seq<byte>)
    requires FitsIn(t, len)
    ensures |b| == len
  {
    BE32(t.next) + BE32(|t.leaves|) + LeafBytes(t.leaves) + Zeros(len - 8 - 4 * |t.leaves|)
  }

  lemma LeafBytesSnoc(leaves: seq<u32>)
    requires leaves != []
    ensures var n := |leaves| - 1;
            LeafBytes(leaves)[0..4 * n] == LeafBytes(leaves[..n]) && LeafBytes(leaves)[4 * n..4 * n + 4] == BE32(leaves[n])
  {
    hide BE32, LeafBytes;
    LeafBytesUnfold(leaves);
    Parts(LeafBytes(leaves[..|leaves| - 1]), BE32(leaves[|leaves| - 1]), 4 * (|leaves| - 1));
  }

  lemma LeafBytesUnfold(leaves: seq<u32>)
    requires leaves != []
    ensures LeafBytes(leaves) == LeafBytes(leaves[..|leaves| - 1]) + BE32(leaves[|leaves| - 1])
  {
    hide BE32;
  }

  lemma {:induction false} LeavesReadBack(buf: seq<byte>, leaves: seq<u32>)
    requires 8 + 4 * |leaves| <= |buf| && buf[8..8 + 4 * |leaves|] == LeafBytes(leaves)
    ensures LeavesAt(buf, |leaves|) == leaves
  {
    hide BE32, U32At, LeafBytes;
    if leaves != [] {
      var n := |leaves| - 1;
      var e := LeafBytes(leaves);
      Within(buf, 8, e, 0, 4 * n);
      Within(buf, 8, e, 4 * n, 4 * n + 4);
      LeafBytesSnoc(leaves);
      LeavesReadBack(buf, leaves[..n]);
      ReadBack32(buf, 8 + 4 * n, leaves[n]);
    }
  }

  /** A written trunk page parses back to the same trunk. */
  lemma TrunkRoundTrip(t: Trunk, len: nat)
    requires FitsIn(t, len)
    ensures ParseTrunk(TrunkBytes(t, len)) == Ok(t)
  {
    hide BE32, U32At, LeavesAt;
    var b := TrunkBytes(t, len);
    assert b[0..4] == BE32(t.next);
    assert b[4..8] == BE32(|t.leaves|);
    assert b[8..8 + 4 * |t.leaves|] == LeafBytes(t.leaves);
    ReadBack32(b, 0, t.next);
    ReadBack32(b, 4, |t.leaves|);
    LeavesReadBack(b, t.leaves);
  }

  /** As many leaves as there is room for behind the two fields. */
  lemma LeavesFit(pageSize: nat)
    requires pageSize >= 8
    ensures 8 + 4 * MaxLeaves(pageSize) <= pageSize < 8 + 4 * (MaxLeaves(pageSize) + 1)
  {
  }

  lemma {:induction false} LeafStands(leaves: seq<u32>, i: nat)
    requires i < |leaves|
    ensures LeafBytes(leaves)[4 * i..4 * i + 4] == BE32(leaves[i])
  {
    hide BE32, LeafBytes;
    var n := |leaves| - 1;
    LeafBytesSnoc(leaves);
    if i < n {
      LeafStands(leaves[..n], i);
      Within(LeafBytes(leaves), 0, LeafBytes(leaves[..n]), 4 * i, 4 * i + 4);
    }
  }

  /** Where each field of a trunk page stands: next trunk, count, leaves in order, zeros. */
  lemma TrunkLayout(t: Trunk, len: nat)
    requires FitsIn(t, len)
    ensures var b, n := TrunkBytes(t, len), |t.leaves|;
            && b[0..4] == BE32(t.next) && b[4..8] == BE32(n)
            && (forall i :: 0 <= i < n ==> b[8 + 4 * i..12 + 4 * i] == BE32(t.leaves[i]))
            && forall i :: 8 + 4 * n <= i < len ==> b[i] == 0
  {
    hide BE32, LeafBytes;
    var b, n := TrunkBytes(t, len), |t.leaves|;
    forall i | 0 <= i < n ensures b[8 + 4 * i..12 + 4 * i] == BE32(t.leaves[i]) {
      LeafStands(t.leaves, i);
      assert b[8..8 + 4 * n] == LeafBytes(t.leaves);
      assert b[8 + 4 * i..12 + 4 * i] == b[8..8 + 4 * n][4 * i..4 * i + 4];
    }
  }

  /** Leaf `i` is read from its own place, and a count beyond what fits is cut to it. */
  lemma {:induction false} LeafRead(buf: seq<byte>, n: nat, i: nat)
    requires 8 + 4 * n <= |buf| && i < n
    ensures LeavesAt(buf, n)[i] == U32At(buf, 8 + 4 * i)
  {
    hide U32At;
    if i < n - 1 { LeafRead(buf, n - 1, i); }
  }

  /** Writes the fields into a page buffer in place and clears everything after them. */
  method WriteTrunk(t: Trunk, buf: array<byte>) returns (ok: bool)
    requires |t.leaves| <= U32_MAX
    modifies buf
    ensures ok == FitsIn(t, buf.Length)
    ensures ok ==> buf[..] == TrunkBytes(t, buf.Length)
  {
    hide BE32, LeafBytes, Zeros;
    if buf.Length < 4 { return false; }
    PutPrefix(buf, 0, BE32(t.next));
    if buf.Length < 8 { return false; }
    PutPrefix(buf, 4, BE32(|t.leaves|));
    ok := WriteLeaves(buf, t.leaves);
    if !ok { return false; }
    ClearFrom(buf, 8 + 4 * |t.leaves|);
  }

  method WriteLeaves(buf: array<byte>, leaves: seq<u32>) returns (ok: bool)
    requires buf.Length >= 8
    modifies buf
    ensures ok == (8 + 4 * |leaves| <= buf.Length)
    ensures ok ==> buf[..8 + 4 * |leaves|] == old(buf[..8]) + LeafBytes(leaves)
  {
    hide BE32;
    ghost var head := buf[..8];
    for i := 0 to |leaves|
      invariant 8 + 4 * i <= buf.Length && buf[..8 + 4 * i] == head + LeafBytes(leaves[..i])
    {
      if buf.Length < 8 + 4 * i + 4 { return false; }
      PutPrefix(buf, 8 + 4 * i, BE32(leaves[i]));
      assert leaves[..i + 1][..i] == leaves[..i];
    }
    assert leaves[..|leaves|] == leaves;
    return true;
  }

  method ClearFrom(buf: array<byte>, at: nat)
    requires at <= buf.Length
    modifies buf
    ensures buf[..] == old(buf[..at]) + Zeros(buf.Length - at)
  {
    forall k | at <= k < buf.Length { buf[k] := 0; }
  }

  method PutPrefix(buf: array<byte>, at: nat, data: seq<byte>)
    requires at + |data| <= buf.Length
    modifies buf
    ensures buf[..at + |data|] == old(buf[..at]) + data
    ensures forall k :: at + |data| <= k < buf.Length ==> buf[k] == old(buf[k])
  {
    forall k | 0 <= k < |data| { buf[at + k] := data[k]; }
  }
}
