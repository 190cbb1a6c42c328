/** Which frames a log holds, told slot by slot from its bytes: both readers answer from the
    longest run of whole slots that carry the header's salts and a checksum continuing from
    the slots before. */
module WalSlots {
  import opened Bytes
  import opened Wal

  /** Where slot `k` starts. */
  function SlotAt(h: WalHeader, k: nat): nat { HEADER_LEN + Span(k, 24 + h.pageSize) }

  /** The checksum over the first eight bytes and the page of each of the first `k` slots,
      continued from the header's. */
  function SumUpTo(h: WalHeader, b: seq<byte>, k: nat): Sum
    requires SlotAt(h, k) <= |b|
  {
    if k == 0 then h.checksum
    else
      SlotStep(h, k - 1);
      var at := SlotAt(h, k - 1);
      SumFrom(h.native, b[at + 24..at + 24 + h.pageSize], 0, SumFrom(h.native, b[at..at + 8], 0, SumUpTo(h, b, k - 1)))
  }

  lemma SlotStep(h: WalHeader, k: nat)
    ensures SlotAt(h, k + 1) == SlotAt(h, k) + 24 + h.pageSize
  {
  }

  /** Slot `k` is whole, carries both salts, and its stored pair is the checksum so far. */
  predicate GoodSlot(h: WalHeader, b: seq<byte>, k: nat)
  {
    && SlotAt(h, k + 1) <= |b|
    && U32At(b, SlotAt(h, k) + 8) == h.salt1 && U32At(b, SlotAt(h, k) + 12) == h.salt2
    && (U32At(b, SlotAt(h, k) + 16), U32At(b, SlotAt(h, k) + 20)) == SumUpTo(h, b, k + 1)
  }

  function FrameIn(h: WalHeader, b: seq<byte>, k: nat): Frame
    requires SlotAt(h, k + 1) <= |b|
  {
    SlotStep(h, k);
    var at := SlotAt(h, k);
    Frame(U32At(b, at), U32At(b, at + 4), b[at + 24..at + 24 + h.pageSize])
  }

  /** The first `n` slots are good, and slot `n` is not. */
  ghost predicate LongestRun(h: WalHeader, b: seq<byte>, n: nat)
  {
    SlotAt(h, n) <= Max(|b|, HEADER_LEN) && (forall k :: 0 <= k < n ==> GoodSlot(h, b, k)) && !GoodSlot(h, b, n)
  }

  lemma {:induction false} OneRun(h: WalHeader, b: seq<byte>, m: nat, n: nat)
    requires LongestRun(h, b, m) && LongestRun(h, b, n)
    ensures m == n
  {
    hide GoodSlot;
  }

  /** A frame is recognised exactly at a good slot. */
  lemma FrameAtSlot(h: WalHeader, b: seq<byte>, k: nat)
    requires SlotAt(h, k) <= |b|
    ensures FrameAt(h, b, SlotAt(h, k), SumUpTo(h, b, k))
         == if GoodSlot(h, b, k) then Some((FrameIn(h, b, k), SumUpTo(h, b, k + 1))) else None
  {
    hide U32At, SumFrom;
    SlotStep(h, k);
  }

  lemma {:induction false} ScanFromSlot(h: WalHeader, b: seq<byte>, k: nat) returns (n: nat)
    requires SlotAt(h, k) <= |b|
    ensures k <= n && SlotAt(h, n) <= |b| && (forall j :: k <= j < n ==> GoodSlot(h, b, j)) && !GoodSlot(h, b, n)
    ensures var s := Scan(h, b, SlotAt(h, k), SumUpTo(h, b, k));
            && |s.frames| == n - k && s.end == SlotAt(h, n) && s.running == SumUpTo(h, b, n)
            && forall j :: k <= j < n ==> GoodSlot(h, b, j) && s.frames[j - k] == FrameIn(h, b, j)
    decreases |b| - SlotAt(h, k)
  {
    hide FrameAt, SumUpTo, GoodSlot, FrameIn, SlotAt;
    FrameAtSlot(h, b, k);
    n := k;
    if GoodSlot(h, b, k) {
      GoodIsWhole(h, b, k);
      SlotStep(h, k);
      n := ScanFromSlot(h, b, k + 1);
    }
  }

  lemma GoodIsWhole(h: WalHeader, b: seq<byte>, k: nat)
    requires GoodSlot(h, b, k)
    ensures SlotAt(h, k + 1) <= |b|
  {
  }

  /** For every byte string: the frames read are those of the longest run of good slots, the
      scan ends behind it, and its checksum is the one reached there. */
  lemma ReadsLongestRun(h: WalHeader, b: seq<byte>)
    ensures var s := ScanFile(h, b);
            var n := |s.frames|;
            && LongestRun(h, b, n) && s.end == SlotAt(h, n) && (n > 0 ==> SlotAt(h, n) <= |b|)
            && s.running == (if n == 0 then h.checksum else SumUpTo(h, b, n))
            && forall k :: 0 <= k < n ==> GoodSlot(h, b, k) && s.frames[k] == FrameIn(h, b, k)
  {
    hide FrameIn, FrameAt;
    FirstSlot(h);
    if HEADER_LEN <= |b| {
      var n := ScanFromSlot(h, b, 0);
    } else {
      NoSlot(h, b);
    }
  }

  lemma FirstSlot(h: WalHeader)
    ensures SlotAt(h, 0) == HEADER_LEN
  {
  }

  lemma NoSlot(h: WalHeader, b: seq<byte>)
    requires |b| < HEADER_LEN
    ensures !GoodSlot(h, b, 0) && ScanFile(h, b) == Scanned([], HEADER_LEN, h.checksum)
  {
    hide U32At, SumFrom;
  }

  // ------------------------------------------------------------------- a damaged slot

  /** The stored pair of slot `k` replaced. */
  function Restamped(h: WalHeader, b: seq<byte>, k: nat, pair: Sum): (d: seq<byte>)
    requires SlotAt(h, k + 1) <= |b|
    ensures |d| == |b|
  {
    SlotStep(h, k);
    Put(b, SlotAt(h, k) + 16, BE32(pair.0) + BE32(pair.1))
  }

  lemma {:induction false} SameSum(h: WalHeader, b: seq<byte>, d: seq<byte>, k: nat)
    requires SlotAt(h, k) <= |b| && SlotAt(h, k) <= |d|
    requires forall j :: 0 <= j < k ==> SameSummed(h, b, d, j)
    ensures SumUpTo(h, d, k) == SumUpTo(h, b, k)
  {
    hide SumFrom;
    if k > 0 {
      SlotStep(h, k - 1);
      assert SameSummed(h, b, d, k - 1);
      SameSum(h, b, d, k - 1);
    }
  }

  /** Both files have the same summed bytes in slot `j`. */
  ghost predicate SameSummed(h: WalHeader, b: seq<byte>, d: seq<byte>, j: nat)
  {
    var at := SlotAt(h, j);
    && at + 24 + h.pageSize <= |b| && at + 24 + h.pageSize <= |d|
    && b[at..at + 8] == d[at..at + 8] && b[at + 24..at + 24 + h.pageSize] == d[at + 24..at + 24 + h.pageSize]
  }

  lemma SlotsGrow(h: WalHeader, j: nat, k: nat)
    requires j < k
    ensures SlotAt(h, j) + 24 + h.pageSize <= SlotAt(h, k)
  {
    SpanAdd(j, k - j, 24 + h.pageSize);
    SpanAdd(1, k - j - 1, 24 + h.pageSize);
    SpanOnce(24 + h.pageSize);
  }

  lemma SpanOnce(size: nat)
    ensures Span(1, size) == size
  {
  }

  /** The bytes before slot `k` decide whether the slots before it are good. */
  lemma EarlierSlots(h: WalHeader, b: seq<byte>, d: seq<byte>, k: nat, j: nat)
    requires SlotAt(h, k) <= |b| && SlotAt(h, k) <= |d| && d[..SlotAt(h, k)] == b[..SlotAt(h, k)] && j < k
    ensures GoodSlot(h, d, j) == GoodSlot(h, b, j) && SlotAt(h, j + 1) <= |b| && SlotAt(h, j + 1) <= |d| && FrameIn(h, d, j) == FrameIn(h, b, j)
  {
    hide SumFrom, U32At, SumUpTo;
    SlotStep(h, j);
    SlotsGrow(h, j, k);
    forall i | 0 <= i < j + 1 ensures SameSummed(h, b, d, i) {
      SlotsGrow(h, i, k);
      SameRange(b, d, SlotAt(h, k), SlotAt(h, i), SlotAt(h, i) + 8);
      SameRange(b, d, SlotAt(h, k), SlotAt(h, i) + 24, SlotAt(h, i) + 24 + h.pageSize);
    }
    SameSum(h, b, d, j + 1);
    var at := SlotAt(h, j);
    SameWord(b, d, SlotAt(h, k), at);
    SameWord(b, d, SlotAt(h, k), at + 4);
    SameWord(b, d, SlotAt(h, k), at + 8);
    SameWord(b, d, SlotAt(h, k), at + 12);
    SameWord(b, d, SlotAt(h, k), at + 16);
    SameWord(b, d, SlotAt(h, k), at + 20);
  }

  lemma SameRange(b: seq<byte>, d: seq<byte>, n: nat, i: nat, j: nat)
    requires n <= |b| && n <= |d| && d[..n] == b[..n] && i <= j <= n
    ensures d[i..j] == b[i..j]
  {
    assert d[i..j] == d[..n][i..j] && b[i..j] == b[..n][i..j];
  }

  lemma SameWord(b: seq<byte>, d: seq<byte>, n: nat, i: nat)
    requires n <= |b| && n <= |d| && d[..n] == b[..n] && i + 4 <= n
    ensures U32At(d, i) == U32At(b, i)
  {
    hide U32At;
    SameRange(b, d, n, i, i + 4);
    SameField32(d, b, i, i);
  }

  /** Changing the stored pair of a good slot makes the file read as its prefix before that
      slot: the pages committed there, and nothing of the slot or behind it. */
  lemma DamagedSlot(h: WalHeader, b: seq<byte>, k: nat, pair: Sum)
    requires k < |ScanFile(h, b).frames| && SlotAt(h, k + 1) <= |b| && pair != (U32At(b, SlotAt(h, k) + 16), U32At(b, SlotAt(h, k) + 20))
    ensures SlotAt(h, k) <= |b|
    ensures ScanFile(h, Restamped(h, b, k, pair)).frames == ScanFile(h, b[..SlotAt(h, k)]).frames == ScanFile(h, b).frames[..k]
    ensures ScanFile(h, Restamped(h, b, k, pair)).end == SlotAt(h, k)
  {
    hide SumFrom, GoodSlot, FrameIn, ScanFile, SlotAt, Restamped;
    SlotStep(h, k);
    ReadsLongestRun(h, b);
    var d, c := Restamped(h, b, k, pair), b[..SlotAt(h, k)];
    BadAt(h, b, k, pair);
    CutAt(h, b, k);
    RestampKeeps(h, b, k, pair);
    assert c[..SlotAt(h, k)] == b[..SlotAt(h, k)];
    RunBefore(h, b, d, k);
    RunBefore(h, b, c, k);
  }

  lemma RestampKeeps(h: WalHeader, b: seq<byte>, k: nat, pair: Sum)
    requires SlotAt(h, k + 1) <= |b|
    ensures SlotAt(h, k) <= |b| && Restamped(h, b, k, pair)[..SlotAt(h, k)] == b[..SlotAt(h, k)]
  {
    hide BE32;
    SlotStep(h, k);
  }

  /** The restamped slot itself is bad: its summed bytes, hence the sum, have not changed. */
  lemma BadAt(h: WalHeader, b: seq<byte>, k: nat, pair: Sum)
    requires SlotAt(h, k + 1) <= |b| && GoodSlot(h, b, k) && pair != (U32At(b, SlotAt(h, k) + 16), U32At(b, SlotAt(h, k) + 20))
    ensures !GoodSlot(h, Restamped(h, b, k, pair), k)
  {
    hide SumFrom, U32At, BE32, SumUpTo;
    SlotStep(h, k);
    var d, at := Restamped(h, b, k, pair), SlotAt(h, k);
    RestampKeeps(h, b, k, pair);
    forall i | 0 <= i < k + 1 ensures SameSummed(h, b, d, i) {
      if i < k {
        SlotsGrow(h, i, k);
        SameRange(b, d, at, SlotAt(h, i), SlotAt(h, i) + 8);
        SameRange(b, d, at, SlotAt(h, i) + 24, SlotAt(h, i) + 24 + h.pageSize);
      } else {
        PutElsewhere(b, at + 16, BE32(pair.0) + BE32(pair.1), at, at + 8);
        PutElsewhere(b, at + 16, BE32(pair.0) + BE32(pair.1), at + 24, at + 24 + h.pageSize);
      }
    }
    SameSum(h, b, d, k + 1);
    PutHere(b, at + 16, BE32(pair.0) + BE32(pair.1));
    assert d[at + 16..at + 20] == d[at + 16..at + 24][..4] == BE32(pair.0);
    assert d[at + 20..at + 24] == d[at + 16..at + 24][4..] == BE32(pair.1);
    ReadBack32(d, at + 16, pair.0);
    ReadBack32(d, at + 20, pair.1);
  }

  lemma CutAt(h: WalHeader, b: seq<byte>, k: nat)
    requires SlotAt(h, k) <= |b|
    ensures !GoodSlot(h, b[..SlotAt(h, k)], k)
  {
    hide SumFrom, U32At;
    SlotStep(h, k);
  }

  /** A file that agrees up to slot `k`, which is bad there, reads as the slots before. */
  lemma RunBefore(h: WalHeader, b: seq<byte>, d: seq<byte>, k: nat)
    requires SlotAt(h, k) <= |b| && SlotAt(h, k) <= |d| && d[..SlotAt(h, k)] == b[..SlotAt(h, k)]
    requires k < |ScanFile(h, b).frames| && !GoodSlot(h, d, k)
    ensures ScanFile(h, d).frames == ScanFile(h, b).frames[..k] && ScanFile(h, d).end == SlotAt(h, k)
  {
    hide GoodSlot, FrameIn, ScanFile, SlotAt;
    ReadsLongestRun(h, b);
    ReadsLongestRun(h, d);
    forall j | 0 <= j < k ensures GoodSlot(h, d, j) && SlotAt(h, j + 1) <= |b| && SlotAt(h, j + 1) <= |d| && FrameIn(h, d, j) == FrameIn(h, b, j) {
      EarlierSlots(h, b, d, k, j);
    }
    OneRun(h, d, k, |ScanFile(h, d).frames|);
  }
}
