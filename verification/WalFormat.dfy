/** What the log's checksum and header are, without running them: a sum of words weighted by
    Fibonacci numbers, and a fixed layout that parsing accepts in no other form. */
module WalFormat {
  import opened Bytes
  import opened Wal

  // ------------------------------------------------------------------------ checksum

  function Fib(k: nat): nat { if k < 2 then k else Fib(k - 1) + Fib(k - 2) }

  /** The first `n` words of `b`. */
  function Words(native: bool, b: seq<byte>, n: nat): (xs: seq<u32>)
    requires 4 * n <= |b|
    ensures |xs| == n
  {
    seq(n, i requires 0 <= i < n => ReadWord(native, b, 4 * i))
  }

  /** The first `i` of `xs`, word `j` weighted by `Fib(k - j)`. */
  function Weighted(xs: seq<u32>, k: nat, i: nat): nat
    requires i <= k && i <= |xs|
  {
    if i == 0 then 0 else Weighted(xs, k, i - 1) + Fib(k - (i - 1)) * xs[i - 1]
  }

  /** The sum after `k` words, started from `init`, before it is cut to 32 bits. */
  function Exact(init: Sum, xs: seq<u32>, k: nat): nat
    requires k <= |xs|
  {
    Fib(k) * init.0 + Fib(k + 1) * init.1 + Weighted(xs, k, k)
  }

  function Low32(n: nat): u32 { n % 0x1_0000_0000 }

  /** The pair after `j` chunks of two words. */
  function Pair(init: Sum, xs: seq<u32>, j: nat): Sum
    requires 2 * j <= |xs|
  {
    if j == 0 then init else (Low32(Exact(init, xs, 2 * j - 1)), Low32(Exact(init, xs, 2 * j)))
  }

  lemma Distribute(a: nat, b: nat, x: nat)
    ensures (a + b) * x == a * x + b * x
  {
  }

  lemma {:induction false} WeightsAdd(xs: seq<u32>, k: nat, i: nat)
    requires k >= 2 && i <= k - 2 && i <= |xs|
    ensures Weighted(xs, k, i) == Weighted(xs, k - 1, i) + Weighted(xs, k - 2, i)
  {
    hide Fib;
    if i > 0 {
      WeightsAdd(xs, k, i - 1);
      FibStep(k - (i - 1));
      Distribute(Fib(k - (i - 1) - 1), Fib(k - (i - 1) - 2), xs[i - 1]);
    }
  }

  lemma FibStep(k: nat)
    requires k >= 2
    ensures Fib(k) == Fib(k - 1) + Fib(k - 2)
  {
  }

  lemma FirstFibs()
    ensures Fib(0) == 0 && Fib(1) == 1 && Fib(2) == 1 && Fib(3) == 2
  {
  }

  /** Each sum is the two before it and the next word. */
  lemma ExactStep(init: Sum, xs: seq<u32>, k: nat)
    requires 2 <= k <= |xs|
    ensures Exact(init, xs, k) == Exact(init, xs, k - 1) + Exact(init, xs, k - 2) + xs[k - 1]
  {
    hide Fib, Weighted;
    FibStep(k);
    FibStep(k + 1);
    Distribute(Fib(k - 1), Fib(k - 2), init.0);
    Distribute(Fib(k), Fib(k - 1), init.1);
    WeightsAdd(xs, k, k - 2);
    LastWeights(xs, k);
  }

  lemma LastWeights(xs: seq<u32>, k: nat)
    requires 2 <= k <= |xs|
    ensures Weighted(xs, k, k) == Weighted(xs, k, k - 2) + xs[k - 2] + xs[k - 1]
    ensures Weighted(xs, k - 1, k - 1) == Weighted(xs, k - 1, k - 2) + xs[k - 2]
  {
    hide Fib;
    FirstFibs();
  }

  lemma FirstExact(init: Sum, xs: seq<u32>)
    requires |xs| >= 1
    ensures Exact(init, xs, 0) == init.1 && Exact(init, xs, 1) == init.0 + init.1 + xs[0]
  {
    hide Fib;
    FirstFibs();
    assert Weighted(xs, 1, 1) == Weighted(xs, 1, 0) + Fib(1) * xs[0];
  }

  lemma Wrap(a: nat, x: nat)
    ensures Low32(Low32(a) + x) == Low32(a + x)
  {
  }

  lemma Wraps(a: nat, b: nat, x: u32)
    ensures WrappingAdd(WrappingAdd(Low32(a), x), Low32(b)) == Low32(a + b + x)
  {
    hide Low32;
    AddIsLow32(Low32(a), x);
    Wrap(a, x);
    AddIsLow32(Low32(a + x), Low32(b));
    Wrap(a + x, Low32(b));
    Wrap(b, a + x);
  }

  lemma AddIsLow32(a: u32, b: u32)
    ensures WrappingAdd(a, b) == Low32(a + b)
  {
  }

  lemma SmallWraps(s: Sum)
    ensures Low32(s.0) == s.0 && Low32(s.1) == s.1
  {
  }

  /** One chunk takes the pair to the next. */
  lemma MixIsNext(native: bool, b: seq<byte>, init: Sum, n: nat, j: nat)
    requires 8 * n <= |b| && j < n
    ensures Mix(native, b, 8 * j, Pair(init, Words(native, b, 2 * n), j)) == Pair(init, Words(native, b, 2 * n), j + 1)
  {
    hide ReadWord, Exact, WrappingAdd, Low32;
    var xs := Words(native, b, 2 * n);
    SmallWraps(init);
    FirstExact(init, xs);
    ExactStep(init, xs, 2 * j + 2);
    if j == 0 {
      Wraps(init.0, init.1, xs[0]);
      Wraps(init.1, Exact(init, xs, 1), xs[1]);
    } else {
      ExactStep(init, xs, 2 * j + 1);
      Wraps(Exact(init, xs, 2 * j - 1), Exact(init, xs, 2 * j), xs[2 * j]);
      Wraps(Exact(init, xs, 2 * j), Exact(init, xs, 2 * j + 1), xs[2 * j + 1]);
    }
  }

  lemma {:induction false} SumFromChunk(native: bool, b: seq<byte>, init: Sum, n: nat, j: nat)
    requires 8 * n <= |b| < 8 * n + 8 && j <= n
    ensures SumFrom(native, b, 8 * j, Pair(init, Words(native, b, 2 * n), j)) == Pair(init, Words(native, b, 2 * n), n)
    decreases n - j
  {
    hide Mix, Pair, Words;
    if j < n {
      MixIsNext(native, b, init, n, j);
      SumFromChunk(native, b, init, n, j + 1);
    }
  }

  /** The checksum in closed form: with `n` whole chunks, each of its two words is the sum of
      all words up to it and the initial pair, weighted by Fibonacci numbers, modulo 2^32. */
  lemma ChecksumIs(native: bool, b: seq<byte>, init: Sum)
    ensures SumFrom(native, b, 0, init) == Pair(init, Words(native, b, 2 * (|b| / 8)), |b| / 8)
  {
    hide SumFrom, Words, Exact;
    SumFromChunk(native, b, init, |b| / 8, 0);
  }

  /** A word is four bytes, the first the highest, or the lowest in the host's own order. */
  lemma WordIs(native: bool, b: seq<byte>, at: nat)
    requires at + 4 <= |b|
    ensures var x0: int, x1: int, x2: int, x3: int := b[at], b[at + 1], b[at + 2], b[at + 3];
            ReadWord(native, b, at) == if native && LITTLE_ENDIAN_HOST then x3 * 0x100_0000 + x2 * 0x1_0000 + x1 * 0x100 + x0
                                       else x0 * 0x100_0000 + x1 * 0x1_0000 + x2 * 0x100 + x3
  {
    BigEndian32(b, at);
    BigEndian32([b[at + 3], b[at + 2], b[at + 1], b[at]], 0);
  }

  // -------------------------------------------------------------------------- header

  /** Where each field of a header stands. */
  lemma HeaderLayout(h: WalHeader)
    ensures var s := Serialize(h);
            && s[0..4] == [0x37, 0x7f, 0x06, if h.native then 0x82 else 0x83] && s[4..8] == BE32(h.formatVersion)
            && s[8..12] == BE32(h.pageSize) && s[12..16] == BE32(h.checkpointSeq) && s[16..20] == BE32(h.salt1)
            && s[20..24] == BE32(h.salt2) && s[24..28] == BE32(h.checksum.0) && s[28..32] == BE32(h.checksum.1)
  {
    assert BE32(MAGIC_NATIVE) == [0x37, 0x7f, 0x06, 0x82] && BE32(MAGIC_BIG_ENDIAN) == [0x37, 0x7f, 0x06, 0x83];
  }

  /** A file parses as a header if and only if it starts with that header's bytes and they
      carry a legal page size and their own checksum. */
  lemma ParsesIff(b: seq<byte>, h: WalHeader)
    ensures ParseHeader(b) == Ok(h) <==> |b| >= HEADER_LEN && b[..HEADER_LEN] == Serialize(h) && ValidHeader(h)
  {
    hide SumFrom, U32At, BE32, ValidPageSize, Checksummed, Serialize;
    if |b| >= HEADER_LEN && b[..HEADER_LEN] == Serialize(h) && ValidHeader(h) {
      HeaderRoundTrip(h, b[HEADER_LEN..]);
      assert b == Serialize(h) + b[HEADER_LEN..];
    }
    if ParseHeader(b) == Ok(h) { ParsedBytes(b, h); }
  }

  lemma ParsedBytes(b: seq<byte>, h: WalHeader)
    requires ParseHeader(b) == Ok(h)
    ensures |b| >= HEADER_LEN && b[..HEADER_LEN] == Serialize(h) && ValidHeader(h)
  {
    hide SumFrom, U32At, BE32, ValidPageSize;
    WriteBack32(b, 0);
    WriteBack32(b, 4);
    WriteBack32(b, 8);
    WriteBack32(b, 12);
    WriteBack32(b, 16);
    WriteBack32(b, 20);
    WriteBack32(b, 24);
    WriteBack32(b, 28);
    assert b[0..24] == b[0..4] + b[4..8] + b[8..12] + b[12..16] + b[16..20] + b[20..24];
    assert b[..32] == b[0..24] + b[24..28] + b[28..32];
  }
}
