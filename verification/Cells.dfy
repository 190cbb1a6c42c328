/** Variable-length integers and b-tree cells: where a cell ends is decided by its own
    bytes alone. */
module Cells {
  import opened Bytes

  datatype CellError = UnexpectedEof(offset: nat) | InvalidCellPointer | PayloadTooShort

  // ------------------------------------------------------------------- varints

  /** Reads on from byte `i`, with `acc` decoded so far. */
  function VarintFrom(s: seq<byte>, i: nat, acc: nat): (r: Result<(nat, nat), CellError>)
    requires i <= 8
    ensures r.Ok? ==> i < r.value.1 <= 9 && r.value.1 <= |s|
    decreases 8 - i
  {
    if i >= |s| then Err(UnexpectedEof(i))
    else
      var b: int := s[i];
      if i == 8 then Ok((acc * 256 + b, 9))
      else if b < 128 then Ok((acc * 128 + b, i + 1))
      else VarintFrom(s, i + 1, acc * 128 + b % 128)
  }

  /** The value, and how many bytes it takes. */
  function DecodeVarint(s: seq<byte>): (r: Result<(nat, nat), CellError>)
    ensures r.Ok? ==> 1 <= r.value.1 <= 9 && r.value.1 <= |s|
  {
    VarintFrom(s, 0, 0)
  }

  lemma {:induction false} VarintBytes(s: seq<byte>, t: seq<byte>, i: nat, acc: nat)
    requires i <= 8 && VarintFrom(s, i, acc).Ok? && VarintFrom(s, i, acc).value.1 <= |t|
    requires s[..VarintFrom(s, i, acc).value.1] == t[..VarintFrom(s, i, acc).value.1]
    ensures VarintFrom(t, i, acc) == VarintFrom(s, i, acc)
    decreases 8 - i
  {
    var n := VarintFrom(s, i, acc).value.1;
    assert s[i] == s[..n][i] == t[..n][i] == t[i];
    if i < 8 && s[i] >= 128 {
      VarintBytes(s, t, i + 1, acc * 128 + s[i] % 128);
    }
  }

  /** A varint is read off its own bytes alone. */
  lemma DecodedBytes(s: seq<byte>, t: seq<byte>)
    requires DecodeVarint(s).Ok? && DecodeVarint(s).value.1 <= |t|
    requires s[..DecodeVarint(s).value.1] == t[..DecodeVarint(s).value.1]
    ensures DecodeVarint(t) == DecodeVarint(s)
  {
    VarintBytes(s, t, 0, 0);
  }

  /** The loop of the decoder. */
  method ReadVarint(s: seq<byte>) returns (r: Result<(nat, nat), CellError>)
    ensures r == DecodeVarint(s)
  {
    var result: nat := 0;
    for i := 0 to 8
      invariant VarintFrom(s, i, result) == DecodeVarint(s)
    {
      if i >= |s| {
        return Err(UnexpectedEof(i));
      }
      var b: int := s[i];
      if b < 128 {
        return Ok((result * 128 + b, i + 1));
      }
      result := result * 128 + b % 128;
    }
    if |s| <= 8 {
      return Err(UnexpectedEof(8));
    }
    return Ok((result * 256 + s[8], 9));
  }

  function Power128(n: nat): nat { if n == 0 then 1 else 128 * Power128(n - 1) }

  /** The low seven bits of each byte as the digits of a number, the first one highest. */
  function Digits(s: seq<byte>): nat
  {
    if s == [] then 0 else (s[0] % 128) * Power128(|s| - 1) + Digits(s[1..])
  }

  lemma {:induction false} DigitsSnoc(s: seq<byte>, b: byte)
    ensures Digits(s + [b]) == Digits(s) * 128 + b % 128
  {
    if s == [] {
      assert (s + [b])[1..] == [];
    } else {
      assert (s + [b])[1..] == s[1..] + [b];
      DigitsSnoc(s[1..], b);
      Shifted(s[0] % 128, Power128(|s| - 1), Digits(s[1..]));
    }
  }

  lemma Shifted(x: nat, p: nat, r: nat)
    ensures x * (128 * p) + (r * 128) == (x * p + r) * 128
  {
  }

  /** `s` starts with a varint of `n` bytes: the high bit is set on all but the last, and a
      ninth byte is always the last. */
  predicate VarintEnds(s: seq<byte>, n: nat)
  {
    1 <= n <= 9 && n <= |s| && (forall i :: 0 <= i < n - 1 ==> s[i] >= 128) && (n < 9 ==> s[n - 1] < 128)
  }

  /** The base-128 number of the low seven bits, or of eight bytes' followed by a full ninth
      byte. */
  function VarintValue(s: seq<byte>, n: nat): nat
    requires n <= |s|
  {
    if n == 9 then Digits(s[..8]) * 256 + s[8] else Digits(s[..n])
  }

  lemma {:induction false} VarintReads(s: seq<byte>, i: nat, n: nat)
    requires VarintEnds(s, n) && i < n
    ensures VarintFrom(s, i, Digits(s[..i])) == Ok((VarintValue(s, n), n))
    decreases n - i
  {
    hide Digits;
    assert s[..i] + [s[i]] == s[..i + 1];
    DigitsSnoc(s[..i], s[i]);
    if i + 1 < n {
      VarintReads(s, i + 1, n);
    }
  }

  /** Where a varint read on from byte `i` ends. */
  function StopAt(s: seq<byte>, i: nat): (n: nat)
    requires i <= 8
    decreases 8 - i
  {
    if i == 8 || i >= |s| || s[i] < 128 then i + 1 else StopAt(s, i + 1)
  }

  lemma {:induction false} VarintLength(s: seq<byte>, i: nat, acc: nat)
    requires i <= 8
    ensures VarintFrom(s, i, acc).Ok? ==> VarintFrom(s, i, acc).value.1 == StopAt(s, i) <= |s|
    decreases 8 - i
  {
    if i < 8 && i < |s| && s[i] >= 128 {
      VarintLength(s, i + 1, acc * 128 + s[i] % 128);
    }
  }

  lemma {:induction false} StopEnds(s: seq<byte>, i: nat)
    requires i <= 8 && StopAt(s, i) <= |s| && forall j :: 0 <= j < i && j < |s| ==> s[j] >= 128
    ensures VarintEnds(s, StopAt(s, i))
    decreases 8 - i
  {
    if i < 8 && s[i] >= 128 {
      StopEnds(s, i + 1);
    }
  }

  /** What a varint is: bytes decode if and only if some prefix of them is one, and then to
      its value. */
  lemma VarintIs(s: seq<byte>)
    ensures DecodeVarint(s).Ok? <==> exists n: nat :: VarintEnds(s, n)
    ensures forall n: nat :: VarintEnds(s, n) ==> DecodeVarint(s) == Ok((VarintValue(s, n), n))
  {
    hide VarintFrom, VarintValue;
    forall n: nat | VarintEnds(s, n) ensures DecodeVarint(s) == Ok((VarintValue(s, n), n)) {
      assert s[..0] == [];
      VarintReads(s, 0, n);
    }
    if DecodeVarint(s).Ok? {
      VarintLength(s, 0, 0);
      StopEnds(s, 0);
    }
  }

  const TWO_63: nat := 0x8000_0000_0000_0000
  const TWO_64: nat := 0x1_0000_0000_0000_0000

  /** A 64-bit pattern read as a signed integer. */
  function Signed(v: nat): int { if v < TWO_63 then v else v - TWO_64 }

  /** The signed number with that pattern: in range, and the same modulo 2^64. */
  lemma SignedIs(v: nat)
    requires v < TWO_64
    ensures 0 - TWO_63 <= Signed(v) < TWO_63 && (Signed(v) - v) % TWO_64 == 0
  {
  }

  // ------------------------------------------------------------- local payload

  function Monus(a: nat, b: nat): nat { if a >= b then a - b else 0 }

  /** The largest payload kept whole on its page. */
  function MaxLocal(usable: nat, isIndex: bool): nat
  {
    if isIndex then Monus(Monus(usable, 12) * 64 / 255, 23) else Monus(usable, 35)
  }

  function MinLocal(usable: nat): nat { Monus(Monus(usable, 12) * 32 / 255, 23) }

  /** How many payload bytes an overflow page takes. */
  function PerOverflowPage(usable: nat): nat { if Monus(usable, 4) == 0 then 1 else Monus(usable, 4) }

  /** How much of a payload stays on the page, the rest going to overflow pages. */
  function LocalPayloadSize(usable: nat, payload: nat, isIndex: bool): (r: nat)
    ensures r <= payload
  {
    var maxLocal := MaxLocal(usable, isIndex);
    if payload <= maxLocal then payload
    else
      var minLocal := MinLocal(usable);
      var denom := PerOverflowPage(usable);
      var k := minLocal + Monus(payload, minLocal) % denom;
      MinLocalBelow(usable);
      LocalWithin(payload, minLocal, denom);
      if k <= maxLocal then k else minLocal
  }

  /** A payload overflows exactly above the limit. What stays then lies between the two
      limits and either is the smaller one or leaves whole overflow pages full, and a cell
      of it, with its varints and pointers, fits on a page of its own. */
  lemma LocalPart(usable: nat, payload: nat, isIndex: bool)
    ensures var r := LocalPayloadSize(usable, payload, isIndex);
            && (r == payload <==> payload <= MaxLocal(usable, isIndex))
            && (r < payload ==> MinLocal(usable) <= r <= MaxLocal(usable, isIndex))
            && (r < payload ==> r == MinLocal(usable) || exists n :: payload - r == Span(n, PerOverflowPage(usable)))
            && (usable >= 480 ==> r + 35 <= usable)
  {
    var minLocal, denom := MinLocal(usable), PerOverflowPage(usable);
    MinLocalBelow(usable);
    if payload > MaxLocal(usable, isIndex) {
      WholePages(payload - minLocal, denom);
    }
  }

  /** Keeping `v` bytes on the page would be allowed, and leave every overflow page full. */
  predicate Suits(usable: nat, payload: nat, isIndex: bool, v: nat)
  {
    MinLocal(usable) <= v <= MaxLocal(usable, isIndex) && v <= payload && (payload - v) % PerOverflowPage(usable) == 0
  }

  /** Of a payload that overflows, what stays is the least amount that suits, or the smaller
      limit if none does. */
  lemma LocalIsLeast(usable: nat, payload: nat, isIndex: bool)
    requires payload > MaxLocal(usable, isIndex)
    ensures var r := LocalPayloadSize(usable, payload, isIndex);
            if exists v :: Suits(usable, payload, isIndex, v)
            then Suits(usable, payload, isIndex, r) && forall v :: Suits(usable, payload, isIndex, v) ==> r <= v
            else r == MinLocal(usable)
  {
    hide MinLocal, MaxLocal, PerOverflowPage;
    MinLocalBelow(usable);
    PerPositive(usable);
    var low, per := MinLocal(usable), PerOverflowPage(usable);
    var d := payload - low;
    var k := low + d % per;
    WholePages(d, per);
    SpanMod(d / per, per, 0);
    forall v: nat | Suits(usable, payload, isIndex, v) ensures k <= v {
      SameRemainder(d, v - low, per);
    }
    LocalCases(usable, payload, isIndex);
  }

  lemma LocalCases(usable: nat, payload: nat, isIndex: bool)
    requires payload > MaxLocal(usable, isIndex)
    ensures PerOverflowPage(usable) > 0 && MinLocal(usable) <= payload
    ensures var k := MinLocal(usable) + (payload - MinLocal(usable)) % PerOverflowPage(usable);
            LocalPayloadSize(usable, payload, isIndex) == if k <= MaxLocal(usable, isIndex) then k else MinLocal(usable)
  {
    hide MinLocal, MaxLocal;
    MinLocalBelow(usable);
  }

  lemma PerPositive(usable: nat)
    ensures PerOverflowPage(usable) > 0
  {
  }

  lemma SpanMod(n: nat, size: nat, extra: nat)
    requires extra < size
    ensures (Span(n, size) + extra) % size == extra
  {
    SpanDivides(n, size, extra);
    SpanIsProduct(n, size);
    var x := Span(n, size) + extra;
    assert x == size * (x / size) + x % size;
  }

  /** Numbers a whole number of pages apart leave the same remainder, which is not above
      the smaller one. */
  lemma SameRemainder(d: nat, e: nat, per: nat)
    requires per > 0 && e <= d && (d - e) % per == 0
    ensures d % per == e % per <= e
  {
    WholePages(d - e, per);
    WholePages(e, per);
    var q, a := (d - e) / per, e / per;
    SpanAdd(q, a, per);
    SpanMod(q + a, per, e % per);
  }

  /** With any usable size from 480 on, a table leaf keeps all but 35 bytes, and an index cell
      with 23 bytes more takes at most 64 of each 255 bytes behind the header, half of that
      at the smaller limit, and with another byte more than that. */
  lemma LocalShares(usable: nat)
    requires usable >= 480
    ensures MaxLocal(usable, false) + 35 == usable && PerOverflowPage(usable) + 4 == usable
    ensures 255 * (MaxLocal(usable, true) + 23) <= 64 * (usable - 12) < 255 * (MaxLocal(usable, true) + 24)
    ensures 255 * (MinLocal(usable) + 23) <= 32 * (usable - 12) < 255 * (MinLocal(usable) + 24)
  {
  }

  /** The limits for every page size without reserved bytes. */
  lemma LocalLimits()
    ensures MaxLocal(512, false) == 477 && MaxLocal(512, true) == 102 && MinLocal(512) == 39 && PerOverflowPage(512) == 508
    ensures MaxLocal(1024, false) == 989 && MaxLocal(1024, true) == 230 && MinLocal(1024) == 103 && PerOverflowPage(1024) == 1020
    ensures MaxLocal(2048, false) == 2013 && MaxLocal(2048, true) == 487 && MinLocal(2048) == 232 && PerOverflowPage(2048) == 2044
    ensures MaxLocal(4096, false) == 4061 && MaxLocal(4096, true) == 1002 && MinLocal(4096) == 489 && PerOverflowPage(4096) == 4092
    ensures MaxLocal(8192, false) == 8157 && MaxLocal(8192, true) == 2030 && MinLocal(8192) == 1003 && PerOverflowPage(8192) == 8188
    ensures MaxLocal(16384, false) == 16349 && MaxLocal(16384, true) == 4086 && MinLocal(16384) == 2031 && PerOverflowPage(16384) == 16380
    ensures MaxLocal(32768, false) == 32733 && MaxLocal(32768, true) == 8198 && MinLocal(32768) == 4087 && PerOverflowPage(32768) == 32764
    ensures MaxLocal(65536, false) == 65501 && MaxLocal(65536, true) == 16422 && MinLocal(65536) == 8199 && PerOverflowPage(65536) == 65532
  {
  }

  lemma WholePages(d: nat, denom: nat)
    requires denom > 0
    ensures d % denom <= d && d - d % denom == Span(d / denom, denom)
  {
    SpanIsProduct(d / denom, denom);
  }

  lemma LocalWithin(payload: nat, minLocal: nat, denom: nat)
    requires denom > 0
    ensures minLocal <= payload ==> minLocal + Monus(payload, minLocal) % denom <= payload
  {
    if minLocal <= payload {
      var d := payload - minLocal;
      assert d % denom <= d;
    }
  }

  /** The smaller limit is within both larger ones. */
  lemma MinLocalBelow(usable: nat)
    ensures MinLocal(usable) <= MaxLocal(usable, true) && MinLocal(usable) <= MaxLocal(usable, false)
  {
    var u := Monus(usable, 12);
    assert u * 32 / 255 <= u * 64 / 255;
    assert u * 32 / 255 <= u;
  }

  // ---------------------------------------------------------------------- cells

  /** The shape of a page's cells: table leaves carry a rowid, index leaves do not. */
  datatype Kind = Kind(usable: nat, hasRowid: bool)

  /** Payload length, rowid and length of the head of the cell `s` starts with. */
  function CellHead(s: seq<byte>, hasRowid: bool): (r: Result<(nat, nat, nat), CellError>)
    ensures r.Ok? ==> 1 <= r.value.2 <= |s|
  {
    var len :- DecodeVarint(s);
    if !hasRowid then Ok((len.0, 0, len.1))
    else
      var rowid :- DecodeVarint(s[len.1..]);
      Ok((len.0, rowid.0, len.1 + rowid.1))
  }

  /** How many bytes the cell `s` starts with takes on its page. */
  function CellLen(s: seq<byte>, k: Kind): (r: Result<nat, CellError>)
    ensures r.Ok? ==> r.value >= 1
  {
    var head :- CellHead(s, k.hasRowid);
    var local := LocalPayloadSize(k.usable, head.0, !k.hasRowid);
    Ok(head.2 + local + if local < head.0 then 4 else 0)
  }

  /** A cell starts with a varint of `n` bytes for its payload's length and, on a table leaf,
      another of `m` bytes for the rowid. */
  lemma HeadIs(s: seq<byte>, hasRowid: bool, n: nat, m: nat)
    requires VarintEnds(s, n) && if hasRowid then VarintEnds(s[n..], m) else m == 0
    ensures CellHead(s, hasRowid) == Ok((VarintValue(s, n), if hasRowid then VarintValue(s[n..], m) else 0, n + m))
  {
    hide DecodeVarint, VarintValue;
    VarintIs(s);
    VarintIs(s[n..]);
  }

  /** On its page a cell takes its varints, the part of the payload that stays, and four bytes
      for the overflow pointer if any of it does not. */
  lemma CellLenIs(s: seq<byte>, k: Kind, n: nat, m: nat)
    requires VarintEnds(s, n) && if k.hasRowid then VarintEnds(s[n..], m) else m == 0
    ensures var payload := VarintValue(s, n);
            var local := LocalPayloadSize(k.usable, payload, !k.hasRowid);
            CellLen(s, k) == Ok(n + m + local + if payload <= MaxLocal(k.usable, !k.hasRowid) then 0 else 4)
  {
    hide CellHead, VarintValue, LocalPayloadSize;
    HeadIs(s, k.hasRowid, n, m);
    LocalPart(k.usable, VarintValue(s, n), !k.hasRowid);
  }

  lemma HeadBytes(s: seq<byte>, t: seq<byte>, hasRowid: bool)
    requires CellHead(s, hasRowid).Ok? && CellHead(s, hasRowid).value.2 <= |t|
    requires s[..CellHead(s, hasRowid).value.2] == t[..CellHead(s, hasRowid).value.2]
    ensures CellHead(t, hasRowid) == CellHead(s, hasRowid)
  {
    hide DecodeVarint;
    var n := CellHead(s, hasRowid).value.2;
    var m := DecodeVarint(s).value.1;
    assert s[..m] == s[..n][..m] && t[..m] == t[..n][..m];
    DecodedBytes(s, t);
    if hasRowid {
      assert s[m..][..n - m] == s[..n][m..] && t[m..][..n - m] == t[..n][m..];
      DecodedBytes(s[m..], t[m..]);
    }
  }

  /** A cell's length is read off the cell's own bytes, wherever they lie. */
  lemma CellBytes(s: seq<byte>, t: seq<byte>, k: Kind)
    requires CellLen(s, k).Ok? && CellLen(s, k).value <= |s| && CellLen(s, k).value <= |t|
    requires s[..CellLen(s, k).value] == t[..CellLen(s, k).value]
    ensures CellLen(t, k) == CellLen(s, k)
  {
    hide LocalPayloadSize, DecodeVarint;
    var n := CellLen(s, k).value;
    var m := CellHead(s, k.hasRowid).value.2;
    assert s[..m] == s[..n][..m] && t[..m] == t[..n][..m];
    HeadBytes(s, t, k.hasRowid);
  }
}
