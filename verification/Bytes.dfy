/** Bytes, fixed-width big-endian fields, and in-place replacement of a byte
    range. Every on-disk structure of the storage engine is laid out with these. */
module Bytes {

  type byte = x: int | 0 <= x < 256
  type u16 = x: int | 0 <= x < 0x1_0000
  type u32 = x: int | 0 <= x < 0x1_0000_0000

  type Page = seq<byte>
  type PageMap = map<u32, Page>

  const U32_MAX: u32 := 0xFFFF_FFFF

  datatype Option<+T> = None | Some(value: T)

  /** A successful value or an error, as every fallible operation returns. */
  datatype Result<+T, +E> = Ok(value: T) | Err(error: E) {
    predicate IsFailure() { Err? }
    function PropagateFailure<U>(): Result<U, E>
      requires Err?
    {
      Err(error)
    }
    function Extract(): T
      requires Ok?
    {
      value
    }
  }

  function Min(a: nat, b: nat): nat { if a <= b then a else b }
  function Max(a: nat, b: nat): nat { if a >= b then a else b }

  function Members(s: seq<u32>): set<u32> { set x | x in s }

  function Zeros(n: nat): (z: seq<byte>)
    ensures |z| == n
    ensures forall i :: 0 <= i < n ==> z[i] == 0
  {
    seq(n, _ => 0)
  }

  /** `to_be_bytes` of a 16-bit value. */
  function BE16(v: u16): (b: seq<byte>)
    ensures |b| == 2
  {
    [v / 0x100, v % 0x100]
  }

  /** `to_be_bytes` of a 32-bit value: its high half, then its low half. */
  function BE32(v: u32): (b: seq<byte>)
    ensures |b| == 4
  {
    BE16(v / 0x1_0000) + BE16(v % 0x1_0000)
  }

  /** `u16::from_be_bytes` of the two bytes at `at`. */
  function U16At(b: seq<byte>, at: nat): u16
    requires at + 2 <= |b|
  {
    var high: int := b[at];
    high * 0x100 + b[at + 1]
  }

  /** `u32::from_be_bytes` of the four bytes at `at`. */
  function U32At(b: seq<byte>, at: nat): u32
    requires at + 4 <= |b|
  {
    var high: int := U16At(b, at);
    high * 0x1_0000 + U16At(b, at + 2)
  }

  /** `u32::from_le_bytes` of the four bytes at `at`. */
  function LE32At(b: seq<byte>, at: nat): u32
    requires at + 4 <= |b|
  {
    U32At([b[at + 3], b[at + 2], b[at + 1], b[at]], 0)
  }

  /** `buf` with `data` copied over the range starting at `at`. */
  function Put(buf: seq<byte>, at: nat, data: seq<byte>): (r: seq<byte>)
    requires at + |data| <= |buf|
    ensures |r| == |buf|
  {
    buf[..at] + data + buf[at + |data|..]
  }

  lemma PutHere(buf: seq<byte>, at: nat, data: seq<byte>)
    requires at + |data| <= |buf|
    ensures Put(buf, at, data)[at..at + |data|] == data
  {
  }

  /** Bytes outside a written range are the old ones. */
  lemma PutElsewhere(buf: seq<byte>, at: nat, data: seq<byte>, i: nat, j: nat)
    requires at + |data| <= |buf| && i <= j <= |buf| && (j <= at || at + |data| <= i)
    ensures Put(buf, at, data)[i..j] == buf[i..j]
  {
  }

  /** A written 16-bit field reads back as the value written. */
  lemma ReadBack16(b: seq<byte>, at: nat, v: u16)
    requires at + 2 <= |b| && b[at..at + 2] == BE16(v)
    ensures U16At(b, at) == v
  {
    assert b[at] == b[at..at + 2][0] && b[at + 1] == b[at..at + 2][1];
  }

  /** A written 32-bit field reads back as the value written. */
  lemma ReadBack32(b: seq<byte>, at: nat, v: u32)
    requires at + 4 <= |b| && b[at..at + 4] == BE32(v)
    ensures U32At(b, at) == v
  {
    assert b[at..at + 2] == b[at..at + 4][..2];
    assert b[at + 2..at + 4] == b[at..at + 4][2..];
    ReadBack16(b, at, v / 0x1_0000);
    ReadBack16(b, at + 2, v % 0x1_0000);
  }

  /** The two parts of a concatenation. */
  lemma Parts(a: seq<byte>, b: seq<byte>, n: nat)
    requires |a| == n
    ensures (a + b)[0..n] == a && (a + b)[n..n + |b|] == b
  {
  }

  /** Fields are big-endian. */
  lemma BigEndian16(b: seq<byte>, at: nat)
    requires at + 2 <= |b|
    ensures var x0: int, x1: int := b[at], b[at + 1]; U16At(b, at) == x0 * 0x100 + x1
  {
  }

  lemma BigEndian32(b: seq<byte>, at: nat)
    requires at + 4 <= |b|
    ensures var x0: int, x1: int, x2: int, x3: int := b[at], b[at + 1], b[at + 2], b[at + 3];
            U32At(b, at) == x0 * 0x100_0000 + x1 * 0x1_0000 + x2 * 0x100 + x3
  {
    BigEndian16(b, at);
    BigEndian16(b, at + 2);
  }

  /** A field read and written back is the bytes it was read from. */
  lemma WriteBack32(b: seq<byte>, at: nat)
    requires at + 4 <= |b|
    ensures BE32(U32At(b, at)) == b[at..at + 4]
  {
    var high, low := U16At(b, at), U16At(b, at + 2);
    assert U32At(b, at) / 0x1_0000 == high && U32At(b, at) % 0x1_0000 == low;
    assert BE16(high) == [b[at], b[at + 1]] && BE16(low) == [b[at + 2], b[at + 3]];
  }

  /** A field's value depends on its own bytes only. */
  lemma SameField32(b: seq<byte>, c: seq<byte>, at: nat, at': nat)
    requires at + 4 <= |b| && at' + 4 <= |c| && b[at..at + 4] == c[at'..at' + 4]
    ensures U32At(b, at) == U32At(c, at')
  {
    assert b[at] == b[at..at + 4][0] && b[at + 1] == b[at..at + 4][1];
    assert b[at + 2] == b[at..at + 4][2] && b[at + 3] == b[at..at + 4][3];
    assert c[at'] == b[at..at + 4][0] && c[at' + 1] == b[at..at + 4][1];
    assert c[at' + 2] == b[at..at + 4][2] && c[at' + 3] == b[at..at + 4][3];
  }

  /** `n * size`, by repeated addition: the length of `n` equal slots. */
  function Span(n: nat, size: nat): (r: nat)
  {
    if n == 0 then 0 else Span(n - 1, size) + size
  }

  lemma {:induction false} SpanAdd(m: nat, n: nat, size: nat)
    ensures Span(m + n, size) == Span(m, size) + Span(n, size)
  {
    if n > 0 {
      SpanAdd(m, n - 1, size);
    }
  }

  lemma {:induction false} SpanIsProduct(n: nat, size: nat)
    ensures Span(n, size) == n * size
  {
    if n > 0 {
      SpanIsProduct(n - 1, size);
      assert n * size == (n - 1) * size + size;
    }
  }

  /** Dividing a span, or a span and part of a slot, by the slot size counts the slots. */
  lemma {:induction false} SpanDivides(n: nat, size: nat, extra: nat)
    requires extra < size
    ensures (Span(n, size) + extra) / size == n
  {
    SpanIsProduct(n, size);
    var q := (n * size + extra) / size;
    assert q * size <= n * size + extra < q * size + size;
    if q < n {
      ProductGap(q, n, size);
    } else if n < q {
      ProductGap(n, q, size);
    }
  }

  lemma ProductGap(a: nat, b: nat, size: nat)
    requires a < b
    ensures a * size + size <= b * size
  {
    assert (a + 1) * size == a * size + size;
    assert (a + 1) * size <= b * size;
  }

  /** A slice of a slice, located in the whole. */
  lemma Within(b: seq<byte>, off: nat, e: seq<byte>, i: nat, j: nat)
    requires off + |e| <= |b| && b[off..off + |e|] == e && i <= j <= |e|
    ensures b[off + i..off + j] == e[i..j]
  {
    var x := b[off + i..off + j];
    forall k | 0 <= k < j - i
      ensures x[k] == e[i..j][k]
    {
      assert b[off..off + |e|][i + k] == e[i + k];
    }
  }
}
