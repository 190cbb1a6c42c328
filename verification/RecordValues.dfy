/** What the values in a record are, told without the decoder: integers by their bytes, text
    by its characters. */
module RecordValues {
  import opened Bytes
  import opened Cells
  import opened IndexKeys
  import opened Records

  // ------------------------------------------------------------------------- integers

  /** `n` in `len` big-endian bytes. */
  function BytesOf(n: nat, len: nat): seq<byte>
  {
    if len == 0 then [] else BytesOf(n / 256, len - 1) + [n % 256]
  }

  /** `b` is `v` in two's complement: `v` is in range, and `b` are its bytes, those of
      `v + 256^|b|` if it is negative. */
  predicate Encodes(v: int, b: seq<byte>)
  {
    && b != [] && 0 - Power256(|b|) <= 2 * v < Power256(|b|)
    && b == BytesOf(if v < 0 then v + Power256(|b|) else v, |b|)
  }

  lemma {:induction false} BigEndianBytes(b: seq<byte>)
    ensures BigEndian(b) < Power256(|b|) && BytesOf(BigEndian(b), |b|) == b
  {
    if b != [] {
      var n := |b| - 1;
      BigEndianBytes(b[..n]);
      assert b == b[..n] + [b[n]];
      assert (BigEndian(b[..n]) * 256 + b[n]) / 256 == BigEndian(b[..n]);
    }
  }

  /** The first byte decides in which half the number lies. */
  lemma {:induction false} HighByte(b: seq<byte>)
    requires b != []
    ensures b[0] * Power256(|b| - 1) <= BigEndian(b) < (b[0] + 1) * Power256(|b| - 1)
  {
    var n := |b| - 1;
    if n == 0 {
      assert b[..0] == [];
    } else {
      HighByte(b[..n]);
      Carry(b[0], Power256(n - 1), BigEndian(b[..n]), b[n]);
    }
  }

  lemma Carry(x: nat, p: nat, r: nat, y: byte)
    requires x * p <= r < (x + 1) * p
    ensures x * (256 * p) <= r * 256 + y < (x + 1) * (256 * p)
  {
    assert x * (256 * p) == (x * p) * 256 && (x + 1) * (256 * p) == ((x + 1) * p) * 256;
    assert r + 1 <= (x + 1) * p;
  }

  lemma Halves(x: byte, p: nat, v: nat)
    requires x * p <= v < (x + 1) * p
    ensures x >= 128 ==> 2 * v >= 256 * p
    ensures x < 128 ==> 2 * v < 256 * p
  {
    if x >= 128 { Monotone(128, x, p); } else { Monotone(x + 1, 128, p); }
  }

  lemma Monotone(a: nat, b: nat, p: nat)
    requires a <= b
    ensures a * p <= b * p
  {
  }

  /** The integer read from a body is the one whose bytes the body is. */
  lemma IntegerIs(b: seq<byte>)
    requires b != []
    ensures Encodes(TwosComplement(b), b) && (TwosComplement(b) < 0 <==> b[0] >= 128)
  {
    hide BigEndian, BytesOf;
    BigEndianBytes(b);
    HighByte(b);
    Halves(b[0], Power256(|b| - 1), BigEndian(b));
  }

  lemma {:induction false} BytesOfInjective(m: nat, n: nat, len: nat)
    requires m < Power256(len) && n < Power256(len) && BytesOf(m, len) == BytesOf(n, len)
    ensures m == n
  {
    if len > 0 {
      var a, b := BytesOf(m / 256, len - 1), BytesOf(n / 256, len - 1);
      BytesOfLength(m / 256, len - 1);
      BytesOfLength(n / 256, len - 1);
      assert a == (a + [m % 256])[..len - 1] && b == (b + [n % 256])[..len - 1];
      assert (a + [m % 256])[len - 1] == m % 256 && (b + [n % 256])[len - 1] == n % 256;
      BytesOfInjective(m / 256, n / 256, len - 1);
    }
  }

  lemma {:induction false} BytesOfLength(n: nat, len: nat)
    ensures |BytesOf(n, len)| == len
  {
    if len > 0 { BytesOfLength(n / 256, len - 1); }
  }

  /** No other integer has those bytes. */
  lemma OneInteger(v: int, w: int, b: seq<byte>)
    requires Encodes(v, b) && Encodes(w, b)
    ensures v == w
  {
    var p := Power256(|b|);
    BytesOfInjective(if v < 0 then v + p else v, if w < 0 then w + p else w, |b|);
  }

  // ---------------------------------------------------------------------------- reals

  lemma {:induction false} Prepended(x: byte, b: seq<byte>)
    ensures BigEndian([x] + b) == x * Power256(|b|) + BigEndian(b)
  {
    if b == [] {
      assert ([x] + b)[..0] == [];
    } else {
      var n := |b| - 1;
      assert ([x] + b)[..|b|] == [x] + b[..n];
      Prepended(x, b[..n]);
      Shift256(x, Power256(n), BigEndian(b[..n]));
    }
  }

  lemma Shift256(x: nat, p: nat, r: nat)
    ensures (x * p + r) * 256 == x * (256 * p) + r * 256
  {
  }

  lemma {:induction false} ZeroBytes(b: seq<byte>)
    ensures BigEndian(b) == 0 <==> forall i :: 0 <= i < |b| ==> b[i] == 0
  {
    if b != [] {
      var n := |b| - 1;
      ZeroBytes(b[..n]);
      assert forall i :: 0 <= i < n ==> b[..n][i] == b[i];
      if BigEndian(b) == 0 { assert BigEndian(b[..n]) == 0 && b[n] == 0; }
    }
  }

  /** Eight bytes are no number exactly if, sign aside, they lie above the pattern of infinity. */
  lemma NanIs(b: seq<byte>)
    requires |b| == 8
    ensures IsNan(b) <==> BigEndian(b) % 0x8000_0000_0000_0000 > 0x7FF0_0000_0000_0000
  {
    hide BigEndian;
    var rest := b[2..];
    assert b == [b[0]] + ([b[1]] + rest);
    Prepended(b[0], [b[1]] + rest);
    Prepended(b[1], rest);
    BigEndianBytes(rest);
    ZeroBytes(rest);
    assert forall i :: 2 <= i < 8 ==> b[i] == rest[i - 2];
    Powers();
    AboveInfinity(b[0], b[1], BigEndian(rest));
  }

  lemma Powers()
    ensures Power256(6) == 0x1_0000_0000_0000 && Power256(7) == 0x100_0000_0000_0000
  {
    assert Power256(3) == 0x100_0000;
    assert Power256(5) == 0x100_0000_0000;
  }

  lemma AboveInfinity(x: byte, y: byte, r: nat)
    requires r < 0x1_0000_0000_0000
    ensures var v := x * 0x100_0000_0000_0000 + (y * 0x1_0000_0000_0000 + r);
            v % 0x8000_0000_0000_0000 > 0x7FF0_0000_0000_0000 <==> x % 128 == 127 && y >= 240 && (y > 240 || r > 0)
  {
    var low := (x % 128) * 0x100_0000_0000_0000 + (y * 0x1_0000_0000_0000 + r);
    assert x * 0x100_0000_0000_0000 + (y * 0x1_0000_0000_0000 + r) == (x / 128) * 0x8000_0000_0000_0000 + low;
  }

  // -------------------------------------------------------------------------- columns

  /** The width each serial type takes, and what kind of value it stands for. */
  lemma Widths(serial: nat)
    ensures BodyLen(0) == 0 && BodyLen(1) == 1 && BodyLen(2) == 2 && BodyLen(3) == 3 && BodyLen(4) == 4 && BodyLen(5) == 6
         && BodyLen(6) == 8 && BodyLen(7) == 8 && BodyLen(8) == 0 && BodyLen(9) == 0 && BodyLen(10) == 0 && BodyLen(11) == 0
    ensures serial >= 12 ==> serial == 2 * BodyLen(serial) + (if IsText(serial) then 13 else 12)
  {
  }

  /** The value of a column by its serial type: NULL, the constants 0 and 1, an integer by its
      bytes, a real unless it is no number, text, or the bytes themselves. */
  lemma ColumnIs(serial: nat, payload: seq<byte>, pos: nat, enc: TextEncoding)
    requires BodyDecodes(serial, payload, pos, enc)
    ensures var c := ColumnAt(serial, payload, pos, enc);
            && (serial in {0, 10, 11} ==> c == Plain(Null)) && (serial == 8 ==> c == Plain(Integer(0))) && (serial == 9 ==> c == Plain(Integer(1)))
            && (serial in {1, 2, 3, 4, 5, 6} ==>
                  pos + BodyLen(serial) <= |payload| && c.Plain? && c.value.Integer? && Encodes(c.value.i, payload[pos..pos + BodyLen(serial)]))
            && (serial == 7 ==> pos + 8 <= |payload| && c == if IsNan(payload[pos..pos + 8]) then Plain(Null) else Real(payload[pos..pos + 8]))
            && (serial >= 12 ==> pos + BodyLen(serial) <= |payload|)
            && (serial >= 12 && serial % 2 == 0 ==> c == Plain(Blob(payload[pos..pos + BodyLen(serial)])))
            && (serial >= 13 && serial % 2 == 1 ==> TextDecodes(payload[pos..pos + BodyLen(serial)], enc)
                                                    && c == Plain(Text(TextOf(payload[pos..pos + BodyLen(serial)], enc))))
  {
    hide TwosComplement, Encodes, IsNan, TextDecodes, TextOf;
    if 1 <= serial <= 6 { IntegerIs(payload[pos..pos + BodyLen(serial)]); }
  }

  // -------------------------------------------------------------------------- records

  /** The serial types stand one after another at `ps`, the last ending at `headerLen`. */
  ghost predicate TypesAt(payload: seq<byte>, headerLen: nat, ps: seq<nat>, serials: seq<nat>)
  {
    && |ps| == |serials| + 1 && ps[|serials|] == headerLen
    && forall i :: 0 <= i < |serials| ==> TypeAt(payload, headerLen, ps[i], serials[i], ps[i + 1])
  }

  predicate TypeAt(payload: seq<byte>, headerLen: nat, at: nat, serial: nat, next: nat)
  {
    at < next <= headerLen && at <= |payload| && DecodeVarint(payload[at..]) == Ok((serial, next - at))
  }

  /** The bodies stand one after another at `bs`, the last ending with the payload, and their
      values are `cs`. */
  ghost predicate BodiesAt(payload: seq<byte>, enc: TextEncoding, serials: seq<nat>, bs: seq<nat>, cs: seq<Column>)
  {
    && |bs| == |serials| + 1 && |cs| == |serials| && bs[|serials|] == |payload|
    && forall i :: 0 <= i < |serials| ==> BodyAt(payload, enc, serials[i], bs[i], bs[i + 1], cs[i])
  }

  predicate BodyAt(payload: seq<byte>, enc: TextEncoding, serial: nat, at: nat, next: nat, c: Column)
  {
    BodyDecodes(serial, payload, at, enc) && next == at + BodyLen(serial) && c == ColumnAt(serial, payload, at, enc)
  }

  lemma {:induction false} TypesRead(payload: seq<byte>, headerLen: nat, ps: seq<nat>, serials: seq<nat>)
    requires TypesAt(payload, headerLen, ps, serials)
    ensures SerialTypes(payload, ps[0], headerLen) == Some(serials)
    decreases |serials|
  {
    hide DecodeVarint;
    if serials != [] {
      assert TypeAt(payload, headerLen, ps[0], serials[0], ps[1]);
      TypesTail(payload, headerLen, ps, serials);
      TypesRead(payload, headerLen, ps[1..], serials[1..]);
      assert serials == [serials[0]] + serials[1..];
    }
  }

  lemma TypesTail(payload: seq<byte>, headerLen: nat, ps: seq<nat>, serials: seq<nat>)
    requires TypesAt(payload, headerLen, ps, serials) && serials != []
    ensures TypesAt(payload, headerLen, ps[1..], serials[1..])
  {
    hide TypeAt;
    forall i | 0 <= i < |serials[1..]| ensures TypeAt(payload, headerLen, ps[1..][i], serials[1..][i], ps[1..][i + 1]) {
      assert TypeAt(payload, headerLen, ps[i + 1], serials[i + 1], ps[i + 2]);
    }
  }

  lemma {:induction false} BodiesRead(payload: seq<byte>, enc: TextEncoding, serials: seq<nat>, bs: seq<nat>, cs: seq<Column>)
    requires BodiesAt(payload, enc, serials, bs, cs)
    ensures BodiesEnd(serials, payload, bs[0], enc) == Some(|payload|) && ColumnsFrom(serials, payload, bs[0], enc) == cs
    decreases |serials|
  {
    hide BodyDecodes, BodyLen, ColumnAt;
    if serials != [] {
      assert BodyAt(payload, enc, serials[0], bs[0], bs[1], cs[0]);
      BodiesTail(payload, enc, serials, bs, cs);
      BodiesRead(payload, enc, serials[1..], bs[1..], cs[1..]);
      assert cs == [cs[0]] + cs[1..];
    }
  }

  lemma BodiesTail(payload: seq<byte>, enc: TextEncoding, serials: seq<nat>, bs: seq<nat>, cs: seq<Column>)
    requires BodiesAt(payload, enc, serials, bs, cs) && serials != []
    ensures BodiesAt(payload, enc, serials[1..], bs[1..], cs[1..])
  {
    hide BodyAt;
    forall i | 0 <= i < |serials[1..]| ensures BodyAt(payload, enc, serials[1..][i], bs[1..][i], bs[1..][i + 1], cs[1..][i]) {
      assert BodyAt(payload, enc, serials[i + 1], bs[i + 1], bs[i + 2], cs[i + 1]);
    }
  }

  /** A payload laid out as a record decodes to its values. */
  lemma RecordDecodes(payload: seq<byte>, enc: TextEncoding, headerLen: nat, ps: seq<nat>, serials: seq<nat>, bs: seq<nat>, cs: seq<Column>)
    requires ps != [] && bs != [] && DecodeVarint(payload) == Ok((headerLen, ps[0])) && bs[0] == headerLen && ps[0] <= headerLen
    requires TypesAt(payload, headerLen, ps, serials) && BodiesAt(payload, enc, serials, bs, cs)
    ensures Decodes(payload, enc) && Decoded(payload, enc) == cs
  {
    hide DecodeVarint, SerialTypes, BodiesEnd, ColumnsFrom, TypesAt, BodiesAt;
    TypesRead(payload, headerLen, ps, serials);
    BodiesRead(payload, enc, serials, bs, cs);
  }

  lemma {:induction false} TypesFound(payload: seq<byte>, pos: nat, headerLen: nat) returns (ps: seq<nat>)
    requires pos <= headerLen && SerialTypes(payload, pos, headerLen).Some?
    ensures ps != [] && ps[0] == pos && TypesAt(payload, headerLen, ps, SerialTypes(payload, pos, headerLen).value)
    decreases headerLen - pos
  {
    hide DecodeVarint;
    if pos == headerLen {
      return [pos];
    }
    var next := pos + DecodeVarint(payload[pos..]).value.1;
    var rest := TypesFound(payload, next, headerLen);
    ps := [pos] + rest;
    var serials := SerialTypes(payload, pos, headerLen).value;
    forall i | 0 <= i < |serials| ensures TypeAt(payload, headerLen, ps[i], serials[i], ps[i + 1]) {
      if i > 0 { assert TypeAt(payload, headerLen, rest[i - 1], serials[1..][i - 1], rest[i]); }
    }
  }

  lemma {:induction false} BodiesFound(payload: seq<byte>, enc: TextEncoding, serials: seq<nat>, pos: nat) returns (bs: seq<nat>)
    requires BodiesEnd(serials, payload, pos, enc) == Some(|payload|)
    ensures bs != [] && bs[0] == pos && BodiesAt(payload, enc, serials, bs, ColumnsFrom(serials, payload, pos, enc))
    decreases |serials|
  {
    hide BodyDecodes, BodyLen, ColumnAt;
    if serials == [] {
      return [pos];
    }
    var rest := BodiesFound(payload, enc, serials[1..], pos + BodyLen(serials[0]));
    bs := [pos] + rest;
    var cs := ColumnsFrom(serials, payload, pos, enc);
    forall i | 0 <= i < |serials| ensures BodyAt(payload, enc, serials[i], bs[i], bs[i + 1], cs[i]) {
      if i > 0 { assert BodyAt(payload, enc, serials[1..][i - 1], rest[i - 1], rest[i], cs[1..][i - 1]); }
    }
  }

  /** And a payload that decodes is laid out so. */
  lemma RecordIs(payload: seq<byte>, enc: TextEncoding) returns (headerLen: nat, ps: seq<nat>, serials: seq<nat>, bs: seq<nat>)
    requires Decodes(payload, enc)
    ensures ps != [] && bs != [] && DecodeVarint(payload) == Ok((headerLen, ps[0])) && bs[0] == headerLen && ps[0] <= headerLen
    ensures TypesAt(payload, headerLen, ps, serials) && BodiesAt(payload, enc, serials, bs, Decoded(payload, enc))
  {
    hide DecodeVarint, SerialTypes, BodiesEnd, ColumnsFrom, TypesAt, BodiesAt;
    var head := DecodeVarint(payload).value;
    headerLen := head.0;
    serials := SerialTypes(payload, head.1, headerLen).value;
    ps := TypesFound(payload, head.1, headerLen);
    bs := BodiesFound(payload, enc, serials, headerLen);
  }

  // ----------------------------------------------------------------------------- text

  /** A character: a code point that is no surrogate. */
  predicate Scalar(c: nat) { c < 0xD800 || 0xE000 <= c < 0x110000 }

  predicate Scalars(cs: seq<nat>) { forall i :: 0 <= i < |cs| ==> Scalar(cs[i]) }

  function InUtf8(cs: seq<nat>): seq<byte>
    requires Scalars(cs)
  {
    if cs == [] then [] else Utf8Of(cs[0]) + InUtf8(cs[1..])
  }

  function TwoBytes(u: nat, little: bool): (b: seq<byte>)
    requires u < 0x10000
    ensures |b| == 2
  {
    if little then [u % 256, u / 256] else [u / 256, u % 256]
  }

  /** One unit, or for a character beyond the basic plane a high and a low surrogate. */
  function Utf16Of(c: nat, little: bool): (b: seq<byte>)
    requires Scalar(c)
    ensures |b| == 2 || |b| == 4
  {
    if c < 0x10000 then TwoBytes(c, little)
    else TwoBytes(0xD800 + (c - 0x10000) / 0x400, little) + TwoBytes(0xDC00 + (c - 0x10000) % 0x400, little)
  }

  function InUtf16(cs: seq<nat>, little: bool): (b: seq<byte>)
    requires Scalars(cs)
    ensures |b| % 2 == 0
  {
    if cs == [] then [] else Utf16Of(cs[0], little) + InUtf16(cs[1..], little)
  }

  lemma UnitOf(b: seq<byte>, i: nat, u: nat, little: bool)
    requires i + 2 <= |b| && u < 0x10000
    ensures b[i..i + 2] == TwoBytes(u, little) <==> Unit(b, i, little) == u
  {
    var x: int, y: int := b[i], b[i + 1];
    assert b[i..i + 2] == [b[i], b[i + 1]];
    if little { assert (y * 256 + x) / 256 == y; } else { assert (x * 256 + y) / 256 == x; }
  }

  /** Reading on from `i` through the units of `cs` gives exactly those characters. */
  lemma {:induction false} Utf16Reads(b: seq<byte>, i: nat, cs: seq<nat>, little: bool)
    requires |b| % 2 == 0 && i % 2 == 0 && i <= |b| && Scalars(cs) && b[i..] == InUtf16(cs, little)
    ensures ValidUtf16(b, i, little) && FromUtf16(b, i, little) == InUtf8(cs)
    decreases |cs|
  {
    hide Utf8Of, Unit, Utf16Of, CodePoint;
    if cs != [] {
      var c, rest := cs[0], cs[1..];
      var n := |Utf16Of(c, little)|;
      assert b[i..i + n] == b[i..][..n] == Utf16Of(c, little);
      assert b[i + n..] == b[i..][n..] == InUtf16(rest, little);
      Utf16Reads(b, i + n, rest, little);
      FirstUnits(b, i, c, little);
    }
  }

  lemma FirstUnits(b: seq<byte>, i: nat, c: nat, little: bool)
    requires Scalar(c) && i + |Utf16Of(c, little)| <= |b| && b[i..i + |Utf16Of(c, little)|] == Utf16Of(c, little)
    ensures |Utf16Of(c, little)| == if c < 0x10000 then 2 else 4
    ensures c < 0x10000 ==> Unit(b, i, little) == c
    ensures c >= 0x10000 ==> i + 4 <= |b| && var u, v := Unit(b, i, little), Unit(b, i + 2, little);
              0xD800 <= u < 0xDC00 && 0xDC00 <= v <= 0xDFFF && CodePoint(u, v) == c
  {
    hide TwoBytes;
    var e := Utf16Of(c, little);
    if c < 0x10000 {
      UnitOf(b, i, c, little);
    } else {
      assert b[i..i + 2] == e[..2] && b[i + 2..i + 4] == e[2..];
      UnitOf(b, i, 0xD800 + (c - 0x10000) / 0x400, little);
      UnitOf(b, i + 2, 0xDC00 + (c - 0x10000) % 0x400, little);
    }
  }

  /** The characters well-formed UTF-16 spells from `i` on. */
  lemma {:induction false} Utf16Spells(b: seq<byte>, i: nat, little: bool) returns (cs: seq<nat>)
    requires |b| % 2 == 0 && i % 2 == 0 && i <= |b| && ValidUtf16(b, i, little)
    ensures Scalars(cs) && b[i..] == InUtf16(cs, little)
    decreases |b| - i
  {
    hide Unit, TwoBytes;
    if i >= |b| {
      return [];
    }
    var u := Unit(b, i, little);
    var c, n := u, 2;
    UnitBelow(b, i, little);
    if 0xD800 <= u <= 0xDFFF {
      var v := Unit(b, i + 2, little);
      c, n := CodePoint(u, v), 4;
      SurrogatesOf(u, v);
      UnitOf(b, i, u, little);
      UnitOf(b, i + 2, v, little);
      assert b[i..i + 4] == b[i..i + 2] + b[i + 2..i + 4];
    } else {
      UnitOf(b, i, u, little);
    }
    var rest := Utf16Spells(b, i + n, little);
    cs := [c] + rest;
    assert b[i..] == b[i..i + n] + b[i + n..];
  }

  lemma UnitBelow(b: seq<byte>, i: nat, little: bool)
    requires i + 1 < |b|
    ensures Unit(b, i, little) < 0x10000
  {
  }

  lemma SurrogatesOf(u: nat, v: nat)
    requires 0xD800 <= u < 0xDC00 && 0xDC00 <= v <= 0xDFFF
    ensures var c := CodePoint(u, v);
            0x10000 <= c < 0x110000 && 0xD800 + (c - 0x10000) / 0x400 == u && 0xDC00 + (c - 0x10000) % 0x400 == v
  {
  }

  /** Bytes decode as UTF-16 if and only if they are some characters in UTF-16, and then to
      the same characters in UTF-8. */
  lemma Utf16Is(b: seq<byte>, little: bool)
    requires |b| % 2 == 0
    ensures ValidUtf16(b, 0, little) <==> exists cs :: Scalars(cs) && b == InUtf16(cs, little)
    ensures forall cs :: Scalars(cs) && b == InUtf16(cs, little) ==> ValidUtf16(b, 0, little) && FromUtf16(b, 0, little) == InUtf8(cs)
  {
    hide InUtf16, InUtf8, ValidUtf16, FromUtf16, Scalars;
    assert b[0..] == b;
    if ValidUtf16(b, 0, little) { var cs := Utf16Spells(b, 0, little); }
    forall cs | Scalars(cs) && b == InUtf16(cs, little) ensures ValidUtf16(b, 0, little) && FromUtf16(b, 0, little) == InUtf8(cs) {
      Utf16Reads(b, 0, cs, little);
    }
  }

  // ----------------------------------------------------------------- well-formed UTF-8

  /** The character a well-formed UTF-8 sequence starts with. */
  lemma CharacterAt(b: seq<byte>) returns (c: nat)
    requires Utf8Char(b) > 0
    ensures Scalar(c) && Utf8Of(c) == b[..Utf8Char(b)]
  {
    var n := Utf8Char(b);
    var x: int := b[0];
    if n == 1 {
      c := x;
    } else if n == 2 {
      c := (x - 0xC0) * 0x40 + (b[1] - 0x80);
    } else if n == 3 {
      c := ThreeByteCharacter(x, b[1], b[2]);
    } else {
      c := FourByteCharacter(x, b[1], b[2], b[3]);
    }
  }

  /** Six more bits. */
  lemma SixBits(q: nat, r: nat)
    requires r < 0x40
    ensures var c := q * 0x40 + r; c / 0x40 == q && c % 0x40 == r && c / 0x1000 == q / 0x40 && c / 0x40000 == q / 0x1000
  {
  }

  lemma ThreeByteCharacter(x: int, y: int, z: int) returns (c: nat)
    requires 0xE0 <= x < 0xF0 && 0x80 <= y <= 0xBF && 0x80 <= z <= 0xBF && (x == 0xE0 ==> y >= 0xA0) && (x == 0xED ==> y <= 0x9F)
    ensures Scalar(c) && Utf8Of(c) == [x, y, z]
  {
    var q := (x - 0xE0) * 0x40 + (y - 0x80);
    c := q * 0x40 + (z - 0x80);
    SixBits(x - 0xE0, y - 0x80);
    SixBits(q, z - 0x80);
  }

  lemma FourByteCharacter(x: int, y: int, z: int, u: int) returns (c: nat)
    requires 0xF0 <= x < 0xF5 && 0x80 <= y <= 0xBF && 0x80 <= z <= 0xBF && 0x80 <= u <= 0xBF && (x == 0xF0 ==> y >= 0x90) && (x == 0xF4 ==> y <= 0x8F)
    ensures Scalar(c) && Utf8Of(c) == [x, y, z, u]
  {
    var p := (x - 0xF0) * 0x40 + (y - 0x80);
    var q := p * 0x40 + (z - 0x80);
    c := q * 0x40 + (u - 0x80);
    SixBits(x - 0xF0, y - 0x80);
    SixBits(p, z - 0x80);
    SixBits(q, u - 0x80);
  }

  lemma {:induction false} Utf8Spells(b: seq<byte>) returns (cs: seq<nat>)
    requires ValidUtf8(b)
    ensures Scalars(cs) && b == InUtf8(cs)
    decreases |b|
  {
    hide Utf8Char, Utf8Of;
    if b == [] {
      return [];
    }
    var c := CharacterAt(b);
    var rest := Utf8Spells(b[Utf8Char(b)..]);
    cs := [c] + rest;
    assert b == b[..Utf8Char(b)] + b[Utf8Char(b)..];
  }

  lemma {:induction false} Utf8Reads(cs: seq<nat>)
    requires Scalars(cs)
    ensures ValidUtf8(InUtf8(cs))
  {
    hide Utf8Char, Utf8Of;
    if cs != [] {
      Utf8Reads(cs[1..]);
      OneCharacter(cs[0], InUtf8(cs[1..]));
    }
  }

  /** Bytes are well-formed UTF-8 if and only if they are some characters in UTF-8. */
  lemma Utf8Is(b: seq<byte>)
    ensures ValidUtf8(b) <==> exists cs :: Scalars(cs) && b == InUtf8(cs)
  {
    hide InUtf8, ValidUtf8, Scalars;
    if ValidUtf8(b) { var cs := Utf8Spells(b); }
    forall cs | Scalars(cs) && b == InUtf8(cs) ensures ValidUtf8(b) { Utf8Reads(cs); }
  }
}
