/** What the bytes of a record say: a header of serial types, then a body for each, with
    text in the database's encoding. */
module Records {
  import opened Bytes
  import opened Cells
  import opened IndexKeys

  datatype TextEncoding = Utf8 | Utf16Le | Utf16Be

  // ------------------------------------------------------------------------------- text

  predicate Continues(b: seq<byte>, i: nat, lo: int, hi: int) { i < |b| && lo <= b[i] <= hi }

  /** The length of the well-formed UTF-8 character at the start of `b`, or 0. */
  function Utf8Char(b: seq<byte>): (n: nat)
    ensures n <= |b| && n <= 4
  {
    if b == [] then 0
    else if b[0] < 0x80 then 1
    else if b[0] < 0xC2 then 0
    else if b[0] < 0xE0 then if Continues(b, 1, 0x80, 0xBF) then 2 else 0
    else if b[0] < 0xF0 then
      var lo, hi := if b[0] == 0xE0 then 0xA0 else 0x80, if b[0] == 0xED then 0x9F else 0xBF;
      if Continues(b, 1, lo, hi) && Continues(b, 2, 0x80, 0xBF) then 3 else 0
    else if b[0] < 0xF5 then
      var lo, hi := if b[0] == 0xF0 then 0x90 else 0x80, if b[0] == 0xF4 then 0x8F else 0xBF;
      if Continues(b, 1, lo, hi) && Continues(b, 2, 0x80, 0xBF) && Continues(b, 3, 0x80, 0xBF) then 4 else 0
    else 0
  }

  predicate ValidUtf8(b: seq<byte>)
    decreases |b|
  {
    b == [] || (Utf8Char(b) > 0 && ValidUtf8(b[Utf8Char(b)..]))
  }

  function Unit(b: seq<byte>, i: nat, little: bool): nat
    requires i + 1 < |b|
  {
    var x: int, y: int := b[i], b[i + 1];
    if little then y * 256 + x else x * 256 + y
  }

  /** Surrogates come in pairs, high before low. */
  predicate ValidUtf16(b: seq<byte>, i: nat, little: bool)
    requires |b| % 2 == 0 && i % 2 == 0
    decreases |b| - i
  {
    if i >= |b| then true
    else
      var u := Unit(b, i, little);
      if u < 0xD800 || u > 0xDFFF then ValidUtf16(b, i + 2, little)
      else u < 0xDC00 && i + 3 < |b| && 0xDC00 <= Unit(b, i + 2, little) <= 0xDFFF && ValidUtf16(b, i + 4, little)
  }

  predicate TextDecodes(b: seq<byte>, enc: TextEncoding)
  {
    if enc == Utf8 then ValidUtf8(b) else |b| % 2 == 0 && ValidUtf16(b, 0, enc == Utf16Le)
  }

  function CodePoint(high: nat, low: nat): nat
    requires 0xD800 <= high < 0xDC00 && 0xDC00 <= low <= 0xDFFF
  {
    0x10000 + (high - 0xD800) * 0x400 + (low - 0xDC00)
  }

  /** A character in UTF-8. */
  function Utf8Of(c: nat): (b: seq<byte>)
    requires c < 0x110000
    ensures 1 <= |b| <= 4
  {
    if c < 0x80 then [c]
    else if c < 0x800 then [0xC0 + c / 0x40, 0x80 + c % 0x40]
    else if c < 0x10000 then [0xE0 + c / 0x1000, 0x80 + c / 0x40 % 0x40, 0x80 + c % 0x40]
    else [0xF0 + c / 0x40000, 0x80 + c / 0x1000 % 0x40, 0x80 + c / 0x40 % 0x40, 0x80 + c % 0x40]
  }

  function FromUtf16(b: seq<byte>, i: nat, little: bool): seq<byte>
    requires |b| % 2 == 0 && i % 2 == 0 && ValidUtf16(b, i, little)
    decreases |b| - i
  {
    if i >= |b| then []
    else
      var u := Unit(b, i, little);
      if u < 0xD800 || u > 0xDFFF then Utf8Of(u) + FromUtf16(b, i + 2, little)
      else Utf8Of(CodePoint(u, Unit(b, i + 2, little))) + FromUtf16(b, i + 4, little)
  }

  /** The text, as strings are held in memory. */
  function TextOf(b: seq<byte>, enc: TextEncoding): seq<byte>
    requires TextDecodes(b, enc)
  {
    if enc == Utf8 then b else FromUtf16(b, 0, enc == Utf16Le)
  }

  /** The leading bytes of the longer forms keep within what is well formed. */
  lemma ThreeBytes(c: nat)
    requires 0x800 <= c < 0x10000 && !(0xD800 <= c <= 0xDFFF)
    ensures var q, m := c / 0x1000, c / 0x40 % 0x40; q < 16 && (q == 0 ==> m >= 0x20) && (q == 13 ==> m < 0x20)
  {
    assert c / 0x40 == c / 0x1000 * 0x40 + c / 0x40 % 0x40;
  }

  lemma FourBytes(c: nat)
    requires 0x10000 <= c < 0x110000
    ensures var q, m := c / 0x40000, c / 0x1000 % 0x40; q < 5 && (q == 0 ==> m >= 0x10) && (q == 4 ==> m < 0x10)
  {
    assert c / 0x1000 == c / 0x40000 * 0x40 + c / 0x1000 % 0x40;
  }

  lemma OneCharacter(c: nat, rest: seq<byte>)
    requires c < 0x110000 && !(0xD800 <= c <= 0xDFFF)
    ensures Utf8Char(Utf8Of(c) + rest) == |Utf8Of(c)|
  {
    var b := Utf8Of(c);
    if c < 0x800 {
      CharacterOf(b, rest);
    } else if c < 0x10000 {
      ThreeBytes(c);
      CharacterOf(b, rest);
    } else {
      FourBytes(c);
      CharacterOf(b, rest);
    }
  }

  /** A character is told by its own bytes. */
  lemma CharacterOf(b: seq<byte>, rest: seq<byte>)
    requires b != [] && Utf8Char(b) == |b|
    ensures Utf8Char(b + rest) == |b|
  {
    assert forall i :: 0 <= i < |b| ==> (b + rest)[i] == b[i];
  }

  lemma {:induction false} FromUtf16Valid(b: seq<byte>, i: nat, little: bool)
    requires |b| % 2 == 0 && i % 2 == 0 && ValidUtf16(b, i, little)
    ensures ValidUtf8(FromUtf16(b, i, little))
    decreases |b| - i
  {
    hide Utf8Char, Utf8Of;
    if i < |b| {
      var u := Unit(b, i, little);
      var n, c := i + 2, u;
      if 0xD800 <= u <= 0xDFFF { n, c := i + 4, CodePoint(u, Unit(b, i + 2, little)); }
      FromUtf16Valid(b, n, little);
      OneCharacter(c, FromUtf16(b, n, little));
    }
  }

  /** Whatever the encoding, decoded text is well-formed UTF-8. */
  lemma TextIsUtf8(b: seq<byte>, enc: TextEncoding)
    requires TextDecodes(b, enc)
    ensures ValidUtf8(TextOf(b, enc))
  {
    hide ValidUtf8;
    if enc != Utf8 { FromUtf16Valid(b, 0, enc == Utf16Le); }
  }

  // ------------------------------------------------------------------------------ values

  /** A column's value; reals are left as their bytes. */
  datatype Column = Plain(value: Value) | Real(bits: seq<byte>)

  function BigEndian(b: seq<byte>): nat { if b == [] then 0 else BigEndian(b[..|b| - 1]) * 256 + b[|b| - 1] }

  function Power256(n: nat): nat { if n == 0 then 1 else 256 * Power256(n - 1) }

  /** A big-endian integer in two's complement. */
  function TwosComplement(b: seq<byte>): int
  {
    if b != [] && b[0] >= 128 then BigEndian(b) - Power256(|b|) else BigEndian(b)
  }

  /** A 64-bit float that is not a number. */
  predicate IsNan(b: seq<byte>)
    requires |b| == 8
  {
    b[0] % 128 == 127 && b[1] >= 240 && (b[1] > 240 || exists i :: 2 <= i < 8 && b[i] != 0)
  }

  predicate IsText(serial: nat) { serial >= 13 && serial % 2 == 1 }

  function BodyLen(serial: nat): nat
  {
    if serial == 0 || 8 <= serial <= 11 then 0
    else if serial <= 4 then serial
    else if serial == 5 then 6
    else if serial <= 7 then 8
    else if serial % 2 == 0 then (serial - 12) / 2
    else (serial - 13) / 2
  }

  /** The body at `pos`: types without one are never looked up in the payload. */
  predicate BodyDecodes(serial: nat, payload: seq<byte>, pos: nat, enc: TextEncoding)
  {
    serial == 0 || 8 <= serial <= 11 ||
    (pos + BodyLen(serial) <= |payload| && (IsText(serial) ==> TextDecodes(payload[pos..pos + BodyLen(serial)], enc)))
  }

  /** The value of that body. */
  function ColumnAt(serial: nat, payload: seq<byte>, pos: nat, enc: TextEncoding): Column
    requires BodyDecodes(serial, payload, pos, enc)
  {
    if serial == 0 || serial == 10 || serial == 11 then Plain(Null)
    else if serial == 8 || serial == 9 then Plain(Integer(serial - 8))
    else
      var body := payload[pos..pos + BodyLen(serial)];
      if serial <= 6 then Plain(Integer(TwosComplement(body)))
      else if serial == 7 then if IsNan(body) then Plain(Null) else Real(body)
      else if IsText(serial) then Plain(Text(TextOf(body, enc)))
      else Plain(Blob(body))
  }

  // ------------------------------------------------------------------------------ record

  /** The serial types between `pos` and the end of the header. */
  function SerialTypes(payload: seq<byte>, pos: nat, headerLen: nat): (r: Option<seq<nat>>)
    decreases headerLen - pos
  {
    if pos >= headerLen then Some([])
    else if pos > |payload| then None
    else match DecodeVarint(payload[pos..])
      case Err(_) => None
      case Ok((serial, n)) =>
        if pos + n > headerLen then None
        else Prefixed([serial], SerialTypes(payload, pos + n, headerLen))
  }

  /** Where the bodies end, if each of them decodes. */
  function BodiesEnd(serials: seq<nat>, payload: seq<byte>, pos: nat, enc: TextEncoding): Option<nat>
  {
    if serials == [] then Some(pos)
    else if !BodyDecodes(serials[0], payload, pos, enc) then None
    else BodiesEnd(serials[1..], payload, pos + BodyLen(serials[0]), enc)
  }

  predicate Decodes(payload: seq<byte>, enc: TextEncoding)
  {
    match DecodeVarint(payload)
    case Err(_) => false
    case Ok((headerLen, n)) =>
      headerLen >= n &&
      match SerialTypes(payload, n, headerLen)
      case None => false
      case Some(serials) => BodiesEnd(serials, payload, headerLen, enc) == Some(|payload|)
  }

  function ColumnsFrom(serials: seq<nat>, payload: seq<byte>, pos: nat, enc: TextEncoding): seq<Column>
    requires BodiesEnd(serials, payload, pos, enc).Some?
  {
    if serials == [] then []
    else [ColumnAt(serials[0], payload, pos, enc)] + ColumnsFrom(serials[1..], payload, pos + BodyLen(serials[0]), enc)
  }

  /** The values of a record. */
  function Decoded(payload: seq<byte>, enc: TextEncoding): seq<Column>
    requires Decodes(payload, enc)
  {
    var head := DecodeVarint(payload).value;
    ColumnsFrom(SerialTypes(payload, head.1, head.0).value, payload, head.0, enc)
  }

  /** The columns as an index key, unless there is a real among them. */
  function PlainKey(cs: seq<Column>): Option<Key>
  {
    if cs == [] then Some([])
    else if cs[0].Real? || PlainKey(cs[1..]).None? then None
    else Some([cs[0].value] + PlainKey(cs[1..]).value)
  }

  function Prefixed(a: seq<nat>, r: Option<seq<nat>>): Option<seq<nat>>
  {
    match r case None => None case Some(rest) => Some(a + rest)
  }

  lemma PrefixedNone(r: Option<seq<nat>>)
    ensures Prefixed([], r) == r
  {
    if r.Some? { assert [] + r.value == r.value; }
  }

  lemma PrefixedOnce(a: seq<nat>, x: nat, r: Option<seq<nat>>)
    ensures Prefixed(a, Prefixed([x], r)) == Prefixed(a + [x], r)
  {
    if r.Some? { assert a + ([x] + r.value) == (a + [x]) + r.value; }
  }

  /** The decoder's first loop. */
  method ReadHeader(payload: seq<byte>, from: nat, headerLen: nat) returns (r: Option<seq<nat>>)
    requires from <= headerLen
    ensures r == SerialTypes(payload, from, headerLen)
  {
    hide DecodeVarint;
    var pos: nat, serials: seq<nat> := from, [];
    PrefixedNone(SerialTypes(payload, pos, headerLen));
    while pos < headerLen
      invariant pos <= headerLen
      invariant SerialTypes(payload, from, headerLen) == Prefixed(serials, SerialTypes(payload, pos, headerLen))
      decreases headerLen - pos
    {
      if pos > |payload| {
        return None;
      }
      var next := DecodeVarint(payload[pos..]);
      if next.Err? || pos + next.value.1 > headerLen {
        return None;
      }
      PrefixedOnce(serials, next.value.0, SerialTypes(payload, pos + next.value.1, headerLen));
      serials, pos := serials + [next.value.0], pos + next.value.1;
    }
    assert serials + [] == serials;
    return Some(serials);
  }

  /** One body after another. */
  lemma NextBody(serials: seq<nat>, i: nat, payload: seq<byte>, pos: nat, enc: TextEncoding)
    requires i < |serials|
    ensures BodiesEnd(serials[i..], payload, pos, enc)
         == if BodyDecodes(serials[i], payload, pos, enc) then BodiesEnd(serials[i + 1..], payload, pos + BodyLen(serials[i]), enc) else None
    ensures BodiesEnd(serials[i..], payload, pos, enc).Some? ==>
              ColumnsFrom(serials[i..], payload, pos, enc) ==
                [ColumnAt(serials[i], payload, pos, enc)] + ColumnsFrom(serials[i + 1..], payload, pos + BodyLen(serials[i]), enc)
  {
    hide BodyDecodes, BodyLen, ColumnAt;
    assert serials[i..][0] == serials[i] && serials[i..][1..] == serials[i + 1..];
  }

  /** The decoder's second loop. */
  method ReadBodies(serials: seq<nat>, payload: seq<byte>, headerLen: nat, enc: TextEncoding) returns (r: Option<(nat, seq<Column>)>)
    ensures r.Some? <==> BodiesEnd(serials, payload, headerLen, enc).Some?
    ensures r.Some? ==> r.value == (BodiesEnd(serials, payload, headerLen, enc).value, ColumnsFrom(serials, payload, headerLen, enc))
  {
    hide BodyDecodes, BodyLen, ColumnAt, BodiesEnd, ColumnsFrom;
    var body: nat, values := headerLen, [];
    assert serials[0..] == serials;
    for i := 0 to |serials|
      invariant BodiesEnd(serials, payload, headerLen, enc) == BodiesEnd(serials[i..], payload, body, enc)
      invariant BodiesEnd(serials[i..], payload, body, enc).Some? ==>
                  ColumnsFrom(serials, payload, headerLen, enc) == values + ColumnsFrom(serials[i..], payload, body, enc)
    {
      NextBody(serials, i, payload, body, enc);
      if !BodyDecodes(serials[i], payload, body, enc) {
        return None;
      }
      values := values + [ColumnAt(serials[i], payload, body, enc)];
      body := body + BodyLen(serials[i]);
    }
    NoBodies(payload, body, enc);
    assert serials[|serials|..] == [] && values + [] == values;
    return Some((body, values));
  }

  lemma NoBodies(payload: seq<byte>, pos: nat, enc: TextEncoding)
    ensures BodiesEnd([], payload, pos, enc) == Some(pos) && ColumnsFrom([], payload, pos, enc) == []
  {
  }

  /** Decodes a record. */
  method DecodeRecord(payload: seq<byte>, enc: TextEncoding) returns (r: Option<seq<Column>>)
    ensures r == if Decodes(payload, enc) then Some(Decoded(payload, enc)) else None
  {
    hide DecodeVarint, SerialTypes, BodiesEnd, ColumnsFrom;
    var head := DecodeVarint(payload);
    if head.Err? || head.value.0 < head.value.1 {
      return None;
    }
    var serials := ReadHeader(payload, head.value.1, head.value.0);
    if serials.None? {
      return None;
    }
    var bodies := ReadBodies(serials.value, payload, head.value.0, enc);
    return if bodies.Some? && bodies.value.0 == |payload| then Some(bodies.value.1) else None;
  }
}
