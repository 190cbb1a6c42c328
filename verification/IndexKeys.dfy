/** The order of index keys: values by type rank, then by content, and keys value by
    value. On keys without reals it is a total order. */
module IndexKeys {
  import opened Bytes

  datatype Ordering = Less | Equal | Greater

  function Flip(o: Ordering): Ordering { match o case Less => Greater case Equal => Equal case Greater => Less }

  /** Text is compared by its bytes. */
  datatype Value = Null | Integer(i: int) | Text(text: seq<byte>) | Blob(blob: seq<byte>)

  type Key = seq<Value>

  function CompareInts(x: int, y: int): Ordering { if x < y then Less else if x > y then Greater else Equal }

  function CompareBytes(a: seq<byte>, b: seq<byte>): Ordering
  {
    if a == [] && b == [] then Equal
    else if a == [] then Less
    else if b == [] then Greater
    else if a[0] != b[0] then CompareInts(a[0], b[0])
    else CompareBytes(a[1..], b[1..])
  }

  function ValueRank(v: Value): nat { match v case Null => 0 case Integer(_) => 1 case Text(_) => 2 case Blob(_) => 3 }

  function CompareValues(a: Value, b: Value): Ordering
  {
    if ValueRank(a) != ValueRank(b) then CompareInts(ValueRank(a), ValueRank(b))
    else match a
      case Null => Equal
      case Integer(x) => CompareInts(x, b.i)
      case Text(x) => CompareBytes(x, b.text)
      case Blob(x) => CompareBytes(x, b.blob)
  }

  /** The first differing value decides; otherwise the shorter key comes first. */
  function CompareKeys(a: Key, b: Key): Ordering
  {
    if a == [] || b == [] then CompareInts(|a|, |b|)
    else if CompareValues(a[0], b[0]) != Equal then CompareValues(a[0], b[0])
    else CompareKeys(a[1..], b[1..])
  }

  // ------------------------------------------------------------------- what comes first

  /** `a` is a proper beginning of `b`, or has the smaller byte where they first differ. */
  ghost predicate BytesBefore(a: seq<byte>, b: seq<byte>)
  {
    exists n :: 0 <= n <= |a| && n <= |b| && a[..n] == b[..n] && (n == |a| < |b| || (n < |a| && n < |b| && a[n] < b[n]))
  }

  /** NULL comes before numbers, numbers before text and text before blobs; numbers go by
      size, text and blobs byte by byte. */
  ghost predicate ValueBefore(a: Value, b: Value)
  {
    match a
    case Null => !b.Null?
    case Integer(x) => b.Text? || b.Blob? || (b.Integer? && x < b.i)
    case Text(x) => b.Blob? || (b.Text? && BytesBefore(x, b.text))
    case Blob(x) => b.Blob? && BytesBefore(x, b.blob)
  }

  /** `a` is a proper beginning of `b`, or has the smaller value where they first differ. */
  ghost predicate KeyBefore(a: Key, b: Key)
  {
    exists n :: 0 <= n <= |a| && n <= |b| && a[..n] == b[..n] && (n == |a| < |b| || (n < |a| && n < |b| && ValueBefore(a[n], b[n])))
  }

  lemma {:induction false} CompareBytesIs(a: seq<byte>, b: seq<byte>)
    ensures CompareBytes(a, b) == Less <==> BytesBefore(a, b)
  {
    if a == [] {
      assert b != [] ==> a[..0] == b[..0] && 0 == |a| < |b|;
    } else if b != [] && a[0] == b[0] {
      CompareBytesIs(a[1..], b[1..]);
      BytesBeforeTail(a, b);
    } else if b != [] {
      assert a[..0] == b[..0];
      FirstByte(a, b);
    }
  }

  lemma FirstByte(a: seq<byte>, b: seq<byte>)
    requires a != [] && b != [] && a[0] != b[0]
    ensures BytesBefore(a, b) <==> a[0] < b[0]
  {
    assert a[..0] == b[..0];
    forall n | 1 <= n <= |a| && n <= |b| ensures a[..n] != b[..n] { assert a[..n][0] != b[..n][0]; }
  }

  lemma BytesBeforeTail(a: seq<byte>, b: seq<byte>)
    requires a != [] && b != [] && a[0] == b[0]
    ensures BytesBefore(a, b) <==> BytesBefore(a[1..], b[1..])
  {
    if BytesBefore(a, b) {
      var n :| 0 <= n <= |a| && n <= |b| && a[..n] == b[..n] && (n == |a| < |b| || (n < |a| && n < |b| && a[n] < b[n]));
      assert a[1..][..n - 1] == a[..n][1..] && b[1..][..n - 1] == b[..n][1..];
    }
    if BytesBefore(a[1..], b[1..]) {
      var n :| 0 <= n <= |a[1..]| && n <= |b[1..]| && a[1..][..n] == b[1..][..n]
               && (n == |a[1..]| < |b[1..]| || (n < |a[1..]| && n < |b[1..]| && a[1..][n] < b[1..][n]));
      assert a[..n + 1] == [a[0]] + a[1..][..n] && b[..n + 1] == [b[0]] + b[1..][..n];
    }
  }

  lemma CompareValuesIs(a: Value, b: Value)
    ensures CompareValues(a, b) == Less <==> ValueBefore(a, b)
  {
    hide CompareBytes, BytesBefore;
    if a.Text? && b.Text? { CompareBytesIs(a.text, b.text); }
    if a.Blob? && b.Blob? { CompareBytesIs(a.blob, b.blob); }
  }

  /** A key comes out as less exactly if it comes first. */
  lemma {:induction false} CompareKeysIs(a: Key, b: Key)
    ensures CompareKeys(a, b) == Less <==> KeyBefore(a, b)
  {
    hide CompareValues, ValueBefore;
    if a == [] {
      assert b != [] ==> a[..0] == b[..0] && 0 == |a| < |b|;
    } else if b != [] {
      CompareValuesIs(a[0], b[0]);
      ValuesFlip(a[0], b[0]);
      if a[0] == b[0] {
        CompareKeysIs(a[1..], b[1..]);
        KeyBeforeTail(a, b);
      } else {
        FirstValue(a, b);
      }
    }
  }

  lemma FirstValue(a: Key, b: Key)
    requires a != [] && b != [] && a[0] != b[0]
    ensures KeyBefore(a, b) <==> ValueBefore(a[0], b[0])
  {
    hide ValueBefore;
    assert a[..0] == b[..0];
    forall n | 1 <= n <= |a| && n <= |b| ensures a[..n] != b[..n] { assert a[..n][0] != b[..n][0]; }
  }

  lemma KeyBeforeTail(a: Key, b: Key)
    requires a != [] && b != [] && a[0] == b[0]
    ensures KeyBefore(a, b) <==> ValueBefore(a[0], b[0]) || KeyBefore(a[1..], b[1..])
  {
    hide ValueBefore;
    if KeyBefore(a, b) {
      var n :| 0 <= n <= |a| && n <= |b| && a[..n] == b[..n] && (n == |a| < |b| || (n < |a| && n < |b| && ValueBefore(a[n], b[n])));
      if n > 0 { assert a[1..][..n - 1] == a[..n][1..] && b[1..][..n - 1] == b[..n][1..]; }
    }
    if KeyBefore(a[1..], b[1..]) {
      var n :| 0 <= n <= |a[1..]| && n <= |b[1..]| && a[1..][..n] == b[1..][..n]
               && (n == |a[1..]| < |b[1..]| || (n < |a[1..]| && n < |b[1..]| && ValueBefore(a[1..][n], b[1..][n])));
      assert a[..n + 1] == [a[0]] + a[1..][..n] && b[..n + 1] == [b[0]] + b[1..][..n];
    }
    assert ValueBefore(a[0], b[0]) ==> a[..0] == b[..0];
  }

  /** The loop over both keys. */
  method CompareKeyLoop(a: Key, b: Key) returns (o: Ordering)
    ensures o == CompareKeys(a, b)
    ensures (o == Less <==> KeyBefore(a, b)) && (o == Equal <==> a == b) && (o == Greater <==> KeyBefore(b, a))
  {
    hide CompareValues, KeyBefore;
    CompareKeysIs(a, b);
    CompareKeysIs(b, a);
    KeysFlip(a, b);
    var i := 0;
    assert a[0..] == a && b[0..] == b;
    while i < |a| && i < |b|
      invariant i <= |a| && i <= |b| && CompareKeys(a[i..], b[i..]) == CompareKeys(a, b)
    {
      var c := CompareValues(a[i], b[i]);
      assert a[i..][0] == a[i] && b[i..][0] == b[i] && a[i..][1..] == a[i + 1..] && b[i..][1..] == b[i + 1..];
      if c != Equal {
        return c;
      }
      i := i + 1;
    }
    return CompareInts(|a|, |b|);
  }

  // ------------------------------------------------------------------------- laws

  /** Swapping the sides mirrors the answer, and only equal values compare equal. */
  lemma {:induction false} BytesFlip(a: seq<byte>, b: seq<byte>)
    ensures CompareBytes(b, a) == Flip(CompareBytes(a, b)) && (CompareBytes(a, b) == Equal <==> a == b)
  {
    if a != [] && b != [] {
      BytesFlip(a[1..], b[1..]);
      assert a == [a[0]] + a[1..] && b == [b[0]] + b[1..];
    }
  }

  lemma {:induction false} BytesTransitive(a: seq<byte>, b: seq<byte>, c: seq<byte>)
    requires CompareBytes(a, b) != Greater && CompareBytes(b, c) != Greater
    ensures CompareBytes(a, c) != Greater
    ensures CompareBytes(a, b) == Less || CompareBytes(b, c) == Less ==> CompareBytes(a, c) == Less
  {
    if a != [] && b != [] && c != [] && a[0] == b[0] == c[0] {
      BytesTransitive(a[1..], b[1..], c[1..]);
    }
  }

  lemma ValuesFlip(a: Value, b: Value)
    ensures CompareValues(b, a) == Flip(CompareValues(a, b)) && (CompareValues(a, b) == Equal <==> a == b)
  {
    hide CompareBytes;
    if a.Text? && b.Text? { BytesFlip(a.text, b.text); }
    if a.Blob? && b.Blob? { BytesFlip(a.blob, b.blob); }
  }

  lemma ValuesTransitive(a: Value, b: Value, c: Value)
    requires CompareValues(a, b) != Greater && CompareValues(b, c) != Greater
    ensures CompareValues(a, c) != Greater
    ensures CompareValues(a, b) == Less || CompareValues(b, c) == Less ==> CompareValues(a, c) == Less
  {
    hide CompareBytes;
    if a.Text? && b.Text? && c.Text? { BytesTransitive(a.text, b.text, c.text); }
    if a.Blob? && b.Blob? && c.Blob? { BytesTransitive(a.blob, b.blob, c.blob); }
  }

  /** Any two keys compare one way only, and equal only if they are the same key. */
  lemma {:induction false} KeysFlip(a: Key, b: Key)
    ensures CompareKeys(b, a) == Flip(CompareKeys(a, b)) && (CompareKeys(a, b) == Equal <==> a == b)
  {
    hide CompareValues;
    if a != [] && b != [] {
      ValuesFlip(a[0], b[0]);
      KeysFlip(a[1..], b[1..]);
      assert a == [a[0]] + a[1..] && b == [b[0]] + b[1..];
    }
  }

  lemma {:induction false} KeysTransitive(a: Key, b: Key, c: Key)
    requires CompareKeys(a, b) != Greater && CompareKeys(b, c) != Greater
    ensures CompareKeys(a, c) != Greater
    ensures CompareKeys(a, b) == Less || CompareKeys(b, c) == Less ==> CompareKeys(a, c) == Less
  {
    hide CompareValues;
    if a != [] && b != [] && c != [] {
      ValuesFlip(a[0], b[0]);
      ValuesFlip(b[0], c[0]);
      ValuesFlip(a[0], c[0]);
      if CompareValues(a[0], b[0]) == Equal && CompareValues(b[0], c[0]) == Equal {
        KeysTransitive(a[1..], b[1..], c[1..]);
      } else {
        ValuesTransitive(a[0], b[0], c[0]);
      }
    }
  }

  // --------------------------------------------------------------------- sorted keys

  predicate Below(a: Key, b: Key) { CompareKeys(a, b) != Greater }

  ghost predicate Sorted(ks: seq<Key>) { forall i, j :: 0 <= i < j < |ks| ==> Below(ks[i], ks[j]) }

  ghost predicate AllLess(ks: seq<Key>, target: Key) { forall i :: 0 <= i < |ks| ==> CompareKeys(ks[i], target) == Less }

  ghost predicate AllGreater(ks: seq<Key>, target: Key) { forall i :: 0 <= i < |ks| ==> CompareKeys(target, ks[i]) == Less }

  /** The number of leading keys less than the target. */
  ghost predicate FirstNotLess(ks: seq<Key>, target: Key, n: nat)
  {
    && n <= |ks| && (forall i :: 0 <= i < n ==> CompareKeys(ks[i], target) == Less)
    && (n < |ks| ==> CompareKeys(ks[n], target) != Less)
  }

  ghost function FirstAtLeast(ks: seq<Key>, target: Key): (n: nat)
    ensures FirstNotLess(ks, target, n)
  {
    if ks == [] || CompareKeys(ks[0], target) != Less then 0
    else
      var n := FirstAtLeast(ks[1..], target);
      assert forall i :: 1 <= i <= n ==> ks[i] == ks[1..][i - 1];
      n + 1
  }

  /** Binary search over a page's keys. */
  method BinarySearch(ks: seq<Key>, target: Key) returns (n: nat)
    requires Sorted(ks)
    ensures FirstNotLess(ks, target, n)
  {
    hide CompareKeys;
    var lo, hi := 0, |ks|;
    while lo < hi
      invariant 0 <= lo <= hi <= |ks|
      invariant forall i :: 0 <= i < lo ==> CompareKeys(ks[i], target) == Less
      invariant hi < |ks| ==> CompareKeys(ks[hi], target) != Less
    {
      var mid := lo + (hi - lo) / 2;
      if CompareKeys(ks[mid], target) != Less {
        hi := mid;
      } else {
        forall i | 0 <= i < mid ensures CompareKeys(ks[i], target) == Less {
          assert Below(ks[i], ks[mid]);
          KeysTransitive(ks[i], ks[mid], target);
        }
        lo := mid + 1;
      }
    }
    return lo;
  }
}
