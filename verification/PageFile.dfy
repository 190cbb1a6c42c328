/** The main database file as a sequence of whole pages numbered from 1, and the
    proof that this is what byte-offset reads, writes and truncation do. */
module PageFile {
  import opened Bytes
  import opened Sequences
  import opened Vfs

  predicate Sized(db: seq<Page>, pageSize: nat) { forall p :: p in db ==> |p| == pageSize }

  function Extend(db: seq<Page>, count: nat, pageSize: nat): (r: seq<Page>)
    ensures |r| == Max(|db|, count)
    ensures forall i :: 0 <= i < |r| ==> r[i] == if i < |db| then db[i] else Zeros(pageSize)
  {
    if count <= |db| then db else db + seq(count - |db|, _ => Zeros(pageSize))
  }

  /** `write_page`: past the end, the pages in between become zero pages. */
  function WritePage(db: seq<Page>, n: nat, page: Page): (r: seq<Page>)
    requires n >= 1
    ensures |r| == Max(|db|, n) && r[n - 1] == page
    ensures forall i :: 0 <= i < |r| && i != n - 1 ==> r[i] == if i < |db| then db[i] else Zeros(|page|)
  {
    Extend(db, n, |page|)[n - 1 := page]
  }

  /** `truncate` to a whole number of pages. */
  function SetCount(db: seq<Page>, count: nat, pageSize: nat): (r: seq<Page>)
    ensures |r| == count
    ensures forall i :: 0 <= i < count ==> r[i] == if i < |db| then db[i] else Zeros(pageSize)
  {
    if count <= |db| then db[..count] else Extend(db, count, pageSize)
  }

  predicate Has(db: seq<Page>, n: u32) { 1 <= n <= |db| }

  /** The pages a file holds, by number. */
  function Contents(db: seq<Page>): (m: PageMap)
    ensures forall n: u32 :: n in m <==> Has(db, n)
    ensures forall n: u32 :: n in m ==> Has(db, n) && m[n] == db[n - 1]
  {
    map n: u32 | Has(db, n) :: db[n - 1]
  }

  // -------------------------------------------------------- the bytes underneath

  function Flat(db: seq<Page>): seq<byte>
  {
    if db == [] then [] else db[0] + Flat(db[1..])
  }

  lemma {:induction false} FlatAppend(a: seq<Page>, b: seq<Page>)
    ensures Flat(a + b) == Flat(a) + Flat(b)
  {
    if a == [] {
      assert a + b == b;
    } else {
      assert (a + b)[1..] == a[1..] + b;
      FlatAppend(a[1..], b);
    }
  }

  lemma {:induction false} FlatLength(db: seq<Page>, pageSize: nat)
    requires Sized(db, pageSize)
    ensures |Flat(db)| == Span(|db|, pageSize)
  {
    if db != [] {
      assert db[0] in db && Sized(db[1..], pageSize);
      FlatLength(db[1..], pageSize);
    }
  }

  lemma {:induction false} FlatZeros(db: seq<Page>, pageSize: nat)
    requires forall p :: p in db ==> p == Zeros(pageSize)
    ensures Flat(db) == Zeros(Span(|db|, pageSize))
  {
    if db != [] {
      assert db[0] in db && forall p :: p in db[1..] ==> p in db;
      FlatZeros(db[1..], pageSize);
    }
  }

  lemma FlatSplit(db: seq<Page>, n: nat, pageSize: nat)
    requires 1 <= n <= |db| && Sized(db, pageSize)
    ensures Flat(db) == Flat(db[..n - 1]) + db[n - 1] + Flat(db[n..])
    ensures |Flat(db[..n - 1])| == Span(n - 1, pageSize) && |db[n - 1]| == pageSize
  {
    hide Flat, Span;
    var a, p, b := db[..n - 1], db[n - 1], db[n..];
    assert p in db;
    assert db == a + ([p] + b);
    FlatAppend(a, [p] + b);
    FlatFirst(p, b);
    FlatLength(a, pageSize);
    Regroup(Flat(a), p, Flat(b));
  }

  lemma FlatFirst(p: Page, rest: seq<Page>)
    ensures Flat([p] + rest) == p + Flat(rest)
  {
    assert ([p] + rest)[1..] == rest;
  }

  /** Reading `pageSize` bytes at `(n - 1) * pageSize` reads page `n`. */
  lemma PageReadIsByteRead(db: seq<Page>, n: nat, pageSize: nat)
    requires 1 <= n <= |db| && Sized(db, pageSize)
    ensures Span(n, pageSize) <= |Flat(db)|
    ensures Flat(db)[Span(n - 1, pageSize)..Span(n, pageSize)] == db[n - 1]
  {
    FlatSplit(db, n, pageSize);
  }

  lemma Padded(b: seq<byte>, n: nat)
    ensures Resize(b, |b| + n) == b + Zeros(n)
  {
  }

  lemma FlatExtend(db: seq<Page>, count: nat, pageSize: nat)
    requires Sized(db, pageSize)
    ensures Sized(Extend(db, count, pageSize), pageSize)
    ensures Flat(Extend(db, count, pageSize)) == Resize(Flat(db), Max(|Flat(db)|, Span(count, pageSize)))
  {
    hide Span, Flat;
    var e := Extend(db, count, pageSize);
    FlatLength(db, pageSize);
    if count > |db| {
      var pad := seq(count - |db|, _ => Zeros(pageSize));
      assert e == db + pad;
      FlatAppend(db, pad);
      FlatZeros(pad, pageSize);
      SpanAdd(|db|, |pad|, pageSize);
      Padded(Flat(db), Span(|pad|, pageSize));
    } else {
      SpanAdd(count, |db| - count, pageSize);
      assert Resize(Flat(db), |Flat(db)|) == Flat(db);
    }
  }

  /** Writing at `(n - 1) * pageSize` writes page `n`, zero-filling any gap. */
  lemma PageWriteIsByteWrite(db: seq<Page>, n: nat, page: Page)
    requires n >= 1 && Sized(db, |page|)
    ensures Sized(WritePage(db, n, page), |page|)
    ensures Flat(WritePage(db, n, page)) == WriteAt(Flat(db), Span(n - 1, |page|), page)
  {
    var ps := |page|;
    var e, w := Extend(db, n, ps), WritePage(db, n, page);
    FlatExtend(db, n, ps);
    assert Sized(w, ps) by {
      forall p | p in w ensures |p| == ps {
        var i :| 0 <= i < |w| && w[i] == p;
        assert e[i] in e;
      }
    }
    FlatSplit(e, n, ps);
    FlatSplit(w, n, ps);
    assert e[..n - 1] == w[..n - 1] && e[n..] == w[n..];
    PutMiddle(Flat(e[..n - 1]), e[n - 1], Flat(e[n..]), page);
    FlatLength(db, ps);
    if n <= |db| {
      SpanAdd(n, |db| - n, ps);
    } else {
      SpanAdd(|db|, n - |db|, ps);
    }
  }

  lemma PutMiddle(head: seq<byte>, old_: seq<byte>, tail: seq<byte>, data: seq<byte>)
    requires |old_| == |data|
    ensures Put(head + old_ + tail, |head|, data) == head + data + tail
  {
  }

  /** Setting the file length to `count * pageSize` sets the page count. */
  lemma PageTruncateIsByteTruncate(db: seq<Page>, count: nat, pageSize: nat)
    requires Sized(db, pageSize)
    ensures Flat(SetCount(db, count, pageSize)) == Resize(Flat(db), Span(count, pageSize))
  {
    hide Flat, Span;
    FlatExtend(db, count, pageSize);
    FlatLength(db, pageSize);
    if count <= |db| {
      assert db == db[..count] + db[count..];
      FlatAppend(db[..count], db[count..]);
      FlatLength(db[..count], pageSize);
    } else {
      SpanAdd(|db|, count - |db|, pageSize);
    }
  }

  // -------------------------------------------------------- ascending page order

  predicate Ascending(ks: seq<u32>) { forall i, j :: 0 <= i < j < |ks| ==> ks[i] < ks[j] }

  /** `keys` collected into a vector and sorted. */
  method SortedKeys(keys: set<u32>) returns (ks: seq<u32>)
    ensures Ascending(ks)
    ensures forall k :: k in ks <==> k in keys
    ensures |ks| == |keys|
  {
    ks := [];
    var left := keys;
    while left != {}
      invariant left <= keys && Ascending(ks) && |ks| + |left| == |keys|
      invariant forall k :: k in keys <==> k in ks || k in left
      invariant forall k, l :: k in ks && l in left ==> k < l
      decreases left
    {
      var least := Least(left);
      assert forall i :: 0 <= i < |ks| ==> ks[i] in ks;
      ks := ks + [least];
      left := left - {least};
    }
  }

  method Least(s: set<u32>) returns (m: u32)
    requires s != {}
    ensures m in s && forall x :: x in s ==> m <= x
  {
    m :| m in s;
    var rest := s - {m};
    while rest != {}
      invariant m in s && rest <= s
      invariant forall x :: x in s && x !in rest ==> m <= x
      decreases rest
    {
      var x :| x in rest;
      if x < m { m := x; }
      rest := rest - {x};
    }
  }

  predicate Writable(ks: seq<u32>, m: PageMap) { forall i :: 0 <= i < |ks| ==> ks[i] in m && ks[i] >= 1 }

  /** Pages written one after another in the given order. */
  function WriteAll(db: seq<Page>, ks: seq<u32>, m: PageMap): (w: seq<Page>)
    requires Writable(ks, m)
    ensures ks == [] ==> w == db
    ensures |db| <= U32_MAX ==> |w| <= U32_MAX
  {
    if ks == [] then db
    else
      WritePage(WriteAll(db, ks[..|ks| - 1], m), ks[|ks| - 1], m[ks[|ks| - 1]])
  }

  lemma WriteAllSnoc(db: seq<Page>, ks: seq<u32>, p: u32, m: PageMap)
    requires Writable(ks, m) && p in m && p >= 1
    ensures Writable(ks + [p], m)
    ensures WriteAll(db, ks + [p], m) == WritePage(WriteAll(db, ks, m), p, m[p])
  {
    assert (ks + [p])[..|ks|] == ks;
  }

  lemma AscendingSnoc(ks: seq<u32>, p: u32)
    requires Ascending(ks) && forall k :: k in ks ==> k < p
    ensures Ascending(ks + [p])
  {
    assert forall i :: 0 <= i < |ks| ==> ks[i] in ks;
  }

  /** Every page past the end of the file, up to the last written, is written. */
  ghost predicate NoGaps(db: seq<Page>, ks: seq<u32>)
  {
    forall k, n: u32 :: k in ks && |db| < n <= k ==> n in ks
  }

  /** Written in ascending order without gaps, the file gains exactly those pages. */
  lemma {:induction false} WriteAllExact(db: seq<Page>, ks: seq<u32>, m: PageMap)
    requires Writable(ks, m)
    requires Ascending(ks) && NoGaps(db, ks)
    ensures Gained(db, ks, m, WriteAll(db, ks, m))
  {
    if ks != [] {
      var init, last := ks[..|ks| - 1], ks[|ks| - 1];
      assert ks == init + [last] && last in ks;
      assert forall k :: k in init ==> k in ks;
      assert NoGaps(db, init) by {
        forall k, n: u32 | k in init && |db| < n <= k ensures n in init {
          assert n in ks && n < last;
        }
      }
      WriteAllExact(db, init, m);
      GainOne(db, init, last, m, WriteAll(db, init, m));
    }
  }

  /** `w` is `db` with exactly the pages `ks` of `m` written. */
  ghost predicate Gained(db: seq<Page>, ks: seq<u32>, m: PageMap, w: seq<Page>)
    requires Writable(ks, m)
  {
    && |db| <= |w|
    && (forall n: u32 :: n in ks ==> n <= |w| && w[n - 1] == m[n])
    && (forall n: u32 :: |db| < n <= |w| ==> n in ks)
    && (forall n: u32 :: 1 <= n <= |db| && n !in ks ==> w[n - 1] == db[n - 1])
  }

  lemma GainOne(db: seq<Page>, init: seq<u32>, last: u32, m: PageMap, w: seq<Page>)
    requires Writable(init, m) && last in m && last >= 1
    requires forall k :: k in init ==> k < last
    requires NoGaps(db, init + [last]) && Gained(db, init, m, w)
    ensures Gained(db, init + [last], m, WritePage(w, last, m[last]))
  {
    assert last in init + [last];
    var next: u32 := if |w| + 1 <= last then |w| + 1 else last;
    assert |db| < next ==> next in init + [last];
    assert last <= |w| + 1;
    assert forall n: u32 :: n in init + [last] <==> n in init || n == last;
  }

  /** As maps: the written pages over the old contents. */
  lemma WriteAllContents(db: seq<Page>, ks: seq<u32>, m: PageMap)
    requires forall k :: k in ks <==> k in m
    requires Writable(ks, m) && Ascending(ks) && NoGaps(db, ks)
    ensures Contents(WriteAll(db, ks, m)) == Contents(db) + m
  {
    WriteAllExact(db, ks, m);
    GainedContents(db, ks, m, WriteAll(db, ks, m));
  }

  lemma {:induction false} LastWriteStays(db: seq<Page>, ks: seq<u32>, m: PageMap, j: nat)
    requires Writable(ks, m) && Ascending(ks) && j < |ks|
    ensures ks[j] <= |WriteAll(db, ks, m)| && WriteAll(db, ks, m)[ks[j] - 1] == m[ks[j]]
    decreases |ks|
  {
    if j < |ks| - 1 {
      LastWriteStays(db, ks[..|ks| - 1], m, j);
    }
  }

  /** If and only if there is no gap to fill: past the end of the file a gap becomes zero
      pages nobody wrote. */
  lemma WriteAllContentsIff(db: seq<Page>, ks: seq<u32>, m: PageMap)
    requires (forall k :: k in ks <==> k in m) && Writable(ks, m) && Ascending(ks)
    ensures Contents(WriteAll(db, ks, m)) == Contents(db) + m <==> NoGaps(db, ks)
  {
    hide WriteAll;
    if NoGaps(db, ks) {
      WriteAllContents(db, ks, m);
    } else {
      var k, n: u32 :| k in ks && |db| < n <= k && n !in ks;
      var j :| 0 <= j < |ks| && ks[j] == k;
      LastWriteStays(db, ks, m, j);
      assert Has(WriteAll(db, ks, m), n) && !Has(db, n);
    }
  }

  lemma GainedContents(db: seq<Page>, ks: seq<u32>, m: PageMap, w: seq<Page>)
    requires forall k :: k in ks <==> k in m
    requires Writable(ks, m) && Gained(db, ks, m, w)
    ensures Contents(w) == Contents(db) + m
  {
    forall n: u32
      ensures n in Contents(w) <==> n in Contents(db) + m
      ensures n in Contents(w) ==> (Contents(db) + m)[n] == Contents(w)[n]
    {
      assert n in ks <==> n in m;
    }
  }
}
