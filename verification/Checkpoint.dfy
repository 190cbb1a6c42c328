/** One PASSIVE checkpoint pass: copy committed pages up to the oldest reader's
    mark into the main file, then publish how far it got. */
module Checkpoint {
  import opened Bytes
  import opened Vfs
  import opened Wal
  import opened WalWriter
  import opened PageFile

  datatype CheckpointResult = CheckpointResult(backfilled: nat, total: nat, complete: bool)

  const NOTHING_TO_DO := CheckpointResult(0, 0, true)

  /** The main database file, written in place. */
  class Database {
    var pages: seq<Page>

    constructor (initial: seq<Page>)
      ensures pages == initial
    {
      pages := initial;
    }
  }

  /** A log with nothing after its last frame, as a synced writer leaves it. */
  ghost predicate CleanLog(b: seq<byte>, h: WalHeader, fs: seq<Frame>)
  {
    HoldsFrames(b, h, fs) && |b| == HEADER_LEN + Span(|fs|, FrameSize(h))
  }

  ghost predicate Boundary(fs: seq<Frame>, n: nat) { n <= |fs| && (n > 0 ==> fs[n - 1].dbSize != 0) }

  /** The database size a whole number of transactions leaves behind. */
  function SizeOf(fs: seq<Frame>, count: nat): nat
  {
    if fs == [] then count else Max(count, fs[|fs| - 1].dbSize)
  }

  /** Committed frames stay inside the size they declare, and below a logged page every
      page beyond `count` is logged too. */
  ghost predicate Dense(fs: seq<Frame>, count: nat)
  {
    && (forall f :: f in fs ==> 1 <= f.page <= SizeOf(fs, count))
    && (forall p: u32, n: u32 :: p in Overlay(fs) && count < n <= p ==> n in Overlay(fs))
  }

  /** How far this pass may go: every reader pinned to a nonzero mark bounds it. */
  ghost predicate IsSafe(marks: seq<nat>, total: nat, safe: nat)
  {
    && safe <= total
    && (forall m :: m in marks && m > 0 ==> safe <= m)
    && (safe == total || safe in marks)
    && (total > 0 ==> safe > 0)
  }

  method SafeFrame(marks: seq<nat>, total: nat) returns (safe: nat)
    ensures IsSafe(marks, total, safe)
  {
    safe := total;
    for i := 0 to |marks|
      invariant IsSafe(marks[..i], total, safe)
    {
      if 0 < marks[i] < safe { safe := marks[i]; }
      assert marks[..i + 1] == marks[..i] + [marks[i]];
    }
    assert marks[..|marks|] == marks;
  }

  function PageCount(size: nat, pageSize: nat): nat
    requires pageSize > 0
  {
    var n := (size + (pageSize - 1)) / pageSize;
    if n <= U32_MAX then n else 0
  }

  /** A whole number of pages is counted as such, up to the 32-bit limit. */
  lemma PageCountOfPages(n: nat, pageSize: nat)
    requires pageSize > 0
    ensures PageCount(Span(n, pageSize), pageSize) == if n <= U32_MAX then n else 0
  {
    SpanDivides(n, pageSize, pageSize - 1);
  }

  /** A partly filled last page counts as a page. */
  lemma PageCountIs(size: nat, pageSize: nat)
    requires pageSize > 0
    ensures PageCount(size, pageSize) > 0 ==>
              var n := PageCount(size, pageSize); n <= U32_MAX && Span(n - 1, pageSize) < size <= Span(n, pageSize)
    ensures PageCount(size, pageSize) == 0 ==> size == 0 || size > Span(U32_MAX, pageSize)
  {
    var x := size + (pageSize - 1);
    var n := x / pageSize;
    SpanIsProduct(n, pageSize);
    assert x == pageSize * n + x % pageSize;
    if n > 0 { SpanAdd(n - 1, 1, pageSize); }
    if n > U32_MAX { SpanAdd(U32_MAX, n - 1 - U32_MAX, pageSize); }
  }

  lemma {:induction false} OverlayPages(fs: seq<Frame>)
    ensures forall p :: p in Overlay(fs) ==> exists f :: f in fs && f.page == p
    ensures forall f :: f in fs ==> f.page in Overlay(fs)
  {
    if fs != [] {
      var init, last := fs[..|fs| - 1], fs[|fs| - 1];
      OverlayPages(init);
      assert fs == init + [last];
      forall p | p in Overlay(fs) ensures exists f :: f in fs && f.page == p {
        if p == last.page {
          assert last in fs;
        } else {
          var f :| f in init && f.page == p;
          assert f in fs;
        }
      }
    }
  }

  /** The first `n` frames of a clean log, as a file of their own. */
  lemma PrefixIsClean(b: seq<byte>, h: WalHeader, fs: seq<Frame>, n: nat)
    requires CleanLog(b, h, fs) && n <= |fs|
    ensures HEADER_LEN + Span(n, FrameSize(h)) <= |b|
    ensures CleanLog(b[..HEADER_LEN + Span(n, FrameSize(h))], h, fs[..n])
  {
    hide SumFrom, Encode, ValidHeader, StaleTail, Serialize;
    var s := FrameSize(h);
    SpanAdd(n, |fs| - n, s);
    var c := b[..HEADER_LEN + Span(n, s)];
    EncodePrefix(h, h.checksum, fs, n);
    Within(b, HEADER_LEN, Encode(h, h.checksum, fs), 0, Span(n, s));
    assert c[..HEADER_LEN] == b[..HEADER_LEN];
    assert c[HEADER_LEN..HEADER_LEN + Span(n, s)] == b[HEADER_LEN..HEADER_LEN + Span(n, s)];
    assert c[HEADER_LEN + Span(n, s)..] == [];
    EmptyTailIsStale(h);
  }

  /** What a pass bounded by `safe` did to a file `before`. */
  ghost predicate Passed(before: seq<Page>, fs: seq<Frame>, safe: nat, backfill: nat,
                         after: seq<Page>, published: nat, r: CheckpointResult)
    requires safe <= |fs|
  {
    if fs == [] then
      after == before && published == backfill && r == NOTHING_TO_DO
    else if safe <= backfill then
      after == before && published == backfill && r == CheckpointResult(backfill, |fs|, backfill == |fs|)
    else
      && published == safe && r == CheckpointResult(safe, |fs|, safe == |fs|)
      && (|before| <= U32_MAX ==> |after| <= U32_MAX)
      && (Boundary(fs, safe) && Dense(fs[..safe], |before|) && |before| <= U32_MAX ==>
            Contents(after) == Contents(before) + Overlay(fs[..safe]))
  }

  predicate InRange(p: u32, size: u32, count: nat) { 1 <= p <= Max(size, if count <= U32_MAX then count else 0) }

  method CurrentPages(db: Database, pageSize: u32) returns (n: nat)
    requires pageSize > 0
    ensures n == if |db.pages| <= U32_MAX then |db.pages| else 0
  {
    PageCountOfPages(|db.pages|, pageSize);
    SpanIsProduct(|db.pages|, pageSize);
    n := PageCount(|db.pages| * pageSize, pageSize);
  }

  /** Copies the in-range pages in ascending order, skipping the others. */
  method Backfill(db: Database, pages: PageMap, size: u32, pageSize: u32) returns (ghost ks: seq<u32>)
    requires pageSize > 0
    modifies db
    ensures Ascending(ks)
    ensures forall p: u32 :: p in ks <==> p in pages && InRange(p, size, |old(db.pages)|)
    ensures Writable(ks, pages) && db.pages == WriteAll(old(db.pages), ks, pages)
    ensures |db.pages| <= Max(|old(db.pages)|, size)
    ensures forall p: u32 :: p in pages && 1 <= p <= size ==> Has(db.pages, p) && db.pages[p - 1] == pages[p]
    ensures forall p: u32 :: p in pages && Has(old(db.pages), p) && |old(db.pages)| <= U32_MAX ==> Has(db.pages, p) && db.pages[p - 1] == pages[p]
    ensures forall p: u32 :: p !in pages && Has(old(db.pages), p) ==> Has(db.pages, p) && db.pages[p - 1] == old(db.pages)[p - 1]
  {
    hide WriteAll, WritePage;
    var current := CurrentPages(db, pageSize);
    var maxPage := Max(size, current);
    var order := SortedKeys(pages.Keys);
    ks := [];
    for i := 0 to |order|
      invariant Ascending(ks) && Writable(ks, pages) && db.pages == WriteAll(old(db.pages), ks, pages)
      invariant forall p: u32 :: p in ks <==> p in order[..i] && InRange(p, size, |old(db.pages)|)
    {
      var p := order[i];
      assert p in order && order[..i + 1] == order[..i] + [p];
      if p == 0 || p > maxPage {
        continue;
      }
      WriteAllSnoc(old(db.pages), ks, p, pages);
      AscendingSnoc(ks, p);
      db.pages := WritePage(db.pages, p, pages[p]);
      ks := ks + [p];
    }
    assert order[..|order|] == order;
    Filled(old(db.pages), ks, pages, size);
  }

  lemma Filled(db: seq<Page>, ks: seq<u32>, m: PageMap, size: u32)
    requires Ascending(ks) && Writable(ks, m) && forall p: u32 :: p in ks <==> p in m && InRange(p, size, |db|)
    ensures var after := WriteAll(db, ks, m);
            && |after| <= Max(|db|, size)
            && (forall p: u32 :: p in m && 1 <= p <= size ==> Has(after, p) && after[p - 1] == m[p])
            && (forall p: u32 :: p in m && Has(db, p) && |db| <= U32_MAX ==> Has(after, p) && after[p - 1] == m[p])
            && (forall p: u32 :: p !in m && Has(db, p) ==> Has(after, p) && after[p - 1] == db[p - 1])
  {
    hide WriteAll;
    Bounded(db, ks, m, size);
    forall p: u32 | p in ks ensures Has(WriteAll(db, ks, m), p) && WriteAll(db, ks, m)[p - 1] == m[p] {
      var j :| 0 <= j < |ks| && ks[j] == p;
      LastWriteStays(db, ks, m, j);
    }
    forall p: u32 | p !in m && Has(db, p) ensures Has(WriteAll(db, ks, m), p) && WriteAll(db, ks, m)[p - 1] == db[p - 1] {
      NotWritten(db, ks, m, p);
    }
  }

  /** Pages within `size` or the file do not make the file longer than either. */
  lemma {:induction false} Bounded(db: seq<Page>, ks: seq<u32>, m: PageMap, size: u32)
    requires Writable(ks, m) && forall k :: k in ks ==> k <= Max(size, |db|)
    ensures |WriteAll(db, ks, m)| <= Max(|db|, size)
  {
    if ks != [] {
      var init := ks[..|ks| - 1];
      assert ks[|ks| - 1] in ks && forall k :: k in init ==> k in ks;
      Bounded(db, init, m, size);
    }
  }

  lemma {:induction false} NotWritten(db: seq<Page>, ks: seq<u32>, m: PageMap, p: u32)
    requires Writable(ks, m) && p !in ks && Has(db, p)
    ensures Has(WriteAll(db, ks, m), p) && WriteAll(db, ks, m)[p - 1] == db[p - 1]
  {
    if ks != [] {
      var init := ks[..|ks| - 1];
      assert ks[|ks| - 1] in ks && forall k :: k in init ==> k in ks;
      NotWritten(db, init, m, p);
    }
  }

  /** Runs one pass over the log's bytes. `published` is the backfill count afterwards. */
  method CheckpointPassive(wal: Option<seq<byte>>, db: Database, marks: seq<nat>, backfill: nat, pageSize: u32,
                           ghost h: WalHeader, ghost fs: seq<Frame>)
    returns (r: Result<CheckpointResult, WalError>, published: nat)
    modifies db
    ensures published >= backfill
    ensures wal.None? || |wal.value| < HEADER_LEN ==>
              r == Ok(NOTHING_TO_DO) && published == backfill && db.pages == old(db.pages)
    ensures r.Err? ==> published == backfill && db.pages == old(db.pages)
    ensures wal.Some? && CleanLog(wal.value, h, fs) ==> (r.Ok? <==> h.pageSize == pageSize)
    ensures wal.Some? && CleanLog(wal.value, h, fs) && r.Ok? ==>
              exists safe :: IsSafe(marks, |fs|, safe) && Passed(old(db.pages), fs, safe, backfill, db.pages, published, r.value)
  {
    hide HoldsFrames, ParseHeader, Replay, ScanFile, WriteAll, Span, IsSafe, Dense;
    published := backfill;
    if wal.None? || |wal.value| < HEADER_LEN {
      return Ok(NOTHING_TO_DO), backfill;
    }
    var bytes := wal.value;
    var parsed := ParseHeader(bytes);
    ghost var clean := CleanLog(bytes, h, fs);
    if clean { CleanLogScans(bytes, h, fs); }
    ParsedIsLegal(bytes);
    if parsed.Err? {
      return Err(parsed.error), backfill;
    }
    var header := parsed.value;
    if header.pageSize != pageSize {
      return Err(InvalidPageSize(header.pageSize)), backfill;
    }
    var total := (|bytes| - HEADER_LEN) / FrameSize(header);
    if clean { SpanDivides(|fs|, FrameSize(h), 0); }
    if total == 0 {
      ghost var none := SafeFrame(marks, 0);
      assert clean ==> Passed(db.pages, fs, none, backfill, db.pages, backfill, NOTHING_TO_DO);
      return Ok(NOTHING_TO_DO), backfill;
    }
    var safe := SafeFrame(marks, total);
    if safe <= backfill {
      r := Ok(CheckpointResult(backfill, total, backfill == total));
      assert clean ==> Passed(db.pages, fs, safe, backfill, db.pages, backfill, r.value);
      return r, backfill;
    }
    Frames(bytes, header, total, safe);
    var boundary := HEADER_LEN + safe * FrameSize(header);
    var pages, size := CommittedPages(header, bytes[..boundary]);
    ghost var before := db.pages;
    ghost var ks := Backfill(db, pages, size, header.pageSize);
    published := safe;
    r := Ok(CheckpointResult(safe, total, safe == total));
    if clean {
      SpanIsProduct(safe, FrameSize(h));
      CopiedPrefix(bytes, h, fs, safe, pages, size);
      if Boundary(fs, safe) && Dense(fs[..safe], |before|) && |before| <= U32_MAX {
        AllInRange(before, fs[..safe], pages, size, ks);
      }
      assert Passed(before, fs, safe, backfill, db.pages, published, r.value);
    }
  }

  lemma ParsedIsLegal(bytes: seq<byte>)
    ensures ParseHeader(bytes).Ok? ==> ValidPageSize(ParseHeader(bytes).value.pageSize)
  {
  }

  /** Reading a clean log cut after `safe` frames. */
  lemma CopiedPrefix(bytes: seq<byte>, h: WalHeader, fs: seq<Frame>, safe: nat, pages: PageMap, size: u32)
    requires CleanLog(bytes, h, fs) && 0 < safe <= |fs|
    requires HEADER_LEN + Span(safe, FrameSize(h)) <= |bytes|
    requires var view := Replay(ScanFile(h, bytes[..HEADER_LEN + Span(safe, FrameSize(h))]).frames, EMPTY_VIEW);
             pages == view.committed && size == view.size
    ensures Boundary(fs, safe) ==> pages == Overlay(fs[..safe]) && size == fs[safe - 1].dbSize
  {
    hide HoldsFrames, Encode, Replay, Scan, Span;
    PrefixIsClean(bytes, h, fs, safe);
    CleanLogScans(bytes[..HEADER_LEN + Span(safe, FrameSize(h))], h, fs[..safe]);
    CommittedIsOverlay(fs[..safe]);
    assert fs[..safe][..safe] == fs[..safe];
  }

  lemma Frames(bytes: seq<byte>, h: WalHeader, total: nat, safe: nat)
    requires |bytes| >= HEADER_LEN && total == (|bytes| - HEADER_LEN) / FrameSize(h) && safe <= total
    ensures HEADER_LEN + safe * FrameSize(h) <= |bytes|
  {
    var n := |bytes| - HEADER_LEN;
    assert total * FrameSize(h) <= n;
    assert safe * FrameSize(h) <= total * FrameSize(h);
  }

  /** On a dense log no page is skipped and no gap is filled with zeros. */
  lemma AllInRange(before: seq<Page>, fs: seq<Frame>, pages: PageMap, size: u32, ks: seq<u32>)
    requires fs != [] && fs[|fs| - 1].dbSize == size && pages == Overlay(fs)
    requires Dense(fs, |before|) && |before| <= U32_MAX
    requires Ascending(ks) && Writable(ks, pages)
    requires forall p: u32 :: p in ks <==> p in pages && InRange(p, size, |before|)
    ensures Contents(WriteAll(before, ks, pages)) == Contents(before) + Overlay(fs)
  {
    OverlayPages(fs);
    forall p: u32 | p in pages ensures p in ks {
      var f :| f in fs && f.page == p;
      assert InRange(p, size, |before|);
    }
    forall k, n: u32 | k in ks && |before| < n <= k ensures n in ks {
      assert InRange(k, size, |before|);
    }
    WriteAllContents(before, ks, pages);
  }
}
