/** The state behind a connection as values: main file, log, overlay, dirty pages and
    cached pages, the invariant tying them together, and what each change does to it. */
module PagerState {
  import opened Bytes
  import opened Wal
  import opened WalWriter
  import opened WalSessions
  import opened PageFile
  import opened Checkpoint
  import opened Snapshots
  import opened Allocator

  datatype Mode = Legacy | WalMode

  /** `wal` is the log file if there is one, `backfill` how many of its frames a checkpoint
      has copied, `cached` the pages in the cache; `header`, `frames` and `base` are what the log
      holds and the size of the main file when the log was created. */
  datatype Snap = Snap(mode: Mode, db: seq<Page>, wal: Option<seq<byte>>, dirty: PageMap, walPages: PageMap,
                       cached: PageMap, hint: Option<ResumeHint>, backfill: nat,
                       header: WalHeader, frames: seq<Frame>, base: nat)

  /** The database as last committed: the log overlay over the main file. */
  function CommittedOf(s: Snap): PageMap { Contents(s.db) + s.walPages }

  /** What this connection sees: its dirty pages over the committed ones. */
  function WorkingOf(s: Snap): PageMap { CommittedOf(s) + s.dirty }

  /** The pages a fresh connection would load: whatever the files alone hold. */
  function FreshOf(db: seq<Page>, wal: Option<seq<byte>>, pageSize: u32): PageMap
  {
    if wal.None? || |wal.value| < HEADER_LEN then Contents(db)
    else match ParseHeader(wal.value)
      case Err(_) => Contents(db)
      case Ok(h) =>
        if h.pageSize != pageSize then Contents(db)
        else Contents(db) + Replay(ScanFile(h, wal.value).frames, EMPTY_VIEW).committed
  }

  // ------------------------------------------------------------------- invariant

  /** Only pages of the main file that nothing shadows are cached, with its bytes. */
  ghost predicate CacheOk(s: Snap)
  {
    forall p: u32 :: p in s.cached ==> p !in s.dirty && p !in s.walPages && Has(s.db, p) && s.cached[p] == s.db[p - 1]
  }

  /** Pages are numbered from 1 without a gap, however many the header counts. */
  ghost predicate NoHoles(w: PageMap) { 0 !in w && forall p: u32, q: u32 :: q in w && 1 <= p <= q ==> p in w }

  ghost predicate WholeDb(w: PageMap, pageSize: u32) { Shaped(w, pageSize) && NoHoles(w) }

  /** A dirty page that is not in the committed database lies past its page count, and page
      1 is then dirty too. */
  ghost predicate NewPages(committed: PageMap, dirty: PageMap)
  {
    forall p :: p in dirty && p !in committed ==>
      1 in dirty && 1 in committed && |committed[1]| >= 40 && p > CountIn(committed[1])
  }

  function VersionBytes(m: Mode): seq<byte> { if m == WalMode then [2, 2] else [1, 1] }

  predicate HasVersion(page1: Page, m: Mode)
  {
    |page1| >= 40 && ((page1[18..20] == [2, 2]) <==> m == WalMode)
  }

  /** Every logged page 1 is marked as a WAL database. */
  ghost predicate Versioned(fs: seq<Frame>) { forall f :: f in fs && f.page == 1 ==> HasVersion(f.content, WalMode) }

  ghost predicate LogOk(s: Snap, pageSize: u32)
  {
    if s.mode == Legacy then s.wal.None? && s.walPages == map[]
    else
      && s.wal.Some? && CleanLog(s.wal.value, s.header, s.frames) && s.header.pageSize == pageSize
      && GoodLog(s.frames, s.base) && s.base <= |s.db| && (forall n: u32 :: s.base < n <= |s.db| ==> n in Overlay(s.frames))
      && s.backfill <= |s.frames| && (s.backfill == |s.frames| ==> Contents(s.db) == CommittedOf(s))
      && Versioned(s.frames)
      && (s.hint.Some? ==> Truthful(s.hint.value, s.wal.value, s.header, s.frames))
  }

  /** The overlay is exactly what the log file holds. */
  ghost predicate Durable(s: Snap)
  {
    s.mode == WalMode ==>
      && s.walPages == Overlay(s.frames) && 1 in CommittedOf(s) && |CommittedOf(s)[1]| >= 40
      && SizeOf(s.frames, s.base) <= Max(s.base, CountIn(CommittedOf(s)[1]))
  }

  /** Pages lie within the file the log was started on, or within the page count. */
  ghost predicate WithinCount(w: PageMap, base: nat)
  {
    1 in w && |w[1]| >= 40 && forall p :: p in w ==> p <= Max(base, CountIn(w[1]))
  }

  ghost predicate Coherent(s: Snap, pageSize: u32)
  {
    && ValidPageSize(pageSize) && CacheOk(s)
    && WholeDb(CommittedOf(s), pageSize) && WholeDb(WorkingOf(s), pageSize)
    && 1 <= CountIn(CommittedOf(s)[1]) <= CountIn(WorkingOf(s)[1]) && NewPages(CommittedOf(s), s.dirty)
    && 1 <= |s.db| <= U32_MAX && Sized(s.db, pageSize)
    && HasVersion(s.db[0], s.mode) && HasVersion(CommittedOf(s)[1], s.mode) && HasVersion(WorkingOf(s)[1], s.mode)
  }

  ghost predicate StateOk(s: Snap, pageSize: u32)
  {
    Coherent(s, pageSize) && LogOk(s, pageSize) && Durable(s) && (s.mode == WalMode ==> WithinCount(WorkingOf(s), s.base))
  }

  lemma HasPage1(s: Snap, pageSize: u32)
    requires Coherent(s, pageSize)
    ensures 1 in WorkingOf(s) && 1 in CommittedOf(s) && s.db != []
    ensures |WorkingOf(s)[1]| == |CommittedOf(s)[1]| == |s.db[0]| == pageSize >= 512
  {
    hide U32At, CacheOk, HasVersion;
    assert s.db[0] in s.db;
  }

  /** A fresh connection sees exactly what is committed. */
  lemma FreshIsCommitted(s: Snap, pageSize: u32)
    requires StateOk(s, pageSize)
    ensures FreshOf(s.db, s.wal, pageSize) == CommittedOf(s)
  {
    hide Coherent, ParseHeader, Replay, ScanFile, HoldsFrames, Overlay;
    if s.mode == Legacy {
      assert Contents(s.db) + map[] == Contents(s.db);
    } else {
      CleanLogScans(s.wal.value, s.header, s.frames);
      BoundaryView(s.frames, |s.frames|);
      assert s.frames[..|s.frames|] == s.frames;
    }
  }

  // ------------------------------------------------------------------- reading

  /** What reading page `n` finds below the dirty pages and the overlay. */
  lemma ReadThrough(s: Snap, pageSize: u32, n: u32)
    requires Coherent(s, pageSize)
    ensures n in s.dirty ==> n in WorkingOf(s) && WorkingOf(s)[n] == s.dirty[n]
    ensures n !in s.dirty && n in s.walPages ==> n in WorkingOf(s) && WorkingOf(s)[n] == s.walPages[n] == CommittedOf(s)[n]
    ensures n !in s.dirty && n !in s.walPages ==> (n in WorkingOf(s) <==> Has(s.db, n)) && (n in CommittedOf(s) <==> Has(s.db, n))
    ensures n !in s.dirty && n !in s.walPages && Has(s.db, n) ==> WorkingOf(s)[n] == s.db[n - 1] == CommittedOf(s)[n]
    ensures n in s.cached ==> n !in s.dirty && n !in s.walPages && Has(s.db, n) && s.cached[n] == s.db[n - 1]
  {
    hide WholeDb, HasVersion, Sized;
  }

  // -------------------------------------------------------------------- editing

  /** Page 1 edits keep the page count and the format version. */
  ghost predicate EditAllowed(w: PageMap, pageSize: u32, n: u32, content: Page)
  {
    && n in w && |content| == pageSize
    && (n == 1 ==> |w[1]| >= 40 && |content| >= 40 && CountIn(content) == CountIn(w[1]) && content[18..20] == w[1][18..20])
  }

  /** New dirty pages over the same committed database. */
  lemma Redirtied(s: Snap, pageSize: u32, dirty': PageMap, cached': PageMap, w': PageMap)
    requires Coherent(s, pageSize) && w' == CommittedOf(s) + dirty'
    requires forall p :: p in cached' ==> p in s.cached && cached'[p] == s.cached[p] && p !in dirty'
    requires WholeDb(w', pageSize) && CountIn(CommittedOf(s)[1]) <= CountIn(w'[1]) && HasVersion(w'[1], s.mode)
    requires NewPages(CommittedOf(s), dirty')
    ensures Coherent(s.(dirty := dirty', cached := cached'), pageSize)
    ensures WorkingOf(s.(dirty := dirty', cached := cached')) == w'
    ensures CommittedOf(s.(dirty := dirty', cached := cached')) == CommittedOf(s)
  {
    hide WholeDb, HasVersion, Sized, ValidPageSize, NewPages;
  }

  lemma EditOk(s: Snap, pageSize: u32, n: u32, content: Page)
    requires Coherent(s, pageSize) && EditAllowed(WorkingOf(s), pageSize, n, content)
    ensures var s' := s.(dirty := s.dirty[n := content], cached := s.cached - {n});
            Coherent(s', pageSize) && WorkingOf(s') == WorkingOf(s)[n := content] && CommittedOf(s') == CommittedOf(s)
    ensures WithinCount(WorkingOf(s), s.base) ==> WithinCount(WorkingOf(s)[n := content], s.base)
  {
    hide U32At, ValidPageSize, CacheOk, Sized, WithinCount;
    var w' := WorkingOf(s)[n := content];
    EditWithin(WorkingOf(s), pageSize, n, content, s.base);
    assert w'.Keys == WorkingOf(s).Keys;
    assert w' == CommittedOf(s) + s.dirty[n := content];
    CacheShrinks(s, pageSize, n);
    Redirtied(s, pageSize, s.dirty[n := content], s.cached - {n}, w');
  }

  lemma EditWithin(w: PageMap, pageSize: u32, n: u32, content: Page, base: nat)
    requires EditAllowed(w, pageSize, n, content)
    ensures WithinCount(w, base) ==> WithinCount(w[n := content], base)
  {
    hide U32At;
  }

  lemma CacheShrinks(s: Snap, pageSize: u32, n: u32)
    requires Coherent(s, pageSize)
    ensures forall p :: p in s.cached - {n} ==> p in s.cached && (s.cached - {n})[p] == s.cached[p] && p !in s.dirty && p != n
  {
    hide WholeDb, HasVersion, Sized, ValidPageSize;
  }

  /** Page `n` becomes a zero page and page 1 counts it: what extending writes. It stays
      coherent exactly if no copy of page `n` is cached and no page below it is missing. */
  lemma ExtendOk(s: Snap, pageSize: u32, n: u32, page1: Page)
    requires Coherent(s, pageSize) && CountIn(WorkingOf(s)[1]) < U32_MAX && n == CountIn(WorkingOf(s)[1]) + 1
    requires page1 == WithCount(WorkingOf(s)[1], n)
    ensures n != 1
    ensures var s' := s.(dirty := s.dirty[n := Zeros(pageSize)][1 := page1], cached := s.cached - {1});
            && (Coherent(s', pageSize) <==> n !in s.cached && n - 1 in WorkingOf(s))
            && WorkingOf(s') == WorkingOf(s)[n := Zeros(pageSize)][1 := page1] && CommittedOf(s') == CommittedOf(s)
    ensures WithinCount(WorkingOf(s), s.base) ==> WithinCount(WorkingOf(s)[n := Zeros(pageSize)][1 := page1], s.base)
  {
    hide U32At, Put, WithCount, Sized, ValidPageSize, Zeros, CacheOk, HasVersion, WithinCount, NoHoles;
    HasPage1(s, pageSize);
    var w := WorkingOf(s);
    var w': PageMap := w[n := Zeros(pageSize)][1 := page1];
    var dirty': PageMap := s.dirty[n := Zeros(pageSize)][1 := page1];
    FieldsAfterCount(w[1], n);
    VersionKept(w[1], n, s.mode);
    if n - 1 in w { OneMorePage(w, n, pageSize, page1); }
    assert w' == CommittedOf(s) + dirty';
    ExtendWithin(w, n, pageSize, page1, s.base);
    var s' := s.(dirty := dirty', cached := s.cached - {1});
    assert WorkingOf(s') == w';
    if n in s.cached {
      StaleCopy(s', n);
    } else if n - 1 !in w {
      LeavesHole(w', n);
    } else {
      CacheShrinks(s, pageSize, 1);
      Redirtied(s, pageSize, dirty', s.cached - {1}, w');
    }
  }

  lemma ExtendWithin(w: PageMap, n: u32, pageSize: u32, page1: Page, base: nat)
    requires 1 in w && |w[1]| >= 40 && n > CountIn(w[1]) && |page1| >= 40 && CountIn(page1) == n
    ensures WithinCount(w, base) ==> WithinCount(w[n := Zeros(pageSize)][1 := page1], base)
  {
    hide U32At;
  }

  /** A cached copy of a dirty page is not allowed. */
  lemma StaleCopy(s: Snap, n: u32)
    requires n in s.dirty && n in s.cached
    ensures !CacheOk(s)
  {
  }

  lemma LeavesHole(w: PageMap, n: u32)
    requires n >= 2 && n in w && n - 1 !in w
    ensures !NoHoles(w)
  {
    var p: u32 := n - 1;
    assert p !in w;
  }

  lemma VersionKept(page1: Page, n: u32, m: Mode)
    requires HasVersion(page1, m)
    ensures HasVersion(WithCount(page1, n), m)
  {
    hide BE32;
    assert WithCount(page1, n)[18..20] == page1[18..20];
  }

  lemma OneMorePage(w: PageMap, n: u32, pageSize: u32, page1: Page)
    requires WholeDb(w, pageSize) && CountIn(w[1]) < U32_MAX && n == CountIn(w[1]) + 1 && n - 1 in w
    requires |page1| == pageSize && CountIn(page1) == n
    ensures n != 1 && WholeDb(w[n := Zeros(pageSize)][1 := page1], pageSize)
  {
    hide U32At;
  }

  // ----------------------------------------------------------------- committing

  ghost predicate IsKeyOrder(ks: seq<u32>, m: PageMap) { Ascending(ks) && forall k :: k in ks <==> k in m }

  /** Rolling back forgets the dirty pages. */
  lemma RollbackOk(s: Snap, pageSize: u32)
    requires StateOk(s, pageSize)
    ensures var s' := s.(dirty := map[]);
            StateOk(s', pageSize) && WorkingOf(s') == CommittedOf(s) == CommittedOf(s')
  {
    hide Coherent, LogOk, CommittedOf, WorkingOf, Overlay, WithinCount, SizeOf;
    ForgottenOk(s, pageSize);
    LogKept(s, s.(dirty := map[]), pageSize);
    if s.mode == WalMode { CommittedWithin(s, pageSize); }
  }

  lemma ForgottenOk(s: Snap, pageSize: u32)
    requires Coherent(s, pageSize)
    ensures var s' := s.(dirty := map[]); Coherent(s', pageSize) && WorkingOf(s') == CommittedOf(s') == CommittedOf(s)
  {
    hide WholeDb, HasVersion, U32At, Sized;
    assert CommittedOf(s) + map[] == CommittedOf(s);
  }

  lemma CommittedWithin(s: Snap, pageSize: u32)
    requires StateOk(s, pageSize) && s.mode == WalMode
    ensures WithinCount(CommittedOf(s), s.base)
  {
    hide U32At, HasVersion, CacheOk, Versioned, GoodLog, CleanLog, Truthful, Sized, SizeOf;
    var c := CommittedOf(s);
    PrefixDense(s.frames, s.base, |s.frames|) by { BoundaryAtEnd(s.frames, s.base); }
    assert s.frames[..|s.frames|] == s.frames;
    forall p | p in c ensures p <= Max(s.base, CountIn(c[1])) {
      if p in s.walPages {
        OverlayWithin(s.frames, s.base, p);
      } else {
        assert Has(s.db, p);
      }
    }
  }

  lemma OverlayWithin(fs: seq<Frame>, count: nat, p: u32)
    requires Dense(fs, count) && p in Overlay(fs)
    ensures p <= SizeOf(fs, count)
  {
    OverlayMember(fs, p);
  }

  /** The log does not depend on dirty or cached pages. */
  lemma LogKept(s: Snap, s': Snap, pageSize: u32)
    requires LogOk(s, pageSize)
    requires s' == s.(dirty := s'.dirty, cached := s'.cached)
    ensures LogOk(s', pageSize)
  {
    hide CleanLog, GoodLog, Truthful;
  }

  lemma DirtyIsWritable(s: Snap, pageSize: u32, ks: seq<u32>)
    requires Coherent(s, pageSize) && IsKeyOrder(ks, s.dirty)
    ensures Writable(ks, s.dirty) && (s.walPages == map[] ==> NoGaps(s.db, ks))
    ensures forall k :: k in ks ==> 1 <= k && |s.dirty[k]| == pageSize
  {
    hide U32At, HasVersion, CacheOk, NewPages;
    var w := WorkingOf(s);
    forall k | k in ks ensures 1 <= k && |s.dirty[k]| == pageSize {
      assert k in w && w[k] == s.dirty[k];
    }
    forall i | 0 <= i < |ks| ensures ks[i] in s.dirty && ks[i] >= 1 { assert ks[i] in ks; }
    if s.walPages == map[] {
      forall k, n: u32 | k in ks && |s.db| < n <= k ensures n in ks {
        assert k in w && n in w;
      }
    }
  }

  /** Writing every dirty page into the main file commits the working database. */
  lemma FlushLegacyOk(s: Snap, pageSize: u32, ks: seq<u32>)
    requires StateOk(s, pageSize) && s.mode == Legacy && IsKeyOrder(ks, s.dirty) && Writable(ks, s.dirty)
    ensures var s' := s.(db := WriteAll(s.db, ks, s.dirty), dirty := map[]);
            StateOk(s', pageSize) && WorkingOf(s') == WorkingOf(s) == CommittedOf(s')
  {
    hide U32At, WriteAll, WholeDb, HasVersion, CacheOk, Sized, CommittedOf, WorkingOf;
    var s' := s.(db := WriteAll(s.db, ks, s.dirty), dirty := map[]);
    LegacyViews(s, s', pageSize, ks);
    LegacyFile(s, s', pageSize, ks);
  }

  lemma LegacyViews(s: Snap, s': Snap, pageSize: u32, ks: seq<u32>)
    requires Coherent(s, pageSize) && s.walPages == map[] && IsKeyOrder(ks, s.dirty) && Writable(ks, s.dirty)
    requires s' == s.(db := WriteAll(s.db, ks, s.dirty), dirty := map[])
    ensures Contents(s'.db) == WorkingOf(s) == CommittedOf(s') == WorkingOf(s')
  {
    hide U32At, WriteAll, WholeDb, HasVersion, CacheOk, Sized;
    DirtyIsWritable(s, pageSize, ks);
    WriteAllContents(s.db, ks, s.dirty);
    assert Contents(s.db) + map[] == Contents(s.db);
    assert Contents(s'.db) + map[] == Contents(s'.db);
  }

  lemma LegacyFile(s: Snap, s': Snap, pageSize: u32, ks: seq<u32>)
    requires Coherent(s, pageSize) && s.walPages == map[] && IsKeyOrder(ks, s.dirty) && Writable(ks, s.dirty)
    requires s' == s.(db := WriteAll(s.db, ks, s.dirty), dirty := map[])
    requires Contents(s'.db) == WorkingOf(s)
    ensures CacheOk(s') && 1 <= |s'.db| <= U32_MAX && Sized(s'.db, pageSize) && HasVersion(s'.db[0], s.mode)
  {
    hide U32At, WriteAll, HasVersion, Pages;
    var w := WorkingOf(s);
    assert 1 in Contents(s'.db);
    forall p: u32 | p in s'.cached ensures p !in s'.walPages && Has(s'.db, p) && s'.cached[p] == s'.db[p - 1] {
      assert p in Contents(s.db) && p !in s.dirty;
      assert w[p] == Contents(s.db)[p];
      assert p in Contents(s'.db);
    }
    SizedContents(s'.db, pageSize, w);
  }

  lemma SizedContents(db: seq<Page>, pageSize: u32, w: PageMap)
    requires Contents(db) == w && |db| <= U32_MAX && forall p :: p in w ==> |w[p]| == pageSize
    ensures Sized(db, pageSize)
  {
    forall p | p in db ensures |p| == pageSize {
      var i :| 0 <= i < |db| && db[i] == p;
      var n: u32 := i + 1;
      assert Has(db, n);
      assert n in w && w[n] == db[i];
    }
  }

  // ------------------------------------------------------- committing to the log

  function PagesOf(ks: seq<u32>, m: PageMap): (ps: seq<(u32, Page)>)
    requires forall k :: k in ks ==> k in m
    ensures |ps| == |ks|
  {
    seq(|ks|, i requires 0 <= i < |ks| => assert ks[i] in ks; (ks[i], m[ks[i]]))
  }

  /** The transaction a flush appends: dirty pages in ascending order, then the count. */
  function TxnOf(ks: seq<u32>, m: PageMap, count: u32): Txn
    requires forall k :: k in ks ==> k in m
  {
    Txn(PagesOf(ks, m), count)
  }

  lemma {:induction false} WrittenPages(ks: seq<u32>, m: PageMap)
    requires forall k :: k in ks ==> k in m
    ensures Written(PagesOf(ks, m)) == map k | k in ks :: m[k]
  {
    var ps := PagesOf(ks, m);
    if ks != [] {
      var init, last := ks[..|ks| - 1], ks[|ks| - 1];
      assert ks == init + [last] && last in ks;
      assert forall k :: k in init ==> k in ks;
      assert ps[..|ps| - 1] == PagesOf(init, m);
      WrittenPages(init, m);
    }
  }

  lemma WrittenDirty(ks: seq<u32>, m: PageMap)
    requires forall k :: k in ks <==> k in m
    ensures Written(PagesOf(ks, m)) == m
  {
    WrittenPages(ks, m);
  }

  /** A flush appends a transaction the log may take. */
  lemma TxnAdmissible(s: Snap, pageSize: u32, ks: seq<u32>)
    requires StateOk(s, pageSize) && s.mode == WalMode && s.dirty != map[] && IsKeyOrder(ks, s.dirty)
    ensures var t := TxnOf(ks, s.dirty, CountIn(WorkingOf(s)[1]));
            Admissible(t, s.frames, s.base) && Written(t.pages) == s.dirty
            && forall p :: p in t.pages ==> |p.1| == pageSize
  {
    hide U32At, HasVersion, CacheOk, Overlay, Written, SizeOf, NewPages, Sized, CleanLog, GoodLog, Versioned, Truthful;
    var w := WorkingOf(s);
    var t := TxnOf(ks, s.dirty, CountIn(w[1]));
    WrittenDirty(ks, s.dirty);
    DirtyIsWritable(s, pageSize, ks);
    forall p | p in t.pages ensures 1 <= p.0 <= Max(s.base, t.dbSize) && |p.1| == pageSize {
      var i :| 0 <= i < |t.pages| && t.pages[i] == p;
      assert ks[i] in ks;
      assert p.0 in w;
    }
    forall p: u32, n: u32 | p in s.dirty && s.base < n <= p ensures n in Overlay(s.frames) || n in s.dirty {
      assert p in w && n in w;
    }
    if t.pages == [] { NoKeys(ks, s.dirty); }
  }

  lemma NoKeys(ks: seq<u32>, m: PageMap)
    requires IsKeyOrder(ks, m) && ks == []
    ensures m == map[]
  {
    assert m.Keys == {};
  }

  /** Appending every dirty page to the log commits the working database. */
  lemma FlushWalOk(s: Snap, pageSize: u32, ks: seq<u32>, wal': seq<byte>, hint': ResumeHint)
    requires StateOk(s, pageSize) && s.mode == WalMode && s.dirty != map[] && IsKeyOrder(ks, s.dirty)
    requires var fs := s.frames + FramesOf(TxnOf(ks, s.dirty, CountIn(WorkingOf(s)[1])));
             CleanLog(wal', s.header, fs) && Truthful(hint', wal', s.header, fs)
    ensures var fs := s.frames + FramesOf(TxnOf(ks, s.dirty, CountIn(WorkingOf(s)[1])));
            var s' := s.(wal := Some(wal'), frames := fs, walPages := s.walPages + s.dirty, dirty := map[], hint := Some(hint'));
            StateOk(s', pageSize) && WorkingOf(s') == WorkingOf(s) == CommittedOf(s')
  {
    hide U32At, Coherent, CommittedOf, WorkingOf, CleanLog, GoodLog, Truthful, Overlay, Written, SizeOf, FramesOf,
         Admissible, Versioned;
    HasPage1(s, pageSize);
    var t := TxnOf(ks, s.dirty, CountIn(WorkingOf(s)[1]));
    var fs := s.frames + FramesOf(t);
    var s' := s.(wal := Some(wal'), frames := fs, walPages := s.walPages + s.dirty, dirty := map[], hint := Some(hint'));
    TxnAdmissible(s, pageSize, ks);
    GoodLogExtends(s.frames, s.base, t);
    LoggedCoherent(s, s', pageSize);
    LoggedFrames(s, pageSize, ks, t);
  }

  /** The dirty pages joining the overlay. */
  lemma LoggedCoherent(s: Snap, s': Snap, pageSize: u32)
    requires Coherent(s, pageSize)
    requires s' == s.(wal := s'.wal, frames := s'.frames, hint := s'.hint, walPages := s.walPages + s.dirty, dirty := map[])
    ensures Coherent(s', pageSize) && WorkingOf(s') == WorkingOf(s) == CommittedOf(s')
  {
    hide HasVersion, CacheOk, WholeDb, Sized, ValidPageSize, U32At, CommittedOf, WorkingOf;
    LoggedViews(s, s');
    LoggedCache(s, s');
  }

  lemma LoggedViews(s: Snap, s': Snap)
    requires s' == s.(wal := s'.wal, frames := s'.frames, hint := s'.hint, walPages := s.walPages + s.dirty, dirty := map[])
    ensures WorkingOf(s') == WorkingOf(s) == CommittedOf(s')
  {
    MergeAssociates(Contents(s.db), s.walPages, s.dirty);
    assert CommittedOf(s') + map[] == CommittedOf(s');
  }

  lemma LoggedCache(s: Snap, s': Snap)
    requires CacheOk(s)
    requires s' == s.(wal := s'.wal, frames := s'.frames, hint := s'.hint, walPages := s.walPages + s.dirty, dirty := map[])
    ensures CacheOk(s')
  {
  }

  lemma LoggedFrames(s: Snap, pageSize: u32, ks: seq<u32>, t: Txn)
    requires StateOk(s, pageSize) && s.mode == WalMode && IsKeyOrder(ks, s.dirty)
    requires t == TxnOf(ks, s.dirty, CountIn(WorkingOf(s)[1]))
    requires Admissible(t, s.frames, s.base) && Written(t.pages) == s.dirty
    ensures var fs := s.frames + FramesOf(t);
            Overlay(fs) == s.walPages + s.dirty && SizeOf(fs, s.base) == Max(s.base, t.dbSize) && |fs| > |s.frames| && Versioned(fs)
  {
    hide U32At, CacheOk, WholeDb, CleanLog, GoodLog, Truthful, Overlay, Written, Sized, FramesOf, Coherent;
    var fs := s.frames + FramesOf(t);
    FrameMembers(t);
    OverlayAppend(s.frames, FramesOf(t));
    assert fs[|fs| - 1] == FramesOf(t)[|t.pages| - 1];
    VersionedTxn(s, pageSize, ks, t.dbSize);
  }

  lemma VersionedTxn(s: Snap, pageSize: u32, ks: seq<u32>, count: u32)
    requires Coherent(s, pageSize) && s.mode == WalMode && IsKeyOrder(ks, s.dirty)
    ensures Versioned(FramesOf(TxnOf(ks, s.dirty, count)))
  {
    hide U32At, CacheOk, WholeDb, Sized, HasVersion;
    var fs := FramesOf(TxnOf(ks, s.dirty, count));
    forall f | f in fs && f.page == 1 ensures HasVersion(f.content, WalMode) {
      var i :| 0 <= i < |fs| && fs[i] == f;
      assert ks[i] == 1 && 1 in ks && f.content == s.dirty[1] == WorkingOf(s)[1];
    }
  }

  // ---------------------------------------------------------------- checkpointing

  lemma DenseOver(fs: seq<Frame>, count: nat, more: nat)
    requires Dense(fs, count) && count <= more
    ensures Dense(fs, more)
  {
    hide Overlay;
  }

  lemma {:induction false} OverlayMember(fs: seq<Frame>, p: u32)
    requires p in Overlay(fs)
    ensures exists f :: f in fs && f.page == p && f.content == Overlay(fs)[p]
  {
    if fs != [] {
      var init, last := fs[..|fs| - 1], fs[|fs| - 1];
      assert fs == init + [last];
      if p == last.page {
        assert last in fs;
      } else {
        OverlayMember(init, p);
        var f :| f in init && f.page == p && f.content == Overlay(init)[p];
        assert f in fs;
      }
    }
  }

  /** Copying a committed prefix of the log under the whole log changes nothing. */
  lemma PrefixUnder(a: PageMap, fs: seq<Frame>, n: nat)
    requires n <= |fs|
    ensures (a + Overlay(fs[..n])) + Overlay(fs) == a + Overlay(fs)
  {
    hide Overlay;
    OverlayOfPrefix(fs, n, |fs|);
    assert fs[..|fs|] == fs;
    assert Overlay(fs[..n]).Keys <= Overlay(fs).Keys;
  }

  /** What a pass copies has the right size, and page 1 the right version. */
  lemma PrefixPages(fs: seq<Frame>, pageSize: u32, n: nat, p: u32)
    requires n <= |fs| && (forall f :: f in fs ==> |f.content| == pageSize) && Versioned(fs) && p in Overlay(fs[..n])
    ensures |Overlay(fs[..n])[p]| == pageSize && (p == 1 ==> HasVersion(Overlay(fs[..n])[p], WalMode))
    ensures p in Overlay(fs)
  {
    hide Overlay, HasVersion;
    OverlayMember(fs[..n], p);
    var f :| f in fs[..n] && f.page == p && f.content == Overlay(fs[..n])[p];
    assert f in fs;
    OverlayOfPrefix(fs, n, |fs|);
    assert fs[..|fs|] == fs;
    assert p in Overlay(fs[..n]).Keys;
  }

  /** The main file after a pass that copied the first `n` frames. */
  lemma CopiedFile(s: Snap, pageSize: u32, n: nat, db': seq<Page>, backfill': nat)
    requires StateOk(s, pageSize) && s.mode == WalMode && n <= |s.frames|
    requires Contents(db') == Contents(s.db) + Overlay(s.frames[..n]) && |db'| <= U32_MAX
    ensures |db'| >= |s.db| && Sized(db', pageSize) && HasVersion(db'[0], WalMode) && CacheOk(s.(db := db', backfill := backfill'))
  {
    hide Overlay, HasVersion, Coherent, U32At, LogOk, Durable, CommittedOf, WorkingOf, Sized, CacheOk;
    var c := Contents(db');
    FramesSized(s, pageSize);
    forall p | p in c ensures |c[p]| == pageSize && (p == 1 ==> HasVersion(c[p], WalMode)) { CopiedPage(s, pageSize, n, db', p); }
    SizedContents(db', pageSize, c);
    FileKept(s, pageSize);
    var last: u32 := |s.db|;
    assert last in Contents(s.db) && last in c;
    assert 1 in c;
    CopiedCache(s, pageSize, n, db', backfill');
  }

  lemma FileKept(s: Snap, pageSize: u32)
    requires Coherent(s, pageSize)
    ensures 1 <= |s.db| <= U32_MAX && Sized(s.db, pageSize) && HasVersion(s.db[0], s.mode) && CacheOk(s)
  {
    hide HasVersion, WholeDb, U32At, NewPages, CacheOk, Sized, CommittedOf, WorkingOf;
  }

  lemma CopiedPage(s: Snap, pageSize: u32, n: nat, db': seq<Page>, p: u32)
    requires StateOk(s, pageSize) && s.mode == WalMode && n <= |s.frames|
    requires Contents(db') == Contents(s.db) + Overlay(s.frames[..n]) && p in Contents(db')
    ensures |Contents(db')[p]| == pageSize && (p == 1 ==> HasVersion(Contents(db')[p], WalMode))
  {
    hide Overlay, HasVersion, Coherent, U32At, Durable, GoodLog, CleanLog, Truthful, CommittedOf, WorkingOf;
    FramesSized(s, pageSize);
    FileKept(s, pageSize);
    if p in Overlay(s.frames[..n]) {
      PrefixPages(s.frames, pageSize, n, p);
    } else {
      assert Has(s.db, p) && s.db[p - 1] in s.db;
    }
  }

  lemma CopiedCache(s: Snap, pageSize: u32, n: nat, db': seq<Page>, backfill': nat)
    requires StateOk(s, pageSize) && s.mode == WalMode && n <= |s.frames|
    requires Contents(db') == Contents(s.db) + Overlay(s.frames[..n])
    ensures CacheOk(s.(db := db', backfill := backfill'))
  {
    hide Overlay, HasVersion, Coherent, LogOk, CommittedOf, WorkingOf;
    FileKept(s, pageSize);
    OverlayOfPrefix(s.frames, n, |s.frames|);
    assert s.frames[..|s.frames|] == s.frames;
    var c := Contents(db');
    forall p: u32 | p in s.cached ensures Has(db', p) && s.cached[p] == db'[p - 1] {
      assert p !in s.walPages && p in Contents(s.db);
      assert p !in Overlay(s.frames[..n]).Keys;
      assert p in c && c[p] == s.db[p - 1];
    }
  }

  lemma GrownFromLog(s: Snap, n: nat, db': seq<Page>)
    requires n <= |s.frames| && Contents(db') == Contents(s.db) + Overlay(s.frames[..n])
    requires forall k: u32 :: s.base < k <= |s.db| ==> k in Overlay(s.frames)
    ensures forall k: u32 :: s.base < k <= |db'| ==> k in Overlay(s.frames)
  {
    hide Overlay;
    OverlayOfPrefix(s.frames, n, |s.frames|);
    assert s.frames[..|s.frames|] == s.frames;
    forall k: u32 | s.base < k <= |db'| ensures k in Overlay(s.frames) {
      assert Has(db', k);
      assert k in Contents(db');
      assert k in Overlay(s.frames[..n]) ==> k in Overlay(s.frames[..n]).Keys;
    }
  }

  lemma FramesSized(s: Snap, pageSize: u32)
    requires LogOk(s, pageSize) && s.mode == WalMode
    ensures forall f :: f in s.frames ==> |f.content| == pageSize
  {
    hide GoodLog, Truthful, Encode, Serialize, StaleTail, Versioned;
  }

  /** A pass leaves what everyone sees unchanged; a complete one leaves it all in the
      main file. */
  lemma CheckpointOk(s: Snap, pageSize: u32, safe: nat, db': seq<Page>, published: nat, r: CheckpointResult)
    requires StateOk(s, pageSize) && s.mode == WalMode && Boundary(s.frames, safe)
    requires Passed(s.db, s.frames, safe, s.backfill, db', published, r)
    ensures var s' := s.(db := db', backfill := published);
            StateOk(s', pageSize) && CommittedOf(s') == CommittedOf(s) && WorkingOf(s') == WorkingOf(s)
            && (r.complete ==> Contents(db') == CommittedOf(s))
  {
    hide Overlay, HasVersion, WholeDb, U32At, GoodLog, Truthful, CleanLog, CacheOk, Sized, Dense, SizeOf, Versioned;
    if s.frames == [] {
      NothingLogged(s, pageSize);
    } else if safe > s.backfill {
      PrefixDense(s.frames, s.base, safe);
      DenseOver(s.frames[..safe], s.base, |s.db|);
      PrefixUnder(Contents(s.db), s.frames, safe);
      CopiedFile(s, pageSize, safe, db', published);
      GrownFromLog(s, safe, db');
      if safe == |s.frames| { assert s.frames[..safe] == s.frames; }
    }
  }

  lemma PrefixDense(fs: seq<Frame>, count: nat, n: nat)
    requires GoodLog(fs, count) && Boundary(fs, n)
    ensures Dense(fs[..n], count)
  {
  }

  lemma NothingLogged(s: Snap, pageSize: u32)
    requires StateOk(s, pageSize) && s.mode == WalMode && s.frames == []
    ensures Contents(s.db) == CommittedOf(s)
  {
    hide Coherent, LogOk;
    assert Contents(s.db) + map[] == Contents(s.db);
  }

  // ------------------------------------------------------ switching journal modes

  function Patched(page1: Page, m: Mode): Page
    requires |page1| >= 40
  {
    Put(page1, 18, VersionBytes(m))
  }

  lemma PatchedFields(page1: Page, m: Mode)
    requires |page1| >= 40
    ensures |Patched(page1, m)| == |page1| && CountIn(Patched(page1, m)) == CountIn(page1) && HasVersion(Patched(page1, m), m)
    ensures Patched(page1, m)[18] == Patched(page1, m)[19] == (if m == WalMode then 2 else 1)
    ensures forall i :: 0 <= i < |page1| && i != 18 && i != 19 ==> Patched(page1, m)[i] == page1[i]
  {
    hide U32At, Put, VersionBytes;
    var r, v := Patched(page1, m), VersionBytes(m);
    VersionIs(m);
    PutHere(page1, 18, v);
    PutElsewhere(page1, 18, v, 28, 32);
    SameField32(r, page1, 28, 28);
    assert r[18] == r[18..20][0] && r[19] == r[18..20][1];
    forall i | 0 <= i < |page1| && i != 18 && i != 19 ensures r[i] == page1[i] {
      PutElsewhere(page1, 18, v, i, i + 1);
      assert r[i] == r[i..i + 1][0] && page1[i] == page1[i..i + 1][0];
    }
  }

  lemma VersionIs(m: Mode)
    ensures VersionBytes(m) == if m == WalMode then [2, 2] else [1, 1]
  {
  }

  /** Rewriting page 1 of a file nothing shadows. */
  lemma PatchedDb(s: Snap, pageSize: u32, m: Mode)
    requires Coherent(s, pageSize) && s.dirty == map[] && Contents(s.db) == CommittedOf(s) && |s.db[0]| >= 40
    ensures var db' := s.db[0 := Patched(s.db[0], m)];
            && Contents(db') == CommittedOf(s)[1 := Patched(s.db[0], m)] && Sized(db', pageSize)
            && WholeDb(Contents(db'), pageSize) && HasVersion(db'[0], m) && CountIn(db'[0]) == CountIn(s.db[0]) && 1 in CommittedOf(s) && s.db[0] == CommittedOf(s)[1]
  {
    hide U32At, CacheOk, HasVersion, Put, NewPages;
    var db' := s.db[0 := Patched(s.db[0], m)];
    PatchedFields(s.db[0], m);
    assert s.db[0] in s.db && 1 in Contents(s.db);
    assert Contents(db') == CommittedOf(s)[1 := Patched(s.db[0], m)];
    assert Contents(db').Keys == CommittedOf(s).Keys;
  }

  /** A page-1 rewrite with an empty overlay, as either switch ends. */
  lemma SwitchedOk(s: Snap, s': Snap, pageSize: u32, m: Mode)
    requires Coherent(s, pageSize) && s.dirty == map[] && Contents(s.db) == CommittedOf(s) && |s.db[0]| >= 40
    requires s'.mode == m && s'.db == s.db[0 := Patched(s.db[0], m)] && s'.dirty == map[] && s'.walPages == map[]
    requires s'.cached == s.cached - {1}
    ensures Coherent(s', pageSize) && Contents(s'.db) == CommittedOf(s') == WorkingOf(s')
    ensures 1 in CommittedOf(s) && |CommittedOf(s)[1]| >= 40
    ensures CommittedOf(s') == CommittedOf(s)[1 := Patched(CommittedOf(s)[1], m)]
  {
    hide U32At, HasVersion, Patched, WholeDb, Sized, ValidPageSize;
    PatchedDb(s, pageSize, m);
    assert Contents(s'.db) + map[] == Contents(s'.db);
    assert CommittedOf(s') + map[] == CommittedOf(s');
    assert CacheOk(s') by {
      forall p: u32 | p in s'.cached ensures Has(s'.db, p) && s'.cached[p] == s'.db[p - 1] { assert p in s.cached; }
    }
  }

  /** Legacy to WAL: a log holding only a header, and page 1 marked. */
  lemma ToWalOk(s: Snap, pageSize: u32, h: WalHeader)
    requires StateOk(s, pageSize) && s.mode == Legacy && s.dirty == map[] && ValidHeader(h) && h.pageSize == pageSize
    requires |s.db[0]| >= 40
    ensures var s' := s.(mode := WalMode, wal := Some(Serialize(h)), hint := None, backfill := 0, header := h, frames := [],
                         base := |s.db|, db := s.db[0 := Patched(s.db[0], WalMode)], cached := s.cached - {1});
            && StateOk(s', pageSize) && WorkingOf(s') == CommittedOf(s')
            && 1 in CommittedOf(s) && |CommittedOf(s)[1]| >= 40
            && CommittedOf(s') == CommittedOf(s)[1 := Patched(CommittedOf(s)[1], WalMode)]
  {
    hide U32At, HasVersion, Patched, WholeDb, Sized, ValidPageSize, CacheOk, ValidHeader, Serialize;
    var s' := s.(mode := WalMode, wal := Some(Serialize(h)), hint := None, backfill := 0, header := h, frames := [],
                 base := |s.db|, db := s.db[0 := Patched(s.db[0], WalMode)], cached := s.cached - {1});
    assert Contents(s.db) + map[] == Contents(s.db);
    SwitchedOk(s, s', pageSize, WalMode);
    HasPage1(s', pageSize);
    EmptyLog(h, |s.db|);
  }

  lemma EmptyLog(h: WalHeader, count: nat)
    requires ValidHeader(h)
    ensures CleanLog(Serialize(h), h, []) && GoodLog([], count)
  {
    hide ValidHeader, Serialize;
    var b := Serialize(h);
    assert b[HEADER_LEN..] == [] && b[HEADER_LEN..HEADER_LEN] == [];
    EmptyTailIsStale(h);
    var none: seq<Frame> := [];
    assert none[..0] == [];
  }

  /** WAL to legacy, once everything logged is in the main file. */
  lemma ToLegacyOk(s: Snap, pageSize: u32)
    requires StateOk(s, pageSize) && s.mode == WalMode && s.dirty == map[] && Contents(s.db) == CommittedOf(s)
    requires |s.db[0]| >= 40
    ensures var s' := s.(mode := Legacy, wal := None, walPages := map[], hint := None,
                         db := s.db[0 := Patched(s.db[0], Legacy)], cached := s.cached - {1});
            && StateOk(s', pageSize) && WorkingOf(s') == CommittedOf(s')
            && 1 in CommittedOf(s) && |CommittedOf(s)[1]| >= 40
            && CommittedOf(s') == CommittedOf(s)[1 := Patched(CommittedOf(s)[1], Legacy)]
  {
    hide U32At, HasVersion, Patched, WholeDb, Sized, ValidPageSize, CacheOk;
    var s' := s.(mode := Legacy, wal := None, walPages := map[], hint := None,
                 db := s.db[0 := Patched(s.db[0], Legacy)], cached := s.cached - {1});
    SwitchedOk(s, s', pageSize, Legacy);
  }

  // ------------------------------------------------------------ cache and lost commits

  /** Whatever the cache keeps, drops or picks up from the main file, nobody sees it. */
  lemma CacheReplaced(s: Snap, pageSize: u32, cached': PageMap)
    requires Coherent(s, pageSize)
    requires forall p: u32 :: p in cached' ==>
               p !in s.dirty && p !in s.walPages && Has(s.db, p) && cached'[p] == s.db[p - 1]
    ensures var s' := s.(cached := cached');
            Coherent(s', pageSize) && WorkingOf(s') == WorkingOf(s) && CommittedOf(s') == CommittedOf(s)
    ensures StateOk(s, pageSize) ==> StateOk(s.(cached := cached'), pageSize)
  {
    hide WholeDb, HasVersion, LogOk, U32At, Overlay, Sized;
    if StateOk(s, pageSize) { LogKept(s, s.(cached := cached'), pageSize); }
  }

  /** Below full synchronization nothing reaches the log: the connection sees its commit,
      a fresh one sees it exactly if it changed nothing. */
  lemma UnsyncedCommit(s: Snap, pageSize: u32)
    requires StateOk(s, pageSize) && s.mode == WalMode
    ensures var s' := s.(walPages := s.walPages + s.dirty, dirty := map[]);
            && Coherent(s', pageSize) && WorkingOf(s') == WorkingOf(s) == CommittedOf(s')
            && FreshOf(s'.db, s'.wal, pageSize) == CommittedOf(s)
            && (FreshOf(s'.db, s'.wal, pageSize) == CommittedOf(s') <==>
                  forall p :: p in s.dirty ==> p in CommittedOf(s) && CommittedOf(s)[p] == s.dirty[p])
  {
    hide Coherent, LogOk, Overlay, FreshOf, Durable, CommittedOf;
    var s' := s.(walPages := s.walPages + s.dirty, dirty := map[]);
    FreshIsCommitted(s, pageSize);
    LoggedCoherent(s, s', pageSize);
    MergeIdentity(CommittedOf(s), s.dirty);
  }

  lemma MergeIdentity(a: PageMap, b: PageMap)
    ensures a == a + b <==> forall p :: p in b ==> p in a && a[p] == b[p]
  {
    if a == a + b {
      forall p | p in b ensures p in a && a[p] == b[p] { assert p in a + b; }
    }
    if forall p :: p in b ==> p in a && a[p] == b[p] {
      assert a.Keys == (a + b).Keys;
      assert a == a + b;
    }
  }

  /** New dirty pages leave log and committed database as they were. */
  lemma Carried(s: Snap, s': Snap, pageSize: u32)
    requires StateOk(s, pageSize) && Coherent(s', pageSize) && s' == s.(dirty := s'.dirty, cached := s'.cached)
    requires s.mode == WalMode ==> WithinCount(WorkingOf(s'), s.base)
    ensures StateOk(s', pageSize) && CommittedOf(s') == CommittedOf(s)
  {
    hide Coherent, LogOk, U32At, Overlay;
    LogKept(s, s', pageSize);
  }

  /** A fresh connection on the same files. */
  lemma ReopenOk(s: Snap, pageSize: u32)
    requires StateOk(s, pageSize)
    ensures var s' := s.(dirty := map[], cached := map[], hint := None);
            StateOk(s', pageSize) && WorkingOf(s') == CommittedOf(s') == CommittedOf(s)
    ensures s.mode == Legacy ==> s.wal == None && s.walPages == map[]
    ensures s.mode == WalMode ==>
              && s.wal.Some? && |s.wal.value| >= HEADER_LEN && ParseHeader(s.wal.value) == Ok(s.header) && s.header.pageSize == pageSize
              && s.walPages == Replay(ScanFile(s.header, s.wal.value).frames, EMPTY_VIEW).committed
  {
    hide Coherent, LogOk, Durable, U32At, ParseHeader, Replay, ScanFile;
    assert CommittedOf(s) + map[] == CommittedOf(s);
    Emptied(s, pageSize);
    if s.mode == WalMode { LogReadsBack(s, pageSize); } else { assert LogOk(s, pageSize); NoLog(s, pageSize); }
  }

  lemma NoLog(s: Snap, pageSize: u32)
    requires LogOk(s, pageSize) && s.mode == Legacy
    ensures s.wal == None && s.walPages == map[]
  {
  }

  lemma Emptied(s: Snap, pageSize: u32)
    requires StateOk(s, pageSize)
    ensures var s' := s.(dirty := map[], cached := map[], hint := None);
            StateOk(s', pageSize) && CommittedOf(s') == CommittedOf(s)
  {
    hide Coherent, CommittedOf, WorkingOf, StateOk;
    RollbackOk(s, pageSize);
    StateIsCoherent(s.(dirty := map[]), pageSize);
    CacheReplaced(s.(dirty := map[]), pageSize, map[]);
    HintDropped(s.(dirty := map[], cached := map[]), pageSize);
  }

  lemma StateIsCoherent(s: Snap, pageSize: u32)
    requires StateOk(s, pageSize)
    ensures Coherent(s, pageSize)
  {
    hide Coherent, LogOk, Durable;
  }

  lemma HintDropped(s: Snap, pageSize: u32)
    requires StateOk(s, pageSize)
    ensures StateOk(s.(hint := None), pageSize) && CommittedOf(s.(hint := None)) == CommittedOf(s)
  {
    hide Coherent, Overlay, CleanLog, GoodLog, SizeOf, Versioned, Truthful, WithinCount, U32At, CommittedOf, WorkingOf;
    HintIgnored(s, s.(hint := None), pageSize);
  }

  /** The resume hint plays no part in what anyone sees. */
  lemma HintIgnored(s: Snap, s': Snap, pageSize: u32)
    requires Coherent(s, pageSize) && s' == s.(hint := s'.hint)
    ensures Coherent(s', pageSize) && WorkingOf(s') == WorkingOf(s) && CommittedOf(s') == CommittedOf(s)
  {
    hide WholeDb, HasVersion, U32At, Sized, NewPages;
  }

  lemma LogReadsBack(s: Snap, pageSize: u32)
    requires StateOk(s, pageSize) && s.mode == WalMode
    ensures s.wal.Some? && |s.wal.value| >= HEADER_LEN && ParseHeader(s.wal.value) == Ok(s.header) && s.header.pageSize == pageSize
    ensures s.walPages == Replay(ScanFile(s.header, s.wal.value).frames, EMPTY_VIEW).committed
  {
    hide Coherent, U32At, Overlay, ParseHeader, Replay, ScanFile, HoldsFrames, Truthful, GoodLog, SizeOf;
    CleanLogScans(s.wal.value, s.header, s.frames);
    LongEnough(s.wal.value, s.header, s.frames);
    BoundaryAtEnd(s.frames, s.base);
    BoundaryView(s.frames, |s.frames|);
    assert s.frames[..|s.frames|] == s.frames;
  }

  lemma LongEnough(b: seq<byte>, h: WalHeader, fs: seq<Frame>)
    requires HoldsFrames(b, h, fs)
    ensures |b| >= HEADER_LEN
  {
  }

  lemma BoundaryAtEnd(fs: seq<Frame>, count: nat)
    requires GoodLog(fs, count)
    ensures Boundary(fs, |fs|)
  {
  }

  /** Any file of whole pages in rollback mode, just opened: its header need not count the
      pages the file has, as long as it counts some. */
  lemma InitialOk(db: seq<Page>, pageSize: u32, header: WalHeader)
    requires ValidPageSize(pageSize) && 1 <= |db| <= U32_MAX && Sized(db, pageSize)
    requires HasVersion(db[0], Legacy) && CountIn(db[0]) >= 1
    ensures var s := Snap(Legacy, db, None, map[], map[], map[], None, 0, header, [], 0);
            StateOk(s, pageSize) && CommittedOf(s) == WorkingOf(s) == Contents(db)
  {
    hide U32At, HasVersion;
    var s := Snap(Legacy, db, None, map[], map[], map[], None, 0, header, [], 0);
    assert Contents(db) + map[] == Contents(db);
    forall p | p in Contents(db) ensures |Contents(db)[p]| == pageSize { assert db[p - 1] in db; }
    assert 1 in Contents(db);
  }
}
