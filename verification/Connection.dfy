/** One connection to a database file: reads, buffered edits, page allocation, commits
    through either journal, and switching between the journals. */
module Connection {
  import opened Bytes
  import opened Vfs
  import opened Wal
  import opened WalWriter
  import opened WalSessions
  import opened PageFile
  import opened Checkpoint
  import opened Allocator
  import opened PageCache
  import opened PagerState
  import opened Snapshots
  import Journal
  import CrashRecovery
  import CommitSteps
  import Freelist

  datatype PageError = InvalidPageNumber | ShortRead(page: u32)

  datatype PagerError = PendingTransaction | CheckpointIncomplete | BadLog(wal: WalError)
                      | Unreadable(page: PageError) | BadFreelist(freelist: Freelist.FreelistError)

  const DEFAULT_PAGE_CACHE_CAPACITY: nat := 2000
  const MAX_PASSES: nat := 1000

  function Source(db: seq<Page>, n: u32): Result<Page, PageError>
  {
    if n == 0 then Err(InvalidPageNumber) else if n > |db| then Err(ShortRead(n)) else Ok(db[n - 1])
  }

  /** `c'` keeps entries of `c`, apart from page `n`, which holds what was just read. */
  ghost predicate Refilled(c: PageMap, c': PageMap, n: u32, r: Result<Page, PageError>)
  {
    forall p :: p in c' ==> (p in c && c'[p] == c[p]) || (p == n && r == Ok(c'[p]))
  }

  function ModeOf(page1: Page): Mode { if |page1| >= 20 && page1[18..20] == [2, 2] then WalMode else Legacy }

  /** Reading a page of the database as the connection sees it. */
  function Seen(w: PageMap, n: u32): Result<Page, PageError>
  {
    if n in w then Ok(w[n]) else if n == 0 then Err(InvalidPageNumber) else Err(ShortRead(n))
  }

  function FromStore(e: StoreError): PagerError
  {
    match e
    case NoSuchPage(p) => Unreadable(if p == 0 then InvalidPageNumber else ShortRead(p))
    case BadTrunk(t) => BadFreelist(t)
  }

  /** Page `head` of the database, read as a freelist trunk. */
  function TrunkIn(w: PageMap, head: u32): Result<Freelist.Trunk, PagerError>
  {
    match Seen(w, head)
    case Err(e) => Err(Unreadable(e))
    case Ok(buf) => match Freelist.ParseTrunk(buf)
                    case Err(e) => Err(BadFreelist(e))
                    case Ok(t) => Ok(t)
  }

  /** The freelist does not start at page 1 and a page number is left to hand out. */
  ghost predicate Allocatable(w: PageMap)
  {
    1 in w && |w[1]| >= 40 && HeadIn(w[1]) != 1 && !(HeadIn(w[1]) == 0 && CountIn(w[1]) == U32_MAX)
  }

  /** Allocating takes a new page rather than a free one. */
  ghost predicate Extends(w: PageMap) { 1 in w && |w[1]| >= 40 && HeadIn(w[1]) == 0 && CountIn(w[1]) < U32_MAX }

  /** The log once the dirty pages are appended. */
  ghost function Logged(s: Snap, ks: seq<u32>, count: u32): seq<Frame>
    requires IsKeyOrder(ks, s.dirty)
  {
    s.frames + FramesOf(TxnOf(ks, s.dirty, count))
  }

  /** The log file can take the dirty pages. */
  ghost predicate LogTakes(s: Snap, pageSize: u32, ks: seq<u32>, count: u32)
  {
    && IsKeyOrder(ks, s.dirty) && s.wal.Some? && s.header.pageSize == pageSize
    && CleanLog(s.wal.value, s.header, s.frames)
    && (s.hint.Some? ==> Truthful(s.hint.value, s.wal.value, s.header, s.frames))
    && forall p :: p in TxnOf(ks, s.dirty, count).pages ==> |p.1| == pageSize
  }

  ghost predicate LogHolds(b: seq<byte>, hint: ResumeHint, h: WalHeader, fs: seq<Frame>)
  {
    CleanLog(b, h, fs) && Truthful(hint, b, h, fs)
  }

  /** The committed pages of the log, if there is one with at least a header. */
  method ReadWalPages(wal: Option<seq<byte>>, pageSize: u32) returns (r: Result<PageMap, WalError>)
    ensures r == LogPages(wal, pageSize)
  {
    hide ParseHeader, Replay, ScanFile;
    if wal.None? || |wal.value| < HEADER_LEN {
      return Ok(map[]);
    }
    var parsed := ParseHeader(wal.value);
    if parsed.Err? {
      return Err(parsed.error);
    }
    if parsed.value.pageSize != pageSize {
      return Err(InvalidPageSize(parsed.value.pageSize));
    }
    var pages, size := CommittedPages(parsed.value, wal.value);
    return Ok(pages);
  }

  function LogPages(wal: Option<seq<byte>>, pageSize: u32): Result<PageMap, WalError>
  {
    if wal.None? || |wal.value| < HEADER_LEN then Ok(map[])
    else match ParseHeader(wal.value)
      case Err(e) => Err(e)
      case Ok(h) =>
        if h.pageSize != pageSize then Err(InvalidPageSize(h.pageSize))
        else Ok(Replay(ScanFile(h, wal.value).frames, EMPTY_VIEW).committed)
  }

  /** A connection that has just loaded the log sees what the files hold. */
  lemma FreshViews(s: Snap, pageSize: u32)
    requires s.dirty == map[] && LogPages(s.wal, pageSize) == Ok(s.walPages)
    ensures CommittedOf(s) == WorkingOf(s) == FreshOf(s.db, s.wal, pageSize)
  {
    hide ParseHeader, Replay, ScanFile;
    assert Contents(s.db) + map[] == Contents(s.db);
    assert CommittedOf(s) + map[] == CommittedOf(s);
  }

  /** What reading page `n` finds, dirty pages first. */
  function Found(s: Snap, n: u32): Result<Page, PageError>
  {
    if n in s.dirty then Ok(s.dirty[n])
    else if n in s.walPages then Ok(s.walPages[n])
    else if n in s.cached then Ok(s.cached[n])
    else Source(s.db, n)
  }

  /** Reading page `n` displaces no page from the cache. */
  ghost predicate AtHand(n: u32, s: Snap, capacity: nat)
  {
    n in s.dirty || n in s.walPages || n in s.cached || |s.cached| < capacity
  }

  class Pager {
    const pageSize: u32
    const db: Database
    const cache: Cache
    var wal: File?
    var backfill: nat
    var walResume: Option<ResumeHint>
    var walPages: PageMap
    var dirty: PageMap
    var journalMode: Mode
    var synchronous: SynchronousMode
    var locked: bool
    ghost var header: WalHeader
    ghost var frames: seq<Frame>
    ghost var base: nat
    /** A commit was made in WAL mode without reaching the log. */
    ghost var lossy: bool

    ghost function View(): Snap
      reads this, db, cache, wal
    {
      Snap(journalMode, db.pages, if wal == null then None else Some(wal.bytes), dirty, walPages,
           cache.Model().contents, walResume, backfill, header, frames, base)
    }

    ghost predicate Valid()
      reads this, db, cache, wal
    {
      cache.Valid() && Coherent(View(), pageSize) && (!lossy ==> StateOk(View(), pageSize))
    }

    /** As valid, the cache aside: it may hold copies that no longer agree. */
    ghost predicate SoundButCache()
      reads this, db, cache, wal
    {
      cache.Valid() && var s := View().(cached := map[]); Coherent(s, pageSize) && (!lossy ==> StateOk(s, pageSize))
    }

    ghost function Cached(): PageMap
      reads cache
    {
      cache.Model().contents
    }

    ghost function Working(): PageMap
      reads this, db, cache, wal
    {
      WorkingOf(View())
    }

    ghost function Committed(): PageMap
      reads this, db, cache, wal
    {
      CommittedOf(View())
    }

    // -------------------------------------------------------------------- opening

    constructor OnFiles(db: Database, wal: File?, backfill: nat, pageSize: u32, walPages: PageMap, mode: Mode, ghost was: Snap)
      ensures this.db == db && this.wal == wal && this.pageSize == pageSize && fresh(cache) && cache.Valid()
      ensures View() == Snap(mode, db.pages, if wal == null then None else Some(wal.bytes), map[], walPages, map[], None, backfill,
                             was.header, was.frames, was.base)
      ensures synchronous == Full && !locked && !lossy && cache.capacity == DEFAULT_PAGE_CACHE_CAPACITY
    {
      this.db, this.wal, this.backfill, this.pageSize := db, wal, backfill, pageSize;
      this.walPages, dirty, journalMode := walPages, map[], mode;
      walResume, synchronous, locked := None, Full, false;
      header, frames, base, lossy := was.header, was.frames, was.base, false;
      cache := new Cache(DEFAULT_PAGE_CACHE_CAPACITY);
    }

    /** Opens the files another connection left behind; `was` is what that one knew. */
    static method Open(db: Database, wal: File?, backfill: nat, pageSize: u32, ghost was: Snap)
      returns (r: Result<Pager, PagerError>)
      ensures r.Ok? ==> fresh(r.value) && fresh(r.value.cache) && r.value.db == db && r.value.wal == wal && r.value.pageSize == pageSize
      ensures r.Ok? ==> r.value.dirty == map[] && r.value.synchronous == Full && r.value.Cached() == map[] && !r.value.locked && !r.value.lossy
      ensures r.Ok? ==> r.value.cache.capacity == DEFAULT_PAGE_CACHE_CAPACITY && r.value.cache.Valid()
      ensures r.Ok? ==> r.value.Committed() == r.value.Working() == FreshOf(db.pages, if wal == null then None else Some(wal.bytes), pageSize)
      ensures StateOk(was, pageSize) && was.db == db.pages && was.wal == (if wal == null then None else Some(wal.bytes))
              && was.backfill == backfill ==>
                r.Ok? && r.value.Valid() && !r.value.lossy && r.value.journalMode == was.mode && !r.value.locked
                && r.value.frames == was.frames
    {
      hide Coherent, LogOk, Durable, LogPages, FreshOf, WorkingOf, CommittedOf, ModeOf, Tracked;
      ghost var fits := StateOk(was, pageSize) && was.db == db.pages && was.wal == (if wal == null then None else Some(wal.bytes))
                        && was.backfill == backfill;
      if fits { ReopenOk(was, pageSize); ModeOnDisk(was, pageSize); LogLoads(was, pageSize); }
      var read := ReadWalPages(if wal == null then None else Some(wal.bytes), pageSize);
      if read.Err? {
        return Err(BadLog(read.error));
      }
      var page1 := Source(db.pages, 1);
      if page1.Err? {
        return Err(Unreadable(page1.error));
      }
      var p := new Pager.OnFiles(db, wal, backfill, pageSize, read.value, ModeOf(page1.value), was);
      FreshViews(p.View(), pageSize);
      if fits { assert p.View() == was.(dirty := map[], cached := map[], hint := None); }
      r := Ok(p);
    }

    // -------------------------------------------------------------------- reading

    /** A hit, or a read from the file that may displace another cached page. */
    method ReadCached(n: u32) returns (r: Result<Page, PageError>)
      requires cache.Valid()
      modifies cache
      ensures cache.Valid()
      ensures r == var c := old(cache.Model().contents); if n in c then Ok(c[n]) else Source(db.pages, n)
      ensures Refilled(old(cache.Model().contents), cache.Model().contents, n, r)
      ensures r.Ok? && cache.capacity > 0 ==> n in Cached() && Cached()[n] == r.value
      ensures n in old(Cached()) ==> Cached() == old(Cached())
      ensures |old(Cached())| < cache.capacity ==> Cached() == if r.Ok? then old(Cached())[n := r.value] else old(Cached())
    {
      hide Tracked, Without;
      var hit := cache.Get(n);
      if hit.Some? {
        assert Cached() == Cached()[n := hit.value];
        return Ok(hit.value);
      }
      var victim := cache.EvictOneIfFull();
      ghost var c := cache.Model().contents;
      assert Refilled(old(cache.Model().contents), c, n, Err(InvalidPageNumber));
      r := Source(db.pages, n);
      if r.Ok? {
        cache.Insert(n, r.value);
      }
    }

    /** Dirty pages, then the log overlay, then the cache, then the file. */
    method LookUp(n: u32) returns (r: Result<Page, PageError>)
      requires cache.Valid()
      modifies cache
      ensures cache.Valid() && r == Found(old(View()), n) == Found(View(), n)
      ensures View() == old(View()).(cached := Cached()) && Refilled(old(Cached()), Cached(), n, Source(db.pages, n))
      ensures n in dirty || n in walPages ==> Cached() == old(Cached())
      ensures AtHand(n, old(View()), cache.capacity) ==> forall p :: p != n ==> (p in Cached() <==> p in old(Cached()))
      ensures r.Ok? && cache.capacity > 0 ==> n in dirty || n in walPages || n in Cached()
    {
      hide Cache.Valid, Cache.Model;
      if n in dirty {
        return Ok(dirty[n]);
      }
      if n in walPages {
        return Ok(walPages[n]);
      }
      r := ReadCached(n);
    }

    /** On a valid connection that is the database it sees. */
    method ReadPage(n: u32) returns (r: Result<Page, PageError>)
      requires Valid()
      modifies cache
      ensures Valid() && r == Seen(Working(), n)
      ensures View() == old(View()).(cached := Cached()) && Working() == old(Working()) && Committed() == old(Committed())
      ensures Cached().Keys <= old(Cached()).Keys + {n} && Found(View(), n) == r
      ensures forall p :: p in Cached() && p != n ==> p in old(Cached()) && Cached()[p] == old(Cached())[p]
      ensures AtHand(n, old(View()), cache.capacity) ==> forall p :: p != n ==> (p in Cached() <==> p in old(Cached()))
      ensures r.Ok? && cache.capacity > 0 ==> n in dirty || n in walPages || n in Cached()
    {
      hide Coherent, StateOk, WorkingOf, CommittedOf, Cache.Valid, Cache.Model, AtHand;
      ghost var s := View();
      ReadThrough(s, pageSize, n);
      CachedFromFile(s, pageSize);
      r := LookUp(n);
      CacheReplaced(s, pageSize, Cached());
    }

    // -------------------------------------------------------------------- editing

    /** Makes page `n` dirty with the content it has, forgetting any cached copy. */
    method GetPageMut(n: u32) returns (r: Result<Page, PageError>)
      requires cache.Valid()
      modifies this`dirty, cache
      ensures cache.Valid() && cache.Model().contents == old(cache.Model().contents) - {n}
      ensures r == (if n in old(dirty) then Ok(old(dirty)[n]) else if n in walPages then Ok(walPages[n]) else Source(db.pages, n))
      ensures dirty == if r.Ok? then old(dirty)[n := r.value] else old(dirty)
    {
      hide Tracked, Without;
      cache.Invalidate(n);
      if n in dirty {
        assert dirty == dirty[n := dirty[n]];
        return Ok(dirty[n]);
      }
      r := if n in walPages then Ok(walPages[n]) else Source(db.pages, n);
      if r.Ok? {
        dirty := dirty[n := r.value];
      }
    }

    method Overwrite(n: u32, content: Page)
      requires n in dirty
      modifies this`dirty
      ensures dirty == old(dirty)[n := content] && dirty != map[] && View() == old(View()).(dirty := dirty)
    {
      dirty := dirty[n := content];
      assert n in dirty;
    }

    /** Replaces a page's content: `get_page_mut` and a write through the buffer. */
    method EditPage(n: u32, content: Page) returns (r: Result<(), PageError>)
      requires Valid() && (n in Working() ==> EditAllowed(Working(), pageSize, n, content))
      modifies this`dirty, cache
      ensures Valid() && Committed() == old(Committed())
      ensures match Seen(old(Working()), n) case Ok(_) => r == Ok(()) case Err(e) => r == Err(e)
      ensures Working() == if r.Ok? then old(Working())[n := content] else old(Working())
      ensures if r.Ok? then dirty != map[] else dirty == old(dirty)
      ensures Cached() == old(Cached()) - {n}
    {
      hide Coherent, StateOk, WorkingOf, CommittedOf, Cache.Valid, Cache.Model, WithinCount;
      ghost var s := View();
      ReadThrough(s, pageSize, n);
      var page := GetPageMut(n);
      if page.Err? {
        CachedFromFile(s, pageSize);
        CacheReplaced(s, pageSize, View().cached);
        return Err(page.error);
      }
      Overwrite(n, content);
      assert dirty == s.dirty[n := content];
      EditOk(s, pageSize, n, content);
      if !lossy {
        InBounds(s, pageSize);
        Carried(s, View(), pageSize);
      }
      return Ok(());
    }

    // ------------------------------------------------------------------ allocating

    /** A zero page after the last one counted, and the new count in page 1. The new page
        goes straight into the dirty map: a cached copy of it stays, and the connection is
        then no longer sound; nor is it when the file ended before the count. */
    method ExtendFile(n: u32)
      requires Valid() && 1 in Working() && |Working()[1]| == pageSize >= 512
      requires CountIn(Working()[1]) < U32_MAX && n == CountIn(Working()[1]) + 1
      modifies this`dirty, cache
      ensures cache.Valid() && Committed() == old(Committed())
      ensures Working() == old(Working())[n := Zeros(pageSize)][1 := WithCount(old(Working())[1], n)] && dirty != map[]
      ensures dirty == old(dirty)[n := Zeros(pageSize)][1 := WithCount(old(Working())[1], n)] && Cached() == old(Cached()) - {1}
      ensures Valid() <==> n !in old(Cached()) && n - 1 in old(Working())
      ensures SoundButCache() <==> n - 1 in old(Working())
    {
      hide Coherent, StateOk, WorkingOf, CommittedOf, Cache.Valid, Cache.Model, CountIn, WithCount, Zeros, WithinCount;
      ghost var s := View();
      ghost var w := Working();
      ReadThrough(s, pageSize, 1);
      ExtendsPast(s, pageSize, n);
      AddPage(n, w[1]);
      ExtendOk(s, pageSize, n, WithCount(w[1], n));
      if !lossy && n !in s.cached && n - 1 in w {
        InBounds(s, pageSize);
        Carried(s, View(), pageSize);
      }
      ExtendUncached(s, View(), pageSize, n, lossy);
      assert 1 in dirty;
    }

    /** The new zero page, and page 1 with the new count. */
    method AddPage(n: u32, ghost content: Page)
      requires cache.Valid() && n != 1 && |content| >= 40
      requires (if 1 in dirty then Ok(dirty[1]) else if 1 in walPages then Ok(walPages[1]) else Source(db.pages, 1)) == Ok(content)
      modifies this`dirty, cache
      ensures cache.Valid()
      ensures View() == old(View()).(dirty := old(dirty)[n := Zeros(pageSize)][1 := WithCount(content, n)], cached := old(Cached()) - {1})
    {
      hide Tracked, CountIn, WithCount, Zeros, ModelOf;
      dirty := dirty[n := Zeros(pageSize)];
      var page1 := GetPageMut(1);
      Overwrite(1, WithCount(page1.value, n));
    }

    /** Sets the two freelist fields of page 1. */
    method SetFreelist(head: u32, count: u32)
      requires Valid() && 1 in Working() && |Working()[1]| == pageSize >= 512
      modifies this`dirty, cache
      ensures Valid() && Committed() == old(Committed())
      ensures Working() == old(Working())[1 := WithFree(old(Working())[1], head, count)] && dirty != map[]
      ensures Cached().Keys <= old(Cached()).Keys + {1}
    {
      hide Coherent, StateOk, WorkingOf, CommittedOf, Tracked, CountIn, WithFree;
      ghost var w := Working();
      ReadThrough(View(), pageSize, 1);
      var page1 := ReadPage(1);
      FreeFieldsAllowed(w, pageSize, head, count);
      var done := EditPage(1, WithFree(page1.value, head, count));
    }

    method WriteTrunk(n: u32, t: Freelist.Trunk)
      requires Valid() && n in Working() && n != 1 && Freelist.FitsIn(t, pageSize)
      modifies this`dirty, cache
      ensures Valid() && Committed() == old(Committed())
      ensures Working() == old(Working())[n := Freelist.TrunkBytes(t, pageSize)]
      ensures Cached() == old(Cached()) - {n}
    {
      hide Valid, Working, Committed, Freelist.TrunkBytes;
      var done := EditPage(n, Freelist.TrunkBytes(t, pageSize));
    }

    /** Exactly the allocator, on the database this connection sees. The connection stays
        sound if a free page is reused; if the file is extended, exactly when no copy of the
        new page is cached and the file has all the pages its header counts. */
    method AllocatePage() returns (r: Result<u32, PagerError>)
      requires Valid() && Allocatable(Working())
      modifies this`dirty, cache
      ensures cache.Valid() && Committed() == old(Committed())
      ensures !Extends(old(Working())) ==> Valid()
      ensures Extends(old(Working())) ==>
                (Valid() <==> CountIn(old(Working())[1]) + 1 !in Cached() && CountIn(old(Working())[1]) in old(Working()))
      ensures Extends(old(Working())) ==> (SoundButCache() <==> CountIn(old(Working())[1]) in old(Working()))
      ensures Extends(old(Working())) && AtHand(1, old(View()), cache.capacity) ==>
                var n := CountIn(old(Working())[1]) + 1; n in Cached() <==> n in old(Cached())
      ensures Extends(old(Working())) && CountIn(old(Working())[1]) + 1 !in old(Cached()) ==> CountIn(old(Working())[1]) + 1 !in Cached()
      ensures Extends(old(Working())) ==> forall p :: p in Cached() ==> p in old(Cached()) && Cached()[p] == old(Cached())[p]
      ensures 1 in old(Working()) && |old(Working())[1]| >= 40
      ensures Cached().Keys <= old(Cached()).Keys + {1, HeadIn(old(Working())[1])}
      ensures match Allocate(old(Working()), pageSize)
              case Ok(got) => r == Ok(got.0) && Working() == got.1
              case Err(e) => r == Err(FromStore(e)) && Working() == old(Working())
      ensures if r.Ok? then dirty != map[] else dirty == old(dirty)
    {
      hide Coherent, StateOk, WorkingOf, CommittedOf, Tracked, U32At, Put, Zeros, Cache.Model, AtHand;
      ghost var w := Working();
      HasPage1(View(), pageSize);
      var page1 := ReadPage(1);
      var head := HeadIn(page1.value);
      if head == 0 {
        var n := SaturatingNext(CountIn(page1.value));
        ExtendsPast(View(), pageSize, n);
        ExtendFile(n);
        return Ok(n);
      }
      r := ReusePage(head, page1.value);
    }

    /** Takes the last leaf of the first trunk, or the trunk page itself. */
    method ReusePage(head: u32, page1: Page) returns (r: Result<u32, PagerError>)
      requires Valid() && 1 in Working() && |Working()[1]| == pageSize >= 512 && page1 == Working()[1] && head == HeadIn(page1) && head > 1
      modifies this`dirty, cache
      ensures Valid() && Committed() == old(Committed())
      ensures Cached().Keys <= old(Cached()).Keys + {1, head}
      ensures match Allocate(old(Working()), pageSize)
              case Ok(got) => r == Ok(got.0) && Working() == got.1
              case Err(e) => r == Err(FromStore(e)) && Working() == old(Working())
      ensures if r.Ok? then dirty != map[] else dirty == old(dirty)
    {
      hide Valid, Working, Committed, View, Cached, U32At, WithFree, Freelist.ParseTrunk, Freelist.TrunkBytes;
      AllSizedNow();
      var found := ReadTrunk(head);
      if found.Err? {
        return Err(found.error);
      }
      var t := found.value;
      var count := if FreeCountIn(page1) == 0 then 0 else FreeCountIn(page1) - 1;
      if t.leaves == [] {
        SetFreelist(t.next, count);
        return Ok(head);
      }
      var n := |t.leaves| - 1;
      ShorterFits(Working()[head]);
      SetTrunk(head, Freelist.Trunk(t.next, t.leaves[..n]), head, count);
      return Ok(t.leaves[n]);
    }

    lemma AllSizedNow()
      requires Valid()
      ensures ValidPageSize(pageSize) && forall p :: p in Working() ==> |Working()[p]| == pageSize
    {
      hide Coherent, StateOk, WorkingOf, CommittedOf, Tracked;
      LegalSize(View(), pageSize);
      AllSized(View(), pageSize);
    }

    /** Reads page `head` as a freelist trunk. */
    method ReadTrunk(head: u32) returns (r: Result<Freelist.Trunk, PagerError>)
      requires Valid()
      modifies cache
      ensures Valid() && Working() == old(Working()) && Committed() == old(Committed()) && dirty == old(dirty)
      ensures Cached().Keys <= old(Cached()).Keys + {head}
      ensures r == TrunkIn(Working(), head)
    {
      hide Valid, Working, Committed, View, Cached, Freelist.ParseTrunk;
      var page := ReadPage(head);
      if page.Err? {
        return Err(Unreadable(page.error));
      }
      var parsed := Freelist.ParseTrunk(page.value);
      if parsed.Err? {
        return Err(BadFreelist(parsed.error));
      }
      return Ok(parsed.value);
    }

    /** Writes a trunk page and the two freelist fields. */
    method SetTrunk(at: u32, t: Freelist.Trunk, head: u32, count: u32)
      requires Valid() && at in Working() && at != 1 && Freelist.FitsIn(t, pageSize) && 1 in Working() && |Working()[1]| == pageSize >= 512
      modifies this`dirty, cache
      ensures Valid() && Committed() == old(Committed()) && dirty != map[]
      ensures Working() == old(Working())[at := Freelist.TrunkBytes(t, pageSize)][1 := WithFree(old(Working())[1], head, count)]
      ensures Cached().Keys <= old(Cached()).Keys + {1}
    {
      hide Valid, Working, Committed, View, Cached, Freelist.TrunkBytes, WithFree;
      WriteTrunk(at, t);
      SetFreelist(head, count);
    }

    /** Exactly the deallocator, on the database this connection sees. */
    method DeallocatePage(p: u32) returns (r: Result<(), PagerError>)
      requires Valid() && p != 1 && HeadIn(Working()[1]) != 1
      modifies this`dirty, cache
      ensures 1 in old(Working()) && |old(Working())[1]| >= 40
      ensures Cached().Keys <= old(Cached()).Keys + {1, HeadIn(old(Working())[1]), p}
      ensures Valid() && Committed() == old(Committed())
      ensures match Deallocate(old(Working()), pageSize, p)
              case Ok(w) => r == Ok(()) && Working() == w
              case Err(e) => r == Err(FromStore(e)) && Working() == old(Working())
      ensures if r.Ok? then dirty != map[] else dirty == old(dirty)
    {
      hide Valid, Working, Committed, View, Cached, U32At, WithFree, Freelist.ParseTrunk, Freelist.TrunkBytes;
      Page1Now();
      AllSizedNow();
      var page1 := ReadPage(1);
      var head := HeadIn(page1.value);
      var count := SaturatingNext(FreeCountIn(page1.value));
      if head != 0 {
        var found := ReadTrunk(head);
        if found.Err? {
          return Err(found.error);
        }
        var t := found.value;
        if |t.leaves| < Freelist.MaxLeaves(pageSize) {
          SetTrunk(head, Freelist.Trunk(t.next, t.leaves + [p]), head, count);
          return Ok(());
        }
      }
      var mine := ReadPage(p);
      if mine.Err? {
        return Err(Unreadable(mine.error));
      }
      SetTrunk(p, Freelist.Trunk(head, []), p, count);
      return Ok(());
    }

    lemma ValidButCache()
      requires Valid()
      ensures SoundButCache()
    {
      hide Coherent, StateOk, WorkingOf, CommittedOf, Tracked;
      CacheReplaced(View(), pageSize, map[]);
    }

    lemma Page1Now()
      requires Valid()
      ensures 1 in Working() && |Working()[1]| == pageSize >= 512
    {
      hide Coherent, StateOk, WorkingOf, CommittedOf, Tracked;
      HasPage1(View(), pageSize);
    }

    // ------------------------------------------------------------------ committing

    /** `BEGIN IMMEDIATE` and `BEGIN EXCLUSIVE`: the lock is taken ahead of any write. */
    method Begin()
      requires Valid()
      modifies this`locked
      ensures Valid() && locked && Working() == old(Working()) && Committed() == old(Committed()) && Cached() == old(Cached())
    {
      locked := true;
    }

    /** Journals the pre-images of the dirty pages the header counts, and syncs the journal
        unless syncing is off. `tr` is the commit's progress, step by step. */
    method JournalPreImages(ks: seq<u32>, count: u32, nonce: u32, ghost c: CrashRecovery.Commit)
      returns (journaled: bool, ghost journal: seq<byte>, ghost tr: seq<CommitSteps.Progress>)
      requires CrashRecovery.ValidCommit(c) && c.before == db.pages && c.pageSize == pageSize && c.ks == ks && c.count == count && c.nonce == nonce
      ensures journaled == (c.rs != []) && (journaled ==> journal == CrashRecovery.FullJournal(c))
      ensures CommitSteps.IsTrace(c, synchronous, tr)
      ensures tr[|tr| - 1] == CommitSteps.Journaled(c, synchronous)
    {
      hide Journal.JournalWrites, ApplyWrites, CommitSteps.IsTrace, Ascending, Sized;
      var rs: seq<Journal.PreImage> := [];
      for i := 0 to |ks|
        invariant rs == c.rs[..Min(i, |c.rs|)]
      {
        if ks[i] <= count {
          rs := rs + [(ks[i], db.pages[ks[i] - 1])];
        }
      }
      assert rs == c.rs;
      journal, tr := [], [CommitSteps.START];
      CommitSteps.OnlyStart(c, synchronous);
      journaled := rs != [];
      if journaled {
        journal, tr := WriteJournal(Journal.JournalHeader(|rs|, nonce, count, pageSize, pageSize), rs, c);
      }
    }

    /** The journal file: header, then record by record, then the sync. */
    method WriteJournal(h: Journal.JournalHeader, rs: seq<Journal.PreImage>, ghost c: CrashRecovery.Commit)
      returns (ghost journal: seq<byte>, ghost tr: seq<CommitSteps.Progress>)
      requires |c.rs| <= U32_MAX && rs == c.rs != [] && h == CrashRecovery.Header(c) && h.sectorSize >= Journal.JOURNAL_HEADER_LEN
      ensures journal == CrashRecovery.FullJournal(c)
      ensures CommitSteps.IsTrace(c, synchronous, tr)
      ensures tr[|tr| - 1] == CommitSteps.Journaled(c, synchronous)
    {
      hide Journal.JournalWrites, ApplyWrites, CommitSteps.IsTrace, Journal.SerializeHeader, Journal.RecordBytes;
      ghost var s := CommitSteps.START;
      tr := [s];
      CommitSteps.OnlyStart(c, synchronous);
      var file := new File([]);
      s := s.(created := true);
      tr := CommitSteps.Extended(c, synchronous, tr, s);
      var made := Journal.WriteHeader(file, h, rs);
      s := s.(journal := 1);
      tr := CommitSteps.Extended(c, synchronous, tr, s);
      for i := 0 to |rs|
        invariant file.bytes == ApplyWrites([], Journal.JournalWrites(h, rs)[..i + 1])
        invariant tr != [] && CommitSteps.IsTrace(c, synchronous, tr)
        invariant tr[|tr| - 1] == s == CommitSteps.START.(created := true, journal := i + 1)
      {
        Journal.WriteRecord(file, h, rs, i, []);
        s := s.(journal := i + 2);
        tr := CommitSteps.Extended(c, synchronous, tr, s);
      }
      assert Journal.JournalWrites(h, rs)[..|rs| + 1] == Journal.JournalWrites(h, rs);
      if synchronous != Off {
        s := s.(journalSynced := true);
        tr := CommitSteps.Extended(c, synchronous, tr, s);
      }
      journal := file.bytes;
    }

    /** Writes the dirty pages into the main file, and syncs it at full synchronization. */
    method WriteDirty(ks: seq<u32>, ghost c: CrashRecovery.Commit, ghost before: seq<CommitSteps.Progress>)
      returns (ghost tr: seq<CommitSteps.Progress>)
      requires Writable(ks, dirty) && c.ks == ks
      requires CommitSteps.IsTrace(c, synchronous, before) && before[|before| - 1] == CommitSteps.Journaled(c, synchronous)
      modifies db
      ensures db.pages == WriteAll(old(db.pages), ks, dirty)
      ensures CommitSteps.IsTrace(c, synchronous, tr)
      ensures tr[|tr| - 1] == CommitSteps.Journaled(c, synchronous).(pages := |ks|, mainSynced := synchronous == Full)
    {
      hide WriteAll, WritePage, CommitSteps.IsTrace;
      ghost var was := db.pages;
      CommitSteps.NotEmpty(c, synchronous, before);
      ghost var s := CommitSteps.Journaled(c, synchronous);
      tr := before;
      for i := 0 to |ks|
        invariant Writable(ks[..i], dirty) && db.pages == WriteAll(was, ks[..i], dirty)
        invariant tr != [] && CommitSteps.IsTrace(c, synchronous, tr)
        invariant tr[|tr| - 1] == s == CommitSteps.Journaled(c, synchronous).(pages := i)
      {
        WriteAllSnoc(was, ks[..i], ks[i], dirty);
        assert ks[..i + 1] == ks[..i] + [ks[i]];
        db.pages := WritePage(db.pages, ks[i], dirty[ks[i]]);
        s := s.(pages := i + 1);
        tr := CommitSteps.Extended(c, synchronous, tr, s);
      }
      assert ks[..|ks|] == ks;
      if synchronous == Full {
        s := s.(mainSynced := true);
        tr := CommitSteps.Extended(c, synchronous, tr, s);
      }
    }

    /** The writes of a commit: journal, pages, and the journal's removal. */
    method WriteOut(ks: seq<u32>, count: u32, nonce: u32, ghost c: CrashRecovery.Commit) returns (ghost tr: seq<CommitSteps.Progress>)
      requires CrashRecovery.ValidCommit(c) && c.before == db.pages && c.pageSize == pageSize && c.ks == ks && c.count == count && c.nonce == nonce
      requires c.dirty == dirty
      modifies db
      ensures db.pages == CrashRecovery.After(c)
      ensures CommitSteps.IsTrace(c, synchronous, tr) && CommitSteps.Finished(c, synchronous, tr[|tr| - 1])
    {
      hide WriteAll, WritePage, CrashRecovery.FullJournal, CommitSteps.IsTrace, Ascending, Sized;
      var journaled;
      ghost var journal;
      journaled, journal, tr := JournalPreImages(ks, count, nonce, c);
      tr := WriteDirty(ks, c, tr);
      CommitSteps.NotEmpty(c, synchronous, tr);
      if journaled {
        tr := CommitSteps.Extended(c, synchronous, tr, tr[|tr| - 1].(deleted := true));
      }
    }

    /** The rollback-journal commit: pre-images first, then the pages in ascending order,
        then the journal goes. `c` is the commit as crash recovery sees it, and `tr` the
        steps it took. */
    method FlushLocked(nonce: u32) returns (ghost c: CrashRecovery.Commit, ghost tr: seq<CommitSteps.Progress>)
      requires SoundButCache() && !lossy && journalMode == Legacy
      modifies this`dirty, db
      ensures SoundButCache() && Working() == Committed() == old(Working()) && dirty == map[]
      ensures old(Valid()) ==> Valid()
      ensures View() == old(View()).(db := db.pages, dirty := map[]) && Cached() == old(Cached())
      ensures CommitOf(c, old(db.pages), db.pages, nonce, old(dirty) != map[])
      ensures CommitSteps.IsTrace(c, synchronous, tr) && CommitSteps.Finished(c, synchronous, tr[|tr| - 1])
    {
      hide StateOk, Coherent, WorkingOf, CommittedOf, Cache.Valid, Cache.Model, WriteAll, CrashRecovery.ValidCommit,
           CommitSteps.IsTrace, CommitSteps.Finished;
      ghost var s, s0 := View(), View().(cached := map[]);
      var ks := DirtyInOrder();
      FlushReady(s0, pageSize, ks, nonce);
      var count := CountIn(db.pages[0]);
      c := CrashRecovery.FlushCommit(db.pages, pageSize, count, ks, dirty, nonce);
      tr := WriteOut(ks, count, nonce, c);
      dirty := map[];
      FlushLegacyOk(s0, pageSize, ks);
      StateIsCoherent(View().(cached := map[]), pageSize);
      SameViews(s, s0);
      SameViews(View(), View().(cached := map[]));
      if old(Valid()) {
        FlushLegacyOk(s, pageSize, ks);
        StateIsCoherent(View(), pageSize);
      }
    }

    /** The WAL commit: every dirty page becomes a frame, the last one carrying the page
        count. Only full synchronization writes the frames out. */
    method FlushWalLocked() returns (mxFrame: nat)
      requires Valid() && !lossy && journalMode == WalMode && dirty != map[]
      modifies this, cache, wal
      ensures Valid() && Working() == Committed() == old(Working()) && dirty == map[]
      ensures journalMode == old(journalMode) && wal == old(wal) && db.pages == old(db.pages) && locked == old(locked)
      ensures synchronous == old(synchronous) && lossy == (synchronous != Full)
      ensures lossy ==> wal != null && FreshOf(db.pages, Some(wal.bytes), pageSize) == old(Committed())
      ensures !lossy ==> mxFrame == |frames| && old(frames) < frames
      ensures Cached().Keys <= old(Cached()).Keys + {1}
    {
      hide StateOk, Coherent, WorkingOf, CommittedOf, Tracked, ModelOf, FreshOf, U32At, IsKeyOrder, Logged, LogTakes, LogHolds;
      var ks := DirtyInOrder();
      var page1 := ReadPage(1);
      ghost var s := View();
      HasPage1(s, pageSize);
      LogReady(s, pageSize, ks);
      var count := CountIn(page1.value);
      var full := synchronous == Full;
      var hint;
      hint, mxFrame := AppendDirty(ks, count, full);
      Adopt(hint, full, Logged(s, ks, count));
      WalCommitOk(s, View(), pageSize, ks, full);
    }

    /** The committed pages join the overlay. */
    method Adopt(hint: ResumeHint, full: bool, ghost fs: seq<Frame>)
      modifies this`walResume, this`walPages, this`dirty, this`frames, this`lossy
      ensures View() == old(View()).(hint := Some(hint), walPages := old(walPages) + old(dirty), dirty := map[], frames := frames)
      ensures frames == (if full then fs else old(frames)) && lossy == (old(lossy) || !full)
    {
      walResume, walPages, dirty := Some(hint), walPages + dirty, map[];
      if full {
        frames := fs;
      } else {
        lossy := true;
      }
    }

    method DirtyInOrder() returns (ks: seq<u32>)
      ensures IsKeyOrder(ks, dirty) && |ks| == |dirty.Keys|
    {
      ks := SortedKeys(dirty.Keys);
    }

    /** Appends the dirty pages to the log file, and changes nothing else. */
    method AppendDirty(ks: seq<u32>, count: u32, full: bool) returns (hint: ResumeHint, mxFrame: nat)
      requires wal != null && LogTakes(View(), pageSize, ks, count)
      modifies wal
      ensures View() == old(View()).(wal := Some(wal.bytes)) && mxFrame == |Logged(old(View()), ks, count)|
      ensures if full then LogHolds(wal.bytes, hint, header, Logged(old(View()), ks, count)) else wal.bytes == old(wal.bytes)
    {
      hide HoldsFrames, Truthful, Span, FramesOf, Cache.Model;
      hint, mxFrame := Commit(wal, pageSize, walResume, TxnOf(ks, dirty, count), full, header, frames);
    }

    /** Ends the transaction, making its pages the committed database. A rollback-journal
        commit is atomic under a crash at any of its steps exactly as `CommitSteps` says. */
    method Flush(nonce: u32) returns (ghost c: Option<CrashRecovery.Commit>, ghost tr: seq<CommitSteps.Progress>)
      requires Valid() && !lossy
      modifies this, cache, wal, db
      ensures Valid() && Working() == Committed() == old(Working()) && dirty == map[] && !locked
      ensures journalMode == old(journalMode) && wal == old(wal) && synchronous == old(synchronous)
      ensures lossy == (journalMode == WalMode && synchronous != Full && old(dirty) != map[])
      ensures lossy ==> wal != null && FreshOf(db.pages, Some(wal.bytes), pageSize) == old(Committed())
      ensures Cached().Keys <= old(Cached()).Keys + {1}
      ensures c.Some? <==> journalMode == Legacy && old(dirty) != map[]
      ensures c.Some? ==> CommitOf(c.value, old(db.pages), db.pages, nonce, true)
      ensures c.Some? ==> CommitSteps.IsTrace(c.value, synchronous, tr) && CommitSteps.Finished(c.value, synchronous, tr[|tr| - 1])
      ensures c.Some? && nonce != 0 ==>
                (CommitSteps.AllOrNothing(c.value, synchronous) <==> CommitSteps.AtomicAt(c.value, synchronous))
    {
      hide StateOk, Coherent, WorkingOf, CommittedOf, Cache.Valid, Cache.Model, FreshOf, CrashRecovery.ValidCommit, CommitSteps.AllOrNothing,
           CommitSteps.IsTrace, CrashRecovery.After, CommitSteps.AtomicAt;
      c, tr := None, [];
      if dirty == map[] {
        NothingDirty(View());
        locked := false;
        return;
      }
      if journalMode == WalMode {
        var mx := FlushWalLocked();
      } else {
        ghost var done;
        ValidButCache();
        done, tr := FlushLocked(nonce);
        c := Some(done);
        ghost var level := synchronous;
        if nonce != 0 { CommitSteps.AtomicIff(done, level); }
      }
      locked := false;
    }

    /** Forgets the transaction. */
    method Rollback()
      requires Valid()
      modifies this`dirty, this`locked
      ensures Valid() && Working() == Committed() == old(Committed()) && dirty == map[] && !locked && Cached() == old(Cached())
    {
      hide StateOk, Coherent, WorkingOf, CommittedOf, Cache.Valid, Cache.Model;
      ghost var s := View();
      dirty, locked := map[], false;
      ForgottenOk(s, pageSize);
      if !lossy { RollbackOk(s, pageSize); }
    }

    // ------------------------------------------------------- switching journal modes

    /** One checkpoint pass past the given readers. */
    method OnePass(marks: seq<nat>) returns (complete: bool)
      requires Valid() && !lossy && journalMode == WalMode && AtCommits(marks, frames)
      modifies this`backfill, db
      ensures Valid() && Working() == old(Working()) && Committed() == old(Committed())
      ensures complete ==> Contents(db.pages) == Committed()
      ensures !complete ==> HeldBack(marks)
    {
      hide StateOk, Coherent, WorkingOf, CommittedOf, Cache.Valid, CleanLog, Passed, Boundary;
      ghost var s := View();
      LogShape(s, pageSize);
      var r, published := CheckpointPassive(Some(wal.bytes), db, marks, backfill, pageSize, header, frames);
      ghost var safe :| IsSafe(marks, |frames|, safe) && Passed(s.db, frames, safe, s.backfill, db.pages, published, r.value);
      backfill := published;
      PassOk(s, pageSize, marks, safe, db.pages, published, r.value);
      return r.value.complete;
    }

    /** Passes until one is complete, `marks[i]` being the readers pass `i` finds. */
    method CheckpointAll(marks: seq<seq<nat>>) returns (complete: bool)
      requires Valid() && !lossy && journalMode == WalMode
      requires |marks| == MAX_PASSES && forall i :: 0 <= i < |marks| ==> AtCommits(marks[i], frames)
      modifies this`backfill, db
      ensures Valid() && Working() == old(Working()) && Committed() == old(Committed())
      ensures complete ==> Contents(db.pages) == Committed()
      ensures !complete ==> forall i :: 0 <= i < |marks| ==> HeldBack(marks[i])
    {
      hide Valid, View, Working, Committed, Contents, AtCommits, HeldBack;
      complete := false;
      for i := 0 to MAX_PASSES
        invariant Valid() && Working() == old(Working()) && Committed() == old(Committed()) && !complete
        invariant forall k :: 0 <= k < i ==> HeldBack(marks[k])
      {
        complete := OnePass(marks[i]);
        if complete {
          return;
        }
      }
    }

    /** Starts an empty log next to the database and marks page 1. */
    method SwitchToWal(salt1: u32, salt2: u32)
      requires Valid() && !lossy && journalMode == Legacy && dirty == map[]
      modifies this, cache, db
      ensures Valid() && !lossy && journalMode == WalMode && dirty == map[] && locked == old(locked) && synchronous == old(synchronous)
      ensures 1 in old(Committed()) && |old(Committed())[1]| >= 40
      ensures Working() == Committed() == old(Committed())[1 := Patched(old(Committed())[1], WalMode)]
      ensures wal != null && fresh(wal) && Cached() == old(Cached()) - {1}
    {
      hide StateOk, Coherent, WorkingOf, CommittedOf, Tracked, ModelOf, NewHeader, Serialize, Patched;
      ghost var s := View();
      HasPage1(s, pageSize);
      LegalSize(s, pageSize);
      var file, h := NewLog(salt1, salt2);
      InstallLog(file, h);
      PatchPage1(WalMode);
      ToWalOk(s, pageSize, h);
      StateIsCoherent(View(), pageSize);
    }

    method NewLog(salt1: u32, salt2: u32) returns (file: File, h: WalHeader)
      requires ValidPageSize(pageSize)
      ensures fresh(file) && ValidHeader(h) && h.pageSize == pageSize && file.bytes == Serialize(h)
    {
      hide Serialize, ValidHeader, SumFrom;
      h := NewHeader(true, pageSize, salt1, salt2, 1);
      NewHeaderIsValid(true, pageSize, salt1, salt2, 1);
      file := new File([]);
      var writer := Writer.Create(file, h);
      WriteWhole(Serialize(h));
    }

    method InstallLog(file: File, h: WalHeader)
      modifies this`wal, this`walResume, this`backfill, this`header, this`frames, this`base
      ensures wal == file && View() == old(View()).(wal := Some(file.bytes), hint := None, backfill := 0, header := h, frames := [], base := |db.pages|)
    {
      wal, walResume, backfill := file, None, 0;
      header, frames, base := h, [], |db.pages|;
    }

    method RemoveLog()
      modifies this`wal, this`walResume, this`walPages
      ensures View() == old(View()).(wal := None, hint := None, walPages := map[])
    {
      wal, walResume, walPages := null, None, map[];
    }

    /** Rewrites the version bytes of page 1 in the main file. */
    method PatchPage1(m: Mode)
      requires cache.Valid() && db.pages != [] && |db.pages[0]| >= 40
      modifies this`journalMode, cache, db
      ensures cache.Valid()
      ensures View() == old(View()).(mode := m, db := old(db.pages)[0 := Patched(old(db.pages)[0], m)],
                                     cached := old(cache.Model().contents) - {1})
    {
      hide Tracked, Without;
      journalMode := m;
      var page1 := db.pages[0];
      db.pages := WritePage(db.pages, 1, Patched(page1, m));
      assert db.pages == old(db.pages)[0 := Patched(old(db.pages)[0], m)];
      cache.Invalidate(1);
    }

    /** Removes the log once everything in it is in the main file, and unmarks page 1. */
    method SwitchToLegacy(marks: seq<seq<nat>>) returns (ok: bool)
      requires Valid() && !lossy && journalMode == WalMode && dirty == map[]
      requires |marks| == MAX_PASSES && forall i :: 0 <= i < |marks| ==> AtCommits(marks[i], frames)
      modifies this, cache, db
      ensures Valid() && !lossy && dirty == map[] && locked == old(locked) && synchronous == old(synchronous)
      ensures 1 in old(Committed()) && |old(Committed())[1]| >= 40
      ensures ok ==> journalMode == Legacy && wal == null
                     && Working() == Committed() == old(Committed())[1 := Patched(old(Committed())[1], Legacy)]
      ensures !ok ==> journalMode == WalMode && wal == old(wal) && Working() == old(Working()) && Committed() == old(Committed())
      ensures !ok ==> forall i :: 0 <= i < |marks| ==> HeldBack(marks[i])
      ensures Cached().Keys <= old(Cached()).Keys
    {
      hide StateOk, Coherent, WorkingOf, CommittedOf, Tracked, ModelOf, Patched, AtCommits, HeldBack, Contents;
      HasPage1(View(), pageSize);
      NothingDirty(View());
      var complete := CheckpointAll(marks);
      if !complete {
        return false;
      }
      ghost var s := View();
      HasPage1(s, pageSize);
      RemoveLog();
      PatchPage1(Legacy);
      ToLegacyOk(s, pageSize);
      StateIsCoherent(View(), pageSize);
      return true;
    }

    /** `PRAGMA journal_mode`. */
    method SetJournalMode(m: Mode, salt1: u32, salt2: u32, marks: seq<seq<nat>>) returns (r: Result<(), PagerError>)
      requires Valid() && !lossy
      requires |marks| == MAX_PASSES && forall i :: 0 <= i < |marks| ==> AtCommits(marks[i], frames)
      modifies this, cache, db
      ensures Valid() && !lossy && locked == old(locked) && synchronous == old(synchronous)
      ensures old(dirty) != map[] || old(locked) ==> r == Err(PendingTransaction)
      ensures r.Ok? ==> r == Ok(())
      ensures r.Err? ==> r == Err(PendingTransaction) || (m == Legacy && r == Err(CheckpointIncomplete))
      ensures r == Err(PendingTransaction) ==> old(dirty) != map[] || old(locked)
      ensures r == Err(CheckpointIncomplete) ==> forall i :: 0 <= i < |marks| ==> HeldBack(marks[i])
      ensures r.Err? || m == old(journalMode) ==> journalMode == old(journalMode) && dirty == old(dirty) && wal == old(wal)
      ensures r.Err? || m == old(journalMode) ==> Working() == old(Working()) && Committed() == old(Committed())
      ensures r.Ok? && m != old(journalMode) ==>
                && journalMode == m && dirty == map[] && 1 in old(Committed()) && |old(Committed())[1]| >= 40
                && Working() == Committed() == old(Committed())[1 := Patched(old(Committed())[1], m)]
      ensures r.Ok? && m != old(journalMode) ==> if m == WalMode then wal != null && fresh(wal) else wal == null
      ensures Cached().Keys <= old(Cached()).Keys
    {
      hide View, Valid, Working, Committed, Patched, AtCommits, HeldBack, Cached;
      if dirty != map[] || locked {
        return Err(PendingTransaction);
      }
      if journalMode == m {
        return Ok(());
      }
      if m == WalMode {
        SwitchToWal(salt1, salt2);
        return Ok(());
      }
      var ok := SwitchToLegacy(marks);
      return if ok then Ok(()) else Err(CheckpointIncomplete);
    }
  }

  /** Reader marks fall on transaction ends, or past the frames this log holds. */
  ghost predicate AtCommits(marks: seq<nat>, fs: seq<Frame>) { forall m :: m in marks && m <= |fs| ==> Boundary(fs, m) }

  /** Some reader stands in the way of a checkpoint. */
  ghost predicate HeldBack(marks: seq<nat>) { exists m :: m in marks && m > 0 }

  lemma PassOk(s: Snap, pageSize: u32, marks: seq<nat>, safe: nat, db': seq<Page>, published: nat, r: CheckpointResult)
    requires StateOk(s, pageSize) && s.mode == WalMode && AtCommits(marks, s.frames) && IsSafe(marks, |s.frames|, safe)
    requires Passed(s.db, s.frames, safe, s.backfill, db', published, r)
    ensures var s' := s.(db := db', backfill := published);
            StateOk(s', pageSize) && Coherent(s', pageSize) && CommittedOf(s') == CommittedOf(s) && WorkingOf(s') == WorkingOf(s)
            && (r.complete ==> Contents(db') == CommittedOf(s)) && (!r.complete ==> HeldBack(marks))
  {
    hide Coherent, WorkingOf, CommittedOf, CleanLog, Durable, Versioned, Dense, Overlay, Contents;
    BoundaryAtEnd(s.frames, s.base);
    CheckpointOk(s, pageSize, safe, db', published, r);
    if !r.complete { assert safe in marks && safe > 0; }
  }

  lemma LogShape(s: Snap, pageSize: u32)
    requires StateOk(s, pageSize) && s.mode == WalMode
    ensures s.wal.Some? && CleanLog(s.wal.value, s.header, s.frames) && s.header.pageSize == pageSize
  {
    hide Coherent, CleanLog, Durable, GoodLog, Versioned;
  }

  lemma LegalSize(s: Snap, pageSize: u32)
    requires Coherent(s, pageSize)
    ensures ValidPageSize(pageSize)
  {
    hide WholeDb, HasVersion, Sized, CacheOk;
  }

  lemma WriteWhole(data: seq<byte>)
    ensures WriteAt([], 0, data) == data
  {
  }

  lemma NothingDirty(s: Snap)
    requires s.dirty == map[]
    ensures WorkingOf(s) == CommittedOf(s)
  {
    assert CommittedOf(s) + map[] == CommittedOf(s);
  }

  /** What a WAL commit leaves behind, written out or not. */
  lemma WalCommitOk(s: Snap, s': Snap, pageSize: u32, ks: seq<u32>, full: bool)
    requires StateOk(s, pageSize) && s.mode == WalMode && s.dirty != map[] && IsKeyOrder(ks, s.dirty)
    requires 1 in WorkingOf(s) && |WorkingOf(s)[1]| >= 40 && s'.wal.Some? && s'.hint.Some?
    requires s' == s.(wal := s'.wal, hint := s'.hint, walPages := s.walPages + s.dirty, dirty := map[], frames := s'.frames)
    requires !full ==> s'.wal == s.wal && s'.frames == s.frames
    requires full ==> s'.frames == Logged(s, ks, CountIn(WorkingOf(s)[1]))
    requires full ==> LogHolds(s'.wal.value, s'.hint.value, s.header, s'.frames)
    ensures Coherent(s', pageSize) && WorkingOf(s') == CommittedOf(s') == WorkingOf(s)
    ensures full ==> StateOk(s', pageSize)
    ensures !full ==> FreshOf(s'.db, s'.wal, pageSize) == CommittedOf(s)
  {
    hide StateOk, Coherent, WorkingOf, CommittedOf, FreshOf, CleanLog, Truthful, FramesOf, TxnOf, IsKeyOrder;
    if full {
      FlushWalOk(s, pageSize, ks, s'.wal.value, s'.hint.value);
      StateIsCoherent(s', pageSize);
    } else {
      UnsyncedCommit(s, pageSize);
      HintIgnored(s.(walPages := s.walPages + s.dirty, dirty := map[]), s', pageSize);
    }
  }

  /** What a WAL flush relies on. */
  lemma LogReady(s: Snap, pageSize: u32, ks: seq<u32>)
    requires StateOk(s, pageSize) && s.mode == WalMode && s.dirty != map[] && IsKeyOrder(ks, s.dirty)
    ensures 1 in WorkingOf(s) && |WorkingOf(s)[1]| >= 40 && s.wal.Some?
    ensures LogTakes(s, pageSize, ks, CountIn(WorkingOf(s)[1]))
    ensures s.frames < Logged(s, ks, CountIn(WorkingOf(s)[1]))
  {
    hide U32At, CacheOk, HasVersion, GoodLog, Truthful, CleanLog, WholeDb, Sized, Versioned, Span;
    HasPage1(s, pageSize);
    TxnAdmissible(s, pageSize, ks);
    var t := TxnOf(ks, s.dirty, CountIn(WorkingOf(s)[1]));
    assert FramesOf(t) != [];
  }

  /** `c` turned the file `before` into `after`. */
  ghost predicate CommitOf(c: CrashRecovery.Commit, before: seq<Page>, after: seq<Page>, nonce: u32, changes: bool)
  {
    && CrashRecovery.ValidCommit(c) && c.before == before && c.nonce == nonce && CrashRecovery.After(c) == after
    && before != [] && |before[0]| >= 40 && c.count == CountIn(before[0]) && (c.count == |before| && changes ==> c.rs != [])
  }

  /** Nobody sees the cache. */
  lemma SameViews(s: Snap, s': Snap)
    requires s' == s.(cached := s'.cached)
    ensures WorkingOf(s') == WorkingOf(s) && CommittedOf(s') == CommittedOf(s)
  {
  }

  /** Extending, the cache aside, fails only over a file that lacks counted pages. */
  lemma ExtendUncached(s: Snap, s': Snap, pageSize: u32, n: u32, lossy: bool)
    requires Coherent(s, pageSize) && (!lossy ==> StateOk(s, pageSize)) && 1 in WorkingOf(s) && |WorkingOf(s)[1]| >= 40
    requires CountIn(WorkingOf(s)[1]) < U32_MAX && n == CountIn(WorkingOf(s)[1]) + 1
    requires s'.(cached := map[]) == s.(dirty := s.dirty[n := Zeros(pageSize)][1 := WithCount(WorkingOf(s)[1], n)], cached := map[])
    ensures var u := s'.(cached := map[]);
            (Coherent(u, pageSize) <==> n - 1 in WorkingOf(s)) && (n - 1 in WorkingOf(s) && !lossy ==> StateOk(u, pageSize))
  {
    hide Coherent, StateOk, WorkingOf, CommittedOf, WithCount, CountIn, WithinCount, Zeros;
    var t, u := s.(cached := map[]), s'.(cached := map[]);
    CacheReplaced(s, pageSize, map[]);
    ExtendOk(t, pageSize, n, WithCount(WorkingOf(t)[1], n));
    assert t.cached - {1} == map[];
    if n - 1 in WorkingOf(s) && !lossy {
      InBounds(t, pageSize);
      Carried(t, u, pageSize);
    }
  }

  /** What a rollback-journal flush relies on. */
  lemma FlushReady(s: Snap, pageSize: u32, ks: seq<u32>, nonce: u32)
    requires StateOk(s, pageSize) && s.mode == Legacy && IsKeyOrder(ks, s.dirty) && |ks| == |s.dirty.Keys|
    ensures Writable(ks, s.dirty) && |ks| <= U32_MAX && pageSize >= 512
    ensures s.db != [] && |s.db[0]| >= 40
    ensures forall i :: 0 <= i < CrashRecovery.Existing(ks, CountIn(s.db[0])) ==> ks[i] <= |s.db|
    ensures var c := CrashRecovery.FlushCommit(s.db, pageSize, CountIn(s.db[0]), ks, s.dirty, nonce);
            CrashRecovery.ValidCommit(c) && (c.count == |s.db| && s.dirty != map[] ==> c.rs != [])
  {
    hide U32At, Coherent, LogOk, CrashRecovery.ValidCommit, Durable, Sized, CrashRecovery.Existing;
    DirtyIsWritable(s, pageSize, ks);
    HasPage1(s, pageSize);
    DirtyCount(s, pageSize);
    DirtySized(s, pageSize);
    forall i | 0 <= i < CrashRecovery.Existing(ks, CountIn(s.db[0])) ensures ks[i] <= |s.db| {
      assert ks[i] in ks;
      Counted(s, pageSize, ks[i]);
    }
    CrashRecovery.FlushIsValid(s.db, pageSize, CountIn(s.db[0]), ks, s.dirty, nonce);
    if s.dirty != map[] && CountIn(s.db[0]) == |s.db| { FirstIsCounted(s, pageSize, ks); }
  }

  /** A dirty page the header counts is in the file. */
  lemma Counted(s: Snap, pageSize: u32, k: u32)
    requires StateOk(s, pageSize) && s.mode == Legacy && k in s.dirty
    ensures s.db != [] && |s.db[0]| >= 40 && CountIn(s.db[0]) >= 1 && k >= 1
    ensures k <= CountIn(s.db[0]) ==> k <= |s.db|
    ensures k > |s.db| ==> 1 in s.dirty
  {
    hide U32At, CacheOk, HasVersion, Sized, ValidPageSize;
    HasPage1(s, pageSize);
    assert Contents(s.db) + map[] == Contents(s.db);
    assert CommittedOf(s)[1] == s.db[0];
    assert k in WorkingOf(s);
  }

  /** In a file of the counted length, a transaction dirties some page that was there. */
  lemma FirstIsCounted(s: Snap, pageSize: u32, ks: seq<u32>)
    requires StateOk(s, pageSize) && s.mode == Legacy && IsKeyOrder(ks, s.dirty) && s.dirty != map[] && s.db != []
    requires |s.db[0]| >= 40 && CountIn(s.db[0]) == |s.db|
    ensures CrashRecovery.Existing(ks, CountIn(s.db[0])) >= 1
  {
    hide StateOk, U32At;
    var k :| k in s.dirty;
    Counted(s, pageSize, k);
    assert k in ks;
    if k > |s.db| {
      Counted(s, pageSize, 1);
      assert 1 in ks;
    }
    assert forall i :: 0 < i < |ks| ==> ks[0] < ks[i];
  }

  lemma DirtySized(s: Snap, pageSize: u32)
    requires Coherent(s, pageSize)
    ensures Sized(s.db, pageSize) && forall p :: p in s.dirty ==> |s.dirty[p]| == pageSize
  {
    hide U32At, CacheOk, HasVersion, Sized;
    assert forall p :: p in s.dirty ==> WorkingOf(s)[p] == s.dirty[p];
  }

  lemma DirtyCount(s: Snap, pageSize: u32)
    requires Coherent(s, pageSize)
    ensures |s.dirty.Keys| <= U32_MAX
  {
    hide U32At, CacheOk, HasVersion, Sized, NewPages;
    forall p | p in s.dirty.Keys ensures p in Pages(U32_MAX) {
      assert p in WorkingOf(s);
      assert Numbered(p, U32_MAX);
    }
    PagesCount(U32_MAX);
    Subset(s.dirty.Keys, Pages(U32_MAX));
  }

  lemma InBounds(s: Snap, pageSize: u32)
    requires StateOk(s, pageSize)
    ensures s.mode == WalMode ==> WithinCount(WorkingOf(s), s.base)
  {
    hide Coherent, LogOk, Durable, WithinCount, WorkingOf;
  }

  lemma CachedFromFile(s: Snap, pageSize: u32)
    requires Coherent(s, pageSize)
    ensures forall p: u32 :: p in s.cached ==> p !in s.dirty && p !in s.walPages && Has(s.db, p) && s.cached[p] == s.db[p - 1]
  {
    hide WholeDb, HasVersion, Sized;
  }

  lemma ExtendsPast(s: Snap, pageSize: u32, n: u32)
    requires Coherent(s, pageSize) && 1 in WorkingOf(s) && |WorkingOf(s)[1]| >= 40
    requires CountIn(WorkingOf(s)[1]) < U32_MAX && n == CountIn(WorkingOf(s)[1]) + 1
    ensures n != 1
  {
    hide U32At, CacheOk, HasVersion, Sized, WholeDb;
  }

  lemma AllSized(s: Snap, pageSize: u32)
    requires Coherent(s, pageSize)
    ensures 512 <= pageSize <= 65536 && forall q :: q in WorkingOf(s) ==> |WorkingOf(s)[q]| == pageSize
  {
    hide U32At, CacheOk, HasVersion, Sized;
  }

  /** The freelist fields lie clear of the count and the version bytes. */
  lemma FreeFieldsAllowed(w: PageMap, pageSize: u32, head: u32, count: u32)
    requires 1 in w && |w[1]| == pageSize >= 512
    ensures EditAllowed(w, pageSize, 1, WithFree(w[1], head, count))
  {
    hide U32At, BE32;
    FieldsAfterFree(w[1], head, count);
    assert WithFree(w[1], head, count)[18..20] == w[1][18..20];
  }

  lemma LogLoads(s: Snap, pageSize: u32)
    requires StateOk(s, pageSize)
    ensures LogPages(s.wal, pageSize) == Ok(s.walPages)
  {
    hide StateOk, ParseHeader, Replay, ScanFile;
    ReopenOk(s, pageSize);
  }

  lemma ModeOnDisk(s: Snap, pageSize: u32)
    requires StateOk(s, pageSize)
    ensures s.db != [] && ModeOf(s.db[0]) == s.mode
  {
    hide U32At, CacheOk, LogOk, Durable, WholeDb, Sized;
  }

  lemma ShorterFits(buf: Page)
    ensures match Freelist.ParseTrunk(buf)
            case Ok(t) => t.leaves != [] ==> Freelist.FitsIn(Freelist.Trunk(t.next, t.leaves[..|t.leaves| - 1]), |buf|)
            case Err(_) => true
  {
    hide U32At;
  }
}
