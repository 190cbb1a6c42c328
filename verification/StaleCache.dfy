/** A file longer than its header counts: a page past the count that has been read stays in
    the cache when the allocator hands it out, and is what later reads find. */
module StaleCache {
  import opened Bytes
  import opened Wal
  import opened PageFile
  import opened Checkpoint
  import opened Allocator
  import opened PageCache
  import opened PagerState
  import opened Connection
  import CommitSteps

  /** Extending onto a cached page and committing: reading it then gives the committed zero
      page if and only if the old page was zero already. */
  lemma StaleIff(s: Snap, pageSize: u32, n: u32, ks: seq<u32>)
    requires StateOk(s, pageSize) && s.mode == Legacy && 1 in WorkingOf(s) && |WorkingOf(s)[1]| >= 40
    requires CountIn(WorkingOf(s)[1]) < U32_MAX && n == CountIn(WorkingOf(s)[1]) + 1
    requires CountIn(WorkingOf(s)[1]) in WorkingOf(s) && n in s.cached
    requires IsKeyOrder(ks, s.dirty[n := Zeros(pageSize)][1 := WithCount(WorkingOf(s)[1], n)])
    ensures var dirty: PageMap := s.dirty[n := Zeros(pageSize)][1 := WithCount(WorkingOf(s)[1], n)];
            && Writable(ks, dirty) && Has(s.db, n)
            && var u := s.(db := WriteAll(s.db, ks, dirty), dirty := map[], cached := s.cached - {1});
               && Found(u, n) == Ok(s.db[n - 1]) && n in CommittedOf(u) && CommittedOf(u)[n] == Zeros(pageSize)
               && (Found(u, n) == Seen(CommittedOf(u), n) <==> s.db[n - 1] == Zeros(pageSize))
  {
    hide Coherent, StateOk, WorkingOf, WriteAll, Zeros, CountIn, WithCount, IsKeyOrder, Contents;
    var page1 := WithCount(WorkingOf(s)[1], n);
    var dirty: PageMap := s.dirty[n := Zeros(pageSize)][1 := page1];
    var t := s.(dirty := dirty, cached := map[]);
    ReadThrough(s, pageSize, n) by { StateIsCoherent(s, pageSize); }
    ExtendUncached(s, t, pageSize, n, false) by { StateIsCoherent(s, pageSize); }
    ExtendsPast(s, pageSize, n) by { StateIsCoherent(s, pageSize); }
    SameAs(s, t, n, page1, pageSize);
    DirtyIsWritable(t, pageSize, ks);
    FlushLegacyOk(t, pageSize, ks);
    NoLog(s, pageSize) by { LogIsOk(s, pageSize); }
  }

  lemma LogIsOk(s: Snap, pageSize: u32)
    requires StateOk(s, pageSize)
    ensures LogOk(s, pageSize)
  {
    hide Coherent, LogOk, Durable;
  }

  lemma SameAs(s: Snap, t: Snap, n: u32, page1: Page, pageSize: u32)
    requires t == s.(dirty := s.dirty[n := Zeros(pageSize)][1 := page1], cached := t.cached) && n != 1
    ensures n in WorkingOf(t) && WorkingOf(t)[n] == Zeros(pageSize)
  {
    hide Contents;
  }

  /** A new connection to a two-page file whose header counts one. */
  method OpenShort(page1: Page, page2: Page, header: WalHeader) returns (p: Pager)
    requires |page1| == |page2| == 512 && HasVersion(page1, Legacy) && CountIn(page1) == 1
    ensures fresh(p) && fresh(p.db) && fresh(p.cache) && p.wal == null && p.Valid() && !p.lossy && p.journalMode == Legacy && p.pageSize == 512
    ensures p.Working() == map[1 := page1, 2 := page2] && p.Cached() == map[] && p.cache.capacity == DEFAULT_PAGE_CACHE_CAPACITY
    ensures p.dirty == p.walPages == map[]
  {
    hide Coherent, StateOk, CommittedOf, WorkingOf, FreshOf, Cache.Valid, Cache.Model, HasVersion, CountIn;
    var db := new Database([page1, page2]);
    ghost var was := Snap(Legacy, db.pages, None, map[], map[], map[], None, 0, header, [], 0);
    InitialOk(db.pages, 512, header);
    assert Contents(db.pages) == map[1 := page1, 2 := page2];
    var r := Pager.Open(db, null, 0, 512, was);
    p := r.value;
    FreshIsCommitted(was, 512);
    NoLog(p.View(), 512) by { LogIsOk(p.View(), 512); }
  }

  /** Allocating page 2 while it is cached. */
  method AllocateCached(p: Pager, page1: Page, page2: Page) returns (number: Result<u32, PagerError>)
    requires p.Valid() && p.pageSize == 512
    requires p.Working() == map[1 := page1, 2 := page2] && |page1| == 512 && CountIn(page1) == 1 && HeadIn(page1) == 0
    requires 2 in p.Cached() && p.Cached()[2] == page2 && |p.Cached()| < p.cache.capacity
    modifies p`dirty, p.cache
    ensures number == Ok(2) && p.SoundButCache() && 2 in p.Cached() && p.Cached()[2] == page2
    ensures 2 in p.Working() && p.Working()[2] == Zeros(512)
  {
    hide Pager.Valid, Pager.SoundButCache, Pager.Working, Pager.Committed, CountIn, HeadIn, Zeros, WithCount, Cache.Valid, Cache.Model;
    number := p.AllocatePage();
  }

  /** Committing it and reading it back. */
  method Reissue(p: Pager, nonce: u32, page1: Page, page2: Page)
    returns (number: Result<u32, PagerError>, again: Result<Page, PageError>, stored: Page)
    requires p.Valid() && !p.lossy && p.journalMode == Legacy && p.pageSize == 512 && p.walPages == map[]
    requires p.Working() == map[1 := page1, 2 := page2] && |page1| == 512 && CountIn(page1) == 1 && HeadIn(page1) == 0
    requires 2 in p.Cached() && p.Cached()[2] == page2 && |p.Cached()| < p.cache.capacity
    modifies p`dirty, p.cache, p.db
    ensures number == Ok(2) && again == Ok(page2) && stored == Zeros(512)
  {
    hide Pager.Valid, Pager.SoundButCache, Pager.Working, Pager.Committed, Pager.View, Pager.Cached, CountIn, HeadIn, Zeros, Cache.Valid, CommitOf,
         CommitSteps.IsTrace, CommitSteps.Finished;
    number := AllocateCached(p, page1, page2);
    ghost var c, tr := p.FlushLocked(nonce);
    again := LookAgain(p, page2);
    stored := Stored(p);
  }

  method LookAgain(p: Pager, page2: Page) returns (r: Result<Page, PageError>)
    requires p.SoundButCache() && p.dirty == p.walPages == map[] && 2 in p.Cached() && p.Cached()[2] == page2
    modifies p.cache
    ensures r == Ok(page2) && p.Committed() == old(p.Committed())
  {
    hide Coherent, StateOk, Cache.Valid, Cache.Model;
    r := p.LookUp(2);
  }

  method Stored(p: Pager) returns (page: Page)
    requires p.walPages == map[] && 2 in p.Committed()
    ensures page == p.Committed()[2]
  {
    hide CommittedOf;
    InTheFile(p.View(), 2);
    page := p.db.pages[1];
  }

  /** The run: page 2 is read, allocated and committed as a zero page; reading it again
      still gives the old bytes. */
  method StaleRead(page1: Page, page2: Page, nonce: u32, header: WalHeader)
    returns (first: Result<Page, PageError>, number: Result<u32, PagerError>, second: Result<Page, PageError>, stored: Page)
    requires |page1| == |page2| == 512 && HasVersion(page1, Legacy) && CountIn(page1) == 1 && HeadIn(page1) == 0
    ensures first == second == Ok(page2) && number == Ok(2) && stored == Zeros(512)
  {
    hide Pager.Valid, Pager.Working, Pager.Committed, Pager.Cached, Cache.Valid, HasVersion, CountIn, HeadIn, Zeros;
    var p := OpenShort(page1, page2, header);
    first := p.ReadPage(2);
    OneCached(p.Cached());
    number, second, stored := Reissue(p, nonce, page1, page2);
  }

  lemma OneCached(m: PageMap)
    requires m.Keys <= {2}
    ensures |m| <= 1
  {
    Subset(m.Keys, {2});
  }

  lemma InTheFile(s: Snap, n: u32)
    requires n in CommittedOf(s) && n !in s.walPages
    ensures Has(s.db, n) && CommittedOf(s)[n] == s.db[n - 1]
  {
  }
}
