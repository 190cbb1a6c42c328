/** A connection that dies in the middle of a commit, and the one that opens the files
    next: it finds the old database or the new one, and goes on from there. */
module CrashRuns {
  import opened Bytes
  import opened Vfs
  import opened Wal
  import opened WalWriter
  import opened WalSessions
  import opened PageFile
  import opened Checkpoint
  import opened Allocator
  import opened PageCache
  import opened PagerState
  import opened Connection
  import opened ConnectionRuns
  import CrashRecovery
  import CommitSteps

  // --------------------------------------------------------------------- bytes to pages

  /** A file read page by page. */
  function Paged(b: seq<byte>, pageSize: nat): seq<Page>
    requires pageSize > 0
    decreases |b|
  {
    if |b| < pageSize then [] else [b[..pageSize]] + Paged(b[pageSize..], pageSize)
  }

  lemma {:induction false} PagedFlat(db: seq<Page>, pageSize: nat)
    requires pageSize > 0 && Sized(db, pageSize)
    ensures Paged(Flat(db), pageSize) == db
  {
    if db != [] {
      assert db[0] in db && Sized(db[1..], pageSize);
      PagedFlat(db[1..], pageSize);
      assert Flat(db)[..pageSize] == db[0] && Flat(db)[pageSize..] == Flat(db[1..]);
      assert db == [db[0]] + db[1..];
    }
  }

  // ------------------------------------------------------- a rollback-journal commit

  /** `c` is the commit the connection in state `s` is about to make. */
  ghost predicate Pending(s: Snap, pageSize: u32, c: CrashRecovery.Commit)
  {
    && s.db != [] && |s.db[0]| >= 40 && IsKeyOrder(c.ks, s.dirty) && |c.ks| == |s.dirty.Keys|
    && (forall i :: 0 <= i < CrashRecovery.Existing(c.ks, CountIn(s.db[0])) ==> c.ks[i] <= |s.db|)
    && Writable(c.ks, s.dirty)
    && c == CrashRecovery.FlushCommit(s.db, pageSize, CountIn(s.db[0]), c.ks, s.dirty, c.nonce)
  }

  /** The pages a crash in such a commit may leave: the old file, its counted pages, or
      the new file. */
  ghost predicate Survivor(s: Snap, pageSize: u32, pages: seq<Page>)
  {
    || pages == s.db
    || (s.db != [] && |s.db[0]| >= 40 && pages == SetCount(s.db, CountIn(s.db[0]), pageSize))
    || (Contents(pages) == WorkingOf(s) && pages != [])
  }

  /** Such a commit journals every page it overwrites. */
  lemma CommitIsValid(s: Snap, pageSize: u32, c: CrashRecovery.Commit)
    requires StateOk(s, pageSize) && s.mode == Legacy && Pending(s, pageSize, c)
    ensures CrashRecovery.ValidCommit(c)
  {
    hide StateOk, IsKeyOrder, CrashRecovery.ValidCommit;
    FlushReady(s, pageSize, c.ks, c.nonce);
  }

  /** A crash at some step of that commit, at full synchronization, can leave `d`. */
  ghost predicate MayLeave(s: Snap, pageSize: u32, c: CrashRecovery.Commit, d: CrashRecovery.Disk)
    requires StateOk(s, pageSize) && s.mode == Legacy && Pending(s, pageSize, c)
  {
    CommitIsValid(s, pageSize, c);
    CommitSteps.CrashDisk(c, Full, d)
  }

  /** What the recovered bytes are, as pages. */
  lemma RecoveredPages(s: Snap, pageSize: u32, c: CrashRecovery.Commit, d: CrashRecovery.Disk)
    requires StateOk(s, pageSize) && s.mode == Legacy && Pending(s, pageSize, c)
    requires c.nonce != 0 && c.rs != [] && MayLeave(s, pageSize, c, d)
    ensures pageSize > 0 && CrashRecovery.Opened(d).Ok?
    ensures var pages := Paged(CrashRecovery.Opened(d).value, pageSize); Survivor(s, pageSize, pages) && Openable(pages, pageSize)
  {
    hide StateOk, IsKeyOrder, CrashRecovery.ValidCommit, CommitSteps.CrashDisk, CrashRecovery.Opened, Paged, Flat, WriteAll, CountIn, Openable, WorkingOf;
    CommitIsValid(s, pageSize, c);
    CommitSteps.CommitIsAtomic(c);
    OldFile(s, pageSize);
    NewFile(s, pageSize, c);
    PagedFlat(s.db, pageSize);
    PagedFlat(SetCount(s.db, c.count, pageSize), pageSize);
    PagedFlat(CrashRecovery.After(c), pageSize);
    PageTruncateIsByteTruncate(s.db, c.count, pageSize);
  }

  /** Whole pages, the first one a rollback-mode header that counts some page. */
  ghost predicate Openable(db: seq<Page>, pageSize: u32)
  {
    && ValidPageSize(pageSize) && 1 <= |db| <= U32_MAX && Sized(db, pageSize)
    && HasVersion(db[0], Legacy) && CountIn(db[0]) >= 1
  }

  lemma FileIsOpenable(s: Snap, pageSize: u32)
    requires StateOk(s, pageSize) && s.mode == Legacy
    ensures Openable(s.db, pageSize) && pageSize >= 512
  {
    hide HasVersion, U32At, CacheOk, NewPages;
    HasPage1(s, pageSize);
    assert Contents(s.db) + map[] == Contents(s.db);
    assert CommittedOf(s)[1] == s.db[0];
  }

  lemma OldFile(s: Snap, pageSize: u32)
    requires StateOk(s, pageSize) && s.mode == Legacy
    ensures Openable(s.db, pageSize) && Sized(s.db, pageSize) && pageSize > 0 && s.db != [] && |s.db[0]| >= 40
    ensures var cut := SetCount(s.db, CountIn(s.db[0]), pageSize); Openable(cut, pageSize) && Sized(cut, pageSize)
  {
    hide StateOk, HasVersion, U32At;
    FileIsOpenable(s, pageSize);
    VersionLength(s.db[0]);
    var cut := SetCount(s.db, CountIn(s.db[0]), pageSize);
    forall p | p in cut ensures |p| == pageSize {
      var i :| 0 <= i < |cut| && cut[i] == p;
      assert i < |s.db| ==> s.db[i] in s.db;
    }
  }

  lemma VersionLength(page: Page)
    requires HasVersion(page, Legacy)
    ensures |page| >= 40
  {
  }

  lemma NewFile(s: Snap, pageSize: u32, c: CrashRecovery.Commit)
    requires StateOk(s, pageSize) && s.mode == Legacy && Pending(s, pageSize, c)
    ensures Writable(c.ks, c.dirty) && Contents(CrashRecovery.After(c)) == WorkingOf(s)
    ensures Openable(CrashRecovery.After(c), pageSize) && Sized(CrashRecovery.After(c), pageSize) && CrashRecovery.After(c) != []
  {
    hide StateOk, Coherent, IsKeyOrder, WriteAll, HasVersion, U32At, WorkingOf, CommittedOf;
    FlushLegacyOk(s, pageSize, c.ks);
    var s' := s.(db := WriteAll(s.db, c.ks, s.dirty), dirty := map[]);
    FileIsOpenable(s', pageSize);
    NoLogViews(s', pageSize);
  }

  lemma NoLogViews(s: Snap, pageSize: u32)
    requires StateOk(s, pageSize) && s.mode == Legacy
    ensures CommittedOf(s) == Contents(s.db)
  {
    hide Coherent, Durable;
    assert Contents(s.db) + map[] == Contents(s.db);
  }

  /** The machine stops during the commit `c` of connection `p`, leaving `d`. Opening the
      files recovers and yields a connection to the old database (or its counted pages) or
      to the new one, ready for any further run. */
  method CrashAndReopen(p: Pager, d: CrashRecovery.Disk, ghost a: Abs, ghost c: CrashRecovery.Commit)
    returns (q: Pager, ghost m: PageMap)
    requires Models(p, a) && a.mode == Legacy && Pending(p.View(), p.pageSize, c) && c.nonce != 0 && c.rs != []
    requires MayLeave(p.View(), p.pageSize, c, d)
    ensures fresh(q) && fresh(q.db) && fresh(q.cache) && q.wal == null && q.pageSize == p.pageSize
    ensures Models(q, Abs(m, m, Legacy, false, false, {}))
    ensures m == a.committed || m == a.working || (c.count != |c.before| && m == Contents(SetCount(c.before, c.count, p.pageSize)))
  {
    hide Models, Pending, MayLeave, CrashRecovery.Opened, Survivor, Openable, StateOk;
    Facts(p, a);
    RecoveredPages(p.View(), p.pageSize, c, d);
    var file := new File(d.db);
    var r := CrashRecovery.Open(file, d.journal);
    var pages := Paged(file.bytes, p.pageSize);
    q := OpenOn(pages, p.pageSize);
    m := Contents(pages);
    WhichOne(p.View(), p.pageSize, pages, c);
  }

  lemma Facts(p: Pager, a: Abs)
    requires Models(p, a)
    ensures StateOk(p.View(), p.pageSize) && p.View().mode == a.mode && a.committed == CommittedOf(p.View()) && a.working == WorkingOf(p.View())
  {
    hide StateOk, Coherent, CommittedOf, WorkingOf, Cache.Valid;
  }

  lemma WhichOne(s: Snap, pageSize: u32, pages: seq<Page>, c: CrashRecovery.Commit)
    requires StateOk(s, pageSize) && s.mode == Legacy && Survivor(s, pageSize, pages) && Pending(s, pageSize, c)
    ensures Contents(pages) == CommittedOf(s) || Contents(pages) == WorkingOf(s)
            || (c.count != |c.before| && Contents(pages) == Contents(SetCount(c.before, c.count, pageSize)))
  {
    hide StateOk, IsKeyOrder, WorkingOf, CommittedOf, CountIn;
    NoLogViews(s, pageSize);
    assert |s.db| == c.count ==> SetCount(s.db, c.count, pageSize) == s.db;
  }

  /** A connection to a file of whole pages. */
  method OpenOn(pages: seq<Page>, pageSize: u32) returns (q: Pager)
    requires Openable(pages, pageSize)
    ensures fresh(q) && fresh(q.db) && fresh(q.cache) && q.wal == null && q.pageSize == pageSize
    ensures Models(q, Abs(Contents(pages), Contents(pages), Legacy, false, false, {}))
  {
    hide StateOk, Coherent, CommittedOf, WorkingOf, FreshOf, HasVersion, CountIn, Cache.Valid, Cache.Model, ValidPageSize;
    var db := new Database(pages);
    ghost var h: WalHeader := NewHeader(true, pageSize, 0, 0, 1);
    ghost var was := Snap(Legacy, pages, None, map[], map[], map[], None, 0, h, [], 0);
    InitialOk(pages, pageSize, h);
    FreshIsCommitted(was, pageSize);
    var r := Pager.Open(db, null, 0, pageSize, was);
    q := r.value;
  }

  // ----------------------------------------------------------------------- a WAL commit

  /** A crash that cuts a WAL commit's one write short, at any byte: a fresh connection
      sees the database as it was committed before. */
  lemma TornWalCommit(s: Snap, pageSize: u32, ks: seq<u32>, k: nat)
    requires StateOk(s, pageSize) && s.mode == WalMode && s.dirty != map[] && IsKeyOrder(ks, s.dirty)
    requires 1 in WorkingOf(s) && |WorkingOf(s)[1]| >= 40 && s.wal.Some?
    requires var t := TxnOf(ks, s.dirty, CountIn(WorkingOf(s)[1]));
             k < |Encode(s.header, SumOf(s.header, s.header.checksum, s.frames), FramesOf(t))|
    ensures var t := TxnOf(ks, s.dirty, CountIn(WorkingOf(s)[1]));
            var torn := WriteAt(s.wal.value, |s.wal.value|, Encode(s.header, SumOf(s.header, s.header.checksum, s.frames), FramesOf(t))[..k]);
            FreshOf(s.db, Some(torn), pageSize) == CommittedOf(s)
  {
    hide Coherent, StateOk, WorkingOf, CommittedOf, Encode, SumOf, FramesOf, TxnOf, ParseHeader, Replay, ScanFile, Ascending, CountIn, WriteAt, HoldsFrames, Span;
    var t := TxnOf(ks, s.dirty, CountIn(WorkingOf(s)[1]));
    TxnAdmissible(s, pageSize, ks);
    LogShape(s, pageSize);
    TornSync(s.wal.value, s.header, s.frames, t, k);
    FreshIsCommitted(s, pageSize);
    CleanLogScans(s.wal.value, s.header, s.frames);
    LongEnough(s.wal.value, s.header, s.frames);
  }
}
