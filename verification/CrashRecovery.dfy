/** The rollback-journal commit protocol stopped anywhere, with any subset of the
    unsynced writes lost, and what opening the database then finds. */
module CrashRecovery {
  import opened Bytes
  import opened Vfs
  import opened PageFile
  import opened Journal

  /** The two files as a crash leaves them. */
  datatype Disk = Disk(db: seq<byte>, journal: Option<seq<byte>>)

  /** The main file after opening: a hot journal is replayed and the file cut back to
      the page count it recorded. */
  function Opened(d: Disk): Result<seq<byte>, JournalError>
  {
    if d.journal.None? || !Hot(d.journal.value) then Ok(d.db)
    else
      var b := d.journal.value;
      match ParseHeader(b)
      case Err(e) => Err(e)
      case Ok(h) => Ok(Resize(ApplyWrites(d.db, RestoreWrites(h.pageSize, RecordsFrom(b, h, 0))),
                              Span(h.initialPageCount, h.pageSize)))
  }

  /** Opening: probe the magic, replay, truncate, sync, delete the journal. */
  method Open(db: File, journal: Option<seq<byte>>) returns (r: Result<Option<seq<byte>>, JournalError>)
    modifies db
    ensures r.Ok? <==> Opened(Disk(old(db.bytes), journal)).Ok?
    ensures r.Ok? ==> Ok(db.bytes) == Opened(Disk(old(db.bytes), journal))
    ensures r.Ok? ==> r.value == if journal.Some? && Hot(journal.value) then None else journal
    ensures r.Err? ==> db.bytes == old(db.bytes)
  {
    if journal.None? || !Hot(journal.value) {
      return Ok(journal);
    }
    var recovered := Recover(journal.value, db);
    if recovered.Err? {
      return Err(recovered.error);
    }
    var h := recovered.value;
    db.bytes := Resize(db.bytes, Span(h.initialPageCount, h.pageSize));
    return Ok(None);
  }

  // --------------------------------------------------------- recovery interrupted

  /** Replaying left the bytes it does not restore alone, below the final length. */
  ghost predicate AgreesOutside(a: seq<byte>, b: seq<byte>, ws: seq<Write>, len: nat)
  {
    forall i :: 0 <= i < len && (forall w :: w in ws ==> !Covers(w, i)) ==> ByteAt(a, i) == ByteAt(b, i)
  }

  /** States an interrupted recovery of `d` can leave: the journal still there and the
      restored bytes in any condition, or recovery complete and the journal gone. */
  ghost predicate MidRecovery(d: Disk, d': Disk)
  {
    || d' == d
    || (Opened(d).Ok? && d' == Disk(Opened(d).value, None))
    || (&& d'.journal == d.journal && d.journal.Some? && Hot(d.journal.value) && ParseHeader(d.journal.value).Ok?
        && var h := ParseHeader(d.journal.value).value;
           AgreesOutside(d.db, d'.db, RestoreWrites(h.pageSize, RecordsFrom(d.journal.value, h, 0)),
                         Span(h.initialPageCount, h.pageSize)))
  }

  /** Recovering again gives the same database, for every journal and every file. */
  lemma RecoveryRestarts(d: Disk, d': Disk)
    requires MidRecovery(d, d')
    ensures Opened(d') == Opened(d)
  {
    if d' != d && !(Opened(d).Ok? && d' == Disk(Opened(d).value, None)) {
      var h := ParseHeader(d.journal.value).value;
      SameAfterWrites(d.db, d'.db, RestoreWrites(h.pageSize, RecordsFrom(d.journal.value, h, 0)),
                      Span(h.initialPageCount, h.pageSize));
    }
  }

  /** However often recovery is itself interrupted. */
  lemma {:induction false} RepeatedCrashes(ds: seq<Disk>)
    requires ds != [] && forall i :: 0 < i < |ds| ==> MidRecovery(ds[i - 1], ds[i])
    ensures Opened(ds[|ds| - 1]) == Opened(ds[0])
  {
    if |ds| > 1 {
      RepeatedCrashes(ds[..|ds| - 1]);
      RecoveryRestarts(ds[|ds| - 2], ds[|ds| - 1]);
    }
  }

  /** Any subset of the restoring writes, with the truncation done or not, is such a state. */
  lemma PartialReplay(d: Disk, h: JournalHeader, keep: seq<bool>, truncated: bool)
    requires d.journal.Some? && Hot(d.journal.value) && ParseHeader(d.journal.value) == Ok(h)
    requires |keep| == |RecordsFrom(d.journal.value, h, 0)|
    ensures var ws := RestoreWrites(h.pageSize, RecordsFrom(d.journal.value, h, 0));
            var replayed := ApplyWrites(d.db, Kept(ws, keep));
            MidRecovery(d, Disk(if truncated then Resize(replayed, Span(h.initialPageCount, h.pageSize)) else replayed,
                                d.journal))
  {
    var ws := RestoreWrites(h.pageSize, RecordsFrom(d.journal.value, h, 0));
    var len := Span(h.initialPageCount, h.pageSize);
    var replayed := ApplyWrites(d.db, Kept(ws, keep));
    var db' := if truncated then Resize(replayed, len) else replayed;
    KeptMembers(ws, keep);
    forall i | 0 <= i < len && (forall w :: w in ws ==> !Covers(w, i)) ensures ByteAt(d.db, i) == ByteAt(db', i) {
      AppliedByte(d.db, Kept(ws, keep), i);
      LastWrittenFrom(Kept(ws, keep), i, ByteAt(d.db, i));
    }
    assert AgreesOutside(d.db, db', ws, len);
  }

  // ------------------------------------------------------------- the transaction

  /** A commit over the file `before`: the pages `ks` of `dirty` are written in ascending
      order, and `rs` are the pre-images of those numbered up to `count`, the page count in
      the header. */
  datatype Commit = Commit(before: seq<Page>, pageSize: u32, count: u32, rs: seq<PreImage>, nonce: u32,
                           ks: seq<u32>, dirty: PageMap)

  function Header(c: Commit): JournalHeader
    requires |c.rs| <= U32_MAX
  {
    JournalHeader(|c.rs|, c.nonce, c.count, c.pageSize, c.pageSize)
  }

  /** Byte `i` belongs to a journaled page. */
  ghost predicate Journaled(c: Commit, i: nat)
  {
    exists r :: r in c.rs && Covers(RestoreWrite(c.pageSize, r), i)
  }

  ghost predicate Torn(c: Commit, db: seq<byte>)
  {
    forall i :: 0 <= i < Span(c.count, c.pageSize) && !Journaled(c, i) ==> ByteAt(db, i) == ByteAt(Flat(c.before), i)
  }

  ghost predicate ValidCommit(c: Commit)
  {
    && c.pageSize >= 512 && Sized(c.before, c.pageSize) && |c.ks| <= U32_MAX && |c.rs| <= |c.ks|
    && Writable(c.ks, c.dirty) && Ascending(c.ks) && (forall p :: p in c.dirty ==> |c.dirty[p]| == c.pageSize)
    && (forall i :: 0 <= i < |c.rs| ==> c.ks[i] <= c.count && c.ks[i] <= |c.before| && c.rs[i] == (c.ks[i], c.before[c.ks[i] - 1]))
    && (forall i :: |c.rs| <= i < |c.ks| ==> c.ks[i] > c.count)
  }

  /** The main file once every page is written. */
  function After(c: Commit): seq<Page>
    requires Writable(c.ks, c.dirty)
  {
    WriteAll(c.before, c.ks, c.dirty)
  }

  /** The database before the transaction: the first `count` pages. */
  function OldDb(c: Commit): seq<byte> { Resize(Flat(c.before), Span(c.count, c.pageSize)) }

  /** The database as it was: the file, or its first `count` pages. */
  ghost predicate Undone(c: Commit, b: seq<byte>) { b == Flat(c.before) || b == OldDb(c) }

  /** The journal after only the writes selected by `keep` reached the disk. */
  function SurvivingJournal(c: Commit, keep: seq<bool>): seq<byte>
    requires |c.rs| <= U32_MAX && |keep| == |c.rs| + 1
  {
    ApplyWrites([], Kept(JournalWrites(Header(c), c.rs), keep))
  }

  function FullJournal(c: Commit): seq<byte>
    requires |c.rs| <= U32_MAX
  {
    ApplyWrites([], JournalWrites(Header(c), c.rs))
  }

  // ------------------------------------------------------------ reading a journal

  lemma SlotsDisjoint(c: Commit)
    requires ValidCommit(c)
    ensures Disjoint(JournalWrites(Header(c), c.rs))
  {
    hide BE32, Cksum, SerializeHeader;
    var h := Header(c);
    var ws := JournalWrites(h, c.rs);
    forall i, j | 0 <= i < j < |ws| ensures ws[i].at + |ws[i].data| <= ws[j].at {
      var rl := RecordLen(c.pageSize);
      if i > 0 {
        assert c.rs[i - 1].1 in c.before;
        SpanAdd(i, j - 1 - i, rl);
        assert Span(i, rl) == Span(i - 1, rl) + rl;
      }
    }
  }

  lemma RecordReadsBack(b: seq<byte>, h: JournalHeader, i: nat, r: PreImage)
    requires |r.1| == h.pageSize && RecordOffset(h, i) + RecordLen(h.pageSize) <= |b|
    requires b[RecordOffset(h, i)..RecordOffset(h, i) + RecordLen(h.pageSize)] == RecordBytes(h.nonce, r)
    ensures RecordAt(b, h, i) == Some(r)
  {
    hide BE32, Cksum, U32At, Span;
    var e, off := RecordBytes(h.nonce, r), RecordOffset(h, i);
    var ps: nat := h.pageSize;
    Within(b, off, e, 0, 4);
    Within(b, off, e, 4, 4 + ps);
    Within(b, off, e, 4 + ps, 8 + ps);
    assert e[0..4] == BE32(r.0) && e[4..4 + ps] == r.1 && e[4 + ps..8 + ps] == BE32(Cksum(h.nonce, r.1));
    ReadBack32(b, off, r.0);
    ReadBack32(b, off + 4 + ps, Cksum(h.nonce, r.1));
  }

  /** A hole in the journal reads as page 0 full of zeros, which only a zero nonce accepts. */
  lemma HoleIsRejected(b: seq<byte>, h: JournalHeader, i: nat)
    requires forall p: nat :: RecordOffset(h, i) <= p < RecordOffset(h, i) + RecordLen(h.pageSize) ==> ByteAt(b, p) == 0
    ensures RecordAt(b, h, i) == None || (h.nonce == 0 && RecordAt(b, h, i) == Some((0, Zeros(h.pageSize))))
  {
    hide Span;
    var off, ps := RecordOffset(h, i), h.pageSize;
    if off + RecordLen(ps) <= |b| {
      var page := b[off + 4..off + 4 + ps];
      assert forall k :: 0 <= k < ps ==> page[k] == ByteAt(b, off + 4 + k);
      ZeroPageSample(page, if |page| >= 200 then |page| - 200 else 0, h.nonce);
      assert page == Zeros(ps);
      ZeroField(b, off);
      ZeroField(b, off + 4 + ps);
    }
  }

  lemma ZeroField(b: seq<byte>, at: nat)
    requires at + 4 <= |b| && forall p: nat :: at <= p < at + 4 ==> ByteAt(b, p) == 0
    ensures U32At(b, at) == 0
  {
    assert ByteAt(b, at) == 0 && ByteAt(b, at + 1) == 0 && ByteAt(b, at + 2) == 0 && ByteAt(b, at + 3) == 0;
  }

  /** The header write alone decides whether the journal is hot. */
  lemma HeaderSurvives(c: Commit, keep: seq<bool>)
    requires ValidCommit(c) && |keep| == |c.rs| + 1
    ensures keep[0] ==> Hot(SurvivingJournal(c, keep)) && ParseHeader(SurvivingJournal(c, keep)) == Ok(Header(c))
    ensures !keep[0] ==> !Hot(SurvivingJournal(c, keep))
  {
    hide BE32, ApplyWrites, Kept, ParseHeader, SerializeHeader, RecordBytes;
    var h := Header(c);
    var ws := JournalWrites(h, c.rs);
    var b := SurvivingJournal(c, keep);
    SlotsDisjoint(c);
    SurvivingSlot(ws, keep, 0);
    assert ws[0] == Write(0, Region(h));
    if keep[0] {
      assert b[..JOURNAL_HEADER_LEN] == b[0..|Region(h)|][..JOURNAL_HEADER_LEN] == SerializeHeader(h);
      HeaderRoundTrip(h, b);
    } else if |b| >= 8 {
      assert Covers(ws[0], 0);
      assert ByteAt(b, 0) == 0 && b[..8][0] == b[0];
    }
  }

  /** Record `i` of the surviving journal: the genuine one, or a hole. */
  lemma SurvivingRecord(c: Commit, keep: seq<bool>, i: nat)
    requires ValidCommit(c) && |keep| == |c.rs| + 1 && i < |c.rs|
    ensures var got := RecordAt(SurvivingJournal(c, keep), Header(c), i);
            if keep[i + 1] then got == Some(c.rs[i])
            else got == None || (c.nonce == 0 && got == Some((0, Zeros(c.pageSize))) && |c.rs| >= 2)
  {
    hide BE32, ApplyWrites, Kept, RecordAt, RecordBytes, Region, Span;
    var h := Header(c);
    var ws := JournalWrites(h, c.rs);
    var b := SurvivingJournal(c, keep);
    SlotsDisjoint(c);
    SurvivingSlot(ws, keep, i + 1);
    assert ws[i + 1] == Write(RecordOffset(h, i), RecordBytes(h.nonce, c.rs[i]));
    assert c.rs[i].1 in c.before;
    if keep[i + 1] {
      RecordReadsBack(b, h, i, c.rs[i]);
    } else {
      forall p: nat | RecordOffset(h, i) <= p < RecordOffset(h, i) + RecordLen(h.pageSize) ensures ByteAt(b, p) == 0 {
        assert Covers(ws[i + 1], p);
      }
      HoleIsRejected(b, h, i);
      if |c.rs| == 1 { LoneRecordLost(c, keep); }
    }
  }

  /** With a single record, losing it leaves a file too short to hold one. */
  lemma LoneRecordLost(c: Commit, keep: seq<bool>)
    requires ValidCommit(c) && |c.rs| == 1 && |keep| == 2 && !keep[1]
    ensures RecordAt(SurvivingJournal(c, keep), Header(c), 0) == None
  {
    hide BE32, ApplyWrites;
    var ws := JournalWrites(Header(c), c.rs);
    KeptMembers(ws, keep);
    AppliedBound([], Kept(ws, keep), c.pageSize);
  }

  lemma {:induction false} SurvivingRecords(c: Commit, keep: seq<bool>, i: nat)
    requires ValidCommit(c) && |keep| == |c.rs| + 1 && i <= |c.rs|
    ensures var got := RecordsFrom(SurvivingJournal(c, keep), Header(c), i);
            && (forall r :: r in got ==> r in c.rs[i..] || (c.nonce == 0 && r == (0, Zeros(c.pageSize)) && |c.rs| >= 2))
            && ((forall k :: i < k <= |c.rs| ==> keep[k]) ==> got == c.rs[i..])
    decreases |c.rs| - i
  {
    hide SurvivingJournal, RecordAt;
    if i < |c.rs| {
      SurvivingRecord(c, keep, i);
      SurvivingRecords(c, keep, i + 1);
      assert c.rs[i..] == [c.rs[i]] + c.rs[i + 1..];
      assert forall r :: r in c.rs[i + 1..] ==> r in c.rs[i..];
    }
  }

  // --------------------------------------------------------------- undoing writes

  /** Writing back what a page already holds changes nothing. */
  lemma {:induction false} RestoreSame(db: seq<Page>, pageSize: nat, rs: seq<PreImage>)
    requires Sized(db, pageSize)
    requires forall r :: r in rs ==> var n := if r.0 == 0 then 1 else r.0; n <= |db| && r.1 == db[n - 1]
    ensures ApplyWrites(Flat(db), RestoreWrites(pageSize, rs)) == Flat(db)
  {
    hide ApplyWrites, Flat, WriteAt, RestoreWrites;
    if rs == [] {
      NothingRestored(Flat(db), pageSize);
    } else {
      var init, last := rs[..|rs| - 1], rs[|rs| - 1];
      assert rs == init + [last] && last in rs;
      assert forall r :: r in init ==> r in rs;
      RestoreSame(db, pageSize, init);
      RestoreOneMore(Flat(db), pageSize, init, last);
      var n := if last.0 == 0 then 1 else last.0;
      PageReadIsByteRead(db, n, pageSize);
      SameWrite(Flat(db), Span(n - 1, pageSize), last.1);
    }
  }

  lemma SameWrite(file: seq<byte>, at: nat, data: seq<byte>)
    requires at + |data| <= |file| && file[at..at + |data|] == data
    ensures WriteAt(file, at, data) == file
  {
    var w := WriteAt(file, at, data);
    forall i | 0 <= i < |file| ensures w[i] == file[i] {
      if at <= i < at + |data| {
        assert w[at..at + |data|][i - at] == file[at..at + |data|][i - at];
      }
    }
  }

  // ---------------------------------------------------------------- crash states

  /** Before the journal is synced: the main file untouched, any subset of the journal
      writes on disk, or no journal file yet. */
  ghost predicate JournalUnsynced(c: Commit, d: Disk)
    requires |c.rs| <= U32_MAX
  {
    && d.db == Flat(c.before)
    && (d.journal.None? || exists keep :: |keep| == |c.rs| + 1 && d.journal == Some(SurvivingJournal(c, keep)))
  }

  /** After it is synced: the journaled pages, and everything past the old end, may hold
      anything; includes every page written and synced but the journal not yet deleted. */
  ghost predicate PagesInFlight(c: Commit, d: Disk)
    requires |c.rs| <= U32_MAX
  {
    d.journal == Some(FullJournal(c)) && Torn(c, d.db)
  }

  lemma {:induction false} KeepAll(ws: seq<Write>)
    ensures Kept(ws, seq(|ws|, _ => true)) == ws
  {
    if ws != [] {
      KeepAll(ws[..|ws| - 1]);
      assert seq(|ws|, _ => true)[..|ws| - 1] == seq(|ws| - 1, _ => true);
      assert ws == ws[..|ws| - 1] + [ws[|ws| - 1]];
    }
  }

  /** A crash while pages are being written rolls back, whatever those pages hold. */
  lemma RollsBack(c: Commit, d: Disk)
    requires ValidCommit(c) && PagesInFlight(c, d)
    ensures Opened(d) == Ok(OldDb(c))
  {
    hide ApplyWrites, RecordsFrom, Span, Kept, JournalWrites, Torn, Flat, RestoreWrites, Resize;
    var keep := seq(|c.rs| + 1, _ => true);
    KeepAll(JournalWrites(Header(c), c.rs));
    HeaderSurvives(c, keep);
    SurvivingRecords(c, keep, 0);
    assert c.rs[0..] == c.rs;
    var ws := RestoreWrites(c.pageSize, c.rs);
    TornAgrees(c, d.db);
    SameAfterWrites(d.db, Flat(c.before), ws, Span(c.count, c.pageSize));
    PreImagesAreOld(c);
    RestoreSame(c.before, c.pageSize, c.rs);
  }

  lemma PreImagesAreOld(c: Commit)
    requires ValidCommit(c)
    ensures forall r :: r in c.rs ==> r.0 >= 1 && r.0 <= |c.before| && r.1 == c.before[r.0 - 1]
  {
    hide Torn;
    forall r | r in c.rs ensures r.0 >= 1 && r.0 <= |c.before| && r.1 == c.before[r.0 - 1] {
      var i :| 0 <= i < |c.rs| && c.rs[i] == r;
    }
  }

  lemma TornAgrees(c: Commit, db: seq<byte>)
    requires Torn(c, db)
    ensures forall i :: 0 <= i < Span(c.count, c.pageSize) && (forall w :: w in RestoreWrites(c.pageSize, c.rs) ==> !Covers(w, i))
              ==> ByteAt(db, i) == ByteAt(Flat(c.before), i)
  {
    var ws := RestoreWrites(c.pageSize, c.rs);
    forall i | 0 <= i < Span(c.count, c.pageSize) && (forall w :: w in ws ==> !Covers(w, i)) ensures !Journaled(c, i) {
      forall r | r in c.rs ensures !Covers(RestoreWrite(c.pageSize, r), i) {
        var k :| 0 <= k < |c.rs| && c.rs[k] == r;
        assert ws[k] in ws;
      }
    }
  }

  predicate HolesHarmless(c: Commit)
  {
    c.nonce != 0 || |c.rs| < 2 || (c.before != [] && c.before[0] == Zeros(c.pageSize))
  }

  /** What survives of an unsynced journal does no harm, as long as a hole in it cannot
      pass for a record of page 1. */
  lemma UnsyncedIsHarmless(c: Commit, d: Disk)
    requires ValidCommit(c) && JournalUnsynced(c, d)
    requires HolesHarmless(c)
    ensures Opened(d).Ok? && Undone(c, Opened(d).value)
  {
    hide ApplyWrites, RecordsFrom, Kept, JournalWrites, Torn;
    if d.journal.Some? {
      var keep :| |keep| == |c.rs| + 1 && d.journal == Some(SurvivingJournal(c, keep));
      HeaderSurvives(c, keep);
      if keep[0] {
        SurvivingRecords(c, keep, 0);
        assert c.rs[0..] == c.rs;
        var got := RecordsFrom(SurvivingJournal(c, keep), Header(c), 0);
        forall r | r in got ensures var n := if r.0 == 0 then 1 else r.0; n <= |c.before| && r.1 == c.before[n - 1] {
          if r in c.rs { var i :| 0 <= i < |c.rs| && c.rs[i] == r; }
        }
        RestoreSame(c.before, c.pageSize, got);
      }
    }
  }

  // -------------------------------------------------------------- a nonce of zero

  /** The header and the second record survive, the first and the others do not. */
  function SecondOnly(n: nat): (keep: seq<bool>)
    ensures |keep| == n + 1
  {
    seq(n + 1, i => i == 0 || i == 2)
  }

  /** With nonce 0 that journal replays a zero page over page 1. */
  lemma ZeroNonceWipesPage1(c: Commit, i: nat)
    requires ValidCommit(c) && c.nonce == 0 && |c.rs| >= 2 && i < c.pageSize
    ensures var d := Disk(Flat(c.before), Some(SurvivingJournal(c, SecondOnly(|c.rs|))));
            Opened(d).Ok? && i < |Opened(d).value| && Opened(d).value[i] == 0
  {
    hide ApplyWrites, RestoreWrites, Kept, JournalWrites, Torn, RecordAt, SurvivingJournal;
    var keep := SecondOnly(|c.rs|);
    var b, h := SurvivingJournal(c, keep), Header(c);
    HeaderSurvives(c, keep);
    FirstIsHole(c);
    SurvivingRecords(c, keep, 1);
    var got := RecordsFrom(b, h, 0);
    assert got == [(0, Zeros(c.pageSize))] + RecordsFrom(b, h, 1);
    LaterPreImages(c);
    ZeroesFirstPage(Flat(c.before), c.pageSize, got, i);
    assert c.rs[0].0 <= c.count;
    SpanAdd(1, c.count - 1, c.pageSize);
  }

  lemma LaterPreImages(c: Commit)
    requires ValidCommit(c) && |c.rs| >= 1
    ensures forall r :: r in c.rs[1..] ==> r.0 >= 2
  {
    hide Torn;
    forall r | r in c.rs[1..] ensures r.0 >= 2 {
      var j :| 0 <= j < |c.rs[1..]| && c.rs[1..][j] == r;
      assert c.rs[0].0 < c.rs[j + 1].0;
    }
  }

  lemma ZeroesFirstPage(file: seq<byte>, pageSize: nat, rs: seq<PreImage>, i: nat)
    requires rs != [] && rs[0] == (0, Zeros(pageSize)) && i < pageSize
    requires forall r :: r in rs ==> r == (0, Zeros(pageSize)) || r.0 >= 2
    ensures ByteAt(ApplyWrites(file, RestoreWrites(pageSize, rs)), i) == 0
  {
    hide ApplyWrites;
    var ws := RestoreWrites(pageSize, rs);
    AppliedByte(file, ws, i);
    LastWrittenFrom(ws, i, ByteAt(file, i));
    assert ws[0] in ws && Covers(ws[0], i);
    forall k | 0 <= k < |ws| ensures ws[k] == Write(0, Zeros(pageSize)) || !Covers(ws[k], i) {
      assert rs[k] in rs;
      if rs[k].0 >= 2 { PastFirstPage(rs[k].0, pageSize); }
    }
  }

  lemma PastFirstPage(n: nat, pageSize: nat)
    requires n >= 2
    ensures Span(n - 1, pageSize) >= pageSize
  {
    SpanAdd(1, n - 2, pageSize);
  }

  lemma FirstIsHole(c: Commit)
    requires ValidCommit(c) && c.nonce == 0 && |c.rs| >= 2
    ensures RecordAt(SurvivingJournal(c, SecondOnly(|c.rs|)), Header(c), 0) == Some((0, Zeros(c.pageSize)))
  {
    hide ApplyWrites, Kept, BE32, RecordBytes, Region, Cksum;
    var keep := SecondOnly(|c.rs|);
    var b, h := SurvivingJournal(c, keep), Header(c);
    var ws := JournalWrites(h, c.rs);
    SlotsDisjoint(c);
    SurvivingSlot(ws, keep, 1);
    SurvivingSlot(ws, keep, 2);
    var off: nat, ps: nat := RecordOffset(h, 0), c.pageSize;
    assert ws[1].at == off && |ws[1].data| == RecordLen(ps) by { assert c.rs[0].1 in c.before; }
    assert off + RecordLen(ps) <= |b|;
    forall p: nat | off <= p < off + RecordLen(ps) ensures ByteAt(b, p) == 0 { assert Covers(ws[1], p); }
    HoleReads(b, h, 0);
  }

  lemma HoleReads(b: seq<byte>, h: JournalHeader, i: nat)
    requires h.nonce == 0 && RecordOffset(h, i) + RecordLen(h.pageSize) <= |b|
    requires forall p: nat :: RecordOffset(h, i) <= p < RecordOffset(h, i) + RecordLen(h.pageSize) ==> ByteAt(b, p) == 0
    ensures RecordAt(b, h, i) == Some((0, Zeros(h.pageSize)))
  {
    hide Span;
    var off, ps: nat := RecordOffset(h, i), h.pageSize;
    var page := b[off + 4..off + 4 + ps];
    assert forall k :: 0 <= k < ps ==> page[k] == ByteAt(b, off + 4 + k);
    ZeroPageSample(page, if |page| >= 200 then |page| - 200 else 0, h.nonce);
    assert page == Zeros(ps);
    ZeroField(b, off);
    ZeroField(b, off + 4 + ps);
  }

  /** Losing unsynced journal writes is harmless for every subset of them if and only if
      the nonce is nonzero, or there is at most one record, or page 1 is already zero. */
  lemma HarmlessIff(c: Commit)
    requires ValidCommit(c)
    ensures HolesHarmless(c) <==> forall d :: JournalUnsynced(c, d) ==> Opened(d).Ok? && Undone(c, Opened(d).value)
  {
    hide ApplyWrites, RecordsFrom, Span, Kept, JournalWrites, Torn, SurvivingJournal, Opened, Flat;
    if HolesHarmless(c) {
      forall d | JournalUnsynced(c, d) ensures Opened(d).Ok? && Undone(c, Opened(d).value) {
        UnsyncedIsHarmless(c, d);
      }
    } else {
      var d := Disk(Flat(c.before), Some(SurvivingJournal(c, SecondOnly(|c.rs|))));
      assert JournalUnsynced(c, d);
      assert c.rs[0].1 in c.before;
      var page := c.before[0];
      assert page in c.before;
      var i :| 0 <= i < |page| && page[i] != 0;
      ZeroNonceWipesPage1(c, i);
      FirstPageByte(c.before, c.pageSize, i);
      assert c.rs[0].0 <= c.count;
      FirstPageCounts(c.count, c.pageSize);
    }
  }

  lemma FirstPageCounts(count: nat, pageSize: nat)
    requires count >= 1
    ensures Span(count, pageSize) >= pageSize
  {
    SpanAdd(1, count - 1, pageSize);
  }

  lemma FirstPageByte(db: seq<Page>, pageSize: nat, i: nat)
    requires db != [] && Sized(db, pageSize) && i < pageSize
    ensures ByteAt(Flat(db), i) == db[0][i]
  {
    assert db[0] in db;
  }

  // ----------------------------------------------------- the transaction of a flush

  function PageWrites(pageSize: nat, ks: seq<u32>, m: PageMap): (ws: seq<Write>)
    requires Writable(ks, m)
    ensures |ws| == |ks|
  {
    seq(|ks|, i requires 0 <= i < |ks| => Write(Span(ks[i] - 1, pageSize), m[ks[i]]))
  }

  lemma {:induction false} PageWritesAreWrites(db: seq<Page>, pageSize: nat, ks: seq<u32>, m: PageMap)
    requires Writable(ks, m) && Sized(db, pageSize) && forall p :: p in m ==> |m[p]| == pageSize
    ensures Sized(WriteAll(db, ks, m), pageSize)
    ensures Flat(WriteAll(db, ks, m)) == ApplyWrites(Flat(db), PageWrites(pageSize, ks, m))
  {
    hide WritePage, WriteAt, Flat, Span;
    if ks != [] {
      var n := |ks| - 1;
      var k := ks[n];
      var w := WriteAll(db, ks[..n], m);
      PageWritesAreWrites(db, pageSize, ks[..n], m);
      PageWriteIsByteWrite(w, k, m[k]);
      PageWritesSnoc(pageSize, ks, m);
    }
  }

  lemma PageWritesSnoc(pageSize: nat, ks: seq<u32>, m: PageMap)
    requires Writable(ks, m) && ks != []
    ensures var n := |ks| - 1;
            PageWrites(pageSize, ks, m)[..n] == PageWrites(pageSize, ks[..n], m)
            && PageWrites(pageSize, ks, m)[n] == Write(Span(ks[n] - 1, pageSize), m[ks[n]])
  {
    hide Span;
  }

  /** How many of the ascending page numbers existed before the transaction. */
  function Existing(ks: seq<u32>, count: nat): (n: nat)
    ensures n <= |ks| && (forall i :: 0 <= i < n ==> ks[i] <= count) && (n < |ks| ==> ks[n] > count)
  {
    if ks == [] || ks[0] > count then 0 else 1 + Existing(ks[1..], count)
  }

  /** The commit that flushing `dirty` performs, in ascending page order. */
  function FlushCommit(before: seq<Page>, pageSize: u32, count: u32, ks: seq<u32>, dirty: PageMap, nonce: u32): Commit
    requires Writable(ks, dirty) && forall i :: 0 <= i < Existing(ks, count) ==> ks[i] <= |before|
  {
    var n := Existing(ks, count);
    Commit(before, pageSize, count,
           seq(n, i requires 0 <= i < n => (ks[i], before[ks[i] - 1])), nonce, ks, dirty)
  }

  /** A flush is such a commit: every page it overwrites has its pre-image journaled. */
  lemma FlushIsValid(before: seq<Page>, pageSize: u32, count: u32, ks: seq<u32>, dirty: PageMap, nonce: u32)
    requires Writable(ks, dirty) && Ascending(ks) && |ks| <= U32_MAX
    requires pageSize >= 512 && Sized(before, pageSize) && forall p :: p in dirty ==> |dirty[p]| == pageSize
    requires forall i :: 0 <= i < Existing(ks, count) ==> ks[i] <= |before|
    ensures ValidCommit(FlushCommit(before, pageSize, count, ks, dirty, nonce))
  {
    hide Existing;
    var n := Existing(ks, count);
    assert forall i :: n < i < |ks| ==> ks[n] < ks[i];
  }

  /** The page writes that reached the disk when each one either survived or did not. */
  function Chosen(ks: seq<u32>, keep: seq<bool>): seq<u32>
    requires |ks| == |keep|
  {
    if ks == [] then []
    else Chosen(ks[..|ks| - 1], keep[..|ks| - 1]) + (if keep[|ks| - 1] then [ks[|ks| - 1]] else [])
  }

  lemma {:induction false} ChosenMembers(ks: seq<u32>, keep: seq<bool>)
    requires |ks| == |keep|
    ensures forall k :: k in Chosen(ks, keep) ==> k in ks
    ensures Ascending(ks) ==> Ascending(Chosen(ks, keep))
  {
    if ks != [] {
      var n := |ks| - 1;
      var init, rest := ks[..n], Chosen(ks[..n], keep[..n]);
      ChosenMembers(init, keep[..n]);
      assert forall k :: k in init ==> k in ks;
      if Ascending(ks) {
        forall i | 0 <= i < |rest| ensures rest[i] < ks[n] {
          assert rest[i] in rest;
          var j :| 0 <= j < n && init[j] == rest[i];
        }
      }
    }
  }

  /** Surviving page writes are the writes of the surviving pages. */
  lemma {:induction false} ChosenWrites(pageSize: nat, ks: seq<u32>, keep: seq<bool>, m: PageMap)
    requires |ks| == |keep| && Writable(ks, m)
    ensures Writable(Chosen(ks, keep), m) && PageWrites(pageSize, Chosen(ks, keep), m) == Kept(PageWrites(pageSize, ks, m), keep)
  {
    hide Span;
    if ks != [] {
      var n := |ks| - 1;
      ChosenWrites(pageSize, ks[..n], keep[..n], m);
      PageWritesSnoc(pageSize, ks, m);
    }
  }

  /** The main file after only the page writes selected by `keep` reached the disk. */
  function SurvivingPages(c: Commit, keep: seq<bool>): seq<byte>
    requires |keep| == |c.ks| && Writable(c.ks, c.dirty)
  {
    ApplyWrites(Flat(c.before), Kept(PageWrites(c.pageSize, c.ks, c.dirty), keep))
  }

  /** Whichever page writes survive, the file is one with those pages written. */
  lemma SurvivingIsPages(c: Commit, keep: seq<bool>)
    requires ValidCommit(c) && |keep| == |c.ks|
    ensures Writable(Chosen(c.ks, keep), c.dirty) && Ascending(Chosen(c.ks, keep))
    ensures SurvivingPages(c, keep) == Flat(WriteAll(c.before, Chosen(c.ks, keep), c.dirty))
    ensures Sized(WriteAll(c.before, Chosen(c.ks, keep), c.dirty), c.pageSize)
  {
    hide ApplyWrites, Kept, PageWrites, Flat, WriteAll, Chosen;
    ChosenWrites(c.pageSize, c.ks, keep, c.dirty);
    ChosenMembers(c.ks, keep);
    PageWritesAreWrites(c.before, c.pageSize, Chosen(c.ks, keep), c.dirty);
  }

  /** Whichever page writes survive, only journaled pages and pages past the old end differ. */
  lemma SubsetTears(c: Commit, keep: seq<bool>)
    requires ValidCommit(c) && |keep| == |c.ks|
    ensures Torn(c, SurvivingPages(c, keep))
  {
    hide ApplyWrites, Kept, PageWrites, Span, Journaled, Covers, Flat;
    var ws := PageWrites(c.pageSize, c.ks, c.dirty);
    KeptMembers(ws, keep);
    forall i | 0 <= i < Span(c.count, c.pageSize) && !Journaled(c, i)
      ensures ByteAt(SurvivingPages(c, keep), i) == ByteAt(Flat(c.before), i)
    {
      AppliedByte(Flat(c.before), Kept(ws, keep), i);
      LastWrittenFrom(Kept(ws, keep), i, ByteAt(Flat(c.before), i));
      forall w | w in Kept(ws, keep) ensures !Covers(w, i) {
        var k :| 0 <= k < |ws| && keep[k] && ws[k] == w;
        OverwritesJournaled(c, k, i);
      }
    }
  }

  lemma OverwritesJournaled(c: Commit, k: nat, i: nat)
    requires ValidCommit(c) && k < |c.ks| && i < Span(c.count, c.pageSize)
    ensures Covers(PageWrites(c.pageSize, c.ks, c.dirty)[k], i) ==> Journaled(c, i)
  {
    if k < |c.rs| {
      assert c.rs[k] in c.rs && c.before[c.ks[k] - 1] in c.before;
    } else {
      SpanAdd(c.count, c.ks[k] - 1 - c.count, c.pageSize);
    }
  }
}
