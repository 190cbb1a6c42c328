/** A rollback-journal commit write by write at each `synchronous` level: what a crash
    between any two steps can leave, and at which level it is the old file or the new. */
module CommitSteps {
  import opened Bytes
  import opened Vfs
  import opened PageFile
  import opened Journal
  import opened CrashRecovery

  // ------------------------------------------------------------------------- the steps

  /** How far a commit has come: writes issued to each file, and what has been synced. */
  datatype Progress = Progress(created: bool, journal: nat, journalSynced: bool, pages: nat, mainSynced: bool, deleted: bool)

  const START := Progress(false, 0, false, 0, false, false)

  /** Pages may be written: the journal is complete and, unless syncing is off, durable. */
  ghost predicate MayWrite(c: Commit, m: SynchronousMode, s: Progress)
  {
    c.rs == [] || (s.journal == |c.rs| + 1 && (m == Off || s.journalSynced))
  }

  /** The next step of the flush; without pre-images no journal is made. */
  ghost predicate Next(c: Commit, m: SynchronousMode, s: Progress, s': Progress)
  {
    || (c.rs != [] && !s.created && s' == s.(created := true))
    || (s.created && s.journal <= |c.rs| && s' == s.(journal := s.journal + 1))
    || (m != Off && s.journal == |c.rs| + 1 && !s.journalSynced && s' == s.(journalSynced := true))
    || (MayWrite(c, m, s) && s.pages < |c.ks| && s' == s.(pages := s.pages + 1))
    || (m == Full && MayWrite(c, m, s) && s.pages == |c.ks| && !s.mainSynced && s' == s.(mainSynced := true))
    || (c.rs != [] && MayWrite(c, m, s) && s.pages == |c.ks| && (m == Full ==> s.mainSynced) && !s.deleted
        && s' == s.(deleted := true))
  }

  /** The states a commit went through, from its start. */
  ghost predicate IsTrace(c: Commit, m: SynchronousMode, tr: seq<Progress>)
  {
    tr != [] && tr[0] == START && forall i :: 0 < i < |tr| ==> Next(c, m, tr[i - 1], tr[i])
  }

  ghost predicate Finished(c: Commit, m: SynchronousMode, s: Progress)
  {
    s.pages == |c.ks| && MayWrite(c, m, s) && (m == Full ==> s.mainSynced) && (c.rs != [] ==> s.deleted)
  }

  lemma TraceSnoc(c: Commit, m: SynchronousMode, tr: seq<Progress>, s: Progress)
    requires IsTrace(c, m, tr) && Next(c, m, tr[|tr| - 1], s)
    ensures IsTrace(c, m, tr + [s])
  {
    hide Next;
    var t := tr + [s];
    forall i | 0 < i < |t| ensures Next(c, m, t[i - 1], t[i]) {
      if i < |tr| { assert t[i - 1] == tr[i - 1] && t[i] == tr[i]; }
    }
  }

  lemma Extended(c: Commit, m: SynchronousMode, tr: seq<Progress>, s: Progress) returns (tr': seq<Progress>)
    requires IsTrace(c, m, tr) && Next(c, m, tr[|tr| - 1], s)
    ensures tr' != [] && IsTrace(c, m, tr') && tr'[|tr'| - 1] == s
  {
    hide Next, IsTrace;
    TraceSnoc(c, m, tr, s);
    tr' := tr + [s];
  }

  lemma NotEmpty(c: Commit, m: SynchronousMode, tr: seq<Progress>)
    requires IsTrace(c, m, tr)
    ensures tr != []
  {
  }

  /** The journal, if one is needed, is complete and synced as the level asks. */
  function Journaled(c: Commit, m: SynchronousMode): Progress
  {
    if c.rs == [] then START else START.(created := true, journal := |c.rs| + 1, journalSynced := m != Off)
  }

  /** What the order of the steps guarantees. */
  ghost predicate InSequence(c: Commit, m: SynchronousMode, s: Progress)
  {
    && s.journal <= |c.rs| + 1 && s.pages <= |c.ks| && (s.created ==> c.rs != []) && (s.journal > 0 ==> s.created)
    && (s.journalSynced ==> s.journal == |c.rs| + 1 && m != Off)
    && (s.pages > 0 || s.mainSynced || s.deleted ==> MayWrite(c, m, s))
    && (s.mainSynced ==> m == Full && s.pages == |c.ks|)
    && (s.deleted ==> s.pages == |c.ks| && c.rs != [] && (m == Full ==> s.mainSynced))
  }

  lemma {:induction false} TraceInSequence(c: Commit, m: SynchronousMode, tr: seq<Progress>, i: nat)
    requires IsTrace(c, m, tr) && i < |tr|
    ensures InSequence(c, m, tr[i])
  {
    if i > 0 {
      TraceInSequence(c, m, tr, i - 1);
      assert Next(c, m, tr[i - 1], tr[i]);
    }
  }

  // ------------------------------------------------------------------------ the crash

  /** Of the writes issued so far any may be lost, unless they have been synced. */
  predicate Survive(keep: seq<bool>, issued: nat, synced: bool)
  {
    forall i :: 0 <= i < |keep| ==> (keep[i] ==> i < issued) && (synced && i < issued ==> keep[i])
  }

  /** The journal file itself may be missing while it is not yet created or synced; and
      deleting it may or may not have reached the disk. */
  predicate JournalMayBeGone(s: Progress) { !s.created || !s.journalSynced || s.deleted }

  ghost predicate LeavesWith(c: Commit, s: Progress, d: Disk, keepJ: seq<bool>, keepP: seq<bool>)
    requires ValidCommit(c)
  {
    && |keepJ| == |c.rs| + 1 && |keepP| == |c.ks|
    && Survive(keepJ, s.journal, s.journalSynced) && Survive(keepP, s.pages, s.mainSynced)
    && d.db == SurvivingPages(c, keepP)
    && (if d.journal.None? then JournalMayBeGone(s) else s.created && d.journal.value == SurvivingJournal(c, keepJ))
  }

  /** A crash right after `s` can leave `d`. */
  ghost predicate Leaves(c: Commit, s: Progress, d: Disk)
    requires ValidCommit(c)
  {
    exists keepJ, keepP :: LeavesWith(c, s, d, keepJ, keepP)
  }

  ghost predicate Reached(c: Commit, m: SynchronousMode, s: Progress)
  {
    exists tr :: IsTrace(c, m, tr) && tr[|tr| - 1] == s
  }

  /** A crash at some moment of the commit can leave `d`. */
  ghost predicate CrashDisk(c: Commit, m: SynchronousMode, d: Disk)
    requires ValidCommit(c)
  {
    exists s :: Reached(c, m, s) && Leaves(c, s, d)
  }

  lemma ReachedInSequence(c: Commit, m: SynchronousMode, s: Progress)
    requires Reached(c, m, s)
    ensures InSequence(c, m, s)
  {
    hide InSequence, Next;
    var tr :| IsTrace(c, m, tr) && tr[|tr| - 1] == s;
    TraceInSequence(c, m, tr, |tr| - 1);
  }

  /** Wherever the crash falls, opening yields the whole old database or the whole new one. */
  ghost predicate AllOrNothing(c: Commit, m: SynchronousMode)
    requires ValidCommit(c)
  {
    forall d :: CrashDisk(c, m, d) ==> Opened(d).Ok? && (Undone(c, Opened(d).value) || Opened(d).value == Flat(After(c)))
  }

  // ------------------------------------------------- every crash disk has one of a few forms

  lemma NothingKept(c: Commit, keep: seq<bool>)
    requires ValidCommit(c) && |keep| == |c.ks| && Survive(keep, 0, false)
    ensures SurvivingPages(c, keep) == Flat(c.before)
  {
    hide Flat, PageWrites;
    KeepNone(PageWrites(c.pageSize, c.ks, c.dirty), keep);
  }

  lemma {:induction false} KeepNone(ws: seq<Write>, keep: seq<bool>)
    requires |ws| == |keep| && forall i :: 0 <= i < |keep| ==> !keep[i]
    ensures Kept(ws, keep) == []
  {
    if ws != [] {
      KeepNone(ws[..|ws| - 1], keep[..|ws| - 1]);
    }
  }

  lemma AllKept(c: Commit, keep: seq<bool>)
    requires ValidCommit(c) && |keep| == |c.ks| && forall i :: 0 <= i < |keep| ==> keep[i]
    ensures SurvivingPages(c, keep) == Flat(After(c))
  {
    hide Flat, PageWrites, ApplyWrites, WriteAll;
    var ws := PageWrites(c.pageSize, c.ks, c.dirty);
    assert keep == seq(|ws|, _ => true);
    KeepAll(ws);
    PageWritesAreWrites(c.before, c.pageSize, c.ks, c.dirty);
  }

  lemma WholeJournal(c: Commit, keep: seq<bool>)
    requires ValidCommit(c) && |keep| == |c.rs| + 1 && forall i :: 0 <= i < |keep| ==> keep[i]
    ensures SurvivingJournal(c, keep) == FullJournal(c)
  {
    hide JournalWrites, ApplyWrites;
    assert keep == seq(|c.rs| + 1, _ => true);
    KeepAll(JournalWrites(Header(c), c.rs));
  }

  /** Before any page is written, what is on disk is the old file and some of the journal. */
  lemma BeforePages(c: Commit, s: Progress, d: Disk)
    requires ValidCommit(c) && s.pages == 0 && Leaves(c, s, d)
    ensures JournalUnsynced(c, d)
  {
    hide SurvivingPages, SurvivingJournal, Flat, ValidCommit;
    var keepJ, keepP :| LeavesWith(c, s, d, keepJ, keepP);
    NothingKept(c, keepP);
  }

  /** With the journal synced and still there, some page writes and the whole journal. */
  lemma WithJournal(c: Commit, s: Progress, d: Disk)
    requires ValidCommit(c) && s.journalSynced && s.journal == |c.rs| + 1 && Leaves(c, s, d) && d.journal.Some?
    ensures PagesInFlight(c, d)
  {
    hide SurvivingPages, SurvivingJournal, FullJournal, Torn, ValidCommit;
    var keepJ, keepP :| LeavesWith(c, s, d, keepJ, keepP);
    WholeJournal(c, keepJ);
    SubsetTears(c, keepP);
  }

  /** With every page write synced, the new file. */
  lemma PagesSynced(c: Commit, s: Progress, d: Disk)
    requires ValidCommit(c) && s.mainSynced && s.pages == |c.ks| && Leaves(c, s, d)
    ensures d.db == Flat(After(c))
  {
    hide SurvivingPages, SurvivingJournal, Flat, ValidCommit;
    var keepJ, keepP :| LeavesWith(c, s, d, keepJ, keepP);
    AllKept(c, keepP);
  }

  /** At full synchronization a crash leaves the old file with part of a journal, or any
      subset of the page writes with the whole journal, or the new file without one. */
  lemma FullCrash(c: Commit, d: Disk)
    requires ValidCommit(c) && c.rs != [] && CrashDisk(c, Full, d)
    ensures JournalUnsynced(c, d) || PagesInFlight(c, d) || d == Disk(Flat(After(c)), None)
  {
    hide Reached, Leaves, JournalUnsynced, PagesInFlight, Flat, ValidCommit;
    var s: Progress :| Reached(c, Full, s) && Leaves(c, s, d);
    ReachedInSequence(c, Full, s);
    if s.pages == 0 && !s.deleted {
      BeforePages(c, s, d);
    } else if d.journal.Some? {
      WithJournal(c, s, d);
    } else {
      NoJournal(c, s, d);
      PagesSynced(c, s, d);
    }
  }

  lemma NoJournal(c: Commit, s: Progress, d: Disk)
    requires ValidCommit(c) && Leaves(c, s, d) && d.journal.None?
    ensures JournalMayBeGone(s)
  {
    hide SurvivingPages, SurvivingJournal, ValidCommit;
    var keepJ, keepP :| LeavesWith(c, s, d, keepJ, keepP);
  }

  /** Atomic commit at full synchronization, for every file and every crash. */
  lemma CommitIsAtomic(c: Commit)
    requires ValidCommit(c) && c.nonce != 0 && c.rs != []
    ensures AllOrNothing(c, Full)
  {
    hide CrashDisk, JournalUnsynced, PagesInFlight, Opened, Flat, After, Ascending, Sized;
    forall d | CrashDisk(c, Full, d) ensures Opened(d).Ok? && (Undone(c, Opened(d).value) || Opened(d).value == Flat(After(c))) {
      FullCrash(c, d);
      if JournalUnsynced(c, d) {
        UnsyncedIsHarmless(c, d);
      } else if PagesInFlight(c, d) {
        RollsBack(c, d);
      } else {
        OpensAsIs(d);
      }
    }
  }

  lemma OpensAsIs(d: Disk)
    requires d.journal.None?
    ensures Opened(d) == Ok(d.db)
  {
  }

  // ------------------------------------------------------------- below full synchronization

  /** Page `k` of the commit is new, or gets other bytes than it had. */
  predicate Changes(c: Commit, k: u32)
    requires k in c.dirty && k >= 1
  {
    k > |c.before| || c.before[k - 1] != c.dirty[k]
  }

  ghost predicate AtMostOneChange(c: Commit)
    requires Writable(c.ks, c.dirty)
  {
    forall i, j :: 0 <= i < j < |c.ks| ==> !Changes(c, c.ks[i]) || !Changes(c, c.ks[j])
  }

  /** Some page the header counts gets other bytes. */
  ghost predicate CountedChange(c: Commit)
    requires Writable(c.ks, c.dirty)
  {
    exists i :: 0 <= i < |c.ks| && c.ks[i] <= c.count && Changes(c, c.ks[i])
  }

  /** Writing pages of which only `k` differs from what is there. */
  lemma {:induction false} OneWrite(db: seq<Page>, ks: seq<u32>, m: PageMap, k: u32)
    requires Writable(ks, m) && k in m && k >= 1
    requires forall x :: x in ks && x != k ==> x <= |db| && m[x] == db[x - 1]
    ensures WriteAll(db, ks, m) == if k in ks then WritePage(db, k, m[k]) else db
  {
    hide WritePage;
    if ks != [] {
      var init, last := ks[..|ks| - 1], ks[|ks| - 1];
      assert ks == init + [last] && last in ks;
      assert forall x :: x in init ==> x in ks;
      OneWrite(db, init, m, k);
      WriteTwice(db, k, m[k]);
      if last != k {
        SameWrites(db, k, m[k], last);
      }
    }
  }

  lemma WriteTwice(db: seq<Page>, k: u32, page: Page)
    requires k >= 1
    ensures WritePage(WritePage(db, k, page), k, page) == WritePage(db, k, page)
  {
  }

  lemma SameWrites(db: seq<Page>, k: u32, page: Page, x: u32)
    requires k >= 1 && 1 <= x <= |db| && x != k
    ensures WritePage(db, x, db[x - 1]) == db
    ensures WritePage(WritePage(db, k, page), x, db[x - 1]) == WritePage(db, k, page)
  {
  }

  /** The one page a commit changes, or any of its pages if it changes none. */
  lemma TheChange(c: Commit) returns (k: u32)
    requires ValidCommit(c) && AtMostOneChange(c) && c.ks != []
    ensures k in c.ks && k in c.dirty && k >= 1 && forall x :: x in c.ks && x != k ==> x in c.dirty && x >= 1 && !Changes(c, x)
  {
    var i := if j :| 0 <= j < |c.ks| && Changes(c, c.ks[j]) then j else 0;
    k := c.ks[i];
    forall x | x in c.ks && x != k ensures x in c.dirty && x >= 1 && !Changes(c, x) {
      var j :| 0 <= j < |c.ks| && c.ks[j] == x;
      assert i < j || j < i;
    }
  }

  /** A commit that changes one page leaves the old file or the new, whatever survives. */
  lemma OldOrNew(c: Commit, keep: seq<bool>)
    requires ValidCommit(c) && AtMostOneChange(c) && |keep| == |c.ks|
    ensures SurvivingPages(c, keep) == Flat(c.before) || SurvivingPages(c, keep) == Flat(After(c))
  {
    hide SurvivingPages, Flat, WriteAll, WritePage, Chosen, Sized, Ascending;
    SurvivingIsPages(c, keep);
    ChosenMembers(c.ks, keep);
    if c.ks == [] {
      NoPages(c.before, c.ks, keep, c.dirty);
    } else {
      var k := TheChange(c);
      assert forall x :: x in Chosen(c.ks, keep) ==> x in c.ks;
      OneWrite(c.before, Chosen(c.ks, keep), c.dirty, k);
      OneWrite(c.before, c.ks, c.dirty, k);
    }
  }

  lemma NoPages(db: seq<Page>, ks: seq<u32>, keep: seq<bool>, m: PageMap)
    requires ks == [] && keep == []
    ensures Chosen(ks, keep) == [] && WriteAll(db, [], m) == db
  {
  }

  // ----------------------------------------------------- the new file with half a journal

  lemma RestoredPages(c: Commit, got: seq<PreImage>, db: seq<Page>) returns (gk: seq<u32>)
    requires ValidCommit(c) && (forall r :: r in got ==> r in c.rs) && Sized(db, c.pageSize)
    ensures Writable(gk, Contents(c.before)) && (forall k :: k in gk ==> k in c.ks && k <= c.count)
    ensures ApplyWrites(Flat(db), RestoreWrites(c.pageSize, got)) == Flat(WriteAll(db, gk, Contents(c.before)))
    ensures Sized(WriteAll(db, gk, Contents(c.before)), c.pageSize)
  {
    hide ApplyWrites, Flat, WriteAll, Span;
    gk := seq(|got|, i requires 0 <= i < |got| => got[i].0);
    forall i | 0 <= i < |got|
      ensures gk[i] in c.ks && 1 <= gk[i] <= c.count && gk[i] <= |c.before| && got[i].1 == c.before[gk[i] - 1]
    {
      assert got[i] in got;
      var j :| 0 <= j < |c.rs| && c.rs[j] == got[i];
    }
    var m := Contents(c.before);
    assert RestoreWrites(c.pageSize, got) == PageWrites(c.pageSize, gk, m);
    assert forall p :: p in m ==> m[p] in c.before;
    PageWritesAreWrites(db, c.pageSize, gk, m);
  }

  /** Over the new file, a journal with records missing restores the old one or leaves the
      new, as long as only one page differs and cutting the file back cuts nothing new. */
  lemma HalfJournal(c: Commit, keep: seq<bool>)
    requires ValidCommit(c) && AtMostOneChange(c) && c.nonce != 0 && |keep| == |c.rs| + 1
    requires |c.before| == c.count || !CountedChange(c)
    ensures var r := Opened(Disk(Flat(After(c)), Some(SurvivingJournal(c, keep))));
            r.Ok? && (Undone(c, r.value) || r.value == Flat(After(c)))
  {
    hide ApplyWrites, RecordsFrom, RestoreWrites, Flat, WriteAll, Kept, JournalWrites, SurvivingJournal, WritePage, Resize,
         AtMostOneChange, CountedChange, Span;
    HeaderSurvives(c, keep);
    if keep[0] {
      SurvivingRecords(c, keep, 0);
      assert c.rs[0..] == c.rs;
      var got := RecordsFrom(SurvivingJournal(c, keep), Header(c), 0);
      AfterSized(c);
      var gk := RestoredPages(c, got, After(c));
      var r := WriteAll(After(c), gk, Contents(c.before));
      PageTruncateIsByteTruncate(r, c.count, c.pageSize);
      PageTruncateIsByteTruncate(c.before, c.count, c.pageSize);
      RestoredOrNot(c, gk);
    }
  }

  lemma AfterSized(c: Commit)
    requires ValidCommit(c)
    ensures Sized(After(c), c.pageSize)
  {
    hide ApplyWrites, Flat, WriteAll;
    PageWritesAreWrites(c.before, c.pageSize, c.ks, c.dirty);
  }

  lemma RestoredOrNot(c: Commit, gk: seq<u32>)
    requires ValidCommit(c) && AtMostOneChange(c) && (|c.before| == c.count || !CountedChange(c))
    requires Writable(gk, Contents(c.before)) && forall k :: k in gk ==> k in c.ks
    ensures var r := SetCount(WriteAll(After(c), gk, Contents(c.before)), c.count, c.pageSize);
            r == SetCount(c.before, c.count, c.pageSize) || r == After(c)
  {
    hide WriteAll, WritePage, SetCount;
    if c.ks == [] {
      NoKeys(c, gk);
    } else {
      var k := TheChange(c);
      var m := Contents(c.before);
      OneWrite(c.before, c.ks, c.dirty, k);
      ElsewhereSame(c, k);
      if k in gk {
        OneWrite(After(c), gk, m, k);
        WrittenBack(c.before, k, c.dirty[k]);
      } else {
        NotRestored(After(c), gk, m);
        CutBack(c, k);
      }
    }
  }

  lemma NoKeys(c: Commit, gk: seq<u32>)
    requires c.ks == [] && (forall k :: k in gk ==> k in c.ks) && Writable(gk, Contents(c.before))
    ensures WriteAll(After(c), gk, Contents(c.before)) == After(c) == c.before
  {
    NotRestored(c.before, gk, Contents(c.before));
  }

  lemma ElsewhereSame(c: Commit, k: u32)
    requires ValidCommit(c) && k in c.dirty && k >= 1 && After(c) == WritePage(c.before, k, c.dirty[k])
    ensures forall x: u32 :: Has(c.before, x) && x != k ==> x <= |After(c)| && After(c)[x - 1] == c.before[x - 1]
  {
    hide WriteAll;
  }

  lemma {:induction false} NotRestored(db: seq<Page>, ks: seq<u32>, m: PageMap)
    requires Writable(ks, m) && forall x :: x in ks ==> x <= |db| && m[x] == db[x - 1]
    ensures WriteAll(db, ks, m) == db
  {
    hide WritePage;
    if ks != [] {
      var init, last := ks[..|ks| - 1], ks[|ks| - 1];
      assert ks == init + [last] && last in ks;
      NotRestored(db, init, m);
      Rewritten(db, last);
    }
  }

  lemma Rewritten(db: seq<Page>, x: u32)
    requires 1 <= x <= |db|
    ensures WritePage(db, x, db[x - 1]) == db
  {
  }

  lemma WrittenBack(db: seq<Page>, k: u32, page: Page)
    requires 1 <= k <= |db|
    ensures WritePage(WritePage(db, k, page), k, db[k - 1]) == db && |WritePage(db, k, page)| == |db|
  {
  }

  lemma CutBack(c: Commit, k: u32)
    requires ValidCommit(c) && k in c.ks && k in c.dirty && k >= 1 && (|c.before| == c.count || !CountedChange(c))
    ensures var after := WritePage(c.before, k, c.dirty[k]);
            var r := SetCount(after, c.count, c.pageSize);
            r == SetCount(c.before, c.count, c.pageSize) || r == after
  {
    hide WriteAll;
    var i :| 0 <= i < |c.ks| && c.ks[i] == k;
    if k <= c.count && !Changes(c, k) {
      Rewritten(c.before, k);
    }
  }

  /** A commit that changes at most one page is atomic at every level, unless syncing is
      off, the page is counted and the file is not as long as its count. */
  lemma OneChangeIsAtomic(c: Commit, m: SynchronousMode)
    requires ValidCommit(c) && c.nonce != 0 && AtMostOneChange(c) && (m != Off || |c.before| == c.count || !CountedChange(c))
    ensures AllOrNothing(c, m)
  {
    hide CrashDisk, Opened, Flat, After, AtMostOneChange, CountedChange, Ascending, Sized;
    forall d | CrashDisk(c, m, d) ensures Opened(d).Ok? && (Undone(c, Opened(d).value) || Opened(d).value == Flat(After(c))) {
      OneChangeOpens(c, m, d);
    }
  }

  lemma OneChangeOpens(c: Commit, m: SynchronousMode, d: Disk)
    requires ValidCommit(c) && c.nonce != 0 && AtMostOneChange(c) && (m != Off || |c.before| == c.count || !CountedChange(c))
    requires CrashDisk(c, m, d)
    ensures Opened(d).Ok? && (Undone(c, Opened(d).value) || Opened(d).value == Flat(After(c)))
  {
    hide Reached, Opened, SurvivingPages, SurvivingJournal, Flat, WriteAll, AtMostOneChange, CountedChange, Survive, Undone, Torn;
    var s: Progress :| Reached(c, m, s) && Leaves(c, s, d);
    ReachedInSequence(c, m, s);
    var keepJ, keepP :| LeavesWith(c, s, d, keepJ, keepP);
    OldOrNew(c, keepP);
    if d.journal.None? {
      OpensAsIs(d);
      AsItWas(c);
    } else if d.db == Flat(c.before) {
      UnsyncedIsHarmless(c, d);
    } else if s.journalSynced {
      WithJournal(c, s, d);
      RollsBack(c, d);
      AsItWas(c);
    } else if s.pages == 0 {
      BeforePages(c, s, d);
      UnsyncedIsHarmless(c, d);
    } else {
      HalfJournal(c, keepJ);
    }
  }

  lemma AsItWas(c: Commit)
    ensures Undone(c, Flat(c.before)) && Undone(c, OldDb(c))
  {
  }

  /** The journal's header survives, none of its records does. */
  function HeaderOnly(n: nat): (keep: seq<bool>)
    ensures |keep| == n + 1 && forall k :: 0 <= k <= n ==> keep[k] == (k == 0)
  {
    seq(n + 1, k => k == 0)
  }

  /** With syncing off, a file not as long as its count and one counted page changed, a
      crash can leave the new file and a journal without records: opening cuts the new file
      to the old count. */
  lemma CutShort(c: Commit, i: nat)
    requires ValidCommit(c) && c.nonce != 0 && AtMostOneChange(c) && |c.before| != c.count
    requires i < |c.ks| && c.ks[i] <= c.count && Changes(c, c.ks[i])
    ensures var d := Disk(Flat(After(c)), Some(SurvivingJournal(c, HeaderOnly(|c.rs|))));
            CrashDisk(c, Off, d) && Opened(d).Ok? && !Undone(c, Opened(d).value) && Opened(d).value != Flat(After(c))
  {
    hide SurvivingPages, SurvivingJournal, Flat, WriteAll, Reached, RecordsFrom, Opened, SetCount, AtMostOneChange;
    var d := Disk(Flat(After(c)), Some(SurvivingJournal(c, HeaderOnly(|c.rs|))));
    var s := RunsToEnd(c, Off);
    AllKept(c, seq(|c.ks|, _ => true));
    assert LeavesWith(c, s, d, HeaderOnly(|c.rs|), seq(|c.ks|, _ => true));
    OpensCut(c);
    AfterSized(c);
    CutSized(c.before, c.count, c.pageSize);
    CutSized(After(c), c.count, c.pageSize);
    OneChangeLength(c, i);
    var cut := SetCount(After(c), c.count, c.pageSize);
    PageTruncateIsByteTruncate(c.before, c.count, c.pageSize);
    if Opened(d).value == Flat(c.before) { FlatInjective(cut, c.before, c.pageSize); }
    if Opened(d).value == OldDb(c) { FlatInjective(cut, SetCount(c.before, c.count, c.pageSize), c.pageSize); }
    if Opened(d).value == Flat(After(c)) { FlatInjective(cut, After(c), c.pageSize); }
  }

  lemma OpensCut(c: Commit)
    requires ValidCommit(c) && c.nonce != 0
    ensures Opened(Disk(Flat(After(c)), Some(SurvivingJournal(c, HeaderOnly(|c.rs|))))) == Ok(Flat(SetCount(After(c), c.count, c.pageSize)))
  {
    hide ApplyWrites, Flat, WriteAll, SurvivingJournal, SetCount, Resize, RecordAt, Span;
    var keep := HeaderOnly(|c.rs|);
    HeaderSurvives(c, keep);
    if c.rs != [] { SurvivingRecord(c, keep, 0); }
    NothingRestored(Flat(After(c)), c.pageSize);
    AfterSized(c);
    PageTruncateIsByteTruncate(After(c), c.count, c.pageSize);
  }

  lemma CutSized(db: seq<Page>, count: nat, pageSize: nat)
    requires Sized(db, pageSize)
    ensures Sized(SetCount(db, count, pageSize), pageSize) && |SetCount(db, count, pageSize)| == count
  {
    var cut := SetCount(db, count, pageSize);
    forall p | p in cut ensures |p| == pageSize {
      var i :| 0 <= i < |cut| && cut[i] == p;
      assert i < |db| ==> db[i] in db;
    }
  }

  lemma OneChangeLength(c: Commit, i: nat)
    requires ValidCommit(c) && AtMostOneChange(c) && i < |c.ks| && c.ks[i] <= c.count && Changes(c, c.ks[i])
    ensures |After(c)| == |c.before|
    ensures SetCount(After(c), c.count, c.pageSize) != SetCount(c.before, c.count, c.pageSize)
  {
    hide WriteAll;
    var k := c.ks[i];
    forall x | x in c.ks && x != k ensures x in c.dirty && x >= 1 && !Changes(c, x) {
      var j :| 0 <= j < |c.ks| && c.ks[j] == x;
      assert i < j || j < i;
    }
    OneWrite(c.before, c.ks, c.dirty, k);
    assert SetCount(After(c), c.count, c.pageSize)[k - 1] == c.dirty[k];
  }

  // ------------------------------------------------------------- two changes, one lost

  lemma {:induction false} FlatInjective(a: seq<Page>, b: seq<Page>, pageSize: nat)
    requires pageSize > 0 && Sized(a, pageSize) && Sized(b, pageSize) && Flat(a) == Flat(b)
    ensures a == b
  {
    FlatLength(a, pageSize);
    FlatLength(b, pageSize);
    SpanGrows(|a|, |b|, pageSize);
    SpanGrows(|b|, |a|, pageSize);
    if a != [] {
      assert a[0] in a && b[0] in b;
      assert Flat(a)[..pageSize] == a[0] && Flat(b)[..pageSize] == b[0];
      assert Flat(a)[pageSize..] == Flat(a[1..]) && Flat(b)[pageSize..] == Flat(b[1..]);
      assert Sized(a[1..], pageSize) && Sized(b[1..], pageSize);
      FlatInjective(a[1..], b[1..], pageSize);
      assert a == [a[0]] + a[1..] && b == [b[0]] + b[1..];
    }
  }

  lemma {:induction false} SpanGrows(m: nat, n: nat, size: nat)
    requires size > 0
    ensures m < n ==> Span(m, size) < Span(n, size)
  {
    if n > 0 {
      SpanGrows(m, n - 1, size);
    }
  }

  /** Of two changed pages only the first written: neither the old file nor the new. */
  lemma Mixed(c: Commit, i: nat, j: nat)
    requires ValidCommit(c) && i < j < |c.ks| && Changes(c, c.ks[i]) && Changes(c, c.ks[j])
    ensures var mix := WritePage(c.before, c.ks[i], c.dirty[c.ks[i]]); mix != c.before && mix != After(c)
  {
    hide WriteAll;
    LastWriteStays(c.before, c.ks, c.dirty, j);
    assert c.ks[i] < c.ks[j];
  }

  function OnlyOne(n: nat, i: nat): (keep: seq<bool>)
    ensures |keep| == n && forall k :: 0 <= k < n ==> keep[k] == (k == i)
  {
    seq(n, k => k == i)
  }

  lemma {:induction false} ChosenOne(ks: seq<u32>, keep: seq<bool>, i: nat)
    requires |keep| == |ks| && i < |ks| && forall k :: 0 <= k < |ks| ==> keep[k] == (k == i)
    ensures Chosen(ks, keep) == [ks[i]]
    decreases |ks|
  {
    var n := |ks| - 1;
    if i < n {
      ChosenOne(ks[..n], keep[..n], i);
    } else {
      ChosenNone(ks[..n], keep[..n]);
    }
  }

  lemma {:induction false} ChosenNone(ks: seq<u32>, keep: seq<bool>)
    requires |keep| == |ks| && forall k :: 0 <= k < |ks| ==> !keep[k]
    ensures Chosen(ks, keep) == []
  {
    if ks != [] {
      ChosenNone(ks[..|ks| - 1], keep[..|ks| - 1]);
    }
  }

  /** The disk left when page write `i` is the only one to survive and the journal is gone. */
  function LostWrites(c: Commit, i: nat): Disk
    requires i < |c.ks| && Writable(c.ks, c.dirty)
  {
    Disk(Flat(WritePage(c.before, c.ks[i], c.dirty[c.ks[i]])), None)
  }

  lemma OneSurvives(c: Commit, i: nat)
    requires ValidCommit(c) && i < |c.ks|
    ensures SurvivingPages(c, OnlyOne(|c.ks|, i)) == LostWrites(c, i).db
    ensures Sized(WritePage(c.before, c.ks[i], c.dirty[c.ks[i]]), c.pageSize)
  {
    hide SurvivingPages, Flat, WritePage, Chosen, Sized, Ascending;
    SurvivingIsPages(c, OnlyOne(|c.ks|, i));
    ChosenOne(c.ks, OnlyOne(|c.ks|, i), i);
    JustOne(c.before, c.ks[i], c.dirty);
  }

  lemma JustOne(db: seq<Page>, k: u32, m: PageMap)
    requires k in m && k >= 1
    ensures WriteAll(db, [k], m) == WritePage(db, k, m[k])
  {
    assert [k][..0] == [];
  }

  /** Every commit with a journal can run to its end. */
  lemma RunsToEnd(c: Commit, m: SynchronousMode) returns (s: Progress)
    requires c.rs != []
    ensures Reached(c, m, s) && s == Progress(true, |c.rs| + 1, m != Off, |c.ks|, m == Full, true)
  {
    hide IsTrace;
    OnlyStart(c, m);
    s := START.(created := true);
    TraceSnoc(c, m, [START], s);
    var tr := [START] + [s];
    var k := 0;
    while k <= |c.rs|
      invariant k <= |c.rs| + 1 && tr != [] && IsTrace(c, m, tr) && tr[|tr| - 1] == s == START.(created := true, journal := k)
    {
      s := s.(journal := k + 1);
      TraceSnoc(c, m, tr, s);
      tr, k := tr + [s], k + 1;
    }
    if m != Off {
      s := s.(journalSynced := true);
      TraceSnoc(c, m, tr, s);
      tr := tr + [s];
    }
    k := 0;
    while k < |c.ks|
      invariant k <= |c.ks| && tr != [] && IsTrace(c, m, tr)
      invariant tr[|tr| - 1] == s == START.(created := true, journal := |c.rs| + 1, journalSynced := m != Off, pages := k)
    {
      s := s.(pages := k + 1);
      TraceSnoc(c, m, tr, s);
      tr, k := tr + [s], k + 1;
    }
    if m == Full {
      s := s.(mainSynced := true);
      TraceSnoc(c, m, tr, s);
      tr := tr + [s];
    }
    s := s.(deleted := true);
    TraceSnoc(c, m, tr, s);
    tr := tr + [s];
  }

  lemma OnlyStart(c: Commit, m: SynchronousMode)
    ensures IsTrace(c, m, [START])
  {
  }

  /** Without a journal the pages are written straight away. */
  lemma RunsBare(c: Commit, m: SynchronousMode) returns (s: Progress)
    requires c.rs == []
    ensures Reached(c, m, s) && s == START.(pages := |c.ks|)
  {
    hide IsTrace;
    OnlyStart(c, m);
    s := START;
    var tr := [s];
    var k := 0;
    while k < |c.ks|
      invariant k <= |c.ks| && tr != [] && IsTrace(c, m, tr) && tr[|tr| - 1] == s == START.(pages := k)
    {
      s := s.(pages := k + 1);
      TraceSnoc(c, m, tr, s);
      tr, k := tr + [s], k + 1;
    }
  }

  /** Below full synchronization the journal can be gone while page writes are lost, and
      without records there is none: with two pages changed, the file then opens as a
      mixture. */
  lemma MixtureOpens(c: Commit, m: SynchronousMode, i: nat, j: nat)
    requires ValidCommit(c) && (m != Full || c.rs == [])
    requires i < j < |c.ks| && Changes(c, c.ks[i]) && Changes(c, c.ks[j])
    ensures var d := LostWrites(c, i);
            CrashDisk(c, m, d) && Opened(d) == Ok(d.db) && !Undone(c, d.db) && d.db != Flat(After(c))
  {
    hide SurvivingPages, SurvivingJournal, Flat, WritePage, Opened, WriteAll, Ascending, Reached, SetCount;
    var d := LostWrites(c, i);
    var s: Progress;
    if c.rs == [] { s := RunsBare(c, m); } else { s := RunsToEnd(c, m); }
    OneSurvives(c, i);
    assert LeavesWith(c, s, d, seq(|c.rs| + 1, k => k < s.journal), OnlyOne(|c.ks|, i));
    OpensAsIs(d);
    AfterSized(c);
    Mixed(c, i, j);
    MixedLength(c, i);
    CutSized(c.before, c.count, c.pageSize);
    PageTruncateIsByteTruncate(c.before, c.count, c.pageSize);
    var mix := WritePage(c.before, c.ks[i], c.dirty[c.ks[i]]);
    if d.db == Flat(c.before) { FlatInjective(mix, c.before, c.pageSize); }
    if d.db == OldDb(c) { FlatInjective(mix, SetCount(c.before, c.count, c.pageSize), c.pageSize); }
    if d.db == Flat(After(c)) { FlatInjective(mix, After(c), c.pageSize); }
  }

  /** A written file is not the old one cut or extended to its count. */
  lemma MixedLength(c: Commit, i: nat)
    requires ValidCommit(c) && i < |c.ks| && Changes(c, c.ks[i])
    ensures WritePage(c.before, c.ks[i], c.dirty[c.ks[i]]) != SetCount(c.before, c.count, c.pageSize)
  {
    var mix, cut := WritePage(c.before, c.ks[i], c.dirty[c.ks[i]]), SetCount(c.before, c.count, c.pageSize);
    if c.ks[i] <= c.count {
      assert mix[c.ks[i] - 1] != cut[c.ks[i] - 1];
    } else {
      assert |mix| > c.count;
    }
  }

  /** When a rollback-journal commit is atomic: at full synchronization with a journal, or
      when it changes at most one page; with syncing off that page must also be one the
      header does not count, or the file as long as its count. */
  ghost predicate AtomicAt(c: Commit, m: SynchronousMode)
    requires Writable(c.ks, c.dirty)
  {
    (m == Full && c.rs != []) || (AtMostOneChange(c) && (m != Off || |c.before| == c.count || !CountedChange(c)))
  }

  /** Exactly then. */
  lemma AtomicIff(c: Commit, m: SynchronousMode)
    requires ValidCommit(c) && c.nonce != 0
    ensures AllOrNothing(c, m) <==> AtomicAt(c, m)
  {
    hide CrashDisk, Opened, Flat, After, Undone, LostWrites, Ascending, Sized, SurvivingJournal, Changes;
    if m == Full && c.rs != [] {
      CommitIsAtomic(c);
    } else if AtomicAt(c, m) {
      OneChangeIsAtomic(c, m);
    } else if AtMostOneChange(c) {
      var i :| 0 <= i < |c.ks| && c.ks[i] <= c.count && Changes(c, c.ks[i]);
      CutShort(c, i);
    } else {
      var i, j :| 0 <= i < j < |c.ks| && Changes(c, c.ks[i]) && Changes(c, c.ks[j]);
      MixtureOpens(c, m, i, j);
    }
  }

  /** A two-page database whose pages both change. */
  function TwoPages(a: Page, b: Page, a': Page, b': Page, nonce: u32): Commit
  {
    Commit([a, b], 512, 2, [(1, a), (2, b)], nonce, [1, 2], map[1 := a', 2 := b'])
  }

  /** Such a commit can be torn in half with syncing at NORMAL, and with syncing off. */
  lemma TornInHalf(a: Page, b: Page, a': Page, b': Page, nonce: u32)
    requires |a| == |b| == |a'| == |b'| == 512 && a != a' && b != b'
    ensures var c, d := TwoPages(a, b, a', b', nonce), Disk(Flat([a', b]), None);
            && ValidCommit(c) && CrashDisk(c, Normal, d) && CrashDisk(c, Off, d)
            && Opened(d) == Ok(Flat([a', b])) && Flat([a', b]) != Flat([a, b]) && Flat(After(c)) == Flat([a', b'])
            && Flat([a', b]) != Flat([a', b'])
  {
    hide CrashDisk, Flat, WriteAll, WritePage;
    var c := TwoPages(a, b, a', b', nonce);
    BothWritten(a, b, a', b', nonce);
    MixtureOpens(c, Normal, 0, 1);
    MixtureOpens(c, Off, 0, 1);
  }

  lemma BothWritten(a: Page, b: Page, a': Page, b': Page, nonce: u32)
    requires |a| == |b| == |a'| == |b'| == 512
    ensures var c := TwoPages(a, b, a', b', nonce);
            ValidCommit(c) && WritePage(c.before, 1, a') == [a', b] && After(c) == [a', b']
  {
    var c := TwoPages(a, b, a', b', nonce);
    assert WritePage(c.before, 1, a') == [a', b];
    assert WritePage([a', b], 2, b') == [a', b'];
    JustOne(c.before, 1, c.dirty);
    WriteAllSnoc(c.before, [1], 2, c.dirty);
    assert [1] + [2] == c.ks;
  }

  // ----------------------------------------------------------- commits without a journal

  /** When every written page lies past the header's page count no journal is made; a crash
      then leaves the pages up to that count as they were, at every level. */
  lemma BeyondTheCount(c: Commit, m: SynchronousMode, d: Disk)
    requires ValidCommit(c) && c.rs == [] && CrashDisk(c, m, d)
    ensures Opened(d) == Ok(d.db) && Resize(d.db, Span(c.count, c.pageSize)) == OldDb(c)
  {
    hide SurvivingPages, SurvivingJournal, Flat, Span, ValidCommit, Reached;
    var s: Progress :| Reached(c, m, s) && Leaves(c, s, d);
    ReachedInSequence(c, m, s);
    var keepJ, keepP :| LeavesWith(c, s, d, keepJ, keepP);
    SubsetTears(c, keepP);
    var n := Span(c.count, c.pageSize);
    forall i | 0 <= i < n ensures Resize(d.db, n)[i] == OldDb(c)[i] {
      assert !CrashRecovery.Journaled(c, i);
      assert ByteAt(d.db, i) == ByteAt(Flat(c.before), i);
    }
  }
}
