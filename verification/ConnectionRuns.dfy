/** Any run of operations on a connection behaves as on two plain page maps: the
    committed database and the one being edited. */
module ConnectionRuns {
  import opened Bytes
  import opened Vfs
  import opened Freelist
  import opened Allocator
  import opened PagerState
  import opened Checkpoint
  import opened PageCache
  import opened Connection

  /** What the connection is meant to be: no files, cache, journal or log. `touched` are the
      pages read from the files and not written since, any of which may still be cached. */
  datatype Abs = Abs(committed: PageMap, working: PageMap, mode: Mode, changed: bool, locked: bool, touched: set<u32>)

  datatype Op = Read(n: u32) | Edit(n: u32, content: Page) | Alloc | Free(n: u32) | Begin | Commit(nonce: u32) | Rollback
              | SetMode(mode: Mode, salt1: u32, salt2: u32) | Reopen

  datatype Out = Content(page: Result<Page, PageError>) | Number(number: Result<u32, PagerError>) | Done(done: Result<(), PagerError>)

  ghost predicate Allowed(a: Abs, op: Op, pageSize: u32)
  {
    && Shaped(a.working, pageSize) && Shaped(a.committed, pageSize)
    && match op
       case Edit(n, content) => n in a.working ==> EditAllowed(a.working, pageSize, n, content)
       case Alloc => Allocatable(a.working) && (Extends(a.working) ==> Extendable(a))
       case Free(n) => n != 1 && HeadIn(a.working[1]) != 1
       case _ => true
  }

  /** No counted page is missing, and the page after the last counted one is not in the
      files, or was not read from them: otherwise it may be cached. */
  ghost predicate Extendable(a: Abs)
    requires Extends(a.working)
  {
    var n := CountIn(a.working[1]) + 1;
    n - 1 in a.working && (n !in a.committed || n !in a.touched)
  }

  /** A read that may reach the files: the page is there, and not known to be dirty. */
  ghost function Fetched(a: Abs, n: u32): set<u32>
  {
    if n in a.committed && n in a.working && a.working[n] == a.committed[n] then {n} else {}
  }

  ghost function Step(a: Abs, op: Op, pageSize: u32): (Abs, Out)
    requires Allowed(a, op, pageSize)
  {
    match op
    case Read(n) => (a.(touched := a.touched + Fetched(a, n)), Content(Seen(a.working, n)))
    case Edit(n, content) =>
      (match Seen(a.working, n)
       case Ok(_) => (a.(working := a.working[n := content], changed := true, touched := a.touched - {n}), Done(Ok(())))
       case Err(e) => (a.(touched := a.touched - {n}), Done(Err(Unreadable(e)))))
    case Alloc =>
      var b := a.(touched := a.touched + {1, HeadIn(a.working[1])});
      (match Allocate(a.working, pageSize)
       case Ok(got) => (b.(working := got.1, changed := true), Number(Ok(got.0)))
       case Err(e) => (b, Number(Err(FromStore(e)))))
    case Free(n) =>
      var b := a.(touched := a.touched + {1, HeadIn(a.working[1]), n});
      (match Deallocate(a.working, pageSize, n)
       case Ok(w) => (b.(working := w, changed := true), Done(Ok(())))
       case Err(e) => (b, Done(Err(FromStore(e)))))
    case Begin => (a.(locked := true), Done(Ok(())))
    case Commit(_) => (a.(committed := a.working, changed := false, locked := false, touched := a.touched + {1}), Done(Ok(())))
    case Rollback => (a.(working := a.committed, changed := false, locked := false), Done(Ok(())))
    case SetMode(m, _, _) =>
      if a.changed || a.locked then (a, Done(Err(PendingTransaction)))
      else if m == a.mode then (a, Done(Ok(())))
      else
        var patched := a.committed[1 := Patched(a.committed[1], m)];
        (a.(committed := patched, working := patched, mode := m), Done(Ok(())))
    case Reopen => (a.(working := a.committed, changed := false, locked := false, touched := {}), Done(Ok(())))
  }

  ghost predicate AllowedRun(a: Abs, ops: seq<Op>, pageSize: u32)
    decreases |ops|
  {
    ops == [] || (Allowed(a, ops[0], pageSize) && AllowedRun(Step(a, ops[0], pageSize).0, ops[1..], pageSize))
  }

  ghost function Final(a: Abs, ops: seq<Op>, pageSize: u32): Abs
    requires AllowedRun(a, ops, pageSize)
    decreases |ops|
  {
    if ops == [] then a else Final(Step(a, ops[0], pageSize).0, ops[1..], pageSize)
  }

  ghost function Outs(a: Abs, ops: seq<Op>, pageSize: u32): seq<Out>
    requires AllowedRun(a, ops, pageSize)
    decreases |ops|
  {
    if ops == [] then [] else [Step(a, ops[0], pageSize).1] + Outs(Step(a, ops[0], pageSize).0, ops[1..], pageSize)
  }

  // ------------------------------------------------ files as long as their page count

  ghost predicate AllCounted(w: PageMap) { 1 in w && |w[1]| >= 40 && w.Keys == Pages(CountIn(w[1])) }

  ghost predicate WholeFile(a: Abs)
  {
    AllCounted(a.committed) && AllCounted(a.working) && CountIn(a.committed[1]) <= CountIn(a.working[1])
  }

  lemma AllocateCounts(w: PageMap, pageSize: nat)
    requires Shaped(w, pageSize) && AllCounted(w) && Allocatable(w) && Allocate(w, pageSize).Ok?
    ensures var w' := Allocate(w, pageSize).value.1; AllCounted(w') && CountIn(w[1]) <= CountIn(w'[1])
  {
    hide U32At, Put, TrunkBytes, ParseTrunk, WithCount, WithFree;
    var w', page1 := Allocate(w, pageSize).value.1, w[1];
    if HeadIn(page1) == 0 {
      FieldsAfterCount(page1, CountIn(page1) + 1);
      assert w'.Keys == w.Keys + {CountIn(page1) + 1, 1};
    } else {
      forall head: u32, n: u32 ensures CountIn(WithFree(page1, head, n)) == CountIn(page1) { FieldsAfterFree(page1, head, n); }
      assert w'.Keys == w.Keys;
    }
  }

  lemma DeallocateCounts(w: PageMap, pageSize: nat, p: u32)
    requires Shaped(w, pageSize) && AllCounted(w) && p != 1 && HeadIn(w[1]) != 1 && Deallocate(w, pageSize, p).Ok?
    ensures var w' := Deallocate(w, pageSize, p).value; AllCounted(w') && CountIn(w'[1]) == CountIn(w[1])
  {
    hide U32At, Put, TrunkBytes, ParseTrunk, WithFree;
    var w', page1 := Deallocate(w, pageSize, p).value, w[1];
    forall head: u32, n: u32 ensures CountIn(WithFree(page1, head, n)) == CountIn(page1) { FieldsAfterFree(page1, head, n); }
    assert w'.Keys == w.Keys;
  }

  lemma WholeFileKept(a: Abs, op: Op, pageSize: u32)
    requires WholeFile(a) && Allowed(a, op, pageSize)
    ensures WholeFile(Step(a, op, pageSize).0)
  {
    hide Allocate, Deallocate, CountIn, HeadIn, Patched, HasVersion;
    match op
    case Alloc => if Allocate(a.working, pageSize).Ok? { AllocateCounts(a.working, pageSize); }
    case Free(n) => if Deallocate(a.working, pageSize, n).Ok? { DeallocateCounts(a.working, pageSize, n); }
    case SetMode(m, _, _) => PatchedFields(a.committed[1], m);
    case _ =>
  }

  /** On a file as long as its count no run ever gets to where extending it is not allowed. */
  lemma {:induction false} ExtendsFreely(a: Abs, ops: seq<Op>, pageSize: u32)
    requires WholeFile(a) && AllowedRun(a, ops, pageSize)
    ensures var b := Final(a, ops, pageSize);
            WholeFile(b) && (Shaped(b.working, pageSize) && Shaped(b.committed, pageSize) && Allocatable(b.working) ==> Allowed(b, Alloc, pageSize))
    decreases |ops|
  {
    hide Step, CountIn;
    if ops == [] {
    } else {
      WholeFileKept(a, ops[0], pageSize);
      ExtendsFreely(Step(a, ops[0], pageSize).0, ops[1..], pageSize);
    }
  }

  ghost predicate Live(p: Pager)
    reads p, p.db, p.cache, p.wal
  {
    p.Valid() && !p.lossy && p.synchronous == Full
  }

  /** The connection is what `a` says it is. */
  ghost predicate Models(p: Pager, a: Abs)
    reads p, p.db, p.cache, p.wal
  {
    && Live(p) && a == Abs(p.Committed(), p.Working(), p.journalMode, p.dirty != map[], p.locked, a.touched)
    && p.Cached().Keys <= a.touched
  }

  // Each operation on its own.

  method ReadOne(p: Pager, n: u32, ghost a: Abs) returns (out: Out)
    requires Models(p, a) && Allowed(a, Read(n), p.pageSize)
    modifies p.cache
    ensures Models(p, Step(a, Read(n), p.pageSize).0) && out == Step(a, Read(n), p.pageSize).1
  {
    hide Pager.Valid, Pager.Working, Pager.Committed, Pager.View, Pager.Cached, AtHand, Found, Shaped;
    var r := p.ReadPage(n);
    CachedIsCommitted(p, n);
    out := Content(r);
  }

  /** A cached page is in the files, and not dirty. */
  lemma CachedIsCommitted(p: Pager, n: u32)
    requires p.Valid()
    ensures n in p.Cached() ==> n in p.Committed() && n in p.Working() && p.Working()[n] == p.Committed()[n]
  {
    hide LogOk, Durable, WholeDb, NewPages, HasVersion, Cache.Valid, Cache.Model, U32At;
  }

  method EditOne(p: Pager, n: u32, content: Page, ghost a: Abs) returns (out: Out)
    requires Models(p, a) && Allowed(a, Edit(n, content), p.pageSize)
    modifies p`dirty, p.cache
    ensures Models(p, Step(a, Edit(n, content), p.pageSize).0) && out == Step(a, Edit(n, content), p.pageSize).1
  {
    hide Pager.Valid, Pager.Working, Pager.Committed, Pager.Cached, Allocate, Deallocate, EditAllowed, Allocatable, CountIn, HeadIn;
    var r := p.EditPage(n, content);
    out := Done(if r.Ok? then Ok(()) else Err(Unreadable(r.error)));
  }

  method AllocOne(p: Pager, ghost a: Abs) returns (out: Out)
    requires Models(p, a) && Allowed(a, Alloc, p.pageSize)
    modifies p`dirty, p.cache
    ensures Models(p, Step(a, Alloc, p.pageSize).0) && out == Step(a, Alloc, p.pageSize).1
  {
    hide Pager.Valid, Pager.Working, Pager.Committed, Pager.View, Pager.Cached, Pager.SoundButCache, Allocate, Allocatable, Extends, CountIn, HeadIn, AtHand;
    forall n: u32 ensures n in p.Cached() ==> n in p.Committed() { CachedIsCommitted(p, n); }
    var r := p.AllocatePage();
    out := Number(r);
  }

  method FreeOne(p: Pager, n: u32, ghost a: Abs) returns (out: Out)
    requires Models(p, a) && Allowed(a, Free(n), p.pageSize)
    modifies p`dirty, p.cache
    ensures Models(p, Step(a, Free(n), p.pageSize).0) && out == Step(a, Free(n), p.pageSize).1
  {
    hide Pager.Valid, Pager.Working, Pager.Committed, Pager.Cached, Allocate, Deallocate, EditAllowed, Allocatable, CountIn, HeadIn;
    var r := p.DeallocatePage(n);
    out := Done(r);
  }

  method CommitOne(p: Pager, nonce: u32, ghost a: Abs) returns (out: Out)
    requires Models(p, a) && Allowed(a, Commit(nonce), p.pageSize)
    modifies p, p.cache, p.wal, p.db
    ensures Models(p, Step(a, Commit(nonce), p.pageSize).0) && out == Step(a, Commit(nonce), p.pageSize).1
    ensures p.wal == old(p.wal)
  {
    hide Pager.Valid, Pager.Working, Pager.Committed, Pager.Cached, Allocate, Deallocate, EditAllowed, Allocatable, CountIn, HeadIn;
    ghost var c, tr := p.Flush(nonce);
    out := Done(Ok(()));
  }

  /** Opens the same files again, as after a crash-free exit. */
  method OpenAgain(p: Pager, ghost a: Abs) returns (q: Pager)
    requires Models(p, a)
    ensures fresh(q) && fresh(q.cache) && q.db == p.db && q.wal == p.wal && q.pageSize == p.pageSize
    ensures Models(q, a.(working := a.committed, changed := false, locked := false, touched := {}))
  {
    hide StateOk, Coherent, WorkingOf, CommittedOf, FreshOf, Cache.Valid, Cache.Model;
    var r := Pager.Open(p.db, p.wal, p.backfill, p.pageSize, p.View());
    q := r.value;
    FreshIsCommitted(p.View(), p.pageSize);
  }

  /** `PRAGMA journal_mode` with no other connection about. */
  method Switch(p: Pager, m: Mode, salt1: u32, salt2: u32, ghost a: Abs) returns (out: Out)
    requires Models(p, a) && Allowed(a, SetMode(m, salt1, salt2), p.pageSize)
    modifies p, p.cache, p.db
    ensures Models(p, Step(a, SetMode(m, salt1, salt2), p.pageSize).0) && out == Step(a, SetMode(m, salt1, salt2), p.pageSize).1
    ensures p.wal == old(p.wal) || p.wal == null || fresh(p.wal)
  {
    hide Pager.Valid, Pager.Working, Pager.Committed, Pager.Cached, Patched;
    var marks := seq(MAX_PASSES, _ => []);
    var r := p.SetJournalMode(m, salt1, salt2, marks);
    assert !HeldBack(marks[0]);
    out := Done(r);
  }

  /** One operation; reopening continues on the new connection. */
  method Apply(p: Pager, op: Op, ghost a: Abs) returns (q: Pager, out: Out)
    requires Models(p, a) && Allowed(a, op, p.pageSize)
    modifies p, p.cache, p.db, p.wal
    ensures Models(q, Step(a, op, p.pageSize).0) && out == Step(a, op, p.pageSize).1
    ensures q == p || (fresh(q) && fresh(q.cache) && q.wal == old(p.wal))
    ensures q.db == p.db && q.pageSize == p.pageSize && (q.wal == old(p.wal) || q.wal == null || fresh(q.wal))
  {
    hide Pager.Valid, Pager.Working, Pager.Committed, Pager.Cached, Allocate, Deallocate, EditAllowed, Allocatable, Patched, CountIn, HeadIn;
    q := p;
    out := Done(Ok(()));
    match op
    case Read(n) =>
      out := ReadOne(p, n, a);
    case Edit(n, content) =>
      out := EditOne(p, n, content, a);
    case Alloc =>
      out := AllocOne(p, a);
    case Free(n) =>
      out := FreeOne(p, n, a);
    case Begin =>
      p.Begin();
    case Commit(nonce) =>
      out := CommitOne(p, nonce, a);
    case Rollback =>
      p.Rollback();
    case SetMode(m, salt1, salt2) =>
      out := Switch(p, m, salt1, salt2, a);
    case Reopen =>
      q := OpenAgain(p, a);
  }

  /** Every run answers as the two page maps do, and what it leaves in the files is
      exactly the committed one. */
  method Run(p: Pager, ops: seq<Op>, ghost a: Abs) returns (q: Pager, outs: seq<Out>)
    requires Models(p, a) && AllowedRun(a, ops, p.pageSize)
    modifies p, p.cache, p.db, p.wal
    ensures Models(q, Final(a, ops, p.pageSize)) && outs == Outs(a, ops, p.pageSize)
    ensures FreshOf(q.db.pages, if q.wal == null then None else Some(q.wal.bytes), q.pageSize) == Final(a, ops, p.pageSize).committed
    decreases |ops|
  {
    hide Step, Allowed, StateOk, Coherent, WorkingOf, CommittedOf, FreshOf, Cache.Valid, Cache.Model;
    if ops == [] {
      FreshIsCommitted(p.View(), p.pageSize);
      return p, [];
    }
    var next, out := Apply(p, ops[0], a);
    var rest;
    q, rest := Run(next, ops[1..], Step(a, ops[0], p.pageSize).0);
    outs := [out] + rest;
  }
}
