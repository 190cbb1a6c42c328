/** Readers, one writer and PASSIVE checkpoints interleaved step by step on one
    write-ahead log: what each reader sees never changes while it is open. */
module Snapshots {
  import opened Bytes
  import opened Wal
  import opened WalSessions
  import opened PageFile
  import opened Checkpoint

  /** A connection first pins a mark, then reads the log into its overlay. `seen` is
      the database it saw at that moment; `depth` the number of frames it read. */
  datatype Reader = Pinned(mark: nat)
                  | Loaded(mark: nat, depth: nat, overlay: PageMap, seen: PageMap)

  /** A checkpoint under way: it has read a log of `total` frames, or it is copying, with
      pages still to go in ascending order. */
  datatype Copy = LogRead(total: nat) | Copying(safe: nat, todo: seq<u32>, pages: PageMap)

  /** `truth` is the database after every committed transaction. */
  datatype State = State(pageSize: u32, main: seq<Page>, log: seq<Frame>, mxFrame: nat, backfill: nat,
                         readers: map<nat, Reader>, copy: Option<Copy>, truth: PageMap)

  function Marks(s: State): set<nat> { set r | r in s.readers :: s.readers[r].mark }

  // ------------------------------------------------------------------- steps

  /** The writer's one write of a whole transaction at the end of the log file. */
  ghost predicate Append(count: nat, s: State, s': State, t: Txn)
  {
    && Admissible(t, s.log, count) && (forall w :: w in t.pages ==> |w.1| == s.pageSize)
    && s' == s.(log := s.log + FramesOf(t), truth := s.truth + Written(t.pages))
  }

  /** The writer publishing the new end of the log. */
  ghost predicate Publish(s: State, s': State) { s' == s.(mxFrame := |s.log|) }

  ghost predicate Pin(s: State, s': State, r: nat)
  {
    r !in s.readers && s' == s.(readers := s.readers[r := Pinned(s.mxFrame)])
  }

  ghost predicate Load(s: State, s': State, r: nat)
  {
    && r in s.readers && s.readers[r].Pinned?
    && var overlay := Replay(s.log, EMPTY_VIEW).committed;
    && s' == s.(readers := s.readers[r := Loaded(s.readers[r].mark, |s.log|, overlay, Contents(s.main) + overlay)])
  }

  ghost predicate Close(s: State, s': State, r: nat) { s' == s.(readers := s.readers - {r}) }

  /** A checkpoint reading the log file. */
  ghost predicate ReadLog(s: State, s': State) { s.copy.None? && s.log != [] && s' == s.(copy := Some(LogRead(|s.log|))) }

  /** The checkpoint then reading the marks and the backfill count, and deciding how far
      to go and which pages to copy. Readers and the writer may have moved on meanwhile. */
  ghost predicate Plan(s: State, s': State, safe: nat, todo: seq<u32>)
  {
    && s.copy.Some? && s.copy.value.LogRead? && s.backfill < safe <= s.copy.value.total <= |s.log|
    && (forall m :: m in Marks(s) && m > 0 ==> safe <= m)
    && (safe == s.copy.value.total || safe in Marks(s))
    && var view := Replay(s.log[..safe], EMPTY_VIEW);
    && Ascending(todo)
    && (forall p: u32 :: p in todo <==> p in view.committed && InRange(p, view.size, |s.main|))
    && s' == s.(copy := Some(Copying(safe, todo, view.committed)))
  }

  ghost predicate CopyPage(s: State, s': State)
  {
    && s.copy.Some? && s.copy.value.Copying? && s.copy.value.todo != []
    && var c := s.copy.value;
    && var p := c.todo[0];
    && p >= 1 && p in c.pages
    && s' == s.(main := WritePage(s.main, p, c.pages[p]), copy := Some(c.(todo := c.todo[1..])))
  }

  ghost predicate Finish(s: State, s': State)
  {
    && s.copy.Some? && s.copy.value.Copying? && s.copy.value.todo == []
    && s' == s.(backfill := s.copy.value.safe, copy := None)
  }

  /** The checkpointing process dies; nothing is published. */
  ghost predicate Abort(s: State, s': State) { s.copy.Some? && s' == s.(copy := None) }

  datatype Step = AppendStep(t: Txn) | PublishStep | PinStep(r: nat) | LoadStep(r: nat) | CloseStep(r: nat)
                | ReadLogStep | PlanStep(safe: nat, todo: seq<u32>) | CopyStep | FinishStep | AbortStep

  ghost predicate Next(count: nat, s: State, s': State, step: Step)
  {
    match step
    case AppendStep(t) => Append(count, s, s', t)
    case PublishStep => Publish(s, s')
    case PinStep(r) => Pin(s, s', r)
    case LoadStep(r) => Load(s, s', r)
    case CloseStep(r) => Close(s, s', r)
    case ReadLogStep => ReadLog(s, s')
    case PlanStep(safe, todo) => Plan(s, s', safe, todo)
    case CopyStep => CopyPage(s, s')
    case FinishStep => Finish(s, s')
    case AbortStep => Abort(s, s')
  }

  ghost predicate Init(count: nat, s: State)
  {
    && ValidPageSize(s.pageSize) && Sized(s.main, s.pageSize)
    && |s.main| == count <= U32_MAX && s.log == [] && s.mxFrame == 0 && s.backfill == 0
    && s.readers == map[] && s.copy.None? && s.truth == Contents(s.main)
  }

  // ------------------------------------------------------- transactions allowed

  /** Over a log `fs` on a file of `count` pages: the size does not shrink, pages stay within
      the size or the file, and no page is written that leaves a gap behind it. */
  ghost predicate Admissible(t: Txn, fs: seq<Frame>, count: nat)
  {
    && Committing(t) && SizeOf(fs, count) <= Max(count, t.dbSize)
    && (forall w :: w in t.pages ==> 1 <= w.0 <= Max(count, t.dbSize))
    && (forall p: u32, n: u32 :: p in Written(t.pages) && count < n <= p ==> n in Overlay(fs) || n in Written(t.pages))
  }

  // --------------------------------------------------------------- log invariant

  /** Every committed prefix is dense over the original file. */
  ghost predicate GoodLog(fs: seq<Frame>, count: nat)
  {
    Boundary(fs, |fs|) && forall n :: 0 <= n <= |fs| && Boundary(fs, n) ==> Dense(fs[..n], count)
  }

  lemma OverlayOfPrefix(fs: seq<Frame>, m: nat, n: nat)
    requires m <= n <= |fs|
    ensures Overlay(fs[..n]) == Overlay(fs[..m]) + Overlay(fs[m..n])
    ensures Overlay(fs[..m]).Keys <= Overlay(fs[..n]).Keys
  {
    assert fs[..n] == fs[..m] + fs[m..n];
    OverlayAppend(fs[..m], fs[m..n]);
  }

  lemma BoundaryView(fs: seq<Frame>, n: nat)
    requires Boundary(fs, n)
    ensures Replay(fs[..n], EMPTY_VIEW).committed == Overlay(fs[..n])
    ensures n > 0 ==> Replay(fs[..n], EMPTY_VIEW).size == fs[n - 1].dbSize
  {
    CommittedIsOverlay(fs[..n]);
    assert fs[..n][..n] == fs[..n];
  }

  // ------------------------------------------------------------ state invariant

  ghost predicate ReaderOk(s: State, r: Reader)
  {
    && Boundary(s.log, r.mark)
    && (r.Loaded? ==> r.mark <= r.depth && Boundary(s.log, r.depth) && r.overlay == Overlay(s.log[..r.depth]))
    && (r.Loaded? && r.mark > 0 ==> Contents(s.main) + r.overlay == r.seen)
  }

  ghost predicate CopyOk(s: State, c: Copy)
  {
    if c.LogRead? then Boundary(s.log, c.total)
    else
      && s.backfill < c.safe && Boundary(s.log, c.safe) && c.pages == Overlay(s.log[..c.safe])
      && Ascending(c.todo) && Writable(c.todo, c.pages) && NoGaps(s.main, c.todo)
      && (forall p: u32 :: p in c.pages && p !in c.todo ==> Has(s.main, p) && s.main[p - 1] == c.pages[p])
      && (forall r :: r in s.readers && s.readers[r].Loaded? && s.readers[r].mark > 0 ==> c.safe <= s.readers[r].depth)
  }

  /** Every backfilled page holds its content as of some point at or after `backfill`. */
  ghost predicate Caught(s: State)
  {
    && s.backfill <= |s.log|
    && forall p: u32 :: p in Overlay(s.log[..s.backfill]) ==> Has(s.main, p) && Current(s, p)
  }

  ghost predicate Current(s: State, p: u32)
    requires Has(s.main, p) && s.backfill <= |s.log|
  {
    exists j :: s.backfill <= j <= |s.log| && p in Overlay(s.log[..j]) && s.main[p - 1] == Overlay(s.log[..j])[p]
  }

  /** Every page has the page size, and the main file has grown by logged pages only. */
  ghost predicate FileOk(count: nat, s: State)
  {
    && ValidPageSize(s.pageSize) && Sized(s.main, s.pageSize) && (forall f :: f in s.log ==> |f.content| == s.pageSize)
    && (forall n: u32 :: count < n <= |s.main| ==> n in Overlay(s.log))
  }

  ghost predicate Inv(count: nat, s: State)
  {
    && FileOk(count, s)
    && GoodLog(s.log, count) && count <= |s.main| <= U32_MAX && Boundary(s.log, s.mxFrame)
    && Contents(s.main) + Overlay(s.log) == s.truth
    && (forall r :: r in s.readers ==> ReaderOk(s, s.readers[r]))
    && (s.copy.Some? ==> CopyOk(s, s.copy.value))
    && Caught(s)
  }

  lemma InvInit(count: nat, s: State)
    requires Init(count, s)
    ensures Inv(count, s)
  {
    assert s.log[..0] == [];
    assert Dense(s.log[..0], count);
  }

  lemma {:induction false} FrameMembers(t: Txn)
    requires Committing(t)
    ensures Overlay(FramesOf(t)) == Written(t.pages)
    ensures FramesOf(t)[|t.pages| - 1].dbSize == t.dbSize
    ensures forall i :: 0 <= i < |t.pages| - 1 ==> FramesOf(t)[i].dbSize == 0
    ensures forall f :: f in FramesOf(t) ==> exists w :: w in t.pages && w.0 == f.page
  {
    OverlayIsWritten(FramesOf(t), t.pages);
    forall f | f in FramesOf(t) ensures exists w :: w in t.pages && w.0 == f.page {
      var i :| 0 <= i < |FramesOf(t)| && FramesOf(t)[i] == f;
      assert t.pages[i] in t.pages;
    }
  }

  lemma DenseExtends(fs: seq<Frame>, count: nat, t: Txn)
    requires Dense(fs, count) && Admissible(t, fs, count)
    ensures Dense(fs + FramesOf(t), count)
  {
    hide Overlay, FramesOf, Written;
    var all := fs + FramesOf(t);
    FrameMembers(t);
    OverlayAppend(fs, FramesOf(t));
    assert all[|all| - 1] == FramesOf(t)[|t.pages| - 1];
    assert SizeOf(all, count) == Max(count, t.dbSize);
  }

  /** Appending an admissible transaction keeps every committed prefix dense. */
  lemma GoodLogExtends(fs: seq<Frame>, count: nat, t: Txn)
    requires GoodLog(fs, count) && Admissible(t, fs, count)
    ensures GoodLog(fs + FramesOf(t), count)
  {
    hide Overlay, FramesOf, Written, Dense;
    var all := fs + FramesOf(t);
    FrameMembers(t);
    assert fs[..|fs|] == fs && all[..|all|] == all;
    DenseExtends(fs, count, t);
    forall n | 0 <= n <= |all| && Boundary(all, n) ensures Dense(all[..n], count) {
      if n <= |fs| {
        assert all[..n] == fs[..n];
        assert Boundary(fs, n);
      }
    }
  }

  lemma InvAppend(count: nat, s: State, s': State, t: Txn)
    requires Inv(count, s) && Append(count, s, s', t)
    ensures Inv(count, s')
  {
    hide Overlay, Dense, GoodLog, Written, FramesOf, WritePage, Caught, ReaderOk, CopyOk, FileOk;
    AppendKeepsFile(count, s, s', t);
    GoodLogExtends(s.log, count, t);
    FrameMembers(t);
    OverlayAppend(s.log, FramesOf(t));
    MergeAssociates(Contents(s.main), Overlay(s.log), Written(t.pages));
    AppendKeepsReaders(s, s');
    CaughtAppend(s, s');
  }

  lemma AppendKeepsFile(count: nat, s: State, s': State, t: Txn)
    requires FileOk(count, s) && Append(count, s, s', t)
    ensures FileOk(count, s')
  {
    hide Overlay, Admissible, Written;
    OverlayAppend(s.log, FramesOf(t));
    forall f | f in s'.log ensures |f.content| == s.pageSize {
      if f !in s.log {
        var i :| 0 <= i < |FramesOf(t)| && FramesOf(t)[i] == f;
        assert t.pages[i] in t.pages;
      }
    }
  }

  lemma MergeAssociates(a: PageMap, b: PageMap, c: PageMap)
    ensures a + (b + c) == (a + b) + c
  {
  }

  lemma AppendKeepsReaders(s: State, s': State)
    requires s.log <= s'.log && s' == s.(log := s'.log, truth := s'.truth)
    requires forall r :: r in s.readers ==> ReaderOk(s, s.readers[r])
    ensures forall r :: r in s'.readers ==> ReaderOk(s', s'.readers[r])
    ensures s.copy.Some? && CopyOk(s, s.copy.value) ==> CopyOk(s', s.copy.value)
  {
    hide Overlay, WritePage, NoGaps, Ascending, Writable;
    assert forall n :: 0 <= n <= |s.log| ==> s'.log[..n] == s.log[..n];
    forall r | r in s'.readers ensures ReaderOk(s', s'.readers[r]) {
      assert ReaderOk(s, s.readers[r]);
    }
  }

  lemma CaughtAppend(s: State, s': State)
    requires Caught(s) && s.log <= s'.log && s'.main == s.main && s'.backfill == s.backfill
    ensures Caught(s')
  {
    hide Overlay;
    assert forall n :: 0 <= n <= |s.log| ==> s'.log[..n] == s.log[..n];
    forall p: u32 | p in Overlay(s'.log[..s'.backfill]) ensures Has(s'.main, p) && Current(s', p) {
      assert Has(s.main, p) && Current(s, p);
    }
  }

  lemma LogEnds(fs: seq<Frame>, count: nat)
    requires GoodLog(fs, count)
    ensures Boundary(fs, |fs|)
  {
    hide Dense;
  }

  lemma InvLoad(count: nat, s: State, s': State, r: nat)
    requires Inv(count, s) && Load(s, s', r)
    ensures Inv(count, s')
    ensures s'.readers[r].seen == s.truth
  {
    hide Overlay, Replay, GoodLog, Dense, NoGaps, Ascending, Writable;
    LogEnds(s.log, count);
    assert s.log[..|s.log|] == s.log;
    BoundaryView(s.log, |s.log|);
    forall q | q in s'.readers ensures ReaderOk(s', s'.readers[q]) {
      assert ReaderOk(s, s.readers[q]);
    }
  }

  lemma InvReadLog(count: nat, s: State, s': State)
    requires Inv(count, s) && ReadLog(s, s')
    ensures Inv(count, s')
  {
    hide Overlay, Dense;
    forall r | r in s'.readers ensures ReaderOk(s', s'.readers[r]) { assert ReaderOk(s, s.readers[r]); }
    CaughtAppend(s, s');
  }

  lemma InvPlan(count: nat, s: State, s': State, safe: nat, todo: seq<u32>)
    requires Inv(count, s) && Plan(s, s', safe, todo)
    ensures Inv(count, s')
  {
    hide Overlay, Replay, Dense, InRange, WritePage, Ascending, Writable, NoGaps;
    SafeIsBoundary(count, s, s', safe, todo);
    BoundaryView(s.log, safe);
    var prefix := s.log[..safe];
    assert Dense(prefix, count);
    DenseTodo(s.main, prefix, count, todo);
    forall r | r in s'.readers
      ensures ReaderOk(s', s'.readers[r])
      ensures s.readers[r].Loaded? && s.readers[r].mark > 0 ==> safe <= s.readers[r].depth
    {
      assert ReaderOk(s, s.readers[r]);
      assert s.readers[r].mark in Marks(s);
    }
    CaughtAppend(s, s');
  }

  lemma SafeIsBoundary(count: nat, s: State, s': State, safe: nat, todo: seq<u32>)
    requires Inv(count, s) && Plan(s, s', safe, todo)
    ensures Boundary(s.log, safe)
  {
    hide Overlay, Replay, Dense, Caught;
    if safe != s.copy.value.total {
      var r :| r in s.readers && s.readers[r].mark == safe;
      assert ReaderOk(s, s.readers[r]);
    }
  }

  /** Over a dense prefix nothing is out of range and no page is left out. */
  lemma DenseTodo(main: seq<Page>, fs: seq<Frame>, count: nat, todo: seq<u32>)
    requires fs != [] && Dense(fs, count) && count <= |main| <= U32_MAX
    requires forall p: u32 :: p in todo <==> p in Overlay(fs) && InRange(p, fs[|fs| - 1].dbSize, |main|)
    ensures forall p: u32 :: p in todo <==> p in Overlay(fs)
    ensures Writable(todo, Overlay(fs)) && NoGaps(main, todo)
  {
    OverlayPages(fs);
    var size := fs[|fs| - 1].dbSize;
    forall p: u32 | p in Overlay(fs) ensures p in todo {
      var f :| f in fs && f.page == p;
      assert InRange(p, size, |main|);
    }
    forall i | 0 <= i < |todo| ensures todo[i] in Overlay(fs) && todo[i] >= 1 {
      assert todo[i] in todo;
      assert InRange(todo[i], size, |main|);
    }
    forall k, n: u32 | k in todo && |main| < n <= k ensures n in todo {
      assert InRange(k, size, |main|);
      assert n in Overlay(fs);
    }
  }

  // ------------------------------------------------------------ copying one page

  /** Copying a page that a reader's overlay covers is invisible to it. */
  lemma CoveredWrite(main: seq<Page>, p: u32, page: Page, overlay: PageMap)
    requires 1 <= p <= |main| + 1 && p in overlay
    ensures Contents(WritePage(main, p, page)) + overlay == Contents(main) + overlay
  {
    var after := WritePage(main, p, page);
    assert forall n: u32 :: Has(after, n) <==> Has(main, n) || n == p;
  }

  lemma CopyIsAdjacent(main: seq<Page>, todo: seq<u32>)
    requires todo != [] && Ascending(todo) && NoGaps(main, todo) && todo[0] >= 1
    ensures todo[0] <= |main| + 1
  {
    var p := todo[0];
    var next: u32 := if |main| + 1 <= p then |main| + 1 else p;
    assert p in todo;
    assert |main| < next ==> next in todo;
    assert forall k :: k in todo ==> p <= k;
  }

  lemma CopyAdvances(main: seq<Page>, c: Copy, main': seq<Page>)
    requires c.Copying? && c.todo != [] && Ascending(c.todo) && Writable(c.todo, c.pages) && NoGaps(main, c.todo)
    requires main' == WritePage(main, c.todo[0], c.pages[c.todo[0]])
    ensures Ascending(c.todo[1..]) && Writable(c.todo[1..], c.pages) && NoGaps(main', c.todo[1..])
    ensures forall k: u32 :: k in c.todo ==> k == c.todo[0] || k in c.todo[1..]
  {
    hide WritePage;
    var p, rest := c.todo[0], c.todo[1..];
    assert c.todo == [p] + rest;
    forall k, n: u32 | k in rest && |main'| < n <= k ensures n in rest {
      assert k in c.todo && n in c.todo && n != p;
    }
  }

  lemma InvCopy(count: nat, s: State, s': State)
    requires Inv(count, s) && CopyPage(s, s')
    ensures Inv(count, s')
  {
    hide Overlay, Dense, GoodLog, WritePage, ReaderOk, Caught, NoGaps, Ascending, Writable, FileOk;
    var c := s.copy.value;
    var p := c.todo[0];
    CopyIsAdjacent(s.main, c.todo);
    OverlayOfPrefix(s.log, c.safe, |s.log|);
    assert s.log[..|s.log|] == s.log;
    CoveredWrite(s.main, p, c.pages[p], Overlay(s.log));
    CopyKeepsFile(count, s, s');
    CopyKeepsReaders(s, s');
    CopyKeepsCaught(s, s');
    CopyKeepsCopy(s, s');
  }

  lemma CopyKeepsFile(count: nat, s: State, s': State)
    requires FileOk(count, s) && s.copy.Some? && CopyOk(s, s.copy.value) && CopyPage(s, s')
    ensures FileOk(count, s')
  {
    hide Overlay, WritePage, NoGaps, Ascending, Writable;
    var c := s.copy.value;
    var p := c.todo[0];
    CopyIsAdjacent(s.main, c.todo);
    OverlayOfPrefix(s.log, c.safe, |s.log|);
    assert s.log[..|s.log|] == s.log;
    OverlaySized(s.log[..c.safe], s.pageSize, p);
    forall x | x in s'.main ensures |x| == s.pageSize {
      var i :| 0 <= i < |s'.main| && s'.main[i] == x;
      assert i < |s.main| ==> s.main[i] in s.main;
    }
  }

  lemma {:induction false} OverlaySized(fs: seq<Frame>, pageSize: nat, p: u32)
    requires p in Overlay(fs) && forall f :: f in fs ==> |f.content| == pageSize
    ensures |Overlay(fs)[p]| == pageSize
  {
    var last := fs[|fs| - 1];
    assert last in fs;
    if last.page != p {
      OverlaySized(fs[..|fs| - 1], pageSize, p);
    }
  }

  lemma CopyKeepsCopy(s: State, s': State)
    requires s.copy.Some? && CopyOk(s, s.copy.value) && CopyPage(s, s')
    ensures CopyOk(s', s'.copy.value)
  {
    hide Overlay, WritePage, NoGaps, Ascending, Writable;
    var c := s.copy.value;
    var p := c.todo[0];
    CopyAdvances(s.main, c, s'.main);
    forall k: u32 | k in c.pages && k !in c.todo[1..] ensures Has(s'.main, k) && s'.main[k - 1] == c.pages[k] {
      if k != p { WriteKeeps(s.main, p, c.pages[p], k); }
    }
  }

  lemma CopyKeepsReaders(s: State, s': State)
    requires s.copy.Some? && CopyOk(s, s.copy.value) && CopyPage(s, s')
    requires s.copy.value.todo[0] <= |s.main| + 1
    requires forall r :: r in s.readers ==> ReaderOk(s, s.readers[r])
    ensures forall r :: r in s'.readers ==> ReaderOk(s', s'.readers[r])
  {
    hide Overlay, WritePage, NoGaps, Ascending, Writable;
    var c := s.copy.value;
    var p := c.todo[0];
    forall r | r in s'.readers ensures ReaderOk(s', s'.readers[r]) {
      var q := s.readers[r];
      assert ReaderOk(s, q);
      if q.Loaded? && q.mark > 0 {
        OverlayOfPrefix(s.log, c.safe, q.depth);
        CoveredWrite(s.main, p, c.pages[p], q.overlay);
      }
    }
  }

  lemma CopyKeepsCaught(s: State, s': State)
    requires s.copy.Some? && CopyOk(s, s.copy.value) && CopyPage(s, s') && Caught(s)
    ensures Caught(s')
  {
    hide Overlay, WritePage, NoGaps, Ascending, Writable;
    var c := s.copy.value;
    var p := c.todo[0];
    forall k: u32 | k in Overlay(s.log[..s.backfill]) ensures Has(s'.main, k) && Current(s', k) {
      assert Has(s.main, k) && Current(s, k);
      WriteKeeps(s.main, p, c.pages[p], k);
      if k == p { assert s'.main[k - 1] == Overlay(s.log[..c.safe])[k]; }
    }
  }

  lemma WriteKeeps(main: seq<Page>, p: u32, page: Page, k: u32)
    requires p >= 1 && Has(main, k)
    ensures Has(WritePage(main, p, page), k)
    ensures WritePage(main, p, page)[k - 1] == if k == p then page else main[k - 1]
  {
  }

  lemma InvFinish(count: nat, s: State, s': State)
    requires Inv(count, s) && Finish(s, s')
    ensures Inv(count, s')
  {
    hide Overlay, Dense, GoodLog;
    var c := s.copy.value;
    forall r | r in s'.readers ensures ReaderOk(s', s'.readers[r]) {
      assert ReaderOk(s, s.readers[r]);
    }
    forall p: u32 | p in Overlay(s'.log[..s'.backfill]) ensures Has(s'.main, p) && Current(s', p) {
      assert p in c.pages && p !in c.todo;
    }
  }

  lemma InvReaders(count: nat, s: State, s': State)
    requires Inv(count, s)
    requires s' == s.(readers := s'.readers) || s' == s.(copy := None) || s' == s.(mxFrame := |s.log|)
    requires forall r :: r in s'.readers ==> (r in s.readers && s'.readers[r] == s.readers[r]) || s'.readers[r] == Pinned(s.mxFrame)
    ensures Inv(count, s')
  {
    forall r | r in s'.readers ensures ReaderOk(s', s'.readers[r]) {
      assert r in s.readers && s'.readers[r] == s.readers[r] ==> ReaderOk(s, s.readers[r]);
    }
    CaughtAppend(s, s');
  }

  lemma InvNext(count: nat, s: State, s': State, step: Step)
    requires Inv(count, s) && Next(count, s, s', step)
    ensures Inv(count, s')
  {
    match step
    case AppendStep(t) => InvAppend(count, s, s', t);
    case LoadStep(r) => InvLoad(count, s, s', r);
    case ReadLogStep => InvReadLog(count, s, s');
    case PlanStep(safe, todo) => InvPlan(count, s, s', safe, todo);
    case CopyStep => InvCopy(count, s, s');
    case FinishStep => InvFinish(count, s, s');
    case _ => InvReaders(count, s, s');
  }

  // ------------------------------------------------------------------ whole runs

  ghost predicate Path(count: nat, ss: seq<State>, steps: seq<Step>)
  {
    |ss| == |steps| + 1 && forall i :: 0 <= i < |steps| ==> Next(count, ss[i], ss[i + 1], steps[i])
  }

  ghost predicate Run(count: nat, ss: seq<State>, steps: seq<Step>) { Path(count, ss, steps) && Init(count, ss[0]) }

  lemma {:induction false} InvRun(count: nat, ss: seq<State>, steps: seq<Step>, i: nat)
    requires Run(count, ss, steps) && i < |ss|
    ensures Inv(count, ss[i])
  {
    if i == 0 {
      InvInit(count, ss[0]);
    } else {
      InvRun(count, ss, steps, i - 1);
      InvNext(count, ss[i - 1], ss[i], steps[i - 1]);
    }
  }

  /** The pages reader `r` would read now: its overlay over the current main file. */
  function Sees(s: State, r: nat): PageMap
    requires r in s.readers && s.readers[r].Loaded?
  {
    Contents(s.main) + s.readers[r].overlay
  }

  lemma {:induction false} ReaderKept(count: nat, ss: seq<State>, steps: seq<Step>, r: nat, i: nat, j: nat)
    requires Run(count, ss, steps) && i <= j < |ss|
    requires r in ss[i].readers && ss[i].readers[r].Loaded?
    requires forall k :: i <= k <= j ==> r in ss[k].readers
    ensures ss[j].readers[r] == ss[i].readers[r]
  {
    if i < j {
      ReaderKept(count, ss, steps, r, i, j - 1);
      assert Next(count, ss[j - 1], ss[j], steps[j - 1]);
    }
  }

  /** Snapshot isolation: over every run, a reader that pinned a nonzero mark sees the
      same pages from the moment it loaded for as long as it stays open. */
  lemma SnapshotIsolation(count: nat, ss: seq<State>, steps: seq<Step>, r: nat, i: nat, j: nat)
    requires Run(count, ss, steps) && i <= j < |ss|
    requires r in ss[i].readers && ss[i].readers[r].Loaded? && ss[i].readers[r].mark > 0
    requires forall k :: i <= k <= j ==> r in ss[k].readers
    ensures ss[j].readers[r] == ss[i].readers[r]
    ensures Sees(ss[j], r) == Sees(ss[i], r)
  {
    ReaderKept(count, ss, steps, r, i, j);
    InvRun(count, ss, steps, i);
    InvRun(count, ss, steps, j);
    assert ReaderOk(ss[i], ss[i].readers[r]) && ReaderOk(ss[j], ss[j].readers[r]);
  }

  /** Freshness: a reader that loads sees every transaction committed so far, whatever
      a checkpoint has copied meanwhile. */
  lemma NewReaderSeesLatest(count: nat, ss: seq<State>, steps: seq<Step>, i: nat, r: nat)
    requires Run(count, ss, steps) && i < |steps| && steps[i] == LoadStep(r)
    ensures Sees(ss[i + 1], r) == ss[i].truth
  {
    InvRun(count, ss, steps, i);
    assert Next(count, ss[i], ss[i + 1], steps[i]);
    InvLoad(count, ss[i], ss[i + 1], r);
  }

  /** The published backfill never moves back; once it covers the log, the main file
      alone is the whole committed database, so the log can be deleted. */
  lemma BackfillIsSound(count: nat, ss: seq<State>, steps: seq<Step>, i: nat)
    requires Run(count, ss, steps) && i < |ss|
    ensures i > 0 ==> ss[i - 1].backfill <= ss[i].backfill
    ensures ss[i].backfill <= |ss[i].log|
    ensures Contents(ss[i].main) + Overlay(ss[i].log) == ss[i].truth
    ensures ss[i].backfill == |ss[i].log| ==> Contents(ss[i].main) == ss[i].truth
  {
    hide Overlay, GoodLog, ReaderOk, CopyOk, Caught, WritePage;
    InvRun(count, ss, steps, i);
    CaughtUp(ss[i]);
    if i > 0 {
      InvRun(count, ss, steps, i - 1);
      BackfillGrows(count, ss[i - 1], ss[i], steps[i - 1]);
    }
  }

  lemma BackfillGrows(count: nat, s: State, s': State, step: Step)
    requires Inv(count, s) && Next(count, s, s', step)
    ensures s.backfill <= s'.backfill
  {
    hide Overlay, Replay, GoodLog, ReaderOk, Caught, WritePage;
  }

  lemma CaughtUp(s: State)
    requires Caught(s)
    ensures s.backfill <= |s.log|
    ensures s.backfill == |s.log| ==> Contents(s.main) + Overlay(s.log) == Contents(s.main)
  {
    hide Overlay;
    if s.backfill == |s.log| {
      assert s.log[..|s.log|] == s.log;
      forall p: u32 | p in Overlay(s.log) ensures p in Contents(s.main) && Contents(s.main)[p] == Overlay(s.log)[p] {
        assert Has(s.main, p) && Current(s, p);
      }
    }
  }

  // ------------------------------------------------------------- when a view changes

  /** Copying the next page changes nothing for reader `r`: its overlay has the page, or
      the main file already held that content. */
  ghost predicate Unnoticed(s: State, r: nat)
    requires r in s.readers && s.readers[r].Loaded? && s.copy.Some? && s.copy.value.Copying? && s.copy.value.todo != []
  {
    var p := s.copy.value.todo[0];
    p in s.readers[r].overlay || (Has(s.main, p) && p in s.copy.value.pages && s.main[p - 1] == s.copy.value.pages[p])
  }

  /** The reader is open, and the same reader, from state `i` to state `j`. */
  ghost predicate OpenFrom(ss: seq<State>, r: nat, i: nat, j: nat)
  {
    && i <= j < |ss| && r in ss[i].readers && ss[i].readers[r].Loaded?
    && forall k :: i <= k <= j ==> r in ss[k].readers && ss[k].readers[r] == ss[i].readers[r]
  }

  ghost predicate NoticesNothing(ss: seq<State>, steps: seq<Step>, r: nat, i: nat, j: nat)
    requires OpenFrom(ss, r, i, j) && |ss| == |steps| + 1
  {
    forall k :: i <= k < j && steps[k].CopyStep? ==>
      ss[k].copy.Some? && ss[k].copy.value.Copying? && ss[k].copy.value.todo != [] && Unnoticed(ss[k], r)
  }

  ghost predicate SeesTheSame(ss: seq<State>, r: nat, i: nat, j: nat)
    requires OpenFrom(ss, r, i, j)
  {
    forall k :: i <= k <= j ==> Sees(ss[k], r) == Sees(ss[i], r)
  }

  /** Whatever mark it pinned, a reader sees the same pages throughout if and only if every
      page copied meanwhile was in its overlay or already the same. */
  lemma ViewKeptIff(count: nat, ss: seq<State>, steps: seq<Step>, r: nat, i: nat, j: nat)
    requires Run(count, ss, steps) && OpenFrom(ss, r, i, j)
    ensures SeesTheSame(ss, r, i, j) <==> NoticesNothing(ss, steps, r, i, j)
  {
    hide Next, Init, Sees, Unnoticed, Inv;
    if SeesTheSame(ss, r, i, j) {
      forall k | i <= k < j && steps[k].CopyStep?
        ensures ss[k].copy.Some? && ss[k].copy.value.Copying? && ss[k].copy.value.todo != [] && Unnoticed(ss[k], r)
      {
        InvRun(count, ss, steps, k);
        StepSeen(count, ss[k], ss[k + 1], steps[k], r);
      }
    }
    if NoticesNothing(ss, steps, r, i, j) {
      forall k | i <= k <= j ensures Sees(ss[k], r) == Sees(ss[i], r) { StillSees(count, ss, steps, r, i, j, k); }
    }
  }

  lemma {:induction false} StillSees(count: nat, ss: seq<State>, steps: seq<Step>, r: nat, i: nat, j: nat, k: nat)
    requires Run(count, ss, steps) && OpenFrom(ss, r, i, j) && NoticesNothing(ss, steps, r, i, j) && i <= k <= j
    ensures Sees(ss[k], r) == Sees(ss[i], r)
  {
    hide Next, Init, Sees, Unnoticed, Inv;
    if i < k {
      StillSees(count, ss, steps, r, i, j, k - 1);
      InvRun(count, ss, steps, k - 1);
      StepSeen(count, ss[k - 1], ss[k], steps[k - 1], r);
    }
  }

  lemma StepSeen(count: nat, s: State, s': State, step: Step, r: nat)
    requires Inv(count, s) && Next(count, s, s', step)
    requires r in s.readers && s.readers[r].Loaded? && r in s'.readers && s'.readers[r] == s.readers[r]
    ensures step.CopyStep? ==> s.copy.Some? && s.copy.value.Copying? && s.copy.value.todo != []
    ensures Sees(s', r) == Sees(s, r) <==> !step.CopyStep? || Unnoticed(s, r)
  {
    hide Inv, Next, WritePage, Contents;
    if step.CopyStep? {
      CopySeen(count, s, s', r);
    } else {
      MainKept(count, s, s', step);
    }
  }

  lemma MainKept(count: nat, s: State, s': State, step: Step)
    requires Next(count, s, s', step) && !step.CopyStep?
    ensures s'.main == s.main
  {
    hide Replay, Admissible, Ascending;
  }

  lemma CopySeen(count: nat, s: State, s': State, r: nat)
    requires Inv(count, s) && Next(count, s, s', CopyStep)
    requires r in s.readers && s.readers[r].Loaded? && r in s'.readers && s'.readers[r] == s.readers[r]
    ensures s.copy.Some? && s.copy.value.Copying? && s.copy.value.todo != []
    ensures Sees(s', r) == Sees(s, r) <==> Unnoticed(s, r)
  {
    hide Overlay, GoodLog, ReaderOk, Caught, WritePage, Contents;
    var c := s.copy.value;
    CopyIsAdjacent(s.main, c.todo);
    WriteSeen(s.main, c.todo[0], c.pages[c.todo[0]], s.readers[r].overlay);
  }

  lemma WriteSeen(main: seq<Page>, p: u32, page: Page, overlay: PageMap)
    requires 1 <= p <= |main| + 1
    ensures Contents(WritePage(main, p, page)) + overlay == Contents(main) + overlay
       <==> p in overlay || (Has(main, p) && main[p - 1] == page)
  {
    var before, after := Contents(main) + overlay, Contents(WritePage(main, p, page)) + overlay;
    assert forall n: u32 :: Has(WritePage(main, p, page), n) <==> Has(main, n) || n == p;
    if p in overlay || (Has(main, p) && main[p - 1] == page) {
      assert after == before;
    } else {
      assert p in after && after[p] == page;
    }
  }

  // -------------------------------------------------------- isolation in every future

  /** A continuation of `s` in which reader `r` stays open. */
  ghost predicate Future(count: nat, s: State, r: nat, ss: seq<State>, steps: seq<Step>)
    requires r in s.readers
  {
    ss != [] && Path(count, ss, steps) && ss[0] == s && forall k :: 0 <= k < |ss| ==> r in ss[k].readers && ss[k].readers[r] == s.readers[r]
  }

  ghost predicate IsolatedForever(count: nat, s: State, r: nat)
    requires r in s.readers && s.readers[r].Loaded?
  {
    forall ss, steps :: Future(count, s, r, ss, steps) ==> Sees(ss[|ss| - 1], r) == Sees(s, r)
  }

  ghost predicate CoversAllPages(overlay: PageMap) { forall p: u32 :: p >= 1 ==> p in overlay }

  /** In every reachable state: nothing that may still happen changes what an open reader
      sees if and only if it pinned a nonzero mark, or its overlay leaves no page to the
      main file. */
  lemma IsolatedIff(count: nat, s: State, r: nat)
    requires Inv(count, s) && r in s.readers && s.readers[r].Loaded?
    ensures IsolatedForever(count, s, r) <==> s.readers[r].mark > 0 || CoversAllPages(s.readers[r].overlay)
  {
    hide Inv, Path, CoversAllPages, Sees;
    if s.readers[r].mark > 0 || CoversAllPages(s.readers[r].overlay) {
      forall ss, steps | Future(count, s, r, ss, steps) ensures Sees(ss[|ss| - 1], r) == Sees(s, r) {
        FutureInv(count, ss, steps, |ss| - 1);
        if s.readers[r].mark > 0 {
          SeesWhatItSaw(count, s, r);
          SeesWhatItSaw(count, ss[|ss| - 1], r);
        } else {
          SeesItsOverlay(s, r);
          SeesItsOverlay(ss[|ss| - 1], r);
        }
      }
    } else {
      var p := Uncovered(s.readers[r].overlay);
      var ss, steps := Disturb(count, s, r, p);
      assert Future(count, s, r, ss, steps);
    }
  }

  lemma {:induction false} FutureInv(count: nat, ss: seq<State>, steps: seq<Step>, i: nat)
    requires Path(count, ss, steps) && Inv(count, ss[0]) && i < |ss|
    ensures Inv(count, ss[i])
  {
    hide Inv, Next;
    if i > 0 {
      FutureInv(count, ss, steps, i - 1);
      InvNext(count, ss[i - 1], ss[i], steps[i - 1]);
    }
  }

  lemma SeesWhatItSaw(count: nat, s: State, r: nat)
    requires Inv(count, s) && r in s.readers && s.readers[r].Loaded? && s.readers[r].mark > 0
    ensures Sees(s, r) == s.readers[r].seen
  {
    hide GoodLog, CopyOk, Caught, Overlay;
    assert ReaderOk(s, s.readers[r]);
  }

  lemma SeesItsOverlay(s: State, r: nat)
    requires r in s.readers && s.readers[r].Loaded? && CoversAllPages(s.readers[r].overlay)
    ensures Sees(s, r) == s.readers[r].overlay
  {
    forall p | p in Contents(s.main) ensures p in s.readers[r].overlay { assert Has(s.main, p); }
  }

  lemma Uncovered(overlay: PageMap) returns (p: u32)
    requires !CoversAllPages(overlay)
    ensures p >= 1 && p !in overlay
  {
    p :| p >= 1 && p !in overlay;
  }

  // ------------------------------------------------------ disturbing a mark-0 reader

  /** One more step of a future. */
  lemma FutureSnoc(count: nat, s: State, r: nat, ss: seq<State>, steps: seq<Step>, s': State, step: Step)
    requires r in s.readers && Future(count, s, r, ss, steps) && Next(count, ss[|ss| - 1], s', step)
    requires r in s'.readers && s'.readers[r] == s.readers[r]
    ensures Future(count, s, r, ss + [s'], steps + [step])
  {
    hide Next;
    var ts, us := ss + [s'], steps + [step];
    forall i | 0 <= i < |us| ensures Next(count, ts[i], ts[i + 1], us[i]) {
      if i < |steps| { assert ts[i] == ss[i] && ts[i + 1] == ss[i + 1] && us[i] == steps[i]; }
    }
  }

  lemma NoStep(count: nat, s: State, r: nat)
    requires r in s.readers
    ensures Future(count, s, r, [s], [])
  {
  }

  /** The last state of a future. */
  function Last(ss: seq<State>): State
    requires ss != []
  {
    ss[|ss| - 1]
  }

  /** Every other reader closes, and a checkpoint under way is abandoned. */
  lemma {:induction false} CloseOthers(count: nat, s: State, r: nat, ss: seq<State>, steps: seq<Step>)
      returns (ss': seq<State>, steps': seq<Step>)
    requires r in s.readers && Future(count, s, r, ss, steps)
    ensures Future(count, s, r, ss', steps')
    ensures Last(ss') == Last(ss).(readers := map[r := s.readers[r]], copy := None)
    decreases Last(ss).readers.Keys
  {
    hide Path;
    var t := Last(ss);
    if q :| q in t.readers && q != r {
      var t' := t.(readers := t.readers - {q});
      FutureSnoc(count, s, r, ss, steps, t', CloseStep(q));
      assert q in t.readers.Keys && q !in t'.readers.Keys;
      ss', steps' := CloseOthers(count, s, r, ss + [t'], steps + [CloseStep(q)]);
    } else {
      assert t.readers.Keys == {r};
      assert t.readers == map[r := s.readers[r]];
      ss', steps' := ss, steps;
      if t.copy.Some? {
        var t' := t.(copy := None);
        FutureSnoc(count, s, r, ss, steps, t', AbortStep);
        ss', steps' := ss + [t'], steps + [AbortStep];
      }
    }
  }

  /** The checkpoint copies everything it planned to. */
  lemma {:induction false} CopyRest(count: nat, s: State, r: nat, ss: seq<State>, steps: seq<Step>)
      returns (ss': seq<State>, steps': seq<Step>)
    requires Inv(count, s) && r in s.readers && Future(count, s, r, ss, steps)
    requires Last(ss).copy.Some? && Last(ss).copy.value.Copying?
    ensures Future(count, s, r, ss', steps') && Inv(count, Last(ss'))
    ensures Last(ss').log == Last(ss).log && Last(ss').copy == Some(Last(ss).copy.value.(todo := []))
    decreases |Last(ss).copy.value.todo|
  {
    hide Path, Inv, WritePage;
    var t := Last(ss);
    FutureInv(count, ss, steps, |ss| - 1);
    if t.copy.value.todo == [] {
      return ss, steps;
    }
    var t' := CopyOne(count, t);
    FutureSnoc(count, s, r, ss, steps, t', CopyStep);
    ss', steps' := CopyRest(count, s, r, ss + [t'], steps + [CopyStep]);
  }

  lemma CopyOne(count: nat, s: State) returns (s': State)
    requires Inv(count, s) && s.copy.Some? && s.copy.value.Copying? && s.copy.value.todo != []
    ensures Next(count, s, s', CopyStep) && s'.readers == s.readers && s'.log == s.log
    ensures s'.copy == Some(s.copy.value.(todo := s.copy.value.todo[1..]))
  {
    hide Overlay, GoodLog, ReaderOk, Caught, WritePage, NoGaps;
    var c := s.copy.value;
    s' := s.(main := WritePage(s.main, c.todo[0], c.pages[c.todo[0]]), copy := Some(c.(todo := c.todo[1..])));
  }

  /** A page that differs in its last byte. */
  function Touched(page: Page): (r: Page)
    requires page != []
    ensures |r| == |page| && r != page
  {
    var last: int := page[|page| - 1];
    page[|page| - 1 := (last + 1) % 256]
  }

  /** Zero pages for the numbers after `from`, up to `n`, that the log does not have. */
  function Missing(fs: seq<Frame>, from: nat, n: nat, pageSize: nat): (ps: seq<(u32, Page)>)
    requires n <= U32_MAX
    ensures forall w :: w in ps ==> from < w.0 <= n && |w.1| == pageSize
  {
    if n <= from then []
    else Missing(fs, from, n - 1, pageSize) + if n in Overlay(fs) then [] else [(n, Zeros(pageSize))]
  }

  lemma {:induction false} MissingWrites(fs: seq<Frame>, from: nat, n: nat, pageSize: nat)
    requires n <= U32_MAX
    ensures forall k: u32 :: from < k <= n && k !in Overlay(fs) ==> k in Written(Missing(fs, from, n, pageSize))
    ensures forall k: u32 :: k in Written(Missing(fs, from, n, pageSize)) ==> from < k <= n
  {
    hide Overlay, Written;
    if n <= from {
      assert Written([]) == map[] by { NoneWritten(); }
    } else {
      var before := Missing(fs, from, n - 1, pageSize);
      MissingWrites(fs, from, n - 1, pageSize);
      WrittenSnoc(before, n, Zeros(pageSize));
      assert before + [] == before;
    }
  }

  lemma NoneWritten()
    ensures Written([]) == map[]
  {
  }

  lemma WrittenSnoc(ps: seq<(u32, Page)>, p: u32, page: Page)
    ensures Written(ps + [(p, page)]) == Written(ps)[p := page]
  {
    assert (ps + [(p, page)])[..|ps|] == ps;
  }

  /** Page `p` rewritten, and the pages missing before it made. */
  lemma RewriteAdmissible(fs: seq<Frame>, count: nat, from: nat, p: u32, page: Page, pageSize: nat) returns (t: Txn)
    requires p >= 1 && count <= from <= U32_MAX && |page| == pageSize
    requires forall n: u32 :: count < n <= from ==> n in Overlay(fs)
    ensures Admissible(t, fs, count) && forall w :: w in t.pages ==> |w.1| == pageSize
    ensures p in Written(t.pages) && Written(t.pages)[p] == page
    ensures forall k: u32 :: k in Written(t.pages) && k != p ==> from < k < p
  {
    hide Overlay, Written;
    var size := SizeWith(fs, count, p);
    var gap := Missing(fs, from, p - 1, pageSize);
    t := Txn(gap + [(p, page)], size);
    MissingWrites(fs, from, p - 1, pageSize);
    WrittenSnoc(gap, p, page);
  }

  /** Pages in ascending order. */
  lemma {:induction false} InOrder(ks: set<u32>) returns (o: seq<u32>)
    ensures Ascending(o) && forall k :: k in o <==> k in ks
    decreases ks
  {
    if ks == {} {
      return [];
    }
    var top := Greatest(ks);
    o := InOrder(ks - {top});
    assert forall i :: 0 <= i < |o| ==> o[i] in o;
    o := o + [top];
  }

  lemma {:induction false} Greatest(ks: set<u32>) returns (m: u32)
    requires ks != {}
    ensures m in ks && forall k :: k in ks ==> k <= m
    decreases ks
  {
    var k :| k in ks;
    var rest := ks - {k};
    assert ks == rest + {k};
    m := k;
    if rest != {} {
      var n := Greatest(rest);
      m := if n > k then n else k;
    }
  }

  lemma PlanAll(count: nat, s: State) returns (s': State, todo: seq<u32>)
    requires s.copy == Some(LogRead(|s.log|)) && s.backfill < |s.log| && forall m :: m in Marks(s) ==> m == 0
    ensures Next(count, s, s', PlanStep(|s.log|, todo)) && s' == s.(copy := s'.copy)
    ensures s'.copy.Some? && s'.copy.value.Copying? && s'.copy.value.safe == |s.log|
  {
    hide Replay;
    var view := Replay(s.log[..|s.log|], EMPTY_VIEW);
    todo := InOrder(set p: u32 | p in view.committed && InRange(p, view.size, |s.main|));
    s' := s.(copy := Some(Copying(|s.log|, todo, view.committed)));
  }

  /** A future in which page `p`, which the reader takes from the main file, changes there. */
  lemma Disturb(count: nat, s: State, r: nat, p: u32) returns (ss: seq<State>, steps: seq<Step>)
    requires Inv(count, s) && r in s.readers && s.readers[r].Loaded? && s.readers[r].mark == 0
    requires p >= 1 && p !in s.readers[r].overlay
    ensures Future(count, s, r, ss, steps) && Sees(Last(ss), r) != Sees(s, r)
  {
    hide Inv, Path, Replay, Overlay, Written, Contents;
    var page: Page := NewContent(count, s, p);
    NoStep(count, s, r);
    ss, steps := CloseOthers(count, s, r, [s], []);
    var s1 := Last(ss);
    var t, s2 := CommitOver(count, s, s1, p, page);
    FutureSnoc(count, s, r, ss, steps, s2, AppendStep(t));
    ss, steps := ss + [s2], steps + [AppendStep(t)];
    var s3 := s2.(copy := Some(LogRead(|s2.log|)));
    FutureSnoc(count, s, r, ss, steps, s3, ReadLogStep);
    ss, steps := ss + [s3], steps + [ReadLogStep];
    var s4, todo := PlanAll(count, s3);
    FutureSnoc(count, s, r, ss, steps, s4, PlanStep(|s3.log|, todo));
    ss, steps := ss + [s4], steps + [PlanStep(|s3.log|, todo)];
    ss, steps := CopyRest(count, s, r, ss, steps);
    CopiedThere(count, Last(ss), p, page);
    DiffersAt(s, Last(ss), r, p, page);
  }

  /** The page with its last byte changed, or a zero page if the file does not have it. */
  lemma NewContent(count: nat, s: State, p: u32) returns (page: Page)
    requires Inv(count, s) && p >= 1
    ensures |page| == s.pageSize && (Has(s.main, p) ==> s.main[p - 1] != page)
  {
    hide GoodLog, ReaderOk, CopyOk, Caught, Overlay;
    page := Zeros(s.pageSize);
    if Has(s.main, p) {
      assert s.main[p - 1] in s.main;
      page := Touched(s.main[p - 1]);
    }
  }

  /** What the writer appends. */
  lemma CommitOver(count: nat, s: State, s1: State, p: u32, page: Page) returns (t: Txn, s2: State)
    requires Inv(count, s) && |page| == s.pageSize && s1 == s.(readers := s1.readers, copy := None) && p >= 1
    ensures Next(count, s1, s2, AppendStep(t)) && s2 == s1.(log := s2.log, truth := s2.truth)
    ensures s2.backfill < |s2.log| && p in Overlay(s2.log) && Overlay(s2.log)[p] == page
  {
    hide GoodLog, ReaderOk, CopyOk, Overlay, Written, FramesOf, Admissible;
    t := RewriteAdmissible(s.log, count, |s.main|, p, page, s.pageSize);
    AdmissibleCommits(t, s.log, count);
    FrameMembers(t);
    OverlayAppend(s.log, FramesOf(t));
    s2 := s1.(log := s1.log + FramesOf(t), truth := s1.truth + Written(t.pages));
    assert |FramesOf(t)| > 0;
  }

  lemma AdmissibleCommits(t: Txn, fs: seq<Frame>, count: nat)
    requires Admissible(t, fs, count)
    ensures Committing(t)
  {
    hide Overlay, Written;
  }

  /** The database is as large as it was, or just large enough. */
  lemma SizeWith(fs: seq<Frame>, count: nat, p: u32) returns (size: u32)
    requires count <= U32_MAX
    ensures size == Max(p, SizeOf(fs, count))
  {
    size := Max(p, SizeOf(fs, count));
  }

  lemma CopiedThere(count: nat, s: State, p: u32, page: Page)
    requires Inv(count, s) && s.copy.Some? && s.copy.value.Copying? && s.copy.value.todo == [] && s.copy.value.safe == |s.log|
    requires p in Overlay(s.log) && Overlay(s.log)[p] == page
    ensures Has(s.main, p) && s.main[p - 1] == page
  {
    hide GoodLog, ReaderOk, Caught, Overlay;
    assert s.log[..|s.log|] == s.log;
    assert p in s.copy.value.pages && p !in s.copy.value.todo;
  }

  lemma DiffersAt(s: State, s': State, r: nat, p: u32, page: Page)
    requires r in s.readers && s.readers[r].Loaded? && r in s'.readers && s'.readers[r] == s.readers[r] && p !in s.readers[r].overlay
    requires Has(s.main, p) ==> s.main[p - 1] != page
    requires Has(s'.main, p) && s'.main[p - 1] == page
    ensures Sees(s', r) != Sees(s, r)
  {
    assert p in Sees(s', r) && Sees(s', r)[p] == page;
    assert p in Sees(s, r) ==> Sees(s, r)[p] == s.main[p - 1];
  }

  // ------------------------------------------------------- readers with mark zero

  /** A one-page database in which page 1 changes from `a` to `b` while reader 7, which
      pinned mark 0 on the empty log, is open. */
  function ZeroMarkRun(a: Page, b: Page): (ss: seq<State>)
    requires |a| <= U32_MAX
    ensures |ss| == 8
  {
    var s0 := State(|a|, [a], [], 0, 0, map[], None, map[1 := a]);
    var s1 := s0.(readers := map[7 := Pinned(0)]);
    var s2 := s1.(readers := map[7 := Loaded(0, 0, map[], map[1 := a])]);
    var s3 := s2.(log := [Frame(1, 1, b)], truth := map[1 := b]);
    var s4 := s3.(mxFrame := 1);
    var s5 := s4.(copy := Some(LogRead(1)));
    var s6 := s5.(copy := Some(Copying(1, [1], map[1 := b])));
    var s7 := s6.(main := [b], copy := Some(Copying(1, [], map[1 := b])));
    [s0, s1, s2, s3, s4, s5, s6, s7]
  }

  /** The code lets such a reader pin mark 0 and does not let it bound a checkpoint, so
      isolation fails for it. */
  lemma ZeroMarkReaderMoves(a: Page, b: Page)
    requires |a| == |b| <= U32_MAX && ValidPageSize(|a|) && a != b
    ensures var ss := ZeroMarkRun(a, b);
            var t := Txn([(1, b)], 1);
            && Run(1, ss, [PinStep(7), LoadStep(7), AppendStep(t), PublishStep, ReadLogStep, PlanStep(1, [1]), CopyStep])
            && 7 in ss[2].readers && ss[2].readers[7].Loaded? && 7 in ss[7].readers && ss[7].readers[7].Loaded?
            && Sees(ss[2], 7) != Sees(ss[7], 7)
  {
    hide Init, Pin, Load, Append, Publish, ReadLog, Plan, CopyPage;
    var ss := ZeroMarkRun(a, b);
    ZeroMarkOpens(a, b);
    ZeroMarkCommits(a, b);
    ZeroMarkCopies(a, b);
    assert Sees(ss[2], 7)[1] == a && Sees(ss[7], 7)[1] == b;
  }

  lemma ZeroMarkOpens(a: Page, b: Page)
    requires |a| == |b| <= U32_MAX && ValidPageSize(|a|)
    ensures var ss := ZeroMarkRun(a, b); Init(1, ss[0]) && Pin(ss[0], ss[1], 7) && Load(ss[1], ss[2], 7)
  {
    assert Contents([a]) == map[1 := a];
    assert map[1 := a] + map[] == map[1 := a];
  }

  lemma ZeroMarkCommits(a: Page, b: Page)
    requires |a| == |b| <= U32_MAX && ValidPageSize(|a|)
    ensures var ss := ZeroMarkRun(a, b);
            Append(1, ss[2], ss[3], Txn([(1, b)], 1)) && Publish(ss[3], ss[4])
  {
    var t := Txn([(1, b)], 1);
    assert t.pages[..0] == [];
    assert Written(t.pages) == map[1 := b];
    assert FramesOf(t) == [Frame(1, 1, b)];
    assert map[1 := a] + map[1 := b] == map[1 := b];
    assert Admissible(t, [], 1);
  }

  lemma ZeroMarkCopies(a: Page, b: Page)
    requires |a| == |b| <= U32_MAX && ValidPageSize(|a|)
    ensures var ss := ZeroMarkRun(a, b); ReadLog(ss[4], ss[5]) && Plan(ss[5], ss[6], 1, [1]) && CopyPage(ss[6], ss[7])
  {
    var ss := ZeroMarkRun(a, b);
    var f := Frame(1, 1, b);
    assert ss[5].log[..1] == [f] && [f][1..] == [];
    assert Replay([f], EMPTY_VIEW) == View(map[1 := b], map[1 := b], 1);
    assert forall m :: m in Marks(ss[5]) ==> m == 0;
    assert [1][1..] == [];
    assert WritePage([a], 1, b) == [b];
  }
}
