/** Commits through the log across sessions: what a reader finds afterwards, and
    what resuming after uncommitted frames does. */
module WalSessions {
  import opened Bytes
  import opened Vfs
  import opened Wal
  import opened WalWriter

  /** The dirty pages of one commit in the order they are appended, and the page
      count the last frame carries. */
  datatype Txn = Txn(pages: seq<(u32, Page)>, dbSize: u32)

  predicate Committing(t: Txn) { t.pages != [] && t.dbSize != 0 }

  /** Only the last frame carries the commit size. */
  function FramesOf(t: Txn): (fs: seq<Frame>)
    ensures |fs| == |t.pages|
  {
    seq(|t.pages|, i requires 0 <= i < |t.pages| =>
      Frame(t.pages[i].0, if i == |t.pages| - 1 then t.dbSize else 0, t.pages[i].1))
  }

  function AllFrames(ts: seq<Txn>): seq<Frame>
  {
    if ts == [] then [] else AllFrames(ts[..|ts| - 1]) + FramesOf(ts[|ts| - 1])
  }

  /** The pages a transaction writes, a later write of the same page winning. */
  function Written(pages: seq<(u32, Page)>): PageMap
  {
    if pages == [] then map[]
    else Written(pages[..|pages| - 1])[pages[|pages| - 1].0 := pages[|pages| - 1].1]
  }

  /** Transactions applied one after another to an empty overlay. */
  function Applied(ts: seq<Txn>): PageMap
  {
    if ts == [] then map[] else Applied(ts[..|ts| - 1]) + Written(ts[|ts| - 1].pages)
  }

  lemma {:induction false} OverlayIsWritten(fs: seq<Frame>, pages: seq<(u32, Page)>)
    requires |fs| == |pages|
    requires forall i :: 0 <= i < |fs| ==> fs[i].page == pages[i].0 && fs[i].content == pages[i].1
    ensures Overlay(fs) == Written(pages)
  {
    if fs != [] {
      OverlayIsWritten(fs[..|fs| - 1], pages[..|pages| - 1]);
    }
  }

  /** A log holding whole transactions reads back as those transactions applied in
      order, with the size the last one recorded. */
  lemma {:induction false} TransactionsReadBack(ts: seq<Txn>)
    requires forall t :: t in ts ==> Committing(t)
    ensures CommitEnd(AllFrames(ts)) == |AllFrames(ts)|
    ensures Overlay(AllFrames(ts)) == Applied(ts)
    ensures Replay(AllFrames(ts), EMPTY_VIEW).committed == Applied(ts)
    ensures ts != [] ==> Replay(AllFrames(ts), EMPTY_VIEW).size == ts[|ts| - 1].dbSize
  {
    var fs := AllFrames(ts);
    if ts != [] {
      var init, last := ts[..|ts| - 1], ts[|ts| - 1];
      assert last in ts && forall t :: t in init ==> t in ts;
      TransactionsReadBack(init);
      OverlayAppend(AllFrames(init), FramesOf(last));
      OverlayIsWritten(FramesOf(last), last.pages);
      assert fs[|fs| - 1] == FramesOf(last)[|last.pages| - 1];
    }
    CommittedIsOverlay(fs);
    assert fs[..|fs|] == fs;
  }

  /** One commit: reopen (by hint or rescan), append every page, sync only at Full,
      and keep a hint for the next commit. */
  method Commit(file: File, pageSize: u32, hint: Option<ResumeHint>, t: Txn, full: bool,
                ghost h: WalHeader, ghost fs: seq<Frame>)
    returns (hint': ResumeHint, mxFrame: nat)
    requires HoldsFrames(file.bytes, h, fs) && h.pageSize == pageSize
    requires hint.Some? ==> Truthful(hint.value, file.bytes, h, fs)
    requires forall p :: p in t.pages ==> |p.1| == pageSize
    modifies file
    ensures full ==> HoldsFrames(file.bytes, h, fs + FramesOf(t))
    ensures full ==> Truthful(hint', file.bytes, h, fs + FramesOf(t))
    ensures !full ==> file.bytes == old(file.bytes)
    ensures full && |old(file.bytes)| == HEADER_LEN + Span(|fs|, FrameSize(h)) ==>
              |file.bytes| == HEADER_LEN + Span(|fs + FramesOf(t)|, FrameSize(h))
    ensures mxFrame == |fs + FramesOf(t)|
  {
    hide HoldsFrames, Encode, SumOf, ParseHeader, Span;
    var reopened := Writer.OpenExisting(file, pageSize, hint, h, fs);
    var w := reopened.value;
    for i := 0 to |t.pages|
      invariant w.Valid() && w.file == file && w.header == h && fresh(w)
      invariant w.written == fs && w.queued == FramesOf(t)[..i] && file.bytes == old(file.bytes)
    {
      assert t.pages[i] in t.pages;
      w.AppendFrame(t.pages[i].0, t.pages[i].1, if i == |t.pages| - 1 then t.dbSize else 0);
      assert FramesOf(t)[..i + 1] == FramesOf(t)[..i] + [FramesOf(t)[i]];
    }
    assert FramesOf(t)[..|t.pages|] == FramesOf(t);
    if full {
      SpanAdd(|fs|, |FramesOf(t)|, FrameSize(h));
      w.Sync();
      assert w.written + w.queued == fs + FramesOf(t);
      HeaderPrefix(file.bytes, h, fs + FramesOf(t));
    }
    hint' := w.Hint();
    mxFrame := w.FrameCount();
  }

  /** Any number of sessions at Full, each free to reuse the cached hint or to drop
      it, started on a fresh log: the file holds every transaction, in order. */
  method RunSessions(file: File, header: WalHeader, ts: seq<Txn>, keepHint: seq<bool>) returns (pages: PageMap, size: u32)
    requires ValidHeader(header) && |keepHint| == |ts|
    requires |file.bytes| >= HEADER_LEN ==> StaleTail(header, file.bytes[HEADER_LEN..])
    requires forall t :: t in ts ==> Committing(t)
    requires forall t, p :: t in ts && p in t.pages ==> |p.1| == header.pageSize
    modifies file
    ensures pages == Applied(ts) && (ts != [] ==> size == ts[|ts| - 1].dbSize)
  {
    hide HoldsFrames, Truthful, ParseHeader, Replay, Scan, Applied, FramesOf, Encode, Serialize, ValidHeader, StaleTail;
    var w := Writer.Create(file, header);
    var hint: Option<ResumeHint> := None;
    for i := 0 to |ts|
      invariant HoldsFrames(file.bytes, header, AllFrames(ts[..i]))
      invariant hint.Some? ==> Truthful(hint.value, file.bytes, header, AllFrames(ts[..i]))
    {
      assert ts[i] in ts && ts[..i + 1][..i] == ts[..i];
      var next, mx := Commit(file, header.pageSize, if keepHint[i] then hint else None, ts[i], true,
                             header, AllFrames(ts[..i]));
      hint := Some(next);
    }
    assert ts[..|ts|] == ts;
    CleanLogScans(file.bytes, header, AllFrames(ts));
    TransactionsReadBack(ts);
    var parsed := ParseHeader(file.bytes);
    pages, size := CommittedPages(parsed.value, file.bytes);
  }

  // ------------------------------------------------ resuming after a torn commit

  /** What a reader should find after `t` commits on a log holding `fs`: the pages
      committed before, then those of `t`. */
  function Expected(fs: seq<Frame>, t: Txn): PageMap
  {
    Overlay(fs[..CommitEnd(fs)]) + Written(t.pages)
  }

  /** Resuming keeps uncommitted frames. The next commit is exactly its own
      transaction if and only if every page a leftover frame changed is either
      written again by it or left with its committed content. */
  lemma ResumeAbsorbsLeftovers(fs: seq<Frame>, t: Txn)
    requires Committing(t)
    ensures Replay(fs + FramesOf(t), EMPTY_VIEW).committed == Overlay(fs) + Written(t.pages)
    ensures Replay(fs + FramesOf(t), EMPTY_VIEW).committed == Expected(fs, t)
       <==> forall p :: p !in Written(t.pages) ==> Lookup(Overlay(fs), p) == Lookup(Overlay(fs[..CommitEnd(fs)]), p)
    ensures CommitEnd(fs) == |fs| ==> Replay(fs + FramesOf(t), EMPTY_VIEW).committed == Expected(fs, t)
  {
    hide Replay, Overlay, Written;
    var all := fs + FramesOf(t);
    CommittedIsOverlay(all);
    assert all[|all| - 1] == FramesOf(t)[|t.pages| - 1];
    assert all[..|all|] == all;
    OverlayAppend(fs, FramesOf(t));
    OverlayIsWritten(FramesOf(t), t.pages);
    var got, want := Overlay(fs) + Written(t.pages), Expected(fs, t);
    var before := Overlay(fs[..CommitEnd(fs)]);
    if forall p :: p !in Written(t.pages) ==> Lookup(Overlay(fs), p) == Lookup(before, p) {
      forall p: u32 ensures Lookup(got, p) == Lookup(want, p) {
        assert p !in Written(t.pages) ==> Lookup(Overlay(fs), p) == Lookup(before, p);
      }
      SameLookups(got, want);
    } else {
      var p :| p !in Written(t.pages) && Lookup(Overlay(fs), p) != Lookup(before, p);
      assert Lookup(got, p) == Lookup(Overlay(fs), p) && Lookup(want, p) == Lookup(before, p);
    }
    assert CommitEnd(fs) == |fs| ==> fs[..CommitEnd(fs)] == fs;
  }

  lemma SameLookups(a: PageMap, b: PageMap)
    requires forall p :: Lookup(a, p) == Lookup(b, p)
    ensures a == b
  {
    forall p | p in a ensures p in b && a[p] == b[p] { assert Lookup(a, p) == Lookup(b, p); }
    forall p | p in b ensures p in a { assert Lookup(a, p) == Lookup(b, p); }
  }

  /** A crash that left one valid, uncommitted frame for page 2: the next commit,
      which writes page 3 only, publishes page 2 as well. */
  lemma LeftoverIsPublished(torn: Page, mine: Page)
    ensures var fs, t := [Frame(2, 0, torn)], Txn([(3, mine)], 3);
            && 2 !in Expected(fs, t)
            && Lookup(Replay(fs + FramesOf(t), EMPTY_VIEW).committed, 2) == Some(torn)
  {
    var fs, t := [Frame(2, 0, torn)], Txn([(3, mine)], 3);
    ResumeAbsorbsLeftovers(fs, t);
    assert fs[..0] == [] && CommitEnd(fs) == 0;
    assert t.pages[..0] == [];
  }

  // --------------------------------------------------------- a commit cut short

  lemma {:induction false} SameEnd(fs: seq<Frame>, gs: seq<Frame>)
    requires forall g :: g in gs ==> g.dbSize == 0
    ensures CommitEnd(fs + gs) == CommitEnd(fs)
  {
    if gs == [] {
      assert fs + gs == fs;
    } else {
      var n := |gs| - 1;
      assert gs[n] in gs && (fs + gs)[..|fs| + n] == fs + gs[..n];
      SameEnd(fs, gs[..n]);
    }
  }

  /** Frames without a commit after them change nothing. */
  lemma NoCommit(fs: seq<Frame>, gs: seq<Frame>)
    requires forall g :: g in gs ==> g.dbSize == 0
    ensures Replay(fs + gs, EMPTY_VIEW).committed == Replay(fs, EMPTY_VIEW).committed
    ensures Replay(fs + gs, EMPTY_VIEW).size == Replay(fs, EMPTY_VIEW).size
  {
    hide Replay, Overlay;
    SameEnd(fs, gs);
    assert (fs + gs)[..CommitEnd(fs)] == fs[..CommitEnd(fs)];
    CommittedIsOverlay(fs + gs);
    CommittedIsOverlay(fs);
  }

  /** The slot of size `s` that byte `k` falls into. */
  lemma {:induction false} SlotOf(k: nat, s: nat, n: nat) returns (m: nat)
    requires k < Span(n, s)
    ensures m < n && Span(m, s) <= k < Span(m, s) + s
  {
    if Span(n - 1, s) <= k {
      return n - 1;
    }
    m := SlotOf(k, s, n - 1);
  }

  /** The frames of a log to which only the first `k` bytes of the next frames were written:
      those complete. */
  lemma TornFrames(b: seq<byte>, h: WalHeader, fs: seq<Frame>, gs: seq<Frame>, k: nat) returns (m: nat)
    requires HoldsFrames(b, h, fs) && |b| == HEADER_LEN + Span(|fs|, FrameSize(h)) && Fits(h, gs)
    requires k < |Encode(h, SumOf(h, h.checksum, fs), gs)|
    ensures m < |gs|
    ensures var torn := b + Encode(h, SumOf(h, h.checksum, fs), gs)[..k];
            ParseHeader(torn) == Ok(h) && ScanFile(h, torn).frames == fs + gs[..m]
  {
    hide Encode, SumOf, ParseHeader, Scan, ValidHeader, Serialize, StaleTail, Span;
    var s, data := FrameSize(h), Encode(h, SumOf(h, h.checksum, fs), gs);
    m := SlotOf(k, s, |gs|);
    var torn := b + data[..k];
    HeaderRoundTrip(h, torn[HEADER_LEN..]);
    assert torn == Serialize(h) + torn[HEADER_LEN..] by { assert torn[..HEADER_LEN] == b[..HEADER_LEN]; }
    var whole := fs + gs[..m];
    WholeFrames(b, h, fs, gs, k, m);
    ScanReadsBack(h, torn, HEADER_LEN, h.checksum, whole);
    NothingFits(h, torn, HEADER_LEN + Span(|whole|, s), SumOf(h, h.checksum, whole));
    assert whole + [] == whole;
  }

  lemma WholeFrames(b: seq<byte>, h: WalHeader, fs: seq<Frame>, gs: seq<Frame>, k: nat, m: nat)
    requires HoldsFrames(b, h, fs) && |b| == HEADER_LEN + Span(|fs|, FrameSize(h)) && Fits(h, gs)
    requires k < |Encode(h, SumOf(h, h.checksum, fs), gs)| && m < |gs| && Span(m, FrameSize(h)) <= k < Span(m, FrameSize(h)) + FrameSize(h)
    ensures var torn, whole := b + Encode(h, SumOf(h, h.checksum, fs), gs)[..k], fs + gs[..m];
            var end := HEADER_LEN + Span(|whole|, FrameSize(h));
            && Fits(h, whole) && end <= |torn| < end + FrameSize(h)
            && torn[HEADER_LEN..end] == Encode(h, h.checksum, whole)
  {
    hide Encode, SumOf, ValidHeader, Serialize, StaleTail, Span;
    var s, data := FrameSize(h), Encode(h, SumOf(h, h.checksum, fs), gs);
    EncodePrefix(h, SumOf(h, h.checksum, fs), gs, m);
    EncodeAppend(h, h.checksum, fs, gs[..m]);
    FitsBoth(h, fs, gs[..m]);
    SpanAdd(|fs|, m, s);
    var torn, end := b + data[..k], HEADER_LEN + Span(|fs| + m, s);
    assert torn[HEADER_LEN..end] == b[HEADER_LEN..] + data[..Span(m, s)];
  }

  lemma NothingFits(h: WalHeader, b: seq<byte>, off: nat, running: Sum)
    requires off + FrameSize(h) > |b|
    ensures Scan(h, b, off, running) == Scanned([], off, running)
  {
  }

  /** A crash that cuts the one write of a commit short, at any byte, leaves a log that
      reads back as the commit before. */
  lemma TornSync(b: seq<byte>, h: WalHeader, fs: seq<Frame>, t: Txn, k: nat)
    requires HoldsFrames(b, h, fs) && |b| == HEADER_LEN + Span(|fs|, FrameSize(h))
    requires (forall p :: p in t.pages ==> |p.1| == h.pageSize) && k < |Encode(h, SumOf(h, h.checksum, fs), FramesOf(t))|
    ensures var torn := WriteAt(b, |b|, Encode(h, SumOf(h, h.checksum, fs), FramesOf(t))[..k]);
            && ParseHeader(torn) == Ok(h)
            && var now, was := Replay(ScanFile(h, torn).frames, EMPTY_VIEW), Replay(fs, EMPTY_VIEW);
               now.committed == was.committed && now.size == was.size
  {
    hide Encode, SumOf, ParseHeader, Scan, HoldsFrames, Replay, Span;
    var gs := FramesOf(t);
    var data := Encode(h, SumOf(h, h.checksum, fs), gs);
    forall f | f in gs ensures |f.content| == h.pageSize {
      var i :| 0 <= i < |gs| && gs[i] == f;
      assert t.pages[i] in t.pages;
    }
    WriteInside(b, |b|, data[..k]);
    assert b[..|b|] + data[..k] == b + data[..k];
    assert b + data[..k] + [] == b + data[..k];
    var m := TornFrames(b, h, fs, gs, k);
    NoCommit(fs, gs[..m]);
  }
}
