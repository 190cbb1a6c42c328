/** The write-ahead log as bytes: header, running checksum, frame scan, and the
    reader that merges committed frames with one live map and an undo log. */
module Wal {
  import opened Bytes

  const HEADER_LEN: nat := 32
  const FRAME_HEADER_LEN: nat := 24
  const FORMAT_VERSION: u32 := 3_007_000
  const MAGIC_NATIVE: u32 := 0x377f_0682
  const MAGIC_BIG_ENDIAN: u32 := 0x377f_0683

  /** Byte order of the host; nothing below depends on its value. */
  const LITTLE_ENDIAN_HOST: bool

  type Sum = (u32, u32)

  datatype WalError = HeaderTooShort(len: nat) | InvalidMagic(magic: u32)
                    | InvalidPageSize(pageSize: u32) | HeaderChecksumMismatch(stored: Sum, computed: Sum)

  datatype WalHeader = WalHeader(native: bool, pageSize: u32, salt1: u32, salt2: u32,
                                 formatVersion: u32, checkpointSeq: u32, checksum: Sum)

  // ---------------------------------------------------------------- checksum

  function ReadWord(native: bool, b: seq<byte>, at: nat): u32
    requires at + 4 <= |b|
  {
    if native && LITTLE_ENDIAN_HOST then LE32At(b, at) else U32At(b, at)
  }

  function WrappingAdd(a: u32, b: u32): u32 { (a + b) % 0x1_0000_0000 }

  /** One eight-byte chunk folded into the running pair. */
  function Mix(native: bool, b: seq<byte>, at: nat, s: Sum): Sum
    requires at + 8 <= |b|
  {
    var s1 := WrappingAdd(WrappingAdd(s.0, ReadWord(native, b, at)), s.1);
    (s1, WrappingAdd(WrappingAdd(s.1, ReadWord(native, b, at + 4)), s1))
  }

  /** The checksum of `b[at..]` continued from `s`; a partial last chunk is ignored. */
  function SumFrom(native: bool, b: seq<byte>, at: nat, s: Sum): Sum
    requires at <= |b|
    decreases |b| - at
  {
    if at + 8 <= |b| then SumFrom(native, b, at + 8, Mix(native, b, at, s)) else s
  }

  method Checksum(native: bool, data: seq<byte>, init: Sum) returns (s: Sum)
    ensures s == SumFrom(native, data, 0, init)
  {
    s := init;
    var at := 0;
    while at + 8 <= |data|
      invariant at <= |data|
      invariant SumFrom(native, data, at, s) == SumFrom(native, data, 0, init)
    {
      s := Mix(native, data, at, s);
      at := at + 8;
    }
  }

  // ------------------------------------------------------------------ header

  predicate ValidPageSize(n: u32)
  {
    n == 512 || n == 1024 || n == 2048 || n == 4096 || n == 8192 || n == 16384 || n == 32768 || n == 65536
  }

  /** The first 24 header bytes, the part the header checksum covers. */
  function Checksummed(h: WalHeader): (b: seq<byte>)
    ensures |b| == 24
  {
    BE32(if h.native then MAGIC_NATIVE else MAGIC_BIG_ENDIAN) + BE32(h.formatVersion) + BE32(h.pageSize)
    + BE32(h.checkpointSeq) + BE32(h.salt1) + BE32(h.salt2)
  }

  function Serialize(h: WalHeader): (b: seq<byte>)
    ensures |b| == HEADER_LEN
  {
    Checksummed(h) + BE32(h.checksum.0) + BE32(h.checksum.1)
  }

  function NewHeader(native: bool, pageSize: u32, salt1: u32, salt2: u32, checkpointSeq: u32): WalHeader
  {
    var h := WalHeader(native, pageSize, salt1, salt2, FORMAT_VERSION, checkpointSeq, (0, 0));
    h.(checksum := SumFrom(native, Checksummed(h), 0, (0, 0)))
  }

  function ParseHeader(b: seq<byte>): Result<WalHeader, WalError>
  {
    if |b| < HEADER_LEN then Err(HeaderTooShort(|b|)) else
    var magic := U32At(b, 0);
    if magic != MAGIC_NATIVE && magic != MAGIC_BIG_ENDIAN then Err(InvalidMagic(magic)) else
    var native := magic == MAGIC_NATIVE;
    var pageSize := U32At(b, 8);
    if !ValidPageSize(pageSize) then Err(InvalidPageSize(pageSize)) else
    var stored := (U32At(b, 24), U32At(b, 28));
    var computed := SumFrom(native, b[0..24], 0, (0, 0));
    if computed != stored then Err(HeaderChecksumMismatch(stored, computed)) else
    Ok(WalHeader(native, pageSize, U32At(b, 16), U32At(b, 20), U32At(b, 4), U32At(b, 12), stored))
  }

  /** A header any parse can return: legal page size and its own checksum. */
  predicate ValidHeader(h: WalHeader)
  {
    ValidPageSize(h.pageSize) && h.checksum == SumFrom(h.native, Checksummed(h), 0, (0, 0))
  }

  /** Whatever follows it, a serialized valid header parses back to itself. */
  lemma HeaderRoundTrip(h: WalHeader, rest: seq<byte>)
    requires ValidHeader(h)
    ensures ParseHeader(Serialize(h) + rest) == Ok(h)
  {
    var b := Serialize(h) + rest;
    var magic := if h.native then MAGIC_NATIVE else MAGIC_BIG_ENDIAN;
    assert b[0..4] == BE32(magic) by { assert Serialize(h)[0..4] == BE32(magic); }
    assert b[4..8] == BE32(h.formatVersion);
    assert b[8..12] == BE32(h.pageSize);
    assert b[12..16] == BE32(h.checkpointSeq);
    assert b[16..20] == BE32(h.salt1);
    assert b[20..24] == BE32(h.salt2);
    assert b[24..28] == BE32(h.checksum.0);
    assert b[28..32] == BE32(h.checksum.1);
    assert b[0..24] == Checksummed(h);
    ReadBack32(b, 0, magic);
    ReadBack32(b, 4, h.formatVersion);
    ReadBack32(b, 8, h.pageSize);
    ReadBack32(b, 12, h.checkpointSeq);
    ReadBack32(b, 16, h.salt1);
    ReadBack32(b, 20, h.salt2);
    ReadBack32(b, 24, h.checksum.0);
    ReadBack32(b, 28, h.checksum.1);
  }

  /** A fresh header with a legal page size is valid, so it survives the file. */
  lemma NewHeaderIsValid(native: bool, pageSize: u32, salt1: u32, salt2: u32, seqNo: u32)
    requires ValidPageSize(pageSize)
    ensures ValidHeader(NewHeader(native, pageSize, salt1, salt2, seqNo))
    ensures NewHeader(native, pageSize, salt1, salt2, seqNo).(checksum := (0, 0))
         == WalHeader(native, pageSize, salt1, salt2, 3_007_000, seqNo, (0, 0))
  {
    var h := NewHeader(native, pageSize, salt1, salt2, seqNo);
    assert Checksummed(h) == Checksummed(h.(checksum := (0, 0)));
  }

  // ------------------------------------------------------------------ frames

  /** A frame's meaning; `dbSize != 0` marks the end of a transaction. */
  datatype Frame = Frame(page: u32, dbSize: u32, content: Page)

  function FrameSize(h: WalHeader): nat { FRAME_HEADER_LEN + h.pageSize }

  /** The running pair after a frame whose first eight header bytes are `head`. */
  function SumOfFrame(h: WalHeader, head: seq<byte>, content: Page, running: Sum): Sum
  {
    SumFrom(h.native, content, 0, SumFrom(h.native, head, 0, running))
  }

  /** The frame at `off`, if a whole frame is there, its salts are the header's and
      its stored checksum continues `running`. */
  function FrameAt(h: WalHeader, b: seq<byte>, off: nat, running: Sum): Option<(Frame, Sum)>
  {
    if off + FrameSize(h) > |b| then None
    else if U32At(b, off + 8) != h.salt1 || U32At(b, off + 12) != h.salt2 then None
    else
      var content := b[off + FRAME_HEADER_LEN..off + FrameSize(h)];
      var after := SumOfFrame(h, b[off..off + 8], content, running);
      if after != (U32At(b, off + 16), U32At(b, off + 20)) then None
      else Some((Frame(U32At(b, off), U32At(b, off + 4), content), after))
  }

  /** All valid frames from `off` on, where they end, and the running pair there. */
  datatype Scanned = Scanned(frames: seq<Frame>, end: nat, running: Sum)

  function Scan(h: WalHeader, b: seq<byte>, off: nat, running: Sum): Scanned
    decreases |b| - off
  {
    match FrameAt(h, b, off, running)
    case None => Scanned([], off, running)
    case Some((f, after)) =>
      var rest := Scan(h, b, off + FrameSize(h), after);
      Scanned([f] + rest.frames, rest.end, rest.running)
  }

  function ScanFile(h: WalHeader, b: seq<byte>): Scanned { Scan(h, b, HEADER_LEN, h.checksum) }

  // --------------------------------------------- what a log of frames commits

  /** The simple reader: a scratch map, and a full copy of it at every commit frame. */
  datatype View = View(live: PageMap, committed: PageMap, size: u32)

  const EMPTY_VIEW := View(map[], map[], 0)

  function Observe(v: View, f: Frame): View
  {
    var live := v.live[f.page := f.content];
    if f.dbSize == 0 then v.(live := live) else View(live, live, f.dbSize)
  }

  function Replay(fs: seq<Frame>, v: View): View
  {
    if fs == [] then v else Replay(fs[1..], Observe(v, fs[0]))
  }

  lemma {:induction false} ReplayAppend(fs: seq<Frame>, gs: seq<Frame>, v: View)
    ensures Replay(fs + gs, v) == Replay(gs, Replay(fs, v))
  {
    if fs == [] {
      assert fs + gs == gs;
    } else {
      assert (fs + gs)[1..] == fs[1..] + gs;
      ReplayAppend(fs[1..], gs, Observe(v, fs[0]));
    }
  }

  function Lookup(m: PageMap, p: u32): Option<Page> { if p in m then Some(m[p]) else None }

  function Restore(m: PageMap, entry: (u32, Option<Page>)): PageMap
  {
    match entry.1
    case Some(c) => m[entry.0 := c]
    case None => m - {entry.0}
  }

  /** The undo log applied newest entry first. */
  function Unwind(m: PageMap, undo: seq<(u32, Option<Page>)>): PageMap
    decreases |undo|
  {
    if undo == [] then m
    else Unwind(Restore(m, undo[|undo| - 1]), undo[..|undo| - 1])
  }

  /** Recording a pre-image makes the insertion it precedes reversible. */
  lemma UndoOfInsert(m: PageMap, undo: seq<(u32, Option<Page>)>, p: u32, c: Page)
    ensures Unwind(m[p := c], undo + [(p, Lookup(m, p))]) == Unwind(m, undo)
  {
    var undo' := undo + [(p, Lookup(m, p))];
    assert undo'[..|undo'| - 1] == undo;
    assert Restore(m[p := c], (p, Lookup(m, p))) == m;
  }

  /** The page map as of the last commit frame and that commit's size, for every
      header and every byte string. */
  method CommittedPages(h: WalHeader, b: seq<byte>) returns (pages: PageMap, size: u32)
    ensures pages == Replay(ScanFile(h, b).frames, EMPTY_VIEW).committed
    ensures size == Replay(ScanFile(h, b).frames, EMPTY_VIEW).size
  {
    hide SumFrom, U32At;
    var off, running := HEADER_LEN, h.checksum;
    var undo: seq<(u32, Option<Page>)> := [];
    pages, size := map[], 0;
    ghost var view := EMPTY_VIEW;
    while off + FrameSize(h) <= |b|
      invariant pages == view.live && size == view.size && Unwind(pages, undo) == view.committed
      invariant Replay(ScanFile(h, b).frames, EMPTY_VIEW) == Replay(Scan(h, b, off, running).frames, view)
      decreases |b| - off
    {
      if U32At(b, off + 8) != h.salt1 || U32At(b, off + 12) != h.salt2 {
        break;
      }
      var content := b[off + FRAME_HEADER_LEN..off + FrameSize(h)];
      var afterHeader := Checksum(h.native, b[off..off + 8], running);
      var afterPage := Checksum(h.native, content, afterHeader);
      if afterPage != (U32At(b, off + 16), U32At(b, off + 20)) {
        break;
      }
      var page, dbSize := U32At(b, off), U32At(b, off + 4);
      UndoOfInsert(pages, undo, page, content);
      ghost var f := Frame(page, dbSize, content);
      assert Scan(h, b, off, running).frames[1..] == Scan(h, b, off + FrameSize(h), afterPage).frames;
      running := afterPage;
      undo := undo + [(page, Lookup(pages, page))];
      pages := pages[page := content];
      if dbSize != 0 {
        undo := [];
        size := dbSize;
      }
      view := Observe(view, f);
      off := off + FrameSize(h);
    }
    assert Scan(h, b, off, running).frames == [];
    while undo != []
      invariant Unwind(pages, undo) == view.committed
      decreases |undo|
    {
      pages := Restore(pages, undo[|undo| - 1]);
      undo := undo[..|undo| - 1];
    }
  }

  /** Where a writer resumes: past the last valid frame, committed or not. */
  method LastValidFrameState(h: WalHeader, b: seq<byte>) returns (off: nat, running: Sum)
    ensures off == ScanFile(h, b).end && running == ScanFile(h, b).running
  {
    hide SumFrom, U32At;
    off, running := HEADER_LEN, h.checksum;
    while off + FrameSize(h) <= |b|
      invariant Scan(h, b, off, running).end == ScanFile(h, b).end
      invariant Scan(h, b, off, running).running == ScanFile(h, b).running
      decreases |b| - off
    {
      if U32At(b, off + 8) != h.salt1 || U32At(b, off + 12) != h.salt2 {
        break;
      }
      var content := b[off + FRAME_HEADER_LEN..off + FrameSize(h)];
      var afterHeader := Checksum(h.native, b[off..off + 8], running);
      var afterPage := Checksum(h.native, content, afterHeader);
      if afterPage != (U32At(b, off + 16), U32At(b, off + 20)) {
        break;
      }
      running := afterPage;
      off := off + FrameSize(h);
    }
  }

  // ----------------------------------- the committed map without replaying it

  /** Frames applied in order, later ones winning, commit marks ignored. */
  function Overlay(fs: seq<Frame>): PageMap
  {
    if fs == [] then map[]
    else Overlay(fs[..|fs| - 1])[fs[|fs| - 1].page := fs[|fs| - 1].content]
  }

  /** A page's content is that of the last frame for it. */
  lemma {:induction false} LastFrameWins(fs: seq<Frame>, i: nat)
    requires i < |fs| && forall j :: i < j < |fs| ==> fs[j].page != fs[i].page
    ensures fs[i].page in Overlay(fs) && Overlay(fs)[fs[i].page] == fs[i].content
  {
    var n := |fs| - 1;
    if i < n { LastFrameWins(fs[..n], i); }
  }

  /** How many leading frames belong to committed transactions. */
  function CommitEnd(fs: seq<Frame>): (n: nat)
    ensures n <= |fs|
    ensures n > 0 ==> fs[n - 1].dbSize != 0
    ensures forall i :: n <= i < |fs| ==> fs[i].dbSize == 0
  {
    if fs == [] then 0
    else if fs[|fs| - 1].dbSize != 0 then |fs|
    else CommitEnd(fs[..|fs| - 1])
  }

  /** Reading a log publishes exactly its committed prefix. */
  lemma {:induction false} CommittedIsOverlay(fs: seq<Frame>)
    ensures Replay(fs, EMPTY_VIEW).live == Overlay(fs)
    ensures Replay(fs, EMPTY_VIEW).committed == Overlay(fs[..CommitEnd(fs)])
    ensures Replay(fs, EMPTY_VIEW).size == if CommitEnd(fs) == 0 then 0 else fs[CommitEnd(fs) - 1].dbSize
  {
    if fs != [] {
      var init := fs[..|fs| - 1];
      var last := fs[|fs| - 1];
      CommittedIsOverlay(init);
      assert fs == init + [last];
      ReplayAppend(init, [last], EMPTY_VIEW);
      assert Replay([last], Replay(init, EMPTY_VIEW)) == Observe(Replay(init, EMPTY_VIEW), last) by {
        assert [last][1..] == [];
      }
      if last.dbSize == 0 {
        assert init[..CommitEnd(init)] == fs[..CommitEnd(fs)];
      } else {
        assert fs[..|fs|] == fs;
      }
    }
  }

  lemma {:induction false} OverlayAppend(fs: seq<Frame>, gs: seq<Frame>)
    ensures Overlay(fs + gs) == Overlay(fs) + Overlay(gs)
  {
    if gs == [] {
      assert fs + gs == fs;
    } else {
      var all := fs + gs;
      assert all[..|all| - 1] == fs + gs[..|gs| - 1];
      OverlayAppend(fs, gs[..|gs| - 1]);
    }
  }
}
