/** Appending to the write-ahead log, resuming it, and what reading it back gives
    after any history of sessions. */
module WalWriter {
  import opened Bytes
  import opened Vfs
  import opened Wal

  // ---------------------------------------------------------------- encoding

  /** The eight header bytes the checksum covers: page number and commit size. */
  function Head(f: Frame): (b: seq<byte>)
    ensures |b| == 8
  {
    BE32(f.page) + BE32(f.dbSize)
  }

  function SumAfter(h: WalHeader, running: Sum, f: Frame): Sum
  {
    SumOfFrame(h, Head(f), f.content, running)
  }

  function EncodeFrame(h: WalHeader, running: Sum, f: Frame): (b: seq<byte>)
    ensures |b| == FRAME_HEADER_LEN + |f.content|
  {
    var sum := SumAfter(h, running, f);
    Head(f) + BE32(h.salt1) + BE32(h.salt2) + BE32(sum.0) + BE32(sum.1) + f.content
  }

  predicate Fits(h: WalHeader, fs: seq<Frame>)
  {
    forall f :: f in fs ==> |f.content| == h.pageSize
  }

  function SumOf(h: WalHeader, running: Sum, fs: seq<Frame>): Sum
    decreases |fs|
  {
    if fs == [] then running else SumOf(h, SumAfter(h, running, fs[0]), fs[1..])
  }

  function Encode(h: WalHeader, running: Sum, fs: seq<Frame>): (b: seq<byte>)
    ensures Fits(h, fs) ==> |b| == Span(|fs|, FrameSize(h))
    decreases |fs|
  {
    if fs == [] then []
    else
      var b := EncodeFrame(h, running, fs[0]) + Encode(h, SumAfter(h, running, fs[0]), fs[1..]);
      assert Fits(h, fs) ==> Fits(h, fs[1..]) && fs[0] in fs;
      b
  }

  lemma {:induction false} EncodeAppend(h: WalHeader, running: Sum, fs: seq<Frame>, gs: seq<Frame>)
    ensures Encode(h, running, fs + gs) == Encode(h, running, fs) + Encode(h, SumOf(h, running, fs), gs)
    ensures SumOf(h, running, fs + gs) == SumOf(h, SumOf(h, running, fs), gs)
    decreases |fs|
  {
    if fs == [] {
      assert fs + gs == gs;
    } else {
      assert (fs + gs)[1..] == fs[1..] + gs;
      EncodeAppend(h, SumAfter(h, running, fs[0]), fs[1..], gs);
    }
  }

  lemma EncodePrefix(h: WalHeader, running: Sum, fs: seq<Frame>, n: nat)
    requires Fits(h, fs) && n <= |fs|
    ensures Fits(h, fs[..n]) && Span(n, FrameSize(h)) <= |Encode(h, running, fs)|
    ensures Encode(h, running, fs)[..Span(n, FrameSize(h))] == Encode(h, running, fs[..n])
  {
    hide SumFrom, EncodeFrame;
    assert fs == fs[..n] + fs[n..];
    EncodeAppend(h, running, fs[..n], fs[n..]);
  }

  /** An encoded frame is found again wherever it lies. */
  lemma FrameReadsBack(h: WalHeader, b: seq<byte>, off: nat, running: Sum, f: Frame)
    requires |f.content| == h.pageSize && off + FrameSize(h) <= |b|
    requires b[off..off + FrameSize(h)] == EncodeFrame(h, running, f)
    ensures FrameAt(h, b, off, running) == Some((f, SumAfter(h, running, f)))
  {
    hide SumFrom, BE32, U32At;
    var e := EncodeFrame(h, running, f);
    var sum := SumAfter(h, running, f);
    Within(b, off, e, 0, 8);
    Within(b, off, e, 0, 4);
    Within(b, off, e, 4, 8);
    Within(b, off, e, 8, 12);
    Within(b, off, e, 12, 16);
    Within(b, off, e, 16, 20);
    Within(b, off, e, 20, 24);
    Within(b, off, e, 24, |e|);
    EncodedFields(h, running, f);
    ReadBack32(b, off, f.page);
    ReadBack32(b, off + 4, f.dbSize);
    ReadBack32(b, off + 8, h.salt1);
    ReadBack32(b, off + 12, h.salt2);
    ReadBack32(b, off + 16, sum.0);
    ReadBack32(b, off + 20, sum.1);
  }

  /** The fields of an encoded frame, by position. */
  lemma EncodedFields(h: WalHeader, running: Sum, f: Frame)
    ensures var e, sum := EncodeFrame(h, running, f), SumAfter(h, running, f);
            && e[0..8] == Head(f) && e[0..4] == BE32(f.page) && e[4..8] == BE32(f.dbSize)
            && e[8..12] == BE32(h.salt1) && e[12..16] == BE32(h.salt2)
            && e[16..20] == BE32(sum.0) && e[20..24] == BE32(sum.1) && e[24..|e|] == f.content
  {
  }

  lemma ScanStep(h: WalHeader, b: seq<byte>, off: nat, running: Sum, f: Frame, after: Sum)
    requires FrameAt(h, b, off, running) == Some((f, after))
    ensures var rest := Scan(h, b, off + FrameSize(h), after);
            Scan(h, b, off, running) == Scanned([f] + rest.frames, rest.end, rest.running)
  {
  }

  /** The first encoded frame and the encoding of the others, located in the file. */
  lemma SplitEncoding(h: WalHeader, b: seq<byte>, off: nat, running: Sum, fs: seq<Frame>)
    requires fs != [] && Fits(h, fs) && off + Span(|fs|, FrameSize(h)) <= |b|
    requires b[off..off + Span(|fs|, FrameSize(h))] == Encode(h, running, fs)
    ensures Span(|fs|, FrameSize(h)) == FrameSize(h) + Span(|fs[1..]|, FrameSize(h))
    ensures |fs[0].content| == h.pageSize && Fits(h, fs[1..])
    ensures b[off..off + FrameSize(h)] == EncodeFrame(h, running, fs[0])
    ensures b[off + FrameSize(h)..off + FrameSize(h) + Span(|fs[1..]|, FrameSize(h))]
         == Encode(h, SumAfter(h, running, fs[0]), fs[1..])
  {
    hide BE32, SumFrom, Encode, EncodeFrame, SumAfter;
    var n, e := FrameSize(h), Encode(h, running, fs);
    assert fs[0] in fs;
    FirstEncoded(h, running, fs);
    Within(b, off, e, 0, n);
    Within(b, off, e, n, |e|);
  }

  lemma FirstEncoded(h: WalHeader, running: Sum, fs: seq<Frame>)
    requires fs != [] && Fits(h, fs)
    ensures var n, e := FrameSize(h), Encode(h, running, fs);
            && |e| == Span(|fs|, n) == n + Span(|fs[1..]|, n)
            && e[0..n] == EncodeFrame(h, running, fs[0]) && e[n..|e|] == Encode(h, SumAfter(h, running, fs[0]), fs[1..])
  {
    hide BE32, SumFrom, SumAfter;
    assert fs[0] in fs;
  }

  /** Scanning encoded frames yields them, then whatever the rest of the file holds. */
  lemma {:induction false} ScanReadsBack(h: WalHeader, b: seq<byte>, off: nat, running: Sum, fs: seq<Frame>)
    requires Fits(h, fs) && off + Span(|fs|, FrameSize(h)) <= |b|
    requires b[off..off + Span(|fs|, FrameSize(h))] == Encode(h, running, fs)
    ensures var rest := Scan(h, b, off + Span(|fs|, FrameSize(h)), SumOf(h, running, fs));
            Scan(h, b, off, running) == Scanned(fs + rest.frames, rest.end, rest.running)
    decreases |fs|
  {
    hide BE32, SumFrom, FrameAt, EncodeFrame;
    if fs == [] {
      assert [] + Scan(h, b, off, running).frames == Scan(h, b, off, running).frames;
    } else {
      var f, tl := fs[0], fs[1..];
      var after := SumAfter(h, running, f);
      SplitEncoding(h, b, off, running, fs);
      FrameReadsBack(h, b, off, running, f);
      ScanStep(h, b, off, running, f, after);
      ScanReadsBack(h, b, off + FrameSize(h), after, tl);
      var rest := Scan(h, b, off + Span(|fs|, FrameSize(h)), SumOf(h, running, fs));
      assert [f] + (tl + rest.frames) == fs + rest.frames;
    }
  }

  // ------------------------------------------------------------ clean log file

  /** A whole frame slot `k` of `tail` carries the header's salts. */
  predicate SaltsMatch(h: WalHeader, tail: seq<byte>, k: nat)
  {
    && Span(k + 1, FrameSize(h)) <= |tail|
    && U32At(tail, Span(k, FrameSize(h)) + 8) == h.salt1 && U32At(tail, Span(k, FrameSize(h)) + 12) == h.salt2
  }

  /** Bytes left over from an earlier generation: no slot carries the current salts. */
  ghost predicate StaleTail(h: WalHeader, tail: seq<byte>)
  {
    forall k: nat :: !SaltsMatch(h, tail, k)
  }

  /** A log this crate wrote: header, the frames, and at most a stale tail. */
  ghost predicate HoldsFrames(b: seq<byte>, h: WalHeader, fs: seq<Frame>)
  {
    && ValidHeader(h) && Fits(h, fs)
    && HEADER_LEN + Span(|fs|, FrameSize(h)) <= |b|
    && b[..HEADER_LEN] == Serialize(h)
    && b[HEADER_LEN..HEADER_LEN + Span(|fs|, FrameSize(h))] == Encode(h, h.checksum, fs)
    && StaleTail(h, b[HEADER_LEN + Span(|fs|, FrameSize(h))..])
  }

  lemma StaleTailStops(h: WalHeader, b: seq<byte>, off: nat, running: Sum)
    requires off <= |b| && StaleTail(h, b[off..])
    ensures Scan(h, b, off, running) == Scanned([], off, running)
  {
    var tail := b[off..];
    if off + FrameSize(h) <= |b| {
      assert !SaltsMatch(h, tail, 0);
      SameField32(tail, b, 8, off + 8);
      SameField32(tail, b, 12, off + 12);
    }
  }

  /** Reading a clean log: the header, exactly its frames, and the writer's own end state. */
  lemma CleanLogScans(b: seq<byte>, h: WalHeader, fs: seq<Frame>)
    requires HoldsFrames(b, h, fs)
    ensures ParseHeader(b) == Ok(h)
    ensures ScanFile(h, b) == Scanned(fs, HEADER_LEN + Span(|fs|, FrameSize(h)), SumOf(h, h.checksum, fs))
  {
    hide BE32, SumFrom, FrameAt, Scan, ParseHeader, SaltsMatch, Encode;
    HeaderRoundTrip(h, b[HEADER_LEN..]);
    assert b == Serialize(h) + b[HEADER_LEN..];
    ScanReadsBack(h, b, HEADER_LEN, h.checksum, fs);
    StaleTailStops(h, b, HEADER_LEN + Span(|fs|, FrameSize(h)), SumOf(h, h.checksum, fs));
    assert fs + [] == fs;
  }

  /** A stale tail stays stale when whole frames overwrite its beginning. */
  lemma StaleTailSuffix(h: WalHeader, tail: seq<byte>, n: nat)
    requires StaleTail(h, tail) && Span(n, FrameSize(h)) <= |tail|
    ensures StaleTail(h, tail[Span(n, FrameSize(h))..])
  {
    hide U32At;
    var s := FrameSize(h);
    var rest := tail[Span(n, s)..];
    forall k: nat
      ensures !SaltsMatch(h, rest, k)
    {
      var j := n + k;
      SpanAdd(n, k, s);
      SpanAdd(n, k + 1, s);
      assert !SaltsMatch(h, tail, j);
      if Span(k + 1, s) <= |rest| {
        SameField32(rest, tail, Span(k, s) + 8, Span(j, s) + 8);
        SameField32(rest, tail, Span(k, s) + 12, Span(j, s) + 12);
      }
    }
  }

  /** Writing the encoding of further frames after the last one extends a clean log. */
  lemma ExtendCleanLog(b: seq<byte>, h: WalHeader, fs: seq<Frame>, gs: seq<Frame>)
    requires HoldsFrames(b, h, fs) && Fits(h, gs)
    ensures HoldsFrames(WriteAt(b, HEADER_LEN + Span(|fs|, FrameSize(h)), Encode(h, SumOf(h, h.checksum, fs), gs)), h, fs + gs)
  {
    hide SaltsMatch, ValidHeader, Encode, Serialize, WriteAt, SumOf, StaleTail, Span, Fits;
    var s := FrameSize(h);
    var at := HEADER_LEN + Span(|fs|, s);
    var data := Encode(h, SumOf(h, h.checksum, fs), gs);
    var c := WriteAt(b, at, data);
    EncodeAppend(h, h.checksum, fs, gs);
    SpanAdd(|fs|, |gs|, s);
    FitsBoth(h, fs, gs);
    WrittenParts(b, at, data);
    assert at + |data| == HEADER_LEN + Span(|fs + gs|, s);
    if at + |data| <= |b| {
      StaleTailSuffix(h, b[at..], |gs|);
      TailOf(b, at, |data|);
    } else {
      EmptyTailIsStale(h);
    }
  }

  lemma FitsBoth(h: WalHeader, fs: seq<Frame>, gs: seq<Frame>)
    requires Fits(h, fs) && Fits(h, gs)
    ensures Fits(h, fs + gs)
  {
  }

  lemma WrittenParts(b: seq<byte>, at: nat, data: seq<byte>)
    requires HEADER_LEN <= at <= |b|
    ensures var c := WriteAt(b, at, data);
            && |c| == Max(|b|, at + |data|)
            && c[..HEADER_LEN] == b[..HEADER_LEN] && c[HEADER_LEN..at + |data|] == b[HEADER_LEN..at] + data
            && c[at + |data|..] == if at + |data| <= |b| then b[at + |data|..] else []
  {
    hide WriteAt;
    WriteInside(b, at, data);
    Parts(b, WriteAt(b, at, data), at, data);
  }

  /** A file with `data` written at `at`, in parts. */
  lemma Parts(b: seq<byte>, c: seq<byte>, at: nat, data: seq<byte>)
    requires HEADER_LEN <= at <= |b| && |c| == Max(|b|, at + |data|) && c[..at] == b[..at] && c[at..at + |data|] == data
    requires at + |data| <= |b| ==> c[at + |data|..] == b[at + |data|..]
    ensures c[..HEADER_LEN] == b[..HEADER_LEN] && c[HEADER_LEN..at + |data|] == b[HEADER_LEN..at] + data
    ensures c[at + |data|..] == if at + |data| <= |b| then b[at + |data|..] else []
  {
    assert c[..HEADER_LEN] == c[..at][..HEADER_LEN] && b[..HEADER_LEN] == b[..at][..HEADER_LEN];
    assert c[HEADER_LEN..at] == c[..at][HEADER_LEN..] && b[HEADER_LEN..at] == b[..at][HEADER_LEN..];
    assert c[HEADER_LEN..at + |data|] == c[HEADER_LEN..at] + c[at..at + |data|];
  }

  lemma TailOf(b: seq<byte>, at: nat, n: nat)
    requires at + n <= |b|
    ensures b[at..][n..] == b[at + n..]
  {
  }

  lemma EmptyTailIsStale(h: WalHeader)
    ensures StaleTail(h, [])
  {
  }

  // --------------------------------------------------------------- the writer

  /** A cached resume state, valid only for a file of `expectedSize` bytes. */
  datatype ResumeHint = ResumeHint(header: WalHeader, offset: nat, running: Sum, expectedSize: nat)

  /** Offset and running checksum are those of a log holding `fs`. */
  ghost predicate Resumes(b: seq<byte>, h: WalHeader, offset: nat, running: Sum, fs: seq<Frame>)
  {
    HoldsFrames(b, h, fs) && offset == HEADER_LEN + Span(|fs|, FrameSize(h)) && running == SumOf(h, h.checksum, fs)
  }

  class Writer {
    const file: File
    const header: WalHeader
    var running: Sum
    var offset: nat
    var pendingOffset: Option<nat>
    var pending: seq<byte>
    ghost var written: seq<Frame>
    ghost var queued: seq<Frame>

    ghost predicate Valid()
      reads this, file
    {
      && HoldsFrames(file.bytes, header, written) && Fits(header, queued)
      && offset == HEADER_LEN + Span(|written + queued|, FrameSize(header))
      && running == SumOf(header, header.checksum, written + queued)
      && pending == Encode(header, SumOf(header, header.checksum, written), queued)
      && pendingOffset == (if queued == [] then None else Some(HEADER_LEN + Span(|written|, FrameSize(header))))
    }

    constructor Resume(file: File, header: WalHeader, offset: nat, running: Sum, ghost fs: seq<Frame>)
      ensures this.file == file && this.header == header && this.offset == offset && this.running == running
      ensures written == fs && queued == [] && pending == [] && pendingOffset == None
      ensures Resumes(file.bytes, header, offset, running, fs) ==> Valid()
    {
      this.file, this.header, this.offset, this.running := file, header, offset, running;
      pendingOffset, pending := None, [];
      written, queued := fs, [];
      new;
      assert fs + [] == fs;
    }

    /** Starts a log: only the header is written, so older bytes may follow it. */
    static method Create(file: File, header: WalHeader) returns (w: Writer)
      requires ValidHeader(header)
      modifies file
      ensures fresh(w) && w.file == file && w.header == header && w.offset == HEADER_LEN && w.running == header.checksum
      ensures w.written == [] && w.queued == [] && w.pending == []
      ensures (|old(file.bytes)| >= HEADER_LEN ==> StaleTail(header, old(file.bytes)[HEADER_LEN..])) ==> w.Valid()
      ensures file.bytes == WriteAt(old(file.bytes), 0, Serialize(header))
    {
      ghost var before := file.bytes;
      file.Write(0, Serialize(header));
      assert file.bytes[..HEADER_LEN] == Serialize(header);
      if |before| >= HEADER_LEN {
        assert file.bytes[HEADER_LEN..] == before[HEADER_LEN..];
      } else {
        assert file.bytes[HEADER_LEN..] == [];
      }
      assert |before| < HEADER_LEN || StaleTail(header, before[HEADER_LEN..]) ==> HoldsFrames(file.bytes, header, []) by { EmptyTailIsStale(header); }
      w := new Writer.Resume(file, header, HEADER_LEN, header.checksum, []);
    }

    /** Buffers one frame; nothing reaches the file until `Sync`. */
    method AppendFrame(page: u32, data: Page, commitDbSize: u32)
      requires Valid() && |data| == header.pageSize
      modifies this
      ensures Valid() && written == old(written)
      ensures queued == old(queued) + [Frame(page, commitDbSize, data)]
    {
      hide BE32, SumFrom, HoldsFrames, Encode;
      ghost var f := Frame(page, commitDbSize, data);
      var head := BE32(page) + BE32(commitDbSize);
      var afterHeader := Checksum(header.native, head, running);
      var afterPage := Checksum(header.native, data, afterHeader);
      var scratch := head + BE32(header.salt1) + BE32(header.salt2)
                     + BE32(afterPage.0) + BE32(afterPage.1) + data;
      assert scratch == EncodeFrame(header, running, f);
      AppendOne(header, header.checksum, written, queued, f);
      if pendingOffset.None? {
        pendingOffset := Some(offset);
      }
      pending := pending + scratch;
      running := afterPage;
      offset := offset + |scratch|;
      queued := queued + [f];
    }

    /** One write for everything buffered, then the fsync. */
    method Sync()
      requires Valid()
      modifies this, file
      ensures Valid() && queued == [] && written == old(written) + old(queued)
      ensures |file.bytes| == Max(|old(file.bytes)|, offset)
      ensures file.bytes == if old(queued) == [] then old(file.bytes)
              else WriteAt(old(file.bytes), HEADER_LEN + Span(|old(written)|, FrameSize(header)),
                           Encode(header, SumOf(header, header.checksum, old(written)), old(queued)))
    {
      hide HoldsFrames, Encode, SumOf, WriteAt;
      FileReaches(file.bytes, header, written, queued);
      ExtendCleanLog(file.bytes, header, written, queued);
      if pendingOffset.Some? {
        file.Write(pendingOffset.value, pending);
        pendingOffset := None;
        pending := [];
      } else {
        assert written + queued == written;
      }
      written, queued := written + queued, [];
      assert written + queued == written;
    }

    function Hint(): ResumeHint
      reads this
    {
      ResumeHint(header, offset, running, offset)
    }

    /** The number of frames in the log, counting the buffered ones. */
    method FrameCount() returns (n: nat)
      requires Valid()
      ensures n == |written + queued|
    {
      hide HoldsFrames, Encode, SumOf, Span;
      n := (offset - HEADER_LEN) / FrameSize(header);
      SpanDivides(|written + queued|, FrameSize(header), 0);
    }

    /** Reopens a log, trusting a hint only if size and header still match it. */
    static method OpenExisting(file: File, pageSize: u32, hint: Option<ResumeHint>, ghost h: WalHeader, ghost fs: seq<Frame>)
      returns (r: Result<Writer, WalError>)
      ensures r.Err? ==> !HintApplies(hint, file.bytes)
      ensures r.Err? ==> match ParseHeader(file.bytes)
                         case Err(e) => r.error == e
                         case Ok(found) => found.pageSize != pageSize && r.error == InvalidPageSize(found.pageSize)
      ensures r.Ok? ==> fresh(r.value) && r.value.file == file && r.value.queued == [] && r.value.written == fs && r.value.pending == []
      ensures r.Ok? && HintApplies(hint, file.bytes) ==>
                r.value.header == hint.value.header && r.value.offset == hint.value.offset && r.value.running == hint.value.running
      ensures r.Ok? && !HintApplies(hint, file.bytes) ==>
                && ParseHeader(file.bytes) == Ok(r.value.header) && r.value.header.pageSize == pageSize
                && var found := ScanFile(r.value.header, file.bytes); r.value.offset == found.end && r.value.running == found.running
      ensures HoldsFrames(file.bytes, h, fs) && (hint.Some? ==> Truthful(hint.value, file.bytes, h, fs)) ==>
                && (r.Ok? <==> h.pageSize == pageSize || HintApplies(hint, file.bytes))
                && (r.Ok? ==> r.value.Valid() && r.value.header == h)
    {
      hide HoldsFrames, Scan, ParseHeader, SumOf, Span;
      ghost var ours := HoldsFrames(file.bytes, h, fs);
      if ours {
        CleanLogScans(file.bytes, h, fs);
        HeaderPrefix(file.bytes, h, fs);
      }
      if hint.Some? && |file.bytes| >= HEADER_LEN {
        var readHeader := ParseHeader(file.bytes[..HEADER_LEN]);
        if hint.value.expectedSize == |file.bytes| && readHeader == Ok(hint.value.header) {
          var w := new Writer.Resume(file, hint.value.header, hint.value.offset, hint.value.running, fs);
          return Ok(w);
        }
      }
      var parsed := ParseHeader(file.bytes);
      if parsed.Err? {
        return Err(parsed.error);
      }
      var header := parsed.value;
      if header.pageSize != pageSize {
        return Err(InvalidPageSize(header.pageSize));
      }
      var offset, running := LastValidFrameState(header, file.bytes);
      var w := new Writer.Resume(file, header, offset, running, fs);
      return Ok(w);
    }
  }

  /** The buffered frames end where the writer's offset says. */
  lemma FileReaches(b: seq<byte>, h: WalHeader, ws: seq<Frame>, qs: seq<Frame>)
    requires HoldsFrames(b, h, ws) && Fits(h, qs)
    ensures HEADER_LEN + Span(|ws|, FrameSize(h)) <= |b|
    ensures HEADER_LEN + Span(|ws + qs|, FrameSize(h))
         == HEADER_LEN + Span(|ws|, FrameSize(h)) + |Encode(h, SumOf(h, h.checksum, ws), qs)|
  {
    hide Encode, SumOf, ValidHeader, StaleTail, Serialize, Span;
    SpanAdd(|ws|, |qs|, FrameSize(h));
  }

  predicate HintApplies(hint: Option<ResumeHint>, b: seq<byte>)
  {
    hint.Some? && hint.value.expectedSize == |b| && |b| >= HEADER_LEN
    && ParseHeader(b[..HEADER_LEN]) == Ok(hint.value.header)
  }

  /** If a hint's guard passes on this file, its state is the state a rescan finds. */
  predicate Truthful(hint: ResumeHint, b: seq<byte>, h: WalHeader, fs: seq<Frame>)
  {
    HintApplies(Some(hint), b) ==>
      hint.header == h && hint.offset == HEADER_LEN + Span(|fs|, FrameSize(h)) && hint.running == SumOf(h, h.checksum, fs)
  }

  /** A hint is refused on a log of another generation, and on a file of another length. */
  lemma StaleHint(hint: ResumeHint, b: seq<byte>, h: WalHeader, fs: seq<Frame>)
    requires HoldsFrames(b, h, fs) && (hint.header != h || hint.expectedSize != |b|)
    ensures !HintApplies(Some(hint), b)
  {
    hide ParseHeader, HoldsFrames;
    HeaderPrefix(b, h, fs);
  }

  lemma HeaderPrefix(b: seq<byte>, h: WalHeader, fs: seq<Frame>)
    requires HoldsFrames(b, h, fs)
    ensures ParseHeader(b[..HEADER_LEN]) == Ok(h)
  {
    HeaderRoundTrip(h, []);
    assert b[..HEADER_LEN] == Serialize(h) + [];
  }

  lemma AppendOne(h: WalHeader, running: Sum, ws: seq<Frame>, qs: seq<Frame>, f: Frame)
    ensures Encode(h, SumOf(h, running, ws), qs + [f])
         == Encode(h, SumOf(h, running, ws), qs) + EncodeFrame(h, SumOf(h, running, ws + qs), f)
    ensures SumOf(h, running, ws + (qs + [f])) == SumAfter(h, SumOf(h, running, ws + qs), f)
  {
    hide SumFrom, BE32, SumAfter;
    EncodeAppend(h, running, ws, qs);
    EncodeAppend(h, SumOf(h, running, ws), qs, [f]);
    EncodeAppend(h, running, ws + qs, [f]);
    assert ws + (qs + [f]) == (ws + qs) + [f];
    assert [f][1..] == [];
    assert EncodeFrame(h, SumOf(h, running, ws + qs), f) + [] == EncodeFrame(h, SumOf(h, running, ws + qs), f);
  }
}
