/** The rollback journal: its byte format, writing it, and replaying a hot one. */
module Journal {
  import opened Bytes
  import opened Vfs

  const JOURNAL_HEADER_LEN: nat := 28
  const JOURNAL_MAGIC: seq<byte> := [0xd9, 0xd5, 0x05, 0xf9, 0x20, 0xa1, 0x63, 0xd7]

  datatype JournalError = HeaderTooShort(len: nat)

  datatype JournalHeader = JournalHeader(nRec: u32, nonce: u32, initialPageCount: u32, sectorSize: u32, pageSize: u32)

  /** A page number and the page's content before the transaction. */
  type PreImage = (u32, Page)

  // ------------------------------------------------------------------- format

  function SerializeHeader(h: JournalHeader): (b: seq<byte>)
    ensures |b| == JOURNAL_HEADER_LEN
  {
    JOURNAL_MAGIC + BE32(h.nRec) + BE32(h.nonce) + BE32(h.initialPageCount) + BE32(h.sectorSize) + BE32(h.pageSize)
  }

  function ParseHeader(b: seq<byte>): Result<JournalHeader, JournalError>
  {
    if |b| < JOURNAL_HEADER_LEN then Err(HeaderTooShort(|b|))
    else Ok(JournalHeader(U32At(b, 8), U32At(b, 12), U32At(b, 16), U32At(b, 20), U32At(b, 24)))
  }

  predicate Hot(b: seq<byte>) { |b| >= 8 && b[..8] == JOURNAL_MAGIC }

  /** Any file starting with a serialized header is hot and parses back to it. */
  lemma HeaderRoundTrip(h: JournalHeader, b: seq<byte>)
    requires |b| >= JOURNAL_HEADER_LEN && b[..JOURNAL_HEADER_LEN] == SerializeHeader(h)
    ensures Hot(b) && ParseHeader(b) == Ok(h)
  {
    hide BE32, U32At;
    var e := SerializeHeader(h);
    assert b[0..JOURNAL_HEADER_LEN] == e;
    Within(b, 0, e, 0, 8);
    Within(b, 0, e, 8, 12);
    Within(b, 0, e, 12, 16);
    Within(b, 0, e, 16, 20);
    Within(b, 0, e, 20, 24);
    Within(b, 0, e, 24, 28);
    HeaderFields(h);
    ReadBack32(b, 8, h.nRec);
    ReadBack32(b, 12, h.nonce);
    ReadBack32(b, 16, h.initialPageCount);
    ReadBack32(b, 20, h.sectorSize);
    ReadBack32(b, 24, h.pageSize);
  }

  lemma HeaderFields(h: JournalHeader)
    ensures var e := SerializeHeader(h);
            && e[0..8] == JOURNAL_MAGIC && e[8..12] == BE32(h.nRec) && e[12..16] == BE32(h.nonce)
            && e[16..20] == BE32(h.initialPageCount) && e[20..24] == BE32(h.sectorSize) && e[24..28] == BE32(h.pageSize)
  {
    hide BE32;
  }

  /** The sampled bytes at `idx`, `idx - 200`, ... above 0, added to `sum`. */
  function Sample(page: Page, idx: nat, sum: u32): u32
    requires idx <= |page|
  {
    if 0 < idx < |page| then Sample(page, if idx >= 200 then idx - 200 else 0, (sum + page[idx]) % 0x1_0000_0000)
    else sum
  }

  function Cksum(nonce: u32, page: Page): u32
  {
    Sample(page, if |page| >= 200 then |page| - 200 else 0, nonce)
  }

  method PageChecksum(nonce: u32, page: Page) returns (cksum: u32)
    ensures cksum == Cksum(nonce, page)
  {
    cksum := nonce;
    var idx: nat := if |page| >= 200 then |page| - 200 else 0;
    while 0 < idx < |page|
      invariant idx <= |page| && Sample(page, idx, cksum) == Cksum(nonce, page)
      decreases idx
    {
      cksum := (cksum + page[idx]) % 0x1_0000_0000;
      idx := if idx >= 200 then idx - 200 else 0;
    }
  }

  /** A zero page samples nothing: its checksum is the nonce itself. */
  lemma {:induction false} ZeroPageSample(page: Page, idx: nat, sum: u32)
    requires idx <= |page| && forall i :: 0 <= i < |page| ==> page[i] == 0
    ensures Sample(page, idx, sum) == sum
  {
    if 0 < idx < |page| {
      ZeroPageSample(page, if idx >= 200 then idx - 200 else 0, sum);
    }
  }

  /** The bytes a checksum sees: every 200th from the end, down to but without the first. */
  predicate Sampled(page: Page, i: nat) { 0 < i < |page| && (|page| - i) % 200 == 0 }

  /** How far changing byte `i` to `b` moves a checksum that has come down to `idx`. */
  function Moved(page: Page, idx: nat, i: nat, b: byte): int
    requires i < |page|
  {
    if 0 < i <= idx < |page| && (idx - i) % 200 == 0 then b - page[i] else 0
  }

  lemma {:induction false} SampleShift(page: Page, idx: nat, sum: u32, d: int)
    requires idx <= |page|
    ensures Sample(page, idx, (sum + d) % 0x1_0000_0000) == (Sample(page, idx, sum) + d) % 0x1_0000_0000
  {
    if 0 < idx < |page| {
      var x: int := page[idx];
      assert ((sum + d) % 0x1_0000_0000 + x) % 0x1_0000_0000 == ((sum + x) % 0x1_0000_0000 + d) % 0x1_0000_0000;
      SampleShift(page, if idx >= 200 then idx - 200 else 0, (sum + page[idx]) % 0x1_0000_0000, d);
    }
  }

  function Next(idx: nat): nat { if idx >= 200 then idx - 200 else 0 }

  lemma MovedNext(page: Page, idx: nat, i: nat, b: byte)
    requires 0 < idx < |page| && i < |page|
    ensures if i == idx then Moved(page, Next(idx), i, b) == 0 && Moved(page, idx, i, b) == b - page[i]
            else Moved(page, Next(idx), i, b) == Moved(page, idx, i, b)
  {
  }

  lemma {:induction false} SampleByte(page: Page, idx: nat, sum: u32, i: nat, b: byte)
    requires idx <= |page| && i < |page|
    ensures Sample(page[i := b], idx, sum) == (Sample(page, idx, sum) + Moved(page, idx, i, b)) % 0x1_0000_0000
  {
    hide Moved, Sample;
    SampleStep(page, idx, sum);
    SampleStep(page[i := b], idx, sum);
    if 0 < idx < |page| {
      MovedNext(page, idx, i, b);
      var x: int, y: int := page[idx], page[i := b][idx];
      var s, s' := (sum + page[idx]) % 0x1_0000_0000, (sum + page[i := b][idx]) % 0x1_0000_0000;
      SampleByte(page, Next(idx), s', i, b);
      Wrap(sum, x, y - x);
      SampleShift(page, Next(idx), s, y - x);
      Wrap(Sample(page, Next(idx), s), y - x, Moved(page, Next(idx), i, b));
    } else {
      NoneMoved(page, idx, i, b);
    }
  }

  lemma SampleStep(page: Page, idx: nat, sum: u32)
    requires idx <= |page|
    ensures Sample(page, idx, sum) == if 0 < idx < |page| then Sample(page, Next(idx), (sum + page[idx]) % 0x1_0000_0000) else sum
  {
  }

  lemma Wrap(a: int, d: int, e: int)
    ensures ((a + d) % 0x1_0000_0000 + e) % 0x1_0000_0000 == (a + d + e) % 0x1_0000_0000
  {
  }

  lemma NoneMoved(page: Page, idx: nat, i: nat, b: byte)
    requires i < |page| && (idx == 0 || idx >= |page|)
    ensures Moved(page, idx, i, b) == 0
  {
  }

  /** What the checksum is: the nonce for a zero page, and with one byte changed it moves,
      modulo 2^32, by exactly the change if that byte is sampled, and else not at all. */
  lemma CksumByte(nonce: u32, page: Page, i: nat, b: byte)
    requires i < |page|
    ensures Cksum(nonce, Zeros(|page|)) == nonce
    ensures Cksum(nonce, page[i := b]) == (Cksum(nonce, page) + if Sampled(page, i) then b - page[i] else 0) % 0x1_0000_0000
  {
    hide Sample;
    var idx := if |page| >= 200 then |page| - 200 else 0;
    ZeroPageSample(Zeros(|page|), idx, nonce);
    SampleByte(page, idx, nonce, i, b);
    if 0 < i { OnGrid(|page|, i); }
  }

  lemma OnGrid(n: nat, i: nat)
    requires 0 < i < n
    ensures (n - i) % 200 == 0 <==> i <= n - 200 && (n - 200 - i) % 200 == 0
  {
  }

  function RecordLen(pageSize: nat): nat { 4 + pageSize + 4 }

  function RecordBytes(nonce: u32, r: PreImage): (b: seq<byte>)
    ensures |b| == RecordLen(|r.1|)
  {
    BE32(r.0) + r.1 + BE32(Cksum(nonce, r.1))
  }

  /** A record is the page number, the page and the checksum; record `i` stands behind the
      header's sector and the records before it. */
  lemma RecordLayout(h: JournalHeader, r: PreImage, i: nat)
    ensures var b, n := RecordBytes(h.nonce, r), |r.1|;
            b[..4] == BE32(r.0) && b[4..4 + n] == r.1 && b[4 + n..] == BE32(Cksum(h.nonce, r.1)) && |b| == n + 8
    ensures RecordOffset(h, i) == h.sectorSize + i * (h.pageSize + 8)
  {
    hide BE32, Cksum;
    SpanIsProduct(i, RecordLen(h.pageSize));
  }

  /** The header in a zero-padded sector. */
  function Region(h: JournalHeader): (b: seq<byte>)
    ensures |b| == Max(h.sectorSize, JOURNAL_HEADER_LEN)
  {
    SerializeHeader(h) + Zeros(if h.sectorSize >= JOURNAL_HEADER_LEN then h.sectorSize - JOURNAL_HEADER_LEN else 0)
  }

  function RecordOffset(h: JournalHeader, i: nat): nat { h.sectorSize + Span(i, RecordLen(h.pageSize)) }

  /** Every write of a journal, in the order they are issued. */
  function JournalWrites(h: JournalHeader, rs: seq<PreImage>): (ws: seq<Write>)
    ensures |ws| == |rs| + 1
  {
    [Write(0, Region(h))]
    + seq(|rs|, i requires 0 <= i < |rs| => Write(RecordOffset(h, i), RecordBytes(h.nonce, rs[i])))
  }

  /** Creates the journal: the header in its sector, unless the sector is too small. */
  method WriteHeader(file: File, h: JournalHeader, ghost rs: seq<PreImage>) returns (r: Result<(), JournalError>)
    modifies file
    ensures r == if h.sectorSize >= JOURNAL_HEADER_LEN then Ok(()) else Err(HeaderTooShort(h.sectorSize))
    ensures file.bytes == if r.Ok? then ApplyWrites(old(file.bytes), JournalWrites(h, rs)[..1]) else old(file.bytes)
  {
    hide ApplyWrites, WriteAt, Region;
    if h.sectorSize < JOURNAL_HEADER_LEN {
      return Err(HeaderTooShort(h.sectorSize));
    }
    file.Write(0, Region(h));
    OneWrite(old(file.bytes), JournalWrites(h, rs));
    return Ok(());
  }

  /** Writes record `i`; `before` is the file the journal was started on. */
  method WriteRecord(file: File, h: JournalHeader, rs: seq<PreImage>, i: nat, ghost before: seq<byte>)
    requires i < |rs| && file.bytes == ApplyWrites(before, JournalWrites(h, rs)[..i + 1])
    modifies file
    ensures file.bytes == ApplyWrites(before, JournalWrites(h, rs)[..i + 2])
  {
    hide ApplyWrites, WriteAt, Region, BE32, Span, Cksum;
    var cksum := PageChecksum(h.nonce, rs[i].1);
    var record := BE32(rs[i].0) + rs[i].1 + BE32(cksum);
    file.Write(RecordOffset(h, i), record);
    OneMoreWrite(before, JournalWrites(h, rs), i + 1);
  }

  lemma OneWrite(file: seq<byte>, ws: seq<Write>)
    requires |ws| >= 1
    ensures ApplyWrites(file, ws[..1]) == WriteAt(file, ws[0].at, ws[0].data)
  {
    assert ws[..1][..0] == [];
  }

  lemma OneMoreWrite(file: seq<byte>, ws: seq<Write>, n: nat)
    requires n < |ws|
    ensures ApplyWrites(file, ws[..n + 1]) == WriteAt(ApplyWrites(file, ws[..n]), ws[n].at, ws[n].data)
  {
    assert ws[..n + 1][..n] == ws[..n];
  }

  // ------------------------------------------------------------------- replay

  /** Record `i` of a journal, if it lies inside the file and its checksum holds. */
  function RecordAt(b: seq<byte>, h: JournalHeader, i: nat): Option<PreImage>
  {
    var off := RecordOffset(h, i);
    if off + RecordLen(h.pageSize) > |b| then None
    else
      var page := b[off + 4..off + 4 + h.pageSize];
      if Cksum(h.nonce, page) != U32At(b, off + 4 + h.pageSize) then None
      else Some((U32At(b, off), page))
  }

  /** The records replayed: from `i` on, up to the first missing or invalid one. */
  function RecordsFrom(b: seq<byte>, h: JournalHeader, i: nat): seq<PreImage>
    decreases h.nRec - i
  {
    if i >= h.nRec then []
    else match RecordAt(b, h, i)
         case None => []
         case Some(r) => [r] + RecordsFrom(b, h, i + 1)
  }

  /** A journal with byte `j` of the page in record `i` changed to `x`. */
  function Damaged(b: seq<byte>, h: JournalHeader, i: nat, j: nat, x: byte): (d: seq<byte>)
    requires j < h.pageSize && RecordOffset(h, i) + RecordLen(h.pageSize) <= |b|
    ensures |d| == |b|
  {
    b[RecordOffset(h, i) + 4 + j := x]
  }

  /** One sampled byte of a record changed, and the record is refused. */
  lemma DamageShows(b: seq<byte>, h: JournalHeader, i: nat, j: nat, x: byte)
    requires RecordAt(b, h, i).Some? && j < h.pageSize && x != RecordAt(b, h, i).value.1[j]
    requires Sampled(RecordAt(b, h, i).value.1, j)
    ensures RecordAt(Damaged(b, h, i, j, x), h, i) == None
  {
    hide U32At, Span, Cksum;
    var d, off := Damaged(b, h, i, j, x), RecordOffset(h, i);
    var page := b[off + 4..off + 4 + h.pageSize];
    assert d[off + 4..off + 4 + h.pageSize] == page[j := x];
    SameField32(d, b, off + 4 + h.pageSize, off + 4 + h.pageSize);
    CksumByte(h.nonce, page, j, x);
  }

  lemma InsideFile(b: seq<byte>, h: JournalHeader, i: nat)
    requires RecordAt(b, h, i).Some?
    ensures RecordOffset(h, i) + RecordLen(h.pageSize) <= |b| && |RecordAt(b, h, i).value.1| == h.pageSize
  {
  }

  lemma EarlierRecord(b: seq<byte>, h: JournalHeader, i: nat, j: nat, x: byte, k: nat)
    requires j < h.pageSize && RecordOffset(h, i) + RecordLen(h.pageSize) <= |b| && k < i
    ensures RecordAt(Damaged(b, h, i, j, x), h, k) == RecordAt(b, h, k)
  {
    hide U32At, Span, Cksum;
    var d, off := Damaged(b, h, i, j, x), RecordOffset(h, k);
    SpanAdd(k, i - k, RecordLen(h.pageSize));
    SpanAdd(1, i - k - 1, RecordLen(h.pageSize));
    OneSpan(RecordLen(h.pageSize));
    assert off + RecordLen(h.pageSize) <= RecordOffset(h, i);
    assert d[off + 4..off + 4 + h.pageSize] == b[off + 4..off + 4 + h.pageSize];
    SameField32(d, b, off, off);
    SameField32(d, b, off + 4 + h.pageSize, off + 4 + h.pageSize);
  }

  lemma OneSpan(size: nat)
    ensures Span(1, size) == size
  {
  }

  /** Recovery replays the records before a damaged one and nothing after. */
  lemma {:induction false} DamageEndsReplay(b: seq<byte>, h: JournalHeader, from: nat, i: nat, j: nat, x: byte)
    requires from <= i < from + |RecordsFrom(b, h, from)| && j < h.pageSize && RecordAt(b, h, i).Some?
    requires x != RecordAt(b, h, i).value.1[j] && Sampled(RecordAt(b, h, i).value.1, j)
    ensures RecordsFrom(Damaged(b, h, i, j, x), h, from) == RecordsFrom(b, h, from)[..i - from]
    decreases i - from
  {
    hide RecordAt, Sampled;
    InsideFile(b, h, i);
    DamageShows(b, h, i, j, x);
    if from < i {
      EarlierRecord(b, h, i, j, x, from);
      DamageEndsReplay(b, h, from + 1, i, j, x);
    }
  }

  /** Page number 0 saturates to the first page. */
  function RestoreWrite(pageSize: nat, r: PreImage): Write
  {
    Write(Span(if r.0 == 0 then 0 else r.0 - 1, pageSize), r.1)
  }

  function RestoreWrites(pageSize: nat, rs: seq<PreImage>): (ws: seq<Write>)
    ensures |ws| == |rs|
  {
    seq(|rs|, i requires 0 <= i < |rs| => RestoreWrite(pageSize, rs[i]))
  }

  /** Replays a journal into the main file. */
  method Recover(b: seq<byte>, db: File) returns (r: Result<JournalHeader, JournalError>)
    modifies db
    ensures r == ParseHeader(b)
    ensures r.Err? ==> db.bytes == old(db.bytes)
    ensures r.Ok? ==> db.bytes == ApplyWrites(old(db.bytes), RestoreWrites(r.value.pageSize, RecordsFrom(b, r.value, 0)))
  {
    hide ApplyWrites, WriteAt, ParseHeader, Cksum, U32At, RestoreWrites, Span;
    r := ParseHeader(b);
    if r.Err? {
      return;
    }
    var h := r.value;
    var i := 0;
    ghost var done: seq<PreImage> := [];
    NothingRestored(db.bytes, h.pageSize);
    while i < h.nRec
      invariant i <= h.nRec
      invariant db.bytes == ApplyWrites(old(db.bytes), RestoreWrites(h.pageSize, done))
      invariant RecordsFrom(b, h, 0) == done + RecordsFrom(b, h, i)
      decreases h.nRec - i
    {
      var off := RecordOffset(h, i);
      if off + RecordLen(h.pageSize) > |b| {
        break;
      }
      var page := b[off + 4..off + 4 + h.pageSize];
      var cksum := PageChecksum(h.nonce, page);
      if cksum != U32At(b, off + 4 + h.pageSize) {
        break;
      }
      var n := U32At(b, off);
      var index := if n == 0 then 0 else n - 1;
      db.Write(Span(index, h.pageSize), page);
      RestoreOneMore(old(db.bytes), h.pageSize, done, (n, page));
      assert done + RecordsFrom(b, h, i) == (done + [(n, page)]) + RecordsFrom(b, h, i + 1);
      done := done + [(n, page)];
      i := i + 1;
    }
    assert done + [] == done;
  }

  lemma NothingRestored(file: seq<byte>, pageSize: nat)
    ensures ApplyWrites(file, RestoreWrites(pageSize, [])) == file
  {
  }

  lemma RestoreOneMore(file: seq<byte>, pageSize: nat, rs: seq<PreImage>, r: PreImage)
    ensures var w := RestoreWrite(pageSize, r);
            ApplyWrites(file, RestoreWrites(pageSize, rs + [r]))
            == WriteAt(ApplyWrites(file, RestoreWrites(pageSize, rs)), w.at, w.data)
  {
    var ws := RestoreWrites(pageSize, rs + [r]);
    assert ws[..|ws| - 1] == RestoreWrites(pageSize, rs);
  }
}
