/** Random-access files as the storage layer sees them: a write past the end
    fills the gap with zeros, and setting the length cuts or zero-extends. */
module Vfs {
  import opened Bytes

  /** `PRAGMA synchronous`: how much a commit syncs. */
  datatype SynchronousMode = Off | Normal | Full

  function Resize(file: seq<byte>, len: nat): (r: seq<byte>)
    ensures |r| == len
    ensures forall i :: 0 <= i < len ==> r[i] == if i < |file| then file[i] else 0
  {
    if len <= |file| then file[..len] else file + Zeros(len - |file|)
  }

  function WriteAt(file: seq<byte>, at: nat, data: seq<byte>): (r: seq<byte>)
    ensures |r| == Max(|file|, at + |data|)
    ensures r[at..at + |data|] == data
    ensures forall i :: 0 <= i < |r| && !(at <= i < at + |data|) ==> r[i] == if i < |file| then file[i] else 0
  {
    Put(Resize(file, Max(|file|, at + |data|)), at, data)
  }

  /** A write starting inside the file: what precedes it, the data, what remains after it. */
  lemma WriteInside(file: seq<byte>, at: nat, data: seq<byte>)
    requires at <= |file|
    ensures WriteAt(file, at, data)
         == file[..at] + data + (if at + |data| <= |file| then file[at + |data|..] else [])
  {
    hide Put, Resize;
    var w := WriteAt(file, at, data);
    assert w == w[..at] + w[at..at + |data|] + w[at + |data|..];
    assert w[..at] == file[..at];
  }

  /** The byte at `i`, where an absent byte reads as zero. */
  function ByteAt(file: seq<byte>, i: nat): byte { if i < |file| then file[i] else 0 }

  datatype Write = Write(at: nat, data: seq<byte>)

  predicate Covers(w: Write, i: nat) { w.at <= i < w.at + |w.data| }

  function ApplyWrites(file: seq<byte>, ws: seq<Write>): seq<byte>
  {
    if ws == [] then file
    else WriteAt(ApplyWrites(file, ws[..|ws| - 1]), ws[|ws| - 1].at, ws[|ws| - 1].data)
  }

  /** The byte the last covering write put at `i`, or `otherwise`. */
  function LastWritten(ws: seq<Write>, i: nat, otherwise: byte): byte
  {
    if ws == [] then otherwise
    else if Covers(ws[|ws| - 1], i) then ws[|ws| - 1].data[i - ws[|ws| - 1].at]
    else LastWritten(ws[..|ws| - 1], i, otherwise)
  }

  lemma {:induction false} AppliedByte(file: seq<byte>, ws: seq<Write>, i: nat)
    ensures ByteAt(ApplyWrites(file, ws), i) == LastWritten(ws, i, ByteAt(file, i))
  {
    if ws != [] {
      var w := ws[|ws| - 1];
      var before := ApplyWrites(file, ws[..|ws| - 1]);
      var after := ApplyWrites(file, ws);
      AppliedByte(file, ws[..|ws| - 1], i);
      if Covers(w, i) {
        assert after[w.at..w.at + |w.data|][i - w.at] == w.data[i - w.at];
      }
    }
  }

  lemma {:induction false} AppliedLength(file: seq<byte>, ws: seq<Write>)
    ensures |ApplyWrites(file, ws)| >= |file|
    ensures forall w :: w in ws ==> w.at + |w.data| <= |ApplyWrites(file, ws)|
  {
    if ws != [] {
      assert ws == ws[..|ws| - 1] + [ws[|ws| - 1]];
      AppliedLength(file, ws[..|ws| - 1]);
    }
  }

  /** The last covering write is one of the writes, and decides the byte. */
  lemma {:induction false} LastWrittenFrom(ws: seq<Write>, i: nat, otherwise: byte)
    ensures (forall w :: w in ws ==> !Covers(w, i)) ==> LastWritten(ws, i, otherwise) == otherwise
    ensures (exists w :: w in ws && Covers(w, i)) ==>
              exists w :: w in ws && Covers(w, i) && LastWritten(ws, i, otherwise) == w.data[i - w.at]
  {
    if ws != [] {
      var init, last := ws[..|ws| - 1], ws[|ws| - 1];
      assert ws == init + [last];
      LastWrittenFrom(init, i, otherwise);
      if Covers(last, i) {
        assert last in ws;
      } else if w :| w in ws && Covers(w, i) {
        assert w in init;
        var v :| v in init && Covers(v, i) && LastWritten(init, i, otherwise) == v.data[i - v.at];
        assert v in ws;
      }
    }
  }

  /** Files whose uncovered bytes agree are made equal by the same writes, up to any
      final length: what the covered bytes held before does not matter. */
  lemma SameAfterWrites(a: seq<byte>, b: seq<byte>, ws: seq<Write>, len: nat)
    requires forall i :: 0 <= i < len && (forall w :: w in ws ==> !Covers(w, i)) ==> ByteAt(a, i) == ByteAt(b, i)
    ensures Resize(ApplyWrites(a, ws), len) == Resize(ApplyWrites(b, ws), len)
  {
    forall i | 0 <= i < len ensures Resize(ApplyWrites(a, ws), len)[i] == Resize(ApplyWrites(b, ws), len)[i] {
      AppliedByte(a, ws, i);
      AppliedByte(b, ws, i);
      CoveredForgets(ws, i, ByteAt(a, i), ByteAt(b, i));
    }
  }

  lemma {:induction false} CoveredForgets(ws: seq<Write>, i: nat, x: byte, y: byte)
    ensures (exists w :: w in ws && Covers(w, i)) || x == y ==> LastWritten(ws, i, x) == LastWritten(ws, i, y)
  {
    if ws != [] {
      assert ws == ws[..|ws| - 1] + [ws[|ws| - 1]];
      CoveredForgets(ws[..|ws| - 1], i, x, y);
    }
  }

  lemma {:induction false} AppliedBound(file: seq<byte>, ws: seq<Write>, n: nat)
    requires |file| <= n && forall w :: w in ws ==> w.at + |w.data| <= n
    ensures |ApplyWrites(file, ws)| <= n
  {
    if ws != [] {
      assert ws == ws[..|ws| - 1] + [ws[|ws| - 1]];
      AppliedBound(file, ws[..|ws| - 1], n);
    }
  }

  // --------------------------------------------------------- writes that survive

  /** The writes that reached the disk when each one either survived or did not. */
  function Kept(ws: seq<Write>, keep: seq<bool>): seq<Write>
    requires |ws| == |keep|
  {
    if ws == [] then []
    else Kept(ws[..|ws| - 1], keep[..|ws| - 1]) + (if keep[|ws| - 1] then [ws[|ws| - 1]] else [])
  }

  lemma {:induction false} KeptMembers(ws: seq<Write>, keep: seq<bool>)
    requires |ws| == |keep|
    ensures forall w :: w in Kept(ws, keep) ==> exists i :: 0 <= i < |ws| && keep[i] && ws[i] == w
    ensures forall i :: 0 <= i < |ws| && keep[i] ==> ws[i] in Kept(ws, keep)
  {
    if ws != [] {
      var n := |ws| - 1;
      KeptMembers(ws[..n], keep[..n]);
      forall w | w in Kept(ws, keep) ensures exists i :: 0 <= i < |ws| && keep[i] && ws[i] == w {
        if w in Kept(ws[..n], keep[..n]) {
          var i :| 0 <= i < n && keep[..n][i] && ws[..n][i] == w;
          assert keep[i] && ws[i] == w;
        } else {
          assert keep[n] && ws[n] == w;
        }
      }
      forall i | 0 <= i < |ws| && keep[i] ensures ws[i] in Kept(ws, keep) {
        if i < n { assert ws[..n][i] == ws[i] && keep[..n][i]; }
      }
    }
  }

  /** Writes to pairwise disjoint places. */
  ghost predicate Disjoint(ws: seq<Write>)
  {
    forall i, j :: 0 <= i < j < |ws| ==>
      ws[i].at + |ws[i].data| <= ws[j].at || ws[j].at + |ws[j].data| <= ws[i].at
  }

  lemma OnlyCover(ws: seq<Write>, keep: seq<bool>, k: nat, i: nat)
    requires |ws| == |keep| && k < |ws| && Disjoint(ws) && Covers(ws[k], i)
    ensures forall w :: w in Kept(ws, keep) && Covers(w, i) ==> w == ws[k] && keep[k]
  {
    KeptMembers(ws, keep);
    forall w | w in Kept(ws, keep) && Covers(w, i) ensures w == ws[k] && keep[k] {
      var j :| 0 <= j < |ws| && keep[j] && ws[j] == w;
      assert j == k;
    }
  }

  /** After any subset of disjoint writes to an empty file, each place holds its data if
      its write survived, and zeros (or nothing) if not. */
  lemma SurvivingSlot(ws: seq<Write>, keep: seq<bool>, k: nat)
    requires |ws| == |keep| && k < |ws| && Disjoint(ws)
    ensures var f := ApplyWrites([], Kept(ws, keep));
            && (keep[k] ==> ws[k].at + |ws[k].data| <= |f| && f[ws[k].at..ws[k].at + |ws[k].data|] == ws[k].data)
            && (!keep[k] ==> forall i: nat :: Covers(ws[k], i) ==> ByteAt(f, i) == 0)
  {
    var kept := Kept(ws, keep);
    var f := ApplyWrites([], kept);
    KeptMembers(ws, keep);
    AppliedLength([], kept);
    forall i: nat | Covers(ws[k], i)
      ensures ByteAt(f, i) == if keep[k] then ws[k].data[i - ws[k].at] else 0
    {
      AppliedByte([], kept, i);
      LastWrittenFrom(kept, i, 0);
      OnlyCover(ws, keep, k, i);
    }
    if keep[k] {
      var s := f[ws[k].at..ws[k].at + |ws[k].data|];
      forall j | 0 <= j < |s| ensures s[j] == ws[k].data[j] {
        assert Covers(ws[k], ws[k].at + j);
        assert ByteAt(f, ws[k].at + j) == ws[k].data[j];
      }
    }
  }

  /** An open file shared by everyone holding it. */
  class File {
    var bytes: seq<byte>

    constructor (initial: seq<byte>)
      ensures bytes == initial
    {
      bytes := initial;
    }

    method Write(at: nat, data: seq<byte>)
      modifies this
      ensures bytes == WriteAt(old(bytes), at, data)
    {
      bytes := WriteAt(bytes, at, data);
    }
  }
}
