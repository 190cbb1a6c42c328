/** An interior index page is read a second time after its cells' overflow chains have
    been freed. A freed page that became a freelist trunk no longer names its successor:
    exactly when the second reading still gets through. */
module OverflowReread {
  import opened Bytes
  import opened Cells
  import opened Records
  import opened Freelist
  import opened Allocator
  import opened TreePages
  import opened FreeTree

  /** Following an overflow chain for `hops` pages. */
  function Reread(w: PageMap, p: u32, hops: nat, seen: set<u32>): Result<(), TreeError>
    decreases hops
  {
    if hops == 0 then Ok(())
    else if p == 0 then Err(OverflowChainTruncated)
    else if p in seen then Err(OverflowChainCycle(p))
    else if p !in w then Err(Unreadable(p))
    else if |w[p]| < 4 then Err(TreeError.PageTooShort)
    else Reread(w, U32At(w[p], 0), hops - 1, seen + {p})
  }

  function Trunks(ts: Chain): set<u32> { set i | 0 <= i < |ts| :: ts[i].0 }

  // ------------------------------------------------------------------ along the trunks

  lemma {:induction false} TrunksAreFree(ts: Chain, i: nat)
    requires i < |ts|
    ensures ts[i].0 in FreeSet(ts)
  {
    if i > 0 {
      TrunksAreFree(ts[1..], i - 1);
    }
  }

  lemma TrunkSplit(ts: Chain)
    requires ts != [] && |FreeSet(ts)| == Size(ts)
    ensures Trunks(ts) == {ts[0].0} + Trunks(ts[1..]) && ts[0].0 !in Trunks(ts[1..]) && |FreeSet(ts[1..])| == Size(ts[1..])
  {
    hide FreeSet, Size, Members;
    SplitFirst(ts);
    forall i | 0 <= i < |ts[1..]| ensures ts[1..][i].0 in FreeSet(ts[1..]) { TrunksAreFree(ts[1..], i); }
    forall p ensures p in Trunks(ts) <==> p in {ts[0].0} + Trunks(ts[1..]) {
      if p in Trunks(ts) {
        var i :| 0 <= i < |ts| && ts[i].0 == p;
        assert i > 0 ==> ts[1..][i - 1].0 == p;
      }
      if p in Trunks(ts[1..]) {
        var i :| 0 <= i < |ts[1..]| && ts[1..][i].0 == p;
        assert ts[i + 1].0 == p;
      }
    }
  }

  /** Walked as an overflow chain, the trunk list is exactly as long as it has trunks. */
  lemma {:induction false} TrunkWalk(w: PageMap, pageSize: nat, h: u32, ts: Chain, hops: nat, seen: set<u32>)
    requires Follows(w, pageSize, h, ts) && |FreeSet(ts)| == Size(ts) && seen !! Trunks(ts)
    requires forall p :: p in w ==> |w[p]| >= 8
    ensures Reread(w, h, hops, seen).Ok? <==> hops <= |ts|
    decreases |ts|
  {
    hide U32At, FreeSet, Size, MaxLeaves;
    if ts != [] && hops > 0 {
      TrunkSplit(ts);
      NextField(w[h]);
      assert ts[0].0 in Trunks(ts);
      TrunkWalk(w, pageSize, ParseTrunk(w[h]).value.next, ts[1..], hops - 1, seen + {h});
    }
  }

  lemma NextField(buf: Page)
    requires |buf| >= 8
    ensures ParseTrunk(buf).Ok? && ParseTrunk(buf).value.next == U32At(buf, 0)
  {
  }

  // --------------------------------------------------------------- along intact pages

  /** The first `j` pages of `c` still name their successors. */
  ghost predicate Intact(w: PageMap, c: seq<u32>, j: nat)
  {
    j < |c| && forall i :: 0 <= i < j ==> Links(w, c[i], NextIn(c, i))
  }

  lemma {:induction false} IntactWalk(w: PageMap, c: seq<u32>, i: nat, j: nat, hops: nat)
    requires Intact(w, c, j) && i <= j && j - i <= hops && (forall x, y :: 0 <= x < y < |c| ==> c[x] != c[y])
    ensures Reread(w, c[i], hops, Members(c[..i])) == Reread(w, c[j], hops - (j - i), Members(c[..j]))
    decreases j - i
  {
    hide U32At;
    if i < j {
      assert c[..i + 1] == c[..i] + [c[i]];
      assert Members(c[..i + 1]) == Members(c[..i]) + {c[i]};
      assert c[i] !in c[..i];
      IntactWalk(w, c, i + 1, j, hops - 1);
    }
  }

  // ------------------------------------------------------------- what freeing leaves

  lemma PushTouches(w: PageMap, pageSize: nat, ts: Chain, p: u32, q: u32)
    requires FreeInv(w, pageSize, ts) && p in w && FreeCountIn(w[1]) < U32_MAX && q in w && q != 1
    requires if HasRoom(ts, pageSize) then q != ts[0].0 else q != p
    ensures AfterPush(w, pageSize, ts, p)[q] == w[q]
  {
    hide U32At, Put, TrunkBytes, ParseTrunk, WithFree, Follows, FreeSet, Size, MaxLeaves;
  }

  lemma PushedTrunks(ts: Chain, pageSize: nat, p: u32)
    ensures Trunks(Pushed(ts, pageSize, p)) == if HasRoom(ts, pageSize) then Trunks(ts) else Trunks(ts) + {p}
  {
    hide MaxLeaves;
    var ts' := Pushed(ts, pageSize, p);
    if HasRoom(ts, pageSize) {
      assert forall i :: 0 <= i < |ts| ==> ts'[i].0 == ts[i].0;
    } else {
      forall q ensures q in Trunks(ts') <==> q in Trunks(ts) + {p} {
        if q in Trunks(ts) { var i :| 0 <= i < |ts| && ts[i].0 == q; assert ts'[i + 1].0 == q; }
        if q == p { assert ts'[0].0 == q; }
        if q in Trunks(ts') { var i :| 0 <= i < |ts'| && ts'[i].0 == q; assert i > 0 ==> ts[i - 1].0 == q; }
      }
    }
  }

  /** A page that is no trunk and is not freed keeps its bytes, free or not. */
  lemma {:induction false} NoTrunkKept(w: PageMap, pageSize: nat, ts: Chain, ps: seq<u32>, q: u32)
    requires FreeInv(w, pageSize, ts) && Freeable(w, ts, ps) && q in w && q != 1 && q !in Trunks(ts) && q !in ps
    ensures DeallocAll(w, pageSize, ps).Ok? && q in DeallocAll(w, pageSize, ps).value && DeallocAll(w, pageSize, ps).value[q] == w[q]
    decreases |ps|
  {
    hide U32At, Follows, Deallocate, AfterPush, Pushed, FreeSet, Size, HasRoom, Trunks;
    if ps != [] {
      var p := ps[0];
      StepKeeps(w, pageSize, ts, p);
      PushedTrunks(ts, pageSize, p);
      FirstIsTrunk(ts, pageSize);
      PushTouches(w, pageSize, ts, p, q);
      FreeableRest(w, AfterPush(w, pageSize, ts, p), ts, Pushed(ts, pageSize, p), ps);
      NoTrunkKept(AfterPush(w, pageSize, ts, p), pageSize, Pushed(ts, pageSize, p), ps[1..], q);
    }
  }

  lemma FirstIsTrunk(ts: Chain, pageSize: nat)
    ensures HasRoom(ts, pageSize) ==> ts[0].0 in Trunks(ts)
  {
    hide MaxLeaves;
  }

  /** Once page `p` heads the list above `ts`, it stays directly above `ts`. */
  lemma {:induction false} SuffixKept(pre: Chain, p: u32, leaves: seq<u32>, ts: Chain, pageSize: nat, ps: seq<u32>) returns (pre': Chain, leaves': seq<u32>)
    ensures PushAll(pre + [(p, leaves)] + ts, pageSize, ps) == pre' + [(p, leaves')] + ts
    decreases |ps|
  {
    hide MaxLeaves;
    if ps == [] {
      return pre, leaves;
    }
    var all := pre + [(p, leaves)] + ts;
    var next := Pushed(all, pageSize, ps[0]);
    var pre1, leaves1 := pre, leaves;
    if !HasRoom(all, pageSize) {
      pre1 := [(ps[0], [])] + pre;
    } else if pre == [] {
      leaves1 := leaves + [ps[0]];
    } else {
      pre1 := [(pre[0].0, pre[0].1 + [ps[0]])] + pre[1..];
    }
    assert next == pre1 + [(p, leaves1)] + ts;
    pre', leaves' := SuffixKept(pre1, p, leaves1, ts, pageSize, ps[1..]);
  }

  lemma {:induction false} FollowsSuffix(w: PageMap, pageSize: nat, h: u32, pre: Chain, ts: Chain)
    requires Follows(w, pageSize, h, pre + ts) && ts != [] && |FreeSet(pre + ts)| == Size(pre + ts)
    ensures Follows(w, pageSize, ts[0].0, ts) && |FreeSet(ts)| == Size(ts)
    decreases |pre|
  {
    hide ParseTrunk, MaxLeaves, FreeSet, Size;
    if pre == [] {
      assert pre + ts == ts;
    } else {
      assert (pre + ts)[1..] == pre[1..] + ts;
      SplitFirst(pre + ts);
      FollowsSuffix(w, pageSize, ParseTrunk(w[h]).value.next, pre[1..], ts);
    }
  }

  // -------------------------------------------------------------- the exact condition

  /** When page `i` of the chain freed from position `start` on comes up, the first trunk
      takes another leaf. */
  ghost predicate Room(ts: Chain, pageSize: nat, ps: seq<u32>, start: nat, i: nat)
  {
    start + i <= |ps| && HasRoom(PushAll(ts, pageSize, ps[..start + i]), pageSize)
  }

  /** Page `j` of that chain is the first of it to become a trunk. */
  ghost predicate FirstBreak(ts: Chain, pageSize: nat, ps: seq<u32>, start: nat, j: nat)
  {
    !Room(ts, pageSize, ps, start, j) && forall i :: 0 <= i < j ==> Room(ts, pageSize, ps, start, i)
  }

  /** Whatever remains of the chain past its first trunk is made up by older trunks. */
  ghost predicate Rereadable(ts: Chain, pageSize: nat, ps: seq<u32>, start: nat, len: nat)
  {
    forall j :: 0 <= j < len && FirstBreak(ts, pageSize, ps, start, j) ==>
      start + j <= |ps| && len - 1 - j <= |PushAll(ts, pageSize, ps[..start + j])|
  }

  lemma SplitAt(w: PageMap, pageSize: nat, ts: Chain, ps: seq<u32>, x: nat)
    requires FreeInv(w, pageSize, ts) && Freeable(w, ts, ps) && x < |ps|
    ensures DeallocAll(w, pageSize, ps[..x]).Ok?
    ensures var wx, tx := DeallocAll(w, pageSize, ps[..x]).value, PushAll(ts, pageSize, ps[..x]);
            && FreeInv(wx, pageSize, tx) && Freeable(wx, tx, ps[x..]) && wx.Keys == w.Keys && wx[ps[x]] == w[ps[x]]
            && DeallocAll(w, pageSize, ps) == DeallocAll(wx, pageSize, ps[x..])
            && PushAll(ts, pageSize, ps) == PushAll(tx, pageSize, ps[x..])
  {
    hide U32At, Follows, FreeSet, Size, DeallocAll, PushAll, FreeInv;
    var a, b := ps[..x], ps[x..];
    assert ps == a + b;
    ShapedFree(w, pageSize, ts);
    assert Freeable(w, ts, a);
    DeallocAllKeeps(w, pageSize, ts, a);
    DeallocAllAppend(w, pageSize, a, b);
    PushAllAppend(ts, pageSize, a, b);
    assert ps[x] !in a;
    assert Bystander(w, ts, a, ps[x]);
  }

  lemma ShapedFree(w: PageMap, pageSize: nat, ts: Chain)
    requires FreeInv(w, pageSize, ts)
    ensures Shaped(w, pageSize) && |FreeSet(ts)| == Size(ts) && forall p :: p in w ==> |w[p]| >= 8
  {
    hide U32At, Follows, FreeSet, Size;
  }

  lemma NotTrunk(ts: Chain, p: u32)
    requires p !in FreeSet(ts)
    ensures p !in Trunks(ts)
  {
    hide FreeSet;
    forall i | 0 <= i < |ts| ensures ts[i].0 != p { TrunksAreFree(ts, i); }
  }

  /** A page freed as a leaf keeps its bytes to the end. */
  lemma LeafPage(w: PageMap, pageSize: nat, ts: Chain, ps: seq<u32>, x: nat)
    requires FreeInv(w, pageSize, ts) && Freeable(w, ts, ps) && x < |ps| && HasRoom(PushAll(ts, pageSize, ps[..x]), pageSize)
    ensures Shaped(w, pageSize) && DeallocAll(w, pageSize, ps).Ok?
    ensures ps[x] in DeallocAll(w, pageSize, ps).value && DeallocAll(w, pageSize, ps).value[ps[x]] == w[ps[x]]
    ensures ps[x] !in Trunks(PushAll(ts, pageSize, ps[..x + 1]))
  {
    hide U32At, Follows, FreeSet, Size, PushAll, FreeInv, AfterPush, Pushed, Trunks, Deallocate;
    ShapedFree(w, pageSize, ts);
    SplitAt(w, pageSize, ts, ps, x);
    var p, wx, tx := ps[x], DeallocAll(w, pageSize, ps[..x]).value, PushAll(ts, pageSize, ps[..x]);
    assert ps[x..][0] == p && ps[x..][1..] == ps[x + 1..];
    StepKeeps(wx, pageSize, tx, p);
    NotTrunk(tx, p);
    PushedTrunks(tx, pageSize, p);
    FreeableRest(wx, AfterPush(wx, pageSize, tx, p), tx, Pushed(tx, pageSize, p), ps[x..]);
    NoTrunkKept(AfterPush(wx, pageSize, tx, p), pageSize, Pushed(tx, pageSize, p), ps[x + 1..], p);
    OneMorePush(ts, pageSize, ps, x);
  }

  lemma OneMorePush(ts: Chain, pageSize: nat, ps: seq<u32>, x: nat)
    requires x < |ps|
    ensures PushAll(ts, pageSize, ps[..x + 1]) == Pushed(PushAll(ts, pageSize, ps[..x]), pageSize, ps[x])
  {
    hide Pushed;
    assert ps[..x + 1] == ps[..x] + [ps[x]];
    PushAllAppend(ts, pageSize, ps[..x], [ps[x]]);
  }

  /** A page freed as a trunk leads, at the end, down the trunks that were there before it. */
  lemma TrunkPage(w: PageMap, pageSize: nat, ts: Chain, ps: seq<u32>, x: nat, hops: nat, seen: set<u32>)
    requires FreeInv(w, pageSize, ts) && Freeable(w, ts, ps) && x < |ps| && !HasRoom(PushAll(ts, pageSize, ps[..x]), pageSize)
    requires ps[x] !in seen && seen !! Trunks(PushAll(ts, pageSize, ps[..x]))
    ensures Shaped(w, pageSize) && DeallocAll(w, pageSize, ps).Ok?
    ensures Reread(DeallocAll(w, pageSize, ps).value, ps[x], hops, seen).Ok? <==> hops <= 1 + |PushAll(ts, pageSize, ps[..x])|
  {
    hide U32At, FreeSet, Size, FreeInv, DeallocAll, Reread, HasRoom, PushAll, Follows, Trunks, Freeable;
    ShapedFree(w, pageSize, ts);
    var tx := PushAll(ts, pageSize, ps[..x]);
    var leaves := TrunkStays(w, pageSize, ts, ps, x);
    var tail := [(ps[x], leaves)] + tx;
    TrunkSplit(tail);
    assert tail[1..] == tx;
    TrunkWalk(DeallocAll(w, pageSize, ps).value, pageSize, ps[x], tail, hops, seen);
  }

  lemma TrunkStays(w: PageMap, pageSize: nat, ts: Chain, ps: seq<u32>, x: nat) returns (leaves: seq<u32>)
    requires FreeInv(w, pageSize, ts) && Freeable(w, ts, ps) && x < |ps| && !HasRoom(PushAll(ts, pageSize, ps[..x]), pageSize)
    ensures Shaped(w, pageSize) && DeallocAll(w, pageSize, ps).Ok?
    ensures var w', tail := DeallocAll(w, pageSize, ps).value, [(ps[x], leaves)] + PushAll(ts, pageSize, ps[..x]);
            Follows(w', pageSize, ps[x], tail) && |FreeSet(tail)| == Size(tail) && forall p :: p in w' ==> |w'[p]| >= 8
  {
    hide U32At, FreeSet, Size, DeallocAll, HasRoom, Follows, Freeable, FreeInv, PushAll, HeadIn;
    CanFree(w, pageSize, ts, ps);
    var w', p, tx := DeallocAll(w, pageSize, ps).value, ps[x], PushAll(ts, pageSize, ps[..x]);
    PushedAbove(ts, pageSize, ps, x);
    var pre;
    pre, leaves := SuffixKept([], p, [], tx, pageSize, ps[x + 1..]);
    var tail := [(p, leaves)] + tx;
    assert PushAll(ts, pageSize, ps) == pre + tail;
    var h := ListedFrom(w', pageSize, pre + tail);
    FollowsSuffix(w', pageSize, h, pre, tail);
  }

  lemma ListedFrom(w: PageMap, pageSize: nat, ts: Chain) returns (h: u32)
    requires FreeInv(w, pageSize, ts)
    ensures Follows(w, pageSize, h, ts) && |FreeSet(ts)| == Size(ts) && forall p :: p in w ==> |w[p]| >= 8
  {
    hide U32At, Follows, FreeSet, Size;
    h := HeadIn(w[1]);
  }

  lemma PushedAbove(ts: Chain, pageSize: nat, ps: seq<u32>, x: nat)
    requires x < |ps| && !HasRoom(PushAll(ts, pageSize, ps[..x]), pageSize)
    ensures var tx := PushAll(ts, pageSize, ps[..x]);
            PushAll(ts, pageSize, ps) == PushAll([] + [(ps[x], [])] + tx, pageSize, ps[x + 1..])
  {
    var tx := PushAll(ts, pageSize, ps[..x]);
    assert ps == ps[..x] + ps[x..];
    PushAllAppend(ts, pageSize, ps[..x], ps[x..]);
    assert ps[x..][0] == ps[x] && ps[x..][1..] == ps[x + 1..];
    assert Pushed(tx, pageSize, ps[x]) == [] + [(ps[x], [])] + tx;
  }

  /** Chain `c`, freed among `ps` from position `start` on, can be followed again to its
      full length if and only if its pages became leaves, or the trunks already on the
      list make up for what lies past the first that did not. */
  lemma RereadIff(w: PageMap, pageSize: nat, ts: Chain, ps: seq<u32>, start: nat, c: seq<u32>)
    requires FreeInv(w, pageSize, ts) && Freeable(w, ts, ps) && c != [] && IsChain(w, c)
    requires start + |c| <= |ps| && ps[start..start + |c|] == c
    ensures Shaped(w, pageSize) && DeallocAll(w, pageSize, ps).Ok?
    ensures Reread(DeallocAll(w, pageSize, ps).value, c[0], |c|, {}).Ok? <==> Rereadable(ts, pageSize, ps, start, |c|)
  {
    hide U32At, FreeInv, DeallocAll, PushAll, Room, Reread, Intact, IsChain, Freeable;
    hide Rereadable, FirstBreak;
    CanFree(w, pageSize, ts, ps);
    assert forall i :: 0 <= i < |c| ==> c[i] == ps[start + i];
    var j := LeavesBefore(w, pageSize, ts, ps, start, c);
    var w' := DeallocAll(w, pageSize, ps).value;
    IntactWalk(w', c, 0, if j < |c| then j else |c| - 1, |c|);
    assert c[..0] == [] && Members([]) == {};
    if j < |c| {
      BreakWalk(w, pageSize, ts, ps, start, c, j);
      RereadableAt(ts, pageSize, ps, start, |c|, j);
    } else {
      LastHop(w', c);
      NoBreak(ts, pageSize, ps, start, |c|);
    }
  }

  lemma CanFree(w: PageMap, pageSize: nat, ts: Chain, ps: seq<u32>)
    requires FreeInv(w, pageSize, ts) && Freeable(w, ts, ps)
    ensures Shaped(w, pageSize) && DeallocAll(w, pageSize, ps).Ok?
    ensures FreeInv(DeallocAll(w, pageSize, ps).value, pageSize, PushAll(ts, pageSize, ps))
  {
    hide U32At, Follows, FreeSet, Size, DeallocAll, PushAll, Freeable;
    DeallocAllKeeps(w, pageSize, ts, ps);
  }

  lemma RereadableAt(ts: Chain, pageSize: nat, ps: seq<u32>, start: nat, len: nat, j: nat)
    requires j < len && start + len <= |ps| && FirstBreak(ts, pageSize, ps, start, j)
    ensures Rereadable(ts, pageSize, ps, start, len) <==> len - 1 - j <= |PushAll(ts, pageSize, ps[..start + j])|
  {
    hide FirstBreak, PushAll;
    OneBreak(ts, pageSize, ps, start, j);
  }

  lemma NoBreak(ts: Chain, pageSize: nat, ps: seq<u32>, start: nat, len: nat)
    requires forall i :: 0 <= i < len ==> Room(ts, pageSize, ps, start, i)
    ensures Rereadable(ts, pageSize, ps, start, len)
  {
    hide Room;
  }

  lemma BreakWalk(w: PageMap, pageSize: nat, ts: Chain, ps: seq<u32>, start: nat, c: seq<u32>, j: nat)
    requires FreeInv(w, pageSize, ts) && Freeable(w, ts, ps) && j < |c| && start + |c| <= |ps| && Shaped(w, pageSize)
    requires (forall i :: 0 <= i < |c| ==> c[i] == ps[start + i]) && FirstBreak(ts, pageSize, ps, start, j)
    requires forall x, y :: 0 <= x < y < |c| ==> c[x] != c[y]
    ensures DeallocAll(w, pageSize, ps).Ok?
    ensures Reread(DeallocAll(w, pageSize, ps).value, c[j], |c| - j, Members(c[..j])).Ok?
       <==> |c| - 1 - j <= |PushAll(ts, pageSize, ps[..start + j])|
  {
    hide U32At, FreeInv, DeallocAll, PushAll, HasRoom, Reread, Freeable, Trunks;
    EarlierLeaves(w, pageSize, ts, ps, start, c, j);
    assert c[j] !in c[..j];
    TrunkPage(w, pageSize, ts, ps, start + j, |c| - j, Members(c[..j]));
  }

  lemma OneBreak(ts: Chain, pageSize: nat, ps: seq<u32>, start: nat, j: nat)
    requires FirstBreak(ts, pageSize, ps, start, j)
    ensures forall i: nat :: FirstBreak(ts, pageSize, ps, start, i) ==> i == j
  {
    hide Room;
    forall i: nat | FirstBreak(ts, pageSize, ps, start, i) ensures i == j {
      assert i < j ==> Room(ts, pageSize, ps, start, i);
      assert j < i ==> Room(ts, pageSize, ps, start, j);
    }
  }

  lemma LastHop(w: PageMap, c: seq<u32>)
    requires c != [] && c[|c| - 1] != 0 && c[|c| - 1] in w && |w[c[|c| - 1]]| >= 4 && c[|c| - 1] !in c[..|c| - 1]
    ensures Reread(w, c[|c| - 1], 1, Members(c[..|c| - 1])).Ok?
  {
    hide U32At;
  }

  /** How many pages of the chain became leaves before the first that did not. */
  lemma {:induction false} LeavesBefore(w: PageMap, pageSize: nat, ts: Chain, ps: seq<u32>, start: nat, c: seq<u32>) returns (j: nat)
    requires FreeInv(w, pageSize, ts) && Freeable(w, ts, ps) && c != [] && IsChain(w, c) && Shaped(w, pageSize)
    requires start + |c| <= |ps| && forall i :: 0 <= i < |c| ==> c[i] == ps[start + i]
    requires DeallocAll(w, pageSize, ps).Ok?
    ensures j <= |c| && (forall i :: 0 <= i < j ==> Room(ts, pageSize, ps, start, i))
    ensures j < |c| ==> FirstBreak(ts, pageSize, ps, start, j)
    ensures forall x, y :: 0 <= x < y < |c| ==> c[x] != c[y]
    ensures Intact(DeallocAll(w, pageSize, ps).value, c, if j < |c| then j else |c| - 1)
    ensures j == |c| ==> var last := c[|c| - 1];
              last in DeallocAll(w, pageSize, ps).value && |DeallocAll(w, pageSize, ps).value[last]| >= 4 && last !in c[..|c| - 1] && last != 0
  {
    hide U32At, FreeInv, DeallocAll, PushAll, HasRoom, Links, Intact;
    j := 0;
    while j < |c| && Room(ts, pageSize, ps, start, j)
      invariant j <= |c| && forall i :: 0 <= i < j ==> Room(ts, pageSize, ps, start, i)
    {
      j := j + 1;
    }
    forall i | 0 <= i < j ensures c[i] in DeallocAll(w, pageSize, ps).value && DeallocAll(w, pageSize, ps).value[c[i]] == w[c[i]] {
      assert Room(ts, pageSize, ps, start, i);
      LeafPage(w, pageSize, ts, ps, start + i);
    }
    LinksKept(w, DeallocAll(w, pageSize, ps).value, c, j);
  }

  lemma LinksKept(w: PageMap, w': PageMap, c: seq<u32>, j: nat)
    requires IsChain(w, c) && j <= |c| && c != [] && forall i :: 0 <= i < j ==> c[i] in w' && w'[c[i]] == w[c[i]]
    ensures Intact(w', c, if j < |c| then j else |c| - 1)
    ensures j == |c| ==> c[|c| - 1] in w' && |w'[c[|c| - 1]]| >= 4 && c[|c| - 1] != 0
  {
    hide U32At;
    forall i | 0 <= i < j ensures Links(w', c[i], NextIn(c, i)) { assert Links(w, c[i], NextIn(c, i)); }
  }

  /** The pages before the break are leaves of the list, not trunks. */
  lemma {:induction false} EarlierLeaves(w: PageMap, pageSize: nat, ts: Chain, ps: seq<u32>, start: nat, c: seq<u32>, j: nat)
    requires FreeInv(w, pageSize, ts) && Freeable(w, ts, ps) && j < |c| && start + |c| <= |ps|
    requires (forall i :: 0 <= i < |c| ==> c[i] == ps[start + i]) && forall i :: 0 <= i < j ==> Room(ts, pageSize, ps, start, i)
    ensures Members(c[..j]) !! Trunks(PushAll(ts, pageSize, ps[..start + j]))
  {
    hide FreeInv, PushAll, HasRoom, Trunks;
    forall i | 0 <= i < j ensures c[i] !in Trunks(PushAll(ts, pageSize, ps[..start + j])) {
      assert Room(ts, pageSize, ps, start, i);
      LaterNoTrunk(w, pageSize, ts, ps, start + i, start + j);
    }
  }

  lemma LaterNoTrunk(w: PageMap, pageSize: nat, ts: Chain, ps: seq<u32>, x: nat, y: nat)
    requires FreeInv(w, pageSize, ts) && Freeable(w, ts, ps) && x < y <= |ps| && HasRoom(PushAll(ts, pageSize, ps[..x]), pageSize)
    ensures ps[x] !in Trunks(PushAll(ts, pageSize, ps[..y]))
  {
    hide FreeInv, PushAll, HasRoom, Trunks, DeallocAll;
    LeafPage(w, pageSize, ts, ps, x);
    StillNoTrunk(ts, pageSize, ps, x + 1, y, ps[x]);
  }

  lemma {:induction false} StillNoTrunk(ts: Chain, pageSize: nat, ps: seq<u32>, x: nat, y: nat, p: u32)
    requires x <= y <= |ps| && p !in Trunks(PushAll(ts, pageSize, ps[..x])) && forall i :: x <= i < |ps| ==> ps[i] != p
    ensures p !in Trunks(PushAll(ts, pageSize, ps[..y]))
    decreases y - x
  {
    hide PushAll, Trunks, Pushed;
    if x < y {
      OneMorePush(ts, pageSize, ps, x);
      PushedTrunks(PushAll(ts, pageSize, ps[..x]), pageSize, ps[x]);
      StillNoTrunk(ts, pageSize, ps, x + 1, y, p);
    }
  }

  // ------------------------------------------------------------------ the bytes read again

  /** The next `remaining` payload bytes, following overflow pages of `per` bytes each. */
  function ReadOn(w: PageMap, p: u32, remaining: nat, per: nat, seen: set<u32>): Result<seq<byte>, TreeError>
    requires per > 0
    decreases remaining
  {
    if remaining == 0 then Ok([])
    else if p == 0 then Err(OverflowChainTruncated)
    else if p in seen then Err(OverflowChainCycle(p))
    else if |seen| >= MAX_PAGES_VISITED then Err(OverflowChainTooLong)
    else if p !in w then Err(Unreadable(p))
    else if |w[p]| < 4 then Err(TreeError.PageTooShort)
    else
      var take := Min(remaining, per);
      if 4 + take > |w[p]| then Err(TreeError.PageTooShort)
      else match ReadOn(w, U32At(w[p], 0), remaining - take, per, seen + {p})
        case Err(e) => Err(e)
        case Ok(rest) => Ok(w[p][4..4 + take] + rest)
  }

  function After(done: seq<byte>, r: Result<seq<byte>, TreeError>): Result<seq<byte>, TreeError>
  {
    match r case Err(e) => Err(e) case Ok(rest) => Ok(done + rest)
  }

  /** The loop over an overflow chain. */
  method Reassemble(w: PageMap, first: u32, total: nat, per: nat) returns (r: Result<seq<byte>, TreeError>)
    requires per > 0
    ensures r == ReadOn(w, first, total, per, {})
  {
    hide U32At;
    var p, left: nat, seen: set<u32>, done := first, total, {}, [];
    NothingDone(ReadOn(w, first, total, per, {}));
    while left > 0
      invariant ReadOn(w, first, total, per, {}) == After(done, ReadOn(w, p, left, per, seen))
      decreases left
    {
      if p == 0 {
        return Err(OverflowChainTruncated);
      }
      if p in seen {
        return Err(OverflowChainCycle(p));
      }
      if |seen| >= MAX_PAGES_VISITED {
        return Err(OverflowChainTooLong);
      }
      if p !in w {
        return Err(Unreadable(p));
      }
      if |w[p]| < 4 {
        return Err(TreeError.PageTooShort);
      }
      var take := Min(left, per);
      if 4 + take > |w[p]| {
        return Err(TreeError.PageTooShort);
      }
      MoreDone(done, w[p][4..4 + take], ReadOn(w, U32At(w[p], 0), left - take, per, seen + {p}));
      done, left, seen, p := done + w[p][4..4 + take], left - take, seen + {p}, U32At(w[p], 0);
    }
    assert done + [] == done;
    return Ok(done);
  }

  lemma NothingDone(r: Result<seq<byte>, TreeError>)
    ensures After([], r) == r
  {
    if r.Ok? { assert [] + r.value == r.value; }
  }

  lemma MoreDone(a: seq<byte>, b: seq<byte>, r: Result<seq<byte>, TreeError>)
    ensures After(a, After(b, r)) == After(a + b, r)
  {
    if r.Ok? { assert a + (b + r.value) == (a + b) + r.value; }
  }

  /** Bytes read along a chain whose pages are the same are the same. */
  lemma {:induction false} ReadKept(w: PageMap, w': PageMap, c: seq<u32>, remaining: nat, per: nat, seen: set<u32>)
    requires per > 0 && IsChain(w, c) && forall i :: 0 <= i < |c| ==> c[i] in w' && w'[c[i]] == w[c[i]]
    ensures ReadOn(w', Head(c), remaining, per, seen) == ReadOn(w, Head(c), remaining, per, seen)
    decreases |c|
  {
    hide U32At;
    if c != [] {
      ChainTail(w, c);
      assert Links(w, c[0], NextIn(c, 0));
      assert forall i :: 0 <= i < |c[1..]| ==> c[1..][i] == c[i + 1];
      ReadKept(w, w', c[1..], remaining - Min(remaining, per), per, seen + {c[0]});
    }
  }

  function Head(c: seq<u32>): u32 { if c == [] then 0 else c[0] }

  lemma ChainTail(w: PageMap, c: seq<u32>)
    requires IsChain(w, c) && c != []
    ensures IsChain(w, c[1..])
  {
    hide Links;
    var t := c[1..];
    forall i | 0 <= i < |t| ensures Links(w, t[i], NextIn(t, i)) {
      assert Links(w, c[i + 1], NextIn(c, i + 1));
    }
  }

  /** The bytes are all there exactly if the chain can be followed to its length, given
      that pages are large enough. */
  lemma {:induction false} ReadIffReread(w: PageMap, p: u32, remaining: nat, per: nat, seen: set<u32>)
    requires per > 0 && (forall q :: q in w ==> 4 + per <= |w[q]|) && |seen| + Pieces(remaining, per) <= MAX_PAGES_VISITED
    ensures ReadOn(w, p, remaining, per, seen).Ok? <==> Reread(w, p, Pieces(remaining, per), seen).Ok?
    decreases remaining
  {
    hide U32At;
    if remaining > 0 && p != 0 && p !in seen && p in w {
      ReadIffReread(w, U32At(w[p], 0), remaining - Min(remaining, per), per, seen + {p});
    }
  }

  // ------------------------------------------------------------- what is read along a chain

  /** A chain that ends has no page twice: from two equal pages on it would go the same way. */
  lemma {:induction false} NoPageTwice(w: PageMap, c: seq<u32>, i: nat, j: nat)
    requires IsChain(w, c) && i < j < |c|
    ensures c[i] != c[j]
    decreases |c| - j
  {
    hide U32At;
    assert Links(w, c[i], NextIn(c, i)) && Links(w, c[j], NextIn(c, j)) && Links(w, c[i + 1], NextIn(c, i + 1));
    if j + 1 < |c| {
      NoPageTwice(w, c, i + 1, j + 1);
    }
  }

  lemma FewSeen(c: seq<u32>, i: nat)
    requires i <= |c|
    ensures |Members(c[..i])| <= i
  {
    if i > 0 {
      FewSeen(c, i - 1);
      OneMoreSeen(c, i - 1);
    }
  }

  lemma OneMoreSeen(c: seq<u32>, i: nat)
    requires i < |c|
    ensures Members(c[..i]) + {c[i]} == Members(c[..i + 1])
  {
    assert c[..i + 1] == c[..i] + [c[i]];
  }

  /** The page after page `i` of a chain, and that page's place. */
  lemma ChainStep(w: PageMap, c: seq<u32>, i: nat)
    requires IsChain(w, c) && i < |c|
    ensures c[i] != 0 && c[i] in w && |w[c[i]]| >= 4 && c[i] !in c[..i] && U32At(w[c[i]], 0) == Head(c[i + 1..])
  {
    hide U32At;
    assert Links(w, c[i], NextIn(c, i));
    forall j | 0 <= j < i ensures c[j] != c[i] { NoPageTwice(w, c, j, i); }
  }

  lemma NextPiece(k: nat, per: nat)
    requires 0 < per <= k
    ensures (k - per) / per == k / per - 1 && (k - per) % per == k % per
  {
    WholePages(k, per);
    var q := k / per;
    SpanDivides(q - 1, per, k % per);
    SpanMod(q - 1, per, k % per);
  }

  lemma FirstPiece(k: nat, per: nat)
    requires k < per
    ensures k / per == 0 && k % per == k
  {
  }

  /** Byte `k` of what the pages of `c` from page `i` on hold, `per` bytes each. */
  function ByteOf(w: PageMap, c: seq<u32>, i: nat, k: nat, per: nat): byte
    requires per > 0
  {
    var p := i + k / per;
    if p < |c| && c[p] in w && 4 + k % per < |w[c[p]]| then w[c[p]][4 + k % per] else 0
  }

  ghost predicate HoldsPieces(w: PageMap, c: seq<u32>, per: nat)
  {
    IsChain(w, c) && |c| <= MAX_PAGES_VISITED && forall i :: 0 <= i < |c| ==> c[i] in w && 4 + per <= |w[c[i]]|
  }

  lemma {:induction false} ReadsFrom(w: PageMap, c: seq<u32>, i: nat, remaining: nat, per: nat)
    requires per > 0 && HoldsPieces(w, c, per) && i <= |c| && |c| - i == Pieces(remaining, per)
    ensures var r := ReadOn(w, Head(c[i..]), remaining, per, Members(c[..i]));
            r.Ok? && |r.value| == remaining && forall k :: 0 <= k < remaining ==> r.value[k] == ByteOf(w, c, i, k, per)
    decreases remaining
  {
    hide U32At, IsChain, ByteOf;
    if remaining > 0 {
      var take := Min(remaining, per);
      ChainStep(w, c, i);
      FewSeen(c, i);
      OneMoreSeen(c, i);
      ReadsFrom(w, c, i + 1, remaining - take, per);
      var r := ReadOn(w, Head(c[i..]), remaining, per, Members(c[..i]));
      forall k | 0 <= k < remaining ensures r.value[k] == ByteOf(w, c, i, k, per) { PieceByte(w, c, i, k, per); }
    }
  }

  /** A byte is on the first page, or on the pages after it. */
  lemma PieceByte(w: PageMap, c: seq<u32>, i: nat, k: nat, per: nat)
    requires per > 0 && i < |c| && c[i] in w && 4 + per <= |w[c[i]]|
    ensures ByteOf(w, c, i, k, per) == if k < per then w[c[i]][4 + k] else ByteOf(w, c, i + 1, k - per, per)
  {
    if k < per { FirstPiece(k, per); } else { NextPiece(k, per); }
  }

  /** The pages of `c` hold `s` in order: byte `k` is byte `k % per` behind the link of page
      `k / per`. */
  ghost predicate Spread(w: PageMap, c: seq<u32>, per: nat, s: seq<byte>)
    requires per > 0
  {
    forall k :: 0 <= k < |s| ==>
      k / per < |c| && c[k / per] in w && 4 + k % per < |w[c[k / per]]| && s[k] == w[c[k / per]][4 + k % per]
  }

  /** Following a chain reads what its pages hold, in order. */
  lemma ReassembledBytes(w: PageMap, c: seq<u32>, total: nat, per: nat)
    requires per > 0 && HoldsPieces(w, c, per) && |c| == Pieces(total, per)
    ensures var r := ReadOn(w, Head(c), total, per, {}); r.Ok? && |r.value| == total && Spread(w, c, per, r.value)
  {
    hide IsChain, Pieces, ReadOn;
    assert c[0..] == c && c[..0] == [] && Members([]) == {};
    ReadsFrom(w, c, 0, total, per);
    forall k | 0 <= k < total ensures k / per < |c| && c[k / per] in w && 4 + k % per < |w[c[k / per]]| {
      OnSomePage(total, k, per);
    }
  }

  lemma {:induction false} OnSomePage(total: nat, k: nat, per: nat)
    requires per > 0 && k < total
    ensures k / per < Pieces(total, per)
    decreases total
  {
    if k < per {
      FirstPiece(k, per);
    } else {
      NextPiece(k, per);
      OnSomePage(total - per, k - per, per);
    }
  }

  // ------------------------------------------------------------------------- index keys

  /** The key whose value cell starts at `at` of an interior index page, all of it. */
  function KeyAt(w: PageMap, buf: Page, at: nat, usable: nat): Result<seq<byte>, TreeError>
  {
    if at > |buf| then Err(BadCell(InvalidCellPointer))
    else match CellHead(buf[at..], false)
      case Err(e) => Err(BadCell(e))
      case Ok(head) =>
        var local, tail := LocalPayloadSize(usable, head.0, true), at + head.2;
        if tail + local + (if local < head.0 then 4 else 0) > |buf| then Err(BadCell(PayloadTooShort))
        else if head.0 > MAX_PAYLOAD_LEN then Err(PayloadTooLarge)
        else if local == head.0 then Ok(buf[tail..tail + local])
        else After(buf[tail..tail + local], ReadOn(w, U32At(buf, tail + local), head.0 - local, PerOverflowPage(usable), {}))
  }

  /** `c` is the overflow chain of the value cell at `at`, with every page it needs. */
  ghost predicate ChainOf(w: PageMap, buf: Page, at: nat, usable: nat, c: seq<u32>)
  {
    && at <= |buf| && CellHead(buf[at..], false).Ok? && HoldsPieces(w, c, PerOverflowPage(usable))
    && var head := CellHead(buf[at..], false).value;
    && var local := LocalPayloadSize(usable, head.0, true);
    && head.0 <= MAX_PAYLOAD_LEN && at + head.2 + local + (if local < head.0 then 4 else 0) <= |buf|
    && |c| == Pieces(head.0 - local, PerOverflowPage(usable))
    && (local < head.0 ==> U32At(buf, at + head.2 + local) == Head(c))
  }

  /** A key is the bytes on its own page, then those on its chain, in order. */
  lemma KeyBytes(w: PageMap, buf: Page, at: nat, usable: nat, c: seq<u32>) returns (head: (nat, nat, nat), local: nat, rest: seq<byte>)
    requires ChainOf(w, buf, at, usable, c)
    ensures CellHead(buf[at..], false) == Ok(head) && local == LocalPayloadSize(usable, head.0, true) && at + head.2 + local <= |buf|
    ensures KeyAt(w, buf, at, usable) == Ok(buf[at + head.2..at + head.2 + local] + rest)
    ensures local + |rest| == head.0 && PerOverflowPage(usable) > 0 && Spread(w, c, PerOverflowPage(usable), rest)
  {
    hide U32At, CellHead, LocalPayloadSize, HoldsPieces, Pieces, ReadOn, PerOverflowPage, Spread;
    PerPositive(usable);
    head := CellHead(buf[at..], false).value;
    local := LocalPayloadSize(usable, head.0, true);
    ReassembledBytes(w, c, head.0 - local, PerOverflowPage(usable));
    rest := ReadOn(w, Head(c), head.0 - local, PerOverflowPage(usable), {}).value;
    if local == head.0 {
      var own := buf[at + head.2..at + head.2 + local];
      assert own + rest == own;
    }
  }

  /** Key `i` of the page can be read in full and decodes. */
  predicate ReadsKey(w: PageMap, buf: Page, hs: nat, i: nat, usable: nat, enc: TextEncoding)
  {
    match CellStart(buf, hs, IndexInterior, i)
    case Err(_) => false
    case Ok(start) => match KeyAt(w, buf, start + 4, usable)
                      case Err(_) => false
                      case Ok(payload) => Decodes(payload, enc)
  }

  ghost predicate ReadsKeys(w: PageMap, buf: Page, hs: nat, n: nat, usable: nat, enc: TextEncoding)
  {
    forall i :: 0 <= i < n ==> ReadsKey(w, buf, hs, i, usable, enc)
  }

  /** Reads and decodes one key. */
  method ReadKey(w: PageMap, buf: Page, at: nat, usable: nat, enc: TextEncoding) returns (r: Result<seq<Column>, TreeError>)
    ensures r.Ok? <==> KeyAt(w, buf, at, usable).Ok? && Decodes(KeyAt(w, buf, at, usable).value, enc)
    ensures r.Ok? ==> r.value == Decoded(KeyAt(w, buf, at, usable).value, enc)
  {
    hide U32At, CellHead, LocalPayloadSize, ReadOn, Decodes, Decoded;
    if at > |buf| {
      return Err(BadCell(InvalidCellPointer));
    }
    var head := CellHead(buf[at..], false);
    if head.Err? {
      return Err(BadCell(head.error));
    }
    var len := head.value.0;
    var local, tail := LocalPayloadSize(usable, len, true), at + head.value.2;
    if tail + local + (if local < len then 4 else 0) > |buf| {
      return Err(BadCell(PayloadTooShort));
    }
    if len > MAX_PAYLOAD_LEN {
      return Err(PayloadTooLarge);
    }
    var payload := buf[tail..tail + local];
    if local < len {
      var rest := Reassemble(w, U32At(buf, tail + local), len - local, PerOverflowPage(usable));
      if rest.Err? {
        return Err(rest.error);
      }
      payload := payload + rest.value;
    }
    var key := DecodeRecord(payload, enc);
    return if key.Some? then Ok(key.value) else Err(BadRecord);
  }

  /** The key of a cell whose overflow chain is `c` depends on the pages of `c` alone. */
  lemma KeyKept(w: PageMap, w': PageMap, buf: Page, hs: nat, i: nat, usable: nat, c: seq<u32>, enc: TextEncoding)
    requires CellChain(buf, hs, IndexInterior, i, usable, c) && IsChain(w, c)
    requires forall j :: 0 <= j < |c| ==> c[j] in w' && w'[c[j]] == w[c[j]]
    ensures ReadsKey(w', buf, hs, i, usable, enc) <==> ReadsKey(w, buf, hs, i, usable, enc)
  {
    hide U32At, LocalPayloadSize, ReadOn, Decodes, CellHead, IsChain, Pieces;
    var o := OverflowOf(buf, hs, IndexInterior, i, usable);
    if o.value.Some? {
      var at := CellStart(buf, hs, IndexInterior, i).value + 4;
      var head := CellHead(buf[at..], false).value;
      var local := LocalPayloadSize(usable, head.0, true);
      ReadKept(w, w', c, head.0 - local, PerOverflowPage(usable), {});
    }
  }

  /** Without following its chain to the end, an overflowing key is not read. */
  lemma KeyNeedsChain(w: PageMap, buf: Page, hs: nat, i: nat, usable: nat, c: seq<u32>, enc: TextEncoding)
    requires CellChain(buf, hs, IndexInterior, i, usable, c) && c != [] && ReadsKey(w, buf, hs, i, usable, enc)
    ensures Reread(w, c[0], |c|, {}).Ok?
  {
    hide U32At, LocalPayloadSize, Decodes, CellHead, Pieces, ReadOn, Reread;
    var at := CellStart(buf, hs, IndexInterior, i).value + 4;
    var head := CellHead(buf[at..], false).value;
    var local := LocalPayloadSize(usable, head.0, true);
    ReadNeedsChain(w, c[0], head.0 - local, PerOverflowPage(usable), {});
  }

  lemma {:induction false} ReadNeedsChain(w: PageMap, p: u32, remaining: nat, per: nat, seen: set<u32>)
    requires per > 0 && ReadOn(w, p, remaining, per, seen).Ok?
    ensures Reread(w, p, Pieces(remaining, per), seen).Ok?
    decreases remaining
  {
    hide U32At;
    if remaining > 0 {
      ReadNeedsChain(w, U32At(w[p], 0), remaining - Min(remaining, per), per, seen + {p});
    }
  }
}
