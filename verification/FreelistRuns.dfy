/** Every run of allocations, frees and page edits keeps the freelist sound, and the
    integrity check finds nothing to report in any state of such a run. */
module FreelistRuns {
  import opened Bytes
  import opened Freelist
  import opened Allocator

  /** The pages of the database and those handed out and not yet returned. */
  datatype Store = Store(pages: PageMap, used: set<u32>)

  datatype Op = Alloc | Free(p: u32) | Edit(p: u32, content: Page)

  /** An edit leaves the three allocator fields of page 1 as they are. */
  ghost predicate KeepsFields(before: Page, after: Page)
  {
    && |before| >= 40 && |after| >= 40 && CountIn(after) == CountIn(before)
    && HeadIn(after) == HeadIn(before) && FreeCountIn(after) == FreeCountIn(before)
  }

  ghost predicate Next(pageSize: nat, s: Store, s': Store, op: Op)
  {
    && Shaped(s.pages, pageSize)
    && match op
       case Alloc =>
         && Allocate(s.pages, pageSize).Ok?
         && var r := Allocate(s.pages, pageSize).value;
            s' == Store(r.1, s.used + {r.0})
       case Free(p) =>
         && p in s.used && p != 1 && Deallocate(s.pages, pageSize, p).Ok?
         && s' == Store(Deallocate(s.pages, pageSize, p).value, s.used - {p})
       case Edit(p, content) =>
         && p in s.used && p in s.pages && |content| == pageSize
         && (p == 1 ==> KeepsFields(s.pages[1], content))
         && s' == s.(pages := s.pages[p := content])
  }

  /** Used and free pages together are all the pages, and no page is both. */
  ghost predicate Partitioned(pageSize: nat, s: Store, ts: Chain)
  {
    FreeInv(s.pages, pageSize, ts) && s.used == s.pages.Keys - FreeSet(ts)
  }

  ghost predicate Sound(pageSize: nat, s: Store) { exists ts :: Partitioned(pageSize, s, ts) }

  /** The one state in which extending the file cannot number a new page. */
  predicate Exhausted(w: PageMap)
    requires 1 in w && |w[1]| >= 40
  {
    HeadIn(w[1]) == 0 && CountIn(w[1]) == U32_MAX
  }

  lemma AllocSound(pageSize: nat, s: Store, ts: Chain)
    requires Partitioned(pageSize, s, ts)
    ensures Allocate(s.pages, pageSize).Ok?
    ensures Allocate(s.pages, pageSize).value.0 !in s.used <==> !Exhausted(s.pages)
    ensures var r := Allocate(s.pages, pageSize).value;
            !Exhausted(s.pages) ==>
              && Partitioned(pageSize, Store(r.1, s.used + {r.0}), if ts == [] then [] else Popped(ts))
              && (forall q :: q in s.used && q != 1 ==> q in r.1 && r.1[q] == s.pages[q])
  {
    hide U32At, Follows, FreeSet, Size, Put;
    if ts == [] {
      NoTrunks(s.pages, pageSize);
      if CountIn(s.pages[1]) < U32_MAX {
        AllocateExtends(s.pages, pageSize);
      } else {
        LastPageUsed(pageSize, s);
      }
    } else {
      AllocateReuses(s.pages, pageSize, ts);
      PoppedSets(ts, CountIn(s.pages[1]));
      FirstTrunk(s.pages, pageSize, ts);
      forall q | q in s.used && q != 1 ensures AfterPop(s.pages, pageSize, ts)[q] == s.pages[q] {
        PopFrame(s.pages, pageSize, ts, q);
      }
    }
  }

  lemma NoTrunks(w: PageMap, pageSize: nat)
    requires FreeInv(w, pageSize, [])
    ensures HeadIn(w[1]) == 0 && FreeSet([]) == {}
  {
  }

  /** With the page numbers used up, the last page is handed out a second time. */
  lemma LastPageUsed(pageSize: nat, s: Store)
    requires Partitioned(pageSize, s, []) && CountIn(s.pages[1]) == U32_MAX
    ensures Allocate(s.pages, pageSize).Ok? && Allocate(s.pages, pageSize).value.0 in s.used
  {
    hide U32At, Put, Zeros;
    NoTrunks(s.pages, pageSize);
    assert Numbered(U32_MAX, U32_MAX);
    assert U32_MAX in Pages(U32_MAX);
  }

  lemma FreeSound(pageSize: nat, s: Store, ts: Chain, p: u32)
    requires Partitioned(pageSize, s, ts) && p in s.used && p != 1
    ensures Deallocate(s.pages, pageSize, p).Ok?
    ensures var w' := Deallocate(s.pages, pageSize, p).value;
            && Partitioned(pageSize, Store(w', s.used - {p}), Pushed(ts, pageSize, p))
            && (forall q :: q in s.used && q != 1 && q != p ==> q in w' && w'[q] == s.pages[q])
  {
    hide U32At, Follows, FreeSet, Size, Put;
    DeallocateKeeps(s.pages, pageSize, ts, p);
    PushedSets(ts, pageSize, p);
    forall q | q in s.used && q != 1 && q != p ensures AfterPush(s.pages, pageSize, ts, p)[q] == s.pages[q] {
      PushFrame(s.pages, pageSize, ts, p, q);
    }
  }

  lemma EditSound(pageSize: nat, s: Store, ts: Chain, p: u32, content: Page)
    requires Partitioned(pageSize, s, ts) && p in s.used && |content| == pageSize
    requires p == 1 ==> KeepsFields(s.pages[1], content)
    ensures Partitioned(pageSize, s.(pages := s.pages[p := content]), ts)
  {
    hide U32At, FreeSet, Size;
    var w' := s.pages[p := content];
    assert w'.Keys == s.pages.Keys;
    FollowsFrame(s.pages, w', pageSize, HeadIn(s.pages[1]), ts);
  }

  /** A database with an empty freelist is sound, every page in use. */
  lemma EmptyListSound(pageSize: nat, w: PageMap)
    requires Shaped(w, pageSize) && w.Keys == Pages(CountIn(w[1])) && HeadIn(w[1]) == 0 && FreeCountIn(w[1]) == 0
    ensures Sound(pageSize, Store(w, w.Keys))
  {
    hide U32At;
    assert Partitioned(pageSize, Store(w, w.Keys), []);
  }

  /** One step keeps the partition, and hands out only a page that was not in use. */
  lemma StepSound(pageSize: nat, s: Store, s': Store, op: Op)
    requires Sound(pageSize, s) && Next(pageSize, s, s', op)
    requires op.Alloc? ==> !Exhausted(s.pages)
    ensures Sound(pageSize, s')
    ensures op.Alloc? ==> s'.used - s.used == {Allocate(s.pages, pageSize).value.0}
    ensures forall q :: q in s.used && q in s'.used && q != 1 && !(op.Edit? && op.p == q) ==>
              q in s.pages && q in s'.pages && s'.pages[q] == s.pages[q]
  {
    hide U32At, Allocate, Deallocate, FreeSet;
    var ts :| Partitioned(pageSize, s, ts);
    match op
    case Alloc =>
      AllocSound(pageSize, s, ts);
    case Free(p) =>
      FreeSound(pageSize, s, ts, p);
    case Edit(p, content) =>
      EditSound(pageSize, s, ts, p, content);
  }

  /** A run from a sound state in which page numbers never run out. */
  ghost predicate IsRun(pageSize: nat, ss: seq<Store>, ops: seq<Op>)
  {
    && |ss| == |ops| + 1 && Sound(pageSize, ss[0])
    && (forall k :: 0 <= k < |ops| ==> Next(pageSize, ss[k], ss[k + 1], ops[k]))
    && (forall k :: 0 <= k < |ops| && ops[k].Alloc? ==> Shaped(ss[k].pages, pageSize) && !Exhausted(ss[k].pages))
  }

  /** Every state of every run is sound: the chain is acyclic and its pages distinct, used
      and free pages partition the database, and the header counts add up. */
  lemma {:induction false} RunSound(pageSize: nat, ss: seq<Store>, ops: seq<Op>, i: nat)
    requires IsRun(pageSize, ss, ops) && i < |ss|
    ensures Sound(pageSize, ss[i])
    ensures |ss[i].used| + FreeCountIn(ss[i].pages[1]) == CountIn(ss[i].pages[1])
  {
    if i > 0 {
      RunSound(pageSize, ss, ops, i - 1);
      StepSound(pageSize, ss[i - 1], ss[i], ops[i - 1]);
    }
    Conserved(pageSize, ss[i]);
  }

  /** Step `i` of the run hands out page `p`. */
  ghost predicate HandsOut(pageSize: nat, ss: seq<Store>, ops: seq<Op>, i: nat, p: u32)
  {
    && i < |ops| && i < |ss| && ops[i].Alloc? && Shaped(ss[i].pages, pageSize)
    && Allocate(ss[i].pages, pageSize).Ok? && Allocate(ss[i].pages, pageSize).value.0 == p
  }

  /** No page is handed out twice without being returned in between. */
  lemma NoReissue(pageSize: nat, ss: seq<Store>, ops: seq<Op>, i: nat, j: nat, p: u32)
    requires IsRun(pageSize, ss, ops) && i < j && HandsOut(pageSize, ss, ops, i, p) && HandsOut(pageSize, ss, ops, j, p)
    ensures exists k :: i < k < j && ops[k] == Free(p)
  {
    hide Allocate, Deallocate, Exhausted, Shaped, Sound;
    assert p in ss[i + 1].used by { assert Next(pageSize, ss[i], ss[i + 1], ops[i]); }
    if forall k :: i < k < j ==> ops[k] != Free(p) {
      StaysUsed(pageSize, ss, ops, i + 1, j, p);
      FreshPage(pageSize, ss, ops, j);
    }
  }

  lemma FreshPage(pageSize: nat, ss: seq<Store>, ops: seq<Op>, j: nat)
    requires IsRun(pageSize, ss, ops) && j < |ops| && ops[j].Alloc?
    ensures Shaped(ss[j].pages, pageSize) && Allocate(ss[j].pages, pageSize).Ok?
    ensures Allocate(ss[j].pages, pageSize).value.0 !in ss[j].used
  {
    hide Allocate, Exhausted, Next;
    RunSound(pageSize, ss, ops, j);
    var ts :| Partitioned(pageSize, ss[j], ts);
    AllocSound(pageSize, ss[j], ts);
  }

  /** A page in use stays in use until it is returned, and keeps its content until then
      unless it is edited. */
  lemma {:induction false} StaysUsed(pageSize: nat, ss: seq<Store>, ops: seq<Op>, i: nat, j: nat, p: u32)
    requires IsRun(pageSize, ss, ops) && i <= j < |ss| && p in ss[i].used
    requires forall k :: i <= k < j ==> ops[k] != Free(p)
    ensures p in ss[j].used
    ensures p != 1 && p in ss[i].pages && (forall k :: i <= k < j && ops[k].Edit? ==> ops[k].p != p) ==>
              p in ss[j].pages && ss[j].pages[p] == ss[i].pages[p]
    decreases j - i
  {
    hide Allocate, Deallocate, Exhausted, Shaped, Sound;
    if i < j {
      StaysUsed(pageSize, ss, ops, i, j - 1, p);
      RunSound(pageSize, ss, ops, j - 1);
      assert Next(pageSize, ss[j - 1], ss[j], ops[j - 1]);
      StepSound(pageSize, ss[j - 1], ss[j], ops[j - 1]);
    }
  }

  lemma Conserved(pageSize: nat, s: Store)
    requires Sound(pageSize, s)
    ensures Shaped(s.pages, pageSize)
    ensures |s.used| + FreeCountIn(s.pages[1]) == CountIn(s.pages[1])
  {
    hide U32At, Follows, FreeSet, Size;
    var ts :| Partitioned(pageSize, s, ts);
    PagesCount(CountIn(s.pages[1]));
    assert s.pages.Keys == s.used + FreeSet(ts);
  }

  // ----------------------------------------------------------- the integrity check

  datatype Problem = NoTrunkButCount(count: u32) | ChainTooLong | TrunkOutOfRange(trunk: u32) | Unreadable(trunk: u32)
                   | Unparsable(trunk: u32) | LeafOutOfRange(leaf: u32) | WrongCount(header: u32, found: nat)

  function Capped(n: nat): u32 { if n <= U32_MAX then n else U32_MAX }

  predicate LeavesInRange(leaves: seq<u32>, count: u32) { forall i :: 0 <= i < |leaves| ==> Numbered(leaves[i], count) }

  /** From `trunk`, with the trunks `seen` already visited, the walk finds `ts` and
      nothing to complain about. */
  ghost predicate CleanWalk(w: PageMap, count: u32, trunk: u32, seen: set<u32>, ts: Chain)
    decreases |ts|
  {
    if ts == [] then trunk == 0
    else
      && trunk != 0 && trunk <= count && trunk !in seen && ts[0].0 == trunk && trunk in w && ParseTrunk(w[trunk]).Ok?
      && ParseTrunk(w[trunk]).value.leaves == ts[0].1 && LeavesInRange(ts[0].1, count)
      && CleanWalk(w, count, ParseTrunk(w[trunk]).value.next, seen + {trunk}, ts[1..])
  }

  ghost predicate Passes(w: PageMap, count: u32, first: u32, freeCount: u32)
  {
    exists ts :: CleanWalk(w, count, first, {}, ts) && Capped(Size(ts)) == freeCount
  }

  method LeafProblems(leaves: seq<u32>, count: u32) returns (problems: seq<Problem>)
    ensures problems == [] <==> LeavesInRange(leaves, count)
    ensures ChainTooLong !in problems
  {
    problems := [];
    for i := 0 to |leaves|
      invariant problems == [] <==> LeavesInRange(leaves[..i], count)
      invariant ChainTooLong !in problems
    {
      if leaves[i] == 0 || leaves[i] > count {
        problems := problems + [LeafOutOfRange(leaves[i])];
      }
      assert leaves[..i + 1] == leaves[..i] + [leaves[i]];
    }
    assert leaves[..|leaves|] == leaves;
  }

  /** The walk so far: any clean continuation completes a clean chain, and any clean
      chain starts with the part already walked. */
  ghost predicate Progress(w: PageMap, count: u32, first: u32, trunk: u32, seen: set<u32>, done: Chain)
  {
    && (forall rest :: CleanWalk(w, count, trunk, seen, rest) ==> CleanWalk(w, count, first, {}, done + rest))
    && (forall ts :: CleanWalk(w, count, first, {}, ts) ==>
          |done| <= |ts| && ts[..|done|] == done && CleanWalk(w, count, trunk, seen, ts[|done|..]))
  }

  lemma ProgressStep(w: PageMap, count: u32, first: u32, trunk: u32, seen: set<u32>, done: Chain)
    requires Progress(w, count, first, trunk, seen, done)
    requires trunk != 0 && trunk <= count && trunk !in seen && trunk in w && ParseTrunk(w[trunk]).Ok?
    requires LeavesInRange(ParseTrunk(w[trunk]).value.leaves, count)
    ensures var t := ParseTrunk(w[trunk]).value;
            Progress(w, count, first, t.next, seen + {trunk}, done + [(trunk, t.leaves)])
  {
    hide ParseTrunk, LeavesInRange;
    var t := ParseTrunk(w[trunk]).value;
    var done' := done + [(trunk, t.leaves)];
    forall rest | CleanWalk(w, count, t.next, seen + {trunk}, rest) ensures CleanWalk(w, count, first, {}, done' + rest) {
      var more := [(trunk, t.leaves)] + rest;
      assert more[1..] == rest;
      assert CleanWalk(w, count, trunk, seen, more);
      assert done + more == done' + rest;
    }
    forall ts | CleanWalk(w, count, first, {}, ts)
      ensures |done'| <= |ts| && ts[..|done'|] == done' && CleanWalk(w, count, t.next, seen + {trunk}, ts[|done'|..])
    {
      var rest := ts[|done|..];
      assert CleanWalk(w, count, trunk, seen, rest);
      assert rest != [] && rest[0] == ts[|done|] && rest[1..] == ts[|done'|..];
      assert ts[..|done'|] == ts[..|done|] + [ts[|done|]];
    }
  }

  /** A walk that stops at `trunk` because of a problem has no clean chain to find. */
  lemma Stuck(w: PageMap, count: u32, first: u32, trunk: u32, seen: set<u32>, done: Chain)
    requires Progress(w, count, first, trunk, seen, done) && trunk != 0
    requires trunk > count || trunk in seen || trunk !in w || ParseTrunk(w[trunk]).Err?
             || !LeavesInRange(ParseTrunk(w[trunk]).value.leaves, count)
    ensures forall ts :: !CleanWalk(w, count, first, {}, ts)
  {
    hide ParseTrunk, LeavesInRange;
    assert forall rest :: !CleanWalk(w, count, trunk, seen, rest);
  }

  lemma ProgressStart(w: PageMap, count: u32, first: u32)
    ensures Progress(w, count, first, first, {}, [])
  {
    hide CleanWalk;
    forall rest | CleanWalk(w, count, first, {}, rest) ensures CleanWalk(w, count, first, {}, [] + rest) {
      assert [] + rest == rest;
    }
    forall ts | CleanWalk(w, count, first, {}, ts) ensures CleanWalk(w, count, first, {}, ts[0..]) {
      assert ts[0..] == ts;
    }
  }

  lemma ProgressEnd(w: PageMap, count: u32, first: u32, seen: set<u32>, done: Chain)
    requires Progress(w, count, first, 0, seen, done)
    ensures CleanWalk(w, count, first, {}, done) && forall ts :: CleanWalk(w, count, first, {}, ts) ==> ts == done
  {
    assert CleanWalk(w, count, 0, seen, []) && done + [] == done;
    forall ts | CleanWalk(w, count, first, {}, ts) ensures ts == done {
      assert ts[|done|..] == [];
    }
  }

  lemma {:induction false} SizeSnoc(ts: Chain, t: (u32, seq<u32>))
    ensures Size(ts + [t]) == Size(ts) + 1 + |t.1|
  {
    if ts != [] {
      assert (ts + [t])[1..] == ts[1..] + [t];
      SizeSnoc(ts[1..], t);
    } else {
      assert ts + [t] == [t] && [t][1..] == [];
    }
  }

  /** Walks the trunk chain the header points to. It reports nothing exactly when the
      chain is sound; its guard against overlong chains never fires. */
  method CheckFreelist(w: PageMap, count: u32, first: u32, freeCount: u32) returns (problems: seq<Problem>)
    ensures problems == [] <==> Passes(w, count, first, freeCount)
    ensures ChainTooLong !in problems
  {
    hide CleanWalk, Progress, ParseTrunk, LeavesInRange;
    ProgressStart(w, count, first);
    problems := [];
    if first == 0 {
      ProgressEnd(w, count, first, {}, []);
      return if freeCount != 0 then [NoTrunkButCount(freeCount)] else [];
    }
    var seen: set<u32> := {};
    var leaves: nat, trunk: u32, hops: nat := 0, first, 0;
    ghost var done: Chain := [];
    PagesCount(count);
    while trunk != 0
      invariant ChainTooLong !in problems && hops == |seen| && seen <= Pages(count)
      invariant problems == [] ==> Progress(w, count, first, trunk, seen, done) && leaves + |seen| == Size(done)
      invariant problems != [] ==> forall ts :: !CleanWalk(w, count, first, {}, ts)
      decreases count + 1 - hops
    {
      hops := hops + 1;
      Subset(seen, Pages(count));
      if hops > count + 1 {
        problems := problems + [ChainTooLong];
        break;
      }
      if trunk > count || trunk in seen {
        if problems == [] { Stuck(w, count, first, trunk, seen, done); }
        problems := problems + [TrunkOutOfRange(trunk)];
        break;
      }
      if trunk !in w {
        if problems == [] { Stuck(w, count, first, trunk, seen, done); }
        seen := seen + {trunk};
        problems := problems + [Unreadable(trunk)];
        break;
      }
      var parsed := Parse(w[trunk]);
      if parsed.Err? {
        if problems == [] { Stuck(w, count, first, trunk, seen, done); }
        seen := seen + {trunk};
        problems := problems + [Unparsable(trunk)];
        break;
      }
      var bad := LeafProblems(parsed.value.leaves, count);
      if problems == [] {
        if bad == [] {
          ProgressStep(w, count, first, trunk, seen, done);
          SizeSnoc(done, (trunk, parsed.value.leaves));
        } else {
          Stuck(w, count, first, trunk, seen, done);
        }
      }
      assert Numbered(trunk, count);
      seen := seen + {trunk};
      problems := problems + bad;
      leaves := leaves + |parsed.value.leaves|;
      done := done + [(trunk, parsed.value.leaves)];
      trunk := parsed.value.next;
    }
    if problems == [] { ProgressEnd(w, count, first, seen, done); }
    var total := leaves + |seen|;
    if Capped(total) != freeCount {
      problems := problems + [WrongCount(freeCount, total)];
    }
  }

  /** A sound freelist is a clean walk, past any trunks not on it. */
  lemma {:induction false} FollowsIsClean(w: PageMap, pageSize: nat, count: u32, head: u32, ts: Chain, seen: set<u32>)
    requires Follows(w, pageSize, head, ts) && |FreeSet(ts)| == Size(ts)
    requires FreeSet(ts) <= Pages(count) && seen !! FreeSet(ts)
    ensures CleanWalk(w, count, head, seen, ts)
    decreases |ts|
  {
    hide ParseTrunk, FreeSet, Size, MaxLeaves;
    if ts != [] {
      SplitFirst(ts);
      Unfold(ts);
      assert head in Pages(count);
      assert LeavesInRange(ts[0].1, count) by {
        forall i | 0 <= i < |ts[0].1| ensures Numbered(ts[0].1[i], count) {
          assert ts[0].1[i] in Members(ts[0].1);
          assert ts[0].1[i] in Pages(count);
        }
      }
      FollowsIsClean(w, pageSize, count, ParseTrunk(w[head]).value.next, ts[1..], seen + {head});
    }
  }

  /** The integrity check is silent in every state of every run. */
  lemma SoundIsSilent(pageSize: nat, s: Store)
    requires Sound(pageSize, s)
    ensures Shaped(s.pages, pageSize)
    ensures Passes(s.pages, CountIn(s.pages[1]), HeadIn(s.pages[1]), FreeCountIn(s.pages[1]))
  {
    hide U32At, FreeSet, Size, Follows, CleanWalk;
    var ts :| Partitioned(pageSize, s, ts);
    FollowsIsClean(s.pages, pageSize, CountIn(s.pages[1]), HeadIn(s.pages[1]), ts, {});
    assert Capped(Size(ts)) == FreeCountIn(s.pages[1]);
  }

  // ------------------------------------------------------------- what silence means

  ghost predicate DistinctTrunks(ts: Chain) { forall i, j :: 0 <= i < j < |ts| ==> ts[i].0 != ts[j].0 }

  ghost predicate NoneSeen(ts: Chain, seen: set<u32>) { forall i :: 0 <= i < |ts| ==> ts[i].0 !in seen }

  lemma {:induction false} CleanMeans(w: PageMap, pageSize: nat, count: u32, trunk: u32, seen: set<u32>, ts: Chain)
    requires Shaped(w, pageSize)
    ensures CleanWalk(w, count, trunk, seen, ts)
       <==> Follows(w, pageSize, trunk, ts) && DistinctTrunks(ts) && NoneSeen(ts, seen) && FreeSet(ts) <= Pages(count)
    decreases |ts|
  {
    hide ParseTrunk, MaxLeaves, FreeSet;
    if ts == [] {
      NothingFree(count);
    } else {
      var t, rest := ts[0], ts[1..];
      FreeSetStep(ts, count);
      if trunk in w && ParseTrunk(w[trunk]).Ok? {
        LeavesClamped(w[trunk], pageSize);
        CleanMeans(w, pageSize, count, ParseTrunk(w[trunk]).value.next, seen + {trunk}, rest);
        TrunksStep(ts, seen);
      }
    }
  }

  lemma NothingFree(count: u32)
    ensures FreeSet([]) <= Pages(count)
  {
  }

  lemma FreeSetStep(ts: Chain, count: u32)
    requires ts != []
    ensures FreeSet(ts) <= Pages(count) <==> Numbered(ts[0].0, count) && LeavesInRange(ts[0].1, count) && FreeSet(ts[1..]) <= Pages(count)
  {
    var t := ts[0];
    if FreeSet(ts) <= Pages(count) {
      assert t.0 in FreeSet(ts);
      forall i | 0 <= i < |t.1| ensures Numbered(t.1[i], count) { assert t.1[i] in Members(t.1) && t.1[i] in FreeSet(ts); }
    }
    if Numbered(t.0, count) && LeavesInRange(t.1, count) {
      forall p | p in Members(t.1) ensures p in Pages(count) { var i :| 0 <= i < |t.1| && t.1[i] == p; }
    }
  }

  lemma LeavesClamped(buf: Page, pageSize: nat)
    requires |buf| == pageSize && ParseTrunk(buf).Ok?
    ensures |ParseTrunk(buf).value.leaves| <= MaxLeaves(pageSize)
  {
    hide MaxLeaves;
  }

  lemma TrunksStep(ts: Chain, seen: set<u32>)
    requires ts != []
    ensures DistinctTrunks(ts) && NoneSeen(ts, seen) <==> ts[0].0 !in seen && DistinctTrunks(ts[1..]) && NoneSeen(ts[1..], seen + {ts[0].0})
  {
    var t, rest := ts[0], ts[1..];
    if t.0 !in seen && DistinctTrunks(rest) && NoneSeen(rest, seen + {t.0}) {
      forall i | 0 <= i < |ts| ensures ts[i].0 !in seen { assert i > 0 ==> ts[i] == rest[i - 1]; }
      forall i, j | 0 <= i < j < |ts| ensures ts[i].0 != ts[j].0 {
        assert ts[j] == rest[j - 1];
        if i > 0 { assert ts[i] == rest[i - 1]; }
      }
    }
  }

  /** The check is silent if and only if the list can be followed to its end through trunks
      that are all different, every trunk and leaf number is one of the database's pages, and
      the header counts them. */
  lemma SilentIff(w: PageMap, pageSize: nat, count: u32, first: u32, freeCount: u32)
    requires Shaped(w, pageSize)
    ensures Passes(w, count, first, freeCount)
       <==> exists ts :: Follows(w, pageSize, first, ts) && DistinctTrunks(ts) && FreeSet(ts) <= Pages(count) && Capped(Size(ts)) == freeCount
  {
    hide CleanWalk, Follows, DistinctTrunks, FreeSet, Size;
    if Passes(w, count, first, freeCount) {
      var ts :| CleanWalk(w, count, first, {}, ts) && Capped(Size(ts)) == freeCount;
      CleanMeans(w, pageSize, count, first, {}, ts);
    }
    if ts :| Follows(w, pageSize, first, ts) && DistinctTrunks(ts) && FreeSet(ts) <= Pages(count) && Capped(Size(ts)) == freeCount {
      CleanMeans(w, pageSize, count, first, {}, ts);
    }
  }
}
