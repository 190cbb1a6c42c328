/** The index cursor: a stack of pages with step counters, proved to walk a tree's
    entries in order, in reverse, and from any key on. */
module IndexCursor {
  import opened Sequences
  import opened Bytes
  import opened IndexKeys
  import opened IndexTree
  import opened TreePages

  datatype Frame = Frame(node: Tree, step: nat)

  ghost predicate StackOk(st: seq<Frame>)
  {
    forall i :: 0 <= i < |st| ==> Shaped(st[i].node) && st[i].step <= Steps(st[i].node)
  }

  // ------------------------------------------------------------------- walking forward

  /** The entries still to come: the top page's, then those of the pages below it. */
  ghost function Rest(st: seq<Frame>): seq<Key>
    requires StackOk(st)
  {
    if st == [] then [] else From(Top(st).node, Top(st).step) + Rest(st[..|st| - 1])
  }

  function Top(st: seq<Frame>): Frame
    requires st != []
  {
    st[|st| - 1]
  }

  ghost function Pending(st: seq<Frame>): nat
    requires StackOk(st)
  {
    if st == [] then 0 else PagesFrom(Top(st).node, Top(st).step) + Pending(st[..|st| - 1])
  }

  /** Loop iterations left on one page, and on the whole stack. */
  ghost function WorkFrom(t: Tree, s: nat): nat
    requires Shaped(t)
    decreases t, Steps(t) - s
  {
    if s >= Steps(t) then 1
    else 1 + (if t.Node? && s % 2 == 0 then WorkFrom(t.kids[s / 2], 0) else 0) + WorkFrom(t, s + 1)
  }

  ghost function Work(st: seq<Frame>): nat
    requires StackOk(st)
  {
    if st == [] then 0 else WorkFrom(Top(st).node, Top(st).step) + Work(st[..|st| - 1])
  }

  function Stepped(st: seq<Frame>): seq<Frame>
    requires st != []
  {
    st[..|st| - 1] + [Top(st).(step := Top(st).step + 1)]
  }

  /** One step on one page. */
  lemma PageStep(t: Tree, s: nat)
    requires Shaped(t) && s < Steps(t)
    ensures From(t, s) == Item(t, s) + From(t, s + 1)
    ensures PagesFrom(t, s) == (if t.Node? && s % 2 == 0 then PageCount(t.kids[s / 2]) else 0) + PagesFrom(t, s + 1)
    ensures WorkFrom(t, s) == 1 + (if t.Node? && s % 2 == 0 then WorkFrom(t.kids[s / 2], 0) else 0) + WorkFrom(t, s + 1)
  {
  }

  lemma Snoc(below: seq<Frame>, f: Frame)
    requires StackOk(below) && Shaped(f.node) && f.step <= Steps(f.node)
    ensures StackOk(below + [f]) && Rest(below + [f]) == From(f.node, f.step) + Rest(below)
    ensures Pending(below + [f]) == PagesFrom(f.node, f.step) + Pending(below) && Work(below + [f]) == WorkFrom(f.node, f.step) + Work(below)
  {
    hide From, PagesFrom, WorkFrom, Shaped;
    assert (below + [f])[..|below|] == below;
  }

  lemma Split(st: seq<Frame>)
    requires StackOk(st) && st != []
    ensures st == st[..|st| - 1] + [Top(st)] && StackOk(st[..|st| - 1]) && Shaped(Top(st).node) && Top(st).step <= Steps(Top(st).node)
  {
    hide Shaped;
  }

  /** A page walked to its end contributes nothing. */
  lemma Exhausted(st: seq<Frame>)
    requires StackOk(st) && st != [] && Top(st).step >= Steps(Top(st).node)
    ensures var below := st[..|st| - 1];
            StackOk(below) && Rest(st) == Rest(below) && Pending(st) == Pending(below) && Work(st) > Work(below)
  {
    hide Rest, Pending, Work, Shaped, StackOk;
    Split(st);
    Snoc(st[..|st| - 1], Top(st));
    PageEnd(Top(st).node);
  }

  lemma PageEnd(t: Tree)
    requires Shaped(t)
    ensures From(t, Steps(t)) == [] && PagesFrom(t, Steps(t)) == 0 && WorkFrom(t, Steps(t)) == 1
  {
  }

  /** A step to a key yields that key. */
  lemma ToKey(st: seq<Frame>)
    requires StackOk(st) && st != [] && Top(st).step < Steps(Top(st).node)
    requires Top(st).node.Leaf? || Top(st).step % 2 == 1
    ensures StackOk(Stepped(st)) && Pending(st) == Pending(Stepped(st)) && Work(st) > Work(Stepped(st))
    ensures Rest(st) == [Top(st).node.keys[if Top(st).node.Leaf? then Top(st).step else Top(st).step / 2]] + Rest(Stepped(st))
  {
    hide From, PagesFrom, WorkFrom, Item, Rest, Pending, Work, Shaped, StackOk;
    var below, t, a := st[..|st| - 1], Top(st).node, Top(st).step;
    Split(st);
    Snoc(below, Top(st));
    Snoc(below, Frame(t, a + 1));
    PageStep(t, a);
    ItemIsKey(t, a);
    Regroup([t.keys[if t.Leaf? then a else a / 2]], From(t, a + 1), Rest(below));
  }

  lemma ItemIsKey(t: Tree, a: nat)
    requires Shaped(t) && a < Steps(t) && (t.Leaf? || a % 2 == 1)
    ensures Item(t, a) == [t.keys[if t.Leaf? then a else a / 2]]
  {
    hide From;
  }

  /** A step to a child puts the child's own entries next. */
  lemma ToKid(st: seq<Frame>)
    requires StackOk(st) && st != [] && Top(st).node.Node? && Top(st).step % 2 == 0 && Top(st).step < Steps(Top(st).node)
    ensures Shaped(Top(st).node) && Top(st).step / 2 < |Top(st).node.kids|
    ensures var st' := Stepped(st) + [Frame(Top(st).node.kids[Top(st).step / 2], 0)];
            StackOk(st') && Rest(st) == Rest(st') && Pending(st) == 1 + Pending(st') && Work(st) > Work(st')
  {
    hide From, PagesFrom, WorkFrom, Rest, Pending, Work, Shaped, StackOk;
    var below, t, a := st[..|st| - 1], Top(st).node, Top(st).step;
    Split(st);
    KidsMatch(t);
    KidShaped(t, a / 2);
    Snoc(below, Top(st));
    Snoc(below, Frame(t, a + 1));
    Snoc(below + [Frame(t, a + 1)], Frame(t.kids[a / 2], 0));
    PageStep(t, a);
    Regroup(InOrder(t.kids[a / 2]), From(t, a + 1), Rest(below));
  }

  // ------------------------------------------------------------------ walking backward

  /** The entries already behind a backward cursor's position, in order. */
  ghost function Left(st: seq<Frame>): seq<Key>
    requires StackOk(st)
  {
    if st == [] then [] else Left(st[..|st| - 1]) + UpTo(Top(st).node, Top(st).step)
  }

  ghost function PendingBack(st: seq<Frame>): nat
    requires StackOk(st)
  {
    if st == [] then 0 else PagesUpTo(Top(st).node, Top(st).step) + PendingBack(st[..|st| - 1])
  }

  ghost function WorkUpTo(t: Tree, s: nat): nat
    requires Shaped(t) && s <= Steps(t)
    decreases t, s
  {
    if s == 0 then 1
    else 1 + (if t.Node? && (s - 1) % 2 == 0 then WorkUpTo(t.kids[(s - 1) / 2], Steps(t.kids[(s - 1) / 2])) else 0) + WorkUpTo(t, s - 1)
  }

  ghost function WorkBack(st: seq<Frame>): nat
    requires StackOk(st)
  {
    if st == [] then 0 else WorkUpTo(Top(st).node, Top(st).step) + WorkBack(st[..|st| - 1])
  }

  function SteppedBack(st: seq<Frame>): seq<Frame>
    requires st != [] && Top(st).step > 0
  {
    st[..|st| - 1] + [Top(st).(step := Top(st).step - 1)]
  }

  lemma SnocBack(below: seq<Frame>, f: Frame)
    requires StackOk(below) && Shaped(f.node) && f.step <= Steps(f.node)
    ensures StackOk(below + [f]) && Left(below + [f]) == Left(below) + UpTo(f.node, f.step)
    ensures PendingBack(below + [f]) == PagesUpTo(f.node, f.step) + PendingBack(below)
    ensures WorkBack(below + [f]) == WorkUpTo(f.node, f.step) + WorkBack(below)
  {
    hide UpTo, PagesUpTo, WorkUpTo, Shaped;
    assert (below + [f])[..|below|] == below;
  }

  lemma PageStepBack(t: Tree, s: nat)
    requires Shaped(t) && 0 < s <= Steps(t)
    ensures UpTo(t, s) == UpTo(t, s - 1) + Item(t, s - 1)
    ensures PagesUpTo(t, s) == PagesUpTo(t, s - 1) + if t.Node? && (s - 1) % 2 == 0 then PageCount(t.kids[(s - 1) / 2]) else 0
    ensures WorkUpTo(t, s)
         == 1 + (if t.Node? && (s - 1) % 2 == 0 then WorkUpTo(t.kids[(s - 1) / 2], Steps(t.kids[(s - 1) / 2])) else 0) + WorkUpTo(t, s - 1)
  {
    hide From, PagesFrom;
  }

  lemma PageStart(t: Tree)
    requires Shaped(t)
    ensures UpTo(t, 0) == [] && PagesUpTo(t, 0) == 0 && WorkUpTo(t, 0) == 1
  {
  }

  lemma ExhaustedBack(st: seq<Frame>)
    requires StackOk(st) && st != [] && Top(st).step == 0
    ensures var below := st[..|st| - 1];
            StackOk(below) && Left(st) == Left(below) && PendingBack(st) == PendingBack(below) && WorkBack(st) > WorkBack(below)
  {
    hide UpTo, PagesUpTo, WorkUpTo, Left, PendingBack, WorkBack, Shaped, StackOk;
    Split(st);
    SnocBack(st[..|st| - 1], Top(st));
    PageStart(Top(st).node);
  }

  lemma BackToKey(st: seq<Frame>)
    requires StackOk(st) && st != [] && Top(st).step > 0 && (Top(st).node.Leaf? || (Top(st).step - 1) % 2 == 1)
    ensures StackOk(SteppedBack(st)) && PendingBack(st) == PendingBack(SteppedBack(st)) && WorkBack(st) > WorkBack(SteppedBack(st))
    ensures Shaped(Top(st).node) && Top(st).step <= Steps(Top(st).node)
    ensures var a := Top(st).step - 1;
            Left(st) == Left(SteppedBack(st)) + [Top(st).node.keys[if Top(st).node.Leaf? then a else a / 2]]
  {
    hide UpTo, PagesUpTo, WorkUpTo, Left, PendingBack, WorkBack, Shaped, StackOk, Item;
    var below, t, a := st[..|st| - 1], Top(st).node, Top(st).step - 1;
    Split(st);
    SnocBack(below, Top(st));
    SnocBack(below, Frame(t, a));
    PageStepBack(t, a + 1);
    ItemIsKey(t, a);
    Regroup(Left(below), UpTo(t, a), [t.keys[if t.Leaf? then a else a / 2]]);
  }

  lemma BackToKid(st: seq<Frame>)
    requires StackOk(st) && st != [] && Top(st).step > 0 && Top(st).node.Node? && (Top(st).step - 1) % 2 == 0
    ensures Shaped(Top(st).node) && (Top(st).step - 1) / 2 < |Top(st).node.kids|
    ensures var kid := Top(st).node.kids[(Top(st).step - 1) / 2];
            var st' := SteppedBack(st) + [Frame(kid, Steps(kid))];
            StackOk(st') && Left(st) == Left(st') && PendingBack(st) == 1 + PendingBack(st') && WorkBack(st) > WorkBack(st')
  {
    hide From, UpTo, PagesUpTo, PagesFrom, WorkUpTo, Left, PendingBack, WorkBack, Shaped, StackOk;
    var below, t, a := st[..|st| - 1], Top(st).node, Top(st).step - 1;
    Split(st);
    KidsMatch(t);
    KidShaped(t, a / 2);
    var kid := t.kids[a / 2];
    SnocBack(below, Top(st));
    SnocBack(below, Frame(t, a));
    SnocBack(below + [Frame(t, a)], Frame(kid, Steps(kid)));
    PageStepBack(t, a + 1);
    Regroup(Left(below), UpTo(t, a), InOrder(kid));
    FromEnd(kid);
    PagesSplit(kid, Steps(kid));
    NoPagesPast(kid);
  }

  lemma NoPagesPast(t: Tree)
    requires Shaped(t)
    ensures PagesFrom(t, Steps(t)) == 0
  {
  }

  /** The next entry is a key of a page already on the stack, or there is none. */
  predicate NoChildDue(st: seq<Frame>) { forall i :: 0 <= i < |st| ==> st[i].node.Leaf? || st[i].step % 2 == 1 }

  // ------------------------------------------------------------------------ the cursor

  class Cursor {
    const root: Tree
    var stack: seq<Frame>
    var pagesVisited: nat

    ghost predicate Valid()
      reads this
    {
      Shaped(root) && StackOk(stack) && pagesVisited <= MAX_PAGES_VISITED
    }

    constructor (root: Tree)
      requires Shaped(root)
      ensures Valid() && this.root == root && stack == [] && pagesVisited == 0
    {
      this.root, stack, pagesVisited := root, [], 0;
    }

    /** Reads a page and puts it on the stack, positioned at `step`. */
    method PushPage(t: Tree, step: nat) returns (ok: bool)
      requires StackOk(stack) && pagesVisited <= MAX_PAGES_VISITED && Shaped(t) && step <= Steps(t)
      modifies this
      ensures ok == (old(pagesVisited) < MAX_PAGES_VISITED)
      ensures ok ==> stack == old(stack) + [Frame(t, step)] && pagesVisited == old(pagesVisited) + 1 && StackOk(stack)
    {
      pagesVisited := pagesVisited + 1;
      if pagesVisited > MAX_PAGES_VISITED {
        return false;
      }
      stack := stack + [Frame(t, step)];
      return true;
    }

    /** The next entry, if any: the head of what is left, which then loses it. */
    method Advance() returns (r: Result<Option<Key>, TreeError>)
      requires Valid()
      modifies this
      ensures r.Err? ==> old(pagesVisited) + old(Pending(stack)) > MAX_PAGES_VISITED
      ensures r.Ok? ==> Valid() && pagesVisited + Pending(stack) == old(pagesVisited) + old(Pending(stack))
      ensures r == Ok(None) ==> old(Rest(stack)) == [] && stack == []
      ensures r.Ok? && r.value.Some? ==> old(Rest(stack)) == [r.value.value] + Rest(stack)
      ensures NoChildDue(old(stack)) ==> r.Ok?
    {
      hide From, PagesFrom, WorkFrom, Shaped, Rest, Pending, Work;
      while true
        invariant Shaped(root) && StackOk(stack) && pagesVisited <= MAX_PAGES_VISITED
        invariant NoChildDue(old(stack)) ==> NoChildDue(stack)
        invariant Rest(stack) == old(Rest(stack)) && pagesVisited + Pending(stack) == old(pagesVisited) + old(Pending(stack))
        decreases Work(stack)
      {
        if stack == [] {
          NothingLeft();
          return Ok(None);
        }
        var f, st := Top(stack), stack;
        if f.step >= Steps(f.node) {
          Exhausted(st);
          stack := st[..|st| - 1];
          continue;
        }
        stack := Stepped(st);
        if f.node.Leaf? {
          ToKey(st);
          return Ok(Some(f.node.keys[f.step]));
        }
        KidsMatch(f.node);
        if f.step % 2 == 1 {
          ToKey(st);
          return Ok(Some(f.node.keys[f.step / 2]));
        }
        ToKid(st);
        KidShaped(f.node, f.step / 2);
        var ok := PushPage(f.node.kids[f.step / 2], 0);
        if !ok {
          return Err(TraversalTooLong);
        }
      }
    }

    /** The previous entry, if any: the last of what is behind, which then loses it. */
    method AdvanceDesc() returns (r: Result<Option<Key>, TreeError>)
      requires Valid()
      modifies this
      ensures r.Err? ==> old(pagesVisited) + old(PendingBack(stack)) > MAX_PAGES_VISITED
      ensures r.Ok? ==> Valid() && pagesVisited + PendingBack(stack) == old(pagesVisited) + old(PendingBack(stack))
      ensures r == Ok(None) ==> old(Left(stack)) == [] && stack == []
      ensures r.Ok? && r.value.Some? ==> old(Left(stack)) == Left(stack) + [r.value.value]
    {
      hide From, UpTo, PagesFrom, PagesUpTo, WorkUpTo, Shaped, Left, PendingBack, WorkBack;
      while true
        invariant Shaped(root) && StackOk(stack) && pagesVisited <= MAX_PAGES_VISITED
        invariant Left(stack) == old(Left(stack)) && pagesVisited + PendingBack(stack) == old(pagesVisited) + old(PendingBack(stack))
        decreases WorkBack(stack)
      {
        if stack == [] {
          NothingLeft();
          return Ok(None);
        }
        var f, st := Top(stack), stack;
        if f.step == 0 {
          ExhaustedBack(st);
          stack := st[..|st| - 1];
          continue;
        }
        var a := f.step - 1;
        stack := SteppedBack(st);
        if f.node.Leaf? {
          BackToKey(st);
          return Ok(Some(f.node.keys[a]));
        }
        KidsMatch(f.node);
        if a % 2 == 1 {
          BackToKey(st);
          return Ok(Some(f.node.keys[a / 2]));
        }
        BackToKid(st);
        KidShaped(f.node, a / 2);
        var ok := PushPage(f.node.kids[a / 2], Steps(f.node.kids[a / 2]));
        if !ok {
          return Err(TraversalTooLong);
        }
      }
    }

    method First() returns (r: Result<Option<Key>, TreeError>)
      requires Valid()
      modifies this
      ensures r.Err? ==> PageCount(root) > MAX_PAGES_VISITED
      ensures r.Ok? ==> Valid() && pagesVisited + Pending(stack) == PageCount(root)
      ensures r == Ok(None) ==> InOrder(root) == [] && stack == []
      ensures r.Ok? && r.value.Some? ==> InOrder(root) == [r.value.value] + Rest(stack)
    {
      hide From, PagesFrom, Shaped;
      stack, pagesVisited := [], 0;
      var ok := PushPage(root, 0);
      OneFrame(root);
      r := Advance();
    }

    method Last() returns (r: Result<Option<Key>, TreeError>)
      requires Valid()
      modifies this
      ensures r.Err? ==> PageCount(root) > MAX_PAGES_VISITED
      ensures r.Ok? ==> Valid() && pagesVisited + PendingBack(stack) == PageCount(root)
      ensures r == Ok(None) ==> InOrder(root) == [] && stack == []
      ensures r.Ok? && r.value.Some? ==> InOrder(root) == Left(stack) + [r.value.value]
    {
      hide From, UpTo, PagesFrom, PagesUpTo, Shaped;
      stack, pagesVisited := [], 0;
      var ok := PushPage(root, Steps(root));
      OneFrame(root);
      r := AdvanceDesc();
    }

    /** Reads the pages from the root to the leaf `target` belongs on. */
    method SeekToLeaf(target: Key) returns (ok: bool, ghost pre: seq<Key>)
      requires Valid() && Sorted(InOrder(root))
      modifies this
      ensures ok <==> SeekPages(root, target) <= MAX_PAGES_VISITED
      ensures ok ==> Valid() && Seeking(stack, root, target, pre) && Top(stack).node.Leaf?
      ensures ok ==> pagesVisited + Pending(stack) <= PageCount(root) && NoChildDue(stack)
    {
      hide From, UpTo, PagesFrom, Shaped, Rest, Pending, Sorted, SeekPages, Seeking, NoChildDue, FirstNotLess;
      stack, pagesVisited := [], 0;
      ok := PushPage(root, 0);
      pre := [];
      StartSeek(root, target);
      while Top(stack).node.Node?
        invariant Valid() && stack != [] && Seeking(stack, root, target, pre) && pagesVisited + Pending(stack) <= PageCount(root)
        invariant Shaped(Top(stack).node) && pagesVisited + SeekPages(Top(stack).node, target) == SeekPages(root, target) + 1
        invariant NoChildDue(stack[..|stack| - 1]) && ok
        decreases Top(stack).node
      {
        var node, st := Top(stack).node, stack;
        NodeSorted(st, root, target, pre);
        var i := BinarySearch(node.keys, target);
        KidsMatch(node);
        FoundWithin(node.keys, target, i);
        KidShaped(node, i);
        SeekDown(st, root, target, pre, i);
        SeekStep(node, target, i);
        PastKid(st[..|st| - 1], node, i);
        stack := st[..|st| - 1] + [Frame(node, 2 * i + 1)];
        ghost var below := stack;
        ok := PushPage(node.kids[i], 0);
        if !ok {
          return;
        }
        assert stack[..|stack| - 1] == below;
        pre := pre + UpTo(node, 2 * i);
      }
      SeekEnds(Top(stack).node, target);
      LeafOnTop(stack);
    }

    /** Positions the cursor on the first entry not less than `target`; what is left is
        the suffix of the in-order sequence from there. */
    method Seek(target: Key) returns (r: Result<Option<Key>, TreeError>, ghost n: nat)
      requires Valid() && Sorted(InOrder(root))
      modifies this
      ensures r.Ok? <==> SeekPages(root, target) <= MAX_PAGES_VISITED
      ensures r.Ok? ==> Valid() && pagesVisited + Pending(stack) <= PageCount(root) && FirstNotLess(InOrder(root), target, n)
      ensures r == Ok(None) ==> n == |InOrder(root)|
      ensures r.Ok? && r.value.Some? ==> n < |InOrder(root)| && InOrder(root)[n..] == [r.value.value] + Rest(stack)
    {
      hide From, UpTo, PagesFrom, Shaped, Rest, Pending, CompareKeys, Sorted, SeekPages;
      var ok;
      ghost var pre;
      ok, pre := SeekToLeaf(target);
      if !ok {
        return Err(TraversalTooLong), 0;
      }
      var node, st := Top(stack).node, stack;
      NodeSorted(st, root, target, pre);
      var i := BinarySearch(node.keys, target);
      SeekLeaf(st, root, target, pre, i);
      stack := st[..|st| - 1] + [Frame(node, i)];
      n := |pre| + i;
      r := Advance();
    }
  }

  // --------------------------------------------------------------------------- seeking

  /** Everything outside the top page's subtree is placed: the entries before it are less
      than the target, the first entry after it is not. */
  ghost predicate Seeking(st: seq<Frame>, root: Tree, target: Key, pre: seq<Key>)
  {
    && st != [] && StackOk(st) && Shaped(root) && Top(st).step == 0
    && var below := Rest(st[..|st| - 1]);
    && InOrder(root) == pre + InOrder(Top(st).node) + below && Sorted(InOrder(Top(st).node))
    && AllLess(pre, target)
    && (below != [] ==> CompareKeys(below[0], target) != Less)
  }

  /** How many pages seeking `target` reads. */
  ghost function SeekPages(t: Tree, target: Key): (n: nat)
    requires Shaped(t)
    ensures n >= 1
  {
    if t.Leaf? then 1 else 1 + SeekPages(t.kids[FirstAtLeast(t.keys, target)], target)
  }

  lemma FoundWithin(ks: seq<Key>, target: Key, i: nat)
    requires FirstNotLess(ks, target, i)
    ensures i <= |ks|
  {
    hide CompareKeys;
  }

  lemma PastKid(st: seq<Frame>, t: Tree, i: nat)
    requires NoChildDue(st)
    ensures NoChildDue(st + [Frame(t, 2 * i + 1)])
  {
  }

  lemma LeafOnTop(st: seq<Frame>)
    requires st != [] && NoChildDue(st[..|st| - 1]) && Top(st).node.Leaf?
    ensures NoChildDue(st)
  {
  }

  lemma SeekStep(t: Tree, target: Key, i: nat)
    requires Shaped(t) && t.Node? && FirstNotLess(t.keys, target, i)
    ensures SeekPages(t, target) == 1 + SeekPages(t.kids[i], target)
  {
    hide CompareKeys;
  }

  lemma SeekEnds(t: Tree, target: Key)
    requires t.Leaf?
    ensures SeekPages(t, target) == 1
  {
  }

  lemma StartSeek(root: Tree, target: Key)
    requires Shaped(root) && Sorted(InOrder(root))
    ensures Seeking([Frame(root, 0)], root, target, []) && 1 + Pending([Frame(root, 0)]) == PageCount(root)
    ensures NoChildDue([Frame(root, 0)][..0])
  {
    hide From, PagesFrom, Sorted;
    var st := [Frame(root, 0)];
    assert st[..0] == [] && Rest([]) == [];
    assert [] + InOrder(root) + [] == InOrder(root);
    OneFrame(root);
  }

  lemma NodeSorted(st: seq<Frame>, root: Tree, target: Key, pre: seq<Key>)
    requires Seeking(st, root, target, pre)
    ensures Sorted(Top(st).node.keys)
  {
    hide From;
    PageSorted(Top(st).node);
  }

  lemma SeekDown(st: seq<Frame>, root: Tree, target: Key, pre: seq<Key>, i: nat)
    requires Seeking(st, root, target, pre) && Top(st).node.Node? && FirstNotLess(Top(st).node.keys, target, i)
    ensures var node := Top(st).node;
            var st' := st[..|st| - 1] + [Frame(node, 2 * i + 1)] + [Frame(node.kids[i], 0)];
            Seeking(st', root, target, pre + UpTo(node, 2 * i)) && 1 + Pending(st') <= Pending(st)
  {
    hide From, UpTo, PagesFrom, CompareKeys, Sorted;
    var node := Top(st).node;
    var below := st[..|st| - 1] + [Frame(node, 2 * i + 1)];
    var st' := below + [Frame(node.kids[i], 0)];
    assert below[..|below| - 1] == st[..|st| - 1] && st'[..|st'| - 1] == below;
    AroundKid(node, i);
    KidSorted(node, i);
    BeforeKid(node, i, target);
    var rest := Rest(st[..|st| - 1]);
    assert Rest(below) == From(node, 2 * i + 1) + rest;
    Regroup5(pre, UpTo(node, 2 * i), InOrder(node.kids[i]), From(node, 2 * i + 1), rest);
    SeekDownPages(st, i);
  }

  lemma SeekDownPages(st: seq<Frame>, i: nat)
    requires st != [] && StackOk(st) && Top(st).step == 0 && Top(st).node.Node? && i < |Top(st).node.kids|
    ensures var node := Top(st).node;
            var st' := st[..|st| - 1] + [Frame(node, 2 * i + 1)] + [Frame(node.kids[i], 0)];
            StackOk(st') && 1 + Pending(st') <= Pending(st)
  {
    hide PagesFrom;
    var node := Top(st).node;
    var below := st[..|st| - 1] + [Frame(node, 2 * i + 1)];
    var st' := below + [Frame(node.kids[i], 0)];
    assert below[..|below| - 1] == st[..|st| - 1] && st'[..|st'| - 1] == below;
    KidPages(node, i);
    OneFrame(node.kids[i]);
  }

  lemma KidPages(t: Tree, i: nat)
    requires Shaped(t) && t.Node? && i < |t.kids|
    ensures PageCount(t.kids[i]) + PagesFrom(t, 2 * i + 1) <= PagesFrom(t, 0)
  {
    hide PagesUpTo;
    PagesSplit(t, 2 * i);
    PageStep(t, 2 * i);
  }

  lemma SeekLeaf(st: seq<Frame>, root: Tree, target: Key, pre: seq<Key>, i: nat)
    requires Seeking(st, root, target, pre) && Top(st).node.Leaf? && FirstNotLess(Top(st).node.keys, target, i)
    ensures var st' := st[..|st| - 1] + [Frame(Top(st).node, i)];
            && StackOk(st') && Pending(st') <= Pending(st)
            && FirstNotLess(InOrder(root), target, |pre| + i) && InOrder(root)[|pre| + i..] == Rest(st')
  {
    hide From, PagesFrom, CompareKeys, Sorted;
    var node := Top(st).node;
    var st' := st[..|st| - 1] + [Frame(node, i)];
    assert st'[..|st'| - 1] == st[..|st| - 1];
    LeafFrom(node, 0);
    LeafFrom(node, i);
    LeafPages(node, 0);
    LeafPages(node, i);
    var all, rest := InOrder(root), Rest(st[..|st| - 1]);
    assert all == pre + node.keys + rest;
    assert all[|pre| + i..] == node.keys[i..] + rest;
    forall x | 0 <= x < |pre| + i ensures CompareKeys(all[x], target) == Less {
      assert all[x] == if x < |pre| then pre[x] else node.keys[x - |pre|];
    }
    if |pre| + i < |all| {
      assert all[|pre| + i] == if i < |node.keys| then node.keys[i] else rest[0];
    }
  }

  lemma {:induction false} LeafPages(t: Tree, s: nat)
    requires t.Leaf? && s <= |t.keys|
    ensures PagesFrom(t, s) == 0
    decreases |t.keys| - s
  {
    if s < |t.keys| { LeafPages(t, s + 1); }
  }

  lemma NothingLeft()
    ensures Rest([]) == [] && Left([]) == [] && Pending([]) == 0 && PendingBack([]) == 0
  {
  }

  lemma KidsMatch(t: Tree)
    requires Shaped(t) && t.Node?
    ensures |t.kids| == |t.keys| + 1
  {
  }

  lemma KidShaped(t: Tree, i: nat)
    requires Shaped(t) && t.Node? && i < |t.kids|
    ensures Shaped(t.kids[i])
  {
  }

  lemma OneFrame(t: Tree)
    requires Shaped(t)
    ensures StackOk([Frame(t, 0)]) && StackOk([Frame(t, Steps(t))])
    ensures Rest([Frame(t, 0)]) == InOrder(t) && 1 + Pending([Frame(t, 0)]) == PageCount(t)
    ensures Left([Frame(t, Steps(t))]) == InOrder(t) && 1 + PendingBack([Frame(t, Steps(t))]) == PageCount(t)
  {
    hide From, UpTo, PagesFrom, PagesUpTo;
    var a, b := [Frame(t, 0)], [Frame(t, Steps(t))];
    assert a[..0] == [] && b[..0] == [];
    FromEnd(t);
    PagesSplit(t, Steps(t));
    NoPagesPast(t);
  }

  // ------------------------------------------------------------------------ whole scans

  /** `first`, then `next` to the end, yields the entries in order; it gets there if and
      only if the tree has no more pages than the limit. */
  method ScanForward(c: Cursor) returns (r: Result<seq<Key>, TreeError>)
    requires c.Valid()
    modifies c
    ensures r.Ok? <==> PageCount(c.root) <= MAX_PAGES_VISITED
    ensures r.Ok? ==> r.value == InOrder(c.root)
  {
    hide From, PagesFrom, Shaped, Rest, Pending;
    var out := [];
    var step := c.First();
    while step.Ok? && step.value.Some?
      invariant step.Err? ==> PageCount(c.root) > MAX_PAGES_VISITED
      invariant step.Ok? ==> c.Valid() && c.pagesVisited + Pending(c.stack) == PageCount(c.root)
      invariant step == Ok(None) ==> InOrder(c.root) == out && c.stack == []
      invariant step.Ok? && step.value.Some? ==> InOrder(c.root) == out + [step.value.value] + Rest(c.stack)
      decreases if step.Ok? && step.value.Some? then |Rest(c.stack)| + 1 else 0
    {
      out := out + [step.value.value];
      ghost var rest := Rest(c.stack);
      step := c.Advance();
      if step.Ok? && step.value.Some? { assert rest == [step.value.value] + Rest(c.stack); }
    }
    if step.Err? {
      return Err(step.error);
    }
    NothingLeft();
    return Ok(out);
  }

  /** `last`, then `prev` to the start, yields exactly the reverse. */
  method ScanBackward(c: Cursor) returns (r: Result<seq<Key>, TreeError>)
    requires c.Valid()
    modifies c
    ensures r.Ok? <==> PageCount(c.root) <= MAX_PAGES_VISITED
    ensures r.Ok? ==> r.value == Reversed(InOrder(c.root))
  {
    hide From, PagesFrom, PagesUpTo, UpTo, Shaped, Left, PendingBack;
    var out := [];
    var step := c.Last();
    while step.Ok? && step.value.Some?
      invariant step.Err? ==> PageCount(c.root) > MAX_PAGES_VISITED
      invariant step.Ok? ==> c.Valid() && c.pagesVisited + PendingBack(c.stack) == PageCount(c.root)
      invariant step == Ok(None) ==> InOrder(c.root) == Reversed(out) && c.stack == []
      invariant step.Ok? && step.value.Some? ==> InOrder(c.root) == Left(c.stack) + [step.value.value] + Reversed(out)
      decreases if step.Ok? && step.value.Some? then |Left(c.stack)| + 1 else 0
    {
      assert Reversed(out + [step.value.value]) == [step.value.value] + Reversed(out);
      out := out + [step.value.value];
      ghost var left := Left(c.stack);
      step := c.AdvanceDesc();
      if step.Ok? && step.value.Some? { assert left == Left(c.stack) + [step.value.value]; }
    }
    if step.Err? {
      return Err(step.error);
    }
    NothingLeft();
    assert Reversed(Reversed(out)) == out;
    return Ok(out);
  }
}
