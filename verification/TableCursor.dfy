/** The table cursor: forward and backward scans over a stack of pages, each with the
    next cell and whether its rightmost child has been visited. */
module TableCursor {
  import opened Sequences
  import opened Bytes
  import opened TreePages
  import opened TableTree

  datatype Frame = Frame(node: Tree, nextCell: nat, rightmostDone: bool)

  function NumCells(t: Tree): nat { if t.Leaf? then |t.rows| else |t.keys| }

  /** How far a forward, and how far a backward, walk of this page has come. */
  function Ahead(f: Frame): nat { if f.node.Node? && f.rightmostDone then f.nextCell + 1 else f.nextCell }

  function Behind(f: Frame): nat { if f.node.Node? && !f.rightmostDone then f.nextCell + 1 else f.nextCell }

  ghost predicate Sound(f: Frame)
  {
    Shaped(f.node) && f.nextCell <= NumCells(f.node)
  }

  ghost predicate ForwardOk(st: seq<Frame>)
  {
    forall i :: 0 <= i < |st| ==> Sound(st[i]) && (st[i].node.Node? && st[i].rightmostDone ==> st[i].nextCell == |st[i].node.keys|)
  }

  ghost predicate BackwardOk(st: seq<Frame>)
  {
    forall i :: 0 <= i < |st| ==> Sound(st[i]) && (st[i].node.Node? && !st[i].rightmostDone ==> st[i].nextCell == |st[i].node.keys|)
  }

  function Top(st: seq<Frame>): Frame
    requires st != []
  {
    st[|st| - 1]
  }

  function Below(st: seq<Frame>): seq<Frame>
    requires st != []
  {
    st[..|st| - 1]
  }

  // ------------------------------------------------------------------ walking forward

  ghost function Rest(st: seq<Frame>): seq<int>
    requires ForwardOk(st)
  {
    if st == [] then [] else From(Top(st).node, Ahead(Top(st))) + Rest(Below(st))
  }

  ghost function Pending(st: seq<Frame>): nat
    requires ForwardOk(st)
  {
    if st == [] then 0 else PagesFrom(Top(st).node, Ahead(Top(st))) + Pending(Below(st))
  }

  ghost function WorkFrom(t: Tree, s: nat): nat
    requires Shaped(t)
    decreases t, Steps(t) - s
  {
    if s >= Steps(t) then 1 else 1 + (if t.Node? then WorkFrom(t.kids[s], 0) else 0) + WorkFrom(t, s + 1)
  }

  ghost function Work(st: seq<Frame>): nat
    requires ForwardOk(st)
  {
    if st == [] then 0 else WorkFrom(Top(st).node, Ahead(Top(st))) + Work(Below(st))
  }

  lemma PageStep(t: Tree, s: nat)
    requires Shaped(t) && s < Steps(t)
    ensures From(t, s) == Item(t, s) + From(t, s + 1)
    ensures PagesFrom(t, s) == (if t.Node? then PageCount(t.kids[s]) else 0) + PagesFrom(t, s + 1)
    ensures WorkFrom(t, s) == 1 + (if t.Node? then WorkFrom(t.kids[s], 0) else 0) + WorkFrom(t, s + 1)
  {
  }

  lemma PageEnd(t: Tree)
    requires Shaped(t)
    ensures From(t, Steps(t)) == [] && PagesFrom(t, Steps(t)) == 0 && WorkFrom(t, Steps(t)) == 1
  {
  }

  ghost predicate ForwardFrame(f: Frame)
  {
    Sound(f) && (f.node.Node? && f.rightmostDone ==> f.nextCell == |f.node.keys|)
  }

  lemma Snoc(below: seq<Frame>, f: Frame)
    requires ForwardOk(below) && ForwardFrame(f)
    ensures ForwardOk(below + [f]) && Rest(below + [f]) == From(f.node, Ahead(f)) + Rest(below)
    ensures Pending(below + [f]) == PagesFrom(f.node, Ahead(f)) + Pending(below) && Work(below + [f]) == WorkFrom(f.node, Ahead(f)) + Work(below)
  {
    hide From, PagesFrom, WorkFrom, Shaped;
    assert Below(below + [f]) == below;
  }

  lemma Split(st: seq<Frame>)
    requires ForwardOk(st) && st != []
    ensures st == Below(st) + [Top(st)] && ForwardOk(Below(st)) && ForwardFrame(Top(st)) && Shaped(Top(st).node)
  {
    hide Shaped;
  }

  lemma Exhausted(st: seq<Frame>)
    requires ForwardOk(st) && st != [] && Ahead(Top(st)) == Steps(Top(st).node)
    ensures ForwardOk(Below(st)) && Rest(st) == Rest(Below(st)) && Pending(st) == Pending(Below(st)) && Work(st) > Work(Below(st))
  {
    hide From, PagesFrom, WorkFrom, Rest, Pending, Work, Shaped, ForwardOk, ForwardFrame;
    Split(st);
    Snoc(Below(st), Top(st));
    PageEnd(Top(st).node);
  }

  lemma ToRow(st: seq<Frame>)
    requires ForwardOk(st) && st != [] && Top(st).node.Leaf? && Top(st).nextCell < |Top(st).node.rows|
    ensures var st' := Below(st) + [Top(st).(nextCell := Top(st).nextCell + 1)];
            ForwardOk(st') && Rest(st) == [Top(st).node.rows[Top(st).nextCell]] + Rest(st') && Pending(st) == Pending(st') && Work(st) > Work(st')
  {
    hide From, PagesFrom, WorkFrom, Rest, Pending, Work, Shaped, ForwardOk;
    var f := Top(st);
    Split(st);
    Snoc(Below(st), f);
    Snoc(Below(st), f.(nextCell := f.nextCell + 1));
    PageStep(f.node, f.nextCell);
    Regroup([f.node.rows[f.nextCell]], From(f.node, f.nextCell + 1), Rest(Below(st)));
  }

  /** The child at the current position goes on top; `f` is the page moved past it. */
  lemma ToKid(st: seq<Frame>, f: Frame)
    requires ForwardOk(st) && st != [] && Top(st).node.Node? && Ahead(Top(st)) < Steps(Top(st).node)
    requires f.node == Top(st).node && ForwardFrame(f) && Ahead(f) == Ahead(Top(st)) + 1
    ensures var kid := f.node.kids[Ahead(Top(st))];
            var st' := Below(st) + [f] + [Frame(kid, 0, kid.Leaf?)];
            ForwardOk(st') && Rest(st) == Rest(st') && Pending(st) == 1 + Pending(st') && Work(st) > Work(st')
  {
    hide From, PagesFrom, WorkFrom, Rest, Pending, Work, ForwardOk;
    var kid := f.node.kids[Ahead(Top(st))];
    Split(st);
    Snoc(Below(st), Top(st));
    Snoc(Below(st), f);
    Snoc(Below(st) + [f], Frame(kid, 0, kid.Leaf?));
    PageStep(f.node, Ahead(Top(st)));
    Regroup(Scan(kid), From(f.node, Ahead(f)), Rest(Below(st)));
  }

  // ----------------------------------------------------------------- walking backward

  ghost function Left(st: seq<Frame>): seq<int>
    requires BackwardOk(st)
  {
    if st == [] then [] else Left(Below(st)) + UpTo(Top(st).node, Behind(Top(st)))
  }

  ghost function PendingBack(st: seq<Frame>): nat
    requires BackwardOk(st)
  {
    if st == [] then 0 else PagesUpTo(Top(st).node, Behind(Top(st))) + PendingBack(Below(st))
  }

  ghost function WorkUpTo(t: Tree, s: nat): nat
    requires Shaped(t) && s <= Steps(t)
    decreases t, s
  {
    if s == 0 then 1 else 1 + (if t.Node? then WorkUpTo(t.kids[s - 1], Steps(t.kids[s - 1])) else 0) + WorkUpTo(t, s - 1)
  }

  ghost function WorkBack(st: seq<Frame>): nat
    requires BackwardOk(st)
  {
    if st == [] then 0 else WorkUpTo(Top(st).node, Behind(Top(st))) + WorkBack(Below(st))
  }

  lemma PageStepBack(t: Tree, s: nat)
    requires Shaped(t) && 0 < s <= Steps(t)
    ensures UpTo(t, s) == UpTo(t, s - 1) + Item(t, s - 1)
    ensures PagesUpTo(t, s) == PagesUpTo(t, s - 1) + if t.Node? then PageCount(t.kids[s - 1]) else 0
    ensures WorkUpTo(t, s) == 1 + (if t.Node? then WorkUpTo(t.kids[s - 1], Steps(t.kids[s - 1])) else 0) + WorkUpTo(t, s - 1)
  {
    hide From, PagesFrom;
  }

  ghost predicate BackwardFrame(f: Frame)
  {
    Sound(f) && (f.node.Node? && !f.rightmostDone ==> f.nextCell == |f.node.keys|)
  }

  lemma SnocBack(below: seq<Frame>, f: Frame)
    requires BackwardOk(below) && BackwardFrame(f)
    ensures BackwardOk(below + [f]) && Left(below + [f]) == Left(below) + UpTo(f.node, Behind(f))
    ensures PendingBack(below + [f]) == PagesUpTo(f.node, Behind(f)) + PendingBack(below)
    ensures WorkBack(below + [f]) == WorkUpTo(f.node, Behind(f)) + WorkBack(below)
  {
    hide UpTo, PagesUpTo, WorkUpTo;
    assert Below(below + [f]) == below;
  }

  lemma SplitBack(st: seq<Frame>)
    requires BackwardOk(st) && st != []
    ensures st == Below(st) + [Top(st)] && BackwardOk(Below(st)) && BackwardFrame(Top(st)) && Behind(Top(st)) <= Steps(Top(st).node)
  {
  }

  lemma PageStart(t: Tree)
    requires Shaped(t)
    ensures UpTo(t, 0) == [] && PagesUpTo(t, 0) == 0 && WorkUpTo(t, 0) == 1
  {
  }

  lemma ExhaustedBack(st: seq<Frame>)
    requires BackwardOk(st) && st != [] && Behind(Top(st)) == 0
    ensures BackwardOk(Below(st)) && Left(st) == Left(Below(st)) && PendingBack(st) == PendingBack(Below(st)) && WorkBack(st) > WorkBack(Below(st))
  {
    hide UpTo, PagesUpTo, WorkUpTo, Left, PendingBack, WorkBack, BackwardOk;
    SplitBack(st);
    SnocBack(Below(st), Top(st));
    PageStart(Top(st).node);
  }

  lemma BackToRow(st: seq<Frame>)
    requires BackwardOk(st) && st != [] && Top(st).node.Leaf? && Top(st).nextCell > 0
    ensures Top(st).nextCell <= |Top(st).node.rows|
    ensures var st' := Below(st) + [Top(st).(nextCell := Top(st).nextCell - 1)];
            BackwardOk(st') && Left(st) == Left(st') + [Top(st).node.rows[Top(st).nextCell - 1]]
            && PendingBack(st) == PendingBack(st') && WorkBack(st) > WorkBack(st')
  {
    hide UpTo, PagesUpTo, WorkUpTo, Left, PendingBack, WorkBack, BackwardOk;
    var f := Top(st);
    SplitBack(st);
    SnocBack(Below(st), f);
    SnocBack(Below(st), f.(nextCell := f.nextCell - 1));
    PageStepBack(f.node, f.nextCell);
    Regroup(Left(Below(st)), UpTo(f.node, f.nextCell - 1), [f.node.rows[f.nextCell - 1]]);
  }

  lemma BackToKid(st: seq<Frame>, f: Frame)
    requires BackwardOk(st) && st != [] && Top(st).node.Node? && Behind(Top(st)) > 0
    requires f.node == Top(st).node && BackwardFrame(f) && Behind(f) == Behind(Top(st)) - 1
    ensures Behind(f) < |f.node.kids|
    ensures var kid := f.node.kids[Behind(f)];
            var st' := Below(st) + [f] + [Frame(kid, NumCells(kid), kid.Leaf?)];
            BackwardOk(st') && Left(st) == Left(st') && PendingBack(st) == 1 + PendingBack(st') && WorkBack(st) > WorkBack(st')
  {
    hide From, PagesFrom, UpTo, PagesUpTo, WorkUpTo, Left, PendingBack, WorkBack, BackwardOk;
    SplitBack(st);
    var kid := f.node.kids[Behind(f)];
    SnocBack(Below(st), Top(st));
    SnocBack(Below(st), f);
    SnocBack(Below(st) + [f], Frame(kid, NumCells(kid), kid.Leaf?));
    PageStepBack(f.node, Behind(Top(st)));
    Regroup(Left(Below(st)), UpTo(f.node, Behind(f)), Scan(kid));
    FromEnd(kid);
    PagesSplit(kid, Steps(kid));
    NoPagesPast(kid);
  }

  // ------------------------------------------------------------------------ the cursor

  datatype ScanError = Failed(tree: TreeError) | CursorNotPositioned

  class Cursor {
    const root: Tree
    var stack: seq<Frame>
    var pagesVisited: nat
    var positionedReverse: bool

    ghost predicate Forward()
      reads this
    {
      Shaped(root) && ForwardOk(stack) && pagesVisited <= MAX_PAGES_VISITED && !positionedReverse
    }

    ghost predicate Backward()
      reads this
    {
      Shaped(root) && BackwardOk(stack) && pagesVisited <= MAX_PAGES_VISITED && positionedReverse
    }

    constructor (root: Tree)
      requires Shaped(root)
      ensures Forward() && this.root == root && stack == []
    {
      this.root, stack, pagesVisited, positionedReverse := root, [], 0, false;
    }

    method PushPage(t: Tree, reverse: bool) returns (ok: bool)
      requires pagesVisited <= MAX_PAGES_VISITED
      modifies this`stack, this`pagesVisited
      ensures ok == (old(pagesVisited) < MAX_PAGES_VISITED)
      ensures ok ==> stack == old(stack) + [Frame(t, if reverse then NumCells(t) else 0, t.Leaf?)] && pagesVisited == old(pagesVisited) + 1
    {
      pagesVisited := pagesVisited + 1;
      if pagesVisited > MAX_PAGES_VISITED {
        return false;
      }
      stack := stack + [Frame(t, if reverse then NumCells(t) else 0, t.Leaf?)];
      return true;
    }

    /** The next row, if any: the head of what is left, which then loses it. */
    method Advance() returns (r: Result<Option<int>, ScanError>)
      requires Forward()
      modifies this`stack, this`pagesVisited
      ensures r.Err? ==> old(pagesVisited) + old(Pending(stack)) > MAX_PAGES_VISITED
      ensures r.Ok? ==> Forward() && pagesVisited + Pending(stack) == old(pagesVisited) + old(Pending(stack))
      ensures r == Ok(None) ==> old(Rest(stack)) == [] && stack == []
      ensures r.Ok? && r.value.Some? ==> old(Rest(stack)) == [r.value.value] + Rest(stack)
    {
      hide From, PagesFrom, WorkFrom, Shaped, Rest, Pending, Work;
      while true
        invariant Forward() && Rest(stack) == old(Rest(stack))
        invariant pagesVisited + Pending(stack) == old(pagesVisited) + old(Pending(stack))
        decreases Work(stack)
      {
        if stack == [] {
          NothingLeft();
          return Ok(None);
        }
        var f, st := Top(stack), stack;
        if f.node.Leaf? {
          if f.nextCell >= |f.node.rows| {
            Exhausted(st);
            stack := Below(st);
            continue;
          }
          ToRow(st);
          stack := Below(st) + [f.(nextCell := f.nextCell + 1)];
          return Ok(Some(f.node.rows[f.nextCell]));
        }
        KidsMatch(f.node);
        if f.nextCell >= |f.node.keys| && f.rightmostDone {
          Exhausted(st);
          stack := Below(st);
          continue;
        }
        var next := if f.nextCell < |f.node.keys| then f.(nextCell := f.nextCell + 1) else f.(rightmostDone := true);
        var kid := f.node.kids[f.nextCell];
        ToKid(st, next);
        stack := Below(st) + [next];
        var ok := PushPage(kid, false);
        if !ok {
          return Err(Failed(TraversalTooLong));
        }
      }
    }

    /** The previous row, if any: the last of what is behind, which then loses it. */
    method AdvanceRev() returns (r: Result<Option<int>, ScanError>)
      requires Backward()
      modifies this`stack, this`pagesVisited
      ensures r.Err? ==> old(pagesVisited) + old(PendingBack(stack)) > MAX_PAGES_VISITED
      ensures r.Ok? ==> Backward() && pagesVisited + PendingBack(stack) == old(pagesVisited) + old(PendingBack(stack))
      ensures r == Ok(None) ==> old(Left(stack)) == [] && stack == []
      ensures r.Ok? && r.value.Some? ==> old(Left(stack)) == Left(stack) + [r.value.value]
    {
      hide From, UpTo, PagesFrom, PagesUpTo, WorkUpTo, Shaped, Left, PendingBack, WorkBack;
      while true
        invariant Backward() && Left(stack) == old(Left(stack))
        invariant pagesVisited + PendingBack(stack) == old(pagesVisited) + old(PendingBack(stack))
        decreases WorkBack(stack)
      {
        if stack == [] {
          NothingLeft();
          return Ok(None);
        }
        var f, st := Top(stack), stack;
        if f.node.Leaf? {
          if f.nextCell == 0 {
            ExhaustedBack(st);
            stack := Below(st);
            continue;
          }
          BackToRow(st);
          stack := Below(st) + [f.(nextCell := f.nextCell - 1)];
          return Ok(Some(f.node.rows[f.nextCell - 1]));
        }
        KidsMatch(f.node);
        if f.rightmostDone && f.nextCell == 0 {
          ExhaustedBack(st);
          stack := Below(st);
          continue;
        }
        var next := if !f.rightmostDone then f.(rightmostDone := true) else f.(nextCell := f.nextCell - 1);
        var kid := f.node.kids[next.nextCell];
        BackToKid(st, next);
        stack := Below(st) + [next];
        var ok := PushPage(kid, true);
        if !ok {
          return Err(Failed(TraversalTooLong));
        }
      }
    }

    method First() returns (r: Result<Option<int>, ScanError>)
      requires Shaped(root)
      modifies this
      ensures r.Err? ==> PageCount(root) > MAX_PAGES_VISITED
      ensures r.Ok? ==> Forward() && pagesVisited + Pending(stack) == PageCount(root)
      ensures r == Ok(None) ==> Scan(root) == [] && stack == []
      ensures r.Ok? && r.value.Some? ==> Scan(root) == [r.value.value] + Rest(stack)
    {
      hide From, UpTo, PagesFrom, PagesUpTo, Shaped;
      stack, pagesVisited, positionedReverse := [], 0, false;
      var ok := PushPage(root, false);
      OneFrame(root);
      r := Advance();
    }

    method Last() returns (r: Result<Option<int>, ScanError>)
      requires Shaped(root)
      modifies this
      ensures r.Err? ==> PageCount(root) > MAX_PAGES_VISITED
      ensures r.Ok? ==> Backward() && pagesVisited + PendingBack(stack) == PageCount(root)
      ensures r == Ok(None) ==> Scan(root) == [] && stack == []
      ensures r.Ok? && r.value.Some? ==> Scan(root) == Left(stack) + [r.value.value]
    {
      hide From, UpTo, PagesFrom, PagesUpTo, Shaped;
      stack, pagesVisited, positionedReverse := [], 0, true;
      var ok := PushPage(root, true);
      OneFrame(root);
      r := AdvanceRev();
    }

    /** Stepping back is refused unless the cursor was placed by `Last`. */
    method Prev() returns (r: Result<Option<int>, ScanError>)
      requires positionedReverse ==> Backward()
      modifies this`stack, this`pagesVisited
      ensures !positionedReverse ==> r == Err(CursorNotPositioned) && stack == old(stack)
      ensures positionedReverse && r.Err? ==> old(pagesVisited) + old(PendingBack(stack)) > MAX_PAGES_VISITED
      ensures r.Ok? ==> Backward() && pagesVisited + PendingBack(stack) == old(pagesVisited) + old(PendingBack(stack))
      ensures r == Ok(None) ==> old(Left(stack)) == [] && stack == []
      ensures r.Ok? && r.value.Some? ==> old(Left(stack)) == Left(stack) + [r.value.value]
    {
      if !positionedReverse {
        return Err(CursorNotPositioned);
      }
      r := AdvanceRev();
    }
  }

  lemma NothingLeft()
    ensures Rest([]) == [] && Left([]) == [] && Pending([]) == 0 && PendingBack([]) == 0
  {
  }

  lemma KidsMatch(t: Tree)
    requires Shaped(t) && t.Node?
    ensures |t.kids| == |t.keys| + 1
  {
  }

  lemma OneFrame(t: Tree)
    requires Shaped(t)
    ensures ForwardOk([Frame(t, 0, t.Leaf?)]) && BackwardOk([Frame(t, NumCells(t), t.Leaf?)])
    ensures Rest([Frame(t, 0, t.Leaf?)]) == Scan(t) && 1 + Pending([Frame(t, 0, t.Leaf?)]) == PageCount(t)
    ensures Left([Frame(t, NumCells(t), t.Leaf?)]) == Scan(t) && 1 + PendingBack([Frame(t, NumCells(t), t.Leaf?)]) == PageCount(t)
  {
    hide From, UpTo, PagesFrom, PagesUpTo;
    var a, b := [Frame(t, 0, t.Leaf?)], [Frame(t, NumCells(t), t.Leaf?)];
    assert Below(a) == [] && Below(b) == [];
    FromEnd(t);
    PagesSplit(t, Steps(t));
    NoPagesPast(t);
  }

  // ------------------------------------------------------------------------ whole scans

  /** `first`, then `next` to the end. */
  method ScanForward(c: Cursor) returns (r: Result<seq<int>, ScanError>)
    requires Shaped(c.root)
    modifies c
    ensures r.Ok? <==> PageCount(c.root) <= MAX_PAGES_VISITED
    ensures r.Ok? ==> r.value == Scan(c.root)
  {
    hide From, PagesFrom, Shaped, Rest, Pending;
    var out := [];
    var step := c.First();
    while step.Ok? && step.value.Some?
      invariant step.Err? ==> PageCount(c.root) > MAX_PAGES_VISITED
      invariant step.Ok? ==> c.Forward() && c.pagesVisited + Pending(c.stack) == PageCount(c.root)
      invariant step == Ok(None) ==> Scan(c.root) == out && c.stack == []
      invariant step.Ok? && step.value.Some? ==> Scan(c.root) == out + [step.value.value] + Rest(c.stack)
      decreases if step.Ok? && step.value.Some? then |Rest(c.stack)| + 1 else 0
    {
      out := out + [step.value.value];
      ghost var rest := Rest(c.stack);
      step := c.Advance();
      if step.Ok? && step.value.Some? { assert rest == [step.value.value] + Rest(c.stack); }
    }
    if step.Err? {
      return Err(step.error);
    }
    NothingLeft();
    return Ok(out);
  }

  /** `last`, then `prev` to the start: the rows of the forward scan, reversed. */
  method ScanBackward(c: Cursor) returns (r: Result<seq<int>, ScanError>)
    requires Shaped(c.root)
    modifies c
    ensures r.Ok? <==> PageCount(c.root) <= MAX_PAGES_VISITED
    ensures r.Ok? ==> r.value == Reversed(Scan(c.root))
  {
    hide From, PagesFrom, PagesUpTo, UpTo, Shaped, Left, PendingBack;
    var out := [];
    var step := c.Last();
    while step.Ok? && step.value.Some?
      invariant step.Err? ==> PageCount(c.root) > MAX_PAGES_VISITED
      invariant step.Ok? ==> c.Backward() && c.pagesVisited + PendingBack(c.stack) == PageCount(c.root)
      invariant step == Ok(None) ==> Scan(c.root) == Reversed(out) && c.stack == []
      invariant step.Ok? && step.value.Some? ==> Scan(c.root) == Left(c.stack) + [step.value.value] + Reversed(out)
      decreases if step.Ok? && step.value.Some? then |Left(c.stack)| + 1 else 0
    {
      assert Reversed(out + [step.value.value]) == [step.value.value] + Reversed(out);
      out := out + [step.value.value];
      ghost var left := Left(c.stack);
      step := c.Prev();
      if step.Ok? && step.value.Some? { assert left == Left(c.stack) + [step.value.value]; }
    }
    if step.Err? {
      return Err(step.error);
    }
    NothingLeft();
    assert Reversed(Reversed(out)) == out;
    return Ok(out);
  }
}
