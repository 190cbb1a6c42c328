/** Table b-trees: rows on leaves only, interior keys route. Point lookups by binary and
    by linear search reach the same leaf. */
module TableTree {
  import opened Bytes
  import opened TreePages

  /** A page and the pages below it; rowids stand for rows. */
  datatype Tree = Leaf(rows: seq<int>) | Node(kids: seq<Tree>, keys: seq<int>)

  ghost predicate Shaped(t: Tree)
  {
    t.Node? ==> |t.kids| == |t.keys| + 1 && forall i :: 0 <= i < |t.kids| ==> Shaped(t.kids[i])
  }

  /** One step per row of a leaf, one per child of an interior page. */
  function Steps(t: Tree): nat { if t.Leaf? then |t.rows| else |t.kids| }

  /** The rows from step `s` on. */
  ghost function From(t: Tree, s: nat): seq<int>
    requires Shaped(t)
    decreases t, Steps(t) - s
  {
    if s >= Steps(t) then [] else (if t.Leaf? then [t.rows[s]] else From(t.kids[s], 0)) + From(t, s + 1)
  }

  /** The table's rows in order. */
  ghost function Scan(t: Tree): seq<int>
    requires Shaped(t)
  {
    From(t, 0)
  }

  ghost function Item(t: Tree, a: nat): seq<int>
    requires Shaped(t) && a < Steps(t)
  {
    if t.Leaf? then [t.rows[a]] else Scan(t.kids[a])
  }

  /** The rows before step `s`. */
  ghost function UpTo(t: Tree, s: nat): seq<int>
    requires Shaped(t) && s <= Steps(t)
  {
    if s == 0 then [] else UpTo(t, s - 1) + Item(t, s - 1)
  }

  lemma FromUnfold(t: Tree, s: nat)
    requires Shaped(t) && s < Steps(t)
    ensures From(t, s) == Item(t, s) + From(t, s + 1)
  {
  }

  lemma {:induction false} SplitAt(t: Tree, s: nat)
    requires Shaped(t) && s <= Steps(t)
    ensures Scan(t) == UpTo(t, s) + From(t, s)
  {
    hide From;
    if s > 0 {
      SplitAt(t, s - 1);
      FromUnfold(t, s - 1);
    }
  }

  lemma FromEnd(t: Tree)
    requires Shaped(t)
    ensures From(t, Steps(t)) == [] && UpTo(t, Steps(t)) == Scan(t)
  {
    SplitAt(t, Steps(t));
  }

  lemma {:induction false} LeafFrom(t: Tree, s: nat)
    requires t.Leaf? && s <= |t.rows|
    ensures From(t, s) == t.rows[s..]
    decreases |t.rows| - s
  {
    if s < |t.rows| {
      LeafFrom(t, s + 1);
    }
  }

  // ------------------------------------------------------------------------- page counts

  ghost function PagesFrom(t: Tree, s: nat): nat
    requires Shaped(t)
    decreases t, Steps(t) - s
  {
    if s >= Steps(t) then 0 else (if t.Node? then 1 + PagesFrom(t.kids[s], 0) else 0) + PagesFrom(t, s + 1)
  }

  ghost function PageCount(t: Tree): nat
    requires Shaped(t)
  {
    1 + PagesFrom(t, 0)
  }

  ghost function PagesUpTo(t: Tree, s: nat): nat
    requires Shaped(t) && s <= Steps(t)
  {
    if s == 0 then 0 else PagesUpTo(t, s - 1) + if t.Node? then PageCount(t.kids[s - 1]) else 0
  }

  lemma {:induction false} PagesSplit(t: Tree, s: nat)
    requires Shaped(t) && s <= Steps(t)
    ensures PagesUpTo(t, s) + PagesFrom(t, s) == PagesFrom(t, 0)
  {
    if s > 0 {
      PagesSplit(t, s - 1);
    }
  }

  // ----------------------------------------------------------------------------- order

  predicate Ascending(xs: seq<int>) { forall i, j :: 0 <= i < j < |xs| ==> xs[i] < xs[j] }

  ghost predicate AtMost(t: Tree, key: int)
    requires Shaped(t)
  {
    forall r :: r in Scan(t) ==> r <= key
  }

  ghost predicate Above(t: Tree, key: int)
    requires Shaped(t)
  {
    forall r :: r in Scan(t) ==> r > key
  }

  /** Rows ascend on every leaf, keys on every interior page, and key `i` separates child
      `i` from child `i + 1`. */
  ghost predicate Ordered(t: Tree)
  {
    && Shaped(t)
    && (t.Leaf? ==> Ascending(t.rows))
    && (t.Node? ==>
          && Ascending(t.keys) && (forall i :: 0 <= i < |t.kids| ==> Ordered(t.kids[i]))
          && (forall i :: 0 <= i < |t.keys| ==> AtMost(t.kids[i], t.keys[i]))
          && (forall i :: 1 <= i < |t.kids| ==> Above(t.kids[i], t.keys[i - 1])))
  }

  /** The child a rowid belongs to: the first whose key is not less, else the last. */
  function ChildFor(keys: seq<int>, r: int): (n: nat)
    ensures n <= |keys| && (forall i :: 0 <= i < n ==> keys[i] < r) && (n < |keys| ==> r <= keys[n])
  {
    if keys == [] || r <= keys[0] then 0 else 1 + ChildFor(keys[1..], r)
  }

  /** The leaf a rowid belongs to. */
  ghost function LeafFor(t: Tree, r: int): Tree
    requires Shaped(t)
  {
    if t.Leaf? then t else LeafFor(t.kids[ChildFor(t.keys, r)], r)
  }

  ghost function PathFor(t: Tree, r: int): seq<Tree>
    requires Shaped(t)
  {
    if t.Leaf? then [] else [t] + PathFor(t.kids[ChildFor(t.keys, r)], r)
  }

  lemma {:induction false} InSomeKid(t: Tree, s: nat, r: int)
    requires Shaped(t) && t.Node? && r in From(t, s)
    ensures exists i :: s <= i < |t.kids| && r in Scan(t.kids[i])
    decreases Steps(t) - s
  {
    if r !in Scan(t.kids[s]) {
      InSomeKid(t, s + 1, r);
    }
  }

  lemma KidInScan(t: Tree, i: nat, r: int)
    requires Shaped(t) && t.Node? && i < |t.kids| && r in Scan(t.kids[i])
    ensures r in Scan(t)
  {
    hide From, UpTo;
    SplitAt(t, i);
    FromUnfold(t, i);
  }

  lemma NotAbove(t: Tree, key: int, r: int)
    requires Shaped(t) && AtMost(t, key) && key < r
    ensures r !in Scan(t)
  {
    hide From;
  }

  lemma NotBelow(t: Tree, key: int, r: int)
    requires Shaped(t) && Above(t, key) && r <= key
    ensures r !in Scan(t)
  {
    hide From;
  }

  lemma Separated(t: Tree)
    requires Ordered(t) && t.Node?
    ensures Shaped(t) && |t.kids| == |t.keys| + 1 && Ascending(t.keys) && forall i :: 0 <= i < |t.kids| ==> Shaped(t.kids[i])
    ensures forall i :: 0 <= i < |t.keys| ==> AtMost(t.kids[i], t.keys[i])
    ensures forall i :: 1 <= i < |t.kids| ==> Above(t.kids[i], t.keys[i - 1])
  {
    hide From, AtMost, Above, Scan;
  }

  /** No child but the one a rowid belongs to can hold it. */
  lemma OtherKids(t: Tree, r: int)
    requires Ordered(t) && t.Node?
    ensures forall i :: 0 <= i < |t.kids| && i != ChildFor(t.keys, r) ==> r !in Scan(t.kids[i])
  {
    hide From, ChildFor, AtMost, Above, Scan, Ordered, Shaped;
    Separated(t);
    var n := ChildFor(t.keys, r);
    forall i | 0 <= i < |t.kids| && i != n ensures r !in Scan(t.kids[i]) {
      if i < n {
        NotAbove(t.kids[i], t.keys[i], r);
      } else {
        assert i - 1 > n ==> t.keys[n] < t.keys[i - 1];
        NotBelow(t.kids[i], t.keys[i - 1], r);
      }
    }
  }

  /** A row is in the table if and only if it is on the one leaf its rowid leads to. */
  lemma {:induction false} OnItsLeaf(t: Tree, r: int)
    requires Ordered(t)
    ensures LeafFor(t, r).Leaf? && Ascending(LeafFor(t, r).rows)
    ensures r in Scan(t) <==> r in LeafFor(t, r).rows
  {
    hide From, UpTo;
    if t.Leaf? {
      LeafFrom(t, 0);
    } else {
      var n := ChildFor(t.keys, r);
      OnItsLeaf(t.kids[n], r);
      if r in Scan(t.kids[n]) { KidInScan(t, n, r); }
      OtherKids(t, r);
      if r in Scan(t) { InSomeKid(t, 0, r); }
    }
  }

  // ------------------------------------------------------------------------ lookups

  /** The seek of the table cursor: binary search on every page down to the leaf. */
  method Seek(root: Tree, target: int) returns (r: Result<Option<int>, TreeError>, ghost leaf: Tree, ghost path: seq<Tree>)
    requires Ordered(root)
    ensures r.Ok? <==> |PathFor(root, target)| < MAX_PAGES_VISITED
    ensures r.Ok? ==> leaf == LeafFor(root, target) && path == PathFor(root, target)
    ensures r.Ok? ==> r.value == if target in Scan(root) then Some(target) else None
  {
    hide From, UpTo, ChildFor, Scan;
    var page, visited := root, 0;
    path, leaf := [], root;
    OnItsLeaf(root, target);
    while true
      invariant Ordered(page) && LeafFor(page, target) == LeafFor(root, target)
      invariant path + PathFor(page, target) == PathFor(root, target) && visited == |path| <= MAX_PAGES_VISITED
      decreases page
    {
      visited := visited + 1;
      if visited > MAX_PAGES_VISITED {
        return Err(TraversalTooLong), leaf, path;
      }
      if page.Leaf? {
        leaf := page;
        var at := BinaryRow(page.rows, target);
        return Ok(if at < |page.rows| then Some(target) else None), leaf, path;
      }
      var next := BinaryChild(page.keys, target);
      path := path + [page];
      page := page.kids[next];
    }
  }

  /** Binary search for a rowid on a leaf. */
  method BinaryRow(rows: seq<int>, target: int) returns (at: nat)
    requires Ascending(rows)
    ensures if at < |rows| then rows[at] == target else target !in rows
  {
    var lo, hi := 0, |rows|;
    while lo < hi
      invariant 0 <= lo <= hi <= |rows|
      invariant (forall i :: 0 <= i < lo ==> rows[i] < target) && (forall i :: hi <= i < |rows| ==> rows[i] > target)
    {
      var mid := lo + (hi - lo) / 2;
      if rows[mid] == target {
        return mid;
      } else if rows[mid] < target {
        lo := mid + 1;
      } else {
        hi := mid;
      }
    }
    return |rows|;
  }

  /** Binary search for the child on an interior page. */
  method BinaryChild(keys: seq<int>, target: int) returns (next: nat)
    requires Ascending(keys)
    ensures next == ChildFor(keys, target)
  {
    hide ChildFor;
    var lo, hi := 0, |keys|;
    next := |keys|;
    while lo < hi
      invariant 0 <= lo <= hi <= |keys| && next == hi
      invariant (forall i :: 0 <= i < lo ==> keys[i] < target) && (forall i :: hi <= i < |keys| ==> target <= keys[i])
    {
      var mid := lo + (hi - lo) / 2;
      if target <= keys[mid] {
        next, hi := mid, mid;
      } else {
        lo := mid + 1;
      }
    }
    FirstChild(keys, target, next);
  }

  /** Linear search for the child on an interior page. */
  method LinearChild(keys: seq<int>, rowid: int) returns (next: nat)
    ensures next == ChildFor(keys, rowid)
  {
    hide ChildFor;
    next := 0;
    while next < |keys| && rowid > keys[next]
      invariant next <= |keys| && forall i :: 0 <= i < next ==> keys[i] < rowid
    {
      next := next + 1;
    }
    FirstChild(keys, rowid, next);
  }

  lemma PathStep(t: Tree, r: int)
    requires Shaped(t)
    ensures t.Leaf? ==> PathFor(t, r) == [] && LeafFor(t, r) == t
    ensures t.Node? ==> var n := ChildFor(t.keys, r);
              n < |t.kids| && Shaped(t.kids[n]) && PathFor(t, r) == [t] + PathFor(t.kids[n], r) && LeafFor(t, r) == LeafFor(t.kids[n], r)
  {
    hide ChildFor;
  }

  lemma FirstChild(keys: seq<int>, r: int, n: nat)
    requires n <= |keys| && (forall i :: 0 <= i < n ==> keys[i] < r) && (n < |keys| ==> r <= keys[n])
    ensures n == ChildFor(keys, r)
  {
    hide ChildFor;
  }

  lemma PagesUnfold(t: Tree, s: nat)
    requires Shaped(t) && t.Node? && s < Steps(t)
    ensures PagesFrom(t, s) == PageCount(t.kids[s]) + PagesFrom(t, s + 1)
  {
  }

  lemma NoPagesPast(t: Tree)
    requires Shaped(t)
    ensures PagesFrom(t, Steps(t)) == 0
  {
  }

  lemma {:induction false} LeafPages(t: Tree, s: nat)
    requires t.Leaf? && s <= |t.rows|
    ensures PagesFrom(t, s) == 0
    decreases |t.rows| - s
  {
    if s < |t.rows| { LeafPages(t, s + 1); }
  }
}
