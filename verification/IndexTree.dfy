/** Index b-trees: every key, on leaf and interior pages alike, is an entry; a page is
    walked in steps that alternate between children and keys. */
module IndexTree {
  import opened IndexKeys

  /** A page and the pages below it. */
  datatype Tree = Leaf(keys: seq<Key>) | Node(kids: seq<Tree>, keys: seq<Key>)

  ghost predicate Shaped(t: Tree)
  {
    t.Node? ==> |t.kids| == |t.keys| + 1 && forall i :: 0 <= i < |t.kids| ==> Shaped(t.kids[i])
  }

  /** A leaf has one step per key; an interior page one per child and one per key. */
  function Steps(t: Tree): nat { if t.Leaf? then |t.keys| else 2 * |t.keys| + 1 }

  /** The entries from step `s` on. */
  ghost function From(t: Tree, s: nat): seq<Key>
    requires Shaped(t)
    decreases t, Steps(t) - s
  {
    if s >= Steps(t) then []
    else (if t.Leaf? then [t.keys[s]] else if s % 2 == 0 then From(t.kids[s / 2], 0) else [t.keys[s / 2]]) + From(t, s + 1)
  }

  ghost function InOrder(t: Tree): seq<Key>
    requires Shaped(t)
  {
    From(t, 0)
  }

  /** What step `a` stands for: a whole subtree or a single entry. */
  ghost function Item(t: Tree, a: nat): seq<Key>
    requires Shaped(t) && a < Steps(t)
  {
    if t.Leaf? then [t.keys[a]] else if a % 2 == 0 then InOrder(t.kids[a / 2]) else [t.keys[a / 2]]
  }

  /** The entries before step `s`. */
  ghost function UpTo(t: Tree, s: nat): seq<Key>
    requires Shaped(t) && s <= Steps(t)
  {
    if s == 0 then [] else UpTo(t, s - 1) + Item(t, s - 1)
  }

  lemma FromUnfold(t: Tree, s: nat)
    requires Shaped(t) && s < Steps(t)
    ensures From(t, s) == Item(t, s) + From(t, s + 1)
  {
  }

  lemma {:induction false} SplitAt(t: Tree, s: nat)
    requires Shaped(t) && s <= Steps(t)
    ensures InOrder(t) == UpTo(t, s) + From(t, s)
  {
    hide From;
    if s > 0 {
      SplitAt(t, s - 1);
      FromUnfold(t, s - 1);
    }
  }

  lemma FromEnd(t: Tree)
    requires Shaped(t)
    ensures From(t, Steps(t)) == [] && UpTo(t, Steps(t)) == InOrder(t)
  {
    SplitAt(t, Steps(t));
  }

  lemma {:induction false} LeafFrom(t: Tree, s: nat)
    requires t.Leaf? && s <= |t.keys|
    ensures From(t, s) == t.keys[s..]
    decreases |t.keys| - s
  {
    if s < |t.keys| {
      LeafFrom(t, s + 1);
    }
  }

  // ---------------------------------------------------------- where an interior key is

  ghost function At(t: Tree, i: nat): nat
    requires Shaped(t) && t.Node? && i < |t.keys|
  {
    |UpTo(t, 2 * i + 1)|
  }

  lemma KeyStep(t: Tree, i: nat)
    requires Shaped(t) && t.Node? && i < |t.keys|
    ensures Item(t, 2 * i + 1) == [t.keys[i]] && UpTo(t, 2 * i + 2) == UpTo(t, 2 * i + 1) + [t.keys[i]]
  {
    hide From, UpTo, Shaped;
    Odd(i);
    UpToUnfold(t, 2 * i + 1);
  }

  lemma UpToUnfold(t: Tree, s: nat)
    requires Shaped(t) && s < Steps(t)
    ensures UpTo(t, s + 1) == UpTo(t, s) + Item(t, s)
  {
    hide From, Item;
  }

  lemma Odd(i: nat)
    ensures (2 * i + 1) % 2 == 1 && (2 * i + 1) / 2 == i && (2 * i) % 2 == 0 && (2 * i) / 2 == i
  {
  }

  lemma KeyAt(t: Tree, i: nat)
    requires Shaped(t) && t.Node? && i < |t.keys|
    ensures At(t, i) < |InOrder(t)| && InOrder(t)[At(t, i)] == t.keys[i]
  {
    hide From, UpTo, Item, Shaped;
    SplitAt(t, 2 * i + 1);
    FromUnfold(t, 2 * i + 1);
    KeyStep(t, i);
  }

  lemma {:induction false} UpToGrows(t: Tree, s: nat, u: nat)
    requires Shaped(t) && s <= u <= Steps(t)
    ensures |UpTo(t, s)| <= |UpTo(t, u)| && UpTo(t, u)[..|UpTo(t, s)|] == UpTo(t, s)
    decreases u
  {
    hide From;
    if s < u {
      UpToGrows(t, s, u - 1);
    }
  }

  lemma KeysAscend(t: Tree, i: nat, j: nat)
    requires Shaped(t) && t.Node? && i < j < |t.keys|
    ensures At(t, i) < At(t, j)
  {
    hide From, UpTo, Item, Shaped;
    UpToGrows(t, 2 * i + 2, 2 * j + 1);
    KeyStep(t, i);
  }

  /** The keys of one page of a sorted tree are sorted, and so is each subtree. */
  lemma PageSorted(t: Tree)
    requires Shaped(t) && Sorted(InOrder(t))
    ensures Sorted(t.keys)
  {
    hide From, UpTo, Below;
    if t.Leaf? {
      LeafFrom(t, 0);
    } else {
      forall i, j | 0 <= i < j < |t.keys| ensures Below(t.keys[i], t.keys[j]) {
        KeyAt(t, i);
        KeyAt(t, j);
        KeysAscend(t, i, j);
      }
    }
  }

  lemma KidSorted(t: Tree, i: nat)
    requires Shaped(t) && t.Node? && i < |t.kids| && Sorted(InOrder(t))
    ensures Sorted(InOrder(t.kids[i]))
  {
    hide From, UpTo, Below;
    SplitAt(t, 2 * i);
    FromUnfold(t, 2 * i);
    var a, b, c := UpTo(t, 2 * i), InOrder(t.kids[i]), From(t, 2 * i + 1);
    assert InOrder(t) == a + (b + c);
    forall x, y | 0 <= x < y < |b| ensures Below(b[x], b[y]) {
      assert InOrder(t)[|a| + x] == b[x] && InOrder(t)[|a| + y] == b[y];
    }
  }

  lemma NoneBefore(t: Tree)
    requires Shaped(t)
    ensures UpTo(t, 0) == []
  {
  }

  /** Everything before child `i` is less than the target if key `i - 1` is. */
  lemma BeforeKid(t: Tree, i: nat, target: Key)
    requires Shaped(t) && t.Node? && i < |t.kids| && Sorted(InOrder(t))
    requires i > 0 ==> CompareKeys(t.keys[i - 1], target) == Less
    ensures AllLess(UpTo(t, 2 * i), target)
  {
    hide From, CompareKeys, UpTo, Item;
    if i == 0 {
      assert UpTo(t, 0) == [] by { NoneBefore(t); }
    } else {
      var before := UpTo(t, 2 * i);
      KeyStep(t, i - 1);
      assert before == UpTo(t, 2 * i - 1) + [t.keys[i - 1]];
      KeyAt(t, i - 1);
      SplitAt(t, 2 * i);
      forall x | 0 <= x < |before| ensures CompareKeys(before[x], target) == Less {
        assert InOrder(t)[x] == before[x];
        if x < |before| - 1 {
          assert Below(InOrder(t)[x], InOrder(t)[At(t, i - 1)]);
          KeysTransitive(before[x], t.keys[i - 1], target);
        }
      }
    }
  }

  // --------------------------------------------------------------------- page counts

  /** The pages still to be visited from step `s` on. */
  ghost function PagesFrom(t: Tree, s: nat): nat
    requires Shaped(t)
    decreases t, Steps(t) - s
  {
    if s >= Steps(t) then 0
    else (if t.Node? && s % 2 == 0 then 1 + PagesFrom(t.kids[s / 2], 0) else 0) + PagesFrom(t, s + 1)
  }

  ghost function PageCount(t: Tree): nat
    requires Shaped(t)
  {
    1 + PagesFrom(t, 0)
  }

  ghost function PagesUpTo(t: Tree, s: nat): nat
    requires Shaped(t) && s <= Steps(t)
  {
    if s == 0 then 0 else PagesUpTo(t, s - 1) + if t.Node? && (s - 1) % 2 == 0 then PageCount(t.kids[(s - 1) / 2]) else 0
  }

  lemma {:induction false} PagesSplit(t: Tree, s: nat)
    requires Shaped(t) && s <= Steps(t)
    ensures PagesUpTo(t, s) + PagesFrom(t, s) == PagesFrom(t, 0)
  {
    if s > 0 {
      PagesSplit(t, s - 1);
    }
  }

  // ---------------------------------------------------------- splitting around a child

  lemma AroundKid(t: Tree, i: nat)
    requires Shaped(t) && t.Node? && i < |t.kids|
    ensures InOrder(t) == UpTo(t, 2 * i) + InOrder(t.kids[i]) + From(t, 2 * i + 1)
    ensures i < |t.keys| ==> From(t, 2 * i + 1) == [t.keys[i]] + From(t, 2 * i + 2)
    ensures i == |t.keys| ==> From(t, 2 * i + 1) == []
  {
    hide From, UpTo;
    SplitAt(t, 2 * i);
    FromUnfold(t, 2 * i);
    if i < |t.keys| { FromUnfold(t, 2 * i + 1); } else { FromEnd(t); }
  }

  /** Everything after child `i` is greater than the target if key `i` is. */
  lemma AfterKid(t: Tree, i: nat, target: Key)
    requires Shaped(t) && t.Node? && i < |t.kids| && Sorted(InOrder(t))
    requires i < |t.keys| ==> CompareKeys(target, t.keys[i]) == Less
    ensures AllGreater(From(t, 2 * i + 1), target)
  {
    hide From, UpTo, CompareKeys;
    AroundKid(t, i);
    if i < |t.keys| {
      var all, after := InOrder(t), From(t, 2 * i + 1);
      var at := |all| - |after|;
      forall x | 0 <= x < |after| ensures CompareKeys(target, after[x]) == Less {
        assert all[at + x] == after[x] && all[at] == after[0] == t.keys[i];
        if x > 0 {
          assert Below(all[at], all[at + x]);
          KeysTransitive(target, t.keys[i], after[x]);
        }
      }
    }
  }

  // ------------------------------------------------------------------- interior entries

  /** The entries that sit on interior pages. */
  ghost function InteriorKeys(t: Tree): set<Key>
    requires Shaped(t)
  {
    if t.Leaf? then {} else (set k | k in t.keys) + set i, k | 0 <= i < |t.kids| && k in InteriorKeys(t.kids[i]) :: k
  }

  lemma {:induction false} InteriorIsEntry(t: Tree, k: Key)
    requires Shaped(t) && k in InteriorKeys(t)
    ensures k in InOrder(t)
  {
    hide From, UpTo;
    if k in t.keys {
      var i :| 0 <= i < |t.keys| && t.keys[i] == k;
      KeyAt(t, i);
    } else {
      var i :| 0 <= i < |t.kids| && k in InteriorKeys(t.kids[i]);
      InteriorIsEntry(t.kids[i], k);
      AroundKid(t, i);
    }
  }

  lemma KidStep(t: Tree, i: nat)
    requires Shaped(t) && t.Node? && i < |t.kids|
    ensures Item(t, 2 * i) == InOrder(t.kids[i]) && UpTo(t, 2 * i + 1) == UpTo(t, 2 * i) + InOrder(t.kids[i])
  {
    hide From, UpTo;
    Odd(i);
    UpToUnfold(t, 2 * i);
  }

  lemma {:induction false} KidBefore(t: Tree, i: nat, j: nat)
    requires Shaped(t) && t.Node? && i < j < |t.kids|
    ensures Shaped(t.kids[i]) && forall k :: k in InOrder(t.kids[i]) ==> k in UpTo(t, 2 * j)
  {
    hide From, UpTo, Item;
    UpToGrows(t, 2 * i + 1, 2 * j);
    var a, b := UpTo(t, 2 * i + 1), UpTo(t, 2 * j);
    KidStep(t, i);
    forall k | k in InOrder(t.kids[i]) ensures k in b {
      assert k in a;
      var x :| 0 <= x < |a| && a[x] == k;
      assert b[..|a|][x] == k;
    }
  }

  lemma {:induction false} FromGrows(t: Tree, s: nat, u: nat)
    requires Shaped(t) && s <= u <= Steps(t)
    ensures forall k :: k in From(t, u) ==> k in From(t, s)
    decreases u - s
  {
    hide From, Item;
    if s < u {
      FromUnfold(t, s);
      FromGrows(t, s + 1, u);
    }
  }

  lemma KidAfter(t: Tree, i: nat, j: nat)
    requires Shaped(t) && t.Node? && i < j < |t.kids|
    ensures forall k :: k in InOrder(t.kids[j]) ==> k in From(t, 2 * i + 1)
  {
    hide From;
    FromGrows(t, 2 * i + 1, 2 * j);
    FromUnfold(t, 2 * j);
  }

  /** An interior entry that is on this page's child `i` only sits below child `i`. */
  lemma InteriorBelow(t: Tree, i: nat, k: Key)
    requires Shaped(t) && t.Node? && i < |t.kids| && k !in t.keys
    requires k !in UpTo(t, 2 * i) && k !in From(t, 2 * i + 1)
    ensures k in InteriorKeys(t) <==> k in InteriorKeys(t.kids[i])
  {
    hide From, UpTo;
    forall j | 0 <= j < |t.kids| && j != i ensures k !in InteriorKeys(t.kids[j]) {
      if k in InteriorKeys(t.kids[j]) {
        InteriorIsEntry(t.kids[j], k);
        if j < i { KidBefore(t, j, i); } else { KidAfter(t, i, j); }
      }
    }
  }
}
