/** Where a key is or belongs in a sorted index: below which child, on which leaf, and
    between which entries. */
module IndexSearch {
  import opened IndexKeys
  import opened IndexTree

  lemma TailGreater(keys: seq<Key>, mid: nat, key: Key)
    requires Sorted(keys) && mid < |keys| && CompareKeys(key, keys[mid]) == Less
    ensures AllGreater(keys[mid..], key)
  {
    hide CompareKeys;
    forall i | mid <= i < |keys| ensures CompareKeys(key, keys[i]) == Less {
      if i > mid {
        assert Below(keys[mid], keys[i]);
        KeysTransitive(key, keys[mid], keys[i]);
      }
    }
  }

  lemma HeadLess(keys: seq<Key>, mid: nat, key: Key)
    requires Sorted(keys) && mid < |keys| && CompareKeys(keys[mid], key) == Less
    ensures AllLess(keys[..mid + 1], key)
  {
    hide CompareKeys;
    forall i | 0 <= i <= mid ensures CompareKeys(keys[i], key) == Less {
      if i < mid {
        assert Below(keys[i], keys[mid]);
        KeysTransitive(keys[i], keys[mid], key);
      }
    }
  }

  /** A key is not among keys all less and keys all greater than it. */
  lemma NotAmong(a: seq<Key>, b: seq<Key>, key: Key)
    requires AllLess(a, key) && AllGreater(b, key)
    ensures key !in a && key !in b && key !in a + b
  {
    hide CompareKeys;
    KeysFlip(key, key);
  }

  // -------------------------------------------------------------------------- descent

  /** Only the current subtree can hold the key, and all interior copies are below it. */
  ghost predicate Cornered(root: Tree, node: Tree, key: Key, pre: seq<Key>, post: seq<Key>)
  {
    && Shaped(root) && Shaped(node) && Sorted(InOrder(node))
    && InOrder(root) == pre + InOrder(node) + post && AllLess(pre, key) && AllGreater(post, key)
    && (key in InteriorKeys(root) <==> key in InteriorKeys(node))
  }

  lemma CornerKid(root: Tree, node: Tree, key: Key, pre: seq<Key>, post: seq<Key>, i: nat)
    requires Cornered(root, node, key, pre, post) && node.Node? && i < |node.kids| && key !in node.keys
    requires i > 0 ==> CompareKeys(node.keys[i - 1], key) == Less
    requires i < |node.keys| ==> CompareKeys(key, node.keys[i]) == Less
    ensures Cornered(root, node.kids[i], key, pre + UpTo(node, 2 * i), From(node, 2 * i + 1) + post)
  {
    hide From, UpTo, CompareKeys, Sorted, InteriorKeys;
    AroundKid(node, i);
    KidSorted(node, i);
    BeforeKid(node, i, key);
    AfterKid(node, i, key);
    NotAmong(UpTo(node, 2 * i), From(node, 2 * i + 1), key);
    InteriorBelow(node, i, key);
    var a, b, c := UpTo(node, 2 * i), InOrder(node.kids[i]), From(node, 2 * i + 1);
    assert pre + (a + b + c) + post == (pre + a) + b + (c + post);
  }

  /** The first key equal to `key`, or the number of keys. */
  method Position(keys: seq<Key>, key: Key) returns (n: nat)
    ensures n <= |keys| && key !in keys[..n] && (n < |keys| ==> keys[n] == key) && (n == |keys| ==> key !in keys)
  {
    hide CompareKeys;
    n := 0;
    while n < |keys|
      invariant n <= |keys| && key !in keys[..n]
    {
      KeysFlip(key, keys[n]);
      if CompareKeys(key, keys[n]) == Equal {
        return;
      }
      n := n + 1;
    }
  }

  /** The first key greater than `key`, or the number of keys: the child to go to. */
  method Route(keys: seq<Key>, key: Key) returns (n: nat)
    requires key !in keys
    ensures n == ChildFor(keys, key)
    ensures n <= |keys| && (n > 0 ==> CompareKeys(keys[n - 1], key) == Less) && (n < |keys| ==> CompareKeys(key, keys[n]) == Less)
  {
    hide CompareKeys, ChildFor;
    n := 0;
    while n < |keys| && CompareKeys(key, keys[n]) != Less
      invariant n <= |keys| && (n > 0 ==> CompareKeys(keys[n - 1], key) == Less)
      invariant forall i :: 0 <= i < n ==> CompareKeys(key, keys[i]) != Less
    {
      KeysFlip(key, keys[n]);
      n := n + 1;
    }
    FirstGreater(keys, key, n);
  }

  /** The child a key not on the page belongs to. */
  function ChildFor(keys: seq<Key>, key: Key): (n: nat)
    ensures n <= |keys|
  {
    if keys == [] || CompareKeys(key, keys[0]) == Less then 0 else 1 + ChildFor(keys[1..], key)
  }

  /** How many pages looking up `key` reads. */
  ghost function PagesDown(t: Tree, key: Key): (n: nat)
    requires Shaped(t)
    ensures n >= 1
  {
    if t.Leaf? || key in t.keys then 1 else 1 + PagesDown(t.kids[ChildFor(t.keys, key)], key)
  }

  lemma {:induction false} FirstGreater(keys: seq<Key>, key: Key, n: nat)
    requires n <= |keys| && (forall i :: 0 <= i < n ==> CompareKeys(key, keys[i]) != Less)
    requires n < |keys| ==> CompareKeys(key, keys[n]) == Less
    ensures n == ChildFor(keys, key)
  {
    hide CompareKeys;
    if n > 0 {
      FirstGreater(keys[1..], key, n - 1);
    }
  }

  lemma LastPage(t: Tree, key: Key)
    requires Shaped(t) && (t.Leaf? || key in t.keys)
    ensures PagesDown(t, key) == 1
  {
  }

  lemma KidCount(t: Tree, key: Key, i: nat)
    requires Shaped(t) && t.Node? && key !in t.keys && i == ChildFor(t.keys, key)
    ensures |t.kids| == |t.keys| + 1 && Shaped(t.kids[i]) && PagesDown(t, key) == 1 + PagesDown(t.kids[i], key)
  {
    hide ChildFor;
  }

  lemma LeafReached(root: Tree, leaf: Tree, key: Key, pre: seq<Key>, post: seq<Key>)
    requires Cornered(root, leaf, key, pre, post) && leaf.Leaf?
    ensures key !in InteriorKeys(root) && InOrder(root) == pre + leaf.keys + post && Sorted(leaf.keys)
    ensures key in InOrder(root) <==> key in leaf.keys
  {
    hide From, CompareKeys, Sorted;
    LeafFrom(leaf, 0);
    assert leaf.keys[0..] == leaf.keys;
    NotAmong(pre, post, key);
  }

  lemma MatchFound(root: Tree, node: Tree, key: Key, pre: seq<Key>, post: seq<Key>)
    requires Cornered(root, node, key, pre, post) && node.Node? && key in node.keys
    ensures key in InteriorKeys(root) && key in InOrder(root)
  {
    hide From, CompareKeys, Sorted;
    assert key in InteriorKeys(node);
    InteriorIsEntry(root, key);
  }

  lemma SortedInsert(pre: seq<Key>, keys: seq<Key>, post: seq<Key>, n: nat, key: Key)
    requires Sorted(pre + keys + post) && n <= |keys|
    requires AllLess(pre, key) && AllGreater(post, key) && AllLess(keys[..n], key) && AllGreater(keys[n..], key)
    ensures var all, at := pre + keys + post, |pre| + n; Sorted(all[..at] + [key] + all[at..])
  {
    hide CompareKeys, Below;
    var all, at := pre + keys + post, |pre| + n;
    var a, b := all[..at], all[at..];
    assert a == pre + keys[..n] && b == keys[n..] + post;
    SortedAround(a, b, key);
    assert a + b == all;
  }

  lemma SortedAround(a: seq<Key>, b: seq<Key>, key: Key)
    requires Sorted(a + b) && AllLess(a, key) && AllGreater(b, key)
    ensures Sorted(a + [key] + b)
  {
    hide CompareKeys;
    var r, all := a + [key] + b, a + b;
    forall i, j | 0 <= i < j < |r| ensures Below(r[i], r[j]) {
      if i != |a| && j != |a| {
        var x, y := if i < |a| then i else i - 1, if j < |a| then j else j - 1;
        assert r[i] == all[x] && r[j] == all[y];
        assert Below(all[x], all[y]);
      }
    }
  }
}
