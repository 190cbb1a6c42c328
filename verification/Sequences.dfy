/** Facts about plain sequences used throughout. */
module Sequences {
  function Reversed<T>(s: seq<T>): (r: seq<T>)
    ensures |r| == |s| && forall i :: 0 <= i < |s| ==> r[i] == s[|s| - 1 - i]
  {
    seq(|s|, i requires 0 <= i < |s| => s[|s| - 1 - i])
  }

  lemma Regroup<T>(a: seq<T>, b: seq<T>, c: seq<T>)
    ensures (a + b) + c == a + (b + c)
  {
  }

  /** Five parts, the middle three taken as one. */
  lemma Regroup5<T>(a: seq<T>, b: seq<T>, c: seq<T>, d: seq<T>, e: seq<T>)
    ensures a + (b + c + d) + e == (a + b) + c + (d + e)
  {
    var x, y := a + (b + c + d) + e, (a + b) + c + (d + e);
    assert |x| == |y|;
    forall i | 0 <= i < |x| ensures x[i] == y[i] {}
  }
}
