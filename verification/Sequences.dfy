/** Counting and regrouping facts about sequences. */
module Sequences {

  /** A value has full multiplicity exactly when it is the only one. */
  lemma {:induction false} FullMeansAll<T>(xs: seq<T>, g: T)
    ensures multiset(xs)[g] <= |xs|
    ensures multiset(xs)[g] == |xs| <==> forall u :: 0 <= u < |xs| ==> xs[u] == g
  {
    if xs != [] {
      var n := |xs| - 1;
      FullMeansAll(xs[..n], g);
      assert xs == xs[..n] + [xs[n]];
      assert xs[n] == g && (forall u :: 0 <= u < n ==> xs[..n][u] == g) ==> forall u :: 0 <= u < |xs| ==> xs[u] == g;
    }
  }

  ghost predicate Distinct(xs: seq<nat>) {
    forall i, j :: 0 <= i < j < |xs| ==> xs[i] != xs[j]
  }

  /** Distinct naturals below m number at most m. */
  lemma {:induction false} Pigeonhole(xs: seq<nat>, m: nat)
    requires Distinct(xs) && forall i :: 0 <= i < |xs| ==> xs[i] < m
    ensures |xs| <= m
    decreases m
  {
    assert |xs| == 0 || xs[0] < m;
    if m > 0 {
      if i :| 0 <= i < |xs| && xs[i] == m - 1 {
        var ys := xs[..i] + xs[i + 1..];
        assert forall k :: 0 <= k < |ys| ==> ys[k] == if k < i then xs[k] else xs[k + 1];
        Pigeonhole(ys, m - 1);
      } else {
        Pigeonhole(xs, m - 1);
      }
    }
  }

  lemma Regroup<T>(a: seq<T>, b: seq<T>, c: seq<T>, d: seq<T>)
    ensures a + b + c + d == a + (b + (c + d))
  {
  }

  lemma DropFirst<T>(x: T, a: seq<T>)
    ensures ([x] + a)[1..] == a
  {
  }

  lemma NoPrefix<T>(a: seq<T>)
    ensures [] + a == a == a + []
  {
  }

  lemma TakeNext<T>(a: seq<T>, k: nat)
    requires k < |a|
    ensures a[..k + 1] == a[..k] + [a[k]]
  {
  }
}
