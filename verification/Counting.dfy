/** Finite sets of numbers below a bound. */
module Counting {

  function Below(n: nat): (s: set<int>)
    ensures |s| == n && forall k :: k in s <==> 0 <= k < n
  {
    if n == 0 then {} else Below(n - 1) + {n - 1}
  }

  lemma Everything(s: set<int>, n: nat)
    requires |s| == n && forall k :: k in s ==> 0 <= k < n
    ensures forall k :: 0 <= k < n ==> k in s
  {
    forall k | 0 <= k < n
      ensures k in s
    {
      if k !in s {
        Subset(s, Below(n) - {k});
      }
    }
  }

  lemma {:induction false} Subset<T>(s: set<T>, t: set<T>)
    requires s <= t
    ensures |s| <= |t|
    decreases |s|
  {
    if exists x :: x in s {
      var x :| x in s;
      Subset(s - {x}, t - {x});
    } else {
      assert s == {};
    }
  }
}
