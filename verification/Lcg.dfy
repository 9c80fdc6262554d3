/** The linear congruential sequence x' = (a x + c) mod 2^m, and when its period is full. */
module Lcg {
  import opened Arith
  import opened Counting

  function Step(x: int, a: int, c: int, m: nat): (y: int)
    ensures 0 <= y < Pow2(m)
  {
    (a * x + c) % Pow2(m)
  }

  function Iterate(x: int, a: int, c: int, m: nat, n: nat): int {
    if n == 0 then x else Step(Iterate(x, a, c, m, n - 1), a, c, m)
  }

  /** From any residue, every residue is reached within 2^m steps. */
  ghost predicate FullPeriod(a: int, c: int, m: nat) {
    forall x: nat, y: nat :: x < Pow2(m) && y < Pow2(m) ==> Reaches(x, y, a, c, m)
  }

  ghost predicate Reaches(x: int, y: int, a: int, c: int, m: nat) {
    exists n: nat :: n < Pow2(m) && Iterate(x, a, c, m, n) == y
  }

  predicate Maximal(a: int, c: int, m: nat) {
    c % 2 == 1 && a % 2 == 1 && (m >= 2 ==> a % 4 == 1)
  }

  // The sequence in closed form ------------------------------------------------------

  /** 1 + a + ... + a^(n-1) */
  function Geo(a: int, n: nat): int {
    if n == 0 then 0 else 1 + a * Geo(a, n - 1)
  }

  lemma {:induction false} IterateRange(x: int, a: int, c: int, m: nat, n: nat)
    requires 0 <= x < Pow2(m)
    ensures 0 <= Iterate(x, a, c, m, n) < Pow2(m)
  {
  }

  lemma {:induction false} IterateAdd(x: int, a: int, c: int, m: nat, i: nat, j: nat)
    ensures Iterate(x, a, c, m, i + j) == Iterate(Iterate(x, a, c, m, i), a, c, m, j)
  {
    if j > 0 {
      IterateAdd(x, a, c, m, i, j - 1);
    }
  }

  /** n steps move x by a multiple of its first increment. */
  lemma {:induction false} ClosedForm(x: int, a: int, c: int, m: nat, n: nat)
    ensures Cong(Iterate(x, a, c, m, n), x + Geo(a, n) * ((a - 1) * x + c), Pow2(m))
  {
    hide Pow2;
    if n > 0 {
      ClosedForm(x, a, c, m, n - 1);
      var y := Iterate(x, a, c, m, n - 1);
      var g := Geo(a, n - 1);
      var d := (a - 1) * x + c;
      CongMul(a, a, y, x + g * d, Pow2(m));
      CongAdd(a * y, a * (x + g * d), c, c, Pow2(m));
      CongMod(a * y + c, Pow2(m));
      ClosedStep(x, a, c, g, d);
    }
  }

  lemma ClosedStep(x: int, a: int, c: int, g: int, d: int)
    requires d == (a - 1) * x + c
    ensures a * (x + g * d) + c == x + (1 + a * g) * d
  {
    assert a * (x + g * d) == a * x + a * (g * d);
    MulAssoc(a, g, d);
    assert (1 + a * g) * d == d + (a * g) * d;
    assert (a - 1) * x == a * x - x;
  }

  lemma {:induction false} GeoAdd(a: int, m: nat, n: nat)
    ensures Geo(a, m + n) == Geo(a, m) + (1 + (a - 1) * Geo(a, m)) * Geo(a, n)
  {
    if m > 0 {
      GeoAdd(a, m - 1, n);
      GeoAddStep(a, Geo(a, m - 1), Geo(a, n));
    }
  }

  lemma GeoAddStep(a: int, g: int, h: int)
    ensures 1 + a * (g + (1 + (a - 1) * g) * h) == (1 + a * g) + (1 + (a - 1) * (1 + a * g)) * h
  {
    var u := (a - 1) * g;
    assert (a - 1) * (a * g) == a * u by { MulAssoc(a - 1, a, g); MulAssoc(a, a - 1, g); }
    assert (a - 1) * (1 + a * g) == a - 1 + a * u;
    assert a * (g + (1 + u) * h) == a * g + a * ((1 + u) * h);
    MulAssoc(a, 1 + u, h);
    assert a * (1 + u) == a + a * u;
  }

  // Which counts return to the start -------------------------------------------------

  lemma ParityMul(s: int, o: int)
    requires o % 2 == 1
    ensures (s * o) % 2 == s % 2
  {
    var k := o / 2;
    assert o == 2 * k + 1;
    assert s * o == s + (s * k) * 2 by { assert s * (2 * k + 1) == s * (2 * k) + s; MulAssoc(s, k, 2); }
    ModAddMul(s, s * k, 2);
  }

  /** Divisibility by a power of two, one factor at a time. */
  lemma HalfDivides(s: int, p: int)
    requires p >= 1
    ensures (2 * s) % (2 * p) == 0 <==> s % p == 0
    ensures s % (2 * p) == 0 ==> s % 2 == 0
  {
    if (2 * s) % (2 * p) == 0 {
      var k := Quotient(2 * s, 2 * p);
      assert k * (2 * p) == 2 * (k * p);
      Exact(s, p, k);
    }
    if s % p == 0 {
      var k := Quotient(s, p);
      assert k * (2 * p) == 2 * (k * p);
      Exact(2 * s, 2 * p, k);
    }
    if s % (2 * p) == 0 {
      var k := Quotient(s, 2 * p);
      assert k * (2 * p) == (k * p) * 2;
      Exact(s, 2, k * p);
    }
  }

  lemma Quotient(s: int, p: int) returns (k: int)
    requires p >= 1 && s % p == 0
    ensures s == k * p
  {
    k := s / p;
  }

  lemma Exact(s: int, p: int, k: int)
    requires p >= 1 && s == k * p
    ensures s % p == 0
  {
    DivModUnique(s, p, k, 0);
  }

  /** An odd factor does not change divisibility by a power of two. */
  lemma {:induction false} OddCancels(s: int, o: int, m: nat)
    requires o % 2 == 1
    ensures (s * o) % Pow2(m) == 0 <==> s % Pow2(m) == 0
    decreases m
  {
    if m > 0 {
      if s % 2 == 0 {
        OddCancels(s / 2, o, m - 1);
      }
      OddCancelsStep(s, o, Pow2(m - 1));
    }
  }

  lemma OddCancelsStep(s: int, o: int, p: int)
    requires p >= 1 && o % 2 == 1
    requires s % 2 == 0 ==> ((s / 2 * o) % p == 0 <==> s / 2 % p == 0)
    ensures (s * o) % (2 * p) == 0 <==> s % (2 * p) == 0
  {
    HalfDivides(s, p);
    HalfDivides(s * o, p);
    ParityMul(s, o);
    if s % 2 == 0 {
      var h := s / 2;
      HalfDivides(h, p);
      HalfDivides(h * o, p);
      assert s * o == 2 * (h * o) by { MulAssoc(2, h, o); }
    }
  }

  lemma {:induction false} GeoParity(a: int, n: nat)
    requires a % 2 == 1
    ensures Geo(a, n) % 2 == n % 2
  {
    hide Geo;
    if n > 0 {
      GeoParity(a, n - 1);
      NextParity(Geo(a, n - 1), a);
      GeoNext(a, n);
    } else {
      GeoNone(a);
    }
  }

  lemma GeoNone(a: int)
    ensures Geo(a, 0) == 0
  {
  }

  lemma GeoNext(a: int, n: nat)
    requires n > 0
    ensures Geo(a, n) == 1 + a * Geo(a, n - 1)
  {
  }

  lemma NextParity(g: int, a: int)
    requires a % 2 == 1
    ensures (1 + a * g) % 2 == (1 + g) % 2
  {
    var h := a / 2;
    OddTimes(a, g, h);
    ModAddMul(1 + g, h * g, 2);
  }

  lemma OddTimes(a: int, g: int, h: int)
    requires a == 2 * h + 1
    ensures 1 + a * g == 1 + g + (h * g) * 2
  {
    MulAssoc(2, h, g);
    assert (2 * h + 1) * g == (2 * h) * g + g;
  }

  /** Doubling n doubles the geometric sum, up to an odd factor. */
  lemma GeoDouble(a: int, k: nat) returns (o: int)
    requires a % 4 == 1
    ensures o % 2 == 1 && Geo(a, 2 * k) == 2 * (Geo(a, k) * o)
  {
    hide Geo;
    var g := Geo(a, k);
    GeoAdd(a, k, k);
    var h := a / 4;
    o := 1 + 2 * (h * g);
    assert 2 * k == k + k;
    DoubleSum(a, g, h);
  }

  lemma DoubleSum(a: int, g: int, h: int)
    requires a == 4 * h + 1
    ensures g + (1 + (a - 1) * g) * g == 2 * (g * (1 + 2 * (h * g)))
  {
    var u := h * g;
    assert (a - 1) * g == 4 * u by { MulAssoc(4, h, g); }
    assert (1 + 4 * u) * g == g + 4 * (u * g);
    assert g * (1 + 2 * u) == g + 2 * (u * g);
  }

  /** The geometric sum is divisible by 2^m exactly when n is. */
  lemma {:induction false} GeoDivides(a: int, n: nat, m: nat)
    requires m >= 1 ==> a % 2 == 1
    requires m >= 2 ==> a % 4 == 1
    ensures Geo(a, n) % Pow2(m) == 0 <==> n % Pow2(m) == 0
  {
    if m > 0 {
      var p := Pow2(m - 1);
      HalfDivides(Geo(a, n), p);
      HalfDivides(n, p);
      GeoParity(a, n);
      if m == 1 {
        assert p == 1;
      } else if n % 2 == 0 {
        var k := n / 2;
        var o := GeoDouble(a, k);
        GeoDivides(a, k, m - 1);
        OddCancels(Geo(a, k), o, m - 1);
        HalfDivides(Geo(a, k) * o, p);
        HalfDivides(k, p);
        assert n == 2 * k;
      }
    }
  }

  /** A sequence of maximal period is back at its start after the multiples of 2^m, and after
      no other number of steps. */
  lemma ReturnsIff(x: int, a: int, c: int, m: nat, n: nat)
    requires Maximal(a, c, m) && 0 <= x < Pow2(m)
    ensures Iterate(x, a, c, m, n) == x <==> n % Pow2(m) == 0
  {
    hide Pow2, Iterate;
    var M := Pow2(m);
    var d := (a - 1) * x + c;
    var g := Geo(a, n);
    ClosedForm(x, a, c, m, n);
    IterateRange(x, a, c, m, n);
    IncrementOdd(x, a, c);
    OddCancels(g, d, m);
    GeoDivides(a, n, m);
    SameResidue(Iterate(x, a, c, m, n), x, g * d, M);
  }

  lemma IncrementOdd(x: int, a: int, c: int)
    requires a % 2 == 1 && c % 2 == 1
    ensures ((a - 1) * x + c) % 2 == 1
  {
    var k := a / 2;
    assert a - 1 == 2 * k;
    assert (a - 1) * x == (k * x) * 2;
    ModAddMul(c, k * x, 2);
  }

  lemma SameResidue(y: int, x: int, t: int, M: int)
    requires M >= 1 && 0 <= x < M && 0 <= y < M && Cong(y, x + t, M)
    ensures y == x <==> t % M == 0
  {
    DivModUnique(y, M, 0, y);
    DivModUnique(x, M, 0, x);
    if t % M == 0 {
      assert t == (t / M) * M;
      ModAddMul(x, t / M, M);
    }
    if y == x {
      var k := CongWitness(x + t, y, M);
      DivModUnique(t, M, k, 0);
    }
  }

  /** Two places of the sequence agree exactly when they are congruent modulo 2^m. */
  lemma PlacesAgreeIff(x: int, a: int, c: int, m: nat, i: nat, j: nat)
    requires Maximal(a, c, m) && 0 <= x < Pow2(m) && i <= j
    ensures Iterate(x, a, c, m, i) == Iterate(x, a, c, m, j) <==> (j - i) % Pow2(m) == 0
  {
    hide Pow2, Iterate;
    IterateAdd(x, a, c, m, i, j - i);
    IterateRange(x, a, c, m, i);
    ReturnsIff(Iterate(x, a, c, m, i), a, c, m, j - i);
  }

  // Every residue is visited ---------------------------------------------------------

  ghost function Visited(x: int, a: int, c: int, m: nat, n: nat): set<int> {
    set i: nat | i < n :: Iterate(x, a, c, m, i)
  }

  lemma {:induction false} VisitedCount(x: int, a: int, c: int, m: nat, n: nat)
    requires Maximal(a, c, m) && 0 <= x < Pow2(m) && n <= Pow2(m)
    ensures |Visited(x, a, c, m, n)| == n
  {
    hide Pow2, Iterate;
    if n > 0 {
      VisitedCount(x, a, c, m, n - 1);
      var y := Iterate(x, a, c, m, n - 1);
      assert Visited(x, a, c, m, n) == Visited(x, a, c, m, n - 1) + {y};
      if y in Visited(x, a, c, m, n - 1) {
        var i: nat :| i < n - 1 && Iterate(x, a, c, m, i) == y;
        PlacesAgreeIff(x, a, c, m, i, n - 1);
        DivModUnique(n - 1 - i, Pow2(m), 0, n - 1 - i);
      }
    } else {
      assert Visited(x, a, c, m, 0) == {};
    }
  }

  lemma MaximalIsFull(a: int, c: int, m: nat)
    requires Maximal(a, c, m)
    ensures FullPeriod(a, c, m)
  {
    hide Pow2, Iterate, Maximal;
    forall x: nat, y: nat | x < Pow2(m) && y < Pow2(m)
      ensures Reaches(x, y, a, c, m)
    {
      var v := Visited(x, a, c, m, Pow2(m));
      VisitedCount(x, a, c, m, Pow2(m));
      forall k | k in v
        ensures 0 <= k < Pow2(m)
      {
        var i: nat :| i < Pow2(m) && Iterate(x, a, c, m, i) == k;
        IterateRange(x, a, c, m, i);
      }
      Everything(v, Pow2(m));
      assert y in v;
    }
  }

  // No other parameters will do ------------------------------------------------------

  lemma ModTwiceFactor(x: int, q: int, p: int)
    requires p >= 1 && q >= 1
    ensures (x % (p * q)) % q == x % q
  {
    MulPos(p, q);
    CongFrom(x % (p * q), x, q, -(x / (p * q) * p)) by {
      assert x == x / (p * q) * (p * q) + x % (p * q);
      MulAssoc(x / (p * q), p, q);
    }
  }

  lemma NextResidues(x: int, a: int, c: int, m: nat, n: nat)
    requires m >= 1 && n >= 1
    ensures Iterate(x, a, c, m, n) % 2 == (a * Iterate(x, a, c, m, n - 1) + c) % 2
    ensures m >= 2 ==> Iterate(x, a, c, m, n) % 4 == (a * Iterate(x, a, c, m, n - 1) + c) % 4
  {
    var t := a * Iterate(x, a, c, m, n - 1) + c;
    assert Iterate(x, a, c, m, n) == t % Pow2(m);
    ModTwiceFactor(t, 2, Pow2(m - 1));
    if m >= 2 {
      assert Pow2(m) == 2 * (2 * Pow2(m - 2)) == Pow2(m - 2) * 4;
      ModTwiceFactor(t, 4, Pow2(m - 2));
    }
  }

  lemma IterateZero(x: int, a: int, c: int, m: nat)
    ensures Iterate(x, a, c, m, 0) == x
  {
  }

  /** With c even no odd number follows 0. */
  lemma {:induction false} EvenStuck(a: int, c: int, m: nat, n: nat)
    requires m >= 1 && c % 2 == 0
    ensures Iterate(0, a, c, m, n) % 2 == 0
  {
    hide Iterate;
    IterateZero(0, a, c, m);
    if n > 0 {
      EvenStuck(a, c, m, n - 1);
      NextResidues(0, a, c, m, n);
      EvenNext(a, Iterate(0, a, c, m, n - 1), c, Iterate(0, a, c, m, n));
    }
  }

  lemma EvenNext(a: int, x: int, c: int, y: int)
    requires x % 2 == 0 && y % 2 == (a * x + c) % 2
    ensures y % 2 == c % 2
  {
    MulAssoc(a, x / 2, 2);
    ModAddMul(c, a * (x / 2), 2);
  }

  /** With c odd and a even no even number follows 1. */
  lemma {:induction false} OddStuck(a: int, c: int, m: nat, n: nat)
    requires m >= 1 && c % 2 == 1 && a % 2 == 0
    ensures Iterate(1, a, c, m, n) % 2 == 1
  {
    hide Iterate;
    IterateZero(1, a, c, m);
    if n > 0 {
      OddStuck(a, c, m, n - 1);
      NextResidues(1, a, c, m, n);
      var x := Iterate(1, a, c, m, n - 1);
      assert a * x == x * a;
      EvenNext(x, a, c, Iterate(1, a, c, m, n));
    }
  }

  /** With a = 3 modulo 4 the sequence from 0 alternates between two residues modulo 4. */
  lemma {:induction false} ThreeStuck(a: int, c: int, m: nat, n: nat)
    requires m >= 2 && a % 4 == 3
    ensures Alternates(Iterate(0, a, c, m, n), c, n)
  {
    hide Iterate;
    IterateZero(0, a, c, m);
    if n > 0 {
      ThreeStuck(a, c, m, n - 1);
      NextResidues(0, a, c, m, n);
      ThreeNext(a, Iterate(0, a, c, m, n - 1), c, Iterate(0, a, c, m, n), n);
    }
  }

  predicate Alternates(x: int, c: int, n: nat) {
    x % 4 == if n % 2 == 0 then 0 else c % 4
  }

  lemma ThreeNext(a: int, x: int, c: int, y: int, n: nat)
    requires a % 4 == 3 && y % 4 == (a * x + c) % 4 && n > 0
    requires Alternates(x, c, n - 1)
    ensures Alternates(y, c, n)
  {
    CongMod(x, 4);
    CongMul(a, 3, x, x % 4, 4);
    CongMod(c, 4);
    CongAdd(a * x, 3 * (x % 4), c, c % 4, 4);
    ThreeCase(x % 4, c % 4);
  }

  lemma ThreeCase(r: int, s: int)
    requires 0 <= s < 4 && (r == 0 || r == s)
    ensures r == 0 ==> (3 * r + s) % 4 == s
    ensures r == s ==> (3 * r + s) % 4 == 0
  {
  }

  lemma MustReach(x: nat, y: nat, a: int, c: int, m: nat) returns (n: nat)
    requires FullPeriod(a, c, m) && x < Pow2(m) && y < Pow2(m)
    ensures Iterate(x, a, c, m, n) == y
  {
    hide Iterate, Pow2;
    assert Reaches(x, y, a, c, m);
    n :| n < Pow2(m) && Iterate(x, a, c, m, n) == y;
  }

  lemma SmallPowers(m: nat)
    requires m >= 1
    ensures Pow2(m) >= 2 && (m >= 2 ==> Pow2(m) >= 4)
  {
    Pow2Mono(1, m);
    if m >= 2 {
      Pow2Mono(2, m);
    }
  }

  lemma EvenAddend(a: int, c: int, m: nat)
    requires m >= 1 && c % 2 == 0
    ensures !FullPeriod(a, c, m)
  {
    hide Iterate, Pow2;
    if FullPeriod(a, c, m) {
      SmallPowers(m);
      var n := MustReach(0, 1, a, c, m);
      EvenStuck(a, c, m, n);
    }
  }

  lemma EvenMultiplier(a: int, c: int, m: nat)
    requires m >= 1 && c % 2 == 1 && a % 2 == 0
    ensures !FullPeriod(a, c, m)
  {
    hide Iterate, Pow2;
    if FullPeriod(a, c, m) {
      SmallPowers(m);
      var n := MustReach(1, 0, a, c, m);
      OddStuck(a, c, m, n);
    }
  }

  lemma ThreeMultiplier(a: int, c: int, m: nat)
    requires m >= 2 && c % 2 == 1 && a % 4 == 3
    ensures !FullPeriod(a, c, m)
  {
    hide Iterate, Pow2;
    if FullPeriod(a, c, m) {
      SmallPowers(m);
      var n := MustReach(0, 2, a, c, m);
      ThreeStuck(a, c, m, n);
    }
  }

  lemma FullIsMaximal(a: int, c: int, m: nat)
    requires m >= 1 && FullPeriod(a, c, m)
    ensures Maximal(a, c, m)
  {
    hide FullPeriod;
    OddModFour(a);
    if c % 2 == 0 {
      EvenAddend(a, c, m);
    } else if a % 2 == 0 {
      EvenMultiplier(a, c, m);
    } else if m >= 2 && a % 4 == 3 {
      ThreeMultiplier(a, c, m);
    }
  }

  lemma OddModFour(a: int)
    ensures a % 4 == 1 || a % 4 == 3 <==> a % 2 == 1
  {
  }

  /** The period is full exactly for c odd and a = 1 modulo 4 (a odd, for m = 1). */
  lemma FullPeriodIff(a: int, c: int, m: nat)
    requires m >= 1
    ensures FullPeriod(a, c, m) <==> Maximal(a, c, m)
  {
    if Maximal(a, c, m) {
      MaximalIsFull(a, c, m);
    }
    if FullPeriod(a, c, m) {
      FullIsMaximal(a, c, m);
    }
  }
}
