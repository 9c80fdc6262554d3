/** How often a prime divides a number. */
module Exponents {
  import opened Arith
  import opened Factors

  lemma DivideOut(x: int, p: int)
    requires p >= 2 && x >= 1 && x % p == 0
    ensures 1 <= x / p < x && x == p * (x / p)
  {
    var q := x / p;
    assert x == q * p;
    PositiveFactor(q, p);
    MulMono(2, p, q);
  }

  /** The largest k for which p^k divides x. */
  function Exponent(p: int, x: int): nat
    requires p >= 2 && x >= 1
    decreases x
  {
    if x % p == 0 then DivideOut(x, p); 1 + Exponent(p, x / p) else 0
  }

  lemma ExponentTimes(p: int, x: int)
    requires p >= 2 && x >= 1
    ensures p * x >= 1 && Exponent(p, p * x) == 1 + Exponent(p, x)
    ensures (p * x) % p == 0
  {
    MulPos(p, x);
    assert p * x == x * p;
    DivModUnique(p * x, p, x, 0);
  }

  lemma NotDivided(p: int, x: int)
    requires p >= 2 && x >= 1
    ensures x % p == 0 <==> Exponent(p, x) >= 1
  {
  }

  lemma MultipleModulo(p: int, a: int, b: int)
    requires p >= 1 && a % p == 0
    ensures (a * b) % p == 0
  {
    var k := a / p;
    assert a == k * p;
    assert a * b == (k * b) * p by { MulAssoc(k, p, b); MulAssoc(k, b, p); }
    DivModUnique(a * b, p, k * b, 0);
  }

  /** A prime that divides a product divides one of the factors. */
  lemma PrimeDividesFactor(p: int, a: int, b: int)
    requires IsPrime(p) && a >= 1 && (a * b) % p == 0 && a % p != 0
    ensures b % p == 0
  {
    var g, u, v := Euclid(p, a);
    DividesPrime(p, g);
    var k := a * b / p;
    assert a * b == k * p;
    BezoutTimes(u, p, v, a, b, k);
    DivModUnique(b, p, u * b + v * k, 0);
  }

  lemma DividesPrime(p: int, g: int)
    requires IsPrime(p) && g >= 1 && p % g == 0
    ensures g == 1 || g == p
  {
    if g > p {
      DivModUnique(p, g, 0, p);
    }
  }

  lemma BezoutTimes(u: int, p: int, v: int, a: int, b: int, k: int)
    requires u * p + v * a == 1 && a * b == k * p
    ensures b == (u * b + v * k) * p
  {
    assert b == (u * p + v * a) * b == (u * p) * b + (v * a) * b;
    assert (u * p) * b == (u * b) * p by { MulAssoc(u, p, b); MulAssoc(u, b, p); }
    assert (v * a) * b == (v * k) * p by { MulAssoc(v, a, b); MulAssoc(v, k, p); }
    assert (u * b + v * k) * p == (u * b) * p + (v * k) * p;
  }

  lemma {:induction false} ExponentMul(p: int, a: int, b: int)
    requires IsPrime(p) && a >= 1 && b >= 1
    ensures a * b >= 1 && Exponent(p, a * b) == Exponent(p, a) + Exponent(p, b)
    decreases a + b
  {
    hide IsPrime;
    PrimeAbove(p);
    MulPos(a, b);
    if a % p == 0 {
      DivideOut(a, p);
      var c := a / p;
      ExponentMul(p, c, b);
      MulAssoc(p, c, b);
      ExponentTimes(p, c * b);
      ExponentTimes(p, c);
    } else if b % p == 0 {
      DivideOut(b, p);
      var c := b / p;
      ExponentMul(p, a, c);
      SwapFactor(p, a, c);
      ExponentTimes(p, a * c);
      ExponentTimes(p, c);
    } else if (a * b) % p == 0 {
      PrimeDividesFactor(p, a, b);
    }
  }

  lemma SwapFactor(p: int, a: int, c: int)
    ensures a * (p * c) == p * (a * c)
  {
    MulAssoc(a, p, c);
    MulAssoc(p, a, c);
  }

  lemma PrimeAbove(p: int)
    requires IsPrime(p)
    ensures p >= 2
  {
  }

  lemma ExponentOfOne(p: int)
    requires p >= 2
    ensures Exponent(p, 1) == 0
  {
    DivModUnique(1, p, 0, 1);
  }

  lemma ExponentOfPrime(p: int, q: int)
    requires IsPrime(p) && IsPrime(q)
    ensures Exponent(p, q) == if p == q then 1 else 0
  {
    if p == q {
      ExponentOfOne(p);
      ExponentTimes(p, 1);
    } else if q % p == 0 {
      DividesPrime(q, p);
    }
  }

  lemma {:induction false} ExponentOfPower(p: int, q: int, k: nat)
    requires IsPrime(p) && IsPrime(q)
    ensures Pow(q, k) >= 1 && Exponent(p, Pow(q, k)) == if p == q then k else 0
  {
    hide IsPrime;
    PrimeAbove(p);
    PrimeAbove(q);
    if k == 0 {
      ExponentOfOne(p);
    } else {
      ExponentOfPower(p, q, k - 1);
      ExponentOfPrime(p, q);
      ExponentMul(p, q, Pow(q, k - 1));
    }
  }

  /** Every number above 1 has a prime factor. */
  lemma PrimeFactor(m: int) returns (q: int)
    requires m >= 2
    ensures IsPrime(q) && m % q == 0 && q <= m
  {
    DivModUnique(m, m, 1, 0);
    q := SmallestFrom(m, 2);
  }

  lemma {:induction false} SmallestFrom(m: int, i: int) returns (q: int)
    requires 2 <= i <= m && m % m == 0 && forall d :: 2 <= d < i ==> m % d != 0
    ensures IsPrime(q) && m % q == 0 && q <= m
    decreases m - i
  {
    if m % i == 0 {
      q := i;
      forall d | 2 <= d < q
        ensures q % d != 0
      {
        SmallerDivisor(m, q, d);
      }
    } else {
      q := SmallestFrom(m, i + 1);
    }
  }

  lemma SmallerDivisor(m: int, q: int, d: int)
    requires q >= 1 && d >= 1 && m % q == 0
    ensures q % d == 0 ==> m % d == 0
  {
    if q % d == 0 {
      MultipleModulo(d, q, m / q);
    }
  }
}
