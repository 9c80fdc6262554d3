/** Powers and Euclidean division facts shared by the arithmetic models. */
module Arith {

  function Pow(b: int, e: nat): int {
    if e == 0 then 1 else b * Pow(b, e - 1)
  }

  function Pow2(n: nat): (r: nat)
    ensures r >= 1
  {
    if n == 0 then 1 else 2 * Pow2(n - 1)
  }

  lemma Pow2Small()
    ensures Pow2(0) == 1 && Pow2(1) == 2
  {
  }

  lemma {:induction false} Pow2Add(m: nat, n: nat)
    ensures Pow2(m + n) == Pow2(m) * Pow2(n)
  {
    if m > 0 {
      Pow2Add(m - 1, n);
      assert Pow2(m + n) == 2 * Pow2(m - 1 + n);
    }
  }

  lemma {:induction false} Pow2Mono(m: nat, n: nat)
    requires m <= n
    ensures Pow2(m) <= Pow2(n)
    ensures m < n ==> Pow2(m) < Pow2(n)
  {
    if m < n {
      Pow2Mono(m, n - 1);
    }
  }

  lemma {:induction false} PowPos(b: int, e: nat)
    requires b >= 1
    ensures Pow(b, e) >= 1
  {
    if e > 0 {
      PowPos(b, e - 1);
      MulPos(b, Pow(b, e - 1));
    }
  }

  lemma {:induction false} PowAdd(b: int, m: nat, n: nat)
    ensures Pow(b, m + n) == Pow(b, m) * Pow(b, n)
  {
    if m > 0 {
      PowAdd(b, m - 1, n);
      assert Pow(b, m + n) == b * Pow(b, m - 1 + n);
      MulAssoc(b, Pow(b, m - 1), Pow(b, n));
    }
  }

  /** Powers of one base above 1 grow strictly with the exponent. */
  lemma {:induction false} PowMonoExp(b: int, m: nat, n: nat)
    requires b >= 1 && m <= n
    ensures Pow(b, m) <= Pow(b, n)
  {
    if m < n {
      PowMonoExp(b, m, n - 1);
      PowPos(b, n - 1);
      MulMono(1, b, Pow(b, n - 1));
    }
  }

  /** Powers with one exponent grow with the base. */
  lemma {:induction false} PowMonoBase(a: int, b: int, e: nat)
    requires 0 <= a <= b
    ensures 0 <= Pow(a, e) <= Pow(b, e)
    ensures a < b && e > 0 ==> Pow(a, e) < Pow(b, e)
  {
    if e > 0 {
      PowMonoBase(a, b, e - 1);
      MulMono(a, b, Pow(a, e - 1));
      MulMono(Pow(a, e - 1), Pow(b, e - 1), b);
      if a < b {
        PowPos(b, e - 1);
        MulMono(Pow(a, e - 1), Pow(b, e - 1), a);
        MulMono(a + 1, b, Pow(b, e - 1));
      }
    }
  }

  lemma Pow2IsPow(n: nat)
    ensures Pow2(n) == Pow(2, n)
  {
  }

  lemma MulAssoc(a: int, b: int, c: int)
    ensures (a * b) * c == a * (b * c)
  {
  }

  lemma MulPos(a: int, b: int)
    requires a >= 1 && b >= 1
    ensures a * b >= 1
  {
  }

  lemma MulMono(a: int, b: int, c: int)
    requires a <= b && c >= 0
    ensures a * c <= b * c && c * a <= c * b
  {
  }

  /** A quotient and a remainder in range are the quotient and the remainder. */
  lemma DivModUnique(n: int, d: int, q: int, r: int)
    requires d > 0 && 0 <= r < d && n == q * d + r
    ensures n / d == q && n % d == r
  {
    var q', r' := n / d, n % d;
    assert (q' - q) * d == r - r';
    if q' > q {
      MulMono(1, q' - q, d);
    } else if q' < q {
      MulMono(q' - q, -1, d);
    }
  }

  lemma DivBounds(n: nat, d: int)
    requires d > 0
    ensures 0 <= n / d <= n && 0 <= n % d < d && n == (n / d) * d + n % d
  {
    var q := n / d;
    assert n == q * d + n % d;
    if q < 0 {
      MulMono(q, -1, d);
    } else {
      MulMono(1, d, q);
    }
  }

  /** The quotient compares with s as the dividend does with s * d. */
  lemma DivCompare(n: int, d: int, s: int)
    requires d > 0
    ensures n / d >= s <==> n >= s * d
  {
    var q, r := n / d, n % d;
    assert n == q * d + r;
    if q >= s {
      MulMono(s, q, d);
    } else {
      MulMono(q + 1, s, d);
      assert (q + 1) * d == q * d + d;
    }
  }

  /** A digit on top of a lower part. */
  lemma DigitBelow(v: int, x: int, p: int, b: int)
    requires 0 <= v < p && 0 <= x < b
    ensures 0 <= v + x * p < b * p
  {
    MulMono(x + 1, b, p);
    MulMono(0, x, p);
    assert (x + 1) * p == x * p + p;
  }

  lemma PositiveFactor(a: int, p: int)
    requires p > 0 && a * p > 0
    ensures a > 0
  {
    if a <= 0 { MulMono(a, 0, p); }
  }

  lemma ModAddMul(x: int, k: int, m: int)
    requires m > 0
    ensures (x + k * m) % m == x % m
    ensures (x + k * m) / m == x / m + k
  {
    assert x + k * m == (x / m + k) * m + x % m;
    DivModUnique(x + k * m, m, x / m + k, x % m);
  }

  lemma NegativeMod(a: int, m: int)
    requires m > 0
    ensures var r := (-a) % m; a % m == if r == 0 then 0 else m - r
  {
    var q, r := (-a) / m, (-a) % m;
    assert -a == q * m + r;
    assert (-q) * m == -(q * m) && (-q - 1) * m == -(q * m) - m;
    DivModUnique(a, m, if r == 0 then -q else -q - 1, if r == 0 then 0 else m - r);
  }

  /** a and b leave the same remainder. */
  ghost predicate Cong(a: int, b: int, m: int)
    requires m > 0
  {
    a % m == b % m
  }

  /** The multiple that separates two congruent numbers. */
  lemma CongWitness(a: int, b: int, m: int) returns (k: int)
    requires m > 0 && Cong(a, b, m)
    ensures a == b + k * m
  {
    k := a / m - b / m;
    assert a == (a / m) * m + a % m && b == (b / m) * m + b % m;
  }

  lemma CongFrom(a: int, b: int, m: int, k: int)
    requires m > 0 && a == b + k * m
    ensures Cong(a, b, m)
  {
    ModAddMul(b, k, m);
  }

  lemma CongAdd(a: int, b: int, c: int, d: int, m: int)
    requires m > 0 && Cong(a, b, m) && Cong(c, d, m)
    ensures Cong(a + c, b + d, m)
  {
    var k := CongWitness(a, b, m);
    var l := CongWitness(c, d, m);
    assert a + c == (b + d) + (k + l) * m;
    CongFrom(a + c, b + d, m, k + l);
  }

  lemma CongMul(a: int, b: int, c: int, d: int, m: int)
    requires m > 0 && Cong(a, b, m) && Cong(c, d, m)
    ensures Cong(a * c, b * d, m)
  {
    var k := CongWitness(a, b, m);
    var l := CongWitness(c, d, m);
    calc {
      a * c;
      (b + k * m) * (d + l * m);
      b * d + b * (l * m) + (k * m) * d + (k * m) * (l * m);
      { MulAssoc(b, l, m); MulAssoc(k, m, d); MulAssoc(k, d, m); MulAssoc(k * m, l, m); }
      b * d + (b * l + k * d + k * m * l) * m;
    }
    CongFrom(a * c, b * d, m, b * l + k * d + k * m * l);
  }

  /** x mod m is congruent to x. */
  lemma CongMod(x: int, m: int)
    requires m > 0
    ensures Cong(x % m, x, m) && 0 <= x % m < m
  {
    CongFrom(x, x % m, m, x / m);
  }
}
