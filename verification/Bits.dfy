/** The bitwise operators of unsigned words, as functions on naturals. */
module Bits {
  import opened Arith

  function Or(a: nat, b: nat): (r: nat)
    ensures r >= a && r >= b
    decreases a + b
  {
    if a == 0 then b
    else if b == 0 then a
    else 2 * Or(a / 2, b / 2) + (if a % 2 == 1 || b % 2 == 1 then 1 else 0)
  }

  function And(a: nat, b: nat): (r: nat)
    ensures r <= a && r <= b
    decreases a + b
  {
    if a == 0 || b == 0 then 0
    else 2 * And(a / 2, b / 2) + (if a % 2 == 1 && b % 2 == 1 then 1 else 0)
  }

  function Bit(a: nat, i: nat): (r: nat)
    ensures r < 2
  {
    a / Pow2(i) % 2
  }

  /** a << n, in a word that is wide enough. */
  function Shl(a: nat, n: nat): (r: nat)
    ensures r == a * Pow2(n)
  {
    MulMono(0, a, Pow2(n));
    a * Pow2(n)
  }

  /** The word of n one-bits. */
  function Ones(n: nat): nat {
    Pow2(n) - 1
  }

  lemma DivPow2(a: nat, i: nat)
    ensures a / 2 / Pow2(i) == a / Pow2(i + 1)
  {
    var p := Pow2(i);
    var h := a / 2;
    var q, r := h / p, h % p;
    assert h == q * p + r;
    assert a == 2 * (q * p + r) + a % 2;
    assert 2 * (q * p) == q * (2 * p);
    DivModUnique(a, 2 * p, q, 2 * r + a % 2);
  }

  lemma ModPow2(a: nat, i: nat)
    ensures a % Pow2(i + 1) == 2 * (a / 2 % Pow2(i)) + a % 2
  {
    var p := Pow2(i);
    var h := a / 2;
    var q, r := h / p, h % p;
    assert h == q * p + r;
    assert a == 2 * (q * p + r) + a % 2;
    assert 2 * (q * p) == q * (2 * p);
    DivModUnique(a, 2 * p, q, 2 * r + a % 2);
  }

  /** Or-ing a shifted value with one that fits below the shift is addition. */
  lemma {:induction false} OrIsAdd(hi: nat, lo: nat, k: nat)
    requires lo < Pow2(k)
    ensures Or(hi * Pow2(k), lo) == hi * Pow2(k) + lo
  {
    if k > 0 && hi > 0 && lo > 0 {
      var p := Pow2(k - 1);
      assert hi * Pow2(k) == 2 * (hi * p);
      MulPos(hi, p);
      assert lo / 2 < p;
      OrIsAdd(hi, lo / 2, k - 1);
    }
  }

  lemma OrComm(a: nat, b: nat)
    ensures Or(a, b) == Or(b, a)
    decreases a + b
  {
    if a > 0 && b > 0 {
      OrComm(a / 2, b / 2);
    }
  }

  lemma AndComm(a: nat, b: nat)
    ensures And(a, b) == And(b, a)
    decreases a + b
  {
    if a > 0 && b > 0 {
      AndComm(a / 2, b / 2);
    }
  }

  /** Masking with n ones keeps the value modulo 2^n. */
  lemma {:induction false} AndOnes(a: nat, n: nat)
    ensures And(a, Ones(n)) == a % Pow2(n)
  {
    if n == 0 {
      assert Ones(0) == 0;
    } else {
      AndOnes(a / 2, n - 1);
      ModPow2(a, n - 1);
      AndOdd(a, Ones(n - 1));
      assert Ones(n) == 2 * Ones(n - 1) + 1;
    }
  }

  lemma AndOdd(a: nat, h: nat)
    ensures And(a, 2 * h + 1) == 2 * And(a / 2, h) + a % 2
  {
    assert (2 * h + 1) / 2 == h;
  }

  /** Setting bit k of a word. */
  lemma {:induction false} OrBit(a: nat, k: nat)
    ensures Or(a, Pow2(k)) == if Bit(a, k) == 1 then a else a + Pow2(k)
  {
    if a == 0 {
    } else if k == 0 {
      OrZeroHalf(a);
    } else {
      OrBit(a / 2, k - 1);
      DivPow2(a, k - 1);
      OrEven(a, Pow2(k - 1));
    }
  }

  lemma OrZeroHalf(a: nat)
    requires a > 0
    ensures Or(a, 1) == 2 * (a / 2) + 1 && Bit(a, 0) == a % 2
  {
    assert Or(a / 2, 0) == a / 2;
  }

  lemma OrEven(a: nat, b: nat)
    requires a > 0 && b > 0
    ensures Or(a, 2 * b) == 2 * Or(a / 2, b) + a % 2
  {
    assert 2 * b / 2 == b;
  }

  /** Bit k tells whether a mod 2^(k+1) has passed 2^k. */
  lemma BitSplits(a: nat, k: nat)
    ensures a % Pow2(k + 1) == a % Pow2(k) + Bit(a, k) * Pow2(k)
  {
    var p := Pow2(k);
    var q, r := a / p, a % p;
    assert a == q * p + r && q == 2 * (q / 2) + q % 2;
    assert q * p == (q / 2) * (2 * p) + (q % 2) * p;
    assert (q % 2) * p + r < 2 * p;
    DivModUnique(a, 2 * p, q / 2, (q % 2) * p + r);
  }


  /** Testing bit k of a word. */
  lemma {:induction false} AndBit(a: nat, k: nat)
    ensures And(a, Pow2(k)) == Bit(a, k) * Pow2(k)
  {
    if a == 0 {
    } else if k == 0 {
      AndLow(a);
    } else {
      AndBit(a / 2, k - 1);
      DivPow2(a, k - 1);
      AndEven(a, Pow2(k - 1));
      assert Bit(a, k) == Bit(a / 2, k - 1);
      AndBitStep(Bit(a, k), Pow2(k - 1));
    }
  }

  lemma AndLow(a: nat)
    ensures And(a, 1) == a % 2 && Bit(a, 0) == a % 2
  {
    assert And(a / 2, 0) == 0;
  }

  lemma AndEven(a: nat, b: nat)
    requires b > 0
    ensures And(a, 2 * b) == 2 * And(a / 2, b)
  {
    assert 2 * b / 2 == b;
  }

  lemma AndBitStep(b: int, p: int)
    ensures 2 * (b * p) == b * (2 * p)
  {
  }
}
