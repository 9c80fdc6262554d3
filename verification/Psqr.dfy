/** The perfect-square tables of gen-psqr.c, against the index that the test computes. */
module Psqr {
  import opened Arith
  import opened Bits
  import opened Limbs
  import opened MpzArith
  import opened MpzBits
  import opened MpzDiv

  // Setting one bit ------------------------------------------------------------------

  lemma BitAfterSet(v: nat, k: nat, j: nat)
    requires Bit(v, k) == 0
    ensures Bit(v + Pow2(k), j) == if j == k then 1 else Bit(v, j)
  {
    hide Pow2;
    if j < k {
      Pow2Add(j, k - j);
      NextPow2(k - j - 1);
      BelowSetBit(v, Pow2(k), Pow2(k - j - 1), Pow2(j));
    } else if j == k {
      AtSetBit(v, Pow2(k));
    } else {
      Pow2Add(k + 1, j - k - 1);
      NextPow2(k);
      HighBits(v, Pow2(k), Pow2(j - k - 1), Pow2(j));
    }
  }

  lemma BelowSetBit(v: int, e: int, g: int, p: int)
    requires p >= 1 && e == p * (2 * g)
    ensures (v + e) / p % 2 == v / p % 2
  {
    assert e == (2 * g) * p;
    ModAddMul(v, 2 * g, p);
    ModAddMul(v / p, g, 2);
  }

  lemma AtSetBit(v: int, e: int)
    requires e >= 1 && v / e % 2 == 0
    ensures (v + e) / e % 2 == 1
  {
    ModAddMul(v, 1, e);
  }

  lemma HighBits(v: int, e: int, f: int, p: int)
    requires v >= 0 && e >= 1 && f >= 1 && p == (2 * e) * f && v / e % 2 == 0
    ensures (v + e) / p == v / p
  {
    var q, r := v / p, v % p;
    assert v == q * p + r;
    var a, b := v / (2 * e), v % (2 * e);
    assert v == a * (2 * e) + b;
    LowHalf(v, e);
    assert v == q * (f * (2 * e)) + r by { assert p == f * (2 * e); }
    var c, g := r / (2 * e), r % (2 * e);
    assert r == c * (2 * e) + g;
    assert v == (q * f + c) * (2 * e) + g by { MulAssoc(q, f, 2 * e); }
    DivModUnique(v, 2 * e, q * f + c, g);
    DivCompare(r, 2 * e, f);
    MulMono(c + 1, f, 2 * e);
    assert (c + 1) * (2 * e) == c * (2 * e) + 2 * e;
    DivModUnique(v + e, p, q, r + e);
  }

  /** With bit e clear, v mod 2e stays below e. */
  lemma LowHalf(v: int, e: int)
    requires v >= 0 && e >= 1 && v / e % 2 == 0
    ensures v % (2 * e) < e
  {
    var q, r := v / e, v % e;
    assert v == q * e + r && q == 2 * (q / 2);
    assert q * e == (q / 2) * (2 * e);
    DivModUnique(v, 2 * e, q / 2, r);
  }

  // The table entries ----------------------------------------------------------------

  /** mul_2exp_mod */
  method Mul2expMod(n0: nat, p: nat, m: nat) returns (n: nat)
    requires m >= 1
    ensures p == 0 ==> n == n0
    ensures p >= 1 ==> n == (n0 * Pow2(p)) % m
  {
    n := n0;
    Pow2Small();
    for i := 0 to p
      invariant i == 0 ==> n == n0
      invariant Cong(n, n0 * Pow2(i), m) && (i >= 1 ==> n < m)
    {
      DoubleMod(n, n0, i, m);
      n := (2 * n) % m;
    }
    if p >= 1 {
      DivModUnique(n, m, 0, n);
    }
  }

  lemma DoubleMod(n: nat, n0: nat, i: nat, m: nat)
    requires m >= 1 && Cong(n, n0 * Pow2(i), m)
    ensures 0 <= (2 * n) % m < m && Cong((2 * n) % m, n0 * Pow2(i + 1), m)
  {
    NextPow2(i);
    CongMul(2, 2, n, n0 * Pow2(i), m);
    CongMod(2 * n, m);
    assert 2 * (n0 * Pow2(i)) == n0 * (2 * Pow2(i));
  }

  /** neg_mod */
  function NegMod(n: int, m: int): (r: int)
    requires 0 <= n < m                          // the source's ASSERT
    ensures 0 <= r < m && Cong(n + r, 0, m)
  {
    DivModUnique(m, m, 1, 0);
    DivModUnique(0, m, 0, 0);
    if n == 0 then 0 else m - n
  }

  /** The table index of the square of i: -i^2 2^bits mod m. */
  function Index(i: int, p: int, m: int): (r: int)
    requires m >= 1
    ensures 0 <= r < m
  {
    ((i * i) % m * p) % m
  }

  /** -2^bits mod m */
  function Factor(bits: nat, m: int): (p: int)
    requires m >= 1
    ensures 0 <= p < m
  {
    NegMod(Pow2(bits) % m, m)
  }

  /** Bit idx of the mask is set for the indices of squares and for no others. */
  ghost predicate IsSquareMask(mask: nat, m: int, bits: nat)
    requires m >= 1
  {
    forall idx: nat :: Bit(mask, idx) == 1 <==> IsIndex(idx, m, Factor(bits, m), m)
  }

  ghost predicate IsIndex(idx: nat, n: int, p: int, m: int)
    requires m >= 1
  {
    exists i :: 0 <= i < n && Index(i, p, m) == idx
  }

  lemma AddIndex(mask: nat, next: nat, n: nat, p: int, m: int)
    requires m >= 1 && next == mask + (if Bit(mask, Index(n, p, m)) == 1 then 0 else Pow2(Index(n, p, m)))
    requires forall idx: nat :: Bit(mask, idx) == 1 <==> IsIndex(idx, n, p, m)
    ensures forall idx: nat :: Bit(next, idx) == 1 <==> IsIndex(idx, n + 1, p, m)
  {
    hide Bit, Index, Pow2;
    var k: nat := Index(n, p, m);
    forall idx: nat
      ensures Bit(next, idx) == 1 <==> IsIndex(idx, n + 1, p, m)
    {
      if Bit(mask, k) == 0 {
        BitAfterSet(mask, k, idx);
      }
      if IsIndex(idx, n + 1, p, m) && idx != k {
        var i :| 0 <= i < n + 1 && Index(i, p, m) == idx;
        assert 0 <= i < n && Index(i, p, m) == idx;
      }
      if IsIndex(idx, n, p, m) {
        var i :| 0 <= i < n && Index(i, p, m) == idx;
        assert 0 <= i < n + 1 && Index(i, p, m) == idx;
      }
      if idx == k {
        assert 0 <= n < n + 1 && Index(n, p, m) == idx;
      }
    }
  }

  /** square_mask; the products stay below 2^31 for the divisors in use. */
  method SquareMask(mask: Mpz, m: nat, modBits: nat)
    requires mask.Valid() && m >= 1 && m * m < 0x8000_0000 && modBits >= 1
    modifies mask, mask.d
    ensures mask.Valid() && Owned(mask) && mask.Value() >= 0
    ensures IsSquareMask(mask.Value(), m, modBits)
  {
    hide Mpz.Valid, Mpz.Value, Bit, Pow2, IsIndex;
    BaseSquare();
    var p := Mul2expMod(1, modBits, m);
    CongMod(Pow2(modBits), m);
    assert 1 * Pow2(modBits) == Pow2(modBits);
    var f := NegMod(p, m);
    SetUi(mask, 0);
    NoBits(f, m);
    for i := 0 to m
      invariant mask.Valid() && Owned(mask) && mask.Value() >= 0
      invariant forall idx: nat :: Bit(mask.Value(), idx) == 1 <==> IsIndex(idx, i, f, m)
    {
      var r := (i * i) % m;
      var idx := (r * f) % m;
      IndexIs(i, f, m);
      ghost var v := mask.Value();
      SetBit(mask, idx);
      AddIndex(v, mask.Value(), i, f, m);
    }
  }

  lemma IndexIs(i: int, p: int, m: int)
    requires m >= 1
    ensures Index(i, p, m) == ((i * i) % m * p) % m >= 0
  {
  }

  lemma NoBits(p: int, m: int)
    requires m >= 1
    ensures forall idx: nat :: Bit(0, idx) == 1 <==> IsIndex(idx, 0, p, m)
  {
    forall idx: nat
      ensures Bit(0, idx) == 0
    {
      DivModUnique(0, Pow2(idx), 0, 0);
    }
  }

  // The index decides squareness -------------------------------------------------------

  ghost predicate IsSquareMod(r: int, d: int)
    requires d >= 1
  {
    exists j: int :: Square(j, r, d)
  }

  ghost predicate Square(j: int, r: int, d: int)
    requires d >= 1
  {
    Cong(j * j, r, d)
  }

  /** PERFSQR_MOD_IDX of perfsqr.c */
  function ModIdx(r: nat, d: nat, inverse: nat, modBits: nat): nat
    requires r < Pow2(modBits)
  {
    var q := (r * inverse) % Pow2(modBits);
    IndexNatural(q, d, Pow2(modBits));
    q * d / Pow2(modBits)
  }

  lemma IndexNatural(q: int, d: int, M: int)
    requires q >= 0 && d >= 0 && M >= 1
    ensures q * d / M >= 0
  {
    MulMono(0, q, d);
    DivCompare(q * d, M, 0);
  }

  /** The pair (inverse, mask) of an entry decides squareness modulo its divisor. */
  lemma MaskDecides(mask: nat, inverse: nat, d: nat, modBits: nat, r: nat)
    requires d % 2 == 1 && r < Pow2(modBits)
    requires inverse * d % Pow2(modBits) == 1 % Pow2(modBits)
    requires IsSquareMask(mask, d, modBits)
    ensures ModIdx(r, d, inverse, modBits) < d
    ensures Bit(mask, ModIdx(r, d, inverse, modBits)) == 1 <==> IsSquareMod(r, d)
  {
    hide Pow2, Bit, Index, IsSquareMod, NegMod, Cong;
    var M := Pow2(modBits);
    var q := (r * inverse) % M;
    IndexEquation(q, r, inverse, d, M);
    var idx := q * d / M;
    var p := Factor(modBits, d);
    FactorNegates(modBits, d);
    DivModUnique(q * d, d, q, 0);
    IndexTimesFactor(idx, M, r, p, d, q * d);
    if IsIndex(idx, d, p, d) {
      var i :| 0 <= i < d && Index(i, p, d) == idx;
      IndexGivesRoot(i, p, d, idx, r);
      SquareIs(i * p, r, d);
    }
    if IsSquareMod(r, d) {
      var j := SquareRoot(r, d);
      var g := InverseOfFactor(modBits, d, p);
      RootGivesIndex(j, g, p, d, idx, r);
    }
    assert Bit(mask, idx) == 1 <==> IsIndex(idx, d, p, d);
  }

  lemma SquareIs(j: int, r: int, d: int)
    requires d >= 1 && Cong(j * j, r, d)
    ensures IsSquareMod(r, d)
  {
    assert Square(j, r, d);
  }

  lemma SquareRoot(r: int, d: int) returns (j: int)
    requires d >= 1 && IsSquareMod(r, d)
    ensures Cong(j * j, r, d)
  {
    var k :| Square(k, r, d);
    j := k;
  }

  /** q d carries the index above the mod_bits mark and r below it. */
  lemma IndexEquation(q: int, r: int, inverse: int, d: int, M: int)
    requires M >= 1 && d >= 1 && 0 <= r < M && q == (r * inverse) % M
    requires inverse * d % M == 1 % M
    ensures q * d == q * d / M * M + r && 0 <= q * d / M < d
  {
    CongMod(r * inverse, M);
    CongMul(q, r * inverse, d, d, M);
    CongMul(r, r, inverse * d, 1, M);
    MulAssoc(r, inverse, d);
    assert Cong(q * d, r, M);
    DivModUnique(r, M, 0, r);
    MulMono(q + 1, M, d);
    MulMono(0, q, d);
    assert (q + 1) * d == q * d + d && M * d == d * M;
    DivCompare(q * d, M, d);
    DivCompare(q * d, M, 0);
  }

  lemma FactorNegates(bits: nat, d: int)
    requires d >= 1
    ensures Cong(Factor(bits, d) + Pow2(bits), 0, d)
  {
    hide Pow2;
    var M := Pow2(bits);
    CongMod(M, d);
    var p := Factor(bits, d);
    CongAdd(p, p, M % d, M, d);
    assert M % d + p == p + M % d;
  }

  lemma IndexTimesFactor(idx: int, M: int, r: int, p: int, d: int, n: int)
    requires d >= 1 && n == idx * M + r && n % d == 0
    requires Cong(p + M, 0, d)
    ensures Cong(idx * p, r, d)
  {
    var k := CongWitness(p + M, 0, d);
    var t := n / d;
    assert n == t * d;
    IndexSplit(idx, M, r, p, d, k, t);
    CongFrom(idx * p, r, d, idx * k - t);
  }

  lemma IndexSplit(idx: int, M: int, r: int, p: int, d: int, k: int, t: int)
    requires p + M == k * d && idx * M + r == t * d
    ensures idx * p == r + (idx * k - t) * d
  {
    assert idx * p == idx * (k * d - M);
    assert idx * (k * d - M) == idx * (k * d) - idx * M;
    MulAssoc(idx, k, d);
    assert (idx * k - t) * d == (idx * k) * d - t * d;
  }

  lemma IndexIsCong(i: int, p: int, d: int)
    requires d >= 1
    ensures Cong(Index(i, p, d), i * i * p, d)
  {
    CongMod(i * i, d);
    CongMul((i * i) % d, i * i, p, p, d);
    CongMod((i * i) % d * p, d);
  }

  lemma IndexGivesRoot(i: int, p: int, d: int, idx: int, r: int)
    requires d >= 1 && Index(i, p, d) == idx && Cong(idx * p, r, d)
    ensures Cong((i * p) * (i * p), r, d)
  {
    hide Index;
    IndexIsCong(i, p, d);
    CongMul(idx, i * i * p, p, p, d);
    assert (i * i * p) * p == (i * p) * (i * p);
  }

  lemma RootGivesIndex(j: int, g: int, p: int, d: int, idx: int, r: int)
    requires d >= 1 && 0 <= idx < d && Cong(idx * p, r, d) && Cong(j * j, r, d) && Cong(g * p, 1, d)
    ensures IsIndex(idx, d, p, d)
  {
    hide Index, Cong;
    var i := (j * g) % d;
    CongMod(j * g, d);
    IndexIsCong(i, p, d);
    CongMul(i, j * g, i, j * g, d);
    CongMul(i * i, (j * g) * (j * g), p, p, d);
    CongMul(j * j, r, g, g, d);
    CongMul(j * j * g, r * g, g * p, 1, d);
    CongMul(idx * p, r, g, g, d);
    CongMul(g * p, 1, idx, idx, d);
    Regroup(j, g, p, idx);
    CongChain(Index(i, p, d), i * i * p, (j * g) * (j * g) * p, r * g, idx, d);
    assert Index(i, p, d) == idx;
    assert 0 <= i < d && Index(i, p, d) == idx;
  }

  lemma Regroup(j: int, g: int, p: int, idx: int)
    ensures (j * g) * (j * g) * p == (j * j * g) * (g * p)
    ensures (idx * p) * g == (g * p) * idx
  {
  }

  lemma CongChain(a: int, b: int, c: int, e: int, idx: int, d: int)
    requires d >= 1 && 0 <= a < d && 0 <= idx < d
    requires Cong(a, b, d) && Cong(b, c, d) && Cong(c, e, d) && Cong(e, idx, d)
    ensures a == idx
  {
    DivModUnique(a, d, 0, a);
    DivModUnique(idx, d, 0, idx);
  }

  /** (d + 1) / 2 inverts 2, so its powers invert the powers of 2. */
  lemma {:induction false} HalfPower(h: int, k: nat, d: int)
    requires d >= 1 && 2 * h == d + 1
    ensures Cong(Pow(h, k) * Pow2(k), 1, d)
  {
    if k > 0 {
      HalfPower(h, k - 1, d);
      CongFrom(2 * h, 1, d, 1);
      CongMul(2 * h, 1, Pow(h, k - 1) * Pow2(k - 1), 1, d);
      HalfRegroup(h, Pow(h, k - 1), Pow2(k - 1));
    }
  }

  lemma HalfRegroup(h: int, a: int, b: int)
    ensures (h * a) * (2 * b) == (2 * h) * (a * b)
  {
  }

  lemma InverseOfFactor(k: nat, d: int, p: int) returns (g: int)
    requires d >= 1 && d % 2 == 1 && Cong(p + Pow2(k), 0, d)
    ensures Cong(g * p, 1, d)
  {
    hide Pow2, Pow, Cong;
    var h := (d + 1) / 2;
    HalfPower(h, k, d);
    g := -Pow(h, k);
    NegateInverse(Pow(h, k), Pow2(k), p, d);
  }

  lemma NegateInverse(a: int, M: int, p: int, d: int)
    requires d >= 1 && Cong(a * M, 1, d) && Cong(p + M, 0, d)
    ensures Cong(-a * p, 1, d)
  {
    var k := CongWitness(a * M, 1, d);
    var l := CongWitness(p + M, 0, d);
    assert -a * p == -a * (l * d - M);
    assert -a * (l * d - M) == a * M - a * (l * d);
    MulAssoc(a, l, d);
    assert (k - a * l) * d == k * d - (a * l) * d;
    CongFrom(-a * p, 1, d, k - a * l);
  }
}
