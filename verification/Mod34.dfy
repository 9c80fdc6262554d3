/** The factor search of gen-psqr.c for particular limb sizes. */
module Mod34 {
  import opened Arith
  import opened Factors
  import opened Exponents
  import opened RawFactors
  import opened GenMod
  import opened Residues

  /** No d with lo <= d < hi divides x. */
  predicate NoDivisor(x: int, lo: int, hi: int)
    requires lo >= 2
    decreases hi - lo
  {
    lo >= hi || (x % lo != 0 && NoDivisor(x, lo + 1, hi))
  }

  lemma {:induction false} NoDivisorMeans(x: int, lo: int, hi: int)
    requires lo >= 2 && NoDivisor(x, lo, hi)
    ensures forall d :: lo <= d < hi ==> x % d != 0
    decreases hi - lo
  {
    if lo < hi {
      NoDivisorMeans(x, lo + 1, hi);
    }
  }

  lemma {:induction false} NoDivisorJoin(x: int, lo: int, mid: int, hi: int)
    requires 2 <= lo <= mid <= hi && NoDivisor(x, lo, mid) && NoDivisor(x, mid, hi)
    ensures NoDivisor(x, lo, hi)
    decreases mid - lo
  {
    if lo < mid {
      NoDivisorJoin(x, lo + 1, mid, hi);
    }
  }

  lemma Clear6(x: int, lo: int)
    requires lo >= 2 && x % lo != 0 && x % (lo + 1) != 0 && x % (lo + 2) != 0
    requires x % (lo + 3) != 0 && x % (lo + 4) != 0 && x % (lo + 5) != 0
    ensures NoDivisor(x, lo, lo + 6)
  {
    assert NoDivisor(x, lo + 6, lo + 6);
    assert NoDivisor(x, lo + 5, lo + 6);
    assert NoDivisor(x, lo + 4, lo + 6);
    assert NoDivisor(x, lo + 3, lo + 6);
    assert NoDivisor(x, lo + 2, lo + 6);
    assert NoDivisor(x, lo + 1, lo + 6);
  }

  lemma Below26(x: int)
    requires NoDivisor(x, 2, 8) && NoDivisor(x, 8, 14) && NoDivisor(x, 14, 20) && NoDivisor(x, 20, 26)
    ensures NoDivisor(x, 2, 26)
  {
    NoDivisorJoin(x, 2, 8, 14);
    NoDivisorJoin(x, 2, 14, 20);
    NoDivisorJoin(x, 2, 20, 26);
  }

  lemma LargerPrimes()
    ensures IsOddPrime(73) && IsOddPrime(97) && IsOddPrime(241) && IsOddPrime(257) && IsOddPrime(439) && IsOddPrime(673)
  {
    hide IsOddPrime;
    Prime73();
    Prime97();
    Prime241();
    Prime257();
    Prime439();
    Prime673();
  }

  lemma Prime73()
    ensures IsOddPrime(73)
  {
    hide NoDivisor, IsOddPrime;
    Clear6(73, 2);
    Clear6(73, 8);
    Clear6(73, 14);
    Clear6(73, 20);
    Below26(73);
    SmallPrime(73, 26);
  }

  lemma Prime97()
    ensures IsOddPrime(97)
  {
    hide NoDivisor, IsOddPrime;
    Clear6(97, 2);
    Clear6(97, 8);
    Clear6(97, 14);
    Clear6(97, 20);
    Below26(97);
    SmallPrime(97, 26);
  }

  lemma Prime241()
    ensures IsOddPrime(241)
  {
    hide NoDivisor, IsOddPrime;
    Clear6(241, 2);
    Clear6(241, 8);
    Clear6(241, 14);
    Clear6(241, 20);
    Below26(241);
    SmallPrime(241, 26);
  }

  lemma Prime257()
    ensures IsOddPrime(257)
  {
    hide NoDivisor, IsOddPrime;
    Clear6(257, 2);
    Clear6(257, 8);
    Clear6(257, 14);
    Clear6(257, 20);
    Below26(257);
    SmallPrime(257, 26);
  }

  lemma Prime439()
    ensures IsOddPrime(439)
  {
    hide NoDivisor, IsOddPrime;
    Clear6(439, 2);
    Clear6(439, 8);
    Clear6(439, 14);
    Clear6(439, 20);
    Below26(439);
    SmallPrime(439, 26);
  }

  lemma Prime673()
    ensures IsOddPrime(673)
  {
    hide NoDivisor, IsOddPrime;
    Clear6(673, 2);
    Clear6(673, 8);
    Clear6(673, 14);
    Clear6(673, 20);
    Below26(673);
    SmallPrime(673, 26);
  }

  /** Trial division up to the square root is enough. */
  lemma SmallPrime(p: int, r: int)
    requires p >= 3 && r >= 2 && r * r > p && NoDivisor(p, 2, r)
    ensures IsOddPrime(p)
  {
    NoDivisorMeans(p, 2, r);
    forall d | 2 <= d < p
      ensures p % d != 0
    {
      Cofactor(p, d, r);
    }
  }

  lemma Cofactor(p: int, d: int, r: int)
    requires 2 <= d < p && r >= 2 && r * r > p && forall e :: 2 <= e < r ==> p % e != 0
    ensures p % d != 0
  {
    if p % d == 0 && d >= r {
      DivideOut(p, d);
      var k := p / d;
      assert k >= 2;
      DivModUnique(p, k, d, 0);
      if k >= r {
        MulMono(r, d, r);
        MulMono(r, k, d);
      }
    }
  }

  lemma FirstPrimes()
    ensures IsOddPrime(3) && IsOddPrime(5) && IsOddPrime(7) && IsOddPrime(13) && IsOddPrime(17)
  {
    SmallPrime(3, 2);
    SmallPrime(5, 3);
    SmallPrime(7, 3);
    SmallPrime(13, 4);
    SmallPrime(17, 5);
  }

  lemma Powers()
    ensures Pow2(4) == 16 && Pow2(5) == 32 && Pow2(12) == 4096
    ensures Pow2(24) == 0x100_0000 && Pow2(48) == 0x1_0000_0000_0000
  {
    Pow2Add(4, 4);
    Pow2Add(8, 4);
    Pow2Add(12, 12);
    Pow2Add(24, 24);
  }

  // 16-bit limbs: a prime is left out --------------------------------------------------------

  /** With 16-bit limbs the modulus is 2^12 - 1 = 9 5 7 13, and its prime 13, though within the
      bound of 16, is never recorded. */
  lemma ThirteenIsLeft(left: int, raw: seq<RawFactor>)
    requires Divided(Pow2(12) - 1, left, raw, 17)
    ensures Eligible(16, 16, 16) && 16 / 4 * 3 == 12 && IsOddPrime(13) && (Pow2(12) - 1) % 13 == 0
    ensures left == 13 && raw == [RawFactor(3, 2), RawFactor(5, 1), RawFactor(7, 1)]
  {
    var s := [RawFactor(3, 2), RawFactor(5, 1), RawFactor(7, 1)];
    Powers();
    FirstPrimes();
    SixteenBits();
    ThreeEntries(s);
    assert Divided(4095, 13, s, 17) by {
      forall p | IsOddPrime(p) && p < 17 && 13 % p == 0
        ensures p == 13
      {
        DividesPrime(13, p);
      }
    }
    DividedUnique(4095, left, raw, 13, s, 17);
  }

  lemma SixteenBits()
    ensures Eligible(16, 16, 16)
  {
    Powers();
    assert Pow2(3) == 8;
    assert IsLog2Ceil(4, 16) && IsLog2Ceil(5, 32);
    forall e | IsLog2Ceil(e, 32)
      ensures e == 5
    {
      Log2CeilUnique(e, 5, 32);
    }
  }

  lemma SmallPow(p: int)
    ensures Pow(p, 1) == p && Pow(p, 2) == p * p
  {
    assert Pow(p, 0) == 1;
    assert Pow(p, 1) == p * Pow(p, 0);
    assert Pow(p, 2) == p * Pow(p, 1);
  }

  /** One more prime power, with later primes to come. */
  lemma Listed(s: seq<RawFactor>, n: int, v: int, p: nat, k: nat, e: int)
    requires RawList(s, n) && Prod(Entries(s)) == v && n <= p && IsOddPrime(p) && k >= 1 && Pow(p, k) == e
    ensures RawList(s + [RawFactor(p, k)], p + 1) && Prod(Entries(s + [RawFactor(p, k)])) == v * e
  {
    hide Prod, Entries, IsPrime;
    RawAppend(s, p, k);
  }

  lemma ThreeEntries(s: seq<RawFactor>)
    requires s == [RawFactor(3, 2), RawFactor(5, 1), RawFactor(7, 1)]
    ensures Prod(Entries(s)) == 315 && RawList(s, 8)
  {
    hide Prod, Entries, IsPrime, RawList;
    FirstPrimes();
    RawEmpty();
    SmallPow(3);
    SmallPow(5);
    SmallPow(7);
    Listed([], 3, 1, 3, 2, 9);
    assert [] + [RawFactor(3, 2)] == [RawFactor(3, 2)];
    Listed([RawFactor(3, 2)], 4, 9, 5, 1, 5);
    assert [RawFactor(3, 2)] + [RawFactor(5, 1)] == [RawFactor(3, 2), RawFactor(5, 1)];
    Listed([RawFactor(3, 2), RawFactor(5, 1)], 6, 45, 7, 1, 7);
    assert s == [RawFactor(3, 2), RawFactor(5, 1)] + [RawFactor(7, 1)];
  }

  // 876-bit limbs: an entry above the bound ---------------------------------------------------

  lemma DoublePower(k: nat, m: int, r: int, s: int)
    requires m > 0 && Pow2(k) % m == r && (r * r) % m == s
    ensures Pow2(2 * k) % m == s
  {
    hide Pow2;
    Pow2Add(k, k);
    CongMod(Pow2(k), m);
    CongMul(r, Pow2(k), r, Pow2(k), m);
    assert k + k == 2 * k;
  }

  lemma AddPower(j: nat, k: nat, m: int, q: int, r: int, s: int)
    requires m > 0 && Pow2(j) % m == q && Pow2(k) % m == r && (q * r) % m == s
    ensures Pow2(j + k) % m == s
  {
    hide Pow2;
    Pow2Add(j, k);
    CongMod(Pow2(j), m);
    CongMod(Pow2(k), m);
    CongMul(q, Pow2(j), r, Pow2(k), m);
  }

  lemma TwoToNine()
    ensures Pow2(9) == 512
  {
    Pow2Add(4, 5);
  }

  /** 73^2 divides 2^657 - 1. */
  lemma SquareOf73()
    ensures Pow2(657) % 5329 == 1
  {
    hide Pow2;
    TwoToNine();
    DoublePower(9, 5329, 512, 1023);
    DoublePower(18, 5329, 1023, 2045);
    DoublePower(36, 5329, 2045, 4089);
    AddPower(72, 9, 5329, 4089, 512, 4600);
    DoublePower(81, 5329, 4600, 3870);
    DoublePower(162, 5329, 3870, 2410);
    DoublePower(324, 5329, 2410, 4819);
    AddPower(648, 9, 5329, 4819, 512, 1);
  }

  /** 439 divides it as well. */
  lemma Also439()
    ensures Pow2(657) % 439 == 1
  {
    hide Pow2;
    TwoToNine();
    DoublePower(9, 439, 73, 61);
    DoublePower(18, 439, 61, 209);
    DoublePower(36, 439, 209, 220);
    AddPower(72, 9, 439, 220, 73, 256);
    DoublePower(81, 439, 256, 125);
    DoublePower(162, 439, 125, 260);
    DoublePower(324, 439, 260, 433);
    AddPower(648, 9, 439, 433, 73, 1);
  }

  lemma LessOne(x: int, m: int)
    requires m > 1 && x % m == 1
    ensures (x - 1) % m == 0
  {
    assert x == x / m * m + 1;
    DivModUnique(x - 1, m, x / m, 0);
  }

  lemma TwiceDivides(p: int, x: int)
    requires p >= 2 && x >= 1 && x % (p * p) == 0
    ensures Exponent(p, x) >= 2
  {
    MulPos(p, p);
    MulMono(2, p, p);
    DivideOut(x, p * p);
    var k := x / (p * p);
    MulAssoc(p, p, k);
    ExponentTimes(p, k);
    ExponentTimes(p, p * k);
  }

  lemma NotTheLast(left: int, raw: seq<RawFactor>, m0: int)
    requires m0 > 1 && m0 % 2 == 1 && m0 % 439 == 0 && Divided(m0, left, raw, 1753)
    ensures left != 73
  {
    hide Divided, IsPrime;
    if left == 73 {
      LargerPrimes();
      RestIsPrimeIff(m0, left, raw, 1753);
    }
  }

  lemma SizesOf876()
    ensures Eligible(876, 876, 1752)
  {
    hide Pow2;
    TwoToNine();
    Pow2Add(9, 1);
    Pow2Add(10, 1);
    Pow2Small();
    assert IsLog2Ceil(11, 1752);
  }

  /** With 876-bit limbs the modulus is 2^657 - 1 and the bound is 1752; 73 is recorded at least
      twice, so its entry is above the bound. */
  lemma EntryAboveBound(left: int, raw: seq<RawFactor>)
    requires Divided(Pow2(657) - 1, left, raw, 1753)
    ensures Eligible(876, 876, 1752) && 876 / 4 * 3 == 657
    ensures exists i :: 0 <= i < |raw| && raw[i].divisor == 73 && Entry(raw[i]) > 1752
  {
    hide Pow2, Divided, Exponent, ExpOf, Eligible, Pow;
    var m0 := Pow2(657) - 1;
    SizesOf876();
    MersenneAboveOne(657);
    SquareOf73();
    Also439();
    LessOne(Pow2(657), 5329);
    LessOne(Pow2(657), 439);
    TwiceDivides(73, m0);
    NotTheLast(left, raw, m0);
    LargerPrimes();
    RecordedExponent(m0, left, raw, 1753, 73);
    DividedList(m0, left, raw, 1753);
    ExpOfListed(raw, 1753, 73);
    var i :| 0 <= i < |raw| && raw[i].divisor == 73;
    SmallPow(73);
    PowMonoExp(73, 2, raw[i].multiplicity);
  }

  // 32-bit and 64-bit limbs: all divisors in range -------------------------------------------

  /** If the search leaves a number beyond the bound, and all entries are small, every prime
      within the bound divides the modulus to a small power only. */
  lemma SmallEntries(m0: int, left: int, s: seq<RawFactor>, n: int, p: int)
    requires m0 > 1 && m0 % 2 == 1 && Divided(m0, left, s, n) && left >= n && IsOddPrime(p) && p < n
    requires forall i :: 0 <= i < |s| ==> Entry(s[i]) <= 97
    ensures Pow(p, Exponent(p, m0)) <= 97
  {
    hide Exponent, ExpOf, Divided, IsLastPrime;
    EntriesWithinIff(m0, left, s, n, 97);
    LeftIff(m0, left, s, n, p);
    assert EntryOf(p, m0, IsLastPrime(p, m0, n)) <= 97;
  }

  lemma FiveEntries(s: seq<RawFactor>)
    requires s == [RawFactor(3, 2), RawFactor(5, 1), RawFactor(7, 1)] + [RawFactor(13, 1)] + [RawFactor(17, 1)]
    ensures Prod(Entries(s)) == 69615 && RawList(s, 18)
    ensures forall i :: 0 <= i < |s| ==> Entry(s[i]) <= 97
  {
    hide Prod, Entries, IsPrime, RawList, Pow;
    FirstPrimes();
    SmallPow(3);
    SmallPow(5);
    SmallPow(7);
    SmallPow(13);
    SmallPow(17);
    var t := [RawFactor(3, 2), RawFactor(5, 1), RawFactor(7, 1)];
    ThreeEntries(t);
    Listed(t, 8, 315, 13, 1, 13);
    Listed(t + [RawFactor(13, 1)], 14, 4095, 17, 1, 17);
  }

  lemma RawWiden(s: seq<RawFactor>, n: int, n': int)
    requires RawList(s, n) && n <= n'
    ensures RawList(s, n')
  {
  }

  /** A number without small prime factors is left as it is. */
  lemma LeftAlone(m0: int, left: int, s: seq<RawFactor>, n: int)
    requires m0 > 1 && n >= 3 && left >= n && left * Prod(Entries(s)) == m0 && RawList(s, n)
    requires forall p :: IsOddPrime(p) && p < n ==> left % p != 0
    ensures Divided(m0, left, s, n)
  {
  }

  lemma NotDividing(q: int, p: int)
    requires IsPrime(q) && IsPrime(p) && p < q
    ensures q % p != 0
  {
    if q % p == 0 {
      DividesPrime(q, p);
    }
  }

  /** 241 257 673 has no small prime factor. */
  lemma ThreeLarge(p: int)
    requires IsOddPrime(p) && p < 129
    ensures 241 % p != 0 && 41683601 % p != 0
  {
    LargerPrimes();
    NotDividing(241, p);
    NotDividing(257, p);
    NotDividing(673, p);
    assert 61937 == 241 * 257 && 41683601 == 61937 * 673;
    if 61937 % p == 0 {
      PrimeDividesFactor(p, 241, 257);
    }
    if 41683601 % p == 0 {
      PrimeDividesFactor(p, 61937, 673);
    }
  }

  /** With 32-bit limbs the modulus is 2^24 - 1, of which 241 is left. */
  lemma Range32()
    ensures IntProducts(32, 32)
  {
    hide Pow, Pow2, Exponent, Divided, RawList, Entries;
    Powers();
    var s := [RawFactor(3, 2), RawFactor(5, 1), RawFactor(7, 1)] + [RawFactor(13, 1)] + [RawFactor(17, 1)];
    FiveEntries(s);
    RawWiden(s, 18, 65);
    forall p | IsOddPrime(p) && p < 65
      ensures 241 % p != 0
    {
      ThreeLarge(p);
    }
    LeftAlone(0xff_ffff, 241, s, 65);
    assert Mersenne34(32) == 0xff_ffff;
    forall p | IsOddPrime(p) && p <= 64
      ensures Pow(p, Exponent(p, Mersenne34(32))) <= 46340
    {
      SmallEntries(0xff_ffff, 241, s, 65, p);
    }
  }

  /** With 64-bit limbs it is 2^48 - 1, of which 241 257 673 is left. */
  lemma Range64()
    ensures IntProducts(64, 64)
  {
    hide Pow, Pow2, Exponent, Divided, RawList, Entries, Prod;
    Powers();
    var t := [RawFactor(3, 2), RawFactor(5, 1), RawFactor(7, 1)] + [RawFactor(13, 1)] + [RawFactor(17, 1)];
    FiveEntries(t);
    LargerPrimes();
    SmallPow(97);
    Listed(t, 18, 69615, 97, 1, 97);
    var s := t + [RawFactor(97, 1)];
    RawWiden(s, 98, 129);
    forall p | IsOddPrime(p) && p < 129
      ensures 41683601 % p != 0
    {
      ThreeLarge(p);
    }
    LeftAlone(0xffff_ffff_ffff, 41683601, s, 129);
    assert Mersenne34(64) == 0xffff_ffff_ffff;
    forall p | IsOddPrime(p) && p <= 128
      ensures Pow(p, Exponent(p, Mersenne34(64))) <= 46340
    {
      SmallEntries(0xffff_ffff_ffff, 41683601, s, 129, p);
    }
  }
}
