/** Lists of prime powers, as the factor search of gen-psqr.c records them, and what the search
    leaves of a number. */
module RawFactors {
  import opened Arith
  import opened Factors
  import opened Exponents

  datatype RawFactor = RawFactor(divisor: nat, multiplicity: nat)

  /** The entry that a raw factor starts: its prime power. */
  function Entry(f: RawFactor): int { Pow(f.divisor, f.multiplicity) }

  function Entries(s: seq<RawFactor>): (t: seq<int>)
    ensures |t| == |s| && forall i :: 0 <= i < |s| ==> t[i] == Entry(s[i])
  {
    seq(|s|, i requires 0 <= i < |s| => Entry(s[i]))
  }

  /** Distinct odd primes below n in increasing order, each used at least once. */
  ghost predicate RawList(s: seq<RawFactor>, n: int) {
    && (forall i :: 0 <= i < |s| ==> IsOddPrime(s[i].divisor) && s[i].divisor < n && s[i].multiplicity >= 1)
    && (forall i, j :: 0 <= i < j < |s| ==> s[i].divisor < s[j].divisor)
  }

  ghost predicate IsOddPrime(p: int) { p >= 3 && IsPrime(p) }

  lemma OddTimesOdd(a: int, b: int)
    requires a % 2 == 1 && b % 2 == 1
    ensures (a * b) % 2 == 1
  {
    var h, k := a / 2, b / 2;
    assert a * b == 2 * (2 * (h * k) + h + k) + 1 by {
      assert a == 2 * h + 1 && b == 2 * k + 1;
      assert (2 * h) * (2 * k) == 4 * (h * k);
    }
  }

  lemma RawAppend(s: seq<RawFactor>, i: nat, k: nat)
    requires RawList(s, i) && IsOddPrime(i) && k >= 1
    ensures RawList(s + [RawFactor(i, k)], i + 1)
    ensures Prod(Entries(s + [RawFactor(i, k)])) == Prod(Entries(s)) * Pow(i, k)
  {
    assert Entries(s + [RawFactor(i, k)]) == Entries(s) + [Pow(i, k)];
  }

  lemma RawSkip(s: seq<RawFactor>, i: int)
    requires RawList(s, i)
    ensures RawList(s, i + 1)
  {
  }

  lemma RawEmpty()
    ensures RawList([], 3) && Prod(Entries([])) == 1
  {
  }

  lemma OddPrimeIsOdd(p: int)
    requires IsOddPrime(p)
    ensures p % 2 == 1 && p >= 3
  {
    assert p % 2 != 0;
  }

  lemma {:induction false} EntryFacts(p: int, k: nat)
    requires p >= 3 && p % 2 == 1
    ensures Pow(p, k) >= 1 && Pow(p, k) % 2 == 1
    ensures k >= 1 ==> Pow(p, k) >= 3
  {
    if k > 0 {
      EntryFacts(p, k - 1);
      OddTimesOdd(p, Pow(p, k - 1));
      MulMono(1, Pow(p, k - 1), p);
    }
  }

  /** The starting entries are odd, at least 3, and pairwise coprime. */
  lemma RawEntries(s: seq<RawFactor>, n: int)
    requires RawList(s, n)
    ensures PairCoprime(Entries(s))
    ensures forall i :: 0 <= i < |s| ==> Entries(s)[i] >= 3 && Entries(s)[i] % 2 == 1
  {
    forall i, j | 0 <= i < j < |s|
      ensures Coprime(Entries(s)[i], Entries(s)[j])
    {
      PrimePowersCoprime(s[i].divisor, s[i].multiplicity, s[j].divisor, s[j].multiplicity);
    }
    forall i | 0 <= i < |s|
      ensures Entries(s)[i] >= 3 && Entries(s)[i] % 2 == 1
    {
      OddPrimeIsOdd(s[i].divisor);
      EntryFacts(s[i].divisor, s[i].multiplicity);
    }
  }

  /** A product below 2^bits has fewer than bits raw factors. */
  lemma RawCount(s: seq<RawFactor>, n: int, bits: nat)
    requires RawList(s, n) && Prod(Entries(s)) < Pow2(bits)
    ensures |s| < bits
  {
    RawEntries(s, n);
    ProdAtLeast(Entries(s), 2);
    Pow2IsPow(|s|);
    if |s| >= bits {
      Pow2Mono(bits, |s|);
    }
  }

  // Dividing out small primes --------------------------------------------------------

  /** m is what is left of m0 after the primes below n were divided out. A prime that is all
      of m stays, because the division leaves equal operands alone; so 1 is never left, and a
      prime below n that is left is one of the largest that divide m0. */
  ghost predicate Divided(m0: int, m: int, s: seq<RawFactor>, n: int) {
    && m >= 1 && m * Prod(Entries(s)) == m0 && RawList(s, n)
    && (m0 > 1 ==> m > 1)
    && (forall p :: IsOddPrime(p) && p < n && m % p == 0 ==> m == p)
    && (IsOddPrime(m) && m < n ==> forall i :: 0 <= i < |s| ==> s[i].divisor <= m)
  }

  lemma DividedStart(m: int)
    requires m >= 1
    ensures Divided(m, m, [], 3)
  {
    RawEmpty();
  }

  lemma DividedSkip(m0: int, m: int, s: seq<RawFactor>, n: int)
    requires Divided(m0, m, s, n) && (IsOddPrime(n) && m % n == 0 ==> m == n)
    ensures Divided(m0, m, s, n + 1)
  {
    RawSkip(s, n);
  }

  lemma DividedTake(m0: int, m: int, s: seq<RawFactor>, n: nat, k: nat, left: int)
    requires Divided(m0, m, s, n) && IsOddPrime(n) && k >= 1
    requires left >= 2 && left * Pow(n, k) == m && (left % n == 0 ==> left == n)
    ensures Divided(m0, left, s + [RawFactor(n, k)], n + 1)
    ensures Prod(Entries(s + [RawFactor(n, k)])) <= m0
  {
    var t := s + [RawFactor(n, k)];
    hide Entries, Prod, IsPrime;
    RawAppend(s, n, k);
    Regroup(left, Pow(n, k), Prod(Entries(s)));
    forall p | IsOddPrime(p) && p < n + 1 && left % p == 0
      ensures left == p && p == n
    {
      NoEarlier(m0, m, s, n, k, left, p);
    }
    if IsOddPrime(left) && left < n + 1 {
      SelfDivides(left);
      assert left == n;
    }
    RawEntries(t, n + 1);
    ProdAtLeast(Entries(t), 1);
    MulMono(1, left, Prod(Entries(t)));
  }

  /** An earlier prime does not divide what is left. */
  lemma NoEarlier(m0: int, m: int, s: seq<RawFactor>, n: nat, k: nat, left: int, p: int)
    requires Divided(m0, m, s, n) && IsOddPrime(n) && k >= 1
    requires left >= 2 && left * Pow(n, k) == m && (left % n == 0 ==> left == n)
    requires IsOddPrime(p) && p < n + 1 && left % p == 0
    ensures p == n && left == n
  {
    hide Entries, Prod, IsPrime;
    if p < n {
      MultipleModulo(p, left, Pow(n, k));
      PrimePower(n, k);
      MulMono(2, Pow(n, k), left);
      DividesBelow(p, left);
    }
  }

  lemma DividesBelow(p: int, x: int)
    requires p >= 1 && x >= 1 && x % p == 0
    ensures x >= p
  {
    if x < p {
      DivModUnique(x, p, 0, x);
    }
  }

  lemma SelfDivides(m: int)
    requires m >= 1
    ensures m % m == 0
  {
    DivModUnique(m, m, 1, 0);
  }

  lemma Regroup(a: int, p: int, q: int)
    ensures (a * p) * q == a * (q * p)
  {
  }

  lemma PrimePower(n: int, k: nat)
    requires n >= 1 && k >= 1
    ensures Pow(n, k) >= n
  {
    PowMonoExp(n, 1, k);
    assert Pow(n, 1) == n * Pow(n, 0);
  }

  lemma DividedPositive(m0: int, m: int, s: seq<RawFactor>, n: int)
    requires Divided(m0, m, s, n)
    ensures m >= 1
  {
  }

  /** The array has room for every prime found. */
  lemma RoomFor(m0: int, m: int, s: seq<RawFactor>, n: int, bits: nat)
    requires Divided(m0, m, s, n) && Prod(Entries(s)) <= m0 < Pow2(bits)
    ensures |s| < bits
  {
    RawCount(s, n, bits);
  }

  // What the search records ----------------------------------------------------------------

  /** The multiplicity of p in a list. */
  function ExpOf(s: seq<RawFactor>, p: int): nat {
    if s == [] then 0
    else
      var k := |s| - 1;
      if s[k].divisor == p then s[k].multiplicity else ExpOf(s[..k], p)
  }

  lemma RawPrefix(s: seq<RawFactor>, n: int)
    requires RawList(s, n) && s != []
    ensures var k := |s| - 1;
            && RawList(s[..k], n) && IsOddPrime(s[k].divisor) && s[k].multiplicity >= 1 && s[k].divisor < n
            && forall i :: 0 <= i < k ==> s[..k][i].divisor < s[k].divisor
    ensures Entries(s) == Entries(s[..|s| - 1]) + [Entry(s[|s| - 1])]
  {
  }

  lemma {:induction false} ExpOfListed(s: seq<RawFactor>, n: int, p: int)
    requires RawList(s, n)
    ensures ExpOf(s, p) >= 1 <==> exists i :: 0 <= i < |s| && s[i].divisor == p
    ensures forall i :: 0 <= i < |s| && s[i].divisor == p ==> ExpOf(s, p) == s[i].multiplicity
    decreases |s|
  {
    if s != [] {
      var k := |s| - 1;
      RawPrefix(s, n);
      ExpOfListed(s[..k], n, p);
      forall i | 0 <= i < |s| && s[i].divisor == p
        ensures ExpOf(s, p) == s[i].multiplicity
      {
        if i < k {
          assert s[..k][i] == s[i];
        }
      }
      if ExpOf(s, p) >= 1 && s[k].divisor != p {
        var i :| 0 <= i < k && s[..k][i].divisor == p;
        assert s[i].divisor == p;
      }
    }
  }

  /** The exponent of p in the product of a list is its multiplicity there. */
  lemma {:induction false} ExponentOfList(s: seq<RawFactor>, n: int, p: int)
    requires RawList(s, n) && IsPrime(p)
    ensures Prod(Entries(s)) >= 1 && Exponent(p, Prod(Entries(s))) == ExpOf(s, p)
    decreases |s|
  {
    hide IsPrime, Exponent;
    PrimeAbove(p);
    if s == [] {
      ExponentOfOne(p);
      assert Entries(s) == [];
    } else {
      var k := |s| - 1;
      var f := s[k];
      RawPrefix(s, n);
      OddPrimeIsOdd(f.divisor);
      ExponentOfList(s[..k], n, p);
      ExponentOfPower(p, f.divisor, f.multiplicity);
      ExponentMul(p, Prod(Entries(s[..k])), Entry(f));
      ProdSnoc(Entries(s[..k]), Entry(f));
      if f.divisor == p {
        ExpOfListed(s[..k], n, p);
      }
    }
  }

  lemma ProdSnoc(t: seq<int>, x: int)
    ensures Prod(t + [x]) == Prod(t) * x
  {
    assert (t + [x])[..|t|] == t;
  }

  /** The exponent of a prime in m0 is shared between what is left and the list. */
  lemma DividedExponent(m0: int, m: int, s: seq<RawFactor>, n: int, p: int)
    requires Divided(m0, m, s, n) && IsPrime(p)
    ensures m0 >= 1 && Exponent(p, m0) == Exponent(p, m) + ExpOf(s, p)
  {
    hide IsPrime, Exponent, ExpOf;
    PrimeAbove(p);
    ExponentOfList(s, n, p);
    ExponentMul(p, m, Prod(Entries(s)));
  }

  /** So each odd prime below n is recorded as often as it divides m0, except that one copy of
      it is missing if it is what is left. */
  lemma RecordedExponent(m0: int, m: int, s: seq<RawFactor>, n: int, p: int)
    requires Divided(m0, m, s, n) && IsOddPrime(p) && p < n
    ensures m0 >= 1 && ExpOf(s, p) == Exponent(p, m0) - (if m == p then 1 else 0)
  {
    hide Exponent, ExpOf;
    DividedExponent(m0, m, s, n, p);
    NotDivided(p, m);
    if m == p {
      ExponentOfPrime(p, p);
    }
  }

  lemma NoneListed()
    ensures forall p :: ExpOf([], p) == 0
  {
  }

  lemma ExpOfPrefix(s: seq<RawFactor>, n: int, p: int)
    requires RawList(s, n) && s != []
    ensures var k := |s| - 1;
            ExpOf(s[..k], p) == if p == s[k].divisor then 0 else ExpOf(s, p)
  {
    RawPrefix(s, n);
    ExpOfListed(s[..|s| - 1], n, p);
  }

  lemma LastListed(s: seq<RawFactor>, n: int)
    requires RawList(s, n)
    ensures s != [] ==> IsOddPrime(s[|s| - 1].divisor) && ExpOf(s, s[|s| - 1].divisor) >= 1
  {
  }

  /** Two lists with the same multiplicities are the same. */
  lemma {:induction false} SameMultiplicities(s: seq<RawFactor>, t: seq<RawFactor>, n: int)
    requires RawList(s, n) && RawList(t, n)
    requires forall p :: IsOddPrime(p) ==> ExpOf(s, p) == ExpOf(t, p)
    ensures s == t
    decreases |s|
  {
    hide IsOddPrime, ExpOf;
    LastListed(s, n);
    LastListed(t, n);
    NoneListed();
    if s != [] && t != [] {
      var j, k := |s| - 1, |t| - 1;
      RawPrefix(s, n);
      RawPrefix(t, n);
      SameLast(s, t, n);
      forall p | IsOddPrime(p)
        ensures ExpOf(s[..j], p) == ExpOf(t[..k], p)
      {
        ExpOfPrefix(s, n, p);
        ExpOfPrefix(t, n, p);
      }
      SameMultiplicities(s[..j], t[..k], n);
      assert s == s[..j] + [s[j]] && t == t[..k] + [t[k]];
    }
  }

  lemma SameLast(s: seq<RawFactor>, t: seq<RawFactor>, n: int)
    requires RawList(s, n) && RawList(t, n) && s != [] && t != []
    requires forall p :: IsOddPrime(p) ==> ExpOf(s, p) == ExpOf(t, p)
    ensures s[|s| - 1] == t[|t| - 1]
  {
    hide IsOddPrime;
    RawPrefix(s, n);
    RawPrefix(t, n);
    var p, q := s[|s| - 1].divisor, t[|t| - 1].divisor;
    ExpOfListed(t, n, p);
    ExpOfListed(s, n, q);
    assert ExpOf(s, p) >= 1 && ExpOf(t, q) >= 1;
    var i :| 0 <= i < |t| && t[i].divisor == p;
    var j :| 0 <= j < |s| && s[j].divisor == q;
  }

  /** A prime factor of the whole is a listed prime or divides what is left. */
  lemma PrimeOfWhole(m0: int, m: int, s: seq<RawFactor>, n: int, q: int)
    requires Divided(m0, m, s, n) && IsPrime(q) && m0 % q == 0
    ensures m % q == 0 || (ExpOf(s, q) >= 1 && IsOddPrime(q) && q < n)
  {
    hide Exponent, ExpOf;
    DividedExponent(m0, m, s, n, q);
    NotDivided(q, m0);
    NotDivided(q, m);
    ExpOfListed(s, n, q);
    if ExpOf(s, q) >= 1 {
      var i :| 0 <= i < |s| && s[i].divisor == q;
    }
  }

  lemma PrimeOfPart(m0: int, m: int, s: seq<RawFactor>, n: int, q: int)
    requires Divided(m0, m, s, n) && IsPrime(q)
    ensures m % q == 0 ==> m0 % q == 0
    ensures ExpOf(s, q) >= 1 ==> m0 % q == 0
  {
    hide Exponent, ExpOf;
    DividedExponent(m0, m, s, n, q);
    NotDivided(q, m0);
    NotDivided(q, m);
  }

  /** What is left when it is not itself a small prime has no small prime factor. */
  lemma RestIsLarge(m0: int, m: int, s: seq<RawFactor>, n: int, q: int)
    requires Divided(m0, m, s, n) && IsOddPrime(q) && q < n && m % q == 0
    ensures m == q
  {
  }

  /** m is a prime below n exactly when all prime factors of the odd number m0 are below n; it
      is then the largest of them. */
  lemma RestIsPrimeIff(m0: int, m: int, s: seq<RawFactor>, n: int)
    requires Divided(m0, m, s, n) && m0 > 1 && m0 % 2 == 1
    ensures IsOddPrime(m) && m < n <==> forall q :: IsPrime(q) && m0 % q == 0 ==> q < n
    ensures IsOddPrime(m) && m < n ==> m0 % m == 0 && forall q :: IsPrime(q) && m0 % q == 0 ==> q <= m
  {
    hide ExpOf, Entries, Prod;
    if IsOddPrime(m) && m < n {
      SelfDivides(m);
      PrimeOfPart(m0, m, s, n, m);
      forall q | IsPrime(q) && m0 % q == 0
        ensures q <= m
      {
        PrimeAtMostRest(m0, m, s, n, q);
      }
    }
    if forall q :: IsPrime(q) && m0 % q == 0 ==> q < n {
      var q := PrimeFactor(m);
      PrimeOfPart(m0, m, s, n, q);
      OddFactor(m0, q);
      RestIsLarge(m0, m, s, n, q);
    }
  }

  lemma PrimeAtMostRest(m0: int, m: int, s: seq<RawFactor>, n: int, q: int)
    requires Divided(m0, m, s, n) && IsOddPrime(m) && m < n && IsPrime(q) && m0 % q == 0
    ensures q <= m
  {
    hide ExpOf, Entries, Prod;
    PrimeOfWhole(m0, m, s, n, q);
    if m % q == 0 {
      DividesPrime(m, q);
    } else {
      ExpOfListed(s, n, q);
      var i :| 0 <= i < |s| && s[i].divisor == q;
    }
  }

  lemma OddFactor(m0: int, q: int)
    requires m0 % 2 == 1 && IsPrime(q) && m0 % q == 0
    ensures IsOddPrime(q)
  {
  }

  /** The search has one outcome. */
  lemma DividedUnique(m0: int, m: int, s: seq<RawFactor>, l: int, t: seq<RawFactor>, n: int)
    requires m0 > 1 && Divided(m0, m, s, n) && Divided(m0, l, t, n)
    ensures m == l && s == t
  {
    hide ExpOf, Exponent, Entries, Prod, IsPrime;
    RestUnique(m0, m, s, l, t, n);
    RestUnique(m0, l, t, m, s, n);
    forall p | IsOddPrime(p)
      ensures ExpOf(s, p) == ExpOf(t, p)
    {
      DividedExponent(m0, m, s, n, p);
      DividedExponent(m0, l, t, n, p);
    }
    SameMultiplicities(s, t, n);
  }

  /** What is left cannot differ. */
  lemma RestUnique(m0: int, m: int, s: seq<RawFactor>, l: int, t: seq<RawFactor>, n: int)
    requires m0 > 1 && Divided(m0, m, s, n) && Divided(m0, l, t, n)
    ensures m == l
  {
    hide ExpOf, Exponent, Entries, Prod, IsPrime;
    if IsOddPrime(m) && m < n {
      RestsSmall(m0, m, s, l, t, n);
      if IsOddPrime(l) && l < n {
        RestsSmall(m0, l, t, m, s, n);
      }
    } else if IsOddPrime(l) && l < n {
      RestsSmall(m0, l, t, m, s, n);
    } else {
      RestsLarge(m0, m, s, l, t, n);
    }
  }

  /** If a small prime is left of m0 once, a small prime is left of it always, and no larger
      one. */
  lemma RestsSmall(m0: int, m: int, s: seq<RawFactor>, l: int, t: seq<RawFactor>, n: int)
    requires m0 > 1 && Divided(m0, m, s, n) && Divided(m0, l, t, n) && IsOddPrime(m) && m < n
    ensures IsOddPrime(l) && l < n && l <= m
  {
    hide ExpOf, Exponent, Entries, Prod, IsPrime;
    var q := PrimeFactor(l);
    PrimeOfPart(m0, l, t, n, q);
    PrimeOfWhole(m0, m, s, n, q);
    if m % q == 0 {
      DividesPrime(m, q);
    }
    PrimeAboveOne(q);
    assert IsOddPrime(q);
    RestIsLarge(m0, l, t, n, q);
    PrimeAtMostRest(m0, m, s, n, q);
  }

  lemma PrimeAboveOne(q: int)
    requires IsPrime(q)
    ensures q > 1
  {
  }

  lemma RestsLarge(m0: int, m: int, s: seq<RawFactor>, l: int, t: seq<RawFactor>, n: int)
    requires m0 > 1 && Divided(m0, m, s, n) && Divided(m0, l, t, n)
    requires !(IsOddPrime(m) && m < n) && !(IsOddPrime(l) && l < n)
    ensures m == l
  {
    hide ExpOf, Exponent, IsPrime;
    forall p | IsOddPrime(p)
      ensures ExpOf(s, p) == ExpOf(t, p)
    {
      if p < n {
        RecordedExponent(m0, m, s, n, p);
        RecordedExponent(m0, l, t, n, p);
      } else {
        Unlisted(s, n, p);
        Unlisted(t, n, p);
      }
    }
    SameMultiplicities(s, t, n);
    RawEntries(s, n);
    ProdAtLeast(Entries(s), 1);
    SameQuotient(m, l, Prod(Entries(s)));
  }

  lemma Unlisted(s: seq<RawFactor>, n: int, p: int)
    requires RawList(s, n) && p >= n
    ensures ExpOf(s, p) == 0
  {
    ExpOfListed(s, n, p);
  }

  lemma SameQuotient(m: int, l: int, p: int)
    requires p >= 1 && m * p == l * p
    ensures m == l
  {
    DivModUnique(m * p, p, m, 0);
    DivModUnique(l * p, p, l, 0);
  }

  /** p is the only prime factor that remains of m0 when all smaller ones are taken out. */
  ghost predicate IsLastPrime(p: int, m0: int, n: int) {
    IsOddPrime(p) && p < n && m0 % p == 0 && forall q :: IsPrime(q) && m0 % q == 0 ==> q <= p
  }

  /** What is left of an odd number is the prime p exactly when p is its largest prime factor. */
  lemma LeftIff(m0: int, m: int, s: seq<RawFactor>, n: int, p: int)
    requires Divided(m0, m, s, n) && m0 > 1 && m0 % 2 == 1 && IsOddPrime(p) && p < n
    ensures m == p <==> IsLastPrime(p, m0, n)
  {
    hide ExpOf, Entries, Prod, Divided;
    RestIsPrimeIff(m0, m, s, n);
    if IsLastPrime(p, m0, n) {
      assert IsPrime(m) && m0 % m == 0;
    }
  }

  /** The entry of a prime, from m0 alone. */
  function EntryOf(p: int, m0: int, last: bool): int
    requires p >= 2 && m0 >= 1
  {
    Pow(p, if last && Exponent(p, m0) > 0 then Exponent(p, m0) - 1 else Exponent(p, m0))
  }

  /** When all entries stay within a bound. */
  lemma EntriesWithinIff(m0: int, m: int, s: seq<RawFactor>, n: int, bound: int)
    requires Divided(m0, m, s, n) && m0 > 1 && m0 % 2 == 1 && bound >= 1
    ensures (forall i :: 0 <= i < |s| ==> Entry(s[i]) <= bound) <==>
            forall p :: IsOddPrime(p) && p < n ==> EntryOf(p, m0, IsLastPrime(p, m0, n)) <= bound
  {
    hide Exponent, ExpOf, IsLastPrime, Divided;
    DividedList(m0, m, s, n);
    forall p | IsOddPrime(p) && p < n
      ensures EntryOf(p, m0, IsLastPrime(p, m0, n)) == Pow(p, ExpOf(s, p))
    {
      RecordedExponent(m0, m, s, n, p);
      LeftIff(m0, m, s, n, p);
    }
    if forall i :: 0 <= i < |s| ==> Entry(s[i]) <= bound {
      forall p | IsOddPrime(p) && p < n
        ensures EntryOf(p, m0, IsLastPrime(p, m0, n)) <= bound
      {
        ExpOfListed(s, n, p);
        if ExpOf(s, p) >= 1 {
          var i :| 0 <= i < |s| && s[i].divisor == p;
          assert Entry(s[i]) == Pow(p, ExpOf(s, p));
        } else {
          PowZero(p);
        }
      }
    }
    if forall p :: IsOddPrime(p) && p < n ==> EntryOf(p, m0, IsLastPrime(p, m0, n)) <= bound {
      forall i | 0 <= i < |s|
        ensures Entry(s[i]) <= bound
      {
        var p := s[i].divisor;
        ExpOfListed(s, n, p);
        assert EntryOf(p, m0, IsLastPrime(p, m0, n)) <= bound;
      }
    }
  }

  lemma PowZero(p: int)
    ensures Pow(p, 0) == 1
  {
  }

  lemma DividedList(m0: int, m: int, s: seq<RawFactor>, n: int)
    requires Divided(m0, m, s, n)
    ensures RawList(s, n)
  {
  }
}
