/** What the residue tests built from the divisors of gen-psqr.c decide together. */
module Residues {
  import opened Arith
  import opened Bits
  import opened Limbs
  import opened MpzArith
  import opened MpzBits
  import opened MpzDiv
  import opened Factors
  import opened Psqr
  import opened Exponents
  import opened RawFactors
  import opened GenMod

  // Squares modulo a product of coprime divisors -----------------------------------------

  lemma CongFactor(x: int, y: int, a: int, b: int)
    requires a >= 1 && b >= 1 && a * b >= 1 && Cong(x, y, a * b)
    ensures Cong(x, y, a) && Cong(x, y, b)
  {
    var k := CongWitness(x, y, a * b);
    assert k * (a * b) == (k * b) * a == (k * a) * b by { MulAssoc(k, b, a); MulAssoc(k, a, b); }
    CongFrom(x, y, a, k * b);
    CongFrom(x, y, b, k * a);
  }

  lemma CongProduct(x: int, y: int, a: int, b: int)
    requires a >= 1 && b >= 1 && a * b >= 1 && Coprime(a, b) && Cong(x, y, a) && Cong(x, y, b)
    ensures Cong(x, y, a * b)
  {
    var u, v :| Bezout(u, a, v, b);
    var k := CongWitness(x, y, a);
    var l := CongWitness(x, y, b);
    CoprimeMultiple(x - y, a, b, u, v, k, l);
    CongFrom(x, y, a * b, u * l + v * k);
  }

  lemma CoprimeMultiple(n: int, a: int, b: int, u: int, v: int, k: int, l: int)
    requires u * a + v * b == 1 && n == k * a && n == l * b
    ensures n == (u * l + v * k) * (a * b)
  {
    assert n == (u * a) * n + (v * b) * n by { assert n == (u * a + v * b) * n; }
    Cross(u, a, l, b);
    Cross(v, b, k, a);
    assert (u * l) * (a * b) + (v * k) * (a * b) == (u * l + v * k) * (a * b);
    assert b * a == a * b;
  }

  lemma Cross(u: int, a: int, l: int, b: int)
    ensures (u * a) * (l * b) == (u * l) * (a * b)
  {
  }

  /** The number congruent to x modulo a and to y modulo b. */
  lemma Crt(x: int, y: int, a: int, b: int) returns (z: int)
    requires a >= 1 && b >= 1 && Coprime(a, b)
    ensures Cong(z, x, a) && Cong(z, y, b)
  {
    var u, v :| Bezout(u, a, v, b);
    z := x * (v * b) + y * (u * a);
    CrtTerm(x, y, u * a, v * b);
    assert z == x + ((y - x) * u) * a by { MulAssoc(y - x, u, a); }
    assert z == y + ((x - y) * v) * b by { MulAssoc(x - y, v, b); }
    CongFrom(z, x, a, (y - x) * u);
    CongFrom(z, y, b, (x - y) * v);
  }

  lemma CrtTerm(x: int, y: int, p: int, q: int)
    requires p + q == 1
    ensures x * q + y * p == x + (y - x) * p == y + (x - y) * q
  {
    assert x * q == x - x * p && y * p == y - y * q;
  }

  lemma SquareModProduct(r: int, a: int, b: int)
    requires a >= 1 && b >= 1 && a * b >= 1 && Coprime(a, b)
    ensures IsSquareMod(r, a * b) <==> IsSquareMod(r, a) && IsSquareMod(r, b)
  {
    hide IsSquareMod, Cong;
    if IsSquareMod(r, a * b) {
      var j := SquareRoot(r, a * b);
      CongFactor(j * j, r, a, b);
      SquareIs(j, r, a);
      SquareIs(j, r, b);
    }
    if IsSquareMod(r, a) && IsSquareMod(r, b) {
      var x := SquareRoot(r, a);
      var y := SquareRoot(r, b);
      var z := Crt(x, y, a, b);
      CongSquare(z, x, r, a);
      CongSquare(z, y, r, b);
      CongProduct(z * z, r, a, b);
      SquareIs(z, r, a * b);
    }
  }

  lemma CongSquare(z: int, x: int, r: int, a: int)
    requires a >= 1 && Cong(z, x, a) && Cong(x * x, r, a)
    ensures Cong(z * z, r, a)
  {
    CongMul(z, x, z, x, a);
  }

  lemma {:induction false} CoprimeToProd(s: seq<int>, c: int)
    requires forall i :: 0 <= i < |s| ==> Coprime(s[i], c)
    ensures Coprime(Prod(s), c)
  {
    if s == [] {
      assert Bezout(1, 1, 0, c);
    } else {
      CoprimeToProd(s[..|s| - 1], c);
      CoprimeMul(Prod(s[..|s| - 1]), s[|s| - 1], c);
    }
  }

  /** A square modulo every divisor is a square modulo their product, and conversely. */
  lemma {:induction false} SquareModProd(r: int, s: seq<int>)
    requires PairCoprime(s) && forall i :: 0 <= i < |s| ==> s[i] >= 1
    ensures Prod(s) >= 1
    ensures IsSquareMod(r, Prod(s)) <==> forall i :: 0 <= i < |s| ==> IsSquareMod(r, s[i])
  {
    hide IsSquareMod, Coprime;
    if s == [] {
      SquareModOne(r);
    } else {
      var n := |s| - 1;
      var t := s[..n];
      SquareModProd(r, t);
      CoprimeToProd(t, s[n]);
      MulPos(Prod(t), s[n]);
      SquareModProduct(r, Prod(t), s[n]);
      assert forall i :: 0 <= i < n ==> t[i] == s[i];
    }
  }

  lemma SquareModOne(r: int)
    ensures IsSquareMod(r, 1)
  {
    CongFrom(0 * 0, r, 1, -r);
    SquareIs(0, r, 1);
  }

  /** Combining entries neither gains nor loses a detection. */
  lemma CombiningKeepsDetections(r: int, raw: seq<RawFactor>, n: int, s: seq<int>, bound: nat)
    requires RawList(raw, n) && Divisors(raw, s, bound)
    ensures (forall i :: 0 <= i < |s| ==> s[i] >= 1) && forall i :: 0 <= i < |raw| ==> Entry(raw[i]) >= 1
    ensures (forall i :: 0 <= i < |s| ==> IsSquareMod(r, s[i])) <==>
            (forall i :: 0 <= i < |raw| ==> IsSquareMod(r, Entry(raw[i])))
  {
    hide IsSquareMod, Prod, PairCoprime;
    RawEntries(raw, n);
    SquareModProd(r, s);
    SquareModProd(r, Entries(raw));
  }

  // The table ------------------------------------------------------------------------------

  /** The pair (inverse, mask) that goes with divisor d. */
  ghost predicate Decides(inverse: nat, mask: nat, d: nat, modBits: nat)
    requires d >= 1
  {
    forall r: nat :: r < Pow2(modBits) ==>
      var idx := ModIdx(r, d, inverse, modBits);
      idx < d && (Bit(mask, idx) == 1 <==> IsSquareMod(r, d))
  }

  /** The inverse and the mask of one divisor; its square stays in the range of an int. */
  method TableEntry(inverse: Mpz, mask: Mpz, d: nat, modBits: nat)
    requires inverse.Valid() && mask.Valid() && inverse != mask && inverse.d != mask.d
    requires d % 2 == 1 && d * d < 0x8000_0000 && modBits >= 1
    modifies inverse, inverse.d, mask, mask.d
    ensures inverse.Valid() && mask.Valid() && inverse.Value() >= 0 && mask.Value() >= 0
    ensures Owned(inverse) && Owned(mask)
    ensures Decides(inverse.Value(), mask.Value(), d, modBits)
  {
    hide Mpz.Valid, Mpz.Value, Pow2, Bit, IsSquareMask, IsSquareMod, ModIdx;
    BaseSquare();
    SmallBase(d);
    var az := InitSetUi(d);
    Invert2exp(inverse, az, modBits);
    ghost var v := inverse.Value();
    SquareMask(mask, d, modBits);
    OneBelow(modBits);
    EntryDecides(v, mask.Value(), d, modBits);
  }

  lemma SmallBase(d: int)
    requires 0 <= d && d * d < 0x8000_0000
    ensures d < Base() * Base()
  {
    Pow2Mono(16, GMP_LIMB_BITS);
    Pow2Add(8, 8);
    MulMono(0x1_0000, Base(), Base());
    if d >= 0x1_0000 {
      MulMono(0x1_0000, d, 0x1_0000);
      MulMono(0x1_0000, d, d);
    }
  }

  lemma OneBelow(n: nat)
    requires n >= 1
    ensures 1 % Pow2(n) == 1
  {
    Pow2Mono(1, n);
    Pow2Small();
    DivModUnique(1, Pow2(n), 0, 1);
  }

  lemma EntryDecides(inverse: nat, mask: nat, d: nat, modBits: nat)
    requires d % 2 == 1 && inverse * d % Pow2(modBits) == 1 % Pow2(modBits)
    requires IsSquareMask(mask, d, modBits)
    ensures Decides(inverse, mask, d, modBits)
  {
    hide Pow2, Bit, IsSquareMask, IsSquareMod, ModIdx;
    forall r: nat | r < Pow2(modBits)
      ensures var idx := ModIdx(r, d, inverse, modBits);
              idx < d && (Bit(mask, idx) == 1 <==> IsSquareMod(r, d))
    {
      MaskDecides(mask, inverse, d, modBits, r);
    }
  }

  /** Every test of the table lets r through. */
  ghost predicate Passes(r: nat, s: seq<int>, inverses: seq<nat>, masks: seq<nat>, modBits: nat)
    requires |s| == |inverses| == |masks| && r < Pow2(modBits)
    requires forall i :: 0 <= i < |s| ==> s[i] >= 1
  {
    forall i :: 0 <= i < |s| ==> Bit(masks[i], ModIdx(r, s[i], inverses[i], modBits)) == 1
  }

  /** The tests let r through exactly when it is a square modulo the product of the divisors. */
  lemma TestsDecide(r: nat, s: seq<int>, inverses: seq<nat>, masks: seq<nat>, modBits: nat)
    requires |s| == |inverses| == |masks| && r < Pow2(modBits) && PairCoprime(s)
    requires forall i :: 0 <= i < |s| ==> s[i] >= 1 && Decides(inverses[i], masks[i], s[i], modBits)
    ensures Prod(s) >= 1
    ensures Passes(r, s, inverses, masks, modBits) <==> IsSquareMod(r, Prod(s))
  {
    hide Bit, IsSquareMod, ModIdx, PairCoprime, Prod;
    SquareModProd(r, s);
    forall i | 0 <= i < |s|
      ensures Bit(masks[i], ModIdx(r, s[i], inverses[i], modBits)) == 1 <==> IsSquareMod(r, s[i])
    {
      assert Decides(inverses[i], masks[i], s[i], modBits);
    }
  }

  /** A perfect square is never turned away: u leaves r modulo the modulus that the divisors
      divide. */
  lemma SquarePasses(x: nat, u: nat, r: nat, modulus: nat, s: seq<int>, inverses: seq<nat>, masks: seq<nat>,
                     modBits: nat)
    requires |s| == |inverses| == |masks| && r < Pow2(modBits) && PairCoprime(s)
    requires forall i :: 0 <= i < |s| ==> s[i] >= 1 && Decides(inverses[i], masks[i], s[i], modBits)
    requires Prod(s) >= 1 && modulus >= 1 && modulus % Prod(s) == 0
    requires u == x * x && Cong(r, u, modulus)
    ensures Passes(r, s, inverses, masks, modBits)
  {
    hide Passes, IsSquareMod, Decides, PairCoprime, Prod;
    var p := Prod(s);
    TestsDecide(r, s, inverses, masks, modBits);
    CofactorPositive(modulus, p);
    CongFactor(u, r, modulus / p, p);
    SquareIs(x, r, p);
  }

  lemma CofactorPositive(modulus: int, p: int)
    requires modulus >= 1 && p >= 1 && modulus % p == 0
    ensures modulus / p >= 1 && modulus == modulus / p * p
  {
    PositiveFactor(modulus / p, p);
  }

  // The whole table ------------------------------------------------------------------------

  /** The objects of the table hold these numbers. */
  ghost predicate Holds(objects: seq<Mpz>, values: seq<nat>)
    reads objects, set o <- objects :: o.d
  {
    |objects| == |values| && forall i :: 0 <= i < |objects| ==> objects[i].Valid() && objects[i].Value() == values[i]
  }

  ghost predicate Natural(objects: seq<Mpz>)
    reads objects, set o <- objects :: o.d
  {
    forall i :: 0 <= i < |objects| ==> objects[i].Valid() && objects[i].Value() >= 0
  }

  /** The numbers in the objects of the table. */
  ghost function Values(objects: seq<Mpz>): (v: seq<nat>)
    requires Natural(objects)
    reads objects, set o <- objects :: o.d
    ensures |v| == |objects| && forall i :: 0 <= i < |v| ==> v[i] == objects[i].Value()
  {
    if objects == [] then []
    else var k := |objects| - 1; Values(objects[..k]) + [objects[k].Value()]
  }

  lemma HoldsValues(objects: seq<Mpz>, values: seq<nat>)
    requires Holds(objects, values)
    ensures Natural(objects) && Values(objects) == values
  {
    hide Mpz.Valid, Mpz.Value;
  }

  /** The table of inverses and masks that goes with the divisors. */
  ghost predicate IsTable(s: seq<int>, inverses: seq<nat>, masks: seq<nat>, modBits: nat) {
    && |s| == |inverses| == |masks|
    && forall i :: 0 <= i < |s| ==> s[i] >= 1 && Decides(inverses[i], masks[i], s[i], modBits)
  }

  lemma TableSnoc(s: seq<int>, i: nat, inverses: seq<nat>, masks: seq<nat>, modBits: nat, inverse: nat, mask: nat)
    requires i < |s| && IsTable(s[..i], inverses, masks, modBits)
    requires s[i] >= 1 && Decides(inverse, mask, s[i], modBits)
    ensures IsTable(s[..i + 1], inverses + [inverse], masks + [mask], modBits)
  {
    hide Decides;
  }

  /** The loop over the divisors that fills in inverses and masks; the products stay in the range
      of an int. */
  method GenerateTables(factor: array<int>, n: nat, modBits: nat)
      returns (inverses: seq<Mpz>, masks: seq<Mpz>)
    requires n <= factor.Length && modBits >= 1
    requires forall i :: 0 <= i < n ==> factor[i] >= 1 && factor[i] % 2 == 1 && factor[i] * factor[i] < 0x8000_0000
    ensures Natural(inverses) && Natural(masks)
    ensures IsTable(factor[..n], Values(inverses), Values(masks), modBits)
  {
    hide Mpz.Valid, Mpz.Value, Decides, IsTable, Natural;
    inverses, masks := [], [];
    ghost var invs: seq<nat>, masked: seq<nat> := [], [];
    ghost var s := factor[..n];
    EmptyTable(modBits);
    assert s[..0] == [];
    for i := 0 to n
      invariant Holds(inverses, invs) && Holds(masks, masked) && IsTable(s[..i], invs, masked, modBits)
      invariant forall k :: 0 <= k < |inverses| ==> fresh(inverses[k]) && fresh(inverses[k].d)
      invariant forall k :: 0 <= k < |masks| ==> fresh(masks[k]) && fresh(masks[k].d)
    {
      var inverse, mask := TableObjects(factor[i], modBits);
      TableSnoc(s, i, invs, masked, modBits, inverse.Value(), mask.Value());
      inverses, invs := inverses + [inverse], invs + [inverse.Value()];
      masks, masked := masks + [mask], masked + [mask.Value()];
    }
    assert s[..n] == s;
    HoldsValues(inverses, invs);
    HoldsValues(masks, masked);
  }

  lemma EmptyTable(modBits: nat)
    ensures IsTable([], [], [], modBits)
  {
  }

  method TableObjects(d: nat, modBits: nat) returns (inverse: Mpz, mask: Mpz)
    requires d % 2 == 1 && d * d < 0x8000_0000 && modBits >= 1
    ensures fresh(inverse) && fresh(inverse.d) && fresh(mask) && fresh(mask.d)
    ensures inverse.Valid() && mask.Valid() && inverse.Value() >= 0 && mask.Value() >= 0
    ensures Decides(inverse.Value(), mask.Value(), d, modBits)
  {
    hide Mpz.Valid, Mpz.Value, Decides;
    inverse := new Mpz();
    mask := new Mpz();
    TableEntry(inverse, mask, d, modBits);
  }

  /** The modulus that the tests start from is a multiple of the product of the divisors. */
  lemma GeneratedModulus(limbBits: nat, numbBits: nat, mod34: bool, raw: seq<RawFactor>, pp: int, bound: nat,
                         modBits: nat, left: int, s: seq<int>)
    requires Generated(limbBits, numbBits, mod34, raw, pp, bound, modBits, left, s)
    ensures Prod(s) >= 1 && modBits >= 1 && PairCoprime(s) && forall i :: 0 <= i < |s| ==> s[i] >= 3
    ensures mod34 ==> Pow2(modBits - 1) - 1 >= 1 && (Pow2(modBits - 1) - 1) % Prod(s) == 0
    ensures !mod34 ==> pp == Prod(s)
  {
    hide Choice, FilledUp, CombineOf, NothingFits, PairCoprime, Entries;
    ProdAtLeast(s, 1);
    if mod34 {
      MulMono(1, left, Prod(s));
      ModAddMul(0, left, Prod(s));
      SelfDivides(Prod(s));
      DivModUnique(left * Prod(s), Prod(s), left, 0);
    }
  }

  /** The divisors come out in the range whose products are ints. */
  ghost predicate IntProducts(limbBits: nat, numbBits: nat) {
    && 2 * limbBits <= 46340
    && forall p :: IsOddPrime(p) && p <= 2 * limbBits && numbBits >= 4 ==>
         Pow(p, Exponent(p, Mersenne34(numbBits))) <= 46340
  }

  /** 2^mod34_bits - 1 */
  function Mersenne34(numbBits: nat): (m: nat)
    requires numbBits >= 4
    ensures m >= 1
  {
    Pow2Mono(1, numbBits / 4 * 3);
    Pow2Small();
    Pow2(numbBits / 4 * 3) - 1
  }

  /** Each raw entry of 2^mod34_bits - 1 is a power of a prime that divides it as often. */
  lemma RawEntrySmall(m0: int, left: int, raw: seq<RawFactor>, n: int, i: nat)
    requires Divided(m0, left, raw, n) && m0 >= 1 && i < |raw|
    ensures var p := raw[i].divisor;
            && IsOddPrime(p) && p < n && p >= 3 && Entry(raw[i]) <= Pow(p, Exponent(p, m0))
  {
    hide Exponent, ExpOf;
    var p := raw[i].divisor;
    ExpOfListed(raw, n, p);
    RecordedExponent(m0, left, raw, n, p);
    PowMonoExp(p, raw[i].multiplicity, Exponent(p, m0));
  }

  lemma GeneratedInRange(limbBits: nat, numbBits: nat, mod34: bool, raw: seq<RawFactor>, pp: int, bound: nat,
                         modBits: nat, left: int, s: seq<int>, k: nat)
    requires Generated(limbBits, numbBits, mod34, raw, pp, bound, modBits, left, s)
    requires 1 <= numbBits <= limbBits && IntProducts(limbBits, numbBits) && k < |s|
    ensures 3 <= s[k] <= 46340 && s[k] % 2 == 1
  {
    hide FilledUp, CombineOf, NothingFits, PairCoprime, TooFew, Exponent, Divided;
    assert bound <= 2 * limbBits by { BoundAtMost(mod34, limbBits, numbBits, bound, modBits); }
    if s[k] > bound {
      EntryInRange(limbBits, numbBits, mod34, raw, pp, bound, modBits, left, s[k]);
    }
  }

  lemma BoundAtMost(mod34: bool, limbBits: nat, numbBits: nat, bound: nat, modBits: nat)
    requires Choice(mod34, limbBits, numbBits, bound, modBits)
    ensures bound <= 2 * limbBits
  {
    hide TooFew, IsLog2Ceil;
  }

  lemma EntryInRange(limbBits: nat, numbBits: nat, mod34: bool, raw: seq<RawFactor>, pp: int, bound: nat,
                     modBits: nat, left: int, x: int)
    requires Chosen(mod34, raw, pp, bound, modBits, left) && Choice(mod34, limbBits, numbBits, bound, modBits)
    requires 1 <= numbBits <= limbBits && IntProducts(limbBits, numbBits) && x in Entries(raw) && bound <= 2 * limbBits
    ensures x <= 46340
  {
    hide Exponent, TooFew, IsLog2Ceil, Divided, Entry;
    var i :| 0 <= i < |raw| && Entries(raw)[i] == x;
    if mod34 {
      EligibleSizes(limbBits, numbBits, bound);
      RawEntrySmall(Mersenne34(numbBits), left, raw, bound + 1, i);
    } else {
      assert Entry(raw[i]) <= bound;
    }
  }

  /** generate_mod: the table lets r through exactly when r is a square modulo the product of the
      divisors, which divides the modulus. */
  method Generate(limbBits: nat, nailBits: nat)
      returns (mod34: bool, pp: Mpz, factor: array<int>, n: nat, modBits: nat, inverses: seq<Mpz>, masks: seq<Mpz>)
    requires nailBits < limbBits && 2 * limbBits < Base() * Base() && IntProducts(limbBits, limbBits - nailBits)
    ensures n <= factor.Length && Natural(inverses) && Natural(masks)
    ensures var s, invs, masked := factor[..n], Values(inverses), Values(masks);
            && IsTable(s, invs, masked, modBits) && PairCoprime(s) && Prod(s) >= 1 && modBits >= 1
            && (mod34 ==> (Pow2(modBits - 1) - 1) % Prod(s) == 0)
            && (!mod34 ==> pp.Valid() && pp.Value() == Prod(s))
            && forall r: nat :: r < Pow2(modBits) ==> (Passes(r, s, invs, masked, modBits) <==> IsSquareMod(r, Prod(s)))
  {
    hide Mpz.Valid, Mpz.Value, Generated, IntProducts, Decides, PairCoprime, Prod, Passes, IsSquareMod, Pow2, Natural;
    var maxDivisor;
    ghost var raw, left;
    factor, n, modBits, maxDivisor, mod34, pp, raw, left := GenerateMod(limbBits, nailBits);
    ghost var s, v := factor[..n], pp.Value();
    GeneratedModulus(limbBits, limbBits - nailBits, mod34, raw, v, maxDivisor, modBits, left, s);
    forall i | 0 <= i < n
      ensures factor[i] >= 1 && factor[i] % 2 == 1 && factor[i] * factor[i] < 0x8000_0000
    {
      assert factor[i] == s[i];
      GeneratedInRange(limbBits, limbBits - nailBits, mod34, raw, v, maxDivisor, modBits, left, s, i);
      SquareInRange(s[i]);
    }
    inverses, masks := GenerateTables(factor, n, modBits);
    ghost var invs, masked := Values(inverses), Values(masks);
    forall r: nat | r < Pow2(modBits)
      ensures Passes(r, s, invs, masked, modBits) <==> IsSquareMod(r, Prod(s))
    {
      TestsDecide(r, s, invs, masked, modBits);
    }
  }

  lemma SquareInRange(d: int)
    requires 0 <= d <= 46340
    ensures d * d < 0x8000_0000
  {
    MulMono(d, 46340, d);
    MulMono(d, 46340, 46340);
  }
}
