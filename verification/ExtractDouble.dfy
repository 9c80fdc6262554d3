/** The decomposition of doubles into limbs in extract-dbl.c, for IEEE formats without nails. */
module ExtractDouble {
  import opened Arith
  import opened Bits

  /** The fields of a finite, non-negative double. */
  datatype Double = Double(exp: nat, manh: nat, manl: nat)

  predicate IsDouble(x: Double) {
    x.exp < 2047 && x.manh < Pow2(20) && x.manl < Pow2(32)
  }

  function Fraction(x: Double): nat { x.manh * Pow2(32) + x.manl }

  /** m 2^e, counted in units of 2^-4096. */
  function Scaled(m: int, e: int): int
    requires e >= -4096
  {
    m * Pow2(e + 4096)
  }

  /** The number that the fields stand for (section 3.4 of IEEE 754-2008). */
  function Number(x: Double): int {
    if x.exp == 0 then Scaled(Fraction(x), -1074) else Scaled(Pow2(52) + Fraction(x), x.exp - 1075)
  }

  lemma ScaledShift(m: int, k: nat, e: int)
    requires e >= -4096
    ensures Scaled(m * Pow2(k), e) == Scaled(m, e + k)
  {
    Pow2Add(k, e + 4096);
    MulAssoc(m, Pow2(k), Pow2(e + 4096));
  }

  lemma Fields(x: Double)
    requires IsDouble(x)
    ensures 0 <= Fraction(x) < Pow2(52)
    ensures Fraction(x) == 0 <==> x.manh == 0 && x.manl == 0
  {
    hide Pow2;
    Pow2Add(20, 32);
    MulMono(x.manh + 1, Pow2(20), Pow2(32));
    MulMono(0, x.manh, Pow2(32));
    assert (x.manh + 1) * Pow2(32) == x.manh * Pow2(32) + Pow2(32);
    if x.manh > 0 { MulPos(x.manh, Pow2(32)); }
  }

  // The mantissa in one word ---------------------------------------------------------------

  /** The mantissa with its top bit, and the fraction below it. */
  function Mantissa(x: Double): int { Pow2(63) + Fraction(x) * Pow2(11) }

  /** 1 << 63 | manh << 43 | manl << 11 */
  lemma PackOne(x: Double)
    requires IsDouble(x)
    ensures Or(Or(Pow2(63), Shl(x.manh, 43)), Shl(x.manl, 11)) == Mantissa(x) < Pow2(64)
  {
    hide Pow2, Or, Shl;
    Pow2Add(20, 43);
    Pow2Add(32, 11);
    Fields(x);
    Pow2Add(52, 11);
    Pow2Add(1, 63);
    Pow2Small();
    MulMono(x.manh + 1, Pow2(20), Pow2(43));
    MulMono(x.manl + 1, Pow2(32), Pow2(11));
    MulMono(Fraction(x) + 1, Pow2(52), Pow2(11));
    PackSums(x.manh, x.manl, Pow2(32), Pow2(11), Pow2(43), Pow2(20), Pow2(63), Fraction(x));
    OrIsAdd(1, x.manh * Pow2(43), 63);
    OrIsAdd(Pow2(20) + x.manh, x.manl * Pow2(11), 43);
  }

  lemma PackSums(mh: int, ml: int, a: int, b: int, ab: int, c: int, top: int, f: int)
    requires ab == a * b && top == c * ab && f == mh * a + ml && mh >= 0 && ml >= 0 && ab >= 1 && b >= 1
    ensures mh * ab >= 0 && ml * b >= 0
    ensures (mh + 1) * ab == mh * ab + ab && (ml + 1) * b == ml * b + b && (f + 1) * b == f * b + b
    ensures 1 * top + mh * ab == (c + mh) * ab && 1 * top == top
    ensures (c + mh) * ab + ml * b == top + f * b
  {
    MulMono(0, mh, ab);
    MulMono(0, ml, b);
    MulAssoc(mh, a, b);
  }

  /** A normalized mantissa m and exponent e: the number is m 2^(e - 64). */
  ghost predicate Normalized(x: Double, m: int, e: int) {
    Pow2(63) <= m < Pow2(64) && -1100 <= e <= 1100 && Scaled(m, e - 64) == Number(x)
  }

  lemma NormalCase(x: Double)
    requires IsDouble(x) && x.exp > 0
    ensures Normalized(x, Mantissa(x), x.exp - 1022)
  {
    hide Pow2, Or;
    PackOne(x);
    Fields(x);
    Pow2Add(52, 11);
    MulMono(0, Fraction(x), Pow2(11));
    assert (Pow2(52) + Fraction(x)) * Pow2(11) == Mantissa(x);
    ScaledShift(Pow2(52) + Fraction(x), 11, x.exp - 1022 - 64);
  }

  /** The state of the loop for denormalized numbers after k shifts, the first of which drops
      the top bit again. */
  ghost predicate Shifting(x: Double, m: int, k: nat) {
    m == Fraction(x) * Pow2(11 + k) && 0 < m < Pow2(64)
  }

  lemma FirstShift(x: Double)
    requires IsDouble(x) && x.exp == 0 && Fraction(x) != 0
    ensures Shifting(x, 2 * Mantissa(x) % Pow2(64), 1)
  {
    hide Pow2;
    Fields(x);
    Pow2Add(1, 11);
    Pow2Add(1, 63);
    Pow2Add(52, 12);
    Pow2Small();
    var f := Fraction(x);
    MulMono(f + 1, Pow2(52), Pow2(12));
    assert (f + 1) * Pow2(12) == f * Pow2(12) + Pow2(12);
    MulPos(f, Pow2(12));
    assert 2 * (f * Pow2(11)) == f * (2 * Pow2(11));
    DivModUnique(2 * Mantissa(x), Pow2(64), 1, f * Pow2(12));
  }

  lemma NextShift(x: Double, m: int, k: nat)
    requires Shifting(x, m, k) && m < Pow2(63)
    ensures Shifting(x, 2 * m % Pow2(64), k + 1) && 2 * m % Pow2(64) == 2 * m
  {
    hide Pow2;
    Pow2Add(1, 63);
    Pow2Add(1, 11 + k);
    Pow2Small();
    DivModUnique(2 * m, Pow2(64), 0, 2 * m);
    assert 2 * (Fraction(x) * Pow2(11 + k)) == Fraction(x) * (2 * Pow2(11 + k));
  }

  /** The loop stops before the fraction could leave the word. */
  lemma ShiftCount(x: Double, m: int, k: nat)
    requires Shifting(x, m, k)
    ensures k <= 52
  {
    hide Pow2;
    PositiveFactor(Fraction(x), Pow2(11 + k));
    MulMono(1, Fraction(x), Pow2(11 + k));
    if k > 52 {
      Pow2Mono(64, 11 + k);
    }
  }

  lemma DenormalCase(x: Double, m: int, k: nat)
    requires x.exp == 0 && Shifting(x, m, k) && m >= Pow2(63)
    ensures Normalized(x, m, 1 - k - 1022)
  {
    hide Pow2;
    ShiftCount(x, m, k);
    ScaledShift(Fraction(x), 11 + k, 1 - k - 1022 - 64);
  }

  lemma HighBit(m: nat, k: nat)
    requires m < Pow2(k + 1)
    ensures And(m, Pow2(k)) == 0 <==> m < Pow2(k)
  {
    hide Pow2;
    AndBit(m, k);
    Pow2Add(1, k);
    Pow2Small();
    DivCompare(m, Pow2(k), 0);
    DivCompare(m, Pow2(k), 1);
    DivCompare(m, Pow2(k), 2);
    if Bit(m, k) == 1 {
      assert 1 * Pow2(k) == Pow2(k);
    } else {
      assert 0 * Pow2(k) == 0;
    }
  }

  /** One 64-bit part: mantissa and exponent, with the bias removed. */
  method Normalize64(x: Double) returns (manl: nat, exp: int)
    requires IsDouble(x) && (x.exp != 0 || Fraction(x) != 0)
    ensures Normalized(x, manl, exp)
  {
    hide Pow2, Or, And, Normalized, Shifting, Mantissa, Fraction;
    exp := x.exp;
    PackOne(x);
    manl := Or(Or(Pow2(63), Shl(x.manh, 43)), Shl(x.manl, 11));
    if exp == 0 {
      FirstShift(x);
      exp := 1;
      manl := 2 * manl % Pow2(64);
      exp := exp - 1;
      ghost var k: nat := 1;
      ShiftPositive(x, manl, k);
      HighBit(manl, 63);
      while And(manl, Pow2(63)) == 0
        invariant Shifting(x, manl, k) && exp == 1 - k && 0 < manl < Pow2(64)
        invariant And(manl, Pow2(63)) == 0 <==> manl < Pow2(63)
        decreases Pow2(64) - manl
      {
        NextShift(x, manl, k);
        manl := 2 * manl % Pow2(64);
        exp := exp - 1;
        k := k + 1;
        ShiftPositive(x, manl, k);
        HighBit(manl, 63);
      }
      DenormalCase(x, manl, k);
    } else {
      NormalCase(x);
    }
    exp := exp - 1022;
  }

  lemma ShiftPositive(x: Double, m: int, k: nat)
    requires Shifting(x, m, k)
    ensures 0 < m < Pow2(64)
  {
  }


  // The mantissa in two words ----------------------------------------------------------------

  /** The mantissa as its upper and lower 32 bits. */
  ghost predicate Halves(m: int, manh: nat, manl: nat) {
    m == manh * Pow2(32) + manl && manh < Pow2(32) && manl < Pow2(32)
  }

  /** 1 << 31 | manh << 11 | manl >> 21, and manl << 11 */
  lemma PackTwo(x: Double)
    requires IsDouble(x)
    ensures x.manl / Pow2(21) >= 0 && Shl(x.manl, 11) % Pow2(32) >= 0
    ensures Halves(Mantissa(x), Or(Or(Pow2(31), Shl(x.manh, 11)), x.manl / Pow2(21)), Shl(x.manl, 11) % Pow2(32))
  {
    hide Pow2, Or, Shl;
    LowWord(x.manl);
    HighWord(x.manh, x.manl / Pow2(21));
    Pow2Add(31, 32);
    PackAll(x.manh, x.manl, x.manl / Pow2(21), Shl(x.manl, 11) % Pow2(32), Pow2(11), Pow2(31), Pow2(32), Pow2(63));
  }

  lemma LowWord(manl: nat)
    requires manl < Pow2(32)
    ensures 0 <= manl / Pow2(21) < Pow2(11) && 0 <= Shl(manl, 11) % Pow2(32) < Pow2(32)
    ensures manl * Pow2(11) == manl / Pow2(21) * Pow2(32) + Shl(manl, 11) % Pow2(32)
  {
    hide Pow2;
    Pow2Add(21, 11);
    DivBounds(manl, Pow2(21));
    DivCompare(manl, Pow2(21), Pow2(11));
    SplitLow(manl, manl / Pow2(21), manl % Pow2(21), Pow2(21), Pow2(11), Pow2(32));
  }

  lemma HighWord(manh: nat, q: nat)
    requires manh < Pow2(20) && q < Pow2(11)
    ensures Or(Or(Pow2(31), Shl(manh, 11)), q) == Pow2(31) + manh * Pow2(11) + q < Pow2(32)
  {
    hide Pow2, Or;
    Pow2Add(20, 11);
    Pow2Add(1, 31);
    Pow2Small();
    MulMono(manh + 1, Pow2(20), Pow2(11));
    PackHigh(manh, Pow2(20), Pow2(11), Pow2(31));
    OrIsAdd(1, Shl(manh, 11), 31);
    OrIsAdd(Pow2(20) + manh, q, 11);
  }

  lemma SplitLow(ml: int, q: int, r: int, e: int, b: int, w: int)
    requires e >= 1 && b >= 1 && w == e * b && ml == q * e + r && 0 <= r < e
    ensures (ml * b) % w == r * b && ml * b == q * w + r * b && 0 <= r * b < w
  {
    MulAssoc(q, e, b);
    assert (q * e + r) * b == (q * e) * b + r * b;
    MulMono(r + 1, e, b);
    assert (r + 1) * b == r * b + b;
    MulMono(0, r, b);
    DivModUnique(ml * b, w, q, r * b);
  }

  lemma PackHigh(mh: int, c: int, b: int, top: int)
    requires top == c * b
    ensures (mh + 1) * b == mh * b + b && 1 * top + mh * b == (c + mh) * b && 1 * top == top
  {
  }

  lemma PackAll(mh: int, ml: int, q: int, low: int, b: int, top: int, w: int, top2: int)
    requires top2 == top * w && ml * b == q * w + low
    ensures top2 + (mh * w + ml) * b == (top + mh * b + q) * w + low
  {
    assert (mh * w + ml) * b == (mh * w) * b + ml * b;
    assert (mh * w) * b == (mh * b) * w by { MulAssoc(mh, w, b); MulAssoc(mh, b, w); }
    assert (top + mh * b + q) * w == top * w + (mh * b) * w + q * w;
  }

  /** Shifting both words left by one, the top bit of the lower one moving up. */
  lemma ShiftHalves(m: int, manh: nat, manl: nat)
    requires Halves(m, manh, manl)
    ensures 2 * manh % Pow2(32) >= 0 && manl / Pow2(31) >= 0 && 2 * manl % Pow2(32) >= 0
    ensures Halves(2 * m % Pow2(64), Or(2 * manh % Pow2(32), manl / Pow2(31)), 2 * manl % Pow2(32))
  {
    hide Pow2, Or;
    Pow2Add(1, 31);
    Pow2Add(32, 32);
    Pow2Small();
    var h, w := Pow2(31), Pow2(32);
    DivBounds(manl, h);
    DivCompare(manl, h, 2);
    var q, r := manl / h, manl % h;
    DivModUnique(2 * manl, w, q, 2 * r);
    DivBounds(manh, h);
    DivCompare(manh, h, 2);
    var a, b := manh / h, manh % h;
    DivModUnique(2 * manh, w, a, 2 * b);
    OrIsAdd(b, q, 1);
    assert b * Pow2(1) == 2 * b;
    ShiftSum(manh, manl, a, b, q, r, h, w);
    MulMono(2 * b + q + 1, w, w);
    assert (2 * b + q + 1) * w == (2 * b + q) * w + w;
    MulMono(0, 2 * b + q, w);
    DivModUnique(2 * m, Pow2(64), a, (2 * b + q) * w + 2 * r);
  }

  lemma ShiftSum(manh: int, manl: int, a: int, b: int, q: int, r: int, h: int, w: int)
    requires manh == a * h + b && manl == q * h + r && w == 2 * h
    ensures 2 * (manh * w + manl) == a * (w * w) + ((2 * b + q) * w + 2 * r)
  {
    assert 2 * (manh * w) == (2 * manh) * w && 2 * manh == a * w + 2 * b && 2 * manl == q * w + 2 * r;
    assert (a * w + 2 * b) * w == (a * w) * w + (2 * b) * w;
    MulAssoc(a, w, w);
    assert (2 * b + q) * w == (2 * b) * w + q * w;
  }

  /** The top bit of the upper word is the top bit of the mantissa. */
  lemma TopOfHalves(m: int, manh: nat, manl: nat)
    requires Halves(m, manh, manl)
    ensures 0 <= m < Pow2(64) && (manh < Pow2(31) <==> m < Pow2(63))
  {
    hide Pow2;
    Pow2Add(31, 32);
    Pow2Add(32, 32);
    var w := Pow2(32);
    MulMono(0, manh, w);
    MulMono(manh + 1, w, w);
    assert (manh + 1) * w == manh * w + w;
    if manh < Pow2(31) {
      MulMono(manh + 1, Pow2(31), w);
    } else {
      MulMono(Pow2(31), manh, w);
    }
  }

  /** Two 32-bit parts */
  method Normalize32(x: Double) returns (manh: nat, manl: nat, exp: int)
    requires IsDouble(x) && (x.exp != 0 || Fraction(x) != 0)
    ensures manh < Pow2(32) && manl < Pow2(32) && Normalized(x, manh * Pow2(32) + manl, exp)
  {
    hide Pow2, Or, And, Normalized, Shifting, Mantissa, Fraction, Halves, Shl;
    exp := x.exp;
    PackTwo(x);
    ghost var m := Mantissa(x);
    manh := Or(Or(Pow2(31), Shl(x.manh, 11)), x.manl / Pow2(21));
    manl := Shl(x.manl, 11) % Pow2(32);
    if exp == 0 {
      FirstShift(x);
      exp := 1;
      manh, manl := ShiftParts(manh, manl, m);
      m := 2 * m % Pow2(64);
      exp := exp - 1;
      ghost var k: nat := 1;
      ShiftPositive(x, m, k);
      HighHalf(m, manh, manl);
      while And(manh, Pow2(31)) == 0
        invariant Shifting(x, m, k) && exp == 1 - k && 0 < m < Pow2(64) && Halves(m, manh, manl)
        invariant And(manh, Pow2(31)) == 0 <==> m < Pow2(63)
        decreases Pow2(64) - m
      {
        NextShift(x, m, k);
        manh, manl := ShiftParts(manh, manl, m);
        m := 2 * m % Pow2(64);
        exp := exp - 1;
        k := k + 1;
        ShiftPositive(x, m, k);
        HighHalf(m, manh, manl);
      }
      DenormalCase(x, m, k);
    } else {
      NormalCase(x);
    }
    exp := exp - 1022;
    HalvesAre(m, manh, manl);
  }

  lemma HalvesAre(m: int, manh: nat, manl: nat)
    ensures Halves(m, manh, manl) <==> m == manh * Pow2(32) + manl && manh < Pow2(32) && manl < Pow2(32)
  {
  }

  method ShiftParts(manh0: nat, manl0: nat, ghost m0: int) returns (manh: nat, manl: nat)
    requires Halves(m0, manh0, manl0)
    ensures Halves(2 * m0 % Pow2(64), manh, manl)
  {
    hide Pow2, Or, Halves;
    ShiftHalves(m0, manh0, manl0);
    manh := Or(2 * manh0 % Pow2(32), manl0 / Pow2(31));
    manl := 2 * manl0 % Pow2(32);
  }

  lemma HighHalf(m: int, manh: nat, manl: nat)
    requires Halves(m, manh, manl)
    ensures And(manh, Pow2(31)) == 0 <==> m < Pow2(63)
  {
    hide Pow2, And;
    TopOfHalves(m, manh, manl);
    HighBit(manh, 31);
  }

  // The limbs ----------------------------------------------------------------------------------

  /** Distance in bits of the exponent to the limb boundary below, and the exponent in limbs. */
  lemma SplitExponent(exp: int, b: int)
    requires -1100 <= exp <= 1100 && (b == 32 || b == 64)
    ensures var sc := (exp + 64 * b) % b;
            var e := (exp + 64 * b) / b - 64 * b / b + 1;
            0 <= sc < b && exp == b * (e - 1) + sc && -60 <= e <= 60
  {
    if b == 32 {
      DivModUnique(64 * 32, 32, 64, 0);
    }
  }

  /** The limbs rp with exponent exp stand for the number of x. */
  ghost predicate Exact(x: Double, v: int, exp: int, b: int, limbs: int) {
    b * (exp - limbs) >= -4096 && Scaled(v, b * (exp - limbs)) == Number(x)
  }

  lemma ShiftedIsExact(x: Double, m: int, exp: int, e: int, sc: nat, b: int, limbs: int)
    requires (b == 64 && limbs == 2) || (b == 32 && limbs == 3)
    requires Normalized(x, m, exp) && exp == b * (e - 1) + sc && 0 <= sc < b && -60 <= e <= 60
    ensures sc != 0 ==> Exact(x, m * Pow2(sc), e, b, limbs)
    ensures sc == 0 ==> Exact(x, m * Pow2(b), e - 1, b, limbs)
  {
    hide Pow2, Scaled, Number;
    ScaledShift(m, sc, b * (e - limbs));
    ScaledShift(m, b, b * (e - 1 - limbs));
  }

  /** m 2^sc in two words. */
  lemma ShiftIntoTwo(m: nat, sc: nat, b: nat)
    requires m < Pow2(b) && 0 < sc < b
    ensures m / Pow2(b - sc) >= 0 && Shl(m, sc) % Pow2(b) >= 0
    ensures m * Pow2(sc) == m / Pow2(b - sc) * Pow2(b) + Shl(m, sc) % Pow2(b)
    ensures m / Pow2(b - sc) < Pow2(sc)
    ensures Shl(m, sc) % Pow2(b) == m % Pow2(b - sc) * Pow2(sc)
  {
    hide Pow2;
    var s, t := Pow2(sc), Pow2(b - sc);
    Pow2Add(b - sc, sc);
    DivBounds(m, t);
    DivCompare(m, t, s);
    assert t * s == s * t;
    SplitLow(m, m / t, m % t, t, s, Pow2(b));
  }

  /** The 64-bit build: two limbs. */
  method ExtractDouble64(rp: array<nat>, x: Double) returns (exp: int)
    requires IsDouble(x) && rp.Length == 2
    modifies rp
    ensures rp[0] < Pow2(64) && rp[1] < Pow2(64)
    ensures Exact(x, rp[1] * Pow2(64) + rp[0], exp, 64, 2)
    ensures if x.exp == 0 && x.manh == 0 && x.manl == 0 then exp == 0 && rp[..] == [0, 0] else rp[1] > 0
  {
    hide Pow2, Normalized, Number, Exact, Shl, Fraction;
    Fields(x);
    ZeroIsExact(x);
    if x.exp == 0 && x.manh == 0 && x.manl == 0 {
      rp[0], rp[1] := 0, 0;
      return 0;
    }
    var manl;
    manl, exp := Normalize64(x);
    NormalizedBounds(x, manl, exp);
    SplitExponent(exp, 64);
    ghost var exp0 := exp;
    var sc := (exp + 64 * 64) % 64;
    exp := (exp + 64 * 64) / 64 - 64 * 64 / 64 + 1;
    ShiftedIsExact(x, manl, exp0, exp, sc, 64, 2);
    if sc != 0 {
      ShiftIntoTwo(manl, sc, 64);
      Pow2Mono(sc, 64);
      TopIsThere(manl, 64, sc);
      rp[1] := manl / Pow2(64 - sc);
      rp[0] := Shl(manl, sc) % Pow2(64);
    } else {
      rp[1] := manl;
      rp[0] := 0;
      exp := exp - 1;
    }
  }

  lemma NormalizedBounds(x: Double, m: int, e: int)
    requires Normalized(x, m, e)
    ensures 0 <= m < Pow2(64) && -1100 <= e <= 1100 && m >= Pow2(63)
  {
  }

  /** The top bit of m is not shifted out. */
  lemma TopIsThere(m: nat, b: nat, sc: nat)
    requires 0 < sc < b && m >= Pow2(b - 1)
    ensures m / Pow2(b - sc) > 0
  {
    Pow2Mono(b - sc, b - 1);
    DivCompare(m, Pow2(b - sc), 1);
  }

  // What the limbs and the exponent are -------------------------------------------------------

  /** Of the numbers with the top limb in use only one is exact, with one exponent. */
  lemma ExactUnique(x: Double, v: int, exp: int, v1: int, exp1: int, b: nat, limbs: nat)
    requires limbs >= 1 && Exact(x, v, exp, b, limbs) && Exact(x, v1, exp1, b, limbs)
    requires Pow2(b * (limbs - 1)) <= v < Pow2(b * limbs) && Pow2(b * (limbs - 1)) <= v1 < Pow2(b * limbs)
    ensures b > 0 ==> v == v1 && exp == exp1
  {
    hide Pow2, Number;
    if b > 0 {
      if exp < exp1 {
        NotLower(x, v, exp, v1, exp1, b, limbs);
      } else if exp1 < exp {
        NotLower(x, v1, exp1, v, exp, b, limbs);
      } else {
        Cancel(v, v1, Pow2(b * (exp - limbs) + 4096));
      }
    }
  }

  lemma Cancel(v: int, w: int, p: int)
    requires v * p == w * p && p > 0
    ensures v == w
  {
    if v < w {
      StrictTimes(v, w, p);
    } else if w < v {
      StrictTimes(w, v, p);
    }
  }

  lemma StrictTimes(v: int, w: int, p: int)
    requires v < w && p > 0
    ensures v * p < w * p
  {
    MulMono(v + 1, w, p);
    assert (v + 1) * p == v * p + p;
  }

  lemma NotLower(x: Double, v: int, exp: int, v1: int, exp1: int, b: nat, limbs: nat)
    requires b > 0 && limbs >= 1 && exp < exp1 && Exact(x, v, exp, b, limbs) && Exact(x, v1, exp1, b, limbs)
    requires Pow2(b * (limbs - 1)) <= v1
    ensures Pow2(b * limbs) <= v
  {
    hide Pow2, Number, Scaled;
    var k, e := b * (exp1 - exp), b * (exp - limbs);
    MulMono(1, exp1 - exp, b);
    assert b * (exp1 - limbs) == e + k;
    ScaledShift(v1, k, e);
    SameScale(v, v1 * Pow2(k), e);
    Pow2Mono(b, k);
    Pow2Add(b * (limbs - 1), b);
    assert b * (limbs - 1) + b == b * limbs;
    MulMono(Pow2(b), Pow2(k), v1);
    MulMono(Pow2(b * (limbs - 1)), v1, Pow2(b));
  }

  lemma SameScale(v: int, w: int, e: int)
    requires e >= -4096 && Scaled(v, e) == Scaled(w, e)
    ensures v == w
  {
    hide Pow2;
    Cancel(v, w, Pow2(e + 4096));
  }

  /** So a nonzero double has one decomposition into two limbs of which the high one is not zero, */
  lemma TwoLimbsUnique(x: Double, r1: nat, r0: nat, exp: int, s1: nat, s0: nat, exp1: int)
    requires 0 < r1 < Pow2(64) && r0 < Pow2(64) && 0 < s1 < Pow2(64) && s0 < Pow2(64)
    requires Exact(x, r1 * Pow2(64) + r0, exp, 64, 2) && Exact(x, s1 * Pow2(64) + s0, exp1, 64, 2)
    ensures r1 == s1 && r0 == s0 && exp == exp1
  {
    hide Pow2, Exact;
    Pow2Add(64, 64);
    TopInUse(r1, r0, Pow2(64), 1, Pow2(64));
    TopInUse(s1, s0, Pow2(64), 1, Pow2(64));
    ExactUnique(x, r1 * Pow2(64) + r0, exp, s1 * Pow2(64) + s0, exp1, 64, 2);
    SameDigits(r1, r0, s1, s0, Pow2(64));
  }

  lemma SameDigits(h: int, l: int, h1: int, l1: int, w: int)
    requires 0 <= l < w && 0 <= l1 < w && h * w + l == h1 * w + l1
    ensures h == h1 && l == l1
  {
    DivModUnique(h * w + l, w, h, l);
    DivModUnique(h * w + l, w, h1, l1);
  }

  /** and one into three smaller ones. */
  lemma ThreeLimbsUnique(x: Double, r: seq<nat>, exp: int, s: seq<nat>, exp1: int)
    requires |r| == |s| == 3 && r[2] > 0 && s[2] > 0 && forall k :: 0 <= k < 3 ==> r[k] < Pow2(32) && s[k] < Pow2(32)
    requires Exact(x, (r[2] * Pow2(32) + r[1]) * Pow2(32) + r[0], exp, 32, 3)
    requires Exact(x, (s[2] * Pow2(32) + s[1]) * Pow2(32) + s[0], exp1, 32, 3)
    ensures r == s && exp == exp1
  {
    hide Pow2, Exact;
    var w := Pow2(32);
    Pow2Add(32, 32);
    Pow2Add(64, 32);
    var h, h1 := r[2] * w + r[1], s[2] * w + s[1];
    TopInUse(r[2], r[1], w, 1, w);
    TopInUse(s[2], s[1], w, 1, w);
    TopInUse(h, r[0], w, w, w * w);
    TopInUse(h1, s[0], w, w, w * w);
    ExactUnique(x, h * w + r[0], exp, h1 * w + s[0], exp1, 32, 3);
    SameDigits(h, r[0], h1, s[0], w);
    SameDigits(r[2], r[1], s[2], s[1], w);
  }

  lemma TopInUse(h: int, l: int, w: int, low: int, high: int)
    requires 0 <= low <= h < high && 0 <= l < w
    ensures low * w <= h * w + l < high * w
  {
    MulMono(low, h, w);
    MulMono(h + 1, high, w);
    assert (h + 1) * w == h * w + w;
  }

  lemma ZeroIsExact(x: Double)
    ensures Fraction(x) == 0 && x.exp == 0 ==> Exact(x, 0 * Pow2(64) + 0, 0, 64, 2)
    ensures Fraction(x) == 0 && x.exp == 0 ==> Exact(x, (0 * Pow2(32) + 0) * Pow2(32) + 0, 0, 32, 3)
  {
  }

  /** m 2^sc in three words, m being given as two. */
  lemma ShiftIntoThree(m: int, manh: nat, manl: nat, sc: nat)
    requires Halves(m, manh, manl) && 0 < sc < 32
    ensures manh / Pow2(32 - sc) >= 0 && manl / Pow2(32 - sc) >= 0
    ensures Shl(manh, sc) % Pow2(32) >= 0 && Shl(manl, sc) % Pow2(32) >= 0
    ensures var r1 := Or(Shl(manh, sc) % Pow2(32), manl / Pow2(32 - sc));
            && manh / Pow2(32 - sc) < Pow2(32) && r1 < Pow2(32)
            && m * Pow2(sc) == (manh / Pow2(32 - sc) * Pow2(32) + r1) * Pow2(32) + Shl(manl, sc) % Pow2(32)
  {
    hide Pow2, Or, Shl;
    ShiftIntoTwo(manh, sc, 32);
    ShiftIntoTwo(manl, sc, 32);
    Pow2Mono(sc, 32);
    var w, s, t := Pow2(32), Pow2(sc), Pow2(32 - sc);
    DivBounds(manh, t);
    OrIsAdd(manh % t, manl / t, sc);
    Pow2Add(32 - sc, sc);
    MulMono(manh % t + 1, t, s);
    assert (manh % t + 1) * s == manh % t * s + s;
    ThreeSum(manh, manl, manh / t, Shl(manh, sc) % w, manl / t, Shl(manl, sc) % w, s, w);
  }

  lemma ThreeSum(manh: int, manl: int, a: int, b: int, c: int, d: int, s: int, w: int)
    requires manh * s == a * w + b && manl * s == c * w + d
    ensures (manh * w + manl) * s == (a * w + (b + c)) * w + d
  {
    assert (manh * w + manl) * s == (manh * w) * s + manl * s;
    assert (manh * w) * s == (manh * s) * w by { MulAssoc(manh, w, s); MulAssoc(manh, s, w); }
    assert (a * w + b) * w + c * w == (a * w + (b + c)) * w;
  }

  /** The 32-bit build: three limbs. */
  method ExtractDouble32(rp: array<nat>, x: Double) returns (exp: int)
    requires IsDouble(x) && rp.Length == 3
    modifies rp
    ensures rp[0] < Pow2(32) && rp[1] < Pow2(32) && rp[2] < Pow2(32)
    ensures Exact(x, (rp[2] * Pow2(32) + rp[1]) * Pow2(32) + rp[0], exp, 32, 3)
    ensures if x.exp == 0 && x.manh == 0 && x.manl == 0 then exp == 0 && rp[..] == [0, 0, 0] else rp[2] > 0
  {
    hide Pow2, Or, Normalized, Number, Exact, Shl, Fraction, Halves;
    Fields(x);
    ZeroIsExact(x);
    if x.exp == 0 && x.manh == 0 && x.manl == 0 {
      rp[0], rp[1], rp[2] := 0, 0, 0;
      return 0;
    }
    var manh, manl;
    manh, manl, exp := Normalize32(x);
    ghost var m := manh * Pow2(32) + manl;
    HalvesAre(m, manh, manl);
    TopOfHalves(m, manh, manl);
    NormalizedBounds(x, m, exp);
    SplitExponent(exp, 32);
    ghost var exp0 := exp;
    var sc := (exp + 64 * 32) % 32;
    exp := (exp + 64 * 32) / 32 - 64 * 32 / 32 + 1;
    ShiftedIsExact(x, m, exp0, exp, sc, 32, 3);
    if sc != 0 {
      ShiftIntoThree(m, manh, manl, sc);
      TopIsThere(manh, 32, sc);
      rp[2] := manh / Pow2(32 - sc);
      rp[1] := Or(Shl(manh, sc) % Pow2(32), manl / Pow2(32 - sc));
      rp[0] := Shl(manl, sc) % Pow2(32);
    } else {
      WholeHalves(m, manh, manl);
      rp[2] := manh;
      rp[1] := manl;
      rp[0] := 0;
      exp := exp - 1;
    }
  }

  lemma WholeHalves(m: int, manh: nat, manl: nat)
    requires Halves(m, manh, manl)
    ensures manh < Pow2(32) && manl < Pow2(32) && m * Pow2(32) == (manh * Pow2(32) + manl) * Pow2(32) + 0
  {
  }
}
