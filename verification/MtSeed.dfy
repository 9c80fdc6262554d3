/** The seeding of the Mersenne Twister in randmts.c. */
module MtSeed {
  import opened Arith
  import opened Bits
  import opened Limbs
  import opened MpzArith
  import opened MpzBits
  import opened MpzDiv
  import opened Mt

  // Powering with partial reduction --------------------------------------------------------

  /** Folding the part above 2^n down, with weight k, lowers r by hi (2^n - k). */
  lemma Fold(r: int, p: int, k: int)
    requires r >= p && 0 < k < p
    ensures 0 <= r / p && 0 <= r % p
    ensures 0 <= r % p + r / p * k < r
    ensures Cong(r % p + r / p * k, r, p - k)
  {
    var hi, lo := r / p, r % p;
    assert r == hi * p + lo;
    DivCompare(r, p, 1);
    MulMono(1, hi, p - k);
    MulMono(0, hi, k);
    assert hi * (p - k) == hi * p - hi * k;
    CongFrom(r, lo + hi * k, p - k, hi);
  }

  /** reduce: fold until r is below 2^n. */
  method Reduce(r: Mpz, t: Mpz, n: nat, k: nat)
    requires r.Valid() && t.Valid() && r != t && r.d != t.d
    requires r.Value() >= 0 && 0 < k < Pow2(n) && k < Base() * Base()
    modifies r, r.d, t, t.d
    ensures r.Valid() && t.Valid() && Owned(r) && Owned(t) && r.d != t.d
    ensures 0 <= r.Value() < Pow2(n)
    ensures Cong(r.Value(), old(r.Value()), Pow2(n) - k)
  {
    hide Mpz.Valid, Mpz.Value, Pow2, Cong;
    ghost var r0 := r.Value();
    CongRefl(r0, Pow2(n) - k);
    while true
      invariant r.Valid() && t.Valid() && Owned(r) && Owned(t) && r.d != t.d
      invariant r.Value() >= 0 && Cong(r.Value(), r0, Pow2(n) - k)
      decreases r.Value()
    {
      ghost var v := r.Value();
      TdivQ2exp(t, r, n);
      QuotientZero(v, Pow2(n));
      var s := Sgn(t);
      if s == 0 {
        break;
      }
      Fold(v, Pow2(n), k);
      TdivR2exp(r, r, n);
      AddmulUi(r, t, k);
      CongTrans(r.Value(), v, r0, Pow2(n) - k);
    }
  }

  lemma CongRefl(a: int, m: int)
    requires m > 0
    ensures Cong(a, a, m)
  {
  }

  lemma CongTrans(a: int, b: int, c: int, m: int)
    requires m > 0 && Cong(a, b, m) && Cong(b, c, m)
    ensures Cong(a, c, m)
  {
  }

  lemma QuotientZero(v: int, p: int)
    requires v >= 0 && p >= 1
    ensures v / p >= 0 && (v / p == 0 <==> v < p)
  {
    DivCompare(v, p, 0);
    DivCompare(v, p, 1);
  }

  /** The exponent e with the bits from t on already used: only the lower ones still count. */
  lemma NextExponent(e: nat, e0: nat, t: nat)
    requires e % Pow2(t + 1) == e0 % Pow2(t + 1)
    ensures Bit(e, t) == Bit(e0, t) && e % Pow2(t) == e0 % Pow2(t)
    ensures e0 / Pow2(t) == 2 * (e0 / Pow2(t + 1)) + Bit(e0, t)
  {
    hide Pow2;
    NextPow2(t);
    SplitTop(e, Pow2(t));
    SplitTop(e0, Pow2(t));
  }

  lemma SplitTop(e: int, p: int)
    requires e >= 0 && p >= 1
    ensures var x := e % (2 * p);
            e % p == x % p && e / p % 2 == x / p && e / p == 2 * (e / (2 * p)) + x / p
  {
    var q, x := e / (2 * p), e % (2 * p);
    assert e == q * (2 * p) + x;
    assert q * (2 * p) == (2 * q) * p;
    ModAddMul(x, 2 * q, p);
    DivCompare(x, p, 0);
    DivCompare(x, p, 2);
  }

  lemma ClearBit(e: nat, t: nat)
    requires Bit(e, t) == 1
    ensures e >= Pow2(t) && Bit(e - Pow2(t), t) == 0
    ensures (e - Pow2(t)) % Pow2(t) == e % Pow2(t)
  {
    hide Pow2;
    var p := Pow2(t);
    assert e / p >= 1 by { QuotientZero(e, p); }
    DivCompare(e, p, 1);
    ModAddMul(e - p, 1, p);
  }

  lemma ClearedWord(e: nat, t: nat)
    ensures And(e, Pow2(t)) != 0 <==> Bit(e, t) == 1
  {
    AndBit(e, t);
    if Bit(e, t) == 0 {
      assert 0 * Pow2(t) == 0;
    } else {
      assert 1 * Pow2(t) == Pow2(t);
    }
  }

  lemma SquarePower(r: int, b: int, x: nat, m: int)
    requires m > 0 && Cong(r, Pow(b, x), m)
    ensures Cong(r * r, Pow(b, 2 * x), m)
  {
    CongMul(r, Pow(b, x), r, Pow(b, x), m);
    PowAdd(b, x, x);
  }

  lemma TimesPower(r: int, b: int, x: nat, m: int)
    requires m > 0 && Cong(r, Pow(b, x), m)
    ensures Cong(r * b, Pow(b, x + 1), m)
  {
    CongMul(r, Pow(b, x), b, b, m);
    assert Pow(b, x + 1) == b * Pow(b, x);
  }

  /** The two halves of one pass: reduce, and multiply by b if the bit is set. */
  method ReduceAndMultiply(r: Mpz, t: Mpz, b: Mpz, n: nat, k: nat, e0: nat, bit: nat, ghost j: nat, ghost x: nat)
      returns (e: nat)
    requires r.Valid() && t.Valid() && b.Valid() && Separate(r, t, b)
    requires r.Value() >= 0 && b.Value() >= 0 && 0 < k < Pow2(n) && k < Base() * Base()
    requires bit == Pow2(j) && Cong(r.Value(), Pow(b.Value(), x), Pow2(n) - k)
    modifies r, r.d, t, t.d
    ensures r.Valid() && t.Valid() && Owned(r) && Owned(t) && Separate(r, t, b)
    ensures b.Valid() && b.Value() == old(b.Value())
    ensures 0 <= r.Value() < Pow2(n)
    ensures Cong(r.Value(), Pow(b.Value(), x + Bit(e0, j)), Pow2(n) - k)
    ensures e % Pow2(j) == e0 % Pow2(j)
  {
    hide Mpz.Valid, Mpz.Value, Pow2, Pow, Cong, Bit, And;
    e := e0;
    ghost var y := x;
    ghost var m := Pow2(n) - k;
    ghost var bv := b.Value();
    while true
      invariant r.Valid() && t.Valid() && Owned(r) && Owned(t) && Separate(r, t, b)
      invariant b.Valid() && b.Value() == bv && r.Value() >= 0
      invariant e % Pow2(j) == e0 % Pow2(j) && y + Bit(e, j) == x + Bit(e0, j)
      invariant Cong(r.Value(), Pow(bv, y), m)
      decreases Bit(e, j)
    {
      ghost var v := r.Value();
      Reduce(r, t, n, k);
      CongTrans(r.Value(), v, Pow(bv, y), m);
      ClearedWord(e, j);
      if And(e, bit) == 0 {
        break;
      }
      ClearBit(e, j);
      e := e - bit;
      TimesPower(r.Value(), bv, y, m);
      MulMono(0, r.Value(), bv);
      Mul(r, r, b);
      y := y + 1;
    }
  }

  /** mangle_seed for any modulus 2^n - k and any exponent whose top bit is 2 bit0:
      r = b^e modulo 2^n - k, partially reduced. */
  method MangleSeed(r: Mpz, bOrig: Mpz, n: nat, k: nat, e0: nat, bit0: nat, ghost j0: nat)
    requires r.Valid() && bOrig.Valid() && Apart(r, bOrig) && bOrig.Value() >= 0
    requires 0 < k < Pow2(n) && k < Base() * Base()
    requires bit0 == Pow2(j0) && 2 * bit0 <= e0 < 4 * bit0
    modifies r, r.d
    ensures r.Valid() && Owned(r)
    ensures 0 <= r.Value() < Pow2(n)
    ensures Cong(r.Value(), Pow(old(bOrig.Value()), e0), Pow2(n) - k)
  {
    hide Mpz.Valid, Mpz.Value, Pow2, Pow, Cong, Bit;
    ghost var bv := bOrig.Value();
    ghost var m := Pow2(n) - k;
    var t := new Mpz();
    var b := InitSet(bOrig);
    Set(r, b);
    var e: nat, bit: nat := e0, bit0;
    ghost var j: int := j0;
    StartExponent(bv, e0, j0, m);
    while true
      invariant r.Valid() && t.Valid() && b.Valid() && Separate(r, t, b) && Owned(r)
      invariant fresh(t) && fresh(t.d) && fresh(b) && fresh(b.d)
      invariant r.Value() >= 0 && b.Value() == bv
      invariant j >= 0 && bit == Pow2(j) && e % Pow2(j + 1) == e0 % Pow2(j + 1)
      invariant e0 / Pow2(j + 1) >= 0 && Cong(r.Value(), Pow(bv, e0 / Pow2(j + 1)), m)
      decreases j
    {
      ghost var x := e0 / Pow2(j + 1);
      SquarePower(r.Value(), bv, x, m);
      MulMono(0, r.Value(), r.Value());
      NextExponent(e, e0, j);
      Mul(r, r, r);
      e := ReduceAndMultiply(r, t, b, n, k, e, bit, j, 2 * x);
      HalfBit(j);
      bit := bit / 2;
      if bit == 0 {
        LastExponent(e0);
        break;
      }
      j := j - 1;
    }
  }

  lemma StartExponent(b: int, e0: nat, j0: nat, m: int)
    requires m > 0 && 2 * Pow2(j0) <= e0 < 4 * Pow2(j0)
    ensures e0 / Pow2(j0 + 1) == 1 && Pow(b, 1) == b && Cong(b, Pow(b, 1), m)
  {
    var p := Pow2(j0 + 1);
    DivModUnique(e0, p, 1, e0 - p);
    assert Pow(b, 1) == b * Pow(b, 0);
  }

  lemma HalfBit(j: nat)
    ensures j == 0 ==> Pow2(j) / 2 == 0
    ensures j > 0 ==> Pow2(j) / 2 == Pow2(j - 1) >= 1
  {
  }

  lemma LastExponent(e0: nat)
    ensures e0 / Pow2(0) == e0
  {
  }


  // Reduction of the seed --------------------------------------------------------------

  /** mpz_tdiv_r of the absolute value, and its sign */
  method AbsRemainder(r: Mpz, a: Mpz, m: Mpz) returns (negative: int)
    requires r.Valid() && a.Valid() && m.Valid() && m.Value() > 0
    requires Apart(r, a) && r != m && r.d != m.d
    modifies r, r.d
    ensures r.Valid() && Owned(r) && m.Valid() && m.Value() == old(m.Value())
    ensures var av := old(a.Value());
            (negative < 0 <==> av < 0) && r.Value() == DivR(if av < 0 then -av else av, m.Value())
  {
    hide Mpz.Valid, Mpz.Value, DivQ, DivR, Base, Mpz.Mag;
    negative := Sgn(a);
    var n := InitSet(a);
    if negative < 0 {
      ChangeSign(n);
    }
    var q := new Mpz();
    TdivQR(q, r, n, m);
  }

  /** mpz_mod: the remainder that is not negative. */
  method MpzMod(r: Mpz, a: Mpz, m: Mpz)
    requires r.Valid() && a.Valid() && m.Valid() && m.Value() > 0
    requires Apart(r, a) && r != m && r.d != m.d
    modifies r, r.d
    ensures r.Valid() && Owned(r) && r.Value() == old(a.Value()) % m.Value()
    ensures m.Valid() && m.Value() == old(m.Value())
  {
    hide Mpz.Valid, Mpz.Value, DivQ, DivR, Base, Mpz.Mag;
    BaseSquare();
    ghost var av, mv := a.Value(), m.Value();
    var negative := AbsRemainder(r, a, m);
    DivModUnique(mv, mv, 1, 0);
    NegativeMod(av, mv);
    RemainderRange(if av < 0 then -av else av, mv);
    var c := Cmp(r, m);
    if c == 0 {
      SetUi(r, 0);
    }
    var z := Sgn(r);
    if negative < 0 && z != 0 {
      SubLess(r, m, r);
    }
  }

  lemma RemainderRange(a: int, m: int)
    requires a >= 0 && m > 0
    ensures 0 <= a % m < m && DivR(a, m) == if a == m then m else a % m
  {
  }

  // The buffer from a number -------------------------------------------------------------

  /** The value of an object that fits in an unsigned word. */
  method GetUi(a: Mpz) returns (u: nat)
    requires a.Valid() && 0 <= a.Value() < Base() * Base()
    ensures u == a.Value()
  {
    hide Val, Normal, AreLimbs, Base, BPow;
    ghost var s := a.Mag();
    SignBySize(s);
    TwoAtMost(s);
    if a.size == 0 {
      u := 0;
    } else if a.size == 1 {
      u := a.d[0];
    } else {
      u := a.d[0] + Base() * a.d[1];
    }
  }

  lemma TwoAtMost(s: seq<nat>)
    requires AreLimbs(s) && Normal(s) && Val(s) < Base() * Base()
    ensures |s| <= 2
    ensures s == [] ==> Val(s) == 0
    ensures |s| == 1 ==> Val(s) == s[0]
    ensures |s| == 2 ==> Val(s) == s[0] + Base() * s[1]
  {
    hide AreLimbs;
    BPowSucc(0);
    BPowSucc(1);
    if |s| >= 3 {
      NormalLow(s);
      BPowMono(2, |s| - 1);
    } else if |s| == 2 {
      assert s == [s[0], s[1]];
      TwoLimbs(s[0], s[1]);
    }
  }

  lemma WordFits()
    ensures Pow2(32) <= Base() * Base()
  {
    hide Pow2;
    BaseIsPow2();
    Pow2Add(GMP_LIMB_BITS, GMP_LIMB_BITS);
    Pow2Mono(32, GMP_LIMB_BITS + GMP_LIMB_BITS);
  }

  /** The words already taken and the rest make up v. */
  ghost predicate Exporting(v: int, d: seq<nat>, rest: int, n: nat) {
    && |d| <= n && 0 <= rest < Pow2(32 * (n - |d|))
    && v == LimbsValue(d, 32) + rest * Pow2(32 * |d|)
  }

  lemma ExportStart(v: int, n: nat)
    requires 0 <= v < Pow2(32 * n)
    ensures Exporting(v, [], v, n)
  {
    hide Pow2;
    Pow2Small();
  }

  lemma ExportStep(v: int, d: seq<nat>, rest: int, n: nat)
    requires Exporting(v, d, rest, n) && rest > 0
    ensures |d| < n && 0 <= rest % Pow2(32) < 0x1_0000_0000
    ensures Exporting(v, d + [rest % Pow2(32)], rest / Pow2(32), n)
  {
    hide Pow2, LimbsValue;
    Pow2Small();
    TwoTo32();
    assert |d| < n;
    var k := |d|;
    var x, y := rest % Pow2(32), rest / Pow2(32);
    LimbsValueSnoc(d, x, 32);
    Pow2Add(32, 32 * k);
    Pow2Add(32 * (n - k - 1), 32);
    DivCompare(rest, Pow2(32), Pow2(32 * (n - k - 1)));
    DivCompare(rest, Pow2(32), 0);
    MoveDigit(rest, x, y, Pow2(32), Pow2(32 * k));
  }

  lemma MoveDigit(rest: int, x: int, y: int, b: int, p: int)
    requires rest == y * b + x
    ensures rest * p == x * p + y * (b * p)
  {
    MulAssoc(y, b, p);
    assert (y * b + x) * p == (y * b) * p + x * p;
  }

  lemma ExportZero(v: int, d: seq<nat>, n: nat)
    requires Exporting(v, d, 0, n) && |d| < n
    ensures Exporting(v, d + [0], 0, n)
  {
    hide Pow2;
    LimbsValueSnoc(d, 0, 32);
  }

  lemma ExportEnd(v: int, d: seq<nat>, n: nat)
    requires Exporting(v, d, 0, n)
    ensures LimbsValue(d, 32) == v
  {
  }

  /** mpz_export of the value into the words of mt from 1 on, and zeros behind it. */
  method Export(mt: array<Word>, v: Mpz)
    requires mt.Length == N && v.Valid() && 0 <= v.Value() < Pow2(32 * (N - 1)) && v.d as object != mt as object
    modifies mt
    ensures mt[0] == old(mt[0]) && LimbsValue(mt[1..], 32) == old(v.Value())
  {
    hide Mpz.Valid, Mpz.Value, Pow2, LimbsValue, Exporting;
    WordFits();
    ghost var x := v.Value();
    var rest := InitSet(v);
    var low := new Mpz();
    var cnt: nat := 1;
    ExportStart(x, N - 1);
    assert mt[1..cnt] == [];
    while true
      invariant rest.Valid() && low.Valid() && rest != low && rest.d != low.d
      invariant fresh(rest) && fresh(rest.d) && fresh(low) && fresh(low.d)
      invariant 1 <= cnt <= N && mt[0] == old(mt[0])
      invariant Exporting(x, mt[1..cnt], rest.Value(), N - 1) && rest.Value() >= 0
      decreases rest.Value()
    {
      ghost var r, d := rest.Value(), mt[1..cnt];
      var s := Sgn(rest);
      if s == 0 {
        break;
      }
      ExportStep(x, d, r, N - 1);
      Shrinks(r);
      TdivR2exp(low, rest, 32);
      var word := GetUi(low);
      TdivQ2exp(rest, rest, 32);
      mt[cnt] := word;
      cnt := cnt + 1;
      assert mt[1..cnt] == d + [word];
    }
    while cnt < N
      invariant 1 <= cnt <= N && mt[0] == old(mt[0])
      invariant Exporting(x, mt[1..cnt], 0, N - 1)
      decreases N - cnt
    {
      ghost var d := mt[1..cnt];
      ExportZero(x, d, N - 1);
      mt[cnt] := 0;
      cnt := cnt + 1;
      assert mt[1..cnt] == d + [0];
    }
    assert mt[1..cnt] == mt[1..];
    ExportEnd(x, mt[1..], N - 1);
  }

  lemma Shrinks(r: int)
    requires r > 0
    ensures 0 <= r / Pow2(32) < r
    ensures 0 <= r % Pow2(32) < Pow2(32)
  {
    hide Pow2;
    TwoTo32();
  }

  // randseed_mt --------------------------------------------------------------------------

  const BITS: nat := 19937

  /** The number that a freshly seeded buffer holds. */
  function BufferValue(s: seq<Word>): nat
    requires |s| == N
  {
    LimbsValue(s[1..], 32) + (if s[0] == 0 then 0 else Pow2(BITS - 1))
  }

  /** seed mod (2^19937 - 20027) + 2 */
  function Seed1(seed: int): (r: int)
    requires Pow2(BITS) > 20027
    ensures 2 <= r <= Pow2(BITS) - 20026 && Cong(r - 2, seed, Pow2(BITS) - 20027)
  {
    hide Pow2;
    ModOnce(seed, Pow2(BITS) - 20027);
    seed % (Pow2(BITS) - 20027) + 2
  }

  lemma ModOnce(a: int, m: int)
    requires m > 0
    ensures Cong(a % m, a, m)
  {
    DivModUnique(a % m, m, 0, a % m);
  }

  /** Seeds that differ by a multiple of 2^19937 - 20027 give the same number, and no others do. */
  lemma SeedsAlikeIff(y: int, z: int)
    requires Pow2(BITS) > 20027
    ensures Seed1(y) == Seed1(z) <==> Cong(y, z, Pow2(BITS) - 20027)
  {
    hide Pow2;
  }

  lemma BigEnough()
    ensures Pow2(BITS) > 0x10000 && Pow2(29) == 0x20000000 && BITS - 1 == 32 * (N - 1)
  {
    hide Pow2;
    TwoTo32();
    Pow2Mono(32, BITS);
    Pow2Add(29, 3);
    Pow2Three();
  }

  lemma Pow2Three()
    ensures Pow2(3) == 8
  {
  }

  /** Taking the top bit of a number of n + 1 bits off. */
  lemma TopBit(v: nat, n: nat)
    requires v < Pow2(n + 1)
    ensures 0 <= v % Pow2(n) < Pow2(n) && v == v % Pow2(n) + (if Bit(v, n) == 0 then 0 else Pow2(n))
  {
    hide Pow2;
    BitSplits(v, n);
    DivModUnique(v, Pow2(n + 1), 0, v);
    if Bit(v, n) == 0 {
      assert 0 * Pow2(n) == 0;
    } else {
      assert 1 * Pow2(n) == Pow2(n);
    }
  }

  /** The first part of randseed_mt: the number behind the buffer. */
  method SeedNumber(seed: Mpz) returns (seed1: Mpz)
    requires seed.Valid() && Pow2(BITS) > 0x10000
    ensures BITS == 19937 && fresh(seed1) && fresh(seed1.d) && seed1.Valid() && 0 <= seed1.Value() < Pow2(BITS)
    ensures Cong(seed1.Value(), Pow(Seed1(seed.Value()), 0x40118124), Pow2(BITS) - 20023)
  {
    hide Mpz.Valid, Mpz.Value, Pow2, Bit, Cong, Pow;
    BigEnough();
    WordFits();
    TwoTo32();
    var mod := InitSetUi(0);
    seed1 := new Mpz();
    NoBit(BITS);
    SetBit(mod, BITS);
    SubUi(mod, mod, 20027);
    MpzMod(seed1, seed, mod);
    AddUi(seed1, seed1, 2);
    MangleSeed(seed1, seed1, BITS, 20023, 0x40118124, 0x20000000, 29);
  }

  /** The second part of randseed_mt: the buffer, before it is warmed up. */
  method FillBuffer(mt: array<Word>, seed1: Mpz)
    requires mt.Length == N && seed1.Valid() && 0 <= seed1.Value() < Pow2(BITS) && seed1.d as object != mt as object
    requires mt as object != seed1 as object
    modifies mt, seed1, seed1.d
    ensures BufferValue(mt[..]) == old(seed1.Value())
    ensures mt[0] == 0 || mt[0] == 0x80000000
  {
    hide Mpz.Valid, Mpz.Value, Pow2, Bit, LimbsValue;
    BigEnough();
    TopBit(seed1.Value(), BITS - 1);
    var b := TstBit(seed1, BITS - 1);
    mt[0] := if b != 0 then 0x80000000 else 0;
    TdivR2exp(seed1, seed1, BITS - 1);           // mpz_clrbit of the top bit
    Export(mt, seed1);
    assert mt[..][1..] == mt[1..];
  }

  const WARM_UP: nat := 2000

  /** The warm-up: the buffer moves on by WARM_UP / N windows. */
  method WarmUp(mt: array<Word>)
    requires mt.Length == N
    modifies mt
    ensures mt[..] == Window(old(mt[..]), 3 * N)
  {
    hide Window, Term;
    ghost var s := mt[..];
    ghost var k: nat := 0;
    WindowFirst(s);
    for i := 0 to WARM_UP / N
      invariant k == i * N && mt[..] == Window(s, k)
    {
      RecalcBuffer(mt);
      WindowOfWindow(s, k, N);
      k := k + N;
    }
  }

  /** randseed_mt: the buffer holds seed1^1074888996 modulo 2^19937 - 20023, 19937 bits in all,
      and the next word is number 2000 of its sequence. */
  method RandSeedMt(state: MtState, seed: Mpz) returns (ghost s: seq<Word>)
    requires state.mt.Length == N && seed.Valid() && seed.d as object != state.mt as object
    requires seed as object != state as object
    modifies state, state.mt
    ensures state.Valid() && |s| == 624 && state.Upcoming() == Window(s, 2000)
    ensures BITS == 19937 && Pow2(BITS) > 20027 && BufferValue(s) < Pow2(BITS) && (s[0] == 0 || s[0] == 0x80000000)
    ensures Cong(BufferValue(s), Pow(Seed1(old(seed.Value())), 0x40118124), Pow2(BITS) - 20023)
  {
    hide Mpz.Valid, Mpz.Value, Pow2, Bit, Cong, Pow, BufferValue, Window, Seed1, Term;
    BigEnough();
    var seed1 := SeedNumber(seed);
    FillBuffer(state.mt, seed1);
    s := state.mt[..];
    WarmUp(state.mt);
    state.mti := WARM_UP % N;
    WindowOfWindow(s, 3 * N, WARM_UP % N);
  }
}
