/** The linear congruential generator of randlc2x.c and the schemes of randlc2s.c. */
module Lc {
  import opened Arith
  import opened Bits
  import opened Limbs
  import opened Dumbmp
  import opened MpzArith
  import opened MpzBits
  import opened Lcg

  /** BITS_TO_LIMBS */
  function BitsToLimbs(n: nat): (k: nat)
    ensures k * GMP_LIMB_BITS >= n && (k > 0 ==> (k - 1) * GMP_LIMB_BITS < n)
  {
    LimbsFor(n, GMP_LIMB_BITS);
    (n + GMP_LIMB_BITS - 1) / GMP_LIMB_BITS
  }

  lemma LimbsFor(n: int, N: int)
    requires n >= 0 && N >= 1
    ensures var k := (n + N - 1) / N; k >= 0 && k * N >= n && (k - 1) * N < n
  {
    var k := (n + N - 1) / N;
    assert n + N - 1 == k * N + (n + N - 1) % N;
    DivCompare(n + N - 1, N, 0);
    assert (k - 1) * N == k * N - N;
  }

  /** The number of limbs is determined by its bounds. */
  lemma LimbCount(k: int, j: int, N: int, n: int)
    requires N >= 1 && k * N >= n && (k - 1) * N < n && j * N >= n && (j - 1) * N < n
    ensures k == j
  {
    if k < j { MulMono(k, j - 1, N); }
    if j < k { MulMono(j, k - 1, N); }
  }

  lemma LimbsUnique(n: nat, k: nat)
    requires k * GMP_LIMB_BITS >= n && (k > 0 ==> (k - 1) * GMP_LIMB_BITS < n)
    ensures BitsToLimbs(n) == k
  {
    var j := BitsToLimbs(n);
    if k > 0 && j > 0 {
      LimbCount(k, j, GMP_LIMB_BITS, n);
    } else if k > 0 {
      MulMono(0, k - 1, GMP_LIMB_BITS);
    } else if j > 0 {
      MulMono(0, j - 1, GMP_LIMB_BITS);
    }
  }

  // The pieces of one step -------------------------------------------------------------

  /** __GMPN_ADD of the one-limb addend, the carry being dropped by the caller. */
  method AddAddend(tp: array<nat>, tn: nat, c: nat) returns (cy: nat)
    requires 1 <= tn <= tp.Length && AreLimbs(tp[..tn]) && c < Base()
    modifies tp
    ensures AreLimbs(tp[..tn]) && cy <= 1
    ensures Val(tp[..tn]) + cy * BPow(tn) == old(Val(tp[..tn])) + c
  {
    hide Val, AreLimbs, BPow;
    ghost var s := tp[..tn];
    var cp := new nat[1] [c];
    OneLimb(c);
    assert cp[..1] == [c];
    LimbsPrefix(s, 1);
    assert s[..1] == tp[..1];
    cy := AddLow(tp, tp, cp, 1);
    cy := AddHigh(tp, tp, 1, tn, cy, s, c);
  }

  lemma OneLimb(c: nat)
    requires c < Base()
    ensures AreLimbs([c]) && Val([c]) == c
  {
    assert Val([]) == 0;
    assert [c][1..] == [];
  }

  /** Where the mask of modulus 2^m2exp falls. */
  lemma MaskIndex(m2exp: nat, tn: nat)
    requires m2exp >= 1 && tn == BitsToLimbs(m2exp)
    ensures var l := m2exp / GMP_LIMB_BITS; var k := m2exp % GMP_LIMB_BITS;
            && tn >= 1 && 0 <= k < GMP_LIMB_BITS
            && (k != 0 ==> l == tn - 1) && (k == 0 ==> l == tn && Pow2(m2exp) == BPow(tn))
  {
    hide Pow2, BPow, BitsToLimbs;
    var N := GMP_LIMB_BITS;
    var l, k := m2exp / N, m2exp % N;
    LimbPosition(m2exp, N, l, k);
    if k == 0 {
      LimbsUnique(m2exp, l);
      BPowIsPow2(tn);
      assert N * tn == tn * N;
    } else {
      LimbsUnique(m2exp, l + 1);
    }
  }

  lemma LimbPosition(n: int, N: int, l: int, k: int)
    requires n >= 1 && N >= 1 && l == n / N && k == n % N
    ensures l >= 0 && 0 <= k < N && n == l * N + k
    ensures k == 0 ==> l >= 1 && l * N == n && (l - 1) * N < n
    ensures k != 0 ==> (l + 1) * N >= n && l * N < n
  {
    DivCompare(n, N, 0);
    assert n == l * N + k;
    assert (l - 1) * N == l * N - N && (l + 1) * N == l * N + N;
    if k == 0 {
      PositiveFactor(l, N);
    }
  }

  /** t = t % m: the mask, which falls just above the tn limbs when m2exp fills them. */
  method MaskTop(tp: array<nat>, tn: nat, m2exp: nat)
    requires m2exp >= 1 && tn == BitsToLimbs(m2exp) && tn < tp.Length && AreLimbs(tp[..tn])
    modifies tp
    ensures AreLimbs(tp[..tn]) && Val(tp[..tn]) == old(Val(tp[..tn])) % Pow2(m2exp)
  {
    hide Val, AreLimbs, BPow, And, Pow2;
    ghost var s := tp[..tn];
    MaskIndex(m2exp, tn);
    var l := m2exp / GMP_LIMB_BITS;
    tp[l] := And(tp[l], Ones(m2exp % GMP_LIMB_BITS));
    if l == tn {
      ValBound(s);
      DivModUnique(Val(s), Pow2(m2exp), 0, Val(s));
      assert tp[..tn] == s;
    } else {
      MaskedValue(s, m2exp);
      MaskedLimbs(s, l, m2exp % GMP_LIMB_BITS);
      assert tp[..tn] == s[..l] + [And(s[l], Ones(m2exp % GMP_LIMB_BITS))];
    }
  }

  lemma HighZero(s: seq<nat>, i: nat)
    requires AreLimbs(s) && i <= |s| && Val(s) < BPow(i)
    ensures AreLimbs(s[..i]) && Val(s[..i]) == Val(s)
  {
    hide Val, BPow, AreLimbs;
    SplitLimbs(s, i);
    LimbsPrefix(s, i);
    if Val(s[i..]) >= 1 {
      MulMono(1, Val(s[i..]), BPow(i));
    }
  }

  /** Sizes of the kept part: xn whole limbs and cnt bits go. */
  lemma KeptSize(m2exp: nat, tn: nat)
    requires m2exp >= 1 && tn == BitsToLimbs(m2exp)
    ensures var bits := m2exp / 2; var xn := bits / GMP_LIMB_BITS; var cnt := bits % GMP_LIMB_BITS;
            var rn := BitsToLimbs((m2exp + 1) / 2);
            && 0 <= xn < tn && 0 <= cnt < GMP_LIMB_BITS
            && (cnt != 0 ==> rn == xn + 1 && xn + 1 <= tn - xn) && (cnt == 0 ==> rn == tn - xn)
  {
    var N := GMP_LIMB_BITS;
    var bits := m2exp / 2;
    var xn, cnt := bits / N, bits % N;
    assert bits == xn * N + cnt;
    DivCompare(bits, N, 0);
    SizeSplit(m2exp, tn, xn, cnt, N);
    if cnt != 0 {
      assert (xn + 1) * N == xn * N + N;
      LimbsUnique((m2exp + 1) / 2, xn + 1);
    } else {
      LimbsUnique((m2exp + 1) / 2, tn - xn);
    }
  }

  lemma SizeSplit(m: int, tn: int, xn: int, cnt: int, N: int)
    requires m >= 1 && N >= 2 && xn >= 0 && 0 <= cnt < N && m / 2 == xn * N + cnt
    requires tn >= 1 && tn * N >= m && (tn - 1) * N < m
    ensures xn < tn
    ensures cnt != 0 ==> xn + 1 <= tn - xn
    ensures cnt == 0 ==> (tn - xn) * N >= (m + 1) / 2 && (tn - xn - 1) * N < (m + 1) / 2
  {
    assert 2 * (xn * N) == (2 * xn) * N;
    assert (tn - xn) * N == tn * N - xn * N;
    assert (tn - xn - 1) * N == (tn - 1) * N - xn * N;
    if cnt != 0 && tn <= 2 * xn {
      MulMono(tn, 2 * xn, N);
    }
    if tn <= xn {
      MulMono(tn, xn, N);
    }
  }

  /** The value above the discarded half fits in the limbs that are copied. */
  lemma KeptFits(v: nat, m2exp: nat, rn: nat)
    requires v < Pow2(m2exp) && rn == BitsToLimbs((m2exp + 1) / 2)
    ensures v / Pow2(m2exp / 2) < BPow(rn)
  {
    hide Pow2, BPow;
    var bits, rest := m2exp / 2, (m2exp + 1) / 2;
    Pow2Add(rest, bits);
    assert rest + bits == m2exp;
    DivCompare(v, Pow2(bits), Pow2(rest));
    BPowIsPow2(rn);
    assert GMP_LIMB_BITS * rn == rn * GMP_LIMB_BITS;
    Pow2Mono(rest, GMP_LIMB_BITS * rn);
  }

  /** Discard the lower m2exp/2 bits of the result. */
  method KeepHigh(rp: array<nat>, tp: array<nat>, tn0: nat, m2exp: nat)
    requires rp != tp && m2exp >= 1 && tn0 == BitsToLimbs(m2exp) && tn0 < tp.Length
    requires rp.Length >= BitsToLimbs((m2exp + 1) / 2)
    requires AreLimbs(tp[..tn0]) && Val(tp[..tn0]) < Pow2(m2exp)
    modifies rp, tp
    ensures var rn := BitsToLimbs((m2exp + 1) / 2);
            AreLimbs(rp[..rn]) && Val(rp[..rn]) == old(Val(tp[..tn0])) / Pow2(m2exp / 2)
    ensures forall k :: BitsToLimbs((m2exp + 1) / 2) <= k < rp.Length ==> rp[k] == old(rp[k])
  {
    hide Val, AreLimbs, BPow, Pow2, BitsToLimbs;
    ghost var s := tp[..tn0];
    ghost var rn := BitsToLimbs((m2exp + 1) / 2);
    KeptSize(m2exp, tn0);
    KeptFits(Val(s), m2exp, rn);
    var bits := m2exp / 2;
    var xn := bits / GMP_LIMB_BITS;
    DropLow(s, bits);
    var tn := tn0 - xn;
    assert s[xn..] == tp[xn..xn + tn];
    LimbsTail(s, xn);
    var cnt := bits % GMP_LIMB_BITS;
    if cnt != 0 {
      var _ := ShiftRight(tp, tp, xn, tn, cnt);
      HighZero(tp[..tn], xn + 1);
      assert tp[..tn][..xn + 1] == tp[..xn + 1] == tp[0..0 + (xn + 1)];
      CopyLimbs(rp, tp, 0, xn + 1);
    } else {
      DivByOne(Val(s[xn..]));
      CopyLimbs(rp, tp, xn, tn);
    }
  }

  // The generator ------------------------------------------------------------------------

  /** gmp_rand_lc_struct, with one limb for the addend. */
  class LcState {
    var seed: array<nat>     // PTR (_mp_seed)
    var seedn: nat           // SIZ (_mp_seed)
    var a: array<nat>        // PTR (_mp_a)
    var an: nat              // SIZ (_mp_a)
    var c: nat               // _cp[0]
    var m2exp: nat

    constructor (seed: array<nat>, seedn: nat, a: array<nat>, an: nat, c: nat, m2exp: nat)
      ensures this.seed == seed && this.seedn == seedn && this.a == a && this.an == an
      ensures this.c == c && this.m2exp == m2exp
    {
      this.seed, this.seedn, this.a, this.an, this.c, this.m2exp := seed, seedn, a, an, c, m2exp;
    }

    ghost predicate Valid()
      reads this, seed, a
    {
      && m2exp >= 1 && seedn == BitsToLimbs(m2exp) && seedn <= seed.Length
      && AreLimbs(seed[..seedn]) && Val(seed[..seedn]) < Pow2(m2exp)
      && 1 <= an <= seedn && an <= a.Length && AreLimbs(a[..an]) && Val(a[..an]) < Pow2(m2exp)
      && c < Base() && seed != a
    }

    ghost function Seed(): nat
      requires Valid()
      reads this, seed, a
    {
      Val(seed[..seedn])
    }

    ghost function Multiplier(): nat
      requires Valid()
      reads this, seed, a
    {
      Val(a[..an])
    }

    /** t = a * seed + c, then t % m */
    method Advance() returns (tp: array<nat>, tn: nat)
      requires Valid()
      ensures fresh(tp) && tn == seedn < tp.Length && AreLimbs(tp[..tn])
      ensures Val(tp[..tn]) == Step(Seed(), Multiplier(), c, m2exp)
    {
      hide Val, AreLimbs, BPow, Pow2;
      MaskIndex(m2exp, seedn);
      tn := BitsToLimbs(m2exp);
      assert !(an + seedn + 1 <= tn);             // so the product's top needs no clearing
      tp := MpnMul(seed, seedn, a, an);
      ghost var p := tp[..];
      SplitLimbs(p, tn);
      assert p[..tn] == tp[..tn];
      ghost var low := Val(tp[..tn]);
      var cy := AddAddend(tp, tn, c);
      TruncatedStep(Val(tp[..tn]), cy, Val(p[tn..]), low, Seed(), Multiplier(), c, tn, m2exp);
      MaskTop(tp, tn, m2exp);
    }

    /** lc: one step; rp gets the new seed without its low half. */
    method Next(rp: array<nat>) returns (bits: nat)
      requires Valid() && rp.Length >= BitsToLimbs((m2exp + 1) / 2) && rp != seed && rp != a
      modifies seed, rp
      ensures Valid() && Multiplier() == old(Multiplier())
      ensures Seed() == Step(old(Seed()), Multiplier(), c, m2exp)
      ensures bits == (m2exp + 1) / 2
      ensures var rn := BitsToLimbs(bits);
              AreLimbs(rp[..rn]) && Val(rp[..rn]) == Seed() / Pow2(m2exp / 2)
      ensures forall k :: BitsToLimbs(bits) <= k < rp.Length ==> rp[k] == old(rp[k])
    {
      hide Val, AreLimbs, BPow, Pow2;
      var tp, tn := Advance();
      StepRange(Seed(), Multiplier(), c, m2exp);
      CopyLimbs(seed, tp, 0, tn);
      assert seed[..seedn] == tp[..tn];
      KeepHigh(rp, tp, tn, m2exp);
      bits := (m2exp + 1) / 2;
    }

    /** randseed_lc: the seed modulo 2^m2exp, padded with zero limbs. */
    method SetSeed(z: Mpz)
      requires Valid() && z.Valid() && z.d != seed && z.d != a
      modifies this`seed
      ensures Valid() && fresh(seed) && Multiplier() == old(Multiplier())
      ensures Seed() == old(z.Value()) % Pow2(m2exp)
    {
      hide Mpz.Valid, Mpz.Value, Pow2, Val, AreLimbs, BitsToLimbs, BPow;
      ghost var v := z.Value();
      var seedz := new Mpz();
      FdivR2exp(seedz, z, m2exp);
      ResidueRange(v, v, Pow2(m2exp));
      seed := Padded(seedz, m2exp);
      assert seed[..seedn] == seed[..];
    }
  }

  lemma StepRange(x: int, a: int, c: int, m: nat)
    ensures 0 <= Step(x, a, c, m) < Pow2(m)
  {
  }

  /** Dropping limbs and carries above tn does not matter modulo 2^m2exp. */
  lemma TruncatedStep(t: int, cy: int, high: int, low: int, x: int, a: int, c: int, tn: nat, m2exp: nat)
    requires m2exp >= 1 && tn == BitsToLimbs(m2exp)
    requires x * a == low + BPow(tn) * high && t + cy * BPow(tn) == low + c
    ensures t % Pow2(m2exp) == Step(x, a, c, m2exp)
  {
    hide Pow2, BPow;
    var M := Pow2(m2exp);
    BPowIsPow2(tn);
    var rest := GMP_LIMB_BITS * tn - m2exp;
    assert GMP_LIMB_BITS * tn == tn * GMP_LIMB_BITS;
    Pow2Add(rest, m2exp);
    assert rest + m2exp == GMP_LIMB_BITS * tn;
    Congruent(t, cy, high, low, x, a, c, Pow2(rest), M, BPow(tn));
  }

  lemma Congruent(t: int, cy: int, high: int, low: int, x: int, a: int, c: int, e: int, M: int, B: int)
    requires M >= 1 && B == e * M && x * a == low + B * high && t + cy * B == low + c
    ensures t % M == (a * x + c) % M
  {
    assert a * x + c == t + cy * B + B * high;
    assert B * high == (high * e) * M && cy * B == (cy * e) * M by { MulAssoc(high, e, M); MulAssoc(cy, e, M); }
    assert cy * B + B * high == (cy * e + high * e) * M;
    CongFrom(a * x + c, t, M, cy * e + high * e);
  }

  /** The limbs of z in an array that is long enough for m2exp bits. */
  method Padded(z: Mpz, m2exp: nat) returns (d: array<nat>)
    requires z.Valid() && 0 <= z.Value() < Pow2(m2exp)
    ensures fresh(d) && d.Length == BitsToLimbs(m2exp) && AreLimbs(d[..]) && Val(d[..]) == z.Value()
    ensures 0 <= z.size <= d.Length && d[..z.size] == z.Mag() && forall i :: z.size <= i < d.Length ==> d[i] == 0
  {
    hide Val, AreLimbs, Normal, Pow2, BPow, BitsToLimbs;
    var n := BitsToLimbs(m2exp);
    ghost var s := z.Mag();
    SignBySize(s);
    SizeFits(s, m2exp);
    d := new nat[n](_ => 0);
    CopyLimbs(d, z.d, 0, Abs(z.size));
    ghost var k := Abs(z.size);
    ZeroTail(d[..], s);
  }

  lemma ZeroTail(t: seq<nat>, s: seq<nat>)
    requires |s| <= |t| && t[..|s|] == s && AreLimbs(s) && forall i :: |s| <= i < |t| ==> t[i] == 0
    ensures AreLimbs(t) && Val(t) == Val(s)
  {
    hide Val;
    SplitLimbs(t, |s|);
    ValZeros(t[|s|..]);
    assert AreLimbs(t[|s|..]);
    assert BPow(|s|) * 0 == 0;
  }

  lemma SizeFits(s: seq<nat>, m2exp: nat)
    requires AreLimbs(s) && Normal(s) && Val(s) < Pow2(m2exp)
    ensures |s| <= BitsToLimbs(m2exp)
  {
    hide Val, AreLimbs, BPow, Pow2, BitsToLimbs;
    var n := BitsToLimbs(m2exp);
    if |s| > n {
      NormalLow(s);
      BPowMono(n, |s| - 1);
      LimbsCover(m2exp);
      BPowIsPow2(n);
      Pow2Mono(m2exp, GMP_LIMB_BITS * n);
    }
  }

  lemma LimbsCover(n: nat)
    ensures GMP_LIMB_BITS * BitsToLimbs(n) >= n
  {
    assert GMP_LIMB_BITS * BitsToLimbs(n) == BitsToLimbs(n) * GMP_LIMB_BITS;
  }

  /** A zero multiplier is held in one limb. */
  lemma MultiplierLimbs(d: seq<nat>, size: nat)
    requires size <= |d| && d != [] && AreLimbs(d) && forall i :: size <= i < |d| ==> d[i] == 0
    ensures var an := if size == 0 then 1 else size;
            AreLimbs(d[..an]) && Val(d[..an]) == Val(d)
  {
    hide Val;
    var an := if size == 0 then 1 else size;
    ZeroTail(d, d[..an]);
  }

  lemma SeedOne(d: seq<nat>)
    requires d != [] && d[0] == 1 && forall i :: 1 <= i < |d| ==> d[i] == 0
    ensures AreLimbs(d) && Val(d) == 1
  {
    hide Val;
    OneLimb(1);
    ZeroTail(d, [1]);
  }

  lemma OneFits(m2exp: nat)
    requires m2exp >= 1
    ensures 1 < Pow2(m2exp) && BitsToLimbs(m2exp) >= 1
  {
    Pow2Mono(0, m2exp);
  }

  /** gmp_randinit_lc_2exp */
  method InitLc2exp(az: Mpz, c: nat, m2exp: nat) returns (p: LcState)
    requires az.Valid() && c < Base() && m2exp != 0
    ensures fresh(p) && fresh(p.seed) && fresh(p.a) && p.Valid()
    ensures p.m2exp == m2exp && p.c == c && p.Seed() == 1
    ensures p.Multiplier() == az.Value() % Pow2(m2exp)
  {
    hide Mpz.Valid, Mpz.Value, Pow2, BitsToLimbs, Val, AreLimbs;
    OneFits(m2exp);
    var seedn := BitsToLimbs(m2exp);
    var seed := new nat[seedn](_ => 0);
    seed[0] := 1;
    SeedOne(seed[..]);
    var a := new Mpz();
    FdivR2exp(a, az, m2exp);
    ResidueRange(az.Value(), az.Value(), Pow2(m2exp));
    var d := Padded(a, m2exp);
    var an := if a.size == 0 then 1 else a.size;
    MultiplierLimbs(d[..], a.size);
    assert seed[..seedn] == seed[..] && d[..an] == d[..][..an];
    p := new LcState(seed, seedn, d, an, c, m2exp);
  }

  // The schemes --------------------------------------------------------------------------

  datatype Scheme = Scheme(m2exp: nat, astr: string, c: nat)

  const SCHEMES: seq<Scheme> :=
    [ Scheme(32, "29CF535", 1),
      Scheme(33, "51F666D", 1),
      Scheme(34, "A3D73AD", 1),
      Scheme(35, "147E5B85", 1),
      Scheme(36, "28F725C5", 1),
      Scheme(37, "51EE3105", 1),
      Scheme(38, "A3DD5CDD", 1),
      Scheme(39, "147AF833D", 1),
      Scheme(40, "28F5DA175", 1),
      Scheme(56, "AA7D735234C0DD", 1),
      Scheme(64, "BAECD515DAF0B49D", 1),
      Scheme(100, "292787EBD3329AD7E7575E2FD", 1),
      Scheme(128, "48A74F367FA7B5C8ACBB36901308FA85", 1),
      Scheme(156, "78A7FDDDC43611B527C3F1D760F36E5D7FC7C45", 1),
      Scheme(196, "41BA2E104EE34C66B3520CE706A56498DE6D44721E5E24F5", 1),
      Scheme(200, "4E5A24C38B981EAFE84CD9D0B" + "EC48E83911362C114F30072C5", 1),
      Scheme(256, "AF66BA932AAF58A071FD8F0742A99A0C" + "76982D648509973DB802303128A14CB5", 1) ]

  function Digit(ch: char): (d: nat)
    ensures d < 16
  {
    if '0' <= ch <= '9' then (ch - '0') as nat
    else if 'A' <= ch <= 'F' then (ch - 'A') as nat + 10
    else 0
  }

  function HexValue(s: string): nat {
    if s == "" then 0 else 16 * HexValue(s[..|s| - 1]) + Digit(s[|s| - 1])
  }

  lemma {:induction false} HexBound(s: string)
    ensures HexValue(s) < Pow2(4 * |s|)
  {
    if s != "" {
      HexBound(s[..|s| - 1]);
      Pow2Add(4, 4 * (|s| - 1));
      assert Pow2(4) == 16;
    }
  }

  const DIGITS: string := "0123456789ABCDEF"

  /** n in base 16 */
  function Hex(n: nat): (s: string)
    ensures s != ""
  {
    if n < 16 then [DIGITS[n]] else Hex(n / 16) + [DIGITS[n % 16]]
  }

  lemma DigitOf(d: nat)
    requires d < 16
    ensures Digit(DIGITS[d]) == d
  {
    forall k | k in [0, 1, 2, 3, 4, 5, 6, 7, 8, 9, 10, 11, 12, 13, 14, 15]
      ensures Digit(DIGITS[k]) == k
    {
    }
    assert d in [0, 1, 2, 3, 4, 5, 6, 7, 8, 9, 10, 11, 12, 13, 14, 15];
  }

  /** Reading a printed number gives it back. */
  lemma {:induction false} HexRestores(n: nat)
    ensures HexValue(Hex(n)) == n
  {
    hide Digit;
    DigitOf(n % 16);
    HexValueSnoc("", DIGITS[n % 16]);
    HexEmpty();
    if n >= 16 {
      HexRestores(n / 16);
      HexValueSnoc(Hex(n / 16), DIGITS[n % 16]);
    } else {
      assert [DIGITS[n]] == "" + [DIGITS[n]];
    }
  }

  lemma HexValueSnoc(s: string, ch: char)
    ensures HexValue(s + [ch]) == 16 * HexValue(s) + Digit(ch)
  {
    assert (s + [ch])[..|s|] == s;
  }

  /** Printing a number read gives back its digits, if there is no zero in front of them. */
  lemma {:induction false} HexReads(s: string)
    requires s != "" && (forall k :: 0 <= k < |s| ==> s[k] in DIGITS) && (|s| > 1 ==> s[0] != '0')
    ensures Hex(HexValue(s)) == s
    ensures HexValue(s) == 0 ==> s == "0"
  {
    hide Digit;
    var n := |s| - 1;
    var d: nat :| d < 16 && s[n] == DIGITS[d];
    DigitOf(d);
    assert s == s[..n] + [s[n]];
    HexValueSnoc(s[..n], s[n]);
    if n > 0 {
      HexReads(s[..n]);
      assert s[..n][0] == s[0];
      DivModUnique(HexValue(s), 16, HexValue(s[..n]), d);
    } else {
      HexEmpty();
      assert s[..n] == "" && DIGITS[0] == '0';
    }
  }

  /** The multiplier of a good scheme is 5 modulo 8 and below the modulus. */
  predicate GoodScheme(e: Scheme) {
    && e.c == 1 && 4 * |e.astr| <= e.m2exp && e.astr != ""
    && Digit(e.astr[|e.astr| - 1]) % 8 == 5
  }

  lemma GoodMultiplier(e: Scheme)
    requires GoodScheme(e)
    ensures HexValue(e.astr) % 8 == 5 && HexValue(e.astr) < Pow2(e.m2exp)
    ensures Maximal(HexValue(e.astr), e.c, e.m2exp)
  {
    var s := e.astr;
    HexBound(s);
    Pow2Mono(4 * |s|, e.m2exp);
    FiveModEight(HexValue(s[..|s| - 1]), Digit(s[|s| - 1]));
  }

  lemma FiveModEight(h: int, d: int)
    requires d % 8 == 5
    ensures (16 * h + d) % 8 == 5 && (16 * h + d) % 4 == 1 && (16 * h + d) % 2 == 1
  {
    var k := d / 8;
    DivModUnique(16 * h + d, 8, 2 * h + k, 5);
    DivModUnique(16 * h + d, 4, 4 * h + 2 * k + 1, 1);
    DivModUnique(16 * h + d, 2, 8 * h + 4 * k + 2, 1);
  }

  /** The first seven digits of a multiplier, their number, and the bits that the modulus has beyond those of the
      other digits */
  datatype Lead = Lead(digits: string, number: nat, bits: nat)

  const LEADS: seq<Lead> :=
    [ Lead("29CF535", 0x29CF535, 32), Lead("51F666D", 0x51F666D, 33), Lead("A3D73AD", 0xA3D73AD, 34),
      Lead("147E5B8", 0x147E5B8, 31), Lead("28F725C", 0x28F725C, 32), Lead("51EE310", 0x51EE310, 33),
      Lead("A3DD5CD", 0xA3DD5CD, 34), Lead("147AF83", 0x147AF83, 31), Lead("28F5DA1", 0x28F5DA1, 32),
      Lead("AA7D735", 0xAA7D735, 28), Lead("BAECD51", 0xBAECD51, 28), Lead("292787E", 0x292787E, 28),
      Lead("48A74F3", 0x48A74F3, 28), Lead("78A7FDD", 0x78A7FDD, 28), Lead("41BA2E1", 0x41BA2E1, 32),
      Lead("4E5A24C", 0x4E5A24C, 28), Lead("AF66BA9", 0xAF66BA9, 28) ]

  /** By its first digits the multiplier is from one to 99 hundredths of the modulus. */
  predicate LeadsWell(e: Scheme, l: Lead) {
    && l.digits <= e.astr && |l.digits| == 7 && HexValue(l.digits) == l.number
    && 28 <= l.bits <= 34 && e.m2exp == 4 * (|e.astr| - 7) + l.bits
    && Small2(l.bits - 28) <= 100 * l.number && 100 * (l.number + 1) <= 99 * Small2(l.bits - 28)
  }

  /** 2 ^ (28 + i) */
  function Small2(i: nat): nat
    requires i <= 6
  {
    [0x1000_0000, 0x2000_0000, 0x4000_0000, 0x8000_0000, 0x1_0000_0000, 0x2_0000_0000, 0x4_0000_0000][i]
  }

  lemma Small2Is(i: nat)
    requires i <= 6
    ensures Small2(i) == Pow2(28 + i)
  {
    hide Pow2;
    FirstPowers(4);
    Pow2Add(4, 4);
    Pow2Add(8, 8);
    Pow2Add(16, 8);
    Pow2Add(24, 4);
    Pow2Add(28, i);
    FirstPowers(i);
  }

  lemma FirstPowers(i: nat)
    requires i <= 6
    ensures Pow2(i) == [1, 2, 4, 8, 16, 32, 64][i]
  {
    if i > 0 {
      FirstPowers(i - 1);
    }
  }

  lemma SevenDigits(w: string)
    requires |w| == 7
    ensures var h := 16 * (16 * (16 * Digit(w[0]) + Digit(w[1])) + Digit(w[2])) + Digit(w[3]);
            HexValue(w) == 16 * (16 * (16 * h + Digit(w[4])) + Digit(w[5])) + Digit(w[6])
  {
    hide Digit, HexValue;
    HexEmpty();
    assert w[..0] == "" && w[..7] == w;
    HexSnoc(w, 0);
    HexSnoc(w, 1);
    HexSnoc(w, 2);
    HexSnoc(w, 3);
    HexSnoc(w, 4);
    HexSnoc(w, 5);
    HexSnoc(w, 6);
  }

  /** A number is known from its first digits up to a power of 16. */
  lemma {:induction false} HexLead(s: string, k: nat)
    requires k <= |s|
    ensures var (h, p) := (HexValue(s[..k]), Pow2(4 * (|s| - k)));
            h * p <= HexValue(s) < (h + 1) * p
    decreases |s| - k
  {
    hide Pow2, Digit, HexValue;
    if k == |s| {
      assert s[..k] == s;
      Pow2Small();
    } else {
      HexLead(s, k + 1);
      HexSnoc(s, k);
      Pow2Add(4, 4 * (|s| - k - 1));
      Pow2Sixteen();
      LeadStep(HexValue(s[..k]), Digit(s[k]), Pow2(4 * (|s| - k - 1)));
    }
  }

  lemma Pow2Sixteen()
    ensures Pow2(4) == 16
  {
  }

  lemma LeadStep(h: int, d: int, p: int)
    requires 0 <= d < 16 && p >= 1
    ensures h * (16 * p) <= (h * 16 + d) * p && (h * 16 + d + 1) * p <= (h + 1) * (16 * p)
  {
    assert (h * 16 + d) * p == h * (16 * p) + d * p;
    assert (h * 16 + d + 1) * p == h * (16 * p) + (d + 1) * p;
    assert (h + 1) * (16 * p) == h * (16 * p) + 16 * p;
    MulMono(0, d, p);
    MulMono(d + 1, 16, p);
  }

  /** The multiplier is from one to 99 hundredths of the modulus. */
  lemma MultiplierInRange(e: Scheme, l: Lead)
    requires LeadsWell(e, l)
    ensures Pow2(e.m2exp) <= 100 * HexValue(e.astr) <= 99 * Pow2(e.m2exp)
  {
    hide Pow2, HexValue, Small2;
    var low := 4 * (|e.astr| - 7);
    assert e.astr[..7] == l.digits;
    HexLead(e.astr, 7);
    Small2Is(l.bits - 28);
    Pow2Add(l.bits, low);
    Hundredths(l.number, Pow2(l.bits), Pow2(low), HexValue(e.astr));
  }

  lemma Hundredths(h: int, m: int, p: int, v: int)
    requires m <= 100 * h && 100 * (h + 1) <= 99 * m && p >= 1 && h * p <= v < (h + 1) * p
    ensures m * p <= 100 * v <= 99 * (m * p)
  {
    MulMono(m, 100 * h, p);
    MulAssoc(100, h, p);
    MulMono(100 * (h + 1), 99 * m, p);
    MulAssoc(100, h + 1, p);
    MulAssoc(99, m, p);
    HundredTimes(h * p, v, (h + 1) * p);
  }

  lemma HundredTimes(x: int, v: int, y: int)
    requires x <= v < y
    ensures 100 * x <= 100 * v < 100 * y
  {
  }

  lemma TableLeads(i: nat)
    requires i < |SCHEMES|
    ensures |LEADS| == |SCHEMES| && LeadsWell(SCHEMES[i], LEADS[i])
  {
    hide SCHEMES, LEADS, Small2, HexValue;
    TablePrefixes();
    TableBits();
    LeadNumbers();
    LeadsInRange();
    assert LEADS[i].digits <= SCHEMES[i].astr;
  }

  lemma TablePrefixes()
    ensures |LEADS| == |SCHEMES| == 17 && forall i :: 0 <= i < 17 ==> LEADS[i].digits <= SCHEMES[i].astr
  {
    hide SCHEMES, LEADS;
    ShortPrefixes();
    LongPrefixes();
  }

  lemma ShortPrefixes()
    ensures |LEADS| == |SCHEMES| == 17 && forall i :: 0 <= i < 12 ==> LEADS[i].digits <= SCHEMES[i].astr
  {
    assert "29CF535" <= SCHEMES[0].astr;
    assert "51F666D" <= SCHEMES[1].astr;
    assert "A3D73AD" <= SCHEMES[2].astr;
    assert "147E5B8" <= SCHEMES[3].astr;
    assert "28F725C" <= SCHEMES[4].astr;
    assert "51EE310" <= SCHEMES[5].astr;
    assert "A3DD5CD" <= SCHEMES[6].astr;
    assert "147AF83" <= SCHEMES[7].astr;
    assert "28F5DA1" <= SCHEMES[8].astr;
    assert "AA7D735" <= SCHEMES[9].astr;
    assert "BAECD51" <= SCHEMES[10].astr;
    assert "292787E" <= SCHEMES[11].astr;
  }

  lemma LongPrefixes()
    ensures |LEADS| == |SCHEMES| == 17 && forall i :: 12 <= i < 17 ==> LEADS[i].digits <= SCHEMES[i].astr
  {
    assert "48A74F3" <= SCHEMES[12].astr;
    assert "78A7FDD" <= SCHEMES[13].astr;
    assert "41BA2E1" <= SCHEMES[14].astr;
    assert "4E5A24C" <= SCHEMES[15].astr;
    assert "AF66BA9" <= SCHEMES[16].astr;
  }

  lemma TableBits()
    ensures |LEADS| == |SCHEMES| == 17
    ensures forall i :: 0 <= i < 17 ==> SCHEMES[i].m2exp == 4 * (|SCHEMES[i].astr| - 7) + LEADS[i].bits
  {
  }

  lemma LeadsInRange()
    ensures |LEADS| == 17
    ensures forall i :: 0 <= i < 17 ==>
              var l := LEADS[i];
              && 28 <= l.bits <= 34 && Small2(l.bits - 28) <= 100 * l.number
              && 100 * (l.number + 1) <= 99 * Small2(l.bits - 28)
  {
  }

  lemma LeadNumbers()
    ensures |LEADS| == 17
    ensures forall i :: 0 <= i < 17 ==> |LEADS[i].digits| == 7 && HexValue(LEADS[i].digits) == LEADS[i].number
  {
    hide LEADS, HexValue;
    FirstNumbers();
    LastNumbers();
  }

  lemma FirstNumbers()
    ensures |LEADS| == 17
    ensures forall i :: 0 <= i < 9 ==> |LEADS[i].digits| == 7 && HexValue(LEADS[i].digits) == LEADS[i].number
  {
    hide HexValue;
    forall i | 0 <= i < 9
      ensures |LEADS[i].digits| == 7 && HexValue(LEADS[i].digits) == LEADS[i].number
    {
      SevenDigits(LEADS[i].digits);
    }
  }

  lemma LastNumbers()
    ensures |LEADS| == 17
    ensures forall i :: 9 <= i < 17 ==> |LEADS[i].digits| == 7 && HexValue(LEADS[i].digits) == LEADS[i].number
  {
    hide HexValue;
    forall i | 9 <= i < 17
      ensures |LEADS[i].digits| == 7 && HexValue(LEADS[i].digits) == LEADS[i].number
    {
      SevenDigits(LEADS[i].digits);
    }
  }

  lemma TableGood()
    ensures forall i :: 0 <= i < |SCHEMES| ==> GoodScheme(SCHEMES[i])
    ensures forall i, j :: 0 <= i < j < |SCHEMES| ==> SCHEMES[i].m2exp < SCHEMES[j].m2exp
    ensures |SCHEMES| == 17 && SCHEMES[16].m2exp == 256
  {
    TableSchemes();
    TableOrder();
    hide SCHEMES, GoodScheme;
    forall i, j | 0 <= i < j < |SCHEMES|
      ensures SCHEMES[i].m2exp < SCHEMES[j].m2exp
    {
      Increasing(SCHEMES, i, j);
    }
  }

  lemma TableSchemes()
    ensures forall i :: 0 <= i < |SCHEMES| ==> GoodScheme(SCHEMES[i])
  {
  }

  lemma TableOrder()
    ensures forall i :: 0 <= i < |SCHEMES| - 1 ==> Before(SCHEMES, i)
    ensures |SCHEMES| == 17 && SCHEMES[16].m2exp == 256
  {
  }

  predicate Before(s: seq<Scheme>, i: nat)
    requires i + 1 < |s|
  {
    s[i].m2exp < s[i + 1].m2exp
  }

  lemma {:induction false} Increasing(s: seq<Scheme>, i: nat, j: nat)
    requires i < j < |s| && forall k :: 0 <= k < |s| - 1 ==> Before(s, k)
    ensures s[i].m2exp < s[j].m2exp
    decreases j
  {
    assert Before(s, j - 1);
    if i < j - 1 {
      Increasing(s, i, j - 1);
    }
  }

  /** mpz_init_set_str in base 16 */
  method InitSetStr(s: string) returns (a: Mpz)
    ensures fresh(a) && fresh(a.d) && a.Valid() && a.Value() == HexValue(s)
  {
    hide Mpz.Valid, Mpz.Value, HexValue;
    BaseSquare();
    a := new Mpz();
    HexEmpty();
    assert s[..0] == "";
    for i := 0 to |s|
      invariant a.Valid() && fresh(a) && fresh(a.d) && a.Value() == HexValue(s[..i])
    {
      HexSnoc(s, i);
      MulUi(a, a, 16);
      AddUi(a, a, Digit(s[i]));
    }
    assert s[..|s|] == s;
  }

  lemma HexEmpty()
    ensures HexValue("") == 0
  {
  }

  lemma HexSnoc(s: string, i: nat)
    requires i < |s|
    ensures HexValue(s[..i + 1]) == HexValue(s[..i]) * 16 + Digit(s[i])
  {
    assert s[..i + 1][..i] == s[..i];
  }

  /** gmp_randinit_lc_2exp_size: the smallest scheme with enough bits in its upper half. */
  method InitLc2expSize(size: nat) returns (ok: bool, p: LcState?)
    ensures ok <==> size <= 128
    ensures ok ==> p != null && fresh(p) && p.Valid() && p.Seed() == 1
    ensures ok ==> exists i :: 0 <= i < |SCHEMES| && p.m2exp == SCHEMES[i].m2exp && p.m2exp / 2 >= size
                     && p.c == SCHEMES[i].c && p.Multiplier() == HexValue(SCHEMES[i].astr)
                     && forall j :: 0 <= j < i ==> SCHEMES[j].m2exp / 2 < size
    ensures ok ==> Maximal(p.Multiplier(), p.c, p.m2exp) && p.Multiplier() % 8 == 5
    ensures ok ==> Pow2(p.m2exp) <= 100 * p.Multiplier() <= 99 * Pow2(p.m2exp)
  {
    hide SCHEMES, LcState.Valid, LcState.Seed, LcState.Multiplier, HexValue, Maximal, Mpz.Valid, Mpz.Value;
    TableGood();
    var i: nat := 0;
    while i < |SCHEMES| && SCHEMES[i].m2exp / 2 < size
      invariant i <= |SCHEMES| && forall j :: 0 <= j < i ==> SCHEMES[j].m2exp / 2 < size
    {
      i := i + 1;
    }
    if i == |SCHEMES| {
      return false, null;
    }
    var e := SCHEMES[i];
    assert e.m2exp <= SCHEMES[16].m2exp;
    GoodMultiplier(e);
    TableLeads(i);
    MultiplierInRange(e, LEADS[i]);
    var a := InitSetStr(e.astr);
    p := InitLc2exp(a, e.c, e.m2exp);
    SmallModulus(HexValue(e.astr), Pow2(e.m2exp));
    ok := true;
  }

  lemma SmallModulus(v: int, M: int)
    requires 0 <= v < M
    ensures v % M == v
  {
    DivModUnique(v, M, 0, v);
  }
}
