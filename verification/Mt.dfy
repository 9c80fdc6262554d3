/** The Mersenne Twister of randmt.c. */
module Mt {
  import opened Arith
  import opened Bits

  const N: nat := 624
  const M: nat := 397
  const MATRIX_A: bv32 := 0x9908B0DF
  const MASK_1: bv32 := 0x9D2C5680
  const MASK_2: bv32 := 0xEFC60000

  // The recurrence -----------------------------------------------------------------------

  /** gmp_uint_least32_t, of which 32 bits are in use. */
  type Word = x: nat | x < 0x1_0000_0000

  /** The top bit of u above the low bits of l */
  function Joined(u: bv32, l: bv32): bv32 {
    (u & 0x80000000) | (l & 0x7FFFFFFF)
  }

  function Half(y: bv32): bv32 { y >> 1 }

  function Odd(y: bv32): bv32 { if y & 0x01 != 0 then MATRIX_A else 0 }

  function Twisted(y: bv32): bv32 { Half(y) ^ Odd(y) }

  /** x with the twist of the top bit of u and the rest of l. */
  function MixBits(x: bv32, u: bv32, l: bv32): bv32 {
    x ^ Twisted(Joined(u, l))
  }

  function ToWord(x: bv32): Word { x as nat }

  lemma WordIsBits(x: bv32)
    ensures ToWord(x) as bv32 == x
  {
  }

  function Mix(x: Word, u: Word, l: Word): Word {
    ToWord(MixBits(x as bv32, u as bv32, l as bv32))
  }

  lemma MixIsMixBits(x: bv32, u: bv32, l: bv32)
    ensures Mix(ToWord(x), ToWord(u), ToWord(l)) == ToWord(MixBits(x, u, l))
  {
    hide MixBits, ToWord;
    WordIsBits(x);
    WordIsBits(u);
    WordIsBits(l);
  }

  /** Word n of the sequence that starts with s. */
  function Term(s: seq<Word>, n: nat): Word
    requires |s| == N
  {
    if n < N then s[n] else Mix(Term(s, n - (N - M)), Term(s, n - N), Term(s, n - N + 1))
  }

  /** The N words from number k on. */
  function Window(s: seq<Word>, k: nat): (w: seq<Word>)
    requires |s| == N
    ensures |w| == N && forall i :: 0 <= i < N ==> w[i] == Term(s, k + i)
  {
    seq<Word>(N, i requires 0 <= i => Term(s, k + i))
  }

  /** A window continues as the sequence it was taken from. */
  lemma {:induction false} WindowContinues(s: seq<Word>, k: nat, n: nat)
    requires |s| == N
    ensures Term(Window(s, k), n) == Term(s, k + n)
    decreases n
  {
    hide Mix;
    if n >= N {
      WindowContinues(s, k, n - (N - M));
      WindowContinues(s, k, n - N);
      WindowContinues(s, k, n - N + 1);
    }
  }

  lemma WindowOfWindow(s: seq<Word>, j: nat, k: nat)
    requires |s| == N
    ensures Window(Window(s, j), k) == Window(s, j + k)
  {
    hide Term;
    forall i | 0 <= i < N
      ensures Window(Window(s, j), k)[i] == Window(s, j + k)[i]
    {
      WindowContinues(s, j, k + i);
    }
  }

  lemma WindowFirst(s: seq<Word>)
    requires |s| == N
    ensures Window(s, 0) == s
  {
  }

  /** The buffer in the middle of its regeneration: the first kk words are new. */
  ghost predicate Renewed(m: seq<Word>, s: seq<Word>, kk: nat)
    requires |m| == |s| == N
  {
    && (forall i :: 0 <= i < kk && i < N ==> m[i] == Term(s, N + i))
    && (forall i :: kk <= i < N ==> m[i] == s[i])
  }

  lemma TermAt(s: seq<Word>, i: nat)
    requires |s| == N && i < N
    ensures s[i] == Term(s, i)
    ensures Term(s, N + i) == Mix(Term(s, M + i), Term(s, i), Term(s, i + 1))
  {
    hide Mix;
  }

  /** The recurrence, whose every word follows from three of the last 624. */
  lemma Recurrence(s: seq<Word>, n: nat)
    requires |s| == 624
    ensures Term(s, n + 624) == Mix(Term(s, n + 397), Term(s, n), Term(s, n + 1))
  {
    hide Mix;
  }

  /** The word that the three phases put in place kk. */
  function Renewal(m: seq<Word>, kk: nat): Word
    requires |m| == N && kk < N
  {
    if kk < N - M then Mix(m[kk + M], m[kk], m[kk + 1])
    else if kk < N - 1 then Mix(m[kk - (N - M)], m[kk], m[kk + 1])
    else Mix(m[M - 1], m[N - 1], m[0])
  }

  lemma RenewedAt(m: seq<Word>, s: seq<Word>, kk: nat, i: nat)
    requires |m| == |s| == N && i < N && Renewed(m, s, kk)
    ensures m[i] == if i < kk then Term(s, N + i) else s[i]
  {
    hide Term;
  }

  lemma RenewalIsTerm(m: seq<Word>, s: seq<Word>, kk: nat)
    requires |m| == |s| == N && kk < N && Renewed(m, s, kk)
    ensures Renewal(m, kk) == Term(s, N + kk)
  {
    hide Mix, Term, Renewed;
    TermAt(s, kk);
    RenewedAt(m, s, kk, kk);
    if kk < N - M {
      RenewedAt(m, s, kk, kk + 1);
      RenewedAt(m, s, kk, kk + M);
      TermAt(s, kk + 1);
      TermAt(s, kk + M);
    } else if kk < N - 1 {
      RenewedAt(m, s, kk, kk + 1);
      RenewedAt(m, s, kk, kk - (N - M));
      TermAt(s, kk + 1);
    } else {
      RenewedAt(m, s, kk, 0);
      RenewedAt(m, s, kk, M - 1);
    }
  }

  lemma RenewNext(m: seq<Word>, s: seq<Word>, kk: nat)
    requires |m| == |s| == N && kk < N && Renewed(m, s, kk)
    ensures Renewed(m[kk := Renewal(m, kk)], s, kk + 1)
  {
    hide Term, Renewal;
    RenewalIsTerm(m, s, kk);
  }

  lemma RenewDone(m: seq<Word>, s: seq<Word>)
    requires |m| == |s| == N && Renewed(m, s, N)
    ensures m == Window(s, N)
  {
    hide Term;
  }

  /** __gmp_mt_recalc_buffer: the next N words, in place. */
  method RecalcBuffer(mt: array<Word>)
    requires mt.Length == N
    modifies mt
    ensures mt[..] == Window(old(mt[..]), N)
  {
    hide Mix, Term, Renewed, Window;
    ghost var s := mt[..];
    RenewNone(s);
    for kk := 0 to N - M
      invariant Renewed(mt[..], s, kk)
    {
      ghost var m := mt[..];
      RenewNext(m, s, kk);
      mt[kk] := Mix(mt[kk + M], mt[kk], mt[kk + 1]);
      assert mt[..] == m[kk := Renewal(m, kk)];
    }
    for kk := N - M to N - 1
      invariant Renewed(mt[..], s, kk)
    {
      ghost var m := mt[..];
      RenewNext(m, s, kk);
      mt[kk] := Mix(mt[kk - (N - M)], mt[kk], mt[kk + 1]);
      assert mt[..] == m[kk := Renewal(m, kk)];
    }
    ghost var m := mt[..];
    RenewNext(m, s, N - 1);
    mt[N - 1] := Mix(mt[M - 1], mt[N - 1], mt[0]);
    assert mt[..] == m[N - 1 := Renewal(m, N - 1)];
    RenewDone(mt[..], s);
  }

  lemma RenewNone(s: seq<Word>)
    requires |s| == N
    ensures Renewed(s, s, 0)
  {
  }

  // Single words -------------------------------------------------------------------------

  function Down11(y: bv32): bv32 { y >> 11 }

  function Up7(y: bv32): bv32 { (y << 7) & MASK_1 }

  function Up15(y: bv32): bv32 { (y << 15) & MASK_2 }

  function Down18(y: bv32): bv32 { y >> 18 }

  function Step1(y: bv32): bv32 { y ^ Down11(y) }

  function Step2(y: bv32): bv32 { y ^ Up7(y) }

  function Step3(y: bv32): bv32 { y ^ Up15(y) }

  function Step4(y: bv32): bv32 { y ^ Down18(y) }

  function TemperBits(y: bv32): bv32 { Step4(Step3(Step2(Step1(y)))) }

  function Temper(y: Word): Word { ToWord(TemperBits(y as bv32)) }

  lemma TemperIsTemperBits(y: bv32)
    ensures Temper(ToWord(y)) == ToWord(TemperBits(y))
  {
    hide TemperBits, ToWord;
    WordIsBits(y);
  }

  /** Random word n of the sequence that starts with s. */
  function Output(s: seq<Word>, n: nat): nat
    requires |s| == N
  {
    Temper(Term(s, n))
  }

  /** gmp_rand_mt_struct */
  class MtState {
    const mt: array<Word>
    var mti: nat

    ghost predicate Valid()
      reads this
    {
      mt.Length == N && mti <= N
    }

    /** The next N words of the sequence, before tempering. */
    ghost function Upcoming(): (w: seq<Word>)
      requires Valid()
      reads this, mt
      ensures |w| == N
    {
      Window(mt[..], mti)
    }

    constructor (mt: array<Word>, mti: nat)
      ensures this.mt == mt && this.mti == mti
    {
      this.mt, this.mti := mt, mti;
    }

    /** NEXT_RANDOM */
    method NextRandom() returns (y: Word)
      requires Valid()
      modifies this, mt
      ensures Valid() && y == Temper(old(Upcoming()[0]))
      ensures Upcoming() == Window(old(Upcoming()), 1)
    {
      hide Term, Temper, Mix;
      ghost var s := mt[..];
      if mti >= N {
        RecalcBuffer(mt);
        mti := 0;
        WindowFirst(Window(s, N));
      }
      ghost var t := mt[..];
      TermAt(t, mti);
      WindowOfWindow(t, mti, 1);
      y := Temper(mt[mti]);
      mti := mti + 1;
    }
  }


  // Random numbers -----------------------------------------------------------------------

  /** The first k random words after the state s, the first one lowest. */
  function WordsValue(s: seq<Word>, k: nat): nat
    requires |s| == N
  {
    if k == 0 then 0 else WordsValue(s, k - 1) + Shl(Output(s, k - 1), 32 * (k - 1))
  }

  /** The words that nbits bits take. */
  function Words(nbits: nat): nat { (nbits + 31) / 32 }

  /** The random number of nbits bits: whole words, of which the last is cut. */
  function Random(s: seq<Word>, nbits: nat): (r: nat)
    requires |s| == N
  {
    WordsValue(s, Words(nbits)) % Pow2(nbits)
  }

  lemma OutputBound(s: seq<Word>, n: nat)
    requires |s| == N
    ensures Output(s, n) < Pow2(32)
  {
    hide Temper, Term, Pow2;
    TwoTo32();
  }

  lemma TwoTo32()
    ensures Pow2(32) == 0x1_0000_0000
  {
    Pow2Add(4, 4);
    Pow2Add(8, 8);
    Pow2Add(16, 16);
  }

  lemma {:induction false} WordsBound(s: seq<Word>, k: nat)
    requires |s| == N
    ensures WordsValue(s, k) < Pow2(32 * k)
  {
    hide Output, Pow2;
    if k > 0 {
      WordsBound(s, k - 1);
      OutputBound(s, k - 1);
      Pow2Add(32, 32 * (k - 1));
      DigitBelow(WordsValue(s, k - 1), Output(s, k - 1), Pow2(32 * (k - 1)), Pow2(32));
    } else {
      Pow2Small();
    }
  }

  /** Drawing j words and then k more is drawing j + k. */
  lemma {:induction false} WordsSplit(s: seq<Word>, j: nat, k: nat)
    requires |s| == N
    ensures WordsValue(s, j + k) == WordsValue(s, j) + Pow2(32 * j) * WordsValue(Window(s, j), k)
  {
    hide Term, Temper, Pow2, Window;
    if k > 0 {
      WordsSplit(s, j, k - 1);
      OutputLater(s, j, k - 1);
      Pow2Add(32 * j, 32 * (k - 1));
      assert 32 * j + 32 * (k - 1) == 32 * (j + k - 1);
      Distribute(Pow2(32 * j), WordsValue(Window(s, j), k - 1), Output(s, j + k - 1), Pow2(32 * (k - 1)));
    }
  }

  lemma Distribute(p: int, v: int, x: int, q: int)
    ensures p * (v + x * q) == p * v + x * (p * q)
  {
    assert p * (x * q) == x * (p * q) by { MulAssoc(p, x, q); MulAssoc(x, p, q); }
  }

  lemma OutputLater(s: seq<Word>, j: nat, k: nat)
    requires |s| == N
    ensures Output(Window(s, j), k) == Output(s, j + k)
  {
    hide Temper;
    WindowContinues(s, j, k);
  }

  /** Asking for whole words first and for the rest later gives the same bits. */
  lemma RandomSplit(s: seq<Word>, j: nat, nbits: nat)
    requires |s| == N
    ensures Random(s, 32 * j + nbits) == Random(s, 32 * j) + Pow2(32 * j) * Random(Window(s, j), nbits)
  {
    hide Pow2, WordsValue, Window, Output, Term;
    WordsOf(j, nbits);
    var k := Words(nbits);
    WordsSplit(s, j, k);
    WordsBound(s, j);
    Pow2Add(32 * j, nbits);
    CutHigh(WordsValue(s, j), WordsValue(Window(s, j), k), Pow2(32 * j), Pow2(nbits));
    DivModUnique(WordsValue(s, j), Pow2(32 * j), 0, WordsValue(s, j));
  }

  lemma WordsOf(j: nat, nbits: nat)
    ensures Words(32 * j + nbits) == j + Words(nbits) && Words(32 * j) == j
  {
  }

  lemma CutHigh(v: int, w: int, p: int, e: int)
    requires 0 <= v < p && e >= 1
    ensures p * e >= 1 && (v + p * w) % (p * e) == v + p * (w % e)
  {
    var q, r := w / e, w % e;
    assert w == q * e + r;
    MulPos(p, e);
    assert p * (q * e + r) == q * (p * e) + p * r by { MulAssoc(p, q, e); MulAssoc(q, p, e); }
    DigitBelow(v, r, p, e);
    assert r * p == p * r && e * p == p * e;
    DivModUnique(v + p * w, p * e, q, v + p * r);
  }

  // __gmp_randget_mt ---------------------------------------------------------------------

  /** Limbs of b bits, the first one lowest. */
  function LimbsValue(d: seq<nat>, b: nat): nat {
    if d == [] then 0 else LimbsValue(d[..|d| - 1], b) + Shl(d[|d| - 1], b * (|d| - 1))
  }

  lemma LimbsValueSnoc(d: seq<nat>, x: nat, b: nat)
    ensures LimbsValue(d + [x], b) == LimbsValue(d, b) + x * Pow2(b * |d|)
  {
    assert (d + [x])[..|d|] == d;
  }

  lemma NextArrayLimb(dest: array<nat>, i: nat, d: seq<nat>, b: nat)
    requires i < dest.Length && dest[..i] == d
    ensures LimbsValue(dest[..i + 1], b) == LimbsValue(d, b) + dest[i] * Pow2(b * i)
  {
    assert dest[..i + 1] == d + [dest[i]];
    LimbsValueSnoc(d, dest[i], b);
  }

  /** The word after k words that were drawn from u. */
  lemma NextWord(u: seq<Word>, k: nat)
    requires |u| == N
    ensures Temper(Window(u, k)[0]) == Output(u, k)
    ensures Window(Window(u, k), 1) == Window(u, k + 1)
    ensures WordsValue(u, k + 1) == WordsValue(u, k) + Output(u, k) * Pow2(32 * k)
  {
    hide Temper, Term, Pow2;
    WindowOfWindow(u, k, 1);
    assert Window(u, k)[0] == Term(u, k + 0);
    assert WordsValue(u, k + 1) == WordsValue(u, k) + Shl(Output(u, k), 32 * k);
  }

  /** The 32-bit path */
  method RandGet32(state: MtState, dest: array<nat>, nbits: nat)
    requires state.Valid() && dest.Length >= Words(nbits) && dest as object != state.mt as object
    modifies state, state.mt, dest
    ensures state.Valid() && state.Upcoming() == Window(old(state.Upcoming()), Words(nbits))
    ensures LimbsValue(dest[..Words(nbits)], 32) == Random(old(state.Upcoming()), nbits)
    ensures forall i :: Words(nbits) <= i < dest.Length ==> dest[i] == old(dest[i])
  {
    hide Term, Temper, Window, Pow2, LimbsValue, WordsValue, Output, MtState.Valid, MtState.Upcoming;
    ghost var u := state.Upcoming();
    var nlimbs := nbits / 32;
    var rbits := nbits % 32;
    WindowFirst(u);
    NoWords(u);
    for i := 0 to nlimbs
      invariant state.Valid() && state.Upcoming() == Window(u, i)
      invariant LimbsValue(dest[..i], 32) == WordsValue(u, i)
      invariant forall k :: i <= k < dest.Length ==> dest[k] == old(dest[k])
    {
      ghost var d := dest[..i];
      NextWord(u, i);
      var y := state.NextRandom();
      assert dest[..i] == d;
      dest[i] := y;
      NextArrayLimb(dest, i, d, 32);
    }
    if rbits != 0 {
      ghost var d := dest[..nlimbs];
      NextWord(u, nlimbs);
      var y := state.NextRandom();
      dest[nlimbs] := And(y, Ones(rbits));
      assert dest[..nlimbs] == d;
      NextArrayLimb(dest, nlimbs, d, 32);
    }
    RandomEnd(u, nlimbs, rbits);
  }

  lemma NoWords(u: seq<Word>)
    requires |u| == N
    ensures WordsValue(u, 0) == 0 && LimbsValue([], 32) == 0 && LimbsValue([], 64) == 0
  {
  }

  /** k whole words and rbits bits of the next one. */
  lemma RandomEnd(u: seq<Word>, k: nat, rbits: nat)
    requires |u| == N && rbits < 32
    ensures rbits == 0 ==> Words(32 * k + rbits) == k
    ensures rbits == 0 ==> Random(u, 32 * k + rbits) == WordsValue(u, k)
    ensures rbits > 0 ==> Words(32 * k + rbits) == k + 1
    ensures rbits > 0 ==> Random(u, 32 * k + rbits) == WordsValue(u, k) + And(Output(u, k), Ones(rbits)) * Pow2(32 * k)
  {
    hide Pow2, Window, Output, And, WordsValue;
    WordsOf(k, rbits);
    WordsBound(u, k);
    if rbits == 0 {
      DivModUnique(WordsValue(u, k), Pow2(32 * k), 0, WordsValue(u, k));
    } else {
      assert Words(rbits) == 1;
      AndOnes(Output(u, k), rbits);
      CutWord(u, k, rbits);
    }
  }

  lemma CutWord(u: seq<Word>, k: nat, rbits: nat)
    requires |u| == N
    ensures WordsValue(u, k + 1) % Pow2(32 * k + rbits) == WordsValue(u, k) + Output(u, k) % Pow2(rbits) * Pow2(32 * k)
  {
    hide Pow2, Output;
    var o, p := Output(u, k), Pow2(32 * k);
    Pow2Add(32 * k, rbits);
    WordsBound(u, k);
    CutHigh(WordsValue(u, k), o, p, Pow2(rbits));
    assert p * (o % Pow2(rbits)) == o % Pow2(rbits) * p && p * o == o * p;
  }

  /** Two words as one 64-bit limb. */
  lemma TwoWords(u: seq<Word>, k: nat, low: nat, high: nat)
    requires |u| == N && low < Pow2(32)
    ensures Or(low, high * Pow2(32)) == low + high * Pow2(32)
    ensures Or(low, high * Pow2(32)) * Pow2(32 * k) == low * Pow2(32 * k) + high * Pow2(32 * (k + 1))
  {
    hide Pow2, Or;
    MulMono(0, high, Pow2(32));
    OrComm(low, high * Pow2(32));
    OrIsAdd(high, low, 32);
    Pow2Add(32, 32 * k);
    var p, q := Pow2(32), Pow2(32 * k);
    assert (low + high * p) * q == low * q + (high * p) * q;
    MulAssoc(high, p, q);
  }

  /** The words of one full limb are put together. */
  method WholeLimb(state: MtState, dest: array<nat>, i: nat)
    requires state.Valid() && i < dest.Length && dest as object != state.mt as object
    modifies state, state.mt, dest
    ensures state.Valid() && state.Upcoming() == Window(old(state.Upcoming()), 2)
    ensures dest[i] == Output(old(state.Upcoming()), 0) + Output(old(state.Upcoming()), 1) * Pow2(32)
    ensures forall k :: 0 <= k < dest.Length && k != i ==> dest[k] == old(dest[k])
  {
    hide Term, Temper, Window, Pow2, WordsValue, Output, Or, MtState.Valid, MtState.Upcoming;
    ghost var u := state.Upcoming();
    WindowFirst(u);
    NextWord(u, 0);
    NextWord(u, 1);
    OutputBound(u, 0);
    var y := state.NextRandom();
    dest[i] := y;
    y := state.NextRandom();
    TwoWords(u, 0, dest[i], y);
    dest[i] := Or(dest[i], y * Pow2(32));
  }

  /** The 64-bit path */
  method RandGet64(state: MtState, dest: array<nat>, nbits: nat)
    requires state.Valid() && dest.Length >= (nbits + 63) / 64 && dest as object != state.mt as object
    modifies state, state.mt, dest
    ensures state.Valid() && state.Upcoming() == Window(old(state.Upcoming()), Words(nbits))
    ensures LimbsValue(dest[..(nbits + 63) / 64], 64) == Random(old(state.Upcoming()), nbits)
    ensures forall i :: (nbits + 63) / 64 <= i < dest.Length ==> dest[i] == old(dest[i])
  {
    hide Term, Temper, Window, Pow2, LimbsValue, WordsValue, Output, Or, And, MtState.Valid, MtState.Upcoming;
    ghost var u := state.Upcoming();
    var nlimbs := nbits / 64;
    var rbits := nbits % 64;
    WindowFirst(u);
    NoWords(u);
    for i := 0 to nlimbs
      invariant state.Valid() && state.Upcoming() == Window(u, 2 * i)
      invariant LimbsValue(dest[..i], 64) == WordsValue(u, 2 * i)
      invariant forall k :: i <= k < dest.Length ==> dest[k] == old(dest[k])
    {
      ghost var d := dest[..i];
      WholeLimb(state, dest, i);
      assert dest[..i] == d;
      NextArrayLimb(dest, i, d, 64);
      TwoMoreWords(u, 2 * i, dest[i]);
      WindowOfWindow(u, 2 * i, 2);
    }
    if rbits != 0 {
      ghost var d := dest[..nlimbs];
      LastLimb(state, dest, nlimbs, rbits, u);
      assert dest[..nlimbs] == d;
      NextArrayLimb(dest, nlimbs, d, 64);
    } else {
      RandomEnd(u, 2 * nlimbs, 0);
    }
  }

  lemma TwoMoreWords(u: seq<Word>, k: nat, x: nat)
    requires |u| == N && x == Output(Window(u, k), 0) + Output(Window(u, k), 1) * Pow2(32)
    ensures WordsValue(u, k + 2) == WordsValue(u, k) + x * Pow2(32 * k)
  {
    hide Term, Temper, Window, Pow2, Output, Or, WordsValue;
    OutputLater(u, k, 0);
    OutputLater(u, k, 1);
    NextWord(u, k);
    NextWord(u, k + 1);
    OutputBound(u, k);
    TwoWords(u, k, Output(u, k), Output(u, k + 1));
  }

  /** The last limb of the 64-bit path */
  method LastLimb(state: MtState, dest: array<nat>, nlimbs: nat, rbits: nat, ghost u: seq<Word>)
    requires state.Valid() && nlimbs < dest.Length && dest as object != state.mt as object
    requires 0 < rbits < 64 && |u| == N && state.Upcoming() == Window(u, 2 * nlimbs)
    modifies state, state.mt, dest
    ensures state.Valid() && state.Upcoming() == Window(u, Words(64 * nlimbs + rbits))
    ensures Random(u, 64 * nlimbs + rbits) == WordsValue(u, 2 * nlimbs) + dest[nlimbs] * Pow2(64 * nlimbs)
    ensures forall k :: 0 <= k < dest.Length && k != nlimbs ==> dest[k] == old(dest[k])
  {
    hide Term, Temper, Window, Pow2, WordsValue, Output, Or, And, Random, MtState.Valid, MtState.Upcoming;
    var k := 2 * nlimbs;
    NextWord(u, k);
    var y := state.NextRandom();
    if rbits < 32 {
      RandomEnd(u, k, rbits);
      dest[nlimbs] := And(y, Ones(rbits));
    } else {
      dest[nlimbs] := y;
      RandomEnd(u, k + 1, rbits - 32);
      if rbits > 32 {
        NextWord(u, k + 1);
        OutputBound(u, k);
        y := state.NextRandom();
        var high := And(y, Ones(rbits - 32));
        TwoWords(u, k, dest[nlimbs], high);
        dest[nlimbs] := Or(dest[nlimbs], high * Pow2(32));
      }
    }
  }
}
