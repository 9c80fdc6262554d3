/** Bit access and shifts of dumbmp.c. */
module MpzBits {
  import opened Arith
  import opened Bits
  import opened Limbs
  import opened Dumbmp
  import opened MpzArith

  lemma {:induction false} BPowIsPow2(i: nat)
    ensures BPow(i) == Pow2(GMP_LIMB_BITS * i)
  {
    if i == 0 {
      assert GMP_LIMB_BITS * i == 0;
    } else {
      BPowIsPow2(i - 1);
      BPowSucc(i - 1);
      assert GMP_LIMB_BITS * i == GMP_LIMB_BITS + GMP_LIMB_BITS * (i - 1);
      Pow2Add(GMP_LIMB_BITS, GMP_LIMB_BITS * (i - 1));
    }
  }

  /** Bit number bcnt is bit number bcnt % LIMB_BITS of limb bcnt / LIMB_BITS. */
  lemma BitPosition(bcnt: nat)
    ensures var l := bcnt / GMP_LIMB_BITS;
            var k := bcnt % GMP_LIMB_BITS;
            && l >= 0 && 0 <= k < GMP_LIMB_BITS
            && Pow2(bcnt) == BPow(l) * Pow2(k)
            && Base() == Pow2(k) * Pow2(GMP_LIMB_BITS - k)
  {
    hide Pow2, BPow;
    DivBounds(bcnt, GMP_LIMB_BITS);
    var l, k := bcnt / GMP_LIMB_BITS, bcnt % GMP_LIMB_BITS;
    BPowIsPow2(l);
    assert GMP_LIMB_BITS * l + k == bcnt;
    Pow2Add(GMP_LIMB_BITS * l, k);
    assert k + (GMP_LIMB_BITS - k) == GMP_LIMB_BITS;
    Pow2Add(k, GMP_LIMB_BITS - k);
    BaseIsPow2();
  }

  lemma BaseIsPow2()
    ensures Base() == Pow2(GMP_LIMB_BITS)
  {
  }

  /** A value around its limb l. */
  lemma AroundLimb(s: seq<nat>, l: nat)
    requires l < |s|
    ensures Val(s) == Val(s[..l]) + BPow(l) * (s[l] + Base() * Val(s[l + 1..]))
  {
    hide Val, BPow;
    SplitLimbs(s, l + 1);
    assert s[..l + 1][..l] == s[..l];
    ValPrefix(s, l);
    BPowSucc(l);
    Around(Val(s[..l]), s[l], Val(s[l + 1..]), BPow(l), BPow(l + 1), Base());
  }

  lemma Around(v: int, x: int, w: int, p: int, q: int, b: int)
    requires q == b * p
    ensures v + x * p + q * w == v + p * (x + b * w)
  {
    assert p * (x + b * w) == p * x + p * (b * w);
    assert (b * p) * w == p * (b * w) by { MulAssoc(p, b, w); }
  }

  // Single bits --------------------------------------------------------------------

  lemma BitOfSum(v: int, x: int, w: int, p: int, b: int, e: int, f: int)
    requires p >= 1 && e >= 1 && f >= 1 && b == e * (2 * f) && 0 <= v < p && x >= 0 && w >= 0
    ensures p * e >= 1
    ensures (v + p * (x + b * w)) / (p * e) % 2 == x / e % 2
  {
    var q := x / e;
    QuotientOfSum(v, x, w, p, b, e, f);
    assert (2 * f) * w == (f * w) * 2 by { MulAssoc(2, f, w); }
    ModAddMul(q, f * w, 2);
  }

  lemma QuotientOfSum(v: int, x: int, w: int, p: int, b: int, e: int, f: int)
    requires p >= 1 && e >= 1 && f >= 1 && b == e * (2 * f) && 0 <= v < p && x >= 0 && w >= 0
    ensures p * e >= 1
    ensures (v + p * (x + b * w)) / (p * e) == x / e + (2 * f) * w
  {
    var z := (2 * f) * w;
    MulPos(p, e);
    HigherPart(w, b, e, 2 * f);
    DivTwice(v, x + b * w, p, e);
    ModAddMul(x, z, e);
  }

  lemma HigherPart(w: int, b: int, e: int, g: int)
    requires b == e * g && w >= 0 && e >= 1 && g >= 1
    ensures b * w == (g * w) * e && b * w >= 0
  {
    MulAssoc(e, g, w);
    MulPos(e, g);
    MulMono(0, w, b);
  }

  /** Bit number bcnt of a value, in its limbs. */
  lemma BitInLimb(s: seq<nat>, bcnt: nat)
    requires AreLimbs(s)
    ensures var l := bcnt / GMP_LIMB_BITS;
            l >= 0 && Bit(Val(s), bcnt) == (if l < |s| then Bit(s[l], bcnt % GMP_LIMB_BITS) else 0)
  {
    hide Val, BPow, AreLimbs;
    var l, k := bcnt / GMP_LIMB_BITS, bcnt % GMP_LIMB_BITS;
    BitPosition(bcnt);
    if l < |s| {
      AroundLimb(s, l);
      LimbsPrefix(s, l);
      ValBound(s[..l]);
      var f := Pow2(GMP_LIMB_BITS - k - 1);
      assert Pow2(GMP_LIMB_BITS - k) == 2 * f;
      BitOfSum(Val(s[..l]), s[l], Val(s[l + 1..]), BPow(l), Base(), Pow2(k), f);
    } else {
      ValBound(s);
      PowMonoExp(Base(), |s|, l);
      TooBig(Val(s), |s|, l, Pow2(k), Pow2(bcnt));
    }
  }

  lemma TooBig(v: int, n: nat, l: nat, e: int, p: int)
    requires n <= l && e >= 1 && 0 <= v < BPow(n) && p == BPow(l) * e
    ensures p > 0 && v / p % 2 == 0
  {
    PowMonoExp(Base(), n, l);
    MulMono(1, e, BPow(l));
    DivModUnique(v, p, 0, v);
  }

  /** mpz_tstbit */
  method TstBit(r: Mpz, bcnt: nat) returns (b: nat)
    requires r.Valid() && r.Value() >= 0        // the source aborts otherwise
    ensures b == Bit(r.Value(), bcnt)
  {
    hide Val, AreLimbs, Normal;
    SignBySize(r.Mag());
    BitInLimb(r.Mag(), bcnt);
    var limb := bcnt / GMP_LIMB_BITS;
    if r.size <= limb {
      return 0;
    }
    return Bit(r.d[limb], bcnt % GMP_LIMB_BITS);
  }

  /** A limb with a clear bit k has room for it. */
  lemma RoomForBit(x: nat, k: nat)
    requires k < GMP_LIMB_BITS && x < Base() && Bit(x, k) == 0
    ensures x + Pow2(k) < Base()
  {
    Pow2Add(k, GMP_LIMB_BITS - k);
    Room(x, Pow2(k), Pow2(GMP_LIMB_BITS - k - 1), Base());
  }

  lemma Room(x: int, e: int, f: int, b: int)
    requires e >= 1 && f >= 1 && b == e * (2 * f) && 0 <= x < b && x / e % 2 == 0
    ensures x + e < b
  {
    var q, r := x / e, x % e;
    assert x == q * e + r;
    if q >= 2 * f {
      MulMono(2 * f, q, e);
    }
    MulMono(q + 2, 2 * f, e);
    assert (q + 2) * e == q * e + 2 * e;
  }

  /** Replacing limb l changes the value by the difference at its weight. */
  lemma ReplaceLimb(s: seq<nat>, l: nat, y: nat)
    requires l < |s|
    ensures Val(s[l := y]) == Val(s) + (y - s[l]) * BPow(l)
  {
    hide Val, BPow;
    var t := s[l := y];
    AroundLimb(s, l);
    AroundLimb(t, l);
    assert t[..l] == s[..l] && t[l + 1..] == s[l + 1..];
    ScaleDiff(BPow(l), s[l], y, Base() * Val(s[l + 1..]));
  }

  lemma ScaleDiff(p: int, x: int, y: int, w: int)
    ensures p * (y + w) == p * (x + w) + (y - x) * p
  {
  }

  /** mpz_setbit */
  method SetBit(r: Mpz, bcnt: nat)
    requires r.Valid() && r.Value() >= 0        // the source aborts otherwise
    modifies r, r.d
    ensures r.Valid() && Owned(r)
    ensures r.Value() == old(r.Value()) + (if Bit(old(r.Value()), bcnt) == 1 then 0 else Pow2(bcnt))
  {
    hide Val, AreLimbs, Normal, Bit, Or, Pow2, BPow;
    SignBySize(r.Mag());
    BitPosition(bcnt);
    var rn: nat := r.size;
    var limb, bit := bcnt / GMP_LIMB_BITS, bcnt % GMP_LIMB_BITS;
    Realloc(r, limb + 1);
    ghost var m := r.Mag();
    assert m == r.d[..rn];
    ZeroExtend(r.d, rn, limb + 1);
    var n := if rn > limb + 1 then rn else limb + 1;
    ghost var s := r.d[..n];
    assert s[..rn] == m;
    r.d[limb] := Or(r.d[limb], Pow2(bit));
    ghost var t := r.d[..n];
    assert t == s[limb := Or(s[limb], Pow2(bit))];
    SetLimb(m, s, limb, bit, bcnt, rn);
    r.size := n;
    assert r.Mag() == t;
  }

  /** Setting bit k of limb l in the zero-extended limbs s of the normalized limbs m. */
  lemma SetLimb(m: seq<nat>, s: seq<nat>, l: nat, k: nat, bcnt: nat, rn: nat)
    requires AreLimbs(s) && rn <= |s| && m == s[..rn] && Normal(m) && Val(s) == Val(m)
    requires l < |s| && |s| == (if rn > l + 1 then rn else l + 1)
    requires k < GMP_LIMB_BITS && Pow2(bcnt) == BPow(l) * Pow2(k)
    requires l == bcnt / GMP_LIMB_BITS && k == bcnt % GMP_LIMB_BITS
    ensures var t := s[l := Or(s[l], Pow2(k))];
            && AreLimbs(t) && Normal(t)
            && Val(t) == Val(m) + (if Bit(Val(m), bcnt) == 1 then 0 else Pow2(bcnt))
  {
    hide Val, BPow, Pow2, Bit, Or;
    BitInLimb(s, bcnt);
    OrBit(s[l], k);
    var y := Or(s[l], Pow2(k));
    if Bit(s[l], k) == 0 {
      RoomForBit(s[l], k);
    }
    ReplaceLimb(s, l, y);
    WeightedDiff(y - s[l], BPow(l), Pow2(k), Pow2(bcnt), Bit(s[l], k));
    TopAfterSet(s, l, y, rn);
  }

  lemma WeightedDiff(diff: int, p: int, e: int, pe: int, bit: int)
    requires pe == p * e && diff == if bit == 1 then 0 else e
    ensures diff * p == if bit == 1 then 0 else pe
  {
  }

  lemma TopAfterSet(s: seq<nat>, l: nat, y: nat, rn: nat)
    requires l < |s| && |s| == (if rn > l + 1 then rn else l + 1) && y > 0
    requires rn > l + 1 ==> s[rn - 1] != 0
    ensures Normal(s[l := y])
  {
  }

  /** dumbmp.c:278-280 */
  method ZeroExtend(rp: array<nat>, rn: nat, n: nat)
    requires rn <= rp.Length && n <= rp.Length && AreLimbs(rp[..rn])
    modifies rp
    ensures rp[..rn] == old(rp[..rn])
    ensures var m := if rn > n then rn else n;
            AreLimbs(rp[..m]) && Val(rp[..m]) == old(Val(rp[..rn]))
  {
    ghost var m := rp[..rn];
    if rn < n {
      for i := rn to n
        invariant forall k | 0 <= k < rn :: rp[k] == old(rp[k])
        invariant forall k | rn <= k < i :: rp[k] == 0
      {
        rp[i] := 0;
      }
      assert rp[..n][..rn] == rp[..rn] == m;
      ExtendedValue(rp[..n], rn);
    }
  }

  lemma ExtendedValue(s: seq<nat>, rn: nat)
    requires rn <= |s| && AreLimbs(s[..rn]) && forall k | rn <= k < |s| :: s[k] == 0
    ensures AreLimbs(s) && Val(s) == Val(s[..rn])
  {
    SplitLimbs(s, rn);
    ValZeros(s[rn..]);
    assert BPow(rn) * 0 == 0;
  }

  // Right shift --------------------------------------------------------------------

  /** One limb of a right shift by k bits: x is the next limb of the operand. */
  lemma ShiftDigit(r: seq<nat>, low: nat, v: int, l0: int, x: nat, k: nat)
    requires 0 < k < GMP_LIMB_BITS && x < Base() && low < Pow2(GMP_LIMB_BITS - k)
    requires Pow2(k) * (Val(r) + low * BPow(|r|)) + l0 == v
    ensures var y := Or(low, LO(x * Pow2(GMP_LIMB_BITS - k)));
            var h := x / Pow2(k);
            && y < Base() && 0 <= h < Pow2(GMP_LIMB_BITS - k)
            && (low > 0 || h == 0 < x ==> y > 0)
            && Pow2(k) * (Val(r + [y]) + h * BPow(|r| + 1)) + l0 == v + x * BPow(|r| + 1)
  {
    hide Val, BPow, Pow2, LO, Or;
    var y := ShiftLimb(low, x, k);
    var h := x / Pow2(k);
    ValSnoc(r, y);
    BPowSucc(|r|);
    ShiftSum(Val(r), low, v, l0, x, Pow2(k), Pow2(GMP_LIMB_BITS - k), h, x % Pow2(k),
             BPow(|r|), BPow(|r| + 1), Base());
  }

  /** The limb a right shift composes of the high part of one limb and the low part of the next. */
  lemma ShiftLimb(low: nat, x: nat, k: nat) returns (y: nat)
    requires 0 < k < GMP_LIMB_BITS && x < Base() && low < Pow2(GMP_LIMB_BITS - k)
    ensures y == Or(low, LO(x * Pow2(GMP_LIMB_BITS - k)))
    ensures y == (x % Pow2(k)) * Pow2(GMP_LIMB_BITS - k) + low < Base()
    ensures Base() == Pow2(k) * Pow2(GMP_LIMB_BITS - k)
    ensures x == (x / Pow2(k)) * Pow2(k) + x % Pow2(k)
    ensures 0 <= x / Pow2(k) < Pow2(GMP_LIMB_BITS - k)
    ensures low > 0 || x / Pow2(k) == 0 < x ==> y > 0
  {
    hide Val, BPow, Pow2, LO, Or;
    var e, f := Pow2(k), Pow2(GMP_LIMB_BITS - k);
    BitPosition(k);
    DivModUnique(k, GMP_LIMB_BITS, 0, k);
    var h, b := x / e, x % e;
    ShiftParts(x, e, f, h, b, Base());
    LoOfShift(x, e, f, b, h);
    OrComm(low, b * f);
    OrIsAdd(b, low, GMP_LIMB_BITS - k);
    DigitBelow(low, b, f, e);
    MulMono(0, b, f);
    if h == 0 < x { MulPos(b, f); }
    y := b * f + low;
  }

  lemma ShiftParts(x: int, e: int, f: int, h: int, b: int, bs: int)
    requires e >= 1 && f >= 1 && bs == e * f && 0 <= x < bs && h == x / e && b == x % e
    ensures x == h * e + b && 0 <= b < e && 0 <= h < f
  {
    DivBounds(x, e);
    if h >= f {
      MulMono(f, h, e);
    }
  }

  lemma LoOfShift(x: int, e: int, f: int, b: int, h: int)
    requires e >= 1 && f >= 1 && Base() == e * f && x == h * e + b && 0 <= b < e
    ensures LO(x * f) == b * f
  {
    assert x * f == (h * e) * f + b * f;
    MulAssoc(h, e, f);
    DigitBelow(0, b, f, e);
    MulMono(0, b, f);
    DivModUnique(x * f, Base(), h, b * f);
  }

  lemma ShiftSum(r: int, low: int, v: int, l0: int, x: int, e: int, f: int, h: int, b: int, p: int, q: int, bs: int)
    requires e * (r + low * p) + l0 == v && x == h * e + b && bs == e * f && q == bs * p
    ensures e * ((r + (b * f + low) * p) + h * q) + l0 == v + x * q
  {
    assert (b * f + low) * p == (b * f) * p + low * p;
    assert e * ((r + ((b * f) * p + low * p)) + h * q) == e * (r + low * p) + e * ((b * f) * p) + e * (h * q);
    assert e * ((b * f) * p) == b * ((e * f) * p) by {
      MulAssoc(b, f, p);
      MulAssoc(e, b, f * p);
      MulAssoc(b, e, f * p);
      MulAssoc(e, f, p);
    }
    assert e * (h * q) == (h * e) * q by { MulAssoc(h, e, q); MulAssoc(e, h, q); }
    assert x * q == (h * e) * q + b * q;
  }

  /** The state of a right shift of the limbs s by k bits after j limbs. */
  ghost predicate Shifted(s: seq<nat>, k: nat, j: nat, r: seq<nat>, low: nat) {
    && 1 <= j <= |s| && |r| == j - 1 && AreLimbs(r) && k <= GMP_LIMB_BITS
    && low < Pow2(GMP_LIMB_BITS - k)
    && Pow2(k) * (Val(r) + low * BPow(|r|)) + s[0] % Pow2(k) == Val(s[..j])
    && (j >= 2 && low == 0 && s[j - 1] != 0 ==> r[j - 2] != 0)
  }

  lemma ShiftStep(s: seq<nat>, k: nat, j: nat, r: seq<nat>, low: nat)
    requires 0 < k < GMP_LIMB_BITS && j < |s| && AreLimbs(s) && Shifted(s, k, j, r, low)
    ensures Shifted(s, k, j + 1, r + [Or(low, LO(s[j] * Pow2(GMP_LIMB_BITS - k)))], s[j] / Pow2(k))
  {
    hide Val, BPow, Pow2, LO, Or, Base, AreLimbs;
    LimbsAt(s, j);
    ShiftDigit(r, low, Val(s[..j]), s[0] % Pow2(k), s[j], k);
    ValPrefix(s, j);
    LimbsSnoc(r, Or(low, LO(s[j] * Pow2(GMP_LIMB_BITS - k))));
  }

  lemma ShiftEnd(s: seq<nat>, k: nat, r: seq<nat>, low: nat)
    requires 0 < k < GMP_LIMB_BITS && AreLimbs(s) && Shifted(s, k, |s|, r, low)
    ensures low < Base() && AreLimbs(r + [low])
    ensures Val(r + [low]) == Val(s) / Pow2(k)
    ensures |s| >= 2 && low == 0 && s[|s| - 1] != 0 ==> r[|s| - 2] != 0
  {
    hide Val, BPow, Pow2;
    assert s[..|s|] == s;
    LowIsLimb(low, k);
    ValSnoc(r, low);
    QuotientIs(Val(s), Pow2(k), Val(r + [low]), s[0] % Pow2(k), Val(r) + low * BPow(|r|));
  }

  lemma QuotientIs(n: int, d: int, q: int, r: int, q': int)
    requires d > 0 && 0 <= r < d && n == d * q' + r && q == q'
    ensures n / d == q
  {
    DivModUnique(n, d, q, r);
  }

  /** dumbmp.c:545-560: shift the limbs from lcnt on right by cnt bits, in place or not. */
  method ShiftRight(rp: array<nat>, ap: array<nat>, lcnt: nat, rn: nat, cnt: nat) returns (low: nat)
    requires 1 <= rn <= rp.Length && lcnt + rn <= ap.Length && 0 < cnt < GMP_LIMB_BITS
    requires AreLimbs(ap[lcnt..lcnt + rn])
    modifies rp
    ensures AreLimbs(rp[..rn]) && rp[rn - 1] == low
    ensures Val(rp[..rn]) == old(Val(ap[lcnt..lcnt + rn]) / Pow2(cnt))
    ensures rn >= 2 && low == 0 && old(ap[lcnt + rn - 1]) != 0 ==> rp[rn - 2] != 0
  {
    hide Val, AreLimbs, BPow, Pow2, LO, Or, Shifted;
    ghost var s := ap[lcnt..lcnt + rn];
    ShiftStart(s, cnt);
    low := ap[lcnt] / Pow2(cnt);
    NoLimbs(rp);
    ghost var r := [];
    assert rp[..0] == r;
    for j := 1 to rn
      invariant ap[lcnt + j..lcnt + rn] == s[j..] && rp[..j - 1] == r
      invariant Shifted(s, cnt, j, r, low)
    {
      var high := ap[lcnt + j];
      assert high == ap[lcnt + j..lcnt + rn][0] == s[j];
      ShiftStep(s, cnt, j, r, low);
      assert ap[lcnt + j + 1..lcnt + rn] == ap[lcnt + j..lcnt + rn][1..] == s[j + 1..];
      rp[j - 1] := Or(low, LO(high * Pow2(GMP_LIMB_BITS - cnt)));
      low := high / Pow2(cnt);
      r := r + [rp[j - 1]];
    }
    ShiftEnd(s, cnt, r, low);
    rp[rn - 1] := low;
    assert rp[..rn] == r + [low];
  }

  lemma LowIsLimb(low: nat, k: nat)
    requires k <= GMP_LIMB_BITS && low < Pow2(GMP_LIMB_BITS - k)
    ensures low < Base()
  {
    Pow2Mono(GMP_LIMB_BITS - k, GMP_LIMB_BITS);
  }

  lemma ShiftStart(s: seq<nat>, k: nat)
    requires s != [] && AreLimbs(s) && 0 < k < GMP_LIMB_BITS
    ensures 0 <= s[0] % Pow2(k) < Pow2(k)
    ensures 0 <= s[0] / Pow2(k) < Pow2(GMP_LIMB_BITS - k)
    ensures Shifted(s, k, 1, [], s[0] / Pow2(k))
  {
    ValPrefix(s, 0);
    BitPosition(k);
    DivModUnique(k, GMP_LIMB_BITS, 0, k);
    ShiftParts(s[0], Pow2(k), Pow2(GMP_LIMB_BITS - k), s[0] / Pow2(k), s[0] % Pow2(k), Base());
  }

  lemma BPowMono(m: nat, n: nat)
    requires m <= n
    ensures BPow(m) <= BPow(n)
  {
    PowMonoExp(Base(), m, n);
  }

  lemma LimbsSnoc(r: seq<nat>, y: nat)
    requires AreLimbs(r) && y < Base()
    ensures AreLimbs(r + [y])
  {
  }

  /** A number without its low limbs and bits. */
  lemma DropLow(s: seq<nat>, bcnt: nat)
    requires AreLimbs(s)
    ensures var l := bcnt / GMP_LIMB_BITS;
            l >= 0 && Val(s) / Pow2(bcnt) == (if l < |s| then Val(s[l..]) / Pow2(bcnt % GMP_LIMB_BITS) else 0)
  {
    hide Val, BPow, Pow2, AreLimbs;
    var l, k := bcnt / GMP_LIMB_BITS, bcnt % GMP_LIMB_BITS;
    BitPosition(bcnt);
    if l < |s| {
      SplitLimbs(s, l);
      LimbsPrefix(s, l);
      ValBound(s[..l]);
      DivTwice(Val(s[..l]), Val(s[l..]), BPow(l), Pow2(k));
    } else {
      ValBound(s);
      BPowMono(|s|, l);
      MulMono(1, Pow2(k), BPow(l));
      DivModUnique(Val(s), Pow2(bcnt), 0, Val(s));
    }
  }

  lemma DivTwice(v: int, w: int, p: int, e: int)
    requires 0 <= v < p && e >= 1 && w >= 0
    ensures p * e >= 1 && (v + p * w) / (p * e) == w / e
  {
    var q, r := w / e, w % e;
    assert w == q * e + r;
    MulPos(p, e);
    assert p * (q * e + r) == q * (p * e) + p * r by { MulAssoc(p, q, e); MulAssoc(q, p, e); }
    DigitBelow(v, r, p, e);
    MulMono(0, r, p);
    DivModUnique(v + p * w, p * e, q, v + p * r);
  }

  /** mpz_tdiv_q_2exp: the quotient rounds toward zero. */
  method TdivQ2exp(r: Mpz, a: Mpz, bcnt: nat)
    requires r.Valid() && a.Valid() && Apart(r, a)
    modifies r, r.d
    ensures r.Valid() && Owned(r)
    ensures var v := old(a.Value());
            r.Value() == if v >= 0 then v / Pow2(bcnt) else -((-v) / Pow2(bcnt))
  {
    hide Val, AreLimbs, BPow, Pow2, Normal;
    ghost var s := a.Mag();
    var negative := a.size < 0;
    SignBySize(s);
    DropLow(s, bcnt);
    WholeLimbs(bcnt);
    SignedQuotient(a.Value(), Val(s), Val(s) / Pow2(bcnt), Pow2(bcnt), negative);
    var lcnt := bcnt / GMP_LIMB_BITS;
    var rn := Abs(a.size) - lcnt;
    if rn <= 0 {
      r.size := 0;
      assert r.Mag() == [];
      EmptyIsZero();
      return;
    }
    Realloc(r, rn);
    assert s[lcnt..] == a.d[lcnt..lcnt + rn];
    LimbsTail(s, lcnt);
    var cnt := bcnt % GMP_LIMB_BITS;
    if cnt != 0 {
      assert a.d[lcnt + rn - 1] == s[|s| - 1];
      NormalTop(s);
      var low := ShiftRight(r.d, a.d, lcnt, rn, cnt);
      ShiftedTop(r.d[..rn]);
      Finish2(r, rn, if low == 0 then rn - 1 else rn, negative);
    } else {
      CopyLimbs(r.d, a.d, lcnt, rn);
      DivByOne(Val(s[lcnt..]));
      NormalTop(s);
      Finish2(r, rn, rn, negative);
    }
  }

  /** The quotient of a signed value is that of its magnitude, with the sign. */
  lemma SignedQuotient(v: int, m: int, q: int, p: int, negative: bool)
    requires p >= 1 && m >= 0 && q == m / p && v == (if negative then 0 - m else m) && (negative ==> m > 0)
    ensures (if v >= 0 then v / p else -((-v) / p)) == if negative then 0 - q else q
  {
  }

  lemma WholeLimbs(bcnt: nat)
    ensures bcnt / GMP_LIMB_BITS >= 0 && 0 <= bcnt % GMP_LIMB_BITS < GMP_LIMB_BITS
  {
    DivBounds(bcnt, GMP_LIMB_BITS);
  }

  lemma EmptyIsZero()
    ensures Val([]) == 0 && AreLimbs([]) && Normal([])
  {
  }

  lemma NormalTop(s: seq<nat>)
    requires Normal(s) && s != []
    ensures s[|s| - 1] != 0
  {
  }

  lemma DivByOne(v: int)
    ensures v / Pow2(0) == v
  {
  }

  /** Dropping a zero top limb keeps the value. */
  lemma ShiftedTop(s: seq<nat>)
    requires s != [] && AreLimbs(s)
    ensures s[|s| - 1] == 0 ==> Val(s[..|s| - 1]) == Val(s)
  {
    MulZero(s[|s| - 1], BPow(|s| - 1));
  }

  /** Give r the value of its first rn limbs, of which n are needed. */
  method Finish2(r: Mpz, rn: nat, n: nat, negative: bool)
    requires n <= rn <= r.d.Length && AreLimbs(r.d[..rn])
    requires n == rn || (n == rn - 1 && Val(r.d[..rn][..rn - 1]) == Val(r.d[..rn]))
    requires n > 0 ==> r.d[n - 1] != 0
    modifies r`size
    ensures r.Valid()
    ensures r.Value() == if negative then 0 - Val(r.d[..rn]) else Val(r.d[..rn])
  {
    hide Val, AreLimbs;
    assert r.d[..rn][..n] == r.d[..n] && r.d[..rn][..rn] == r.d[..rn];
    LimbsPrefix(r.d[..rn], n);
    SignBySize(r.d[..n]);
    var k: int := n;
    r.size := if negative then -k else k;
    assert r.Mag() == r.d[..n];
  }

  // Truncation ---------------------------------------------------------------------

  /** Keeping the limbs below l and masking limb l to k bits. */
  lemma MaskedValue(s: seq<nat>, bcnt: nat)
    requires AreLimbs(s) && bcnt / GMP_LIMB_BITS < |s|
    ensures var l := bcnt / GMP_LIMB_BITS;
            && l >= 0
            && Val(s[..l] + [And(s[l], Ones(bcnt % GMP_LIMB_BITS))]) == Val(s) % Pow2(bcnt)
  {
    hide Val, BPow, Pow2, And, AreLimbs;
    var l, k := bcnt / GMP_LIMB_BITS, bcnt % GMP_LIMB_BITS;
    BitPosition(bcnt);
    AndOnes(s[l], k);
    AroundLimb(s, l);
    LimbsPrefix(s, l);
    ValBound(s[..l]);
    ValSnoc(s[..l], s[l] % Pow2(k));
    MaskedMod(Val(s[..l]), s[l], Val(s[l + 1..]), BPow(l), Pow2(k), Pow2(GMP_LIMB_BITS - k), Base());
  }

  lemma MaskedMod(v: int, x: int, w: int, p: int, e: int, f: int, b: int)
    requires 0 <= v < p && e >= 1 && b == e * f
    ensures p * e > 0 && (v + p * (x + b * w)) % (p * e) == v + (x % e) * p
  {
    var q, r := x / e, x % e;
    assert x == q * e + r;
    MulPos(p, e);
    assert (e * f) * w == (f * w) * e by { MulAssoc(e, f, w); }
    assert (q * e + r) + (f * w) * e == (q + f * w) * e + r;
    var z := q + f * w;
    assert p * (z * e + r) == z * (p * e) + p * r by { MulAssoc(p, z, e); MulAssoc(z, p, e); }
    DigitBelow(v, r, p, e);
    MulMono(0, r, p);
    DivModUnique(v + p * (x + b * w), p * e, z, v + p * r);
  }

  /** mpz_tdiv_r_2exp: the remainder has the sign of the operand. */
  method TdivR2exp(r: Mpz, a: Mpz, bcnt: nat)
    requires r.Valid() && a.Valid() && Apart(r, a)
    modifies r, r.d
    ensures r.Valid() && Owned(r)
    ensures var v := old(a.Value());
            r.Value() == if v >= 0 then v % Pow2(bcnt) else -((-v) % Pow2(bcnt))
  {
    hide Val, AreLimbs, BPow, Pow2, Normal, And;
    Set(r, a);
    ghost var s := r.Mag();
    var negative := r.size < 0;
    SignBySize(s);
    var bwhole := bcnt / GMP_LIMB_BITS;
    if Abs(r.size) > bwhole {
      MaskedValue(s, bcnt);
      MaskedLimbs(s, bwhole, bcnt % GMP_LIMB_BITS);
      r.d[bwhole] := And(r.d[bwhole], Ones(bcnt % GMP_LIMB_BITS));
      assert r.d[..bwhole + 1] == s[..bwhole] + [And(s[bwhole], Ones(bcnt % GMP_LIMB_BITS))];
      Finish(r, bwhole + 1, negative);
    } else {
      DropLow(s, bcnt);
      DivBounds(Val(s), Pow2(bcnt));
      assert 0 * Pow2(bcnt) == 0;
    }
  }

  /** mpz_fdiv_r_2exp, for operands of either sign: the remainder is not negative. */
  method FdivR2exp(r: Mpz, a: Mpz, bcnt: nat)
    requires r.Valid() && a.Valid() && Apart(r, a)
    modifies r, r.d
    ensures r.Valid() && Owned(r) && r.Value() == old(a.Value()) % Pow2(bcnt)
  {
    hide Mpz.Valid, Mpz.Value, Pow2, Bit;
    ghost var v := a.Value();
    BaseSquare();
    TdivR2exp(r, a, bcnt);
    NegativeMod(v, Pow2(bcnt));
    var s := Sgn(r);
    if s < 0 {
      var modulus := InitSetUi(0);
      NoBit(bcnt);
      SetBit(modulus, bcnt);
      ChangeSign(r);
      SubLess(r, modulus, r);
    } else {
      ResidueRange(v, -v, Pow2(bcnt));
    }
  }

  lemma NoBit(n: nat)
    ensures Bit(0, n) == 0
  {
    DivModUnique(0, Pow2(n), 0, 0);
  }

  lemma ResidueRange(v: int, w: int, p: int)
    requires p > 0
    ensures 0 <= v % p < p && 0 <= w % p < p
  {
  }

  lemma MaskedLimbs(s: seq<nat>, l: nat, k: nat)
    requires AreLimbs(s) && l < |s|
    ensures AreLimbs(s[..l] + [And(s[l], Ones(k))])
  {
  }

  // Size in bits -------------------------------------------------------------------

  /** mpz_sizeinbase (a, 2): the position of the top bit, whatever the sign. */
  method SizeInBase2(a: Mpz) returns (n: nat)
    requires a.Valid()
    ensures a.Value() == 0 ==> n == 1
    ensures a.Value() != 0 ==> n >= 1 && Pow2(n - 1) <= Abs(a.Value()) < Pow2(n)
  {
    hide Val, AreLimbs, BPow, Normal;
    ghost var s := a.Mag();
    SignBySize(s);
    var an := Abs(a.size);
    if an == 0 {
      return 1;
    }
    NormalTop(s);
    LimbsAt(s, an - 1);
    var cnt: nat := 0;
    var hi := a.d[an - 1];
    TopBitsInit(s[an - 1]);
    while hi != 0
      invariant hi == s[an - 1] / Pow2(cnt)
      invariant hi == 0 ==> cnt > 0 && s[an - 1] / Pow2(cnt - 1) == 1
      decreases hi
    {
      DivByHalf(s[an - 1], cnt);
      hi := hi / 2;
      cnt := cnt + 1;
    }
    TopBits(s, cnt);
    n := (an - 1) * GMP_LIMB_BITS + cnt;
  }

  lemma TopBitsInit(x: nat)
    requires x > 0
    ensures x / Pow2(0) == x
  {
  }

  lemma DivByHalf(x: nat, c: nat)
    ensures x / Pow2(c) / 2 == x / Pow2(c + 1)
    ensures x / Pow2(c) >= 0
    ensures x / Pow2(c) / 2 == 0 ==> x / Pow2(c) <= 1
  {
    var p := Pow2(c);
    var q, r := x / p, x % p;
    DivBounds(x, p);
    assert x == q * p + r && q == 2 * (q / 2) + q % 2;
    assert q * p == (q / 2) * (2 * p) + (q % 2) * p;
    assert (q % 2) * p == 0 || (q % 2) * p == p;
    DivModUnique(x, 2 * p, q / 2, (q % 2) * p + r);
  }

  lemma TopBits(s: seq<nat>, cnt: nat)
    requires s != [] && AreLimbs(s) && cnt > 0
    requires s[|s| - 1] / Pow2(cnt) == 0 && s[|s| - 1] / Pow2(cnt - 1) == 1
    ensures var n := (|s| - 1) * GMP_LIMB_BITS + cnt;
            Pow2(n - 1) <= Val(s) < Pow2(n)
  {
    hide BPow, AreLimbs;
    var l := |s| - 1;
    var x := s[l];
    LimbsPrefix(s, l);
    ValBound(s[..l]);
    assert s[..l + 1] == s;
    ValPrefix(s, l);
    BPowIsPow2(l);
    assert l * GMP_LIMB_BITS == GMP_LIMB_BITS * l;
    Pow2Add(GMP_LIMB_BITS * l, cnt);
    Pow2Add(GMP_LIMB_BITS * l, cnt - 1);
    TopRange(Val(s[..l]), x, BPow(l), Pow2(cnt - 1));
  }

  lemma TopRange(v: int, x: int, p: int, e: int)
    requires 0 <= v < p && e >= 1 && 2 * e > 0 && x / (2 * e) == 0 && x / e == 1
    ensures p * e <= v + x * p < p * (2 * e)
  {
    assert x == 1 * e + x % e;
    assert x == 0 * (2 * e) + x % (2 * e);
    MulMono(e, x, p);
    DigitBelow(v, x, p, 2 * e);
  }
}
