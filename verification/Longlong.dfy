/** The portable double-word arithmetic of longlong.h, for any even word size. */
module Longlong {
  import opened Arith
  import opened Bits

  /** Half a word and a word, as moduli: UWtype has 2 * h bits. */
  function Half(h: nat): (r: int)
    ensures r >= 1
  {
    Pow2(h)
  }

  function Word(h: nat): (r: int)
    ensures r >= 1
  {
    Pow2(2 * h)
  }

  lemma WordIsHalfSquared(h: nat)
    ensures Word(h) == Half(h) * Half(h)
  {
    Pow2Add(h, h);
  }

  /** The value of a word x that has wrapped around. */
  function Wrap(x: int, h: nat): (r: nat)
    ensures r < Word(h)
  {
    x % Word(h)
  }

  lemma WrapOnce(x: int, h: nat)
    ensures 0 <= x < Word(h) ==> Wrap(x, h) == x
    ensures Word(h) <= x < 2 * Word(h) ==> Wrap(x, h) == x - Word(h)
    ensures 0 <= x + Word(h) < Word(h) ==> Wrap(x, h) == x + Word(h)
  {
    var w: int := Word(h);
    if 0 <= x < w { DivModUnique(x, w, 0, x); }
    if w <= x < 2 * w { DivModUnique(x, w, 1, x - w); }
    if 0 <= x + w < w { DivModUnique(x, w, -1, x + w); }
  }

  function HighPart(x: nat, h: nat): nat { DivBounds(x, Half(h)); x / Half(h) }
  function LowPart(x: nat, h: nat): nat { x % Half(h) }

  lemma Parts(x: nat, h: nat)
    requires x < Word(h)
    ensures x == HighPart(x, h) * Half(h) + LowPart(x, h)
    ensures HighPart(x, h) < Half(h) && LowPart(x, h) < Half(h)
  {
    WordIsHalfSquared(h);
    if HighPart(x, h) >= Half(h) {
      MulMono(Half(h), HighPart(x, h), Half(h));
    }
  }

  /** hi:lo as one number. */
  function Double(hi: nat, lo: nat, h: nat): nat {
    hi * Word(h) + lo
  }

  // add_ssaaaa, sub_ddmmss --------------------------------------------------

  lemma Distribute(a: int, b: int, c: int, w: int)
    ensures (a + b + c) * w == a * w + b * w + c * w
    ensures (-b) * w == -(b * w)
  {
  }

  method AddSsaaaa(ah: nat, al: nat, bh: nat, bl: nat, h: nat) returns (sh: nat, sl: nat)
    requires ah < Word(h) && al < Word(h) && bh < Word(h) && bl < Word(h)
    ensures sh < Word(h) && sl < Word(h)
    ensures Double(sh, sl, h) == (Double(ah, al, h) + Double(bh, bl, h)) % (Word(h) * Word(h))
  {
    var x := Wrap(al + bl, h);
    sh := Wrap(ah + bh + (if x < al then 1 else 0), h);
    sl := x;
    WrapOnce(al + bl, h);
    DoubleMod(ah + bh + (if x < al then 1 else 0), x, h);
    Distribute(ah, bh, if x < al then 1 else 0, Word(h));
  }

  method SubDdmmss(ah: nat, al: nat, bh: nat, bl: nat, h: nat) returns (sh: nat, sl: nat)
    requires ah < Word(h) && al < Word(h) && bh < Word(h) && bl < Word(h)
    ensures sh < Word(h) && sl < Word(h)
    ensures Double(sh, sl, h) == (Double(ah, al, h) - Double(bh, bl, h)) % (Word(h) * Word(h))
  {
    var x := Wrap(al - bl, h);
    sh := Wrap(ah - bh - (if al < bl then 1 else 0), h);
    sl := x;
    WrapOnce(al - bl, h);
    DoubleMod(ah - bh - (if al < bl then 1 else 0), x, h);
    ghost var a: int, b: int := ah, bh;
    Distribute(a, -b, if al < bl then -1 else 0, Word(h));
    Distribute(a, b, 0, Word(h));
  }

  /** Reducing the high word modulo W reduces hi:lo modulo W * W. */
  lemma DoubleMod(hi: int, lo: nat, h: nat)
    requires lo < Word(h)
    ensures Double(Wrap(hi, h), lo, h) == (hi * Word(h) + lo) % (Word(h) * Word(h))
  {
    DoubleModInt(hi, lo, Word(h));
  }

  lemma DoubleModInt(hi: int, lo: int, w: int)
    requires 0 <= lo < w
    ensures w * w > 0 && (hi % w) * w + lo == (hi * w + lo) % (w * w)
  {
    var q, r := hi / w, hi % w;
    MulPos(w, w);
    MulMono(r, w - 1, w);
    assert (w - 1) * w == w * w - w;
    assert hi == q * w + r;
    assert hi * w == (q * w) * w + r * w;
    MulAssoc(q, w, w);
    MulMono(0, r, w);
    DivModUnique(hi * w + lo, w * w, q, r * w + lo);
  }

  // umul_ppmm ---------------------------------------------------------------

  /** Half-word products and what the first addition leaves below the word size. */
  lemma HalfProduct(a: nat, b: nat, c: nat, h: nat)
    requires a < Half(h) && b < Half(h) && c < Half(h)
    ensures a * b + c < Word(h)
  {
    WordIsHalfSquared(h);
    HalfProductInt(a, b, Half(h));
  }

  lemma HalfProductInt(a: int, b: int, B: int)
    requires 0 <= a < B && 0 <= b < B
    ensures 0 <= a * b <= B * B - 2 * B + 1
    ensures a * b + B <= B * B
  {
    MulMono(a, B - 1, b);
    MulMono(b, B - 1, B - 1);
    MulMono(0, a, b);
    assert (B - 1) * (B - 1) == B * B - 2 * B + 1;
  }

  /** The middle sum: only the second addition can carry, and the test x1 < x2 tells. */
  method UmulMiddle(x0: nat, ulvh: nat, x2: nat, h: nat) returns (x1: nat, carry: bool)
    requires x0 < Word(h) && x2 < Word(h) && ulvh + HighPart(x0, h) < Word(h)
    ensures x1 < Word(h)
    ensures ulvh + HighPart(x0, h) + x2 == x1 + if carry then Word(h) else 0
  {
    x1 := ulvh;
    WrapOnce(x1 + HighPart(x0, h), h);
    x1 := Wrap(x1 + HighPart(x0, h), h);       // this can't give carry
    WrapOnce(x1 + x2, h);
    x1 := Wrap(x1 + x2, h);                    // but this indeed can
    carry := x1 < x2;
  }

  /** x0..x3 are the four products of the half words of u and v. */
  ghost predicate AreHalfProducts(u: nat, v: nat, x0: nat, x1: nat, x2: nat, x3: nat, h: nat) {
    && x0 == LowPart(u, h) * LowPart(v, h)
    && x1 == LowPart(u, h) * HighPart(v, h)
    && x2 == HighPart(u, h) * LowPart(v, h)
    && x3 == HighPart(u, h) * HighPart(v, h)
  }

  method HalfProducts(u: nat, v: nat, h: nat) returns (x0: nat, x1: nat, x2: nat, x3: nat)
    requires u < Word(h) && v < Word(h)
    ensures x0 < Word(h) && x1 + HighPart(x0, h) < Word(h) && x2 < Word(h) && x3 < Word(h)
    ensures AreHalfProducts(u, v, x0, x1, x2, x3, h)
  {
    var ul, uh, vl, vh := LowPart(u, h), HighPart(u, h), LowPart(v, h), HighPart(v, h);
    Parts(u, h);
    Parts(v, h);
    x0 := HalfMultiply(ul, vl, h);
    x1 := HalfMultiply(ul, vh, h);
    x2 := HalfMultiply(uh, vl, h);
    x3 := HalfMultiply(uh, vh, h);
    Parts(x0, h);
    HalfProduct(ul, vh, HighPart(x0, h), h);
  }

  /** A product of half words as a word: it never wraps. */
  method HalfMultiply(a: nat, b: nat, h: nat) returns (p: nat)
    requires a < Half(h) && b < Half(h)
    ensures p == a * b < Word(h)
  {
    HalfProduct(a, b, 0, h);
    WrapOnce(a * b, h);
    p := Wrap(a * b, h);
  }

  method UmulPpmm(u: nat, v: nat, h: nat) returns (w1: nat, w0: nat)
    requires u < Word(h) && v < Word(h)
    ensures w1 < Word(h) && w0 < Word(h)
    ensures Double(w1, w0, h) == u * v
  {
    hide AreHalfProducts, HighPart, LowPart, Wrap, Half, Word, Double;
    var x0, ulvh, x2, x3 := HalfProducts(u, v, h);
    var x1, carry := UmulMiddle(x0, ulvh, x2, h);
    UmulTotal(u, v, x0, ulvh, x2, x3, x1, carry, h);
    UmulResult(u, v, x0, x1, x3, carry, h);
    if carry {
      x3 := Wrap(x3 + Half(h), h);
    }
    w1 := Wrap(x3 + HighPart(x1, h), h);
    w0 := Wrap(Wrap(x1 * Half(h), h) + LowPart(x0, h), h);
  }

  lemma UmulResult(u: nat, v: nat, x0: nat, x1: nat, x3: nat, carry: bool, h: nat)
    requires u < Word(h) && v < Word(h) && x0 < Word(h) && x1 < Word(h)
    requires (x3 + (if carry then Half(h) else 0) + HighPart(x1, h)) * Word(h)
             + (LowPart(x1, h) * Half(h) + LowPart(x0, h)) == u * v
    ensures var x := if carry then Wrap(x3 + Half(h), h) else x3;
            Double(Wrap(x + HighPart(x1, h), h), Wrap(Wrap(x1 * Half(h), h) + LowPart(x0, h), h), h) == u * v
  {
    hide HighPart, LowPart, Wrap, Half, Word, Double;
    var hi := x3 + (if carry then Half(h) else 0) + HighPart(x1, h);
    MulMono(0, LowPart(x1, h), Half(h));
    UmulHigh(hi, LowPart(x1, h) * Half(h) + LowPart(x0, h), u, v, Word(h));
    HighWraps(x3, carry, HighPart(x1, h), hi, h);
    Parts(x0, h);
    UmulLow(x1, LowPart(x0, h), h);
    DoubleIs(hi, LowPart(x1, h) * Half(h) + LowPart(x0, h), h);
  }

  lemma DoubleIs(hi: nat, lo: nat, h: nat)
    ensures Double(hi, lo, h) == hi * Word(h) + lo
  {
  }

  lemma HighWraps(x3: nat, carry: bool, x: nat, hi: int, h: nat)
    requires hi == x3 + (if carry then Half(h) else 0) + x < Word(h)
    ensures Wrap((if carry then Wrap(x3 + Half(h), h) else x3) + x, h) == hi
  {
    hide Wrap, Word, Half;
    WrapOnce(hi, h);
    WrapOnce(x3 + Half(h), h);
  }

  /** The four partial products add up to the product, with the middle carry in its place. */
  lemma UmulTotal(u: nat, v: nat, x0: nat, ulvh: nat, x2: nat, x3: nat, x1: nat, carry: bool, h: nat)
    requires u < Word(h) && v < Word(h) && AreHalfProducts(u, v, x0, ulvh, x2, x3, h)
    requires ulvh + HighPart(x0, h) + x2 == x1 + (if carry then Word(h) else 0) && x1 < Word(h)
    ensures (x3 + (if carry then Half(h) else 0) + HighPart(x1, h)) * Word(h)
            + (LowPart(x1, h) * Half(h) + LowPart(x0, h)) == u * v
  {
    var B: int := Half(h);
    WordIsHalfSquared(h);
    Parts(u, h);
    Parts(v, h);
    Parts(x1, h);
    DivBounds(x0, B);
    Expand(HighPart(u, h), LowPart(u, h), HighPart(v, h), LowPart(v, h), B);
    Collect(x3, ulvh + x2, HighPart(x0, h), LowPart(x0, h),
            if carry then 1 else 0, HighPart(x1, h), LowPart(x1, h), B);
  }

  lemma Collect(x3: int, mid: int, c: int, d: int, carry: int, a: int, b: int, B: int)
    requires mid + c == carry * (B * B) + (a * B + b)
    ensures x3 * (B * B) + mid * B + (c * B + d) == (x3 + carry * B + a) * (B * B) + (b * B + d)
  {
    assert mid * B + c * B == (mid + c) * B;
    assert (carry * (B * B) + (a * B + b)) * B == (carry * (B * B)) * B + (a * B) * B + b * B;
    assert (carry * (B * B)) * B == (carry * B) * (B * B) by {
      MulAssoc(carry, B * B, B);
      MulAssoc(carry, B, B * B);
      MulAssoc(B, B, B);
    }
    MulAssoc(a, B, B);
    assert (x3 + carry * B + a) * (B * B) == x3 * (B * B) + (carry * B) * (B * B) + a * (B * B);
  }

  lemma Expand(uh: int, ul: int, vh: int, vl: int, B: int)
    ensures (uh * B + ul) * (vh * B + vl) == (uh * vh) * (B * B) + (ul * vh + uh * vl) * B + ul * vl
  {
    assert (uh * B + ul) * (vh * B + vl) == (uh * B) * (vh * B) + (uh * B) * vl + ul * (vh * B) + ul * vl;
    assert (uh * B) * (vh * B) == (uh * vh) * (B * B) by {
      MulAssoc(uh, B, vh * B);
      MulAssoc(B, vh, B);
      MulAssoc(vh, B, B);
      MulAssoc(uh, vh, B * B);
    }
    MulAssoc(uh, B, vl);
    MulAssoc(uh, vl, B);
    MulAssoc(ul, vh, B);
    assert (ul * vh + uh * vl) * B == (ul * vh) * B + (uh * vl) * B;
  }

  /** The high part of a product of two words is a word: no carry leaves it. */
  lemma UmulHigh(hi: int, lo: int, u: int, v: int, W: int)
    requires hi * W + lo == u * v && 0 <= u < W && 0 <= v < W && lo >= 0
    ensures hi < W
  {
    HalfProductInt(u, v, W);
    if hi >= W {
      MulMono(W, hi, W);
    }
  }

  /** Shifting the low half up and adding a half word. */
  lemma UmulLow(x1: nat, lo: nat, h: nat)
    requires x1 < Word(h) && lo < Half(h)
    ensures Wrap(Wrap(x1 * Half(h), h) + lo, h) == LowPart(x1, h) * Half(h) + lo < Word(h)
  {
    hide Half, Word, HighPart, LowPart, Wrap;
    var B: int := Half(h);
    WordIsHalfSquared(h);
    Parts(x1, h);
    ShiftLow(HighPart(x1, h), LowPart(x1, h), lo, B);
    WrapIs(x1 * B, h);
    WrapIs(LowPart(x1, h) * B + lo, h);
  }

  lemma WrapIs(x: int, h: nat)
    ensures Wrap(x, h) == x % Word(h)
  {
  }

  lemma ShiftLow(a: int, b: int, lo: int, B: int)
    requires 0 <= b < B && 0 <= lo < B
    ensures B * B > 0 && ((a * B + b) * B) % (B * B) == b * B
    ensures (b * B + lo) % (B * B) == b * B + lo && 0 <= b * B + lo < B * B
  {
    MulPos(B, B);
    assert (a * B + b) * B == (a * B) * B + b * B;
    MulAssoc(a, B, B);
    MulMono(b, B - 1, B);
    MulMono(0, b, B);
    assert (B - 1) * B == B * B - B;
    DivModUnique((a * B + b) * B, B * B, a, b * B);
    DivModUnique(b * B + lo, B * B, 0, b * B + lo);
  }

  // smul_ppmm ---------------------------------------------------------------

  /** The top bit of a word. */
  function Top(x: nat, h: nat): (t: int)
    requires h > 0
  {
    x / Pow2(2 * h - 1)
  }

  /** A word read as a two's-complement number. */
  function Signed(x: nat, h: nat): int
    requires h > 0
  {
    x - Top(x, h) * Word(h)
  }

  /** Half the range of a word. */
  function SignBit(h: nat): (r: int)
    requires h > 0
    ensures r >= 1 && Word(h) == 2 * r
  {
    Pow2(2 * h - 1)
  }

  lemma TopIsBit(x: nat, h: nat)
    requires h > 0 && x < Word(h)
    ensures Top(x, h) == (if x < SignBit(h) then 0 else 1)
    ensures -SignBit(h) <= Signed(x, h) < SignBit(h)
  {
    var p := SignBit(h);
    if x < p {
      DivModUnique(x, p, 0, x);
    } else {
      DivModUnique(x, p, 1, x - p);
    }
  }

  /** The mask -(x >> (W-1)) & y is y when the top bit of x is set and 0 when it is not. */
  function SignMask(x: nat, y: nat, h: nat): int
    requires h > 0
  {
    And(Wrap(-Top(x, h), h), y)
  }

  lemma SignMaskIs(x: nat, y: nat, h: nat)
    requires h > 0 && x < Word(h) && y < Word(h)
    ensures SignMask(x, y, h) == Top(x, h) * y
  {
    TopIsBit(x, h);
    WrapOnce(-Top(x, h), h);
    if Top(x, h) == 1 {
      AllOnes(y, h);
    }
  }

  lemma AllOnes(y: nat, h: nat)
    requires y < Word(h)
    ensures And(Word(h) - 1, y) == y
  {
    AndComm(Ones(2 * h), y);
    AndOnes(y, 2 * h);
    DivModUnique(y, Word(h), 0, y);
  }

  method SmulPpmm(u: nat, v: nat, h: nat) returns (w1: nat, w0: nat)
    requires h > 0 && u < Word(h) && v < Word(h)
    ensures w1 < Word(h) && w0 < Word(h)
    ensures Word(h) * Word(h) > 0
    ensures Double(w1, w0, h) == (Signed(u, h) * Signed(v, h)) % (Word(h) * Word(h))
  {
    hide Half, Word, Wrap, Top, SignMask;
    var y1: int;
    y1, w0 := UmulPpmm(u, v, h);
    var mu, mv := SignMask(u, v, h), SignMask(v, u, h);
    SignMaskIs(u, v, h);
    SignMaskIs(v, u, h);
    w1 := Wrap(y1 - mu - mv, h);
    DoubleMod(y1 - mu - mv, w0, h);
    SignedMod(u, v, Top(u, h), Top(v, h), mu, mv, y1, w0, Word(h));
  }

  lemma SignedMod(u: int, v: int, tu: int, tv: int, mu: int, mv: int, y1: int, y0: int, W: int)
    requires W >= 1 && y1 * W + y0 == u * v && mu == tu * v && mv == tv * u
    ensures W * W > 0
    ensures ((y1 - mu - mv) * W + y0) % (W * W) == ((u - tu * W) * (v - tv * W)) % (W * W)
  {
    MulPos(W, W);
    SignedProduct(u, v, tu, tv, mu, mv, y1, y0, W);
    ModAddMul((u - tu * W) * (v - tv * W), -(tu * tv), W * W);
  }

  lemma SignedProduct(u: int, v: int, tu: int, tv: int, mu: int, mv: int, y1: int, y0: int, W: int)
    requires y1 * W + y0 == u * v && mu == tu * v && mv == tv * u
    ensures (y1 - mu - mv) * W + y0 == (u - tu * W) * (v - tv * W) + (-(tu * tv)) * (W * W)
  {
    Distribute(y1, -mu, -mv, W);
    Distribute(0, mu, 0, W);
    Distribute(0, mv, 0, W);
    assert (u - tu * W) * (v - tv * W) == u * v - u * (tv * W) - (tu * W) * v + (tu * W) * (tv * W);
    assert u * (tv * W) == mv * W by { MulAssoc(u, tv, W); }
    assert (tu * W) * v == mu * W by { MulAssoc(tu, W, v); MulAssoc(tu, v, W); }
    Square(tu, tv, W);
    Distribute(0, tu * tv, 0, W * W);
  }

  lemma Square(a: int, b: int, W: int)
    ensures (a * W) * (b * W) == (a * b) * (W * W)
  {
    MulAssoc(a, W, b * W);
    MulAssoc(W, b, W);
    MulAssoc(b, W, W);
    MulAssoc(a, b, W * W);
  }

  /** A double word read as a two's-complement number. */
  function SignedDouble(w1: nat, w0: nat, h: nat): int
    requires h > 0
  {
    Double(w1, w0, h) - Top(w1, h) * (Word(h) * Word(h))
  }

  /** The two result words of smul_ppmm are the signed product, for all operands. */
  lemma SmulExact(u: nat, v: nat, w1: nat, w0: nat, h: nat)
    requires h > 0 && u < Word(h) && v < Word(h) && w1 < Word(h) && w0 < Word(h)
    requires Word(h) * Word(h) > 0
    requires Double(w1, w0, h) == (Signed(u, h) * Signed(v, h)) % (Word(h) * Word(h))
    ensures SignedDouble(w1, w0, h) == Signed(u, h) * Signed(v, h)
  {
    hide Word, Top, Signed, SignBit;
    TopIsBit(u, h);
    TopIsBit(v, h);
    TopIsBit(w1, h);
    SignedRange(Signed(u, h), Signed(v, h), SignBit(h));
    UniqueSigned(w1, w0, Signed(u, h) * Signed(v, h), SignBit(h), Word(h));
  }

  lemma SignedRange(a: int, b: int, p: int)
    requires -p <= a < p && -p <= b < p
    ensures -(p * p) <= a * b <= p * p
  {
    var x := if a < 0 then -a else a;
    var y := if b < 0 then -b else b;
    MulMono(x, p, y);
    MulMono(y, p, p);
    assert a * b == x * y || a * b == -(x * y);
    MulMono(0, x, y);
  }

  lemma UniqueSigned(w1: int, w0: int, s: int, p: int, W: int)
    requires p >= 1 && W == 2 * p && 0 <= w1 < W && 0 <= w0 < W
    requires -(p * p) <= s <= p * p
    requires W * W > 0 && w1 * W + w0 == s % (W * W)
    ensures w1 * W + w0 - (if w1 < p then 0 else W * W) == s
  {
    Squares(p, W);
    var v := w1 * W + w0;
    HalfOfDouble(w1, w0, p, W);
    SignedResidue(v, s, W * W, p * p);
  }

  lemma Squares(p: int, W: int)
    requires p >= 1 && W == 2 * p
    ensures W * W == 4 * (p * p) && p * W == 2 * (p * p) && p * p >= 1
  {
    MulPos(p, p);
  }

  lemma HalfOfDouble(w1: int, w0: int, p: int, W: int)
    requires p >= 1 && W >= 1 && 0 <= w1 && 0 <= w0 < W
    ensures w1 < p ==> w1 * W + w0 < p * W
    ensures w1 >= p ==> w1 * W + w0 >= p * W
  {
    if w1 < p {
      MulMono(w1 + 1, p, W);
      assert (w1 + 1) * W == w1 * W + W;
    } else {
      MulMono(p, w1, W);
    }
  }

  /** A residue modulo m of a number within a quarter of m. */
  lemma SignedResidue(v: int, s: int, m: int, q: int)
    requires m == 4 * q && q >= 1 && -q <= s <= q && v == s % m
    ensures v - (if v < 2 * q then 0 else m) == s
  {
    if s >= 0 {
      DivModUnique(s, m, 0, s);
    } else {
      DivModUnique(s, m, -1, s + m);
    }
  }

  /** The variant of umul_ppmm for machines that only have the signed product. */
  method UmulFromSmul(u: nat, v: nat, h: nat) returns (w1: nat, w0: nat)
    requires h > 0 && u < Word(h) && v < Word(h)
    ensures w1 < Word(h) && w0 < Word(h)
    ensures Double(w1, w0, h) == u * v
  {
    hide Half, Word, Wrap, Top, SignMask;
    var y1: int;
    y1, w0 := SmulPpmm(u, v, h);
    var mu, mv := SignMask(u, v, h), SignMask(v, u, h);
    SignMaskIs(u, v, h);
    SignMaskIs(v, u, h);
    w1 := Wrap(y1 + mu + mv, h);
    DoubleMod(y1 + mu + mv, w0, h);
    Unsign(u, v, Top(u, h), Top(v, h), mu, mv, y1, w0, Word(h));
  }

  lemma Recompose(n: int, d: int)
    requires d >= 1
    ensures n == n / d * d + n % d
  {
  }

  lemma Unsign(u: int, v: int, tu: int, tv: int, mu: int, mv: int, y1: int, y0: int, W: int)
    requires W >= 1 && 0 <= u < W && 0 <= v < W && W * W > 0
    requires mu == tu * v && mv == tv * u
    requires y1 * W + y0 == ((u - tu * W) * (v - tv * W)) % (W * W)
    ensures ((y1 + mu + mv) * W + y0) % (W * W) == u * v
  {
    var s := (u - tu * W) * (v - tv * W);
    var k := s / (W * W);
    Recompose(s, W * W);
    var hi := u * v / W;
    Recompose(u * v, W);
    SignedProduct(u, v, tu, tv, mu, mv, hi, u * v % W, W);
    Regather(y1, mu, mv, hi, u * v % W, y1 * W + y0, y0, W, tu * tv, k);
    ModAddMul(u * v, tu * tv - k, W * W);
    HalfProductInt(u, v, W);
    DivModUnique(u * v, W * W, 0, u * v);
  }

  lemma Regather(y1: int, mu: int, mv: int, hi: int, lo: int, y: int, y0: int, W: int, t: int, k: int)
    requires y == y1 * W + y0
    requires (hi - mu - mv) * W + lo == k * (W * W) + y + (-t) * (W * W)
    ensures (y1 + mu + mv) * W + y0 == hi * W + lo + (t - k) * (W * W)
  {
    Distribute(hi, -mu, -mv, W);
    Distribute(y1, mu, mv, W);
    Distribute(0, mu, 0, W);
    Distribute(0, mv, 0, W);
    Distribute(t, -k, 0, W * W);
    Distribute(0, t, 0, W * W);
    Distribute(0, k, 0, W * W);
  }

  // __udiv_qrnnd_c ----------------------------------------------------------

  /** What the estimate n1 / d1 leaves: the product with the low half of d may exceed the
      remainder, by less than twice d. */
  lemma Estimate(n1: int, nl: int, d1: int, d0: int, B: int)
    requires 0 <= nl < B && B <= 2 * d1 && d1 < B && 0 <= d0 < B && 0 <= n1 < d1 * B + d0
    ensures var q := n1 / d1;
            var rem := n1 - q * d1;
            && q >= 0
            && 0 <= rem < B * B
            && 0 <= q * d0 < B * B
            && 0 <= rem * B < B * B
            && rem * B + nl < d1 * B + d0
            && n1 * B + nl == q * (d1 * B + d0) + (rem * B + nl) - q * d0
            && (q <= 1 ==> q * d0 <= d1 * B + d0)
            && (q == 0 ==> q * d0 == 0)
  {
    var q := n1 / d1;
    var rem := n1 - q * d1;
    DivBounds(n1, d1);
    EstimateBound(n1, q, d1, d0, B);
    EstimateRem(rem, nl, d1, d0, B);
    EstimateIdentity(n1, nl, q, rem, d1, d0, B);
    MulMono(0, d1, B);
  }

  lemma EstimateBound(n1: int, q: int, d1: int, d0: int, B: int)
    requires B <= 2 * d1 && d1 < B && 0 <= d0 < B && n1 < d1 * B + d0
    requires 0 <= q && q * d1 <= n1
    ensures 0 <= q * d0 < B * B
  {
    if q > B + 1 {
      MulMono(B + 2, q, d1);
      Distribute(B, 2, 0, d1);
    }
    MulMono(0, q, d0);
    MulMono(q, B + 1, d0);
    MulMono(d0, B - 1, B + 1);
    assert (B - 1) * (B + 1) == B * B - 1;
  }

  lemma EstimateRem(rem: int, nl: int, d1: int, d0: int, B: int)
    requires 0 <= rem < d1 && d1 < B && 0 <= nl < B && 0 <= d0
    ensures 0 <= rem * B < B * B && rem < B * B
    ensures rem * B + nl < d1 * B + d0
  {
    MulMono(0, rem, B);
    MulMono(1, B, rem);
    MulMono(rem + 1, d1, B);
    Distribute(rem, 1, 0, B);
    MulMono(d1, B, B);
  }

  lemma EstimateIdentity(n1: int, nl: int, q: int, rem: int, d1: int, d0: int, B: int)
    requires n1 == q * d1 + rem
    ensures n1 * B + nl == q * (d1 * B + d0) + (rem * B + nl) - q * d0
  {
    Distribute(q * d1, rem, 0, B);
    MulAssoc(q, d1, B);
    assert q * (d1 * B + d0) == q * (d1 * B) + q * d0;
  }

  /** After k corrections the quotient digit and the remainder are right. */
  lemma Corrected(n: int, est: int, k: int, d: int, rem: int, m: int)
    requires 0 <= k <= 2 && n == est * d + rem - m
    ensures n == (est - k) * d + (rem + k * d - m)
  {
    assert (est - k) * d == est * d - k * d;
  }

  /** A quotient digit is less than the base. */
  lemma QuotientFits(q: int, r: int, n1: int, nl: int, d: int, B: int)
    requires q * d + r == n1 * B + nl && 0 <= r && 0 <= n1 < d && 0 <= nl < B
    ensures q < B
  {
    MulMono(n1 + 1, d, B);
    Distribute(n1, 1, 0, B);
    if q >= B {
      MulMono(B, q, d);
    }
  }

  lemma NormalizedParts(d: nat, h: nat)
    requires h > 0 && d < Word(h) && Top(d, h) == 1
    ensures d == HighPart(d, h) * Half(h) + LowPart(d, h)
    ensures HighPart(d, h) < Half(h) && LowPart(d, h) < Half(h) && Half(h) <= 2 * HighPart(d, h)
    ensures Word(h) <= 2 * d && Word(h) == Half(h) * Half(h)
  {
    Parts(d, h);
    TopIsBit(d, h);
    WordIsHalfSquared(h);
    assert Half(h) == 2 * Pow2(h - 1);
    TopHalf(d, HighPart(d, h), LowPart(d, h), Pow2(h - 1), Half(h));
  }

  lemma TopHalf(d: int, d1: int, d0: int, p: int, B: int)
    requires d == d1 * B + d0 && 0 <= d0 < B && B == 2 * p && B * B <= 2 * d
    ensures B <= 2 * d1
  {
    if d1 < p {
      MulMono(d1 + 1, p, B);
      Distribute(d1, 1, 0, B);
      MulAssoc(2, p, B);
    }
  }

  /** After adding d to a wrapped remainder, the result is at least d exactly when the addition
      did not wrap. */
  lemma AddBackDetects(r: nat, d: nat, h: nat)
    requires r < Word(h) && d < Word(h)
    ensures Wrap(r + d, h) == (if r + d < Word(h) then r + d else r + d - Word(h))
    ensures Wrap(r + d, h) >= d <==> r + d < Word(h)
  {
    hide Wrap, Word;
    WrapOnce(r + d, h);
  }

  /** Half a step of the division (lines 1820-1831 and 1833-1844 of longlong.h): one half-word
      of quotient, from an estimate that is at most 2 too large. */
  method HalfQuotient(n1: nat, nl: nat, d: nat, h: nat) returns (q: nat, r: nat)
    requires h > 0 && d < Word(h) && Top(d, h) == 1 && n1 < d && nl < Half(h)
    ensures HighPart(d, h) > 0 && q <= n1 / HighPart(d, h) <= q + 2
    ensures q * d + r == n1 * Half(h) + nl && r < d && q < Half(h)
  {
    hide Half, Word, Wrap, HighPart, LowPart, Top, Or;
    var d1, d0 := HighPart(d, h), LowPart(d, h);
    NormalizedParts(d, h);
    Estimate(n1, nl, d1, d0, Half(h));
    var est := n1 / d1;
    var m, rem := Remainders(n1, nl, est, d1, d0, h);
    q, r := est, rem;
    ghost var k := 0;
    if r < m {
      AddBackDetects(r, d, h);
      k, q, r := 1, q - 1, Wrap(r + d, h);
      if r >= d {                              // we didn't get carry when adding to r
        if r < m {
          AddBackDetects(r, d, h);
          k, q, r := 2, q - 1, Wrap(r + d, h);
        }
      }
    }
    WrapOnce(r - m, h);
    r := Wrap(r - m, h);
    Corrected(n1 * Half(h) + nl, est, k, d, rem, m);
    QuotientFits(q, r, n1, nl, d, Half(h));
  }

  lemma RemaindersFit(n1: int, q: int, d1: int, d0: int, h: nat)
    requires n1 - q * d1 >= 0 && q >= 0 && d0 >= 0
    ensures q * d0 >= 0 && (n1 - q * d1) * Half(h) >= 0
  {
    MulMono(0, q, d0);
    MulMono(0, n1 - q * d1, Half(h));
  }

  /** m and the shifted remainder, without wrap-around. */
  method Remainders(n1: nat, nl: nat, q: nat, d1: nat, d0: nat, h: nat) returns (m: nat, r: nat)
    requires nl < Half(h)
    requires 0 <= n1 - q * d1 < Word(h) && q * d0 < Word(h) && (n1 - q * d1) * Half(h) < Word(h)
    ensures m == q * d0 && r == (n1 - q * d1) * Half(h) + nl
  {
    hide Word, Wrap, Or;
    RemaindersFit(n1, q, d1, d0, h);
    WrapOnce(n1 - q * d1, h);
    WrapOnce(q * d0, h);
    r := Wrap(n1 - q * d1, h);
    m := Wrap(q * d0, h);
    WrapOnce(r * Half(h), h);
    OrIsAdd(r, nl, h);
    r := Or(Wrap(r * Half(h), h), nl);
  }

  /** __udiv_qrnnd_c */
  method UdivQrnnd(n1: nat, n0: nat, d: nat, h: nat) returns (q: nat, r: nat)
    requires h > 0 && d < Word(h) && n0 < Word(h)
    requires Top(d, h) == 1                    // UDIV_NEEDS_NORMALIZATION
    requires n1 < d
    ensures q < Word(h) && r < d
    ensures q * d + r == Double(n1, n0, h)
  {
    hide HighPart, LowPart, Wrap, Top, Or, Half, Word;
    Parts(n0, h);
    var q1, q0;
    q1, r := HalfQuotient(n1, HighPart(n0, h), d, h);
    q0, r := HalfQuotient(r, LowPart(n0, h), d, h);
    JoinQuotient(q1, q0, n1, n0, d, h);
    q := Or(Wrap(q1 * Half(h), h), q0);
    TwoDigits(q1, q0, r, n1, HighPart(n0, h), LowPart(n0, h), d, Half(h));
  }

  lemma JoinQuotient(q1: nat, q0: nat, n1: nat, n0: nat, d: nat, h: nat)
    requires q1 < Half(h) && q0 < Half(h)
    ensures Or(Wrap(q1 * Half(h), h), q0) == q1 * Half(h) + q0 < Word(h)
    ensures Word(h) == Half(h) * Half(h)
  {
    WordIsHalfSquared(h);
    ShiftLow(0, q1, q0, Half(h));
    OrIsAdd(q1, q0, h);
  }

  lemma TwoDigits(q1: int, q0: int, r: int, n1: int, nh: int, nl: int, d: int, B: int)
    requires exists r1 :: q1 * d + r1 == n1 * B + nh && q0 * d + r == r1 * B + nl
    ensures (q1 * B + q0) * d + r == n1 * (B * B) + (nh * B + nl)
  {
    var r1 :| q1 * d + r1 == n1 * B + nh && q0 * d + r == r1 * B + nl;
    assert (q1 * d + r1) * B == (n1 * B + nh) * B;
    assert (q1 * d + r1) * B == (q1 * B) * d + r1 * B by { MulAssoc(q1, d, B); MulAssoc(q1, B, d); }
    assert (n1 * B + nh) * B == n1 * (B * B) + nh * B by { MulAssoc(n1, B, B); }
    assert (q1 * B + q0) * d == (q1 * B) * d + q0 * d;
  }
}
