/** Little-endian limb sequences and the numbers they stand for (dumbmp.c). */
module Limbs {
  import opened Arith
  import opened Bits

  /** Half the bits of an unsigned long, which has at least 32. */
  type LimbBits = n: nat | n >= 16 witness 32

  const GMP_LIMB_BITS: LimbBits

  /** Limbs lie below this base; the words that hold them go up to its square. */
  function Base(): (b: int)
    ensures b >= 16
  {
    Pow2Mono(4, GMP_LIMB_BITS);
    assert Pow2(4) == 16;
    Pow2(GMP_LIMB_BITS)
  }

  function LO(x: int): (r: nat)
    ensures r < Base()
  {
    x % Base()
  }

  /** The high half of an unsigned word. */
  function HI(x: int): int {
    x / Base()
  }

  /** The word that an unsigned computation with result x leaves. */
  function Wrap(x: int): (r: nat)
    ensures r < Base() * Base()
  {
    x % (Base() * Base())
  }

  lemma LoHi(x: int)
    ensures x == LO(x) + Base() * HI(x)
    ensures 0 <= x < Base() * Base() ==> 0 <= HI(x) < Base()
  {
    var b := Base();
    if 0 <= x < b * b {
      if HI(x) >= b { MulMono(b, HI(x), b); }
      if HI(x) < 0 { MulMono(HI(x), -1, b); }
    }
  }

  /** Base^i */
  function BPow(i: nat): (p: int)
    ensures p >= 1
  {
    PowPos(Base(), i);
    Pow(Base(), i)
  }

  lemma BPowSucc(i: nat)
    ensures BPow(i + 1) == Base() * BPow(i)
  {
  }

  predicate AreLimbs(s: seq<nat>) {
    forall i | 0 <= i < |s| :: s[i] < Base()
  }

  function Val(s: seq<nat>): (v: nat)
  {
    if s == [] then 0
    else
      var n := |s| - 1;
      MulMono(0, s[n], BPow(n));
      Val(s[..n]) + s[n] * BPow(n)
  }

  lemma ValSnoc(s: seq<nat>, x: nat)
    ensures Val(s + [x]) == Val(s) + x * BPow(|s|)
  {
    assert (s + [x])[..|s|] == s;
  }

  lemma ValPrefix(s: seq<nat>, i: nat)
    requires i < |s|
    ensures Val(s[..i + 1]) == Val(s[..i]) + s[i] * BPow(i)
  {
    assert s[..i + 1] == s[..i] + [s[i]];
    ValSnoc(s[..i], s[i]);
  }

  lemma {:induction false} ValBound(s: seq<nat>)
    requires AreLimbs(s)
    ensures Val(s) < BPow(|s|)
  {
    if s != [] {
      var n := |s| - 1;
      ValBound(s[..n]);
      DigitBelow(Val(s[..n]), s[n], BPow(n), Base());
      BPowSucc(n);
    }
  }

  lemma {:induction false} ValAppend(s: seq<nat>, t: seq<nat>)
    ensures Val(s + t) == Val(s) + BPow(|s|) * Val(t)
  {
    if t == [] {
      assert s + t == s;
    } else {
      var n := |t| - 1;
      var m := |s|;
      assert s + t == (s + t[..n]) + [t[n]];
      ValSnoc(s + t[..n], t[n]);
      ValAppend(s, t[..n]);
      PowAdd(Base(), m, n);
      ScaleSum(Val(s), Val(t[..n]), t[n], BPow(m), BPow(n), BPow(m + n));
    }
  }

  lemma ScaleSum(v: int, w: int, x: int, p: int, q: int, pq: int)
    requires pq == p * q
    ensures v + p * w + x * pq == v + p * (w + x * q)
  {
    assert x * (p * q) == p * (x * q) by { MulAssoc(p, x, q); MulAssoc(x, p, q); }
  }

  lemma {:induction false} ValZeros(s: seq<nat>)
    requires forall i | 0 <= i < |s| :: s[i] == 0
    ensures Val(s) == 0
  {
    if s != [] {
      ValZeros(s[..|s| - 1]);
    }
  }

  /** No leading zero limb. */
  predicate Normal(s: seq<nat>) {
    s == [] || s[|s| - 1] != 0
  }

  /** A normalized value needs its top limb. */
  lemma NormalLow(s: seq<nat>)
    requires Normal(s) && s != []
    ensures Val(s) >= BPow(|s| - 1)
  {
    MulMono(1, s[|s| - 1], BPow(|s| - 1));
  }

  /** The size of a normalized number is determined by its value. */
  lemma SizeByValue(s: seq<nat>, t: seq<nat>)
    requires AreLimbs(s) && AreLimbs(t) && Normal(s) && |t| < |s|
    ensures Val(t) < Val(s)
  {
    ValBound(t);
    NormalLow(s);
    PowMonoExp(Base(), |t|, |s| - 1);
  }

  // The carry arithmetic of one limb ---------------------------------------

  lemma AddStep(v: int, cy: int, x: int, a: int, b: int, lo: int, hi: int, p: int, bs: int)
    requires v + cy * p == x && a + b + cy == lo + bs * hi
    ensures v + lo * p + hi * (bs * p) == x + a * p + b * p
  {
    assert (a + b + cy) * p == a * p + b * p + cy * p;
    assert (lo + bs * hi) * p == lo * p + (bs * hi) * p;
    assert (bs * hi) * p == hi * (bs * p) by { MulAssoc(hi, bs, p); }
  }

  lemma MulStep(v: int, cy: int, x: int, a: int, b: int, w: int, tm: int, lo: int, hi: int, p: int, bs: int)
    requires v + cy * p == x + a * w && a * b + tm + cy == lo + bs * hi
    ensures v + lo * p + hi * (bs * p) == (x + tm * p) + a * (w + b * p)
  {
    assert (a * b + tm + cy) * p == (a * b) * p + tm * p + cy * p;
    assert (lo + bs * hi) * p == lo * p + (bs * hi) * p;
    assert (bs * hi) * p == hi * (bs * p) by { MulAssoc(hi, bs, p); }
    assert a * (w + b * p) == a * w + (a * b) * p by { MulAssoc(a, b, p); }
  }

  /** A product of limbs, a limb and a carry fit a word (dumbmp.c:37-38). */
  lemma NoOverflow(a: int, b: int, c: int, cy: int)
    requires 0 <= a < Base() && 0 <= b < Base() && 0 <= c < Base() && 0 <= cy < Base()
    ensures 0 <= a * b + c + cy < Base() * Base()
  {
    var bs := Base();
    MulMono(0, a, b);
    MulMono(a, bs - 1, b);
    MulMono(b, bs - 1, bs - 1);
    assert (bs - 1) * (bs - 1) == bs * bs - 2 * bs + 1;
  }

  lemma BaseSquare()
    ensures Base() * Base() >= 16 * Base()
  {
    MulMono(16, Base(), Base());
  }

  lemma WrapId(x: int)
    requires 0 <= x < Base() * Base()
    ensures Wrap(x) == x
  {
    DivModUnique(x, Base() * Base(), 0, x);
  }

  /** The borrow of a wrapped difference: cy = LO(-HI(t)). */
  lemma Borrow(x: int)
    requires -Base() <= x < Base()
    ensures var t := Wrap(x);
            var cy := LO(Wrap(-HI(t)));
            && cy == (if x < 0 then 1 else 0)
            && x == LO(t) - Base() * cy
  {
    hide Base;
    BorrowValue(x, Base());
  }

  lemma BorrowValue(x: int, b: int)
    requires b >= 2 && -b <= x < b
    ensures b * b > 0
    ensures var t := x % (b * b);
            var c := (-(t / b)) % (b * b) % b;
            c == (if x < 0 then 1 else 0) && x == t % b - b * c
  {
    if x >= 0 {
      NoBorrowParts(x, b);
    } else {
      BorrowParts(x, b);
    }
  }

  lemma NoBorrowParts(x: int, b: int)
    requires b >= 2 && 0 <= x < b
    ensures b * b > 0 && x % (b * b) == x && x / b == 0 && x % b == x
    ensures -0 % (b * b) == 0 && 0 % b == 0
  {
    MulMono(2, b, b);
    DivModUnique(x, b * b, 0, x);
    DivModUnique(x, b, 0, x);
    DivModUnique(0, b * b, 0, 0);
    DivModUnique(0, b, 0, 0);
  }

  lemma BorrowParts(x: int, b: int)
    requires b >= 2 && -b <= x < 0
    ensures b * b > 0 && x % (b * b) == x + b * b && (x + b * b) / b == b - 1 && (x + b * b) % b == x + b
    ensures (-(b - 1)) % (b * b) == b * b - (b - 1) && (b * b - (b - 1)) % b == 1
  {
    MulMono(2, b, b);
    DivModUnique(x, b * b, -1, x + b * b);
    assert (b - 1) * b == b * b - b;
    DivModUnique(x + b * b, b, b - 1, x + b);
    DivModUnique(-(b - 1), b * b, -1, b * b - (b - 1));
    DivModUnique(b * b - (b - 1), b, b - 1, 1);
  }

  lemma SubStep(v: int, cy: int, x: int, a: int, b: int, lo: int, c2: int, p: int, bs: int)
    requires v - cy * p == x && a - b - cy == lo - bs * c2
    ensures v + lo * p - c2 * (bs * p) == x + a * p - b * p
  {
    assert (a - b - cy) * p == a * p - b * p - cy * p;
    assert (lo - bs * c2) * p == lo * p - (bs * c2) * p;
    assert (bs * c2) * p == c2 * (bs * p) by { MulAssoc(c2, bs, p); }
  }
}
