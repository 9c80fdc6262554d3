/** The mpz functions of dumbmp.c on objects with sign, size and limb storage. */
module MpzArith {
  import opened Arith
  import opened Bits
  import opened Limbs
  import opened Dumbmp

  function Abs(x: int): nat { if x >= 0 then x else -x }

  class Mpz {
    var size: int            // _mp_size: negative for a negative number
    var d: array<nat>        // _mp_d, of _mp_alloc words

    ghost predicate InBounds()
      reads this
    {
      Abs(size) <= d.Length
    }

    ghost function Mag(): (s: seq<nat>)
      requires InBounds()
      reads this, d
      ensures |s| == Abs(size)
    {
      d[..Abs(size)]
    }

    ghost predicate Valid()
      reads this, d
    {
      InBounds() && AreLimbs(Mag()) && Normal(Mag())
    }

    ghost function Value(): int
      requires Valid()
      reads this, d
    {
      if size >= 0 then Val(Mag()) else 0 - Val(Mag())
    }

    /** mpz_init */
    constructor ()
      ensures Valid() && Value() == 0 && fresh(d)
    {
      size := 0;
      d := new nat[1] [0];
      new;
      assert Mag() == [];
    }
  }

  /** Different objects own different storage. */
  ghost predicate Apart(a: Mpz, b: Mpz)
    reads a, b
  {
    a == b || a.d != b.d
  }

  /** r may have moved to new storage. */
  twostate predicate Owned(r: Mpz)
    reads r
  {
    r.d == old(r.d) || fresh(r.d)
  }

  lemma SignBySize(s: seq<nat>)
    requires Normal(s)
    ensures Val(s) == 0 <==> s == []
  {
    if s != [] {
      NormalLow(s);
    }
  }

  /** mpz_realloc */
  method Realloc(r: Mpz, n: nat)
    requires r.Valid()
    modifies r`d
    ensures r.Valid() && r.d.Length >= n && r.Mag() == old(r.Mag())
    ensures Owned(r)
  {
    if n <= r.d.Length {
      return;
    }
    var p := new nat[n];
    var old_d := r.d;
    forall i | 0 <= i < old_d.Length {
      p[i] := old_d[i];
    }
    assert p[..Abs(r.size)] == r.Mag();
    r.d := p;
  }

  /** Give r the normalized value of its first rn limbs. */
  method Finish(r: Mpz, rn0: nat, negative: bool)
    requires rn0 <= r.d.Length && AreLimbs(r.d[..rn0])
    modifies r`size
    ensures r.Valid()
    ensures r.Value() == if negative then 0 - Val(r.d[..rn0]) else Val(r.d[..rn0])
  {
    hide Val, AreLimbs, Normal;
    var rn := MpnNormalize(r.d, rn0);
    LimbsPrefix(r.d[..rn0], rn);
    assert r.d[..rn] == r.d[..rn0][..rn];
    SignBySize(r.d[..rn]);
    var n: int := rn;
    r.size := if negative then -n else n;
    assert r.Mag() == r.d[..rn];
  }

  lemma LimbsPrefix(s: seq<nat>, i: nat)
    requires AreLimbs(s) && i <= |s|
    ensures AreLimbs(s[..i])
  {
  }

  /** mpz_sgn */
  method Sgn(a: Mpz) returns (s: int)
    requires a.Valid()
    ensures s == if a.Value() > 0 then 1 else if a.Value() == 0 then 0 else -1
  {
    s := if a.size > 0 then 1 else if a.size == 0 then 0 else -1;
    SignBySize(a.Mag());
  }

  /** mpn_copyi */
  method CopyLimbs(dst: array<nat>, src: array<nat>, off: nat, n: nat)
    requires n <= dst.Length && off + n <= src.Length
    modifies dst
    ensures dst[..n] == old(src[off..off + n])
    ensures forall k | n <= k < dst.Length :: dst[k] == old(dst[k])
  {
    ghost var s := src[off..off + n];
    for i := 0 to n
      invariant dst[..i] == s[..i] && src[off + i..off + n] == s[i..]
      invariant forall k | n <= k < dst.Length :: dst[k] == old(dst[k])
    {
      assert src[off + i] == src[off + i..off + n][0] == s[i];
      assert src[off + i + 1..off + n] == src[off + i..off + n][1..] == s[i + 1..];
      dst[i] := src[off + i];
      assert dst[..i + 1] == dst[..i] + [s[i]] == s[..i + 1];
    }
  }

  /** mpz_set */
  method Set(r: Mpz, a: Mpz)
    requires r.Valid() && a.Valid() && Apart(r, a)
    modifies r, r.d
    ensures r.Valid() && Owned(r)
    ensures r.Value() == old(a.Value())
  {
    ghost var s := a.Mag();
    Realloc(r, Abs(a.size));
    r.size := a.size;
    assert a.d[0..Abs(a.size)] == s;
    CopyLimbs(r.d, a.d, 0, Abs(a.size));
    assert r.Mag() == s;
  }

  lemma TwoLimbs(lo: nat, hi: nat)
    ensures Val([lo, hi]) == lo + Base() * hi
  {
    ValSnoc([], lo);
    ValSnoc([lo], hi);
    assert [] + [lo] == [lo] && [lo] + [hi] == [lo, hi];
    BPowSucc(0);
  }

  /** mpz_set_ui */
  method SetUi(r: Mpz, ui: nat)
    requires r.Valid() && ui < Base() * Base()
    modifies r, r.d
    ensures r.Valid() && Owned(r)
    ensures r.Value() == ui
  {
    hide Val, Base;
    Realloc(r, 2);
    LoHi(ui);
    r.d[0] := LO(ui);
    r.d[1] := HI(ui);
    assert r.d[..2] == [LO(ui), HI(ui)];
    TwoLimbs(LO(ui), HI(ui));
    Finish(r, 2, false);
  }

  /** mpz_init_set_ui */
  method InitSetUi(ui: nat) returns (r: Mpz)
    requires ui < Base() * Base()
    ensures r.Valid() && fresh(r) && fresh(r.d) && r.Value() == ui
  {
    r := new Mpz();
    SetUi(r, ui);
  }

  /** mpz_init_set */
  method InitSet(a: Mpz) returns (r: Mpz)
    requires a.Valid()
    ensures r.Valid() && fresh(r) && fresh(r.d) && r.Value() == a.Value()
  {
    r := new Mpz();
    Set(r, a);
  }

  /** mpz_add, for r being any of the operands, the operands being one object, or neither. */
  method Add(r: Mpz, a: Mpz, b: Mpz)
    requires r.Valid() && a.Valid() && b.Valid() && Apart(r, a) && Apart(r, b)
    requires a.Value() >= 0 && b.Value() >= 0       // the source aborts otherwise
    modifies r, r.d
    ensures r.Valid() && Owned(r)
    ensures r.Value() == old(a.Value()) + old(b.Value())
  {
    hide Val, AreLimbs, Normal;
    SignBySize(a.Mag());
    SignBySize(b.Mag());
    var an, bn := Abs(a.size), Abs(b.size);
    Realloc(r, (if an > bn then an else bn) + 1);
    var ap, bp := a.d, b.d;
    if an < bn {
      an, bn := bn, an;
      ap, bp := bp, ap;
    }
    MpnAdd(r.d, ap, an, bp, bn);
    Finish(r, an + 1, false);
  }

  // Subtraction ----------------------------------------------------------------

  /** What mpz_sub leaves for a, b >= 0 of an and bn limbs. It is a - b only for a >= b: a
      longer b is subtracted the wrong way round (dumbmp.c:397-403), and an equally long larger
      b runs into the negation of one limb too many (dumbmp.c:417-431). */
  function SubResult(a: int, b: int, an: nat, bn: nat): int {
    if a >= b then a - b
    else if an < bn then b - a
    else -((Base() - 2) * BPow(an) + (b - a))
  }

  /** mpz_sub computes the difference exactly when a >= b. */
  lemma SubResultIff(a: int, b: int, an: nat, bn: nat)
    ensures SubResult(a, b, an, bn) == a - b <==> a >= b
  {
    MulPos(Base() - 2, BPow(an));
  }

  lemma MulZero(x: int, p: int)
    ensures x == 0 ==> x * p == 0
  {
  }

  lemma TopLimbSet(s: seq<nat>)
    requires AreLimbs(s) && s != [] && Val(s) >= BPow(|s| - 1)
    ensures Normal(s)
  {
    var n := |s| - 1;
    ValBound(s[..n]);
    MulZero(s[n], BPow(n));
  }

  /** dumbmp.c:404-419: the difference of the longer operand and the shorter one. */
  method MpnSub(rp: array<nat>, ap: array<nat>, an: nat, bp: array<nat>, bn: nat) returns (cy: nat)
    requires bn <= an < rp.Length && an <= ap.Length && bn <= bp.Length
    requires AreLimbs(ap[..an]) && AreLimbs(bp[..bn])
    modifies rp
    ensures cy <= 1 && AreLimbs(rp[..an + 1]) && rp[an] == cy
    ensures Val(rp[..an]) - cy * BPow(an) == old(Val(ap[..an]) - Val(bp[..bn]))
    ensures Val(rp[..an + 1]) == Val(rp[..an]) + cy * BPow(an)
  {
    hide Val, AreLimbs, BPow, Base;
    ghost var a, b := ap[..an], bp[..bn];
    assert a[..bn] == ap[..bn];
    LimbsPrefix(a, bn);
    cy := SubLow(rp, ap, bp, bn);
    cy := SubHigh(rp, ap, bn, an, cy, a, Val(b));
    ghost var r := rp[..an];
    rp[an] := cy;
    Extends(rp, an, r, cy);
    ValSnoc(r, cy);
    assert Base() >= 16;
  }

  /** A borrow out of the top comes with equal sizes and a < b only. */
  lemma BorrowMeans(a: int, b: int, low: int, cy: int, p: int)
    requires low - cy * p == a - b && 0 <= cy <= 1 && 0 <= low < p
    ensures cy == 1 <==> a < b
    ensures cy == 0 ==> low == a - b
    ensures cy == 1 ==> low == p + a - b
  {
    if cy == 0 { assert cy * p == 0; } else { assert cy * p == p; }
  }

  /** More limbs mean a larger number. */
  lemma SubCases(s: seq<nat>, t: seq<nat>)
    requires AreLimbs(s) && AreLimbs(t) && Normal(s) && Normal(t)
    ensures |s| < |t| ==> Val(s) < Val(t)
    ensures |t| < |s| ==> Val(t) < Val(s)
  {
    if |s| < |t| { SizeByValue(t, s); }
    if |t| < |s| { SizeByValue(s, t); }
  }

  lemma NegatedValue(v: int, x: int, y: int, p: int, b: int)
    requires b >= 16 && p >= 1 && x < y && v == b * p - (p + x - y + p)
    ensures v == (b - 2) * p + (y - x) && v >= p
  {
    assert (b - 2) * p == b * p - 2 * p;
    MulMono(14, b - 2, p);
  }

  /** dumbmp.c:418-434: normalize, or negate when the top limb is a borrow. */
  method SubFinish(r: Mpz, an: nat, cy: nat, ghost x: nat, ghost y: nat)
    requires an < r.d.Length && cy <= 1 && AreLimbs(r.d[..an + 1])
    requires Val(r.d[..an]) - cy * BPow(an) == x - y
    requires Val(r.d[..an + 1]) == Val(r.d[..an]) + cy * BPow(an)
    modifies r`size, r.d
    ensures r.Valid()
    ensures r.Value() == if x >= y then x - y else -((Base() - 2) * BPow(an) + (y - x))
  {
    hide Val, AreLimbs, Normal, BPow;
    LimbsPrefix(r.d[..an + 1], an);
    assert r.d[..an + 1][..an] == r.d[..an];
    ValBound(r.d[..an]);
    BorrowMeans(x, y, Val(r.d[..an]), cy, BPow(an));
    if cy != 0 {
      Negate(r.d, an + 1);
      BPowSucc(an);
      NegatedValue(Val(r.d[..an + 1]), x, y, BPow(an), Base());
      TopLimbSet(r.d[..an + 1]);
      r.size := -((an + 1) as int);
      assert r.Mag() == r.d[..an + 1];
      return;
    }
    Finish(r, an + 1, false);
  }

  /** mpz_sub, for any a, b >= 0 and any aliasing. */
  method Sub(r: Mpz, a: Mpz, b: Mpz)
    requires r.Valid() && a.Valid() && b.Valid() && Apart(r, a) && Apart(r, b)
    requires a.Value() >= 0 && b.Value() >= 0       // the source aborts otherwise
    modifies r, r.d
    ensures r.Valid() && Owned(r)
    ensures r.Value() == SubResult(old(a.Value()), old(b.Value()), old(Abs(a.size)), old(Abs(b.size)))
  {
    hide Val, AreLimbs, Normal, BPow;
    SignBySize(a.Mag());
    SignBySize(b.Mag());
    var an, bn := Abs(a.size), Abs(b.size);
    SubCases(a.Mag(), b.Mag());
    Realloc(r, (if an > bn then an else bn) + 1);
    var ap, bp := a.d, b.d;
    if an < bn {
      an, bn := bn, an;
      ap, bp := bp, ap;
    }
    ghost var x, y := Val(ap[..an]), Val(bp[..bn]);
    var cy := MpnSub(r.d, ap, an, bp, bn);
    SubFinish(r, an, cy, x, y);
  }

  /** The common case: a >= b. */
  method SubLess(r: Mpz, a: Mpz, b: Mpz)
    requires r.Valid() && a.Valid() && b.Valid() && Apart(r, a) && Apart(r, b)
    requires a.Value() >= b.Value() >= 0
    modifies r, r.d
    ensures r.Valid() && Owned(r)
    ensures r.Value() == old(a.Value()) - old(b.Value())
  {
    Sub(r, a, b);
  }

  /** mpz_add_ui */
  method AddUi(r: Mpz, a: Mpz, ui: nat)
    requires r.Valid() && a.Valid() && Apart(r, a) && a.Value() >= 0 && ui < Base() * Base()
    modifies r, r.d
    ensures r.Valid() && Owned(r) && r.Value() == old(a.Value()) + ui
  {
    var b := InitSetUi(ui);
    Add(r, a, b);
  }

  /** mpz_sub_ui, where its callers keep a >= ui */
  method SubUi(r: Mpz, a: Mpz, ui: nat)
    requires r.Valid() && a.Valid() && Apart(r, a) && a.Value() >= ui && ui < Base() * Base()
    modifies r, r.d
    ensures r.Valid() && Owned(r) && r.Value() == old(a.Value()) - ui
  {
    var b := InitSetUi(ui);
    SubLess(r, a, b);
  }

  // Multiplication ---------------------------------------------------------------

  lemma SignedValues(x: int, y: int)
    ensures (0 - x) * y == 0 - x * y && x * (0 - y) == 0 - x * y && (0 - x) * (0 - y) == x * y
  {
  }

  /** mpz_mul, for any signs and any aliasing. */
  method Mul(r: Mpz, a: Mpz, b: Mpz)
    requires r.Valid() && a.Valid() && b.Valid()
    modifies r
    ensures r.Valid() && fresh(r.d)
    ensures r.Value() == old(a.Value()) * old(b.Value())
  {
    hide Val, AreLimbs, Normal;
    var an, bn := Abs(a.size), Abs(b.size);
    SignedValues(Val(a.Mag()), Val(b.Mag()));
    var scratch := MpnMul(a.d, an, b.d, bn);
    assert scratch[..an + bn] == scratch[..];
    var negative := (a.size < 0) != (b.size < 0);
    r.d := scratch;
    Finish(r, an + bn, negative);
  }

  /** mpz_mul_ui */
  method MulUi(r: Mpz, a: Mpz, ui: nat)
    requires r.Valid() && a.Valid() && ui < Base() * Base()
    modifies r
    ensures r.Valid() && fresh(r.d) && r.Value() == old(a.Value()) * ui
  {
    var b := InitSetUi(ui);
    Mul(r, a, b);
  }

  /** mpz_addmul_ui: x + y * z */
  method AddmulUi(x: Mpz, y: Mpz, z: nat)
    requires x.Valid() && y.Valid() && x.Value() >= 0 && y.Value() >= 0 && z < Base() * Base()
    modifies x, x.d
    ensures x.Valid() && Owned(x) && x.Value() == old(x.Value()) + old(y.Value()) * z
  {
    var t := new Mpz();
    MulUi(t, y, z);
    MulMono(0, y.Value(), z);
    Add(x, x, t);
  }

  /** mpz_pow_ui: y^z */
  method PowUi(x: Mpz, y: Mpz, z: nat)
    requires x.Valid() && y.Valid() && Apart(x, y)
    modifies x, x.d
    ensures x.Valid() && Owned(x) && x.Value() == Pow(old(y.Value()), z)
  {
    hide Pow, Val, AreLimbs, Normal;
    ghost var v := y.Value();
    BaseSquare();
    var t := InitSetUi(1);
    var n := z;
    PowSteps(v, 0);
    while n != 0
      invariant 0 <= n <= z && t.Valid() && fresh(t) && fresh(t.d)
      invariant x.Valid() && y.Valid() && Apart(x, y) && y.Value() == v && x.d == old(x.d)
      invariant t.Value() == Pow(v, z - n)
      decreases n
    {
      PowSteps(v, z - n);
      Mul(t, t, y);
      n := n - 1;
    }
    Set(x, t);
  }

  lemma PowSteps(v: int, k: nat)
    ensures Pow(v, 0) == 1 && Pow(v, k + 1) == Pow(v, k) * v
  {
  }

  lemma DoubleSteps(v: int, k: nat)
    ensures v * Pow2(0) == v && v * Pow2(k + 1) == v * Pow2(k) + v * Pow2(k)
    ensures v >= 0 ==> v * Pow2(k) >= 0
  {
    assert Pow2(k + 1) == Pow2(k) + Pow2(k);
    if v >= 0 { MulMono(0, v, Pow2(k)); }
  }

  /** mpz_mul_2exp: repeated doubling in place. */
  method Mul2exp(r: Mpz, a: Mpz, bcnt: nat)
    requires r.Valid() && a.Valid() && Apart(r, a)
    requires a.Value() >= 0 || bcnt == 0                 // the source aborts otherwise
    modifies r, r.d
    ensures r.Valid() && Owned(r)
    ensures r.Value() == old(a.Value()) * Pow2(bcnt)
  {
    hide Pow2, Val, AreLimbs, Normal;
    ghost var v := a.Value();
    Set(r, a);
    var n := bcnt;
    DoubleSteps(v, 0);
    while n > 0
      invariant 0 <= n <= bcnt && r.Valid() && Owned(r) && r.Value() == v * Pow2(bcnt - n)
    {
      DoubleSteps(v, bcnt - n);
      Add(r, r, r);
      n := n - 1;
    }
    assert bcnt - n == bcnt;
  }

  // Comparison and parity ----------------------------------------------------------

  /** Equal top limbs from i on leave the comparison to the limbs below. */
  lemma CompareAt(s: seq<nat>, t: seq<nat>, i: nat)
    requires |s| == |t| && i < |s| && AreLimbs(s) && AreLimbs(t)
    requires s[i] < t[i] && s[i + 1..] == t[i + 1..]
    ensures Val(s) < Val(t)
  {
    hide Val, AreLimbs, BPow;
    SplitLimbs(s, i + 1);
    SplitLimbs(t, i + 1);
    ValPrefix(s, i);
    ValPrefix(t, i);
    LimbsPrefix(s, i);
    ValBound(s[..i]);
    DigitLess(Val(s[..i]), Val(t[..i]), s[i], t[i], BPow(i));
  }

  lemma DigitLess(v: int, w: int, x: int, y: int, p: int)
    requires 0 <= v < p && 0 <= w && x < y
    ensures v + x * p < w + y * p
  {
    MulMono(x + 1, y, p);
    assert (x + 1) * p == x * p + p;
  }

  /** dumbmp.c:603-612: compare n limbs from the top. */
  method CmpMags(ap: array<nat>, bp: array<nat>, n: nat) returns (c: int)
    requires n <= ap.Length && n <= bp.Length && AreLimbs(ap[..n]) && AreLimbs(bp[..n])
    ensures -1 <= c <= 1
    ensures c < 0 <==> Val(ap[..n]) < Val(bp[..n])
    ensures c > 0 <==> Val(ap[..n]) > Val(bp[..n])
  {
    hide Val, AreLimbs;
    ghost var s, t := ap[..n], bp[..n];
    for i := n downto 0
      invariant s[i..] == t[i..]
    {
      if ap[i] != bp[i] {
        assert s[i + 1..] == t[i + 1..];
        if ap[i] > bp[i] {
          CompareAt(t, s, i);
          return 1;
        } else {
          CompareAt(s, t, i);
          return -1;
        }
      }
      assert s[i..] == [s[i]] + s[i + 1..] && t[i..] == [t[i]] + t[i + 1..];
    }
    assert s[0..] == s && t[0..] == t;
    return 0;
  }

  /** mpz_cmp */
  method Cmp(a: Mpz, b: Mpz) returns (c: int)
    requires a.Valid() && b.Valid()
    ensures -1 <= c <= 1
    ensures c < 0 <==> a.Value() < b.Value()
    ensures c > 0 <==> a.Value() > b.Value()
  {
    hide Val, AreLimbs, Normal;
    SubCases(a.Mag(), b.Mag());
    SignBySize(a.Mag());
    SignBySize(b.Mag());
    if a.size != b.size {
      return if a.size > b.size then 1 else -1;
    }
    var sign := if a.size > 0 then 1 else -1;
    c := CmpMags(a.d, b.d, Abs(a.size));
    c := if c > 0 then sign else if c < 0 then -sign else 0;
  }

  /** mpz_cmp_ui */
  method CmpUi(a: Mpz, b: nat) returns (c: int)
    requires a.Valid() && b < Base() * Base()
    ensures -1 <= c <= 1
    ensures c < 0 <==> a.Value() < b
    ensures c > 0 <==> a.Value() > b
  {
    var bz := InitSetUi(b);
    c := Cmp(a, bz);
  }

  lemma LowLimbParity(s: seq<nat>)
    requires s != []
    ensures Val(s) % 2 == s[0] % 2
  {
    SplitLimbs(s, 1);
    ValPrefix(s, 0);
    BPowSucc(0);
    EvenBase(s[0], Val(s[1..]), Pow2(GMP_LIMB_BITS - 1));
  }

  lemma EvenBase(x: int, v: int, p: int)
    ensures (x + (2 * p) * v) % 2 == x % 2
  {
    assert (2 * p) * v == (p * v) * 2 by { MulAssoc(2, p, v); }
    ModAddMul(x, p * v, 2);
  }

  /** mpz_odd_p */
  method OddP(a: Mpz) returns (odd: bool)
    requires a.Valid()
    ensures odd <==> a.Value() % 2 == 1
  {
    SignBySize(a.Mag());
    if a.size == 0 {
      return false;
    }
    LowLimbParity(a.Mag());
    return a.d[0] % 2 != 0;
  }

  /** mpz_even_p */
  method EvenP(a: Mpz) returns (even: bool)
    requires a.Valid()
    ensures even <==> a.Value() % 2 == 0
  {
    var odd := OddP(a);
    return !odd;
  }

  /** The sign changed */
  method ChangeSign(a: Mpz)
    requires a.Valid()
    modifies a`size
    ensures a.Valid() && a.Value() == -old(a.Value())
  {
    hide Val, Normal, AreLimbs;
    SignBySize(a.Mag());
    a.size := -a.size;
  }
}
