/** The limb loops of dumbmp.c on arrays, and mpz_t objects that may alias. */
module Dumbmp {
  import opened Arith
  import opened Bits
  import opened Limbs

  // Limb loops ---------------------------------------------------------------

  /** mpn_normalize */
  method MpnNormalize(rp: array<nat>, rn0: nat) returns (rn: nat)
    requires rn0 <= rp.Length
    ensures rn <= rn0 && Normal(rp[..rn])
    ensures Val(rp[..rn]) == Val(rp[..rn0])
  {
    rn := rn0;
    while rn > 0 && rp[rn - 1] == 0
      invariant rn <= rn0 && Val(rp[..rn]) == Val(rp[..rn0])
    {
      assert rp[..rn][..rn - 1] == rp[..rn - 1];
      rn := rn - 1;
    }
  }

  lemma SmallCarry(t: int)
    requires 0 <= t < 2 * Base()
    ensures 0 <= HI(t) <= 1 && Wrap(t) == t
  {
    BaseSquare();
    WrapId(t);
    if t < Base() {
      DivModUnique(t, Base(), 0, t);
    } else {
      DivModUnique(t, Base(), 1, t - Base());
    }
  }

  /** One limb of a sum: the carry invariant moves on. */
  lemma AddDigit(r: seq<nat>, cy: nat, x: int, a: nat, b: nat)
    requires a < Base() && b < Base() && cy <= 1 && Val(r) + cy * BPow(|r|) == x
    ensures var t := a + b + cy;
            && 0 <= HI(t) <= 1 && Wrap(t) == t
            && Val(r + [LO(t)]) + HI(t) * BPow(|r| + 1) == x + a * BPow(|r|) + b * BPow(|r|)
  {
    var t := a + b + cy;
    LoHi(t);
    SmallCarry(t);
    ValSnoc(r, LO(t));
    AddStep(Val(r), cy, x, a, b, LO(t), HI(t), BPow(|r|), Base());
  }

  /** Writing limb i of an array whose first i limbs are r. */
  lemma Extends(rp: array<nat>, i: nat, r: seq<nat>, x: nat)
    requires i < rp.Length && rp[..i] == r && rp[i] == x
    ensures rp[..i + 1] == r + [x]
    ensures AreLimbs(r) && x < Base() ==> AreLimbs(rp[..i + 1])
  {
  }

  /** dumbmp.c:351-357: the limbs that both operands have. */
  method AddLow(rp: array<nat>, ap: array<nat>, bp: array<nat>, bn: nat) returns (cy: nat)
    requires bn <= rp.Length && bn <= ap.Length && bn <= bp.Length
    requires AreLimbs(ap[..bn]) && AreLimbs(bp[..bn])
    modifies rp
    ensures cy <= 1 && AreLimbs(rp[..bn])
    ensures Val(rp[..bn]) + cy * BPow(bn) == old(Val(ap[..bn]) + Val(bp[..bn]))
    ensures forall k | bn <= k < rp.Length :: rp[k] == old(rp[k])
  {
    hide AreLimbs, Val, BPow, LO, HI, Wrap, Base;
    ghost var a, b := ap[..bn], bp[..bn];
    cy := 0;
    NoLimbs(rp);
    for i := 0 to bn
      invariant forall k | i <= k < bn :: ap[k] == a[k] && bp[k] == b[k]
      invariant forall k | bn <= k < rp.Length :: rp[k] == old(rp[k])
      invariant cy <= 1 && AreLimbs(rp[..i])
      invariant Val(rp[..i]) + cy * BPow(i) == Val(a[..i]) + Val(b[..i])
    {
      ghost var r := rp[..i];
      LimbsAt(a, i);
      LimbsAt(b, i);
      AddDigit(r, cy, Val(a[..i]) + Val(b[..i]), a[i], b[i]);
      ValPrefix(a, i);
      ValPrefix(b, i);
      var t := Wrap(ap[i] + bp[i] + cy);
      rp[i] := LO(t);
      cy := HI(t);
      Extends(rp, i, r, LO(t));
    }
    assert a[..bn] == a && b[..bn] == b;
  }

  /** dumbmp.c:358-363: the carry goes on through the longer operand a. */
  method AddHigh(rp: array<nat>, ap: array<nat>, bn: nat, an: nat, cy0: nat, ghost a: seq<nat>, ghost x: int)
    returns (cy: nat)
    requires bn <= an <= rp.Length && an <= ap.Length && an == |a| && AreLimbs(a) && AreLimbs(rp[..bn])
    requires forall k | bn <= k < an :: ap[k] == a[k]
    requires cy0 <= 1 && Val(rp[..bn]) + cy0 * BPow(bn) == x + Val(a[..bn])
    modifies rp
    ensures cy <= 1 && AreLimbs(rp[..an])
    ensures Val(rp[..an]) + cy * BPow(an) == x + Val(a)
  {
    hide AreLimbs, Val, BPow, LO, HI, Wrap, Base;
    cy := cy0;
    for i := bn to an
      invariant forall k | i <= k < an :: ap[k] == a[k]
      invariant cy <= 1 && AreLimbs(rp[..i])
      invariant Val(rp[..i]) + cy * BPow(i) == x + Val(a[..i])
    {
      ghost var r := rp[..i];
      LimbsAt(a, i);
      AddDigit(r, cy, x + Val(a[..i]), a[i], 0);
      ValPrefix(a, i);
      var t := Wrap(ap[i] + cy);
      rp[i] := LO(t);
      cy := HI(t);
      Extends(rp, i, r, LO(t));
    }
    assert a[..an] == a;
  }

  /** dumbmp.c:344-365: sum of two limb arrays, into an array that may be either of them. */
  method MpnAdd(rp: array<nat>, ap: array<nat>, an: nat, bp: array<nat>, bn: nat)
    requires bn <= an < rp.Length && an <= ap.Length && bn <= bp.Length
    requires AreLimbs(ap[..an]) && AreLimbs(bp[..bn])
    modifies rp
    ensures AreLimbs(rp[..an + 1])
    ensures Val(rp[..an + 1]) == old(Val(ap[..an]) + Val(bp[..bn]))
  {
    ghost var a, b := ap[..an], bp[..bn];
    assert a[..bn] == ap[..bn];
    var cy := AddLow(rp, ap, bp, bn);
    cy := AddHigh(rp, ap, bn, an, cy, a, Val(b));
    ghost var r := rp[..an];
    rp[an] := cy;
    Extends(rp, an, r, cy);
    ValSnoc(r, cy);
  }

  // Subtraction ----------------------------------------------------------------

  /** One limb of a difference: the borrow invariant moves on. */
  lemma SubDigit(r: seq<nat>, cy: nat, x: int, a: nat, b: nat)
    requires a < Base() && b < Base() && cy <= 1 && Val(r) - cy * BPow(|r|) == x
    ensures var t := Wrap(a - b - cy);
            var c2 := LO(Wrap(-HI(t)));
            && c2 <= 1
            && Val(r + [LO(t)]) - c2 * BPow(|r| + 1) == x + a * BPow(|r|) - b * BPow(|r|)
  {
    hide Val, BPow, LO, HI, Wrap, Base;
    Borrow(a - b - cy);
    var t := Wrap(a - b - cy);
    var c2 := LO(Wrap(-HI(t)));
    BPowSucc(|r|);
    ValSnoc(r, LO(t));
    SubStep(Val(r), cy, x, a, b, LO(t), c2, BPow(|r|), Base());
  }

  /** dumbmp.c:404-410 */
  method SubLow(rp: array<nat>, ap: array<nat>, bp: array<nat>, bn: nat) returns (cy: nat)
    requires bn <= rp.Length && bn <= ap.Length && bn <= bp.Length
    requires AreLimbs(ap[..bn]) && AreLimbs(bp[..bn])
    modifies rp
    ensures cy <= 1 && AreLimbs(rp[..bn])
    ensures Val(rp[..bn]) - cy * BPow(bn) == old(Val(ap[..bn]) - Val(bp[..bn]))
    ensures forall k | bn <= k < rp.Length :: rp[k] == old(rp[k])
  {
    hide AreLimbs, Val, BPow, LO, HI, Wrap, Base;
    ghost var a, b := ap[..bn], bp[..bn];
    cy := 0;
    NoLimbs(rp);
    for i := 0 to bn
      invariant forall k | i <= k < bn :: ap[k] == a[k] && bp[k] == b[k]
      invariant forall k | bn <= k < rp.Length :: rp[k] == old(rp[k])
      invariant cy <= 1 && AreLimbs(rp[..i])
      invariant Val(rp[..i]) - cy * BPow(i) == Val(a[..i]) - Val(b[..i])
    {
      ghost var r := rp[..i];
      LimbsAt(a, i);
      LimbsAt(b, i);
      SubDigit(r, cy, Val(a[..i]) - Val(b[..i]), a[i], b[i]);
      ValPrefix(a, i);
      ValPrefix(b, i);
      var t := Wrap(ap[i] - bp[i] - cy);
      rp[i] := LO(t);
      cy := LO(Wrap(-HI(t)));
      Extends(rp, i, r, LO(t));
    }
    assert a[..bn] == a && b[..bn] == b;
  }

  /** dumbmp.c:411-416 */
  method SubHigh(rp: array<nat>, ap: array<nat>, bn: nat, an: nat, cy0: nat, ghost a: seq<nat>, ghost x: int)
    returns (cy: nat)
    requires bn <= an <= rp.Length && an <= ap.Length && an == |a| && AreLimbs(a) && AreLimbs(rp[..bn])
    requires forall k | bn <= k < an :: ap[k] == a[k]
    requires cy0 <= 1 && Val(rp[..bn]) - cy0 * BPow(bn) == Val(a[..bn]) - x
    modifies rp
    ensures cy <= 1 && AreLimbs(rp[..an])
    ensures Val(rp[..an]) - cy * BPow(an) == Val(a) - x
  {
    hide AreLimbs, Val, BPow, LO, HI, Wrap, Base;
    cy := cy0;
    for i := bn to an
      invariant forall k | i <= k < an :: ap[k] == a[k]
      invariant cy <= 1 && AreLimbs(rp[..i])
      invariant Val(rp[..i]) - cy * BPow(i) == Val(a[..i]) - x
    {
      ghost var r := rp[..i];
      LimbsAt(a, i);
      SubDigit(r, cy, Val(a[..i]) - x, a[i], 0);
      ValPrefix(a, i);
      var t := Wrap(ap[i] - cy);
      rp[i] := LO(t);
      cy := LO(Wrap(-HI(t)));
      Extends(rp, i, r, LO(t));
    }
    assert a[..an] == a;
  }

  /** dumbmp.c:422-428: the loop of a two's-complement negation of rn limbs. */
  method NegateLoop(rp: array<nat>, rn: nat) returns (cy: nat)
    requires rn <= rp.Length && AreLimbs(rp[..rn])
    modifies rp
    ensures cy <= 1 && AreLimbs(rp[..rn])
    ensures Val(rp[..rn]) - cy * BPow(rn) == -(old(Val(rp[..rn])) as int)
  {
    hide AreLimbs, Val, BPow, LO, HI, Wrap, Base;
    ghost var b := rp[..rn];
    cy := 0;
    NoLimbs(rp);
    for i := 0 to rn
      invariant forall k | i <= k < rn :: rp[k] == b[k]
      invariant cy <= 1 && AreLimbs(rp[..i])
      invariant Val(rp[..i]) - cy * BPow(i) == 0 - Val(b[..i])
    {
      ghost var r := rp[..i];
      LimbsAt(b, i);
      SubDigit(r, cy, 0 - Val(b[..i]), 0, b[i]);
      ValPrefix(b, i);
      var t := Wrap(0 - rp[i] - cy);
      rp[i] := LO(t);
      cy := LO(Wrap(-HI(t)));
      Extends(rp, i, r, LO(t));
    }
    assert b[..rn] == b;
  }

  method Negate(rp: array<nat>, rn: nat)
    requires rn <= rp.Length && AreLimbs(rp[..rn]) && Val(rp[..rn]) > 0
    modifies rp
    ensures AreLimbs(rp[..rn])
    ensures Val(rp[..rn]) == BPow(rn) - old(Val(rp[..rn]))
  {
    hide AreLimbs, Val, BPow;
    var cy := NegateLoop(rp, rn);
    assert cy * BPow(rn) == if cy == 0 then 0 else BPow(rn);
  }

  // Multiplication ---------------------------------------------------------------

  /** dumbmp.c:464-472: add one limb times b to the limbs from off on, with one more limb. */
  method MulRow(scratch: array<nat>, off: nat, x: nat, bp: array<nat>, bn: nat)
    requires scratch != bp && bn <= bp.Length && off + bn < scratch.Length
    requires x < Base() && AreLimbs(bp[..bn]) && AreLimbs(scratch[off..off + bn])
    modifies scratch
    ensures scratch[..off] == old(scratch[..off])
    ensures AreLimbs(scratch[off..off + bn + 1])
    ensures Val(scratch[off..off + bn + 1]) == old(Val(scratch[off..off + bn])) + x * Val(bp[..bn])
  {
    hide AreLimbs, Val, BPow, LO, HI, Wrap, Base;
    ghost var b, s := bp[..bn], scratch[off..off + bn];
    var cy: nat := 0;
    NoLimbs(scratch);
    assert scratch[off..off] == scratch[..0];
    for i := 0 to bn
      invariant scratch[..off] == old(scratch[..off])
      invariant forall k | i <= k < bn :: scratch[off + k] == s[k]
      invariant cy < Base() && AreLimbs(scratch[off..off + i])
      invariant Val(scratch[off..off + i]) + cy * BPow(i) == Val(s[..i]) + x * Val(b[..i])
    {
      ghost var r := scratch[off..off + i];
      LimbsAt(b, i);
      LimbsAt(s, i);
      MulDigit(r, cy, Val(s[..i]), Val(b[..i]), x, b[i], s[i]);
      ValPrefix(s, i);
      ValPrefix(b, i);
      var t := Wrap(x * bp[i] + scratch[off + i] + cy);
      scratch[off + i] := LO(t);
      cy := HI(t);
      ExtendsAt(scratch, off, i, r, LO(t));
    }
    assert s[..bn] == s && b[..bn] == b;
    ghost var r := scratch[off..off + bn];
    scratch[off + bn] := cy;
    ExtendsAt(scratch, off, bn, r, cy);
    ValSnoc(r, cy);
  }

  lemma MulDigit(r: seq<nat>, cy: nat, v: int, w: int, x: nat, b: nat, tm: nat)
    requires x < Base() && b < Base() && tm < Base() && cy < Base()
    requires Val(r) + cy * BPow(|r|) == v + x * w
    ensures var t := x * b + tm + cy;
            && 0 <= HI(t) < Base() && Wrap(t) == t
            && Val(r + [LO(t)]) + HI(t) * BPow(|r| + 1) == (v + tm * BPow(|r|)) + x * (w + b * BPow(|r|))
  {
    var t := x * b + tm + cy;
    NoOverflow(x, b, tm, cy);
    WrapId(t);
    LoHi(t);
    ValSnoc(r, LO(t));
    MulStep(Val(r), cy, v, x, b, w, tm, LO(t), HI(t), BPow(|r|), Base());
  }

  lemma ExtendsAt(rp: array<nat>, off: nat, i: nat, r: seq<nat>, x: nat)
    requires off + i < rp.Length && rp[off..off + i] == r && rp[off + i] == x
    ensures rp[off..off + i + 1] == r + [x]
    ensures AreLimbs(r) && x < Base() ==> AreLimbs(rp[off..off + i + 1])
  {
  }

  /** The first ai rows are done and row ai follows, on values. */
  lemma RowDone(s: seq<nat>, z: seq<nat>, a: seq<nat>, b: seq<nat>, ai: nat)
    requires ai < |a| && |s| == ai + |b| && |z| == |s| + 1 && z[..ai] == s[..ai]
    requires AreLimbs(s) && AreLimbs(z[ai..])
    requires Val(s) == Val(a[..ai]) * Val(b)
    requires Val(z[ai..]) == Val(s[ai..]) + a[ai] * Val(b)
    ensures AreLimbs(z) && Val(z) == Val(a[..ai + 1]) * Val(b)
  {
    hide Val, AreLimbs, BPow;
    SplitLimbs(s, ai);
    SplitLimbs(z, ai);
    ValPrefix(a, ai);
    RowTotal(Val(s[..ai]), Val(s[ai..]), Val(z[ai..]), BPow(ai), a[ai], Val(b), Val(a[..ai]), Val(a[..ai + 1]));
  }

  method ZeroLow(scratch: array<nat>, bn: nat)
    requires bn <= scratch.Length
    modifies scratch
    ensures AreLimbs(scratch[..bn]) && Val(scratch[..bn]) == 0
  {
    for bi := 0 to bn
      invariant forall k | 0 <= k < bi :: scratch[k] == 0
    {
      scratch[bi] := 0;
    }
    ValZeros(scratch[..bn]);
  }

  /** dumbmp.c:456-473: schoolbook product into fresh storage. */
  method MpnMul(ap: array<nat>, an: nat, bp: array<nat>, bn: nat) returns (scratch: array<nat>)
    requires an <= ap.Length && bn <= bp.Length
    requires AreLimbs(ap[..an]) && AreLimbs(bp[..bn])
    ensures fresh(scratch) && scratch.Length == an + bn && AreLimbs(scratch[..])
    ensures Val(scratch[..]) == Val(ap[..an]) * Val(bp[..bn])
  {
    hide AreLimbs, Val;
    scratch := new nat[an + bn];
    ghost var a, b := ap[..an], bp[..bn];
    ZeroLow(scratch, bn);
    NoLimbs(ap);
    assert a[..0] == ap[..0];
    for ai := 0 to an
      invariant fresh(scratch) && AreLimbs(scratch[..ai + bn])
      invariant Val(scratch[..ai + bn]) == Val(a[..ai]) * Val(b)
    {
      ghost var s := scratch[..ai + bn];
      LimbsAt(a, ai);
      LimbsTail(s, ai);
      assert scratch[ai..ai + bn] == s[ai..];
      MulRow(scratch, ai, ap[ai], bp, bn);
      ghost var z := scratch[..ai + bn + 1];
      assert z[ai..] == scratch[ai..ai + bn + 1] && z[..ai] == scratch[..ai] == s[..ai];
      RowDone(s, z, a, b, ai);
    }
    assert a[..an] == a && scratch[..an + bn] == scratch[..];
  }

  lemma LimbsTail(s: seq<nat>, i: nat)
    requires AreLimbs(s) && i <= |s|
    ensures AreLimbs(s[i..])
  {
  }

  lemma SplitLimbs(s: seq<nat>, i: nat)
    requires i <= |s|
    ensures Val(s) == Val(s[..i]) + BPow(i) * Val(s[i..])
    ensures AreLimbs(s) <==> AreLimbs(s[..i]) && AreLimbs(s[i..])
  {
    hide Val, BPow, AreLimbs;
    assert s == s[..i] + s[i..];
    ValAppend(s[..i], s[i..]);
    SplitAreLimbs(s, i);
  }

  lemma SplitAreLimbs(s: seq<nat>, i: nat)
    requires i <= |s|
    ensures AreLimbs(s) <==> AreLimbs(s[..i]) && AreLimbs(s[i..])
  {
    hide Base;
    assert forall k | 0 <= k < |s| :: s[k] == if k < i then s[..i][k] else s[i..][k - i];
  }

  lemma RowTotal(low: int, high: int, high2: int, p: int, x: int, b: int, a: int, a2: int)
    requires low + p * high == a * b && high2 == high + x * b && a2 == a + x * p
    ensures low + p * high2 == a2 * b
  {
    assert p * (high + x * b) == p * high + p * (x * b);
    assert (a + x * p) * b == a * b + (x * p) * b;
    assert (x * p) * b == p * (x * b) by { MulAssoc(p, x, b); }
  }

  lemma NoLimbs(rp: array<nat>)
    ensures AreLimbs(rp[..0]) && Val(rp[..0]) == 0
  {
  }

  lemma LimbsAt(s: seq<nat>, i: nat)
    requires AreLimbs(s) && i < |s|
    ensures s[i] < Base()
  {
  }
}
