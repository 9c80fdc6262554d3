/** The integer root of dumbmp.c: Newton's iteration from above. */
module MpzRoot {
  import opened Arith
  import opened Limbs
  import opened MpzArith
  import opened MpzDiv

  /** s is the largest number with s^z <= y. */
  ghost predicate IsRoot(s: int, y: int, z: nat) {
    0 <= s && Pow(s, z) <= y < Pow(s + 1, z)
  }

  /** The floor root by counting up: the definition that the iteration has to meet. */
  function FloorRoot(y: nat, z: nat): (s: nat)
    requires z >= 1
    ensures IsRoot(s, y, z)
  {
    PowOnes(z);
    if y == 0 then 0
    else
      var s := FloorRoot(y - 1, z);
      if Pow(s + 1, z) <= y then
        PowMonoBase(s + 1, s + 2, z);
        s + 1
      else s
  }

  lemma {:induction false} PowOnes(z: nat)
    ensures Pow(1, z) == 1 && (z >= 1 ==> Pow(0, z) == 0)
  {
    if z > 0 {
      PowOnes(z - 1);
    }
  }

  lemma PowOne(s: int)
    ensures Pow(s, 1) == s
  {
    assert Pow(s, 1) == s * Pow(s, 0);
  }

  lemma RootUnique(s: int, t: int, y: int, z: nat)
    requires IsRoot(s, y, z) && IsRoot(t, y, z)
    ensures s == t
  {
    if s < t { PowMonoBase(s + 1, t, z); }
    if t < s { PowMonoBase(t + 1, s, z); }
  }

  /** One step of the iteration, with the division that the source has. */
  function Newton(y: int, z: int, u: int): int
    requires y >= 0 && z >= 1 && u >= 1
  {
    PowPos(u, z - 1);
    DivQ(DivQ(y, Pow(u, z - 1)) + u * (z - 1), z)
  }

  // The inequality of the means ----------------------------------------------------

  /** s^z + (z-1) u^z - z s u^(z-1) */
  function Gap(s: int, u: int, z: nat): int
    requires z >= 1
  {
    Pow(s, z) + (z - 1) * Pow(u, z) - z * (s * Pow(u, z - 1))
  }

  /** The gap is never negative, and positive when the numbers differ and z is at least 2. */
  lemma {:induction false} MeanInequality(s: int, u: int, z: nat)
    requires z >= 1 && s >= 0 && u >= 1
    ensures Gap(s, u, z) >= 0
    ensures z >= 2 && s != u ==> Gap(s, u, z) > 0
  {
    if z == 1 {
      assert Pow(u, 0) == 1 && Pow(s, 1) == s;
    } else {
      MeanInequality(s, u, z - 1);
      PowPos(u, z - 2);
      GapStep(s, u, z - 1, Pow(s, z - 1), Pow(u, z - 2));
      MulMono(0, Gap(s, u, z - 1), s);
      SquareBound(s - u, (z - 1) * Pow(u, z - 2));
      MulPos(z - 1, Pow(u, z - 2));
    }
  }

  lemma SquareBound(x: int, k: int)
    requires k >= 0
    ensures k * (x * x) >= 0 && (k >= 1 && x != 0 ==> k * (x * x) > 0)
  {
    assert x * x >= 0 && (x != 0 ==> x * x >= 1) by {
      if x > 0 { MulPos(x, x); } else if x < 0 { MulPos(-x, -x); }
    }
    MulMono(0, x * x, k);
    if k >= 1 && x != 0 { MulPos(k, x * x); }
  }

  /** From z to z + 1 the gap is multiplied by s and grows by z u^(z-1) (s - u)^2; here sp is
      s^z and up is u^(z-1). */
  lemma GapStep(s: int, u: int, z: nat, sp: int, up: int)
    requires z >= 1 && sp == Pow(s, z) && up == Pow(u, z - 1)
    ensures Gap(s, u, z + 1) == s * Gap(s, u, z) + (z * up) * ((s - u) * (s - u))
  {
    var uz := u * up;
    assert Pow(u, z) == uz && Pow(u, z + 1) == u * uz && Pow(s, z + 1) == s * sp;
    GapAlgebra(s, u, z, sp, up);
  }

  lemma GapAlgebra(s: int, u: int, z: int, sp: int, up: int)
    ensures s * sp + z * (u * (u * up)) - (z + 1) * (s * (u * up))
            == s * (sp + (z - 1) * (u * up) - z * (s * up)) + (z * up) * ((s - u) * (s - u))
  {
    var a, m, n := s * (u * up), u * (u * up), s * (s * up);
    OldGap(s, sp, z, u * up, s * up);
    NewSquare(s, u, z, up);
    assert (z + 1) * a == z * a + a && (z - 1) * a == z * a - a;
  }

  lemma OldGap(s: int, sp: int, z: int, x: int, y: int)
    ensures s * (sp + (z - 1) * x - z * y) == s * sp + (z - 1) * (s * x) - z * (s * y)
  {
    assert s * (sp + (z - 1) * x - z * y) == s * sp + s * ((z - 1) * x) - s * (z * y);
    assert s * ((z - 1) * x) == (z - 1) * (s * x) by { MulAssoc(s, z - 1, x); MulAssoc(z - 1, s, x); }
    assert s * (z * y) == z * (s * y) by { MulAssoc(s, z, y); MulAssoc(z, s, y); }
  }

  lemma NewSquare(s: int, u: int, z: int, up: int)
    ensures (z * up) * ((s - u) * (s - u)) == z * (s * (s * up)) - 2 * (z * (s * (u * up))) + z * (u * (u * up))
  {
    assert (s - u) * (s - u) == s * s - 2 * (s * u) + u * u;
    assert (z * up) * (s * s - 2 * (s * u) + u * u)
        == (z * up) * (s * s) - 2 * ((z * up) * (s * u)) + (z * up) * (u * u);
    MoveFactors(z, up, s, s);
    MoveFactors(z, up, s, u);
    MoveFactors(z, up, u, u);
  }

  lemma MoveFactors(z: int, p: int, a: int, b: int)
    ensures (z * p) * (a * b) == z * (a * (b * p))
  {
    MulAssoc(z, p, a * b);
    assert p * (a * b) == a * (b * p) by { MulAssoc(a, b, p); }
  }

  // One step ------------------------------------------------------------------------

  /** At the root the iteration does not go down. */
  lemma NewtonAtRoot(y: int, z: int, s: int)
    requires y >= 2 && z >= 1 && IsRoot(s, y, z)
    ensures s >= 1 && Newton(y, z, s) >= s
  {
    RootPositive(s, y, z);
    PowPos(s, z - 1);
    var p := Pow(s, z - 1);
    var q := DivQ(y, p);
    assert Pow(s, z) == s * p;
    QuotientAtRoot(y, s, p, z);
    LastDivision(q + s * (z - 1), s, z);
  }

  lemma RootPositive(s: int, y: int, z: nat)
    requires y >= 2 && z >= 1 && IsRoot(s, y, z)
    ensures s >= 1
  {
    PowOnes(z);
  }

  lemma QuotientAtRoot(y: int, s: int, p: int, z: int)
    requires y >= 2 && s >= 1 && z >= 1 && p == Pow(s, z - 1) && p >= 1 && s * p <= y
    ensures DivQ(y, p) >= s && (s == 1 ==> DivQ(y, p) >= 2)
  {
    DivCompare(y, p, s);
    PowOnes(z - 1);
    if s == 1 {
      DivModUnique(y, 1, y, 0);
    } else {
      MulMono(2, s, p);
    }
  }

  lemma LastDivision(t: int, s: int, z: int)
    requires z >= 1 && s >= 1 && t >= s * z && t != z
    ensures DivQ(t, z) >= s
  {
    DivCompare(t, z, s);
  }

  /** Above the root the iteration goes strictly down. */
  lemma NewtonGoesDown(y: int, z: int, u: int)
    requires y >= 2 && z >= 1 && u >= 1 && y < Pow(u, z)
    ensures Newton(y, z, u) < u && Newton(y, z, u) >= 0
  {
    PowPos(u, z - 1);
    var p := Pow(u, z - 1);
    var q := DivQ(y, p);
    DivisionIff(y, p);
    DivCompare(y, p, u);
    var t := q + u * (z - 1);
    assert t < u * z by { assert u * z == u * (z - 1) + u; }
    MulMono(0, u, z - 1);
    DivisionIff(t, z);
    DivCompare(t, z, u);
  }

  /** Above the root the iteration never passes the root, except for the square root of 2: the
      slack of the inequality pays for the undivided equal operands. */
  lemma NewtonStaysAbove(y: int, z: int, s: int, u: int)
    requires y >= 2 && z >= 1 && IsRoot(s, y, z) && u > s && !(y == 2 && z == 2)
    ensures Newton(y, z, u) >= s
  {
    RootPositive(s, y, z);
    PowPos(u, z - 1);
    var p := Pow(u, z - 1);
    var q := DivQ(y, p);
    var t := q + u * (z - 1);
    MeanInequality(s, u, z);
    assert Pow(u, z) == u * p;
    NumeratorAbove(y, z, s, u, p, Pow(s, z));
    NotEqualToIndex(y, z, u, p);
    LastDivision(t, s, z);
  }

  lemma NumeratorAbove(y: int, z: int, s: int, u: int, p: int, sz: int)
    requires y >= 2 && z >= 1 && p >= 1 && sz <= y && u > s >= 1
    requires z == 1 ==> p == 1
    requires sz + (z - 1) * (u * p) - z * (s * p) >= 0
    requires z >= 2 ==> sz + (z - 1) * (u * p) - z * (s * p) > 0
    ensures DivQ(y, p) + u * (z - 1) >= s * z
  {
    var x := u * (z - 1) - s * z;
    FactorP(u, s, z, p);
    Slack(y, x, p, sz);
  }

  lemma FactorP(u: int, s: int, z: int, p: int)
    ensures (u * (z - 1) - s * z) * p == (z - 1) * (u * p) - z * (s * p)
  {
    assert (u * (z - 1) - s * z) * p == (u * (z - 1)) * p - (s * z) * p;
    MulAssoc(z - 1, u, p);
    MulAssoc(z, s, p);
  }

  lemma Slack(y: int, x: int, p: int, sz: int)
    requires y >= 2 && p >= 1 && sz <= y && sz + x * p >= 0
    requires p > 1 ==> sz + x * p > 0
    ensures DivQ(y, p) + x >= 0
  {
    var q := DivQ(y, p);
    if y == p {
      assert (1 + x) * p == p + x * p;
      PositiveFactor(1 + x, p);
    } else {
      assert y == q * p + y % p;
      assert (q + 1 + x) * p == q * p + p + x * p;
      PositiveFactor(q + 1 + x, p);
    }
  }

  lemma NotEqualToIndex(y: int, z: int, u: int, p: int)
    requires y >= 2 && z >= 1 && u >= 2 && p >= 1 && p == Pow(u, z - 1) && !(y == 2 && z == 2)
    ensures DivQ(y, p) + u * (z - 1) != z
  {
    var q := DivQ(y, p);
    DivBounds(y, p);
    if z == 1 {
      assert Pow(u, 0) == 1;
      DivModUnique(y, 1, y, 0);
    } else if z == 2 {
      assert Pow(u, 1) == u * Pow(u, 0) == u;
      if u == 2 && y != 2 {
        assert q == y / 2 >= 1;
      }
    } else {
      MulMono(2, u, z - 1);
    }
  }

  /** The square root of 2 is where the equal-operand quirk strikes twice. */
  lemma RootOfTwo()
    ensures Newton(2, 2, 2) == 0 && IsRoot(1, 2, 2)
  {
    assert Pow(2, 1) == 2 * Pow(2, 0);
    assert Pow(1, 2) == 1 * Pow(1, 1) && Pow(1, 1) == 1 * Pow(1, 0);
    assert Pow(2, 2) == 2 * Pow(2, 1);
  }

  /** The state between two steps: not below the root, or on the way to the abort. */
  ghost predicate Descending(y: int, z: nat, u: int) {
    z >= 1 && y >= 2 &&
    if y == 2 && z == 2 then u == 2 || u == 0 else u >= 1 && FloorRoot(y, z) <= u
  }

  lemma DescentStart(y: int, z: nat)
    requires y >= 2 && z >= 1
    ensures Descending(y, z, y)
  {
    var s := FloorRoot(y, z);
    RootPositive(s, y, z);
    PowMonoExp(s, 1, z);
    PowOne(s);
  }

  /** What one pass of the loop does from a state u whose divisor u^(z-1) is positive. */
  lemma DescentStep(y: int, z: nat, u: int)
    requires Descending(y, z, u) && Pow(u, z - 1) > 0
    ensures u >= 1 && Newton(y, z, u) >= 0
    ensures Newton(y, z, u) >= u ==> u == FloorRoot(y, z) && !(y == 2 && z == 2)
    ensures Newton(y, z, u) < u ==> Descending(y, z, Newton(y, z, u))
  {
    if y == 2 && z == 2 {
      RootOfTwo();
      PowOne(u);
    } else {
      var s := FloorRoot(y, z);
      RootPositive(s, y, z);
      if u == s {
        NewtonAtRoot(y, z, s);
      } else {
        PowMonoBase(s + 1, u, z);
        NewtonGoesDown(y, z, u);
        NewtonStaysAbove(y, z, s, u);
      }
    }
  }

  /** The divisor vanishes only on the way to the abort. */
  lemma DivisorVanishes(y: int, z: nat, u: int)
    requires Descending(y, z, u)
    ensures Pow(u, z - 1) >= 0
    ensures Pow(u, z - 1) == 0 ==> y == 2 && z == 2
  {
    if u >= 1 { PowPos(u, z - 1); }
    PowOne(u);
  }

  /** mpz_root. It ends in the ASSERT of the division, which aborts, for the square root of 2
      and for nothing else; otherwise x is the largest number with x^z <= y. */
  method Root(x: Mpz, y: Mpz, z: nat) returns (aborted: bool)
    requires x.Valid() && y.Valid() && Apart(x, y)
    requires y.Value() >= 0 && 1 <= z < Base() * Base()
    modifies x, x.d
    ensures x.Valid() && Owned(x)
    ensures aborted <==> old(y.Value()) == 2 && z == 2
    ensures !aborted ==> IsRoot(x.Value(), old(y.Value()), z)
  {
    hide Mpz.Valid, Mpz.Value, Descending, Newton, Pow, FloorRoot, DivQ;
    ghost var yv := y.Value();
    BaseSquare();
    var c := CmpUi(y, 1);
    if c <= 0 {
      SmallRoot(yv, z);
      Set(x, y);
      return false;
    }
    var t := new Mpz();
    var u := InitSet(y);
    DescentStart(yv, z);
    while true
      invariant t.Valid() && u.Valid() && t != u && t.d != u.d
      invariant fresh(t) && fresh(t.d) && fresh(u) && fresh(u.d)
      invariant y.Valid() && y.Value() == yv && x.Valid() && x.d == old(x.d) && Apart(x, y)
      invariant Descending(yv, z, u.Value()) && u.Value() >= 0
      decreases u.Value()
    {
      DivisorVanishes(yv, z, u.Value());
      aborted := NewtonPass(t, u, y, z);
      if aborted {
        return true;
      }
      DescentStep(yv, z, u.Value());
      c := Cmp(t, u);
      if c >= 0 {
        break;
      }
      Set(u, t);
    }
    Set(x, u);
    return false;
  }

  /** dumbmp.c:875-878, up to the ASSERT (mpz_sgn(b) > 0) of the first division. */
  method NewtonPass(t: Mpz, u: Mpz, y: Mpz, z: nat) returns (aborted: bool)
    requires t.Valid() && u.Valid() && y.Valid() && t != u && t != y && t.d != u.d && t.d != y.d
    requires y.Value() >= 0 && u.Value() >= 0 && 1 <= z < Base() * Base()
    modifies t, t.d
    ensures t.Valid() && Owned(t) && t.d != u.d && t.d != y.d
    ensures aborted <==> Pow(u.Value(), z - 1) <= 0
    ensures !aborted && u.Value() >= 1 ==> t.Value() == Newton(y.Value(), z, u.Value())
  {
    hide Mpz.Valid, Mpz.Value, Newton, Pow, DivQ;
    PowUi(t, u, z - 1);
    var c := Sgn(t);
    if c <= 0 {
      return true;
    }
    NewtonIs(y.Value(), z, u.Value());
    TdivQ(t, y, t);
    AddmulUi(t, u, z - 1);
    TdivQUi(t, t, z);
    return false;
  }

  lemma SmallRoot(y: int, z: nat)
    requires 0 <= y <= 1 && z >= 1
    ensures IsRoot(y, y, z)
  {
    PowOnes(z);
    PowMonoBase(1, 2, z);
  }

  lemma NewtonIs(y: int, z: int, u: int)
    requires y >= 0 && z >= 1 && u >= 0 && Pow(u, z - 1) > 0
    ensures DivQ(y, Pow(u, z - 1)) >= 0
    ensures DivQ(y, Pow(u, z - 1)) + u * (z - 1) >= 0
    ensures u >= 1 ==> Newton(y, z, u) == DivQ(DivQ(y, Pow(u, z - 1)) + u * (z - 1), z)
  {
    DivisionIff(y, Pow(u, z - 1));
    MulMono(0, u, z - 1);
  }
}
