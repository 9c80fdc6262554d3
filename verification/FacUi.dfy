/** The FACMUL constants of gen-fac_ui.c. */
module FacUi {
  import opened Arith
  import opened Limbs
  import opened MpzArith
  import opened MpzDiv
  import opened MpzRoot

  /** y (y+2) (y+4) ... with z factors */
  function OddProduct(y: int, z: nat): int
    decreases z
  {
    if z == 0 then 1 else y * OddProduct(y + 2, z - 1)
  }

  lemma {:induction false} OddProductGrows(x: int, y: int, z: nat)
    requires 1 <= x <= y
    ensures 1 <= OddProduct(x, z) <= OddProduct(y, z)
    ensures z >= 1 ==> y <= OddProduct(y, z)
    decreases z
  {
    if z > 0 {
      OddProductGrows(x + 2, y + 2, z - 1);
      MulMono(x, y, OddProduct(x + 2, z - 1));
      MulMono(OddProduct(x + 2, z - 1), OddProduct(y + 2, z - 1), y);
      MulMono(1, OddProduct(y + 2, z - 1), y);
      MulPos(x, OddProduct(x + 2, z - 1));
    }
  }

  /** odd_products */
  method OddProducts(x: Mpz, y: Mpz, z: nat)
    requires x.Valid() && y.Valid() && x != y && x.d != y.d && y.Value() >= 0
    modifies x, x.d
    ensures x.Valid() && Owned(x) && x.d != y.d
    ensures x.Value() == OddProduct(y.Value(), z)
  {
    hide Mpz.Valid, Mpz.Value, OddProduct;
    BaseSquare();
    ghost var v := y.Value();
    var t := InitSet(y);
    SetUi(x, 1);
    var n := z;
    OneTimes(OddProduct(v, z));
    while n != 0
      invariant 0 <= n <= z && x.Valid() && t.Valid() && fresh(t) && fresh(t.d) && x.d != t.d
      invariant Owned(x) && y.Valid() && y.Value() == v && x.d != y.d && t.Value() >= 0
      invariant x.Value() * OddProduct(t.Value(), n) == OddProduct(v, z)
      decreases n
    {
      NextFactor(x.Value(), t.Value(), n);
      Mul(x, x, t);
      AddUi(t, t, 2);
      n := n - 1;
    }
    NoFactor(t.Value());
  }

  lemma OneTimes(p: int)
    ensures 1 * p == p
  {
  }

  lemma NextFactor(x: int, t: int, n: nat)
    requires n > 0
    ensures x * OddProduct(t, n) == (x * t) * OddProduct(t + 2, n - 1)
  {
    MulAssoc(x, t, OddProduct(t + 2, n - 1));
  }

  lemma NoFactor(t: int)
    ensures OddProduct(t, 0) == 1
  {
  }

  // The search -----------------------------------------------------------------------

  /** x is the largest odd number whose product of a factors fits in numb bits. */
  ghost predicate IsFacMul(x: int, numb: nat, a: nat) {
    && x >= 1 && x % 2 == 1 && OddProduct(x, a) <= Pow2(numb) - 1
    && forall w :: w >= 1 && w % 2 == 1 && OddProduct(w, a) <= Pow2(numb) - 1 ==> w <= x
  }

  /** The odd number that the search starts from: the root, or one less. */
  function SearchStart(numb: nat, a: nat): int
    requires a >= 1
  {
    var r := FloorRoot(Pow2(numb), a);
    if r % 2 == 0 then r - 1 else r
  }

  lemma SmallPowers()
    ensures Pow(3, 2) == 9 && Pow(3, 3) == 27 && Pow(3, 4) == 81
    ensures OddProduct(1, 2) == 3 && OddProduct(1, 3) == 15 && OddProduct(1, 4) == 105
    ensures Pow2(6) == 64 && Pow2(7) == 128
  {
    assert Pow(3, 1) == 3 * Pow(3, 0);
    assert Pow(3, 2) == 3 * Pow(3, 1);
    assert Pow(3, 3) == 3 * Pow(3, 2);
    assert OddProduct(7, 1) == 7 * OddProduct(9, 0);
    assert OddProduct(5, 2) == 5 * OddProduct(7, 1);
    assert OddProduct(3, 3) == 3 * OddProduct(5, 2);
    assert OddProduct(5, 1) == 5 * OddProduct(7, 0);
    assert OddProduct(3, 2) == 3 * OddProduct(5, 1);
    assert OddProduct(3, 1) == 3 * OddProduct(5, 0);
    assert Pow2(3) == 8;
    assert Pow2(5) == 4 * Pow2(3);
    assert Pow2(7) == 4 * Pow2(5);
  }

  lemma RootAtLeast3(r: int, numb: nat, a: nat)
    requires 2 <= a <= 4 && numb >= 7 && IsRoot(r, Pow2(numb), a)
    ensures r >= 3
  {
    SmallPowers();
    Pow2Mono(7, numb);
    PowMonoExp(3, a, 4);
    if r < 3 {
      PowMonoBase(r + 1, 3, a);
    }
  }

  /** All three searches start high enough for their first step exactly when numb >= 7; below
      that the search for a == 4 would subtract 2 from 1. */
  lemma SearchStartIff(numb: nat)
    ensures (forall a | 2 <= a <= 4 :: SearchStart(numb, a) >= 3) <==> numb >= 7
  {
    if numb >= 7 {
      forall a | 2 <= a <= 4
        ensures SearchStart(numb, a) >= 3
      {
        RootAtLeast3(FloorRoot(Pow2(numb), a), numb, a);
      }
    } else {
      SmallPowers();
      Pow2Mono(numb, 6);
      var r := FloorRoot(Pow2(numb), 4);
      PowMonoBase(3, if r < 3 then 3 else r, 4);
      assert SearchStart(numb, 4) < 3;
    }
  }

  /** gen-fac_ui.c:110-117: decrement until the product fits. */
  method SearchDown(x: Mpz, y: Mpz, t: Mpz, a: nat)
    requires x.Valid() && y.Valid() && t.Valid() && Separate(x, y, t)
    requires 2 <= a <= 4 && x.Value() >= 3 && x.Value() % 2 == 1 && y.Value() >= 105
    modifies x, x.d, t, t.d
    ensures x.Valid() && t.Valid() && Separate(x, y, t) && Owned(x) && Owned(t)
    ensures x.Value() >= 1 && x.Value() % 2 == 1 && OddProduct(x.Value(), a) <= y.Value()
  {
    hide Mpz.Valid, Mpz.Value, OddProduct;
    BaseSquare();
    ghost var yv := y.Value();
    while true
      invariant x.Valid() && t.Valid() && Separate(x, y, t) && Owned(x) && Owned(t)
      invariant y.Valid() && y.Value() == yv && y.d == old(y.d)
      invariant x.Value() >= 3 && x.Value() % 2 == 1
      decreases x.Value()
    {
      SubUi(x, x, 2);
      OddProducts(t, x, a);
      var c := Cmp(t, y);
      if c <= 0 {
        break;
      }
      OneFits(x.Value(), a);
    }
  }

  lemma OneFits(x: int, a: nat)
    requires 2 <= a <= 4 && x >= 1 && x % 2 == 1 && OddProduct(x, a) > 105
    ensures x >= 3
  {
    SmallPowers();
  }

  /** gen-fac_ui.c:119-129: increment until the product no longer fits, then go back one. */
  method SearchUp(x: Mpz, y: Mpz, t: Mpz, a: nat)
    requires x.Valid() && y.Valid() && t.Valid() && Separate(x, y, t) && y.Value() >= 0
    requires a >= 2 && x.Value() >= 1 && x.Value() % 2 == 1 && OddProduct(x.Value(), a) <= y.Value()
    modifies x, x.d, t, t.d
    ensures x.Valid() && t.Valid() && Separate(x, y, t) && Owned(x) && Owned(t)
    ensures x.Value() >= 1 && x.Value() % 2 == 1
    ensures OddProduct(x.Value(), a) <= y.Value() < OddProduct(x.Value() + 2, a)
  {
    hide Mpz.Valid, Mpz.Value, OddProduct;
    BaseSquare();
    ghost var yv := y.Value();
    while true
      invariant x.Valid() && t.Valid() && Separate(x, y, t) && Owned(x) && Owned(t)
      invariant y.Valid() && y.Value() == yv && y.d == old(y.d)
      invariant x.Value() >= 1 && x.Value() % 2 == 1 && OddProduct(x.Value(), a) <= yv
      decreases yv - x.Value()
    {
      OddProductGrows(x.Value(), x.Value(), a);
      AddUi(x, x, 2);
      OddProducts(t, x, a);
      var c := Cmp(t, y);
      if c > 0 {
        break;
      }
      OddProductGrows(x.Value(), x.Value(), a);
    }
    SubUi(x, x, 2);
  }

  /** gen-fac_ui.c:101-106 */
  method FacStart(x: Mpz, numb: nat, a: nat)
    requires x.Valid() && 2 <= a <= 4 && numb >= 7
    modifies x, x.d
    ensures x.Valid() && Owned(x)
    ensures x.Value() >= 3 && x.Value() % 2 == 1
  {
    hide Mpz.Valid, Mpz.Value, IsRoot, Pow2;
    BaseSquare();
    Pow2Big(numb);
    SetUi(x, 1);
    Mul2exp(x, x, numb);
    var aborted := Root(x, x, a);
    RootAtLeast3(x.Value(), numb, a);
    var even := EvenP(x);
    if even {
      SubUi(x, x, 1);
    }
  }

  /** gen-fac_ui.c:107-109 */
  method FacLimit(numb: nat) returns (y: Mpz)
    requires numb >= 7
    ensures y.Valid() && fresh(y) && fresh(y.d) && y.Value() == Pow2(numb) - 1
  {
    hide Mpz.Valid, Mpz.Value, Pow2;
    BaseSquare();
    Pow2Big(numb);
    y := InitSetUi(1);
    Mul2exp(y, y, numb);
    SubUi(y, y, 1);
  }

  /** gen-fac_ui.c:99-133 for one a. */
  method FacMul(x: Mpz, numb: nat, a: nat)
    requires x.Valid() && 2 <= a <= 4 && numb >= 7
    modifies x, x.d
    ensures x.Valid() && Owned(x)
    ensures IsFacMul(x.Value(), numb, a)
  {
    hide Mpz.Valid, Mpz.Value, OddProduct, IsFacMul, Pow2;
    Pow2Big(numb);
    FacStart(x, numb, a);
    var y := FacLimit(numb);
    var t := new Mpz();
    SearchDown(x, y, t, a);
    SearchUp(x, y, t, a);
    Largest(x.Value(), numb, a);
  }

  lemma Pow2Big(numb: nat)
    requires numb >= 7
    ensures Pow2(numb) >= 128
  {
    SmallPowers();
    Pow2Mono(7, numb);
  }

  lemma Largest(x: int, numb: nat, a: nat)
    requires x >= 1 && x % 2 == 1 && OddProduct(x, a) <= Pow2(numb) - 1 < OddProduct(x + 2, a)
    ensures IsFacMul(x, numb, a)
  {
    forall w | w >= 1 && w % 2 == 1 && OddProduct(w, a) <= Pow2(numb) - 1
      ensures w <= x
    {
      if w > x {
        OddProductGrows(x + 2, w, a);
      }
    }
  }
}
