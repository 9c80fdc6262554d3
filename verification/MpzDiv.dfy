/** Division and the 2-adic inverse of dumbmp.c. */
module MpzDiv {
  import opened Arith
  import opened Bits
  import opened Limbs
  import opened MpzArith
  import opened MpzBits

  // Division -------------------------------------------------------------------------

  /** The quotient and remainder that mpz_tdiv_qr leaves: its test at dumbmp.c:639 is a strict
      comparison, so equal operands are left undivided. */
  function DivQ(a: int, b: int): int
    requires b > 0
  {
    if a == b then 0 else a / b
  }

  function DivR(a: int, b: int): int
    requires b > 0
  {
    if a == b then b else a % b
  }

  /** Quotient and remainder always recompose the dividend; they are the quotient and the
      remainder exactly when the operands differ. */
  lemma DivisionIff(a: int, b: int)
    requires a >= 0 && b > 0
    ensures a == DivQ(a, b) * b + DivR(a, b) && DivQ(a, b) >= 0 && DivR(a, b) >= 0
    ensures (DivQ(a, b) == a / b && DivR(a, b) == a % b) <==> a != b
    ensures DivR(a, b) < b <==> a != b
  {
    DivBounds(a, b);
    if a == b {
      DivModUnique(a, b, 1, 0);
    }
  }

  /** The state of the shift-and-subtract loop: b2 is b shifted left by cnt. */
  ghost predicate Dividing(a: int, b: int, cnt: nat, q: int, b2: int, r: int) {
    b2 == b * Pow2(cnt) && a == q * b2 + r && 0 <= r < b2 && q >= 0
  }

  lemma DivideStart(a: int, b: int, m: nat, n: nat)
    requires a > b > 0 && m >= 1 && n >= 1
    requires Pow2(m - 1) <= a < Pow2(m) && Pow2(n - 1) <= b < Pow2(n)
    ensures m >= n
    ensures Dividing(a, b, m - n + 1, 0, b * Pow2(m - n + 1), a)
  {
    if m < n {
      Pow2Mono(m, n - 1);
    }
    Pow2Add(n - 1, m - n + 1);
    MulMono(Pow2(n - 1), b, Pow2(m - n + 1));
  }

  lemma DivideStep(a: int, b: int, cnt: nat, q: int, b2: int, r: int)
    requires cnt > 0 && b > 0 && Dividing(a, b, cnt, q, b2, r)
    ensures var h := b2 / 2;
            && h >= 1
            && (r < h ==> Dividing(a, b, cnt - 1, 2 * q, h, r))
            && (r >= h ==> Dividing(a, b, cnt - 1, 2 * q + 1, h, r - h))
  {
    var h := b * Pow2(cnt - 1);
    assert b2 == 2 * h by {
      assert Pow2(cnt) == 2 * Pow2(cnt - 1);
      assert b * (2 * Pow2(cnt - 1)) == 2 * (b * Pow2(cnt - 1));
    }
    MulPos(b, Pow2(cnt - 1));
    assert q * (2 * h) == (2 * q) * h;
    assert (2 * q + 1) * h == (2 * q) * h + h;
  }

  lemma DivideEnd(a: int, b: int, q: int, b2: int, r: int)
    requires b > 0 && Dividing(a, b, 0, q, b2, r)
    ensures q == a / b && r == a % b
  {
    assert b * Pow2(0) == b;
    DivModUnique(a, b, q, r);
  }

  lemma DivideFacts(a: int, b: int, k: nat, q: int, b2: int, r: int)
    requires b > 0 && Dividing(a, b, k, q, b2, r)
    ensures q >= 0 && 0 <= r < b2
    ensures k > 0 ==> b2 == 2 * (b2 / 2)
  {
    if k > 0 {
      assert Pow2(k) == 2 * Pow2(k - 1);
      assert b * (2 * Pow2(k - 1)) == 2 * (b * Pow2(k - 1));
    }
  }

  /** Three objects with storage of their own. */
  ghost predicate Separate(p: Mpz, q: Mpz, r: Mpz)
    reads p, q, r
  {
    p != q && p != r && q != r && p.d != q.d && p.d != r.d && q.d != r.d
  }

  /** dumbmp.c:646-653 */
  method DivideOnce(q: Mpz, tmpr: Mpz, tmpb: Mpz, ghost a: int, ghost b: int, ghost k: nat)
    requires q.Valid() && tmpr.Valid() && tmpb.Valid() && Separate(q, tmpr, tmpb)
    requires b > 0 && Dividing(a, b, k + 1, q.Value(), tmpb.Value(), tmpr.Value())
    modifies q, q.d, tmpr, tmpr.d, tmpb, tmpb.d
    ensures q.Valid() && tmpr.Valid() && tmpb.Valid() && Separate(q, tmpr, tmpb)
    ensures Owned(q) && Owned(tmpr) && Owned(tmpb)
    ensures Dividing(a, b, k, q.Value(), tmpb.Value(), tmpr.Value())
  {
    hide Dividing, Pow2, Mpz.Valid, Mpz.Value;
    DivideStep(a, b, k + 1, q.Value(), tmpb.Value(), tmpr.Value());
    DivideFacts(a, b, k + 1, q.Value(), tmpb.Value(), tmpr.Value());
    Pow2Small();
    Mul2exp(q, q, 1);
    TdivQ2exp(tmpb, tmpb, 1);
    var c := Cmp(tmpr, tmpb);
    if c >= 0 {
      SubLess(tmpr, tmpr, tmpb);
      AddUnit(q);
      c := Cmp(tmpr, tmpb);
      DivideFacts(a, b, k, q.Value(), tmpb.Value(), tmpr.Value());
      assert c < 0;                          // the source's ASSERT
    }
  }

  /** mpz_add_ui (q, q, 1L) */
  method AddUnit(q: Mpz)
    requires q.Valid() && q.Value() >= 0
    modifies q, q.d
    ensures q.Valid() && Owned(q) && q.Value() == old(q.Value()) + 1
  {
    BaseSquare();
    AddUi(q, q, 1);
  }

  /** dumbmp.c:641-654 */
  method DivideLoop(q: Mpz, tmpr: Mpz, tmpb: Mpz)
    requires q.Valid() && tmpr.Valid() && tmpb.Valid() && Separate(q, tmpr, tmpb)
    requires tmpr.Value() > tmpb.Value() > 0 && q.Value() == 0
    modifies q, q.d, tmpr, tmpr.d, tmpb, tmpb.d
    ensures q.Valid() && tmpr.Valid() && tmpb.Valid() && Separate(q, tmpr, tmpb)
    ensures Owned(q) && Owned(tmpr) && Owned(tmpb)
    ensures q.Value() == old(tmpr.Value()) / old(tmpb.Value())
    ensures tmpr.Value() == old(tmpr.Value()) % old(tmpb.Value())
  {
    hide Dividing, Pow2, Mpz.Valid, Mpz.Value;
    ghost var a, b := tmpr.Value(), tmpb.Value();
    var m := SizeInBase2(tmpr);
    var n := SizeInBase2(tmpb);
    DivideStart(a, b, m, n);
    var cnt: nat := m - n + 1;
    Mul2exp(tmpb, tmpb, cnt);
    for k := cnt downto 0
      invariant q.Valid() && tmpr.Valid() && tmpb.Valid() && Separate(q, tmpr, tmpb)
      invariant Owned(q) && Owned(tmpr) && Owned(tmpb)
      invariant Dividing(a, b, k, q.Value(), tmpb.Value(), tmpr.Value())
    {
      DivideOnce(q, tmpr, tmpb, a, b, k);
    }
    DivideEnd(a, b, q.Value(), tmpb.Value(), tmpr.Value());
  }

  /** mpz_tdiv_qr; quotient and remainder objects may be the operands, but not each other. */
  method TdivQR(q: Mpz, r: Mpz, a: Mpz, b: Mpz)
    requires q.Valid() && r.Valid() && a.Valid() && b.Valid()
    requires q != r && Apart(q, r) && Apart(q, a) && Apart(q, b) && Apart(r, a) && Apart(r, b)
    requires a.Value() >= 0 && b.Value() > 0
    modifies q, q.d, r, r.d
    ensures q.Valid() && r.Valid() && Owned(q) && Owned(r) && q.d != r.d
    ensures q.Value() == DivQ(old(a.Value()), old(b.Value()))
    ensures r.Value() == DivR(old(a.Value()), old(b.Value()))
  {
    hide Mpz.Valid, Mpz.Value;
    ghost var av, bv := a.Value(), b.Value();
    var tmpr := InitSet(a);
    var tmpb := InitSet(b);
    BaseSquare();
    SetUi(q, 0);
    SmallDividend(av, bv);
    var c := Cmp(tmpr, tmpb);
    if c > 0 {
      DivideLoop(q, tmpr, tmpb);
    }
    Set(r, tmpr);
  }

  lemma SmallDividend(a: int, b: int)
    requires a >= 0 && b > 0
    ensures a <= b ==> DivQ(a, b) == 0 && DivR(a, b) == a
  {
    if a < b {
      DivModUnique(a, b, 0, a);
    }
  }

  /** mpz_tdiv_q */
  method TdivQ(q: Mpz, a: Mpz, b: Mpz)
    requires q.Valid() && a.Valid() && b.Valid() && Apart(q, a) && Apart(q, b)
    requires a.Value() >= 0 && b.Value() > 0
    modifies q, q.d
    ensures q.Valid() && Owned(q) && q.Value() == DivQ(old(a.Value()), old(b.Value()))
  {
    hide Mpz.Valid, Mpz.Value, DivQ, DivR;
    var r := new Mpz();
    TdivQR(q, r, a, b);
  }

  /** mpz_tdiv_qr_ui */
  method TdivQRUi(q: Mpz, r: Mpz, a: Mpz, b: nat)
    requires q.Valid() && r.Valid() && a.Valid()
    requires q != r && Apart(q, r) && Apart(q, a) && Apart(r, a)
    requires a.Value() >= 0 && 0 < b < Base() * Base()
    modifies q, q.d, r, r.d
    ensures q.Valid() && r.Valid() && Owned(q) && Owned(r) && q.d != r.d
    ensures q.Value() == DivQ(old(a.Value()), b) && r.Value() == DivR(old(a.Value()), b)
  {
    hide Mpz.Valid, Mpz.Value, DivQ, DivR;
    var bz := InitSetUi(b);
    TdivQR(q, r, a, bz);
  }

  /** mpz_tdiv_q_ui */
  method TdivQUi(q: Mpz, n: Mpz, d: nat)
    requires q.Valid() && n.Valid() && Apart(q, n)
    requires n.Value() >= 0 && 0 < d < Base() * Base()
    modifies q, q.d
    ensures q.Valid() && Owned(q) && q.Value() == DivQ(old(n.Value()), d)
  {
    hide Mpz.Valid, Mpz.Value, DivQ;
    var dz := InitSetUi(d);
    TdivQ(q, n, dz);
  }

  // The inverse modulo a power of two --------------------------------------------------

  /** inv is the inverse of a modulo 2^i, in range. */
  ghost predicate InverseUpTo(inv: int, a: int, i: nat) {
    0 <= inv < Pow2(i) && (inv * a) % Pow2(i) == 1 % Pow2(i)
  }

  lemma InverseStart(a: int)
    requires a % 2 == 1
    ensures InverseUpTo(1, a, 1)
  {
    assert Pow2(1) == 2;
  }

  /** One more bit: the next bit of inv must be set exactly when bit i of the product is. */
  lemma InverseStep(inv: nat, a: nat, i: nat)
    requires i >= 1 && a % 2 == 1 && InverseUpTo(inv, a, i)
    ensures inv * a >= 0 && Bit(inv, i) == 0
    ensures InverseUpTo(inv + (if Bit(inv * a, i) != 0 then Pow2(i) else 0), a, i + 1)
  {
    hide Pow2;
    var p := Pow2(i);
    Pow2Mono(1, i);
    Pow2Small();
    NextPow2(i);
    MulMono(0, inv, a);
    DivModUnique(1, p, 0, 1);
    DivModUnique(1, 2 * p, 0, 1);
    DivModUnique(inv, p, 0, inv);
    BitSplits(inv * a, i);
    if Bit(inv * a, i) != 0 {
      LiftInverse(inv, a, p);
    }
  }

  lemma NextPow2(i: nat)
    ensures Pow2(i + 1) == 2 * Pow2(i)
  {
  }

  lemma LiftInverse(inv: int, a: int, p: int)
    requires p >= 1 && a % 2 == 1 && (inv * a) % (2 * p) == 1 + 1 * p
    ensures ((inv + p) * a) % (2 * p) == 1
  {
    var k := inv * a / (2 * p);
    assert inv * a == k * (2 * p) + 1 + p;
    var h := a / 2;
    assert a == 2 * h + 1;
    assert (inv + p) * a == inv * a + p * (2 * h + 1);
    assert p * (2 * h + 1) == h * (2 * p) + p;
    assert (k + h + 1) * (2 * p) == k * (2 * p) + h * (2 * p) + 2 * p;
    DivModUnique((inv + p) * a, 2 * p, k + h + 1, 1);
  }

  /** mpz_invert_2exp, for n >= 1: bit by bit from the bottom. */
  method Invert2exp(r: Mpz, a: Mpz, n: nat)
    requires r.Valid() && a.Valid() && Apart(r, a)
    requires n >= 1 && a.Value() > 0 && a.Value() % 2 == 1
    modifies r, r.d
    ensures r.Valid() && Owned(r)
    ensures 0 <= r.Value() < Pow2(n)
    ensures (r.Value() * old(a.Value())) % Pow2(n) == 1
  {
    hide Mpz.Valid, Mpz.Value, InverseUpTo, Pow2, Bit;
    ghost var av := a.Value();
    BaseSquare();
    var inv := InitSetUi(1);
    var prod := new Mpz();
    InverseStart(av);
    for i := 1 to n
      invariant inv.Valid() && prod.Valid() && fresh(inv) && fresh(inv.d) && fresh(prod) && fresh(prod.d)
      invariant inv != prod && inv.d != prod.d && inv.Value() >= 0
      invariant a.Valid() && a.Value() == av && r.Valid() && r.d == old(r.d) && Apart(r, a)
      invariant InverseUpTo(inv.Value(), av, i)
    {
      InverseStep(inv.Value(), av, i);
      Mul(prod, inv, a);
      var b := TstBit(prod, i);
      if b != 0 {
        SetBit(inv, i);
      }
    }
    InverseEnd(inv.Value(), av, n);
    Mul(prod, inv, a);
    TdivR2exp(prod, prod, n);
    var c := CmpUi(prod, 1);
    assert c == 0;                               // the source's ASSERT
    Set(r, inv);
  }

  lemma InverseEnd(inv: int, a: int, n: nat)
    requires n >= 1 && a > 0 && InverseUpTo(inv, a, n)
    ensures inv * a >= 0 && 0 <= inv < Pow2(n) && (inv * a) % Pow2(n) == 1
  {
    Pow2Mono(1, n);
    Pow2Small();
    DivModUnique(1, Pow2(n), 0, 1);
    MulMono(0, inv, a);
  }
}
