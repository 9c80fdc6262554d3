/** Primes, coprime lists and their products. */
module Factors {
  import opened Arith

  ghost predicate IsPrime(n: int) {
    n >= 2 && forall d :: 2 <= d < n ==> n % d != 0
  }

  ghost predicate Coprime(a: int, b: int) {
    exists u, v :: Bezout(u, a, v, b)
  }

  ghost predicate Bezout(u: int, a: int, v: int, b: int) {
    u * a + v * b == 1
  }

  function Prod(s: seq<int>): int {
    if s == [] then 1 else Prod(s[..|s| - 1]) * s[|s| - 1]
  }

  ghost predicate PairCoprime(s: seq<int>) {
    forall i, j :: 0 <= i < j < |s| ==> Coprime(s[i], s[j])
  }

  // Products -------------------------------------------------------------------------

  lemma {:induction false} ProdConcat(s: seq<int>, t: seq<int>)
    ensures Prod(s + t) == Prod(s) * Prod(t)
  {
    if t == [] {
      assert s + t == s;
    } else {
      var n := |t| - 1;
      assert (s + t)[..|s + t| - 1] == s + t[..n];
      ProdConcat(s, t[..n]);
      MulAssoc(Prod(s), Prod(t[..n]), t[n]);
    }
  }

  lemma ProdOne(x: int)
    ensures Prod([x]) == x
  {
    assert [x][..0] == [];
    assert Prod([]) == 1;
  }

  /** Taking entry i out divides the product by it. */
  lemma ProdWithout(s: seq<int>, i: nat)
    requires i < |s|
    ensures Prod(s) == Prod(s[..i] + s[i + 1..]) * s[i]
  {
    hide Prod;
    var l, r := s[..i], s[i + 1..];
    assert s == l + ([s[i]] + r);
    ProdConcat(l, [s[i]] + r);
    ProdConcat([s[i]], r);
    ProdOne(s[i]);
    ProdConcat(l, r);
    Swap(Prod(l), s[i], Prod(r));
  }

  lemma Swap(a: int, x: int, b: int)
    ensures a * (x * b) == (a * b) * x
  {
  }

  lemma {:induction false} ProdPermuted(s: seq<int>, t: seq<int>)
    requires multiset(s) == multiset(t)
    ensures Prod(s) == Prod(t)
    decreases |s|
  {
    if s == [] {
      assert |multiset(t)| == 0;
    } else {
      var n := |s| - 1;
      var x := s[n];
      assert s == s[..n] + [x];
      assert x in multiset(t);
      var i := IndexOf(t, x);
      MultisetWithout(t, i);
      ProdPermuted(s[..n], t[..i] + t[i + 1..]);
      ProdWithout(t, i);
    }
  }

  lemma IndexOf(t: seq<int>, x: int) returns (i: nat)
    requires x in multiset(t)
    ensures i < |t| && t[i] == x
  {
    assert x in t;
    i :| 0 <= i < |t| && t[i] == x;
  }

  lemma MultisetWithout(t: seq<int>, i: nat)
    requires i < |t|
    ensures multiset(t[..i] + t[i + 1..]) == multiset(t) - multiset{t[i]}
  {
    assert t == t[..i] + [t[i]] + t[i + 1..];
    assert multiset(t) == multiset(t[..i]) + multiset{t[i]} + multiset(t[i + 1..]);
  }

  lemma ProdAtLeast(s: seq<int>, b: int)
    requires b >= 1 && forall i :: 0 <= i < |s| ==> s[i] >= b
    ensures Prod(s) >= Pow(b, |s|) >= 1
  {
    if s != [] {
      var n := |s| - 1;
      ProdAtLeast(s[..n], b);
      MulMono(Pow(b, n), Prod(s[..n]), b);
      MulMono(b, s[n], Prod(s[..n]));
      MulPos(b, Pow(b, n));
    }
  }

  // Coprimality ----------------------------------------------------------------------

  lemma CoprimeSym(a: int, b: int)
    requires Coprime(a, b)
    ensures Coprime(b, a)
  {
    var u, v :| Bezout(u, a, v, b);
    assert Bezout(v, b, u, a);
  }

  lemma CoprimeMul(a: int, b: int, c: int)
    requires Coprime(a, c) && Coprime(b, c)
    ensures Coprime(a * b, c)
  {
    var u, v :| Bezout(u, a, v, c);
    var w, x :| Bezout(w, b, x, c);
    BezoutMul(u, a, v, c, w, b, x);
    assert Bezout(u * w, a * b, u * x * a + v * w * b + v * x * c, c);
  }

  lemma BezoutMul(u: int, a: int, v: int, c: int, w: int, b: int, x: int)
    requires u * a + v * c == 1 && w * b + x * c == 1
    ensures (u * w) * (a * b) + (u * x * a + v * w * b + v * x * c) * c == 1
  {
    var p, q := u * a, v * c;
    var r, t := w * b, x * c;
    assert p * r + p * t + q * r + q * t == (p + q) * (r + t) == 1;
    Four(u, a, w, b);
    Four(u, a, x, c);
    Four(v, c, w, b);
    Four(v, c, x, c);
    Spread(u * x * a, v * w * b, v * x * c, c);
  }

  lemma Spread(a: int, b: int, d: int, c: int)
    ensures (a + b + d) * c == a * c + b * c + d * c
  {
  }

  lemma Four(u: int, a: int, x: int, c: int)
    ensures (u * a) * (x * c) == (u * x) * (a * c) == (u * x * a) * c
    ensures (u * a) * (x * c) == (u * x * c) * a
  {
  }

  lemma {:induction false} CoprimePow(a: int, c: int, k: nat)
    requires Coprime(a, c)
    ensures Coprime(Pow(a, k), c)
  {
    if k == 0 {
      assert Bezout(1, 1, 0, c);
    } else {
      CoprimePow(a, c, k - 1);
      CoprimeMul(a, Pow(a, k - 1), c);
    }
  }

  /** The Euclidean algorithm with its coefficients. */
  lemma {:induction false} Euclid(a: nat, b: nat) returns (g: int, u: int, v: int)
    requires a >= 1
    ensures g >= 1 && a % g == 0 && b % g == 0 && u * a + v * b == g
    decreases b
  {
    if b == 0 {
      DivModUnique(a, a, 1, 0);
      g, u, v := a, 1, 0;
    } else {
      var x, y;
      DivBounds(a, b);
      g, x, y := Euclid(b, a % b);
      u, v := y, x - a / b * y;
      EuclidStep(a, b, g, x, y);
    }
  }

  lemma EuclidStep(a: nat, b: nat, g: int, x: int, y: int)
    requires b >= 1 && g >= 1 && b % g == 0 && (a % b) % g == 0 && x * b + y * (a % b) == g
    ensures a % g == 0 && y * a + (x - a / b * y) * b == g
  {
    var q, r := a / b, a % b;
    assert a == q * b + r;
    EuclidMod(a, q, b, r, g);
    EuclidSum(a, q, b, r, x, y);
  }

  lemma EuclidMod(a: int, q: int, b: int, r: int, g: int)
    requires g >= 1 && a == q * b + r && b % g == 0 && r % g == 0
    ensures a % g == 0
  {
    var c := b / g;
    assert b == c * g;
    MulAssoc(q, c, g);
    ModAddMul(r, q * c, g);
  }

  lemma EuclidSum(a: int, q: int, b: int, r: int, x: int, y: int)
    requires a == q * b + r
    ensures y * a + (x - q * y) * b == x * b + y * r
  {
    assert y * a == y * (q * b) + y * r;
    assert (x - q * y) * b == x * b - (q * y) * b;
    MulAssoc(y, q, b);
  }

  lemma PrimesCoprime(p: int, q: int)
    requires IsPrime(p) && IsPrime(q) && p < q
    ensures Coprime(p, q)
  {
    var g, u, v := Euclid(p, q);
    DivModUnique(p, p, 1, 0);
    if g > p {
      DivModUnique(p, g, 0, p);
    }
    assert g == 1;
    assert Bezout(u, p, v, q);
  }

  lemma PrimePowersCoprime(p: int, m: nat, q: int, n: nat)
    requires IsPrime(p) && IsPrime(q) && p < q
    ensures Coprime(Pow(p, m), Pow(q, n))
  {
    PrimesCoprime(p, q);
    CoprimePow(p, q, m);
    CoprimeSym(Pow(p, m), q);
    CoprimePow(q, Pow(p, m), n);
    CoprimeSym(Pow(q, n), Pow(p, m));
  }

  // Coprime lists --------------------------------------------------------------------

  /** The occurrences of x sit at different places. */
  lemma {:induction false} TwoPlaces(s: seq<int>, x: int) returns (i: nat, j: nat)
    requires multiset(s)[x] >= 2
    ensures i < j < |s| && s[i] == x && s[j] == x
  {
    var n := |s| - 1;
    assert s == s[..n] + [s[n]];
    if s[n] == x {
      i := IndexOf(s[..n], x);
      j := n;
    } else {
      i, j := TwoPlaces(s[..n], x);
    }
  }

  lemma TwoCount(t: seq<int>, i: nat, j: nat)
    requires i < j < |t| && t[i] == t[j]
    ensures multiset(t)[t[i]] >= 2
  {
    assert t == t[..j] + [t[j]] + t[j + 1..];
    assert t[..j][i] == t[i];
    assert t[i] in multiset(t[..j]);
  }

  lemma PairCoprimePermuted(s: seq<int>, t: seq<int>)
    requires multiset(s) == multiset(t) && PairCoprime(s)
    ensures PairCoprime(t)
  {
    forall i: nat, j: nat | i < j < |t|
      ensures Coprime(t[i], t[j])
    {
      if t[i] == t[j] {
        TwoCount(t, i, j);
        var a, b := TwoPlaces(s, t[i]);
        assert Coprime(s[a], s[b]);
      } else {
        assert t[i] in multiset(t) && t[j] in multiset(t);
        var a := IndexOf(s, t[i]);
        var b := IndexOf(s, t[j]);
        if a < b {
          assert Coprime(s[a], s[b]);
        } else {
          assert Coprime(s[b], s[a]);
          CoprimeSym(s[b], s[a]);
        }
      }
    }
  }

  /** The list after entry i was merged into entry 0. */
  function Merged(s: seq<int>, i: nat): (t: seq<int>)
    requires 1 <= i < |s|
    ensures |t| == |s| - 1
  {
    [s[0] * s[i]] + s[1..i] + s[i + 1..]
  }

  lemma MergedProd(s: seq<int>, i: nat)
    requires 1 <= i < |s|
    ensures Prod(Merged(s, i)) == Prod(s)
  {
    hide Prod, Merged;
    var rest := s[1..i] + s[i + 1..];
    ListWithout(s, i, rest);
    ProdWithout(s, i);
    MergedList(s, i, rest);
    MergedProduct(s[0], s[i], rest);
  }

  lemma ListWithout(s: seq<int>, i: nat, rest: seq<int>)
    requires 1 <= i < |s| && rest == s[1..i] + s[i + 1..]
    ensures s[..i] + s[i + 1..] == [s[0]] + rest
  {
  }

  lemma MergedList(s: seq<int>, i: nat, rest: seq<int>)
    requires 1 <= i < |s| && rest == s[1..i] + s[i + 1..]
    ensures Merged(s, i) == [s[0] * s[i]] + rest
  {
  }

  lemma MergedProduct(a: int, b: int, rest: seq<int>)
    ensures Prod([a * b] + rest) == Prod([a] + rest) * b
  {
    hide Prod;
    ProdCons(a, rest);
    ProdCons(a * b, rest);
    Swap(b, a, Prod(rest));
    assert b * a == a * b && b * (a * Prod(rest)) == (a * Prod(rest)) * b;
    assert (b * Prod(rest)) * a == b * (a * Prod(rest));
    MulAssoc(b, a, Prod(rest));
  }

  lemma ProdCons(x: int, rest: seq<int>)
    ensures Prod([x] + rest) == x * Prod(rest)
  {
    ProdConcat([x], rest);
    ProdOne(x);
  }

  lemma MergedCoprime(s: seq<int>, i: nat)
    requires 1 <= i < |s| && PairCoprime(s)
    ensures PairCoprime(Merged(s, i))
  {
    var t := Merged(s, i);
    forall k: nat, l: nat | k < l < |t|
      ensures Coprime(t[k], t[l])
    {
      var l' := if l < i then l else l + 1;
      assert t[l] == s[l'];
      if k == 0 {
        assert Coprime(s[0], s[l']);
        if l' < i {
          assert Coprime(s[l'], s[i]);
          CoprimeSym(s[l'], s[i]);
        } else {
          assert Coprime(s[i], s[l']);
        }
        CoprimeMul(s[0], s[i], s[l']);
      } else {
        var k' := if k < i then k else k + 1;
        assert t[k] == s[k'];
        assert Coprime(s[k'], s[l']);
      }
    }
  }
}
