/** The choice of divisors in generate_mod of gen-psqr.c. */
module GenMod {
  import opened Arith
  import opened Bits
  import opened Limbs
  import opened MpzArith
  import opened MpzBits
  import opened MpzDiv
  import opened Factors
  import opened RawFactors

  // Combining ------------------------------------------------------------------------

  /** f_cmp_divisor order */
  ghost predicate Sorted(s: seq<int>) {
    forall i, j :: 0 <= i <= j < |s| ==> s[i] <= s[j]
  }

  /** s came from s0 by sorting and merging under the bound. */
  ghost predicate Combined(s0: seq<int>, s: seq<int>, bound: nat) {
    && Prod(s) == Prod(s0)
    && (PairCoprime(s0) ==> PairCoprime(s))
    && (forall i :: 0 <= i < |s| ==> s[i] >= 3 && (s[i] <= bound || s[i] in s0))
    && (forall i :: 0 <= i < |s| ==> s[i] % 2 == 1)
  }

  lemma CombinedStart(s: seq<int>, bound: nat)
    requires forall i :: 0 <= i < |s| ==> s[i] >= 3 && s[i] % 2 == 1
    ensures Combined(s, s, bound)
  {
  }

  lemma CombinedSorted(s0: seq<int>, s: seq<int>, t: seq<int>, bound: nat)
    requires Combined(s0, s, bound) && multiset(s) == multiset(t)
    ensures Combined(s0, t, bound) && |t| == |s|
  {
    hide Prod, PairCoprime;
    ProdPermuted(s, t);
    if PairCoprime(s) {
      PairCoprimePermuted(s, t);
    }
    forall i | 0 <= i < |t|
      ensures t[i] in s
    {
      assert t[i] in multiset(s);
    }
    assert |multiset(s)| == |multiset(t)|;
  }

  lemma CombinedMerged(s0: seq<int>, s: seq<int>, i: nat, bound: nat)
    requires Combined(s0, s, bound) && 1 <= i < |s| && s[i] <= bound / s[0]
    ensures Combined(s0, Merged(s, i), bound)
  {
    hide Prod, PairCoprime;
    MergedProd(s, i);
    if PairCoprime(s) {
      MergedCoprime(s, i);
    }
    MulMono(1, s[0], s[i]);
    DivCompare(bound, s[0], s[i]);
    OddTimesOdd(s[0], s[i]);
  }

  lemma SwapKeeps(s: seq<int>, i: nat, k: nat)
    requires i <= k < |s|
    ensures multiset(s[i := s[k]][k := s[i]]) == multiset(s)
  {
  }

  method Exchange(f: array<int>, i: nat, k: nat, n: nat)
    requires i <= k < n <= f.Length
    modifies f
    ensures multiset(f[..n]) == old(multiset(f[..n]))
    ensures f[i] == old(f[k]) && f[k] == old(f[i])
    ensures forall q :: 0 <= q < n && q != i && q != k ==> f[q] == old(f[q])
  {
    ghost var s := f[..n];
    f[i], f[k] := f[k], f[i];
    SwapKeeps(s, i, k);
    assert f[..n] == s[i := s[k]][k := s[i]];
  }

  /** qsort with f_cmp_divisor, of which only the outcome matters. */
  method SortByDivisor(f: array<int>, n: nat)
    requires n <= f.Length
    modifies f
    ensures Sorted(f[..n]) && multiset(f[..n]) == old(multiset(f[..n]))
  {
    for i := 0 to n
      invariant multiset(f[..n]) == old(multiset(f[..n]))
      invariant forall p, q :: 0 <= p < i && p <= q < n ==> f[p] <= f[q]
    {
      var k := Smallest(f, i, n);
      Exchange(f, i, k, n);
    }
  }

  method Smallest(f: array<int>, i: nat, n: nat) returns (k: nat)
    requires i < n <= f.Length
    ensures i <= k < n && forall q :: i <= q < n ==> f[k] <= f[q]
  {
    k := i;
    for j := i to n
      invariant i <= k < n && forall q :: i <= q < j ==> f[k] <= f[q]
    {
      if f[j] < f[k] {
        k := j;
      }
    }
  }

  /** COLLAPSE_ELEMENT */
  method CollapseElement(f: array<int>, idx: nat, n0: nat) returns (n: nat)
    requires idx < n0 <= f.Length
    modifies f
    ensures n == n0 - 1 && f[..n] == old(f[..idx] + f[idx + 1..n0])
  {
    n := n0 - 1;
    for j := idx to n
      invariant forall k :: 0 <= k < idx ==> f[k] == old(f[k])
      invariant forall k :: idx <= k < j ==> f[k] == old(f[k + 1])
      invariant forall k :: j <= k < f.Length ==> f[k] == old(f[k])
    {
      f[j] := f[j + 1];
    }
  }

  /** The entry to merge: the last one that fits with the smallest, or 0. */
  method LastThatFits(f: array<int>, n: nat, maxDivisor: nat) returns (i: nat)
    requires n <= f.Length && forall k :: 0 <= k < n ==> f[k] >= 1
    ensures i == 0 || i < n
    ensures i > 0 ==> f[i] <= maxDivisor / f[0]
    ensures forall k :: i < k < n ==> k >= 1 && f[k] > maxDivisor / f[0]
  {
    i := if n == 0 then 0 else n - 1;
    while i >= 1
      invariant i == 0 || i < n
      invariant forall k :: i < k < n ==> k >= 1 && f[k] > maxDivisor / f[0]
    {
      if f[i] <= maxDivisor / f[0] {
        return;
      }
      i := i - 1;
    }
  }

  /** No two entries could still be merged. */
  ghost predicate NothingFits(s: seq<int>, bound: nat) {
    forall i, j :: 0 <= i < j < |s| ==> s[i] * s[j] > bound
  }

  lemma NothingFitsWithSmallest(s: seq<int>, bound: nat)
    requires Sorted(s) && forall i :: 0 <= i < |s| ==> s[i] >= 1
    requires forall k :: 0 < k < |s| ==> s[k] > bound / s[0]
    ensures NothingFits(s, bound)
  {
    forall i, j | 0 <= i < j < |s|
      ensures s[i] * s[j] > bound
    {
      DivCompare(bound, s[0], s[j]);
      MulMono(s[0], s[i], s[j]);
      assert s[0] * s[j] == s[j] * s[0];
    }
  }

  // What the combine loop computes -------------------------------------------------------

  function Insert(s: seq<int>, x: int): seq<int> {
    if s == [] || x <= s[0] then [x] + s else [s[0]] + Insert(s[1..], x)
  }

  function SortOf(s: seq<int>): (t: seq<int>)
    ensures |t| == |s|
    decreases |s|
  {
    if s == [] then [] else InsertLength(SortOf(s[1..]), s[0]); Insert(SortOf(s[1..]), s[0])
  }

  lemma InsertLength(s: seq<int>, x: int)
    ensures |Insert(s, x)| == |s| + 1
  {
  }

  lemma ConsMultiset(x: int, s: seq<int>)
    ensures multiset([x] + s) == multiset{x} + multiset(s)
  {
  }

  lemma SplitMultiset(s: seq<int>)
    requires s != []
    ensures multiset(s) == multiset{s[0]} + multiset(s[1..])
  {
    ConsMultiset(s[0], s[1..]);
    assert s == [s[0]] + s[1..];
  }

  lemma {:induction false} InsertMultiset(s: seq<int>, x: int)
    ensures multiset(Insert(s, x)) == multiset{x} + multiset(s)
    decreases s
  {
    ConsMultiset(x, s);
    if s != [] && x > s[0] {
      InsertMultiset(s[1..], x);
      SplitMultiset(s);
      ConsMultiset(s[0], Insert(s[1..], x));
    }
  }

  lemma {:induction false} InsertSorted(s: seq<int>, x: int)
    requires Sorted(s)
    ensures Sorted(Insert(s, x))
    decreases s
  {
    if s != [] && x > s[0] {
      InsertSorted(s[1..], x);
      InsertMultiset(s[1..], x);
      var t := Insert(s[1..], x);
      forall i | 0 <= i < |t|
        ensures s[0] <= t[i]
      {
        assert t[i] in multiset(t);
      }
      SortedCons(s[0], t);
    } else {
      SortedCons(x, s);
    }
  }

  lemma SortedCons(x: int, t: seq<int>)
    requires Sorted(t) && forall i :: 0 <= i < |t| ==> x <= t[i]
    ensures Sorted([x] + t)
  {
  }

  lemma {:induction false} SortOfIs(s: seq<int>)
    ensures Sorted(SortOf(s)) && multiset(SortOf(s)) == multiset(s)
    decreases |s|
  {
    if s != [] {
      SortOfIs(s[1..]);
      InsertSorted(SortOf(s[1..]), s[0]);
      InsertMultiset(SortOf(s[1..]), s[0]);
      SplitMultiset(s);
    }
  }

  /** A list has one sorted order. */
  lemma {:induction false} SortedUnique(s: seq<int>, t: seq<int>)
    requires Sorted(s) && Sorted(t) && multiset(s) == multiset(t)
    ensures s == t
    decreases |s|
  {
    hide Sorted;
    SameLength(s, t);
    if s != [] {
      SameHead(s, t);
      SplitMultiset(s);
      SplitMultiset(t);
      SameTails(multiset(s[1..]), multiset(t[1..]), s[0]);
      SortedTail(s);
      SortedTail(t);
      SortedUnique(s[1..], t[1..]);
      SameList(s, t);
    }
  }

  lemma SameLength(s: seq<int>, t: seq<int>)
    requires multiset(s) == multiset(t)
    ensures |s| == |t|
  {
    assert |multiset(s)| == |multiset(t)|;
  }

  lemma SortedTail(s: seq<int>)
    requires Sorted(s) && s != []
    ensures Sorted(s[1..])
  {
  }

  lemma SameList(s: seq<int>, t: seq<int>)
    requires s != [] && t != [] && s[0] == t[0] && s[1..] == t[1..]
    ensures s == t
  {
    assert s == [s[0]] + s[1..] && t == [t[0]] + t[1..];
  }

  lemma SameTails(a: multiset<int>, b: multiset<int>, x: int)
    requires multiset{x} + a == multiset{x} + b
    ensures a == b
  {
    assert a == (multiset{x} + a) - multiset{x};
    assert b == (multiset{x} + b) - multiset{x};
  }

  lemma SameHead(s: seq<int>, t: seq<int>)
    requires Sorted(s) && Sorted(t) && multiset(s) == multiset(t) && s != [] && t != []
    ensures s[0] == t[0]
  {
    assert s[0] in multiset(s) && t[0] in multiset(t);
    var i := IndexOf(t, s[0]);
    var j := IndexOf(s, t[0]);
  }

  /** The last entry up to i that fits with the smallest, or 0. */
  function LastFit(s: seq<int>, bound: nat, i: nat): (k: nat)
    requires i < |s|
    ensures k <= i
  {
    if i == 0 || s[i] * s[0] <= bound then i else LastFit(s, bound, i - 1)
  }

  /** Again and again the smallest entry takes over the biggest one that fits with it. */
  function CombineOf(s: seq<int>, bound: nat): seq<int>
    decreases |s|
  {
    var t := SortOf(s);
    if t == [] then t else
    var i := LastFit(t, bound, |t| - 1);
    if i == 0 then t else CombineOf(Merged(t, i), bound)
  }

  /** One pass of the loop over the sorted list t. */
  lemma CombinePass(s: seq<int>, t: seq<int>, bound: nat, i: nat)
    requires Sorted(t) && multiset(s) == multiset(t) && forall k :: 0 <= k < |t| ==> t[k] >= 1
    requires i == 0 || (i < |t| && t[i] <= bound / t[0])
    requires forall k :: i < k < |t| ==> k >= 1 && t[k] > bound / t[0]
    ensures CombineOf(s, bound) == if i == 0 then t else CombineOf(Merged(t, i), bound)
  {
    hide Merged;
    SortOfIs(s);
    SortedUnique(SortOf(s), t);
    if t != [] {
      LastFitIs(t, bound, i, |t| - 1);
    }
  }

  lemma {:induction false} LastFitIs(t: seq<int>, bound: nat, i: nat, n: nat)
    requires i <= n < |t| && t[0] >= 1
    requires i == 0 || t[i] <= bound / t[0]
    requires forall k :: i < k < |t| ==> k >= 1 && t[k] > bound / t[0]
    ensures LastFit(t, bound, n) == i
    decreases n
  {
    DivCompare(bound, t[0], t[n]);
    if n > i {
      LastFitIs(t, bound, i, n - 1);
    }
  }

  /** factor[0] takes over entry i. */
  method MergeInto(f: array<int>, i: nat, n0: nat) returns (n: nat)
    requires 1 <= i < n0 <= f.Length
    modifies f
    ensures n == n0 - 1 && f[..n] == Merged(old(f[..n0]), i)
  {
    f[0] := f[0] * f[i];
    n := CollapseElement(f, i, n0);
  }

  lemma CombinedPositive(s0: seq<int>, s: seq<int>, bound: nat)
    requires Combined(s0, s, bound)
    ensures forall i :: 0 <= i < |s| ==> s[i] >= 3
  {
  }

  /** The combine loop */
  method Combine(f: array<int>, n0: nat, maxDivisor: nat) returns (n: nat)
    requires n0 <= f.Length && forall k :: 0 <= k < n0 ==> f[k] >= 3 && f[k] % 2 == 1
    modifies f
    ensures n <= n0 && Sorted(f[..n])
    ensures Combined(old(f[..n0]), f[..n], maxDivisor)
    ensures NothingFits(f[..n], maxDivisor)
    ensures f[..n] == CombineOf(old(f[..n0]), maxDivisor)
  {
    n := n0;
    ghost var s0 := f[..n0];
    CombinedStart(s0, maxDivisor);
    hide Combined, NothingFits, Sorted, Merged, CombineOf;
    while true
      invariant n <= n0 && Combined(s0, f[..n], maxDivisor)
      invariant CombineOf(f[..n], maxDivisor) == CombineOf(s0, maxDivisor)
      decreases n
    {
      ghost var unsorted := f[..n];
      SortByDivisor(f, n);
      ghost var s := f[..n];
      CombinedSorted(s0, unsorted, s, maxDivisor);
      CombinedPositive(s0, s, maxDivisor);
      assert forall k :: 0 <= k < n ==> f[k] == s[k];
      var i := LastThatFits(f, n, maxDivisor);
      CombinePass(unsorted, s, maxDivisor, i);
      if i == 0 {
        NothingFitsWithSmallest(s, maxDivisor);
        return;
      }
      CombinedMerged(s0, s, i, maxDivisor);
      n := MergeInto(f, i, n);
    }
  }

  // The list of small primes ---------------------------------------------------------

  /** isprime */
  method Isprime(n: int) returns (b: bool)
    ensures b <==> IsPrime(n)
  {
    if n < 2 {
      return false;
    }
    for i := 2 to n
      invariant forall d :: 2 <= d < i ==> n % d != 0
    {
      if n % i == 0 {
        return false;
      }
    }
    return true;
  }

  // The factors of 2^mod34_bits - 1 --------------------------------------------------

  /** The multiplicity loop for one prime that divides m and is not all of it. Its variable divisor
      stays 1; the last copy of the prime is left in place when it is all that remains. */
  method TakePrime(m: Mpz, q: Mpz, r: Mpz, i: nat, maxDivisor: nat) returns (multiplicity: nat)
    requires m.Valid() && q.Valid() && r.Valid() && Separate(m, q, r)
    requires 3 <= i <= maxDivisor < Base() * Base() && m.Value() >= 1
    requires q.Value() * i == m.Value() && q.Value() >= 2
    modifies m, m.d, q, q.d, r, r.d
    ensures m.Valid() && q.Valid() && r.Valid() && Separate(m, q, r)
    ensures Owned(m) && Owned(q) && Owned(r)
    ensures multiplicity >= 1 && m.Value() >= 2
    ensures m.Value() * Pow(i, multiplicity) == old(m.Value())
    ensures m.Value() % i == 0 ==> m.Value() == i
  {
    hide Mpz.Valid, Mpz.Value, Pow, DivQ, DivR;
    ghost var m0 := m.Value();
    var divisor := 1;
    multiplicity := 0;
    PowersFrom(i);
    assert m.Value() * 1 == m0;
    QuotientSmaller(q.Value(), i, m.Value());
    DivCompare(maxDivisor, i, 1);
    while true
      invariant m.Valid() && q.Valid() && r.Valid() && Separate(m, q, r)
      invariant Owned(m) && Owned(q) && Owned(r) && divisor == 1
      invariant m.Value() >= 1 && m.Value() * Pow(i, multiplicity) == m0
      invariant q.Value() * i == m.Value() && 2 <= q.Value() < m.Value()
      decreases q.Value()
    {
      if divisor > maxDivisor / i {
        break;
      }
      MorePower(m.Value(), q.Value(), i, multiplicity);
      multiplicity := multiplicity + 1;
      Set(m, q);
      TdivQRUi(q, r, m, i);
      DivideOutcome(m.Value(), i);
      var s := Sgn(r);
      if s != 0 {
        break;
      }
    }
  }

  lemma PowersFrom(i: int)
    ensures Pow(i, 0) == 1
  {
  }

  lemma QuotientSmaller(q: int, i: int, m: int)
    requires q >= 1 && i >= 2 && q * i == m
    ensures q < m
  {
    MulMono(2, i, q);
  }

  lemma MorePower(m: int, q: int, i: int, k: nat)
    requires q * i == m
    ensures q * Pow(i, k + 1) == m * Pow(i, k)
  {
    MulAssoc(q, i, Pow(i, k));
  }

  /** A zero remainder means division by a prime that is not all of m. */
  lemma DivideOutcome(m: int, i: int)
    requires m >= 1 && i >= 2
    ensures DivR(m, i) == 0 ==> DivQ(m, i) * i == m && 2 <= DivQ(m, i) < m
    ensures DivR(m, i) != 0 ==> (m % i == 0 ==> m == i)
    ensures DivR(m, i) >= 0
  {
    DivisionIff(m, i);
    var q := DivQ(m, i);
    if DivR(m, i) == 0 {
      PositiveFactor(q, i);
      QuotientSmaller(q, i, m);
      if q == 1 {
        DivisionOfSelf(i);
      }
    }
  }

  lemma DivisionOfSelf(i: int)
    requires i >= 2
    ensures DivR(i, i) == i
  {
  }

  /** One candidate: a prime that divides m is recorded with its multiplicity. */
  method TryPrime(raw: array<RawFactor>, n0: nat, m: Mpz, q: Mpz, r: Mpz, i: nat, maxDivisor: nat, ghost m0: int)
      returns (n: nat)
    requires m.Valid() && q.Valid() && r.Valid() && Separate(m, q, r)
    requires n0 <= raw.Length && m0 < Pow2(raw.Length)
    requires 3 <= i <= maxDivisor < Base() * Base()
    requires Divided(m0, m.Value(), raw[..n0], i)
    modifies raw, m, m.d, q, q.d, r, r.d
    ensures m.Valid() && q.Valid() && r.Valid() && Separate(m, q, r)
    ensures Owned(m) && Owned(q) && Owned(r)
    ensures n <= raw.Length && Divided(m0, m.Value(), raw[..n], i + 1)
  {
    hide Mpz.Valid, Mpz.Value, Pow, Pow2, DivQ, DivR, Divided, IsPrime, Entries, Prod;
    n := n0;
    ghost var s := raw[..n];
    ghost var mv := m.Value();
    DividedPositive(m0, mv, s, i);
    var prime := Isprime(i);
    if !prime {
      DividedSkip(m0, mv, s, i);
      return;
    }
    TdivQRUi(q, r, m, i);
    DivideOutcome(mv, i);
    var sign := Sgn(r);
    if sign != 0 {
      DividedSkip(m0, mv, s, i);
      return;
    }
    var multiplicity := TakePrime(m, q, r, i, maxDivisor);
    ghost var t := s + [RawFactor(i, multiplicity)];
    DividedTake(m0, mv, s, i, multiplicity, m.Value());
    RoomFor(m0, m.Value(), t, i + 1, raw.Length);
    raw[n] := RawFactor(i, multiplicity);
    n := n + 1;
    assert raw[..n] == t;
  }

  /** The search for the small primes of 2^mod34_bits - 1. */
  method Mod34Factors(raw: array<RawFactor>, mod34Bits: nat, maxDivisor: nat) returns (n: nat, ghost left: int)
    requires 1 <= mod34Bits <= raw.Length && 2 <= maxDivisor < Base() * Base()
    modifies raw
    ensures n <= raw.Length
    ensures Divided(Pow2(mod34Bits) - 1, left, raw[..n], maxDivisor + 1)
  {
    hide Mpz.Valid, Mpz.Value, Pow2, DivQ, DivR, Divided, IsPrime;
    BaseSquare();
    var m := InitSetUi(1);
    Mul2exp(m, m, mod34Bits);
    Mersenne(mod34Bits);
    SubUi(m, m, 1);
    var q := new Mpz();
    var r := new Mpz();
    ghost var m0 := m.Value();
    Pow2Mono(mod34Bits, raw.Length);
    n := 0;
    DividedStart(m0);
    assert raw[..n] == [];
    for i := 3 to maxDivisor + 1
      invariant n <= raw.Length
      invariant m.Valid() && q.Valid() && r.Valid() && Separate(m, q, r)
      invariant fresh(m) && fresh(m.d) && fresh(q) && fresh(q.d) && fresh(r) && fresh(r.d)
      invariant Divided(m0, m.Value(), raw[..n], i)
    {
      n := TryPrime(raw, n, m, q, r, i, maxDivisor, m0);
    }
    left := m.Value();
  }

  lemma Mersenne(bits: nat)
    requires bits >= 1
    ensures Pow2(bits) - 1 >= 1 && 1 * Pow2(bits) == Pow2(bits)
  {
    Pow2Mono(1, bits);
    Pow2Small();
  }

  // A product of small primes --------------------------------------------------------

  /** pp is the product of the selected prime powers, each within the bound. */
  ghost predicate Selected(s: seq<RawFactor>, n: int, pp: int, bound: nat, bits: int) {
    && RawList(s, n) && pp == Prod(Entries(s)) && pp >= 1
    && (s != [] ==> bits >= 0 && pp < Pow2(bits))
    && forall i :: 0 <= i < |s| ==> Entry(s[i]) <= bound
  }

  lemma SelectedStart(bound: nat, bits: int)
    ensures Selected([], 3, 1, bound, bits)
  {
    RawEmpty();
  }

  lemma SelectedSkip(s: seq<RawFactor>, n: int, pp: int, bound: nat, bits: int)
    requires Selected(s, n, pp, bound, bits)
    ensures Selected(s, n + 1, pp, bound, bits)
  {
    RawSkip(s, n);
  }

  lemma SelectedAppend(s: seq<RawFactor>, n: nat, pp: int, bound: nat, bits: nat)
    requires Selected(s, n, pp, bound, bits) && IsOddPrime(n) && n <= bound && pp * n < Pow2(bits)
    ensures Selected(s + [RawFactor(n, 1)], n + 1, pp * n, bound, bits)
    ensures |s| < bits
  {
    var t := s + [RawFactor(n, 1)];
    RawAppend(s, n, 1);
    assert Pow(n, 1) == n * Pow(n, 0);
    MulPos(pp, n);
    forall i | 0 <= i < |t|
      ensures Entry(t[i]) <= bound
    {
      if i < |s| {
        assert t[i] == s[i];
      }
    }
    RawCount(t, n + 1, bits);
  }

  lemma SelectedTwice(s: seq<RawFactor>, n: int, pp: int, bound: nat, bits: nat, i: nat)
    requires Selected(s, n, pp, bound, bits) && i < |s| && s[i].multiplicity == 1
    requires s[i].divisor <= bound / s[i].divisor && pp * s[i].divisor < Pow2(bits)
    ensures Selected(s[i := s[i].(multiplicity := 2)], n, pp * s[i].divisor, bound, bits)
  {
    hide RawList, Pow, Prod, Entries;
    var p := s[i].divisor;
    var t := s[i := s[i].(multiplicity := 2)];
    SelectedDivisor(s, n, pp, bound, bits, i);
    PowTwo(p);
    DivCompare(bound, p, p);
    EntriesTwice(s, i);
    MulPos(pp, p);
    RawTwice(s, n, i);
    forall k | 0 <= k < |t|
      ensures Entry(t[k]) <= bound
    {
      if k != i {
        assert t[k] == s[k];
      }
    }
  }

  lemma PowTwo(p: int)
    ensures Pow(p, 1) == p && Pow(p, 2) == p * p
  {
    assert Pow(p, 1) == p * Pow(p, 0);
    assert Pow(p, 2) == p * Pow(p, 1);
  }

  lemma EntriesTwice(s: seq<RawFactor>, i: nat)
    requires i < |s| && s[i].multiplicity == 1
    ensures Prod(Entries(s[i := s[i].(multiplicity := 2)])) == Prod(Entries(s)) * s[i].divisor
  {
    hide Pow, Prod;
    var p := s[i].divisor;
    PowTwo(p);
    var es := Entries(s);
    var et := Entries(s[i := s[i].(multiplicity := 2)]);
    var rest := es[..i] + es[i + 1..];
    ProdWithout(es, i);
    ProdWithout(et, i);
    assert et[..i] + et[i + 1..] == rest;
    MulAssoc(Prod(rest), p, p);
  }

  lemma RawTwice(s: seq<RawFactor>, n: int, i: nat)
    requires RawList(s, n) && i < |s|
    ensures RawList(s[i := s[i].(multiplicity := 2)], n)
  {
    var t := s[i := s[i].(multiplicity := 2)];
    assert forall k :: 0 <= k < |s| ==> t[k].divisor == s[k].divisor;
  }

  /** Every odd prime below n is in the list. */
  ghost predicate AllBelow(s: seq<RawFactor>, n: int) {
    forall p :: IsOddPrime(p) && p < n ==> HasPrime(s, p)
  }

  ghost predicate HasPrime(s: seq<RawFactor>, p: int) {
    exists i :: 0 <= i < |s| && s[i].divisor == p
  }

  /** x has more than bits bits. */
  ghost predicate TooLong(x: int, bits: int) {
    bits < 0 || x >= Pow2(bits)
  }

  /** The primes were taken up to the bound, or up to the first one that no longer fits. */
  ghost predicate StopsAt(stop: int, pp: int, bound: nat, bits: int) {
    stop > bound || (IsOddPrime(stop) && TooLong(pp * stop, bits))
  }

  lemma NoneBelow()
    ensures AllBelow([], 3)
  {
  }

  lemma BelowSkip(s: seq<RawFactor>, n: int)
    requires AllBelow(s, n) && !IsOddPrime(n)
    ensures AllBelow(s, n + 1)
  {
  }

  lemma BelowAppend(s: seq<RawFactor>, n: nat)
    requires AllBelow(s, n)
    ensures AllBelow(s + [RawFactor(n, 1)], n + 1)
  {
    var t := s + [RawFactor(n, 1)];
    forall p | IsOddPrime(p) && p < n + 1
      ensures HasPrime(t, p)
    {
      if p == n {
        assert t[|s|].divisor == p;
      } else {
        var i :| 0 <= i < |s| && s[i].divisor == p;
        assert t[i].divisor == p;
      }
    }
  }

  lemma StopsHere(n: nat, pp: int, bound: nat, size: nat, bits: int)
    requires IsOddPrime(n) && size >= 1 && size > bits && pp * n >= Pow2(size - 1)
    ensures StopsAt(n, pp, bound, bits)
  {
    if bits >= 0 {
      Pow2Mono(bits, size - 1);
    }
  }

  lemma StopsAtEnd(n: int, pp: int, bound: nat, bits: int)
    requires n > bound
    ensures StopsAt(n, pp, bound, bits)
  {
  }

  /** The prime i is taken if the product still fits in bits. */
  method TryPp(raw: array<RawFactor>, n0: nat, pp: Mpz, newPp: Mpz, i: nat, maxDivisor: nat, bits: int)
      returns (n: nat, fits: bool)
    requires pp.Valid() && newPp.Valid() && pp != newPp && pp.d != newPp.d
    requires n0 <= raw.Length && bits <= raw.Length && IsOddPrime(i) && i <= maxDivisor < Base() * Base()
    requires Selected(raw[..n0], i, pp.Value(), maxDivisor, bits) && AllBelow(raw[..n0], i)
    requires forall k :: 0 <= k < n0 ==> raw[k].multiplicity == 1
    modifies raw, pp, pp.d, newPp, newPp.d
    ensures pp.Valid() && newPp.Valid() && Owned(pp) && Owned(newPp) && pp.d != newPp.d && n <= raw.Length
    ensures forall k :: 0 <= k < n ==> raw[k].multiplicity == 1
    ensures fits ==> Selected(raw[..n], i + 1, pp.Value(), maxDivisor, bits) && AllBelow(raw[..n], i + 1)
    ensures !fits ==> Selected(raw[..n], i, pp.Value(), maxDivisor, bits) && AllBelow(raw[..n], i)
    ensures !fits ==> StopsAt(i, pp.Value(), maxDivisor, bits)
  {
    hide Mpz.Valid, Mpz.Value, Pow2, Selected, IsPrime, AllBelow, StopsAt, TooLong;
    ghost var s := raw[..n0];
    ghost var v := pp.Value();
    n := n0;
    SelectedPositive(s, i, v, maxDivisor, bits, i);
    MulUi(newPp, pp, i);
    var size := SizeInBase2(newPp);
    fits := size <= bits;
    if !fits {
      StopsHere(i, v, maxDivisor, size, bits);
      return;
    }
    Pow2Mono(size, bits);
    Set(pp, newPp);
    SelectedAppend(s, i, v, maxDivisor, bits);
    BelowAppend(s, i);
    raw[n] := RawFactor(i, 1);
    n := n + 1;
    assert raw[..n] == s + [RawFactor(i, 1)];
  }

  /** One copy of each prime while the product fits in bits. */
  method PpPrimes(raw: array<RawFactor>, pp: Mpz, maxDivisor: nat, bits: int) returns (n: nat, ghost stop: nat)
    requires pp.Valid() && bits <= raw.Length && 2 <= maxDivisor < Base() * Base()
    modifies raw, pp, pp.d
    ensures pp.Valid() && Owned(pp) && n <= raw.Length
    ensures Selected(raw[..n], maxDivisor + 1, pp.Value(), maxDivisor, bits)
    ensures forall k :: 0 <= k < n ==> raw[k].multiplicity == 1
    ensures AllBelow(raw[..n], stop) && StopsAt(stop, pp.Value(), maxDivisor, bits)
  {
    hide Mpz.Valid, Mpz.Value, Pow2, Selected, IsPrime, AllBelow, StopsAt, TooLong;
    BaseSquare();
    var newPp := new Mpz();
    SetUi(pp, 1);
    n := 0;
    SelectedStart(maxDivisor, bits);
    NoneBelow();
    assert raw[..n] == [];
    for i := 3 to maxDivisor + 1
      invariant n <= raw.Length && pp.Valid() && newPp.Valid() && Owned(pp)
      invariant fresh(newPp) && fresh(newPp.d) && pp.d != newPp.d
      invariant Selected(raw[..n], i, pp.Value(), maxDivisor, bits) && AllBelow(raw[..n], i)
      invariant forall k :: 0 <= k < n ==> raw[k].multiplicity == 1
    {
      var prime := Isprime(i);
      if !prime {
        SelectedSkip(raw[..n], i, pp.Value(), maxDivisor, bits);
        BelowSkip(raw[..n], i);
        continue;
      }
      var fits;
      n, fits := TryPp(raw, n, pp, newPp, i, maxDivisor, bits);
      if !fits {
        stop := i;
        SelectedEnd(raw[..n], i, pp.Value(), maxDivisor, bits, maxDivisor + 1);
        return;
      }
    }
    stop := maxDivisor + 1;
    StopsAtEnd(stop, pp.Value(), maxDivisor, bits);
  }

  lemma SelectedPositive(s: seq<RawFactor>, n: int, pp: int, bound: nat, bits: int, x: int)
    requires Selected(s, n, pp, bound, bits) && x >= 1
    ensures pp * x >= 1
  {
    MulPos(pp, x);
  }

  lemma SelectedEnd(s: seq<RawFactor>, n: int, pp: int, bound: nat, bits: int, n': int)
    requires Selected(s, n, pp, bound, bits) && n <= n'
    ensures Selected(s, n', pp, bound, bits)
  {
  }

  /** From place i on, every prime has its second copy, or there is no room for it. */
  ghost predicate TwiceOrFull(s: seq<RawFactor>, i: int, pp: int, bound: nat, bits: int) {
    forall k :: 0 <= k < |s| && i <= k && s[k].divisor > 0 ==>
      s[k].multiplicity == 2 || s[k].divisor > bound / s[k].divisor || TooLong(pp * s[k].divisor, bits)
  }

  /** The product is filled up: no further prime, and no second copy of one, would still fit. */
  ghost predicate Filled(s: seq<RawFactor>, pp: int, bound: nat, bits: int, stop: int) {
    AllBelow(s, stop) && StopsAt(stop, pp, bound, bits) && TwiceOrFull(s, 0, pp, bound, bits)
  }

  lemma NothingTwice(s: seq<RawFactor>, pp: int, bound: nat, bits: int)
    ensures TwiceOrFull(s, |s|, pp, bound, bits)
  {
  }

  lemma FilledOver(s: seq<RawFactor>, i: nat, pp: int, bound: nat, bits: int)
    requires TwiceOrFull(s, i + 1, pp, bound, bits) && i < |s|
    requires s[i].divisor > 0 && s[i].divisor > bound / s[i].divisor
    ensures TwiceOrFull(s, i, pp, bound, bits)
  {
  }

  lemma FilledOnce(s: seq<RawFactor>, i: nat, pp: int, bound: nat, bits: int, size: nat)
    requires TwiceOrFull(s, i + 1, pp, bound, bits) && i < |s|
    requires size >= 1 && size > bits && pp * s[i].divisor >= Pow2(size - 1)
    ensures TwiceOrFull(s, i, pp, bound, bits)
  {
    hide Pow2;
    if bits >= 0 {
      Pow2Mono(bits, size - 1);
    }
  }

  lemma LongerProduct(x: int, y: int, p: int, bits: int)
    requires 1 <= x <= y && p >= 0 && TooLong(x * p, bits)
    ensures TooLong(y * p, bits)
  {
    MulMono(x, y, p);
  }

  lemma FilledTwice(s: seq<RawFactor>, i: nat, pp: int, bound: nat, bits: int, stop: nat)
    requires i < |s| && pp >= 1 && s[i].divisor >= 1
    requires AllBelow(s, stop) && StopsAt(stop, pp, bound, bits) && TwiceOrFull(s, i + 1, pp, bound, bits)
    ensures var t := s[i := s[i].(multiplicity := 2)]; var qq := pp * s[i].divisor;
            AllBelow(t, stop) && StopsAt(stop, qq, bound, bits) && TwiceOrFull(t, i, qq, bound, bits)
  {
    hide TooLong;
    var t := s[i := s[i].(multiplicity := 2)];
    var qq := pp * s[i].divisor;
    MulMono(1, s[i].divisor, pp);
    if stop <= bound {
      LongerProduct(pp, qq, stop, bits);
    }
    forall k | 0 <= k < |t| && i <= k && t[k].divisor > 0
      ensures t[k].multiplicity == 2 || t[k].divisor > bound / t[k].divisor || TooLong(qq * t[k].divisor, bits)
    {
      if k > i && TooLong(pp * s[k].divisor, bits) {
        LongerProduct(pp, qq, s[k].divisor, bits);
      }
    }
    forall p | IsOddPrime(p) && p < stop
      ensures HasPrime(t, p)
    {
      var k :| 0 <= k < |s| && s[k].divisor == p;
      assert t[k].divisor == p;
    }
  }

  /** An extra copy of the primes whose square is within the bound, while the product fits. */
  method PpSquares(raw: array<RawFactor>, n: nat, pp: Mpz, maxDivisor: nat, bits: int, ghost stop: nat)
    requires pp.Valid() && n <= raw.Length && maxDivisor < Base() * Base()
    requires Selected(raw[..n], maxDivisor + 1, pp.Value(), maxDivisor, bits)
    requires forall k :: 0 <= k < n ==> raw[k].multiplicity == 1
    requires AllBelow(raw[..n], stop) && StopsAt(stop, pp.Value(), maxDivisor, bits)
    modifies raw, pp, pp.d
    ensures pp.Valid() && Owned(pp)
    ensures Selected(raw[..n], maxDivisor + 1, pp.Value(), maxDivisor, bits)
    ensures Filled(raw[..n], pp.Value(), maxDivisor, bits, stop)
  {
    hide Mpz.Valid, Mpz.Value, Pow2, Selected, IsPrime, AllBelow, StopsAt, TooLong, TwiceOrFull;
    BaseSquare();
    var newPp := new Mpz();
    var i: int := n;
    NothingTwice(raw[..n], pp.Value(), maxDivisor, bits);
    while i > 0
      invariant 0 <= i <= n
      invariant pp.Valid() && newPp.Valid() && Owned(pp) && fresh(newPp) && fresh(newPp.d) && pp.d != newPp.d
      invariant Selected(raw[..n], maxDivisor + 1, pp.Value(), maxDivisor, bits)
      invariant forall k :: 0 <= k < i ==> raw[k].multiplicity == 1
      invariant AllBelow(raw[..n], stop) && StopsAt(stop, pp.Value(), maxDivisor, bits)
      invariant TwiceOrFull(raw[..n], i, pp.Value(), maxDivisor, bits)
      decreases i
    {
      i := i - 1;
      var p := raw[i].divisor;
      ghost var s := raw[..n];
      ghost var v := pp.Value();
      SelectedDivisor(s, maxDivisor + 1, v, maxDivisor, bits, i);
      if p <= maxDivisor / p {
        SelectedPositive(s, maxDivisor + 1, v, maxDivisor, bits, p);
        MulUi(newPp, pp, p);
        var size := SizeInBase2(newPp);
        if size <= bits {
          Pow2Mono(size, bits);
          Set(pp, newPp);
          SelectedTwice(s, maxDivisor + 1, v, maxDivisor, bits, i);
          FilledTwice(s, i, v, maxDivisor, bits, stop);
          raw[i] := RawFactor(p, raw[i].multiplicity + 1);
          assert raw[..n] == s[i := s[i].(multiplicity := 2)];
        } else {
          FilledOnce(s, i, v, maxDivisor, bits, size);
        }
      } else {
        FilledOver(s, i, v, maxDivisor, bits);
      }
    }
  }

  lemma SelectedDivisor(s: seq<RawFactor>, n: int, pp: int, bound: nat, bits: int, i: nat)
    requires Selected(s, n, pp, bound, bits) && i < |s|
    ensures 3 <= s[i].divisor < n
  {
  }

  // The table ------------------------------------------------------------------------

  /** The factor array before combining */
  method StartFactors(raw: array<RawFactor>, n: nat, factor: array<int>)
    requires n <= raw.Length && n <= factor.Length
    modifies factor
    ensures factor[..n] == Entries(raw[..n])
  {
    for i := 0 to n
      invariant factor[..i] == Entries(raw[..i])
    {
      factor[i] := 1;
      PowersFrom(raw[i].divisor);
      for j := 0 to raw[i].multiplicity
        invariant factor[..i] == Entries(raw[..i])
        invariant factor[i] == Pow(raw[i].divisor, j)
      {
        factor[i] := factor[i] * raw[i].divisor;
      }
      assert raw[..i + 1] == raw[..i] + [raw[i]];
      assert factor[..i + 1] == factor[..i] + [factor[i]];
    }
  }

  ghost predicate IsLog2Ceil(e: nat, n: nat) {
    Pow2(e) >= n && (e > 0 ==> Pow2(e - 1) < n)
  }

  /** MIN (numb_bits, limb_bits - max_divisor_bits), the bits that pp may fill. */
  ghost predicate IsFill(fill: int, limbBits: nat, numbBits: nat) {
    exists e :: IsLog2Ceil(e, 2 * limbBits) && fill == if numbBits <= limbBits - e then numbBits else limbBits - e
  }

  /** log2_ceil */
  method Log2Ceil(n: nat) returns (e: nat)
    requires n >= 1
    ensures IsLog2Ceil(e, n)
  {
    e := 0;
    while Pow2(e) < n
      invariant e > 0 ==> Pow2(e - 1) < n
      decreases n - Pow2(e)
    {
      e := e + 1;
    }
  }

  /** The divisors of the residue tests: merged from the raw entries until nothing fits. */
  ghost predicate Divisors(raw: seq<RawFactor>, s: seq<int>, bound: nat) {
    && PairCoprime(s) && Prod(s) == Prod(Entries(raw)) && NothingFits(s, bound)
    && forall i :: 0 <= i < |s| ==> s[i] >= 3 && s[i] % 2 == 1 && (s[i] <= bound || s[i] in Entries(raw))
  }

  lemma CombinedDivisors(raw: seq<RawFactor>, n: int, s: seq<int>, bound: nat)
    requires RawList(raw, n) && Combined(Entries(raw), s, bound) && NothingFits(s, bound)
    ensures Divisors(raw, s, bound)
  {
    RawEntries(raw, n);
  }

  /** From the raw factors to the divisors, in place. */
  method MakeDivisors(raw: array<RawFactor>, n0: nat, factor: array<int>, maxDivisor: nat, ghost last: int)
      returns (n: nat)
    requires n0 <= raw.Length && n0 <= factor.Length && RawList(raw[..n0], last)
    modifies factor
    ensures n <= factor.Length && Divisors(raw[..n0], factor[..n], maxDivisor)
    ensures factor[..n] == CombineOf(Entries(raw[..n0]), maxDivisor)
  {
    hide CombineOf, RawList, Combined, Divisors, NothingFits, Sorted, Entries;
    ghost var s := raw[..n0];
    StartFactors(raw, n0, factor);
    RawEntries(s, last);
    forall k | 0 <= k < n0
      ensures factor[k] >= 3 && factor[k] % 2 == 1
    {
      assert factor[k] == factor[..n0][k];
    }
    n := Combine(factor, n0, maxDivisor);
    CombinedDivisors(s, last, factor[..n], maxDivisor);
  }

  // generate_mod ---------------------------------------------------------------------

  /** The modulus that the tests start from, and its raw factors. In the first case the modulus
      is 2^(modBits - 1) - 1, a prime beyond the bound or none being left of it; in the second
      it is pp, which has modBits bits. */
  ghost predicate Chosen(mod34: bool, raw: seq<RawFactor>, pp: int, bound: nat, modBits: nat, left: int) {
    && modBits >= 1
    && (mod34 ==> |raw| >= 3 && Divided(Pow2(modBits - 1) - 1, left, raw, bound + 1))
    && (!mod34 ==> Selected(raw, bound + 1, pp, bound, modBits) && Pow2(modBits - 1) <= pp < Pow2(modBits))
  }

  lemma ChosenRaw(mod34: bool, raw: seq<RawFactor>, pp: int, bound: nat, modBits: nat, left: int)
    requires Chosen(mod34, raw, pp, bound, modBits, left)
    ensures RawList(raw, bound + 1)
  {
  }

  /** pp fills the bits that it may fill. */
  ghost predicate FilledUp(raw: seq<RawFactor>, pp: int, bound: nat, limbBits: nat, numbBits: nat) {
    exists fill, stop :: IsFill(fill, limbBits, numbBits) && Filled(raw, pp, bound, fill, stop)
  }

  /** The use_pp path */
  method UsePp(raw: array<RawFactor>, pp: Mpz, limbBits: nat, numbBits: nat)
      returns (n: nat, modBits: nat, maxDivisor: nat, ghost fill: int, ghost stop: nat)
    requires pp.Valid() && 1 <= numbBits <= limbBits == raw.Length && 2 * limbBits < Base() * Base()
    modifies raw, pp, pp.d
    ensures pp.Valid() && Owned(pp) && n <= raw.Length && maxDivisor == 2 * limbBits
    ensures Chosen(false, raw[..n], pp.Value(), maxDivisor, modBits, 0)
    ensures Filled(raw[..n], pp.Value(), maxDivisor, fill, stop) && IsFill(fill, limbBits, numbBits)
  {
    hide Mpz.Valid, Mpz.Value, Pow2, Selected, Filled, AllBelow, StopsAt;
    maxDivisor := 2 * limbBits;
    var maxDivisorBits := Log2Ceil(maxDivisor);
    var bits: int := if numbBits <= limbBits - maxDivisorBits then numbBits else limbBits - maxDivisorBits;
    fill := bits;
    n, stop := PpPrimes(raw, pp, maxDivisor, bits);
    PpSquares(raw, n, pp, maxDivisor, bits, stop);
    assert IsLog2Ceil(maxDivisorBits, 2 * limbBits);
    SelectedPositive(raw[..n], maxDivisor + 1, pp.Value(), maxDivisor, bits, 1);
    modBits := SizeInBase2(pp);
    SelectedBits(raw[..n], maxDivisor + 1, pp.Value(), maxDivisor, bits, modBits);
  }

  lemma SelectedBits(s: seq<RawFactor>, n: int, pp: int, bound: nat, bits: int, size: nat)
    requires Selected(s, n, pp, bound, bits) && pp < Pow2(size)
    ensures Selected(s, n, pp, bound, size)
  {
  }

  /** The bound on divisors for which 2^mod34_bits - 1 comes into question: two limbs' worth of
      bits, or one if that needs fewer bits than a quarter limb has. */
  ghost predicate Eligible(limbBits: nat, numbBits: nat, bound: nat) {
    && numbBits % 4 == 0
    && (bound == 2 * limbBits || (bound == limbBits && !exists e :: IsLog2Ceil(e, 2 * limbBits) && numbBits / 4 >= e))
    && exists e :: IsLog2Ceil(e, bound) && numbBits / 4 >= e
  }

  /** In sizes: a quarter of the bits in use counts up to the bound, and to two limbs' worth only if it must. */
  lemma EligibleIff(limbBits: nat, numbBits: nat, bound: nat)
    requires limbBits >= 1
    ensures Eligible(limbBits, numbBits, bound) <==>
              && numbBits % 4 == 0 && bound <= Pow2(numbBits / 4)
              && (bound == 2 * limbBits || (bound == limbBits && Pow2(numbBits / 4) < 2 * limbBits))
  {
    hide Pow2, IsLog2Ceil;
    QuarterReaches(numbBits / 4, 2 * limbBits);
    if bound >= 1 {
      QuarterReaches(numbBits / 4, bound);
    }
  }

  lemma QuarterReaches(q: nat, n: nat)
    requires n >= 1
    ensures (exists e :: IsLog2Ceil(e, n) && q >= e) <==> n <= Pow2(q)
  {
    hide Pow2;
    if n <= Pow2(q) {
      Log2CeilBelow(q, n);
    } else {
      forall e: nat | IsLog2Ceil(e, n)
        ensures q < e
      {
        if e <= q {
          Pow2Mono(e, q);
        }
      }
    }
  }

  lemma {:induction false} Log2CeilBelow(q: nat, n: nat)
    requires 1 <= n <= Pow2(q)
    ensures exists e: nat :: IsLog2Ceil(e, n) && q >= e
  {
    if q == 0 || Pow2(q - 1) < n {
      assert IsLog2Ceil(q, n);
    } else {
      Log2CeilBelow(q - 1, n);
    }
  }

  /** The search records at most two primes of 2^mod34_bits - 1. */
  ghost predicate TooFew(numbBits: nat, bound: nat) {
    exists s, left :: FewDivided(s, left, numbBits, bound)
  }

  ghost predicate FewDivided(s: seq<RawFactor>, left: int, numbBits: nat, bound: nat) {
    |s| <= 2 && Divided(Pow2(numbBits / 4 * 3) - 1, left, s, bound + 1)
  }

  /** The search having one outcome, that is a question of how many primes it records. */
  lemma TooFewIff(s: seq<RawFactor>, numbBits: nat, bound: nat, left: int)
    requires numbBits >= 4 && Divided(Pow2(numbBits / 4 * 3) - 1, left, s, bound + 1)
    ensures TooFew(numbBits, bound) <==> |s| <= 2
  {
    hide Divided;
    MersenneAboveOne(numbBits / 4 * 3);
    if |s| <= 2 {
      assert FewDivided(s, left, numbBits, bound);
    }
    if TooFew(numbBits, bound) {
      var t, l :| FewDivided(t, l, numbBits, bound);
      DividedUnique(Pow2(numbBits / 4 * 3) - 1, left, s, l, t, bound + 1);
    }
  }

  lemma MersenneAboveOne(k: nat)
    requires k >= 2
    ensures Pow2(k) - 1 > 1 && (Pow2(k) - 1) % 2 == 1
  {
    Pow2Mono(2, k);
    OddBelow(Pow2(k), Pow2(k - 1));
  }

  lemma OddBelow(x: int, h: int)
    requires x == 2 * h
    ensures (x - 1) % 2 == 1
  {
    ModAddMul(1, h - 1, 2);
  }

  /** Which modulus is used. */
  ghost predicate Choice(mod34: bool, limbBits: nat, numbBits: nat, maxDivisor: nat, modBits: nat) {
    && (mod34 ==> Eligible(limbBits, numbBits, maxDivisor) && modBits == numbBits / 4 * 3 + 1)
    && (mod34 ==> !TooFew(numbBits, maxDivisor))
    && (!mod34 ==> maxDivisor == 2 * limbBits)
    && (!mod34 ==> forall b :: Eligible(limbBits, numbBits, b) ==> TooFew(numbBits, b))
  }

  /** The sizes determine the choice, and with it the recorded primes of 2^mod34_bits - 1. */
  lemma ChoiceUnique(m1: bool, m2: bool, limbBits: nat, numbBits: nat, d1: nat, d2: nat, b1: nat, b2: nat)
    requires Choice(m1, limbBits, numbBits, d1, b1) && Choice(m2, limbBits, numbBits, d2, b2)
    ensures m1 == m2 && d1 == d2 && (m1 ==> b1 == b2)
  {
    hide TooFew, Eligible;
    if m1 && m2 {
      EligibleUnique(limbBits, numbBits, d1, d2);
    }
  }

  lemma {:induction false} Log2CeilUnique(e: nat, f: nat, n: nat)
    requires IsLog2Ceil(e, n) && IsLog2Ceil(f, n)
    ensures e == f
  {
    if e < f {
      Pow2Mono(e, f - 1);
    } else if f < e {
      Pow2Mono(f, e - 1);
    }
  }

  /** There is at most one such bound. */
  lemma EligibleUnique(limbBits: nat, numbBits: nat, b: nat, c: nat)
    requires Eligible(limbBits, numbBits, b) && Eligible(limbBits, numbBits, c)
    ensures b == c
  {
  }

  lemma EligibleSizes(limbBits: nat, numbBits: nat, bound: nat)
    requires 1 <= numbBits <= limbBits && Eligible(limbBits, numbBits, bound)
    ensures numbBits >= 4 && 1 <= numbBits / 4 * 3 <= limbBits && 2 <= bound <= 2 * limbBits
    ensures 4 * (numbBits / 4 * 3) == 3 * numbBits
  {
  }

  /** The first tests of generate_mod */
  method Mod34Bound(limbBits: nat, numbBits: nat) returns (eligible: bool, maxDivisor: nat)
    requires 1 <= numbBits <= limbBits
    ensures eligible ==> Eligible(limbBits, numbBits, maxDivisor)
    ensures !eligible ==> forall b :: !Eligible(limbBits, numbBits, b)
    ensures eligible ==> forall b :: Eligible(limbBits, numbBits, b) ==> b == maxDivisor
  {
    hide IsLog2Ceil;
    maxDivisor := 2 * limbBits;
    if numbBits % 4 != 0 {
      return false, maxDivisor;
    }
    var e := Log2Ceil(maxDivisor);
    forall f | IsLog2Ceil(f, 2 * limbBits)
      ensures f == e
    {
      Log2CeilUnique(e, f, 2 * limbBits);
    }
    eligible := numbBits / 4 >= e;
    if !eligible {
      maxDivisor := limbBits;
      var g := Log2Ceil(maxDivisor);
      forall f | IsLog2Ceil(f, limbBits)
        ensures f == g
      {
        Log2CeilUnique(g, f, limbBits);
      }
      eligible := numbBits / 4 >= g;
    }
  }

  /** The choice of modulus in generate_mod */
  method ChooseModulus(raw: array<RawFactor>, pp: Mpz, limbBits: nat, nailBits: nat)
      returns (mod34: bool, n: nat, modBits: nat, maxDivisor: nat, ghost left: int)
    requires pp.Valid() && nailBits < limbBits == raw.Length && 2 * limbBits < Base() * Base()
    modifies raw, pp, pp.d
    ensures pp.Valid() && Owned(pp) && n <= raw.Length
    ensures Chosen(mod34, raw[..n], pp.Value(), maxDivisor, modBits, left)
    ensures Choice(mod34, limbBits, limbBits - nailBits, maxDivisor, modBits)
    ensures mod34 ==> 4 * (modBits - 1) == 3 * (limbBits - nailBits)
    ensures !mod34 ==> FilledUp(raw[..n], pp.Value(), maxDivisor, limbBits, limbBits - nailBits)
  {
    hide Mpz.Valid, Mpz.Value, Selected, Divided, Eligible, TooFew, Filled, IsFill;
    var numbBits := limbBits - nailBits;
    left := 0;
    mod34, maxDivisor := Mod34Bound(limbBits, numbBits);
    if mod34 {
      EligibleSizes(limbBits, numbBits, maxDivisor);
      var mod34Bits := numbBits / 4 * 3;
      modBits := mod34Bits + 1;
      n, left := Mod34Factors(raw, mod34Bits, maxDivisor);
      mod34 := n > 2;
      TooFewIff(raw[..n], numbBits, maxDivisor, left);
    }
    if !mod34 {
      ghost var fill, stop;
      n, modBits, maxDivisor, fill, stop := UsePp(raw, pp, limbBits, numbBits);
    }
  }

  /** What generate_mod has chosen when it comes to the tables. */
  ghost predicate Generated(limbBits: nat, numbBits: nat, mod34: bool, raw: seq<RawFactor>, pp: int,
                            bound: nat, modBits: nat, left: int, factor: seq<int>)
  {
    && Chosen(mod34, raw, pp, bound, modBits, left)
    && Choice(mod34, limbBits, numbBits, bound, modBits)
    && (!mod34 ==> FilledUp(raw, pp, bound, limbBits, numbBits))
    && Divisors(raw, factor, bound)
    && factor == CombineOf(Entries(raw), bound)
  }

  /** generate_mod up to the tables */
  method GenerateMod(limbBits: nat, nailBits: nat)
      returns (factor: array<int>, n: nat, modBits: nat, maxDivisor: nat, mod34: bool, pp: Mpz,
               ghost raw: seq<RawFactor>, ghost left: int)
    requires nailBits < limbBits && 2 * limbBits < Base() * Base()
    ensures pp.Valid() && n <= factor.Length && fresh(factor) && fresh(pp) && fresh(pp.d)
    ensures Generated(limbBits, limbBits - nailBits, mod34, raw, pp.Value(), maxDivisor, modBits, left, factor[..n])
  {
    hide Mpz.Valid, Mpz.Value, Chosen, Divisors, CombineOf, Choice, FilledUp;
    BaseSquare();
    pp := InitSetUi(0);
    factor := new int[limbBits];
    var rawfactor := new RawFactor[limbBits](_ => RawFactor(0, 0));
    var nraw;
    mod34, nraw, modBits, maxDivisor, left := ChooseModulus(rawfactor, pp, limbBits, nailBits);
    raw := rawfactor[..nraw];
    ChosenRaw(mod34, raw, pp.Value(), maxDivisor, modBits, left);
    n := MakeDivisors(rawfactor, nraw, factor, maxDivisor, maxDivisor + 1);
  }
}
