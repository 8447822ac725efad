/** The prime factorisation of wimath.c: trial division that hands each factor to a callback,
    and why what it hands over is the only factorisation there is. */
module PrimeFactors {
  import opened Euclid

  ghost predicate Prime(p: nat) {
    p >= 2 && forall d :: 2 <= d < p ==> !Divides(d, p)
  }

  function Product(fs: seq<nat>): (n: nat) {
    if fs == [] then 1 else fs[0] * Product(fs[1..])
  }

  ghost predicate NonDecreasing(fs: seq<nat>) {
    forall j, k :: 0 <= j <= k < |fs| ==> fs[j] <= fs[k]
  }

  ghost predicate AllPrime(fs: seq<nat>) {
    forall p | p in fs :: Prime(p)
  }

  ghost predicate IsFactorisation(fs: seq<nat>, n: nat) {
    AllPrime(fs) && NonDecreasing(fs) && Product(fs) == n
  }

  // ----- the factorisation as a function

  lemma DividesItself(n: nat)
    requires n > 0
    ensures Divides(n, n) && n / n == 1
  {
    MultipleIsDivisible(1, n);
  }

  /** No number from 2 up to (not including) a bound divides n. */
  ghost predicate NoneBelow(n: nat, bound: nat) {
    forall d :: 2 <= d < bound ==> !Divides(d, n)
  }

  function LeastFrom(n: nat, c: nat): (p: nat)
    requires 2 <= c <= n && NoneBelow(n, c)
    ensures c <= p <= n && Divides(p, n) && NoneBelow(n, p)
    decreases n - c
  {
    DividesItself(n);
    if n % c == 0 then c else LeastFrom(n, c + 1)
  }

  /** The least divisor from 2 on. */
  function Least(n: nat): (p: nat)
    requires n >= 2
    ensures 2 <= p <= n && Divides(p, n) && NoneBelow(n, p)
  {
    LeastFrom(n, 2)
  }

  lemma LeastIsUnique(n: nat, p: nat)
    requires n >= 2 && p >= 2 && Divides(p, n) && NoneBelow(n, p)
    ensures p == Least(n)
  {
  }

  lemma QuotientIsSmaller(n: nat, p: nat)
    requires n > 0 && p >= 2 && Divides(p, n)
    ensures 0 < n / p < n && n == p * (n / p)
  {
    DivisibleIsMultiple(n, p);
    var q := n / p;
    assert q > 0;
    assert q * p >= 2 * q;
  }

  function Factors(n: nat): seq<nat>
    requires n > 0
    decreases n
  {
    if n == 1 then []
    else
      var p := Least(n);
      QuotientIsSmaller(n, p);
      [p] + Factors(n / p)
  }

  // ----- it is a factorisation

  lemma DividesTransitive(a: nat, b: nat, n: nat)
    requires Divides(a, b) && Divides(b, n)
    ensures Divides(a, n)
  {
    DivisibleIsMultiple(b, a);
    DivisibleIsMultiple(n, b);
    Regroup(n / b, b / a, a);
    MultipleIsDivisible((n / b) * (b / a), a);
  }

  lemma LeastIsPrime(n: nat)
    requires n >= 2
    ensures Prime(Least(n))
  {
    var p := Least(n);
    forall d | 2 <= d < p
      ensures !Divides(d, p)
    {
      if Divides(d, p) {
        DividesTransitive(d, p, n);
      }
    }
  }

  /** What divides the quotient is no smaller than the least divisor. */
  lemma NoneBelowQuotient(n: nat, p: nat, q: nat)
    requires q > 0 && n == p * q && NoneBelow(n, p)
    ensures NoneBelow(q, p)
  {
    MultipleIsDivisible(p, q);
    forall d | 2 <= d < p
      ensures !Divides(d, q)
    {
      if Divides(d, q) {
        DividesTransitive(d, q, n);
      }
    }
  }

  lemma {:induction false} FactorsFactorise(n: nat)
    requires n > 0
    ensures IsFactorisation(Factors(n), n)
    ensures forall p | p in Factors(n) :: Divides(p, n)
    decreases n
  {
    if n > 1 {
      var p := Least(n);
      var q := n / p;
      QuotientIsSmaller(n, p);
      FactorsFactorise(q);
      LeastIsPrime(n);
      NoneBelowQuotient(n, p, q);
      var rest := Factors(q);
      MultipleIsDivisible(p, q);
      forall f | f in rest
        ensures f >= p && Divides(f, n)
      {
        assert Prime(f);
        DividesTransitive(f, q, n);
      }
      FactorsInOrder(p, rest);
      assert Factors(n) == [p] + rest;
    }
  }

  lemma FactorsInOrder(p: nat, rest: seq<nat>)
    requires NonDecreasing(rest) && forall f | f in rest :: f >= p
    ensures NonDecreasing([p] + rest)
  {
    var fs := [p] + rest;
    forall j, k | 0 <= j <= k < |fs|
      ensures fs[j] <= fs[k]
    {
      if j > 0 {
        assert rest[j - 1] <= rest[k - 1];
      } else if k > 0 {
        assert fs[k] == rest[k - 1] && rest[k - 1] in rest;
      }
    }
  }

  // ----- it is the only one

  /** Euclid's lemma. */
  lemma PrimeDividesFactor(p: nat, a: nat, b: nat)
    requires Prime(p) && Divides(p, a * b)
    ensures Divides(p, a) || Divides(p, b)
  {
    var g := Gcd(a, p);
    GcdDivides(a, p);
    if g != p {
      DivisibleIsMultiple(p, g);
      NotAboveMultiple(p, g);
      assert g == 1;
      var u, v := Bezout(a, p);
      calc {
        b;
        (u * a + v * p) * b;
        { Distribute(u * a, v * p, b); Regroup(u, a, b); }
        u * (a * b) + (v * p) * b;
        { Regroup(v, b, p); Regroup(v, p, b); }
        u * (a * b) + (v * b) * p;
      }
      DividesItself(p);
      DividesCombination(p, a * b, p, u, v * b);
    }
  }

  lemma NotAboveMultiple(n: nat, d: nat)
    requires n > 0 && Divides(d, n)
    ensures d <= n
  {
    DivisibleIsMultiple(n, d);
    assert n / d >= 1;
    MulAtLeast(n / d, d);
  }

  lemma {:induction false} PrimeDividesProduct(p: nat, fs: seq<nat>)
    requires Prime(p) && AllPrime(fs) && Divides(p, Product(fs))
    ensures p in fs
  {
    if fs == [] {
      NotAboveMultiple(1, p);
    } else {
      PrimeDividesFactor(p, fs[0], Product(fs[1..]));
      if Divides(p, fs[0]) {
        assert Prime(fs[0]);
        NotAboveMultiple(fs[0], p);
      } else {
        PrimeDividesProduct(p, fs[1..]);
      }
    }
  }

  lemma {:induction false} ProductPositive(fs: seq<nat>)
    requires AllPrime(fs)
    ensures Product(fs) > 0
    ensures fs != [] ==> Divides(fs[0], Product(fs)) && Product(fs) >= fs[0] && Product(fs) / fs[0] == Product(fs[1..])
  {
    if fs != [] {
      assert Prime(fs[0]);
      ProductPositive(fs[1..]);
      MultipleIsDivisible(Product(fs[1..]), fs[0]);
      MulAtLeast(Product(fs[1..]), fs[0]);
    }
  }

  /** Unique factorisation: a non-decreasing list of primes with product n is Factors(n). */
  lemma {:induction false} FactorisationIsUnique(fs: seq<nat>, n: nat)
    requires n > 0
    ensures IsFactorisation(fs, n) <==> fs == Factors(n)
    decreases |fs|
  {
    FactorsFactorise(n);
    if IsFactorisation(fs, n) {
      ProductPositive(fs);
      if fs != [] {
        assert Prime(fs[0]);
        var p := Least(n);
        LeastIsPrime(n);
        PrimeDividesProduct(p, fs);
        var j :| 0 <= j < |fs| && fs[j] == p;
        assert fs[0] <= fs[j];
        assert p == fs[0];
        FactorisationIsUnique(fs[1..], n / p);
      }
    }
  }

  // ----- the program

  /** The inner loop: the first odd number from 3 on that divides an odd i, or, when i is 1,
      a number above i. */
  method FindOddFactor(i: nat) returns (c: nat)
    requires i > 0 && !Divides(2, i)
    ensures c > i <==> i == 1
    ensures i > 1 ==> c == Least(i)
  {
    c := 3;
    DividesItself(i);
    OddHasOddFactors(i, 3);
    while i % c != 0
      invariant c >= 3 && !Divides(2, c) && NoneBelow(i, c)
      invariant i > 1 ==> c <= i
      decreases i + 3 - c
    {
      if c > i {
        return;
      }
      assert !Divides(c, i);
      NextOdd(c);
      OddHasOddFactors(i, c + 1);
      c := c + 2;
    }
    if i == 1 {
      NotAboveMultiple(i, c);
    } else {
      LeastIsUnique(i, c);
    }
  }

  lemma NextOdd(c: nat)
    requires !Divides(2, c)
    ensures Divides(2, c + 1) && !Divides(2, c + 2)
  {
  }

  /** An even number does not divide an odd one. */
  lemma OddHasOddFactors(i: nat, c: nat)
    requires !Divides(2, i)
    ensures c > 0 && Divides(2, c) ==> !Divides(c, i)
    ensures c == 3 ==> NoneBelow(i, 3)
  {
    if c > 0 && Divides(2, c) && Divides(c, i) {
      DividesTransitive(2, c, i);
    }
  }

  /** The callback is asked to cancel with the list it has been given so far. */
  ghost predicate NotCancelled(cancel: seq<nat> -> bool, emitted: seq<nat>) {
    forall k :: 0 < k <= |emitted| ==> !cancel(emitted[..k])
  }

  /** Returns 0 after the whole factorisation, 1 when the callback has cancelled, and -1 for
      numbers that are not positive. */
  method GetPrimeFactors(i0: int, cancel: seq<nat> -> bool) returns (code: int, emitted: seq<nat>)
    ensures code == -1 <==> i0 <= 0
    ensures i0 <= 0 ==> emitted == []
    ensures i0 > 0 ==> code == 0 || code == 1
    ensures code == 0 ==> emitted == Factors(i0) && NotCancelled(cancel, emitted)
    ensures code == 1 ==>
      && emitted != [] && emitted <= Factors(i0)
      && cancel(emitted) && NotCancelled(cancel, emitted[..|emitted| - 1])
  {
    var i := i0;
    emitted := [];
    while i > 0
      invariant i0 > 0 ==> i > 0 && emitted + Factors(i) == Factors(i0)
      invariant i0 <= 0 ==> i == i0 && emitted == []
      invariant NotCancelled(cancel, emitted)
    {
      var c: nat := 2;
      if i % 2 != 0 {
        c := FindOddFactor(i);
        if c > i {
          return 0, emitted;
        }
      } else {
        LeastIsUnique(i, 2);
      }
      QuotientIsSmaller(i, c);
      var before := emitted;
      emitted := emitted + [c];
      assert emitted[..|before|] == before;
      assert emitted + Factors(i / c) == Factors(i0);
      if cancel(emitted) {
        return 1, emitted;
      }
      NotCancelledYet(cancel, before, c);
      i := i / c;
    }
    return -1, emitted;
  }

  lemma NotCancelledYet(cancel: seq<nat> -> bool, before: seq<nat>, c: nat)
    requires NotCancelled(cancel, before) && !cancel(before + [c])
    ensures NotCancelled(cancel, before + [c])
  {
    var emitted := before + [c];
    forall k | 0 < k <= |emitted|
      ensures !cancel(emitted[..k])
    {
      if k <= |before| {
        assert emitted[..k] == before[..k];
      } else {
        assert emitted[..k] == emitted;
      }
    }
  }
}
