/** The greatest common divisor, as getopt.c and wimath.c compute it, and the facts
    about it that the block rotation and the prime factorisation rest on. */
module Euclid {

  /** Euclid's algorithm as an equation; `GcdLoop` below is the program. */
  function Gcd(a: nat, b: nat): (g: nat)
    requires b > 0
    ensures g > 0
    decreases b
  {
    var c := a % b;
    if c == 0 then b else Gcd(b, c)
  }

  ghost predicate Divides(d: nat, n: int) {
    d > 0 && n % d == 0
  }

  /** The loop of `gcd`: three variables, no recursion. */
  method GcdLoop(a0: nat, b0: nat) returns (b: nat)
    requires b0 > 0
    ensures b == Gcd(a0, b0)
  {
    var a: nat := a0;
    b := b0;
    var c := a % b;
    while c != 0
      invariant b > 0 && c == a % b
      invariant Gcd(a, b) == Gcd(a0, b0)
      decreases c
    {
      a := b;
      b := c;
      c := a % b;
    }
  }

  // ----- division with remainder

  /** Quotient and remainder are determined by the division identity. */
  lemma DivModUnique(a: int, m: int, q: int, r: int)
    requires m > 0 && 0 <= r < m && a == q * m + r
    ensures a / m == q && a % m == r
  {
    var k := a / m - q;
    assert a == (a / m) * m + a % m;
    assert k * m == (a / m) * m - q * m;
    assert k * m == r - a % m;
    if k >= 1 {
      MulAtLeast(k, m);
    } else if k <= -1 {
      MulAtLeast(-k, m);
    }
  }

  lemma MulAtLeast(k: int, m: int)
    requires k >= 1 && m > 0
    ensures k * m >= m
  {
    assert (k - 1) * m >= 0;
  }

  lemma Distribute(a: int, b: int, c: int)
    ensures (a + b) * c == a * c + b * c && (a - b) * c == a * c - b * c
    ensures c * (a + b) == c * a + c * b && c * (a - b) == c * a - c * b
  {
  }

  lemma Regroup(a: int, b: int, c: int)
    ensures a * (b * c) == (a * b) * c
  {
  }

  /** Cells of a grid of g rows of length l, numbered row by row. */
  lemma RowFits(i: int, g: int, l: int)
    requires i < g && l > 0
    ensures i * l + l <= g * l
  {
    MulAtLeast(g - i, l);
    Distribute(g, i, l);
  }

  lemma MultipleIsDivisible(k: int, d: nat)
    requires d > 0
    ensures Divides(d, k * d) && Divides(d, d * k) && (k * d) / d == k
  {
    DivModUnique(k * d, d, k, 0);
    assert d * k == k * d;
  }

  lemma DivisibleIsMultiple(n: int, d: nat)
    requires Divides(d, n)
    ensures n == (n / d) * d
  {
  }

  /** A divisor of two numbers divides every integer combination of them. */
  lemma DividesCombination(d: nat, a: int, b: int, x: int, y: int)
    requires Divides(d, a) && Divides(d, b)
    ensures Divides(d, x * a + y * b)
  {
    var p, q := a / d, b / d;
    calc {
      x * a + y * b;
      { DivisibleIsMultiple(a, d); DivisibleIsMultiple(b, d); }
      x * (p * d) + y * (q * d);
      (x * p) * d + (y * q) * d;
      (x * p + y * q) * d;
    }
    MultipleIsDivisible(x * p + y * q, d);
  }

  // ----- what Gcd means

  /** Bezout: the divisor found is an integer combination of the two numbers. */
  lemma {:induction false} Bezout(a: nat, b: nat) returns (u: int, v: int)
    requires b > 0
    ensures u * a + v * b == Gcd(a, b)
    decreases b
  {
    var c := a % b;
    if c == 0 {
      u, v := 0, 1;
    } else {
      var s, t := Bezout(b, c);
      u, v := t, s - t * (a / b);
      calc {
        u * a + v * b;
        t * a + s * b - (t * (a / b)) * b;
        { assert (t * (a / b)) * b == t * ((a / b) * b); }
        t * (a - (a / b) * b) + s * b;
        t * c + s * b;
      }
    }
  }

  lemma {:induction false} GcdDivides(a: nat, b: nat)
    requires b > 0
    ensures Divides(Gcd(a, b), a) && Divides(Gcd(a, b), b)
    decreases b
  {
    var c := a % b;
    if c == 0 {
      MultipleIsDivisible(1, b);
    } else {
      GcdDivides(b, c);
      DividesCombination(Gcd(b, c), b, c, a / b, 1);
      assert a == (a / b) * b + 1 * c;
    }
  }

  lemma GcdIsGreatest(a: nat, b: nat)
    requires b > 0
    ensures Divides(Gcd(a, b), a) && Divides(Gcd(a, b), b)
    ensures forall d :: Divides(d, a) && Divides(d, b) ==> Divides(d, Gcd(a, b))
  {
    GcdDivides(a, b);
    var u, v := Bezout(a, b);
    forall d | Divides(d, a) && Divides(d, b)
      ensures Divides(d, Gcd(a, b))
    {
      DividesCombination(d, a, b, u, v);
    }
  }
}
