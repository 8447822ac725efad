/** `permute_args`: exchange two adjacent blocks of an array in place by following
    gcd-many cycles of the map x -> x + nopts (mod the combined length). */
module Rotation {
  import opened Euclid

  /** Where the element at relative position x belongs after the exchange of a first
      block of nn elements with a second block of no elements. */
  function Target(nn: nat, no: nat, x: int): (y: int)
    requires 0 <= x < nn + no
    ensures 0 <= y < nn + no
  {
    if x >= nn then x - nn else x + no
  }

  // ----- one cycle, for coprime block lengths p and q

  /** The pass of the inner loop that reaches the position at distance d from the start of
      the walk: with w inverse to the step length modulo l, that is after w * d steps. */
  function Pass(w: int, l: nat, d: int): (j: nat)
    requires l > 0
    ensures j < l
  {
    (w * d - 1) % l
  }

  lemma AddMultiple(a: int, k: int, l: nat)
    requires l > 0
    ensures (a + k * l) % l == a % l
  {
    DivModUnique(a + k * l, l, a / l + k, a % l);
  }

  lemma StepAddsOnePass(w: int, q: nat, t: int, l: nat, d: int, d': int)
    requires l > 0 && w * q == 1 + t * l
    requires d' == d + q || d' == d + q - l
    ensures var j := Pass(w, l, d); Pass(w, l, d') == if j == l - 1 then 0 else j + 1
  {
    if d' == d + q {
      ProductOfShift(w, d, q, 0);
      ShiftedRemainder(w * d, w * d', t, 0, l);
    } else {
      ProductOfShift(w, d, q, l);
      ShiftedRemainder(w * d, w * d', t, -w, l);
    }
  }

  lemma ProductOfShift(w: int, d: int, q: int, l: int)
    ensures w * (d + q - l) == w * d + w * q + (-w) * l
  {
    Distribute(d, q, w);
    Distribute(d + q, l, w);
  }

  lemma ShiftedRemainder(a: int, b: int, t: int, k: int, l: nat)
    requires l > 0 && b == a + (1 + t * l) + k * l
    ensures var j := (a - 1) % l; (b - 1) % l == if j == l - 1 then 0 else j + 1
  {
    Distribute(t, k, l);
    AddMultiple(a, t + k, l);
    IncrementRemainder(a - 1, l);
  }

  lemma IncrementRemainder(s: int, l: nat)
    requires l > 0
    ensures (s + 1) % l == if s % l == l - 1 then 0 else s % l + 1
  {
    if s % l == l - 1 {
      DivModUnique(s + 1, l, s / l + 1, 0);
    } else {
      DivModUnique(s + 1, l, s / l, s % l + 1);
    }
  }

  lemma PassInjective(w: int, q: nat, t: int, l: nat, d: int, e: int)
    requires l > 0 && w * q == 1 + t * l && -(l as int) < d - e < l
    requires Pass(w, l, d) == Pass(w, l, e)
    ensures d == e
  {
    var a, b := w * d - 1, w * e - 1;
    assert w * (d - e) == a - b by { Distribute(d, e, w); }
    assert a - b == (a / l - b / l) * l by { Distribute(a / l, b / l, l); }
    InvertibleFactor(d - e, w, q, t, a / l - b / l, l);
  }

  /** A factor that is invertible modulo l cancels. */
  lemma InvertibleFactor(d: int, w: int, q: int, t: int, k: int, l: nat)
    requires w * q == 1 + t * l && w * d == k * l && -(l as int) < d < l
    ensures d == 0
  {
    calc {
      d;
      (1 + t * l) * d - (t * l) * d;
      (w * q) * d - (t * l) * d;
      { assert (w * q) * d == q * (w * d); }
      q * (k * l) - (t * l) * d;
      { Regroup(q, k, l); assert (t * l) * d == (t * d) * l; }
      (q * k) * l - (t * d) * l;
      { Distribute(q * k, t * d, l); }
      (q * k - t * d) * l;
    }
    SmallMultipleIsZero(d, q * k - t * d, l);
  }

  lemma SmallMultipleIsZero(d: int, c: int, l: nat)
    requires d == c * l && -(l as int) < d < l
    ensures d == 0
  {
    if c >= 1 {
      MulAtLeast(c, l);
    } else if c <= -1 {
      MulAtLeast(-c, l);
    }
  }

  /** Bezout gives the inverse of no / gcd modulo (nn + no) / gcd. */
  lemma InverseModuloSum(nn: nat, no: nat) returns (w: int, t: int)
    requires nn > 0 && no > 0
    ensures var g := Gcd(nn, no); w * (no / g) == 1 + t * (nn / g + no / g)
  {
    var g := Gcd(nn, no);
    GcdDivides(nn, no);
    var p, q := nn / g, no / g;
    assert nn == p * g && no == q * g;
    var u, v := Bezout(nn, no);
    assert (u * p + v * q) * g == g by {
      Distribute(u * p, v * q, g);
      Regroup(u, p, g);
      Regroup(v, q, g);
    }
    CancelOne(u * p + v * q, g);
    w, t := v - u, -u;
    Distribute(v, u, q);
    Distribute(p, q, -u);
  }

  lemma CancelOne(k: int, g: nat)
    requires g > 0 && k * g == g
    ensures k == 1
  {
    DivModUnique(g, g, k, 0);
    DivModUnique(g, g, 1, 0);
  }

  // ----- all cycles

  /** No other position shares the pass of position x. */
  ghost predicate Alone(row: seq<nat>, col: seq<nat>, x: int)
    requires 0 <= x < |row| == |col|
  {
    forall y :: 0 <= y < |row| && y != x ==> row[y] != row[x] || col[y] != col[x]
  }

  /** The order in which the two nested loops fill the positions: position x is filled in
      pass col[x] of cycle row[x]. The g cycles are disjoint, each runs through all of its
      l passes, ending at its start nn + i, and no two positions share a pass. */
  ghost predicate IsCycleOrder(nn: nat, no: nat, g: nat, l: nat, row: seq<nat>, col: seq<nat>) {
    && |row| == |col| == nn + no && g <= no
    && (forall x :: 0 <= x < nn + no ==> row[x] < g && col[x] < l)
    && (forall x :: 0 <= x < nn + no ==> Alone(row, col, x))
    && (forall x :: nn <= x < nn + g ==> row[x] == x - nn && col[x] == l - 1)
    && (forall x {:trigger Target(nn, no, x)} :: 0 <= x < nn + no ==>
          var y := Target(nn, no, x);
          row[y] == row[x] && col[y] == if col[x] == l - 1 then 0 else col[x] + 1)
  }

  lemma QuotientBelow(x: nat, g: nat, l: nat)
    requires g > 0 && x < g * l
    ensures x / g < l
  {
  }

  lemma SameQuotientAndRemainder(x: nat, y: nat, g: nat)
    requires g > 0 && x / g == y / g && x % g == y % g
    ensures x == y
  {
  }

  /** A step keeps the remainder modulo g and steps the quotient. */
  lemma TargetByQuotient(p: nat, q: nat, g: nat, x: nat)
    requires g > 0 && p > 0 && q > 0 && x < p * g + q * g
    ensures x / g < p + q
    ensures Target(p * g, q * g, x) / g == Target(p, q, x / g)
    ensures Target(p * g, q * g, x) % g == x % g
  {
    Distribute(p, q, g);
    QuotientBelow(x, g, p + q);
    BlockBoundary(x, g, p);
    if x / g >= p {
      ShiftedQuotient(x, g, p);
    } else {
      ShiftedQuotient(x, g, q);
    }
  }

  lemma ShiftedQuotient(x: nat, g: nat, k: int)
    requires g > 0
    ensures (x + k * g) / g == x / g + k && (x + k * g) % g == x % g
    ensures (x - k * g) / g == x / g - k && (x - k * g) % g == x % g
  {
    Distribute(x / g, k, g);
    DivModUnique(x + k * g, g, x / g + k, x % g);
    DivModUnique(x - k * g, g, x / g - k, x % g);
  }

  lemma BlockBoundary(x: nat, g: nat, p: nat)
    requires g > 0
    ensures x / g >= p <==> x >= p * g
  {
    if x / g >= p {
      assert (x / g - p) * g >= 0;
      Distribute(x / g, p, g);
    } else {
      RowFits(x / g, p, g);
    }
  }

  /** The closed form of the order: cycles are the remainders modulo g. */
  ghost predicate IsTable(n: nat, p: nat, w: int, g: nat, l: nat, row: seq<nat>, col: seq<nat>)
    requires g > 0 && l > 0
  {
    && |row| == |col| == n
    && forall x :: 0 <= x < n ==> row[x] == x % g && col[x] == Pass(w, l, x / g - p)
  }

  lemma TableIsInjective(p: nat, q: nat, w: int, t: int, g: nat, x: nat, y: nat, i: nat, j: nat)
    requires g > 0 && p > 0 && q > 0 && w * q == 1 + t * (p + q)
    requires i == x / g && j == y / g && x % g == y % g && i < p + q && j < p + q
    requires Pass(w, p + q, i - p) == Pass(w, p + q, j - p)
    ensures x == y
  {
    PassSeparates(p, q, w, t, i, j);
    SameQuotientAndRemainder(x, y, g);
  }

  lemma TableSeparates(p: nat, q: nat, w: int, t: int, g: nat, x: nat, y: nat)
    requires g > 0 && p > 0 && q > 0 && w * q == 1 + t * (p + q)
    requires x < g * (p + q) && y < g * (p + q) && x % g == y % g
    requires Pass(w, p + q, x / g - p) == Pass(w, p + q, y / g - p)
    ensures x == y
  {
    var i, j := x / g, y / g;
    QuotientBelow(x, g, p + q);
    QuotientBelow(y, g, p + q);
    TableIsInjective(p, q, w, t, g, x, y, i, j);
  }

  lemma PassSeparates(p: nat, q: nat, w: int, t: int, i: nat, j: nat)
    requires p > 0 && q > 0 && w * q == 1 + t * (p + q) && i < p + q && j < p + q
    requires Pass(w, p + q, i - p) == Pass(w, p + q, j - p)
    ensures i == j
  {
    PassInjective(w, q, t, p + q, i - p, j - p);
  }

  lemma TableStarts(p: nat, w: int, g: nat, l: nat, x: nat)
    requires g > 0 && l > 0 && p * g <= x < p * g + g
    ensures x % g == x - p * g && Pass(w, l, x / g - p) == l - 1
  {
    DivModUnique(x, g, p, x - p * g);
    ZeroDistance(w, l);
  }

  lemma ZeroDistance(w: int, l: nat)
    requires l > 0
    ensures Pass(w, l, 0) == l - 1
  {
    DivModUnique(-1, l, -1, l - 1);
  }

  lemma TableSteps(p: nat, q: nat, w: int, t: int, g: nat, x: nat)
    requires g > 0 && p > 0 && q > 0 && w * q == 1 + t * (p + q)
    requires x < p * g + q * g
    ensures var y, j := Target(p * g, q * g, x), Pass(w, p + q, x / g - p);
      y % g == x % g && Pass(w, p + q, y / g - p) == if j == p + q - 1 then 0 else j + 1
  {
    TargetByQuotient(p, q, g, x);
    StepAddsOnePass(w, q, t, p + q, x / g - p, Target(p, q, x / g) - p);
  }

  lemma TableIsAlone(p: nat, q: nat, w: int, t: int, g: nat, row: seq<nat>, col: seq<nat>, x: nat)
    requires g > 0 && p > 0 && q > 0 && w * q == 1 + t * (p + q)
    requires IsTable(g * (p + q), p, w, g, p + q, row, col) && x < g * (p + q)
    ensures Alone(row, col, x)
  {
    forall y | 0 <= y < |row| && row[y] == row[x] && col[y] == col[x]
      ensures y == x
    {
      TableSeparates(p, q, w, t, g, x, y);
    }
  }

  lemma TableIsCycleOrder(p: nat, q: nat, w: int, t: int, g: nat, row: seq<nat>, col: seq<nat>)
    requires g > 0 && p > 0 && q > 0 && w * q == 1 + t * (p + q)
    requires IsTable(p * g + q * g, p, w, g, p + q, row, col)
    ensures IsCycleOrder(p * g, q * g, g, p + q, row, col)
  {
    var nn, no, n := p * g, q * g, p * g + q * g;
    assert g <= no by { MulAtLeast(q, g); }
    assert n == g * (p + q) by { Distribute(p, q, g); }
    forall x | 0 <= x < n
      ensures Alone(row, col, x)
    {
      TableIsAlone(p, q, w, t, g, row, col, x);
    }
    forall x | nn <= x < nn + g
      ensures row[x] == x - nn && col[x] == p + q - 1
    {
      TableStarts(p, w, g, p + q, x);
    }
    forall x | 0 <= x < n
      ensures var y := Target(nn, no, x);
        row[y] == row[x] && col[y] == if col[x] == p + q - 1 then 0 else col[x] + 1
    {
      TableSteps(p, q, w, t, g, x);
    }
  }

  /** The gcd-many cycles are disjoint, each has length (nn + no) / gcd, and together they
      reach every position. */
  lemma CyclesCoverEverything(nn: nat, no: nat) returns (row: seq<nat>, col: seq<nat>)
    requires nn > 0 && no > 0
    ensures var g := Gcd(nn, no);
      && Divides(g, nn + no)
      && IsCycleOrder(nn, no, g, (nn + no) / g, row, col)
  {
    var g := Gcd(nn, no);
    GcdDivides(nn, no);
    var w, t := InverseModuloSum(nn, no);
    row, col := CyclesOfMultiples(nn / g, no / g, w, t, g);
    SumOfMultiples(nn, no, g);
  }

  lemma SumOfMultiples(a: nat, b: nat, g: nat)
    requires Divides(g, a) && Divides(g, b)
    ensures (a / g) * g == a && (b / g) * g == b
    ensures Divides(g, a + b) && (a + b) / g == a / g + b / g
  {
    Distribute(a / g, b / g, g);
    MultipleIsDivisible(a / g + b / g, g);
  }

  lemma CyclesOfMultiples(p: nat, q: nat, w: int, t: int, g: nat) returns (row: seq<nat>, col: seq<nat>)
    requires g > 0 && p > 0 && q > 0 && w * q == 1 + t * (p + q)
    ensures IsCycleOrder(p * g, q * g, g, p + q, row, col)
  {
    var n := p * g + q * g;
    row := seq(n, x requires 0 <= x < n => x % g);
    col := seq(n, x requires 0 <= x < n => Pass(w, p + q, x / g - p));
    TableIsCycleOrder(p, q, w, t, g, row, col);
  }

  // ----- the program

  ghost function Exchanged<T>(a: seq<T>, s: nat, e: nat, o: nat): (r: seq<T>)
    requires s <= e <= o <= |a|
  {
    a[..s] + a[e..o] + a[s..e] + a[o..]
  }

  /** The exchange takes the element at every position of the two blocks to its target. */
  lemma ExchangeMoves<T>(a: seq<T>, s: nat, nn: nat, no: nat, pos: nat)
    requires s <= pos < s + nn + no <= |a|
    ensures Exchanged(a, s, s + nn, s + nn + no)[s + Target(nn, no, pos - s)] == a[pos]
  {
  }

  lemma ExchangeKeepsRest<T>(a: seq<T>, s: nat, e: nat, o: nat, k: nat)
    requires s <= e <= o <= |a| && k < |a| && !(s <= k < o)
    ensures Exchanged(a, s, e, o)[k] == a[k]
  {
  }

  ghost predicate FilledBefore(row: seq<nat>, col: seq<nat>, i: nat, j: nat, x: int)
    requires 0 <= x < |row| == |col|
  {
    row[x] < i || (row[x] == i && col[x] < j)
  }

  /** What the array holds at position k before pass j of cycle i: a filled position its
      element of `fin`, the start of the running cycle the element of `pos`, any other
      position its first element. */
  ghost function Held<T>(was: seq<T>, fin: seq<T>, s: nat, nn: nat, no: nat, row: seq<nat>, col: seq<nat>,
                         i: nat, j: nat, pos: nat, k: int): T
    requires s + nn + no <= |was| == |fin| && |row| == |col| == nn + no
    requires s <= pos < s + nn + no && 0 <= k < |was|
  {
    if !(s <= k < s + nn + no) then was[k]
    else if FilledBefore(row, col, i, j, k - s) then fin[k]
    else if k == s + nn + i then was[pos]
    else was[k]
  }

  ghost function State<T>(was: seq<T>, fin: seq<T>, s: nat, nn: nat, no: nat, row: seq<nat>, col: seq<nat>,
                          i: nat, j: nat, pos: nat): (now: seq<T>)
    requires s + nn + no <= |was| == |fin| && |row| == |col| == nn + no
    requires s <= pos < s + nn + no
    ensures |now| == |was|
  {
    seq(|was|, k requires 0 <= k < |was| => Held(was, fin, s, nn, no, row, col, i, j, pos, k))
  }

  /** `pos` is the position that pass j - 1 of cycle i has filled. */
  ghost predicate AtPass(s: nat, nn: nat, no: nat, row: seq<nat>, col: seq<nat>,
                         l: nat, i: nat, j: nat, pos: nat)
  {
    && |row| == |col| == nn + no && s <= pos < s + nn + no && i < no && 0 < l
    && row[pos - s] == i && col[pos - s] == (if j == 0 then l - 1 else j - 1)
  }

  lemma NextPass(s: nat, nn: nat, no: nat, g: nat, l: nat, row: seq<nat>, col: seq<nat>,
                 i: nat, j: nat, pos: nat)
    requires IsCycleOrder(nn, no, g, l, row, col) && i < g && j < l
    requires AtPass(s, nn, no, row, col, l, i, j, pos)
    ensures AtPass(s, nn, no, row, col, l, i, j + 1, s + Target(nn, no, pos - s))
  {
  }

  /** One inner pass: exchanging the next position with the cycle start. */
  lemma OnePass<T>(was: seq<T>, fin: seq<T>, s: nat, nn: nat, no: nat, g: nat, l: nat,
                   row: seq<nat>, col: seq<nat>, i: nat, j: nat, pos: nat, next: nat)
    requires s + nn + no <= |was| && fin == Exchanged(was, s, s + nn, s + nn + no)
    requires IsCycleOrder(nn, no, g, l, row, col) && i < g && j < l
    requires AtPass(s, nn, no, row, col, l, i, j, pos)
    requires next == s + Target(nn, no, pos - s)
    ensures AtPass(s, nn, no, row, col, l, i, j + 1, next)
    ensures var now := State(was, fin, s, nn, no, row, col, i, j, pos);
      now[next := now[s + nn + i]][s + nn + i := now[next]]
      == State(was, fin, s, nn, no, row, col, i, j + 1, next)
  {
    NextPass(s, nn, no, g, l, row, col, i, j, pos);
    ExchangeMoves(was, s, nn, no, pos);
    var start, now := s + nn + i, State(was, fin, s, nn, no, row, col, i, j, pos);
    var after := now[next := now[start]][start := now[next]];
    forall k | 0 <= k < |was|
      ensures after[k] == Held(was, fin, s, nn, no, row, col, i, j + 1, next, k)
    {
      if s <= k < s + nn + no && k != next {
        assert Alone(row, col, next - s);
      }
    }
  }

  /** A finished cycle leaves the array ready for the next one. */
  lemma NextCycle<T>(was: seq<T>, fin: seq<T>, s: nat, nn: nat, no: nat, g: nat, l: nat,
                     row: seq<nat>, col: seq<nat>, i: nat, pos: nat)
    requires s + nn + no <= |was| == |fin| && s <= pos < s + nn + no
    requires IsCycleOrder(nn, no, g, l, row, col) && i + 1 < g
    ensures State(was, fin, s, nn, no, row, col, i, l, pos)
         == State(was, fin, s, nn, no, row, col, i + 1, 0, s + nn + (i + 1))
  {
    forall k | 0 <= k < |was|
      ensures Held(was, fin, s, nn, no, row, col, i, l, pos, k)
           == Held(was, fin, s, nn, no, row, col, i + 1, 0, s + nn + (i + 1), k)
    {
      if s <= k < s + nn + no {
        assert row[k - s] == i ==> col[k - s] < l;
      }
    }
  }

  lemma FirstCycle<T>(was: seq<T>, fin: seq<T>, s: nat, nn: nat, no: nat, row: seq<nat>, col: seq<nat>)
    requires s + nn + no <= |was| == |fin| && |row| == |col| == nn + no && no > 0
    ensures was == State(was, fin, s, nn, no, row, col, 0, 0, s + nn)
  {
  }

  /** After the last cycle every position is filled, which is the exchange. */
  lemma AllFilled<T>(was: seq<T>, fin: seq<T>, s: nat, nn: nat, no: nat, g: nat, l: nat,
                     row: seq<nat>, col: seq<nat>, pos: nat)
    requires s <= pos < s + nn + no <= |was| && fin == Exchanged(was, s, s + nn, s + nn + no)
    requires IsCycleOrder(nn, no, g, l, row, col) && g > 0
    ensures State(was, fin, s, nn, no, row, col, g - 1, l, pos) == fin
  {
    forall k | 0 <= k < |was|
      ensures Held(was, fin, s, nn, no, row, col, g - 1, l, pos, k) == fin[k]
    {
      if s <= k < s + nn + no {
        assert row[k - s] < g && col[k - s] < l;
      } else {
        ExchangeKeepsRest(was, s, s + nn, s + nn + no, k);
      }
    }
  }

  /** The number and the size of the cycles. */
  method CountCycles(nnonopts: nat, nopts: nat)
    returns (ncycle: nat, cyclelen: nat, ghost row: seq<nat>, ghost col: seq<nat>)
    requires nnonopts > 0 && nopts > 0
    ensures ncycle > 0 && cyclelen > 0 && IsCycleOrder(nnonopts, nopts, ncycle, cyclelen, row, col)
  {
    ncycle := GcdLoop(nnonopts, nopts);
    cyclelen := (nnonopts + nopts) / ncycle;
    row, col := CyclesCoverEverything(nnonopts, nopts);
  }

  method Exchange<T>(a: array<T>, pos: nat, cstart: nat)
    requires pos < a.Length && cstart < a.Length
    modifies a
    ensures a[..] == old(a[..][pos := a[cstart]][cstart := a[pos]])
  {
    var swap := a[pos];
    a[pos] := a[cstart];
    a[cstart] := swap;
  }

  /** The body of the inner loop: the next position of the cycle gets its element. */
  method FillNext<T>(nnonopts: nat, nopts: nat, panonopt_end: nat, cstart: nat, pos: nat, nargv: array<T>,
                     ghost was: seq<T>, ghost fin: seq<T>, ghost s: nat, ghost g: nat, ghost l: nat,
                     ghost row: seq<nat>, ghost col: seq<nat>, ghost i: nat, ghost j: nat)
    returns (next: nat)
    requires s + nnonopts == panonopt_end && panonopt_end + nopts <= nargv.Length == |was|
    requires fin == Exchanged(was, s, panonopt_end, panonopt_end + nopts)
    requires IsCycleOrder(nnonopts, nopts, g, l, row, col) && i < g && j < l
    requires cstart == panonopt_end + i && AtPass(s, nnonopts, nopts, row, col, l, i, j, pos)
    requires nargv[..] == State(was, fin, s, nnonopts, nopts, row, col, i, j, pos)
    modifies nargv
    ensures AtPass(s, nnonopts, nopts, row, col, l, i, j + 1, next)
    ensures nargv[..] == State(was, fin, s, nnonopts, nopts, row, col, i, j + 1, next)
  {
    if pos >= panonopt_end {
      next := pos - nnonopts;
    } else {
      next := pos + nopts;
    }
    OnePass(was, fin, s, nnonopts, nopts, g, l, row, col, i, j, pos, next);
    Exchange(nargv, next, cstart);
  }

  /** The inner loop of `permute_args`: follow one cycle. */
  method FollowCycle<T>(nnonopts: nat, nopts: nat, panonopt_end: nat, cstart: nat, cyclelen: nat, nargv: array<T>,
                        ghost was: seq<T>, ghost fin: seq<T>, ghost s: nat, ghost g: nat,
                        ghost row: seq<nat>, ghost col: seq<nat>, ghost i: nat)
    returns (ghost last: nat)
    requires s + nnonopts == panonopt_end && panonopt_end + nopts <= nargv.Length == |was|
    requires fin == Exchanged(was, s, panonopt_end, panonopt_end + nopts)
    requires IsCycleOrder(nnonopts, nopts, g, cyclelen, row, col) && i < g && 0 < cyclelen
    requires cstart == panonopt_end + i
    requires nargv[..] == State(was, fin, s, nnonopts, nopts, row, col, i, 0, cstart)
    modifies nargv
    ensures s <= last < panonopt_end + nopts
    ensures nargv[..] == State(was, fin, s, nnonopts, nopts, row, col, i, cyclelen, last)
  {
    var pos: nat := cstart;
    var j := 0;
    while j < cyclelen
      invariant 0 <= j <= cyclelen
      invariant AtPass(s, nnonopts, nopts, row, col, cyclelen, i, j, pos)
      invariant nargv[..] == State(was, fin, s, nnonopts, nopts, row, col, i, j, pos)
    {
      pos := FillNext(nnonopts, nopts, panonopt_end, cstart, pos, nargv,
                      was, fin, s, g, cyclelen, row, col, i, j);
      j := j + 1;
    }
    last := pos;
  }

  /** The body of the outer loop: one cycle, after which the next one can begin. */
  method OneCycle<T>(nnonopts: nat, nopts: nat, panonopt_end: nat, cstart: nat, cyclelen: nat, nargv: array<T>,
                     ghost was: seq<T>, ghost fin: seq<T>, ghost s: nat, ghost g: nat,
                     ghost row: seq<nat>, ghost col: seq<nat>, ghost i: nat)
    requires s + nnonopts == panonopt_end && panonopt_end + nopts <= nargv.Length == |was|
    requires fin == Exchanged(was, s, panonopt_end, panonopt_end + nopts)
    requires IsCycleOrder(nnonopts, nopts, g, cyclelen, row, col) && i < g && 0 < cyclelen
    requires cstart == panonopt_end + i
    requires nargv[..] == State(was, fin, s, nnonopts, nopts, row, col, i, 0, cstart)
    modifies nargv
    ensures i + 1 < g ==> nargv[..] == State(was, fin, s, nnonopts, nopts, row, col, i + 1, 0, cstart + 1)
    ensures i + 1 == g ==> nargv[..] == fin
  {
    var last := FollowCycle(nnonopts, nopts, panonopt_end, cstart, cyclelen, nargv, was, fin, s, g, row, col, i);
    if i + 1 < g {
      NextCycle(was, fin, s, nnonopts, nopts, g, cyclelen, row, col, i, last);
    } else {
      AllFilled(was, fin, s, nnonopts, nopts, g, cyclelen, row, col, last);
    }
  }

  /** `permute_args`: one cycle after the other. */
  method PermuteArgs<T>(panonopt_start: nat, panonopt_end: nat, opt_end: nat, nargv: array<T>)
    requires panonopt_start < panonopt_end < opt_end <= nargv.Length
    modifies nargv
    ensures nargv[..] == old(Exchanged(nargv[..], panonopt_start, panonopt_end, opt_end))
  {
    var nnonopts: nat := panonopt_end - panonopt_start;
    var nopts: nat := opt_end - panonopt_end;
    var ncycle, cyclelen, row, col := CountCycles(nnonopts, nopts);

    ghost var s, was := panonopt_start, nargv[..];
    ghost var fin := Exchanged(was, s, panonopt_end, opt_end);
    FirstCycle(was, fin, s, nnonopts, nopts, row, col);
    var i := 0;
    while i < ncycle
      invariant 0 <= i <= ncycle
      invariant i < ncycle ==> nargv[..] == State(was, fin, s, nnonopts, nopts, row, col, i, 0, panonopt_end + i)
      invariant i == ncycle ==> nargv[..] == fin
    {
      OneCycle(nnonopts, nopts, panonopt_end, panonopt_end + i, cyclelen, nargv, was, fin, s, ncycle, row, col, i);
      i := i + 1;
    }
  }
}
