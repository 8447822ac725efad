/** filosof.cpp: dining philosophers over semaphores that are pipes, for any number n >= 2.
    A step is one completed read from or write to a pipe; philosophers interleave freely. */
module Philosophers {

  /** Where a philosopher is in its endless loop: before pick_up, between its two waits,
      after pick_up, and between the two signals of put_down. */
  datatype Phase = Thinking | HasFirst | Eating | HasRight

  /** tokens[c] is the number of bytes in the pipe of chopstick c. */
  datatype State = State(tokens: seq<nat>, phase: seq<Phase>)

  function Left(p: nat): nat { p }

  function Right(n: nat, p: nat): (c: nat)
    requires p < n
    ensures c < n
  {
    if p + 1 == n then 0 else p + 1
  }

  /** The macro of the source. */
  lemma RightIsModulo(n: nat, p: nat)
    requires p < n
    ensures Right(n, p) == (p + 1) % n
  {
    if p + 1 == n {
      assert n % n == 0;
    }
  }

  /** The philosopher to whom chopstick c is the right one. */
  function LeftNeighbour(n: nat, c: nat): (p: nat)
    requires c < n
    ensures p < n && Right(n, p) == c
  {
    if c == 0 then n - 1 else c - 1
  }

  /** Philosopher 0 waits for its right chopstick first, all others for their left one. */
  function First(n: nat, p: nat): (c: nat)
    requires p < n
    ensures c < n
  {
    if p == 0 then Right(n, p) else Left(p)
  }

  function Second(n: nat, p: nat): (c: nat)
    requires p < n
    ensures c < n
  {
    if p == 0 then Left(p) else Right(n, p)
  }

  // ----- the protocol

  ghost predicate WellFormed(n: nat, s: State) {
    n >= 2 && |s.tokens| == n && |s.phase| == n
  }

  /** main: every chopstick is signalled once before the philosophers start. */
  function Initial(n: nat): State {
    State(seq(n, _ => 1), seq(n, _ => Thinking))
  }

  /** waitsema blocks while the pipe is empty. */
  predicate Enabled(n: nat, s: State, p: nat)
    requires WellFormed(n, s) && p < n
  {
    match s.phase[p]
    case Thinking => s.tokens[First(n, p)] > 0
    case HasFirst => s.tokens[Second(n, p)] > 0
    case Eating => true
    case HasRight => true
  }

  function WaitSema(s: State, c: nat): State
    requires c < |s.tokens| && s.tokens[c] > 0
  {
    s.(tokens := s.tokens[c := s.tokens[c] - 1])
  }

  function Signal(s: State, c: nat): State
    requires c < |s.tokens|
  {
    s.(tokens := s.tokens[c := s.tokens[c] + 1])
  }

  function Become(s: State, p: nat, phase: Phase): State
    requires p < |s.phase|
  {
    s.(phase := s.phase[p := phase])
  }

  /** The next step of philosopher p: pick_up takes two, put_down two. */
  function Next(n: nat, s: State, p: nat): State
    requires WellFormed(n, s) && p < n && Enabled(n, s, p)
  {
    match s.phase[p]
    case Thinking => Become(WaitSema(s, First(n, p)), p, HasFirst)
    case HasFirst => Become(WaitSema(s, Second(n, p)), p, Eating)
    case Eating => Become(Signal(s, Left(p)), p, HasRight)
    case HasRight => Become(Signal(s, Right(n, p)), p, Thinking)
  }

  /** ss are the states of a run in which philosopher who[i] makes step i. */
  ghost predicate IsRun(n: nat, ss: seq<State>, who: seq<nat>) {
    && |ss| == |who| + 1
    && (forall i :: 0 <= i < |ss| ==> WellFormed(n, ss[i]))
    && (forall i :: 0 <= i < |who| ==>
          who[i] < n && Enabled(n, ss[i], who[i]) && ss[i + 1] == Next(n, ss[i], who[i]))
  }

  ghost predicate Reachable(n: nat, s: State) {
    exists ss, who :: IsRun(n, ss, who) && ss[0] == Initial(n) && ss[|ss| - 1] == s
  }

  // ----- every chopstick is in its pipe or in one hand

  predicate HoldsLeft(p: nat, phase: Phase) {
    phase == Eating || (phase == HasFirst && p != 0)
  }

  predicate HoldsRight(p: nat, phase: Phase) {
    phase == Eating || phase == HasRight || (phase == HasFirst && p == 0)
  }

  function Holders(n: nat, s: State, c: nat): nat
    requires WellFormed(n, s) && c < n
  {
    var q := LeftNeighbour(n, c);
    (if HoldsLeft(c, s.phase[c]) then 1 else 0) + (if HoldsRight(q, s.phase[q]) then 1 else 0)
  }

  ghost predicate Inv(n: nat, s: State) {
    && WellFormed(n, s)
    && forall c :: 0 <= c < n ==> s.tokens[c] + Holders(n, s, c) == 1
  }

  lemma StepKeepsInv(n: nat, s: State, p: nat)
    requires Inv(n, s) && p < n && Enabled(n, s, p)
    ensures Inv(n, Next(n, s, p))
  {
    var s' := Next(n, s, p);
    forall c | 0 <= c < n
      ensures s'.tokens[c] + Holders(n, s', c) == 1
    {
      assert s.tokens[c] + Holders(n, s, c) == 1;
      if LeftNeighbour(n, c) == p {
        assert c == Right(n, p);
      }
    }
  }

  lemma {:induction false} RunKeepsInv(n: nat, ss: seq<State>, who: seq<nat>, i: nat)
    requires IsRun(n, ss, who) && ss[0] == Initial(n) && i < |ss|
    ensures Inv(n, ss[i])
    decreases i
  {
    if i > 0 {
      RunKeepsInv(n, ss, who, i - 1);
      StepKeepsInv(n, ss[i - 1], who[i - 1]);
      assert ss[i - 1 + 1] == Next(n, ss[i - 1], who[i - 1]);
    }
  }

  /** In every reachable state each chopstick's tokens and holders add up to exactly one. */
  lemma ReachableInv(n: nat, s: State)
    requires Reachable(n, s)
    ensures Inv(n, s)
  {
    var ss, who :| IsRun(n, ss, who) && ss[0] == Initial(n) && ss[|ss| - 1] == s;
    RunKeepsInv(n, ss, who, |ss| - 1);
  }

  /** Neighbours never eat at the same time. */
  lemma NeighboursNeverEat(n: nat, s: State, p: nat)
    requires Reachable(n, s) && p < n
    ensures WellFormed(n, s) && !(s.phase[p] == Eating && s.phase[Right(n, p)] == Eating)
  {
    ReachableInv(n, s);
    var c := Right(n, p);
    assert s.tokens[c] + Holders(n, s, c) == 1;
    assert LeftNeighbour(n, c) == p;
  }

  /** A philosopher that is not at its second wait or behind it needs the chopstick that it waits
      for, and gets it exactly if the neighbour who shares that does not have it. Philosopher 0
      takes the chopstick on its right, number 1, first; all others take their own number first. */
  lemma WaitsForNeighbour(n: nat, s: State, p: nat)
    requires Reachable(n, s) && p < n
    ensures WellFormed(n, s)
    ensures var left, right := if p == 0 then n - 1 else p - 1, (p + 1) % n;
      // the chopstick on the left is the right one of the left neighbour, who may be number 0
      var leftTaken := s.phase[left] in {Eating, HasRight} || (left == 0 && s.phase[left] == HasFirst);
      // the chopstick on the right is the left one of the right neighbour
      var rightTaken := s.phase[right] == Eating || (right != 0 && s.phase[right] == HasFirst);
      Enabled(n, s, p) <==>
        match s.phase[p]
        case Thinking => if p == 0 then !rightTaken else !leftTaken
        case HasFirst => if p == 0 then !leftTaken else !rightTaken
        case _ => true
  {
    ReachableInv(n, s);
    RightIsModulo(n, p);
    var c, d := p, Right(n, p);
    assert s.tokens[c] + Holders(n, s, c) == 1;
    assert s.tokens[d] + Holders(n, s, d) == 1;
    assert LeftNeighbour(n, d) == p;
  }

  /** The four steps of a philosopher whose neighbours do nothing, pipe by pipe: pick_up takes the
      two chopsticks in its order, put_down puts back the left one, p, and then the right one. */
  lemma OneMeal(n: nat, p: nat)
    requires n >= 2 && p < n
    ensures var right, s := (p + 1) % n, Initial(n);
      var first, second := if p == 0 then right else p, if p == 0 then p else right;
      && Enabled(n, s, p)
      && var s1 := Next(n, s, p);
      && s1.tokens == s.tokens[first := 0] && Enabled(n, s1, p)
      && var s2 := Next(n, s1, p);
      && s2.tokens == s1.tokens[second := 0] && s2.phase == s.phase[p := Eating] && Enabled(n, s2, p)
      && var s3 := Next(n, s2, p);
      && s3.tokens == s2.tokens[p := 1] && Enabled(n, s3, p)
      && Next(n, s3, p) == s
  {
    RightIsModulo(n, p);
    var s := Initial(n);
    assert s.tokens[p] == 1 && s.tokens[Right(n, p)] == 1;
    var s1 := Next(n, s, p);
    var s2 := Next(n, s1, p);
    var s3 := Next(n, s2, p);
    var s4 := Next(n, s3, p);
    assert s2.phase == s.phase[p := Eating];
    assert s4.tokens == s.tokens && s4.phase == s.phase;
  }

  /** The pipes are determined by the phases, so a philosopher that is back where it was has
      put back exactly what it took. */
  lemma PutDownRestoresPickUp(n: nat, s: State, t: State)
    requires Reachable(n, s) && Reachable(n, t) && s.phase == t.phase
    ensures s.tokens == t.tokens
  {
    ReachableInv(n, s);
    ReachableInv(n, t);
    forall c | 0 <= c < n
      ensures s.tokens[c] == t.tokens[c]
    {
      assert s.tokens[c] + Holders(n, s, c) == 1 == t.tokens[c] + Holders(n, t, c);
    }
  }

  // ----- no deadlock

  /** The total order of chopsticks 1, 2, ..., n - 1, 0. */
  function Rank(n: nat, c: nat): nat
    requires c < n
  {
    if c == 0 then n else c
  }

  lemma AcquisitionsIncrease(n: nat, p: nat)
    requires n >= 2 && p < n
    ensures Rank(n, First(n, p)) < Rank(n, Second(n, p))
  {
  }

  /** Behind an empty pipe there is a philosopher that can make a step. */
  lemma {:induction false} SomeoneBehind(n: nat, s: State, c: nat) returns (p: nat)
    requires Inv(n, s) && c < n && s.tokens[c] == 0
    ensures p < n && Enabled(n, s, p)
    decreases n - Rank(n, c)
  {
    assert s.tokens[c] + Holders(n, s, c) == 1;
    p := if HoldsLeft(c, s.phase[c]) then c else LeftNeighbour(n, c);
    if !Enabled(n, s, p) {
      assert s.phase[p] == HasFirst && First(n, p) == c;
      AcquisitionsIncrease(n, p);
      p := SomeoneBehind(n, s, Second(n, p));
    }
  }

  /** No reachable state is deadlocked. */
  lemma NoDeadlock(n: nat, s: State)
    requires Reachable(n, s)
    ensures WellFormed(n, s) && exists p: nat :: p < n && Enabled(n, s, p)
  {
    ReachableInv(n, s);
    if !Enabled(n, s, 0) {
      var p := SomeoneBehind(n, s, if s.phase[0] == Thinking then First(n, 0) else Second(n, 0));
    }
  }

  // ----- meals go on

  /** How many steps a philosopher can make before it needs another meal. */
  function Weight(phase: Phase): nat {
    match phase
    case Thinking => 1
    case HasFirst => 0
    case Eating => 3
    case HasRight => 2
  }

  function TotalWeight(phase: seq<Phase>): nat {
    if phase == [] then 0 else Weight(phase[0]) + TotalWeight(phase[1..])
  }

  lemma {:induction false} TotalWeightUpdate(phase: seq<Phase>, p: nat, x: Phase)
    requires p < |phase|
    ensures TotalWeight(phase[p := x]) + Weight(phase[p]) == TotalWeight(phase) + Weight(x)
  {
    if p == 0 {
      assert phase[0 := x][1..] == phase[1..];
    } else {
      TotalWeightUpdate(phase[1..], p - 1, x);
      assert phase[p := x][1..] == phase[1..][p - 1 := x];
    }
  }

  lemma {:induction false} TotalWeightBound(phase: seq<Phase>)
    ensures TotalWeight(phase) <= 3 * |phase|
  {
    if phase != [] {
      TotalWeightBound(phase[1..]);
    }
  }

  /** The number of steps of a run with which a philosopher starts to eat. */
  function Meals(ss: seq<State>, who: seq<nat>): nat
    requires |ss| == |who| + 1
    requires forall i :: 0 <= i < |who| ==> who[i] < |ss[i].phase|
  {
    if who == [] then 0
    else (if ss[0].phase[who[0]] == HasFirst then 1 else 0) + Meals(ss[1..], who[1..])
  }

  /** Conservation: every meal pays for exactly four steps. */
  lemma {:induction false} StepsAndMeals(n: nat, ss: seq<State>, who: seq<nat>)
    requires IsRun(n, ss, who)
    ensures |who| + TotalWeight(ss[|who|].phase) == TotalWeight(ss[0].phase) + 4 * Meals(ss, who)
    decreases |who|
  {
    if who != [] {
      var p := who[0];
      assert ss[0 + 1] == Next(n, ss[0], p);
      TotalWeightUpdate(ss[0].phase, p, ss[1].phase[p]);
      StepsAndMeals(n, ss[1..], who[1..]);
      assert ss[1..][|who[1..]|] == ss[|who|];
    }
  }

  /** Any run of more than 3 n steps, from any state, contains a new meal; a run of k steps
      contains at least (k - 3 n) / 4. */
  lemma MealsGoOn(n: nat, ss: seq<State>, who: seq<nat>)
    requires IsRun(n, ss, who)
    ensures |who| <= 3 * n + 4 * Meals(ss, who)
  {
    StepsAndMeals(n, ss, who);
    TotalWeightBound(ss[0].phase);
  }

  /** A run from the initial state can always go on, and so reach any number of meals. */
  lemma {:induction false} RunsReachMeals(n: nat, ss: seq<State>, who: seq<nat>, meals: nat, left: nat)
    returns (ss': seq<State>, who': seq<nat>)
    requires IsRun(n, ss, who) && ss[0] == Initial(n)
    requires |who| + left == 3 * n + 4 * meals
    ensures IsRun(n, ss', who') && ss <= ss' && who <= who'
    ensures Meals(ss', who') >= meals
    decreases left
  {
    if left == 0 {
      MealsGoOn(n, ss, who);
      ss', who' := ss, who;
    } else {
      var s := ss[|who|];
      assert Reachable(n, s);
      NoDeadlock(n, s);
      var p: nat :| p < n && Enabled(n, s, p);
      ss', who' := RunsReachMeals(n, ss + [Next(n, s, p)], who + [p], meals, left - 1);
    }
  }
}
