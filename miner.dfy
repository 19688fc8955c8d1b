/**
 * `Utils.rulesFor`: the greedy miner that covers the 1-cells of an
 * indicator array with arithmetic progressions. Each round it tries every
 * seed still left to cover against every other 1-cell as partner, grows
 * the progression through the seed with step `|partner - seed|` as far as
 * it stays on 1-cells in both directions, scores it by how many of its
 * cells are still left, emits the best one and strikes its cells off.
 * The Java code enumerates `HashSet`s; here an element is picked with
 * `:|`, so every enumeration order is allowed and so is every tie-break.
 */
module Miner {
  import opened Rules
  import Arith

  /** Java's `allOnes`: the indices whose cell holds 1. */
  function OnesOf(s: seq<int>): set<int>
  {
    set i | 0 <= i < |s| && s[i] == 1
  }

  /** `Math.abs(b - a)`: the step a seed and a partner give. */
  function StepBetween(a: int, b: int): int
  {
    if b > a then b - a else a - b
  }

  /** A step down onto a cell of `A` leaves fewer cells of `A` below: the downward walk terminates. */
  lemma BelowShrinks(A: set<int>, x: int, d: int)
    requires d > 0 && x - d in A
    ensures (set y | y in A && y < x - d) < (set y | y in A && y < x)
  {
    var below, belowNext := set y | y in A && y < x, set y | y in A && y < x - d;
    assert belowNext <= below;
    assert x - d in below && x - d !in belowNext;
  }

  /** A step up onto a cell of `A` leaves fewer cells of `A` above: the upward walk terminates. */
  lemma AboveShrinks(A: set<int>, x: int, d: int)
    requires d > 0 && x + d in A
    ensures (set y | y in A && y > x + d) < (set y | y in A && y > x)
  {
    var above, aboveNext := set y | y in A && y > x, set y | y in A && y > x + d;
    assert aboveNext <= above;
    assert x + d in above && x + d !in aboveNext;
  }

  /** Where the downward `while` loop stops: the progression through `x` runs down while it stays in `A`. */
  ghost function Down(A: set<int>, x: int, d: int): int
    requires d > 0
    decreases set y | y in A && y < x
  {
    if x - d in A then
      BelowShrinks(A, x, d);
      Down(A, x - d, d)
    else x
  }

  /** Where the upward `while` loop stops. */
  ghost function Up(A: set<int>, x: int, d: int): int
    requires d > 0
    decreases set y | y in A && y > x
  {
    if x + d in A then
      AboveShrinks(A, x, d);
      Up(A, x + d, d)
    else x
  }

  /** The rule a seed `a` and a partner `b` propose: the longest progression through `a` with step `|b - a|` inside `A`. */
  ghost function Candidate(A: set<int>, a: int, b: int): (r: RuleValue)
    requires a != b
    ensures r.step > 0
  {
    var d := StepBetween(a, b);
    RuleValue(Down(A, a, d), Up(A, a, d), d)
  }

  /** How many of a rule's indices are still left to cover. */
  ghost function Score(left: set<int>, r: RuleValue): int
    requires r.step > 0
  {
    |Covers(r) * left|
  }

  ghost function ScoreOf(A: set<int>, left: set<int>, a: int, b: int): int
    requires a != b
  {
    Score(left, Candidate(A, a, b))
  }

  /** Seed `a` with partner `b` scores at least as well as every seed-partner pair of the round. */
  ghost predicate Best(A: set<int>, left: set<int>, a: int, b: int)
  {
    a in left && b in A && b != a &&
    forall a', b' :: a' in left && b' in A && b' != a' ==> ScoreOf(A, left, a', b') <= ScoreOf(A, left, a, b)
  }

  /**
   * One round of the main loop: with `left` still to cover, the seed and
   * partner of the winning pair, and the rule they proposed.
   */
  datatype Choice = Choice(left: set<int>, seed: int, partner: int, rule: RuleValue)

  /**
   * Round `c` emitted a well-formed progression inside `A` through its
   * seed, which was still left, and striking the rule off leaves `next`.
   */
  ghost predicate Round(A: set<int>, c: Choice, next: set<int>)
  {
    c.seed in c.left && WellFormed(c.rule) && c.seed in Covers(c.rule) && Covers(c.rule) <= A &&
    next == c.left - Covers(c.rule)
  }

  /** Round `c` took a best seed-partner pair of its round and emitted the rule that pair proposes. */
  ghost predicate Chosen(A: set<int>, c: Choice)
  {
    Best(A, c.left, c.seed, c.partner) && c.rule == Candidate(A, c.seed, c.partner)
  }

  /** What round `k` left over: the next round's start, or `left` after the last one. */
  ghost function After(trace: seq<Choice>, k: int, left: set<int>): set<int>
    requires 0 <= k < |trace|
  {
    if k + 1 < |trace| then trace[k + 1].left else left
  }

  /**
   * The rounds so far, in order: the first starts from all of `A`, each
   * starts from what the previous one left, and `left` is what the last
   * one left over.
   */
  ghost predicate GreedyProgress(A: set<int>, trace: seq<Choice>, left: set<int>)
    decreases |trace|
  {
    if trace == [] then left == A
    else
      var n := |trace| - 1;
      GreedyProgress(A, trace[..n], trace[n].left) && Round(A, trace[n], left)
  }

  /** Every round chose a best pair and emitted its candidate. */
  ghost predicate AllChosen(A: set<int>, trace: seq<Choice>)
  {
    forall k :: 0 <= k < |trace| ==> Chosen(A, trace[k])
  }

  /** A finished greedy run: best pairs were chosen until nothing was left. */
  ghost predicate GreedyRun(A: set<int>, trace: seq<Choice>)
  {
    GreedyProgress(A, trace, {}) && AllChosen(A, trace)
  }

  /** The indices the rules of the rounds cover together (a rule whose step is not positive, which no round emits, counts as covering nothing). */
  ghost function Covered(trace: seq<Choice>): set<int>
  {
    if trace == [] then {}
    else
      var r := trace[|trace| - 1].rule;
      Covered(trace[..|trace| - 1]) + if r.step > 0 then Covers(r) else {}
  }

  /** The downward walk from `x` ends a whole number of steps below it, on a cell whose predecessor is not in `A`. */
  lemma {:induction false} DownShape(A: set<int>, x: int, d: int)
    requires d > 0 && x in A
    ensures Down(A, x, d) <= x && (x - Down(A, x, d)) % d == 0
    ensures Members(Down(A, x, d), x, d) <= A && Down(A, x, d) - d !in A
    decreases set y | y in A && y < x
  {
    if x - d in A {
      var lo := Down(A, x - d, d);
      BelowShrinks(A, x, d);
      DownShape(A, x - d, d);
      Arith.ModShift(x - d - lo, d);
      MembersExtend(lo, x - d, d);
    } else {
      assert Members(x, x, d) == {x} + Members(x + d, x, d);
    }
  }

  /** The upward walk from `x` keeps a progression from `lo` inside `A` and stops below a cell not in `A`. */
  lemma {:induction false} UpShape(A: set<int>, lo: int, x: int, d: int)
    requires d > 0 && lo <= x && (x - lo) % d == 0 && Members(lo, x, d) <= A
    ensures x <= Up(A, x, d) && (Up(A, x, d) - lo) % d == 0
    ensures Members(lo, Up(A, x, d), d) <= A && Up(A, x, d) + d !in A
    decreases set y | y in A && y > x
  {
    if x + d in A {
      AboveShrinks(A, x, d);
      MembersExtend(lo, x, d);
      Arith.ModShift(x - lo, d);
      UpShape(A, lo, x + d, d);
    }
  }

  /**
   * What a seed in `A` proposes is a well-formed rule through the seed,
   * inside `A`, that cannot be extended by a step at either end.
   */
  lemma CandidateShape(A: set<int>, a: int, b: int)
    requires a in A && a != b
    ensures var r := Candidate(A, a, b);
      WellFormed(r) && a in Covers(r) && Covers(r) <= A &&
      r.start - r.step !in A && r.end + r.step !in A
  {
    var d := StepBetween(a, b);
    DownShape(A, a, d);
    var lo := Down(A, a, d);
    UpShape(A, lo, a, d);
    MembersIff(lo, Up(A, a, d), d, a);
  }

  /** Adding an index to a set of indices raises its overlap with `left` by one exactly when the index is left. */
  lemma CountInsert(x: int, M: set<int>, left: set<int>)
    requires x !in M
    ensures |({x} + M) * left| == |M * left| + (if x in left then 1 else 0)
  {
    if x in left {
      assert ({x} + M) * left == (M * left) + {x};
    } else {
      assert ({x} + M) * left == M * left;
    }
  }

  /** Extending a progression one step down adds one to its count exactly when the new index is left. */
  lemma CountBelow(lo: int, hi: int, d: int, left: set<int>)
    requires d > 0 && lo <= hi && (hi - lo) % d == 0
    ensures (hi - (lo - d)) % d == 0
    ensures |Members(lo - d, hi, d) * left| == |Members(lo, hi, d) * left| + (if lo - d in left then 1 else 0)
  {
    Arith.ModShift(hi - lo, d);
    MembersIff(lo, hi, d, lo - d);
    assert Members(lo - d, hi, d) == {lo - d} + Members(lo, hi, d);
    CountInsert(lo - d, Members(lo, hi, d), left);
  }

  /** Extending a progression one step up adds one to its count exactly when the new index is left. */
  lemma CountAbove(lo: int, hi: int, d: int, left: set<int>)
    requires d > 0 && lo <= hi && (hi - lo) % d == 0
    ensures (hi + d - lo) % d == 0
    ensures |Members(lo, hi + d, d) * left| == |Members(lo, hi, d) * left| + (if hi + d in left then 1 else 0)
  {
    Arith.ModShift(hi - lo, d);
    MembersExtend(lo, hi, d);
    MembersIff(lo, hi, d, hi + d);
    assert Members(lo, hi + d, d) == {hi + d} + Members(lo, hi, d);
    CountInsert(hi + d, Members(lo, hi, d), left);
  }

  lemma SubsetCardinality(s: set<int>, t: set<int>)
    requires s <= t
    ensures |s| <= |t|
  {
    assert t == s + (t - s);
    assert s * (t - s) == {};
  }

  /** A non-empty set has an element: what every `:|` pick from a set relies on. */
  lemma HasElement(s: set<int>)
    requires s != {}
    ensures exists x :: x in s
  {
    if forall x :: x !in s {
      assert false;
    }
  }

  /** A set of at least two indices has an element other than any given one. */
  lemma OtherElement(A: set<int>, a: int) returns (b: int)
    requires |A| >= 2
    ensures b in A && b != a
  {
    if forall y :: y in A ==> y == a {
      assert A <= {a};
      SubsetCardinality(A, {a});
    }
    b :| b in A && b != a;
  }

  /** Java's first loop: the set of indices whose cell holds 1. */
  method CollectOnes(positions: array<int>) returns (allOnes: set<int>)
    ensures allOnes == OnesOf(positions[..])
    ensures forall i :: i in allOnes <==> 0 <= i < positions.Length && positions[i] == 1
  {
    allOnes := {};
    for i := 0 to positions.Length
      invariant allOnes == set j | 0 <= j < i && positions[j] == 1
    {
      if positions[i] == 1 {
        allOnes := allOnes + {i};
      }
    }
  }

  /** The first `while (true)` loop: walk down from the seed `a` by `d` while the cells hold 1, counting the cells still left. */
  method WalkDown(allOnes: set<int>, left: set<int>, a: int, d: int) returns (low: int, removeTotal: int)
    requires d > 0 && a in left && left <= allOnes
    ensures low == Down(allOnes, a, d) && low <= a && (a - low) % d == 0
    ensures removeTotal == |Members(low, a, d) * left|
  {
    low, removeTotal := a, 1;
    assert Members(a, a, d) == {a} + Members(a + d, a, d) == {a};
    assert Members(a, a, d) * left == {a};
    while low - d in allOnes
      invariant low <= a && (a - low) % d == 0
      invariant Down(allOnes, low, d) == Down(allOnes, a, d)
      invariant removeTotal == |Members(low, a, d) * left|
      decreases set y | y in allOnes && y < low
    {
      BelowShrinks(allOnes, low, d);
      CountBelow(low, a, d, left);
      low := low - d;
      if low in left {
        removeTotal := removeTotal + 1;
      }
    }
  }

  /** The second `while (true)` loop: walk up from `a`, adding the cells still left to the count of the chain from `low`. */
  method WalkUp(allOnes: set<int>, left: set<int>, low: int, a: int, d: int, count: int) returns (high: int, removeTotal: int)
    requires d > 0 && low <= a && (a - low) % d == 0 && count == |Members(low, a, d) * left|
    ensures high == Up(allOnes, a, d)
    ensures removeTotal == |Members(low, high, d) * left|
  {
    high, removeTotal := a, count;
    while high + d in allOnes
      invariant a <= high && (high - low) % d == 0
      invariant Up(allOnes, high, d) == Up(allOnes, a, d)
      invariant removeTotal == |Members(low, high, d) * left|
      decreases set y | y in allOnes && y > high
    {
      AboveShrinks(allOnes, high, d);
      CountAbove(low, high, d, left);
      high := high + d;
      if high in left {
        removeTotal := removeTotal + 1;
      }
    }
  }

  /**
   * The two `while (true)` loops of one seed-partner pair: the chain of
   * step `d` through the seed `a` as far as the cells hold 1 either way,
   * and how many of its cells are still left to cover.
   */
  method GrowChain(allOnes: set<int>, left: set<int>, a: int, d: int) returns (low: int, high: int, removeTotal: int)
    requires d > 0 && a in left && left <= allOnes
    ensures low == Down(allOnes, a, d) && high == Up(allOnes, a, d)
    ensures removeTotal == |Members(low, high, d) * left|
  {
    var below;
    low, below := WalkDown(allOnes, left, a, d);
    high, removeTotal := WalkUp(allOnes, left, low, a, d, below);
  }

  /**
   * One round's nested `for` loops: every seed still left against every
   * other 1-cell, keeping the strictly best score. The seed and partner of
   * the winner are returned as ghosts, for the contract only.
   */
  method BestCandidate(allOnes: set<int>, left: set<int>)
    returns (low: int, high: int, d: int, removeTotal: int, ghost seed: int, ghost partner: int)
    requires left <= allOnes && left != {} && |allOnes| >= 2
    ensures Best(allOnes, left, seed, partner)
    ensures RuleValue(low, high, d) == Candidate(allOnes, seed, partner)
    ensures removeTotal == ScoreOf(allOnes, left, seed, partner) >= 1
  {
    low, high, d, removeTotal := -1, -1, -1, -1;
    seed, partner := 0, 0;
    var seeds := left;
    while seeds != {}
      invariant seeds <= left
      invariant removeTotal == -1 ==> seeds == left
      invariant removeTotal != -1 ==>
        seed in left && partner in allOnes && partner != seed && removeTotal >= 1 &&
        RuleValue(low, high, d) == Candidate(allOnes, seed, partner) &&
        removeTotal == ScoreOf(allOnes, left, seed, partner)
      invariant forall a', b' :: a' in left - seeds && b' in allOnes && b' != a' ==> ScoreOf(allOnes, left, a', b') <= removeTotal
      decreases seeds
    {
      HasElement(seeds);
      var a :| a in seeds;
      ghost var other := OtherElement(allOnes, a);
      var partners := allOnes;
      while partners != {}
        invariant partners <= allOnes
        invariant removeTotal == -1 ==> seeds == left && other in partners
        invariant removeTotal != -1 ==>
          seed in left && partner in allOnes && partner != seed && removeTotal >= 1 &&
          RuleValue(low, high, d) == Candidate(allOnes, seed, partner) &&
          removeTotal == ScoreOf(allOnes, left, seed, partner)
        invariant forall a', b' :: a' in left - seeds && b' in allOnes && b' != a' ==> ScoreOf(allOnes, left, a', b') <= removeTotal
        invariant forall b' :: b' in allOnes - partners && b' != a ==> ScoreOf(allOnes, left, a, b') <= removeTotal
        decreases partners
      {
        HasElement(partners);
        var b :| b in partners;
        partners := partners - {b};
        if b != a {
          var d2 := StepBetween(a, b);
          var low2, high2, removeTotal2 := GrowChain(allOnes, left, a, d2);
          CandidateShape(allOnes, a, b);
          assert a in Covers(Candidate(allOnes, a, b)) * left;
          if removeTotal2 > removeTotal {
            low, high, removeTotal, d := low2, high2, removeTotal2, d2;
            seed, partner := a, b;
          }
        }
      }
      seeds := seeds - {a};
    }
  }

  /** Java's last `for` loop: strike the progression `low, low + d, ..., high` off the cells left. */
  method RemoveChain(left: set<int>, low: int, high: int, d: int) returns (rest: set<int>)
    requires d > 0
    ensures rest == left - Members(low, high, d)
  {
    rest := left;
    var i := low;
    while i <= high
      invariant rest - Members(i, high, d) == left - Members(low, high, d)
      decreases high - i
    {
      assert Members(i, high, d) == {i} + Members(i + d, high, d);
      rest := rest - {i};
      i := i + d;
    }
  }

  /** A round strictly shrinks what is left: at least its seed goes. */
  lemma RoundShrinks(A: set<int>, c: Choice, next: set<int>)
    requires Round(A, c, next)
    ensures next < c.left && |next| < |c.left|
  {
    assert next + {c.seed} <= c.left;
    SubsetCardinality(next + {c.seed}, c.left);
  }

  /** A round that starts from what the run left over extends it by one. */
  lemma GreedyStep(A: set<int>, trace: seq<Choice>, left: set<int>, c: Choice, rest: set<int>)
    requires GreedyProgress(A, trace, left)
    requires c.left == left && Round(A, c, rest)
    ensures GreedyProgress(A, trace + [c], rest)
  {
    assert (trace + [c])[..|trace|] == trace;
  }

  /** A chosen round appended to chosen rounds. */
  lemma AllChosenStep(A: set<int>, trace: seq<Choice>, c: Choice)
    requires AllChosen(A, trace) && Chosen(A, c)
    ensures AllChosen(A, trace + [c])
  {
    var trace' := trace + [c];
    forall k | 0 <= k < |trace'|
      ensures Chosen(A, trace'[k])
    {
      if k < |trace| {
        assert trace'[k] == trace[k];
      }
    }
  }

  /**
   * After any number of rounds, what is left is exactly what the rules so
   * far do not cover, and each round has removed at least one index, so
   * there have been at most `|A|` rounds.
   */
  lemma {:induction false} GreedyInvariant(A: set<int>, trace: seq<Choice>, left: set<int>)
    requires GreedyProgress(A, trace, left)
    ensures Covered(trace) <= A && left == A - Covered(trace)
    ensures |left| + |trace| <= |A|
    decreases |trace|
  {
    if trace != [] {
      var n := |trace| - 1;
      var c := trace[n];
      GreedyInvariant(A, trace[..n], c.left);
      RoundShrinks(A, c, left);
      var before, covers := Covered(trace[..n]), Covers(c.rule);
      assert Covered(trace) == before + covers;
      StrikeOff(A, before, covers, c.left, left);
    }
  }

  /** Striking `covers` off what `before` left of `A` leaves what `before + covers` leaves. */
  lemma StrikeOff(A: set<int>, before: set<int>, covers: set<int>, round: set<int>, next: set<int>)
    requires round == A - before && next == round - covers && before <= A && covers <= A
    ensures next == A - (before + covers) && before + covers <= A
  {
  }

  /** Round `k` of a run starts inside `A` and is a round: it emits a well-formed rule inside `A` and leaves what round `k + 1` starts from. */
  lemma {:induction false} RoundAt(A: set<int>, trace: seq<Choice>, left: set<int>, k: int)
    requires GreedyProgress(A, trace, left) && 0 <= k < |trace|
    ensures trace[k].left <= A && Round(A, trace[k], After(trace, k, left))
    decreases |trace|
  {
    var n := |trace| - 1;
    if k == n {
      GreedyInvariant(A, trace[..n], trace[n].left);
    } else {
      RoundAt(A, trace[..n], trace[n].left, k);
      assert trace[..n][k] == trace[k];
      assert After(trace[..n], k, trace[n].left) == After(trace, k, left);
    }
  }

  /** Every round of a run starts inside `A`, emits a well-formed rule inside `A`, and strictly shrinks what is left. */
  lemma RoundsWithin(A: set<int>, trace: seq<Choice>, left: set<int>)
    requires GreedyProgress(A, trace, left)
    ensures forall k :: 0 <= k < |trace| ==> WellFormed(trace[k].rule) && Covers(trace[k].rule) <= A
    ensures forall k :: 0 <= k < |trace| ==> trace[k].left <= A && After(trace, k, left) < trace[k].left
  {
    forall k | 0 <= k < |trace|
      ensures WellFormed(trace[k].rule) && Covers(trace[k].rule) <= A
      ensures trace[k].left <= A && After(trace, k, left) < trace[k].left
    {
      RoundAt(A, trace, left, k);
      RoundShrinks(A, trace[k], After(trace, k, left));
    }
  }

  /**
   * A finished run: every emitted rule is a well-formed progression inside
   * `A`, together the rules cover exactly `A`, and there are at most `|A|`
   * of them (none at all when `A` is empty).
   */
  lemma GreedyCoversAll(A: set<int>, trace: seq<Choice>)
    requires GreedyRun(A, trace)
    ensures forall k :: 0 <= k < |trace| ==> WellFormed(trace[k].rule) && Covers(trace[k].rule) <= A
    ensures Covered(trace) == A
    ensures |trace| <= |A|
  {
    GreedyInvariant(A, trace, {});
    RoundsWithin(A, trace, {});
  }

  /** With two 1-cells `p < q` either one as seed, with the other as partner, proposes `(p, q, q - p)`, which covers both. */
  lemma PairCandidate(p: int, q: int, a: int, b: int)
    requires p < q && a in {p, q} && b in {p, q} && a != b
    ensures Candidate({p, q}, a, b) == RuleValue(p, q, q - p)
    ensures Covers(RuleValue(p, q, q - p)) == {p, q}
  {
    var A, d := {p, q}, q - p;
    assert Down(A, p, d) == p;
    assert Up(A, q, d) == q;
    assert Up(A, p, d) == Up(A, q, d);
    assert Down(A, q, d) == Down(A, p, d);
    assert Members(p, q, d) == {p} + ({q} + Members(q + d, q, d));
  }

  /**
   * With exactly two 1-cells `p < q` a run has one round, and it emits
   * `(p, q, q - p)` whichever of the two it takes as seed.
   */
  lemma GreedyPair(A: set<int>, trace: seq<Choice>, p: int, q: int)
    requires A == {p, q} && p < q
    requires GreedyRun(A, trace)
    ensures |trace| == 1 && trace[0].rule == RuleValue(p, q, q - p)
  {
    assert |trace| > 0;
    var c := trace[0];
    RoundAt(A, trace, {}, 0);
    assert Chosen(A, c);
    PairCandidate(p, q, c.seed, c.partner);
    if |trace| > 1 {
      RoundAt(A, trace, {}, 1);
      assert false;
    }
  }

  /** The first round of a run starts from all of `A`. */
  lemma {:induction false} FirstLeft(A: set<int>, trace: seq<Choice>, left: set<int>)
    requires GreedyProgress(A, trace, left) && trace != []
    ensures trace[0].left == A
    decreases |trace|
  {
    var n := |trace| - 1;
    if n == 0 {
      assert trace[..n] == [];
    } else {
      FirstLeft(A, trace[..n], trace[n].left);
      assert trace[..n][0] == trace[0];
    }
  }

  /** A positive multiple of `d` is at least `d`. */
  lemma MultipleAtLeast(y: int, d: int)
    requires d > 0 && y > 0 && y % d == 0
    ensures y >= d
  {
    var q := y / d;
    assert y == q * d;
    if q >= 1 {
      Arith.MulAtLeast(q, d);
    }
  }

  /** Two indices a whole number of steps above `lo`, one below the other, are at least a step apart. */
  lemma NextMultiple(lo: int, x: int, hi: int, d: int)
    requires d > 0 && x < hi && (x - lo) % d == 0 && (hi - lo) % d == 0
    ensures x + d <= hi
  {
    var qx, qh := (x - lo) / d, (hi - lo) / d;
    assert hi - x == (qh - qx) * d by {
      assert x - lo == qx * d && hi - lo == qh * d;
      assert (qh - qx) * d == qh * d - qx * d;
    }
    Arith.DivModUnique(hi - x, d, qh - qx, 0);
    MultipleAtLeast(hi - x, d);
  }

  /** A well-formed rule is determined by the indices it covers, once it covers at least two. */
  lemma CoversDetermine(r: RuleValue, lo: int, hi: int, d: int)
    requires WellFormed(r) && d > 0 && lo < hi && (hi - lo) % d == 0
    requires Covers(r) == Members(lo, hi, d)
    ensures r == RuleValue(lo, hi, d)
  {
    EndsCovered(r);
    EndsCovered(RuleValue(lo, hi, d));
    MembersIff(lo, hi, d, r.start);
    MembersIff(lo, hi, d, r.end);
    MembersIff(r.start, r.end, r.step, lo);
    MembersIff(r.start, r.end, r.step, hi);
    assert r.start == lo && r.end == hi;
    // The second index of each progression lies on the other one.
    NextMultiple(lo, lo, hi, r.step);
    NextMultiple(lo, lo, hi, d);
    Arith.ModSmall(0, d);
    Arith.ModShift(0, d);
    Arith.ModSmall(0, r.step);
    Arith.ModShift(0, r.step);
    MembersIff(lo, hi, d, lo + r.step);
    MembersIff(r.start, r.end, r.step, lo + d);
    MultipleAtLeast(r.step, d);
    MultipleAtLeast(d, r.step);
  }

  /** When `A` is the progression `lo, lo + d, ..., hi`, its first index with partner `lo + d` proposes all of it. */
  lemma ProgressionCandidate(A: set<int>, lo: int, hi: int, d: int)
    requires d > 0 && lo < hi && (hi - lo) % d == 0 && A == Members(lo, hi, d)
    ensures lo in A && lo + d in A
    ensures Candidate(A, lo, lo + d) == RuleValue(lo, hi, d)
  {
    NextMultiple(lo, lo, hi, d);
    Arith.ModSmall(0, d);
    Arith.ModShift(0, d);
    MembersIff(lo, hi, d, lo);
    MembersIff(lo, hi, d, lo + d);
    var r := Candidate(A, lo, lo + d);
    CandidateShape(A, lo, lo + d);
    assert r.step == d;
    EndsCovered(r);
    MembersIff(lo, hi, d, r.start);
    MembersIff(r.start, r.end, d, lo);
    assert r.start == lo;
    MembersIff(lo, hi, d, r.end);
    if r.end < hi {
      NextMultiple(lo, r.end, hi, d);
      Arith.ModShift(r.end - lo, d);
      MembersIff(lo, hi, d, r.end + d);
      assert false;
    }
  }

  /** When some pair of the first round proposes all of `A`, the best pair does too. */
  lemma BestCoversAll(A: set<int>, c: Choice, next: set<int>, a: int, b: int)
    requires a in A && b in A && a != b && Covers(Candidate(A, a, b)) == A
    requires c.left == A && Round(A, c, next) && Chosen(A, c)
    ensures Covers(c.rule) == A
  {
    assert ScoreOf(A, A, a, b) <= ScoreOf(A, A, c.seed, c.partner);
    assert Covers(c.rule) * A == Covers(c.rule);
    assert Covers(Candidate(A, a, b)) * A == A;
    FullSubset(Covers(c.rule), A);
  }

  /** A subset at least as large as its superset is all of it. */
  lemma FullSubset(s: set<int>, t: set<int>)
    requires s <= t && |t| <= |s|
    ensures s == t
  {
    var rest := t - s;
    assert t == s + rest && s * rest == {};
  }

  /** A run over the progression `lo, lo + d, ..., hi` of at least two indices is a single round emitting it. */
  lemma GreedySpan(A: set<int>, trace: seq<Choice>, lo: int, hi: int, d: int)
    requires d > 0 && lo < hi && (hi - lo) % d == 0 && A == Members(lo, hi, d)
    requires GreedyRun(A, trace)
    ensures |trace| == 1 && trace[0].rule == RuleValue(lo, hi, d)
  {
    assert lo in A;
    FirstLeft(A, trace, {});
    RoundAt(A, trace, {}, 0);
    var c := trace[0];
    assert Chosen(A, c);
    ProgressionCandidate(A, lo, hi, d);
    BestCoversAll(A, c, After(trace, 0, {}), lo, lo + d);
    CoversDetermine(c.rule, lo, hi, d);
    if |trace| > 1 {
      RoundAt(A, trace, {}, 1);
      assert false;
    }
  }

  /**
   * When the 1-cells form one progression `lo, lo + d, ..., lo + k * d`
   * with at least two members, a run has a single round, and it emits
   * exactly that progression.
   */
  lemma GreedyProgression(A: set<int>, trace: seq<Choice>, lo: int, k: int, d: int)
    requires k >= 1 && d >= 1 && A == Members(lo, lo + k * d, d)
    requires GreedyRun(A, trace)
    ensures |trace| == 1 && trace[0].rule == RuleValue(lo, lo + k * d, d)
  {
    var hi := lo + k * d;
    Arith.MulAtLeast(k, d);
    Arith.DivModUnique(hi - lo, d, k, 0);
    GreedySpan(A, trace, lo, hi, d);
  }

  /** With no 1-cells the main loop never runs: a run has no rounds. */
  lemma GreedyEmpty(trace: seq<Choice>)
    requires GreedyRun({}, trace)
    ensures trace == []
  {
    GreedyCoversAll({}, trace);
  }

  /** The only element of a one-element set. */
  lemma OnlyElement(A: set<int>, a: int)
    requires |A| == 1 && a in A
    ensures A == {a}
  {
    assert A == (A - {a}) + {a};
    assert |A - {a}| == 0;
  }

  /**
   * One pass of the main loop: choose the best pair, emit its rule and
   * strike the rule's indices off what is left, which shrinks.
   */
  method OneRound(allOnes: set<int>, left: set<int>) returns (r: Rule, rest: set<int>, ghost c: Choice)
    requires left <= allOnes && left != {} && |allOnes| != 1
    ensures c.left == left && Round(allOnes, c, rest) && Chosen(allOnes, c)
    ensures fresh(r) && r.Value() == c.rule && rest < left
  {
    SubsetCardinality(left, allOnes);
    var low, high, d, removeTotal, seed, partner := BestCandidate(allOnes, left);
    r := new Rule(low, high, d);
    c := Choice(left, seed, partner, RuleValue(low, high, d));
    CandidateShape(allOnes, seed, partner);
    rest := RemoveChain(left, low, high, d);
    assert seed in left && seed !in rest;
  }

  /**
   * The main `while` loop of `Utils.rulesFor`: best pairs are chosen
   * round after round until every 1-cell is covered.
   */
  method GreedyRounds(allOnes: set<int>) returns (rules: seq<Rule>, ghost trace: seq<Choice>)
    requires |allOnes| != 1
    ensures |rules| == |trace| && forall k :: 0 <= k < |rules| ==> rules[k].Value() == trace[k].rule
    ensures forall k :: 0 <= k < |rules| ==> fresh(rules[k])
    ensures forall j, k :: 0 <= j < k < |rules| ==> rules[j] != rules[k]
    ensures GreedyRun(allOnes, trace)
  {
    var left := allOnes;
    rules, trace := [], [];
    while left != {}
      invariant left <= allOnes
      invariant GreedyProgress(allOnes, trace, left) && AllChosen(allOnes, trace)
      invariant |rules| == |trace| && forall k :: 0 <= k < |rules| ==> rules[k].Value() == trace[k].rule
      invariant forall k :: 0 <= k < |rules| ==> fresh(rules[k])
      invariant forall j, k :: 0 <= j < k < |rules| ==> rules[j] != rules[k]
      decreases left
    {
      var r, rest, c := OneRound(allOnes, left);
      GreedyStep(allOnes, trace, left, c, rest);
      AllChosenStep(allOnes, trace, c);
      rules, trace := rules + [r], trace + [c];
      left := rest;
    }
  }

  /**
   * `Utils.rulesFor`: the rules it returns and, as a ghost, the round that
   * produced each. With one 1-cell `a` the single rule `(a, a, 1)` comes
   * back; otherwise best pairs are chosen round after round until every
   * 1-cell is covered.
   */
  method RulesFor(positions: array<int>) returns (rules: seq<Rule>, ghost trace: seq<Choice>)
    ensures |rules| == |trace| && forall k :: 0 <= k < |rules| ==> rules[k].Value() == trace[k].rule
    ensures forall k :: 0 <= k < |rules| ==> fresh(rules[k])
    ensures forall j, k :: 0 <= j < k < |rules| ==> rules[j] != rules[k]
    ensures |OnesOf(positions[..])| == 1 ==> forall a :: a in OnesOf(positions[..]) ==> |rules| == 1 && rules[0].Value() == RuleValue(a, a, 1)
    ensures |OnesOf(positions[..])| != 1 ==> GreedyRun(OnesOf(positions[..]), trace)
  {
    var allOnes := CollectOnes(positions);
    if |allOnes| == 1 {
      HasElement(allOnes);
      var a :| a in allOnes;
      var r := new Rule(a, a, 1);
      rules, trace := [r], [Choice(allOnes, a, a, RuleValue(a, a, 1))];
      OnlyElement(allOnes, a);
      return;
    }
    rules, trace := GreedyRounds(allOnes);
  }
}
