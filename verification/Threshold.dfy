/**
 Counting triggers with a cooldown and searching the threshold grid
 (internal/analytics/threshold.go).
 */
module Threshold {
  import opened Options
  import Arith

  const FIXED_DISCOUNT := 0.05
  const STEP := 0.05
  const COOLDOWN := 5

  // ------------------------------------------------------------ the trigger count

  predicate Hit(value: real, threshold: real) {
    value - FIXED_DISCOUNT >= threshold
  }

  /** What the loop still counts from index `i` when it last triggered at `last`. */
  function CountFrom(diffs: seq<real>, threshold: real, cooldown: int, i: nat, last: int): nat
    requires i <= |diffs|
    decreases |diffs| - i
  {
    if i == |diffs| then 0
    else if Hit(diffs[i], threshold) && i - last > cooldown then 1 + CountFrom(diffs, threshold, cooldown, i + 1, i)
    else CountFrom(diffs, threshold, cooldown, i + 1, last)
  }

  function Count(diffs: seq<real>, threshold: real, cooldown: int): nat {
    CountFrom(diffs, threshold, cooldown, 0, -cooldown - 1)
  }

  method CountWithCooldown(diffs: seq<real>, threshold: real, cooldown: int) returns (triggerCount: nat)
    ensures triggerCount == Count(diffs, threshold, cooldown)
  {
    triggerCount := 0;
    var lastTriggerIdx := -cooldown - 1;
    for i := 0 to |diffs|
      invariant triggerCount + CountFrom(diffs, threshold, cooldown, i, lastTriggerIdx) == Count(diffs, threshold, cooldown)
    {
      var adjusted := diffs[i] - FIXED_DISCOUNT;
      if adjusted >= threshold && i - lastTriggerIdx > cooldown {
        triggerCount := triggerCount + 1;
        lastTriggerIdx := i;
      }
    }
  }

  /** Indices below `n` that hit the threshold, any two of them further apart than the cooldown. */
  ghost predicate Spaced(s: set<nat>, diffs: seq<real>, threshold: real, cooldown: int, n: nat) {
    && (forall i :: i in s ==> i < n && i < |diffs| && Hit(diffs[i], threshold))
    && (forall i, j :: i in s && j in s && i < j ==> j - i > cooldown)
  }

  /** No selection below `n` is larger than `count`, and one as large ends no earlier than `last`. */
  ghost predicate Ahead(diffs: seq<real>, threshold: real, cooldown: int, n: nat, count: nat, last: int) {
    forall s: set<nat> :: Spaced(s, diffs, threshold, cooldown, n) ==>
      |s| <= count && (count > 0 && |s| == count ==> exists e :: e in s && e >= last)
  }

  lemma WithoutLast(s: set<nat>, diffs: seq<real>, threshold: real, cooldown: int, n: nat)
    requires Spaced(s, diffs, threshold, cooldown, n + 1)
    ensures Spaced(s - {n}, diffs, threshold, cooldown, n)
    ensures n in s ==> |s| == |s - {n}| + 1
    ensures n !in s ==> s - {n} == s
  {
  }

  lemma AheadSkips(diffs: seq<real>, threshold: real, cooldown: int, n: nat, count: nat, last: int)
    requires n < |diffs| && Ahead(diffs, threshold, cooldown, n, count, last)
    requires !Hit(diffs[n], threshold) || (0 < count && last < n && n - last <= cooldown)
    ensures Ahead(diffs, threshold, cooldown, n + 1, count, last)
  {
    forall s: set<nat> | Spaced(s, diffs, threshold, cooldown, n + 1)
      ensures |s| <= count && (count > 0 && |s| == count ==> exists e :: e in s && e >= last)
    {
      WithoutLast(s, diffs, threshold, cooldown, n);
      if n in s {
        TooClose(s, diffs, threshold, cooldown, n, count, last);
      }
    }
  }

  /** A selection that ends in a skipped hit was one short before it. */
  lemma TooClose(s: set<nat>, diffs: seq<real>, threshold: real, cooldown: int, n: nat, count: nat, last: int)
    requires n < |diffs| && Ahead(diffs, threshold, cooldown, n, count, last)
    requires 0 < count && n - last <= cooldown
    requires Spaced(s, diffs, threshold, cooldown, n + 1) && n in s
    ensures |s| <= count
  {
    var rest := s - {n};
    WithoutLast(s, diffs, threshold, cooldown, n);
    forall e | e in rest ensures e < last {
      assert n - e > cooldown;
    }
  }

  lemma AheadTriggers(diffs: seq<real>, threshold: real, cooldown: int, n: nat, count: nat, last: int)
    requires n < |diffs| && Ahead(diffs, threshold, cooldown, n, count, last)
    ensures Ahead(diffs, threshold, cooldown, n + 1, count + 1, n)
  {
    forall s: set<nat> | Spaced(s, diffs, threshold, cooldown, n + 1)
      ensures |s| <= count + 1 && (|s| == count + 1 ==> exists e :: e in s && e >= n)
    {
      WithoutLast(s, diffs, threshold, cooldown, n);
      if |s| == count + 1 {
        assert n in s;
      }
    }
  }

  lemma {:induction false} StaysAhead(diffs: seq<real>, threshold: real, cooldown: int, n: nat, count: nat, last: int)
    requires n <= |diffs| && Ahead(diffs, threshold, cooldown, n, count, last)
    requires (count == 0 && last == -cooldown - 1) || (count > 0 && last < n)
    ensures forall s: set<nat> :: Spaced(s, diffs, threshold, cooldown, |diffs|) ==>
      |s| <= count + CountFrom(diffs, threshold, cooldown, n, last)
    decreases |diffs| - n
  {
    if n < |diffs| {
      if Hit(diffs[n], threshold) && n - last > cooldown {
        AheadTriggers(diffs, threshold, cooldown, n, count, last);
        StaysAhead(diffs, threshold, cooldown, n + 1, count + 1, n);
      } else {
        AheadSkips(diffs, threshold, cooldown, n, count, last);
        StaysAhead(diffs, threshold, cooldown, n + 1, count, last);
      }
    }
  }

  /** The greedy picks themselves, as a selection. */
  lemma {:induction false} GreedyPicks(diffs: seq<real>, threshold: real, cooldown: int, n: nat, last: int, s: set<nat>)
    returns (picks: set<nat>)
    requires n <= |diffs| && Spaced(s, diffs, threshold, cooldown, n)
    requires (s == {} && last == -cooldown - 1) || (last in s && forall e :: e in s ==> e <= last)
    ensures Spaced(picks, diffs, threshold, cooldown, |diffs|)
    ensures |picks| == |s| + CountFrom(diffs, threshold, cooldown, n, last)
    decreases |diffs| - n
  {
    if n == |diffs| {
      picks := s;
    } else if Hit(diffs[n], threshold) && n - last > cooldown {
      picks := GreedyPicks(diffs, threshold, cooldown, n + 1, n, s + {n});
    } else {
      picks := GreedyPicks(diffs, threshold, cooldown, n + 1, last, s);
    }
  }

  /** The greedy count is the size of the largest selection of hits spaced by more than the cooldown. */
  lemma CountIsMaximum(diffs: seq<real>, threshold: real, cooldown: int)
    ensures forall s: set<nat> :: Spaced(s, diffs, threshold, cooldown, |diffs|) ==> |s| <= Count(diffs, threshold, cooldown)
    ensures exists s: set<nat> :: Spaced(s, diffs, threshold, cooldown, |diffs|) && |s| == Count(diffs, threshold, cooldown)
  {
    forall s: set<nat> | Spaced(s, diffs, threshold, cooldown, 0) ensures s == {} {
    }
    StaysAhead(diffs, threshold, cooldown, 0, 0, -cooldown - 1);
    var picks := GreedyPicks(diffs, threshold, cooldown, 0, -cooldown - 1, {});
  }

  /** Raising the threshold never raises the count. */
  lemma CountNonIncreasing(diffs: seq<real>, low: real, high: real, cooldown: int)
    requires low <= high
    ensures Count(diffs, high, cooldown) <= Count(diffs, low, cooldown)
  {
    CountIsMaximum(diffs, high, cooldown);
    CountIsMaximum(diffs, low, cooldown);
    var s: set<nat> :| Spaced(s, diffs, high, cooldown, |diffs|) && |s| == Count(diffs, high, cooldown);
    assert Spaced(s, diffs, low, cooldown, |diffs|);
  }

  /** Some trigger happens exactly when some value hits. */
  lemma CountPositiveIff(diffs: seq<real>, threshold: real, cooldown: int)
    ensures Count(diffs, threshold, cooldown) > 0 <==> exists i :: 0 <= i < |diffs| && diffs[i] - 0.05 >= threshold
  {
    CountIsMaximum(diffs, threshold, cooldown);
    if i: nat :| i < |diffs| && Hit(diffs[i], threshold) {
      assert Spaced({i}, diffs, threshold, cooldown, |diffs|);
    }
    var s: set<nat> :| Spaced(s, diffs, threshold, cooldown, |diffs|) && |s| == Count(diffs, threshold, cooldown);
    if |s| > 0 {
      var i :| i in s;
    }
  }

  // ------------------------------------------------------------ the grid search

  /** What the search is given. */
  datatype Search = Search(minAB: real, maxAB: real, maxBA: real, target: real, maxThreshold: real,
                           diffsAB: seq<real>, diffsBA: seq<real>)

  function ThresholdAB(q: Search, k: nat): real {
    q.minAB + k as real * STEP
  }

  function ThresholdBA(q: Search, k: nat, m: nat): real {
    q.target - ThresholdAB(q, k) + m as real * STEP
  }

  datatype Candidate = Candidate(thresholdAB: real, thresholdBA: real, countAB: nat, countBA: nat, profit: real)

  function Profit(countAB: nat, countBA: nat, total: real): real {
    (if countBA < countAB then countBA else countAB) as real * total
  }

  function CandidateAt(q: Search, k: nat, m: nat): Candidate {
    var ab, ba := ThresholdAB(q, k), ThresholdBA(q, k, m);
    var n, l := Count(q.diffsAB, ab, COOLDOWN), Count(q.diffsBA, ba, COOLDOWN);
    Candidate(ab, ba, n, l, Profit(n, l, ab + ba))
  }

  /** Grid point (k, m) is inside the ranges, both directions trigger, and the total respects the cap when one is set. */
  ghost predicate Admissible(q: Search, k: nat, m: nat) {
    && ThresholdAB(q, k) <= q.maxAB
    && ThresholdBA(q, k, m) <= q.maxBA
    && Count(q.diffsAB, ThresholdAB(q, k), COOLDOWN) > 0
    && Count(q.diffsBA, ThresholdBA(q, k, m), COOLDOWN) > 0
    && (q.maxThreshold > 0.0 ==> ThresholdAB(q, k) + ThresholdBA(q, k, m) <= q.maxThreshold)
  }

  /** Every admissible total reaches the target. */
  lemma AdmissibleReachesTarget(q: Search, k: nat, m: nat)
    ensures ThresholdAB(q, k) + ThresholdBA(q, k, m) >= q.target
  {
  }

  /** Larger profit first, and among equal profits more triggers first. */
  predicate NoWorse(a: Candidate, b: Candidate) {
    a.profit > b.profit || (a.profit == b.profit && a.countAB + a.countBA >= b.countAB + b.countBA)
  }

  ghost predicate Before(k: nat, m: nat, kEnd: nat, mEnd: nat) {
    k < kEnd || (k == kEnd && m < mEnd)
  }

  /** `found` holds exactly the admissible candidates of the grid points before (kEnd, mEnd). */
  ghost predicate Collected(q: Search, found: seq<Candidate>, kEnd: nat, mEnd: nat) {
    forall c :: c in found <==> exists k: nat, m: nat :: Before(k, m, kEnd, mEnd) && Admissible(q, k, m) && c == CandidateAt(q, k, m)
  }

  function StepsLeft(from: real, to: real): int {
    ((to - from) / STEP).Floor + 1
  }

  lemma OneStepLess(from: real, to: real)
    requires from <= to
    ensures StepsLeft(from, to) >= 1
    ensures StepsLeft(from + STEP, to) == StepsLeft(from, to) - 1
  {
    assert (to - (from + STEP)) / STEP == (to - from) / STEP - 1.0;
  }

  lemma GridSteps(q: Search, k: nat, m: nat)
    ensures ThresholdAB(q, k + 1) == ThresholdAB(q, k) + STEP
    ensures ThresholdBA(q, k, m + 1) == ThresholdBA(q, k, m) + STEP
    ensures ThresholdBA(q, k, 0) == q.target - ThresholdAB(q, k)
  {
  }

  lemma CollectOne(q: Search, found: seq<Candidate>, k: nat, m: nat, more: seq<Candidate>)
    requires Collected(q, found, k, m)
    requires more == if Admissible(q, k, m) then found + [CandidateAt(q, k, m)] else found
    ensures Collected(q, more, k, m + 1)
  {
    hide CandidateAt, Admissible;
    forall c
      ensures c in more <==> exists k': nat, m': nat :: Before(k', m', k, m + 1) && Admissible(q, k', m') && c == CandidateAt(q, k', m')
    {
      if c in more {
        if c in found {
          var k': nat, m': nat :| Before(k', m', k, m) && Admissible(q, k', m') && c == CandidateAt(q, k', m');
          assert Before(k', m', k, m + 1);
        } else {
          assert Before(k, m, k, m + 1);
        }
      }
      forall k': nat, m': nat | Before(k', m', k, m + 1) && Admissible(q, k', m') && c == CandidateAt(q, k', m')
        ensures c in more
      {
        assert (k' == k && m' == m) || Before(k', m', k, m);
      }
    }
  }

  lemma NextRow(q: Search, found: seq<Candidate>, k: nat, m: nat)
    requires Collected(q, found, k, m) && ThresholdBA(q, k, m) > q.maxBA
    ensures Collected(q, found, k + 1, 0)
  {
    hide CandidateAt;
    forall k': nat, m': nat | Before(k', m', k + 1, 0) && Admissible(q, k', m') ensures Before(k', m', k, m) {
      assert k' == k ==> m' < m;
    }
    forall k': nat, m': nat | Before(k', m', k, m) ensures Before(k', m', k + 1, 0) {
    }
  }

  /** `found` holds exactly the admissible candidates of the whole grid. */
  ghost predicate AllCollected(q: Search, found: seq<Candidate>) {
    forall c :: c in found <==> exists k: nat, m: nat :: Admissible(q, k, m) && c == CandidateAt(q, k, m)
  }

  lemma LastRow(q: Search, found: seq<Candidate>, k: nat)
    requires Collected(q, found, k, 0) && ThresholdAB(q, k) > q.maxAB
    ensures AllCollected(q, found)
  {
    hide CandidateAt;
    forall k': nat, m': nat | Admissible(q, k', m') ensures Before(k', m', k, 0) {
      assert k' < k;
    }
  }

  /** The nested stepping loops; both end because every step shortens the way to the upper bound. */
  method CollectCandidates(q: Search) returns (found: seq<Candidate>)
    ensures AllCollected(q, found)
  {
    found := [];
    var ab := q.minAB;
    ghost var k: nat := 0;
    while ab <= q.maxAB
      invariant ab == ThresholdAB(q, k) && Collected(q, found, k, 0)
      decreases StepsLeft(ab, q.maxAB)
    {
      hide Admissible, Collected, AllCollected;
      OneStepLess(ab, q.maxAB);
      GridSteps(q, k, 0);
      var ba := q.target - ab;
      ghost var m: nat := 0;
      while ba <= q.maxBA
        invariant ba == ThresholdBA(q, k, m) && Collected(q, found, k, m)
        decreases StepsLeft(ba, q.maxBA)
      {
        OneStepLess(ba, q.maxBA);
        GridSteps(q, k, m);
        var countAB := CountWithCooldown(q.diffsAB, ab, COOLDOWN);
        var countBA := CountWithCooldown(q.diffsBA, ba, COOLDOWN);
        ghost var before := found;
        if countAB > 0 && countBA > 0 {
          var total := ab + ba;
          if !(q.maxThreshold > 0.0 && total > q.maxThreshold) {
            found := found + [Candidate(ab, ba, countAB, countBA, Profit(countAB, countBA, total))];
          }
        }
        AdmissibleAt(q, k, m);
        CollectOne(q, before, k, m, found);
        ba, m := ba + STEP, m + 1;
      }
      NextRow(q, found, k, m);
      ab, k := ab + STEP, k + 1;
    }
    LastRow(q, found, k);
  }

  /** What the body of the inner loop tests, at a point inside both ranges. */
  lemma AdmissibleAt(q: Search, k: nat, m: nat)
    requires ThresholdAB(q, k) <= q.maxAB && ThresholdBA(q, k, m) <= q.maxBA
    ensures var ab, ba := ThresholdAB(q, k), ThresholdBA(q, k, m);
      Admissible(q, k, m) <==>
        Count(q.diffsAB, ab, COOLDOWN) > 0 && Count(q.diffsBA, ba, COOLDOWN) > 0 && !(q.maxThreshold > 0.0 && ab + ba > q.maxThreshold)
  {
  }

  // ------------------------------------------------------------ the exchange sort

  ghost predicate Descending(s: seq<Candidate>) {
    forall i, j :: 0 <= i < j < |s| ==> NoWorse(s[i], s[j])
  }

  /** The first `n` are in order and none of them is worse than anything after it. */
  ghost predicate Settled(s: seq<Candidate>, n: int) {
    forall i, j :: 0 <= i < j < |s| && i < n ==> NoWorse(s[i], s[j])
  }

  function Swapped(s: seq<Candidate>, i: int, j: int): seq<Candidate>
    requires 0 <= i < |s| && 0 <= j < |s|
  {
    s[i := s[j]][j := s[i]]
  }

  lemma SwapKeeps(s: seq<Candidate>, i: int, j: int)
    requires 0 <= i < j < |s| && Settled(s, i)
    ensures multiset(Swapped(s, i, j)) == multiset(s)
    ensures Settled(Swapped(s, i, j), i)
  {
    var t := Swapped(s, i, j);
    forall p, r | 0 <= p < r < |t| && p < i ensures NoWorse(t[p], t[r]) {
      var r' := if r == i then j else if r == j then i else r;
      assert t[p] == s[p] && t[r] == s[r'];
    }
  }

  /** Sorting in place by exchanging position `i` with every later candidate that beats it. */
  method ExchangeSort(candidates: array<Candidate>)
    modifies candidates
    ensures multiset(candidates[..]) == multiset(old(candidates[..]))
    ensures Descending(candidates[..])
  {
    var n := candidates.Length;
    var i := 0;
    while i < n - 1
      invariant 0 <= i && (i <= n - 1 || n == 0)
      invariant multiset(candidates[..]) == multiset(old(candidates[..]))
      invariant Settled(candidates[..], i)
    {
      var j := i + 1;
      while j < n
        invariant i < j <= n
        invariant multiset(candidates[..]) == multiset(old(candidates[..]))
        invariant Settled(candidates[..], i)
        invariant forall r :: i < r < j ==> NoWorse(candidates[..][i], candidates[..][r])
      {
        if !NoWorse(candidates[i], candidates[j]) {
          ghost var s := candidates[..];
          SwapKeeps(s, i, j);
          candidates[i], candidates[j] := candidates[j], candidates[i];
          assert candidates[..] == Swapped(s, i, j);
        }
        j := j + 1;
      }
      i := i + 1;
    }
  }

  // ------------------------------------------------------------ the search as a whole

  datatype Optimum = Optimum(thresholdAB: real, thresholdBA: real, countAB: nat, countBA: nat)

  /** What the search reports of an admissible grid point. */
  ghost predicate IsAt(q: Search, o: Optimum, k: nat, m: nat) {
    && Admissible(q, k, m)
    && o.thresholdAB == ThresholdAB(q, k) && o.countAB == Count(q.diffsAB, o.thresholdAB, COOLDOWN)
    && o.thresholdBA == ThresholdBA(q, k, m) && o.countBA == Count(q.diffsBA, o.thresholdBA, COOLDOWN)
  }

  /** `n` round trips use up the triggers of the scarcer direction. */
  predicate RoundTrips(n: nat, countAB: nat, countBA: nat) {
    n <= countAB && n <= countBA && (n == countAB || n == countBA)
  }

  function Earned(trips: nat, o: Optimum): real {
    trips as real * (o.thresholdAB + o.thresholdBA)
  }

  /** Over all their round trips `o` earns no less than `p`, and when it earns the same it has no fewer triggers. */
  ghost predicate EarnsNoLess(o: Optimum, p: Optimum) {
    forall n: nat, l: nat :: RoundTrips(n, o.countAB, o.countBA) && RoundTrips(l, p.countAB, p.countBA) ==>
      && Earned(l, p) <= Earned(n, o)
      && (Earned(l, p) == Earned(n, o) ==> p.countAB + p.countBA <= o.countAB + o.countBA)
  }

  /** The optimum is an admissible grid point, and none earns more. */
  ghost predicate IsBest(q: Search, o: Optimum) {
    exists k: nat, m: nat :: IsAt(q, o, k, m) && forall p, k': nat, m': nat :: IsAt(q, p, k', m') ==> EarnsNoLess(o, p)
  }

  ghost predicate NoneAdmissible(q: Search) {
    forall k: nat, m: nat :: !Admissible(q, k, m)
  }

  method FindOptimalThreshold(q: Search) returns (best: Option<Optimum>)
    ensures best == None <==> NoneAdmissible(q)
    ensures best.Some? ==> IsBest(q, best.value)
  {
    if |q.diffsAB| == 0 || |q.diffsBA| == 0 {
      forall k: nat, m: nat ensures !Admissible(q, k, m) {
        CountPositiveIff(q.diffsAB, ThresholdAB(q, k), COOLDOWN);
        CountPositiveIff(q.diffsBA, ThresholdBA(q, k, m), COOLDOWN);
      }
      return None;
    }
    var found := CollectCandidates(q);
    hide Admissible, CandidateAt;
    if |found| == 0 {
      forall k: nat, m: nat ensures !Admissible(q, k, m) {
        assert CandidateAt(q, k, m) !in found;
      }
      return None;
    }
    var candidates := new Candidate[|found|](i requires 0 <= i < |found| => found[i]);
    assert candidates[..] == found;
    ExchangeSort(candidates);
    var c := candidates[0];
    best := Some(OptimumOf(c));
    FirstIsBest(q, found, candidates[..]);
  }

  function OptimumOf(c: Candidate): Optimum {
    Optimum(c.thresholdAB, c.thresholdBA, c.countAB, c.countBA)
  }

  /** Ranking by profit and triggers is ranking by what the round trips earn. */
  lemma NoWorseEarnsNoLess(q: Search, k: nat, m: nat, k': nat, m': nat, p: Optimum)
    requires IsAt(q, p, k', m') && NoWorse(CandidateAt(q, k, m), CandidateAt(q, k', m'))
    ensures EarnsNoLess(OptimumOf(CandidateAt(q, k, m)), p)
  {
    hide Count, Admissible, ThresholdAB, ThresholdBA;
  }

  lemma FirstIsBest(q: Search, found: seq<Candidate>, sorted: seq<Candidate>)
    requires AllCollected(q, found) && |found| > 0
    requires multiset(sorted) == multiset(found) && Descending(sorted)
    ensures |sorted| == |found|
    ensures exists k: nat, m: nat :: Admissible(q, k, m)
    ensures IsBest(q, OptimumOf(sorted[0]))
  {
    assert |multiset(sorted)| == |multiset(found)|;
    assert forall c :: c in sorted <==> c in multiset(sorted);
    assert forall c :: c in found <==> c in multiset(found);
    assert sorted[0] in found;
    var k: nat, m: nat :| Admissible(q, k, m) && sorted[0] == CandidateAt(q, k, m);
    assert IsAt(q, OptimumOf(sorted[0]), k, m);
    hide Admissible, CandidateAt, EarnsNoLess;
    forall p, k': nat, m': nat | IsAt(q, p, k', m') ensures EarnsNoLess(OptimumOf(sorted[0]), p) {
      assert CandidateAt(q, k', m') in found;
      var r :| 0 <= r < |sorted| && sorted[r] == CandidateAt(q, k', m');
      assert r == 0 || NoWorse(sorted[0], sorted[r]);
      NoWorseEarnsNoLess(q, k, m, k', m', p);
    }
  }

  lemma EarnedInOrder(o: Optimum, few: nat, many: nat)
    requires few <= many
    ensures o.thresholdAB + o.thresholdBA >= 0.0 ==> Earned(few, o) <= Earned(many, o)
    ensures o.thresholdAB + o.thresholdBA <= 0.0 ==> Earned(many, o) <= 0.0
    ensures Earned(0, o) == 0.0
  {
    var total := o.thresholdAB + o.thresholdBA;
    if total >= 0.0 {
      Arith.MulMonotone(few as real, many as real, total);
    }
    if total <= 0.0 {
      Arith.ProductNonNegative(many as real, -total);
    }
  }

  lemma FewerTripsEarnNoMore(o: Optimum, p: Optimum, trips: nat) returns (n: nat)
    requires EarnsNoLess(o, p) && trips <= p.countAB && trips <= p.countBA
    ensures n <= o.countAB && n <= o.countBA && Earned(trips, p) <= Earned(n, o)
  {
    hide Earned;
    var most: nat := if p.countAB < p.countBA then p.countAB else p.countBA;
    n := if o.countAB < o.countBA then o.countAB else o.countBA;
    assert RoundTrips(n, o.countAB, o.countBA) && RoundTrips(most, p.countAB, p.countBA);
    EarnedInOrder(p, trips, most);
    if p.thresholdAB + p.thresholdBA < 0.0 {
      EarnedInOrder(p, 0, trips);
      EarnedInOrder(o, 0, 0);
      n := 0;
    }
  }

  /**
   However many round trips an admissible pair of thresholds allows, the optimum earns no less over some number of
   round trips that its own triggers allow.
   */
  lemma NoTripsEarnMore(q: Search, o: Optimum, p: Optimum, k: nat, m: nat, trips: nat)
    requires IsBest(q, o) && IsAt(q, p, k, m) && trips <= p.countAB && trips <= p.countBA
    ensures exists n: nat :: n <= o.countAB && n <= o.countBA && Earned(trips, p) <= Earned(n, o)
  {
    hide IsAt, EarnsNoLess, Earned;
    var n := FewerTripsEarnNoMore(o, p, trips);
  }

  // ------------------------------------------------------------ Analytics

  /** The part of `Analytics` the threshold analysis reads and writes. */
  class Analytics {
    var diffsAB: seq<real>
    var diffsBA: seq<real>
    var minDiffAB: real
    var maxDiffAB: real
    var minDiffBA: real
    var maxDiffBA: real
    var target: real
    var maxThreshold: real
    var optimal: Option<Optimum>

    ghost predicate SpansData()
      reads this
    {
      && |diffsAB| > 0 && |diffsBA| > 0
      && IsLeast(diffsAB, minDiffAB) && IsGreatest(diffsAB, maxDiffAB)
      && IsLeast(diffsBA, minDiffBA) && IsGreatest(diffsBA, maxDiffBA)
    }

    function Query(): Search
      reads this
    {
      Search(minDiffAB, maxDiffAB, maxDiffBA, target, maxThreshold, diffsAB, diffsBA)
    }

    method UpdateStats()
      modifies this`minDiffAB, this`maxDiffAB, this`minDiffBA, this`maxDiffBA
      ensures |diffsAB| > 0 && |diffsBA| > 0 ==> SpansData()
      ensures |diffsAB| == 0 || |diffsBA| == 0 ==>
        minDiffAB == old(minDiffAB) && maxDiffAB == old(maxDiffAB) && minDiffBA == old(minDiffBA) && maxDiffBA == old(maxDiffBA)
    {
      if |diffsAB| == 0 || |diffsBA| == 0 {
        return;
      }
      minDiffAB, maxDiffAB := Extremes(diffsAB);
      minDiffBA, maxDiffBA := Extremes(diffsBA);
    }

    /** A search that finds nothing keeps the previous optimum. */
    method AnalyzeOptimalThresholds()
      modifies this`optimal
      ensures Query() == old(Query())
      ensures NoneAdmissible(Query()) ==> optimal == old(optimal)
      ensures !NoneAdmissible(Query()) ==> optimal.Some? && IsBest(Query(), optimal.value)
    {
      var found := FindOptimalThreshold(Query());
      if found.Some? {
        optimal := found;
      }
    }
  }

  ghost predicate IsLeast(s: seq<real>, x: real) {
    x in s && forall i :: 0 <= i < |s| ==> x <= s[i]
  }

  ghost predicate IsGreatest(s: seq<real>, x: real) {
    x in s && forall i :: 0 <= i < |s| ==> s[i] <= x
  }

  method Extremes(s: seq<real>) returns (least: real, greatest: real)
    requires |s| > 0
    ensures IsLeast(s, least) && IsGreatest(s, greatest)
  {
    least, greatest := s[0], s[0];
    for i := 0 to |s|
      invariant least in s && greatest in s
      invariant forall j :: 0 <= j < i ==> least <= s[j] <= greatest
    {
      if s[i] < least {
        least := s[i];
      }
      if s[i] > greatest {
        greatest := s[i];
      }
    }
  }
}
