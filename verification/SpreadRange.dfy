/**
 The range of spreads a direction is believed to move in, with outliers trimmed
 (internal/analytics/fast_trigger_optimizer.go:636-887).
 */
module SpreadRange {
  import opened Sorting
  import opened Sums
  import Arith

  const CHANGE_WINDOW := 100
  const NEAR_ZERO := 0.001

  datatype Point = Point(spreadLong: real, spreadShort: real, costLong: real, costShort: real)
  {
    function Spread(isLong: bool): real {
      if isLong then spreadLong else spreadShort
    }

    function Cost(isLong: bool): real {
      if isLong then costLong else costShort
    }
  }

  datatype Range = Range(min: real, max: real)

  datatype Weighted = Weighted(spread: real, weight: real)

  function Spreads(data: seq<Point>, isLong: bool): (s: seq<real>)
    ensures |s| == |data| && forall i :: 0 <= i < |s| ==> s[i] == if isLong then data[i].spreadLong else data[i].spreadShort
  {
    seq(|data|, i requires 0 <= i < |data| => data[i].Spread(isLong))
  }

  /** The range is in order and between two of the values. */
  ghost predicate Inside(r: Range, values: seq<real>) {
    r.min <= r.max && exists i, j :: 0 <= i < |values| && 0 <= j < |values| && values[i] <= r.min && r.max <= values[j]
  }

  lemma InsideOneValue(r: Range, values: seq<real>, x: real)
    requires Inside(r, values) && forall v <- values :: v == x
    ensures r == Range(x, x)
  {
    var i, j :| 0 <= i < |values| && 0 <= j < |values| && values[i] <= r.min && r.max <= values[j];
    assert values[i] in values && values[j] in values;
  }

  // ------------------------------------------------------------ how much is trimmed

  function One(): real -> real {
    x => 1.0
  }

  function CountBelow(m: real): real -> real {
    x => if x < m then 1.0 else 0.0
  }

  function CountAbove(m: real): real -> real {
    x => if x > m then 1.0 else 0.0
  }

  function WeightOf(): Weighted -> real {
    (w: Weighted) => w.weight
  }

  function WeightBelow(m: real): Weighted -> real {
    (w: Weighted) => if w.spread < m then w.weight else 0.0
  }

  function WeightAbove(m: real): Weighted -> real {
    (w: Weighted) => if w.spread > m then w.weight else 0.0
  }

  lemma {:induction false} CountsOne(s: seq<real>)
    ensures Sum(s, One()) == |s| as real
  {
    if s != [] {
      CountsOne(s[..|s| - 1]);
    }
  }

  /** `m` cuts the values at the fraction `q`: no more than that lies below it, and no more than the rest above. */
  ghost predicate CutsCount(values: seq<real>, m: real, q: real) {
    && Sum(values, CountBelow(m)) <= Share(|values| as real, q)
    && Sum(values, CountAbove(m)) <= Share(|values| as real, 1.0 - q)
  }

  /** The range leaves the fraction `p` of the values on either side. */
  ghost predicate TrimsCount(r: Range, values: seq<real>, p: real) {
    CutsCount(values, r.min, p) && CutsCount(values, r.max, 1.0 - p)
  }

  ghost predicate CutsWeight(values: seq<Weighted>, m: real, q: real) {
    && Sum(values, WeightBelow(m)) <= Share(Sum(values, WeightOf()), q)
    && Sum(values, WeightAbove(m)) <= Share(Sum(values, WeightOf()), 1.0 - q)
  }

  ghost predicate TrimsWeight(r: Range, values: seq<Weighted>, p: real) {
    CutsWeight(values, r.min, p) && CutsWeight(values, r.max, 1.0 - p)
  }

  // ------------------------------------------------------------ truncated quantiles

  function Share(n: real, p: real): real {
    p * n
  }

  function LowerIndex(n: nat, p: real): int {
    Share(n as real, p).Floor
  }

  function UpperIndex(n: nat, p: real): int {
    var i := Share(n as real, 1.0 - p).Floor;
    if i >= n then n - 1 else i
  }

  lemma SmallShare(x: real, p: real)
    requires x > 0.0 && 0.0 < p < 0.5
    ensures 0.0 < Share(x, p) < 0.5 * x
  {
    Between(x, p, 0.5);
  }

  lemma Between(x: real, p: real, h: real)
    requires x > 0.0 && 0.0 < p < h
    ensures 0.0 < Share(x, p) < h * x
  {
    Arith.MulStrict(p, h, x);
    Arith.MulStrict(0.0, p, x);
  }

  lemma Complement(x: real, p: real)
    ensures Share(x, 1.0 - p) == x - Share(x, p)
  {
  }

  lemma IndicesInOrder(n: nat, p: real)
    requires n > 0 && 0.0 < p < 0.5
    ensures 0 <= LowerIndex(n, p) <= UpperIndex(n, p) < n
    ensures IndexCuts(n, LowerIndex(n, p), p) && IndexCuts(n, UpperIndex(n, p), 1.0 - p)
  {
    hide Share;
    SmallShare(n as real, p);
    Complement(n as real, p);
    Complement(n as real, 1.0 - p);
    FloorsInOrder(n, Share(n as real, p));
  }

  /** No more than the fraction `q` of `n` places are before this one, and no more than the rest after it. */
  predicate IndexCuts(n: nat, i: int, q: real) {
    i as real <= Share(n as real, q) && (n - 1 - i) as real <= Share(n as real, 1.0 - q)
  }

  lemma FloorsInOrder(n: nat, share: real)
    requires 0.0 < share < n as real * 0.5
    ensures 0 <= share.Floor <= (n as real - share).Floor <= n - 1
    ensures (n - 1 - share.Floor) as real <= n as real - share
    ensures (n - 1 - (n as real - share).Floor) as real <= share
  {
  }

  function AtMost(): (real, real) -> bool {
    (x: real, y: real) => x <= y
  }

  function BySpread(): (Weighted, Weighted) -> bool {
    (a: Weighted, b: Weighted) => a.spread <= b.spread
  }

  lemma FewBelow(sorted: seq<real>, k: nat)
    requires k < |sorted| && SortedBy(sorted, AtMost())
    ensures Sum(sorted, CountBelow(sorted[k])) <= k as real
  {
    hide Sum;
    assert forall i :: k <= i < |sorted| ==> i == k || AtMost()(sorted[k], sorted[i]);
    HeadBound(sorted, k, CountBelow(sorted[k]), One());
    CountsOne(sorted[..k]);
  }

  lemma FewAbove(sorted: seq<real>, k: nat)
    requires k < |sorted| && SortedBy(sorted, AtMost())
    ensures Sum(sorted, CountAbove(sorted[k])) <= (|sorted| - 1 - k) as real
  {
    hide Sum;
    assert forall i :: 0 <= i <= k ==> i == k || AtMost()(sorted[i], sorted[k]);
    TailBound(sorted, k + 1, CountAbove(sorted[k]), One());
    CountsOne(sorted[..k + 1]);
    CountsOne(sorted);
  }

  lemma RangeInside(values: seq<real>, sorted: seq<real>, lo: nat, hi: nat)
    requires multiset(sorted) == multiset(values) && SortedBy(sorted, AtMost()) && lo <= hi < |sorted|
    ensures Inside(Range(sorted[lo], sorted[hi]), values)
  {
    SameMembers(sorted, values);
    assert lo == hi || AtMost()(sorted[lo], sorted[hi]);
    assert sorted[lo] in values && sorted[hi] in values;
  }

  lemma CutByIndex(values: seq<real>, sorted: seq<real>, k: nat, q: real)
    requires multiset(sorted) == multiset(values) && SortedBy(sorted, AtMost())
    requires k < |sorted| == |values| && IndexCuts(|sorted|, k, q)
    ensures CutsCount(values, sorted[k], q)
  {
    hide Share, Sum, SortedBy;
    FewBelow(sorted, k);
    FewAbove(sorted, k);
    SumPermuted(sorted, values, CountBelow(sorted[k]));
    SumPermuted(sorted, values, CountAbove(sorted[k]));
  }

  lemma TrimmedByIndex(values: seq<real>, sorted: seq<real>, p: real)
    requires values != [] && 0.0 < p < 0.5
    requires multiset(sorted) == multiset(values) && SortedBy(sorted, AtMost())
    ensures |sorted| == |values| && 0 <= LowerIndex(|sorted|, p) <= UpperIndex(|sorted|, p) < |sorted|
    ensures var r := Range(sorted[LowerIndex(|sorted|, p)], sorted[UpperIndex(|sorted|, p)]);
            Inside(r, values) && TrimsCount(r, values, p)
  {
    hide Share, Sum, SortedBy, Inside;
    SameMembers(sorted, values);
    IndicesInOrder(|sorted|, p);
    hide LowerIndex, UpperIndex, IndexCuts, CutsCount;
    var lo, hi := LowerIndex(|sorted|, p), UpperIndex(|sorted|, p);
    RangeInside(values, sorted, lo, hi);
    CutByIndex(values, sorted, lo, p);
    CutByIndex(values, sorted, hi, 1.0 - p);
  }

  // ------------------------------------------------------------ weighted quantiles

  /** Index `k` is the first whose prefix weighs at least `target`, or the last one. */
  ghost predicate QuantileAt(ws: seq<Weighted>, target: real, k: nat) {
    && k < |ws|
    && (forall j :: 0 < j <= k ==> Sum(ws[..j], WeightOf()) < target)
    && (k == |ws| - 1 || Sum(ws[..k + 1], WeightOf()) >= target)
  }

  ghost predicate IsQuantile(ws: seq<Weighted>, target: real, value: real) {
    exists k: nat :: QuantileAt(ws, target, k) && value == ws[k].spread
  }

  method CalculateWeightedQuantile(ws: seq<Weighted>, quantile: real, totalWeight: real) returns (r: real)
    ensures ws == [] ==> r == 0.0
    ensures ws != [] ==> IsQuantile(ws, Share(totalWeight, quantile), r)
  {
    if ws == [] {
      return 0.0;
    }
    var target := Share(totalWeight, quantile);
    var accumulated := 0.0;
    for i := 0 to |ws|
      invariant accumulated == Sum(ws[..i], WeightOf())
      invariant forall j :: 0 < j <= i ==> Sum(ws[..j], WeightOf()) < target
    {
      SumNext(ws, i, WeightOf());
      accumulated := accumulated + ws[i].weight;
      if accumulated >= target {
        assert QuantileAt(ws, target, i);
        return ws[i].spread;
      }
    }
    assert QuantileAt(ws, target, |ws| - 1);
    r := ws[|ws| - 1].spread;
  }

  lemma QuantilesInOrder(ws: seq<Weighted>, low: real, high: real, i: nat, j: nat)
    requires low <= high && QuantileAt(ws, low, i) && QuantileAt(ws, high, j)
    ensures i <= j < |ws|
  {
    assert j + 1 <= i ==> Sum(ws[..j + 1], WeightOf()) < low;
  }

  lemma {:induction false} PositiveTotal(ws: seq<Weighted>)
    requires forall i :: 0 <= i < |ws| ==> ws[i].weight > 0.0
    ensures ws != [] ==> Sum(ws, WeightOf()) > 0.0
  {
    if ws != [] {
      PositiveTotal(ws[..|ws| - 1]);
    }
  }

  /** Less than `target` lies below the value at its quantile. */
  lemma WeightBelowQuantile(ws: seq<Weighted>, target: real, k: nat)
    requires SortedBy(ws, BySpread()) && QuantileAt(ws, target, k) && target >= 0.0
    requires forall i :: 0 <= i < |ws| ==> ws[i].weight > 0.0
    ensures Sum(ws, WeightBelow(ws[k].spread)) <= target
  {
    var below, weight := WeightBelow(ws[k].spread), WeightOf();
    forall i | k <= i < |ws| ensures below(ws[i]) == 0.0 {
      assert i > k ==> BySpread()(ws[k], ws[i]);
    }
    assert ws[..0] == [] && Sum(ws[..0], weight) == 0.0;
    hide Sum, SortedBy;
    HeadBound(ws, k, below, weight);
  }

  lemma QuantileReached(ws: seq<Weighted>, target: real, k: nat)
    requires QuantileAt(ws, target, k) && target <= Sum(ws, WeightOf())
    ensures Sum(ws[..k + 1], WeightOf()) >= target
  {
    assert ws[..|ws|] == ws;
  }

  /** No more than the rest lies above it. */
  lemma WeightAboveQuantile(ws: seq<Weighted>, target: real, k: nat)
    requires SortedBy(ws, BySpread()) && QuantileAt(ws, target, k) && target <= Sum(ws, WeightOf())
    requires forall i :: 0 <= i < |ws| ==> ws[i].weight > 0.0
    ensures Sum(ws, WeightAbove(ws[k].spread)) <= Sum(ws, WeightOf()) - target
  {
    var above, weight := WeightAbove(ws[k].spread), WeightOf();
    forall i | 0 <= i < k + 1 ensures above(ws[i]) == 0.0 {
      assert i < k ==> BySpread()(ws[i], ws[k]);
    }
    hide Sum;
    QuantileReached(ws, target, k);
    TailBound(ws, k + 1, above, weight);
  }

  lemma TrimmedByWeight(ws: seq<Weighted>, p: real, total: real, i: nat, j: nat)
    requires ws != [] && 0.0 < p < 0.5 && SortedBy(ws, BySpread())
    requires forall k :: 0 <= k < |ws| ==> ws[k].weight > 0.0
    requires total == Sum(ws, WeightOf())
    requires QuantileAt(ws, Share(total, p), i) && QuantileAt(ws, Share(total, 1.0 - p), j)
    ensures i <= j && ws[i].spread <= ws[j].spread
    ensures TrimsWeight(Range(ws[i].spread, ws[j].spread), ws, p)
  {
    hide QuantileAt, SortedBy, Share;
    PositiveTotal(ws);
    SmallShare(total, p);
    Complement(total, p);
    QuantilesInOrder(ws, Share(total, p), Share(total, 1.0 - p), i, j);
    SpreadsInOrder(ws, i, j);
    CutByWeight(ws, p, i);
    CutByWeight(ws, 1.0 - p, j);
  }

  lemma CutByWeight(ws: seq<Weighted>, q: real, k: nat)
    requires ws != [] && 0.0 < q < 1.0 && SortedBy(ws, BySpread())
    requires forall i :: 0 <= i < |ws| ==> ws[i].weight > 0.0
    requires QuantileAt(ws, Share(Sum(ws, WeightOf()), q), k)
    ensures CutsWeight(ws, ws[k].spread, q)
  {
    hide QuantileAt, SortedBy, Share, Sum;
    var total := Sum(ws, WeightOf());
    PositiveTotal(ws);
    Between(total, q, 1.0);
    Complement(total, q);
    WeightBelowQuantile(ws, Share(total, q), k);
    WeightAboveQuantile(ws, Share(total, q), k);
  }

  lemma SpreadsInOrder(ws: seq<Weighted>, i: nat, j: nat)
    requires i <= j < |ws| && SortedBy(ws, BySpread())
    ensures ws[i].spread <= ws[j].spread
  {
    assert i < j ==> BySpread()(ws[i], ws[j]);
  }

  // ------------------------------------------------------------ change points

  function Id(): real -> real {
    x => x
  }

  function Average(s: seq<real>): real {
    if s == [] then 0.0 else Sum(s, Id()) / |s| as real
  }

  function Abs(x: real): real {
    if x < 0.0 then -x else x
  }

  /** How much the average of the next window departs from that of the previous one; 0 when both are near zero. */
  function Change(prev: real, next: real): real {
    if Abs(prev) > NEAR_ZERO then Abs(next - prev) / Abs(prev)
    else if Abs(next) > NEAR_ZERO then Abs(next) / NEAR_ZERO
    else 0.0
  }

  /** An average that grows or shrinks by the share `c` of itself has changed by `c`. */
  lemma ChangeIsRelative(prev: real, c: real)
    requires Abs(prev) > 0.001
    ensures Change(prev, prev + c * prev) == Abs(c)
  {
    AbsOfProduct(c, prev);
    Arith.QuotientTimes(Abs(c * prev), Abs(prev));
    Arith.Cancel(Change(prev, prev + c * prev), Abs(c), Abs(prev));
    Arith.Cancel(Abs(c), Change(prev, prev + c * prev), Abs(prev));
  }

  lemma AbsOfProduct(x: real, y: real)
    ensures Abs(x * y) == Abs(x) * Abs(y)
  {
    if x >= 0.0 {
      if y >= 0.0 { Arith.ProductNonNegative(x, y); } else { Arith.ProductNonNegative(x, -y); }
    } else {
      if y >= 0.0 { Arith.ProductNonNegative(-x, y); } else { Arith.ProductNonNegative(-x, -y); }
    }
  }

  /** From an average of nearly nothing, the change is how many thousandths the next one is away from 0, once it is more than one. */
  lemma ChangeFromNothing(prev: real, next: real)
    requires Abs(prev) <= 0.001
    ensures Change(prev, next) * 0.001 == if Abs(next) > 0.001 then Abs(next) else 0.0
  {
  }

  predicate Splits(s: seq<real>, i: int) {
    CHANGE_WINDOW <= i <= |s| - CHANGE_WINDOW
  }

  function ChangeAt(s: seq<real>, i: int): real
    requires Splits(s, i)
  {
    Change(Average(s[i - CHANGE_WINDOW..i]), Average(s[i..i + CHANGE_WINDOW]))
  }

  lemma WindowGrows(s: seq<real>, from: nat, j: nat)
    requires from <= j < |s|
    ensures Sum(s[from..j + 1], Id()) == Sum(s[from..j], Id()) + s[j]
  {
    var window := s[from..j + 1];
    SumNext(window, j - from, Id());
    assert window[..j - from] == s[from..j] && window[..j + 1 - from] == window;
  }

  method WindowAverage(s: seq<real>, from: nat, to: nat) returns (avg: real)
    requires from <= to <= |s|
    ensures avg == Average(s[from..to])
  {
    avg := 0.0;
    var count := 0;
    assert s[from..from] == [] && Sum(s[from..from], Id()) == 0.0;
    hide Sum;
    for j := from to to
      invariant count == j - from && avg == Sum(s[from..j], Id())
    {
      WindowGrows(s, from, j);
      avg := avg + s[j];
      count := count + 1;
    }
    if count > 0 {
      avg := avg / count as real;
    }
  }

  /** A split whose change is positive and above the threshold. */
  predicate Jumps(s: seq<real>, threshold: real, i: int) {
    Splits(s, i) && ChangeAt(s, i) > threshold && ChangeAt(s, i) > 0.0
  }

  /** The largest change, the latest of them on a tie. */
  ghost predicate LargestJump(s: seq<real>, threshold: real, point: int) {
    Jumps(s, threshold, point) && forall i :: Splits(s, i) ==>
      ChangeAt(s, i) <= ChangeAt(s, point) && (i > point ==> ChangeAt(s, i) < ChangeAt(s, point))
  }

  /** The split with the largest jump, or -1 when there is none. */
  method DetectSpreadChange(s: seq<real>, threshold: real) returns (point: int)
    ensures point != -1 ==> LargestJump(s, threshold, point)
    ensures point == -1 ==> forall i :: !Jumps(s, threshold, i)
  {
    hide Average, Change;
    if |s| < CHANGE_WINDOW {
      return -1;
    }
    var maxChange := 0.0;
    point := -1;
    var i := |s| - CHANGE_WINDOW;
    while i >= CHANGE_WINDOW
      invariant i <= |s| - CHANGE_WINDOW
      invariant point == -1 ==> maxChange == 0.0
      invariant point != -1 ==> i < point && Splits(s, point) && ChangeAt(s, point) == maxChange > 0.0
      invariant forall k :: Splits(s, k) && k > i ==>
        ChangeAt(s, k) <= maxChange && (k > point != -1 ==> ChangeAt(s, k) < maxChange)
    {
      var prev := WindowAverage(s, i - CHANGE_WINDOW, i);
      var next := WindowAverage(s, i, i + CHANGE_WINDOW);
      var change := Change(prev, next);
      assert change == ChangeAt(s, i);
      if change > maxChange {
        maxChange, point := change, i;
      }
      i := i - 1;
    }
    if maxChange <= threshold {
      point := -1;
    }
  }

  // ------------------------------------------------------------ blending two ranges

  function Mix(w: real, v: real, x: real, y: real): real {
    x * w + y * v
  }

  function Blend(w: real, x: real, y: real): real {
    Mix(w, 1.0 - w, x, y)
  }

  lemma MixOrdered(w: real, v: real, x: real, x': real, y: real, y': real)
    requires 0.0 <= w && 0.0 <= v && x <= x' && y <= y'
    ensures Mix(w, v, x, y) <= Mix(w, v, x', y')
  {
    Arith.MulMonotone(x, x', w);
    Arith.MulMonotone(y, y', v);
  }

  lemma BlendOrdered(w: real, x: real, x': real, y: real, y': real)
    requires 0.0 <= w <= 1.0 && x <= x' && y <= y'
    ensures Blend(w, x, y) <= Blend(w, x', y')
  {
    hide Mix;
    MixOrdered(w, 1.0 - w, x, x', y, y');
  }

  lemma BlendOfSame(w: real, x: real)
    ensures Blend(w, x, x) == x
  {
  }

  lemma BlendBetween(w: real, x: real, y: real)
    requires 0.0 <= w <= 1.0
    ensures Blend(w, x, y) >= x || Blend(w, x, y) >= y
    ensures Blend(w, x, y) <= x || Blend(w, x, y) <= y
  {
    hide Blend;
    var low, high := if x < y then x else y, if x < y then y else x;
    BlendOrdered(w, low, x, low, y);
    BlendOrdered(w, x, high, y, high);
    BlendOfSame(w, low);
    BlendOfSame(w, high);
  }

  /** `r` is away from `a` by this share of the way from `a` to `b`, at both ends. */
  predicate Departs(r: Range, a: Range, b: Range, share: real) {
    r.min - a.min == Share(b.min - a.min, share) && r.max - a.max == Share(b.max - a.max, share)
  }

  function BlendOf(w: real, a: Range, b: Range): Range {
    Range(Blend(w, a.min, b.min), Blend(w, a.max, b.max))
  }

  lemma BlendDeparts(w: real, a: Range, b: Range)
    ensures Departs(BlendOf(w, a, b), a, b, 1.0 - w)
  {
    hide Blend, Share;
    ShareOfTheWay(w, a.min, b.min);
    ShareOfTheWay(w, a.max, b.max);
  }

  lemma ShareOfTheWay(w: real, x: real, y: real)
    ensures Blend(w, x, y) - x == Share(y - x, 1.0 - w)
  {
  }

  lemma DepartsFromOne(r: Range, x: real, y: real, w: real)
    requires Departs(r, Range(y, y), Range(x, x), 1.0 - w)
    ensures r == Range(x + Share(y - x, w), x + Share(y - x, w))
  {
    assert Share(x - y, 1.0 - w) == x - y + Share(y - x, w);
  }

  function Gap(x: real, y: real): real {
    if x < y then y - x else x - y
  }

  /**
   All the weight on recent data gives the later range, none the earlier one, and more of it never takes the blended
   range away from the later one.
   */
  lemma MoreWeightIsNearer(r: Range, s: Range, a: Range, b: Range, w: real, v: real)
    requires Departs(r, a, b, 1.0 - w) && Departs(s, a, b, 1.0 - v) && w <= v <= 1.0
    ensures Gap(s.min, a.min) <= Gap(r.min, a.min) && Gap(s.max, a.max) <= Gap(r.max, a.max)
    ensures (v == 1.0 ==> s == a) && (w == 0.0 ==> r == b)
  {
    hide Share, Gap;
    NearerAtOneEnd(r.min, s.min, a.min, b.min, w, v);
    NearerAtOneEnd(r.max, s.max, a.max, b.max, w, v);
  }

  lemma NearerAtOneEnd(r: real, s: real, a: real, b: real, w: real, v: real)
    requires r - a == Share(b - a, 1.0 - w) && s - a == Share(b - a, 1.0 - v) && w <= v <= 1.0
    ensures Gap(s, a) <= Gap(r, a)
    ensures (v == 1.0 ==> s == a) && (w == 0.0 ==> r == b)
  {
    WholeAndNoShare(b - a);
    hide Share;
    if b >= a {
      LargerShare(b - a, 1.0 - v, 1.0 - w);
    } else {
      LargerShare(a - b, 1.0 - v, 1.0 - w);
      ShareOfOpposite(b - a, 1.0 - v);
      ShareOfOpposite(b - a, 1.0 - w);
    }
  }

  lemma WholeAndNoShare(x: real)
    ensures Share(x, 1.0) == x && Share(x, 0.0) == 0.0
  {
  }

  lemma ShareOfOpposite(x: real, p: real)
    ensures Share(-x, p) == -Share(x, p)
  {
  }

  lemma LargerShare(x: real, p: real, q: real)
    requires x >= 0.0 && 0.0 <= p <= q
    ensures 0.0 <= Share(x, p) <= Share(x, q)
  {
    Arith.MulMonotone(p, q, x);
    Arith.ProductNonNegative(p, x);
  }

  /** A blend of ranges inside two parts is inside the whole. */
  lemma BlendInside(w: real, a: Range, b: Range, before: seq<real>, after: seq<real>)
    requires 0.0 <= w <= 1.0 && Inside(a, after) && Inside(b, before)
    ensures Inside(BlendOf(w, a, b), before + after)
  {
    hide Blend;
    var all := before + after;
    var i, j :| 0 <= i < |after| && 0 <= j < |after| && after[i] <= a.min && a.max <= after[j];
    var k, l :| 0 <= k < |before| && 0 <= l < |before| && before[k] <= b.min && b.max <= before[l];
    BlendOrdered(w, a.min, a.max, b.min, b.max);
    BlendBetween(w, a.min, b.min);
    BlendBetween(w, a.max, b.max);
    assert all[|before| + i] == after[i] && all[|before| + j] == after[j] && all[k] == before[k] && all[l] == before[l];
  }

  // ------------------------------------------------------------ the optimizer

  lemma CutPermuted(sorted: seq<Weighted>, ws: seq<Weighted>, m: real, q: real)
    requires multiset(sorted) == multiset(ws)
    ensures CutsWeight(sorted, m, q) <==> CutsWeight(ws, m, q)
  {
    hide Sum, Share;
    SumPermuted(sorted, ws, WeightOf());
    SumPermuted(sorted, ws, WeightBelow(m));
    SumPermuted(sorted, ws, WeightAbove(m));
  }

  lemma TrimmedBothWays(ws: seq<Weighted>, sorted: seq<Weighted>, p: real, total: real, r: Range)
    requires ws != [] && 0.0 < p < 0.5 && forall k :: 0 <= k < |ws| ==> ws[k].weight > 0.0
    requires multiset(sorted) == multiset(ws) && SortedBy(sorted, BySpread()) && total == Sum(ws, WeightOf())
    requires sorted != [] ==> IsQuantile(sorted, Share(total, p), r.min) && IsQuantile(sorted, Share(total, 1.0 - p), r.max)
    ensures r.min <= r.max && TrimsWeight(r, ws, p)
    ensures exists i, j :: 0 <= i < |ws| && 0 <= j < |ws| && ws[i].spread <= r.min && r.max <= ws[j].spread
  {
    hide Sum, SortedBy, Share, CutsWeight;
    SameMembers(sorted, ws);
    var i: nat :| QuantileAt(sorted, Share(total, p), i) && r.min == sorted[i].spread;
    var j: nat :| QuantileAt(sorted, Share(total, 1.0 - p), j) && r.max == sorted[j].spread;
    SumPermuted(sorted, ws, WeightOf());
    CutPermuted(sorted, ws, r.min, p);
    CutPermuted(sorted, ws, r.max, 1.0 - p);
    forall k | 0 <= k < |sorted| ensures sorted[k].weight > 0.0 {
      assert sorted[k] in ws;
    }
    TrimmedByWeight(sorted, p, total, i, j);
    assert sorted[i] in ws && sorted[j] in ws;
  }

  class Optimizer {
    var minRoundTripProfit: real
    var maxRoundTripProfit: real
    var minThreshold: real
    var maxThreshold: real
    var weightDecay: real
    var useWeightedWindow: bool
    var changeDetectionThreshold: real
    var recentDataWeight: real
    var outlierPercentile: real
    /** The weight of a point this many points before the last: e^(-weightDecay * distance) in the source. */
    const weight: nat -> real

    ghost predicate Valid()
      reads this
    {
      0.0 < outlierPercentile < 0.5 && 0.0 <= recentDataWeight <= 1.0 && forall d: nat :: weight(d) > 0.0
    }

    constructor (minRoundTripProfit: real, weight: nat -> real)
      requires forall d: nat :: weight(d) > 0.0
      ensures Valid() && this.minRoundTripProfit == minRoundTripProfit && this.weight == weight
      ensures maxRoundTripProfit == 0.0 && minThreshold == -1000000.0 && maxThreshold == 0.0
    {
      this.minRoundTripProfit, maxRoundTripProfit := minRoundTripProfit, 0.0;
      minThreshold, maxThreshold := -1000000.0, 0.0;
      weightDecay, useWeightedWindow, changeDetectionThreshold := 0.01, true, 0.3;
      recentDataWeight, outlierPercentile := 0.9, 0.05;
      this.weight := weight;
    }

    /** Percentiles outside (0, 1/2) are ignored. */
    method SetOutlierPercentile(percentile: real)
      requires Valid()
      modifies this`outlierPercentile
      ensures Valid()
      ensures outlierPercentile == if 0.0 < percentile < 0.5 then percentile else old(outlierPercentile)
    {
      if percentile > 0.0 && percentile < 0.5 {
        outlierPercentile := percentile;
      }
    }

    /** Truncated quantiles. */
    method GetRobustRange(spreads: seq<real>) returns (r: Range)
      requires Valid()
      ensures spreads == [] ==> r == Range(0.0, 0.0)
      ensures spreads != [] ==> Inside(r, spreads) && TrimsCount(r, spreads, outlierPercentile)
    {
      if spreads == [] {
        return Range(0.0, 0.0);
      }
      hide Share, Inside, TrimsCount;
      var sorted := Sort(spreads, AtMost());
      TrimmedByIndex(spreads, sorted, outlierPercentile);
      r := Range(sorted[LowerIndex(|sorted|, outlierPercentile)], sorted[UpperIndex(|sorted|, outlierPercentile)]);
    }

    /** The later half of the spreads with the weights of their distance from the end. */
    function Recent(spreads: seq<real>): (ws: seq<Weighted>)
      reads this
      ensures |ws| == |spreads| - |spreads| / 2
    {
      var half := |spreads| / 2;
      seq(|spreads| - half, k requires 0 <= k < |spreads| - half =>
        Weighted(spreads[half + k], weight(|spreads| - 1 - half - k)))
    }

    /** With weights that decay with the distance from the end, a later spread weighs no less, and the last one most. */
    lemma LaterWeighsMore(spreads: seq<real>, i: nat, j: nat)
      requires forall d: nat, e: nat :: d <= e ==> weight(e) <= weight(d)
      requires |spreads| / 2 <= i <= j < |spreads|
      ensures var ws, half := Recent(spreads), |spreads| / 2;
              && ws[i - half].spread == spreads[i] && ws[j - half].spread == spreads[j]
              && ws[i - half].weight <= ws[j - half].weight <= ws[|ws| - 1].weight == weight(0)
    {
      var ws, half := Recent(spreads), |spreads| / 2;
      assert ws[i - half] == Weighted(spreads[i], weight(|spreads| - 1 - i));
      assert ws[j - half] == Weighted(spreads[j], weight(|spreads| - 1 - j));
    }

    /** Weighted quantiles of the later half. */
    method GetWeightedRobustRange(spreads: seq<real>) returns (r: Range)
      requires Valid()
      ensures spreads == [] ==> r == Range(0.0, 0.0)
      ensures spreads != [] ==> Inside(r, spreads) && TrimsWeight(r, Recent(spreads), outlierPercentile)
    {
      if spreads == [] {
        return Range(0.0, 0.0);
      }
      hide Share, TrimsWeight, Recent, Sum, SortedBy, IsQuantile, Inside;
      var recent, recentTotalWeight := WeighRecent(spreads);
      var sorted := Sort(recent, BySpread());
      var low := CalculateWeightedQuantile(sorted, outlierPercentile, recentTotalWeight);
      var high := CalculateWeightedQuantile(sorted, 1.0 - outlierPercentile, recentTotalWeight);
      SameMembers(sorted, recent);
      r := Range(low, high);
      TrimmedBothWays(recent, sorted, outlierPercentile, recentTotalWeight, r);
      InsideRecent(r, spreads);
    }

    method WeighRecent(spreads: seq<real>) returns (recent: seq<Weighted>, total: real)
      ensures recent == Recent(spreads) && total == Sum(recent, WeightOf())
    {
      ghost var half := |spreads| / 2;
      recent, total := [], 0.0;
      for i := |spreads| / 2 to |spreads|
        invariant recent == Recent(spreads)[..i - half] && total == Sum(recent, WeightOf())
      {
        var w := Weighted(spreads[i], weight(|spreads| - 1 - i));
        assert w == Recent(spreads)[i - half];
        SumNext(Recent(spreads), i - half, WeightOf());
        recent, total := recent + [w], total + w.weight;
      }
    }

    /**
     The range lies between trimmed ranges of the spreads from `changePoint` on and before it, away from the later
     one by what the weight of recent data leaves to the earlier one.
     */
    ghost predicate BlendsParts(r: Range, spreads: seq<real>, changePoint: nat)
      requires changePoint <= |spreads|
      reads this
    {
      var before, after := spreads[..changePoint], spreads[changePoint..];
      exists a, b :: Inside(a, after) && TrimsCount(a, after, outlierPercentile)
                     && Inside(b, before) && TrimsCount(b, before, outlierPercentile)
                     && Departs(r, a, b, 1.0 - recentDataWeight)
    }

    /** Truncated quantiles before and after a change, blended with the weight of recent data. */
    method GetSegmentedRobustRange(spreads: seq<real>, changePoint: nat) returns (r: Range)
      requires Valid() && changePoint <= |spreads|
      ensures spreads == [] ==> r == Range(0.0, 0.0)
      ensures spreads != [] ==> Inside(r, spreads)
      ensures 0 < changePoint < |spreads| ==> BlendsParts(r, spreads, changePoint)
    {
      hide Inside, TrimsCount, BlendOf, Departs;
      if spreads == [] {
        return Range(0.0, 0.0);
      }
      var before, after := spreads[..changePoint], spreads[changePoint..];
      assert spreads == before + after;
      var afterRange := GetRobustRange(after);
      var beforeRange := GetRobustRange(before);
      if after != [] && before != [] {
        r := BlendOf(recentDataWeight, afterRange, beforeRange);
        BlendDeparts(recentDataWeight, afterRange, beforeRange);
        BlendInside(recentDataWeight, afterRange, beforeRange, before, after);
      } else if after != [] {
        assert after == spreads;
        r := afterRange;
      } else {
        assert before == spreads;
        r := beforeRange;
      }
    }

    /** Spreads that were all `x` before the change and are all `y` from it on give that share of the step from `x` to `y`. */
    lemma StepIsBlended(r: Range, before: seq<real>, after: seq<real>, x: real, y: real)
      requires BlendsParts(r, before + after, |before|)
      requires (forall v <- before :: v == x) && (forall v <- after :: v == y)
      ensures r == Range(x + Share(y - x, recentDataWeight), x + Share(y - x, recentDataWeight))
    {
      hide TrimsCount, Departs, Inside, Share;
      var all, left := before + after, 1.0 - recentDataWeight;
      assert all[..|before|] == before && all[|before|..] == after;
      var a, b :| Inside(a, after) && TrimsCount(a, after, outlierPercentile)
                  && Inside(b, before) && TrimsCount(b, before, outlierPercentile) && Departs(r, a, b, left);
      InsideOneValue(a, after, y);
      InsideOneValue(b, before, x);
      DepartsFromOne(r, x, y, recentDataWeight);
    }

    /** The range of one direction's spreads, by whichever of the three ways applies. */
    method GetSpreadRangeForDirection(data: seq<Point>, isLong: bool) returns (r: Range)
      requires Valid()
      ensures data == [] ==> r == Range(0.0, 0.0)
      ensures data != [] ==> Inside(r, Spreads(data, isLong))
      ensures var s := Spreads(data, isLong);
              data != [] ==>
                if !(useWeightedWindow && weightDecay > 0.0) then TrimsCount(r, s, outlierPercentile)
                else if forall i :: !Jumps(s, changeDetectionThreshold, i) then TrimsWeight(r, Recent(s), outlierPercentile)
                else exists c :: LargestJump(s, changeDetectionThreshold, c) && BlendsParts(r, s, c)
    {
      hide Inside, TrimsCount, TrimsWeight, Recent, ChangeAt, Departs;
      if data == [] {
        return Range(0.0, 0.0);
      }
      var spreads: seq<real> := [];
      for i := 0 to |data|
        invariant spreads == Spreads(data, isLong)[..i]
      {
        spreads := spreads + [data[i].Spread(isLong)];
      }
      assert spreads == Spreads(data, isLong);
      if useWeightedWindow && weightDecay > 0.0 {
        var changePoint := DetectSpreadChange(spreads, changeDetectionThreshold);
        if changePoint > 0 {
          r := GetSegmentedRobustRange(spreads, changePoint);
        } else {
          r := GetWeightedRobustRange(spreads);
        }
      } else {
        r := GetRobustRange(spreads);
      }
    }

    lemma InsideRecent(r: Range, spreads: seq<real>)
      requires spreads != [] && r.min <= r.max
      requires exists i, j :: 0 <= i < |Recent(spreads)| && 0 <= j < |Recent(spreads)|
                              && Recent(spreads)[i].spread <= r.min && r.max <= Recent(spreads)[j].spread
      ensures Inside(r, spreads)
    {
      var ws, half := Recent(spreads), |spreads| / 2;
      var i, j :| 0 <= i < |ws| && 0 <= j < |ws| && ws[i].spread <= r.min && r.max <= ws[j].spread;
      assert spreads[half + i] <= r.min && r.max <= spreads[half + j];
    }
  }
}
