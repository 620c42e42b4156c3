/**
 Choosing the pair of thresholds for a round trip
 (internal/analytics/fast_trigger_optimizer.go:301-590).
 */
module ThresholdPair {
  import opened Options
  import opened SpreadRange
  import Arith

  const NO_MINIMUM := -100000.0
  const WORST_SCORE := -1000000000.0

  // ------------------------------------------------------------ executions

  /** What a threshold would have executed: how often, at what spreads and with what profit. */
  datatype Tally = Tally(count: nat, spread: real, profit: real)

  predicate Executes(p: Point, isLong: bool, threshold: real) {
    p.Spread(isLong) >= threshold && p.Spread(isLong) - p.Cost(isLong) > 0.0
  }

  function TallyOf(data: seq<Point>, isLong: bool, threshold: real): Tally {
    if data == [] then Tally(0, 0.0, 0.0)
    else
      var rest, p := TallyOf(data[..|data| - 1], isLong, threshold), data[|data| - 1];
      if Executes(p, isLong, threshold)
      then Tally(rest.count + 1, rest.spread + p.Spread(isLong), rest.profit + p.Spread(isLong) - p.Cost(isLong))
      else rest
  }

  /** What one point adds: in the long direction its long spread less the long cost, in the other the short ones. */
  lemma TallyOfPoint(data: seq<Point>, p: Point, threshold: real)
    ensures TallyOf(data + [p], true, threshold) ==
            Added(TallyOf(data, true, threshold), p.spreadLong, p.costLong, threshold)
    ensures TallyOf(data + [p], false, threshold) ==
            Added(TallyOf(data, false, threshold), p.spreadShort, p.costShort, threshold)
  {
    assert (data + [p])[..|data|] == data;
  }

  /** A spread that reaches the threshold and exceeds its cost is one more execution. */
  function Added(t: Tally, spread: real, cost: real, threshold: real): Tally {
    if spread >= threshold && spread > cost then Tally(t.count + 1, t.spread + spread, t.profit + (spread - cost)) else t
  }

  /** A higher threshold executes no more often and earns no more; whatever executes earns. */
  lemma {:induction false} TallyFallsWithThreshold(data: seq<Point>, isLong: bool, low: real, high: real)
    requires low <= high
    ensures TallyOf(data, isLong, high).count <= TallyOf(data, isLong, low).count <= |data|
    ensures 0.0 <= TallyOf(data, isLong, high).profit <= TallyOf(data, isLong, low).profit
    ensures TallyOf(data, isLong, low).count > 0 <==> TallyOf(data, isLong, low).profit > 0.0
  {
    if data != [] {
      TallyFallsWithThreshold(data[..|data| - 1], isLong, low, high);
    }
  }

  function Executions(data: seq<Point>, long: real, short: real): nat {
    TallyOf(data, true, long).count + TallyOf(data, false, short).count
  }

  datatype Candidate = Candidate(threshold: real, executionCount: nat, avgSpread: real, totalProfit: real)
  {
    ghost predicate Of(data: seq<Point>, isLong: bool, thresh: real) {
      var t := TallyOf(data, isLong, thresh);
      threshold == thresh && executionCount == t.count && totalProfit == t.profit
      && avgSpread * t.count as real == t.spread
    }
  }

  method EvaluateCandidate(data: seq<Point>, isLong: bool, thresh: real) returns (c: Candidate)
    ensures c.Of(data, isLong, thresh)
  {
    var execCount, totalSpread, totalProfit := 0, 0.0, 0.0;
    for i := 0 to |data|
      invariant Tally(execCount, totalSpread, totalProfit) == TallyOf(data[..i], isLong, thresh)
      invariant execCount == 0 ==> totalSpread == 0.0
    {
      assert data[..i + 1][..i] == data[..i];
      if data[i].Spread(isLong) >= thresh {
        var netProfit := data[i].Spread(isLong) - data[i].Cost(isLong);
        if netProfit > 0.0 {
          execCount, totalSpread, totalProfit := execCount + 1, totalSpread + data[i].Spread(isLong), totalProfit + netProfit;
        }
      }
    }
    assert data[..|data|] == data;
    var avgSpread := 0.0;
    if execCount > 0 {
      avgSpread := totalSpread / execCount as real;
      Arith.QuotientTimes(totalSpread, execCount as real);
    }
    c := Candidate(thresh, execCount, avgSpread, totalProfit);
  }

  method EvaluateCandidates(data: seq<Point>, isLong: bool, thresholds: seq<real>) returns (cs: seq<Candidate>)
    ensures |cs| == |thresholds| && forall i :: 0 <= i < |cs| ==> cs[i].Of(data, isLong, thresholds[i])
  {
    cs := [];
    for i := 0 to |thresholds|
      invariant |cs| == i && forall k :: 0 <= k < i ==> cs[k].Of(data, isLong, thresholds[k])
    {
      var c := EvaluateCandidate(data, isLong, thresholds[i]);
      cs := cs + [c];
    }
  }

  // ------------------------------------------------------------ constraints and scores

  /** What a round trip has to earn, and may earn at most when that is positive. */
  datatype Limits = Limits(minRequired: real, maxAllowed: real)
  {
    predicate Allow(roundTrip: real) {
      roundTrip >= minRequired && (maxAllowed > 0.0 ==> roundTrip <= maxAllowed)
    }
  }

  function LimitsOf(opt: Optimizer): Limits
    reads opt
  {
    Limits(if opt.minThreshold > NO_MINIMUM && opt.minThreshold > opt.minRoundTripProfit then opt.minThreshold
           else opt.minRoundTripProfit,
           if opt.maxThreshold > 0.0 && (opt.maxRoundTripProfit <= 0.0 || opt.maxThreshold < opt.maxRoundTripProfit)
           then opt.maxThreshold else opt.maxRoundTripProfit)
  }

  /** The limits allow a round trip exactly when all four settings do, the unset ones allowing anything. */
  lemma LimitsMeetSettings(opt: Optimizer, roundTrip: real)
    ensures LimitsOf(opt).Allow(roundTrip) <==>
            && roundTrip >= opt.minRoundTripProfit
            && (opt.minThreshold > NO_MINIMUM ==> roundTrip >= opt.minThreshold)
            && (opt.maxRoundTripProfit > 0.0 ==> roundTrip <= opt.maxRoundTripProfit)
            && (opt.maxThreshold > 0.0 ==> roundTrip <= opt.maxThreshold)
  {
  }

  function MaxRoundTrip(data: seq<Point>): real {
    if data == [] then 0.0
    else
      var rest, p := MaxRoundTrip(data[..|data| - 1]), data[|data| - 1];
      if p.spreadLong + p.spreadShort > rest then p.spreadLong + p.spreadShort else rest
  }

  /** Six parts round trip, relative to the largest in the data, and four parts frequency. */
  function Score(data: seq<Point>, long: real, short: real): real
    requires data != []
  {
    var best := MaxRoundTrip(data);
    var normalizedRoundTrip := if best > 0.0 then (long + short) / best else 0.0;
    var normalizedCount := Executions(data, long, short) as real / |data| as real;
    normalizedRoundTrip * 0.6 + normalizedCount * 0.4
  }

  lemma ScoreNonNegative(data: seq<Point>, long: real, short: real)
    requires data != [] && long + short >= 0.0
    ensures Score(data, long, short) >= 0.0
  {
    if MaxRoundTrip(data) > 0.0 {
      Arith.QuotientOrder(0.0, 1.0, long + short, MaxRoundTrip(data));
    }
    Arith.QuotientOrder(0.0, 1.0, Executions(data, long, short) as real, |data| as real);
  }

  /** Within the limits, and executed at least once in one direction. */
  predicate Admissible(limits: Limits, data: seq<Point>, long: real, short: real) {
    limits.Allow(long + short) && Executions(data, long, short) > 0
  }

  lemma AdmissibleHasData(limits: Limits, data: seq<Point>, long: real, short: real)
    requires Admissible(limits, data, long, short)
    ensures data != []
  {
  }

  method ScorePair(data: seq<Point>, long: Candidate, short: Candidate) returns (score: real)
    requires data != [] && long.Of(data, true, long.threshold) && short.Of(data, false, short.threshold)
    ensures score == Score(data, long.threshold, short.threshold)
  {
    var maxRoundTripInData := 0.0;
    for i := 0 to |data|
      invariant maxRoundTripInData == MaxRoundTrip(data[..i])
    {
      assert data[..i + 1][..i] == data[..i];
      var rt := data[i].spreadLong + data[i].spreadShort;
      if rt > maxRoundTripInData {
        maxRoundTripInData := rt;
      }
    }
    assert data[..|data|] == data;
    var normalizedRoundTrip := 0.0;
    if maxRoundTripInData > 0.0 {
      normalizedRoundTrip := (long.threshold + short.threshold) / maxRoundTripInData;
    }
    var normalizedCount := (long.executionCount + short.executionCount) as real / |data| as real;
    score := normalizedRoundTrip * 0.6 + normalizedCount * 0.4;
  }

  // ------------------------------------------------------------ defaults

  /** The middle of a range around zero, the top of one below it, half the minimal profit otherwise. */
  function DefaultThreshold(r: Range, minRoundTripProfit: real): real {
    if r.min < 0.0 && r.max > 0.0 then (r.min + r.max) / 2.0
    else if r.max <= 0.0 then r.max
    else minRoundTripProfit * 0.5
  }

  /**
   The default lies in a range that is not wholly positive: as far from one end as from the other when the range spans
   zero, and otherwise its largest value. Above zero two defaults make the minimal profit.
   */
  lemma DefaultInRange(r: Range, minRoundTripProfit: real)
    requires r.min <= r.max
    ensures var t := DefaultThreshold(r, minRoundTripProfit);
            if r.min < 0.0 && r.max > 0.0 then r.min <= t <= r.max && t - r.min == r.max - t
            else if r.max <= 0.0 then t == r.max
            else t + t == minRoundTripProfit
  {
  }

  ghost predicate IsDefault(t: real, data: seq<Point>, isLong: bool, minRoundTripProfit: real) {
    exists r: Range :: t == DefaultThreshold(r, minRoundTripProfit)
                       && (if data == [] then r == Range(0.0, 0.0) else Inside(r, Spreads(data, isLong)))
  }

  // ------------------------------------------------------------ the search

  datatype Metrics = Metrics(totalExecutions: nat, avgSpread: real, totalProfit: real)
  {
    ghost predicate Of(data: seq<Point>, long: real, short: real) {
      var l, s := TallyOf(data, true, long), TallyOf(data, false, short);
      totalExecutions == l.count + s.count && totalProfit == l.profit + s.profit
      && avgSpread * totalExecutions as real == l.spread + s.spread
    }
  }

  const NO_METRICS := Metrics(0, 0.0, 0.0)

  /** Pairs are tried row by row. */
  predicate Earlier(a: int, b: int, i: int, j: int) {
    a < i || (a == i && b < j)
  }

  /** No admissible pair tried before row `i`, column `j` scores above `score`, or reaches it when `strictly`. */
  ghost predicate NoneBetter(limits: Limits, data: seq<Point>, longs: seq<real>, shorts: seq<real>, i: int, j: int,
                             score: real, strictly: bool) {
    forall a, b :: 0 <= a < |longs| && 0 <= b < |shorts| && Earlier(a, b, i, j) &&
                   data != [] && Admissible(limits, data, longs[a], shorts[b]) ==>
      Score(data, longs[a], shorts[b]) <= score && (strictly ==> Score(data, longs[a], shorts[b]) < score)
  }

  /** The first of the admissible pairs of the highest score. */
  ghost predicate BestAt(limits: Limits, data: seq<Point>, longs: seq<real>, shorts: seq<real>, i: nat, j: nat) {
    && i < |longs| && j < |shorts| && data != [] && Admissible(limits, data, longs[i], shorts[j])
    && (var score := Score(data, longs[i], shorts[j]);
        && score > WORST_SCORE
        && NoneBetter(limits, data, longs, shorts, i, j, score, true)
        && NoneBetter(limits, data, longs, shorts, |longs|, 0, score, false))
  }

  /** The pair kept so far, when there is one. */
  ghost predicate Leads(limits: Limits, data: seq<Point>, longs: seq<real>, shorts: seq<real>, i: nat, j: nat,
                        long: real, short: real, score: real) {
    && i < |longs| && j < |shorts| && long == longs[i] && short == shorts[j]
    && data != [] && Admissible(limits, data, long, short) && score == Score(data, long, short) > WORST_SCORE
    && NoneBetter(limits, data, longs, shorts, i, j, score, true)
  }

  lemma NothingTried(limits: Limits, data: seq<Point>, longs: seq<real>, shorts: seq<real>, score: real)
    ensures NoneBetter(limits, data, longs, shorts, 0, 0, score, false)
  {
  }

  lemma LeaderIsBest(limits: Limits, data: seq<Point>, longs: seq<real>, shorts: seq<real>, i: nat, j: nat,
                     long: real, short: real, score: real)
    requires Leads(limits, data, longs, shorts, i, j, long, short, score)
    requires NoneBetter(limits, data, longs, shorts, |longs|, 0, score, false)
    ensures BestAt(limits, data, longs, shorts, i, j)
    ensures !NoneBetter(limits, data, longs, shorts, |longs|, 0, WORST_SCORE, false)
  {
    hide Score, Admissible;
    assert Earlier(i, j, |longs|, 0);
  }

  /** A loss so large against the best round trip in the data that no frequency makes up for it. */
  predicate Hidden(data: seq<Point>, long: real, short: real)
    requires data != []
  {
    var best, frequency := MaxRoundTrip(data), Executions(data, long, short) as real / |data| as real;
    best > 0.0 && (long + short) * 0.6 + frequency * 0.4 * best <= WORST_SCORE * best
  }

  lemma ScoreTimes(roundTrip: real, rest: real, best: real)
    requires best > 0.0
    ensures (roundTrip / best * 0.6 + rest) * best == roundTrip * 0.6 + rest * best
  {
    Arith.QuotientTimes(roundTrip, best);
  }

  /** The starting score hides exactly such pairs. */
  lemma HiddenIff(data: seq<Point>, long: real, short: real)
    requires data != []
    ensures Score(data, long, short) <= WORST_SCORE <==> Hidden(data, long, short)
  {
    hide MaxRoundTrip, Executions;
    var best, frequency := MaxRoundTrip(data), Executions(data, long, short) as real / |data| as real;
    FrequencyNonNegative(Executions(data, long, short), |data|);
    if best > 0.0 {
      ScoreTimes(long + short, frequency * 0.4, best);
      Arith.TimesOrder(Score(data, long, short), WORST_SCORE, best);
    }
  }

  lemma FrequencyNonNegative(count: nat, n: nat)
    requires n > 0
    ensures count as real / n as real >= 0.0
  {
    Arith.QuotientOrder(0.0, 1.0, count as real, n as real);
  }

  /** The defaults are returned exactly when the starting score hides every admissible pair. */
  lemma NoneBetterIffAllHidden(limits: Limits, data: seq<Point>, longs: seq<real>, shorts: seq<real>)
    ensures NoneBetter(limits, data, longs, shorts, |longs|, 0, WORST_SCORE, false) <==>
            (forall a, b :: 0 <= a < |longs| && 0 <= b < |shorts| && data != [] && Admissible(limits, data, longs[a], shorts[b]) ==>
               Hidden(data, longs[a], shorts[b]))
  {
    hide Score, Admissible, Hidden;
    forall a, b | 0 <= a < |longs| && 0 <= b < |shorts| && data != []
      ensures Score(data, longs[a], shorts[b]) <= WORST_SCORE <==> Hidden(data, longs[a], shorts[b])
      ensures Earlier(a, b, |longs|, 0)
    {
      HiddenIff(data, longs[a], shorts[b]);
    }
  }

  /** What a round trip has to earn is no such loss; no required minimum of 0 or more is. */
  predicate HidesNothing(limits: Limits, data: seq<Point>) {
    MaxRoundTrip(data) > 0.0 ==> limits.minRequired * 0.6 > WORST_SCORE * MaxRoundTrip(data)
  }

  lemma ProfitHidesNothing(limits: Limits, data: seq<Point>)
    requires limits.minRequired >= 0.0
    ensures HidesNothing(limits, data)
  {
    hide MaxRoundTrip;
    if MaxRoundTrip(data) > 0.0 {
      Arith.MulStrict(WORST_SCORE, 0.0, MaxRoundTrip(data));
    }
  }

  /** Then the defaults are returned exactly when no pair is admissible. */
  lemma NoneBetterIffNoneAdmissible(limits: Limits, data: seq<Point>, longs: seq<real>, shorts: seq<real>)
    requires HidesNothing(limits, data)
    ensures NoneBetter(limits, data, longs, shorts, |longs|, 0, WORST_SCORE, false) <==>
            (forall a, b :: 0 <= a < |longs| && 0 <= b < |shorts| ==> !Admissible(limits, data, longs[a], shorts[b]))
  {
    hide Score, Executions, NoneBetter, Hidden;
    NoneBetterIffAllHidden(limits, data, longs, shorts);
    forall a, b | 0 <= a < |longs| && 0 <= b < |shorts| && Admissible(limits, data, longs[a], shorts[b])
      ensures data != [] && !Hidden(data, longs[a], shorts[b])
    {
      AdmissibleHasData(limits, data, longs[a], shorts[b]);
      NotHidden(limits, data, longs[a], shorts[b]);
    }
  }

  lemma NotHidden(limits: Limits, data: seq<Point>, long: real, short: real)
    requires HidesNothing(limits, data) && data != [] && long + short >= limits.minRequired
    ensures !Hidden(data, long, short)
  {
    hide MaxRoundTrip, Executions;
    FrequencyNonNegative(Executions(data, long, short), |data|);
    if MaxRoundTrip(data) > 0.0 {
      Arith.ProductNonNegative(Executions(data, long, short) as real / |data| as real * 0.4, MaxRoundTrip(data));
    }
  }

  /** A best round trip of a billionth, and a pair that loses 4 where a loss of 10 is accepted: admissible and hidden. */
  lemma HiddenPair() returns (limits: Limits, data: seq<Point>, long: real, short: real)
    ensures data != [] && Admissible(limits, data, long, short)
    ensures NoneBetter(limits, data, [long], [short], 1, 0, WORST_SCORE, false)
  {
    limits, long, short := Limits(-10.0, 0.0), -2.0, -2.0;
    data := [Point(0.000000001, 0.0, 0.0, 0.0)];
    assert data[..0] == [];
    assert MaxRoundTrip(data) == 0.000000001;
    assert TallyOf(data, true, long).count == 1 && TallyOf(data, false, short).count == 0;
    assert Hidden(data, long, short);
    NoneBetterIffAllHidden(limits, data, [long], [short]);
  }

  lemma AverageOfBoth(l: Candidate, s: Candidate, data: seq<Point>)
    requires l.Of(data, true, l.threshold) && s.Of(data, false, s.threshold) && l.executionCount + s.executionCount > 0
    ensures var total := l.executionCount + s.executionCount;
            var sum := l.executionCount as real * l.avgSpread + s.executionCount as real * s.avgSpread;
            Metrics(total, sum / total as real, l.totalProfit + s.totalProfit).Of(data, l.threshold, s.threshold)
  {
    var total := l.executionCount + s.executionCount;
    var sum := l.executionCount as real * l.avgSpread + s.executionCount as real * s.avgSpread;
    Arith.QuotientTimes(sum, total as real);
    assert l.executionCount as real * l.avgSpread == l.avgSpread * l.executionCount as real;
    assert s.executionCount as real * s.avgSpread == s.avgSpread * s.executionCount as real;
  }

  /** One more pair tried: either it is no better, or it is the best so far. */
  lemma OneMorePair(limits: Limits, data: seq<Point>, longs: seq<real>, shorts: seq<real>, i: nat, j: nat, score: real)
    requires i < |longs| && j < |shorts|
    requires NoneBetter(limits, data, longs, shorts, i, j, score, false)
    ensures data != [] && Admissible(limits, data, longs[i], shorts[j]) && Score(data, longs[i], shorts[j]) > score ==>
      var better := Score(data, longs[i], shorts[j]);
      NoneBetter(limits, data, longs, shorts, i, j, better, true)
      && NoneBetter(limits, data, longs, shorts, i, j + 1, better, false)
    ensures !(data != [] && Admissible(limits, data, longs[i], shorts[j]) && Score(data, longs[i], shorts[j]) > score) ==>
      NoneBetter(limits, data, longs, shorts, i, j + 1, score, false)
  {
    hide Score, Admissible;
  }

  lemma NextRow(limits: Limits, data: seq<Point>, longs: seq<real>, shorts: seq<real>, i: nat, score: real)
    requires NoneBetter(limits, data, longs, shorts, i, |shorts|, score, false)
    ensures NoneBetter(limits, data, longs, shorts, i + 1, 0, score, false)
  {
    hide Score, Admissible;
  }

  /** The score and metrics of a pair, unless a limit or the lack of executions excludes it. */
  method ConsiderPair(limits: Limits, data: seq<Point>, long: Candidate, short: Candidate)
    returns (score: Option<real>, metrics: Metrics)
    requires long.Of(data, true, long.threshold) && short.Of(data, false, short.threshold)
    ensures score.Some? <==> Admissible(limits, data, long.threshold, short.threshold)
    ensures score.Some? ==> data != [] && score.value == Score(data, long.threshold, short.threshold)
                            && metrics.Of(data, long.threshold, short.threshold)
  {
    hide Score;
    score, metrics := None, NO_METRICS;
    var roundTripProfit := long.threshold + short.threshold;
    if roundTripProfit < limits.minRequired {
      return;
    }
    if limits.maxAllowed > 0.0 && roundTripProfit > limits.maxAllowed {
      return;
    }
    if long.executionCount == 0 && short.executionCount == 0 {
      return;
    }
    var total := long.executionCount + short.executionCount;
    var spreadSum := long.executionCount as real * long.avgSpread + short.executionCount as real * short.avgSpread;
    AverageOfBoth(long, short, data);
    AdmissibleHasData(limits, data, long.threshold, short.threshold);
    metrics := Metrics(total, spreadSum / total as real, long.totalProfit + short.totalProfit);
    var s := ScorePair(data, long, short);
    score := Some(s);
  }

  /**
     Without an opportunity, or when no admissible pair scores above the starting score, the defaults and no
     metrics; otherwise the first admissible pair of the highest score, with what it would have executed.
   */
  method FindBestThresholdPair(opt: Optimizer, data: seq<Point>, longs: seq<real>, shorts: seq<real>,
                               hasRoundTripOpportunity: bool)
    returns (long: real, short: real, metrics: Metrics)
    requires opt.Valid()
    ensures !hasRoundTripOpportunity || NoneBetter(LimitsOf(opt), data, longs, shorts, |longs|, 0, WORST_SCORE, false) ==>
      && IsDefault(long, data, true, opt.minRoundTripProfit) && IsDefault(short, data, false, opt.minRoundTripProfit)
      && metrics == NO_METRICS
    ensures hasRoundTripOpportunity && !NoneBetter(LimitsOf(opt), data, longs, shorts, |longs|, 0, WORST_SCORE, false) ==>
      && metrics.Of(data, long, short)
      && exists i: nat, j: nat :: BestAt(LimitsOf(opt), data, longs, shorts, i, j) && long == longs[i] && short == shorts[j]
  {
    hide Score, Admissible, LimitsOf, TallyOf, Inside, NoneBetter, Executions;
    var longRange := opt.GetSpreadRangeForDirection(data, true);
    var shortRange := opt.GetSpreadRangeForDirection(data, false);
    long := DefaultThreshold(longRange, opt.minRoundTripProfit);
    short := DefaultThreshold(shortRange, opt.minRoundTripProfit);
    metrics := NO_METRICS;
    assert IsDefault(long, data, true, opt.minRoundTripProfit);
    assert IsDefault(short, data, false, opt.minRoundTripProfit);
    if !hasRoundTripOpportunity {
      return;
    }
    var ls := EvaluateCandidates(data, true, longs);
    var ss := EvaluateCandidates(data, false, shorts);
    var bestScore := WORST_SCORE;
    var limits := LimitsOf(opt);
    ghost var found, bi, bj := false, 0, 0;
    NothingTried(limits, data, longs, shorts, bestScore);
    for i := 0 to |ls|
      invariant NoneBetter(limits, data, longs, shorts, i, 0, bestScore, false)
      invariant !found ==> bestScore == WORST_SCORE && metrics == NO_METRICS
      invariant !found ==> IsDefault(long, data, true, opt.minRoundTripProfit) && IsDefault(short, data, false, opt.minRoundTripProfit)
      invariant found ==> metrics.Of(data, long, short) && Leads(limits, data, longs, shorts, bi, bj, long, short, bestScore)
    {
      for j := 0 to |ss|
        invariant NoneBetter(limits, data, longs, shorts, i, j, bestScore, false)
        invariant !found ==> bestScore == WORST_SCORE && metrics == NO_METRICS
        invariant !found ==> IsDefault(long, data, true, opt.minRoundTripProfit) && IsDefault(short, data, false, opt.minRoundTripProfit)
        invariant found ==> metrics.Of(data, long, short) && Leads(limits, data, longs, shorts, bi, bj, long, short, bestScore)
      {
        OneMorePair(limits, data, longs, shorts, i, j, bestScore);
        var score, candidate := ConsiderPair(limits, data, ls[i], ss[j]);
        if score.Some? && score.value > bestScore {
          bestScore, long, short, metrics := score.value, ls[i].threshold, ss[j].threshold, candidate;
          found, bi, bj := true, i, j;
        }
      }
      NextRow(limits, data, longs, shorts, i, bestScore);
    }
    if found {
      LeaderIsBest(limits, data, longs, shorts, bi, bj, long, short, bestScore);
    }
  }
}
