/**
 The trimmed price history and the slope read from it
 (internal/opportunities/price_history.go). Clock readings are nanoseconds.
 */
module PriceHistory {
  import opened Options
  import opened LeastSquares
  import Text

  const NANOS_PER_MINUTE := 60000000000.0

  type Key = string

  datatype Point = Point(price: real, timestamp: int, volume: real)

  /** Symbol and lower-cased exchange. */
  function HistoryKey(symbol: string, exchange: string): Key {
    symbol + ":" + Text.LowerCase(exchange)
  }

  /** Two exchanges without a colon in their names share a key exactly for one symbol and one name, whatever its case. */
  lemma KeysMeetIff(s: string, a: string, t: string, b: string)
    requires ':' !in a && ':' !in b
    ensures HistoryKey(s, a) == HistoryKey(t, b) <==> s == t && Text.EqualFold(a, b)
  {
    forall i | 0 <= i < |a| ensures Text.LowerCase(a)[i] != ':' {
      assert a[i] in a;
    }
    forall i | 0 <= i < |b| ensures Text.LowerCase(b)[i] != ':' {
      assert b[i] in b;
    }
    Text.LastColonSplits(s, Text.LowerCase(a), t, Text.LowerCase(b));
    Text.SameLowerCaseIff(a, b);
  }

  // ------------------------------------------------------------ the slope of a window

  /** The points a query uses: strictly after the cutoff and with a positive price. */
  function Recent(points: seq<Point>, cutoff: int): seq<Point> {
    if points == [] then []
    else if points[0].timestamp > cutoff && points[0].price > 0.0 then [points[0]] + Recent(points[1..], cutoff)
    else Recent(points[1..], cutoff)
  }

  /** Minutes since the first point, and the price change relative to it. */
  function Normalized(p: Point, base: Point): Sample
    requires base.price != 0.0
  {
    Sample((p.timestamp - base.timestamp) as real / NANOS_PER_MINUTE, (p.price - base.price) / base.price)
  }

  function Samples(window: seq<Point>): seq<Sample>
    requires window != [] ==> window[0].price != 0.0
  {
    seq(|window|, i requires 0 <= i < |window| => Normalized(window[i], window[0]))
  }

  ghost predicate AllPositive(points: seq<Point>) {
    forall i :: 0 <= i < |points| ==> points[i].price > 0.0
  }

  lemma {:induction false} RecentIsPositive(points: seq<Point>, cutoff: int)
    ensures AllPositive(Recent(points, cutoff))
  {
    if points != [] {
      RecentIsPositive(points[1..], cutoff);
    }
  }

  /** The slope of the points after the cutoff. */
  function WindowSlope(points: seq<Point>, cutoff: int): Option<real> {
    RecentIsPositive(points, cutoff);
    Slope(Samples(Recent(points, cutoff)))
  }

  lemma {:induction false} RecentConcat(a: seq<Point>, b: seq<Point>, cutoff: int)
    ensures Recent(a + b, cutoff) == Recent(a, cutoff) + Recent(b, cutoff)
  {
    if a == [] {
      assert a + b == b;
    } else {
      assert (a + b)[0] == a[0] && (a + b)[1..] == a[1..] + b;
      RecentConcat(a[1..], b, cutoff);
    }
  }

  lemma {:induction false} OldPointsAreUnused(old_: seq<Point>, cutoff: int)
    requires forall i :: 0 <= i < |old_| ==> old_[i].timestamp <= cutoff
    ensures Recent(old_, cutoff) == []
  {
    if old_ != [] {
      OldPointsAreUnused(old_[1..], cutoff);
    }
  }

  // ------------------------------------------------------------ the buffer

  /** `kept` is an end of `all` no longer than the cap, and unless the cap has cut it, only points up to `oldest` are gone. */
  ghost predicate Refines(kept: seq<Point>, all: seq<Point>, maxPoints: nat, oldest: int, cut: bool) {
    && |kept| <= maxPoints && |kept| <= |all|
    && kept == all[|all| - |kept|..]
    && (!cut ==> forall i :: 0 <= i < |all| - |kept| ==> all[i].timestamp <= oldest)
  }

  /** The time trim: the leading points that are not after the cutoff go. */
  method DropOld(points: seq<Point>, cutoff: int) returns (kept: seq<Point>)
    ensures |kept| <= |points| && kept == points[|points| - |kept|..]
    ensures forall i :: 0 <= i < |points| - |kept| ==> points[i].timestamp <= cutoff
    ensures kept != [] ==> kept[0].timestamp > cutoff
  {
    var i := 0;
    while i < |points|
      invariant 0 <= i <= |points|
      invariant forall j :: 0 <= j < i ==> points[j].timestamp <= cutoff
    {
      if points[i].timestamp > cutoff {
        break;
      }
      i := i + 1;
    }
    kept := if i > 0 then points[i..] else points;
  }

  /** `kept` is an end of `points`, and unless the cap has cut it only points up to the cutoff are gone. */
  ghost predicate Trimmed(points: seq<Point>, kept: seq<Point>, maxPoints: nat, cutoff: int, cut: bool) {
    && |kept| <= |points| && |kept| <= maxPoints
    && kept == points[|points| - |kept|..]
    && (!cut ==> forall i :: 0 <= i < |points| - |kept| ==> points[i].timestamp <= cutoff)
  }

  /** The time trim and then the length trim; `cut` says whether the second one took anything. */
  method Trim(points: seq<Point>, cutoff: int, maxPoints: nat) returns (kept: seq<Point>, ghost cut: bool)
    ensures Trimmed(points, kept, maxPoints, cutoff, cut)
    ensures cut ==> |kept| == maxPoints
  {
    kept := DropOld(points, cutoff);
    cut := |kept| > maxPoints;
    if |kept| > maxPoints {
      SuffixOfSuffix(points, kept, maxPoints);
      kept := kept[|kept| - maxPoints..];
    }
  }

  type Log = map<Key, seq<Point>>

  function PointsOf(log: Log, key: Key): seq<Point> {
    if key in log then log[key] else []
  }

  ghost predicate AllRefine(kept: Log, all: Log, maxPoints: nat, oldest: int, capped: set<Key>) {
    forall key :: Refines(PointsOf(kept, key), PointsOf(all, key), maxPoints, oldest, key in capped)
  }

  lemma SuffixOfSuffix<T>(s: seq<T>, t: seq<T>, n: nat)
    requires n <= |t| <= |s| && t == s[|s| - |t|..]
    ensures t[|t| - n..] == s[|s| - n..]
  {
  }

  /** A query whose cutoff is no earlier than the oldest trimmed point sees the same points. */
  lemma TrimmedAnswers(kept: seq<Point>, all: seq<Point>, maxPoints: nat, oldest: int, cutoff: int)
    requires Refines(kept, all, maxPoints, oldest, false) && oldest <= cutoff
    ensures Recent(kept, cutoff) == Recent(all, cutoff)
  {
    var dropped := all[..|all| - |kept|];
    assert all == dropped + kept;
    OldPointsAreUnused(dropped, cutoff);
    RecentConcat(dropped, kept, cutoff);
  }

  lemma {:induction false} NothingRecentIff(points: seq<Point>, cutoff: int)
    ensures Recent(points, cutoff) == [] <==>
            forall i :: 0 <= i < |points| ==> points[i].timestamp <= cutoff || points[i].price <= 0.0
  {
    if points != [] {
      NothingRecentIff(points[1..], cutoff);
      if forall i :: 0 <= i < |points| ==> points[i].timestamp <= cutoff || points[i].price <= 0.0 {
        assert forall i :: 0 <= i < |points| - 1 ==> points[1..][i] == points[i + 1];
      } else {
        var i :| 0 <= i < |points| && points[i].timestamp > cutoff && points[i].price > 0.0;
        assert i > 0 ==> points[1..][i - 1] == points[i];
      }
    }
  }

  /** An end of a log answers as all of it exactly when nothing usable was dropped before it. */
  lemma EndAnswersIff(dropped: seq<Point>, kept: seq<Point>, cutoff: int)
    ensures Recent(kept, cutoff) == Recent(dropped + kept, cutoff) <==>
            forall i :: 0 <= i < |dropped| ==> dropped[i].timestamp <= cutoff || dropped[i].price <= 0.0
  {
    hide Recent;
    RecentConcat(dropped, kept, cutoff);
    NothingRecentIff(dropped, cutoff);
    if Recent(dropped, cutoff) == [] {
      assert [] + Recent(kept, cutoff) == Recent(kept, cutoff);
    } else {
      assert |Recent(dropped, cutoff) + Recent(kept, cutoff)| > |Recent(kept, cutoff)|;
    }
  }

  lemma RefinesLater(kept: seq<Point>, all: seq<Point>, maxPoints: nat, oldest: int, later: int, cut: bool)
    requires Refines(kept, all, maxPoints, oldest, cut) && oldest <= later
    ensures Refines(kept, all, maxPoints, later, cut)
  {
  }

  lemma RefinesAt(kept: Log, all: Log, maxPoints: nat, oldest: int, capped: set<Key>, key: Key)
    requires AllRefine(kept, all, maxPoints, oldest, capped)
    ensures Refines(PointsOf(kept, key), PointsOf(all, key), maxPoints, oldest, key in capped)
  {
  }

  lemma RecordKeepsRefinement(kept: Log, all: Log, maxPoints: nat, oldest: int, capped: set<Key>,
                              key: Key, points: seq<Point>, p: Point, later: int, cut: bool)
    requires AllRefine(kept, all, maxPoints, oldest, capped) && oldest <= later
    requires Refines(points, PointsOf(all, key) + [p], maxPoints, later, key in capped || cut)
    ensures AllRefine(kept[key := points], all[key := PointsOf(all, key) + [p]], maxPoints, later,
                      if cut then capped + {key} else capped)
  {
    hide Refines;
    var kept', all' := kept[key := points], all[key := PointsOf(all, key) + [p]];
    var capped' := if cut then capped + {key} else capped;
    forall k ensures Refines(PointsOf(kept', k), PointsOf(all', k), maxPoints, later, k in capped') {
      if k != key {
        RefinesAt(kept, all, maxPoints, oldest, capped, k);
        RefinesLater(PointsOf(kept, k), PointsOf(all, k), maxPoints, oldest, later, k in capped);
      }
    }
  }

  lemma RecordRefines(before: seq<Point>, all: seq<Point>, p: Point, points: seq<Point>, kept: seq<Point>, maxPoints: nat,
                      oldest: int, cutoff: int, wasCut: bool, cut: bool)
    requires Refines(before, all, maxPoints, oldest, wasCut) && oldest <= cutoff && points == before + [p]
    requires Trimmed(points, kept, maxPoints, cutoff, cut)
    ensures Refines(kept, all + [p], maxPoints, cutoff, wasCut || cut)
  {
    var d := |all| - |before|;
    assert forall i :: 0 <= i < |points| ==> (all + [p])[d + i] == points[i];
    forall i | !wasCut && !cut && 0 <= i < |all| + 1 - |kept| ensures (all + [p])[i].timestamp <= cutoff {
      if i >= d {
        assert (all + [p])[d + (i - d)] == points[i - d];
      }
    }
  }

  /** Storing what is left of a key's points after one more keeps every key a refinement of its log. */
  lemma StoreRefines(kept: Log, all: Log, maxPoints: nat, oldest: int, capped: set<Key>,
                     key: Key, p: Point, points: seq<Point>, cutoff: int, cut: bool)
    requires AllRefine(kept, all, maxPoints, oldest, capped) && oldest <= cutoff
    requires Trimmed(PointsOf(kept, key) + [p], points, maxPoints, cutoff, cut)
    ensures AllRefine(kept[key := points], all[key := PointsOf(all, key) + [p]], maxPoints, cutoff,
                      if cut then capped + {key} else capped)
  {
    RefinesAt(kept, all, maxPoints, oldest, capped, key);
    hide Refines, AllRefine, Trimmed;
    RecordRefines(PointsOf(kept, key), PointsOf(all, key), p, PointsOf(kept, key) + [p], points, maxPoints,
                  oldest, cutoff, key in capped, cut);
    RecordKeepsRefinement(kept, all, maxPoints, oldest, capped, key, points, p, cutoff, cut);
  }

  lemma {:induction false} SumsOfPrefix(s: seq<Sample>, k: nat)
    requires k < |s|
    ensures SumX(s[..k + 1]) == SumX(s[..k]) + s[k].x && SumY(s[..k + 1]) == SumY(s[..k]) + s[k].y
    ensures SumXX(s[..k + 1]) == SumXX(s[..k]) + Mul(s[k].x, s[k].x)
    ensures SumXY(s[..k + 1]) == SumXY(s[..k]) + Mul(s[k].x, s[k].y)
  {
    hide Mul;
    if k == 0 {
      assert s[..1] == [s[0]] && s[..0] == [] && [s[0]][1..] == [];
    } else {
      SumsOfPrefix(s[1..], k - 1);
      assert s[..k + 1][1..] == s[1..][..k] && s[..k][1..] == s[1..][..k - 1];
    }
  }

  class PriceHistory {
    const maxPoints: nat
    const windowSize: int

    var histories: map<Key, seq<Point>>

    /** Everything ever recorded, the latest clock reading, and the keys the cap has cut. */
    ghost var log: map<Key, seq<Point>>
    ghost var clock: int
    ghost var capped: set<Key>

    constructor (maxPoints: nat, windowSize: int, ghost now: int)
      ensures this.maxPoints == maxPoints && this.windowSize == windowSize
      ensures Valid() && histories == map[] && log == map[] && clock == now && capped == {}
    {
      this.maxPoints, this.windowSize := maxPoints, windowSize;
      histories, log, clock, capped := map[], map[], now, {};
    }

    function Points(key: Key): seq<Point>
      reads this
    {
      PointsOf(histories, key)
    }

    ghost function Logged(key: Key): seq<Point>
      reads this
    {
      PointsOf(log, key)
    }

    ghost predicate Valid()
      reads this
    {
      AllRefine(histories, log, maxPoints, clock - windowSize, capped)
    }

    /** Appending a point, trimming by time and then by length. */
    method Store(key: Key, p: Point, now: int)
      requires Valid() && clock <= now
      modifies this
      ensures Valid() && clock == now
      ensures log == old(log)[key := old(Logged(key)) + [p]]
      ensures histories == old(histories)[key := Points(key)]
      ensures capped == old(capped) || (capped == old(capped) + {key} && |Points(key)| == maxPoints)
    {
      var points := Points(key) + [p];
      var cutoff := now - windowSize;
      var kept, cut := Trim(points, cutoff, maxPoints);
      hide Refines, AllRefine, Trimmed;
      StoreRefines(histories, log, maxPoints, clock - windowSize, capped, key, p, kept, cutoff, cut);
      histories := histories[key := kept];
      log := log[key := Logged(key) + [p]];
      clock := now;
      capped := if cut then capped + {key} else capped;
    }

    method RecordAt(symbol: string, exchange: string, price: real, volume: real, ts: int, now: int)
      requires Valid() && clock <= now
      modifies this
      ensures Valid() && clock == now
      ensures var key := HistoryKey(symbol, exchange);
        && log == old(log)[key := old(Logged(key)) + [Point(price, ts, volume)]]
        && histories == old(histories)[key := Points(key)]
        && (capped == old(capped) || (capped == old(capped) + {key} && |Points(key)| == maxPoints))
    {
      Store(HistoryKey(symbol, exchange), Point(price, ts, volume), now);
    }

    /**
     The slope over the window. Until the cap has cut the key, a query no wider than the
     history's own window answers as if nothing had ever been dropped.
     */
    method GetSlopeInWindow(symbol: string, exchange: string, window: int, now: int) returns (slope: real, hasData: bool)
      ensures var r := WindowSlope(Points(HistoryKey(symbol, exchange)), now - window);
        if r.Some? then hasData && slope == r.value else !hasData && slope == 0.0
      ensures var used := Recent(Points(HistoryKey(symbol, exchange)), now - window);
        && (hasData <==> !SameTimestamps(used))
        && forall c :: hasData && Rises(used, c) ==> slope == c
    {
      GetsTheShare(Points(HistoryKey(symbol, exchange)), now - window);
      hide SameTimestamps, Rises;
      var points := Points(HistoryKey(symbol, exchange));
      var cutoff := now - window;
      var windowPoints: seq<Point> := [];
      for i := 0 to |points|
        invariant windowPoints == Recent(points[..i], cutoff)
      {
        assert points[..i + 1] == points[..i] + [points[i]];
        RecentConcat(points[..i], [points[i]], cutoff);
        if points[i].timestamp > cutoff && points[i].price > 0.0 {
          windowPoints := windowPoints + [points[i]];
        }
      }
      assert points[..|points|] == points;
      RecentIsPositive(points, cutoff);
      if |windowPoints| < 2 {
        return 0.0, false;
      }
      var base := windowPoints[0];
      var sumX, sumY, sumXX, sumXY := 0.0, 0.0, 0.0, 0.0;
      ghost var s := Samples(windowPoints);
      hide Mul;
      for i := 0 to |windowPoints|
        invariant sumX == SumX(s[..i]) && sumY == SumY(s[..i])
        invariant sumXX == SumXX(s[..i]) && sumXY == SumXY(s[..i])
      {
        var p := Normalized(windowPoints[i], base);
        SumsOfPrefix(s, i);
        sumX, sumY := sumX + p.x, sumY + p.y;
        sumXX, sumXY := sumXX + Mul(p.x, p.x), sumXY + Mul(p.x, p.y);
      }
      assert s[..|windowPoints|] == s;
      var n := |windowPoints| as real;
      var denominator := Mul(n, sumXX) - Mul(sumX, sumX);
      if denominator == 0.0 {
        return 0.0, false;
      }
      return (Mul(n, sumXY) - Mul(sumX, sumY)) / denominator, true;
    }

    /** Trimming by time is invisible to any later query no wider than the history's window. */
    lemma TrimmingIsInvisible(key: Key, window: int, now: int)
      requires Valid() && clock <= now && window <= windowSize && key !in capped
      ensures Recent(Points(key), now - window) == Recent(Logged(key), now - window)
      ensures WindowSlope(Points(key), now - window) == WindowSlope(Logged(key), now - window)
    {
      RefinesAt(histories, log, maxPoints, clock - windowSize, capped, key);
      TrimmedAnswers(Points(key), Logged(key), maxPoints, clock - windowSize, now - window);
    }

    /** What has been dropped of a key, by time or by the cap. */
    ghost function Dropped(key: Key): (dropped: seq<Point>)
      requires Valid()
      reads this
      ensures Logged(key) == dropped + Points(key)
    {
      RefinesAt(histories, log, maxPoints, clock - windowSize, capped, key);
      Logged(key)[..|Logged(key)| - |Points(key)|]
    }

    /**
     Any query, also of a key that the cap has cut, uses the points of the full log exactly when every
     dropped point with a positive price is no later than the query's cutoff; and then has its slope.
     */
    lemma AnswersInFullIff(key: Key, cutoff: int)
      requires Valid()
      ensures Recent(Points(key), cutoff) == Recent(Logged(key), cutoff) <==>
              forall i :: 0 <= i < |Dropped(key)| ==>
                Dropped(key)[i].timestamp <= cutoff || Dropped(key)[i].price <= 0.0
      ensures Recent(Points(key), cutoff) == Recent(Logged(key), cutoff) ==>
              WindowSlope(Points(key), cutoff) == WindowSlope(Logged(key), cutoff)
    {
      hide Recent, Slope;
      EndAnswersIff(Dropped(key), Points(key), cutoff);
    }
  }

  // ------------------------------------------------------------ what the slope means

  ghost predicate SameTimestamps(points: seq<Point>) {
    forall i, j :: 0 <= i < |points| && 0 <= j < |points| ==> points[i].timestamp == points[j].timestamp
  }

  /** There is a slope exactly when two usable points differ in time. */
  lemma SlopeExistsIff(points: seq<Point>, cutoff: int)
    ensures WindowSlope(points, cutoff).Some? <==> !SameTimestamps(Recent(points, cutoff))
  {
    RecentIsPositive(points, cutoff);
    var w := Recent(points, cutoff);
    var s := Samples(w);
    DenominatorSign(s);
    hide Denominator;
    forall i, j | 0 <= i < |w| && 0 <= j < |w| ensures s[i].x == s[j].x <==> w[i].timestamp == w[j].timestamp {
      MinutesInjective(w[i].timestamp - w[0].timestamp, w[j].timestamp - w[0].timestamp);
    }
    if SameTimestamps(w) {
      assert OneX(s);
    } else {
      var i, j :| 0 <= i < |w| && 0 <= j < |w| && w[i].timestamp != w[j].timestamp;
      assert s[i].x != s[j].x;
    }
  }

  /** Every price is the first one, raised by the share `c` of it for each minute since. */
  ghost predicate Rises(w: seq<Point>, c: real) {
    forall p <- w :: p.price == w[0].price * (1.0 + c * ((p.timestamp - w[0].timestamp) as real / 60000000000.0))
  }

  /** When the usable prices rise by the same share of the first one every minute, that share is the slope. */
  lemma SlopeIsShareAMinute(points: seq<Point>, cutoff: int, c: real)
    requires Rises(Recent(points, cutoff), c) && !SameTimestamps(Recent(points, cutoff))
    ensures WindowSlope(points, cutoff) == Some(c)
  {
    RecentIsPositive(points, cutoff);
    SlopeExistsIff(points, cutoff);
    hide Recent, Slope, Normalized, Mul, SameTimestamps;
    var w := Recent(points, cutoff);
    var s := Samples(w);
    forall p | p in s ensures p.y == Mul(c, p.x) {
      var i :| 0 <= i < |s| && s[i] == p;
      assert w[i] in w;
      OnTheLine(w[i], w[0], c);
    }
    SlopeOfLine(s, c);
  }

  lemma GetsTheShare(points: seq<Point>, cutoff: int)
    ensures WindowSlope(points, cutoff).Some? <==> !SameTimestamps(Recent(points, cutoff))
    ensures forall c ::
      WindowSlope(points, cutoff).Some? && Rises(Recent(points, cutoff), c) ==> WindowSlope(points, cutoff) == Some(c)
  {
    SlopeExistsIff(points, cutoff);
    hide Recent, WindowSlope, SameTimestamps, Rises;
    forall c | WindowSlope(points, cutoff).Some? && Rises(Recent(points, cutoff), c) ensures WindowSlope(points, cutoff) == Some(c) {
      SlopeIsShareAMinute(points, cutoff, c);
    }
  }

  lemma OnTheLine(p: Point, base: Point, c: real)
    requires base.price > 0.0
    requires p.price == base.price * (1.0 + c * ((p.timestamp - base.timestamp) as real / 60000000000.0))
    ensures Normalized(p, base).y == Mul(c, Normalized(p, base).x)
  {
    ShareOfFirst(base.price, c, Normalized(p, base).x);
  }

  lemma ShareOfFirst(base: real, c: real, x: real)
    requires base > 0.0
    ensures (base * (1.0 + c * x) - base) / base == Mul(c, x)
  {
    assert base * (1.0 + c * x) - base == (c * x) * base;
  }

  /** Of two usable points at different times the slope is positive exactly when the later one is dearer. */
  lemma TwoPointsRiseIff(points: seq<Point>, cutoff: int, earlier: Point, later: Point)
    requires Recent(points, cutoff) in {[earlier, later], [later, earlier]} && earlier.timestamp < later.timestamp
    ensures WindowSlope(points, cutoff).Some?
    ensures WindowSlope(points, cutoff).value > 0.0 <==> later.price > earlier.price
    ensures WindowSlope(points, cutoff).value == 0.0 <==> later.price == earlier.price
  {
    RecentIsPositive(points, cutoff);
    hide Recent, WindowSlope;
    var w := Recent(points, cutoff);
    var minutes := (w[1].timestamp - w[0].timestamp) as real / 60000000000.0;
    assert w[0].timestamp != w[1].timestamp;
    var c := SlopeThrough(w[0].price, w[1].price, minutes);
    SlopeIsShareAMinute(points, cutoff, c);
  }

  lemma SlopeThrough(first: real, second: real, minutes: real) returns (c: real)
    requires first > 0.0 && minutes != 0.0
    ensures second == first * (1.0 + c * minutes)
    ensures minutes > 0.0 ==> (c > 0.0 <==> second > first) && (c == 0.0 <==> second == first)
    ensures minutes < 0.0 ==> (c > 0.0 <==> second < first) && (c == 0.0 <==> second == first)
  {
    var y := (second - first) / first;
    c := y / minutes;
    assert y * first == second - first;
    assert c * minutes == y;
    assert first * (1.0 + y) == second;
  }

  lemma MinutesInjective(a: int, b: int)
    ensures a as real / NANOS_PER_MINUTE == b as real / NANOS_PER_MINUTE <==> a == b
  {
  }

  function Scale(p: Point, c: real): Point {
    p.(price := c * p.price)
  }

  function Scaled(points: seq<Point>, c: real): seq<Point> {
    seq(|points|, i requires 0 <= i < |points| => Scale(points[i], c))
  }

  lemma {:induction false} RecentOfScaled(points: seq<Point>, c: real, cutoff: int)
    requires c > 0.0
    ensures Recent(Scaled(points, c), cutoff) == Scaled(Recent(points, cutoff), c)
  {
    if points == [] {
    } else {
      var p, rest := points[0], Recent(points[1..], cutoff);
      RecentOfScaled(points[1..], c, cutoff);
      SignOfScaled(c, p.price);
      assert Scale(p, c).price > 0.0 <==> p.price > 0.0;
      hide Scale;
      assert Scaled(points, c)[1..] == Scaled(points[1..], c);
      assert Scaled([p] + rest, c) == [Scale(p, c)] + Scaled(rest, c);
    }
  }

  lemma SignOfScaled(c: real, p: real)
    requires c > 0.0
    ensures c * p > 0.0 <==> p > 0.0
  {
    if p > 0.0 {
      assert c * p > 0.0;
    } else {
      assert c * (-p) >= 0.0;
    }
  }

  lemma ChangeOfScaled(c: real, p: real, base: real)
    requires c > 0.0 && base > 0.0
    ensures c * base > 0.0 && (c * p - c * base) / (c * base) == (p - base) / base
  {
    var q := (p - base) / base;
    assert q * base == p - base;
    assert q * (c * base) == c * (q * base);
    assert (q * (c * base)) / (c * base) == q;
  }

  lemma NormalizedOfScaled(p: Point, base: Point, c: real)
    requires c > 0.0 && base.price > 0.0
    ensures Scale(base, c).price > 0.0
    ensures Normalized(Scale(p, c), Scale(base, c)) == Normalized(p, base)
  {
    ChangeOfScaled(c, p.price, base.price);
  }

  /** Scaling every price by the same positive constant leaves the slope unchanged. */
  lemma SlopeIsScaleFree(points: seq<Point>, c: real, cutoff: int)
    requires c > 0.0
    ensures WindowSlope(Scaled(points, c), cutoff) == WindowSlope(points, cutoff)
  {
    RecentIsPositive(points, cutoff);
    RecentIsPositive(Scaled(points, c), cutoff);
    RecentOfScaled(points, c, cutoff);
    hide Slope, Recent, Normalized, Scale;
    var w := Recent(points, cutoff);
    var v := Scaled(w, c);
    forall i | 0 <= i < |w| ensures Normalized(v[i], v[0]) == Normalized(w[i], w[0]) {
      NormalizedOfScaled(w[i], w[0], c);
    }
    assert Samples(v) == Samples(w);
  }
}
