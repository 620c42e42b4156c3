/**
 Filling an order book and the largest size under a slippage limit
 (internal/analytics/slippage.go). Prices and quantities are exact reals.
 */
module OrderBook {
  import opened Arith
  import opened Options

  datatype Level = Level(price: real, qty: real)

  type Book = seq<Level>

  // ------------------------------------------------------------ specification

  function Depth(book: Book): real {
    if book == [] then 0.0 else book[0].qty + Depth(book[1..])
  }

  /** Price times quantity. */
  function Cost(price: real, qty: real): real {
    price * qty
  }

  lemma CostSum(p: real, a: real, b: real)
    ensures Cost(p, a + b) == Cost(p, a) + Cost(p, b)
    ensures Cost(p, a - b) == Cost(p, a) - Cost(p, b)
    ensures Cost(p, 0.0) == 0.0
  {
  }

  lemma CostOrder(p: real, r: real, a: real)
    requires p <= r && a >= 0.0
    ensures Cost(p, a) <= Cost(r, a)
  {
    MulMonotone(p, r, a);
  }

  lemma CostDearer(p: real, r: real, a: real)
    requires p < r && a > 0.0
    ensures Cost(p, a) < Cost(r, a)
  {
    MulStrict(p, r, a);
  }

  lemma AverageOrder(x: real, a: real, cap: real)
    requires a > 0.0
    ensures x / a <= cap <==> x <= Cost(cap, a)
  {
    QuotientCap(x, a, cap);
  }

  /** The cost of taking every level whole. */
  function WholeCost(book: Book): real {
    if book == [] then 0.0 else Cost(book[0].price, book[0].qty) + WholeCost(book[1..])
  }

  function Taken(l: Level, amount: real): real {
    if l.qty > amount then amount else l.qty
  }

  /** The cost of taking levels in order until `amount` is reached. */
  function FillCost(book: Book, amount: real): real {
    if book == [] || amount <= 0.0 then 0.0
    else Cost(book[0].price, Taken(book[0], amount)) + FillCost(book[1..], amount - Taken(book[0], amount))
  }

  /** What is still missing after the whole book has been tried. */
  function Unfilled(book: Book, amount: real): real {
    if book == [] || amount <= 0.0 then amount
    else Unfilled(book[1..], amount - Taken(book[0], amount))
  }

  ghost predicate NonNegative(book: Book) {
    forall i :: 0 <= i < |book| ==> book[i].qty >= 0.0
  }

  ghost predicate Ascending(book: Book) {
    forall i, j :: 0 <= i < j < |book| ==> book[i].price <= book[j].price
  }

  ghost predicate Descending(book: Book) {
    forall i, j :: 0 <= i < j < |book| ==> book[i].price >= book[j].price
  }

  ghost predicate PricesAtLeast(book: Book, p: real) {
    forall i :: 0 <= i < |book| ==> book[i].price >= p
  }

  // ------------------------------------------------------------ calculateAvgPrice

  /** The average price, 0 when the book is too thin. Dividing 0 by an amount of 0 has no value. */
  function AvgPrice(book: Book, amount: real): Option<real> {
    if Unfilled(book, amount) > 0.0 then Some(0.0)
    else if amount == 0.0 then None
    else Some(FillCost(book, amount) / amount)
  }

  method CalculateAvgPrice(book: Book, amount: real) returns (avg: Option<real>)
    ensures avg == AvgPrice(book, amount)
  {
    var total, remaining := 0.0, amount;
    var i := 0;
    while i < |book|
      invariant 0 <= i <= |book|
      invariant total + FillCost(book[i..], remaining) == FillCost(book, amount)
      invariant Unfilled(book[i..], remaining) == Unfilled(book, amount)
    {
      if remaining <= 0.0 {
        break;
      }
      var qty := book[i].qty;
      if qty > remaining {
        qty := remaining;
      }
      assert book[i..][1..] == book[i + 1..];
      total := total + Cost(book[i].price, qty);
      remaining := remaining - qty;
      i := i + 1;
    }
    if remaining > 0.0 {
      return Some(0.0);
    }
    assert FillCost(book[i..], remaining) == 0.0;
    avg := if amount == 0.0 then None else Some(total / amount);
  }

  // ------------------------------------------------------------ the fill is optimal

  lemma {:induction false} DepthNonNegative(book: Book)
    requires NonNegative(book)
    ensures Depth(book) >= 0.0
  {
    if book != [] {
      DepthNonNegative(book[1..]);
    }
  }

  /** The book is too thin exactly when the amount exceeds its depth. */
  lemma {:induction false} ThinIff(book: Book, amount: real)
    requires NonNegative(book) && amount >= 0.0
    ensures Unfilled(book, amount) > 0.0 <==> amount > Depth(book)
  {
    if book != [] {
      DepthNonNegative(book[1..]);
      if amount > 0.0 {
        ThinIff(book[1..], amount - Taken(book[0], amount));
      }
    }
  }

  /** A thin book has the price 0, and no other price is 0 unless nothing is asked for it. */
  lemma ThinBookIsPricedZero(book: Book, amount: real)
    requires NonNegative(book) && amount > 0.0
    ensures amount > Depth(book) ==> AvgPrice(book, amount) == Some(0.0)
    ensures amount <= Depth(book) ==> AvgPrice(book, amount).Some? && AvgPrice(book, amount).value * amount == FillCost(book, amount)
  {
    ThinIff(book, amount);
    QuotientTimes(FillCost(book, amount), amount);
  }

  lemma NothingCostsNothing(book: Book)
    ensures FillCost(book, 0.0) == 0.0
  {
  }

  /** For amounts that are not negative the recursion needs no case split. */
  lemma FillStep(book: Book, amount: real)
    requires book != [] && NonNegative(book) && amount >= 0.0
    ensures FillCost(book, amount) ==
      Cost(book[0].price, Taken(book[0], amount)) + FillCost(book[1..], amount - Taken(book[0], amount))
    ensures 0.0 <= Taken(book[0], amount) <= amount && Taken(book[0], amount) <= book[0].qty
  {
    if amount <= 0.0 {
      NothingCostsNothing(book[1..]);
      CostSum(book[0].price, 0.0, 0.0);
    }
  }

  /** Going from `a` to `b` costs at least `p` per unit when no price is below `p`. */
  lemma {:induction false} MarginalCost(book: Book, a: real, b: real, p: real)
    requires NonNegative(book) && PricesAtLeast(book, p)
    requires 0.0 <= a <= b <= Depth(book)
    ensures FillCost(book, b) - FillCost(book, a) >= Cost(p, b - a)
  {
    if book == [] {
      CostSum(p, b, a);
    } else {
      hide FillCost, Cost;
      var ta, tb := Taken(book[0], a), Taken(book[0], b);
      DepthNonNegative(book[1..]);
      assert PricesAtLeast(book[1..], p) && book[0].price >= p;
      FillStep(book, a);
      FillStep(book, b);
      MarginalCost(book[1..], a - ta, b - tb, p);
      CostSum(book[0].price, tb, ta);
      CostOrder(p, book[0].price, tb - ta);
      CostSum(p, tb - ta, (b - tb) - (a - ta));
      assert (tb - ta) + ((b - tb) - (a - ta)) == b - a;
    }
  }

  function Sum(take: seq<real>): real {
    if take == [] then 0.0 else take[0] + Sum(take[1..])
  }

  function CostOf(book: Book, take: seq<real>): real
    requires |take| == |book|
  {
    if book == [] then 0.0 else Cost(book[0].price, take[0]) + CostOf(book[1..], take[1..])
  }

  /** A way of taking `amount` from the levels, in any proportion. */
  ghost predicate Takes(book: Book, take: seq<real>, amount: real) {
    && |take| == |book|
    && (forall i :: 0 <= i < |book| ==> 0.0 <= take[i] <= book[i].qty)
    && Sum(take) == amount
  }

  lemma {:induction false} TakeWithinDepth(book: Book, take: seq<real>, amount: real)
    requires Takes(book, take, amount)
    ensures 0.0 <= amount <= Depth(book) && NonNegative(book)
  {
    if book != [] {
      TakeWithinDepth(book[1..], take[1..], amount - take[0]);
      forall i | 0 <= i < |book| ensures book[i].qty >= 0.0 {
        if i > 0 {
          assert book[i] == book[1..][i - 1];
        }
      }
    }
  }

  /** On ascending prices no way of taking `amount` is cheaper than filling in order. */
  lemma {:induction false} FillIsCheapest(book: Book, take: seq<real>, amount: real)
    requires Ascending(book) && Takes(book, take, amount)
    ensures CostOf(book, take) >= FillCost(book, amount)
  {
    if book != [] {
      hide FillCost, Cost;
      TakeWithinDepth(book, take, amount);
      TakeWithinDepth(book[1..], take[1..], amount - take[0]);
      FillIsCheapest(book[1..], take[1..], amount - take[0]);
      TakeFirst(book, take[0], amount);
    }
  }

  /** Taking `t` of the cheapest level and filling the rest elsewhere is no cheaper than filling in order. */
  lemma TakeFirst(book: Book, t: real, amount: real)
    requires book != [] && NonNegative(book) && Ascending(book)
    requires 0.0 <= t <= book[0].qty && t <= amount <= t + Depth(book[1..])
    ensures Cost(book[0].price, t) + FillCost(book[1..], amount - t) >= FillCost(book, amount)
  {
    hide FillCost, Cost, Depth;
    var p, g := book[0].price, Taken(book[0], amount);
    assert PricesAtLeast(book[1..], p);
    MarginalCost(book[1..], amount - g, amount - t, p);
    FillStep(book, amount);
    assert (amount - t) - (amount - g) == g - t;
    CostSum(p, g, t);
  }

  /** Filling in order is one of the ways. */
  lemma {:induction false} FillIsAWay(book: Book, amount: real) returns (take: seq<real>)
    requires NonNegative(book) && 0.0 <= amount <= Depth(book)
    ensures Takes(book, take, amount) && CostOf(book, take) == FillCost(book, amount)
  {
    if book == [] {
      take := [];
    } else {
      DepthNonNegative(book[1..]);
      var g := Taken(book[0], amount);
      var rest := FillIsAWay(book[1..], amount - g);
      take := [g] + rest;
      assert take[1..] == rest;
      assert amount == 0.0 ==> FillCost(book[1..], amount - g) == 0.0;
    }
  }

  /** The average price times the amount is the least cost of taking the amount from an ascending book. */
  lemma AvgPriceIsCheapest(book: Book, amount: real, take: seq<real>)
    requires Ascending(book) && amount > 0.0 && Takes(book, take, amount)
    ensures AvgPrice(book, amount).Some? && AvgPrice(book, amount).value * amount <= CostOf(book, take)
    ensures exists best :: Takes(book, best, amount) && CostOf(book, best) == AvgPrice(book, amount).value * amount
  {
    hide FillCost, CostOf, Unfilled, Depth;
    TakeWithinDepth(book, take, amount);
    ThinIff(book, amount);
    QuotientTimes(FillCost(book, amount), amount);
    FillIsCheapest(book, take, amount);
    var best := FillIsAWay(book, amount);
  }

  /** The price of the level at which `amount` is reached. */
  function MarginalPrice(book: Book, amount: real): real
    requires book != []
  {
    if amount <= book[0].qty || |book| == 1 then book[0].price
    else MarginalPrice(book[1..], amount - book[0].qty)
  }

  lemma {:induction false} MarginalPriceAbove(book: Book, amount: real)
    requires book != [] && Ascending(book)
    ensures PricesAtLeast(book, book[0].price) && MarginalPrice(book, amount) >= book[0].price
  {
    if |book| > 1 {
      MarginalPriceAbove(book[1..], amount - book[0].qty);
    }
  }

  /** Everything up to `a` was bought at no more than the marginal price. */
  lemma {:induction false} FillBelowMarginal(book: Book, a: real)
    requires book != [] && NonNegative(book) && Ascending(book) && 0.0 < a <= Depth(book)
    ensures FillCost(book, a) <= Cost(MarginalPrice(book, a), a)
  {
    hide FillCost, Cost;
    var p, q, m := book[0].price, book[0].qty, MarginalPrice(book, a);
    FillStep(book, a);
    if a <= q {
      NothingCostsNothing(book[1..]);
    } else {
      assert |book| > 1;
      FillBelowMarginal(book[1..], a - q);
      MarginalPriceAbove(book, a);
      CostOrder(p, m, q);
      CostSum(m, a, q);
    }
  }

  /** Everything past `a` is bought at the marginal price or more. */
  lemma {:induction false} FillAboveMarginal(book: Book, a: real, b: real)
    requires book != [] && NonNegative(book) && Ascending(book) && 0.0 < a <= b <= Depth(book)
    ensures FillCost(book, b) - FillCost(book, a) >= Cost(MarginalPrice(book, a), b - a)
  {
    hide FillCost, Cost;
    var q := book[0].qty;
    MarginalPriceAbove(book, a);
    if a <= q {
      MarginalCost(book, a, b, book[0].price);
    } else {
      assert |book| > 1;
      FillStep(book, a);
      FillStep(book, b);
      FillAboveMarginal(book[1..], a - q, b - q);
      assert (b - q) - (a - q) == b - a;
    }
  }

  /** A cost of `x` for `a` and `y` for `b`, with `m` the price at which `a` is reached. */
  lemma CrossStep(m: real, a: real, b: real, x: real, y: real)
    requires 0.0 < a <= b && x <= Cost(m, a) && y - x >= Cost(m, b - a)
    ensures x / a <= y / b
  {
    MulMonotone(x, m * a, b - a);
    MulMonotone(m * (b - a), y - x, a);
    assert y * a - x * b == (y - x) * a - x * (b - a);
    assert m * a * (b - a) == m * (b - a) * a;
    QuotientOrder(x, a, y, b);
  }

  /** The average never falls as the amount grows. */
  lemma AverageNeverFalls(book: Book, a: real, b: real)
    requires NonNegative(book) && Ascending(book)
    requires 0.0 < a <= b <= Depth(book)
    ensures AvgPrice(book, a).Some? && AvgPrice(book, b).Some?
    ensures AvgPrice(book, a).value <= AvgPrice(book, b).value
  {
    assert book != [];
    hide FillCost, Depth, MarginalPrice, Unfilled, Cost;
    ThinIff(book, a);
    ThinIff(book, b);
    FillBelowMarginal(book, a);
    FillAboveMarginal(book, a, b);
    CrossStep(MarginalPrice(book, a), a, b, FillCost(book, a), FillCost(book, b));
  }

  // ------------------------------------------------------------ the size under a slippage limit

  /** The first `k` levels taken whole cost at most `cap` per unit. */
  ghost predicate Within(book: Book, k: nat, cap: real)
    requires k <= |book|
  {
    Depth(book[..k]) > 0.0 ==> WholeCost(book[..k]) / Depth(book[..k]) <= cap
  }

  /** The loop stopped after `k` levels: everything so far was within `cap`, one more level is not. */
  ghost predicate StopsAt(book: Book, k: nat, cap: real) {
    && k <= |book|
    && (forall j :: 0 <= j <= k ==> Within(book, j, cap))
    && (k < |book| ==> !Within(book, k + 1, cap))
  }

  /** Selling is buying at negated prices. */
  ghost function Negated(book: Book): Book {
    seq(|book|, i requires 0 <= i < |book| => Level(-book[i].price, book[i].qty))
  }

  lemma NoLevels(book: Book)
    ensures Depth(book[..0]) == 0.0 && WholeCost(book[..0]) == 0.0
  {
  }

  lemma {:induction false} PrefixSums(book: Book, k: nat)
    requires k < |book|
    ensures Depth(book[..k + 1]) == Depth(book[..k]) + book[k].qty
    ensures WholeCost(book[..k + 1]) == WholeCost(book[..k]) + Cost(book[k].price, book[k].qty)
  {
    if k == 0 {
      assert book[..1] == [book[0]] && book[..0] == [];
      assert [book[0]][1..] == [];
    } else {
      PrefixSums(book[1..], k - 1);
      assert book[..k + 1][1..] == book[1..][..k];
      assert book[..k][1..] == book[1..][..k - 1];
    }
  }

  lemma NegatedPrefixSums(book: Book, k: nat)
    requires k < |book|
    ensures Depth(book[..k + 1]) == Depth(book[..k]) + book[k].qty
    ensures Depth(Negated(book)[..k + 1]) == Depth(Negated(book)[..k]) + book[k].qty
    ensures WholeCost(Negated(book)[..k + 1]) == WholeCost(Negated(book)[..k]) - Cost(book[k].price, book[k].qty)
  {
    PrefixSums(book, k);
    PrefixSums(Negated(book), k);
  }

  method MaxSizeForSlippageLimitAsks(asks: Book, firstPrice: real, slippageLimit: real)
    returns (maxSize: real, ghost k: nat)
    ensures asks == [] || firstPrice == 0.0 ==> maxSize == 0.0
    ensures asks != [] && firstPrice != 0.0 ==>
      StopsAt(asks, k, firstPrice * (1.0 + slippageLimit / 100.0)) && maxSize == Depth(asks[..k])
  {
    k := 0;
    if |asks| == 0 || firstPrice == 0.0 {
      return 0.0, 0;
    }
    var maxAvgPrice := firstPrice * (1.0 + slippageLimit / 100.0);
    var totalCost, totalAmount := 0.0, 0.0;
    var i := 0;
    NoLevels(asks);
    hide Depth, WholeCost, Cost;
    while i < |asks|
      invariant 0 <= i <= |asks| && k == i
      invariant totalCost == WholeCost(asks[..i]) && totalAmount == Depth(asks[..i])
      invariant forall j :: 0 <= j <= i ==> Within(asks, j, maxAvgPrice)
    {
      PrefixSums(asks, i);
      var cost := Cost(asks[i].price, asks[i].qty);
      totalCost := totalCost + cost;
      totalAmount := totalAmount + asks[i].qty;
      if totalAmount > 0.0 {
        if totalCost / totalAmount > maxAvgPrice {
          totalCost := totalCost - cost;
          totalAmount := totalAmount - asks[i].qty;
          break;
        }
      }
      i := i + 1;
      k := i;
    }
    maxSize := totalAmount;
  }

  method MaxSizeForSlippageLimitBids(bids: Book, firstPrice: real, slippageLimit: real)
    returns (maxSize: real, ghost k: nat)
    ensures bids == [] || firstPrice == 0.0 ==> maxSize == 0.0
    ensures bids != [] && firstPrice != 0.0 ==>
      StopsAt(Negated(bids), k, -(firstPrice * (1.0 - slippageLimit / 100.0))) && maxSize == Depth(bids[..k])
  {
    k := 0;
    if |bids| == 0 || firstPrice == 0.0 {
      return 0.0, 0;
    }
    var minAvgPrice := firstPrice * (1.0 - slippageLimit / 100.0);
    var totalRevenue, totalAmount := 0.0, 0.0;
    ghost var neg, cap := Negated(bids), -minAvgPrice;
    var i := 0;
    NoLevels(neg);
    NoLevels(bids);
    hide Depth, WholeCost, Cost;
    while i < |bids|
      invariant 0 <= i <= |bids| && k == i
      invariant totalRevenue == -WholeCost(neg[..i]) && totalAmount == Depth(neg[..i]) == Depth(bids[..i])
      invariant forall j :: 0 <= j <= i ==> Within(neg, j, cap)
    {
      NegatedPrefixSums(bids, i);
      var revenue := Cost(bids[i].price, bids[i].qty);
      totalRevenue := totalRevenue + revenue;
      totalAmount := totalAmount + bids[i].qty;
      if totalAmount > 0.0 {
        NegatedQuotient(totalRevenue, totalAmount);
      }
      if totalAmount > 0.0 {
        if totalRevenue / totalAmount < minAvgPrice {
          totalRevenue := totalRevenue - revenue;
          totalAmount := totalAmount - bids[i].qty;
          break;
        }
      }
      i := i + 1;
      k := i;
    }
    maxSize := totalAmount;
  }

  /** Filling exactly the first `k` levels, and then `x` more. */
  lemma {:induction false} FillSplit(book: Book, k: nat, x: real)
    requires NonNegative(book) && k <= |book| && x >= 0.0
    ensures Depth(book[..k]) >= 0.0
    ensures FillCost(book, Depth(book[..k]) + x) == WholeCost(book[..k]) + FillCost(book[k..], x)
    ensures Depth(book) == Depth(book[..k]) + Depth(book[k..])
  {
    if k == 0 {
      assert book[0..] == book && book[..0] == [];
    } else {
      FillSplit(book[1..], k - 1, x);
      assert book[1..][k - 1..] == book[k..] && book[..k][1..] == book[1..][..k - 1];
      FillSplitFirst(book, k, x);
    }
  }

  lemma FillSplitFirst(book: Book, k: nat, x: real)
    requires NonNegative(book) && 0 < k <= |book| && x >= 0.0
    requires var d := Depth(book[1..][..k - 1]);
      d >= 0.0 && FillCost(book[1..], d + x) == WholeCost(book[1..][..k - 1]) + FillCost(book[k..], x)
    ensures FillCost(book, Depth(book[..k]) + x) == WholeCost(book[..k]) + FillCost(book[k..], x)
  {
    hide FillCost, Cost;
    assert book[..k][1..] == book[1..][..k - 1];
    var d, q := Depth(book[1..][..k - 1]), book[0].qty;
    assert Depth(book[..k]) == q + d;
    FillStep(book, q + d + x);
    assert Taken(book[0], q + d + x) == q && q + d + x - q == d + x;
  }

  lemma WholePrefix(book: Book, k: nat)
    requires NonNegative(book) && k <= |book|
    ensures 0.0 <= Depth(book[..k]) <= Depth(book)
    ensures FillCost(book, Depth(book[..k])) == WholeCost(book[..k])
    ensures Depth(book[..k]) > 0.0 ==>
      AvgPrice(book, Depth(book[..k])) == Some(WholeCost(book[..k]) / Depth(book[..k]))
  {
    hide FillCost, Depth, WholeCost, Unfilled, Cost;
    var d := Depth(book[..k]);
    FillSplit(book, k, 0.0);
    assert d + 0.0 == d;
    NothingCostsNothing(book[k..]);
    DepthNonNegative(book[k..]);
    ThinIff(book, d);
  }

  /** Every amount up to the reported size fills at an average within the limit. */
  lemma SizeIsWithinLimit(book: Book, k: nat, cap: real, amount: real)
    requires NonNegative(book) && Ascending(book) && StopsAt(book, k, cap)
    requires 0.0 < amount <= Depth(book[..k])
    ensures AvgPrice(book, amount).Some? && AvgPrice(book, amount).value <= cap
  {
    hide FillCost, Depth, WholeCost, Unfilled, Cost;
    WholePrefix(book, k);
    assert Within(book, k, cap);
    AverageNeverFalls(book, amount, Depth(book[..k]));
  }

  lemma {:induction false} DepthOfPrefixes(book: Book, i: nat, j: nat)
    requires NonNegative(book) && i <= j <= |book|
    ensures Depth(book[..i]) <= Depth(book[..j])
  {
    if i < j {
      DepthOfPrefixes(book, i, j - 1);
      PrefixSums(book, j - 1);
    }
  }

  /** The stopped prefix is the longest within the limit: every longer one exceeds it. */
  lemma LongerPrefixesExceed(book: Book, k: nat, cap: real, j: nat)
    requires NonNegative(book) && Ascending(book) && StopsAt(book, k, cap)
    requires k < j <= |book|
    ensures !Within(book, j, cap)
  {
    hide FillCost, Depth, WholeCost, Unfilled, Cost;
    WholePrefix(book, k + 1);
    WholePrefix(book, j);
    DepthOfPrefixes(book, k + 1, j);
    AverageNeverFalls(book, Depth(book[..k + 1]), Depth(book[..j]));
  }

  ghost predicate Exceeds(book: Book, amount: real, cap: real) {
    AvgPrice(book, amount).Some? && AvgPrice(book, amount).value > cap
  }

  lemma AverageAgainstCap(book: Book, amount: real, cap: real)
    requires NonNegative(book) && 0.0 < amount <= Depth(book)
    ensures Exceeds(book, amount, cap) <==> FillCost(book, amount) > Cost(cap, amount)
  {
    hide FillCost, Depth, Unfilled, Cost;
    ThinIff(book, amount);
    AverageOrder(FillCost(book, amount), amount, cap);
  }

  /** Level `k`, which broke the limit, is dearer than the limit. */
  lemma BreakingLevel(book: Book, k: nat, cap: real)
    requires NonNegative(book) && StopsAt(book, k, cap) && k < |book|
    ensures WholeCost(book[..k]) <= Cost(cap, Depth(book[..k]))
    ensures book[k].price > cap && book[k].qty > 0.0
  {
    hide FillCost, Depth, WholeCost, Unfilled, Cost;
    var p, q := book[k].price, book[k].qty;
    WithinCost(book, k, cap);
    WithinCost(book, k + 1, cap);
    PrefixSums(book, k);
    CostSum(cap, Depth(book[..k]), q);
    assert Cost(p, q) > Cost(cap, q);
    if p <= cap {
      CostOrder(p, cap, q);
    }
    if q == 0.0 {
      CostSum(p, 0.0, 0.0);
      CostSum(cap, 0.0, 0.0);
    }
  }

  lemma WithinCost(book: Book, k: nat, cap: real)
    requires NonNegative(book) && k <= |book|
    ensures Within(book, k, cap) <==> WholeCost(book[..k]) <= Cost(cap, Depth(book[..k]))
  {
    DepthOfPrefixes(book, 0, k);
    hide WholeCost, Cost;
    if Depth(book[..k]) > 0.0 {
      AverageOrder(WholeCost(book[..k]), Depth(book[..k]), cap);
    } else {
      ZeroDepth(book, k);
      CostSum(cap, 0.0, 0.0);
    }
  }

  lemma {:induction false} ZeroDepth(book: Book, k: nat)
    requires NonNegative(book) && k <= |book| && Depth(book[..k]) == 0.0
    ensures WholeCost(book[..k]) == 0.0
  {
    if k > 0 {
      PrefixSums(book, k - 1);
      DepthOfPrefixes(book, 0, k - 1);
      ZeroDepth(book, k - 1);
    }
  }

  /** Every amount above `size` and up to `depth` exceeds the limit. */
  ghost predicate LargerExceed(book: Book, size: real, depth: real, cap: real) {
    forall a :: size < a <= depth ==> Exceeds(book, a, cap)
  }

  /**
   The code takes whole levels only, so its size is the largest within the limit exactly when
   the loop ran off the book or stopped with the average right at the limit.
   */
  lemma SizeIsLargestIff(book: Book, k: nat, cap: real)
    requires NonNegative(book) && Ascending(book) && StopsAt(book, k, cap)
    ensures LargerExceed(book, Depth(book[..k]), Depth(book), cap)
      <==> (k == |book| || WholeCost(book[..k]) == Cost(cap, Depth(book[..k])))
  {
    assert book[..|book|] == book;
    hide FillCost, Depth, WholeCost, Exceeds, Cost;
    if k == |book| {
    } else if WholeCost(book[..k]) == Cost(cap, Depth(book[..k])) {
      forall a | Depth(book[..k]) < a <= Depth(book) ensures Exceeds(book, a, cap) {
        TightSizeIsLargest(book, k, cap, a);
      }
    } else {
      var a := SlackLeavesRoom(book, k, cap);
    }
  }

  lemma TightSizeIsLargest(book: Book, k: nat, cap: real, a: real)
    requires NonNegative(book) && Ascending(book) && StopsAt(book, k, cap) && k < |book|
    requires WholeCost(book[..k]) == Cost(cap, Depth(book[..k]))
    requires Depth(book[..k]) < a <= Depth(book)
    ensures Exceeds(book, a, cap)
  {
    hide FillCost, Depth, WholeCost, Exceeds, Cost;
    var d := Depth(book[..k]);
    BreakingLevel(book, k, cap);
    WholePrefix(book, k);
    AverageAgainstCap(book, a, cap);
    PastPrefix(book, k, a);
    CostDearer(cap, book[k].price, a - d);
    CostSum(cap, a, d);
  }

  /** Past the first `k` levels every unit costs at least the price of level `k`. */
  lemma PastPrefix(book: Book, k: nat, a: real)
    requires NonNegative(book) && Ascending(book) && k < |book| && Depth(book[..k]) <= a <= Depth(book)
    ensures FillCost(book, a) - WholeCost(book[..k]) >= Cost(book[k].price, a - Depth(book[..k]))
  {
    hide FillCost, Depth, WholeCost, Cost;
    var x := a - Depth(book[..k]);
    FillSplit(book, k, x);
    assert Depth(book[..k]) + x == a;
    assert PricesAtLeast(book[k..], book[k].price);
    MarginalCost(book[k..], 0.0, x, book[k].price);
    assert x - 0.0 == x;
    NothingCostsNothing(book[k..]);
  }

  lemma SlackLeavesRoom(book: Book, k: nat, cap: real) returns (a: real)
    requires NonNegative(book) && Ascending(book) && StopsAt(book, k, cap) && k < |book|
    requires WholeCost(book[..k]) != Cost(cap, Depth(book[..k]))
    ensures Depth(book[..k]) < a <= Depth(book) && !Exceeds(book, a, cap)
  {
    hide FillCost, Depth, WholeCost, Exceeds, Cost;
    BreakingLevel(book, k, cap);
    var c, d, p := WholeCost(book[..k]), Depth(book[..k]), book[k].price;
    var x := Room(Cost(cap, d) - c, cap, p, book[k].qty);
    a := d + x;
    PrefixSums(book, k);
    WholePrefix(book, k);
    WholePrefix(book, k + 1);
    AverageAgainstCap(book, a, cap);
    PartOfLevel(book, k, x);
    CostSum(cap, d, x);
  }

  lemma PartOfLevel(book: Book, k: nat, x: real)
    requires NonNegative(book) && k < |book| && 0.0 < x <= book[k].qty
    ensures FillCost(book, Depth(book[..k]) + x) == WholeCost(book[..k]) + Cost(book[k].price, x)
  {
    hide FillCost, Depth, WholeCost, Cost;
    FillSplit(book, k, x);
    assert book[k..][0] == book[k];
    FillAtMost(book[k..], x);
  }

  /** Some positive amount of at most `q` units costs at most `slack` more at `p` than at `cap`. */
  lemma Room(slack: real, cap: real, p: real, q: real) returns (x: real)
    requires slack > 0.0 && p > cap && q > 0.0
    ensures 0.0 < x <= q && Cost(p, x) - Cost(cap, x) <= slack
  {
    x := slack / (p - cap);
    QuotientTimes(slack, p - cap);
    if x > q {
      MulMonotone(q, x, p - cap);
      x := q;
    }
    assert Cost(p, x) - Cost(cap, x) == x * (p - cap);
  }

  lemma FillAtMost(book: Book, a: real)
    requires book != [] && 0.0 < a <= book[0].qty
    ensures FillCost(book, a) == Cost(book[0].price, a)
  {
    NothingCostsNothing(book[1..]);
  }

  // ------------------------------------------------------------ bids

  lemma NegatedPrice(price: real, amount: real)
    ensures Cost(-price, amount) == -Cost(price, amount)
  {
  }

  lemma {:induction false} NegatedFill(book: Book, amount: real)
    ensures FillCost(Negated(book), amount) == -FillCost(book, amount)
    ensures Unfilled(Negated(book), amount) == Unfilled(book, amount)
    ensures Depth(Negated(book)) == Depth(book)
  {
    hide Cost;
    if book != [] {
      assert Negated(book)[1..] == Negated(book[1..]);
      NegatedPrice(book[0].price, Taken(book[0], amount));
      NegatedFill(book[1..], amount - Taken(book[0], amount));
    }
  }

  lemma NegatedSorted(book: Book)
    ensures Descending(book) <==> Ascending(Negated(book))
    ensures NonNegative(book) <==> NonNegative(Negated(book))
  {
    if Ascending(Negated(book)) {
      forall i, j | 0 <= i < j < |book| ensures book[i].price >= book[j].price {
        assert Negated(book)[i].price <= Negated(book)[j].price;
      }
    }
    if NonNegative(Negated(book)) {
      forall i | 0 <= i < |book| ensures book[i].qty >= 0.0 {
        assert Negated(book)[i].qty >= 0.0;
      }
    }
  }

  lemma {:induction false} NegatedCost(book: Book, take: seq<real>)
    requires |take| == |book|
    ensures CostOf(Negated(book), take) == -CostOf(book, take)
  {
    if book != [] {
      assert Negated(book)[1..] == Negated(book[1..]);
      NegatedCost(book[1..], take[1..]);
    }
  }

  lemma NegatedAverage(book: Book, amount: real)
    requires amount > 0.0
    ensures AvgPrice(book, amount).Some? && AvgPrice(Negated(book), amount) == Some(-AvgPrice(book, amount).value)
  {
    NegatedFill(book, amount);
    NegatedQuotient(FillCost(book, amount), amount);
  }

  /** On a descending book the average price times the amount is the greatest revenue, and it is reached. */
  lemma AvgPriceIsBestRevenue(book: Book, amount: real, take: seq<real>)
    requires Descending(book) && amount > 0.0 && Takes(book, take, amount)
    ensures AvgPrice(book, amount).Some? && AvgPrice(book, amount).value * amount >= CostOf(book, take)
    ensures exists best :: Takes(book, best, amount) && CostOf(book, best) == AvgPrice(book, amount).value * amount
  {
    hide FillCost, CostOf, Unfilled, Depth;
    NegatedSorted(book);
    NegatedCost(book, take);
    NegatedAverage(book, amount);
    assert Takes(Negated(book), take, amount);
    AvgPriceIsCheapest(Negated(book), amount, take);
    TakeWithinDepth(book, take, amount);
    ThinIff(book, amount);
    QuotientTimes(FillCost(book, amount), amount);
    var best := FillIsAWay(book, amount);
  }

  /** Selling more never raises the average. */
  lemma AverageNeverRises(book: Book, a: real, b: real)
    requires NonNegative(book) && Descending(book)
    requires 0.0 < a <= b <= Depth(book)
    ensures AvgPrice(book, a).Some? && AvgPrice(book, b).Some?
    ensures AvgPrice(book, a).value >= AvgPrice(book, b).value
  {
    NegatedSorted(book);
    NegatedFill(book, a);
    NegatedAverage(book, a);
    NegatedAverage(book, b);
    AverageNeverFalls(Negated(book), a, b);
  }

  /** The first `k` levels sold whole bring at least `floor` per unit. */
  ghost predicate AtLeast(bids: Book, k: nat, floor: real)
    requires k <= |bids|
  {
    Depth(bids[..k]) > 0.0 ==> WholeCost(bids[..k]) / Depth(bids[..k]) >= floor
  }

  lemma {:induction false} NegatedPrefix(bids: Book, k: nat)
    requires k <= |bids|
    ensures Depth(Negated(bids)[..k]) == Depth(bids[..k])
    ensures WholeCost(Negated(bids)[..k]) == -WholeCost(bids[..k])
  {
    if k == 0 {
      NoLevels(bids);
      NoLevels(Negated(bids));
    } else {
      NegatedPrefix(bids, k - 1);
      NegatedPrefixSums(bids, k - 1);
      PrefixSums(bids, k - 1);
    }
  }

  /** A prefix of bids keeps the floor exactly when its negation keeps the negated limit. */
  lemma WithinOfBids(bids: Book, k: nat, floor: real)
    requires k <= |bids|
    ensures Within(Negated(bids), k, -floor) <==> AtLeast(bids, k, floor)
  {
    hide WholeCost, Depth;
    NegatedPrefix(bids, k);
    if Depth(bids[..k]) > 0.0 {
      NegatedQuotient(WholeCost(bids[..k]), Depth(bids[..k]));
    }
  }

  /** Selling any amount up to the reported size keeps the average at or above the limit price. */
  lemma BidSizeIsWithinLimit(bids: Book, k: nat, floor: real, amount: real)
    requires NonNegative(bids) && Descending(bids) && StopsAt(Negated(bids), k, -floor)
    requires 0.0 < amount <= Depth(bids[..k])
    ensures AvgPrice(bids, amount).Some? && AvgPrice(bids, amount).value >= floor
  {
    NegatedSorted(bids);
    NegatedPrefix(bids, k);
    SizeIsWithinLimit(Negated(bids), k, -floor, amount);
    NegatedAverage(bids, amount);
  }

  /** Every longer prefix of bids falls below the limit price. */
  lemma LongerBidPrefixesFallBelow(bids: Book, k: nat, floor: real, j: nat)
    requires NonNegative(bids) && Descending(bids) && StopsAt(Negated(bids), k, -floor)
    requires k < j <= |bids|
    ensures !AtLeast(bids, j, floor)
  {
    NegatedSorted(bids);
    LongerPrefixesExceed(Negated(bids), k, -floor, j);
    WithinOfBids(bids, j, floor);
  }

  ghost predicate FallsBelow(bids: Book, amount: real, floor: real) {
    AvgPrice(bids, amount).Some? && AvgPrice(bids, amount).value < floor
  }

  lemma FallsBelowIff(bids: Book, amount: real, floor: real)
    requires amount > 0.0
    ensures FallsBelow(bids, amount, floor) <==> Exceeds(Negated(bids), amount, -floor)
  {
    hide FillCost, Unfilled;
    NegatedAverage(bids, amount);
  }

  /** Every amount above `size` and up to `depth` falls below the limit. */
  ghost predicate LargerFallBelow(bids: Book, size: real, depth: real, floor: real) {
    forall a :: size < a <= depth ==> FallsBelow(bids, a, floor)
  }

  lemma LargerOfBids(bids: Book, size: real, depth: real, floor: real)
    requires size >= 0.0
    ensures LargerFallBelow(bids, size, depth, floor) <==> LargerExceed(Negated(bids), size, depth, -floor)
  {
    var asks, cap := Negated(bids), -floor;
    forall a | size < a <= depth ensures FallsBelow(bids, a, floor) <==> Exceeds(asks, a, cap) {
      FallsBelowIff(bids, a, floor);
    }
    assert LargerFallBelow(bids, size, depth, floor) <==> LargerExceed(asks, size, depth, cap);
  }

  /** The size of bids is the largest within the limit under the same condition as that of asks. */
  lemma BidSizeIsLargestIff(bids: Book, k: nat, floor: real)
    requires NonNegative(bids) && Descending(bids) && StopsAt(Negated(bids), k, -floor)
    ensures LargerFallBelow(bids, Depth(bids[..k]), Depth(bids), floor)
      <==> (k == |bids| || WholeCost(bids[..k]) == Cost(floor, Depth(bids[..k])))
  {
    hide *;
    StopsInside(bids, k, floor);
    NegatedSorted(bids);
    SizeIsLargestIff(Negated(bids), k, -floor);
    NegatedSize(bids, k);
    NegatedPrice(floor, Depth(bids[..k]));
    LargerOfBids(bids, Depth(bids[..k]), Depth(bids), floor);
  }

  lemma StopsInside(bids: Book, k: nat, floor: real)
    requires StopsAt(Negated(bids), k, -floor)
    ensures k <= |bids|
  {
  }

  lemma NegatedSize(bids: Book, k: nat)
    requires NonNegative(bids) && k <= |bids|
    ensures |Negated(bids)| == |bids| && Depth(Negated(bids)) == Depth(bids)
    ensures Depth(Negated(bids)[..k]) == Depth(bids[..k]) >= 0.0
    ensures WholeCost(Negated(bids)[..k]) == -WholeCost(bids[..k])
  {
    NegatedPrefix(bids, k);
    NegatedFill(bids, 0.0);
    DepthOfPrefixes(bids, 0, k);
  }

  // ------------------------------------------------------------ a size that is not the largest

  /** 0.4% over the best ask of 100: one unit is reported, and a quarter of the next level would still fit. */
  lemma AskSizeCanBeSmaller() returns (asks: Book, cap: real)
    ensures cap == 100.0 * (1.0 + 0.4 / 100.0)
    ensures NonNegative(asks) && Ascending(asks) && |asks| == 2 && asks[0].price == 100.0
    ensures StopsAt(asks, 1, cap) && Depth(asks[..1]) == 1.0
    ensures 1.25 <= Depth(asks) && AvgPrice(asks, 1.25) == Some(cap)
  {
    asks, cap := [Level(100.0, 1.0), Level(102.0, 1.0)], 100.4;
    NoLevels(asks);
    PrefixSums(asks, 0);
    PrefixSums(asks, 1);
    assert asks[..2] == asks;
    PartOfLevel(asks, 1, 0.25);
    ThinIff(asks, 1.25);
  }

  /** The same with bids: 0.4% below the best bid of 100. */
  lemma BidSizeCanBeSmaller() returns (bids: Book, floor: real)
    ensures floor == 100.0 * (1.0 - 0.4 / 100.0)
    ensures NonNegative(bids) && Descending(bids) && |bids| == 2 && bids[0].price == 100.0
    ensures StopsAt(Negated(bids), 1, -floor) && Depth(bids[..1]) == 1.0
    ensures 1.25 <= Depth(bids) && AvgPrice(bids, 1.25) == Some(floor)
  {
    bids, floor := [Level(100.0, 1.0), Level(98.0, 1.0)], 99.6;
    NoLevels(bids);
    PrefixSums(bids, 0);
    PrefixSums(bids, 1);
    assert bids[..2] == bids;
    WithinOfBids(bids, 0, floor);
    WithinOfBids(bids, 1, floor);
    WithinOfBids(bids, 2, floor);
    PartOfLevel(bids, 1, 0.25);
    ThinIff(bids, 1.25);
  }
}
