/**
 How much one trade may be (internal/position/position_manager.go).

 A nil reference or a missing map entry is an absent entry here; analytics and
 exchange look-ups are inputs.
 */
module Sizing {
  import opened Arith
  import opened Options

  const MAX_TRADE_VALUE := 2000.0
  const MIN_TRADE_VALUE := 50.0
  const BALANCE_SHARE := 0.9
  const DEFAULT_LEVERAGE := 10
  const DEFAULT_MAX_COST := 1.0
  const DUST := 0.000000000001

  datatype Side = Buy | Sell
  datatype Direction = AB | BA | Unknown
  datatype Leg = Onchain(chain: string) | Spot(exchange: string) | Futures(exchange: string)
  datatype Prices = Prices(bid: real, ask: real)

  datatype PositionSide = Long | Short | Unset
  datatype Position = Position(side: PositionSide, size: real, markPrice: real, leverage: int)

  type Balances = map<string, real>

  datatype ExchangeWallet = ExchangeWallet(spot: Option<Balances>, futures: Option<Balances>, account: Option<Balances>,
                                           positions: map<string, Position>)

  /** On-chain balances are texts; one that does not parse is `None`. */
  datatype Wallet = Wallet(exchanges: map<string, ExchangeWallet>, onchain: map<string, map<string, Option<real>>>)

  function Product(a: real, b: real): real {
    a * b
  }

  function Get(b: Balances, asset: string): real {
    if asset in b then b[asset] else 0.0
  }

  function PriceFor(p: Prices, side: Side): real {
    if side.Buy? then p.ask else p.bid
  }

  // ------------------------------------------------------------ what one leg has

  /** The quote balance or coin balance an on-chain leg trades from. */
  function OnchainBalance(w: Wallet, chain: string, asset: string): real {
    if chain in w.onchain && asset in w.onchain[chain] && w.onchain[chain][asset].Some?
    then w.onchain[chain][asset].value else 0.0
  }

  /** The account a spot or futures leg trades from, with the aggregate account as fallback. */
  function AccountOf(w: Wallet, exchange: string, futures: bool): Option<Balances> {
    if exchange !in w.exchanges then None
    else
      var e := w.exchanges[exchange];
      var own := if futures then e.futures else e.spot;
      if own.Some? then own else e.account
  }

  function AssetFor(side: Side, coin: string): string {
    if side.Buy? then "USDT" else coin
  }

  /** Buying is limited by USDT at the ask price, selling by the coin itself. */
  function CashSize(balance: real, side: Side, prices: Option<Prices>): real {
    if balance <= 0.0 then 0.0
    else if side.Sell? then balance
    else if prices.None? || prices.value.ask <= 0.0 then 0.0
    else balance / prices.value.ask
  }

  function Abs(x: real): real {
    if x < 0.0 then -x else x
  }

  function LeverageOr(leverage: int): (l: int)
    ensures l > 0
  {
    if leverage <= 0 then DEFAULT_LEVERAGE else leverage
  }

  /** The margin one position holds: nothing for dust or without a mark price. */
  function MarginOf(p: Position): real {
    if Abs(p.size) < DUST || p.markPrice <= 0.0 then 0.0
    else Product(Abs(p.size), p.markPrice) / LeverageOr(p.leverage) as real
  }

  /** The margin times the leverage is the worth of the position; 10 stands in for a missing leverage. */
  lemma MarginIsWorthOverLeverage(p: Position)
    ensures Product(MarginOf(p), (if p.leverage > 0 then p.leverage else 10) as real) ==
            if p.markPrice > 0.0 && (p.size >= 0.000000000001 || p.size <= -0.000000000001)
            then Product(if p.size > 0.0 then p.size else -p.size, p.markPrice) else 0.0
  {
    QuotientTimes(Product(Abs(p.size), p.markPrice), LeverageOr(p.leverage) as real);
  }

  ghost function MarginOver(positions: map<string, Position>, names: set<string>): real
    requires names <= positions.Keys
  {
    if names == {} then 0.0
    else
      var n :| n in names;
      MarginOf(positions[n]) + MarginOver(positions, names - {n})
  }

  lemma {:induction false} MarginOverAny(positions: map<string, Position>, names: set<string>, n: string)
    requires names <= positions.Keys && n in names
    ensures MarginOver(positions, names) == MarginOf(positions[n]) + MarginOver(positions, names - {n})
  {
    hide MarginOf;
    var m :| m in names && MarginOver(positions, names) == MarginOf(positions[m]) + MarginOver(positions, names - {m});
    if n != m {
      MarginOverAny(positions, names - {m}, n);
      MarginOverAny(positions, names - {n}, m);
      assert names - {m} - {n} == names - {n} - {m};
    }
  }

  /** The margin all positions of an exchange hold together. */
  ghost function MarginUsed(positions: map<string, Position>): real {
    MarginOver(positions, positions.Keys)
  }

  method SumMargin(positions: map<string, Position>) returns (used: real)
    ensures used == MarginUsed(positions)
  {
    hide MarginOf;
    used := 0.0;
    var rest := positions.Keys;
    while rest != {}
      invariant rest <= positions.Keys
      invariant used + MarginOver(positions, rest) == MarginUsed(positions)
      decreases rest
    {
      var n :| n in rest;
      MarginOverAny(positions, rest, n);
      used := used + MarginOf(positions[n]);
      rest := rest - {n};
    }
  }

  /** The open position in the traded symbol, if any. */
  function HeldIn(e: ExchangeWallet, symbol: string): Option<Position> {
    if symbol in e.positions && e.positions[symbol].size > 0.0 then Some(e.positions[symbol]) else None
  }

  function LeverageIn(e: ExchangeWallet, symbol: string): (l: int)
    ensures l > 0
  {
    var held := HeldIn(e, symbol);
    if held.Some? then LeverageOr(held.value.leverage) else DEFAULT_LEVERAGE
  }

  /** What closing the opposite position frees before anything is opened; none when the side is not known. */
  function Closable(e: ExchangeWallet, symbol: string, side: Side): Option<real> {
    var held := HeldIn(e, symbol);
    if held.None? then Some(0.0)
    else if held.value.side == Unset then None
    else if side.Buy? == held.value.side.Long? then Some(0.0)
    else Some(held.value.size)
  }

  ghost function FuturesSize(w: Wallet, exchange: string, symbol: string, side: Side, prices: Option<Prices>): real {
    var account := AccountOf(w, exchange, true);
    if account.None? then 0.0
    else
      var e, usdt := w.exchanges[exchange], Get(account.value, "USDT");
      if usdt <= 0.0 || prices.None? || PriceFor(prices.value, side) <= 0.0 then 0.0
      else
        var free := usdt - MarginUsed(e.positions);
        if free <= 0.0 || Closable(e, symbol, side).None? then 0.0
        else Closable(e, symbol, side).value + Product(free, LeverageIn(e, symbol) as real) / PriceFor(prices.value, side)
  }

  method FuturesAvailableSize(w: Wallet, exchange: string, symbol: string, side: Side, prices: Option<Prices>)
    returns (size: real)
    ensures size == FuturesSize(w, exchange, symbol, side, prices)
  {
    var account := AccountOf(w, exchange, true);
    if account.None? {
      return 0.0;
    }
    var e := w.exchanges[exchange];
    var usdt := Get(account.value, "USDT");
    if usdt <= 0.0 {
      return 0.0;
    }
    if prices.None? || PriceFor(prices.value, side) <= 0.0 {
      return 0.0;
    }
    var used := SumMargin(e.positions);
    var free := usdt - used;
    if free <= 0.0 {
      return 0.0;
    }
    var openSize := Product(free, LeverageIn(e, symbol) as real) / PriceFor(prices.value, side);
    var held := HeldIn(e, symbol);
    if held.Some? {
      if side.Buy? && held.value.side.Long? {
        size := openSize;
      } else if side.Sell? && held.value.side.Short? {
        size := openSize;
      } else if side.Buy? && held.value.side.Short? {
        size := held.value.size + openSize;
      } else if side.Sell? && held.value.side.Long? {
        size := held.value.size + openSize;
      } else {
        return 0.0;
      }
    } else {
      size := openSize;
    }
  }

  ghost function LegSize(w: Wallet, leg: Leg, symbol: string, coin: string, side: Side, prices: Option<Prices>): real {
    match leg
    case Onchain(chain) => CashSize(OnchainBalance(w, chain, AssetFor(side, coin)), side, prices)
    case Spot(ex) =>
      var account := AccountOf(w, ex, false);
      if account.None? then 0.0 else CashSize(Get(account.value, AssetFor(side, coin)), side, prices)
    case Futures(ex) => FuturesSize(w, ex, symbol, side, prices)
  }

  method AvailableForLeg(w: Wallet, leg: Leg, symbol: string, coin: string, side: Side, prices: Option<Prices>)
    returns (size: real)
    ensures size == LegSize(w, leg, symbol, coin, side, prices)
  {
    match leg {
      case Onchain(chain) =>
        size := CashSize(OnchainBalance(w, chain, AssetFor(side, coin)), side, prices);
      case Spot(ex) =>
        var account := AccountOf(w, ex, false);
        size := if account.None? then 0.0 else CashSize(Get(account.value, AssetFor(side, coin)), side, prices);
      case Futures(ex) =>
        size := FuturesAvailableSize(w, ex, symbol, side, prices);
    }
  }

  // ------------------------------------------------------------ what a leg can afford

  /** The part of `size` that opens a position, after closing the opposite one. */
  function Opened(e: ExchangeWallet, symbol: string, side: Side, size: real): real {
    var c := Closable(e, symbol, side);
    if c.None? then size else if size <= c.value then 0.0 else size - c.value
  }

  /**
   `size` is covered on this leg: a cash leg spends at most 90% of its balance; on futures the
   margin of all positions and of the newly opened part together stay within the balance.
   */
  ghost predicate Affordable(w: Wallet, leg: Leg, symbol: string, coin: string, side: Side, prices: Option<Prices>, size: real) {
    match leg
    case Onchain(chain) => CashCovers(OnchainBalance(w, chain, AssetFor(side, coin)), side, prices, size)
    case Spot(ex) =>
      && AccountOf(w, ex, false).Some?
      && CashCovers(Get(AccountOf(w, ex, false).value, AssetFor(side, coin)), side, prices, size)
    case Futures(ex) =>
      && AccountOf(w, ex, true).Some? && prices.Some?
      && var e := w.exchanges[ex];
         MarginUsed(e.positions) + Product(Opened(e, symbol, side, size), PriceFor(prices.value, side)) / LeverageIn(e, symbol) as real
           <= Get(AccountOf(w, ex, true).value, "USDT")
  }

  predicate CashCovers(balance: real, side: Side, prices: Option<Prices>, size: real) {
    if side.Sell? then size <= BALANCE_SHARE * balance
    else prices.Some? && Product(size, prices.value.ask) <= BALANCE_SHARE * balance
  }

  lemma CashLegAffords(balance: real, side: Side, prices: Option<Prices>, size: real)
    requires CashSize(balance, side, prices) > 0.0
    requires size <= BALANCE_SHARE * CashSize(balance, side, prices)
    ensures CashCovers(balance, side, prices, size)
  {
    if side.Buy? {
      var ask := prices.value.ask;
      QuotientTimes(balance, ask);
      MulMonotone(size, BALANCE_SHARE * (balance / ask), ask);
      assert BALANCE_SHARE * (balance / ask) * ask == BALANCE_SHARE * (balance / ask * ask);
    }
  }

  lemma FuturesLegAffords(w: Wallet, ex: string, symbol: string, side: Side, prices: Option<Prices>, size: real)
    requires FuturesSize(w, ex, symbol, side, prices) > 0.0
    requires 0.0 < size <= BALANCE_SHARE * FuturesSize(w, ex, symbol, side, prices)
    ensures Affordable(w, Futures(ex), symbol, "", side, prices, size)
  {
    hide Product, MarginUsed, LeverageIn, HeldIn, Get;
    var e, usdt := w.exchanges[ex], Get(AccountOf(w, ex, true).value, "USDT");
    var free, price := usdt - MarginUsed(e.positions), PriceFor(prices.value, side);
    var c := Closable(e, symbol, side);
    OpenedIsCovered(free, LeverageIn(e, symbol) as real, price, ClosableSign(e, symbol, side), size, Opened(e, symbol, side, size));
  }

  lemma ClosableNonNegative(e: ExchangeWallet, symbol: string, side: Side)
    ensures Closable(e, symbol, side).Some? ==> Closable(e, symbol, side).value >= 0.0
  {
  }

  ghost function ClosableSign(e: ExchangeWallet, symbol: string, side: Side): (c: real)
    requires Closable(e, symbol, side).Some?
    ensures c >= 0.0 && c == Closable(e, symbol, side).value
  {
    ClosableNonNegative(e, symbol, side);
    Closable(e, symbol, side).value
  }

  lemma OpenedIsCovered(free: real, leverage: real, price: real, closed: real, size: real, openSize: real)
    requires free > 0.0 && leverage > 0.0 && price > 0.0 && closed >= 0.0
    requires size <= BALANCE_SHARE * (closed + Product(free, leverage) / price)
    requires openSize == if size <= closed then 0.0 else size - closed
    ensures Product(openSize, price) / leverage <= free
  {
    var capacity := Product(free, leverage) / price;
    QuotientTimes(Product(free, leverage), price);
    assert capacity * price == free * leverage;
    assert free * leverage > 0.0;
    if capacity <= 0.0 {
      MulMonotone(capacity, 0.0, price);
    }
    assert openSize <= capacity;
    MulMonotone(openSize, capacity, price);
    QuotientCap(Product(openSize, price), leverage, free);
  }

  /** Whatever is at most 90% of what a leg has available is covered on that leg. */
  lemma LegAffords(w: Wallet, leg: Leg, symbol: string, coin: string, side: Side, prices: Option<Prices>, size: real)
    requires LegSize(w, leg, symbol, coin, side, prices) > 0.0
    requires 0.0 < size <= BALANCE_SHARE * LegSize(w, leg, symbol, coin, side, prices)
    ensures Affordable(w, leg, symbol, coin, side, prices, size)
  {
    match leg {
      case Onchain(chain) =>
        CashLegAffords(OnchainBalance(w, chain, AssetFor(side, coin)), side, prices, size);
      case Spot(ex) =>
        CashLegAffords(Get(AccountOf(w, ex, false).value, AssetFor(side, coin)), side, prices, size);
      case Futures(ex) =>
        FuturesLegAffords(w, ex, symbol, side, prices, size);
    }
  }

  // ------------------------------------------------------------ GetSize

  /** What the analytics of a symbol answer. */
  datatype Analyzer = Analyzer(maxSize: Direction -> real, cost: (Direction, real) -> Option<real>,
                               thresholds: Option<(real, real)>)

  datatype Query = Query(symbol: string, coin: string, tracked: bool, direction: Direction,
                         exchangePrices: Option<Prices>, onchainPrices: Option<Prices>,
                         legA: Leg, legB: Leg, quantoA: Option<real>, quantoB: Option<real>,
                         wallet: Option<Wallet>, analyzer: Option<Analyzer>)
  {
    function SideA(): Side {
      if direction == AB then Buy else Sell
    }

    function SideB(): Side {
      if direction == AB then Sell else Buy
    }

    /** An on-chain leg uses the chain's own prices when there are any. */
    function LegPrices(leg: Leg): Option<Prices> {
      if leg.Onchain? && onchainPrices.Some? then onchainPrices else exchangePrices
    }

    /** A tracked symbol, a direction and exchange prices. */
    predicate Complete() {
      symbol != "" && direction != Unknown && tracked && exchangePrices.Some?
    }

    /** The price a trade in this direction is valued at. */
    function TradePrice(): real {
      if exchangePrices.None? then 0.0
      else if direction == BA then exchangePrices.value.ask else exchangePrices.value.bid
    }
  }

  ghost function AvailableA(q: Query): real {
    if q.wallet.None? then 0.0 else LegSize(q.wallet.value, q.legA, q.symbol, q.coin, q.SideA(), q.LegPrices(q.legA))
  }

  ghost function AvailableB(q: Query): real {
    if q.wallet.None? then 0.0 else LegSize(q.wallet.value, q.legB, q.symbol, q.coin, q.SideB(), q.LegPrices(q.legB))
  }

  /** 90% of the smaller leg, and nothing when a leg has nothing. */
  ghost function Available(q: Query): real {
    var a, b := AvailableA(q), AvailableB(q);
    if q.coin == "" || a <= 0.0 || b <= 0.0 then 0.0
    else BALANCE_SHARE * (if a < b then a else b)
  }

  /** The configured maximum, cut to the value limit; 0 when either is missing. */
  function LimitedMaxSize(maxSize: real, price: real): (r: real)
    ensures r <= 0.0 || (price > 0.0 && r <= maxSize && r <= MAX_TRADE_VALUE / price)
  {
    if maxSize <= 0.0 || price <= 0.0 then 0.0
    else if maxSize > MAX_TRADE_VALUE / price then MAX_TRADE_VALUE / price
    else maxSize
  }

  function Step(quanto: Option<real>): real {
    if quanto.Some? then quanto.value else 0.0
  }

  /** The largest quantity step of the two legs, or 0. */
  function MaxQuanto(a: Option<real>, b: Option<real>): (r: real)
    ensures r >= 0.0 && (r == 0.0 || r == Step(a) || r == Step(b))
    ensures Step(a) <= r && Step(b) <= r
  {
    var x := if a.Some? && a.value > 0.0 then a.value else 0.0;
    if b.Some? && b.value > 0.0 && b.value > x then b.value else x
  }

  /** Hundreds from 100 up, tens from 10 up, units below. */
  function RoundStep(size: real): (r: real)
    ensures r > 0.0
  {
    if size >= 100.0 then 100.0 else if size >= 10.0 then 10.0 else 1.0
  }

  function StepFor(q: Query, size: real): (r: real)
    ensures r > 0.0
  {
    var quanto := MaxQuanto(q.quantoA, q.quantoB);
    if quanto > 0.0 then quanto else RoundStep(size)
  }

  function Multiple(n: int, step: real): real {
    Product(n as real, step)
  }

  function RoundDown(size: real, step: real): real
    requires step > 0.0
  {
    Multiple((size / step).Floor, step)
  }

  function MaxCostPercent(q: Query): real {
    if q.analyzer.None? || q.analyzer.value.thresholds.None? then DEFAULT_MAX_COST
    else
      var t := q.analyzer.value.thresholds.value;
      var threshold := if q.direction == BA then t.1 else t.0;
      if q.TradePrice() > 0.0 && threshold > 0.0 then threshold / q.TradePrice() * 100.0 else DEFAULT_MAX_COST
  }

  /** What a trade is cut from: the limited maximum, and the balances when they are known to be positive. */
  ghost function Room(q: Query): real
    requires q.analyzer.Some?
  {
    var limited := LimitedMaxSize(q.analyzer.value.maxSize(q.direction), q.TradePrice());
    if Available(q) > 0.0 && Available(q) < limited then Available(q) else limited
  }

  /**
   A size worth trading: within the configured maximum, worth 50 to 2000 USDT, the largest multiple
   of the step that fits, within the accepted cost, and covered on both legs when both have something
   available. A leg with nothing available, known to be empty or not, leaves the size as it is.
   */
  ghost predicate Sound(q: Query, size: real) {
    && size > 0.0 && q.analyzer.Some?
    && size <= q.analyzer.value.maxSize(q.direction)
    && MIN_TRADE_VALUE <= Product(size, q.TradePrice()) <= MAX_TRADE_VALUE
    && (exists n :: size == Multiple(n, StepFor(q, Room(q))))
    && size <= Room(q) < size + StepFor(q, Room(q))
    && q.analyzer.value.cost(q.direction, size).Some?
    && q.analyzer.value.cost(q.direction, size).value <= MaxCostPercent(q)
    && (Available(q) > 0.0 ==>
         && Affordable(q.wallet.value, q.legA, q.symbol, q.coin, q.SideA(), q.LegPrices(q.legA), size)
         && Affordable(q.wallet.value, q.legB, q.symbol, q.coin, q.SideB(), q.LegPrices(q.legB), size))
  }

  lemma OneMoreStep(n: real, step: real)
    ensures Product(n + 1.0, step) == Product(n, step) + step
  {
  }

  lemma ProductsInOrder(x: real, y: real, step: real)
    requires step > 0.0
    ensures x <= y ==> Product(x, step) <= Product(y, step)
    ensures x < y ==> Product(x, step) < Product(y, step)
  {
    if x < y {
      MulStrict(x, y, step);
    }
  }

  lemma RoundDownFits(size: real, step: real)
    requires step > 0.0
    ensures RoundDown(size, step) <= size < RoundDown(size, step) + step
  {
    var quotient := size / step;
    QuotientTimes(size, step);
    assert Product(quotient, step) == size;
    hide Product;
    var n := quotient.Floor as real;
    ProductsInOrder(n, quotient, step);
    ProductsInOrder(quotient, n + 1.0, step);
    OneMoreStep(n, step);
  }

  lemma ValueWithinLimit(size: real, maxSize: real, price: real)
    requires price > 0.0 && size <= LimitedMaxSize(maxSize, price) && LimitedMaxSize(maxSize, price) > 0.0
    ensures Product(size, price) <= MAX_TRADE_VALUE
  {
    QuotientTimes(MAX_TRADE_VALUE, price);
    MulMonotone(size, MAX_TRADE_VALUE / price, price);
  }

  lemma BothLegsAfford(q: Query, size: real)
    requires Available(q) > 0.0 && 0.0 < size <= Available(q)
    ensures q.wallet.Some?
    ensures Affordable(q.wallet.value, q.legA, q.symbol, q.coin, q.SideA(), q.LegPrices(q.legA), size)
    ensures Affordable(q.wallet.value, q.legB, q.symbol, q.coin, q.SideB(), q.LegPrices(q.legB), size)
  {
    hide LegSize, Affordable;
    LegAffords(q.wallet.value, q.legA, q.symbol, q.coin, q.SideA(), q.LegPrices(q.legA), size);
    LegAffords(q.wallet.value, q.legB, q.symbol, q.coin, q.SideB(), q.LegPrices(q.legB), size);
  }

  /** The one size that can be sound. */
  lemma SoundIsRounded(q: Query, size: real)
    requires Sound(q, size)
    ensures Room(q) > 0.0 && size == RoundDown(Room(q), StepFor(q, Room(q)))
  {
    var room, step := Room(q), StepFor(q, Room(q));
    var n :| size == Multiple(n, step);
    RoundDownFits(room, step);
    SameMultiple(n, (room / step).Floor, step, room);
  }

  /** Without a quantity step less than half of what is at least 1 is rounded away. */
  lemma RoundingKeepsHalf(size: real)
    requires size >= 1.0
    ensures RoundDown(size, RoundStep(size)) > size / 2.0
  {
    var step := RoundStep(size);
    RoundDownFits(size, step);
    QuotientTimes(size, step);
    hide Product, Multiple;
    var n := (size / step).Floor;
    assert n >= 1 by {
      TimesOrder(1.0, size / step, step);
    }
    assert RoundDown(size, step) == Multiple(n, step);
    MultipleOfAtLeastOne(n, step);
  }

  lemma MultipleOfAtLeastOne(n: int, step: real)
    requires n >= 1 && step > 0.0
    ensures Multiple(n, step) >= step
  {
    MulMonotone(1.0, n as real, step);
  }

  lemma SameMultiple(n: int, m: int, step: real, x: real)
    requires step > 0.0
    requires Multiple(n, step) <= x < Multiple(n, step) + step && Multiple(m, step) <= x < Multiple(m, step) + step
    ensures n == m
  {
    if n < m {
      FartherMultiple(n, m, step);
    } else if m < n {
      FartherMultiple(m, n, step);
    }
  }

  lemma FartherMultiple(n: int, m: int, step: real)
    requires step > 0.0 && n < m
    ensures Multiple(n, step) + step <= Multiple(m, step)
  {
    MulMonotone((n + 1) as real, m as real, step);
    assert (n + 1) as real * step == n as real * step + step;
  }

  lemma NoOtherSize(q: Query)
    ensures forall s :: Sound(q, s) ==> Room(q) > 0.0 && s == RoundDown(Room(q), StepFor(q, Room(q)))
  {
    forall s | Sound(q, s) ensures Room(q) > 0.0 && s == RoundDown(Room(q), StepFor(q, Room(q))) {
      SoundIsRounded(q, s);
    }
  }

  /** Less than one step of room leaves nothing. */
  lemma NoWholeStep(room: real, step: real)
    requires 0.0 <= room < step
    ensures RoundDown(room, step) == 0.0
  {
    QuotientTimes(room, step);
    QuotientCap(room, step, 1.0);
    assert 0.0 <= room / step < 1.0 by {
      TimesOrder(1.0, room / step, step);
      TimesOrder(0.0, room / step, step);
    }
    assert (room / step).Floor == 0;
  }

  /** What survives the checks, cut from the room and rounded down, is sound. */
  lemma RoundedRoomIsSound(q: Query, size: real)
    requires q.analyzer.Some? && Room(q) > 0.0
    requires size == RoundDown(Room(q), StepFor(q, Room(q))) && size > 0.0
    requires Product(size, q.TradePrice()) >= MIN_TRADE_VALUE
    requires q.analyzer.value.cost(q.direction, size).Some?
    requires q.analyzer.value.cost(q.direction, size).value <= MaxCostPercent(q)
    ensures Sound(q, size)
  {
    var room, limited := Room(q), LimitedMaxSize(q.analyzer.value.maxSize(q.direction), q.TradePrice());
    assert room <= limited && (Available(q) > 0.0 ==> room <= Available(q));
    RoundDownFits(room, StepFor(q, room));
    assert size == Multiple((room / StepFor(q, room)).Floor, StepFor(q, room));
    hide Product, Available, StepFor, RoundDown, Multiple, Affordable, Room, MaxCostPercent;
    ValueWithinLimit(size, q.analyzer.value.maxSize(q.direction), q.TradePrice());
    if Available(q) > 0.0 {
      BothLegsAfford(q, size);
    }
  }

  // ------------------------------------------------------------ when a size is covered

  /** Covered on both legs. */
  ghost predicate BothAffordable(q: Query, size: real)
    requires q.wallet.Some?
  {
    && Affordable(q.wallet.value, q.legA, q.symbol, q.coin, q.SideA(), q.LegPrices(q.legA), size)
    && Affordable(q.wallet.value, q.legB, q.symbol, q.coin, q.SideB(), q.LegPrices(q.legB), size)
  }

  predicate PositivePrices(prices: Option<Prices>) {
    prices.Some? && prices.value.ask > 0.0 && prices.value.bid > 0.0
  }

  /** A cash leg with nothing available covers no positive size. */
  lemma EmptyCashLegCoversNothing(w: Wallet, leg: Leg, symbol: string, coin: string, side: Side, prices: Option<Prices>, size: real)
    requires !leg.Futures? && PositivePrices(prices) && size > 0.0
    requires LegSize(w, leg, symbol, coin, side, prices) <= 0.0
    ensures !Affordable(w, leg, symbol, coin, side, prices, size)
  {
    match leg {
      case Onchain(chain) => NoCashCoversNothing(OnchainBalance(w, chain, AssetFor(side, coin)), side, prices, size);
      case Spot(ex) =>
        if AccountOf(w, ex, false).Some? {
          NoCashCoversNothing(Get(AccountOf(w, ex, false).value, AssetFor(side, coin)), side, prices, size);
        }
    }
  }

  lemma NoCashCoversNothing(balance: real, side: Side, prices: Option<Prices>, size: real)
    requires PositivePrices(prices) && size > 0.0 && CashSize(balance, side, prices) <= 0.0
    ensures !CashCovers(balance, side, prices, size)
  {
    var ask := prices.value.ask;
    if balance > 0.0 {
      QuotientTimes(balance, ask);
      if balance / ask <= 0.0 {
        MulMonotone(balance / ask, 0.0, ask);
      }
      assert false;
    }
    MulStrict(0.0, size, ask);
  }

  /** Between two cash legs a sound size is covered exactly when both have something available. */
  lemma SoundIsCoveredIff(q: Query, size: real)
    requires Sound(q, size) && q.coin != "" && q.wallet.Some? && !q.legA.Futures? && !q.legB.Futures?
    requires PositivePrices(q.LegPrices(q.legA)) && PositivePrices(q.LegPrices(q.legB))
    ensures BothAffordable(q, size) <==> AvailableA(q) > 0.0 && AvailableB(q) > 0.0
  {
    hide LegSize, Affordable, StepFor, Room, Product, MaxCostPercent;
    if AvailableA(q) <= 0.0 {
      EmptyCashLegCoversNothing(q.wallet.value, q.legA, q.symbol, q.coin, q.SideA(), q.LegPrices(q.legA), size);
    } else if AvailableB(q) <= 0.0 {
      EmptyCashLegCoversNothing(q.wallet.value, q.legB, q.symbol, q.coin, q.SideB(), q.LegPrices(q.legB), size);
    }
  }

  lemma {:induction false} MarginNonNegative(positions: map<string, Position>, names: set<string>)
    requires names <= positions.Keys
    ensures MarginOver(positions, names) >= 0.0
  {
    if names != {} {
      var n :| n in names;
      MarginOverAny(positions, names, n);
      MarginOfNonNegative(positions[n]);
      MarginNonNegative(positions, names - {n});
    }
  }

  lemma MarginOfNonNegative(p: Position)
    ensures MarginOf(p) >= 0.0
  {
    if p.markPrice > 0.0 {
      ProductNonNegative(Abs(p.size), p.markPrice);
      QuotientSign(Product(Abs(p.size), p.markPrice), LeverageOr(p.leverage) as real);
    }
  }

  lemma QuotientSign(x: real, k: real)
    requires k > 0.0
    ensures x >= 0.0 <==> x / k >= 0.0
    ensures x > 0.0 <==> x / k > 0.0
  {
    QuotientTimes(x, k);
    TimesOrder(0.0, x / k, k);
    TimesOrder(x / k, 0.0, k);
  }

  /** The margin a futures leg has to put up for the part of `size` that opens a position. */
  function MarginFor(e: ExchangeWallet, symbol: string, side: Side, price: real, size: real): real {
    Product(Opened(e, symbol, side, size), price) / LeverageIn(e, symbol) as real
  }

  lemma MarginForSign(e: ExchangeWallet, symbol: string, side: Side, price: real, size: real)
    requires price > 0.0 && size > 0.0
    ensures MarginFor(e, symbol, side, price, size) >= 0.0
    ensures MarginFor(e, symbol, side, price, size) == 0.0 <==> Closable(e, symbol, side).Some? && size <= Closable(e, symbol, side).value
  {
    hide LeverageIn, Closable;
    var openSize := Opened(e, symbol, side, size);
    if openSize > 0.0 {
      MulStrict(0.0, openSize, price);
    }
    QuotientSign(Product(openSize, price), LeverageIn(e, symbol) as real);
  }

  /**
   A futures leg with nothing available still covers a size in two cases only: the margin in use is the whole
   balance and the size does no more than close the held position, or the side of the held position is not known
   and the balance has margin left for the size.
   */
  lemma IdleFuturesCoversIff(w: Wallet, ex: string, symbol: string, side: Side, prices: Option<Prices>, size: real)
    requires PositivePrices(prices) && size > 0.0 && FuturesSize(w, ex, symbol, side, prices) <= 0.0
    ensures Affordable(w, Futures(ex), symbol, "", side, prices, size) <==>
            && AccountOf(w, ex, true).Some?
            && (var e, usdt := w.exchanges[ex], Get(AccountOf(w, ex, true).value, "USDT");
                var c := Closable(e, symbol, side);
                if c.Some? then size <= c.value && MarginUsed(e.positions) == usdt
                else MarginUsed(e.positions) + MarginFor(e, symbol, side, PriceFor(prices.value, side), size) <= usdt)
  {
    hide Product, MarginOver, Closable, LeverageIn, Get, Opened;
    if AccountOf(w, ex, true).Some? {
      var e, usdt, price := w.exchanges[ex], Get(AccountOf(w, ex, true).value, "USDT"), PriceFor(prices.value, side);
      MarginNonNegative(e.positions, e.positions.Keys);
      MarginForSign(e, symbol, side, price, size);
      ClosableNonNegative(e, symbol, side);
      var free := usdt - MarginUsed(e.positions);
      if Closable(e, symbol, side).Some? && usdt > 0.0 && free > 0.0 {
        OpeningIsPositive(free, LeverageIn(e, symbol) as real, price);
      }
    }
  }

  lemma OpeningIsPositive(free: real, leverage: real, price: real)
    requires free > 0.0 && leverage > 0.0 && price > 0.0
    ensures Product(free, leverage) / price > 0.0
  {
    MulStrict(0.0, free, leverage);
    QuotientSign(Product(free, leverage), price);
  }

  /** Only closing the held position needs no margin: it is covered exactly while the margin in use is. */
  lemma ClosingIsCoveredIff(w: Wallet, ex: string, symbol: string, side: Side, prices: Option<Prices>, size: real)
    requires AccountOf(w, ex, true).Some? && PositivePrices(prices) && size > 0.0
    requires var c := Closable(w.exchanges[ex], symbol, side); c.Some? && size <= c.value
    ensures Affordable(w, Futures(ex), symbol, "", side, prices, size) <==>
            MarginUsed(w.exchanges[ex].positions) <= Get(AccountOf(w, ex, true).value, "USDT")
  {
    hide Product, MarginUsed, Closable, LeverageIn, Get;
    MarginForSign(w.exchanges[ex], symbol, side, PriceFor(prices.value, side), size);
  }

  // ------------------------------------------------------------ the trade in terms of the wallet

  predicate Lists(b: Option<Balances>, asset: string, amount: real) {
    b.Some? && asset in b.value && b.value[asset] == amount
  }

  /**
   The wallet shows this amount where the leg trades: on the chain, or in the exchange's account for the kind of leg,
   or in its aggregate account when there is no such account.
   */
  predicate Shows(w: Wallet, leg: Leg, asset: string, amount: real) {
    match leg
    case Onchain(chain) => chain in w.onchain && asset in w.onchain[chain] && w.onchain[chain][asset] == Some(amount)
    case Spot(ex) =>
      ex in w.exchanges && Lists(if w.exchanges[ex].spot.Some? then w.exchanges[ex].spot else w.exchanges[ex].account, asset, amount)
    case Futures(ex) =>
      ex in w.exchanges && Lists(if w.exchanges[ex].futures.Some? then w.exchanges[ex].futures else w.exchanges[ex].account, asset, amount)
  }

  /** The size of the position held in the symbol on this side. */
  function HeldOn(e: ExchangeWallet, symbol: string, side: PositionSide): real {
    if symbol in e.positions && e.positions[symbol].side == side && e.positions[symbol].size > 0.0 then e.positions[symbol].size
    else 0.0
  }

  /** What margin in use leaves of `usdt` pays, at the held position's leverage or 10, for what `closed` leaves of `size`. */
  ghost predicate FreePays(e: ExchangeWallet, symbol: string, closed: real, price: real, size: real, usdt: real) {
    var held := symbol in e.positions && e.positions[symbol].size > 0.0 && e.positions[symbol].leverage > 0;
    var leverage := if held then e.positions[symbol].leverage else 10;
    Product(size - closed, price) / leverage as real <= usdt - MarginUsed(e.positions)
  }

  /** The futures account pays for `size`, a position of side `closes` being closed first. */
  ghost predicate MarginPays(w: Wallet, ex: string, symbol: string, closes: PositionSide, price: real, size: real) {
    && ex in w.exchanges
    && (exists usdt :: Shows(w, Futures(ex), "USDT", usdt) &&
          FreePays(w.exchanges[ex], symbol, HeldOn(w.exchanges[ex], symbol, closes), price, size, usdt))
  }

  /** The balance exceeds the margin in use, and the side of the held position is known. */
  ghost predicate HasMargin(w: Wallet, ex: string, symbol: string, price: real) {
    && price > 0.0 && ex in w.exchanges
    && (symbol in w.exchanges[ex].positions && w.exchanges[ex].positions[symbol].side == Unset ==>
         w.exchanges[ex].positions[symbol].size <= 0.0)
    && exists usdt :: Shows(w, Futures(ex), "USDT", usdt) && usdt > 0.0 && usdt > MarginUsed(w.exchanges[ex].positions)
  }

  ghost predicate HasForBuying(w: Wallet, leg: Leg, symbol: string, prices: Option<Prices>) {
    prices.Some? &&
    if leg.Futures? then HasMargin(w, leg.exchange, symbol, prices.value.ask)
    else prices.value.ask > 0.0 && exists usdt :: Shows(w, leg, "USDT", usdt) && usdt > 0.0
  }

  ghost predicate HasForSelling(w: Wallet, leg: Leg, symbol: string, coin: string, prices: Option<Prices>) {
    if leg.Futures? then prices.Some? && HasMargin(w, leg.exchange, symbol, prices.value.bid)
    else exists coins :: Shows(w, leg, coin, coins) && coins > 0.0
  }

  /** The leg pays for `size` at the ask: with its USDT, or with free margin after closing a short position. */
  ghost predicate Buys(w: Wallet, leg: Leg, symbol: string, prices: Option<Prices>, size: real) {
    prices.Some? &&
    if leg.Futures? then MarginPays(w, leg.exchange, symbol, Short, prices.value.ask, size)
    else exists usdt :: Shows(w, leg, "USDT", usdt) && Product(size, prices.value.ask) <= usdt
  }

  /** The leg delivers `size`: with its coins, or with free margin at the bid after closing a long position. */
  ghost predicate Sells(w: Wallet, leg: Leg, symbol: string, coin: string, prices: Option<Prices>, size: real) {
    if leg.Futures? then prices.Some? && MarginPays(w, leg.exchange, symbol, Long, prices.value.bid, size)
    else exists coins :: Shows(w, leg, coin, coins) && size <= coins
  }

  lemma ShownOrNothing(w: Wallet, leg: Leg, asset: string, balance: real)
    requires match leg
             case Onchain(chain) => balance == OnchainBalance(w, chain, asset)
             case Spot(ex) => balance == (if AccountOf(w, ex, false).None? then 0.0 else Get(AccountOf(w, ex, false).value, asset))
             case Futures(ex) => balance == (if AccountOf(w, ex, true).None? then 0.0 else Get(AccountOf(w, ex, true).value, asset))
    ensures forall amount :: Shows(w, leg, asset, amount) ==> amount == balance
    ensures balance != 0.0 ==> Shows(w, leg, asset, balance)
  {
  }

  lemma UpToQuotient(x: real, k: real, size: real)
    requires k > 0.0
    ensures size <= x / k <==> Product(size, k) <= x
  {
    QuotientTimes(x, k);
    TimesOrder(size, x / k, k);
  }

  lemma UpToMargin(free: real, leverage: real, price: real, closed: real, size: real)
    requires leverage > 0.0 && price > 0.0
    ensures size <= closed + Product(free, leverage) / price <==> Product(size - closed, price) / leverage <= free
  {
    UpToQuotient(Product(free, leverage), price, size - closed);
    QuotientCap(Product(size - closed, price), leverage, free);
  }

  lemma FuturesLeg(w: Wallet, ex: string, symbol: string, side: Side, prices: Prices)
    ensures var available, price := FuturesSize(w, ex, symbol, side, Some(prices)), PriceFor(prices, side);
            var closes := if side.Buy? then Short else Long;
            && (available > 0.0 <==> HasMargin(w, ex, symbol, price))
            && (available > 0.0 ==> forall size :: size <= available <==> MarginPays(w, ex, symbol, closes, price, size))
  {
    hide MarginUsed, Get, Product;
    if AccountOf(w, ex, true).Some? {
      var e, usdt, price := w.exchanges[ex], Get(AccountOf(w, ex, true).value, "USDT"), PriceFor(prices, side);
      ShownOrNothing(w, Futures(ex), "USDT", usdt);
      ClosableNonNegative(e, symbol, side);
      var free, closes := usdt - MarginUsed(e.positions), if side.Buy? then Short else Long;
      if usdt > 0.0 && price > 0.0 && free > 0.0 && Closable(e, symbol, side).Some? {
        OpeningIsPositive(free, LeverageIn(e, symbol) as real, price);
        forall size
          ensures size <= FuturesSize(w, ex, symbol, side, Some(prices)) <==> MarginPays(w, ex, symbol, closes, price, size)
        {
          UpToMargin(free, LeverageIn(e, symbol) as real, price, HeldOn(e, symbol, closes), size);
        }
      }
    }
  }

  lemma BuyingLeg(w: Wallet, leg: Leg, symbol: string, coin: string, prices: Option<Prices>)
    ensures var available := LegSize(w, leg, symbol, coin, Buy, prices);
            && (available > 0.0 <==> HasForBuying(w, leg, symbol, prices))
            && (available > 0.0 ==> forall size :: size <= available <==> Buys(w, leg, symbol, prices, size))
  {
    hide FuturesSize, HasMargin, MarginPays, Product;
    if leg.Futures? {
      if prices.Some? {
        FuturesLeg(w, leg.exchange, symbol, Buy, prices.value);
      } else {
        NoPricesNoFutures(w, leg.exchange, symbol, Buy);
      }
    } else {
      var balance := if leg.Onchain? then OnchainBalance(w, leg.chain, "USDT")
                     else if AccountOf(w, leg.exchange, false).None? then 0.0
                     else Get(AccountOf(w, leg.exchange, false).value, "USDT");
      ShownOrNothing(w, leg, "USDT", balance);
      hide Shows, OnchainBalance, AccountOf;
      if prices.Some? && prices.value.ask > 0.0 && balance > 0.0 {
        QuotientSign(balance, prices.value.ask);
        forall size ensures size <= balance / prices.value.ask <==> Buys(w, leg, symbol, prices, size) {
          UpToQuotient(balance, prices.value.ask, size);
        }
      }
    }
  }

  lemma NoPricesNoFutures(w: Wallet, ex: string, symbol: string, side: Side)
    ensures FuturesSize(w, ex, symbol, side, None) == 0.0
  {
  }

  lemma SellingLeg(w: Wallet, leg: Leg, symbol: string, coin: string, prices: Option<Prices>)
    ensures var available := LegSize(w, leg, symbol, coin, Sell, prices);
            && (available > 0.0 <==> HasForSelling(w, leg, symbol, coin, prices))
            && (available > 0.0 ==> forall size :: size <= available <==> Sells(w, leg, symbol, coin, prices, size))
  {
    hide FuturesSize, HasMargin, MarginPays, Product;
    if leg.Futures? {
      if prices.Some? {
        FuturesLeg(w, leg.exchange, symbol, Sell, prices.value);
      } else {
        NoPricesNoFutures(w, leg.exchange, symbol, Sell);
      }
    } else {
      var balance := if leg.Onchain? then OnchainBalance(w, leg.chain, coin)
                     else if AccountOf(w, leg.exchange, false).None? then 0.0
                     else Get(AccountOf(w, leg.exchange, false).value, coin);
      ShownOrNothing(w, leg, coin, balance);
    }
  }

  /** The prices a leg trades at: those of the chain when it is on one that has some, otherwise those of the exchange. */
  predicate TradesAt(q: Query, leg: Leg, prices: Option<Prices>) {
    prices == if leg.Onchain? && q.onchainPrices.Some? then q.onchainPrices else q.exchangePrices
  }

  /** In direction AB leg A has something to buy with and leg B something to sell; otherwise the other way round. */
  ghost predicate BothHave(q: Query, a: Option<Prices>, b: Option<Prices>) {
    q.coin != "" && q.wallet.Some? &&
    var w := q.wallet.value;
    if q.direction == AB then HasForBuying(w, q.legA, q.symbol, a) && HasForSelling(w, q.legB, q.symbol, q.coin, b)
    else HasForSelling(w, q.legA, q.symbol, q.coin, a) && HasForBuying(w, q.legB, q.symbol, b)
  }

  /** In direction AB leg A buys and leg B sells, otherwise the other way round, ten ninths of `size`. */
  ghost predicate BothTrade(q: Query, a: Option<Prices>, b: Option<Prices>, size: real)
    requires q.wallet.Some?
  {
    var w, more := q.wallet.value, size / 0.9;
    if q.direction == AB then Buys(w, q.legA, q.symbol, a, more) && Sells(w, q.legB, q.symbol, q.coin, b, more)
    else Sells(w, q.legA, q.symbol, q.coin, a, more) && Buys(w, q.legB, q.symbol, b, more)
  }

  /** The largest size of which both legs can trade ten ninths, when they have something to trade with; 0 when one has nothing. */
  ghost predicate IsLargestTrade(q: Query, a: Option<Prices>, b: Option<Prices>, available: real) {
    if BothHave(q, a, b) then available > 0.0 && forall size :: size <= available <==> BothTrade(q, a, b, size)
    else available == 0.0
  }

  lemma AvailableIsLargest(q: Query, a: Option<Prices>, b: Option<Prices>)
    requires TradesAt(q, q.legA, a) && TradesAt(q, q.legB, b)
    ensures IsLargestTrade(q, a, b, Available(q))
  {
    hide LegSize, HasForBuying, HasForSelling, Buys, Sells;
    if q.wallet.Some? {
      var w := q.wallet.value;
      if q.direction == AB {
        BuyingLeg(w, q.legA, q.symbol, q.coin, a);
        SellingLeg(w, q.legB, q.symbol, q.coin, b);
      } else {
        SellingLeg(w, q.legA, q.symbol, q.coin, a);
        BuyingLeg(w, q.legB, q.symbol, q.coin, b);
      }
    }
  }

  /**
   Between two cash legs that both have something, a sound size takes at most 90% of the buyer's USDT at its ask and at
   most 90% of the seller's coins: A buys in direction AB and B otherwise.
   */
  lemma CashTradeKeepsTenth(q: Query, size: real, a: Prices, b: Prices, usdt: real, coins: real)
    requires Sound(q, size) && q.coin != "" && q.wallet.Some? && !q.legA.Futures? && !q.legB.Futures?
    requires TradesAt(q, q.legA, Some(a)) && TradesAt(q, q.legB, Some(b))
    requires usdt > 0.0 && coins > 0.0 && (if q.direction == AB then a.ask else b.ask) > 0.0
    requires var buyer, seller := if q.direction == AB then q.legA else q.legB, if q.direction == AB then q.legB else q.legA;
             Shows(q.wallet.value, buyer, "USDT", usdt) && Shows(q.wallet.value, seller, q.coin, coins)
    ensures Product(size, if q.direction == AB then a.ask else b.ask) <= 0.9 * usdt && size <= 0.9 * coins
  {
    hide Available, Affordable, StepFor, Room, MaxCostPercent, TradesAt;
    AvailableIsLargest(q, Some(a), Some(b));
    RoomIsAvailable(q);
    assert BothTrade(q, Some(a), Some(b), size);
    NineTenths(size, if q.direction == AB then a.ask else b.ask, usdt);
    NineTenths(size, 1.0, coins);
    OneAmount(q.wallet.value, if q.direction == AB then q.legA else q.legB, "USDT");
    OneAmount(q.wallet.value, if q.direction == AB then q.legB else q.legA, q.coin);
  }

  lemma NineTenths(size: real, price: real, whole: real)
    requires Product(size / 0.9, price) <= whole
    ensures Product(size, price) <= 0.9 * whole
  {
    assert Product(size, price) == 0.9 * Product(size / 0.9, price);
  }

  lemma OneAmount(w: Wallet, leg: Leg, asset: string)
    ensures forall x, y :: Shows(w, leg, asset, x) && Shows(w, leg, asset, y) ==> x == y
  {
  }

  /** A trade is valued at the exchange's bid, or at its ask when A sells and B buys. */
  predicate ValuedAt(q: Query, price: real) {
    q.exchangePrices.Some? && price == if q.direction == BA then q.exchangePrices.value.ask else q.exchangePrices.value.bid
  }

  /** Within the configured maximum, worth at most 2000 USDT, and no more than both legs trade when both have something. */
  ghost predicate Fits(q: Query, a: Option<Prices>, b: Option<Prices>, price: real, size: real)
    requires q.analyzer.Some?
  {
    && size <= q.analyzer.value.maxSize(q.direction) && Product(size, price) <= 2000.0
    && (BothHave(q, a, b) ==> BothTrade(q, a, b, size))
  }

  /** The cost in percent is within the direction's threshold, when one is set, and within 1 otherwise. */
  predicate Accepts(q: Query, price: real, cost: real)
    requires q.analyzer.Some?
  {
    var both := q.analyzer.value.thresholds;
    var threshold := if both.None? then 0.0 else if q.direction == BA then both.value.1 else both.value.0;
    if threshold > 0.0 then Product(cost, price) <= Product(threshold, 100.0) else cost <= 1.0
  }

  /** The largest multiple of the step that fits, worth at least 50 USDT and of an accepted cost. */
  ghost predicate TradableAt(q: Query, a: Option<Prices>, b: Option<Prices>, price: real, size: real) {
    && size > 0.0 && q.analyzer.Some?
    && (exists n :: size == Multiple(n, StepFor(q, size)))
    && Fits(q, a, b, price, size) && !Fits(q, a, b, price, size + StepFor(q, size))
    && Product(size, price) >= 50.0
    && (var cost := q.analyzer.value.cost(q.direction, size); cost.Some? && Accepts(q, price, cost.value))
  }

  ghost predicate Tradable(q: Query, size: real) {
    exists a, b, price :: TradesAt(q, q.legA, a) && TradesAt(q, q.legB, b) && ValuedAt(q, price) && TradableAt(q, a, b, price, size)
  }

  lemma CostIsAccepted(q: Query, price: real, cost: real)
    requires q.analyzer.Some? && price > 0.0 && price == q.TradePrice()
    ensures cost <= MaxCostPercent(q) <==> Accepts(q, price, cost)
  {
    var both := q.analyzer.value.thresholds;
    if both.Some? {
      var threshold := if q.direction == BA then both.value.1 else both.value.0;
      PercentOf(cost, threshold, price);
    }
  }

  lemma PercentOf(cost: real, threshold: real, price: real)
    requires price > 0.0
    ensures cost <= threshold / price * 100.0 <==> Product(cost, price) <= Product(threshold, 100.0)
  {
    QuotientTimes(threshold, price);
    TimesOrder(cost, threshold / price * 100.0, price);
    assert threshold / price * 100.0 * price == threshold / price * price * 100.0;
  }

  lemma LimitIsLargest(maxSize: real, price: real, size: real)
    requires maxSize > 0.0 && price > 0.0
    ensures LimitedMaxSize(maxSize, price) > 0.0
    ensures size <= LimitedMaxSize(maxSize, price) <==> size <= maxSize && Product(size, price) <= 2000.0
  {
    UpToQuotient(MAX_TRADE_VALUE, price, size);
    QuotientSign(MAX_TRADE_VALUE, price);
  }

  /** The room is the largest size that fits. */
  lemma RoomFits(q: Query, a: Option<Prices>, b: Option<Prices>, price: real, size: real)
    requires TradesAt(q, q.legA, a) && TradesAt(q, q.legB, b) && ValuedAt(q, price)
    requires q.analyzer.Some? && q.analyzer.value.maxSize(q.direction) > 0.0 && price > 0.0
    ensures Room(q) > 0.0
    ensures size <= Room(q) <==> Fits(q, a, b, price, size)
  {
    AvailableIsLargest(q, a, b);
    LimitIsLargest(q.analyzer.value.maxSize(q.direction), price, size);
    hide Available, BothHave, BothTrade, LimitedMaxSize;
    assert price == q.TradePrice();
  }

  /** `size` is the largest multiple of the step within the room. */
  ghost predicate CutTo(step: real, size: real, room: real) {
    (exists n :: size == Multiple(n, step)) && size <= room < size + step
  }

  /** Rounding down does not change the step. */
  lemma SameStep(q: Query, size: real, room: real)
    requires size > 0.0 && (CutTo(StepFor(q, size), size, room) || CutTo(StepFor(q, room), size, room))
    ensures StepFor(q, size) == StepFor(q, room)
  {
    if MaxQuanto(q.quantoA, q.quantoB) == 0.0 {
      var step := if CutTo(RoundStep(size), size, room) then RoundStep(size) else RoundStep(room);
      var n :| size == Multiple(n, step);
      WholeSteps(n, step, size);
    }
  }

  lemma WholeSteps(n: int, step: real, size: real)
    requires step > 0.0 && 0.0 < size == Multiple(n, step)
    ensures n >= 1 && size >= step
  {
    if n <= 0 {
      MulMonotone(n as real, 0.0, step);
    } else {
      MultipleOfAtLeastOne(n, step);
    }
  }

  lemma RoomIsAvailable(q: Query)
    requires q.analyzer.Some? && Available(q) > 0.0
    ensures Room(q) <= Available(q)
  {
  }

  lemma SoundIsTradableAt(q: Query, a: Option<Prices>, b: Option<Prices>, price: real, size: real)
    requires TradesAt(q, q.legA, a) && TradesAt(q, q.legB, b) && ValuedAt(q, price)
    ensures Sound(q, size) <==> TradableAt(q, a, b, price, size)
  {
    hide BothHave, BothTrade, Affordable, Available, Accepts, MaxCostPercent, Room, Multiple, RoundStep, TradesAt, StepFor;
    assert price == q.TradePrice();
    if size > 0.0 && q.analyzer.Some? && size <= q.analyzer.value.maxSize(q.direction) && Product(size, price) >= 50.0 {
      PositiveFactor(size, price);
      RoomFits(q, a, b, price, size);
      RoomFits(q, a, b, price, size + StepFor(q, size));
      if CutTo(StepFor(q, size), size, Room(q)) || CutTo(StepFor(q, Room(q)), size, Room(q)) {
        SameStep(q, size, Room(q));
        if Available(q) > 0.0 {
          RoomIsAvailable(q);
          BothLegsAfford(q, size);
        }
      }
      if q.analyzer.value.cost(q.direction, size).Some? {
        CostIsAccepted(q, price, q.analyzer.value.cost(q.direction, size).value);
      }
    }
  }

  /** Sound in terms of what each leg has available is tradable in terms of the wallet and the prices. */
  lemma SoundIsTradable(q: Query)
    ensures forall size :: Sound(q, size) <==> Tradable(q, size)
  {
    forall size ensures Sound(q, size) <==> Tradable(q, size) {
      if q.exchangePrices.Some? {
        var a, b, price := q.LegPrices(q.legA), q.LegPrices(q.legB), q.TradePrice();
        hide Sound, TradableAt;
        SoundIsTradableAt(q, a, b, price, size);
        assert TradesAt(q, q.legA, a) && TradesAt(q, q.legB, b) && ValuedAt(q, price);
      }
    }
  }

  lemma PositiveFactor(size: real, price: real)
    requires size > 0.0 && Product(size, price) > 0.0
    ensures price > 0.0
  {
    if price <= 0.0 {
      MulMonotone(price, 0.0, size);
    }
  }

  const EMPTY_WALLET := Wallet(map["binance" := ExchangeWallet(Some(map["USDT" := 0.0]), None, None, map[]),
                                   "gate" := ExchangeWallet(Some(map["ZAMA" := 0.0]), None, None, map[])], map[])
  const EMPTY_QUERY := Query("ZAMAUSDT", "ZAMA", true, AB, Some(Prices(1.0, 1.0)), None, Spot("binance"), Spot("gate"),
                             None, None, Some(EMPTY_WALLET), Some(Analyzer(_ => 1000.0, (_, _) => Some(0.0), None)))

  /** Both accounts are known to hold nothing, and yet the configured maximum of 1000 is the one sound size. */
  lemma EmptyLegsGetTheMaximum()
    ensures EMPTY_QUERY.Complete() && AvailableA(EMPTY_QUERY) == 0.0 && AvailableB(EMPTY_QUERY) == 0.0
    ensures Sound(EMPTY_QUERY, 1000.0) && (forall s :: Sound(EMPTY_QUERY, s) ==> s == 1000.0)
    ensures !Affordable(EMPTY_WALLET, Spot("binance"), "ZAMAUSDT", "ZAMA", Buy, Some(Prices(1.0, 1.0)), 1000.0)
    ensures !Affordable(EMPTY_WALLET, Spot("gate"), "ZAMAUSDT", "ZAMA", Sell, Some(Prices(1.0, 1.0)), 1000.0)
  {
    var q := EMPTY_QUERY;
    assert Room(q) == 1000.0 && StepFor(q, 1000.0) == 100.0;
    assert Multiple(10, 100.0) == 1000.0;
    NoOtherSize(q);
    forall s | Sound(q, s) ensures s == 1000.0 {
      assert RoundDown(1000.0, 100.0) == 1000.0;
    }
  }

  const FUNDED_WALLET := Wallet(map["binance" := ExchangeWallet(Some(map["USDT" := 1000.0]), None, None, map[]),
                                    "gate" := ExchangeWallet(Some(map["ZAMA" := 500.0]), None, None, map[])], map[])

  /** 1000 USDT at the buyer and 500 ZAMA at the seller, at a price of 1, leave 450 of which 400 are traded. */
  lemma SmallerLegDecides()
    ensures var q := EMPTY_QUERY.(wallet := Some(FUNDED_WALLET)); Sound(q, 400.0) && forall s :: Sound(q, s) ==> s == 400.0
  {
    var q := EMPTY_QUERY.(wallet := Some(FUNDED_WALLET));
    assert AvailableA(q) == 1000.0 && AvailableB(q) == 500.0;
    assert Room(q) == 450.0 && StepFor(q, 450.0) == 100.0;
    assert Multiple(4, 100.0) == 400.0;
    BothLegsAfford(q, 400.0);
    NoOtherSize(q);
    forall s | Sound(q, s) ensures s == 400.0 {
      assert RoundDown(450.0, 100.0) == 400.0;
    }
  }

  /** 90% of the smaller leg. */
  method AvailableSizeFromBalance(q: Query) returns (size: real)
    ensures size == Available(q)
    ensures forall a, b :: TradesAt(q, q.legA, a) && TradesAt(q, q.legB, b) ==> IsLargestTrade(q, a, b, size)
  {
    hide TradesAt, IsLargestTrade;
    forall a, b | TradesAt(q, q.legA, a) && TradesAt(q, q.legB, b) ensures IsLargestTrade(q, a, b, Available(q)) {
      AvailableIsLargest(q, a, b);
    }
    if q.coin == "" || q.wallet.None? {
      return 0.0;
    }
    var a := AvailableForLeg(q.wallet.value, q.legA, q.symbol, q.coin, q.SideA(), q.LegPrices(q.legA));
    var b := AvailableForLeg(q.wallet.value, q.legB, q.symbol, q.coin, q.SideB(), q.LegPrices(q.legB));
    if a <= 0.0 || b <= 0.0 {
      size := 0.0;
    } else if a < b {
      size := a;
    } else {
      size := b;
    }
    if size > 0.0 {
      size := size * BALANCE_SHARE;
    }
  }

  /** The tradable size, and 0 exactly when there is none for a complete query. */
  method GetSize(q: Query) returns (size: real)
    ensures size == 0.0 || (Sound(q, size) && Tradable(q, size))
    ensures size == 0.0 && q.Complete() ==> forall s :: !Sound(q, s) && !Tradable(q, s)
  {
    hide Tradable;
    NoOtherSize(q);
    SoundIsTradable(q);
    if q.symbol == "" || q.direction == Unknown || !q.tracked || q.exchangePrices.None? {
      return 0.0;
    }
    if q.analyzer.None? {
      return 0.0;
    }
    var analyzer := q.analyzer.value;
    var maxSize := LimitedMaxSize(analyzer.maxSize(q.direction), q.TradePrice());
    if maxSize <= 0.0 {
      return 0.0;
    }
    var available := AvailableSizeFromBalance(q);
    if available <= 0.0 {
      available := maxSize;
    }
    var finalSize := if maxSize > available then available else maxSize;
    assert finalSize == Room(q) > 0.0;
    hide Available, LimitedMaxSize, Sound, Room, RoundDown, Product, MaxCostPercent, RoundStep;
    var stepQuanto := MaxQuanto(q.quantoA, q.quantoB);
    if stepQuanto > 0.0 {
      if finalSize < stepQuanto {
        NoWholeStep(finalSize, stepQuanto);
        return 0.0;
      }
      finalSize := RoundDown(finalSize, stepQuanto);
    } else {
      finalSize := RoundDown(finalSize, RoundStep(finalSize));
    }
    if finalSize <= 0.0 {
      return 0.0;
    }
    var tradeValue := Product(finalSize, q.TradePrice());
    if tradeValue < MIN_TRADE_VALUE {
      return 0.0;
    }
    var cost := analyzer.cost(q.direction, finalSize);
    if cost.None? || cost.value > MaxCostPercent(q) {
      return 0.0;
    }
    RoundedRoomIsSound(q, finalSize);
    return finalSize;
  }
}
