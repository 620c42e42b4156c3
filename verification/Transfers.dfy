/**
 One step of a transfer pipeline, as values: what an edge is configured to move, what
 an attempt at the step logs, and what makes such an attempt lawful
 (internal/pipeline/executor.go:488-990, internal/pipeline/edge.go).
 */
module Transfers {
  import opened Options
  import opened Text
  import RouteProbe
  import Arith
  import Decimals
  import Histories

  const SECOND := 1_000_000_000
  const MINUTE := 60 * SECOND

  /** A bridge counts as arrived once this share of the amount has been added to the target's balance. */
  const ARRIVED_SHARE := 0.99

  // ------------------------------------------------------------ edges and amounts

  datatype AmountType = Fixed | Percentage | All | Unknown(name: string)

  datatype Edge = Edge(amountType: AmountType, amount: real, positionSize: real, asset: string, chainId: string,
                       network: string, bridgeProtocol: string, confirmations: int, maxWait: int, checkInterval: nat)

  const DEFAULT_EDGE := Edge(All, 0.0, 0.0, "", "", "", "", 0, 30 * MINUTE, 10 * SECOND)

  /** The asset an edge moves: its own when it names one, otherwise the node's. */
  function EdgeAsset(edge: Edge, nodeAsset: string): string {
    if Trim(edge.asset) != "" then Trim(edge.asset) else nodeAsset
  }

  function Part(whole: real, share: real): real {
    whole * share
  }

  /** The amount to move when `available` can be spent. */
  function AmountOf(edge: Edge, available: real): Option<real> {
    match edge.amountType
    case Fixed =>
      if edge.amount <= available then Some(edge.amount)
      else if available >= edge.amount * 0.9 then Some(edge.amount * 0.9)
      else None
    case Percentage =>
      if edge.amount < 0.0 || edge.amount > 1.0 then None
      else if edge.positionSize <= 0.0 then Some(Part(available, edge.amount))
      else if Part(edge.positionSize, edge.amount) > available then Some(available)
      else Some(Part(edge.positionSize, edge.amount))
    case All => Some(available)
    case Unknown(_) => None
  }

  lemma PartIsSmaller(x: real, p: real)
    requires 0.0 <= p <= 1.0 && Part(x, p) > 0.0
    ensures Part(x, p) <= x
  {
    if x < 0.0 {
      Arith.ProductNonNegative(-x, p);
    } else {
      Arith.ProductNonNegative(x, 1.0 - p);
    }
  }

  lemma PartGrows(x: real, y: real, p: real)
    requires x <= y && p >= 0.0
    ensures Part(x, p) <= Part(y, p)
  {
    Arith.MulMonotone(x, y, p);
  }

  /** A positive amount never exceeds what is available. */
  lemma AmountIsAffordable(edge: Edge, available: real)
    requires AmountOf(edge, available).Some? && AmountOf(edge, available).value > 0.0
    ensures AmountOf(edge, available).value <= available
  {
    hide Part;
    if edge.amountType.Percentage? && edge.positionSize <= 0.0 {
      PartIsSmaller(available, edge.amount);
    }
  }

  /** More money never lowers the amount, nor turns a step away. */
  lemma AmountGrowsWithBalance(edge: Edge, less: real, more: real)
    requires less <= more && AmountOf(edge, less).Some?
    ensures AmountOf(edge, more).Some? && AmountOf(edge, less).value <= AmountOf(edge, more).value
  {
    hide Part;
    match edge.amountType {
      case Fixed => FixedGrows(edge, less, more);
      case Percentage =>
        if edge.positionSize <= 0.0 {
          PartGrows(less, more, edge.amount);
        }
      case All =>
    }
  }

  lemma FixedGrows(edge: Edge, less: real, more: real)
    requires edge.amountType.Fixed? && less <= more && AmountOf(edge, less).Some?
    ensures AmountOf(edge, more).Some? && AmountOf(edge, less).value <= AmountOf(edge, more).value
  {
  }

  /** A fixed amount is kept while it is there, shrinks to nine tenths otherwise, and the step is turned away exactly below that. */
  lemma FixedKeepsNineTenths(edge: Edge, available: real)
    requires edge.amountType.Fixed? && edge.amount >= 0.0
    ensures AmountOf(edge, available).None? <==> available < edge.amount * 0.9
    ensures available >= edge.amount ==> AmountOf(edge, available) == Some(edge.amount)
    ensures edge.amount * 0.9 <= available < edge.amount ==> AmountOf(edge, available) == Some(edge.amount * 0.9)
  {
  }

  /** A share and its complement, each taken of the same balance, add up to it, unless a position caps them. */
  lemma SharesAddUp(edge: Edge, available: real)
    requires edge.amountType.Percentage? && 0.0 <= edge.amount <= 1.0
    ensures var rest := edge.(amount := 1.0 - edge.amount);
            var base := if edge.positionSize > 0.0 then edge.positionSize else available;
            && AmountOf(edge, available).Some? && AmountOf(rest, available).Some?
            && (edge.positionSize <= 0.0 || base <= available ==>
                 AmountOf(edge, available).value + AmountOf(rest, available).value == base)
            && AmountOf(edge, available).value + AmountOf(rest, available).value <=
                 (if edge.positionSize <= 0.0 then available else base)
  {
    var p := edge.amount;
    var base := if edge.positionSize > 0.0 then edge.positionSize else available;
    PartAndRest(base, p);
    if edge.positionSize > 0.0 {
      PartOfPositive(base, p);
      PartOfPositive(base, 1.0 - p);
    }
  }

  /** Some balance makes a positive amount. */
  predicate CanPrice(edge: Edge) {
    match edge.amountType
    case Fixed => edge.amount > 0.0
    case Percentage => 0.0 < edge.amount <= 1.0
    case All => true
    case Unknown(_) => false
  }

  /** An edge makes a positive amount of some balance exactly when its settings allow one. */
  lemma PricesSomethingIff(edge: Edge)
    ensures (exists v :: AmountOf(edge, v).Some? && AmountOf(edge, v).value > 0.0) <==> CanPrice(edge)
  {
    if CanPrice(edge) {
      var v := PricingBalance(edge);
    }
    forall v | AmountOf(edge, v).Some? && AmountOf(edge, v).value > 0.0 ensures CanPrice(edge) {
      if edge.amountType.Percentage? && edge.amount == 0.0 {
        NoPart(v);
        NoPart(edge.positionSize);
      }
    }
  }

  lemma NoPart(x: real)
    ensures Part(x, 0.0) == 0.0
  {
  }

  lemma PricingBalance(edge: Edge) returns (v: real)
    requires CanPrice(edge)
    ensures AmountOf(edge, v).Some? && AmountOf(edge, v).value > 0.0
  {
    v := if edge.amountType.Fixed? then edge.amount else 1.0;
    if edge.amountType.Percentage? && edge.positionSize > 0.0 {
      Arith.MulStrict(0.0, edge.positionSize, edge.amount);
    }
  }

  lemma PartAndRest(x: real, p: real)
    ensures Part(x, p) + Part(x, 1.0 - p) == x
  {
  }

  lemma PartOfPositive(x: real, p: real)
    requires x > 0.0 && 0.0 <= p <= 1.0
    ensures 0.0 <= Part(x, p) <= x
  {
    Arith.ProductNonNegative(x, p);
    Arith.ProductNonNegative(x, 1.0 - p);
  }

  // ------------------------------------------------------------ networks

  const NETWORK_NAMES: map<string, string> :=
    map["1" := "ERC20", "56" := "BEP20", "137" := "POLYGON", "42161" := "ARBITRUM", "10" := "OPTIMISM",
        "43114" := "AVAXC", "8453" := "BASE", "250" := "FTM", "25" := "CRO"]

  function NetworkName(chainId: string): string {
    if chainId in NETWORK_NAMES then NETWORK_NAMES[chainId] else ""
  }

  /** The withdrawal network: the edge's, else the target chain's, else the target exchange's default. */
  function WithdrawNetwork(edge: Edge, toChain: string, fallback: string): Option<string> {
    var chain := if toChain == "" then edge.chainId else toChain;
    if edge.network != "" then Some(edge.network)
    else if NetworkName(chain) != "" then Some(NetworkName(chain))
    else if fallback != "" then Some(fallback)
    else None
  }

  /** The chain a network name stands for. */
  function ChainNamed(name: string): string {
    if name == "ERC20" then "1" else if name == "BEP20" then "56" else if name == "POLYGON" then "137"
    else if name == "ARBITRUM" then "42161" else if name == "OPTIMISM" then "10" else if name == "AVAXC" then "43114"
    else if name == "BASE" then "8453" else if name == "FTM" then "250" else if name == "CRO" then "25" else ""
  }

  lemma NameTellsChain(chain: string)
    requires chain in NETWORK_NAMES
    ensures ChainNamed(NETWORK_NAMES[chain]) == chain && NETWORK_NAMES[chain] != ""
  {
  }

  /** Two chains never share a name, so a network inferred for a target is that target's and no other chain's. */
  lemma InferredNetworkIsTheTargets(edge: Edge, toChain: string, fallback: string, chain: string)
    requires edge.network == "" && toChain in NETWORK_NAMES && chain in NETWORK_NAMES
    ensures WithdrawNetwork(edge, toChain, fallback) == Some(NetworkName(chain)) <==> chain == toChain
  {
    hide ChainNamed;
    NameTellsChain(toChain);
    NameTellsChain(chain);
    assert toChain != "";
  }

  datatype Channel = Channel(network: string, chainId: string)

  /** No listing and an empty one say nothing; otherwise the network must be listed by name or chain. */
  predicate Open(channels: Option<seq<Channel>>, network: string) {
    channels.Some? && channels.value != [] ==>
      exists c :: c in channels.value && (c.network == network || c.chainId == network)
  }

  /** A listing of other networks and chains only closes a network. */
  predicate Closed(channels: Option<seq<Channel>>, network: string) {
    channels.Some? && channels.value != [] && forall c <- channels.value :: c.network != network && c.chainId != network
  }

  // ------------------------------------------------------------ places and hops

  predicate IsInt64(s: string) {
    var n := Decimals.ParseInt(s);
    n.Some? && -0x8000_0000_0000_0000 <= n.value < 0x8000_0000_0000_0000
  }

  datatype Account = Exchange(exchangeType: string) | Wallet(chainId: string, address: string)

  /** A node of the path between calls. */
  datatype Place = Place(account: Account, defaultNetwork: string, asset: string, tokenAddress: string)
  {
    predicate IsExchange() {
      account.Exchange?
    }

    /** Exchange and asset, or address and chain, are configured. */
    predicate Configured() {
      match account
      case Exchange(exchangeType) => exchangeType != "" && asset != ""
      case Wallet(chainId, address) => chainId != "" && address != ""
    }

    /** A wallet signs for the chain with this ID, which has to be a 64-bit integer. */
    predicate Signs() {
      account.Wallet? ==> IsInt64(account.chainId)
    }

    /** What a wallet's own Withdraw asks of its settings beside that: the token it sends. */
    predicate CanWithdraw() {
      Signs() && (account.Wallet? ==> tokenAddress != "")
    }

    function Chain(): string {
      if account.Wallet? then RouteProbe.NormalizeChainID(account.chainId) else ""
    }
  }

  /** One step of the path: two neighbouring nodes and the edge configured between them, if any. */
  datatype Hop = Hop(from: Place, to: Place, given: Option<Edge>)
  {
    function Config(): Edge {
      if given.Some? then given.value else DEFAULT_EDGE
    }

    /** The edge's effective asset. */
    function Asset(): string {
      EdgeAsset(Config(), from.asset)
    }

    predicate NeedsBridge() {
      !from.IsExchange() && !to.IsExchange() && from.Chain() != "" && to.Chain() != "" && from.Chain() != to.Chain()
    }

    /** Between two wallets without a bridge the node's own token is sent, whatever the edge says. */
    predicate SendsOwnToken() {
      !from.IsExchange() && !to.IsExchange() && !NeedsBridge()
    }

    function MovedAsset(): string {
      if SendsOwnToken() then from.asset else Asset()
    }

    /** The asset whose balance prices the step. */
    function PricedAsset(): string {
      if from.IsExchange() then Asset() else from.asset
    }

    /** A fixed amount of another asset than the node's is taken as it stands. */
    predicate TakesUnchecked() {
      var edge := Config();
      edge.asset != "" && edge.amountType.Fixed? && Asset() != from.asset
    }

    /** The network of a withdrawal, if one can be told. */
    function Network(): Option<string> {
      WithdrawNetwork(Config(), to.Chain(), if to.IsExchange() then to.defaultNetwork else "")
    }

    /** A wallet pays another asset into an exchange through a node of its own for it, with a token that is looked up. */
    predicate ViaQuoteNode() {
      !from.IsExchange() && to.IsExchange() && Asset() != from.asset
    }

    /** The source can send: a wallet without a bridge has to know its chain and, unless it is looked up, its token. */
    predicate SourceReady() {
      NeedsBridge() || (if ViaQuoteNode() then from.Signs() else from.CanWithdraw())
    }

    /** Both ends are set up, and a bridge or a network leads from one to the other. */
    predicate Linked() {
      from.Configured() && to.Configured() && (NeedsBridge() || Network().Some?)
    }

    predicate Connected() {
      Linked() && SourceReady()
    }

    /** Nothing in the settings stands in the way of an attempt, all of it or what the edge says. */
    predicate Feasible(forced: bool) {
      Connected() && (forced || CanPrice(Config()))
    }
  }

  /** When the balance that prices a step is of the asset the step moves. */
  lemma PricedInMovedAsset(h: Hop)
    ensures h.PricedAsset() == h.MovedAsset() <==>
            h.from.IsExchange() || h.SendsOwnToken() || Trim(h.Config().asset) in {"", h.from.asset}
  {
  }

  // ------------------------------------------------------------ what is logged

  datatype Destination = Destination(address: string, memo: string)

  /** The answer to a transfer: an error, or a hash and, from a bridge, its ID. */
  datatype Receipt = Refused | Accepted(txHash: string, bridgeId: string)

  /** What was asked without getting an answer one can go on with. */
  datatype Question = Balance | Capability | DepositAddress | TokenAddress | Sending | BridgeManager

  datatype Event =
    | Read(account: Account, asset: string, balance: real)
    | Listed(account: Account, asset: string, channels: Option<seq<Channel>>)
    | Addressed(account: Account, asset: string, network: string, destination: Destination)
    | UnitsRead(account: Account, asset: string, decimals: nat)
    | Moved(account: Account, asset: string, amount: real, sent: real, network: string, destination: Destination,
            bridged: bool, receipt: Receipt)
    | Asked(account: Account, asset: string, txHash: string, report: Histories.Report)
    | DepthAsked(account: Account, txHash: string, depth: int, answer: Option<bool>)
    | BridgeAsked(bridgeId: string, answer: Option<bool>)
    | BridgeReverted(bridgeId: string)
    | GaveUp
    | DepositsListed(account: Account, asset: string, records: Option<seq<Histories.DepositRecord>>)
    | BridgeChecked(step: nat, ready: bool)
    | Unanswered(question: Question)

  type Log = seq<Event>

  /** One execution of a step: what was logged while waiting for it and during it, and the hash it returned. */
  datatype Attempt = Attempt(step: nat, forced: bool, waited: Log, log: Log, result: Option<string>)

  predicate NoneMoved(log: Log) {
    forall e <- log :: !e.Moved?
  }

  predicate IsRead(e: Event, account: Account, asset: string) {
    e.Read? && e.account == account && e.asset == asset
  }

  /** `amount` is covered by a balance in the log. */
  ghost predicate Covered(log: Log, account: Account, asset: string, amount: real) {
    exists e :: e in log && IsRead(e, account, asset) && amount <= e.balance
  }

  /** What a balance makes of a step: all of it when forced, otherwise what the edge says. */
  function PriceOf(h: Hop, forced: bool, balance: real): Option<real> {
    if forced then Some(balance) else AmountOf(h.Config(), balance)
  }

  /** `amount` is what a balance in the log makes of the step, or the edge's fixed amount of another asset. */
  ghost predicate Priced(h: Hop, forced: bool, log: Log, amount: real) {
    if !forced && h.TakesUnchecked() then amount == h.Config().amount
    else exists e :: e in log && IsRead(e, h.from.account, h.PricedAsset()) && PriceOf(h, forced, e.balance) == Some(amount)
  }

  /** An exchange was asked for the channels of an asset. */
  ghost predicate WasListed(log: Log, p: Place, asset: string) {
    p.IsExchange() ==> exists e :: e in log && e.Listed? && e.account == p.account && e.asset == asset
  }

  /** No listing in the log closes the network. */
  predicate AllOpen(log: Log, network: string) {
    forall e <- log :: e.Listed? ==> !Closed(e.channels, network)
  }

  /** The target named the destination for this asset and network; a wallet names itself. */
  ghost predicate Answered(log: Log, p: Place, asset: string, network: string, destination: Destination) {
    && Addressed(p.account, asset, network, destination) in log
    && (p.account.Wallet? ==> destination == Destination(p.account.address, ""))
  }

  /** Where a withdrawal goes. */
  datatype Way = Way(destination: Destination, network: string)

  /** Both ends were asked, no listing closes the step's network, and the target named the destination. */
  ghost predicate WayChecked(h: Hop, log: Log, way: Way) {
    && Some(way.network) == h.Network() && AllOpen(log, way.network)
    && WasListed(log, h.from, h.Asset()) && WasListed(log, h.to, h.Asset())
    && Answered(log, h.to, h.Asset(), way.network, way.destination)
  }

  // ------------------------------------------------------------ what a wallet can send

  /** Token units in one whole token. */
  function Scale(decimals: nat): (s: real)
    ensures s >= 1.0
  {
    Decimals.Pow10Positive(decimals);
    Decimals.Pow10(decimals) as real
  }

  function Nearest(x: real): int {
    var rest := x - x.Floor as real;
    if rest < 0.5 || (rest == 0.5 && x.Floor % 2 == 0) then x.Floor else x.Floor + 1
  }

  /** The amount as it is written out with so many decimals, a tie going to the even digit. */
  function Rounded(amount: real, scale: real): real
    requires scale > 0.0
  {
    Nearest(amount * scale) as real / scale
  }

  /** The amount cut to whole token units. */
  function Cut(amount: real, scale: real): real
    requires scale > 0.0
  {
    (amount * scale).Floor as real / scale
  }

  /** What a wallet sends for an amount: written out with 18 decimals and cut to whole units of the token. */
  function Sendable(amount: real, decimals: nat): real {
    Cut(Rounded(amount, Scale(18)), Scale(decimals))
  }

  /** What a bridge is asked to move: the amount written out with 8 decimals. */
  function Bridgeable(amount: real): real {
    Rounded(amount, Scale(8))
  }

  lemma NearestIsNear(x: real)
    ensures -0.5 <= Nearest(x) as real - x <= 0.5
    ensures x >= 0.0 ==> Nearest(x) >= 0
    ensures x - x.Floor as real == 0.5 ==> Nearest(x) % 2 == 0
  {
  }

  lemma Distributes(q: real, u: real, p: real)
    ensures (q + u) * p == q * p + u * p && (q - u) * p == q * p - u * p
  {
  }

  /** `n / p` is between `x - a / p` and `x + b / p` when `n` is between `x * p - a` and `x * p + b`. */
  lemma QuotientNear(n: real, x: real, p: real, a: real, b: real)
    requires p > 0.0 && x * p - a <= n <= x * p + b
    ensures x - a / p <= n / p <= x + b / p
  {
    Arith.QuotientTimes(n, p);
    Arith.QuotientTimes(a, p);
    Arith.QuotientTimes(b, p);
    Distributes(x, a / p, p);
    Distributes(x, b / p, p);
    Arith.TimesOrder(x - a / p, n / p, p);
    Arith.TimesOrder(n / p, x + b / p, p);
  }

  lemma QuotientNonNegative(n: real, p: real)
    requires p > 0.0 && n >= 0.0
    ensures n / p >= 0.0
  {
    Arith.QuotientTimes(n, p);
    Arith.TimesOrder(0.0, n / p, p);
  }

  lemma RoundedIsNear(amount: real, scale: real)
    requires scale > 0.0
    ensures amount - 0.5 / scale <= Rounded(amount, scale) <= amount + 0.5 / scale
    ensures amount >= 0.0 ==> Rounded(amount, scale) >= 0.0
  {
    var n := Nearest(amount * scale);
    NearestIsNear(amount * scale);
    if amount >= 0.0 {
      Arith.ProductNonNegative(amount, scale);
      QuotientNonNegative(n as real, scale);
    }
    hide Nearest;
    QuotientNear(n as real, amount, scale, 0.5, 0.5);
  }

  lemma CutIsNear(amount: real, scale: real)
    requires amount >= 0.0 && scale > 0.0
    ensures 0.0 <= Cut(amount, scale) <= amount <= Cut(amount, scale) + 1.0 / scale
  {
    Arith.ProductNonNegative(amount, scale);
    var n := (amount * scale).Floor as real;
    QuotientNonNegative(n, scale);
    QuotientNear(n, amount, scale, 1.0, 0.0);
    Arith.QuotientTimes(0.0, scale);
  }

  /**
   A wallet sends less than the amount by no more than a token unit, and more by no more than half a unit of the
   eighteenth decimal, and a bridge is asked for no more than half a unit of the eighth decimal beside it.
   */
  lemma SendableIsNear(amount: real, decimals: nat)
    requires amount >= 0.0
    ensures var tiny := 0.5 / Scale(18);
            0.0 <= Sendable(amount, decimals) && amount - tiny - 1.0 / Scale(decimals) <= Sendable(amount, decimals) <= amount + tiny
    ensures var small := 0.5 / Scale(8);
            0.0 <= Bridgeable(amount) && amount - small <= Bridgeable(amount) <= amount + small
  {
    hide Rounded, Cut, Scale;
    RoundedIsNear(amount, Scale(18));
    RoundedIsNear(amount, Scale(8));
    CutIsNear(Rounded(amount, Scale(18)), Scale(decimals));
  }

  lemma NearestWhole(n: int)
    ensures Nearest(n as real) == n
  {
  }

  lemma WholeIsRounded(amount: real, scale: real, n: int)
    requires scale > 0.0 && amount * scale == n as real
    ensures Rounded(amount, scale) == amount && Cut(amount, scale) == amount
  {
    NearestWhole(n);
    var q := n as real / scale;
    assert Rounded(amount, scale) == q && Cut(amount, scale) == q;
    Arith.QuotientTimes(n as real, scale);
    hide Rounded, Cut;
    SameByScale(q, amount, scale);
  }

  lemma WholeAtBothScales(units: nat, p: nat, more: nat)
    requires p >= 1 && more >= 1 && p * more >= 1
    ensures Cut(Rounded(units as real / p as real, (p * more) as real), p as real) == units as real / p as real
  {
    hide Rounded, Cut;
    var amount := units as real / p as real;
    Arith.QuotientTimes(units as real, p as real);
    WholeProduct(units, p, more, amount);
    WholeIsRounded(amount, (p * more) as real, units * more);
    WholeIsRounded(amount, p as real, units);
  }

  /** A whole number of units of a token with at most 18 decimals is sent as it is. */
  lemma WholeUnitsAreSent(units: nat, decimals: nat)
    requires decimals <= 18
    ensures Sendable(units as real / Scale(decimals), decimals) == units as real / Scale(decimals)
  {
    hide Rounded, Cut, Decimals.Pow10;
    Decimals.Pow10Sum(decimals, 18 - decimals);
    Decimals.Pow10Positive(decimals);
    Decimals.Pow10Positive(18 - decimals);
    Decimals.Pow10Positive(18);
    WholeAtBothScales(units, Decimals.Pow10(decimals), Decimals.Pow10(18 - decimals));
  }

  lemma WholeProduct(units: nat, p: nat, more: nat, amount: real)
    requires amount * p as real == units as real
    ensures amount * (p * more) as real == (units * more) as real
  {
    assert (p * more) as real == p as real * more as real;
    assert amount * (p as real * more as real) == (amount * p as real) * more as real;
  }

  lemma SameByScale(x: real, y: real, p: real)
    requires p > 0.0 && x * p == y * p
    ensures x == y
  {
    Arith.Cancel(x, y, p);
    Arith.Cancel(y, x, p);
  }

  // ------------------------------------------------------------ lawful transfers

  /** What a wallet with these answers sends for an amount. */
  ghost predicate IsSendable(log: Log, account: Account, asset: string, amount: real, sent: real) {
    exists d: nat :: UnitsRead(account, asset, d) in log && sent == Sendable(amount, d)
  }

  /** A withdrawal: over a checked way, covered by a balance of the asset; an exchange sends all, a wallet whole units. */
  ghost predicate WellSent(h: Hop, before: Log, e: Event)
    requires e.Moved?
  {
    && WayChecked(h, before, Way(e.destination, e.network))
    && Covered(before, e.account, e.asset, e.sent)
    && (if h.from.IsExchange() then e.sent == e.amount else IsSendable(before, e.account, e.asset, e.amount, e.sent))
    && (e.receipt.Accepted? ==> e.receipt.bridgeId == "")
  }

  /** A bridge: to where the target named, covered when the asset is the node's. */
  ghost predicate WellBridged(h: Hop, before: Log, e: Event)
    requires e.Moved?
  {
    && e.sent == Bridgeable(e.amount)
    && Answered(before, h.to, EdgeAsset(h.Config(), h.to.asset), "", e.destination)
    && (exists own :: Answered(before, h.from, h.Asset(), "", own))
    && (h.Asset() == h.from.asset ==> Covered(before, e.account, e.asset, e.amount))
  }

  /**
   The only transfer of an attempt: between places that are connected, out of the step's source, of the right asset,
   a positive amount priced as the step says, and well sent or well bridged.
   */
  ghost predicate LawfulMove(h: Hop, forced: bool, before: Log, e: Event)
    requires e.Moved?
  {
    && NoneMoved(before) && h.Connected()
    && e.account == h.from.account && e.asset == h.MovedAsset() && e.bridged == h.NeedsBridge()
    && e.amount > 0.0 && Priced(h, forced, before, e.amount)
    && (if e.bridged then WellBridged(h, before, e) else WellSent(h, before, e))
  }

  /** The answer about the withdrawal or transaction that was asked for. */
  predicate Says(e: Event, status: Histories.Status) {
    e.Asked? && Histories.StatusIn(e.report, e.txHash) == status
  }

  /**
   The source is asked about a transfer it accepted: an exchange for a list in the asset of that transfer or in any, a
   wallet's chain for a receipt.
   */
  ghost predicate LawfulQuery(h: Hop, before: Log, e: Event)
    requires e.Asked?
  {
    && e.account == h.from.account && e.txHash != "" && (e.report.OnChain? <==> !h.from.IsExchange())
    && exists m :: m in before && m.Moved? && m.receipt == Accepted(e.txHash, "")
                   && (h.from.IsExchange() ==> e.asset in {m.asset, ""})
  }

  ghost predicate LawfulEvent(h: Hop, forced: bool, before: Log, e: Event) {
    (e.Moved? ==> LawfulMove(h, forced, before, e)) && (e.Asked? ==> LawfulQuery(h, before, e))
  }

  ghost predicate LawfulLog(h: Hop, forced: bool, log: Log) {
    forall i :: 0 <= i < |log| ==> LawfulEvent(h, forced, log[..i], log[i])
  }

  /** The target's balance rose by nearly the amount between two readings. */
  ghost predicate Rose(log: Log, account: Account, amount: real) {
    exists i, j :: 0 <= i < j < |log| && log[i].Read? && log[j].Read? && log[i].account == account == log[j].account
                   && log[i].asset == log[j].asset && log[j].balance - log[i].balance >= amount * ARRIVED_SHARE
  }

  /** A wallet's transfer is as deep in the chain as its edge asks. */
  predicate DeepEnough(h: Hop, txHash: string, after: Log) {
    h.Config().confirmations > 0 && !h.from.IsExchange() ==>
      DepthAsked(h.from.account, txHash, h.Config().confirmations, Some(true)) in after
  }

  /** A positive answer about the transfer, from the source, the bridge or the balance the bridge should raise. */
  ghost predicate Confirmed(h: Hop, move: Event, after: Log)
    requires move.Moved? && move.receipt.Accepted?
  {
    && DeepEnough(h, move.receipt.txHash, after)
    && if move.receipt.bridgeId == ""
       then exists e :: e in after && Says(e, Histories.Done) && e.account == h.from.account && e.txHash == move.receipt.txHash
       else BridgeAsked(move.receipt.bridgeId, Some(true)) in after || Rose(after, h.to.account, move.amount)
  }

  /** The transfer at index `i` is the only one, was accepted under `txHash` and confirmed afterwards. */
  ghost predicate DeliveredAt(h: Hop, log: Log, txHash: string, i: nat) {
    && i < |log| && log[i].Moved? && NoneMoved(log[..i]) && NoneMoved(log[i + 1..])
    && log[i].receipt.Accepted? && log[i].receipt.txHash == txHash && Confirmed(h, log[i], log[i + 1..])
  }

  // ------------------------------------------------------------ why an attempt fails

  /** An answer after which an attempt goes no further. */
  predicate Stops(h: Hop, e: Event) {
    || e.Unanswered? || e.GaveUp?
    || (e.Listed? && h.Network().Some? && Closed(e.channels, h.Network().value))
    || (e.Addressed? && e.destination.address == "")
    || (e.Moved? && e.receipt.Refused?)
  }

  /** The balance read, or the edge's fixed amount, leaves nothing to transfer. */
  ghost predicate NothingToSend(h: Hop, forced: bool, log: Log) {
    if !forced && h.TakesUnchecked() then h.Config().amount <= 0.0
    else exists e :: e in log && IsRead(e, h.from.account, h.PricedAsset())
                     && (PriceOf(h, forced, e.balance).Some? ==> PriceOf(h, forced, e.balance).value <= 0.0)
  }

  /** A balance read falls short of the amount, or of what a wallet sends for it. */
  ghost predicate FallsShort(log: Log, account: Account, asset: string, amount: real) {
    exists e :: e in log && IsRead(e, account, asset)
                && (e.balance < amount || exists sent :: IsSendable(log, account, asset, amount, sent) && e.balance < sent)
  }

  ghost predicate TooLittle(h: Hop, forced: bool, log: Log) {
    exists amount :: Priced(h, forced, log, amount) && FallsShort(log, h.from.account, h.MovedAsset(), amount)
  }

  /** What the log of an attempt that returns no hash shows. */
  ghost predicate Stopped(h: Hop, forced: bool, log: Log) {
    || !h.Connected() || NothingToSend(h, forced, log) || TooLittle(h, forced, log)
    || exists e :: e in log && Stops(h, e)
  }

  /** No answer confirms a transfer: where a depth is asked for none says that it is reached, elsewhere none is positive. */
  predicate NothingConfirms(h: Hop, log: Log) {
    forall e <- log ::
      if h.Config().confirmations > 0 && !h.from.IsExchange() then e.DepthAsked? ==> e.answer != Some(true)
      else !Says(e, Histories.Done) && (e.BridgeAsked? ==> e.answer != Some(true))
  }

  /** Nothing was asked about a transfer. */
  predicate Unasked(log: Log) {
    forall e <- log :: !e.Asked? && !e.BridgeAsked? && !e.DepthAsked?
  }

  lemma UnaskedConfirmsNothing(h: Hop, log: Log)
    requires Unasked(log)
    ensures NothingConfirms(h, log)
  {
  }

  lemma NothingConfirmsJoined(h: Hop, log: Log, more: Log)
    requires (Unasked(log) || NothingConfirms(h, log)) && (Unasked(more) || NothingConfirms(h, more))
    ensures NothingConfirms(h, log + more)
  {
    hide Histories.StatusIn;
  }

  /**
   Nothing moves while waiting; the log is lawful; a hash is returned for a delivered transfer and for nothing
   else, and none only for a reason the log shows and without an answer that confirms a transfer.
   */
  ghost predicate LawfulAttempt(h: Hop, a: Attempt) {
    && NoneMoved(a.waited) && LawfulLog(h, a.forced, a.log)
    && (if a.result.Some? then exists i: nat :: DeliveredAt(h, a.log, a.result.value, i)
        else Stopped(h, a.forced, a.log) && NothingConfirms(h, a.log))
  }

  // ------------------------------------------------------------ growing a log

  lemma PrefixOf(log: Log, more: Log, i: nat)
    requires i <= |log|
    ensures (log + more)[..i] == log[..i]
  {
  }

  lemma NothingIsLawful(h: Hop, forced: bool)
    ensures LawfulLog(h, forced, [])
  {
  }

  lemma QuietStays(h: Hop, forced: bool, log: Log, more: Log)
    requires LawfulLog(h, forced, log)
    requires forall e <- more :: !e.Moved? && !e.Asked?
    ensures LawfulLog(h, forced, log + more)
  {
    hide LawfulMove, LawfulQuery;
    forall i | 0 <= i < |log + more| ensures LawfulEvent(h, forced, (log + more)[..i], (log + more)[i]) {
      if i < |log| {
        PrefixOf(log, more, i);
      } else {
        assert (log + more)[i] == more[i - |log|];
      }
    }
  }

  lemma OneMoreEvent(h: Hop, forced: bool, log: Log, e: Event)
    requires LawfulLog(h, forced, log) && LawfulEvent(h, forced, log, e)
    ensures LawfulLog(h, forced, log + [e])
  {
    hide LawfulEvent;
    forall i | 0 <= i < |log + [e]| ensures LawfulEvent(h, forced, (log + [e])[..i], (log + [e])[i]) {
      PrefixOf(log, [e], i);
      if i == |log| {
        assert log[..i] == log;
      }
    }
  }

  lemma CoveredStays(log: Log, more: Log, account: Account, asset: string, amount: real)
    requires Covered(log, account, asset, amount)
    ensures Covered(log + more, account, asset, amount)
  {
    var e :| e in log && IsRead(e, account, asset) && amount <= e.balance;
    assert e in log + more;
  }

  lemma PricedStays(h: Hop, forced: bool, log: Log, more: Log, amount: real)
    requires Priced(h, forced, log, amount)
    ensures Priced(h, forced, log + more, amount)
  {
    hide PriceOf;
    if forced || !h.TakesUnchecked() {
      var e :| e in log && IsRead(e, h.from.account, h.PricedAsset()) && PriceOf(h, forced, e.balance) == Some(amount);
      assert e in log + more;
    }
  }

  lemma SendableStays(log: Log, more: Log, account: Account, asset: string, amount: real, sent: real)
    requires IsSendable(log, account, asset, amount, sent)
    ensures IsSendable(log + more, account, asset, amount, sent)
  {
    hide Sendable;
    var d: nat :| UnitsRead(account, asset, d) in log && sent == Sendable(amount, d);
    assert UnitsRead(account, asset, d) in log + more;
  }

  lemma NothingToSendStays(h: Hop, forced: bool, log: Log, more: Log)
    requires NothingToSend(h, forced, log)
    ensures NothingToSend(h, forced, log + more)
  {
    hide PriceOf;
    if forced || !h.TakesUnchecked() {
      var e :| e in log && IsRead(e, h.from.account, h.PricedAsset())
               && (PriceOf(h, forced, e.balance).Some? ==> PriceOf(h, forced, e.balance).value <= 0.0);
      assert e in log + more;
    }
  }

  lemma FallsShortStays(log: Log, more: Log, account: Account, asset: string, amount: real)
    requires FallsShort(log, account, asset, amount)
    ensures FallsShort(log + more, account, asset, amount)
  {
    hide IsSendable;
    var e :| e in log && IsRead(e, account, asset)
             && (e.balance < amount || exists sent :: IsSendable(log, account, asset, amount, sent) && e.balance < sent);
    assert e in log + more;
    if e.balance >= amount {
      var sent :| IsSendable(log, account, asset, amount, sent) && e.balance < sent;
      SendableStays(log, more, account, asset, amount, sent);
    }
  }

  lemma SendableInMore(log: Log, more: Log, account: Account, asset: string, amount: real, sent: real)
    requires IsSendable(more, account, asset, amount, sent)
    ensures IsSendable(log + more, account, asset, amount, sent)
  {
    hide Sendable;
    var d: nat :| UnitsRead(account, asset, d) in more && sent == Sendable(amount, d);
    assert UnitsRead(account, asset, d) in log + more;
  }

  lemma FallsShortLater(log: Log, more: Log, account: Account, asset: string, amount: real)
    requires FallsShort(more, account, asset, amount)
    ensures FallsShort(log + more, account, asset, amount)
  {
    hide IsSendable;
    var e :| e in more && IsRead(e, account, asset)
             && (e.balance < amount || exists sent :: IsSendable(more, account, asset, amount, sent) && e.balance < sent);
    assert e in log + more;
    if e.balance >= amount {
      var sent :| IsSendable(more, account, asset, amount, sent) && e.balance < sent;
      SendableInMore(log, more, account, asset, amount, sent);
    }
  }

  /** A reason in an earlier part of the log stays one. */
  lemma StoppedStays(h: Hop, forced: bool, log: Log, more: Log)
    requires Stopped(h, forced, log)
    ensures Stopped(h, forced, log + more)
  {
    hide Priced, FallsShort, NothingToSend, Stops;
    if NothingToSend(h, forced, log) {
      NothingToSendStays(h, forced, log, more);
    } else if TooLittle(h, forced, log) {
      var amount :| Priced(h, forced, log, amount) && FallsShort(log, h.from.account, h.MovedAsset(), amount);
      PricedStays(h, forced, log, more, amount);
      FallsShortStays(log, more, h.from.account, h.MovedAsset(), amount);
    } else if h.Connected() {
      var e :| e in log && Stops(h, e);
      assert e in log + more;
    }
  }

  lemma WayStays(h: Hop, log: Log, more: Log, way: Way)
    requires WayChecked(h, log, way) && forall e <- more :: !e.Listed?
    ensures WayChecked(h, log + more, way)
  {
    hide Closed;
    ListedStays(log, more, h.from, h.Asset());
    ListedStays(log, more, h.to, h.Asset());
  }

  lemma ListedStays(log: Log, more: Log, p: Place, asset: string)
    requires WasListed(log, p, asset)
    ensures WasListed(log + more, p, asset)
  {
    if p.IsExchange() {
      var e :| e in log && e.Listed? && e.account == p.account && e.asset == asset;
      assert e in log + more;
    }
  }

  /** A priced positive amount of the node's own asset is covered by the balance that priced it. */
  lemma PricedIsCovered(h: Hop, forced: bool, log: Log, amount: real)
    requires Priced(h, forced, log, amount) && amount > 0.0 && h.Asset() == h.from.asset
    ensures Covered(log, h.from.account, h.from.asset, amount)
  {
    hide AmountOf;
    var e :| e in log && IsRead(e, h.from.account, h.PricedAsset()) && PriceOf(h, forced, e.balance) == Some(amount);
    if !forced {
      AmountIsAffordable(h.Config(), e.balance);
    }
  }

  // ------------------------------------------------------------ what lawful attempts amount to

  /**
   What is counted: transfers asked for, which may have gone out even if the answer was an error; those accepted; or
   payments, which are those accepted and not found to have failed after all.
   */
  datatype Counting = Requests | Acceptances | Payments

  /** The source said that it rejected the transfer, or the chain or the bridge that it reverted it. */
  predicate CameBack(log: Log, receipt: Receipt)
    requires receipt.Accepted?
  {
    if receipt.bridgeId == "" then exists e :: e in log && Says(e, Histories.Rejected) && e.txHash == receipt.txHash
    else BridgeReverted(receipt.bridgeId) in log
  }

  predicate Counts(what: Counting, log: Log, e: Event) {
    e.Moved? && (!what.Requests? ==> e.receipt.Accepted? && (what.Payments? ==> !CameBack(log, e.receipt)))
  }

  /** How many of the first `n` events count. */
  function CountUpTo(what: Counting, log: Log, n: nat): nat
    requires n <= |log|
  {
    if n == 0 then 0 else CountUpTo(what, log, n - 1) + if Counts(what, log, log[n - 1]) then 1 else 0
  }

  function MoveCount(what: Counting, log: Log): nat {
    CountUpTo(what, log, |log|)
  }

  predicate Moves(what: Counting, a: Attempt) {
    exists e :: e in a.log && Counts(what, a.log, e)
  }

  lemma {:induction false} CountsNone(what: Counting, log: Log, n: nat)
    requires n <= |log|
    ensures CountUpTo(what, log, n) == 0 <==> forall i :: 0 <= i < n ==> !Counts(what, log, log[i])
  {
    hide Counts;
    if n > 0 {
      CountsNone(what, log, n - 1);
    }
  }

  /** An attempt transfers at most once, and once exactly when its log holds a transfer that counts. */
  lemma LawfulMovesOnce(what: Counting, h: Hop, forced: bool, log: Log)
    requires LawfulLog(h, forced, log)
    ensures MoveCount(what, log) == if exists e :: e in log && Counts(what, log, e) then 1 else 0
  {
    hide LawfulLog, Counts;
    CountsAtMostOnce(what, h, forced, log, |log|);
    if exists e :: e in log && Counts(what, log, e) {
      var e :| e in log && Counts(what, log, e);
      var i :| 0 <= i < |log| && log[i] == e;
    }
  }

  lemma {:induction false} CountsAtMostOnce(what: Counting, h: Hop, forced: bool, log: Log, n: nat)
    requires LawfulLog(h, forced, log) && n <= |log|
    ensures CountUpTo(what, log, n) == if exists i :: 0 <= i < n && Counts(what, log, log[i]) then 1 else 0
  {
    hide LawfulLog, CameBack;
    if n > 0 {
      CountsAtMostOnce(what, h, forced, log, n - 1);
      if Counts(what, log, log[n - 1]) {
        NoneMovedBefore(h, forced, log, n - 1);
        assert forall i :: 0 <= i < n - 1 ==> log[..n - 1][i] == log[i];
      }
    }
  }

  lemma NoneMovedBefore(h: Hop, forced: bool, log: Log, i: nat)
    requires LawfulLog(h, forced, log) && i < |log| && log[i].Moved?
    ensures NoneMoved(log[..i])
  {
    hide WellSent, WellBridged, Priced, LawfulQuery, Hop.Connected;
    assert LawfulEvent(h, forced, log[..i], log[i]);
  }

  // ------------------------------------------------------------ sending and confirming

  /** Questions about the account and the asset, and ones without an answer. */
  predicate OnlyReads(log: Log, account: Account, asset: string) {
    forall e <- log :: IsRead(e, account, asset) || (e.UnitsRead? && e.account == account && e.asset == asset) || e.Unanswered?
  }

  /** Questions about the account, and then a transfer of `amount` out of it. */
  ghost predicate Sends(more: Log, account: Account, asset: string, amount: real, way: Way) {
    && more != [] && OnlyReads(more[..|more| - 1], account, asset)
    && (var e := more[|more| - 1];
        && e.Moved? && e.account == account && e.asset == asset && e.amount == amount && !e.bridged
        && e.network == way.network && e.destination == way.destination
        && (e.receipt.Accepted? ==> e.receipt.bridgeId == "")
        && (if account.Exchange? then e.sent == amount
            else IsSendable(more[..|more| - 1], account, asset, amount, e.sent)
                 && Covered(more[..|more| - 1], account, asset, e.sent)))
  }

  /** A priced transfer over a checked way keeps the log lawful; an exchange's has to be covered by now. */
  lemma SentLawfully(h: Hop, forced: bool, log: Log, more: Log, amount: real, way: Way)
    requires LawfulLog(h, forced, log) && NoneMoved(log) && amount > 0.0 && !h.NeedsBridge() && h.Connected()
    requires Priced(h, forced, log, amount) && WayChecked(h, log, way)
    requires Sends(more, h.from.account, h.MovedAsset(), amount, way)
    requires h.from.IsExchange() ==> Covered(log + more[..|more| - 1], h.from.account, h.MovedAsset(), amount)
    ensures LawfulLog(h, forced, log + more)
  {
    hide LawfulLog, Priced, WayChecked, Covered, IsSendable, Hop.Connected, Hop.NeedsBridge, Hop.MovedAsset;
    var asks, e := more[..|more| - 1], more[|more| - 1];
    QuietStays(h, forced, log, asks);
    PricedStays(h, forced, log, asks, amount);
    WayStays(h, log, asks, way);
    if !h.from.IsExchange() {
      CoveredInMore(log, asks, h.from.account, h.MovedAsset(), e.sent);
      SendableInMore(log, asks, h.from.account, h.MovedAsset(), amount, e.sent);
    }
    assert Way(e.destination, e.network) == way;
    assert LawfulMove(h, forced, log + asks, e);
    OneMoreEvent(h, forced, log + asks, e);
    assert (log + asks) + [e] == log + more;
  }

  lemma CoveredInMore(log: Log, more: Log, account: Account, asset: string, amount: real)
    requires Covered(more, account, asset, amount)
    ensures Covered(log + more, account, asset, amount)
  {
    var e :| e in more && IsRead(e, account, asset) && amount <= e.balance;
    assert e in log + more;
  }

  /** What is logged about a transfer: answers of its source when there is no bridge, of the bridge otherwise. */
  predicate Answers(more: Log, account: Account, asset: string, txHash: string, bridgeId: string) {
    forall e <- more ::
      e.Read? || e.Unanswered? || e.GaveUp? || (e.DepthAsked? && e.account == account && e.txHash == txHash)
      || (bridgeId != "" && e.BridgeAsked? && e.bridgeId == bridgeId)
      || (bridgeId != "" && e.BridgeReverted? && e.bridgeId == bridgeId)
      || (bridgeId == "" && txHash != "" && e.Asked? && e.account == account && e.asset in {asset, ""} && e.txHash == txHash
          && (e.report.OnChain? <==> account.Wallet?))
  }

  /** Asking about the transfer a log ends in keeps the log lawful. */
  lemma AnswersStay(h: Hop, forced: bool, log: Log, more: Log, asset: string, txHash: string, bridgeId: string)
    requires LawfulLog(h, forced, log) && log != [] && log[|log| - 1].Moved?
    requires log[|log| - 1].receipt == Accepted(txHash, bridgeId)
    requires h.from.IsExchange() ==> asset == log[|log| - 1].asset
    requires Answers(more, h.from.account, asset, txHash, bridgeId)
    ensures LawfulLog(h, forced, log + more)
  {
    hide LawfulMove;
    var m := log[|log| - 1];
    forall i | 0 <= i < |log + more| ensures LawfulEvent(h, forced, (log + more)[..i], (log + more)[i]) {
      if i < |log| {
        PrefixOf(log, more, i);
      } else {
        assert (log + more)[i] == more[i - |log|] && more[i - |log|] in more;
        assert m == (log + more)[..i][|log| - 1];
      }
    }
  }

  lemma LastMoveIsOnly(h: Hop, forced: bool, log: Log)
    requires LawfulLog(h, forced, log) && log != [] && log[|log| - 1].Moved?
    ensures NoneMoved(log[..|log| - 1])
    ensures log[|log| - 1].account == h.from.account && log[|log| - 1].asset == h.MovedAsset()
    ensures log[|log| - 1].amount > 0.0
  {
    assert LawfulEvent(h, forced, log[..|log| - 1], log[|log| - 1]);
  }

  // ------------------------------------------------------------ the network a transfer takes

  /**
   The network that the settings ask for: the one the edge names; when it names none, the one of the target's chain,
   or of the edge's when the target has no chain; and for a chain without a name the target exchange's own default.
   */
  predicate AsksFor(h: Hop, network: string) {
    var named, chain := h.Config().network, if h.to.Chain() != "" then h.to.Chain() else h.Config().chainId;
    && (named != "" ==> network == named)
    && (named == "" && chain in NETWORK_NAMES ==> network == NETWORK_NAMES[chain] && ChainNamed(network) == chain)
    && (named == "" && chain !in NETWORK_NAMES ==> h.to.IsExchange() && network == h.to.defaultNetwork != "")
  }

  /** Every transfer without a bridge takes the network the settings ask for, and no listing before it closes that. */
  ghost predicate TakesItsNetwork(h: Hop, log: Log) {
    forall i :: 0 <= i < |log| && log[i].Moved? && !log[i].bridged ==>
      AsksFor(h, log[i].network) && AllOpen(log[..i], log[i].network)
  }

  /** A step has a network exactly when its settings ask for one, and it is that one. */
  lemma NetworkIsAskedFor(h: Hop, network: string)
    ensures h.Network() == Some(network) <==> AsksFor(h, network)
  {
    hide ChainNamed;
    var edge, to := h.Config(), h.to.Chain();
    var chain := if to != "" then to else edge.chainId;
    if chain in NETWORK_NAMES {
      NameTellsChain(chain);
    }
  }

  lemma LawfulTakesItsNetwork(h: Hop, forced: bool, log: Log)
    requires LawfulLog(h, forced, log)
    ensures TakesItsNetwork(h, log)
  {
    hide Priced, AsksFor, EdgeAsset, IsSendable, Hop.Network, Hop.Connected, AllOpen, Answered, WasListed, Covered;
    forall i | 0 <= i < |log| && log[i].Moved? && !log[i].bridged
      ensures AsksFor(h, log[i].network) && AllOpen(log[..i], log[i].network)
    {
      assert LawfulEvent(h, forced, log[..i], log[i]);
      NetworkIsAskedFor(h, log[i].network);
    }
  }

  // ------------------------------------------------------------ exchanges spend what they have

  /** Every transfer out of an exchange: all of a positive amount of the edge's asset, covered by a balance of it read before. */
  ghost predicate SpendsWhatItHas(h: Hop, a: Attempt) {
    forall i :: 0 <= i < |a.log| && a.log[i].Moved? && a.log[i].account.Exchange? ==>
      && a.log[i].asset == h.Asset() && 0.0 < a.log[i].amount == a.log[i].sent
      && Covered(a.log[..i], a.log[i].account, h.Asset(), a.log[i].amount)
  }

  lemma LawfulSpends(h: Hop, a: Attempt)
    requires LawfulAttempt(h, a)
    ensures SpendsWhatItHas(h, a)
  {
    hide Priced, WayChecked, EdgeAsset, IsSendable;
    forall i | 0 <= i < |a.log| && a.log[i].Moved? && a.log[i].account.Exchange?
      ensures a.log[i].asset == h.Asset() && 0.0 < a.log[i].amount == a.log[i].sent
              && Covered(a.log[..i], a.log[i].account, h.Asset(), a.log[i].amount)
    {
      assert LawfulEvent(h, a.forced, a.log[..i], a.log[i]);
    }
  }

  lemma LawfulInBounds(h: Hop, a: Attempt)
    requires LawfulAttempt(h, a)
    ensures SpendsWhatItHas(h, a) && TakesItsNetwork(h, a.log)
  {
    LawfulSpends(h, a);
    hide LawfulLog, Stopped, SpendsWhatItHas, TakesItsNetwork, DeliveredAt;
    LawfulTakesItsNetwork(h, a.forced, a.log);
  }
}
