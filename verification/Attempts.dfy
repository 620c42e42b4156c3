/**
 Which attempts at a step are possible: what can be transferred over a hop, and what an attempt
 that transfers looks like when it is confirmed and when it is not (internal/pipeline/executor.go:488-990).
 */
module Attempts {
  import opened Options
  import opened Transfers
  import Histories
  import Text

  predicate NoneAsked(log: Log) {
    forall e <- log :: !e.Asked?
  }

  /** Nothing moved yet, and nothing asked about a transfer. */
  predicate Quiet(log: Log) {
    forall e <- log :: !e.Moved? && !e.Asked? && !e.BridgeAsked? && !e.DepthAsked? && !e.BridgeReverted?
  }

  /** There are answers to which an attempt transfers. */
  ghost predicate CanSend(h: Hop, forced: bool) {
    exists asks, move: Event :: NoneAsked(asks) && move.Moved? && LawfulMove(h, forced, asks, move)
  }

  // ------------------------------------------------------------ answers that let a transfer go out

  /** An address of the place. */
  function AddressOf(p: Place): Destination {
    match p.account
    case Wallet(_, address) => Destination(address, "")
    case Exchange(_) => Destination("deposit-address", "memo")
  }

  function ListedIf(p: Place, asset: string): Log {
    if p.IsExchange() then [Listed(p.account, asset, None)] else []
  }

  /** A priced balance, both ends asked, and a balance that covers the transfer. */
  function WithdrawalAsks(h: Hop, balance: real, held: real): Log
    requires h.Network().Some?
  {
    [Read(h.from.account, h.PricedAsset(), balance)] + ListedIf(h.from, h.Asset()) + ListedIf(h.to, h.Asset())
    + [Addressed(h.to.account, h.Asset(), h.Network().value, AddressOf(h.to))]
    + (if h.from.IsExchange() then [] else [UnitsRead(h.from.account, h.MovedAsset(), 18)])
    + [Read(h.from.account, h.MovedAsset(), held)]
  }

  /** A priced balance and the addresses of both wallets. */
  function BridgeAsks(h: Hop, balance: real): Log {
    [Read(h.from.account, h.PricedAsset(), balance),
     Addressed(h.to.account, EdgeAsset(h.Config(), h.to.asset), "", AddressOf(h.to)),
     Addressed(h.from.account, h.Asset(), "", AddressOf(h.from))]
  }

  function Asks(h: Hop, balance: real, held: real): Log
    requires h.Connected()
  {
    if h.NeedsBridge() then BridgeAsks(h, balance) else WithdrawalAsks(h, balance, held)
  }

  function SentFor(h: Hop, amount: real): real {
    if h.NeedsBridge() then Bridgeable(amount) else if h.from.IsExchange() then amount else Sendable(amount, 18)
  }

  function Transfer(h: Hop, amount: real, receipt: Receipt): Event
    requires h.Connected()
  {
    Moved(h.from.account, h.MovedAsset(), amount, SentFor(h, amount), if h.NeedsBridge() then "" else h.Network().value,
          AddressOf(h.to), h.NeedsBridge(), receipt)
  }

  /** `balance` makes the amount, and `held` covers it where the transfer has to be covered. */
  predicate Affords(h: Hop, forced: bool, balance: real, held: real, amount: real) {
    && amount > 0.0
    && (if !forced && h.TakesUnchecked() then amount == h.Config().amount else PriceOf(h, forced, balance) == Some(amount))
    && held >= SentFor(h, amount)
  }

  lemma WithdrawalAnswers(h: Hop, balance: real, held: real)
    requires h.Network().Some?
    ensures var asks := WithdrawalAsks(h, balance, held);
      && Read(h.from.account, h.PricedAsset(), balance) in asks
      && Read(h.from.account, h.MovedAsset(), held) in asks
      && Addressed(h.to.account, h.Asset(), h.Network().value, AddressOf(h.to)) in asks
      && (h.from.IsExchange() ==> Listed(h.from.account, h.Asset(), None) in asks)
      && (h.to.IsExchange() ==> Listed(h.to.account, h.Asset(), None) in asks)
      && (!h.from.IsExchange() ==> UnitsRead(h.from.account, h.MovedAsset(), 18) in asks)
  {
    hide EdgeAsset, WithdrawNetwork, Hop.MovedAsset, Hop.PricedAsset, Hop.Asset, Hop.Network;
  }

  lemma WithdrawalAsksAreOpen(h: Hop, balance: real, held: real)
    requires h.Network().Some?
    ensures NoneMoved(WithdrawalAsks(h, balance, held))
    ensures forall e <- WithdrawalAsks(h, balance, held) :: e.Listed? ==> e.channels.None?
  {
    hide EdgeAsset, WithdrawNetwork, Hop.MovedAsset, Hop.PricedAsset, Hop.Asset, Hop.Network;
  }

  lemma WithdrawalIsLawful(h: Hop, forced: bool, balance: real, held: real, amount: real, receipt: Receipt)
    requires h.Connected() && !h.NeedsBridge() && Affords(h, forced, balance, held, amount)
    requires receipt.Accepted? ==> receipt.bridgeId == ""
    ensures LawfulMove(h, forced, WithdrawalAsks(h, balance, held), Transfer(h, amount, receipt))
  {
    hide EdgeAsset, WithdrawNetwork, Sendable, PriceOf, WithdrawalAsks;
    var asks := WithdrawalAsks(h, balance, held);
    WithdrawalAnswers(h, balance, held);
    WithdrawalAsksAreOpen(h, balance, held);
    assert Priced(h, forced, asks, amount);
    assert Covered(asks, h.from.account, h.MovedAsset(), SentFor(h, amount));
    WayIsChecked(h, asks);
    hide Priced, Covered, WayChecked;
  }

  lemma WayIsChecked(h: Hop, asks: Log)
    requires h.Network().Some? && Addressed(h.to.account, h.Asset(), h.Network().value, AddressOf(h.to)) in asks
    requires h.from.IsExchange() ==> Listed(h.from.account, h.Asset(), None) in asks
    requires h.to.IsExchange() ==> Listed(h.to.account, h.Asset(), None) in asks
    requires forall e <- asks :: e.Listed? ==> e.channels.None?
    ensures WayChecked(h, asks, Way(AddressOf(h.to), h.Network().value))
  {
    hide EdgeAsset, WithdrawNetwork;
  }

  lemma BridgeIsLawful(h: Hop, forced: bool, balance: real, held: real, amount: real, receipt: Receipt)
    requires h.Connected() && h.NeedsBridge() && Affords(h, forced, balance, held, amount)
    ensures LawfulMove(h, forced, BridgeAsks(h, balance), Transfer(h, amount, receipt))
  {
    hide EdgeAsset, PriceOf, WithdrawNetwork, Bridgeable, Covered;
    var asks := BridgeAsks(h, balance);
    assert asks[0] in asks && asks[1] in asks && asks[2] in asks;
    assert Answered(asks, h.from, h.Asset(), "", AddressOf(h.from));
    assert Priced(h, forced, asks, amount);
    if h.Asset() == h.from.asset {
      PricedIsCovered(h, forced, asks, amount);
    }
  }

  lemma TransferIsLawful(h: Hop, forced: bool, balance: real, held: real, amount: real, receipt: Receipt)
    requires h.Connected() && Affords(h, forced, balance, held, amount)
    requires receipt.Accepted? ==> (receipt.bridgeId != "" <==> h.NeedsBridge())
    ensures LawfulMove(h, forced, Asks(h, balance, held), Transfer(h, amount, receipt))
  {
    hide LawfulMove;
    if h.NeedsBridge() {
      BridgeIsLawful(h, forced, balance, held, amount, receipt);
    } else {
      WithdrawalIsLawful(h, forced, balance, held, amount, receipt);
    }
  }

  lemma AsksAreQuiet(h: Hop, balance: real, held: real)
    requires h.Connected()
    ensures Quiet(Asks(h, balance, held))
  {
    if !h.NeedsBridge() {
      WithdrawalIsQuiet(h, balance, held);
    }
    hide EdgeAsset, WithdrawNetwork, Hop.PricedAsset, Hop.Asset, Hop.NeedsBridge, WithdrawalAsks;
  }

  lemma WithdrawalIsQuiet(h: Hop, balance: real, held: real)
    requires h.Network().Some?
    ensures Quiet(WithdrawalAsks(h, balance, held))
  {
    hide EdgeAsset, WithdrawNetwork, Hop.MovedAsset, Hop.PricedAsset, Hop.Asset, Hop.Network;
  }

  /** Balances that let a feasible hop send. */
  lemma AffordableBalances(h: Hop, forced: bool) returns (balance: real, held: real, amount: real)
    requires h.Feasible(forced)
    ensures Affords(h, forced, balance, held, amount)
  {
    balance := 1.0;
    if !forced {
      balance := PricingBalance(h.Config());
    }
    amount := if !forced && h.TakesUnchecked() then h.Config().amount else PriceOf(h, forced, balance).value;
    held := SentFor(h, amount);
  }

  /** A step can be sent exactly when both ends are set up and connected and its edge can make a positive amount. */
  lemma CanSendIff(h: Hop, forced: bool)
    ensures CanSend(h, forced) <==> h.Feasible(forced)
  {
    if h.Feasible(forced) {
      var balance, held, amount := AffordableBalances(h, forced);
      AsksAreQuiet(h, balance, held);
      hide *;
      SendsThis(h, forced, balance, held, amount);
    }
    if CanSend(h, forced) {
      var asks, move: Event :| NoneAsked(asks) && move.Moved? && LawfulMove(h, forced, asks, move);
      SentIsFeasible(h, forced, asks, move);
    }
  }

  lemma SendsThis(h: Hop, forced: bool, balance: real, held: real, amount: real)
    requires h.Connected() && Affords(h, forced, balance, held, amount)
    ensures CanSend(h, forced)
  {
    hide LawfulMove;
    AsksAreQuiet(h, balance, held);
    TransferIsLawful(h, forced, balance, held, amount, Refused);
    assert NoneAsked(Asks(h, balance, held)) && Transfer(h, amount, Refused).Moved?;
  }

  lemma SentIsFeasible(h: Hop, forced: bool, asks: Log, move: Event)
    requires move.Moved? && LawfulMove(h, forced, asks, move)
    ensures h.Feasible(forced)
  {
    hide EdgeAsset, AmountOf, WithdrawNetwork, Answered, Covered, IsSendable;
    if !forced && !h.TakesUnchecked() {
      PricesSomethingIff(h.Config());
    }
  }

  // ------------------------------------------------------------ attempts that transfer

  /** The only transfer of a log. */
  ghost predicate OnlyMove(log: Log, move: Event) {
    move.Moved? && move in log && forall e <- log :: e.Moved? ==> e == move
  }

  lemma TransferredLawfully(h: Hop, forced: bool, asks: Log, move: Event)
    requires Quiet(asks)
    requires move.Moved? && LawfulMove(h, forced, asks, move)
    ensures LawfulLog(h, forced, asks + [move])
  {
    hide LawfulMove, LawfulLog;
    NothingIsLawful(h, forced);
    QuietStays(h, forced, [], asks);
    assert [] + asks == asks;
    OneMoreEvent(h, forced, asks, move);
  }

  lemma MovedFromSource(h: Hop, forced: bool, asks: Log, move: Event)
    requires move.Moved? && LawfulMove(h, forced, asks, move)
    ensures NoneMoved(asks) && move.account == h.from.account && move.asset == h.MovedAsset()
  {
  }

  /** An answer that the withdrawal or the transaction went through. */
  function Completed(h: Hop, id: string): (report: Histories.Report)
    ensures Histories.StatusIn(report, id) == Histories.Done && (report.OnChain? <==> !h.from.IsExchange())
  {
    if h.from.IsExchange() then Histories.History([Histories.WithdrawRecord(id, "COMPLETED", "")])
    else Histories.OnChain(Histories.Done)
  }

  /** The answers that confirm a transfer. */
  function Confirmation(h: Hop, move: Event): Log
    requires move.Moved? && move.receipt.Accepted?
  {
    var r := move.receipt;
    (if h.Config().confirmations > 0 then [DepthAsked(h.from.account, r.txHash, h.Config().confirmations, Some(true))] else [])
    + [if r.bridgeId == "" then Asked(h.from.account, move.asset, r.txHash, Completed(h, r.txHash))
       else BridgeAsked(r.bridgeId, Some(true))]
  }

  /** No answer says that a transfer failed after all. */
  predicate NoneFailed(log: Log) {
    forall e <- log :: !Says(e, Histories.Rejected) && !e.BridgeReverted?
  }

  lemma ConfirmationAnswers(h: Hop, move: Event)
    requires move.Moved? && move.receipt.Accepted? && move.account == h.from.account
    requires move.receipt.bridgeId == "" ==> move.receipt.txHash != ""
    ensures Confirmed(h, move, Confirmation(h, move)) && NoneMoved(Confirmation(h, move))
    ensures NoneFailed(Confirmation(h, move))
    ensures Answers(Confirmation(h, move), h.from.account, move.asset, move.receipt.txHash, move.receipt.bridgeId)
  {
    hide Rose, Completed;
    var r, more := move.receipt, Confirmation(h, move);
    assert h.Config().confirmations > 0 ==> DepthAsked(h.from.account, r.txHash, h.Config().confirmations, Some(true)) in more;
    assert more[|more| - 1] in more;
  }

  /** A lawful transfer that was accepted can be confirmed. */
  lemma ConfirmedAttempt(h: Hop, step: nat, forced: bool, asks: Log, move: Event) returns (a: Attempt)
    requires Quiet(asks)
    requires move.Moved? && LawfulMove(h, forced, asks, move) && move.receipt.Accepted?
    requires move.receipt.bridgeId == "" ==> move.receipt.txHash != ""
    ensures a == Attempt(step, forced, [], asks + [move] + Confirmation(h, move), Some(move.receipt.txHash))
    ensures LawfulAttempt(h, a) && OnlyMove(a.log, move) && NoneFailed(a.log)
  {
    hide LawfulMove, LawfulLog, Confirmed, Answers, Confirmation, DeliveredAt, Stopped, OnlyMove, Says;
    var log := asks + [move];
    MovedFromSource(h, forced, asks, move);
    TransferredLawfully(h, forced, asks, move);
    ConfirmationAnswers(h, move);
    AnswersStay(h, forced, log, Confirmation(h, move), move.asset, move.receipt.txHash, move.receipt.bridgeId);
    a := Attempt(step, forced, [], log + Confirmation(h, move), Some(move.receipt.txHash));
    NoneFailedIn(asks, move, Confirmation(h, move));
    DeliversHere(h, asks, move, Confirmation(h, move));
  }

  lemma NoneFailedIn(asks: Log, move: Event, more: Log)
    requires Quiet(asks) && move.Moved? && NoneFailed(more)
    ensures NoneFailed(asks + [move] + more)
  {
    hide Histories.StatusIn;
  }

  lemma DeliversHere(h: Hop, asks: Log, move: Event, more: Log)
    requires move.Moved? && move.receipt.Accepted? && NoneMoved(asks) && NoneMoved(more) && Confirmed(h, move, more)
    ensures DeliveredAt(h, asks + [move] + more, move.receipt.txHash, |asks|)
    ensures OnlyMove(asks + [move] + more, move)
  {
    hide Confirmed;
    var log := asks + [move] + more;
    assert log[..|asks|] == asks && log[|asks| + 1..] == more && log[|asks|] == move;
  }

  /** A lawful transfer can be refused, or be accepted and not confirmed in time. */
  lemma UnconfirmedAttempt(h: Hop, step: nat, forced: bool, asks: Log, move: Event) returns (a: Attempt)
    requires Quiet(asks)
    requires move.Moved? && LawfulMove(h, forced, asks, move)
    ensures a == Attempt(step, forced, [], asks + [move] + [GaveUp], None)
    ensures LawfulAttempt(h, a) && OnlyMove(a.log, move) && NoneFailed(a.log)
  {
    hide LawfulMove, LawfulLog;
    NoneFailedIn(asks, move, [GaveUp]);
    TransferredLawfully(h, forced, asks, move);
    QuietStays(h, forced, asks + [move], [GaveUp]);
    a := Attempt(step, forced, [], asks + [move] + [GaveUp], None);
    assert Unasked(a.log);
    UnaskedConfirmsNothing(h, a.log);
    assert GaveUp in a.log && Stops(h, GaveUp);
  }

  lemma OnlyMoveCounts(what: Counting, h: Hop, a: Attempt, move: Event)
    requires LawfulAttempt(h, a) && OnlyMove(a.log, move)
    ensures MoveCount(what, a.log) == if Counts(what, a.log, move) then 1 else 0
  {
    hide LawfulLog;
    LawfulMovesOnce(what, h, a.forced, a.log);
  }

  /** A feasible step can be delivered under any hash; only a bridge may give none. */
  lemma Delivery(h: Hop, step: nat, forced: bool, txHash: string) returns (a: Attempt, move: Event)
    requires h.Feasible(forced) && (txHash == "" ==> h.NeedsBridge())
    ensures a.step == step && a.forced == forced && a.result == Some(txHash) && LawfulAttempt(h, a)
    ensures OnlyMove(a.log, move) && NoneFailed(a.log)
    ensures move.asset == h.MovedAsset() && move.account == h.from.account && move.receipt.Accepted? && move.receipt.txHash == txHash
  {
    hide LawfulMove, LawfulLog, DeliveredAt, Affords;
    var balance, held, amount := AffordableBalances(h, forced);
    var receipt := Accepted(txHash, if h.NeedsBridge() then "lz_1" else "");
    move := Transfer(h, amount, receipt);
    TransferIsLawful(h, forced, balance, held, amount, receipt);
    AsksAreQuiet(h, balance, held);
    a := ConfirmedAttempt(h, step, forced, Asks(h, balance, held), move);
  }

  /** A feasible step can be sent and never be confirmed, whether the transfer was accepted or refused. */
  lemma Failure(h: Hop, step: nat, forced: bool, accepted: bool) returns (a: Attempt, move: Event)
    requires h.Feasible(forced)
    ensures a.step == step && a.forced == forced && a.result.None? && LawfulAttempt(h, a)
    ensures OnlyMove(a.log, move) && NoneFailed(a.log) && move.receipt.Accepted? == accepted
  {
    hide LawfulMove, LawfulLog, Stopped, Affords;
    var balance, held, amount := AffordableBalances(h, forced);
    var receipt := if accepted then Accepted("0x1", if h.NeedsBridge() then "lz_1" else "") else Refused;
    move := Transfer(h, amount, receipt);
    TransferIsLawful(h, forced, balance, held, amount, receipt);
    AsksAreQuiet(h, balance, held);
    a := UnconfirmedAttempt(h, step, forced, Asks(h, balance, held), move);
  }

  // ------------------------------------------------------------ which balance a forced step takes

  /** The amount is all of a balance that was read of the asset that moves. */
  ghost predicate AllOfABalance(asks: Log, move: Event)
    requires move.Moved?
  {
    exists e :: e in asks && IsRead(e, move.account, move.asset) && e.balance == move.amount
  }

  /**
   A forced step moves all there is of the asset it moves, except when a wallet pays another asset than its own
   into an exchange or a bridge: there its own asset's balance sets how much of the other asset goes.
   */
  lemma MovesAllOfItsAssetIff(h: Hop)
    ensures (forall asks, move: Event :: move.Moved? && LawfulMove(h, true, asks, move) ==> AllOfABalance(asks, move)) <==>
            h.from.IsExchange() || h.SendsOwnToken() || Text.Trim(h.Config().asset) in {"", h.from.asset} || !h.Connected()
  {
    PricedInMovedAsset(h);
    forall asks, move: Event | move.Moved? && LawfulMove(h, true, asks, move) && h.PricedAsset() == h.MovedAsset()
      ensures AllOfABalance(asks, move)
    {
      AllOfPricedAsset(h, asks, move);
    }
    forall asks, move: Event | move.Moved? && LawfulMove(h, true, asks, move) ensures h.Connected() {
      SentIsFeasible(h, true, asks, move);
    }
    if h.Connected() && h.PricedAsset() != h.MovedAsset() {
      OtherBalanceSetsAmount(h);
    }
  }

  lemma AllOfPricedAsset(h: Hop, asks: Log, move: Event)
    requires move.Moved? && LawfulMove(h, true, asks, move) && h.PricedAsset() == h.MovedAsset()
    ensures AllOfABalance(asks, move)
  {
    hide WellSent, WellBridged, AmountOf, EdgeAsset;
    var e :| e in asks && IsRead(e, h.from.account, h.PricedAsset()) && PriceOf(h, true, e.balance) == Some(move.amount);
  }

  /** One unit of the wallet's own asset, five of the other, and one of the other goes. */
  lemma OtherBalanceSetsAmount(h: Hop)
    requires h.Connected() && h.PricedAsset() != h.MovedAsset()
    ensures exists asks, move: Event :: move.Moved? && LawfulMove(h, true, asks, move) && !AllOfABalance(asks, move)
  {
    var move := Transfer(h, 1.0, Refused);
    SendableIsNear(1.0, 18);
    ScaleOf18();
    assert Affords(h, true, 1.0, 5.0, 1.0);
    TransferIsLawful(h, true, 1.0, 5.0, 1.0, Refused);
    NoOtherReads(h, 1.0, 5.0);
    assert !AllOfABalance(Asks(h, 1.0, 5.0), move);
  }

  lemma ScaleOf18()
    ensures 0.5 / Scale(18) <= 0.5 && 0.5 / Scale(8) <= 0.5
  {
  }

  lemma NoOtherReads(h: Hop, balance: real, held: real)
    requires h.Connected() && h.PricedAsset() != h.MovedAsset()
    ensures forall e <- Asks(h, balance, held) :: IsRead(e, h.from.account, h.MovedAsset()) ==> e.balance == held
  {
    if !h.NeedsBridge() {
      NoOtherReadsToWithdraw(h, balance, held);
    } else {
      hide EdgeAsset, Hop.MovedAsset, Hop.PricedAsset;
    }
  }

  lemma NoOtherReadsToWithdraw(h: Hop, balance: real, held: real)
    requires h.Network().Some? && h.PricedAsset() != h.MovedAsset()
    ensures forall e <- WithdrawalAsks(h, balance, held) :: IsRead(e, h.from.account, h.MovedAsset()) ==> e.balance == held
  {
    hide EdgeAsset, WithdrawNetwork, Hop.MovedAsset, Hop.PricedAsset, Hop.Asset, Hop.Network;
  }

  // ------------------------------------------------------------ which asset moves

  /**
   Every lawful transfer of a step is in the edge's asset, except when two wallets are joined without a bridge
   by an edge that names another asset: there every transfer is in the node's own.
   */
  lemma MovesEdgeAssetIff(h: Hop)
    ensures (forall forced, asks, move: Event :: move.Moved? && LawfulMove(h, forced, asks, move) ==> move.asset == h.Asset()) <==>
            !h.SendsOwnToken() || h.Asset() == h.from.asset || !h.Connected()
  {
    forall forced, asks, move: Event | move.Moved? && LawfulMove(h, forced, asks, move)
      ensures h.Connected() && move.asset == h.MovedAsset()
    {
      SentIsFeasible(h, forced, asks, move);
      MovedFromSource(h, forced, asks, move);
    }
    if h.Connected() {
      var balance, held, amount := AffordableBalances(h, true);
      TransferIsLawful(h, true, balance, held, amount, Refused);
      assert Transfer(h, amount, Refused).Moved? && Transfer(h, amount, Refused).asset == h.MovedAsset();
    }
  }
}
