/**
 Running a transfer pipeline and resuming it (internal/pipeline/executor.go,
 internal/pipeline/pipeline.go, internal/pipeline/exchange_node.go).

 Answers of exchanges, chains and the bridge manager are arbitrary, and so is the
 time they take. A ghost journal holds what the pipeline asked and did since the
 last attempt at a step; every attempt keeps its own part of it.
 */
module Executor {
  import opened Options
  import opened PipelineRuns
  import opened Transfers
  import Histories

  const DEPOSIT_POLL := 30 * SECOND

  /** What ends a wait. */
  datatype Woken = ByCancel | ByTick | ByTimeout

  /** A place that holds money. Only the asset changes, and only while a call is under way. */
  class Node {
    const id: string
    const account: Account
    const defaultNetwork: string
    const tokenAddress: string
    var asset: string

    constructor (id: string, account: Account, defaultNetwork: string, tokenAddress: string, asset: string)
      ensures this.id == id && this.account == account && this.asset == asset
      ensures this.defaultNetwork == defaultNetwork && this.tokenAddress == tokenAddress
    {
      this.id, this.account, this.asset := id, account, asset;
      this.defaultNetwork, this.tokenAddress := defaultNetwork, tokenAddress;
    }

    function View(): Place
      reads this
    {
      Place(account, defaultNetwork, asset, tokenAddress)
    }

    predicate IsExchange() {
      account.Exchange?
    }
  }

  // ------------------------------------------------------------ facts about logs

  /** The log ends in a transfer that was accepted. */
  predicate EndsIn(log: Log, amount: real, txHash: string, bridgeId: string) {
    && log != [] && log[|log| - 1].Moved? && log[|log| - 1].amount == amount
    && log[|log| - 1].receipt == Accepted(txHash, bridgeId)
  }

  /** The event of a balance that was asked for. */
  function BalanceAnswer(account: Account, asset: string, r: Option<real>): Event {
    if r.Some? then Read(account, asset, r.value) else Unanswered(Balance)
  }

  function AddressAnswer(account: Account, asset: string, network: string, r: Option<Destination>): Event {
    if r.Some? then Addressed(account, asset, network, r.value) else Unanswered(DepositAddress)
  }

  /** An answer in the log after which an attempt at the step goes no further. */
  ghost predicate Halted(h: Hop, log: Log) {
    exists e :: e in log && Stops(h, e)
  }

  predicate NoneAccepted(log: Log) {
    forall e <- log :: e.Moved? ==> e.receipt.Refused?
  }

  /** The reasons for which a confirmation is given up. */
  predicate GivenUp(log: Log, bridgeId: string, cancelled: bool, clock: int, deadline: int) {
    cancelled || clock > deadline || BridgeReverted(bridgeId) in log
  }

  /** A transfer that was accepted, if there was one, was given up. */
  predicate AcceptedInVain(log: Log, cancelled: bool, clock: int, deadline: int) {
    forall e <- log :: e.Moved? && e.receipt.Accepted? ==> GivenUp(log, e.receipt.bridgeId, cancelled, clock, deadline)
  }

  /** Why nothing was accepted: no answer, a refusal, or a balance that falls short. */
  ghost predicate Fails(log: Log, account: Account, asset: string, amount: real) {
    || (exists e :: e in log && (e.Unanswered? || (e.Moved? && e.receipt.Refused?)))
    || FallsShort(log, account, asset, amount)
  }

  /** A balance asked for makes the step's amount, and one covers it. */
  ghost predicate Payable(h: Hop, asked: Log) {
    exists e :: e in asked && IsRead(e, h.from.account, h.from.asset) && AmountOf(h.Config(), e.balance).Some?
                && (var required := AmountOf(h.Config(), e.balance).value;
                    required <= 0.0 || Covered(asked, h.from.account, h.from.asset, required))
  }

  /** A required amount in the node's own asset must be held; in another asset it is checked on the way out. */
  predicate CanStart(h: Hop, held: real, required: real) {
    (h.Asset() != "" && h.Asset() != h.from.asset) || required <= 0.0 || held >= required
  }

  lemma PayableByHeld(h: Hop, first: Log, priced: Log, balance: Option<real>, required: real)
    requires h.Asset() == h.from.asset
    requires first == [BalanceAnswer(h.from.account, h.from.asset, balance)]
    requires Priced(h, false, priced, required)
    requires CanStart(h, if balance.Some? then balance.value else 0.0, required)
    ensures Payable(h, first + priced)
  {
    hide AmountOf, EdgeAsset;
    var e :| e in priced && IsRead(e, h.from.account, h.PricedAsset()) && PriceOf(h, false, e.balance) == Some(required);
    assert e in first + priced;
    if required > 0.0 {
      assert first[0] in first + priced;
    }
  }

  lemma PayableStays(h: Hop, asked: Log, more: Log)
    requires Payable(h, asked)
    ensures Payable(h, asked + more)
  {
    hide AmountOf, EdgeAsset;
    var e :| e in asked && IsRead(e, h.from.account, h.from.asset) && AmountOf(h.Config(), e.balance).Some?
             && (AmountOf(h.Config(), e.balance).value <= 0.0
                 || Covered(asked, h.from.account, h.from.asset, AmountOf(h.Config(), e.balance).value));
    assert e in asked + more;
    if AmountOf(h.Config(), e.balance).value > 0.0 {
      CoveredStays(asked, more, h.from.account, h.from.asset, AmountOf(h.Config(), e.balance).value);
    }
  }

  /** What the checks before a run found out: the first step can be paid in the node's asset, and every bridge is ready. */
  ghost predicate Checked(plan: Plan, hasBridge: bool, log: Log) {
    && (plan != [] && plan[0].given.Some? && plan[0].Asset() == plan[0].from.asset ==> Payable(plan[0], log))
    && ReadyUpTo(plan, hasBridge, log, |plan|)
  }

  lemma ChecksPass(plan: Plan, hasBridge: bool, before: Log, first: Log, read: Log, bridges: Log)
    requires before + first <= read
    requires plan != [] && plan[0].given.Some? && plan[0].Asset() == plan[0].from.asset ==> Payable(plan[0], first)
    requires ReadyUpTo(plan, hasBridge, bridges, |plan|)
    ensures Checked(plan, hasBridge, (read + bridges)[|before|..])
  {
    hide Payable, EdgeAsset;
    var rest := read[|before + first|..];
    assert (read + bridges)[|before|..] == (first + rest) + bridges;
    if plan != [] && plan[0].given.Some? && plan[0].Asset() == plan[0].from.asset {
      PayableStays(plan[0], first, rest);
      PayableStays(plan[0], first + rest, bridges);
    }
    assert forall e :: e in bridges ==> e in (first + rest) + bridges;
  }

  /** The bridges among the first `n` steps were found ready. */
  ghost predicate ReadyUpTo(plan: Plan, hasBridge: bool, log: Log, n: nat) {
    n <= |plan| && forall i :: 0 <= i < n && plan[i].NeedsBridge() ==> hasBridge && BridgeChecked(i, true) in log
  }

  lemma NoneReady(plan: Plan, hasBridge: bool)
    ensures ReadyUpTo(plan, hasBridge, [], 0) && NoneMoved([])
  {
  }

  lemma OneMoreReady(plan: Plan, hasBridge: bool, log: Log, more: Log, i: nat)
    requires i < |plan| && ReadyUpTo(plan, hasBridge, log, i)
    requires if plan[i].NeedsBridge() then hasBridge && more == log + [BridgeChecked(i, true)] else more == log
    ensures ReadyUpTo(plan, hasBridge, more, i + 1)
  {
    if plan[i].NeedsBridge() {
      assert more[|log|] == BridgeChecked(i, true);
      assert forall e :: e in log ==> e in more;
    }
  }

  /** The balance asked for was not answered or leaves no amount. */
  predicate NoAmount(h: Hop, asked: Log) {
    asked != [] && (asked[0] == BalanceAnswer(h.from.account, h.PricedAsset(), None)
                    || (IsRead(asked[0], h.from.account, h.PricedAsset()) && AmountOf(h.Config(), asked[0].balance).None?))
  }

  /** A balance in the log makes a positive amount of the step. */
  ghost predicate Ready(h: Hop, log: Log) {
    exists amount :: amount > 0.0 && Priced(h, false, log, amount)
  }

  /** One balance read makes the step ready exactly when its amount is positive. */
  lemma ReadyByOne(h: Hop, balance: Option<real>)
    requires !h.TakesUnchecked()
    ensures Ready(h, [BalanceAnswer(h.from.account, h.PricedAsset(), balance)]) <==>
            balance.Some? && AmountOf(h.Config(), balance.value).Some? && AmountOf(h.Config(), balance.value).value > 0.0
  {
    hide AmountOf, EdgeAsset;
    var asked := [BalanceAnswer(h.from.account, h.PricedAsset(), balance)];
    if balance.Some? && AmountOf(h.Config(), balance.value).Some? {
      assert asked[0] in asked;
      assert Priced(h, false, asked, AmountOf(h.Config(), balance.value).value);
    }
  }

  lemma NothingReadYet(h: Hop)
    ensures h.TakesUnchecked() || !Ready(h, [])
  {
  }

  lemma NotReadyYet(h: Hop, log: Log, more: Log)
    requires (h.TakesUnchecked() || !Ready(h, log)) && !Ready(h, more)
    ensures !Ready(h, log + more)
  {
    hide AmountOf, EdgeAsset;
    forall amount | Priced(h, false, log + more, amount)
      ensures Priced(h, false, more, amount) || (!h.TakesUnchecked() && Priced(h, false, log, amount))
    {
    }
  }

  /** Whether what was logged after `start` makes the step ready. */
  ghost predicate ReadySince(h: Hop, start: Log, log: Log) {
    start <= log && Ready(h, log[|start|..])
  }

  ghost predicate NotReadySince(h: Hop, start: Log, log: Log) {
    start <= log && !Ready(h, log[|start|..])
  }

  /** Nothing is ready so far; only a fixed amount of another asset needs no balance. */
  ghost predicate StillWaiting(h: Hop, start: Log, log: Log) {
    start <= log && (h.TakesUnchecked() || NotReadySince(h, start, log))
  }

  lemma StartsWaiting(h: Hop, start: Log)
    ensures StillWaiting(h, start, start)
  {
    assert start[|start|..] == [];
    NothingReadYet(h);
  }

  lemma KeepsWaiting(h: Hop, start: Log, log: Log, asked: Log)
    requires StillWaiting(h, start, log) && !Ready(h, asked)
    ensures NotReadySince(h, start, log + asked) && StillWaiting(h, start, log + asked)
  {
    hide Ready;
    NotReadyYet(h, log[|start|..], asked);
    assert (log + asked)[|start|..] == log[|start|..] + asked;
  }

  lemma BecomesReady(h: Hop, start: Log, log: Log, asked: Log, waited: Log)
    requires StillWaiting(h, start, log) && Ready(h, asked) && log + asked <= waited
    ensures ReadySince(h, start, waited)
  {
    hide Priced;
    var amount :| amount > 0.0 && Priced(h, false, asked, amount);
    var earlier, rest := log[|start|..], waited[|log + asked|..];
    PricedLater(h, earlier, asked, amount);
    PricedStays(h, false, earlier + asked, rest, amount);
    assert waited[|start|..] == (earlier + asked) + rest;
  }

  /** `e` reads less of the node's own asset than the amount required of it. */
  ghost predicate FallsBelow(h: Hop, log: Log, e: Event, required: real) {
    IsRead(e, h.from.account, h.from.asset) && Priced(h, false, log, required) && required > 0.0 && e.balance < required
  }

  /** The balance asked for leaves no amount, or the amount in the node's own asset is more than a balance read of it. */
  ghost predicate CannotStart(h: Hop, log: Log) {
    || (exists e :: e in log && e.Unanswered?)
    || (exists e :: e in log && IsRead(e, h.from.account, h.PricedAsset()) && AmountOf(h.Config(), e.balance).None?)
    || (h.Asset() in {"", h.from.asset} && exists e, required :: e in log && FallsBelow(h, log, e, required))
  }

  /** A bridge that there is no manager for, or that the manager did not find ready. */
  ghost predicate BridgeMissing(plan: Plan, hasBridge: bool, log: Log) {
    exists i: nat :: i < |plan| && plan[i].NeedsBridge() && (!hasBridge || BridgeChecked(i, false) in log)
  }

  /** What the checks before a run show when they turn it away. */
  ghost predicate TurnedAway(plan: Plan, hasBridge: bool, log: Log) {
    plan != [] && ((plan[0].given.Some? && CannotStart(plan[0], log)) || BridgeMissing(plan, hasBridge, log))
  }

  lemma CannotStartStays(h: Hop, log: Log, more: Log)
    requires CannotStart(h, log)
    ensures CannotStart(h, log + more)
  {
    hide AmountOf, Priced, EdgeAsset;
    assert forall e :: e in log ==> e in log + more;
    if h.Asset() in {"", h.from.asset} {
      if e, required :| e in log && FallsBelow(h, log, e, required) {
        PricedStays(h, false, log, more, required);
        assert FallsBelow(h, log + more, e, required);
      }
    }
  }

  lemma BridgeMissingLater(plan: Plan, hasBridge: bool, log: Log, more: Log)
    requires BridgeMissing(plan, hasBridge, more)
    ensures BridgeMissing(plan, hasBridge, log + more)
  {
    assert forall e :: e in more ==> e in log + more;
  }

  /** The first check fails on an amount that is not told, or on one that a balance, or none, does not cover. */
  lemma StartsShort(h: Hop, first: Log, priced: Log, balance: Option<real>, required: Option<real>)
    requires first == [BalanceAnswer(h.from.account, h.from.asset, balance)]
    requires required.Some? ==>
      Priced(h, false, priced, required.value) && !CanStart(h, if balance.Some? then balance.value else 0.0, required.value)
    requires required.None? ==> NoAmount(h, priced)
    ensures CannotStart(h, first + priced)
  {
    hide AmountOf, EdgeAsset;
    assert first[0] in first + priced;
    if required.None? {
      assert (first + priced)[1] == priced[0];
    } else if balance.Some? {
      PricedLater(h, first, priced, required.value);
      assert FallsBelow(h, first + priced, first[0], required.value);
    }
  }

  lemma PricedLater(h: Hop, log: Log, more: Log, amount: real)
    requires Priced(h, false, more, amount)
    ensures Priced(h, false, log + more, amount)
  {
    hide PriceOf;
    assert forall e :: e in more ==> e in log + more;
  }

  lemma Ends(log: Log, more: Log)
    ensures more != [] && more[|more| - 1].Moved? && more[|more| - 1].receipt.Accepted? ==>
      EndsIn(log + more, more[|more| - 1].amount, more[|more| - 1].receipt.txHash, more[|more| - 1].receipt.bridgeId)
  {
  }

  // ------------------------------------------------------------ reasons to stop

  /** Nothing was accepted, for a source that is not ready, a missing address or a failure. */
  ghost predicate Declined(more: Log, ready: bool, way: Way, account: Account, asset: string, amount: real) {
    NoneAccepted(more) && (!ready || way.destination.address == "" || Fails(more, account, asset, amount))
  }

  lemma UnansweredHalts(h: Hop, log: Log, question: Question)
    ensures Halted(h, log + [Unanswered(question)])
  {
    assert Unanswered(question) in log + [Unanswered(question)] && Stops(h, Unanswered(question));
  }

  lemma ClosedHalts(h: Hop, log: Log, listed: Log, network: string)
    requires h.Network() == Some(network) && !AllOpen(listed, network)
    ensures Halted(h, log + listed)
  {
    hide Closed, WithdrawNetwork;
    var e :| e in listed && e.Listed? && Closed(e.channels, network);
    assert e in log + listed && Stops(h, e);
  }

  lemma HaltedStops(h: Hop, forced: bool, log: Log, more: Log)
    requires Halted(h, more)
    ensures Stopped(h, forced, log + more)
  {
    hide Stops, NothingToSend, TooLittle;
    var e :| e in more && Stops(h, e);
    assert e in log + more;
  }

  lemma NothingStops(h: Hop, forced: bool, asked: Log)
    requires NothingToSend(h, forced, asked) || Halted(h, asked)
    requires OnlyReads(asked, h.from.account, h.PricedAsset())
    ensures Stopped(h, forced, asked) && LawfulLog(h, forced, asked) && NoneAccepted(asked)
  {
    QuietLog(h, forced, asked);
    hide NothingToSend, Stops, TooLittle, LawfulLog, Hop.Connected, Hop.PricedAsset;
    if Halted(h, asked) {
      assert [] + asked == asked;
      HaltedStops(h, forced, [], asked);
    }
  }

  lemma QuietlyStopped(h: Hop, forced: bool, log: Log, e: Event)
    requires Stopped(h, forced, log) && LawfulLog(h, forced, log) && NoneAccepted(log) && !e.Moved? && !e.Asked?
    ensures Stopped(h, forced, log + [e]) && LawfulLog(h, forced, log + [e]) && NoneAccepted(log + [e])
  {
    hide Stopped, LawfulLog;
    StoppedStays(h, forced, log, [e]);
    QuietStays(h, forced, log, [e]);
  }

  lemma NoWayStops(h: Hop, forced: bool, priced: Log, asked: Log)
    requires !h.Linked() || Halted(h, asked)
    requires NoneMoved(priced + asked)
    ensures Stopped(h, forced, priced + asked) && NoneAccepted(priced + asked)
  {
    hide Halted, Hop.Linked, Hop.SourceReady, NothingToSend, TooLittle;
    if h.Linked() {
      HaltedStops(h, forced, priced, asked);
    }
  }

  /** A transfer that was not accepted stops the attempt. */
  lemma FailsStops(h: Hop, forced: bool, log: Log, more: Log, amount: real, way: Way)
    requires Priced(h, forced, log, amount) && WayChecked(h, log, way) && NoneMoved(log)
    requires Declined(more, h.SourceReady(), way, h.from.account, h.MovedAsset(), amount)
    ensures Stopped(h, forced, log + more) && NoneAccepted(log + more)
  {
    hide NothingToSend, FallsShort, Priced, EdgeAsset, WithdrawNetwork, Closed, Hop.NeedsBridge, Hop.SourceReady;
    if !h.SourceReady() {
    } else if way.destination.address == "" {
      var e := Addressed(h.to.account, h.Asset(), way.network, way.destination);
      assert e in log + more && Stops(h, e);
    } else if e :| e in more && (e.Unanswered? || (e.Moved? && e.receipt.Refused?)) {
      assert e in log + more && Stops(h, e);
    } else {
      PricedStays(h, forced, log, more, amount);
      FallsShortLater(log, more, h.from.account, h.MovedAsset(), amount);
    }
  }

  lemma FailsLater(log: Log, more: Log, account: Account, asset: string, amount: real)
    ensures Fails(more, account, asset, amount) ==> Fails(log + more, account, asset, amount)
    ensures NoneAccepted(log) && NoneAccepted(more) ==> NoneAccepted(log + more)
  {
    hide FallsShort;
    if e :| e in more && (e.Unanswered? || (e.Moved? && e.receipt.Refused?)) {
      assert e in log + more;
    } else if FallsShort(more, account, asset, amount) {
      FallsShortLater(log, more, account, asset, amount);
    }
  }

  lemma ShortOf(first: Event, amount: real)
    requires first.Read? && first.balance < amount
    ensures FallsShort([first], first.account, first.asset, amount)
  {
    assert first in [first] && IsRead(first, first.account, first.asset);
  }

  /** The answers to a wallet's two questions: what it sends, and whether its tokens cover that. */
  lemma TokensAnswer(account: Account, asset: string, amount: real, decimals: nat, tokens: real)
    ensures var more, sent := [UnitsRead(account, asset, decimals), Read(account, asset, tokens)], Sendable(amount, decimals);
      && IsSendable(more, account, asset, amount, sent)
      && (sent <= tokens ==> Covered(more, account, asset, sent))
      && (sent > tokens ==> FallsShort(more, account, asset, amount))
  {
    hide Sendable;
    var more, sent := [UnitsRead(account, asset, decimals), Read(account, asset, tokens)], Sendable(amount, decimals);
    assert more[0] in more && more[1] in more;
    assert IsSendable(more, account, asset, amount, sent);
    hide IsSendable;
  }

  lemma GivenUpStops(h: Hop, forced: bool, log: Log, asked: Log, asset: string, txHash: string, bridgeId: string,
                     cancelled: bool, clock: int, deadline: int)
    requires log != [] && NoneMoved(log[..|log| - 1])
    requires log[|log| - 1].Moved? && log[|log| - 1].receipt == Accepted(txHash, bridgeId)
    requires Answers(asked, h.from.account, asset, txHash, bridgeId) && GaveUp in asked
    requires GivenUp(asked, bridgeId, cancelled, clock, deadline)
    ensures Stopped(h, forced, log + asked) && AcceptedInVain(log + asked, cancelled, clock, deadline)
  {
    assert Stops(h, GaveUp);
    HaltedStops(h, forced, log, asked);
    hide Stopped;
    assert log == log[..|log| - 1] + [log[|log| - 1]];
    assert forall e <- log + asked :: e.Moved? ==> e == log[|log| - 1];
    assert BridgeReverted(bridgeId) in asked ==> BridgeReverted(bridgeId) in log + asked;
  }

  // ------------------------------------------------------------ growing a log

  lemma QuietLog(h: Hop, forced: bool, log: Log)
    requires forall e <- log :: !e.Moved? && !e.Asked?
    ensures LawfulLog(h, forced, log)
  {
    assert forall i :: 0 <= i < |log| ==> log[i] in log;
  }

  lemma ReadyToSend(h: Hop, forced: bool, priced: Log, asked: Log, amount: real)
    requires Priced(h, forced, priced, amount) && OnlyReads(priced, h.from.account, h.PricedAsset())
    requires forall e <- asked :: !e.Moved? && !e.Asked?
    ensures LawfulLog(h, forced, priced + asked) && NoneMoved(priced + asked) && Priced(h, forced, priced + asked, amount)
  {
    hide Priced, LawfulLog;
    QuietLog(h, forced, priced + asked);
    PricedStays(h, forced, priced, asked, amount);
  }

  lemma WayFound(h: Hop, first: Log, second: Log, answer: Event, way: Way)
    requires Some(way.network) == h.Network()
    requires WasListed(first, h.from, h.Asset()) && AllOpen(first, way.network)
    requires WasListed(second, h.to, h.Asset()) && AllOpen(second, way.network)
    requires answer == Addressed(h.to.account, h.Asset(), way.network, way.destination)
    requires h.to.account.Wallet? ==> way.destination == Destination(h.to.account.address, "")
    ensures WayChecked(h, (first + second) + [answer], way)
  {
    hide Closed, EdgeAsset, WithdrawNetwork;
    var log := (first + second) + [answer];
    ListedStays(first, second, h.from, h.Asset());
    ListedStays(first + second, [answer], h.from, h.Asset());
    if h.to.IsExchange() {
      var e :| e in second && e.Listed? && e.account == h.to.account && e.asset == h.Asset();
      assert e in log;
    }
    assert answer in log;
  }

  lemma WayStaysChecked(h: Hop, priced: Log, asked: Log, way: Way)
    requires WayChecked(h, asked, way) && OnlyReads(priced, h.from.account, h.PricedAsset())
    ensures WayChecked(h, priced + asked, way)
  {
    hide Closed, EdgeAsset, WithdrawNetwork;
    assert forall e <- asked :: e in priced + asked;
  }

  lemma SendsThis(asks: Log, move: Event, account: Account, asset: string, amount: real, way: Way)
    requires OnlyReads(asks, account, asset)
    requires move.Moved? && move.account == account && move.asset == asset && move.amount == amount && !move.bridged
    requires move.network == way.network && move.destination == way.destination
    requires move.receipt.Accepted? ==> move.receipt.bridgeId == ""
    requires if account.Exchange? then move.sent == amount
             else IsSendable(asks, account, asset, amount, move.sent) && Covered(asks, account, asset, move.sent)
    ensures Sends(asks + [move], account, asset, amount, way)
  {
    hide IsSendable, Covered;
    var more := asks + [move];
    assert more[..|more| - 1] == asks;
  }

  lemma SendsAfterRead(first: Event, rest: Log, account: Account, asset: string, amount: real, way: Way)
    requires IsRead(first, account, asset)
    ensures OnlyReads(rest, account, asset) ==> OnlyReads([first] + rest, account, asset)
    ensures Sends(rest, account, asset, amount, way) ==>
      Sends([first] + rest, account, asset, amount, way)
      && (amount <= first.balance ==> Covered(([first] + rest)[..|[first] + rest| - 1], account, asset, amount))
  {
    hide IsSendable;
    var all := [first] + rest;
    if Sends(rest, account, asset, amount, way) {
      var asks := all[..|all| - 1];
      assert asks == [first] + rest[..|rest| - 1];
      assert all[|all| - 1] == rest[|rest| - 1];
      assert first in asks;
      if !account.Exchange? {
        CoveredInMore([first], rest[..|rest| - 1], account, asset, rest[|rest| - 1].sent);
        SendableInMore([first], rest[..|rest| - 1], account, asset, amount, rest[|rest| - 1].sent);
      }
    }
  }

  lemma SendsUnasked(more: Log, account: Account, asset: string, amount: real, way: Way)
    requires OnlyReads(more, account, asset) || Sends(more, account, asset, amount, way)
    ensures Unasked(more)
  {
    hide IsSendable, Covered;
    if !OnlyReads(more, account, asset) {
      assert more == more[..|more| - 1] + [more[|more| - 1]];
    }
  }

  lemma UnaskedJoined(log: Log, more: Log)
    requires Unasked(log) && Unasked(more)
    ensures Unasked(log + more)
  {
  }

  /** Whether or not anything was sent, the log is lawful. */
  lemma SendsOrNot(h: Hop, forced: bool, log: Log, more: Log, amount: real, way: Way)
    requires LawfulLog(h, forced, log) && NoneMoved(log) && Priced(h, forced, log, amount) && amount > 0.0
    requires !h.NeedsBridge() && h.Linked() && WayChecked(h, log, way)
    requires h.SourceReady() || OnlyReads(more, h.from.account, h.MovedAsset())
    requires OnlyReads(more, h.from.account, h.MovedAsset()) || Sends(more, h.from.account, h.MovedAsset(), amount, way)
    requires Sends(more, h.from.account, h.MovedAsset(), amount, way) && h.from.IsExchange() && h.Asset() != h.from.asset ==>
      Covered(more[..|more| - 1], h.from.account, h.MovedAsset(), amount)
    ensures LawfulLog(h, forced, log + more)
  {
    hide LawfulLog, Priced, WayChecked, EdgeAsset;
    if OnlyReads(more, h.from.account, h.MovedAsset()) {
      QuietStays(h, forced, log, more);
    } else {
      var asks := more[..|more| - 1];
      if h.from.IsExchange() {
        if h.Asset() == h.from.asset {
          PricedIsCovered(h, forced, log, amount);
          CoveredStays(log, asks, h.from.account, h.MovedAsset(), amount);
        } else {
          CoveredInMore(log, asks, h.from.account, h.MovedAsset(), amount);
        }
      }
      SentLawfully(h, forced, log, more, amount, way);
    }
  }

  lemma BridgeUnanswered(h: Hop, forced: bool, priced: Log, asked: Log, question: Question, amount: real)
    requires Priced(h, forced, priced, amount) && OnlyReads(priced, h.from.account, h.PricedAsset())
    requires forall e <- asked :: e.Addressed?
    ensures var log := (priced + asked) + [Unanswered(question)];
      LawfulLog(h, forced, log) && Stopped(h, forced, log) && NoneAccepted(log)
  {
    hide LawfulLog, Priced, Stopped;
    ReadyToSend(h, forced, priced, asked, amount);
    QuietStays(h, forced, priced + asked, [Unanswered(question)]);
    UnansweredHalts(h, [], question);
    assert [] + [Unanswered(question)] == [Unanswered(question)];
    HaltedStops(h, forced, priced + asked, [Unanswered(question)]);
  }

  /**
   The log goes on after `priced` without asking about a transfer; only without a bridge manager does it say so, and
   then nothing moves.
   */
  predicate ByManager(priced: Log, log: Log, hasBridge: bool) {
    && priced <= log && Unasked(log)
    && (if hasBridge then Unanswered(BridgeManager) !in log[|priced|..] else NoneMoved(log))
  }

  lemma AskedByManager(priced: Log, more: Log, hasBridge: bool, account: Account, asset: string)
    requires OnlyReads(priced, account, asset)
    requires forall e <- more ::
      e.Addressed? || (e.Moved? && hasBridge) || (e.Unanswered? && (hasBridge ==> !e.question.BridgeManager?))
    ensures ByManager(priced, priced + more, hasBridge)
  {
    assert (priced + more)[|priced|..] == more;
  }

  lemma RefusedStops(h: Hop, forced: bool, log: Log, move: Event)
    requires move.Moved? && move.receipt.Refused? && NoneMoved(log)
    ensures Stopped(h, forced, log + [move]) && NoneAccepted(log + [move])
  {
    assert move in [move] && Stops(h, move);
    hide Stopped;
    HaltedStops(h, forced, log, [move]);
  }

  lemma BridgedLawfully(h: Hop, forced: bool, priced: Log, there: Event, here: Event, amount: real, receipt: Receipt)
    requires h.NeedsBridge() && amount > 0.0 && Priced(h, forced, priced, amount)
    requires OnlyReads(priced, h.from.account, h.PricedAsset()) && h.from.Configured() && h.to.Configured()
    requires there == Addressed(h.to.account, EdgeAsset(h.Config(), h.to.asset), "", Destination(h.to.account.address, ""))
    requires here == Addressed(h.from.account, h.Asset(), "", Destination(h.from.account.address, ""))
    ensures LawfulLog(h, forced, (priced + [there, here]) +
              [Moved(h.from.account, h.Asset(), amount, Bridgeable(amount), "", there.destination, true, receipt)])
  {
    hide LawfulLog, Priced, EdgeAsset, Bridgeable, WithdrawNetwork;
    var log := priced + [there, here];
    ReadyToSend(h, forced, priced, [there, here], amount);
    if h.Asset() == h.from.asset {
      PricedIsCovered(h, forced, log, amount);
    }
    assert log[|priced|] == there && log[|priced| + 1] == here;
    assert Answered(log, h.from, h.Asset(), "", here.destination);
    OneMoreEvent(h, forced, log,
      Moved(h.from.account, h.Asset(), amount, Bridgeable(amount), "", there.destination, true, receipt));
  }

  // ------------------------------------------------------------ confirming

  /** A balance read now is above an earlier one by nearly the amount. */
  ghost predicate Arrived(asked: Log, account: Account, asset: string, before: Option<real>, amount: real) {
    before.Some? && exists e :: e in asked && IsRead(e, account, asset) && e.balance - before.value >= amount * ARRIVED_SHARE
  }

  /** An answer of the source that the transfer went through. */
  predicate ConfirmedIn(asked: Log, account: Account, txHash: string) {
    exists e :: e in asked && Says(e, Histories.Done) && e.account == account && e.txHash == txHash
  }

  /** No answer is positive. */
  predicate NonePositive(asked: Log) {
    forall e <- asked :: !Says(e, Histories.Done) && (e.BridgeAsked? ==> e.answer != Some(true))
  }

  /** The bridge's answer decides; where it says not yet, a balance read before decides by whether it rose by nearly the amount. */
  predicate BridgeDecides(asked: Log, answer: Option<bool>, to: Place, before: Option<real>, amount: real) {
    && asked != [] && asked[0].BridgeAsked?
    && (if asked[0].answer == Some(false) && before.Some?
        then && |asked| == 2 && answer.Some? && (asked[1] == Unanswered(Balance) || IsRead(asked[1], to.account, to.asset))
             && (answer.value <==> asked[1].Read? && asked[1].balance - before.value >= amount * ARRIVED_SHARE)
        else answer == asked[0].answer)
  }

  predicate NoneReverted(log: Log) {
    forall e <- log :: !e.BridgeReverted?
  }

  /** A reverted bridge ends the polling: after it nothing is logged but that the confirmation is given up. */
  predicate RevertEndsIt(log: Log) {
    NoneReverted(log) || (|log| >= 2 && NoneReverted(log[..|log| - 2]) && log[|log| - 1].GaveUp?)
  }

  lemma NoneRevertedJoined(log: Log, more: Log)
    requires NoneReverted(log) && NoneReverted(more)
    ensures NoneReverted(log + more)
  {
  }

  /** What one round that does not confirm has asked: for want of a positive answer, or of the depth that the edge asks for. */
  predicate Inconclusive(more: Log, from: Place, edge: Edge) {
    if edge.confirmations > 0 && !from.IsExchange() then forall e <- more :: e.DepthAsked? ==> e.answer != Some(true)
    else NonePositive(more)
  }

  lemma ReadsAreInconclusive(asked: Log, from: Place, edge: Edge)
    requires forall e <- asked :: e.Read? || e.Unanswered? || e.GaveUp?
    ensures Inconclusive(asked, from, edge)
  {
  }

  lemma NotDeepIsInconclusive(status: Log, depth: Log, from: Place, edge: Edge)
    requires edge.confirmations > 0 && !from.IsExchange() && forall e <- status :: !e.DepthAsked?
    requires forall e <- depth :: e.DepthAsked? && e.answer != Some(true)
    ensures Inconclusive(status + depth, from, edge)
  {
  }

  lemma InconclusiveJoined(log: Log, more: Log, from: Place, edge: Edge)
    requires Inconclusive(log, from, edge) && Inconclusive(more, from, edge)
    ensures Inconclusive(log + more, from, edge)
  {
    hide Histories.StatusIn;
  }

  lemma InconclusiveConfirmsNothing(h: Hop, asked: Log, asking: Place)
    requires Inconclusive(asked, asking, h.Config()) && asking.account == h.from.account
    ensures NothingConfirms(h, asked)
  {
    hide Histories.StatusIn;
  }

  /** A positive answer among those asked for, or a balance that rose by nearly the amount; and deep enough. */
  ghost predicate Confirms(asked: Log, from: Place, target: Account, txHash: string, bridgeId: string, edge: Edge, amount: real) {
    && (edge.confirmations > 0 && !from.IsExchange() ==> DepthAsked(from.account, txHash, edge.confirmations, Some(true)) in asked)
    && if bridgeId == "" then ConfirmedIn(asked, from.account, txHash)
       else BridgeAsked(bridgeId, Some(true)) in asked || Rose(asked, target, amount)
  }

  lemma BlankAsset(h: Hop)
    ensures h.Asset() == "" ==> h.from.asset == ""
  {
  }

  lemma BalanceIsAnswer(asked: Log, account: Account, asset: string, txHash: string, bridgeId: string)
    requires forall e <- asked :: e.Read? || e.Unanswered?
    ensures Answers(asked, account, asset, txHash, bridgeId)
  {
  }

  lemma MoreAnswers(earlier: Log, more: Log, account: Account, asset: string, txHash: string, bridgeId: string)
    requires Answers(earlier, account, asset, txHash, bridgeId) && Answers(more, account, asset, txHash, bridgeId)
    ensures Answers(earlier + more, account, asset, txHash, bridgeId)
  {
  }

  lemma DepthIsAnswer(more: Log, depth: Log, account: Account, asset: string, txHash: string, bridgeId: string)
    requires Answers(more, account, asset, txHash, bridgeId)
    requires forall e <- depth :: e.DepthAsked? && e.account == account && e.txHash == txHash
    ensures Answers(more + depth, account, asset, txHash, bridgeId)
  {
  }

  lemma GivingUpAnswers(asked: Log, account: Account, asset: string, txHash: string, bridgeId: string)
    requires Answers(asked, account, asset, txHash, bridgeId)
    ensures Answers(asked + [GaveUp], account, asset, txHash, bridgeId)
  {
  }

  /** The answers of one round of polling confirm the transfer. */
  ghost predicate Positive(more: Log, from: Place, to: Place, txHash: string, bridgeId: string, edge: Edge,
                           before: Option<real>, amount: real) {
    && (edge.confirmations > 0 && !from.IsExchange() ==> DepthAsked(from.account, txHash, edge.confirmations, Some(true)) in more)
    && if bridgeId == "" then ConfirmedIn(more, from.account, txHash)
       else BridgeAsked(bridgeId, Some(true)) in more || Arrived(more, to.account, to.asset, before, amount)
  }

  lemma PositiveBy(status: Log, depth: Log, from: Place, to: Place, txHash: string, bridgeId: string, edge: Edge,
                   before: Option<real>, amount: real)
    requires edge.confirmations > 0 && !from.IsExchange() ==>
      DepthAsked(from.account, txHash, edge.confirmations, Some(true)) in depth
    requires if bridgeId == "" then ConfirmedIn(status, from.account, txHash)
             else BridgeAsked(bridgeId, Some(true)) in status || Arrived(status, to.account, to.asset, before, amount)
    ensures Positive(status + depth, from, to, txHash, bridgeId, edge, before, amount)
  {
    assert forall e <- status :: e in status + depth;
    assert forall e <- depth :: e in status + depth;
  }

  lemma ConfirmedBy(earlier: Log, more: Log, from: Place, to: Place, txHash: string, bridgeId: string, edge: Edge,
                    before: Option<real>, amount: real)
    requires before.Some? ==> earlier != [] && earlier[0] == Read(to.account, to.asset, before.value)
    requires Positive(more, from, to, txHash, bridgeId, edge, before, amount)
    ensures Confirms(earlier + more, from, to.account, txHash, bridgeId, edge, amount)
  {
    var all := earlier + more;
    if bridgeId != "" && BridgeAsked(bridgeId, Some(true)) !in more {
      var e :| e in more && IsRead(e, to.account, to.asset) && e.balance - before.value >= amount * ARRIVED_SHARE;
      var j :| 0 <= j < |more| && more[j] == e;
      assert all[0] == earlier[0] && all[|earlier| + j] == e;
      assert Rose(all, to.account, amount);
    }
  }

  /** Before a bridge is polled the balance it should raise is asked for. */
  predicate BalanceFirst(asked: Log, to: Place, bridgeId: string) {
    bridgeId != "" ==> asked != [] && (asked[0] == Unanswered(Balance) || IsRead(asked[0], to.account, to.asset))
  }

  /** What polling without a result so far has asked. */
  ghost predicate Polled(asked: Log, from: Place, to: Place, txHash: string, bridgeId: string, edge: Edge, before: Option<real>) {
    && Answers(asked, from.account, from.asset, txHash, bridgeId) && Inconclusive(asked, from, edge) && NoneReverted(asked)
    && (if bridgeId == "" then before.None? else asked != [] && asked[0] == BalanceAnswer(to.account, to.asset, before))
  }

  /** What polling that is given up has asked. */
  ghost predicate PolledInVain(asked: Log, from: Place, to: Place, txHash: string, bridgeId: string, edge: Edge) {
    && Answers(asked, from.account, from.asset, txHash, bridgeId) && Inconclusive(asked, from, edge)
    && RevertEndsIt(asked) && BalanceFirst(asked, to, bridgeId)
  }

  lemma PolledAtFirst(asked: Log, from: Place, to: Place, txHash: string, bridgeId: string, edge: Edge, before: Option<real>)
    requires if bridgeId == "" then asked == [] && before.None? else asked == [BalanceAnswer(to.account, to.asset, before)]
    ensures Polled(asked, from, to, txHash, bridgeId, edge, before)
  {
    BalanceIsAnswer(asked, from.account, from.asset, txHash, bridgeId);
    ReadsAreInconclusive(asked, from, edge);
  }

  lemma PolledOn(asked: Log, more: Log, from: Place, to: Place, txHash: string, bridgeId: string, edge: Edge,
                 before: Option<real>)
    requires Polled(asked, from, to, txHash, bridgeId, edge, before)
    requires Answers(more, from.account, from.asset, txHash, bridgeId) && Inconclusive(more, from, edge) && NoneReverted(more)
    ensures Polled(asked + more, from, to, txHash, bridgeId, edge, before)
  {
    hide Answers, Inconclusive;
    MoreAnswers(asked, more, from.account, from.asset, txHash, bridgeId);
    InconclusiveJoined(asked, more, from, edge);
  }

  /** Polling ends with nothing more, or with a reverted bridge. */
  lemma PollingEnds(asked: Log, more: Log, from: Place, to: Place, txHash: string, bridgeId: string, edge: Edge,
                    before: Option<real>)
    requires Polled(asked, from, to, txHash, bridgeId, edge, before)
    requires Answers(more, from.account, from.asset, txHash, bridgeId) && Inconclusive(more, from, edge)
    requires more in {[], [BridgeReverted(bridgeId)]}
    ensures PolledInVain((asked + more) + [GaveUp], from, to, txHash, bridgeId, edge)
  {
    hide Answers, Inconclusive;
    MoreAnswers(asked, more, from.account, from.asset, txHash, bridgeId);
    GivingUpAnswers(asked + more, from.account, from.asset, txHash, bridgeId);
    InconclusiveJoined(asked, more, from, edge);
    ReadsAreInconclusive([GaveUp], from, edge);
    InconclusiveJoined(asked + more, [GaveUp], from, edge);
    var log := (asked + more) + [GaveUp];
    if more == [] {
      assert NoneReverted(log);
    } else {
      assert log[..|log| - 2] == asked;
    }
  }

  lemma PollingConfirms(asked: Log, more: Log, from: Place, to: Place, txHash: string, bridgeId: string, edge: Edge,
                        before: Option<real>, amount: real)
    requires Polled(asked, from, to, txHash, bridgeId, edge, before) && NoneReverted(more)
    requires Answers(more, from.account, from.asset, txHash, bridgeId)
    requires Positive(more, from, to, txHash, bridgeId, edge, before, amount)
    ensures Answers(asked + more, from.account, from.asset, txHash, bridgeId) && NoneReverted(asked + more)
    ensures Confirms(asked + more, from, to.account, txHash, bridgeId, edge, amount) && BalanceFirst(asked + more, to, bridgeId)
  {
    hide Answers, Inconclusive, Positive, Confirms;
    MoreAnswers(asked, more, from.account, from.asset, txHash, bridgeId);
    NoneRevertedJoined(asked, more);
    ConfirmedBy(asked, more, from, to, txHash, bridgeId, edge, before, amount);
  }

  lemma Delivered(h: Hop, sent: Log, asked: Log, asking: Place, txHash: string, bridgeId: string, amount: real)
    requires EndsIn(sent, amount, txHash, bridgeId) && NoneMoved(sent[..|sent| - 1])
    requires asking.account == h.from.account
    requires Answers(asked, h.from.account, asking.asset, txHash, bridgeId)
    requires Confirms(asked, asking, h.to.account, txHash, bridgeId, h.Config(), amount)
    ensures DeliveredAt(h, sent + asked, txHash, |sent| - 1)
  {
    hide Rose;
    var log, i := sent + asked, |sent| - 1;
    assert log[..i] == sent[..i] && log[i + 1..] == asked && log[i] == sent[i];
  }

  // ------------------------------------------------------------ sessions

  lemma Begins(h: seq<Snapshot>, plan: Plan)
    requires |h| == 2 && Ran(h[0], h[1], plan)
    ensures Session(h, plan)
  {
  }

  /** A session ends in success, or in a failure at a step that is on the path. */
  lemma SessionEnds(h: seq<Snapshot>, plan: Plan)
    requires Session(h, plan) && plan != []
    ensures var last := h[|h| - 1];
            last.status.Completed? || (last.status.Failed? && FailedIndex(last) < |plan|)
  {
    hide InTurn, Successes;
    StepsSucceedOnceInOrder(h, plan);
  }

  class Pipeline {
    var nodes: seq<Node>
    var edges: map<string, Edge>
    var hasBridge: bool
    var status: Status
    var currentStep: int
    var lastStepTxHash: map<int, string>
    var clock: int
    /** Whether the pipeline's context has been cancelled; it can be at any moment, and stays so. */
    var cancelled: bool
    ghost var journal: Log
    ghost var attempts: seq<Attempt>

    constructor (nodes: seq<Node>)
      ensures this.nodes == nodes && edges == map[] && journal == []
      ensures Shown() == Snapshot(Idle, 0, map[], [])
    {
      this.nodes, edges, hasBridge := nodes, map[], false;
      status, currentStep, lastStepTxHash := Idle, 0, map[];
      clock, cancelled := 0, false;
      journal, attempts := [], [];
    }

    ghost function Shown(): Snapshot
      reads this
    {
      Snapshot(status, currentStep, lastStepTxHash, attempts)
    }

    // ---------------------------------------------------------- the path

    function Source(step: nat): Node
      requires step + 1 < |nodes|
      reads this`nodes
    {
      nodes[step]
    }

    function Target(step: nat): Node
      requires step + 1 < |nodes|
      reads this`nodes
    {
      nodes[step + 1]
    }

    function EdgeKey(step: nat): string
      requires step + 1 < |nodes|
      reads this`nodes
    {
      Source(step).id + "->" + Target(step).id
    }

    function HopAt(step: nat): Hop
      requires step + 1 < |nodes|
      reads this`nodes, this`edges, nodes
    {
      Hop(Source(step).View(), Target(step).View(),
          if EdgeKey(step) in edges then Some(edges[EdgeKey(step)]) else None)
    }

    function StepCount(): nat
      reads this`nodes
    {
      if nodes == [] then 0 else |nodes| - 1
    }

    /** The first `n` steps of the path as they are configured. */
    ghost function PlanUpTo(n: nat): (plan: Plan)
      requires n <= StepCount()
      reads this`nodes, this`edges, nodes
      ensures |plan| == n && forall i :: 0 <= i < n ==> plan[i] == HopAt(i)
    {
      if n == 0 then [] else PlanUpTo(n - 1) + [HopAt(n - 1)]
    }

    ghost function CurrentPlan(): (plan: Plan)
      reads this`nodes, this`edges, nodes
      ensures |plan| == StepCount() && forall i :: 0 <= i < |plan| ==> plan[i] == HopAt(i)
    {
      PlanUpTo(StepCount())
    }

    /** Every step of the plan starts where the one before it ends. */
    lemma PlanIsAPath(i: nat)
      requires i + 1 < |CurrentPlan()|
      ensures CurrentPlan()[i].to == CurrentPlan()[i + 1].from
    {
    }

    ghost function AllNodes(): set<Node>
      reads this`nodes
    {
      set n | n in nodes
    }

    /** Nodes and edges are as they were, every asset is back, and nothing moved outside an attempt. */
    twostate predicate Kept()
      reads this`nodes, this`edges, this`journal, nodes
    {
      unchanged(this`nodes, this`edges) && (forall n <- nodes :: n.asset == old(n.asset)) && NoneMoved(journal)
    }

    // ---------------------------------------------------------- the outside world

    /** Any answer, after any time. */
    method Reply<T(0)>() returns (answer: T)
      modifies this`clock
      ensures clock >= old(clock)
    {
      var now :| now >= clock;
      clock, answer := now, *;
    }

    /** Wait for the context, a tick due at `due` or the time `until`; whichever is served first may be served late. */
    method Wait(due: int, until: int) returns (w: Woken)
      modifies this`clock, this`cancelled
      ensures clock >= old(clock) && (old(cancelled) ==> cancelled)
      ensures w.ByCancel? ==> cancelled
      ensures w.ByTick? ==> clock >= due
      ensures w.ByTimeout? ==> clock >= until
    {
      w := Reply();
      match w {
        case ByCancel => cancelled := true;
        case ByTick =>
          var now :| now >= clock && now >= due;
          clock := now;
        case ByTimeout =>
          var now :| now >= clock && now >= until;
          clock := now;
      }
    }

    method GetAvailableBalance(node: Node) returns (r: Option<real>)
      modifies this`journal, this`clock
      ensures clock >= old(clock) && journal == old(journal) + [BalanceAnswer(node.account, node.asset, r)]
    {
      r := Reply();
      journal := journal + [BalanceAnswer(node.account, node.asset, r)];
    }

    /** A wallet names its own address; an exchange is asked for one, by asset and network. */
    method GetDepositAddress(node: Node, asset: string, network: string) returns (r: Option<Destination>)
      modifies this`journal, this`clock
      ensures clock >= old(clock) && journal == old(journal) + [AddressAnswer(node.account, asset, network, r)]
      ensures r.Some? && node.account.Wallet? ==>
        r.value == Destination(node.account.address, "") && node.View().Configured()
    {
      r := Reply();
      if node.account.Wallet? {
        r := if r.Some? && node.View().Configured() then Some(Destination(node.account.address, "")) else None;
      }
      journal := journal + [AddressAnswer(node.account, asset, network, r)];
    }

    /** Anything else a step needs before it can go on. */
    method Obtain(question: Question) returns (ok: bool)
      modifies this`journal, this`clock
      ensures clock >= old(clock) && journal == old(journal) + if ok then [] else [Unanswered(question)]
    {
      ok := Reply();
      if !ok {
        journal := journal + [Unanswered(question)];
      }
    }

    // ---------------------------------------------------------- amounts

    /** The balance an edge can spend; an exchange is asked in the edge's asset, under a temporary switch. */
    method AvailableForEdge(step: nat) returns (r: Option<real>)
      requires step + 1 < |nodes|
      modifies Source(step)`asset, this`journal, this`clock
      ensures unchanged(Source(step)) && clock >= old(clock)
      ensures var h := HopAt(step); journal == old(journal) + [BalanceAnswer(h.from.account, h.PricedAsset(), r)]
    {
      var node, asset := Source(step), HopAt(step).Asset();
      if node.IsExchange() && asset != "" && asset != node.asset {
        var saved := node.asset;
        node.asset := asset;
        r := GetAvailableBalance(node);
        node.asset := saved;
      } else {
        r := GetAvailableBalance(node);
      }
    }

    method CalculateAmount(step: nat) returns (r: Option<real>, ghost asked: Log)
      requires step + 1 < |nodes|
      modifies Source(step)`asset, this`journal, this`clock
      ensures unchanged(Source(step)) && clock >= old(clock) && journal == old(journal) + asked
      ensures OnlyReads(asked, Source(step).account, HopAt(step).PricedAsset())
      ensures r.Some? ==> Priced(HopAt(step), false, asked, r.value)
      ensures r.None? || r.value <= 0.0 ==> NothingToSend(HopAt(step), false, asked) || Halted(HopAt(step), asked)
      ensures HopAt(step).TakesUnchecked() ==> r == Some(HopAt(step).Config().amount)
      ensures r.None? ==> NoAmount(HopAt(step), asked)
      ensures Ready(HopAt(step), asked) <==> r.Some? && r.value > 0.0
      ensures asked != [] && asked[0].Read? ==> r == AmountOf(HopAt(step).Config(), asked[0].balance)
    {
      var h := HopAt(step);
      asked := [];
      if h.TakesUnchecked() {
        assert Priced(h, false, asked, h.Config().amount);
        return Some(h.Config().amount), asked;
      }
      var available := AvailableForEdge(step);
      asked := [BalanceAnswer(h.from.account, h.PricedAsset(), available)];
      assert asked[0] in asked;
      ReadyByOne(h, available);
      if available.None? {
        return None, asked;
      }
      r := AmountOf(h.Config(), available.value);
    }

    /** The amount of a step: everything available when forced, otherwise what the edge says. */
    method StepAmount(step: nat, forceAll: bool) returns (r: Option<real>, ghost asked: Log)
      requires step + 1 < |nodes|
      modifies Source(step)`asset, this`journal, this`clock
      ensures unchanged(Source(step)) && clock >= old(clock) && journal == old(journal) + asked
      ensures OnlyReads(asked, Source(step).account, HopAt(step).PricedAsset())
      ensures r.Some? ==> Priced(HopAt(step), forceAll, asked, r.value)
      ensures r.None? || r.value <= 0.0 ==> NothingToSend(HopAt(step), forceAll, asked) || Halted(HopAt(step), asked)
    {
      if forceAll {
        r := AvailableForEdge(step);
        asked := [BalanceAnswer(Source(step).account, HopAt(step).PricedAsset(), r)];
        assert asked[0] in asked;
      } else {
        r, asked := CalculateAmount(step);
      }
    }

    // ---------------------------------------------------------- finding a way

    /** Ask an exchange for the channels of an asset; no listing and an empty one let the transfer go on. */
    method ChannelAllows(node: Node, asset: string, network: string) returns (ok: bool, ghost asked: Log)
      modifies this`journal, this`clock
      ensures clock >= old(clock) && journal == old(journal) + asked
      ensures forall e <- asked :: e.Listed?
      ensures WasListed(asked, node.View(), asset) && (ok <==> AllOpen(asked, network))
    {
      ok, asked := true, [];
      if node.IsExchange() {
        var listed: Option<seq<Channel>> := Reply();
        asked := [Listed(node.account, asset, listed)];
        journal := journal + asked;
        ok := Open(listed, network);
        assert asked[0] in asked;
      }
    }

    /**
     Where to send, once both ends can take part, no listing closes the network and the target has answered. There
     is no way only for settings that do not connect the ends, a closed channel or a question left unanswered.
     */
    method FindWay(step: nat) returns (way: Option<Way>, ghost asked: Log)
      requires step + 1 < |nodes| && !HopAt(step).NeedsBridge()
      modifies this`journal, this`clock
      ensures clock >= old(clock) && journal == old(journal) + asked
      ensures forall e <- asked :: e.Listed? || e.Addressed? || e.Unanswered?
      ensures way.Some? ==> HopAt(step).Linked() && WayChecked(HopAt(step), asked, way.value)
      ensures way.Some? ==> AsksFor(HopAt(step), way.value.network)
      ensures way.None? ==> !HopAt(step).Linked() || Halted(HopAt(step), asked)
    {
      hide EdgeAsset, WithdrawNetwork, AsksFor, Closed, WayChecked, AllOpen, Hop.NeedsBridge;
      way, asked := None, [];
      var from, to, h := Source(step), Target(step), HopAt(step);
      var ready := Obtain(Capability);
      if !ready {
        asked := [Unanswered(Capability)];
        UnansweredHalts(h, [], Capability);
        return;
      }
      if !from.View().Configured() || !to.View().Configured() || h.Network().None? {
        return;
      }
      var network := h.Network().value;
      var mayLeave, first := ChannelAllows(from, h.Asset(), network);
      asked := first;
      if !mayLeave {
        ClosedHalts(h, [], first, network);
        return;
      }
      var mayArrive, second := ChannelAllows(to, h.Asset(), network);
      asked := first + second;
      if !mayArrive {
        ClosedHalts(h, first, second, network);
        return;
      }
      var destination := GetDepositAddress(to, h.Asset(), network);
      ghost var answer := AddressAnswer(to.account, h.Asset(), network, destination);
      asked := (first + second) + [answer];
      if destination.None? {
        UnansweredHalts(h, first + second, DepositAddress);
        return;
      }
      way := Some(Way(destination.value, network));
      WayFound(h, first, second, answer, way.value);
      NetworkIsAskedFor(h, network);
    }

    // ---------------------------------------------------------- sending

    /** The decimals a token's contract answers, 18 when it does not. */
    method TokenDecimals(node: Node) returns (decimals: nat)
      modifies this`journal, this`clock
      ensures clock >= old(clock) && journal == old(journal) + [UnitsRead(node.account, node.asset, decimals)]
    {
      var answer: Option<nat> := Reply();
      decimals := if answer.Some? then answer.value else 18;
      journal := journal + [UnitsRead(node.account, node.asset, decimals)];
    }

    /**
     What a node's own Withdraw does: an exchange sends what it is told, a wallet what can be written out in whole
     token units, if its tokens cover that. Nothing is accepted only for a reason that is logged.
     */
    method Withdraw(node: Node, amount: real, way: Way) returns (r: Option<string>, ghost more: Log)
      requires amount > 0.0
      modifies this`journal, this`clock
      ensures clock >= old(clock) && journal == old(journal) + more
      ensures OnlyReads(more, node.account, node.asset) || Sends(more, node.account, node.asset, amount, way)
      ensures r.Some? ==> EndsIn(more, amount, r.value, "")
      ensures node.View().CanWithdraw() || OnlyReads(more, node.account, node.asset)
      ensures r.None? ==> Declined(more, node.View().CanWithdraw(), way, node.account, node.asset, amount)
    {
      hide Sendable, Sends, FallsShort, Covered, IsSendable, IsInt64;
      r, more := None, [];
      if !node.View().CanWithdraw() || way.destination.address == "" {
        return;
      }
      var sent := amount;
      if !node.IsExchange() {
        var decimals := TokenDecimals(node);
        sent := Sendable(amount, decimals);
        var tokens := GetAvailableBalance(node);
        more := [UnitsRead(node.account, node.asset, decimals), BalanceAnswer(node.account, node.asset, tokens)];
        if tokens.None? {
          assert more[1] in more;
          return;
        }
        TokensAnswer(node.account, node.asset, amount, decimals, tokens.value);
        if sent > tokens.value {
          return;
        }
      }
      var ready := Obtain(Sending);
      if !ready {
        more := more + [Unanswered(Sending)];
        assert more[|more| - 1] in more;
        return;
      }
      r := Reply();
      ghost var receipt := if r.Some? then Accepted(r.value, "") else Refused;
      ghost var move := Moved(node.account, node.asset, amount, sent, way.network, way.destination, false, receipt);
      SendsThis(more, move, node.account, node.asset, amount, way);
      journal, more := journal + [move], more + [move];
      assert move in more;
    }

    /** Send from `node` once its own balance has been seen to cover the amount. */
    method SendIfCovered(node: Node, amount: real, way: Way) returns (r: Option<string>, ghost more: Log)
      requires amount > 0.0
      modifies this`journal, this`clock
      ensures clock >= old(clock) && journal == old(journal) + more
      ensures OnlyReads(more, node.account, node.asset) || Sends(more, node.account, node.asset, amount, way)
      ensures Sends(more, node.account, node.asset, amount, way) ==>
        Covered(more[..|more| - 1], node.account, node.asset, amount)
      ensures r.Some? ==> EndsIn(more, amount, r.value, "")
      ensures node.View().CanWithdraw() || OnlyReads(more, node.account, node.asset)
      ensures r.None? ==> Declined(more, node.View().CanWithdraw(), way, node.account, node.asset, amount)
    {
      hide FallsShort, IsInt64;
      var quote := GetAvailableBalance(node);
      ghost var first := BalanceAnswer(node.account, node.asset, quote);
      r, more := None, [first];
      assert more[0] in more;
      if quote.None? {
        return;
      }
      if quote.value < amount {
        ShortOf(first, amount);
        return;
      }
      ghost var rest;
      r, rest := Withdraw(node, amount, way);
      more := [first] + rest;
      SendsAfterRead(first, rest, node.account, node.asset, amount, way);
      FailsLater([first], rest, node.account, node.asset, amount);
    }

    /** Withdraw or transfer to the next node, after checking both ends. */
    method ExecuteWithdrawStep(step: nat, forceAll: bool, amount: real) returns (r: Option<string>)
      requires step + 1 < |nodes| && amount > 0.0
      requires var h := HopAt(step);
               !h.NeedsBridge() && Priced(h, forceAll, journal, amount) && OnlyReads(journal, h.from.account, h.PricedAsset())
      modifies Source(step)`asset, this`journal, this`clock
      ensures unchanged(Source(step)) && clock >= old(clock)
      ensures LawfulLog(HopAt(step), forceAll, journal) && Unasked(journal)
      ensures r.Some? ==> EndsIn(journal, amount, r.value, "")
      ensures r.None? ==> Stopped(HopAt(step), forceAll, journal) && NoneAccepted(journal)
    {
      hide LawfulLog, WayChecked, Priced, Sends, EdgeAsset, Fails, Stopped, Hop.NeedsBridge, Hop.Linked, Hop.SourceReady;
      var h := HopAt(step);
      ghost var priced := journal;
      var way, asked := FindWay(step);
      ReadyToSend(h, forceAll, priced, asked, amount);
      if way.None? {
        NoWayStops(h, forceAll, priced, asked);
        return None;
      }
      WayStaysChecked(h, priced, asked, way.value);
      ghost var more;
      r, more := SendAlong(step, amount, way.value);
      SendsOrNot(h, forceAll, priced + asked, more, amount, way.value);
      SendsUnasked(more, h.from.account, h.MovedAsset(), amount, way.value);
      UnaskedJoined(priced + asked, more);
      Ends(priced + asked, more);
      assert journal == (priced + asked) + more;
      if r.None? {
        FailsStops(h, forceAll, priced + asked, more, amount, way.value);
      }
    }

    /** In another asset through a node for it, in another asset under a switch, or straight from the node. */
    method SendAlong(step: nat, amount: real, way: Way) returns (r: Option<string>, ghost more: Log)
      requires step + 1 < |nodes| && amount > 0.0 && !HopAt(step).NeedsBridge()
      modifies Source(step)`asset, this`journal, this`clock
      ensures unchanged(Source(step)) && clock >= old(clock) && journal == old(journal) + more
      ensures var h := HopAt(step);
              && (OnlyReads(more, h.from.account, h.MovedAsset()) || Sends(more, h.from.account, h.MovedAsset(), amount, way))
              && (h.from.IsExchange() && h.Asset() != h.from.asset && Sends(more, h.from.account, h.MovedAsset(), amount, way) ==>
                   Covered(more[..|more| - 1], h.from.account, h.MovedAsset(), amount))
              && (h.SourceReady() || OnlyReads(more, h.from.account, h.MovedAsset()))
              && (r.None? ==> Declined(more, h.SourceReady(), way, h.from.account, h.MovedAsset(), amount))
      ensures r.Some? ==> EndsIn(more, amount, r.value, "")
    {
      hide Sends, EdgeAsset, Fails, OnlyReads, IsInt64;
      var from, to, h := Source(step), Target(step), HopAt(step);
      if !from.IsExchange() && to.IsExchange() && h.Asset() != from.asset {
        r, more := SendThroughQuoteNode(step, amount, way);
      } else if from.IsExchange() && h.Asset() != from.asset {
        r, more := SendSwitched(step, amount, way);
      } else {
        r, more := Withdraw(from, amount, way);
      }
    }

    /** A wallet pays another asset into an exchange through a node of its own for that asset. */
    method SendThroughQuoteNode(step: nat, amount: real, way: Way) returns (r: Option<string>, ghost more: Log)
      requires step + 1 < |nodes| && amount > 0.0 && !Source(step).IsExchange()
      modifies this`journal, this`clock
      ensures clock >= old(clock) && journal == old(journal) + more
      ensures var asset, account := HopAt(step).Asset(), Source(step).account;
              && (OnlyReads(more, account, asset) || Sends(more, account, asset, amount, way))
              && (Source(step).View().Signs() || OnlyReads(more, account, asset))
              && (r.None? ==> Declined(more, Source(step).View().Signs(), way, account, asset, amount))
      ensures r.Some? ==> EndsIn(more, amount, r.value, "")
    {
      hide Sends, EdgeAsset, IsInt64;
      var from, asset := Source(step), HopAt(step).Asset();
      var token: string := Reply();
      if token == "" {
        journal, more := journal + [Unanswered(TokenAddress)], [Unanswered(TokenAddress)];
        assert more[0] in more;
        return None, more;
      }
      hide Fails;
      var quoteNode := new Node(from.id + "-" + asset, from.account, "", token, asset);
      r, more := SendIfCovered(quoteNode, amount, way);
    }

    /** An exchange pays another asset out under a temporary switch. */
    method SendSwitched(step: nat, amount: real, way: Way) returns (r: Option<string>, ghost more: Log)
      requires step + 1 < |nodes| && amount > 0.0 && Source(step).IsExchange()
      modifies Source(step)`asset, this`journal, this`clock
      ensures unchanged(Source(step)) && clock >= old(clock) && journal == old(journal) + more
      ensures var asset, account := HopAt(step).Asset(), Source(step).account;
              && (OnlyReads(more, account, asset) || Sends(more, account, asset, amount, way))
              && (Sends(more, account, asset, amount, way) ==> Covered(more[..|more| - 1], account, asset, amount))
              && (r.None? ==> Declined(more, true, way, account, asset, amount))
      ensures r.Some? ==> EndsIn(more, amount, r.value, "")
    {
      hide Sends, EdgeAsset, Fails;
      var from, asset := Source(step), HopAt(step).Asset();
      var original := from.asset;
      from.asset := asset;
      r, more := SendIfCovered(from, amount, way);
      from.asset := original;
    }

    /** Hand the transfer to the bridge manager, in the edge's asset, once both wallets have named their addresses. */
    method ExecuteBridgeStep(step: nat, forceAll: bool, amount: real) returns (r: Option<(string, string)>)
      requires step + 1 < |nodes| && amount > 0.0
      requires var h := HopAt(step);
               h.NeedsBridge() && Priced(h, forceAll, journal, amount) && OnlyReads(journal, h.from.account, h.PricedAsset())
      modifies this`journal, this`clock
      ensures clock >= old(clock)
      ensures LawfulLog(HopAt(step), forceAll, journal) && ByManager(old(journal), journal, hasBridge)
      ensures r.Some? ==> hasBridge
      ensures r.Some? ==> EndsIn(journal, amount, r.value.0, r.value.1)
      ensures r.None? ==> Stopped(HopAt(step), forceAll, journal) && NoneAccepted(journal)
    {
      hide LawfulLog, Priced, EdgeAsset, Stopped, Bridgeable, Hop.Connected, ByManager;
      ghost var priced := journal;
      var h := HopAt(step);
      assert priced + [] == priced;
      if !hasBridge {
        journal := journal + [Unanswered(BridgeManager)];
        BridgeUnanswered(h, forceAll, priced, [], BridgeManager, amount);
        AskedByManager(priced, [Unanswered(BridgeManager)], hasBridge, h.from.account, h.PricedAsset());
        return None;
      }
      var destination := GetDepositAddress(Target(step), EdgeAsset(h.Config(), h.to.asset), "");
      if destination.None? {
        BridgeUnanswered(h, forceAll, priced, [], DepositAddress, amount);
        AskedByManager(priced, [Unanswered(DepositAddress)], hasBridge, h.from.account, h.PricedAsset());
        return None;
      }
      ghost var there := Addressed(h.to.account, EdgeAsset(h.Config(), h.to.asset), "", destination.value);
      var own := GetDepositAddress(Source(step), h.Asset(), "");
      if own.None? {
        BridgeUnanswered(h, forceAll, priced, [there], DepositAddress, amount);
        assert journal == priced + [there, Unanswered(DepositAddress)];
        AskedByManager(priced, [there, Unanswered(DepositAddress)], hasBridge, h.from.account, h.PricedAsset());
        return None;
      }
      ghost var here := Addressed(h.from.account, h.Asset(), "", own.value);
      r := Reply();
      ghost var receipt := if r.Some? then Accepted(r.value.0, r.value.1) else Refused;
      ghost var move := Moved(h.from.account, h.Asset(), amount, Bridgeable(amount), "", destination.value, true, receipt);
      journal := journal + [move];
      assert journal == (priced + [there, here]) + [move] == priced + [there, here, move];
      AskedByManager(priced, [there, here, move], hasBridge, h.from.account, h.PricedAsset());
      BridgedLawfully(h, forceAll, priced, there, here, amount, receipt);
      if r.None? {
        RefusedStops(h, forceAll, priced + [there, here], move);
      }
    }

    /** Work out the amount and transfer it; the bridge's ID is "" for a withdrawal. */
    method TransferAmount(step: nat, forceAll: bool) returns (r: Option<(string, string, real)>)
      requires step + 1 < |nodes| && journal == []
      modifies Source(step)`asset, this`journal, this`clock
      ensures unchanged(Source(step)) && clock >= old(clock)
      ensures LawfulLog(HopAt(step), forceAll, journal) && Unasked(journal)
      ensures r.Some? ==> EndsIn(journal, r.value.2, r.value.0, r.value.1)
      ensures r.None? ==> Stopped(HopAt(step), forceAll, journal) && NoneAccepted(journal)
    {
      hide LawfulLog, Priced, EdgeAsset, Stopped, NothingToSend, Halted, Hop.Connected;
      var amount, asked := StepAmount(step, forceAll);
      assert journal == asked;
      if amount.None? || amount.value <= 0.0 {
        NothingStops(HopAt(step), forceAll, asked);
        if amount.Some? {
          var shown := AvailableForEdge(step);
          QuietlyStopped(HopAt(step), forceAll, asked, journal[|asked|]);
        }
        return None;
      }
      if HopAt(step).NeedsBridge() {
        var sent := ExecuteBridgeStep(step, forceAll, amount.value);
        r := if sent.Some? then Some((sent.value.0, sent.value.1, amount.value)) else None;
      } else {
        var sent := ExecuteWithdrawStep(step, forceAll, amount.value);
        r := if sent.Some? then Some((sent.value, "", amount.value)) else None;
      }
    }

    // ---------------------------------------------------------- confirming

    /** How long a confirmation is waited for: no longer than ten minutes over ccip. */
    function ConfirmWait(edge: Edge): (wait: int)
      ensures edge.bridgeProtocol == "ccip" ==> wait <= 10 * MINUTE
      ensures edge.maxWait != 0 && (edge.bridgeProtocol == "ccip" ==> edge.maxWait <= 10 * MINUTE) ==> wait == edge.maxWait
      ensures edge.maxWait == 0 && edge.bridgeProtocol != "ccip" ==> wait == 1_800_000_000_000
      ensures edge.bridgeProtocol == "ccip" && (edge.maxWait == 0 || edge.maxWait > 10 * MINUTE) ==> wait == 600_000_000_000
    {
      var wait := if edge.maxWait == 0 then 30 * MINUTE else edge.maxWait;
      if edge.bridgeProtocol == "ccip" && wait > 10 * MINUTE then 10 * MINUTE else wait
    }

    /** How often it is asked for: every three seconds at least over ccip. */
    function ConfirmInterval(edge: Edge): (interval: int)
      ensures interval > 0 && (edge.bridgeProtocol == "ccip" ==> interval <= 3 * SECOND)
      ensures edge.bridgeProtocol != "ccip" ==> interval == if edge.checkInterval == 0 then 10_000_000_000 else edge.checkInterval
    {
      var interval := if edge.checkInterval == 0 then 10 * SECOND else edge.checkInterval;
      if edge.bridgeProtocol == "ccip" && interval > 3 * SECOND then 3 * SECOND else interval
    }

    /** What a source says of a transfer: an exchange lists its withdrawals of an asset, or of all, a chain has a receipt. */
    method AskSource(node: Node, asset: string, txHash: string) returns (status: Histories.Status, ghost asked: Log)
      modifies this`journal, this`clock
      ensures clock >= old(clock) && journal == old(journal) + asked
      ensures |asked| == 1 && Says(asked[0], status) && (asked[0].report.OnChain? <==> !node.IsExchange())
      ensures asked[0].account == node.account && asked[0].asset == asset && asked[0].txHash == txHash
    {
      ghost var report;
      if node.IsExchange() {
        var list: Option<seq<Histories.WithdrawRecord>> := Reply();
        if list.None? {
          status, report := Histories.NoAnswer, Histories.Silent;
        } else {
          status := Histories.FindWithdrawal(list.value, txHash);
          report := Histories.History(list.value);
        }
      } else {
        status := Reply();
        report := Histories.OnChain(status);
      }
      asked := [Asked(node.account, asset, txHash, report)];
      journal := journal + asked;
    }

    /** An exchange that does not find a withdrawal in the node's asset is asked again for those of any asset. */
    method CheckWithdrawStatus(node: Node, txHash: string) returns (answer: Option<bool>, ghost asked: Log)
      requires txHash != ""
      modifies this`journal, this`clock
      ensures clock >= old(clock) && journal == old(journal) + asked
      ensures 1 <= |asked| <= 2
      ensures forall e <- asked ::
        e.Asked? && e.account == node.account && e.txHash == txHash && (e.report.OnChain? <==> !node.IsExchange())
      ensures asked[0].asset == node.asset
      ensures |asked| == 2 <==> Says(asked[0], Histories.NotFound) && node.IsExchange() && node.asset != ""
      ensures |asked| == 2 ==> asked[1].asset == ""
      ensures var last := asked[|asked| - 1];
              && (answer == Some(true) <==> Says(last, Histories.Done))
              && (answer.None? <==> Says(last, Histories.NoAnswer) || Says(last, Histories.Rejected))
    {
      var status;
      status, asked := AskSource(node, node.asset, txHash);
      if status == Histories.NotFound && node.IsExchange() && node.asset != "" {
        ghost var first, again := asked, [];
        status, again := AskSource(node, "", txHash);
        asked := first + again;
      }
      answer := match status
        case Done => Some(true)
        case Pending => Some(false)
        case NotFound => Some(false)
        case NoAnswer => None
        case Rejected => None;
    }

    /** Ask once: the bridge, or failing that the balance it should raise; otherwise the source. `dead` is a reverted bridge. */
    method AskStatus(from: Node, to: Node, txHash: string, bridgeId: string, before: Option<real>, amount: real)
      returns (answer: Option<bool>, dead: bool, ghost asked: Log)
      modifies this`journal, this`clock
      ensures clock >= old(clock) && journal == old(journal) + asked
      ensures Answers(asked, from.account, from.asset, txHash, bridgeId)
      ensures dead ==> asked == [BridgeReverted(bridgeId)] && answer.None?
      ensures !dead ==> NoneReverted(asked)
      ensures bridgeId == "" ==> !dead && (answer == Some(true) ==> ConfirmedIn(asked, from.account, txHash))
      ensures bridgeId != "" && answer == Some(true) ==>
        BridgeAsked(bridgeId, Some(true)) in asked || Arrived(asked, to.account, to.asset, before, amount)
      ensures answer != Some(true) ==> NonePositive(asked)
      ensures forall e <- asked :: !e.DepthAsked?
      ensures bridgeId != "" && !dead ==> BridgeDecides(asked, answer, to.View(), before, amount)
    {
      answer, dead, asked := None, false, [];
      if bridgeId != "" {
        dead := Reply();
        if dead {
          asked := [BridgeReverted(bridgeId)];
          journal := journal + asked;
          return;
        }
        answer := Reply();
        asked := [BridgeAsked(bridgeId, answer)];
        journal := journal + asked;
        assert asked[0] in asked;
        if before.Some? && answer == Some(false) {
          var now := GetAvailableBalance(to);
          answer := Some(now.Some? && now.value - before.value >= amount * ARRIVED_SHARE);
          asked := asked + [BalanceAnswer(to.account, to.asset, now)];
          assert asked[1] in asked;
        }
      } else if txHash != "" {
        hide Says;
        answer, asked := CheckWithdrawStatus(from, txHash);
        assert asked[|asked| - 1] in asked;
        assert |asked| == 2 ==> asked == [asked[0], asked[1]];
        assert |asked| == 1 ==> asked == [asked[0]];
      }
    }

    /** A wallet's transfer has to be as deep in the chain as the edge asks. */
    method AskDepth(from: Node, edge: Edge, txHash: string) returns (deep: bool, ghost asked: Log)
      modifies this`journal, this`clock
      ensures clock >= old(clock) && journal == old(journal) + asked
      ensures forall e <- asked :: e.DepthAsked? && e.account == from.account && e.txHash == txHash
      ensures edge.confirmations <= 0 || from.IsExchange() ==> deep && asked == []
      ensures edge.confirmations > 0 && !from.IsExchange() ==>
        && (deep ==> DepthAsked(from.account, txHash, edge.confirmations, Some(true)) in asked)
        && (!deep ==> forall e <- asked :: e.answer != Some(true))
    {
      deep, asked := true, [];
      if edge.confirmations > 0 && !from.IsExchange() {
        var answer: Option<bool> := Reply();
        asked := [DepthAsked(from.account, txHash, edge.confirmations, answer)];
        journal := journal + asked;
        deep := answer == Some(true);
        assert asked[0] in asked;
      }
    }

    /** One round of polling. */
    method PollOnce(from: Node, to: Node, txHash: string, bridgeId: string, edge: Edge, before: Option<real>, amount: real)
      returns (confirmed: bool, dead: bool, ghost more: Log)
      modifies this`journal, this`clock
      ensures clock >= old(clock) && journal == old(journal) + more
      ensures Answers(more, from.account, from.asset, txHash, bridgeId)
      ensures dead ==> !confirmed && more == [BridgeReverted(bridgeId)]
      ensures !dead ==> NoneReverted(more)
      ensures confirmed ==> Positive(more, from.View(), to.View(), txHash, bridgeId, edge, before, amount)
      ensures !confirmed ==> Inconclusive(more, from.View(), edge)
    {
      hide Arrived, Says, BridgeDecides;
      var answer;
      answer, dead, more := AskStatus(from, to, txHash, bridgeId, before, amount);
      confirmed := false;
      if !dead && answer == Some(true) {
        ghost var status, depth := more, [];
        confirmed, depth := AskDepth(from, edge, txHash);
        more := status + depth;
        DepthIsAnswer(status, depth, from.account, from.asset, txHash, bridgeId);
        if confirmed {
          PositiveBy(status, depth, from.View(), to.View(), txHash, bridgeId, edge, before, amount);
        } else {
          NotDeepIsInconclusive(status, depth, from.View(), edge);
        }
      }
    }

    /** Poll until the transfer is confirmed; it is given up only when the time is up, on a cancel or on a reverted bridge. */
    method WaitForConfirmation(step: nat, txHash: string, bridgeId: string, edge: Edge, amount: real)
      returns (confirmed: bool, ghost asked: Log)
      requires step + 1 < |nodes| && amount > 0.0
      modifies this`journal, this`clock, this`cancelled
      ensures clock >= old(clock) && journal == old(journal) + asked
      ensures Answers(asked, Source(step).account, Source(step).asset, txHash, bridgeId)
      ensures BalanceFirst(asked, Target(step).View(), bridgeId)
      ensures confirmed ==> Confirms(asked, Source(step).View(), Target(step).account, txHash, bridgeId, edge, amount)
      ensures !confirmed ==> GaveUp in asked && GivenUp(asked, bridgeId, cancelled, clock, old(clock) + ConfirmWait(edge))
      ensures !confirmed ==> Inconclusive(asked, Source(step).View(), edge)
      ensures if confirmed then NoneReverted(asked) else RevertEndsIt(asked)
    {
      hide Answers, Confirms, Positive, Polled, Inconclusive, NoneReverted, RevertEndsIt, BalanceFirst;
      var from, to := Source(step), Target(step);
      var before: Option<real> := None;
      confirmed, asked := false, [];
      if bridgeId != "" {
        before := GetAvailableBalance(to);
        asked := [BalanceAnswer(to.account, to.asset, before)];
      }
      PolledAtFirst(asked, from.View(), to.View(), txHash, bridgeId, edge, before);
      var deadline := clock + ConfirmWait(edge);
      var due := clock + ConfirmInterval(edge);
      ghost var last: Log := [];
      BalanceIsAnswer([], from.account, from.asset, txHash, bridgeId);
      ReadsAreInconclusive([], from.View(), edge);
      while true
        invariant clock >= old(clock) && deadline >= old(clock) + ConfirmWait(edge)
        invariant journal == old(journal) + asked && last == []
        invariant Polled(asked, from.View(), to.View(), txHash, bridgeId, edge, before)
        decreases deadline + ConfirmInterval(edge) - due
      {
        var woken := Wait(due, due);
        if woken.ByCancel? || clock > deadline {
          break;
        }
        ghost var more;
        var dead;
        confirmed, dead, more := PollOnce(from, to, txHash, bridgeId, edge, before, amount);
        if confirmed {
          PollingConfirms(asked, more, from.View(), to.View(), txHash, bridgeId, edge, before, amount);
          asked := asked + more;
          return;
        }
        if dead {
          last := more;
          break;
        }
        PolledOn(asked, more, from.View(), to.View(), txHash, bridgeId, edge, before);
        asked := asked + more;
        due := due + ConfirmInterval(edge);
      }
      confirmed := false;
      PollingEnds(asked, last, from.View(), to.View(), txHash, bridgeId, edge, before);
      asked := (asked + last) + [GaveUp];
      journal := journal + [GaveUp];
    }

    /** Wait for confirmation with an exchange's asset switched to the edge's, and switch it back. */
    method ConfirmInEdgeAsset(step: nat, forceAll: bool, txHash: string, bridgeId: string, amount: real)
      returns (confirmed: bool)
      requires step + 1 < |nodes| && LawfulLog(HopAt(step), forceAll, journal) && EndsIn(journal, amount, txHash, bridgeId)
      requires Unasked(journal)
      modifies Source(step)`asset, this`journal, this`clock, this`cancelled
      ensures unchanged(Source(step)) && clock >= old(clock)
      ensures LawfulLog(HopAt(step), forceAll, journal)
      ensures confirmed ==> |old(journal)| > 0 && DeliveredAt(HopAt(step), journal, txHash, |old(journal)| - 1)
      ensures !confirmed ==> Stopped(HopAt(step), forceAll, journal) && NothingConfirms(HopAt(step), journal)
                             && AcceptedInVain(journal, cancelled, clock, old(clock) + ConfirmWait(HopAt(step).Config()))
    {
      hide LawfulLog, EdgeAsset, Answers, Confirms, Stopped, Hop.Connected, Unasked, Inconclusive, NothingConfirms;
      var from, h := Source(step), HopAt(step);
      LastMoveIsOnly(h, forceAll, journal);
      BlankAsset(h);
      ghost var sent, asked := journal, [];
      ghost var asking := from.View();
      if from.IsExchange() && h.Asset() != "" && h.Asset() != from.asset {
        var saved := from.asset;
        from.asset := h.Asset();
        asking := from.View();
        confirmed, asked := WaitForConfirmation(step, txHash, bridgeId, h.Config(), amount);
        from.asset := saved;
      } else {
        confirmed, asked := WaitForConfirmation(step, txHash, bridgeId, h.Config(), amount);
      }
      assert asking.account == h.from.account && (from.IsExchange() ==> asking.asset == h.Asset());
      AnswersStay(h, forceAll, sent, asked, asking.asset, txHash, bridgeId);
      if confirmed {
        Delivered(h, sent, asked, asking, txHash, bridgeId, amount);
      } else {
        InconclusiveConfirmsNothing(h, asked, asking);
        NothingConfirmsJoined(h, sent, asked);
        GivenUpStops(h, forceAll, sent, asked, asking.asset, txHash, bridgeId, cancelled, clock, old(clock) + ConfirmWait(h.Config()));
      }
    }

    // ---------------------------------------------------------- one step

    /**
     One execution of a step. Whatever happens the source's asset is back and the attempt is lawful: at most one
     transfer, priced and covered, in the right asset, over a checked way, to where the target said; a hash is
     returned only for the one transfer that was accepted under it and then confirmed, and none is returned only
     for a reason that the log shows. A transfer that was accepted is given up only when the time is up, on a
     cancel or on a reverted bridge.
     */
    method ExecuteStep(step: nat, forceAll: bool) returns (r: Option<string>, ghost a: Attempt)
      requires step + 1 < |nodes| && NoneMoved(journal)
      modifies Source(step)`asset, this`journal, this`clock, this`cancelled, this`attempts
      ensures unchanged(Source(step)) && clock >= old(clock) && journal == []
      ensures attempts == old(attempts) + [a] && LawfulAttempt(HopAt(step), a)
      ensures SpendsWhatItHas(HopAt(step), a) && TakesItsNetwork(HopAt(step), a.log)
      ensures a.step == step && a.forced == forceAll && a.waited == old(journal) && a.result == r
      ensures r.None? ==> AcceptedInVain(a.log, cancelled, clock, old(clock) + ConfirmWait(HopAt(step).Config()))
    {
      hide LawfulLog, EdgeAsset, DeliveredAt, SpendsWhatItHas, TakesItsNetwork, Stopped, Unasked, NothingConfirms;
      journal, r := [], None;
      var sent := TransferAmount(step, forceAll);
      if sent.None? {
        UnaskedConfirmsNothing(HopAt(step), journal);
      }
      if sent.Some? {
        var confirmed := ConfirmInEdgeAsset(step, forceAll, sent.value.0, sent.value.1, sent.value.2);
        r := if confirmed then Some(sent.value.0) else None;
      }
      a := Attempt(step, forceAll, old(journal), journal, r);
      LawfulInBounds(HopAt(step), a);
      attempts, journal := attempts + [a], [];
    }

    /** How long a middle step waits to become possible. */
    function ReadyWait(maxWait: int): (wait: int)
      ensures wait > 0 && (maxWait > 0 ==> wait == maxWait) && (maxWait <= 0 ==> wait == 1_800_000_000_000)
    {
      if maxWait <= 0 then 30 * MINUTE else maxWait
    }

    /** An exchange lists its deposits of its own asset, and the first one with the hash decides. */
    method CheckDepositStatus(node: Node, txHash: string) returns (answer: Option<bool>, ghost asked: Event)
      modifies this`journal, this`clock
      ensures clock >= old(clock) && journal == old(journal) + [asked] && asked.DepositsListed?
      ensures answer == Some(true) <==> DepositListed(asked, node.account, node.asset, txHash)
    {
      var list: Option<seq<Histories.DepositRecord>> := Reply();
      asked := DepositsListed(node.account, node.asset, list);
      journal := journal + [asked];
      if list.None? {
        return None, asked;
      }
      var done := Histories.FindDeposit(list.value, txHash);
      answer := Some(done);
    }

    /** Poll the exchange until it lists the deposit as done, the time is up or the context is cancelled. */
    method AwaitDeposit(node: Node, txHash: string, wait: int) returns (reported: bool)
      requires NoneMoved(journal)
      modifies this`journal, this`clock, this`cancelled
      ensures clock >= old(clock) && NoneMoved(journal) && old(journal) <= journal
      ensures !reported ==> cancelled || clock >= old(clock) + wait
      ensures reported ==> |journal| > |old(journal)|
                           && DepositListed(journal[|journal| - 1], node.account, node.asset, txHash)
    {
      hide DepositListed;
      var deadline := clock + wait;
      var due := clock + DEPOSIT_POLL;
      while true
        invariant clock >= old(clock) && NoneMoved(journal) && due - DEPOSIT_POLL <= clock && old(journal) <= journal
        decreases deadline + DEPOSIT_POLL - due
      {
        var answer, asked := CheckDepositStatus(node, txHash);
        if answer == Some(true) {
          return true;
        }
        if clock > deadline {
          return false;
        }
        var woken := Wait(due, deadline);
        if !woken.ByTick? {
          return false;
        }
        due := due + DEPOSIT_POLL;
      }
    }

    /** A lawful attempt at the step with all there was, made once the previous deposit had been reported. */
    ghost predicate Waited(a: Attempt, step: nat, prevTxHash: string)
      requires step + 1 < |nodes|
      reads this`nodes, this`edges, nodes
    {
      a.step == step && a.forced && LawfulAttempt(HopAt(step), a) && AwaitedDeposit(HopAt(step), prevTxHash, a)
    }

    /** Execute the step once the exchange it starts from has reported the previous deposit. */
    method ExecuteAfterDeposit(step: nat, prevTxHash: string, wait: int) returns (r: Option<string>, ghost made: seq<Attempt>)
      requires step + 1 < |nodes| && NoneMoved(journal)
      modifies Source(step)`asset, this`journal, this`clock, this`cancelled, this`attempts
      ensures unchanged(Source(step)) && clock >= old(clock) && NoneMoved(journal)
      ensures attempts == old(attempts) + made && |made| <= 1
      ensures made == [] ==> r.None? && (cancelled || clock >= old(clock) + wait) && Source(step).IsExchange() && prevTxHash != ""
      ensures made != [] ==> Waited(made[0], step, prevTxHash) && made[0].result == r && old(journal) <= made[0].waited
    {
      hide LawfulAttempt, EdgeAsset;
      made := [];
      if Source(step).IsExchange() && prevTxHash != "" {
        var reported := AwaitDeposit(Source(step), prevTxHash, wait);
        if !reported {
          return None, [];
        }
        assert journal[|journal| - 1] in journal;
      }
      ghost var a;
      r, a := ExecuteStep(step, true);
      made := [a];
    }

    /**
     Poll the balance until it makes a positive amount, wait for the previous deposit at an exchange, and execute
     the step once, with all it finds. Nothing is executed only when the time is up or on a cancel, and without a
     deposit to wait for only when no balance read made a positive amount.
     */
    method RunWhenReady(step: nat, maxWait: int, checkInterval: int, prevTxHash: string)
      returns (r: Option<string>, ghost made: seq<Attempt>)
      requires step + 1 < |nodes| && NoneMoved(journal)
      modifies Source(step)`asset, this`journal, this`clock, this`cancelled, this`attempts
      ensures unchanged(Source(step)) && NoneMoved(journal)
      ensures attempts == old(attempts) + made && |made| <= 1
      ensures made == [] ==> r.None? && (cancelled || clock >= old(clock) + ReadyWait(maxWait))
      ensures made == [] && !(Source(step).IsExchange() && prevTxHash != "") ==> NotReadySince(HopAt(step), old(journal), journal)
      ensures made != [] ==> Waited(made[0], step, prevTxHash) && made[0].result == r
      ensures made != [] ==> ReadySince(HopAt(step), old(journal), made[0].waited)
    {
      hide LawfulAttempt, EdgeAsset, AwaitedDeposit, Priced, AmountOf, Ready, Waited, ReadySince, NotReadySince, StillWaiting;
      ghost var h := HopAt(step);
      StartsWaiting(h, journal);
      var wait := ReadyWait(maxWait);
      var interval := if checkInterval <= 0 then 15 * SECOND else checkInterval;
      var deadline := clock + wait;
      var due := clock + interval;
      r, made := None, [];
      while true
        invariant unchanged(Source(step)) && attempts == old(attempts) && NoneMoved(journal)
        invariant StillWaiting(h, old(journal), journal) && h == HopAt(step)
        invariant clock >= old(clock) && deadline == old(clock) + wait && due - interval <= clock
        decreases deadline + interval - due
      {
        ghost var seen := journal;
        var amount, asked := CalculateAmount(step);
        if amount.Some? && amount.value > 0.0 {
          r, made := ExecuteAfterDeposit(step, prevTxHash, wait);
          if made != [] {
            BecomesReady(h, old(journal), seen, asked, made[0].waited);
          }
          return;
        }
        KeepsWaiting(h, old(journal), seen, asked);
        if clock > deadline {
          return;
        }
        var woken := Wait(due, deadline);
        if !woken.ByTick? {
          return;
        }
        due := due + interval;
      }
    }

    // ---------------------------------------------------------- checks before a run

    /** Read the first source's balance and, given an edge, check that the first step can be paid. */
    method CheckFirstStep() returns (ok: bool, ghost asked: Log)
      requires |nodes| >= 2
      modifies Source(0)`asset, this`journal, this`clock
      ensures unchanged(Source(0)) && journal == old(journal) + asked && NoneMoved(asked)
      ensures ok && HopAt(0).given.Some? && HopAt(0).Asset() == HopAt(0).from.asset ==> Payable(HopAt(0), asked)
      ensures !ok ==> HopAt(0).given.Some? && CannotStart(HopAt(0), asked)
    {
      hide AmountOf, EdgeAsset;
      var h := HopAt(0);
      var balance := GetAvailableBalance(Source(0));
      ghost var first := [BalanceAnswer(h.from.account, h.from.asset, balance)];
      ok, asked := true, first;
      if h.given.Some? {
        var required, priced := CalculateAmount(0);
        asked := first + priced;
        var held := if balance.Some? then balance.value else 0.0;
        ok := required.Some? && CanStart(h, held, required.value);
        if ok && h.Asset() == h.from.asset {
          PayableByHeld(h, first, priced, balance, required.value);
        } else if !ok {
          StartsShort(h, first, priced, balance, required);
        }
      }
    }

    /** Read every balance, and check that the first step can be paid. */
    method CheckBalances() returns (ok: bool, ghost first: Log)
      requires |nodes| >= 2 && NoneMoved(journal)
      modifies AllNodes()`asset, this`journal, this`clock
      ensures Kept() && old(journal) + first <= journal
      ensures !ok ==> journal == old(journal) + first && HopAt(0).given.Some? && CannotStart(HopAt(0), first)
      ensures ok && HopAt(0).given.Some? && HopAt(0).Asset() == HopAt(0).from.asset ==> Payable(HopAt(0), first)
    {
      hide EdgeAsset, AmountOf, Payable, CannotStart;
      ok, first := CheckFirstStep();
      if !ok {
        return;
      }
      for i := 1 to |nodes|
        invariant NoneMoved(journal) && old(journal) + first <= journal && forall n <- nodes :: n.asset == old(n.asset)
      {
        var balance := GetAvailableBalance(nodes[i]);
      }
    }

    /** The bridge manager is asked about one step's bridge. */
    method CheckBridgeReady(step: nat) returns (ready: bool)
      modifies this`journal, this`clock
      ensures journal == old(journal) + [BridgeChecked(step, ready)]
    {
      ready := Reply();
      journal := journal + [BridgeChecked(step, ready)];
    }

    method CheckBridges() returns (ok: bool, ghost asked: Log)
      modifies this`journal, this`clock
      ensures journal == old(journal) + asked && NoneMoved(asked)
      ensures ok ==> ReadyUpTo(CurrentPlan(), hasBridge, asked, StepCount())
      ensures !ok ==> BridgeMissing(CurrentPlan(), hasBridge, asked)
    {
      ghost var plan := CurrentPlan();
      ok, asked := false, [];
      hide HopAt, ReadyUpTo;
      NoneReady(plan, hasBridge);
      for i := 0 to StepCount()
        invariant journal == old(journal) + asked && NoneMoved(asked) && ReadyUpTo(plan, hasBridge, asked, i)
      {
        var bridged := HopAt(i).NeedsBridge();
        assert bridged == plan[i].NeedsBridge();
        ghost var earlier := asked;
        if bridged {
          if !hasBridge {
            return;
          }
          var ready := CheckBridgeReady(i);
          asked := earlier + [BridgeChecked(i, ready)];
          if !ready {
            return;
          }
        }
        OneMoreReady(plan, hasBridge, earlier, asked, i);
      }
      ok := true;
    }

    // ---------------------------------------------------------- runs

    ghost predicate PlanIs(plan: Plan)
      reads this`nodes, this`edges, nodes
    {
      |plan| == StepCount() && forall i :: 0 <= i < |plan| ==> plan[i] == HopAt(i)
    }

    /** What the fields say before the step after `made`. */
    ghost predicate UnderWay(before: Snapshot, plan: Plan, made: seq<Attempt>, start: nat, resumed: bool)
      reads this`status, this`lastStepTxHash, this`attempts
    {
      && status.Running? && start + |made| <= |plan| && attempts == before.attempts + made
      && Orderly(plan, made, start, resumed) && !LastFailed(made)
      && lastStepTxHash == Recorded(before.hashes, Successes(made), resumed)
    }

    lemma BarelyUnderWay(before: Snapshot, plan: Plan, start: nat, resumed: bool)
      requires status.Running? && start <= |plan| && attempts == before.attempts && lastStepTxHash == before.hashes
      ensures UnderWay(before, plan, [], start, resumed)
    {
    }

    /** The pipeline stops with `made`: all of the path, or up to the step that failed. */
    lemma Concludes(before: Snapshot, plan: Plan, made: seq<Attempt>, start: nat, resumed: bool)
      requires attempts == before.attempts + made && Orderly(plan, made, start, resumed)
      requires lastStepTxHash == Recorded(before.hashes, Successes(made), resumed)
      requires var done := if LastFailed(made) then |made| - 1 else |made|;
               && start + done <= |plan|
               && (if start + done == |plan| then status.Completed? && currentStep == |plan|
                   else status.Failed? && currentStep == start + done + 1)
      ensures Advanced(before, Shown(), plan, start, resumed) && AllInBounds(plan, NewSince(before.attempts, attempts))
    {
      hide Orderly, Recorded, Successes, AllInBounds;
      assert NewSince(before.attempts, attempts) == made;
      OrderlySuccesses(plan, made, start, resumed);
      OrderlyInBounds(plan, made, start, resumed);
    }

    /** Attempt step `i`: at once, or when its balance is there and the previous deposit has been reported. */
    method TryStep(i: nat, waits: bool, maxWait: int, checkInterval: int, prevTxHash: string)
      returns (r: Option<string>, ghost tried: seq<Attempt>)
      requires i + 1 < |nodes| && NoneMoved(journal)
      modifies Source(i)`asset, this`journal, this`clock, this`cancelled, this`attempts
      ensures unchanged(Source(i)) && NoneMoved(journal) && attempts == old(attempts) + tried && |tried| <= 1
      ensures tried == [] ==> waits && r.None?
      ensures tried != [] ==> tried[0].step == i && tried[0].forced == waits && tried[0].result == r
      ensures tried != [] && !waits ==> tried[0].waited == old(journal)
      ensures tried != [] ==> LawfulAttempt(HopAt(i), tried[0]) && (waits ==> AwaitedDeposit(HopAt(i), prevTxHash, tried[0]))
    {
      hide LawfulAttempt, EdgeAsset, AwaitedDeposit;
      if waits {
        r, tried := RunWhenReady(i, maxWait, checkInterval, prevTxHash);
      } else {
        ghost var a;
        r, a := ExecuteStep(i, false);
        tried := [a];
      }
    }

    /** One round of a run or resume: attempt step `i`, then record its hash or fail. */
    method Advance(i: nat, maxWait: int, checkInterval: int, prevTxHash: string, start: nat, resumed: bool,
                   ghost before: Snapshot, ghost plan: Plan, ghost made: seq<Attempt>)
      returns (r: Option<string>, ghost more: seq<Attempt>)
      requires PlanIs(plan) && NoneMoved(journal) && i == start + |made| < |plan|
      requires UnderWay(before, plan, made, start, resumed)
      requires made != [] && made[|made| - 1].result.Some? && made[|made| - 1].result.value != "" ==>
        prevTxHash == made[|made| - 1].result.value
      modifies Source(i)`asset, this`journal, this`clock, this`cancelled, this`attempts,
               this`status, this`currentStep, this`lastStepTxHash
      ensures unchanged(Source(i)) && NoneMoved(journal) && currentStep == i + 1
      ensures r.Some? ==> UnderWay(before, plan, more, start, resumed) && |more| == |made| + 1 && more[|made|].result == r
      ensures r.None? ==> status.Failed? && Advanced(before, Shown(), plan, start, resumed)
                          && AllInBounds(plan, NewSince(before.attempts, attempts))
      ensures old(attempts) <= attempts
      ensures made == [] ==> |attempts| > |old(attempts)| && attempts[|old(attempts)|].waited == old(journal)
    {
      hide LawfulAttempt, EdgeAsset, AwaitedDeposit, Orderly, Recorded, AllInBounds, Successes, Advanced;
      currentStep := i + 1;
      var waits := i > start && (resumed ==> HopAt(i).given.Some?);
      ghost var tried;
      r, tried := TryStep(i, waits, maxWait, checkInterval, prevTxHash);
      if tried == [] {
        more := made;
      } else {
        more := made + [tried[0]];
        OneTried(plan, made, tried[0], start, resumed, prevTxHash);
        assert tried == [tried[0]];
      }
      assert attempts == before.attempts + more;
      if r.None? {
        status := Failed;
        Concludes(before, plan, more, start, resumed);
      } else {
        RecordStep(i, r.value, resumed, Successes(made), before.hashes);
      }
    }

    /** Record the hash a step returned; a resume leaves an empty one out. */
    method RecordStep(step: nat, txHash: string, resumed: bool, ghost done: seq<Success>, ghost hashes: map<int, string>)
      requires lastStepTxHash == Recorded(hashes, done, resumed)
      modifies this`lastStepTxHash
      ensures lastStepTxHash == Recorded(hashes, done + [Success(step, txHash)], resumed)
    {
      hide Recorded;
      OneMoreRecorded(hashes, done, Success(step, txHash), resumed);
      if !resumed || txHash != "" {
        lastStepTxHash := lastStepTxHash[step := txHash];
      }
    }

    /** One more attempt keeps the attempts in order and adds its success, if it is one. */
    lemma OneTried(plan: Plan, made: seq<Attempt>, a: Attempt, start: nat, resumed: bool, prevTxHash: string)
      requires Orderly(plan, made, start, resumed) && !LastFailed(made) && a.step == start + |made| < |plan|
      requires made != [] && made[|made| - 1].result.value != "" ==> prevTxHash == made[|made| - 1].result.value
      requires LawfulAttempt(plan[a.step], a) && a.forced == Waits(plan, start, resumed, a.step)
      requires a.forced ==> AwaitedDeposit(plan[a.step], prevTxHash, a)
      ensures Orderly(plan, made + [a], start, resumed) && (LastFailed(made + [a]) <==> a.result.None?)
      ensures a.result.None? ==> Successes(made + [a]) == Successes(made)
      ensures a.result.Some? ==> Successes(made + [a]) == Successes(made) + [Success(a.step, a.result.value)]
    {
      hide LawfulAttempt, Orderly, Waits, Successes;
      OrderlyGrows(plan, made, start, resumed, a);
      OneMoreAttempt(made, a);
    }

    /** Every step has been done. */
    method Finish(ghost before: Snapshot, ghost plan: Plan, ghost made: seq<Attempt>, ghost start: nat, ghost resumed: bool)
      requires UnderWay(before, plan, made, start, resumed) && start + |made| == |plan| == currentStep
      modifies this`status
      ensures status.Completed? && Advanced(before, Shown(), plan, start, resumed)
      ensures AllInBounds(plan, NewSince(before.attempts, attempts))
    {
      hide Orderly, Recorded, AllInBounds;
      status := Completed;
      Concludes(before, plan, made, start, resumed);
    }

    /**
     The whole path. A path without a step reports an error and yet ends as Completed. A run is turned away before its
     first step only when the log shows that the step cannot be paid or that a bridge is missing.
     */
    method Run() returns (ok: bool)
      requires NoneMoved(journal)
      modifies AllNodes()`asset, this`journal, this`clock, this`cancelled, this`attempts,
               this`status, this`currentStep, this`lastStepTxHash
      ensures Kept()
      ensures old(status).Running? ==> !ok && Shown() == old(Shown())
      ensures !old(status).Running? && |nodes| < 2 ==> !ok && Shown() == old(Shown()).(status := Completed, currentStep := 0)
      ensures !old(status).Running? && |nodes| >= 2 ==>
        && Ran(old(Shown()), Shown(), CurrentPlan()) && ok == status.Completed?
        && |old(attempts)| <= |attempts| && AllInBounds(CurrentPlan(), NewSince(old(attempts), attempts))
      ensures |attempts| > |old(attempts)| ==>
        var seen := attempts[|old(attempts)|].waited;
        old(journal) <= seen && Checked(CurrentPlan(), hasBridge, seen[|old(journal)|..])
      ensures !old(status).Running? && |nodes| >= 2 && |attempts| == |old(attempts)| ==>
        old(journal) <= journal && TurnedAway(CurrentPlan(), hasBridge, journal[|old(journal)|..])
    {
      hide Advanced, AllInBounds, UnderWay, HopAt, PlanUpTo, Checked, TurnedAway;
      if status.Running? {
        return false;
      }
      status, currentStep := Running, 0;
      if |nodes| < 2 {
        status := Completed;
        return false;
      }
      ghost var plan := CurrentPlan();
      var payable := CheckFirst(plan);
      if payable {
        ok := RunSteps(old(Shown()), plan);
      } else {
        status, ok := Failed, false;
        NothingSpent(plan, attempts);
      }
      PlanStays(plan);
    }

    /** The checks made before the first step. */
    method CheckFirst(ghost plan: Plan) returns (ok: bool)
      requires |nodes| >= 2 && NoneMoved(journal) && PlanIs(plan)
      modifies AllNodes()`asset, this`journal, this`clock
      ensures unchanged(AllNodes()) && NoneMoved(journal) && PlanIs(plan) && old(journal) <= journal
      ensures ok ==> Checked(plan, hasBridge, journal[|old(journal)|..])
      ensures !ok ==> TurnedAway(plan, hasBridge, journal[|old(journal)|..])
    {
      hide EdgeAsset, AmountOf, Payable, ReadyUpTo, Checked, HopAt, PlanUpTo, CannotStart, BridgeMissing;
      var payable, first := CheckBalances();
      if !payable {
        assert journal[|old(journal)|..] == first;
        return false;
      }
      PlanStays(plan);
      ghost var read, bridges := journal, [];
      ok, bridges := CheckBridges();
      if ok {
        ChecksPass(plan, hasBridge, old(journal), first, read, bridges);
      } else {
        BridgeMissingLater(plan, hasBridge, read[|old(journal)|..], bridges);
        assert journal[|old(journal)|..] == read[|old(journal)|..] + bridges;
      }
    }

    lemma PlanStays(plan: Plan)
      requires PlanIs(plan)
      ensures plan == CurrentPlan()
    {
      assert forall i :: 0 <= i < |plan| ==> plan[i] == CurrentPlan()[i];
    }

    lemma NothingSpent(plan: Plan, made: seq<Attempt>)
      ensures AllInBounds(plan, NewSince(made, made))
    {
    }

    /** The loop of a run. */
    method RunSteps(ghost before: Snapshot, ghost plan: Plan) returns (ok: bool)
      requires |nodes| >= 2 && NoneMoved(journal) && PlanIs(plan)
      requires status.Running? && currentStep == 0 && attempts == before.attempts && lastStepTxHash == before.hashes
      modifies AllNodes()`asset, this`journal, this`clock, this`cancelled, this`attempts,
               this`status, this`currentStep, this`lastStepTxHash
      ensures unchanged(AllNodes()) && NoneMoved(journal) && PlanIs(plan) && ok == status.Completed?
      ensures Advanced(before, Shown(), plan, 0, false)
      ensures |attempts| > |before.attempts| && attempts[|before.attempts|].waited == old(journal)
      ensures AllInBounds(plan, NewSince(before.attempts, attempts))
    {
      hide Advanced, AllInBounds, UnderWay, HopAt;
      ghost var made: seq<Attempt> := [];
      var prevTxHash := "";
      var i := 0;
      BarelyUnderWay(before, plan, 0, false);
      while i < |nodes| - 1
        invariant 0 <= i == |made| < |nodes| && currentStep == i && PlanIs(plan)
        invariant UnderWay(before, plan, made, 0, false)
        invariant i > 0 ==> made[i - 1].result == Some(prevTxHash)
        invariant i == 0 ==> attempts == before.attempts && journal == old(journal)
        invariant i > 0 ==> |attempts| > |before.attempts| && attempts[|before.attempts|].waited == old(journal)
        invariant unchanged(AllNodes()) && NoneMoved(journal)
      {
        var edge := HopAt(i).Config();
        var r, more := Advance(i, edge.maxWait, edge.checkInterval, prevTxHash, 0, false, before, plan, made);
        if r.None? {
          return false;
        }
        prevTxHash, made, i := r.value, more, i + 1;
      }
      Finish(before, plan, made, 0, false);
      ok := true;
    }

    /** The path from step `start` on; the first step is tried at once. */
    method ResumeFromStep(start: int) returns (ok: bool)
      requires NoneMoved(journal)
      modifies AllNodes()`asset, this`journal, this`clock, this`cancelled, this`attempts,
               this`status, this`currentStep, this`lastStepTxHash
      ensures Kept()
      ensures old(status).Running? || !(0 <= start < |nodes| - 1) ==> !ok && Shown() == old(Shown())
      ensures !old(status).Running? && 0 <= start < |nodes| - 1 ==>
        && Resumed(old(Shown()), Shown(), CurrentPlan(), start) && ok == status.Completed?
        && |attempts| > |old(attempts)| && AllInBounds(CurrentPlan(), NewSince(old(attempts), attempts))
    {
      hide Advanced, AllInBounds, UnderWay, HopAt, PlanUpTo;
      if status.Running? || start < 0 || start >= |nodes| - 1 {
        return false;
      }
      ghost var plan := CurrentPlan();
      status, currentStep := Running, start;
      ok := ResumeSteps(start, old(Shown()), plan);
      PlanStays(plan);
    }

    /** The loop of a resume. */
    method ResumeSteps(start: nat, ghost before: Snapshot, ghost plan: Plan) returns (ok: bool)
      requires start < |nodes| - 1 && NoneMoved(journal) && PlanIs(plan)
      requires status.Running? && currentStep == start && attempts == before.attempts && lastStepTxHash == before.hashes
      modifies AllNodes()`asset, this`journal, this`clock, this`cancelled, this`attempts,
               this`status, this`currentStep, this`lastStepTxHash
      ensures unchanged(AllNodes()) && NoneMoved(journal) && PlanIs(plan) && ok == status.Completed?
      ensures Advanced(before, Shown(), plan, start, true) && |attempts| > |before.attempts|
      ensures AllInBounds(plan, NewSince(before.attempts, attempts))
    {
      hide Advanced, AllInBounds, UnderWay, HopAt;
      ghost var made: seq<Attempt> := [];
      var i := start;
      BarelyUnderWay(before, plan, start, true);
      while i < |nodes| - 1
        invariant start <= i == start + |made| < |nodes| && currentStep == i && PlanIs(plan)
        invariant UnderWay(before, plan, made, start, true)
        invariant |attempts| >= |before.attempts| && (i > start ==> |attempts| > |before.attempts|)
        invariant unchanged(AllNodes()) && NoneMoved(journal)
      {
        var prevTxHash := HashOf(lastStepTxHash, i - 1);
        LastRecorded(before, plan, made, start);
        var r, more := Advance(i, 30 * MINUTE, 15 * SECOND, prevTxHash, start, true, before, plan, made);
        if r.None? {
          return false;
        }
        made, i := more, i + 1;
      }
      Finish(before, plan, made, start, true);
      ok := true;
    }

    /** A hash that is not empty is found again as the previous step's. */
    lemma LastRecorded(before: Snapshot, plan: Plan, made: seq<Attempt>, start: nat)
      requires UnderWay(before, plan, made, start, true)
      ensures made != [] && made[|made| - 1].result.Some? && made[|made| - 1].result.value != "" ==>
        HashOf(lastStepTxHash, start + |made| - 1) == made[|made| - 1].result.value
    {
      hide LawfulAttempt, Recorded, HashOf;
      if made != [] {
        var n := |made| - 1;
        OrderlySuccesses(plan, made, start, true);
        OneMoreAttempt(made[..n], made[n]);
        assert made[..n] + [made[n]] == made;
        RecordedHash(before.hashes, Successes(made), start, true, start + n);
      }
    }

    /** A run, then up to `times` resumes at the step that failed, each only after a failure. */
    method RunAndResume(times: nat) returns (ghost h: seq<Snapshot>)
      requires NoneMoved(journal) && |nodes| >= 2 && !status.Running?
      modifies AllNodes()`asset, this`journal, this`clock, this`cancelled, this`attempts,
               this`status, this`currentStep, this`lastStepTxHash
      ensures Kept() && Session(h, CurrentPlan()) && h[0] == old(Shown()) && h[|h| - 1] == Shown()
    {
      hide Ran, Resumed, AllInBounds, HopAt, PlanUpTo, Session;
      ghost var plan := CurrentPlan();
      h := [Shown()];
      var ok := Run();
      PlanStays(plan);
      h := h + [Shown()];
      Begins(h, plan);
      SessionEnds(h, plan);
      var n := 0;
      while n < times && status.Failed?
        invariant |h| >= 2 && Session(h, plan) && h[0] == old(Shown()) && h[|h| - 1] == Shown() && Kept() && PlanIs(plan)
        invariant status.Completed? || (status.Failed? && FailedIndex(Shown()) < |plan|)
      {
        ok := ResumeFromStep(if currentStep <= 0 then 0 else currentStep - 1);
        PlanStays(plan);
        LongerSession(h, Shown(), plan);
        h := h + [Shown()];
        SessionEnds(h, plan);
        n := n + 1;
      }
      PlanStays(plan);
    }
  }
}
