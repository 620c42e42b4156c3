/**
 Attempts and sessions in which a transfer pipeline does not do what one would
 expect, each a lawful one (internal/pipeline/executor.go:41-172, 488-990).
 */
module TransferCases {
  import opened Attempts
  import opened Options
  import opened PipelineMoney
  import opened PipelineRuns
  import opened Transfers
  import Decimals
  import Histories
  import RouteProbe
  import Text

  lemma UsdtIsTrimmed()
    ensures Text.Trim("USDT") == "USDT" && Text.Trim("") == ""
  {
    assert Text.TrimLeft("USDT") == "USDT";
    assert Text.TrimRight("USDT") == "USDT";
  }

  lemma BscChain()
    ensures RouteProbe.NormalizeChainID("56") == "56"
  {
    assert "56"[1..] == "6" && "6"[1..] == "";
    assert Text.IndexOf("56", '-') == 2;
  }

  lemma BscIsANumber()
    ensures IsInt64("56")
  {
    assert Decimals.Front("56") == "5" && Decimals.Front("5") == "";
    assert Decimals.Number("5") == 5 && Decimals.Number("56") == 56;
  }

  // ------------------------------------------------------------ the wrong asset, the wrong balance

  const USDT_EDGE := Edge(All, 0.0, 0.0, "USDT", "", "BEP20", "", 0, 0, 0)
  const BSC_WALLET := Place(Wallet("56", "0xa"), "", "ZAMA", "0xzama")
  const OTHER_BSC_WALLET := Place(Wallet("56", "0xb"), "", "ZAMA", "0xzama")
  const BINANCE := Place(Exchange("binance"), "", "ZAMA", "")

  /** Two wallets on chain 56 that hold ZAMA, joined by a USDT edge. */
  const BETWEEN_WALLETS := Hop(BSC_WALLET, OTHER_BSC_WALLET, Some(USDT_EDGE))

  /** A wallet and an exchange that hold ZAMA, joined by a USDT edge. */
  const INTO_BINANCE := Hop(BSC_WALLET, BINANCE, Some(USDT_EDGE))

  /** The ZAMA of the exchange goes on to a wallet. */
  const OUT_OF_BINANCE := Hop(BINANCE, OTHER_BSC_WALLET, Some(USDT_EDGE.(asset := "")))

  lemma BetweenWallets()
    ensures BETWEEN_WALLETS.Connected() && BETWEEN_WALLETS.Asset() == "USDT" && BETWEEN_WALLETS.MovedAsset() == "ZAMA"
  {
    hide IsInt64;
    UsdtIsTrimmed();
    BscChain();
    BscIsANumber();
  }

  lemma IntoBinance()
    ensures INTO_BINANCE.Connected() && INTO_BINANCE.MovedAsset() == "USDT" && INTO_BINANCE.PricedAsset() == "ZAMA"
    ensures !INTO_BINANCE.NeedsBridge()
  {
    hide IsInt64, RouteProbe.NormalizeChainID;
    UsdtIsTrimmed();
    BscIsANumber();
  }

  lemma OutOfBinance()
    ensures OUT_OF_BINANCE.Connected()
  {
    hide IsInt64;
    UsdtIsTrimmed();
    BscChain();
  }

  /** Over the USDT edge between two wallets ZAMA is sent, and the step succeeds. */
  lemma UsdtEdgeSendsZama() returns (a: Attempt, move: Event)
    ensures BETWEEN_WALLETS.Asset() == "USDT" && LawfulAttempt(BETWEEN_WALLETS, a) && a.result.Some?
    ensures OnlyMove(a.log, move) && move.asset == "ZAMA"
  {
    hide LawfulAttempt, OnlyMove, Hop.Asset, Hop.MovedAsset, Hop.Connected;
    BetweenWallets();
    a, move := Delivery(BETWEEN_WALLETS, 0, true, "0x1");
  }

  /** A wallet with 1000 ZAMA and 5000 USDT sends 1000 USDT: the ZAMA it holds set the amount. */
  lemma ZamaBalanceSpendsUsdt() returns (a: Attempt, move: Event)
    ensures LawfulAttempt(INTO_BINANCE, a) && !a.forced && a.result == Some("0x1")
    ensures OnlyMove(a.log, move) && move.asset == "USDT" && move.amount == 1000.0 && move.receipt.Accepted?
    ensures Read(BSC_WALLET.account, "ZAMA", 1000.0) in a.log && Read(BSC_WALLET.account, "USDT", 5000.0) in a.log
  {
    hide LawfulAttempt, LawfulMove, OnlyMove, Hop.Asset, Hop.Network, Sendable, Confirmation;
    IntoBinance();
    SendableIsNear(1000.0, 18);
    ScaleOf18();
    var receipt := Accepted("0x1", "");
    move := Transfer(INTO_BINANCE, 1000.0, receipt);
    TransferIsLawful(INTO_BINANCE, false, 1000.0, 5000.0, 1000.0, receipt);
    AsksAreQuiet(INTO_BINANCE, 1000.0, 5000.0);
    WithdrawalAnswers(INTO_BINANCE, 1000.0, 5000.0);
    a := ConfirmedAttempt(INTO_BINANCE, 0, false, Asks(INTO_BINANCE, 1000.0, 5000.0), move);
  }

  /** The exchange is asked for a ZAMA deposit while USDT was sent to it: the step out of it is never reached after that. */
  lemma UsdtDepositIsAwaitedInVain()
    ensures INTO_BINANCE.Feasible(false) && OUT_OF_BINANCE.Feasible(true) && OUT_OF_BINANCE.from == INTO_BINANCE.to
    ensures forall made :: !PassesOn(INTO_BINANCE, OUT_OF_BINANCE, made)
  {
    hide PassesOn, Hop.MovedAsset, Hop.Connected;
    IntoBinance();
    OutOfBinance();
    PassesOnIff(INTO_BINANCE, OUT_OF_BINANCE);
  }

  const OKX := Place(Exchange("okx"), "", "USDT", "")
  const BINANCE_USDT := Place(Exchange("binance"), "", "USDT", "")
  const BEP20_EDGE := Edge(All, 0.0, 0.0, "", "", "BEP20", "", 0, 0, 0)

  /** USDT from one exchange straight into another, and from there to a wallet. */
  const OKX_TO_BINANCE := Hop(OKX, BINANCE_USDT, Some(BEP20_EDGE))
  const BINANCE_TO_BSC := Hop(BINANCE_USDT, OTHER_BSC_WALLET, Some(BEP20_EDGE))

  lemma UsdtAllTheWay()
    ensures OKX_TO_BINANCE.Feasible(false) && BINANCE_TO_BSC.Feasible(true)
    ensures OKX_TO_BINANCE.MovedAsset() == BINANCE_TO_BSC.from.asset == "USDT"
  {
    UsdtIsTrimmed();
    BscChain();
  }

  /** The assets agree, and yet the step out of the second exchange waits in vain: it looks for the first one's own ID. */
  lemma WithdrawalIdIsAwaitedInVain()
    ensures OKX_TO_BINANCE.Feasible(false) && BINANCE_TO_BSC.Feasible(true) && BINANCE_TO_BSC.from == OKX_TO_BINANCE.to
    ensures OKX_TO_BINANCE.MovedAsset() == BINANCE_TO_BSC.from.asset
    ensures WaitsInVain([OKX_TO_BINANCE, BINANCE_TO_BSC], 0, false, 0)
    ensures forall made :: !PassesOn(OKX_TO_BINANCE, BINANCE_TO_BSC, made)
  {
    hide PassesOn, Hop.MovedAsset, Hop.Connected;
    UsdtAllTheWay();
    PassesOnIff(OKX_TO_BINANCE, BINANCE_TO_BSC);
  }

  // ------------------------------------------------------------ a wallet that cannot send

  /** A chain named with a hyphen stands for its number when a way is chosen, but not when the wallet signs. */
  const HYPHEN_INTO_BINANCE := Hop(Place(Wallet("1-2", "0xa"), "", "USDT", "0xusdt"), BINANCE_USDT, Some(BEP20_EDGE))
  const HYPHEN_TO_BSC := Hop(HYPHEN_INTO_BINANCE.from, OTHER_BSC_WALLET, None)

  lemma HyphenChain()
    ensures RouteProbe.NormalizeChainID("1-2") == "1" && !IsInt64("1-2")
  {
    assert "1-2"[1..] == "-2" && "1-2"[..1] == "1";
    assert Text.IndexOf("1-2", '-') == 1;
    assert !Text.IsDigit("1-2"[1]);
  }

  lemma HyphenIntoBinance()
    ensures HYPHEN_INTO_BINANCE.Linked() && !HYPHEN_INTO_BINANCE.SourceReady()
  {
    hide IsInt64, RouteProbe.NormalizeChainID;
    HyphenChain();
  }

  lemma HyphenToBsc()
    ensures HYPHEN_TO_BSC.NeedsBridge() && HYPHEN_TO_BSC.Feasible(false)
  {
    hide IsInt64, RouteProbe.NormalizeChainID, EdgeAsset, WithdrawNetwork;
    HyphenChain();
    BscChain();
  }

  /** Such a wallet is linked to the exchange and never pays in, while the bridge takes its transfers. */
  lemma HyphenChainPaysInNothing()
    ensures HYPHEN_INTO_BINANCE.Linked() && !CanSend(HYPHEN_INTO_BINANCE, false) && !CanSend(HYPHEN_INTO_BINANCE, true)
    ensures HYPHEN_TO_BSC.NeedsBridge() && CanSend(HYPHEN_TO_BSC, false)
  {
    HyphenIntoBinance();
    HyphenToBsc();
    hide CanSend, Hop.Linked, Hop.SourceReady, Hop.NeedsBridge;
    CanSendIff(HYPHEN_INTO_BINANCE, false);
    CanSendIff(HYPHEN_INTO_BINANCE, true);
    CanSendIff(HYPHEN_TO_BSC, false);
  }

  // ------------------------------------------------------------ sent twice

  const TO_BSC := Hop(Place(Exchange("binance"), "", "USDT", ""), Place(Wallet("56", "0xb"), "", "USDT", ""), None)

  lemma ToBscIsFeasible()
    ensures TO_BSC.Feasible(false) && !TO_BSC.NeedsBridge()
  {
    BscChain();
    UsdtIsTrimmed();
  }

  lemma ToBscMovesUsdt()
    ensures TO_BSC.MovedAsset() == "USDT"
  {
    UsdtIsTrimmed();
  }

  lemma OnlyAttempt(plan: Plan, a: Attempt, resumed: bool)
    requires plan != [] && a.step == 0 && !a.forced && LawfulAttempt(plan[0], a)
    ensures Orderly(plan, [a], 0, resumed)
    ensures Successes([a]) == if a.result.Some? then [Success(0, a.result.value)] else []
  {
    hide LawfulAttempt;
    OneMoreAttempt([], a);
    assert [] + [a] == [a];
  }

  /** A run that fails in its only step and the resume after it that succeeds. */
  lemma FailThenSucceed(first: Attempt, second: Attempt) returns (h: seq<Snapshot>)
    requires first.step == second.step == 0 && !first.forced && !second.forced
    requires first.result.None? && second.result.Some? && second.result.value != ""
    requires LawfulAttempt(TO_BSC, first) && LawfulAttempt(TO_BSC, second)
    ensures Session(h, [TO_BSC]) && h[0].attempts <= h[|h| - 1].attempts
    ensures h[|h| - 1].status.Completed? && AttemptsIn(h) == [first, second]
  {
    hide LawfulAttempt, Orderly, Successes;
    var plan, hash := [TO_BSC], second.result.value;
    OnlyAttempt(plan, first, false);
    OnlyAttempt(plan, second, true);
    var s0 := Snapshot(Idle, 0, map[], []);
    var s1 := Snapshot(Failed, 1, map[], [first]);
    var s2 := Snapshot(Completed, 1, map[0 := hash], [first, second]);
    h := [s0, s1, s2];
    assert NewSince(s0.attempts, s1.attempts) == [first] && NewSince(s1.attempts, s2.attempts) == [second];
    assert Advanced(s0, s1, plan, 0, false);
    assert Recorded(map[], [Success(0, hash)], true) == map[0 := hash];
    assert PickedUp(s1, s2, plan);
    assert AttemptsIn(h) == [first, second];
  }

  lemma CountOfTwo(what: Counting, first: Attempt, second: Attempt)
    requires first.step == second.step == 0
    ensures TransferCount(what, [first, second], 0) == MoveCount(what, first.log) + MoveCount(what, second.log)
  {
    hide MoveCount;
    assert TransferCount(what, [], 0) == 0;
    assert [first][..0] == [] && [first, second][..1] == [first];
    assert TransferCount(what, [first], 0) == MoveCount(what, first.log);
  }

  /** A withdrawal that is accepted but not confirmed in time, and the resume after it: the money leaves twice. */
  lemma ResumeSendsAgain() returns (h: seq<Snapshot>)
    ensures Session(h, [TO_BSC]) && h[0].attempts <= h[|h| - 1].attempts
    ensures h[|h| - 1].status.Completed? && TransferCount(Payments, AttemptsIn(h), 0) == 2
  {
    hide LawfulAttempt, MoveCount, TransferCount, Session, OnlyMove, Hop.Feasible, Hop.NeedsBridge;
    ToBscIsFeasible();
    var first, m := Failure(TO_BSC, 0, false, true);
    var second, n := Delivery(TO_BSC, 0, false, "w2");
    AcceptedCounts(Payments, TO_BSC, first, m);
    AcceptedCounts(Payments, TO_BSC, second, n);
    h := FailThenSucceed(first, second);
    CountOfTwo(Payments, first, second);
  }

  /** A withdrawal that is refused, and the resume after it: asked for twice, and sent once if the refusal was true. */
  lemma RefusedIsAskedAgain() returns (h: seq<Snapshot>)
    ensures Session(h, [TO_BSC]) && h[0].attempts <= h[|h| - 1].attempts && h[|h| - 1].status.Completed?
    ensures TransferCount(Requests, AttemptsIn(h), 0) == 2 && TransferCount(Payments, AttemptsIn(h), 0) == 1
  {
    hide LawfulAttempt, MoveCount, TransferCount, Session, Hop.Feasible, Hop.NeedsBridge;
    ToBscIsFeasible();
    var first, m := Failure(TO_BSC, 0, false, false);
    var second, n := Delivery(TO_BSC, 0, false, "w2");
    OnlyMoveCounts(Requests, TO_BSC, first, m);
    OnlyMoveCounts(Payments, TO_BSC, first, m);
    AcceptedCounts(Requests, TO_BSC, second, n);
    AcceptedCounts(Payments, TO_BSC, second, n);
    h := FailThenSucceed(first, second);
    CountOfTwo(Requests, first, second);
    CountOfTwo(Payments, first, second);
  }

  /** What binance asks and answers about a withdrawal that it accepts under "w1" and rejects afterwards. */
  function Rejection(): Event {
    Asked(TO_BSC.from.account, "USDT", "w1", Histories.History([Histories.WithdrawRecord("w1", "REJECTED", "")]))
  }

  lemma RejectedAttempt() returns (a: Attempt, move: Event)
    ensures a.step == 0 && !a.forced && a.result.None? && LawfulAttempt(TO_BSC, a)
    ensures MoveCount(Acceptances, a.log) == 1 && MoveCount(Payments, a.log) == 0
  {
    hide LawfulMove, LawfulLog, Hop.Feasible, Hop.NeedsBridge, Hop.Network, Hop.Connected, Hop.MovedAsset, MoveCount;
    ToBscIsFeasible();
    ToBscMovesUsdt();
    var balance, held, amount := AffordableBalances(TO_BSC, false);
    var asks, receipt := Asks(TO_BSC, balance, held), Accepted("w1", "");
    move := Transfer(TO_BSC, amount, receipt);
    TransferIsLawful(TO_BSC, false, balance, held, amount, receipt);
    AsksAreQuiet(TO_BSC, balance, held);
    TransferredLawfully(TO_BSC, false, asks, move);
    AnswersStay(TO_BSC, false, asks + [move], [Rejection(), GaveUp], "USDT", "w1", "");
    a := Attempt(0, false, [], asks + [move] + [Rejection(), GaveUp], None);
    assert Unasked(asks + [move]) && NothingConfirms(TO_BSC, [Rejection(), GaveUp]);
    NothingConfirmsJoined(TO_BSC, asks + [move], [Rejection(), GaveUp]);
    assert GaveUp in a.log && Stops(TO_BSC, GaveUp);
    RejectedCounts(asks, move, a);
  }

  lemma RejectedCounts(asks: Log, move: Event, a: Attempt)
    requires Quiet(asks) && move.Moved? && move.receipt == Accepted("w1", "")
    requires a.log == asks + [move] + [Rejection(), GaveUp] && LawfulLog(TO_BSC, a.forced, a.log)
    ensures MoveCount(Acceptances, a.log) == 1 && MoveCount(Payments, a.log) == 0
  {
    hide LawfulLog;
    LawfulMovesOnce(Acceptances, TO_BSC, a.forced, a.log);
    LawfulMovesOnce(Payments, TO_BSC, a.forced, a.log);
    assert Rejection() in a.log && Says(Rejection(), Histories.Rejected);
    assert move in a.log && Counts(Acceptances, a.log, move);
    assert forall e <- a.log :: e.Moved? ==> e == move;
  }

  /** A withdrawal that is accepted and then rejected, and the resume after it: accepted twice, and paid once. */
  lemma RejectedIsSentAgain() returns (h: seq<Snapshot>)
    ensures Session(h, [TO_BSC]) && h[0].attempts <= h[|h| - 1].attempts && h[|h| - 1].status.Completed?
    ensures TransferCount(Acceptances, AttemptsIn(h), 0) == 2 && TransferCount(Payments, AttemptsIn(h), 0) == 1
  {
    hide LawfulAttempt, MoveCount, TransferCount, Session, OnlyMove, NoneFailed, Hop.Feasible, Hop.NeedsBridge;
    ToBscIsFeasible();
    var first, m := RejectedAttempt();
    var second, n := Delivery(TO_BSC, 0, false, "w2");
    AcceptedCounts(Acceptances, TO_BSC, second, n);
    AcceptedCounts(Payments, TO_BSC, second, n);
    h := FailThenSucceed(first, second);
    CountOfTwo(Acceptances, first, second);
    CountOfTwo(Payments, first, second);
  }

  // ------------------------------------------------------------ a stale hash

  const BRIDGED := Hop(Place(Wallet("1", "0xa"), "", "USDT", ""), Place(Wallet("56", "0xa"), "", "USDT", ""), None)

  lemma EthereumToBsc()
    ensures BRIDGED.NeedsBridge() && BRIDGED.Feasible(false)
  {
    BscChain();
    assert "1"[1..] == "";
    assert Text.IndexOf("1", '-') == 1;
  }

  /** An earlier run recorded "0xold"; the step is then bridged in a resume that gets no hash, and "0xold" stays. */
  lemma StaleHashSurvives() returns (h: seq<Snapshot>)
    ensures Session(h, [BRIDGED]) && h[0].attempts <= h[|h| - 1].attempts
    ensures h[|h| - 1].status.Completed? && !Covers(h[|h| - 1].hashes, DoneIn(h))
  {
    hide LawfulAttempt, Orderly, Successes, OnlyMove, Hop.Feasible, Hop.NeedsBridge;
    var plan := [BRIDGED];
    EthereumToBsc();
    var bridged, _ := Delivery(BRIDGED, 0, false, "");
    OnlyAttempt(plan, bridged, true);
    var s0 := Snapshot(Completed, 1, map[0 := "0xold"], []);
    var s1 := Snapshot(Failed, 0, map[0 := "0xold"], []);
    var s2 := Snapshot(Completed, 1, map[0 := "0xold"], [bridged]);
    h := [s0, s1, s2];
    assert NewSince(s1.attempts, s2.attempts) == [bridged];
    assert Recorded(s1.hashes, [Success(0, "")], true) == s1.hashes;
    assert PickedUp(s1, s2, plan);
    assert AttemptsIn(h) == [bridged];
    assert DoneIn(h)[0] == Success(0, "");
  }
}
