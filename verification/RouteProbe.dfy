/**
 Probing a path segment by segment and collapsing exchange -> chain -> exchange
 (internal/detector/routeprobe.go and internal/pipeline/route_probe.go).

 The two copies differ in how a node ID is read, in the segments they build and
 in what the merge does with the second fee; `Copy` says which one is meant.
 */
module RouteProbe {
  import opened Options
  import opened Text
  import opened RouteGraph
  import opened PipelineBuilder

  const ALT_PREFIX := "onchain-"
  const MAX_PROBE_NODES := 4

  datatype Copy = Detector | Pipeline

  datatype Kind = Withdraw | Deposit | Bridge | ExchangeToExchange

  /** A fee text: "", "0", another numeral, or a text that does not parse as a number. */
  datatype Fee = Blank | Zero | Numeral(amount: real) | Malformed
  {
    function Value(): real {
      if Numeral? then amount else 0.0
    }

    predicate Significant() {
      Numeral? || Malformed?
    }
  }

  function FormatFee(v: real): Fee {
    if v == 0.0 then Zero else Numeral(v)
  }

  datatype Segment = Segment(from: Node, to: Node, kind: Kind, fee: Fee, time: int, available: bool,
                             protocol: string, withdrawChain: string)

  // ------------------------------------------------------------ node IDs

  /** The text after "onchain-" up to the next dash. */
  function AltChain(id: Node): string
    requires ALT_PREFIX <= id
  {
    var raw := id[|ALT_PREFIX|..];
    raw[..IndexOf(raw, '-')]
  }

  /** "1-2" is chain 1; anything without a leading number and a dash is kept. */
  function NormalizeChainID(chainId: string): string {
    var i := IndexOf(chainId, '-');
    if 0 < i < |chainId| && Trim(chainId[..i]) != "" && AllDigits(Trim(chainId[..i]))
    then Trim(chainId[..i]) else chainId
  }

  /** The chain a node ID names, or "" for an exchange. */
  function ChainOf(copy: Copy, id: Node): string {
    match copy
    case Detector =>
      if IsOnchain(id) then id[|ONCHAIN_PREFIX|..]
      else if ALT_PREFIX <= id then AltChain(id)
      else ""
    case Pipeline =>
      if ALT_PREFIX <= id && AltChain(id) != "" then AltChain(id)
      else if IsOnchain(id) then NormalizeChainID(id[|ONCHAIN_PREFIX|..])
      else ""
  }

  // ------------------------------------------------------------ merging

  /** `a` withdraws to a chain node and `b` deposits from it. */
  predicate Collapsible(copy: Copy, a: Segment, b: Segment) {
    ChainOf(copy, a.from) == "" && ChainOf(copy, a.to) != "" && a.to == b.from && ChainOf(copy, b.to) == ""
  }

  function MergedFee(copy: Copy, a: Fee, b: Fee): Fee {
    match copy
    case Detector => a
    case Pipeline =>
      if !b.Significant() then a
      else if !a.Significant() then b
      else if a.Numeral? && b.Numeral? then FormatFee(a.amount + b.amount)
      else a
  }

  function Collapse(copy: Copy, a: Segment, b: Segment): Segment {
    Segment(a.from, b.to, ExchangeToExchange, MergedFee(copy, a.fee, b.fee), a.time + b.time,
            a.available && b.available, "", ChainOf(copy, a.to))
  }

  function Merged(copy: Copy, segs: seq<Segment>): seq<Segment> {
    if |segs| < 2 then segs
    else if Collapsible(copy, segs[0], segs[1]) then [Collapse(copy, segs[0], segs[1])] + Merged(copy, segs[2..])
    else [segs[0]] + Merged(copy, segs[1..])
  }

  predicate At(path: Path, segs: seq<Segment>, i: int)
    requires |path| == |segs| + 1 && 0 <= i < |segs|
  {
    segs[i].from == path[i] && segs[i].to == path[i + 1]
  }

  /** One more node than segments, each segment between its two nodes. */
  ghost predicate Shaped(path: Path, segs: seq<Segment>) {
    |path| == |segs| + 1 && forall i :: 0 <= i < |segs| ==> At(path, segs, i)
  }

  /** The output so far is a well-shaped walk from the start of `path` to its node `i`. */
  ghost predicate WalkedTo(path: Path, outPath: Path, outSegs: seq<Segment>, i: int)
    requires 0 <= i < |path|
  {
    Shaped(outPath, outSegs) && outPath[0] == path[0] && outPath[|outPath| - 1] == path[i]
  }

  lemma WalkOn(path: Path, outPath: Path, outSegs: seq<Segment>, i: nat, s: Segment, k: nat)
    requires i < k < |path| && WalkedTo(path, outPath, outSegs, i)
    requires s.from == path[i] && s.to == path[k]
    ensures WalkedTo(path, outPath + [path[k]], outSegs + [s], k)
  {
    var p, t := outPath + [path[k]], outSegs + [s];
    forall j | 0 <= j < |t| ensures At(p, t, j) {
      assert j < |outSegs| ==> At(outPath, outSegs, j);
    }
  }

  lemma MergedStep(copy: Copy, segs: seq<Segment>, i: nat)
    requires i < |segs|
    ensures i + 1 < |segs| && Collapsible(copy, segs[i], segs[i + 1]) ==>
      Merged(copy, segs[i..]) == [Collapse(copy, segs[i], segs[i + 1])] + Merged(copy, segs[i + 2..])
    ensures !(i + 1 < |segs| && Collapsible(copy, segs[i], segs[i + 1])) ==>
      Merged(copy, segs[i..]) == [segs[i]] + Merged(copy, segs[i + 1..])
  {
    assert segs[i..][1..] == segs[i + 1..];
    if i + 1 < |segs| {
      assert segs[i..][2..] == segs[i + 2..];
    }
  }

  method MergeSegments(copy: Copy, path: Path, segs: seq<Segment>) returns (outPath: Path, outSegs: seq<Segment>)
    requires |segs| >= 2 ==> |path| > 0
    ensures outSegs == Merged(copy, segs)
    ensures Shaped(path, segs) ==> Shaped(outPath, outSegs) && outPath[0] == path[0] && outPath[|outPath| - 1] == path[|path| - 1]
  {
    if |segs| < 2 {
      return path, segs;
    }
    outPath, outSegs := [path[0]], [];
    ghost var shaped := Shaped(path, segs);
    var i := 0;
    while i < |segs|
      invariant 0 <= i <= |segs|
      invariant outSegs + Merged(copy, segs[i..]) == Merged(copy, segs)
      invariant shaped ==> WalkedTo(path, outPath, outSegs, i)
    {
      MergedStep(copy, segs, i);
      assert shaped ==> At(path, segs, i);
      var cur := segs[i];
      if ChainOf(copy, cur.from) == "" && ChainOf(copy, cur.to) != "" && i + 1 < |segs| {
        assert shaped ==> At(path, segs, i + 1);
        var next := segs[i + 1];
        if cur.to == next.from && ChainOf(copy, next.to) == "" {
          var merged := Collapse(copy, cur, next);
          if shaped {
            WalkOn(path, outPath, outSegs, i, merged, i + 2);
          }
          AppendAssociates(outSegs, [merged], Merged(copy, segs[i + 2..]));
          outSegs := outSegs + [merged];
          outPath := outPath + [next.to];
          i := i + 2;
          continue;
        }
      }
      if shaped {
        WalkOn(path, outPath, outSegs, i, cur, i + 1);
      }
      AppendAssociates(outSegs, [cur], Merged(copy, segs[i + 1..]));
      outSegs := outSegs + [cur];
      if i + 1 < |path| {
        outPath := outPath + [path[i + 1]];
      }
      i := i + 1;
    }
  }

  // ------------------------------------------------------------ what merging keeps

  function TotalTime(segs: seq<Segment>): int {
    if segs == [] then 0 else segs[0].time + TotalTime(segs[1..])
  }

  function TotalFee(segs: seq<Segment>): real {
    if segs == [] then 0.0 else segs[0].fee.Value() + TotalFee(segs[1..])
  }

  predicate AllAvailable(segs: seq<Segment>) {
    forall s :: s in segs ==> s.available
  }

  /** No exchange -> chain -> exchange pair is left. */
  ghost predicate Settled(copy: Copy, segs: seq<Segment>) {
    forall i :: 0 <= i < |segs| - 1 ==> !Collapsible(copy, segs[i], segs[i + 1])
  }

  lemma {:induction false} MergeKeepsTime(copy: Copy, segs: seq<Segment>)
    ensures TotalTime(Merged(copy, segs)) == TotalTime(segs)
  {
    if |segs| >= 2 {
      if Collapsible(copy, segs[0], segs[1]) {
        MergeKeepsTime(copy, segs[2..]);
        assert segs[1..][1..] == segs[2..];
      } else {
        MergeKeepsTime(copy, segs[1..]);
      }
    }
  }

  lemma {:induction false} MergeKeepsAvailability(copy: Copy, segs: seq<Segment>)
    ensures AllAvailable(Merged(copy, segs)) <==> AllAvailable(segs)
  {
    if |segs| >= 2 {
      var k := if Collapsible(copy, segs[0], segs[1]) then 2 else 1;
      MergeKeepsAvailability(copy, segs[k..]);
      assert segs == segs[..k] + segs[k..];
      assert segs[..k] == if k == 2 then [segs[0], segs[1]] else [segs[0]];
    }
  }

  lemma {:induction false} MergeSettles(copy: Copy, segs: seq<Segment>)
    ensures Settled(copy, Merged(copy, segs))
    ensures |segs| > 0 ==> |Merged(copy, segs)| > 0 && Merged(copy, segs)[0].from == segs[0].from
    ensures |segs| > 0 ==> Merged(copy, segs)[0] == segs[0] || (|segs| > 1 && Collapsible(copy, segs[0], segs[1]))
  {
    if |segs| >= 2 {
      var k := if Collapsible(copy, segs[0], segs[1]) then 2 else 1;
      MergeSettles(copy, segs[k..]);
      var m, rest := Merged(copy, segs), Merged(copy, segs[k..]);
      forall i | 0 <= i < |m| - 1 ensures !Collapsible(copy, m[i], m[i + 1]) {
        if i > 0 {
          assert m[i] == rest[i - 1] && m[i + 1] == rest[i];
        } else {
          assert m[1] == rest[0];
        }
      }
    }
  }

  lemma {:induction false} SettledIsFixed(copy: Copy, segs: seq<Segment>)
    requires Settled(copy, segs)
    ensures Merged(copy, segs) == segs
  {
    if |segs| >= 2 {
      assert !Collapsible(copy, segs[0], segs[0 + 1]);
      SettledIsFixed(copy, segs[1..]);
    }
  }

  lemma {:induction false} MergeTwice(copy: Copy, segs: seq<Segment>)
    ensures Merged(copy, Merged(copy, segs)) == Merged(copy, segs)
  {
    MergeSettles(copy, segs);
    SettledIsFixed(copy, Merged(copy, segs));
  }

  // ------------------------------------------------------------ fees

  /** What collapsing `a` and `b` drops from the numeric total. */
  function Dropped(copy: Copy, a: Segment, b: Segment): real {
    if !Collapsible(copy, a, b) then 0.0
    else match copy
      case Detector => b.fee.Value()
      case Pipeline => if a.fee.Malformed? then b.fee.Value() else 0.0
  }

  function TotalDropped(copy: Copy, segs: seq<Segment>): real {
    if |segs| < 2 then 0.0 else Dropped(copy, segs[0], segs[1]) + TotalDropped(copy, segs[1..])
  }

  /** The fee total changes by exactly what the collapsed pairs drop. */
  lemma {:induction false} MergeFeeAccount(copy: Copy, segs: seq<Segment>)
    ensures TotalFee(Merged(copy, segs)) + TotalDropped(copy, segs) == TotalFee(segs)
  {
    if |segs| >= 2 {
      if Collapsible(copy, segs[0], segs[1]) {
        MergeFeeAccount(copy, segs[2..]);
        assert segs[1..][1..] == segs[2..];
        if |segs| > 2 {
          assert !Collapsible(copy, segs[1], segs[2]);
        }
        assert TotalDropped(copy, segs[1..]) == TotalDropped(copy, segs[2..]);
      } else {
        MergeFeeAccount(copy, segs[1..]);
      }
    }
  }

  /** A collapsed pair whose second fee the merge loses. */
  ghost predicate LosesFee(copy: Copy, segs: seq<Segment>, i: int)
    requires 0 <= i < |segs| - 1
  {
    && Collapsible(copy, segs[i], segs[i + 1])
    && segs[i + 1].fee.Value() != 0.0
    && (copy == Detector || segs[i].fee.Malformed?)
  }

  lemma {:induction false} NoLossNoDrop(copy: Copy, segs: seq<Segment>)
    requires forall i :: 0 <= i < |segs| - 1 ==> !LosesFee(copy, segs, i)
    ensures TotalDropped(copy, segs) == 0.0
  {
    if |segs| >= 2 {
      forall i | 0 <= i < |segs[1..]| - 1 ensures !LosesFee(copy, segs[1..], i) {
        assert !LosesFee(copy, segs, i + 1);
      }
      NoLossNoDrop(copy, segs[1..]);
      assert !LosesFee(copy, segs, 0);
    }
  }

  lemma {:induction false} DroppedNothing(copy: Copy, segs: seq<Segment>)
    requires forall s :: s in segs ==> s.fee.Value() >= 0.0
    ensures TotalDropped(copy, segs) >= 0.0
    ensures TotalDropped(copy, segs) == 0.0 <==> forall i :: 0 <= i < |segs| - 1 ==> !LosesFee(copy, segs, i)
  {
    if |segs| >= 2 {
      DroppedNothing(copy, segs[1..]);
      assert segs[1] in segs;
      assert Dropped(copy, segs[0], segs[1]) == 0.0 <==> !LosesFee(copy, segs, 0);
      forall i | 0 <= i < |segs| - 2 ensures LosesFee(copy, segs[1..], i) <==> LosesFee(copy, segs, i + 1) {
      }
      if TotalDropped(copy, segs) == 0.0 {
        forall i | 0 <= i < |segs| - 1 ensures !LosesFee(copy, segs, i) {
          if i > 0 {
            assert !LosesFee(copy, segs[1..], i - 1);
          }
        }
      }
      if forall i :: 0 <= i < |segs| - 1 ==> !LosesFee(copy, segs, i) {
        NoLossNoDrop(copy, segs);
      }
    }
  }

  /** With fees that are not negative, the total is kept exactly when no collapsed pair loses a fee. */
  lemma MergeKeepsFeeIff(copy: Copy, segs: seq<Segment>)
    requires forall s :: s in segs ==> s.fee.Value() >= 0.0
    ensures TotalFee(Merged(copy, segs)) == TotalFee(segs) <==> forall i :: 0 <= i < |segs| - 1 ==> !LosesFee(copy, segs, i)
  {
    MergeFeeAccount(copy, segs);
    DroppedNothing(copy, segs);
  }

  /** The family is not empty: a malformed first fee makes the pipeline's merge forget the second. */
  lemma MergeCanLoseFee() returns (segs: seq<Segment>)
    ensures TotalFee(Merged(Pipeline, segs)) != TotalFee(segs)
  {
    var a := Segment("binance", "onchain:56", Withdraw, Malformed, 60, true, "", "");
    var b := Segment("onchain:56", "bitget", Deposit, Numeral(1.0), 60, true, "", "");
    segs := [a, b];
    assert "onchain:56"[|ONCHAIN_PREFIX|..] == "56";
    assert segs[1..] == [b];
    assert Collapsible(Pipeline, a, b);
    MergeFeeAccount(Pipeline, segs);
  }

  // ------------------------------------------------------------ probing

  datatype ProtocolQuote = ProtocolQuote(protocol: string, supported: bool, fee: Fee, time: int)

  /** A bridge quote: an error or nothing, or a list of protocols that may be empty. */
  datatype Quote = NoQuote | Quoted(protocols: seq<ProtocolQuote>)

  /** What the bridge manager answers for a source chain, a target chain, a token and an amount. */
  type BridgeManager = (string, string, string, string) -> Quote

  datatype Request = Request(symbol: string, path: Path, source: Node, destination: Node,
                             probeAmount: string, bridgeProtocol: string)
  {
    function Symbol(): string {
      if symbol == "" then "USDT" else symbol
    }

    function Amount(): string {
      if probeAmount == "" then "100" else probeAmount
    }

    /** The requested path, or source and destination, cut to four nodes. */
    function ProbedPath(): Path {
      var p := if path == [] && source != "" && destination != "" then [source, destination] else path;
      if |p| > MAX_PROBE_NODES then p[..MAX_PROBE_NODES] else p
    }
  }

  function CanWithdrawToChain(reg: Registry, exchange: Node, asset: string, chainId: string): bool {
    var l := reg.withdraw(exchange, asset);
    !l.failed && |l.nets| > 0 && exists n :: n in l.nets && Trim(n.chainId) == Trim(chainId) && n.withdrawEnable
  }

  function CanDepositFromChain(reg: Registry, exchange: Node, asset: string, chainId: string): bool {
    var l := reg.deposit(exchange, asset);
    !l.failed && |l.nets| > 0 && exists n :: n in l.nets && Trim(n.chainId) == Trim(chainId)
  }

  function DetectorSegment(req: Request, bridge: Option<BridgeManager>, reg: Option<Registry>, from: Node, to: Node): Segment {
    var a, b := ChainOf(Detector, from), ChainOf(Detector, to);
    if a != "" && b != "" && a != b then
      var q := if bridge.Some? then bridge.value(a, b, req.Symbol(), req.Amount()) else NoQuote;
      if q.Quoted? && |q.protocols| > 0
      then Segment(from, to, Bridge, Zero, 120, q.protocols[0].supported, q.protocols[0].protocol, "")
      else Segment(from, to, Bridge, Zero, 120, false, "", "")
    else if a == "" && b == "" then
      Segment(from, to, ExchangeToExchange, Zero, 60, false, "", "")
    else if a == "" then
      Segment(from, to, Withdraw, Zero, 60, reg.Some? && CanWithdrawToChain(reg.value, from, req.Symbol(), b), "", "")
    else
      Segment(from, to, Deposit, Zero, 60, reg.Some? && CanDepositFromChain(reg.value, to, req.Symbol(), a), "", "")
  }

  /** The first quote of the requested protocol. */
  function FindProtocol(protocols: seq<ProtocolQuote>, name: string): Option<ProtocolQuote> {
    if protocols == [] then None
    else if EqualFold(protocols[0].protocol, name) then Some(protocols[0])
    else FindProtocol(protocols[1..], name)
  }

  function PipelineBridge(req: Request, q: Quote, from: Node, to: Node): Segment {
    if q.NoQuote? || |q.protocols| == 0 then Segment(from, to, Bridge, Zero, 300, false, "", "")
    else
      var wanted := req.bridgeProtocol != "" && req.bridgeProtocol != "auto";
      var found := if wanted then FindProtocol(q.protocols, req.bridgeProtocol) else None;
      var pq := if found.Some? then found.value else q.protocols[0];
      var available := (wanted ==> found.Some?) && pq.supported;
      if pq.supported
      then Segment(from, to, Bridge, pq.fee, if pq.time > 0 then pq.time else 120, available, pq.protocol, "")
      else Segment(from, to, Bridge, Zero, 120, false, pq.protocol, "")
  }

  /** Place `i` holds the first quote of the protocol, whatever its case. */
  predicate FirstQuoteOf(protocols: seq<ProtocolQuote>, name: string, i: nat) {
    i < |protocols| && EqualFold(protocols[i].protocol, name) && forall j :: 0 <= j < i ==> !EqualFold(protocols[j].protocol, name)
  }

  lemma {:induction false} FindsFirst(protocols: seq<ProtocolQuote>, name: string, i: nat)
    requires FirstQuoteOf(protocols, name, i)
    ensures FindProtocol(protocols, name) == Some(protocols[i])
  {
    if i > 0 {
      assert FirstQuoteOf(protocols[1..], name, i - 1);
      FindsFirst(protocols[1..], name, i - 1);
    }
  }

  lemma {:induction false} FindsNone(protocols: seq<ProtocolQuote>, name: string)
    requires forall p <- protocols :: !EqualFold(p.protocol, name)
    ensures FindProtocol(protocols, name) == None
  {
    if protocols != [] {
      FindsNone(protocols[1..], name);
    }
  }

  /** The segment shows this quote: its name and, when it is supported, its fee and its time or two minutes. */
  predicate ShowsQuote(s: Segment, pq: ProtocolQuote) {
    && s.protocol == pq.protocol
    && (if pq.supported then s.fee == pq.fee && s.time == (if pq.time > 0 then pq.time else 120) else s.fee == Zero && s.time == 120)
  }

  /**
   A bridge asked for by name is the first one quoted under that name, in any case, and open exactly when that quote
   is supported; without such a quote it is not open. Asked for in no name or automatically it is the first one quoted.
   A bridge that is not quoted is not open and counts for five minutes.
   */
  lemma BridgeIsTheOneAskedFor(req: Request, q: Quote, from: Node, to: Node, i: nat)
    requires q.Quoted? && i < |q.protocols|
    ensures var s, none := PipelineBridge(req, q, from, to), PipelineBridge(req, NoQuote, from, to);
      !none.available && none.time == 300 &&
      if req.bridgeProtocol in {"", "auto"}
      then ShowsQuote(s, q.protocols[0]) && (s.available <==> q.protocols[0].supported)
      else && (FirstQuoteOf(q.protocols, req.bridgeProtocol, i) ==>
                 ShowsQuote(s, q.protocols[i]) && (s.available <==> q.protocols[i].supported))
           && ((forall p <- q.protocols :: !EqualFold(p.protocol, req.bridgeProtocol)) ==> !s.available)
  {
    hide EqualFold;
    if FirstQuoteOf(q.protocols, req.bridgeProtocol, i) {
      FindsFirst(q.protocols, req.bridgeProtocol, i);
    }
    if forall p <- q.protocols :: !EqualFold(p.protocol, req.bridgeProtocol) {
      FindsNone(q.protocols, req.bridgeProtocol);
    }
  }

  function PipelineSegment(req: Request, bridge: Option<BridgeManager>, from: Node, to: Node): Segment {
    var a, b := ChainOf(Pipeline, from), ChainOf(Pipeline, to);
    if a != "" && b != "" && a != b then
      if bridge.Some? then PipelineBridge(req, bridge.value(a, b, req.Symbol(), req.Amount()), from, to)
      else Segment(from, to, Bridge, Zero, 120, false, "", "")
    else if a == "" && b == "" then Segment(from, to, ExchangeToExchange, Zero, 120, true, "", "")
    else if a == "" then Segment(from, to, Withdraw, Zero, 60, true, "", "")
    else Segment(from, to, Deposit, Zero, 60, true, "", "")
  }

  function ProbedSegment(copy: Copy, req: Request, bridge: Option<BridgeManager>, reg: Option<Registry>,
                         from: Node, to: Node): (s: Segment)
    ensures s.from == from && s.to == to
  {
    match copy
    case Detector => DetectorSegment(req, bridge, reg, from, to)
    case Pipeline => PipelineSegment(req, bridge, from, to)
  }

  /** Which ends are on a chain, and on which, decides what kind of transfer a probed segment is. */
  lemma EndsDecideKind(copy: Copy, req: Request, bridge: Option<BridgeManager>, reg: Option<Registry>, from: Node, to: Node)
    ensures var s, a, b := ProbedSegment(copy, req, bridge, reg, from, to), ChainOf(copy, from), ChainOf(copy, to);
      && (s.kind == ExchangeToExchange <==> a == "" && b == "")
      && (s.kind == Withdraw <==> a == "" && b != "")
      && (s.kind == Deposit <==> a != "" && (b == "" || b == a))
      && (s.kind == Bridge <==> a != "" && b != "" && a != b)
  {
  }

  /** The quote that is asked for between two chains: of the symbol, or USDT, for the probed amount, or 100. */
  predicate QuoteAskedFor(req: Request, bridge: Option<BridgeManager>, a: string, b: string, q: Quote) {
    bridge.Some? && q == bridge.value(a, b, if req.symbol == "" then "USDT" else req.symbol,
                                      if req.probeAmount == "" then "100" else req.probeAmount)
  }

  /**
   The path probe takes every transfer that needs no bridge for open and free: two minutes between exchanges, one
   minute from or to a chain. The detector's takes one minute, and two for a bridge. A bridge is open only when the
   quote asked for it has a supported protocol: of the detector's probes the first one.
   */
  lemma SegmentsByQuote(req: Request, bridge: Option<BridgeManager>, reg: Option<Registry>, from: Node, to: Node)
    ensures var s := ProbedSegment(Pipeline, req, bridge, reg, from, to);
      && (s.kind != Bridge ==> s.available && s.fee == Zero && s.time == (if s.kind == ExchangeToExchange then 120 else 60))
      && (s.kind == Bridge && bridge.None? ==> !s.available && s.time == 120)
      && (s.kind == Bridge ==> forall q :: QuoteAskedFor(req, bridge, ChainOf(Pipeline, from), ChainOf(Pipeline, to), q) ==>
            s == PipelineBridge(req, q, from, to))
    ensures var s := ProbedSegment(Detector, req, bridge, reg, from, to);
      && s.fee == Zero && s.time == (if s.kind == Bridge then 120 else 60)
      && (s.kind == ExchangeToExchange || (s.kind == Bridge && bridge.None?) ==> !s.available)
      && (s.kind == Bridge ==> forall q :: QuoteAskedFor(req, bridge, ChainOf(Detector, from), ChainOf(Detector, to), q) ==>
            (s.available <==> q.Quoted? && |q.protocols| > 0 && q.protocols[0].supported))
  {
    hide FindProtocol, CanWithdrawToChain, CanDepositFromChain, ChainOf;
  }

  /** Source and destination stand in for a missing path, and a longer path is cut to its first four nodes. */
  lemma PathToProbe(req: Request)
    ensures req.path == [] && req.source != "" && req.destination != "" ==> req.ProbedPath() == [req.source, req.destination]
    ensures req.path == [] && (req.source == "" || req.destination == "") ==> req.ProbedPath() == []
    ensures req.path != [] ==>
      req.ProbedPath() <= req.path && |req.ProbedPath()| == if |req.path| < 4 then |req.path| else 4
  {
  }

  /** The segments before merging. */
  function RawSegments(copy: Copy, req: Request, bridge: Option<BridgeManager>, reg: Option<Registry>, path: Path): seq<Segment>
    requires |path| > 0
  {
    seq(|path| - 1, i requires 0 <= i < |path| - 1 => ProbedSegment(copy, req, bridge, reg, path[i], path[i + 1]))
  }

  datatype Report = Report(path: Path, segs: seq<Segment>, time: int, fee: Fee)

  /** No probed pair loses a fee: withdrawals and deposits are reported free. */
  lemma RawLosesNothing(copy: Copy, req: Request, bridge: Option<BridgeManager>, reg: Option<Registry>, path: Path)
    requires |path| > 0
    ensures var raw := RawSegments(copy, req, bridge, reg, path);
      TotalFee(Merged(copy, raw)) == TotalFee(raw)
  {
    var raw := RawSegments(copy, req, bridge, reg, path);
    forall i | 0 <= i < |raw| - 1 ensures !LosesFee(copy, raw, i) {
      assert raw[i].from == path[i] && raw[i].to == path[i + 1];
    }
    NoLossNoDrop(copy, raw);
    MergeFeeAccount(copy, raw);
  }

  /** `totalFee` accumulates by parsing and formatting again. */
  function AddFee(total: Fee, fee: Fee): (r: Fee)
    requires total.Zero? || total.Numeral?
    ensures (r.Zero? || r.Numeral?) && r.Value() == total.Value() + fee.Value()
  {
    if fee.Numeral? then FormatFee(total.Value() + fee.amount) else total
  }

  lemma {:induction false} SumsOfPrefix(segs: seq<Segment>, k: nat)
    requires k < |segs|
    ensures TotalTime(segs[..k + 1]) == TotalTime(segs[..k]) + segs[k].time
    ensures TotalFee(segs[..k + 1]) == TotalFee(segs[..k]) + segs[k].fee.Value()
  {
    if k == 0 {
      assert segs[..1] == [segs[0]] && segs[..0] == [];
    } else {
      SumsOfPrefix(segs[1..], k - 1);
      assert segs[..k + 1][1..] == segs[1..][..k];
      assert segs[..k][1..] == segs[1..][..k - 1];
    }
  }

  lemma RawIsShaped(copy: Copy, req: Request, bridge: Option<BridgeManager>, reg: Option<Registry>, path: Path)
    requires |path| > 0
    ensures Shaped(path, RawSegments(copy, req, bridge, reg, path))
  {
    var raw := RawSegments(copy, req, bridge, reg, path);
    forall i | 0 <= i < |raw| ensures At(path, raw, i) {
      assert raw[i] == ProbedSegment(copy, req, bridge, reg, path[i], path[i + 1]);
    }
  }

  /** The probing loop. */
  method ProbeSegments(copy: Copy, req: Request, bridge: Option<BridgeManager>, reg: Option<Registry>, path: Path)
    returns (segs: seq<Segment>)
    requires |path| > 0
    ensures segs == RawSegments(copy, req, bridge, reg, path)
    ensures Shaped(path, segs)
  {
    segs := [];
    for i := 0 to |path| - 1
      invariant |segs| == i
      invariant forall j :: 0 <= j < i ==> segs[j] == ProbedSegment(copy, req, bridge, reg, path[j], path[j + 1])
    {
      segs := segs + [ProbedSegment(copy, req, bridge, reg, path[i], path[i + 1])];
    }
    RawIsShaped(copy, req, bridge, reg, path);
  }

  /** The totalling loop. */
  method Totals(segs: seq<Segment>) returns (time: int, fee: Fee)
    ensures time == TotalTime(segs) && fee.Value() == TotalFee(segs)
  {
    time, fee := 0, Zero;
    for i := 0 to |segs|
      invariant time == TotalTime(segs[..i])
      invariant (fee.Zero? || fee.Numeral?) && fee.Value() == TotalFee(segs[..i])
    {
      SumsOfPrefix(segs, i);
      time := time + segs[i].time;
      fee := AddFee(fee, segs[i].fee);
    }
    assert segs[..|segs|] == segs;
  }

  /** A report whose totals are those of the segments before collapsing. */
  ghost predicate Reports(copy: Copy, path: Path, raw: seq<Segment>, r: Report)
    requires |path| > 0
  {
    && r.segs == Merged(copy, raw)
    && Shaped(r.path, r.segs)
    && r.path[0] == path[0]
    && r.path[|r.path| - 1] == path[|path| - 1]
    && r.time == TotalTime(raw)
    && r.fee.Value() == TotalFee(raw)
    && (AllAvailable(r.segs) <==> AllAvailable(raw))
    && Settled(copy, r.segs)
  }

  /** The path is cut to four nodes, probed, and its exchange -> chain -> exchange pairs are collapsed. */
  method Probe(copy: Copy, req: Request, bridge: Option<BridgeManager>, reg: Option<Registry>) returns (r: Report)
    ensures |req.ProbedPath()| < 2 ==> r == Report(req.ProbedPath(), [], 0, Blank)
    ensures |req.ProbedPath()| >= 2 ==>
      Reports(copy, req.ProbedPath(), RawSegments(copy, req, bridge, reg, req.ProbedPath()), r)
  {
    var path := req.ProbedPath();
    if |path| < 2 {
      return Report(path, [], 0, Blank);
    }
    var raw := ProbeSegments(copy, req, bridge, reg, path);
    var outPath, segs := MergeSegments(copy, path, raw);
    var time, fee := Totals(segs);
    MergeKeepsTime(copy, raw);
    MergeKeepsAvailability(copy, raw);
    MergeSettles(copy, raw);
    RawLosesNothing(copy, req, bridge, reg, path);
    r := Report(outPath, segs, time, fee);
  }

  // ------------------------------------------------------------ probing what the builder built

  predicate IsExchangeId(id: Node) {
    !IsOnchain(id) && ChainOf(Detector, id) == ""
  }

  lemma ChainsAreTrimmed(nets: seq<Network>, c: string)
    requires c in ChainsOf(nets)
    ensures c != "" && Trim(c) == c && ChainOf(Detector, Onchain(c)) == c
  {
    var n :| n in nets && n.withdrawEnable && Trim(n.chainId) == c;
    TrimTwice(n.chainId);
    assert Onchain(c)[|ONCHAIN_PREFIX|..] == c;
  }

  /**
   On the registry that built a route, its withdraw segment and its deposit segment are found available
   exactly when the two listings carried no error: the builder ignores the error, the probe does not.
   */
  lemma BuiltSegmentsAvailable(reg: Registry, req: Request, bridge: Option<BridgeManager>, buy: Node, sell: Node,
                               c: (string, string))
    requires IsExchangeId(buy) && IsExchangeId(sell)
    requires c in ChainPairs(BuyChains(reg, req.Symbol(), Exchange(buy)), SellChains(reg, req.Symbol(), Exchange(sell)))
    ensures var first := DetectorSegment(req, bridge, Some(reg), buy, Onchain(c.0));
      first.kind == Withdraw && (first.available <==> !reg.withdraw(buy, req.Symbol()).failed)
    ensures var last := DetectorSegment(req, bridge, Some(reg), Onchain(c.1), sell);
      last.kind == Deposit && (last.available <==> !reg.deposit(sell, req.Symbol()).failed)
  {
    ChainsAreTrimmed(reg.withdraw(buy, req.Symbol()).nets, c.0);
    ChainsAreTrimmed(reg.deposit(sell, req.Symbol()).nets, c.1);
  }

  /** The failing family is not empty: a listing that carries both rows and an error. */
  lemma BuiltSegmentCanFail() returns (reg: Registry, req: Request, r: Path)
    ensures TransferRoute(r, "binance", "bitget",
                          BuyChains(reg, req.Symbol(), Exchange("binance")), SellChains(reg, req.Symbol(), Exchange("bitget")))
    ensures !DetectorSegment(req, None, Some(reg), r[0], r[1]).available
  {
    var nets := [Network("56", true)];
    reg := Registry((_, _) => Listing(nets, true), (_, _) => Listing(nets, false));
    req := Request("USDT", [], "", "", "", "");
    assert Trim("56") == "56";
    assert nets[0] in nets;
    assert "56" in ChainsOf(nets);
    r := RouteVia("binance", "bitget", ("56", "56"));
    RouteViaIsTransferRoute("binance", "bitget", ChainsOf(nets), ChainsOf(nets), ("56", "56"));
    BuiltSegmentsAvailable(reg, req, None, "binance", "bitget", ("56", "56"));
  }

  /** A built route through one chain is reported as one available hop on a registry that answers without error. */
  lemma DirectRouteReported(reg: Registry, req: Request, bridge: Option<BridgeManager>, buy: Node, sell: Node, c: string)
    requires IsExchangeId(buy) && IsExchangeId(sell)
    requires c in BuyChains(reg, req.Symbol(), Exchange(buy)) && c in SellChains(reg, req.Symbol(), Exchange(sell))
    requires !reg.withdraw(buy, req.Symbol()).failed && !reg.deposit(sell, req.Symbol()).failed
    ensures Merged(Detector, RawSegments(Detector, req, bridge, Some(reg), RouteVia(buy, sell, (c, c)))) ==
      [Segment(buy, sell, ExchangeToExchange, Zero, 120, true, "", c)]
  {
    BuiltSegmentsAvailable(reg, req, bridge, buy, sell, (c, c));
    ChainsAreTrimmed(reg.withdraw(buy, req.Symbol()).nets, c);
    var raw := RawSegments(Detector, req, bridge, Some(reg), RouteVia(buy, sell, (c, c)));
    assert |raw| == 2 && raw[2..] == [];
  }

  /** A registry that never answers with an error, as both of the repository do. */
  ghost predicate NeverFails(reg: Registry) {
    forall id, asset :: !reg.withdraw(id, asset).failed && !reg.deposit(id, asset).failed
  }

  /** The bridge manager's first quote between two chains is supported. */
  predicate BridgeOffered(req: Request, bridge: Option<BridgeManager>, from: string, to: string) {
    bridge.Some? &&
    var q := bridge.value(from, to, req.Symbol(), req.Amount());
    q.Quoted? && |q.protocols| > 0 && q.protocols[0].supported
  }

  lemma AllOfTwo(segs: seq<Segment>)
    requires |segs| == 2
    ensures AllAvailable(segs) <==> segs[0].available && segs[1].available
  {
    assert segs == [segs[0], segs[1]];
  }

  lemma AllOfThree(segs: seq<Segment>)
    requires |segs| == 3
    ensures AllAvailable(segs) <==> segs[0].available && segs[1].available && segs[2].available
  {
    assert segs == [segs[0], segs[1], segs[2]];
  }

  /**
   Every route built between two exchanges, probed on the registry that built it: it begins with a withdrawal and
   ends with a deposit, each available exactly when its listing carried no error, and it is reported available
   exactly when both are and the bridge between its two chains, if it has two, is offered.
   */
  lemma BuiltRouteReported(reg: Registry, req: Request, bridge: Option<BridgeManager>, buy: Node, sell: Node,
                           r: Path, report: Report)
    requires IsExchangeId(buy) && IsExchangeId(sell) && buy != sell
    requires TransferRoute(r, buy, sell, BuyChains(reg, req.Symbol(), Exchange(buy)), SellChains(reg, req.Symbol(), Exchange(sell)))
    requires Reports(Detector, r, RawSegments(Detector, req, bridge, Some(reg), r), report)
    ensures var raw := RawSegments(Detector, req, bridge, Some(reg), r);
            var leaves, arrives := !reg.withdraw(buy, req.Symbol()).failed, !reg.deposit(sell, req.Symbol()).failed;
            && 2 <= |raw| <= 3 && |r| == |raw| + 1 && raw[0].kind == Withdraw && raw[|raw| - 1].kind == Deposit
            && raw[0].available == leaves && raw[|raw| - 1].available == arrives
            && (AllAvailable(report.segs) <==>
                 leaves && arrives && (|r| == 4 ==>
                   BridgeOffered(req, bridge, ChainOf(Detector, r[1]), ChainOf(Detector, r[2]))))
  {
    hide Merged, TransferRoute, AllAvailable, DetectorSegment, CanWithdrawToChain, CanDepositFromChain, ChainOf, IsExchangeId;
    var buyChains := BuyChains(reg, req.Symbol(), Exchange(buy));
    var sellChains := SellChains(reg, req.Symbol(), Exchange(sell));
    ExchangeIdsAreNames(buy, sell);
    ExchangeRoutes(buy, sell, buyChains, sellChains);
    var c :| c in ChainPairs(buyChains, sellChains) && r == RouteVia(buy, sell, c);
    BuiltSegmentsAvailable(reg, req, bridge, buy, sell, c);
    var raw := RawSegments(Detector, req, bridge, Some(reg), r);
    if c.0 == c.1 {
      AllOfTwo(raw);
    } else {
      AllOfThree(raw);
      BridgedSegment(reg, req, bridge, c, buyChains, sellChains, buy, sell);
    }
  }

  lemma ExchangeIdsAreNames(buy: Node, sell: Node)
    requires IsExchangeId(buy) && IsExchangeId(sell)
    ensures !IsOnchain(buy) && !IsOnchain(sell)
  {
  }

  lemma BridgedSegment(reg: Registry, req: Request, bridge: Option<BridgeManager>, c: (string, string),
                       buyChains: set<string>, sellChains: set<string>, buy: Node, sell: Node)
    requires buyChains == BuyChains(reg, req.Symbol(), Exchange(buy)) && sellChains == SellChains(reg, req.Symbol(), Exchange(sell))
    requires c in ChainPairs(buyChains, sellChains) && c.0 != c.1
    ensures DetectorSegment(req, bridge, Some(reg), Onchain(c.0), Onchain(c.1)).available <==>
            BridgeOffered(req, bridge, ChainOf(Detector, Onchain(c.0)), ChainOf(Detector, Onchain(c.1)))
  {
    ChainsAreTrimmed(reg.withdraw(buy, req.Symbol()).nets, c.0);
    ChainsAreTrimmed(reg.deposit(sell, req.Symbol()).nets, c.1);
  }

  /** On a registry that never fails every built route has its withdrawal and its deposit available. */
  lemma BuiltRouteAvailable(reg: Registry, req: Request, bridge: Option<BridgeManager>, buy: Node, sell: Node,
                            r: Path, report: Report)
    requires NeverFails(reg) && IsExchangeId(buy) && IsExchangeId(sell) && buy != sell
    requires TransferRoute(r, buy, sell, BuyChains(reg, req.Symbol(), Exchange(buy)), SellChains(reg, req.Symbol(), Exchange(sell)))
    requires Reports(Detector, r, RawSegments(Detector, req, bridge, Some(reg), r), report)
    ensures var raw := RawSegments(Detector, req, bridge, Some(reg), r);
            && raw != [] && raw[0].kind == Withdraw && raw[0].available
            && raw[|raw| - 1].kind == Deposit && raw[|raw| - 1].available
            && (AllAvailable(report.segs) <==>
                 |r| == 3 || (|r| == 4 && BridgeOffered(req, bridge, ChainOf(Detector, r[1]), ChainOf(Detector, r[2]))))
  {
    hide TransferRoute, Reports, RawSegments, AllAvailable, ChainOf, IsExchangeId, BridgeOffered;
    BuiltRouteReported(reg, req, bridge, buy, sell, r, report);
  }
}
