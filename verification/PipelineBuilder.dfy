/**
 Building the transfer graph between two endpoints and enumerating its routes
 (internal/detector/pipeline_builder.go).
 */
module PipelineBuilder {
  import opened RouteGraph
  import opened Text
  import Sorting

  const ONCHAIN_PREFIX := "onchain:"
  const MAX_ROUTE_HOPS := 3
  const NO_PREFERENCE := 999

  /** Display preference: ETH first, then BSC, TRON, Polygon, ... */
  function Preference(chainId: string): int {
    if chainId == "1" then 0
    else if chainId == "56" then 1
    else if chainId == "195" then 2
    else if chainId == "137" then 3
    else if chainId == "42161" then 4
    else if chainId == "10" then 5
    else if chainId == "8453" then 6
    else if chainId == "43114" then 7
    else NO_PREFERENCE
  }

  const SHOWN_FIRST := ["1", "56", "195", "137", "42161", "10", "8453", "43114"]

  /** The preferred chains have their places in this order, and every other chain comes after them. */
  lemma PreferenceIsPlace(chainId: string)
    ensures forall i :: 0 <= i < |SHOWN_FIRST| && SHOWN_FIRST[i] == chainId ==> Preference(chainId) == i
    ensures chainId !in SHOWN_FIRST ==> Preference(chainId) > |SHOWN_FIRST|
  {
  }

  /** A parsed endpoint name: "Chain_56" names a chain, anything else an exchange. */
  datatype Endpoint = Chain(chainId: string) | Exchange(id: Node)
  {
    /** An exchange is not named like a chain node. */
    predicate Named() {
      Exchange? ==> !IsOnchain(id)
    }

    function NodeId(): Node {
      match this
      case Chain(c) => Onchain(c)
      case Exchange(id) => id
    }
  }

  function Onchain(chainId: string): Node {
    ONCHAIN_PREFIX + chainId
  }

  predicate IsOnchain(n: Node) {
    ONCHAIN_PREFIX <= n
  }

  lemma OnchainInjective(a: string, b: string)
    requires Onchain(a) == Onchain(b)
    ensures a == b
  {
    assert Onchain(a)[|ONCHAIN_PREFIX|..] == a;
    assert Onchain(b)[|ONCHAIN_PREFIX|..] == b;
  }

  /** One row of an exchange's network list. */
  datatype Network = Network(chainId: string, withdrawEnable: bool)

  /** A registry answer. Go returns a list and an error; nothing stops both from being set. */
  datatype Listing = Listing(nets: seq<Network>, failed: bool)

  datatype Registry = Registry(withdraw: (Node, string) -> Listing, deposit: (Node, string) -> Listing)

  /** The chains of the rows that are enabled and name one, with the spaces trimmed. */
  ghost function ChainsOf(nets: seq<Network>): set<string> {
    set n | n in nets && n.withdrawEnable && Trim(n.chainId) != "" :: Trim(n.chainId)
  }

  method ChainIDsFromNetworks(nets: seq<Network>) returns (m: set<string>)
    ensures m == ChainsOf(nets)
  {
    m := {};
    for i := 0 to |nets|
      invariant m == ChainsOf(nets[..i])
    {
      assert nets[..i + 1] == nets[..i] + [nets[i]];
      var cid := Trim(nets[i].chainId);
      if cid != "" && nets[i].withdrawEnable {
        m := m + {cid};
      }
    }
    assert nets[..|nets|] == nets;
  }

  /** A Go map iterates in any order. */
  method Members(s: set<string>) returns (out: seq<string>)
    ensures Distinct(out) && forall c :: c in out <==> c in s
  {
    out := [];
    var rest := s;
    while rest != {}
      invariant rest <= s && Distinct(out)
      invariant forall c :: c in out <==> c in s - rest
      decreases rest
    {
      var c :| c in rest;
      DistinctAppend(out, [c]);
      out, rest := out + [c], rest - {c};
    }
  }

  predicate PreferredChain(a: string, b: string) {
    Preference(a) <= Preference(b)
  }

  method SortedChainsByPreference(chains: set<string>) returns (out: seq<string>)
    ensures Distinct(out) && forall c :: c in out <==> c in chains
    ensures Sorting.SortedBy(out, PreferredChain)
  {
    var members := Members(chains);
    out := Sorting.Sort(members, PreferredChain);
    Sorting.SameMembers(out, members);
    DistinctFromMultiset(members, out);
  }

  lemma DistinctFromMultiset<T>(a: seq<T>, b: seq<T>)
    requires Distinct(a) && multiset(a) == multiset(b)
    ensures Distinct(b)
  {
    forall x ensures multiset(a)[x] <= 1 {
      CountIfDistinct(a, x);
    }
    forall i, j | 0 <= i < j < |b| ensures b[i] != b[j] {
      assert b == b[..i] + [b[i]] + b[i + 1..j] + [b[j]] + b[j + 1..];
      assert multiset(b)[b[i]] <= 1;
    }
  }

  lemma {:induction false} CountIfDistinct<T>(a: seq<T>, x: T)
    requires Distinct(a)
    ensures multiset(a)[x] == if x in a then 1 else 0
  {
    if a != [] {
      assert a == [a[0]] + a[1..];
      CountIfDistinct(a[1..], x);
    }
  }

  /** The node IDs of some chains. */
  ghost function Nodes(chains: set<string>): set<Node> {
    set c | c in chains :: Onchain(c)
  }

  /** Exchange to chain: every withdrawable chain, no self-loop. */
  ghost function WithdrawTargets(buy: Node, buyChains: set<string>, x: Node): set<Node> {
    if x == buy then Nodes(buyChains) - {buy} else {}
  }

  /** Chain to exchange: from every depositable chain, no self-loop. */
  ghost function DepositTargets(sell: Node, sellChains: set<string>, x: Node): set<Node> {
    if x in Nodes(sellChains) - {sell} then {sell} else {}
  }

  /** Chain to chain: a bridge to every other known chain. */
  ghost function BridgeTargets(known: set<Node>, x: Node): set<Node> {
    if x in known then known - {x} else {}
  }

  ghost predicate Adjacent(buy: Node, sell: Node, buyChains: set<string>, sellChains: set<string>, x: Node, y: Node) {
    || y in WithdrawTargets(buy, buyChains, x)
    || y in DepositTargets(sell, sellChains, x)
    || y in BridgeTargets(Nodes(buyChains + sellChains), x)
  }

  ghost predicate GraphOf(adj: Adjacency, buy: Node, sell: Node, buyChains: set<string>, sellChains: set<string>) {
    forall x, y :: y in Neighbours(adj, x) <==> Adjacent(buy, sell, buyChains, sellChains, x, y)
  }

  ghost function Targets(adj: Adjacency, x: Node): set<Node> {
    set y | y in Neighbours(adj, x)
  }

  /** `adj[from] = append(adj[from], to)` */
  function AddEdge(adj: Adjacency, from: Node, to: Node): (r: Adjacency)
    ensures forall x :: Targets(r, x) == if x == from then Targets(adj, x) + {to} else Targets(adj, x)
    ensures DuplicateFree(adj) && to !in Targets(adj, from) ==> DuplicateFree(r)
  {
    var r := adj[from := Neighbours(adj, from) + [to]];
    assert forall x :: Neighbours(r, x) == if x == from then Neighbours(adj, x) + [to] else Neighbours(adj, x);
    r
  }

  /** The nodes of a prefix of a duplicate-free chain list grow by one node the prefix does not have. */
  lemma NextNode(chains: seq<string>, i: nat)
    requires Distinct(chains) && i < |chains|
    ensures Onchain(chains[i]) !in NodesIn(chains[..i])
    ensures NodesIn(chains[..i + 1]) == NodesIn(chains[..i]) + {Onchain(chains[i])}
  {
    if Onchain(chains[i]) in NodesIn(chains[..i]) {
      var j :| 0 <= j < i && Onchain(chains[j]) == Onchain(chains[i]);
      OnchainInjective(chains[i], chains[j]);
    }
    assert chains[..i + 1] == chains[..i] + [chains[i]];
  }

  ghost function NodesIn(chains: seq<string>): set<Node> {
    set c | c in chains :: Onchain(c)
  }

  lemma NoNodes()
    ensures NodesIn([]) == {}
  {
  }

  lemma ListedNode(chains: seq<string>, k: nat)
    requires k < |chains|
    ensures Onchain(chains[k]) in NodesIn(chains)
  {
    assert chains[k] in chains;
  }

  /** The first loop of `buildAdjacency`. */
  method AddWithdrawals(buy: Node, buyChains: set<string>) returns (adj: Adjacency)
    ensures forall x :: Targets(adj, x) == WithdrawTargets(buy, buyChains, x)
    ensures DuplicateFree(adj)
  {
    adj := map[];
    var list := SortedChainsByPreference(buyChains);
    for i := 0 to |list|
      invariant forall x :: x != buy ==> Targets(adj, x) == {}
      invariant Targets(adj, buy) == NodesIn(list[..i]) - {buy}
      invariant DuplicateFree(adj)
    {
      NextNode(list, i);
      var next := Onchain(list[i]);
      if next == buy {
        continue;
      }
      adj := AddEdge(adj, buy, next);
    }
    assert NodesIn(list[..|list|]) == Nodes(buyChains);
  }

  /** The second loop of `buildAdjacency`. */
  method AddDeposits(before: Adjacency, sell: Node, sellChains: set<string>) returns (adj: Adjacency)
    ensures forall x :: Targets(adj, x) == Targets(before, x) + DepositTargets(sell, sellChains, x)
    ensures DuplicateFree(before) && (forall x :: x in Nodes(sellChains) ==> sell !in Targets(before, x)) ==> DuplicateFree(adj)
  {
    adj := before;
    var list := SortedChainsByPreference(sellChains);
    assert NodesIn(list[..|list|]) == Nodes(sellChains);
    for i := 0 to |list|
      invariant forall x :: Targets(adj, x) == Targets(before, x) + (if x in NodesIn(list[..i]) - {sell} then {sell} else {})
      invariant DuplicateFree(before) && (forall x :: x in Nodes(sellChains) ==> sell !in Targets(before, x)) ==> DuplicateFree(adj)
    {
      NextNode(list, i);
      var nodeId := Onchain(list[i]);
      assert list[i] in list && nodeId in Nodes(sellChains);
      if nodeId == sell {
        continue;
      }
      adj := AddEdge(adj, nodeId, sell);
    }
  }

  /** The inner loop of the third: bridges from one chain to every other chain. */
  method AddBridgesFrom(before: Adjacency, chains: seq<string>, i: nat) returns (adj: Adjacency)
    requires Distinct(chains) && i < |chains|
    ensures forall x :: Targets(adj, x) == Targets(before, x) + (if x == Onchain(chains[i]) then NodesIn(chains) - {x} else {})
    ensures DuplicateFree(before) && Targets(before, Onchain(chains[i])) !! NodesIn(chains) ==> DuplicateFree(adj)
  {
    hide Targets, DuplicateFree, NodesIn;
    adj := before;
    var n1 := Onchain(chains[i]);
    NoNodes();
    ghost var apart := DuplicateFree(before) && Targets(before, n1) !! NodesIn(chains);
    for k := 0 to |chains|
      invariant forall x :: x != n1 ==> Targets(adj, x) == Targets(before, x)
      invariant Targets(adj, n1) == Targets(before, n1) + (NodesIn(chains[..k]) - {n1})
      invariant apart ==> DuplicateFree(adj)
    {
      NextNode(chains, k);
      ListedNode(chains, k);
      if chains[i] == chains[k] {
        continue;
      }
      if Onchain(chains[k]) == n1 {
        OnchainInjective(chains[k], chains[i]);
      }
      adj := AddEdge(adj, n1, Onchain(chains[k]));
    }
    assert chains[..|chains|] == chains;
  }

  /** The nodes in `done` have got their bridges to the other known chains, no node anything else. */
  ghost predicate Bridged(before: Adjacency, adj: Adjacency, known: set<Node>, done: set<Node>) {
    forall x :: Targets(adj, x) == Targets(before, x) + (if x in done then known - {x} else {})
  }

  lemma NotYetBridged(before: Adjacency, adj: Adjacency, known: set<Node>, done: set<Node>, n: Node)
    requires Bridged(before, adj, known, done) && n !in done
    ensures Targets(adj, n) == Targets(before, n)
  {
  }

  lemma NextBridged(before: Adjacency, adj: Adjacency, next: Adjacency, known: set<Node>, done: set<Node>, n: Node)
    requires Bridged(before, adj, known, done)
    requires forall x :: Targets(next, x) == Targets(adj, x) + (if x == n then known - {x} else {})
    ensures Bridged(before, next, known, done + {n})
  {
    hide Targets;
  }

  lemma AllBridged(before: Adjacency, adj: Adjacency, known: set<Node>)
    requires Bridged(before, adj, known, known)
    ensures forall x :: Targets(adj, x) == Targets(before, x) + BridgeTargets(known, x)
  {
    hide Targets;
  }

  /** The third loop of `buildAdjacency`. */
  method AddBridges(before: Adjacency, chains: set<string>) returns (adj: Adjacency)
    ensures forall x :: Targets(adj, x) == Targets(before, x) + BridgeTargets(Nodes(chains), x)
    ensures DuplicateFree(before) && (forall x :: x in Nodes(chains) ==> Targets(before, x) !! Nodes(chains)) ==> DuplicateFree(adj)
  {
    var all := Members(chains);
    assert all[..|all|] == all && NodesIn(all) == Nodes(chains);
    adj := before;
    ghost var known := Nodes(chains);
    ghost var apart := DuplicateFree(before) && forall x :: x in known ==> Targets(before, x) !! known;
    NoNodes();
    hide Targets, DuplicateFree, Nodes, NodesIn;
    assert Bridged(before, adj, known, {});
    hide Bridged;
    for i := 0 to |all|
      invariant Bridged(before, adj, known, NodesIn(all[..i]))
      invariant apart ==> DuplicateFree(adj)
    {
      NextNode(all, i);
      ListedNode(all, i);
      NotYetBridged(before, adj, known, NodesIn(all[..i]), Onchain(all[i]));
      ghost var earlier := adj;
      adj := AddBridgesFrom(adj, all, i);
      NextBridged(before, earlier, adj, known, NodesIn(all[..i]), Onchain(all[i]));
    }
    AllBridged(before, adj, known);
  }

  /** A chain endpoint is its own only chain. */
  ghost predicate FitsEnd(end: Node, chains: set<string>) {
    IsOnchain(end) ==> Nodes(chains) <= {end}
  }

  /** No later loop adds an edge an earlier one has. */
  lemma EndsStayApart(buy: Node, sell: Node, buyChains: set<string>, sellChains: set<string>)
    requires FitsEnd(buy, buyChains) && FitsEnd(sell, sellChains)
    ensures forall x :: x in Nodes(sellChains) ==> sell !in WithdrawTargets(buy, buyChains, x)
    ensures forall x :: x in Nodes(buyChains + sellChains) ==>
      WithdrawTargets(buy, buyChains, x) + DepositTargets(sell, sellChains, x) !! Nodes(buyChains + sellChains)
  {
    forall x | x in Nodes(buyChains + sellChains) ensures IsOnchain(x) && WithdrawTargets(buy, buyChains, x) == {} {
    }
    forall x | x in Nodes(sellChains) ensures x in Nodes(buyChains + sellChains) {
      var c :| c in sellChains && Onchain(c) == x;
      assert c in buyChains + sellChains;
    }
  }

  method BuildAdjacency(buy: Node, sell: Node, buyChains: set<string>, sellChains: set<string>)
    returns (adj: Adjacency)
    ensures GraphOf(adj, buy, sell, buyChains, sellChains)
    ensures FitsEnd(buy, buyChains) && FitsEnd(sell, sellChains) ==> DuplicateFree(adj)
  {
    adj := AddWithdrawals(buy, buyChains);
    if FitsEnd(buy, buyChains) && FitsEnd(sell, sellChains) {
      EndsStayApart(buy, sell, buyChains, sellChains);
    }
    adj := AddDeposits(adj, sell, sellChains);
    adj := AddBridges(adj, buyChains + sellChains);
    forall x, y ensures y in Neighbours(adj, x) <==> Adjacent(buy, sell, buyChains, sellChains, x, y) {
      assert y in Neighbours(adj, x) <==> y in Targets(adj, x);
    }
  }

  // ------------------------------------------------------------ BuildPaths

  ghost function BuyChains(reg: Registry, asset: string, buy: Endpoint): set<string> {
    match buy
    case Chain(c) => {c}
    case Exchange(id) => ChainsOf(reg.withdraw(id, asset).nets)
  }

  ghost function SellChains(reg: Registry, asset: string, sell: Endpoint): set<string> {
    match sell
    case Chain(c) => {c}
    case Exchange(id) => ChainsOf(reg.deposit(id, asset).nets)
  }

  /** A simple path of at most four nodes in the transfer graph. */
  ghost predicate TransferRoute(r: Path, buy: Node, sell: Node, buyChains: set<string>, sellChains: set<string>) {
    && 0 < |r| <= MAX_ROUTE_HOPS + 1
    && r[0] == buy && r[|r| - 1] == sell
    && Distinct(r)
    && forall i :: 0 <= i < |r| - 1 ==> Adjacent(buy, sell, buyChains, sellChains, r[i], r[i + 1])
  }

  function FirstChainScore(r: Path): int {
    if r == [] then NO_PREFERENCE
    else if IsOnchain(r[0]) then Preference(r[0][|ONCHAIN_PREFIX|..])
    else FirstChainScore(r[1..])
  }

  /** The first chain of a path decides its preference; a path without a chain comes last. */
  lemma {:induction false} FirstChainDecides(r: Path, k: nat)
    requires k <= |r| && forall i :: 0 <= i < k ==> !IsOnchain(r[i])
    ensures k == |r| ==> FirstChainScore(r) == 999
    ensures k < |r| && IsOnchain(r[k]) ==> FirstChainScore(r) == Preference(r[k][|ONCHAIN_PREFIX|..])
  {
    if k > 0 {
      assert forall i :: 0 <= i < k - 1 ==> r[1..][i] == r[i + 1];
      FirstChainDecides(r[1..], k - 1);
    }
  }

  /** Shorter paths first, and among those of one length the preferred first chain. */
  ghost predicate InDisplayOrder(paths: seq<Path>) {
    forall i, j :: 0 <= i < j < |paths| ==>
      |paths[i]| < |paths[j]| || (|paths[i]| == |paths[j]| && FirstChainScore(paths[i]) <= FirstChainScore(paths[j]))
  }

  predicate ShownBefore(a: Path, b: Path) {
    if |a| != |b| then |a| < |b| else FirstChainScore(a) <= FirstChainScore(b)
  }

  lemma GraphRoutes(adj: Adjacency, buy: Node, sell: Node, buyChains: set<string>, sellChains: set<string>)
    requires GraphOf(adj, buy, sell, buyChains, sellChains)
    ensures forall r :: IsRoute(r, buy, sell, adj, MAX_ROUTE_HOPS) <==> TransferRoute(r, buy, sell, buyChains, sellChains)
  {
    forall r: Path
      ensures IsRoute(r, buy, sell, adj, MAX_ROUTE_HOPS) <==> TransferRoute(r, buy, sell, buyChains, sellChains)
    {
      if IsRoute(r, buy, sell, adj, MAX_ROUTE_HOPS) {
        forall i | 0 <= i < |r| - 1 ensures Adjacent(buy, sell, buyChains, sellChains, r[i], r[i + 1]) {
          assert Joined(r, i + 1, adj);
        }
      }
      if TransferRoute(r, buy, sell, buyChains, sellChains) {
        forall i | 0 < i < |r| ensures Joined(r, i, adj) {
          assert Adjacent(buy, sell, buyChains, sellChains, r[i - 1], r[i - 1 + 1]);
        }
      }
    }
  }

  lemma NamedFits(reg: Registry, asset: string, buy: Endpoint, sell: Endpoint)
    ensures buy.Named() ==> FitsEnd(buy.NodeId(), BuyChains(reg, asset, buy))
    ensures sell.Named() ==> FitsEnd(sell.NodeId(), SellChains(reg, asset, sell))
  {
  }

  lemma ShownIsPreorder()
    ensures Sorting.TotalPreorder(ShownBefore)
  {
  }

  lemma SortedIsShown(paths: seq<Path>)
    requires Sorting.SortedBy(paths, ShownBefore)
    ensures InDisplayOrder(paths)
  {
    forall i, j | 0 <= i < j < |paths|
      ensures |paths[i]| < |paths[j]| || (|paths[i]| == |paths[j]| && FirstChainScore(paths[i]) <= FirstChainScore(paths[j]))
    {
      assert ShownBefore(paths[i], paths[j]);
    }
  }

  method BuildPaths(reg: Registry, asset: string, buy: Endpoint, sell: Endpoint) returns (paths: seq<Path>)
    ensures buy.NodeId() == sell.NodeId() ==> paths == [[buy.NodeId()]]
    ensures buy.NodeId() != sell.NodeId() ==> forall r :: r in paths <==>
      TransferRoute(r, buy.NodeId(), sell.NodeId(), BuyChains(reg, asset, buy), SellChains(reg, asset, sell))
    ensures buy.Named() && sell.Named() ==> Distinct(paths)
    ensures InDisplayOrder(paths)
    ensures buy.Exchange? && sell.Exchange? && buy != sell && buy.Named() && sell.Named() ==>
      |paths| == |BuyChains(reg, asset, buy)| * |SellChains(reg, asset, sell)|
  {
    var buyChains, sellChains;
    match buy {
      case Chain(c) => buyChains := {c};
      case Exchange(id) => buyChains := ChainIDsFromNetworks(reg.withdraw(id, asset).nets);
    }
    match sell {
      case Chain(c) => sellChains := {c};
      case Exchange(id) => sellChains := ChainIDsFromNetworks(reg.deposit(id, asset).nets);
    }
    NamedFits(reg, asset, buy, sell);
    hide TransferRoute, FitsEnd, GraphOf;
    ShownIsPreorder();
    hide ShownBefore, Distinct, InDisplayOrder;
    var adj := BuildAdjacency(buy.NodeId(), sell.NodeId(), buyChains, sellChains);
    var found := FindAllRoutes(buy.NodeId(), sell.NodeId(), adj, MAX_ROUTE_HOPS);
    GraphRoutes(adj, buy.NodeId(), sell.NodeId(), buyChains, sellChains);
    paths := Sorting.Sort(found, ShownBefore);
    SortedIsShown(paths);
    Sorting.SameMembers(paths, found);
    if Distinct(found) {
      DistinctFromMultiset(found, paths);
    }
    if buy.NodeId() == sell.NodeId() {
      assert paths[0] in found;
      assert paths == [paths[0]];
    }
    if buy.Exchange? && sell.Exchange? && buy != sell && buy.Named() && sell.Named() {
      ExchangeRouteCount(reg, asset, buy, sell, paths);
    }
  }

  // ------------------------------------------------------------ the closed form

  /** Withdraw to `c1`, bridge to `c2` when it differs, deposit. */
  function RouteVia(buy: Node, sell: Node, c: (string, string)): Path {
    if c.0 == c.1 then [buy, Onchain(c.0), sell] else [buy, Onchain(c.0), Onchain(c.1), sell]
  }

  ghost function ChainPairs(buyChains: set<string>, sellChains: set<string>): set<(string, string)> {
    set a, b | a in buyChains && b in sellChains :: (a, b)
  }

  lemma RouteViaIsTransferRoute(buy: Node, sell: Node, buyChains: set<string>, sellChains: set<string>, c: (string, string))
    requires !IsOnchain(buy) && !IsOnchain(sell) && buy != sell
    requires c in ChainPairs(buyChains, sellChains)
    ensures TransferRoute(RouteVia(buy, sell, c), buy, sell, buyChains, sellChains)
  {
    var r := RouteVia(buy, sell, c);
    assert Onchain(c.0) in Nodes(buyChains) && Onchain(c.0) in Nodes(buyChains + sellChains);
    assert Onchain(c.1) in Nodes(sellChains) && Onchain(c.1) in Nodes(buyChains + sellChains);
    assert IsOnchain(Onchain(c.0)) && IsOnchain(Onchain(c.1));
    if c.0 != c.1 && Onchain(c.0) == Onchain(c.1) {
      OnchainInjective(c.0, c.1);
    }
  }

  lemma TransferRouteIsRouteVia(r: Path, buy: Node, sell: Node, buyChains: set<string>, sellChains: set<string>)
    returns (c: (string, string))
    requires !IsOnchain(buy) && !IsOnchain(sell) && buy != sell
    requires TransferRoute(r, buy, sell, buyChains, sellChains)
    ensures c in ChainPairs(buyChains, sellChains) && r == RouteVia(buy, sell, c)
  {
    forall x | x in Nodes(buyChains + sellChains) ensures IsOnchain(x) {
    }
    assert Adjacent(buy, sell, buyChains, sellChains, r[0], r[0 + 1]);
    var c1 :| c1 in buyChains && r[1] == Onchain(c1);
    assert IsOnchain(r[1]);
    assert Adjacent(buy, sell, buyChains, sellChains, r[1], r[1 + 1]);
    if |r| == 3 {
      var c2 :| c2 in sellChains && r[1] == Onchain(c2);
      OnchainInjective(c1, c2);
      c := (c1, c2);
    } else {
      assert r[2] != sell;
      assert r[2] in Nodes(buyChains + sellChains);
      assert Adjacent(buy, sell, buyChains, sellChains, r[2], r[2 + 1]);
      var c2 :| c2 in sellChains && r[2] == Onchain(c2);
      c := (c1, c2);
    }
  }

  /** Between two exchanges the routes are exactly one per withdrawable chain and depositable chain. */
  lemma ExchangeRoutes(buy: Node, sell: Node, buyChains: set<string>, sellChains: set<string>)
    requires !IsOnchain(buy) && !IsOnchain(sell) && buy != sell
    ensures forall r :: TransferRoute(r, buy, sell, buyChains, sellChains) <==>
      exists c :: c in ChainPairs(buyChains, sellChains) && r == RouteVia(buy, sell, c)
  {
    forall r: Path
      ensures TransferRoute(r, buy, sell, buyChains, sellChains) <==>
        exists c :: c in ChainPairs(buyChains, sellChains) && r == RouteVia(buy, sell, c)
    {
      if TransferRoute(r, buy, sell, buyChains, sellChains) {
        var c := TransferRouteIsRouteVia(r, buy, sell, buyChains, sellChains);
      }
      forall c | c in ChainPairs(buyChains, sellChains) && r == RouteVia(buy, sell, c)
        ensures TransferRoute(r, buy, sell, buyChains, sellChains)
      {
        RouteViaIsTransferRoute(buy, sell, buyChains, sellChains, c);
      }
    }
  }

  lemma {:induction false} PairCount(buyChains: set<string>, sellChains: set<string>)
    ensures |ChainPairs(buyChains, sellChains)| == |buyChains| * |sellChains|
  {
    var all := ChainPairs(buyChains, sellChains);
    if buyChains == {} {
      assert all == {};
    } else {
      var a :| a in buyChains;
      var rest := buyChains - {a};
      PairCount(rest, sellChains);
      RowCount(a, sellChains);
      assert all == ChainPairs(rest, sellChains) + ChainPairs({a}, sellChains);
      assert ChainPairs(rest, sellChains) !! ChainPairs({a}, sellChains);
      assert |buyChains| == |rest| + 1;
      OneMoreRow(|rest|, |sellChains|);
    }
  }

  lemma OneMoreRow(n: nat, m: nat)
    ensures (n + 1) * m == n * m + m
  {
  }

  lemma {:induction false} RowCount(a: string, sellChains: set<string>)
    ensures |ChainPairs({a}, sellChains)| == |sellChains|
  {
    if sellChains == {} {
      assert ChainPairs({a}, sellChains) == {};
    } else {
      var b :| b in sellChains;
      RowCount(a, sellChains - {b});
      assert ChainPairs({a}, sellChains) == ChainPairs({a}, sellChains - {b}) + {(a, b)};
    }
  }

  lemma RouteViaInjective(buy: Node, sell: Node, c: (string, string), d: (string, string))
    requires RouteVia(buy, sell, c) == RouteVia(buy, sell, d)
    ensures c == d
  {
    var r, t := RouteVia(buy, sell, c), RouteVia(buy, sell, d);
    assert r[1] == t[1] && r[|r| - 2] == t[|t| - 2];
    OnchainInjective(c.0, d.0);
    OnchainInjective(c.1, d.1);
  }

  /** A duplicate-free list of the routes of a set of chain pairs is as long as the set is large. */
  lemma {:induction false} CountRoutes(paths: seq<Path>, pairs: set<(string, string)>, buy: Node, sell: Node)
    requires Distinct(paths)
    requires forall r :: r in paths <==> exists c :: c in pairs && r == RouteVia(buy, sell, c)
    ensures |paths| == |pairs|
  {
    if |paths| == 0 {
      assert forall c :: c in pairs ==> RouteVia(buy, sell, c) in paths;
      assert pairs == {};
    } else {
      var r, rest := paths[0], paths[1..];
      assert paths == [r] + rest && r in paths;
      assert forall x :: x in rest <==> x in paths && x != r;
      var c :| c in pairs && r == RouteVia(buy, sell, c);
      forall d | d in pairs && d != c ensures RouteVia(buy, sell, d) != r {
        if RouteVia(buy, sell, d) == r {
          RouteViaInjective(buy, sell, c, d);
        }
      }
      CountRoutes(rest, pairs - {c}, buy, sell);
    }
  }

  /** For two distinct exchanges: exactly the listed routes, and |B| * |S| of them. */
  lemma ExchangeRouteCount(reg: Registry, asset: string, buy: Endpoint, sell: Endpoint, paths: seq<Path>)
    requires buy.Exchange? && sell.Exchange? && buy != sell && buy.Named() && sell.Named()
    requires Distinct(paths)
    requires forall r :: r in paths <==>
      TransferRoute(r, buy.NodeId(), sell.NodeId(), BuyChains(reg, asset, buy), SellChains(reg, asset, sell))
    ensures |paths| == |BuyChains(reg, asset, buy)| * |SellChains(reg, asset, sell)|
  {
    var b, s := BuyChains(reg, asset, buy), SellChains(reg, asset, sell);
    ExchangeRoutes(buy.id, sell.id, b, s);
    CountRoutes(paths, ChainPairs(b, s), buy.id, sell.id);
    PairCount(b, s);
  }
}
