/**
 Depth-first route enumeration (internal/pipeline/route_graph.go, and the same
 code in internal/detector/pipeline_builder.go).

 A route is described independently of the search, as a simple walk of bounded
 length; `FindAllRoutes` is proved to return exactly those routes.
 */
module RouteGraph {

  type Node = string
  type Path = seq<Node>
  type Adjacency = map<Node, seq<Node>>

  /** The neighbours Go reads from a map: a missing key reads as an empty slice. */
  function Neighbours(adj: Adjacency, cur: Node): seq<Node> {
    if cur in adj then adj[cur] else []
  }

  predicate Distinct<T(==)>(s: seq<T>) {
    forall i, j :: 0 <= i < j < |s| ==> s[i] != s[j]
  }

  /** Node `i` of `p` is a neighbour of the node before it. */
  predicate Joined(p: Path, i: int, adj: Adjacency)
    requires 0 < i < |p|
  {
    p[i] in Neighbours(adj, p[i - 1])
  }

  predicate IsWalk(p: Path, adj: Adjacency) {
    |p| > 0 && forall i :: 0 < i < |p| ==> Joined(p, i, adj)
  }

  /** A simple walk from `source` to `dest` over at most `maxHops` edges. */
  predicate IsRoute(p: Path, source: Node, dest: Node, adj: Adjacency, maxHops: int) {
    && IsWalk(p, adj)
    && Distinct(p)
    && p[0] == source
    && p[|p| - 1] == dest
    && |p| - 1 <= maxHops
  }

  /** No adjacency list names a neighbour twice. */
  ghost predicate DuplicateFree(adj: Adjacency) {
    forall n :: n in adj ==> Distinct(adj[n])
  }

  lemma DistinctAppend<T>(a: seq<T>, b: seq<T>)
    requires Distinct(a) && Distinct(b)
    requires forall x :: x in a ==> x !in b
    ensures Distinct(a + b)
  {
    forall i, j | 0 <= i < j < |a + b| ensures (a + b)[i] != (a + b)[j] {
      if i < |a| <= j {
        assert (a + b)[i] in a && (a + b)[j] == b[j - |a|];
      }
    }
  }

  ghost function MarkedIn(visited: map<Node, bool>): set<Node> {
    set n | n in visited && visited[n]
  }

  ghost function NodesOf(p: Path): set<Node> {
    set n | n in p
  }

  lemma MarkAndUnmark(visited: map<Node, bool>, n: Node)
    ensures MarkedIn(visited[n := true]) == MarkedIn(visited) + {n}
    ensures MarkedIn(visited[n := false]) == MarkedIn(visited) - {n}
  {
  }

  lemma NodesOfExtended(p: Path, n: Node)
    ensures NodesOf(p + [n]) == NodesOf(p) + {n}
  {
  }

  lemma AppendAssociates<T>(a: seq<T>, b: seq<T>, c: seq<T>)
    ensures (a + b) + c == a + (b + c)
  {
  }

  /** The state the recursive closure shares: the path walked so far, the marks, the results. */
  class Search {
    const source: Node
    const dest: Node
    const adj: Adjacency
    const maxHops: int

    var path: Path
    var visited: map<Node, bool>
    var out: seq<Path>

    constructor (source: Node, dest: Node, adj: Adjacency, maxHops: int)
      ensures this.source == source && this.dest == dest && this.adj == adj && this.maxHops == maxHops
      ensures path == [] && visited == map[] && out == []
    {
      this.source, this.dest, this.adj, this.maxHops := source, dest, adj, maxHops;
      path, visited, out := [], map[], [];
    }

    predicate Marked(n: Node)
      reads this
    {
      n in visited && visited[n]
    }

    ghost function Marks(): set<Node>
      reads this
    {
      MarkedIn(visited)
    }

    ghost predicate Route(p: Path) {
      IsRoute(p, source, dest, adj, maxHops)
    }

    /** A simple walk from the source that has not met `dest` before its last node. */
    ghost predicate Frontier(p: Path) {
      && IsWalk(p, adj)
      && Distinct(p)
      && p[0] == source
      && dest !in p[..|p| - 1]
    }

    /** `found` is exactly the set of routes that extend `prefix`. */
    ghost predicate Extensions(found: seq<Path>, prefix: Path) {
      && (forall r :: r in found <==> Route(r) && prefix <= r)
      && (DuplicateFree(adj) ==> Distinct(found))
    }

    /** `found` is exactly the set of routes that extend `prefix` by one of the first `k` neighbours. */
    ghost predicate ExtensionsVia(found: seq<Path>, prefix: Path, next: seq<Node>, k: nat)
      requires k <= |next|
    {
      && (forall r :: r in found <==> Route(r) && prefix <= r && |prefix| < |r| && r[|prefix|] in next[..k])
      && (DuplicateFree(adj) ==> Distinct(found))
    }

    lemma TooLong(prefix: Path)
      requires |prefix| > maxHops + 1
      ensures Extensions([], prefix)
    {
    }

    lemma StopAtDest(prefix: Path)
      requires Route(prefix)
      ensures Extensions([prefix], prefix)
    {
      forall r | Route(r) && prefix <= r ensures r == prefix {
        assert r[|prefix| - 1] == prefix[|prefix| - 1] == dest == r[|r| - 1];
      }
    }

    lemma PrefixIsStrict(prefix: Path, found: seq<Path>)
      requires IsWalk(prefix, adj) && prefix[|prefix| - 1] != dest
      requires ExtensionsVia(found, prefix, Neighbours(adj, prefix[|prefix| - 1]), |Neighbours(adj, prefix[|prefix| - 1])|)
      ensures Extensions(found, prefix)
    {
      var next := Neighbours(adj, prefix[|prefix| - 1]);
      assert next[..|next|] == next;
      forall r | Route(r) && prefix <= r ensures |prefix| < |r| && r[|prefix|] in next {
        assert r[|prefix| - 1] == prefix[|prefix| - 1];
        if |prefix| < |r| {
          assert Joined(r, |prefix|, adj);
        }
      }
    }

    /** Trying one more neighbour adds the routes that go through it. */
    lemma OneMoreNeighbour(found: seq<Path>, more: seq<Path>, prefix: Path, next: seq<Node>, k: nat)
      requires k < |next| && ExtensionsVia(found, prefix, next, k)
      requires DuplicateFree(adj) ==> Distinct(next)
      requires Extensions(more, prefix + [next[k]])
      ensures ExtensionsVia(found + more, prefix, next, k + 1)
    {
      var n := next[k];
      forall r: Path ensures (prefix + [n] <= r) <==> (prefix <= r && |prefix| < |r| && r[|prefix|] == n) {
        if prefix <= r && |prefix| < |r| && r[|prefix|] == n {
          assert r[..|prefix| + 1] == prefix + [n];
        }
        if prefix + [n] <= r {
          assert r[..|prefix|] == (prefix + [n])[..|prefix|] == prefix;
          assert r[|prefix|] == (prefix + [n])[|prefix|];
        }
      }
      assert next[..k + 1] == next[..k] + [n];
      if DuplicateFree(adj) {
        forall r | r in found ensures r !in more {
          var j :| 0 <= j < k && next[..k][j] == r[|prefix|];
          assert next[j] != next[k];
        }
        DistinctAppend(found, more);
      }
    }

    /** A marked neighbour, or one tried before, contributes no route. */
    lemma SkipMarked(found: seq<Path>, prefix: Path, next: seq<Node>, k: nat)
      requires k < |next| && ExtensionsVia(found, prefix, next, k) && next[k] in prefix
      ensures ExtensionsVia(found, prefix, next, k + 1)
    {
      assert next[..k + 1] == next[..k] + [next[k]];
      forall r | Route(r) && prefix <= r && |prefix| < |r| ensures r[|prefix|] != next[k] {
        var j :| 0 <= j < |prefix| && prefix[j] == next[k];
        assert r[j] == prefix[j];
      }
    }

    lemma ExtendFrontier(prefix: Path, next: Node)
      requires Frontier(prefix) && prefix[|prefix| - 1] != dest
      requires next in Neighbours(adj, prefix[|prefix| - 1]) && next !in prefix
      ensures Frontier(prefix + [next])
    {
      var p := prefix + [next];
      assert p[..|p| - 1] == prefix == prefix[..|prefix| - 1] + [prefix[|prefix| - 1]];
      forall i | 0 < i < |p| ensures Joined(p, i, adj) {
        if i < |prefix| {
          assert Joined(prefix, i, adj);
        }
      }
    }

    /** The recursive closure `dfs`: it appends exactly the routes through `path + [cur]` and restores the rest. */
    method Dfs(cur: Node, hops: nat) returns (ghost added: seq<Path>)
      requires hops == |path| && hops <= maxHops + 1
      requires Frontier(path + [cur]) && Marks() == NodesOf(path + [cur])
      modifies this
      ensures path == old(path) && Marks() == old(Marks())
      ensures out == old(out) + added && Extensions(added, old(path) + [cur])
      decreases maxHops + 1 - hops
    {
      ghost var prefix := path + [cur];
      added := [];
      if hops > maxHops {
        TooLong(prefix);
        return;
      }
      path := path + [cur];
      if cur == dest {
        out := out + [path];
        StopAtDest(prefix);
        added := [prefix];
        path := path[..|path| - 1];
        return;
      }
      var neighbours := Neighbours(adj, cur);
      for i := 0 to |neighbours|
        invariant path == prefix && Marks() == NodesOf(prefix)
        invariant out == old(out) + added && ExtensionsVia(added, prefix, neighbours, i)
      {
        var next := neighbours[i];
        if Marked(next) {
          assert next in Marks();
          SkipMarked(added, prefix, neighbours, i);
          continue;
        }
        assert next !in Marks();
        ExtendFrontier(prefix, next);
        NodesOfExtended(prefix, next);
        MarkAndUnmark(visited, next);
        visited := visited[next := true];
        ghost var more := Dfs(next, hops + 1);
        MarkAndUnmark(visited, next);
        visited := visited[next := false];
        OneMoreNeighbour(added, more, prefix, neighbours, i);
        AppendAssociates(old(out), added, more);
        added := added + more;
      }
      PrefixIsStrict(prefix, added);
      path := path[..|path| - 1];
    }
  }

  /** A hop limit below one is raised to one. */
  function HopLimit(maxHops: int): int {
    if maxHops < 1 then 1 else maxHops
  }

  method FindAllRoutes(source: Node, dest: Node, adj: Adjacency, maxHops: int) returns (out: seq<Path>)
    ensures source == dest ==> out == [[source]]
    ensures source != dest ==> forall r :: r in out <==> IsRoute(r, source, dest, adj, HopLimit(maxHops))
    ensures DuplicateFree(adj) ==> Distinct(out)
  {
    if source == dest {
      return [[source]];
    }
    var s := new Search(source, dest, adj, HopLimit(maxHops));
    s.visited := s.visited[source := true];
    ghost var added := s.Dfs(source, 0);
    s.visited := s.visited[source := false];
    out := s.out;
    assert s.out == added;
    assert s.path + [source] == [source];
  }
}
