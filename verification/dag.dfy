/** The DAG with stored in-degrees: both topological sorts and the critical path.
    An edge carries no weight; the length of a path is its number of edges. */
module DagPaths {
  import opened Walks
  import opened Topological
  import opened DepthFirst

  /** No walk that ends at v has more edges than d, and some walk has d. */
  ghost predicate IsLongest(adj: Adj, v: nat, d: nat) {
    && (exists u, p :: IsWalk(adj, p, u, v) && |p| == d)
    && (forall u, p :: IsWalk(adj, p, u, v) ==> |p| <= d)
  }

  /** All vertices that the walk leaves are in emitted. */
  ghost predicate Through(p: seq<Hop>, emitted: set<nat>) {
    forall i :: 0 <= i < |p| ==> p[i].u in emitted
  }

  /** As IsLongest, among the walks that leave vertices of emitted only. */
  ghost predicate IsLongestThrough(adj: Adj, emitted: set<nat>, v: nat, d: nat) {
    && (exists u, p :: IsWalk(adj, p, u, v) && Through(p, emitted) && |p| == d)
    && (forall u, p :: IsWalk(adj, p, u, v) && Through(p, emitted) ==> |p| <= d)
  }

  /** The vertices that no cycle leads to. */
  ghost function CycleFree(adj: Adj): set<nat> {
    set v: nat | v < |adj| && !FromCycle(adj, v)
  }

  /** A walk behind every distance. */
  datatype Trail = Trail(start: nat, hops: seq<Hop>)

  ghost predicate Witnessed(adj: Adj, emitted: set<nat>, dist: seq<nat>, trails: seq<Trail>) {
    && |dist| == |trails| == |adj|
    && forall v :: 0 <= v < |adj| ==>
      IsWalk(adj, trails[v].hops, trails[v].start, v) && |trails[v].hops| == dist[v] && Through(trails[v].hops, emitted)
  }

  ghost predicate Raised(dist: seq<nat>, u: nat, e: Edge) {
    u < |dist| && e.to < |dist| && dist[e.to] >= dist[u] + 1
  }

  /** The edges out of the first i vertices of the order, and the first k edges
      of the next one, are accounted for. */
  ghost predicate Processed(adj: Adj, order: seq<nat>, dist: seq<nat>, i: nat, k: nat) {
    && |dist| == |adj| && i <= |order| && AllBelow(order, |adj|)
    && (forall j, x :: 0 <= j < i && 0 <= x < |adj[order[j]]| ==> Raised(dist, order[j], adj[order[j]][x]))
    && (i < |order| ==> k <= |adj[order[i]]| && forall x :: 0 <= x < k ==> Raised(dist, order[i], adj[order[i]][x]))
  }

  lemma RaiseTrail(adj: Adj, emitted: set<nat>, dist: seq<nat>, trails: seq<Trail>, u: nat, e: Edge)
    returns (trails': seq<Trail>)
    requires WellFormed(adj) && Witnessed(adj, emitted, dist, trails)
    requires u < |adj| && u in emitted && e in adj[u] && e.to < |adj|
    ensures Witnessed(adj, emitted, dist[e.to := dist[u] + 1], trails')
  {
    var p := trails[u].hops + [Hop(u, e)];
    assert p[..|p| - 1] == trails[u].hops && IsHop(adj, Hop(u, e));
    assert IsWalk(adj, p, trails[u].start, e.to) && Through(p, emitted);
    trails' := trails[e.to := Trail(trails[u].start, p)];
  }

  /** If predecessors come first, the target of an edge has not been processed yet. */
  lemma RaiseProcessed(adj: Adj, order: seq<nat>, dist: seq<nat>, i: nat, k: nat)
    requires WellFormed(adj) && PredecessorsFirst(adj, order) && NoDuplicates(order)
    requires Processed(adj, order, dist, i, k) && i < |order| && k < |adj[order[i]]|
    ensures var e := adj[order[i]][k]; var d := dist[order[i]] + 1;
      Processed(adj, order, if d > dist[e.to] then dist[e.to := d] else dist, i, k + 1)
  {
    var u, e := order[i], adj[order[i]][k];
    var dist' := if dist[u] + 1 > dist[e.to] then dist[e.to := dist[u] + 1] else dist;
    assert IsSuccessor(adj, u, e.to);
    forall j | 0 <= j <= i
      ensures order[j] != e.to
    {
    }
    forall j, x | 0 <= j < i && 0 <= x < |adj[order[j]]|
      ensures Raised(dist', order[j], adj[order[j]][x])
    {
      assert Raised(dist, order[j], adj[order[j]][x]);
    }
    forall x | 0 <= x < k + 1
      ensures Raised(dist', u, adj[u][x])
    {
      if x < k { assert Raised(dist, u, adj[u][x]); }
    }
  }

  lemma {:induction false} RaisedBound(adj: Adj, order: seq<nat>, dist: seq<nat>, p: seq<Hop>, s: nat, t: nat)
    requires WellFormed(adj) && Processed(adj, order, dist, |order|, 0)
    requires IsWalk(adj, p, s, t) && Through(p, SetOf(order))
    ensures t < |dist| && |p| <= dist[t]
  {
    if p != [] {
      var h := p[|p| - 1];
      RaisedBound(adj, order, dist, p[..|p| - 1], s, h.u);
      assert h.u in order;
      var j :| 0 <= j < |order| && order[j] == h.u;
      var x :| 0 <= x < |adj[h.u]| && adj[h.u][x] == h.e;
      assert Raised(dist, order[j], adj[order[j]][x]);
    }
  }

  /** Along any order, each entry ends up as the longest walk that leaves only vertices of the
      order. */
  lemma LongestAtEnd(adj: Adj, order: seq<nat>, dist: seq<nat>, trails: seq<Trail>)
    requires WellFormed(adj) && Processed(adj, order, dist, |order|, 0)
    requires Witnessed(adj, SetOf(order), dist, trails)
    ensures forall v :: 0 <= v < |adj| ==> IsLongestThrough(adj, SetOf(order), v, dist[v])
  {
    forall v | 0 <= v < |adj|
      ensures IsLongestThrough(adj, SetOf(order), v, dist[v])
    {
      assert IsWalk(adj, trails[v].hops, trails[v].start, v);
      forall u, p | IsWalk(adj, p, u, v) && Through(p, SetOf(order))
        ensures |p| <= dist[v]
      {
        RaisedBound(adj, order, dist, p, u, v);
      }
    }
  }

  lemma EmittedSet(adj: Adj, order: seq<nat>)
    requires Emitted(adj, order)
    ensures SetOf(order) == CycleFree(adj)
  {
  }

  /** Every walk to a vertex that no cycle leads to leaves such vertices only. */
  lemma CycleFreeThrough(adj: Adj, p: seq<Hop>, s: nat, v: nat)
    requires WellFormed(adj) && IsWalk(adj, p, s, v) && !FromCycle(adj, v)
    ensures Through(p, CycleFree(adj))
  {
    forall i | 0 <= i < |p|
      ensures p[i].u in CycleFree(adj)
    {
      HopAt(adj, p, s, v, i);
      Split(adj, p, s, v, i);
      if FromCycle(adj, p[i].u) { StaysFromCycle(adj, p[i..], p[i].u, v); }
    }
  }

  /** Hop i leaves the vertex that the walk is at. */
  lemma {:induction false} HopAt(adj: Adj, p: seq<Hop>, s: nat, v: nat, i: nat)
    requires WellFormed(adj) && IsWalk(adj, p, s, v) && i < |p|
    ensures p[i].u == At(p, s, i) < |adj|
  {
    Split(adj, p, s, v, i + 1);
    var r := p[..i + 1];
    assert r[|r| - 1] == p[i] && r[..i] == p[..i];
    Split(adj, r, s, At(p, s, i + 1), i);
    WalkEnds(adj, p[..i], s, p[i].u);
    WalkEnds(adj, p[..i], s, At(p, s, i));
  }

  lemma LongestCycleFree(adj: Adj, v: nat, d: nat)
    requires WellFormed(adj) && IsLongestThrough(adj, CycleFree(adj), v, d) && !FromCycle(adj, v)
    ensures IsLongest(adj, v, d)
  {
    forall u, p | IsWalk(adj, p, u, v)
      ensures |p| <= d
    {
      CycleFreeThrough(adj, p, u, v);
    }
  }

  // ---- the structure ----------------------------------------------------------------------

  lemma {:induction false} InDegreeAppend(adj: Adj, u: nat, e: Edge, v: nat, n: nat)
    requires u < |adj| && n <= |adj|
    ensures InDegree(adj[u := adj[u] + [e]], {}, v, n) == InDegree(adj, {}, v, n) + if u < n && e.to == v then 1 else 0
  {
    if n > 0 {
      InDegreeAppend(adj, u, e, v, n - 1);
      if u == n - 1 {
        var es := adj[u] + [e];
        assert es[..|es| - 1] == adj[u];
      }
    }
  }

  class Dag {
    const n: nat
    var adj: Adj
    const inDegree: array<nat>

    ghost predicate Valid()
      reads this, inDegree
    {
      && |adj| == inDegree.Length == n && WellFormed(adj)
      && (forall v: nat :: v < n ==> inDegree[v] == InDegree(adj, {}, v, n))
      && (forall u :: 0 <= u < n ==> |adj[u]| <= n)
    }

    constructor (n: nat)
      ensures Valid() && this.n == n && adj == seq(n, _ => []) && fresh(inDegree)
    {
      this.n := n;
      adj := seq(n, _ => []);
      inDegree := new nat[n](_ => 0);
      new;
      NoEdges(adj, n);
    }

    /** A row has room for n targets. */
    method AddEdge(u: nat, v: nat)
      requires Valid() && u < n && v < n && |adj[u]| < n
      modifies this`adj, inDegree
      ensures Valid() && adj == old(adj)[u := old(adj)[u] + [Edge(v, 1)]]
    {
      ghost var was := adj;
      adj := adj[u := adj[u] + [Edge(v, 1)]];
      inDegree[v] := inDegree[v] + 1;
      forall w: nat | w < n
        ensures inDegree[w] == InDegree(adj, {}, w, n)
      {
        InDegreeAppend(was, u, Edge(v, 1), w, n);
      }
    }

    /** Kahn's sort on a copy of the stored in-degrees. What comes out, on any graph, is every
        vertex that no cycle leads to. */
    method TopoKahn() returns (order: array<nat>, cnt: nat)
      requires Valid()
      ensures fresh(order) && order.Length == n && cnt <= n && (cnt == n <==> !Cyclic(adj))
      ensures cnt == n ==> IsTopological(adj, order[..])
      ensures Emitted(adj, order[..cnt])
    {
      var indeg := new nat[n](i requires 0 <= i < inDegree.Length reads inDegree => inDegree[i]);
      order, cnt := Drain(adj, indeg);
    }

    /** Longest paths along Kahn's order; len is the longest of all. On any graph the entry of a
        vertex counts the walks that come from vertices no cycle leads to; if none leads to the
        vertex itself, these are all walks to it. */
    method CriticalPath() returns (dist: array<nat>, len: nat)
      requires Valid()
      ensures fresh(dist) && dist.Length == n
      ensures forall v :: 0 <= v < n ==> IsLongestThrough(adj, CycleFree(adj), v, dist[..][v])
      ensures forall v :: 0 <= v < n && !FromCycle(adj, v) ==> IsLongest(adj, v, dist[..][v])
      ensures !Cyclic(adj) ==> forall v :: 0 <= v < n ==> IsLongest(adj, v, dist[..][v])
      ensures forall v :: 0 <= v < n ==> dist[v] <= len
      ensures len == 0 || exists v :: 0 <= v < n && dist[v] == len
    {
      hide IsLongest, IsLongestThrough, FromCycle, CycleFree, Emitted, Witnessed, Processed, SetOf, PredecessorsFirst,
        NoDuplicates, InDegree, Cyclic;
      var order, cnt := TopoKahn();
      dist := new nat[n](_ => 0);
      ghost var trails := seq(n, (v: nat) => Trail(v, []));
      ghost var o := order[..cnt];
      EmittedOrder(adj, o);
      NothingRaised(adj, o, dist[..], trails);
      for i := 0 to cnt
        invariant order[..cnt] == o && Witnessed(adj, SetOf(o), dist[..], trails) && Processed(adj, o, dist[..], i, 0)
      {
        assert o[i] == order[i];
        trails := RaiseAll(adj, order, o, i, dist, trails);
      }
      LongestAtEnd(adj, o, dist[..], trails);
      EmittedSet(adj, o);
      ghost var d := dist[..];
      forall v: nat | v < n && !FromCycle(adj, v)
        ensures IsLongest(adj, v, d[v])
      {
        LongestCycleFree(adj, v, d[v]);
      }
      if !Cyclic(adj) { NoneFromCycle(adj); }
      len := 0;
      for i := 0 to n
        invariant dist[..] == d
        invariant forall v :: 0 <= v < i ==> dist[v] <= len
        invariant len == 0 || exists v :: 0 <= v < i && dist[v] == len
      {
        if dist[i] > len { len := dist[i]; }
      }
    }

    /** The finishing order of a depth-first search, reversed. On any graph an edge leads
        backward in it only if a walk leads back along it. */
    method TopoDfs() returns (order: array<nat>, cnt: nat)
      requires Valid()
      ensures fresh(order) && order.Length == n && cnt == n
      ensures NoDuplicates(order[..]) && AllBelow(order[..], n)
      ensures IsTopological(adj, order[..]) <==> !Cyclic(adj)
      ensures ForwardOrRound(adj, order[..])
    {
      hide Cyclic, EdgesBack, BackOrRound, IsTopological, NoDuplicates, Chain, ForwardOrRound;
      var vis := new bool[n](_ => false);
      var stack := new nat[n];
      order := new nat[n];
      NothingVisited(adj, vis[..]);
      var top: nat := 0;
      for i := 0 to n
        invariant top <= n && Visited(adj, vis[..], stack[..top], [])
        invariant BackOrRound(adj, stack[..top])
        invariant forall v: nat :: v < i ==> v in stack[..top]
      {
        if !vis[i] { top := FinishFrom(adj, i, vis, stack, top, []); }
      }
      ghost var fin := stack[..top];
      ReverseVerdict(adj, vis[..], fin);
      for i := 0 to top
        invariant forall k :: 0 <= k < i ==> order[k] == stack[top - 1 - k]
        invariant stack[..top] == fin
      {
        order[i] := stack[top - 1 - i];
      }
      cnt := top;
      assert order[..] == Reversed(fin);
    }

    method IsAcyclic() returns (b: bool)
      requires Valid()
      ensures b <==> !Cyclic(adj)
    {
      var order, cnt := TopoKahn();
      b := cnt == n;
    }
  }

  lemma {:induction false} NoEdges(adj: Adj, n: nat)
    requires n <= |adj| && forall u :: 0 <= u < |adj| ==> adj[u] == []
    ensures forall v: nat :: InDegree(adj, {}, v, n) == 0
  {
    if n > 0 { NoEdges(adj, n - 1); }
  }

  lemma EmittedOrder(adj: Adj, order: seq<nat>)
    requires Emitted(adj, order)
    ensures NoDuplicates(order) && AllBelow(order, |adj|) && PredecessorsFirst(adj, order)
  {
  }

  lemma NothingRaised(adj: Adj, o: seq<nat>, dist: seq<nat>, trails: seq<Trail>)
    requires |dist| == |trails| == |adj| && AllBelow(o, |adj|)
    requires forall v :: 0 <= v < |adj| ==> dist[v] == 0 && trails[v] == Trail(v, [])
    ensures Witnessed(adj, SetOf(o), dist, trails) && Processed(adj, o, dist, 0, 0)
  {
  }

  lemma NoneFromCycle(adj: Adj)
    requires !Cyclic(adj)
    ensures forall v :: !FromCycle(adj, v)
  {
  }

  /** Relaxes the edges out of order[i] forward. */
  method RaiseAll(adj: Adj, order: array<nat>, ghost o: seq<nat>, i: nat, dist: array<nat>, ghost trails0: seq<Trail>)
    returns (ghost trails: seq<Trail>)
    requires WellFormed(adj) && order != dist && order.Length == dist.Length == |adj|
    requires i < |o| <= |adj| && order[..|o|] == o && PredecessorsFirst(adj, o) && NoDuplicates(o)
    requires Witnessed(adj, SetOf(o), dist[..], trails0) && Processed(adj, o, dist[..], i, 0)
    modifies dist
    ensures Witnessed(adj, SetOf(o), dist[..], trails) && Processed(adj, o, dist[..], i + 1, 0)
  {
    hide PredecessorsFirst, NoDuplicates, Witnessed, Processed, Raised, WellFormed, SetOf;
    assert order[..|o|][i] == order[i];
    var v := order[i];
    ProcessedParts(adj, o, dist[..], i);
    trails := trails0;
    for k := 0 to |adj[v]|
      invariant Witnessed(adj, SetOf(o), dist[..], trails) && order[..|o|] == o
      invariant Processed(adj, o, dist[..], i, k)
    {
      var e := adj[v][k];
      ghost var was := dist[..];
      RaiseProcessed(adj, o, was, i, k);
      if dist[v] + 1 > dist[e.to] {
        trails := RaiseTrail(adj, SetOf(o), was, trails, v, e);
        dist[e.to] := dist[v] + 1;
        assert dist[..] == was[e.to := was[v] + 1];
      }
    }
    VertexDone(adj, o, dist[..], i);
  }

  lemma ProcessedParts(adj: Adj, o: seq<nat>, dist: seq<nat>, i: nat)
    requires WellFormed(adj) && Processed(adj, o, dist, i, 0) && i < |o|
    ensures |dist| == |adj| && o[i] < |adj| && o[i] in SetOf(o)
    ensures forall k :: 0 <= k < |adj[o[i]]| ==> adj[o[i]][k].to < |adj|
  {
  }

  lemma VertexDone(adj: Adj, o: seq<nat>, dist: seq<nat>, i: nat)
    requires i < |o| && o[i] < |adj| && Processed(adj, o, dist, i, |adj[o[i]]|)
    ensures Processed(adj, o, dist, i + 1, 0)
  {
  }

  lemma NothingVisited(adj: Adj, vis: seq<bool>)
    requires |vis| == |adj| && forall i :: 0 <= i < |vis| ==> !vis[i]
    ensures Visited(adj, vis, [], []) && BackOrRound(adj, [])
  {
  }

  /** A complete finishing order, reversed, is a permutation, and a topological order
      exactly if there is no cycle. */
  lemma ReverseVerdict(adj: Adj, vis: seq<bool>, fin: seq<nat>)
    requires WellFormed(adj) && Visited(adj, vis, fin, []) && BackOrRound(adj, fin)
    requires forall v: nat :: v < |adj| ==> v in fin
    ensures |fin| == |adj| && NoDuplicates(Reversed(fin)) && AllBelow(Reversed(fin), |adj|)
    ensures IsTopological(adj, Reversed(fin)) <==> !Cyclic(adj)
    ensures ForwardOrRound(adj, Reversed(fin))
  {
    RoundForward(adj, fin);
    assert fin + [] == fin;
    Pigeonhole(fin, |adj|);
    AllListed(fin, |adj|);
    if Cyclic(adj) {
      if IsTopological(adj, Reversed(fin)) { TopologicalAcyclic(adj, Reversed(fin)); }
    } else {
      AcyclicBack(adj, fin);
      ReversedTopological(adj, fin);
    }
  }

  /** An edge out of order[i] leads to a vertex that occurs before it, or that a walk leads back
      from. */
  ghost predicate BackOrRound(adj: Adj, order: seq<nat>) {
    && AllBelow(order, |adj|)
    && forall i, k :: 0 <= i < |order| && 0 <= k < |adj[order[i]]| ==>
      adj[order[i]][k].to in order[..i] || Reachable(adj, adj[order[i]][k].to, order[i])
  }

  ghost predicate ForwardOrRound(adj: Adj, order: seq<nat>) {
    forall i, j :: 0 <= i < |order| && 0 <= j < |order| && IsSuccessor(adj, order[i], order[j]) ==>
      i < j || Reachable(adj, order[j], order[i])
  }

  lemma AcyclicBack(adj: Adj, fin: seq<nat>)
    requires BackOrRound(adj, fin) && !Cyclic(adj)
    ensures EdgesBack(adj, fin)
  {
    forall i, k | 0 <= i < |fin| && 0 <= k < |adj[fin[i]]|
      ensures adj[fin[i]][k].to in fin[..i]
    {
      var u, v := fin[i], adj[fin[i]][k].to;
      if Reachable(adj, v, u) {
        var p :| IsWalk(adj, p, v, u);
        assert IsSuccessor(adj, u, v);
        var r := HopWalk(adj, u, v);
        Concat(adj, r, p, u, v, u);
      }
    }
  }

  lemma RoundForward(adj: Adj, fin: seq<nat>)
    requires BackOrRound(adj, fin) && NoDuplicates(fin + [])
    ensures ForwardOrRound(adj, Reversed(fin))
  {
    assert fin + [] == fin;
    var r, n := Reversed(fin), |fin|;
    forall i, j | 0 <= i < n && 0 <= j < n && IsSuccessor(adj, r[i], r[j])
      ensures i < j || Reachable(adj, r[j], r[i])
    {
      var a := n - 1 - i;
      var k :| 0 <= k < |adj[fin[a]]| && adj[fin[a]][k].to == r[j];
      if r[j] in fin[..a] {
        var b :| 0 <= b < a && fin[..a][b] == r[j];
        assert fin[b] == fin[n - 1 - j];
      }
    }
  }

  /** The open vertex v is finished: where a successor is open, the stack leads back to v. */
  lemma FinishRound(adj: Adj, vis: seq<bool>, fin: seq<nat>, s: seq<nat>, v: nat)
    requires WellFormed(adj) && Visited(adj, vis, fin, s) && s != [] && s[|s| - 1] == v && v < |adj|
    requires RowFollowed(adj, v, |adj[v]|, fin, s) && BackOrRound(adj, fin)
    ensures BackOrRound(adj, fin + [v])
  {
    var f := fin + [v];
    forall i, k | 0 <= i < |f| && 0 <= k < |adj[f[i]]|
      ensures adj[f[i]][k].to in f[..i] || Reachable(adj, adj[f[i]][k].to, f[i])
    {
      assert f[..i] == fin[..i];
      if i == |fin| {
        assert fin[..i] == fin;
        var w := adj[v][k].to;
        if w in s {
          var a :| 0 <= a < |s| && s[a] == w;
          var p := ChainWalk(adj, s, a, |s| - 1);
        }
      }
    }
  }

  /** Every successor of a vertex finished from position top on is finished, or still open. */
  ghost predicate Followed(adj: Adj, fin: seq<nat>, top: nat, stk: seq<nat>) {
    && AllBelow(fin, |adj|)
    && forall i, k :: top <= i < |fin| && 0 <= k < |adj[fin[i]]| ==>
      adj[fin[i]][k].to in fin || adj[fin[i]][k].to in stk
  }

  /** The first m successors of v are finished, or still open. */
  ghost predicate RowFollowed(adj: Adj, v: nat, m: nat, fin: seq<nat>, stk: seq<nat>)
    requires v < |adj| && m <= |adj[v]|
  {
    forall k :: 0 <= k < m ==> adj[v][k].to in fin || adj[v][k].to in stk
  }

  lemma RowStays(adj: Adj, v: nat, m: nat, fin: seq<nat>, fin': seq<nat>, stk: seq<nat>)
    requires v < |adj| && m <= |adj[v]| && RowFollowed(adj, v, m, fin, stk)
    requires |fin| <= |fin'| && fin'[..|fin|] == fin
    ensures RowFollowed(adj, v, m, fin', stk)
  {
    assert forall x: nat :: x in fin ==> x in fin';
  }

  /** Every vertex on a walk from v through unvisited vertices is in fin. */
  ghost predicate Reached(adj: Adj, vis: seq<bool>, v: nat, fin: seq<nat>) {
    forall p, t :: IsWalk(adj, p, v, t) && Unvisited(vis, p, v) ==> t in fin
  }

  ghost predicate Unvisited(vis: seq<bool>, p: seq<Hop>, v: nat) {
    forall i :: 0 <= i <= |p| ==> At(p, v, i) < |vis| && !vis[At(p, v, i)]
  }

  lemma NothingFollowed(adj: Adj, fin: seq<nat>, stk: seq<nat>)
    requires AllBelow(fin, |adj|)
    ensures Followed(adj, fin, |fin|, stk)
  {
  }

  lemma FollowedOn(adj: Adj, fin: seq<nat>, fin': seq<nat>, top: nat, stk: seq<nat>)
    requires Followed(adj, fin, top, stk) && Followed(adj, fin', |fin|, stk) && |fin| <= |fin'| && fin'[..|fin|] == fin
    ensures Followed(adj, fin', top, stk)
  {
    assert forall x: nat :: x in fin ==> x in fin';
    forall i, k | top <= i < |fin'| && 0 <= k < |adj[fin'[i]]|
      ensures adj[fin'[i]][k].to in fin' || adj[fin'[i]][k].to in stk
    {
      if i < |fin| { assert fin'[i] == fin[i]; }
    }
  }

  lemma FollowedClose(adj: Adj, fin: seq<nat>, top: nat, stk: seq<nat>, v: nat)
    requires Followed(adj, fin, top, stk + [v]) && v < |adj|
    requires RowFollowed(adj, v, |adj[v]|, fin, stk + [v])
    ensures Followed(adj, fin + [v], top, stk)
  {
    var f := fin + [v];
    forall i, k | top <= i < |f| && 0 <= k < |adj[f[i]]|
      ensures adj[f[i]][k].to in f || adj[f[i]][k].to in stk
    {
      if i < |fin| { assert f[i] == fin[i]; }
    }
  }

  lemma ReachedFrom(adj: Adj, vis: seq<bool>, v: nat, fin: seq<nat>, top: nat, stk: seq<nat>)
    requires Followed(adj, fin, top, stk) && top <= |fin| && v in fin && |vis| == |adj|
    requires forall u: nat :: u < |adj| && !vis[u] ==> u !in fin[..top] && u !in stk
    ensures Reached(adj, vis, v, fin)
  {
    forall p, t | IsWalk(adj, p, v, t) && Unvisited(vis, p, v)
      ensures t in fin
    {
      WalkFinished(adj, vis, v, fin, top, stk, p, t);
    }
  }

  lemma {:induction false} WalkFinished(adj: Adj, vis: seq<bool>, v: nat, fin: seq<nat>, top: nat, stk: seq<nat>,
      p: seq<Hop>, t: nat)
    requires Followed(adj, fin, top, stk) && top <= |fin| && v in fin && |vis| == |adj|
    requires forall u: nat :: u < |adj| && !vis[u] ==> u !in fin[..top] && u !in stk
    requires IsWalk(adj, p, v, t) && Unvisited(vis, p, v)
    ensures t in fin
    decreases |p|
  {
    if p != [] {
      var k := |p| - 1;
      var q, u := p[..k], p[k].u;
      forall i | 0 <= i <= k
        ensures At(q, v, i) < |vis| && !vis[At(q, v, i)]
      {
        assert At(q, v, i) == At(p, v, i);
      }
      WalkFinished(adj, vis, v, fin, top, stk, q, u);
      WalkEnds(adj, q, v, u);
      assert At(p, v, |p|) == t;
      var i :| 0 <= i < |fin| && fin[i] == u;
      forall j | 0 <= j < top
        ensures fin[j] in fin[..top]
      {
        assert fin[..top][j] == fin[j];
      }
      assert i >= top;
      var e :| 0 <= e < |adj[u]| && adj[u][e] == p[k].e;
    }
  }

  lemma WalkEnds(adj: Adj, p: seq<Hop>, s: nat, t: nat)
    requires IsWalk(adj, p, s, t)
    ensures At(p, s, |p|) == t
  {
  }

  /** Visits everything reachable from v and pushes each vertex when it is finished. */
  method FinishFrom(adj: Adj, v: nat, vis: array<bool>, stack: array<nat>, top: nat, ghost stk: seq<nat>)
    returns (top': nat)
    requires WellFormed(adj) && vis.Length == stack.Length == |adj| && v < |adj| && !vis[v] && top <= |adj|
    requires Visited(adj, vis[..], stack[..top], stk) && BackOrRound(adj, stack[..top])
    requires stk != [] ==> IsSuccessor(adj, stk[|stk| - 1], v)
    modifies vis, stack
    ensures top <= top' <= |adj| && Visited(adj, vis[..], stack[..top'], stk)
    ensures BackOrRound(adj, stack[..top'])
    ensures stack[..top] == old(stack[..top]) && v in stack[..top']
    ensures Followed(adj, stack[..top'], top, stk)
    ensures Reached(adj, old(vis[..]), v, stack[..top'])
    decreases |adj| - top - |stk|, 0
  {
    hide BackOrRound, NoDuplicates, Chain, Followed, Reached, RowFollowed;
    ghost var vis0, fin0 := vis[..], stack[..top];
    Open(adj, vis0, fin0, stk, v);
    vis[v] := true;
    assert vis[..] == vis0[v := true];
    ghost var s := stk + [v];
    Room(adj, vis[..], fin0, s);
    top' := FinishRow(adj, v, vis, stack, top, s);
    ghost var fin := stack[..top'];
    Room(adj, vis[..], fin, s);
    FinishRound(adj, vis[..], fin, s, v);
    Close(adj, vis[..], fin, stk, v);
    stack[top'] := v;
    top' := top' + 1;
    assert stack[..top'] == fin + [v];
    assert fin[..top] == fin0;
    FollowedClose(adj, fin, top, stk, v);
    ReachedFrom(adj, vis0, v, fin + [v], top, stk);
  }

  /** Visits the successors of the open vertex v. */
  method FinishRow(adj: Adj, v: nat, vis: array<bool>, stack: array<nat>, top: nat, ghost s: seq<nat>)
    returns (top': nat)
    requires WellFormed(adj) && vis.Length == stack.Length == |adj| && v < |adj| && top <= |adj|
    requires Visited(adj, vis[..], stack[..top], s) && BackOrRound(adj, stack[..top])
    requires s != [] && s[|s| - 1] == v
    modifies vis, stack
    ensures top <= top' <= |adj| && Visited(adj, vis[..], stack[..top'], s)
    ensures BackOrRound(adj, stack[..top'])
    ensures stack[..top] == old(stack[..top])
    ensures Followed(adj, stack[..top'], top, s) && RowFollowed(adj, v, |adj[v]|, stack[..top'], s)
    decreases |adj| - top - |s|, 1
  {
    hide BackOrRound, NoDuplicates, Chain, Followed, Reached;
    ghost var fin0 := stack[..top];
    top' := top;
    Room(adj, vis[..], fin0, s);
    NothingFollowed(adj, fin0, s);
    for i := 0 to |adj[v]|
      invariant top <= top' <= |adj| && Visited(adj, vis[..], stack[..top'], s) && stack[..top] == fin0
      invariant BackOrRound(adj, stack[..top'])
      invariant Followed(adj, stack[..top'], top, s) && RowFollowed(adj, v, i, stack[..top'], s)
    {
      var w := adj[v][i].to;
      ghost var fin := stack[..top'];
      assert IsSuccessor(adj, s[|s| - 1], w);
      if !vis[w] {
        ghost var t := top';
        top' := FinishFrom(adj, w, vis, stack, top', s);
        assert stack[..top'][..t] == fin;
        assert fin[..top] == stack[..top];
        FollowedOn(adj, fin, stack[..top'], top, s);
        RowStays(adj, v, i, fin, stack[..top'], s);
      }
    }
  }
}
