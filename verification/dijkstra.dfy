/** Dijkstra's algorithm with lazy deletion: a vertex may be in the heap several
    times, and only the first time it comes out settles it. */
module Dijkstra {
  import opened Walks
  import opened ShortestPaths
  import opened MinHeap
  import opened DijkstraRuns

  // ---- the invariant ---------------------------------------------------------------

  /** Every entry names a vertex at a key no smaller than its distance. */
  ghost predicate EntriesCover(dist: seq<Dist>, s: multiset<Entry>) {
    forall e :: e in s ==> e.v < |dist| && dist[e.v].Finite? && dist[e.v].d <= e.k
  }

  /** Every unvisited vertex with a distance has an entry at that distance. */
  ghost predicate Queued(dist: seq<Dist>, vis: seq<bool>, s: multiset<Entry>) {
    |vis| == |dist| && forall v :: 0 <= v < |dist| && !vis[v] && dist[v].Finite? ==> Entry(dist[v].d, v) in s
  }

  /** Visited vertices are no farther than anything still queued. */
  ghost predicate VisitedNear(dist: seq<Dist>, vis: seq<bool>, s: multiset<Entry>) {
    |vis| == |dist| && forall v, e :: 0 <= v < |dist| && vis[v] && e in s ==> dist[v].Finite? && dist[v].d <= e.k
  }

  /** The edges out of visited vertices, except from x, relax nothing. */
  ghost predicate VisitedDone(adj: Adj, dist: seq<Dist>, vis: seq<bool>, x: nat) {
    && |vis| == |dist| == |adj|
    && forall u, i :: 0 <= u < |adj| && vis[u] && u != x && 0 <= i < |adj[u]| ==>
         adj[u][i].to < |dist| && !Relaxes(dist, u, adj[u][i])
  }

  ghost predicate Frontier(adj: Adj, dist: seq<Dist>, vis: seq<bool>, s: multiset<Entry>) {
    && |vis| == |dist| == |adj|
    && EntriesCover(dist, s) && Queued(dist, vis, s) && VisitedNear(dist, vis, s)
  }

  /** Visited vertices lie within distance d. */
  ghost predicate Near(dist: seq<Dist>, vis: seq<bool>, d: int) {
    |vis| == |dist| && forall v :: 0 <= v < |vis| && vis[v] ==> dist[v].Finite? && dist[v].d <= d
  }

  lemma StartFrontier(adj: Adj, dist: seq<Dist>, vis: seq<bool>, s: multiset<Entry>, src: nat)
    requires |vis| == |dist| == |adj| && src < |adj| && (forall v :: 0 <= v < |vis| ==> !vis[v])
    requires forall v :: 0 <= v < |dist| ==> dist[v] == if v == src then Finite(0) else Infinite
    requires s == multiset{Entry(0, src)}
    ensures Frontier(adj, dist, vis, s) && VisitedDone(adj, dist, vis, |adj|)
  {
  }

  /** A stale entry can go. */
  lemma DropStale(adj: Adj, dist: seq<Dist>, vis: seq<bool>, s: multiset<Entry>, s': multiset<Entry>, e: Entry)
    requires Frontier(adj, dist, vis, s) && s' + multiset{e} == s && e.v < |vis| && vis[e.v]
    ensures Frontier(adj, dist, vis, s')
  {
    forall x | x in s
      ensures x == e || x in s'
    {
      assert s[x] == s'[x] + multiset{e}[x];
    }
    forall x | x in s'
      ensures x in s
    {
      assert s[x] == s'[x] + multiset{e}[x];
    }
  }

  /** The least entry of an unvisited vertex u is at u's distance, and u is next. */
  lemma SettleNext(adj: Adj, dist: seq<Dist>, vis: seq<bool>, s: multiset<Entry>, s': multiset<Entry>, e: Entry)
    requires Frontier(adj, dist, vis, s) && s' + multiset{e} == s && e.v < |vis| && !vis[e.v]
    requires forall x :: x in s ==> e.k <= x.k
    ensures dist[e.v] == Finite(e.k)
    ensures Frontier(adj, dist, vis[e.v := true], s')
    ensures forall v :: 0 <= v < |vis| && vis[v] ==> dist[v].Finite? && dist[v].d <= e.k
    ensures forall x :: x in s' ==> e.k <= x.k
  {
    assert e in s;
    forall x | x in s
      ensures x == e || x in s'
    {
      assert s[x] == s'[x] + multiset{e}[x];
    }
    forall x | x in s'
      ensures x in s
    {
      assert s[x] == s'[x] + multiset{e}[x];
    }
    assert Entry(dist[e.v].d, e.v) in s;
  }

  /** Lowering the distance of an unvisited vertex and queueing it. */
  lemma LowerUnvisited(adj: Adj, dist: seq<Dist>, vis: seq<bool>, s: multiset<Entry>, u: nat, e: Edge, d: int)
    requires Frontier(adj, dist, vis, s) && VisitedDone(adj, dist, vis, u) && u < |adj| && e.to < |adj|
    requires vis[u] && !vis[e.to] && Relaxes(dist, u, e) && dist[u] == Finite(d) && e.weight >= 0
    requires Near(dist, vis, d)
    ensures Frontier(adj, dist[e.to := Finite(d + e.weight)], vis, s + multiset{Entry(d + e.weight, e.to)})
    ensures VisitedDone(adj, dist[e.to := Finite(d + e.weight)], vis, u)
  {
    var dist' := dist[e.to := Finite(d + e.weight)];
    var s' := s + multiset{Entry(d + e.weight, e.to)};
    forall x | x in s'
      ensures x in s || x == Entry(d + e.weight, e.to)
    {
    }
    forall x, i | 0 <= x < |adj| && vis[x] && x != u && 0 <= i < |adj[x]|
      ensures adj[x][i].to < |dist'| && !Relaxes(dist', x, adj[x][i])
    {
      assert !Relaxes(dist, x, adj[x][i]);
    }
  }

  // ---- the algorithm ------------------------------------------------------------------

  /** The contents of the four arrays, and the walks behind the distances. */
  datatype Run = Run(dist: seq<Dist>, vis: seq<bool>, heap: seq<Entry>, walks: seq<seq<Hop>>)

  /** What holds whenever the heap is looked at; x is the vertex being expanded. */
  ghost predicate Loop(adj: Adj, src: nat, r: Run, x: nat) {
    && Heap(r.heap) && Sound(adj, src, r.dist, r.walks) && src < |adj| && AtMost(r.dist[src], Finite(0))
    && Frontier(adj, r.dist, r.vis, multiset(r.heap)) && VisitedDone(adj, r.dist, r.vis, x)
  }

  /** u has just been settled at distance d, and its first i edges are relaxed. */
  ghost predicate Expanding(adj: Adj, src: nat, r: Run, u: nat, i: nat, d: int) {
    && Loop(adj, src, r, u) && u < |adj| && i <= |adj[u]|
    && r.vis[u] && r.dist[u] == Finite(d) && Near(r.dist, r.vis, d)
    && (forall j :: 0 <= j < i ==> adj[u][j].to < |adj| && !Relaxes(r.dist, u, adj[u][j]))
  }

  ghost predicate Stored(dist: array<Dist>, vis: array<bool>, ks: array<int>, vs: array<nat>, r: Run)
    reads dist, vis, ks, vs
  {
    && |r.heap| <= ks.Length == vs.Length
    && dist[..] == r.dist && vis[..] == r.vis && Entries(ks, vs, |r.heap|) == r.heap
  }

  ghost predicate Separate(dist: array<Dist>, vis: array<bool>, ks: array<int>, vs: array<nat>) {
    && ks as object != vs && vis as object != ks && vis as object != vs
    && dist as object != ks && dist as object != vs && dist as object != vis
  }

  lemma RootOut(dist: seq<Dist>, s: seq<Entry>, s': seq<Entry>, e: Entry)
    requires s != [] && e == s[0] && Heap(s) && EntriesCover(dist, multiset(s))
    requires multiset(s') + multiset{e} == multiset(s)
    ensures e.v < |dist| && forall x :: x in multiset(s) ==> e.k <= x.k
  {
    assert e in multiset(s);
    forall x | x in multiset(s)
      ensures e.k <= x.k
    {
      assert x in s;
      var i :| 0 <= i < |s| && s[i] == x;
      RootLeast(s, i);
    }
  }

  /** With the least entry out, a stale one is forgotten and a live one settles its vertex. */
  lemma TakenOut(adj: Adj, src: nat, r: Run, s': seq<Entry>)
    requires Loop(adj, src, r, |adj|) && r.heap != [] && Heap(s')
    requires multiset(s') + multiset{r.heap[0]} == multiset(r.heap)
    ensures var e := r.heap[0];
      && e.v < |adj|
      && (r.vis[e.v] ==> Loop(adj, src, r.(heap := s'), |adj|))
      && (!r.vis[e.v] ==> Expanding(adj, src, r.(heap := s', vis := r.vis[e.v := true]), e.v, 0, e.k))
  {
    var e := r.heap[0];
    RootOut(r.dist, r.heap, s', e);
    if r.vis[e.v] {
      DropStale(adj, r.dist, r.vis, multiset(r.heap), multiset(s'), e);
    } else {
      SettleNext(adj, r.dist, r.vis, multiset(r.heap), multiset(s'), e);
    }
  }

  /** Edge i does not relax, as it leads to a settled vertex or is too long. */
  lemma SkipEdge(adj: Adj, src: nat, r: Run, u: nat, i: nat, d: int)
    requires WellFormed(adj) && NonNegative(adj) && Expanding(adj, src, r, u, i, d) && i < |adj[u]|
    requires r.vis[adj[u][i].to] || !Relaxes(r.dist, u, adj[u][i])
    ensures Expanding(adj, src, r, u, i + 1, d)
  {
    assert !Relaxes(r.dist, u, adj[u][i]);
  }

  /** Edge i relaxes: its target's distance is lowered and queued. */
  lemma TakeEdge(adj: Adj, src: nat, r: Run, u: nat, i: nat, d: int, s': seq<Entry>)
    requires WellFormed(adj) && NonNegative(adj) && Expanding(adj, src, r, u, i, d) && i < |adj[u]|
    requires !r.vis[adj[u][i].to] && Relaxes(r.dist, u, adj[u][i])
    requires Heap(s') && multiset(s') == multiset(r.heap) + multiset{Entry(d + adj[u][i].weight, adj[u][i].to)}
    ensures Expanding(adj, src, Run(r.dist[adj[u][i].to := Finite(d + adj[u][i].weight)], r.vis, s',
      r.walks[adj[u][i].to := r.walks[u] + [Hop(u, adj[u][i])]]), u, i + 1, d)
  {
    hide *;
    ExpandingParts(adj, src, r, u, i, d);
    var e := adj[u][i];
    StillDone(adj, r.dist, r.dist[e.to := Finite(d + e.weight)], u, i);
    StillNear(r.dist, r.vis, d, e.to, Finite(d + e.weight));
    StillStarted(r.dist, src, u, e);
    RelaxSound(adj, src, r.dist, r.walks, u, e);
    LowerUnvisited(adj, r.dist, r.vis, multiset(r.heap), u, e, d);
    Assemble(adj, src, r.dist[e.to := Finite(d + e.weight)], r.vis, s', r.walks[e.to := r.walks[u] + [Hop(u, e)]], u,
      i + 1, d);
  }

  lemma ExpandingParts(adj: Adj, src: nat, r: Run, u: nat, i: nat, d: int)
    requires WellFormed(adj) && NonNegative(adj) && Expanding(adj, src, r, u, i, d) && i < |adj[u]|
    ensures u < |adj| == |r.dist| == |r.vis| == |r.walks| && src < |adj| && r.vis[u] && r.dist[u] == Finite(d)
    ensures Heap(r.heap) && Sound(adj, src, r.dist, r.walks) && AtMost(r.dist[src], Finite(0)) && Near(r.dist, r.vis, d)
    ensures Frontier(adj, r.dist, r.vis, multiset(r.heap)) && VisitedDone(adj, r.dist, r.vis, u)
    ensures adj[u][i] in adj[u] && adj[u][i].to < |adj| && adj[u][i].weight >= 0
    ensures forall j :: 0 <= j < i ==> adj[u][j].to < |adj| && !Relaxes(r.dist, u, adj[u][j])
  {
  }

  lemma Assemble(adj: Adj, src: nat, dist: seq<Dist>, vis: seq<bool>, s: seq<Entry>, walks: seq<seq<Hop>>, u: nat,
      i: nat, d: int)
    requires Heap(s) && Sound(adj, src, dist, walks) && src < |adj| && AtMost(dist[src], Finite(0))
    requires Frontier(adj, dist, vis, multiset(s)) && VisitedDone(adj, dist, vis, u) && u < |adj| && i <= |adj[u]|
    requires vis[u] && dist[u] == Finite(d) && Near(dist, vis, d)
    requires forall j :: 0 <= j < i ==> adj[u][j].to < |adj| && !Relaxes(dist, u, adj[u][j])
    ensures Expanding(adj, src, Run(dist, vis, s, walks), u, i, d)
  {
  }

  lemma StillStarted(dist: seq<Dist>, src: nat, u: nat, e: Edge)
    requires src < |dist| && u < |dist| && e.to < |dist| && AtMost(dist[src], Finite(0)) && Relaxes(dist, u, e)
    ensures AtMost(dist[e.to := Finite(dist[u].d + e.weight)][src], Finite(0))
  {
  }

  lemma StillNear(dist: seq<Dist>, vis: seq<bool>, d: int, v: nat, x: Dist)
    requires Near(dist, vis, d) && v < |dist| && !vis[v]
    ensures Near(dist[v := x], vis, d)
  {
  }

  /** Lowering the target of edge i of u keeps the edges up to i from relaxing. */
  lemma StillDone(adj: Adj, dist: seq<Dist>, dist': seq<Dist>, u: nat, i: nat)
    requires WellFormed(adj) && u < |adj| == |dist| && i < |adj[u]|
    requires forall j :: 0 <= j < i ==> adj[u][j].to < |adj| && !Relaxes(dist, u, adj[u][j])
    requires var e := adj[u][i]; Relaxes(dist, u, e) && e.to != u && dist' == dist[e.to := Finite(dist[u].d + e.weight)]
    ensures forall j :: 0 <= j <= i ==> adj[u][j].to < |adj| && !Relaxes(dist', u, adj[u][j])
  {
    forall j | 0 <= j <= i
      ensures !Relaxes(dist', u, adj[u][j])
    {
      if j < i { assert !Relaxes(dist, u, adj[u][j]); }
    }
  }

  lemma DoneWith(adj: Adj, src: nat, r: Run, u: nat, d: int)
    requires WellFormed(adj) && u < |adj| && Expanding(adj, src, r, u, |adj[u]|, d)
    ensures Loop(adj, src, r, |adj|)
  {
  }

  /** The arrays, without the walks. */
  ghost function Arrays(r: Run): State {
    State(r.dist, r.vis, r.heap, false)
  }

  /** Where a run stands that is about to relax edge i of u, settled at distance d. */
  datatype Halt = Halt(r: Run, u: nat, i: nat, d: int)

  /** The edge relaxes, so that an entry has to be pushed, but the heap arrays are full. */
  ghost predicate Overrun(adj: Adj, src: nat, h: Halt, room: nat) {
    && Expanding(adj, src, h.r, h.u, h.i, h.d) && h.i < |adj[h.u]| && |h.r.heap| == room
    && adj[h.u][h.i].to < |h.r.vis| == |h.r.dist|
    && !h.r.vis[adj[h.u][h.i].to] && Relaxes(h.r.dist, h.u, adj[h.u][h.i])
  }

  lemma OverrunIs(adj: Adj, src: nat, r: Run, u: nat, i: nat, d: int, room: nat)
    requires Expanding(adj, src, r, u, i, d) && i < |adj[u]| && adj[u][i].to < |r.vis| == |r.dist| && u < |r.dist|
    ensures Overrun(adj, src, Halt(r, u, i, d), room) <==> Lowers(Arrays(r), u, adj[u][i]) && |r.heap| == room
    ensures Lowers(Arrays(r), u, adj[u][i]) <==> !r.vis[adj[u][i].to] && Relaxes(r.dist, u, adj[u][i])
  {
    hide Expanding, Relaxes;
  }

  lemma ArraysAre(dist: seq<Dist>, vis: seq<bool>, s: seq<Entry>, walks: seq<seq<Hop>>)
    ensures Arrays(Run(dist, vis, s, walks)) == State(dist, vis, s, false)
  {
  }

  method RelaxEdge(adj: Adj, ghost src: nat, u: nat, i: nat, dist: array<Dist>, vis: array<bool>, ks: array<int>,
      vs: array<nat>, size: nat, ghost r: Run, ghost d: int)
    returns (full: bool, size': nat, ghost r': Run)
    requires WellFormed(adj) && NonNegative(adj) && Expanding(adj, src, r, u, i, d) && i < |adj[u]|
    requires Separate(dist, vis, ks, vs) && Stored(dist, vis, ks, vs, r) && size == |r.heap|
    modifies dist, ks, vs
    ensures full <==> Overrun(adj, src, Halt(r, u, i, d), ks.Length)
    ensures full ==> size == ks.Length
    ensures full == EdgeDone(Arrays(r), u, adj[u][i], ks.Length).full
    ensures !full ==> Arrays(r') == EdgeDone(Arrays(r), u, adj[u][i], ks.Length)
    ensures !full ==> Expanding(adj, src, r', u, i + 1, d) && r'.vis == r.vis
    ensures !full ==> Stored(dist, vis, ks, vs, r') && size' == |r'.heap| <= size + 1
  {
    hide Expanding, Frontier, Near, VisitedDone, Sound, Heap, WellFormed, NonNegative, EdgeDone, Overrun, Arrays,
      Pushed, Lowers;
    ExpandingParts(adj, src, r, u, i, d);
    OverrunIs(adj, src, r, u, i, d, ks.Length);
    var e := adj[u][i];
    ArraysAre(r.dist, r.vis, r.heap, r.walks);
    EdgeCases(Arrays(r), u, e, ks.Length);
    full, size', r' := false, size, r;
    if !vis[e.to] && dist[u].Finite? && (dist[e.to].Infinite? || dist[u].d + e.weight < dist[e.to].d) {
      dist[e.to] := Finite(dist[u].d + e.weight);
      if size == ks.Length { return true, size, r; }
      Push(ks, vs, size, dist[e.to].d, e.to);
      size' := size + 1;
      ghost var s' := Entries(ks, vs, size');
      TakeEdge(adj, src, r, u, i, d, s');
      r' := Run(r.dist[e.to := Finite(d + e.weight)], r.vis, s', r.walks[e.to := r.walks[u] + [Hop(u, e)]]);
      ArraysAre(r'.dist, r'.vis, s', r'.walks);
    } else {
      SkipEdge(adj, src, r, u, i, d);
    }
  }

  /** Relaxes the edges out of u, which has just been settled at distance d. */
  method Expand(adj: Adj, ghost src: nat, u: nat, dist: array<Dist>, vis: array<bool>, ks: array<int>, vs: array<nat>,
      size: nat, ghost r: Run, ghost d: int)
    returns (full: bool, size': nat, ghost r': Run, ghost h: Halt)
    requires WellFormed(adj) && NonNegative(adj) && u < |adj| && Expanding(adj, src, r, u, 0, d)
    requires Separate(dist, vis, ks, vs) && Stored(dist, vis, ks, vs, r) && size == |r.heap|
    modifies dist, ks, vs
    ensures full ==> Overrun(adj, src, h, ks.Length) && size + |adj[u]| > ks.Length
    ensures full == EdgesDone(adj[u], Arrays(r), u, |adj[u]|, ks.Length).full
    ensures !full ==> Arrays(r') == EdgesDone(adj[u], Arrays(r), u, |adj[u]|, ks.Length)
    ensures !full ==> Loop(adj, src, r', |adj|) && r'.vis == r.vis
    ensures !full ==> Stored(dist, vis, ks, vs, r') && size' == |r'.heap| <= size + |adj[u]|
  {
    hide Expanding, Loop, Overrun, EdgeDone, EdgesDone, WellFormed, NonNegative;
    full, size', r', h := false, size, r, Halt(r, u, 0, d);
    NoEdges(adj[u], Arrays(r), u, ks.Length);
    for i := 0 to |adj[u]|
      invariant !full && Expanding(adj, src, r', u, i, d) && r'.vis == r.vis
      invariant Arrays(r') == EdgesDone(adj[u], Arrays(r), u, i, ks.Length)
      invariant Stored(dist, vis, ks, vs, r') && size' == |r'.heap| <= size + i
    {
      h := Halt(r', u, i, d);
      EdgeNext(adj[u], Arrays(r), u, i, ks.Length);
      full, size', r' := RelaxEdge(adj, src, u, i, dist, vis, ks, vs, size', r', d);
      if full {
        FullStays(adj[u], Arrays(r), u, i + 1, |adj[u]|, ks.Length);
        return;
      }
    }
    NotFull(r');
    DoneWith(adj, src, r', u, d);
  }

  lemma NoEdges(row: seq<Edge>, s: State, u: nat, room: nat)
    ensures EdgesDone(row, s, u, 0, room) == s
  {
  }

  lemma NotFull(r: Run)
    ensures !Arrays(r).full
  {
  }

  lemma LoopSizes(adj: Adj, src: nat, r: Run)
    requires Loop(adj, src, r, |adj|)
    ensures |r.vis| == |r.dist| == |adj| && src < |adj| && Heap(r.heap)
  {
  }

  /** The round that begins with the least entry out and s' left. */
  lemma RoundIs(adj: Adj, src: nat, r: Run, s': seq<Entry>, u: nat, room: nat)
    requires Loop(adj, src, r, |adj|) && r.heap != [] && u == r.heap[0].v < |adj| && s' == Popped(r.heap)
    ensures |r.vis| == |adj| && r.vis[u] ==> Round(adj, Arrays(r), room) == Arrays(r.(heap := s'))
    ensures |r.vis| == |adj| && !r.vis[u] ==>
      Round(adj, Arrays(r), room)
        == EdgesDone(adj[u], Arrays(r.(heap := s', vis := r.vis[u := true])), u, |adj[u]|, room)
  {
  }

  /** Takes the least entry out; if it is not stale, settles and expands its vertex. */
  method Step(adj: Adj, ghost src: nat, dist: array<Dist>, vis: array<bool>, ks: array<int>, vs: array<nat>, size: nat,
      ghost r: Run)
    returns (full: bool, size': nat, ghost r': Run, ghost h: Halt)
    requires WellFormed(adj) && NonNegative(adj) && Loop(adj, src, r, |adj|) && |r.vis| == |adj|
    requires Separate(dist, vis, ks, vs) && Stored(dist, vis, ks, vs, r) && 0 < size == |r.heap|
    modifies dist, vis, ks, vs
    ensures full ==> Overrun(adj, src, h, ks.Length) && size + EdgesLeft(adj, r.vis, 0) > ks.Length + 1
    ensures full == Round(adj, Arrays(r), ks.Length).full
    ensures !full ==> Arrays(r') == Round(adj, Arrays(r), ks.Length)
    ensures !full ==>
      Loop(adj, src, r', |adj|) && Stored(dist, vis, ks, vs, r') && size' == |r'.heap| && |r'.vis| == |adj|
    ensures !full ==> size' + EdgesLeft(adj, r'.vis, 0) < size + EdgesLeft(adj, r.vis, 0)
  {
    hide Expanding, Loop, Overrun, EdgesDone, Round, WellFormed, NonNegative, Heap, Popped, Arrays, EdgesLeft;
    LoopSizes(adj, src, r);
    var d, u := ks[0], vs[0];
    assert Entry(d, u) == r.heap[0];
    full, size', h := false, size - 1, Halt(r, u, 0, d);
    Pop(ks, vs, size');
    ghost var s' := Entries(ks, vs, size');
    TakenOut(adj, src, r, s');
    RoundIs(adj, src, r, s', u, ks.Length);
    r' := r.(heap := s');
    NotFull(r');
    if vis[u] { return; }
    vis[u] := true;
    r' := r'.(vis := r.vis[u := true]);
    MarkLeaves(adj, r.vis, u, 0);
    full, size', r', h := Expand(adj, src, u, dist, vis, ks, vs, size', r', d);
  }

  /** The heap arrays have room for 4n entries. full says that a push found none left, where
      the source writes past its arrays; that is so exactly on the graphs that overflow. */
  method ShortestDistances(adj: Adj, src: nat) returns (full: bool, dist: array<Dist>, ghost h: Halt)
    requires WellFormed(adj) && NonNegative(adj) && src < |adj|
    ensures dist.Length == |adj| && fresh(dist)
    ensures full <==> Overflows(adj, src)
    ensures !full ==> forall v :: 0 <= v < |adj| ==> IsShortest(adj, src, v, dist[..][v])
    ensures full ==> Overrun(adj, src, h, 4 * |adj|) && EdgeCount(adj) > 4 * |adj|
  {
    hide Loop, Overrun, Rounds, Round, WellFormed, NonNegative, Heap, EdgesLeft, Overflows, Start, Pushed, Arrays,
      IsShortest;
    var n := |adj|;
    dist := new Dist[n](_ => Infinite);
    var vis := new bool[n](_ => false);
    var ks, vs := new int[4 * n], new nat[4 * n];
    dist[src] := Finite(0);
    Push(ks, vs, 0, 0, src);
    var size: nat := 1;
    full := false;
    ghost var r, k: nat := Run(dist[..], vis[..], [Entry(0, src)], seq(n, _ => [])), 0;
    Started(adj, src, r, Entries(ks, vs, 1));
    h := Halt(r, src, 0, 0);
    while size > 0
      invariant !full && Loop(adj, src, r, n) && Stored(dist, vis, ks, vs, r) && size == |r.heap| && |r.vis| == n
      invariant size + EdgesLeft(adj, r.vis, 0) <= EdgeCount(adj) + 1
      invariant Arrays(r) == Rounds(adj, src, 4 * n, k)
      decreases size + EdgesLeft(adj, r.vis, 0)
    {
      NextRound(adj, src, 4 * n, k, r);
      full, size, r, h := Step(adj, src, dist, vis, ks, vs, size, r);
      k := k + 1;
      if full {
        Overflowed(adj, src, k);
        return;
      }
    }
    AllShortest(adj, src, k, r);
  }

  lemma NextRound(adj: Adj, src: nat, room: nat, k: nat, r: Run)
    requires Arrays(r) == Rounds(adj, src, room, k) && r.heap != []
    ensures Arrays(r).heap == r.heap && Rounds(adj, src, room, k + 1) == Round(adj, Arrays(r), room)
  {
    hide Rounds, Round;
    RoundNext(adj, src, room, k);
  }

  lemma Overflowed(adj: Adj, src: nat, k: nat)
    requires Rounds(adj, src, 4 * |adj|, k).full
    ensures Overflows(adj, src)
  {
  }

  lemma AllShortest(adj: Adj, src: nat, k: nat, r: Run)
    requires WellFormed(adj) && Loop(adj, src, r, |adj|) && r.heap == [] && Arrays(r) == Rounds(adj, src, 4 * |adj|, k)
    ensures !Overflows(adj, src) && |r.dist| == |adj|
    ensures forall v :: 0 <= v < |adj| ==> IsShortest(adj, src, v, r.dist[v])
  {
    hide Rounds, IsShortest;
    Ended(adj, src, k);
    AllSettled(adj, r.dist, r.vis, multiset(r.heap));
    SettledShortest(adj, src, r.dist, r.walks);
  }

  lemma Started(adj: Adj, src: nat, r: Run, s: seq<Entry>)
    requires |r.vis| == |r.dist| == |r.walks| == |adj| && src < |adj|
    requires (forall v :: 0 <= v < |adj| ==> !r.vis[v]) && r.walks == seq(|adj|, _ => [])
    requires forall v :: 0 <= v < |adj| ==> r.dist[v] == if v == src then Finite(0) else Infinite
    requires s == Pushed([], Entry(0, src)) && r.heap == [Entry(0, src)]
    ensures s == r.heap && Loop(adj, src, r, |adj|)
    ensures Arrays(r) == Rounds(adj, src, 4 * |adj|, 0) && EdgesLeft(adj, r.vis, 0) == EdgeCount(adj)
  {
    assert s[0] in multiset(s);
    StartFrontier(adj, r.dist, r.vis, multiset(r.heap), src);
    assert r.dist == Start(|adj|, src).dist && r.vis == Unmarked(|adj|);
  }

  lemma AllSettled(adj: Adj, dist: seq<Dist>, vis: seq<bool>, s: multiset<Entry>)
    requires WellFormed(adj) && Frontier(adj, dist, vis, s) && s == multiset{} && VisitedDone(adj, dist, vis, |adj|)
    ensures Settled(adj, dist)
  {
  }

  lemma {:induction false} WalkNonNegative(adj: Adj, p: seq<Hop>, s: nat, t: nat)
    requires NonNegative(adj) && IsWalk(adj, p, s, t)
    ensures Weight(p) >= 0
  {
    if p != [] {
      var h := p[|p| - 1];
      WalkNonNegative(adj, p[..|p| - 1], s, h.u);
      var i :| 0 <= i < |adj[h.u]| && adj[h.u][i] == h.e;
    }
  }

  /** On non-negative weights the two algorithms give the same distances, and
      Bellman-Ford's flag stays down. */
  lemma Agreement(adj: Adj, src: nat, dijkstra: seq<Dist>, bellmanFord: seq<Dist>, negCycle: bool)
    requires NonNegative(adj) && |dijkstra| == |bellmanFord| == |adj|
    requires forall v :: 0 <= v < |adj| ==> IsShortest(adj, src, v, dijkstra[v])
    requires negCycle <==> NegativeCycle(adj, src)
    requires !negCycle ==> forall v :: 0 <= v < |adj| ==> IsShortest(adj, src, v, bellmanFord[v])
    ensures !negCycle && dijkstra == bellmanFord
  {
    forall u, c | IsWalk(adj, c, u, u)
      ensures Weight(c) >= 0
    {
      WalkNonNegative(adj, c, u, u);
    }
    forall v | 0 <= v < |adj|
      ensures dijkstra[v] == bellmanFord[v]
    {
      ShortestIsUnique(adj, src, v, dijkstra[v], bellmanFord[v]);
    }
  }

  /** Two vertices, nine parallel edges: the ninth entry finds the eight slots used up. */
  method NineEdges() returns (full: bool)
    ensures full
  {
    hide Overflows, Overrun, IsShortest, EdgeCount, WellFormed, NonNegative, Bundle;
    var dist; ghost var h;
    var adj := [[Edge(1, 9), Edge(1, 8), Edge(1, 7), Edge(1, 6), Edge(1, 5), Edge(1, 4), Edge(1, 3), Edge(1, 2),
      Edge(1, 1)], []];
    NineBundled(adj);
    BundleOverflows(2, 9);
    full, dist, h := ShortestDistances(adj, 0);
  }

  /** Twenty-five edges on five vertices, and a tie between two vertices in the heap: the one
      pushed first comes out first, and the heap arrays suffice. */
  method TieRun() returns (full: bool)
    ensures full == false && EdgeCount(Tied()) > 4 * |Tied()|
  {
    hide Overflows, Overrun, IsShortest, EdgeCount, WellFormed, NonNegative, Tied;
    var dist; ghost var h;
    TiedFits();
    TiedFinds();
    full, dist, h := ShortestDistances(Tied(), 0);
  }

  lemma NineBundled(adj: Adj)
    requires |adj| == 2 && adj[1] == []
    requires adj[0]
      == [Edge(1, 9), Edge(1, 8), Edge(1, 7), Edge(1, 6), Edge(1, 5), Edge(1, 4), Edge(1, 3), Edge(1, 2), Edge(1, 1)]
    ensures adj == Bundle(2, 9)
  {
    assert adj[0] == BundleRow(9);
  }
}
