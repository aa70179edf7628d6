/** The course of Dijkstra's algorithm as a function of the graph, down to the order of the
    entries in the heap arrays, and the graphs for which those arrays are too small. */
module DijkstraRuns {
  import opened Walks
  import opened ShortestPaths
  import opened MinHeap

  // ---- edges -------------------------------------------------------------------------------

  ghost predicate NonNegative(adj: Adj) {
    forall u, i :: 0 <= u < |adj| && 0 <= i < |adj[u]| ==> adj[u][i].weight >= 0
  }

  /** The number of edges that leave the vertices from k on that are not marked. */
  ghost function EdgesLeft(adj: Adj, vis: seq<bool>, k: nat): nat
    requires |vis| == |adj|
    decreases |adj| - k
  {
    if k >= |adj| then 0 else (if vis[k] then 0 else |adj[k]|) + EdgesLeft(adj, vis, k + 1)
  }

  ghost function EdgeCount(adj: Adj): nat {
    EdgesLeft(adj, Unmarked(|adj|), 0)
  }

  function Unmarked(n: nat): seq<bool> {
    seq(n, _ => false)
  }

  lemma {:induction false} MarkLeaves(adj: Adj, vis: seq<bool>, u: nat, k: nat)
    requires |vis| == |adj| && u < |adj| && !vis[u]
    ensures EdgesLeft(adj, vis[u := true], k) + (if k <= u then |adj[u]| else 0) == EdgesLeft(adj, vis, k)
    decreases |adj| - k
  {
    if k < |adj| { MarkLeaves(adj, vis, u, k + 1); }
  }

  // ---- the run -----------------------------------------------------------------------------

  /** The contents of the arrays; full once an entry has to go into a full heap. */
  datatype State = State(dist: seq<Dist>, vis: seq<bool>, heap: seq<Entry>, full: bool)

  function Start(n: nat, src: nat): State {
    State(seq(n, v => if v == src then Finite(0) else Infinite), Unmarked(n), [Entry(0, src)], false)
  }

  /** Whether an edge out of u lowers the distance of its target and so has to be queued. */
  predicate Lowers(s: State, u: nat, e: Edge) {
    && u < |s.dist| && e.to < |s.dist| && e.to < |s.vis|
    && !s.vis[e.to] && Relaxes(s.dist, u, e)
  }

  /** One edge out of u, with room entries in the heap arrays. */
  function EdgeDone(s: State, u: nat, e: Edge, room: nat): State {
    if s.full || !Lowers(s, u, e) then s
    else
      var x := s.dist[u].d + e.weight;
      if |s.heap| >= room then State(s.dist[e.to := Finite(x)], s.vis, s.heap, true)
      else State(s.dist[e.to := Finite(x)], s.vis, Pushed(s.heap, Entry(x, e.to)), false)
  }

  lemma EdgeCases(s: State, u: nat, e: Edge, room: nat)
    requires !s.full && u < |s.dist| == |s.vis| && e.to < |s.dist| && |s.heap| <= room
    ensures !Lowers(s, u, e) ==> EdgeDone(s, u, e, room) == s
    ensures EdgeDone(s, u, e, room).full <==> Lowers(s, u, e) && |s.heap| == room
    ensures Lowers(s, u, e) && |s.heap| < room ==>
      var x := s.dist[u].d + e.weight;
        EdgeDone(s, u, e, room) == State(s.dist[e.to := Finite(x)], s.vis, Pushed(s.heap, Entry(x, e.to)), false)
  {
    hide Pushed, Relaxes;
  }

  /** The first i edges out of u. */
  function EdgesDone(row: seq<Edge>, s: State, u: nat, i: nat, room: nat): State
    requires i <= |row|
  {
    if i == 0 then s else EdgeDone(EdgesDone(row, s, u, i - 1, room), u, row[i - 1], room)
  }

  lemma EdgeNext(row: seq<Edge>, s: State, u: nat, i: nat, room: nat)
    requires i < |row|
    ensures EdgesDone(row, s, u, 0, room) == s
    ensures EdgesDone(row, s, u, i + 1, room) == EdgeDone(EdgesDone(row, s, u, i, room), u, row[i], room)
  {
  }

  /** The least entry comes out; unless it is stale, its vertex is settled and expanded. */
  function Round(adj: Adj, s: State, room: nat): State
    requires s.heap != []
  {
    var u, p := s.heap[0].v, s.(heap := Popped(s.heap));
    if u >= |adj| || u >= |s.vis| || s.vis[u] then p
    else EdgesDone(adj[u], p.(vis := s.vis[u := true]), u, |adj[u]|, room)
  }

  /** After k rounds, or at the end if that comes first. */
  function Rounds(adj: Adj, src: nat, room: nat, k: nat): State {
    if k == 0 then Start(|adj|, src)
    else
      var s := Rounds(adj, src, room, k - 1);
      if s.full || s.heap == [] then s else Round(adj, s, room)
  }

  lemma RoundNext(adj: Adj, src: nat, room: nat, k: nat)
    requires var s := Rounds(adj, src, room, k); !s.full && s.heap != []
    ensures Rounds(adj, src, room, k + 1) == Round(adj, Rounds(adj, src, room, k), room)
  {
  }

  /** The run comes to an entry for which the 4n slots of the heap arrays have no room. */
  ghost predicate Overflows(adj: Adj, src: nat) {
    exists k: nat :: Rounds(adj, src, 4 * |adj|, k).full
  }

  lemma {:induction false} RoundsStay(adj: Adj, src: nat, room: nat, k: nat, j: nat)
    requires k <= j
    requires Rounds(adj, src, room, k).full || Rounds(adj, src, room, k).heap == []
    ensures Rounds(adj, src, room, j) == Rounds(adj, src, room, k)
    decreases j - k
  {
    hide Round, Start;
    if k < j { RoundsStay(adj, src, room, k, j - 1); }
  }

  /** A run that has ended without overflow has not overflowed before. */
  lemma Ended(adj: Adj, src: nat, k: nat)
    requires var s := Rounds(adj, src, 4 * |adj|, k); !s.full && s.heap == []
    ensures !Overflows(adj, src)
  {
    forall j: nat
      ensures !Rounds(adj, src, 4 * |adj|, j).full
    {
      if j < k {
        if Rounds(adj, src, 4 * |adj|, j).full { RoundsStay(adj, src, 4 * |adj|, j, k); }
      } else {
        RoundsStay(adj, src, 4 * |adj|, k, j);
      }
    }
  }

  lemma {:induction false} FullStays(row: seq<Edge>, s: State, u: nat, i: nat, j: nat, room: nat)
    requires i <= j <= |row| && EdgesDone(row, s, u, i, room).full
    ensures EdgesDone(row, s, u, j, room).full
    decreases j - i
  {
    if i < j { FullStays(row, s, u, i, j - 1, room); }
  }

  // ---- enough room -------------------------------------------------------------------------

  ghost predicate Names(s: seq<Entry>, n: nat) {
    forall i :: 0 <= i < |s| ==> s[i].v < n
  }

  lemma NamesPushed(s: seq<Entry>, e: Entry, n: nat)
    requires Names(s, n) && e.v < n
    ensures Names(Pushed(s, e), n)
  {
    var r := Pushed(s, e);
    forall i | 0 <= i < |r|
      ensures r[i].v < n
    {
      assert r[i] in multiset(r);
      assert r[i] in s || r[i] == e;
    }
  }

  lemma NamesPopped(s: seq<Entry>, n: nat)
    requires Names(s, n) && s != []
    ensures Names(Popped(s), n)
  {
    var r := Popped(s);
    forall i | 0 <= i < |r|
      ensures r[i].v < n
    {
      assert r[i] in multiset(r);
      assert r[i] in s;
    }
  }

  /** The marks and the entries fit the graph. */
  ghost predicate Shaped(adj: Adj, s: State) {
    |s.dist| == |s.vis| == |adj| && Names(s.heap, |adj|)
  }

  lemma {:induction false} EdgesFit(adj: Adj, s: State, u: nat, i: nat, room: nat)
    requires WellFormed(adj) && Shaped(adj, s) && !s.full && u < |adj| && i <= |adj[u]|
    requires |s.heap| + |adj[u]| <= room
    ensures var r := EdgesDone(adj[u], s, u, i, room);
      !r.full && Shaped(adj, r) && r.vis == s.vis && |r.heap| <= |s.heap| + i
  {
    hide Names, EdgeDone, Pushed;
    if i > 0 {
      EdgesFit(adj, s, u, i - 1, room);
      var r, e := EdgesDone(adj[u], s, u, i - 1, room), adj[u][i - 1];
      EdgeCases(r, u, e, room);
      if Lowers(r, u, e) { NamesPushed(r.heap, Entry(r.dist[u].d + e.weight, e.to), |adj|); }
    }
  }

  lemma RoundFits(adj: Adj, s: State, room: nat)
    requires WellFormed(adj) && Shaped(adj, s) && !s.full && s.heap != []
    requires |s.heap| + EdgesLeft(adj, s.vis, 0) <= room + 1
    ensures var r := Round(adj, s, room);
      !r.full && Shaped(adj, r) && |r.heap| + EdgesLeft(adj, r.vis, 0) < |s.heap| + EdgesLeft(adj, s.vis, 0)
  {
    var u, p := s.heap[0].v, s.(heap := Popped(s.heap));
    NamesPopped(s.heap, |adj|);
    if !s.vis[u] {
      MarkLeaves(adj, s.vis, u, 0);
      EdgesFit(adj, p.(vis := s.vis[u := true]), u, |adj[u]|, room);
    }
  }

  lemma StartShaped(adj: Adj, src: nat)
    requires src < |adj|
    ensures Shaped(adj, Start(|adj|, src))
  {
  }

  lemma {:induction false} RoundsFit(adj: Adj, src: nat, room: nat, k: nat)
    requires WellFormed(adj) && src < |adj| && EdgeCount(adj) <= room
    ensures var s := Rounds(adj, src, room, k);
      !s.full && Shaped(adj, s) && |s.heap| + EdgesLeft(adj, s.vis, 0) <= EdgeCount(adj) + 1
  {
    hide Shaped, Round;
    if k == 0 {
      StartShaped(adj, src);
    } else {
      RoundsFit(adj, src, room, k - 1);
      var s := Rounds(adj, src, room, k - 1);
      if s.heap != [] { RoundFits(adj, s, room); }
    }
  }

  /** At most as many edges as there are slots: they suffice. */
  lemma FewEdges(adj: Adj, src: nat)
    requires WellFormed(adj) && src < |adj| && EdgeCount(adj) <= 4 * |adj|
    ensures !Overflows(adj, src)
  {
    forall k: nat
      ensures !Rounds(adj, src, 4 * |adj|, k).full
    {
      RoundsFit(adj, src, 4 * |adj|, k);
    }
  }

  // ---- too little room ---------------------------------------------------------------------

  /** Vertex 0 has m edges to vertex 1, walked from the heaviest to the lightest. */
  ghost function Bundle(n: nat, m: nat): (adj: Adj)
    requires n >= 2
    ensures |adj| == n && WellFormed(adj) && NonNegative(adj)
  {
    seq(n, u => if u == 0 then BundleRow(m) else [])
  }

  function BundleRow(m: nat): (row: seq<Edge>)
    ensures |row| == m && forall i :: 0 <= i < m ==> row[i] == Edge(1, m - i)
  {
    seq(m, i requires 0 <= i < m => Edge(1, m - i))
  }

  lemma {:induction false} BundleRest(n: nat, m: nat, k: nat)
    requires n >= 2 && k >= 1
    ensures EdgesLeft(Bundle(n, m), Unmarked(n), k) == 0
    decreases n - k
  {
    if k < n { BundleRest(n, m, k + 1); }
  }

  lemma BundleCount(n: nat, m: nat)
    requires n >= 2
    ensures EdgeCount(Bundle(n, m)) == m
  {
    BundleRest(n, m, 1);
  }

  /** Every edge so far has lowered the distance of vertex 1 and has been queued. */
  lemma {:induction false} BundleFills(s: State, m: nat, i: nat, room: nat)
    requires i <= m && i <= room && |s.dist| == |s.vis| >= 2 && !s.vis[1] && s.heap == [] && !s.full
    requires s.dist[0] == Finite(0) && s.dist[1] == Infinite
    ensures var r := EdgesDone(BundleRow(m), s, 0, i, room);
      && !r.full && r.vis == s.vis && |r.heap| == i && |r.dist| == |s.dist| && r.dist[0] == Finite(0)
      && r.dist[1] == if i == 0 then Infinite else Finite(m - i + 1)
  {
    hide EdgeDone, Pushed;
    if i > 0 {
      BundleFills(s, m, i - 1, room);
      EdgeCases(EdgesDone(BundleRow(m), s, 0, i - 1, room), 0, BundleRow(m)[i - 1], room);
    }
  }

  /** More such edges than there are slots: they do not suffice. */
  lemma BundleOverflows(n: nat, m: nat)
    requires n >= 2 && m > 4 * n
    ensures Overflows(Bundle(n, m), 0)
  {
    var adj, room, s := Bundle(n, m), 4 * n, Start(n, 0);
    var p := s.(heap := Popped(s.heap), vis := s.vis[0 := true]);
    BundleFills(p, m, room, room);
    var row := BundleRow(m);
    assert adj[0] == row;
    var r := EdgesDone(row, p, 0, room, room);
    assert EdgesDone(row, p, 0, room + 1, room) == EdgeDone(r, 0, row[room], room);
    FullStays(row, p, 0, room + 1, m, room);
    assert Rounds(adj, 0, room, 0) == s;
    assert Rounds(adj, 0, room, 1) == Round(adj, s, room);
  }

  /** With two vertices or more, 4n is exactly the number of edges up to which no graph with
      non-negative weights overflows. */
  lemma EdgeBoundExact(n: nat, m: nat)
    requires n >= 2
    ensures m <= 4 * n <==>
      forall adj: Adj, src: nat ::
        |adj| == n && WellFormed(adj) && NonNegative(adj) && EdgeCount(adj) == m && src < n ==> !Overflows(adj, src)
  {
    if m <= 4 * n {
      forall adj: Adj, src: nat | |adj| == n && WellFormed(adj) && EdgeCount(adj) == m && src < n
        ensures !Overflows(adj, src)
      {
        FewEdges(adj, src);
      }
    } else {
      BundleCount(n, m);
      BundleOverflows(n, m);
    }
  }

  /** A single vertex is settled before its loops are looked at. */
  lemma OneVertex(adj: Adj)
    requires |adj| == 1 && WellFormed(adj)
    ensures !Overflows(adj, 0)
  {
    var s := Start(1, 0);
    var p := s.(heap := Popped(s.heap), vis := s.vis[0 := true]);
    LoopsDone(adj[0], p, |adj[0]|, 4);
    assert Rounds(adj, 0, 4, 0) == s;
    assert Rounds(adj, 0, 4, 1) == Round(adj, s, 4) == p;
    Ended(adj, 0, 1);
  }

  lemma {:induction false} LoopsDone(row: seq<Edge>, s: State, i: nat, room: nat)
    requires i <= |row| && s.vis == [true]
    ensures EdgesDone(row, s, 0, i, room) == s
  {
    if i > 0 { LoopsDone(row, s, i - 1, room); }
  }

  // ---- a tie in the heap -------------------------------------------------------------------

  /** Vertices 1 and 2 are equally far, and 2 has twenty edges to 3 of falling weight. */
  function Tied(): (adj: Adj)
    ensures |adj| == 5
    ensures adj[0] == [Edge(4, 1), Edge(1, 2), Edge(2, 2), Edge(3, 1000)] && adj[1] == [Edge(3, 0)]
    ensures |adj[2]| == 20 && forall i :: 0 <= i < 20 ==> adj[2][i] == Edge(3, 20 - i)
    ensures adj[3] == adj[4] == []
  {
    [[Edge(4, 1), Edge(1, 2), Edge(2, 2), Edge(3, 1000)], [Edge(3, 0)], Falling(20), [], []]
  }

  function Falling(m: nat): (row: seq<Edge>)
    ensures |row| == m && forall i :: 0 <= i < m ==> row[i] == Edge(3, m - i)
  {
    seq(m, i requires 0 <= i < m => Edge(3, m - i))
  }

  lemma TiedFits()
    ensures WellFormed(Tied()) && NonNegative(Tied()) && EdgeCount(Tied()) == 25
  {
    var adj := Tied();
    var m := Unmarked(5);
    assert EdgesLeft(adj, m, 5) == 0;
    assert EdgesLeft(adj, m, 4) == 0;
    assert EdgesLeft(adj, m, 3) == 0;
    assert EdgesLeft(adj, m, 2) == 20;
    assert EdgesLeft(adj, m, 1) == 21;
  }

  /** Pushing an entry that is no less than its parent. */
  lemma PushLast(s: seq<Entry>, e: Entry)
    requires s != [] ==> s[Par(|s|)].k <= e.k
    ensures Pushed(s, e) == s + [e]
  {
    SiftUpStep(s + [e], |s|);
  }

  /** Popping when the last entry stays at the root. */
  lemma PopStays(s: seq<Entry>)
    requires |s| > 1
    requires forall i :: 1 <= i <= 2 && i < |s| - 1 ==> s[|s| - 1].k <= s[i].k
    ensures Popped(s) == [s[|s| - 1]] + s[1..|s| - 1]
  {
    SiftDownStep([s[|s| - 1]] + s[1..|s| - 1], 0);
  }

  lemma TieTaken(a: Entry, b: Entry, c: Entry, d: Entry)
    requires b.k <= c.k && b.k < d.k
    ensures Popped([a, b, c, d]) == [b, d, c]
  {
    hide Popped;
    var s := [a, b, c, d];
    PoppedTie(s);
    var r := Popped(s);
    assert multiset(r) + multiset{a} == multiset(s);
    assert r == [b, r[1], c];
    assert multiset(r) == multiset{b, r[1], c};
    assert multiset(s) == multiset{a, b, c, d};
    assert (multiset(r) + multiset{a}) - multiset{a, b, c} == multiset{r[1]};
    assert multiset(s) - multiset{a, b, c} == multiset{d};
    assert r[1] in multiset{d};
  }

  lemma {:induction false} NothingLowers(row: seq<Edge>, s: State, u: nat, i: nat, room: nat)
    requires i <= |row| && forall j :: 0 <= j < |row| ==> !Lowers(s, u, row[j])
    ensures EdgesDone(row, s, u, i, room) == s
  {
    hide Lowers;
    if i > 0 { NothingLowers(row, s, u, i - 1, room); }
  }

  lemma RoundSettles(adj: Adj, src: nat, room: nat, k: nat, s: State, rest: seq<Entry>, vis: seq<bool>)
    requires Rounds(adj, src, room, k) == s && !s.full && s.heap != [] && Popped(s.heap) == rest
    requires s.heap[0].v < |adj| && s.heap[0].v < |s.vis| && !s.vis[s.heap[0].v] && vis == s.vis[s.heap[0].v := true]
    ensures var u := s.heap[0].v;
      Rounds(adj, src, room, k + 1) == EdgesDone(adj[u], State(s.dist, vis, rest, false), u, |adj[u]|, room)
  {
    hide EdgesDone, Popped;
    RoundNext(adj, src, room, k);
  }

  lemma RoundDrops(adj: Adj, src: nat, room: nat, k: nat, s: State)
    requires Rounds(adj, src, room, k) == s && !s.full && s.heap != []
    requires s.heap[0].v < |adj| && s.heap[0].v < |s.vis| && s.vis[s.heap[0].v]
    ensures Rounds(adj, src, room, k + 1) == State(s.dist, s.vis, Popped(s.heap), false)
  {
    hide EdgesDone, Popped;
    RoundNext(adj, src, room, k);
  }

  /** An edge whose entry goes to the end of the heap and stays there. */
  lemma EdgeQueues(row: seq<Edge>, p: State, u: nat, i: nat, room: nat, q: State, e: Edge, x: int)
    requires i < |row| && row[i] == e && EdgesDone(row, p, u, i, room) == q && !q.full && |q.heap| < room
    requires Lowers(q, u, e) && x == q.dist[u].d + e.weight
    requires q.heap != [] ==> q.heap[Par(|q.heap|)].k <= x
    ensures EdgesDone(row, p, u, i + 1, room)
      == State(q.dist[e.to := Finite(x)], q.vis, q.heap + [Entry(x, e.to)], false)
  {
    hide Pushed, EdgesDone;
    EdgeNext(row, p, u, i, room);
    PushLast(q.heap, Entry(x, e.to));
  }

  lemma NoEdgesDone(row: seq<Edge>, s: State, u: nat, room: nat)
    ensures EdgesDone(row, s, u, 0, room) == s
  {
  }

  /** A state of the run on Tied: the distance of vertex 3, the marks, and the heap. */
  function TiedState(x: Dist, vis: seq<bool>, heap: seq<Entry>): State {
    State([Finite(0), Finite(2), Finite(2), x, Finite(1)], vis, heap, false)
  }

  function Opened(): State {
    TiedState(Finite(1000), [true, false, false, false, false], [Entry(1, 4), Entry(2, 1), Entry(2, 2), Entry(1000, 3)])
  }

  lemma FourQueued(row: seq<Edge>, vis: seq<bool>)
    requires row == [Edge(4, 1), Edge(1, 2), Edge(2, 2), Edge(3, 1000)] && vis == [true, false, false, false, false]
    ensures EdgesDone(row, State([Finite(0), Infinite, Infinite, Infinite, Infinite], vis, [], false), 0, 4, 20)
      == Opened()
  {
    hide EdgesDone;
    var p := State([Finite(0), Infinite, Infinite, Infinite, Infinite], vis, [], false);
    NoEdgesDone(row, p, 0, 20);
    EdgeQueues(row, p, 0, 0, 20, p, Edge(4, 1), 1);
    var q := State([Finite(0), Infinite, Infinite, Infinite, Finite(1)], vis, [Entry(1, 4)], false);
    assert EdgesDone(row, p, 0, 1, 20) == q;
    EdgeQueues(row, p, 0, 1, 20, q, Edge(1, 2), 2);
    q := State([Finite(0), Finite(2), Infinite, Infinite, Finite(1)], vis, [Entry(1, 4), Entry(2, 1)], false);
    assert EdgesDone(row, p, 0, 2, 20) == q;
    EdgeQueues(row, p, 0, 2, 20, q, Edge(2, 2), 2);
    q := State([Finite(0), Finite(2), Finite(2), Infinite, Finite(1)], vis,
      [Entry(1, 4), Entry(2, 1), Entry(2, 2)], false);
    assert EdgesDone(row, p, 0, 3, 20) == q;
    EdgeQueues(row, p, 0, 3, 20, q, Edge(3, 1000), 1000);
  }

  lemma FirstRound()
    ensures Rounds(Tied(), 0, 20, 1) == Opened()
  {
    hide EdgesDone, Popped, Tied, Opened;
    var s, vis := Start(5, 0), [true, false, false, false, false];
    assert Rounds(Tied(), 0, 20, 0) == s;
    LastPopped(Entry(0, 0));
    assert vis == s.vis[0 := true] && s.dist == [Finite(0), Infinite, Infinite, Infinite, Infinite];
    RoundSettles(Tied(), 0, 20, 0, s, [], vis);
    FourQueued(Tied()[0], vis);
  }

  lemma LastPopped(e: Entry)
    ensures Popped([e]) == []
  {
  }

  /** After vertex 4, vertex 1 comes out in front of vertex 2. */
  lemma SecondRound()
    ensures Rounds(Tied(), 0, 20, 2)
      == TiedState(Finite(1000), [true, false, false, false, true], [Entry(2, 1), Entry(1000, 3), Entry(2, 2)])
  {
    hide EdgesDone, Popped, Tied, Rounds;
    FirstRound();
    TieTaken(Entry(1, 4), Entry(2, 1), Entry(2, 2), Entry(1000, 3));
    var rest, vis := [Entry(2, 1), Entry(1000, 3), Entry(2, 2)], [true, false, false, false, true];
    RoundSettles(Tied(), 0, 20, 1, Opened(), rest, vis);
    NoEdgesDone([], TiedState(Finite(1000), vis, rest), 4, 20);
  }

  lemma ThirdRound()
    ensures Rounds(Tied(), 0, 20, 3)
      == TiedState(Finite(2), [true, true, false, false, true], [Entry(2, 2), Entry(1000, 3), Entry(2, 3)])
  {
    hide EdgesDone, Popped, Tied, Rounds;
    SecondRound();
    var heap := [Entry(2, 1), Entry(1000, 3), Entry(2, 2)];
    var s := TiedState(Finite(1000), [true, false, false, false, true], heap);
    PopStays(heap);
    var rest, vis := [Entry(2, 2), Entry(1000, 3)], [true, true, false, false, true];
    assert Popped(heap) == rest;
    RoundSettles(Tied(), 0, 20, 2, s, rest, vis);
    var q := TiedState(Finite(1000), vis, rest);
    NoEdgesDone(Tied()[1], q, 1, 20);
    EdgeQueues(Tied()[1], q, 1, 0, 20, q, Edge(3, 0), 2);
  }

  /** None of the edges out of vertex 2 is queued. */
  lemma FourthRound()
    ensures Rounds(Tied(), 0, 20, 4)
      == TiedState(Finite(2), [true, true, true, false, true], [Entry(2, 3), Entry(1000, 3)])
  {
    hide EdgesDone, Popped, Tied, Rounds;
    ThirdRound();
    var heap := [Entry(2, 2), Entry(1000, 3), Entry(2, 3)];
    var s := TiedState(Finite(2), [true, true, false, false, true], heap);
    PopStays(heap);
    var rest, vis := [Entry(2, 3), Entry(1000, 3)], [true, true, true, false, true];
    assert Popped(heap) == rest;
    RoundSettles(Tied(), 0, 20, 3, s, rest, vis);
    NothingLowers(Tied()[2], TiedState(Finite(2), vis, rest), 2, 20, 20);
  }

  lemma LastRounds()
    ensures var s := Rounds(Tied(), 0, 20, 6); !s.full && s.heap == []
  {
    hide EdgesDone, Popped, Tied, Rounds;
    FourthRound();
    var heap := [Entry(2, 3), Entry(1000, 3)];
    var s := TiedState(Finite(2), [true, true, true, false, true], heap);
    PopStays(heap);
    var rest, vis := [Entry(1000, 3)], [true, true, true, true, true];
    assert Popped(heap) == rest;
    RoundSettles(Tied(), 0, 20, 4, s, rest, vis);
    NoEdgesDone([], TiedState(Finite(2), vis, rest), 3, 20);
    RoundDrops(Tied(), 0, 20, 5, TiedState(Finite(2), vis, rest));
    LastPopped(Entry(1000, 3));
  }

  /** The edges from 2 would fill the heap if 2 came out in front of 1. */
  lemma TiedFinds()
    ensures !Overflows(Tied(), 0)
  {
    hide Tied, Rounds;
    LastRounds();
    Ended(Tied(), 0, 6);
  }
}
