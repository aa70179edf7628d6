/** Topological orders, and Kahn's queue, which finds one or shows that there is none. */
module Topological {
  import opened Walks

  /** Every edge out of order[i] leads to a vertex that occurs before it. */
  ghost predicate EdgesBack(adj: Adj, order: seq<nat>) {
    && AllBelow(order, |adj|)
    && forall i, k :: 0 <= i < |order| && 0 <= k < |adj[order[i]]| ==> adj[order[i]][k].to in order[..i]
  }

  /** order lists every vertex once, and every edge leads forward. */
  ghost predicate IsTopological(adj: Adj, order: seq<nat>) {
    && |order| == |adj| && AllBelow(order, |adj|) && NoDuplicates(order)
    && forall i, j :: 0 <= i < |order| && 0 <= j < |order| && IsSuccessor(adj, order[i], order[j]) ==> i < j
  }

  ghost predicate IsSuccessor(adj: Adj, u: nat, v: nat) {
    u < |adj| && exists k :: 0 <= k < |adj[u]| && adj[u][k].to == v
  }

  lemma IndexOf(order: seq<nat>, n: nat, v: nat) returns (i: nat)
    requires |order| == n && AllBelow(order, n) && NoDuplicates(order) && v < n
    ensures i < n && order[i] == v
  {
    Pigeonhole(order, n);
    assert v in order;
    i :| 0 <= i < |order| && order[i] == v;
  }

  /** Along a walk, positions in a topological order go up. */
  lemma {:induction false} WalkForward(adj: Adj, order: seq<nat>, p: seq<Hop>, s: nat, t: nat, i: nat, j: nat)
    requires WellFormed(adj) && IsTopological(adj, order) && IsWalk(adj, p, s, t)
    requires i < |order| && j < |order| && order[i] == s && order[j] == t
    ensures i + |p| <= j
  {
    if p == [] {
      assert i == j;
    } else {
      var h := p[|p| - 1];
      Split(adj, p, s, t, |p| - 1);
      var k := IndexOf(order, |adj|, h.u);
      WalkForward(adj, order, p[..|p| - 1], s, h.u, i, k);
      var x :| 0 <= x < |adj[h.u]| && adj[h.u][x] == h.e;
      assert IsSuccessor(adj, order[k], order[j]);
    }
  }

  /** A graph with a topological order has no cycle. */
  lemma TopologicalAcyclic(adj: Adj, order: seq<nat>)
    requires WellFormed(adj) && IsTopological(adj, order)
    ensures !Cyclic(adj)
  {
    forall u, p | p != [] && IsWalk(adj, p, u, u)
      ensures false
    {
      Split(adj, p, u, u, 0);
      var i := IndexOf(order, |adj|, u);
      WalkForward(adj, order, p, u, u, i, i);
    }
  }

  // ---- in-degrees --------------------------------------------------------------------

  /** How many of the edges lead to v. */
  ghost function CountTo(es: seq<Edge>, v: nat): nat {
    if es == [] then 0 else CountTo(es[..|es| - 1], v) + if es[|es| - 1].to == v then 1 else 0
  }

  /** How many edges lead to v from the vertices below n that are not in done. */
  ghost function InDegree(adj: Adj, done: set<nat>, v: nat, n: nat): nat
    requires n <= |adj|
  {
    if n == 0 then 0 else InDegree(adj, done, v, n - 1) + if n - 1 in done then 0 else CountTo(adj[n - 1], v)
  }

  lemma {:induction false} CountPositive(es: seq<Edge>, v: nat)
    ensures CountTo(es, v) > 0 <==> exists k :: 0 <= k < |es| && es[k].to == v
  {
    if es != [] {
      var r := es[..|es| - 1];
      CountPositive(r, v);
      if CountTo(r, v) > 0 {
        var k :| 0 <= k < |r| && r[k].to == v;
        assert es[k].to == v;
      }
      if k :| 0 <= k < |es| && es[k].to == v {
        if k < |r| { assert r[k].to == v; }
      }
    }
  }

  lemma {:induction false} InDegreePositive(adj: Adj, done: set<nat>, v: nat, n: nat)
    requires n <= |adj|
    ensures InDegree(adj, done, v, n) > 0 <==> exists u :: 0 <= u < n && u !in done && IsSuccessor(adj, u, v)
  {
    if n > 0 {
      InDegreePositive(adj, done, v, n - 1);
      CountPositive(adj[n - 1], v);
      assert IsSuccessor(adj, n - 1, v) <==> CountTo(adj[n - 1], v) > 0;
    }
  }

  lemma {:induction false} InDegreeRemove(adj: Adj, done: set<nat>, u: nat, v: nat, n: nat)
    requires n <= |adj| && u !in done && u < |adj|
    ensures InDegree(adj, done, v, n) == InDegree(adj, done + {u}, v, n) + if u < n then CountTo(adj[u], v) else 0
  {
    if n > 0 { InDegreeRemove(adj, done, u, v, n - 1); }
  }

  // ---- Kahn's algorithm -----------------------------------------------------------------

  ghost function SetOf(q: seq<nat>): set<nat> {
    set v | v in q
  }

  /** Everything that has an edge to q[j] comes before it in q. */
  ghost predicate PredecessorsFirst(adj: Adj, q: seq<nat>) {
    forall j, u: nat :: 0 <= j < |q| && IsSuccessor(adj, u, q[j]) ==> u in q[..j]
  }

  /** The queue holds exactly the vertices with no counted edge left. */
  ghost predicate Queue(adj: Adj, q: seq<nat>, indeg: seq<nat>) {
    && |indeg| == |adj| && NoDuplicates(q) && AllBelow(q, |adj|) && PredecessorsFirst(adj, q)
    && forall v: nat :: v < |adj| ==> (v in q <==> indeg[v] == 0)
  }

  /** Edges from the first front vertices of the queue are no longer counted. */
  ghost predicate Counted(adj: Adj, q: seq<nat>, front: nat, indeg: seq<nat>) {
    && front <= |q| && |indeg| == |adj|
    && forall v: nat :: v < |adj| ==> indeg[v] == InDegree(adj, SetOf(q[..front]), v, |adj|)
  }

  /** As Counted for the vertices before u, and of u's own edges the first i. */
  ghost predicate Counting(adj: Adj, q: seq<nat>, front: nat, indeg: seq<nat>, u: nat, i: nat) {
    && front < |q| && |indeg| == |adj| && u < |adj| && q[front] == u && i <= |adj[u]|
    && forall v: nat :: v < |adj| ==>
         indeg[v] + CountTo(adj[u][..i], v) == InDegree(adj, SetOf(q[..front + 1]), v, |adj|) + CountTo(adj[u], v)
  }

  lemma StartCounting(adj: Adj, q: seq<nat>, front: nat, indeg: seq<nat>)
    requires Queue(adj, q, indeg) && Counted(adj, q, front, indeg) && front < |q|
    ensures Counting(adj, q, front, indeg, q[front], 0)
  {
    var u := q[front];
    var done := SetOf(q[..front]);
    assert SetOf(q[..front + 1]) == done + {u};
    assert u !in done;
    forall v: nat | v < |adj|
      ensures indeg[v] + CountTo(adj[u][..0], v) == InDegree(adj, SetOf(q[..front + 1]), v, |adj|) + CountTo(adj[u], v)
    {
      InDegreeRemove(adj, done, u, v, |adj|);
    }
  }

  lemma EndCounting(adj: Adj, q: seq<nat>, front: nat, indeg: seq<nat>)
    requires front < |q| && q[front] < |adj| && Counting(adj, q, front, indeg, q[front], |adj[q[front]]|)
    ensures Counted(adj, q, front + 1, indeg)
  {
    var es := adj[q[front]];
    assert es[..|es|] == es;
  }

  lemma {:induction false} CountPrefix(es: seq<Edge>, i: nat, v: nat)
    requires i <= |es|
    ensures CountTo(es[..i], v) <= CountTo(es, v)
    ensures i < |es| ==> CountTo(es[..i + 1], v) == CountTo(es[..i], v) + if es[i].to == v then 1 else 0
    ensures i < |es| && es[i].to == v ==> CountTo(es[..i], v) < CountTo(es, v)
    decreases |es| - i
  {
    if i < |es| {
      assert es[..i + 1][..i] == es[..i];
      CountPrefix(es, i + 1, v);
    } else {
      assert es[..i] == es;
    }
  }

  /** The edge's target has an edge left, so it is not queued yet and there is room. */
  lemma TargetOpen(adj: Adj, q: seq<nat>, front: nat, indeg: seq<nat>, u: nat, i: nat)
    requires WellFormed(adj) && Queue(adj, q, indeg) && Counting(adj, q, front, indeg, u, i) && i < |adj[u]|
    ensures var w := adj[u][i].to; w < |adj| && indeg[w] > 0 && w !in q
    ensures |q| < |adj|
  {
    var w := adj[u][i].to;
    CountPrefix(adj[u], i, w);
    Pigeonhole(q, |adj|);
  }

  lemma CountEdge(adj: Adj, q: seq<nat>, front: nat, indeg: seq<nat>, u: nat, i: nat, q': seq<nat>)
    requires WellFormed(adj) && Counting(adj, q, front, indeg, u, i) && i < |adj[u]| && indeg[adj[u][i].to] > 0
    requires q <= q'
    ensures Counting(adj, q', front, indeg[adj[u][i].to := indeg[adj[u][i].to] - 1], u, i + 1)
  {
    var w := adj[u][i].to;
    var indeg' := indeg[w := indeg[w] - 1];
    assert q'[..front + 1] == q[..front + 1];
    forall v: nat | v < |adj|
      ensures indeg'[v] + CountTo(adj[u][..i + 1], v)
        == InDegree(adj, SetOf(q'[..front + 1]), v, |adj|) + CountTo(adj[u], v)
    {
      CountPrefix(adj[u], i, v);
    }
  }

  /** A vertex whose last counted edge has gone may be queued. */
  lemma Enqueue(adj: Adj, q: seq<nat>, front: nat, indeg: seq<nat>, u: nat, i: nat, w: nat)
    requires Counting(adj, q, front, indeg, u, i) && w < |adj| && w !in q && indeg[w] == 0
    requires NoDuplicates(q) && AllBelow(q, |adj|) && PredecessorsFirst(adj, q)
    requires forall v: nat :: v < |adj| && v != w ==> (v in q <==> indeg[v] == 0)
    ensures Queue(adj, q + [w], indeg)
  {
    CountPrefix(adj[u], i, w);
    InDegreePositive(adj, SetOf(q[..front + 1]), w, |adj|);
    var q' := q + [w];
    forall j, x: nat | 0 <= j < |q'| && IsSuccessor(adj, x, q'[j])
      ensures x in q'[..j]
    {
      assert q'[..j] == q[..j];
      if j == |q| {
        assert x in SetOf(q[..front + 1]);
        assert q[..j] == q;
      }
    }
  }

  /** A vertex outside an exhausted queue has a predecessor outside it. */
  lemma {:induction false} BackWalk(adj: Adj, q: seq<nat>, indeg: seq<nat>, v: nat, k: nat)
    returns (p: seq<Hop>, s: nat)
    requires WellFormed(adj) && Queue(adj, q, indeg) && Counted(adj, q, |q|, indeg) && v < |adj| && v !in q
    ensures IsWalk(adj, p, s, v) && |p| == k && s < |adj| && s !in q
  {
    if k == 0 {
      p, s := [], v;
    } else {
      var r, m := BackWalk(adj, q, indeg, v, k - 1);
      assert q[..|q|] == q;
      InDegreePositive(adj, SetOf(q), m, |adj|);
      var u :| 0 <= u < |adj| && u !in SetOf(q) && IsSuccessor(adj, u, m);
      var x :| 0 <= x < |adj[u]| && adj[u][x].to == m;
      var h := Hop(u, adj[u][x]);
      assert [h][..0] == [] && IsHop(adj, h);
      assert IsWalk(adj, [h], u, m);
      Concat(adj, [h], r, u, m, v);
      p, s := [h] + r, u;
    }
  }

  /** Exactly the vertices that no cycle leads to, once each and behind their predecessors. */
  ghost predicate Emitted(adj: Adj, q: seq<nat>) {
    && NoDuplicates(q) && AllBelow(q, |adj|) && PredecessorsFirst(adj, q)
    && forall v: nat :: v < |adj| ==> (v in q <==> !FromCycle(adj, v))
  }

  /** A walk to a queued vertex comes from a vertex that far in front of it. */
  lemma {:induction false} WalkQueued(adj: Adj, q: seq<nat>, p: seq<Hop>, s: nat, j: nat) returns (i: nat)
    requires PredecessorsFirst(adj, q) && j < |q| && IsWalk(adj, p, s, q[j])
    ensures i + |p| <= j && q[i] == s
  {
    if p == [] {
      i := j;
    } else {
      var h := p[|p| - 1];
      assert IsSuccessor(adj, h.u, q[j]);
      assert h.u in q[..j];
      var k :| 0 <= k < j && q[k] == h.u;
      i := WalkQueued(adj, q, p[..|p| - 1], s, k);
    }
  }

  lemma QueuedNotFromCycle(adj: Adj, q: seq<nat>, v: nat)
    requires PredecessorsFirst(adj, q) && NoDuplicates(q) && v in q
    ensures !FromCycle(adj, v)
  {
    if FromCycle(adj, v) {
      var u, c, p :| c != [] && IsWalk(adj, c, u, u) && IsWalk(adj, p, u, v);
      var j :| 0 <= j < |q| && q[j] == v;
      var i := WalkQueued(adj, q, p, u, j);
      var k := WalkQueued(adj, q, c, u, i);
      assert false;
    }
  }

  /** When the queue has run empty, it holds exactly the vertices that no cycle leads to, and
      so all of them exactly if there is no cycle. */
  lemma QueueVerdict(adj: Adj, q: seq<nat>, indeg: seq<nat>)
    requires WellFormed(adj) && Queue(adj, q, indeg) && Counted(adj, q, |q|, indeg)
    ensures Emitted(adj, q)
    ensures |q| <= |adj| && (|q| == |adj| <==> !Cyclic(adj))
    ensures |q| == |adj| ==> IsTopological(adj, q)
  {
    Pigeonhole(q, |adj|);
    forall v: nat | v < |adj|
      ensures v in q <==> !FromCycle(adj, v)
    {
      if v in q {
        QueuedNotFromCycle(adj, q, v);
      } else {
        var p, s := BackWalk(adj, q, indeg, v, |adj|);
        LongWalkFromCycle(adj, p, s, v);
      }
    }
    if |q| == |adj| {
      forall i, j | 0 <= i < |q| && 0 <= j < |q| && IsSuccessor(adj, q[i], q[j])
        ensures i < j
      {
        assert q[i] in q[..j];
        var k :| 0 <= k < j && q[..j][k] == q[i];
        assert q[k] == q[i];
      }
      TopologicalAcyclic(adj, q);
    } else {
      if forall v: nat :: v < |adj| ==> v in q {
        AllListed(q, |adj|);
      }
      var v: nat :| v < |adj| && v !in q;
      var p, s := BackWalk(adj, q, indeg, v, |adj|);
      LongWalkCyclic(adj, p, s, v);
    }
  }

  lemma {:induction false} AllListed(q: seq<nat>, n: nat)
    requires forall v: nat :: v < n ==> v in q
    ensures |q| >= n
  {
    if n > 0 {
      assert n - 1 in q;
      var i :| 0 <= i < |q| && q[i] == n - 1;
      var r := q[..i] + q[i + 1..];
      forall v: nat | v < n - 1
        ensures v in r
      {
        assert v in q;
        var j :| 0 <= j < |q| && q[j] == v;
        assert r[if j < i then j else j - 1] == v;
      }
      AllListed(r, n - 1);
    }
  }

  /** The queue loop: indeg counts the edges into each vertex and is used up. */
  method Drain(adj: Adj, indeg: array<nat>) returns (order: array<nat>, cnt: nat)
    requires WellFormed(adj) && indeg.Length == |adj|
    requires forall v: nat :: v < |adj| ==> indeg[v] == InDegree(adj, {}, v, |adj|)
    modifies indeg
    ensures fresh(order) && order.Length == |adj| && cnt <= |adj|
    ensures cnt == |adj| <==> !Cyclic(adj)
    ensures cnt == |adj| ==> IsTopological(adj, order[..])
    ensures Emitted(adj, order[..cnt])
  {
    hide Emitted, FromCycle;
    var n := |adj|;
    var queue := new nat[n];
    order := new nat[n];
    var back := FillQueue(adj, indeg, queue);
    var front: nat := 0;
    cnt := 0;
    assert SetOf(queue[..back][..0]) == {};
    while front < back
      invariant front == cnt <= back <= n && order[..front] == queue[..front]
      invariant Queue(adj, queue[..back], indeg[..]) && Counted(adj, queue[..back], front, indeg[..])
      decreases n - front
    {
      var v := queue[front];
      order[cnt] := v;
      cnt := cnt + 1;
      back := RemoveEdges(adj, v, front, indeg, queue, back);
      front := front + 1;
    }
    QueueVerdict(adj, queue[..back], indeg[..]);
    assert order[..cnt] == queue[..back];
    if cnt == n { assert order[..] == order[..cnt]; }
  }

  method FillQueue(adj: Adj, indeg: array<nat>, queue: array<nat>) returns (back: nat)
    requires WellFormed(adj) && indeg.Length == queue.Length == |adj| && indeg != queue
    requires forall v: nat :: v < |adj| ==> indeg[v] == InDegree(adj, {}, v, |adj|)
    modifies queue
    ensures back <= |adj| && Queue(adj, queue[..back], indeg[..]) && Counted(adj, queue[..back], 0, indeg[..])
  {
    back := 0;
    for i := 0 to |adj|
      invariant back <= i
      invariant NoDuplicates(queue[..back]) && AllBelow(queue[..back], i)
      invariant forall v: nat :: v < i ==> (v in queue[..back] <==> indeg[v] == 0)
    {
      if indeg[i] == 0 {
        ghost var q := queue[..back];
        queue[back] := i;
        back := back + 1;
        assert queue[..back] == q + [i];
      }
    }
    ghost var q := queue[..back];
    forall j | 0 <= j < |q|
      ensures forall u: nat :: !IsSuccessor(adj, u, q[j])
    {
      assert q[j] in q;
      InDegreePositive(adj, {}, q[j], |adj|);
    }
    assert SetOf(q[..0]) == {};
  }

  /** Takes the edges out of v = queue[front] off the counts; returns the new end of the queue. */
  method RemoveEdges(adj: Adj, v: nat, ghost front: nat, indeg: array<nat>, queue: array<nat>, back: nat)
    returns (back': nat)
    requires WellFormed(adj) && indeg.Length == queue.Length == |adj| && indeg != queue
    requires front < back <= |adj| && v == queue[front]
    requires Queue(adj, queue[..back], indeg[..]) && Counted(adj, queue[..back], front, indeg[..])
    modifies indeg, queue
    ensures back <= back' <= |adj| && queue[..back] == old(queue[..back])
    ensures Queue(adj, queue[..back'], indeg[..]) && Counted(adj, queue[..back'], front + 1, indeg[..])
  {
    back' := back;
    StartCounting(adj, queue[..back], front, indeg[..]);
    for i := 0 to |adj[v]|
      invariant back <= back' <= |adj| && queue[..back] == old(queue[..back])
      invariant Queue(adj, queue[..back'], indeg[..]) && Counting(adj, queue[..back'], front, indeg[..], v, i)
    {
      back' := RemoveEdge(adj, v, i, front, indeg, queue, back');
    }
    EndCounting(adj, queue[..back'], front, indeg[..]);
  }

  method RemoveEdge(adj: Adj, v: nat, i: nat, ghost front: nat, indeg: array<nat>, queue: array<nat>, back: nat)
    returns (back': nat)
    requires WellFormed(adj) && indeg.Length == queue.Length == |adj| && indeg != queue && back <= |adj|
    requires Queue(adj, queue[..back], indeg[..]) && Counting(adj, queue[..back], front, indeg[..], v, i)
    requires i < |adj[v]|
    modifies indeg, queue
    ensures back <= back' <= |adj| && queue[..back] == old(queue[..back])
    ensures Queue(adj, queue[..back'], indeg[..]) && Counting(adj, queue[..back'], front, indeg[..], v, i + 1)
  {
    ghost var q, d := queue[..back], indeg[..];
    TargetOpen(adj, q, front, d, v, i);
    var w := adj[v][i].to;
    indeg[w] := indeg[w] - 1;
    ghost var d' := d[w := d[w] - 1];
    assert indeg[..] == d';
    back' := back;
    if indeg[w] == 0 {
      queue[back'] := w;
      back' := back' + 1;
      assert queue[..back'] == q + [w] && queue[..back] == q;
      CountEdge(adj, q, front, d, v, i, q + [w]);
      CountEdge(adj, q, front, d, v, i, q);
      Enqueue(adj, q, front, d', v, i + 1, w);
    } else {
      assert queue[..back'] == q;
      CountEdge(adj, q, front, d, v, i, q);
    }
  }

  /** On a graph with a cycle, order starts with the cnt vertices that have come out. */
  method Kahn(adj: Adj) returns (order: array<nat>, isDag: bool, ghost cnt: nat)
    requires WellFormed(adj)
    ensures fresh(order) && order.Length == |adj| && cnt <= |adj| && Emitted(adj, order[..cnt])
    ensures isDag <==> !Cyclic(adj)
    ensures isDag ==> IsTopological(adj, order[..])
  {
    var n := |adj|;
    var indeg := new nat[n](_ => 0);
    for u := 0 to n
      invariant forall v: nat :: v < n ==> indeg[v] == InDegree(adj, {}, v, u)
    {
      for i := 0 to |adj[u]|
        invariant forall v: nat :: v < n ==> indeg[v] == InDegree(adj, {}, v, u) + CountTo(adj[u][..i], v)
      {
        var w := adj[u][i].to;
        indeg[w] := indeg[w] + 1;
        forall v: nat | v < n
          ensures indeg[v] == InDegree(adj, {}, v, u) + CountTo(adj[u][..i + 1], v)
        {
          CountPrefix(adj[u], i, v);
        }
      }
      assert adj[u][..|adj[u]|] == adj[u];
    }
    var count;
    order, count := Drain(adj, indeg);
    cnt := count;
    isDag := count == n;
  }
}
