/** Single-source shortest paths: Bellman-Ford with its negative-cycle flag. */
module ShortestPaths {
  import opened Walks

  /** A distance; the C code writes infinity as INT_MAX. */
  datatype Dist = Infinite | Finite(d: int)

  /** The test both algorithms make before they lower the distance of e.to. */
  predicate Relaxes(dist: seq<Dist>, u: nat, e: Edge)
    requires u < |dist| && e.to < |dist|
  {
    dist[u].Finite? && (dist[e.to].Infinite? || dist[u].d + e.weight < dist[e.to].d)
  }

  ghost predicate AtMost(a: Dist, b: Dist) {
    b.Finite? ==> a.Finite? && a.d <= b.d
  }

  /** d is the weight of the lightest walk from s to v, infinite if there is none. */
  ghost predicate IsShortest(adj: Adj, s: nat, v: nat, d: Dist) {
    && (d.Infinite? ==> !Reachable(adj, s, v))
    && (d.Finite? ==> exists p :: IsWalk(adj, p, s, v) && Weight(p) == d.d)
    && (d.Finite? ==> forall p :: IsWalk(adj, p, s, v) ==> d.d <= Weight(p))
  }

  lemma ShortestIsUnique(adj: Adj, s: nat, v: nat, a: Dist, b: Dist)
    requires IsShortest(adj, s, v, a) && IsShortest(adj, s, v, b)
    ensures a == b
  {
    assert a.Finite? ==> Reachable(adj, s, v);
    assert b.Finite? ==> Reachable(adj, s, v);
  }

  // ---- witnesses and settled distances -------------------------------------------

  /** Every finite distance is the weight of the recorded walk from s. */
  ghost predicate Sound(adj: Adj, s: nat, dist: seq<Dist>, walks: seq<seq<Hop>>) {
    && |dist| == |walks| == |adj|
    && forall v :: 0 <= v < |dist| && dist[v].Finite? ==> IsWalk(adj, walks[v], s, v) && Weight(walks[v]) == dist[v].d
  }

  lemma RelaxSound(adj: Adj, s: nat, dist: seq<Dist>, walks: seq<seq<Hop>>, u: nat, e: Edge)
    requires Sound(adj, s, dist, walks) && u < |adj| && e in adj[u] && e.to < |adj| && dist[u].Finite?
    ensures Sound(adj, s, dist[e.to := Finite(dist[u].d + e.weight)], walks[e.to := walks[u] + [Hop(u, e)]])
  {
    var q := walks[u] + [Hop(u, e)];
    assert q[..|q| - 1] == walks[u] && IsHop(adj, Hop(u, e));
    assert IsWalk(adj, q, s, e.to) && Weight(q) == dist[u].d + e.weight;
  }

  /** No edge can lower a distance any more. */
  ghost predicate Settled(adj: Adj, dist: seq<Dist>) {
    && |dist| == |adj|
    && forall u, i :: 0 <= u < |adj| && 0 <= i < |adj[u]| ==>
         adj[u][i].to < |dist| && !Relaxes(dist, u, adj[u][i])
  }

  lemma {:induction false} SettledBound(adj: Adj, dist: seq<Dist>, p: seq<Hop>, s: nat, t: nat)
    requires Settled(adj, dist) && IsWalk(adj, p, s, t) && s < |dist| && dist[s].Finite?
    ensures t < |dist| && dist[t].Finite? && dist[t].d <= dist[s].d + Weight(p)
  {
    if p != [] {
      var h := p[|p| - 1];
      SettledBound(adj, dist, p[..|p| - 1], s, h.u);
      var i :| 0 <= i < |adj[h.u]| && adj[h.u][i] == h.e;
      assert !Relaxes(dist, h.u, adj[h.u][i]);
    }
  }

  /** Settled and witnessed distances are the shortest ones. */
  lemma SettledShortest(adj: Adj, s: nat, dist: seq<Dist>, walks: seq<seq<Hop>>)
    requires Settled(adj, dist) && Sound(adj, s, dist, walks) && s < |adj| && AtMost(dist[s], Finite(0))
    ensures dist[s] == Finite(0)
    ensures forall v :: 0 <= v < |dist| ==> IsShortest(adj, s, v, dist[v])
    ensures !NegativeCycle(adj, s)
  {
    SettledBound(adj, dist, walks[s], s, s);
    forall v | 0 <= v < |dist|
      ensures IsShortest(adj, s, v, dist[v])
    {
      forall p | IsWalk(adj, p, s, v)
        ensures dist[v].Finite? && dist[v].d <= Weight(p)
      {
        SettledBound(adj, dist, p, s, v);
      }
      if dist[v].Finite? { assert IsWalk(adj, walks[v], s, v); }
    }
    forall u, p, c | IsWalk(adj, p, s, u) && IsWalk(adj, c, u, u)
      ensures Weight(c) >= 0
    {
      SettledBound(adj, dist, p, s, u);
      SettledBound(adj, dist, c, u, u);
    }
  }

  // ---- Bellman-Ford ------------------------------------------------------------------

  /** After k passes no walk of at most k hops is lighter. */
  ghost predicate Covers(adj: Adj, s: nat, dist: seq<Dist>, k: nat) {
    && |dist| == |adj|
    && forall p: seq<Hop>, v: nat :: IsWalk(adj, p, s, v) && |p| <= k ==>
      v < |dist| && AtMost(dist[v], Finite(Weight(p)))
  }

  /** What a pass over the vertices below u guarantees, from the distances before. */
  ghost predicate Passed(adj: Adj, before: seq<Dist>, dist: seq<Dist>, u: nat) {
    && |before| == |dist| == |adj|
    && (forall v :: 0 <= v < |dist| ==> AtMost(dist[v], before[v]))
    && (forall x, i :: 0 <= x < u && x < |adj| && 0 <= i < |adj[x]| ==> EdgePassed(before, dist, x, adj[x][i]))
  }

  ghost predicate EdgePassed(before: seq<Dist>, dist: seq<Dist>, x: nat, e: Edge) {
    x < |before| && e.to < |dist| && (before[x].Finite? ==> AtMost(dist[e.to], Finite(before[x].d + e.weight)))
  }

  lemma PassCovers(adj: Adj, s: nat, before: seq<Dist>, dist: seq<Dist>, k: nat)
    requires WellFormed(adj) && Covers(adj, s, before, k) && Passed(adj, before, dist, |adj|)
    ensures Covers(adj, s, dist, k + 1)
  {
    forall p: seq<Hop>, v: nat | IsWalk(adj, p, s, v) && |p| <= k + 1
      ensures v < |dist| && AtMost(dist[v], Finite(Weight(p)))
    {
      if p == [] {
        assert IsWalk(adj, p, s, v) && |p| <= k;
        assert AtMost(before[v], Finite(Weight(p)));
      } else {
        var h, q := p[|p| - 1], p[..|p| - 1];
        assert IsWalk(adj, q, s, h.u) && |q| <= k;
        assert AtMost(before[h.u], Finite(Weight(q)));
        var i :| 0 <= i < |adj[h.u]| && adj[h.u][i] == h.e;
        assert EdgePassed(before, dist, h.u, adj[h.u][i]);
      }
    }
  }

  /** If no negative cycle is reachable, n - 1 passes settle the distances. */
  lemma EnoughPasses(adj: Adj, s: nat, dist: seq<Dist>, walks: seq<seq<Hop>>)
    requires WellFormed(adj) && s < |adj| && Sound(adj, s, dist, walks)
    requires Covers(adj, s, dist, |adj| - 1) && !NegativeCycle(adj, s)
    ensures Settled(adj, dist)
  {
    forall u, i | 0 <= u < |adj| && 0 <= i < |adj[u]|
      ensures adj[u][i].to < |dist| && !Relaxes(dist, u, adj[u][i])
    {
      var e := adj[u][i];
      if dist[u].Finite? {
        var p := walks[u] + [Hop(u, e)];
        assert p[..|p| - 1] == walks[u] && IsHop(adj, Hop(u, e));
        assert IsWalk(adj, p, s, e.to) && Weight(p) == dist[u].d + e.weight;
        if NegativeOnWay(adj, s, e.to) { OnWayReachable(adj, s, e.to); }
        var q := Shorten(adj, p, s, e.to);
        assert AtMost(dist[e.to], Finite(Weight(q)));
      }
    }
  }

  /** The number of edges out of the first n vertices. */
  ghost function EdgesBelow(adj: Adj, n: nat): nat
    requires n <= |adj|
  {
    if n == 0 then 0 else EdgesBelow(adj, n - 1) + |adj[n - 1]|
  }

  /** No recorded walk has more than b hops. */
  ghost predicate Within(walks: seq<seq<Hop>>, b: nat) {
    forall v :: 0 <= v < |walks| ==> |walks[v]| <= b
  }

  /** d is the weight of some walk of at most b hops, and no more than that of any walk of at
      most k hops. */
  ghost predicate Between(adj: Adj, s: nat, v: nat, d: Dist, k: nat, b: nat) {
    && (d.Finite? ==> exists p :: IsWalk(adj, p, s, v) && Weight(p) == d.d && |p| <= b)
    && forall p :: IsWalk(adj, p, s, v) && |p| <= k ==> AtMost(d, Finite(Weight(p)))
  }

  /** After n - 1 passes, negative cycles or not: the distances of the vertices that no negative
      cycle leads to are settled, and the finite ones are those of the reachable vertices. */
  lemma PassesDone(adj: Adj, s: nat, dist: seq<Dist>, walks: seq<seq<Hop>>, b: nat, v: nat)
    requires WellFormed(adj) && s < |adj| && v < |adj| && Sound(adj, s, dist, walks) && Within(walks, b)
    requires Covers(adj, s, dist, |adj| - 1)
    ensures dist[v].Finite? <==> Reachable(adj, s, v)
    ensures !NegativeOnWay(adj, s, v) ==> IsShortest(adj, s, v, dist[v])
    ensures Between(adj, s, v, dist[v], |adj| - 1, b)
  {
    if dist[v].Finite? { assert IsWalk(adj, walks[v], s, v); }
    forall p | IsWalk(adj, p, s, v)
      ensures dist[v].Finite? && (!NegativeOnWay(adj, s, v) ==> dist[v].d <= Weight(p))
    {
      var q := FewHops(adj, p, s, v);
      assert AtMost(dist[v], Finite(Weight(q)));
      if !NegativeOnWay(adj, s, v) {
        var r := Shorten(adj, p, s, v);
        assert AtMost(dist[v], Finite(Weight(r)));
      }
    }
  }

  /** Whatever the flag says, a distance is finite exactly if the vertex can be reached, and
      the shortest one if no negative cycle is on the way. Of the others it is the weight of
      a walk that n - 1 passes can have found, and at most what n - 1 hops can do. */
  method BellmanFord(adj: Adj, src: nat) returns (dist: array<Dist>, negCycle: bool)
    requires WellFormed(adj) && src < |adj|
    ensures dist.Length == |adj| && fresh(dist)
    ensures negCycle <==> NegativeCycle(adj, src)
    ensures !negCycle ==> forall v :: 0 <= v < |adj| ==> IsShortest(adj, src, v, dist[..][v])
    ensures forall v :: 0 <= v < |adj| ==> (dist[..][v].Finite? <==> Reachable(adj, src, v))
    ensures forall v :: 0 <= v < |adj| && !NegativeOnWay(adj, src, v) ==> IsShortest(adj, src, v, dist[..][v])
    ensures forall v :: 0 <= v < |adj| ==>
      Between(adj, src, v, dist[..][v], |adj| - 1, (|adj| - 1) * EdgesBelow(adj, |adj|))
  {
    hide Settled, NegativeCycle, NegativeOnWay, IsShortest, Reachable, Between, EdgesBelow, Sound, Covers, Passed,
      Within;
    var n := |adj|;
    dist := new Dist[n](_ => Infinite);
    dist[src] := Finite(0);
    ghost var walks: seq<seq<Hop>> := seq(n, _ => []);
    ghost var m := EdgesBelow(adj, n);
    AtTheStart(adj, src, dist[..], walks);
    for pass := 0 to n - 1
      invariant Sound(adj, src, dist[..], walks) && Covers(adj, src, dist[..], pass) && Within(walks, pass * m)
    {
      ghost var before := dist[..];
      walks := RelaxAll(adj, src, dist, walks, pass * m);
      PassCovers(adj, src, before, dist[..], pass);
      OneMorePass(pass, m);
    }
    negCycle := FindRelaxable(adj, dist);
    SourceAtMost(adj, src, dist[..], n - 1);
    if !NegativeCycle(adj, src) { EnoughPasses(adj, src, dist[..], walks); }
    if !negCycle { SettledShortest(adj, src, dist[..], walks); }
    forall v: nat | v < n {
      PassesDone(adj, src, dist[..], walks, (n - 1) * m, v);
    }
  }

  lemma AtTheStart(adj: Adj, s: nat, dist: seq<Dist>, walks: seq<seq<Hop>>)
    requires |dist| == |walks| == |adj| && s < |adj|
    requires forall v :: 0 <= v < |adj| ==> dist[v] == if v == s then Finite(0) else Infinite
    requires forall v :: 0 <= v < |adj| ==> walks[v] == []
    ensures Sound(adj, s, dist, walks) && Covers(adj, s, dist, 0) && Within(walks, 0)
  {
  }

  lemma SourceAtMost(adj: Adj, s: nat, dist: seq<Dist>, k: nat)
    requires Covers(adj, s, dist, k) && s < |adj|
    ensures |dist| == |adj| && AtMost(dist[s], Finite(0))
  {
    assert IsWalk(adj, [], s, s);
  }

  lemma OneMorePass(pass: nat, m: nat)
    ensures pass * m + m == (pass + 1) * m
  {
  }

  /** One pass over all edges. */
  method RelaxAll(adj: Adj, src: nat, dist: array<Dist>, ghost walks0: seq<seq<Hop>>, ghost b: nat)
    returns (ghost walks: seq<seq<Hop>>)
    requires WellFormed(adj) && Sound(adj, src, dist[..], walks0) && Within(walks0, b)
    modifies dist
    ensures Sound(adj, src, dist[..], walks) && Passed(adj, old(dist[..]), dist[..], |adj|)
    ensures Within(walks, b + EdgesBelow(adj, |adj|))
  {
    hide Sound;
    SoundSized(adj, src, dist[..], walks0);
    ghost var before := dist[..];
    walks := walks0;
    for u := 0 to |adj|
      invariant Sound(adj, src, dist[..], walks) && Passed(adj, before, dist[..], u)
      invariant Within(walks, b + EdgesBelow(adj, u))
    {
      walks := RelaxFrom(adj, src, u, dist, walks, before, b + EdgesBelow(adj, u));
    }
  }

  method RelaxFrom(adj: Adj, src: nat, u: nat, dist: array<Dist>, ghost walks0: seq<seq<Hop>>, ghost before: seq<Dist>,
      ghost b: nat)
    returns (ghost walks: seq<seq<Hop>>)
    requires WellFormed(adj) && u < |adj| && Sound(adj, src, dist[..], walks0) && Passed(adj, before, dist[..], u)
    requires Within(walks0, b)
    modifies dist
    ensures Sound(adj, src, dist[..], walks) && Passed(adj, before, dist[..], u + 1) && Within(walks, b + |adj[u]|)
  {
    hide Sound;
    walks := walks0;
    SoundSized(adj, src, dist[..], walks);
    for i := 0 to |adj[u]|
      invariant Sound(adj, src, dist[..], walks) && Passed(adj, before, dist[..], u)
      invariant |walks| == dist.Length == |adj| && Within(walks, b + i)
      invariant forall j :: 0 <= j < i ==> EdgePassed(before, dist[..], u, adj[u][j])
    {
      var e := adj[u][i];
      if dist[u].Finite? && (dist[e.to].Infinite? || dist[u].d + e.weight < dist[e.to].d) {
        ghost var was := dist[..];
        RelaxSound(adj, src, was, walks, u, e);
        walks := walks[e.to := walks[u] + [Hop(u, e)]];
        dist[e.to] := Finite(dist[u].d + e.weight);
        assert dist[..] == was[e.to := Finite(was[u].d + e.weight)];
        LoweredPassed(adj, before, was, dist[..], u, i);
      }
    }
  }

  lemma SoundSized(adj: Adj, s: nat, dist: seq<Dist>, walks: seq<seq<Hop>>)
    requires Sound(adj, s, dist, walks)
    ensures |dist| == |walks| == |adj|
  {
  }

  /** Lowering a distance undoes nothing. */
  lemma LoweredPassed(adj: Adj, before: seq<Dist>, was: seq<Dist>, dist: seq<Dist>, u: nat, i: nat)
    requires WellFormed(adj) && u < |adj| && i <= |adj[u]| && Passed(adj, before, was, u) && |dist| == |was|
    requires forall v :: 0 <= v < |dist| ==> AtMost(dist[v], was[v])
    requires forall j :: 0 <= j < i ==> EdgePassed(before, was, u, adj[u][j])
    ensures Passed(adj, before, dist, u)
    ensures forall j :: 0 <= j < i ==> EdgePassed(before, dist, u, adj[u][j])
  {
    forall x, j | 0 <= x < |adj| && 0 <= j < |adj[x]| && EdgePassed(before, was, x, adj[x][j])
      ensures EdgePassed(before, dist, x, adj[x][j])
    {
    }
  }

  /** Whether some edge could still lower a distance. */
  method FindRelaxable(adj: Adj, dist: array<Dist>) returns (found: bool)
    requires WellFormed(adj) && dist.Length == |adj|
    ensures found <==> !Settled(adj, dist[..])
  {
    found := false;
    ghost var d := dist[..];
    for u := 0 to |adj|
      invariant found ==> !Settled(adj, d)
      invariant !found ==> forall x, i :: 0 <= x < u && 0 <= i < |adj[x]| ==> !Relaxes(d, x, adj[x][i])
    {
      for i := 0 to |adj[u]|
        invariant found ==> !Settled(adj, d)
        invariant !found ==> forall x, i :: 0 <= x < u && 0 <= i < |adj[x]| ==> !Relaxes(d, x, adj[x][i])
        invariant !found ==> forall j :: 0 <= j < i ==> !Relaxes(d, u, adj[u][j])
      {
        var e := adj[u][i];
        if dist[u].Finite? && (dist[e.to].Infinite? || dist[u].d + e.weight < dist[e.to].d) {
          assert Relaxes(d, u, adj[u][i]);
          found := true;
        }
      }
    }
  }
}
