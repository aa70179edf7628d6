/** Directed graphs as adjacency lists, walks in them, and the facts about walks
    that the graph algorithms rest on. */
module Walks {

  datatype Edge = Edge(to: nat, weight: int)

  /** One adjacency list per vertex. */
  type Adj = seq<seq<Edge>>

  ghost predicate WellFormed(adj: Adj) {
    forall u, i :: 0 <= u < |adj| && 0 <= i < |adj[u]| ==> adj[u][i].to < |adj|
  }

  /** An edge together with the vertex it leaves. */
  datatype Hop = Hop(u: nat, e: Edge)

  ghost predicate IsHop(adj: Adj, h: Hop) {
    h.u < |adj| && h.e in adj[h.u]
  }

  ghost predicate IsWalk(adj: Adj, p: seq<Hop>, s: nat, t: nat) {
    if p == [] then s == t && s < |adj|
    else
      var h := p[|p| - 1];
      IsHop(adj, h) && h.e.to == t && IsWalk(adj, p[..|p| - 1], s, h.u)
  }

  ghost function Weight(p: seq<Hop>): int {
    if p == [] then 0 else Weight(p[..|p| - 1]) + p[|p| - 1].e.weight
  }

  lemma {:induction false} Concat(adj: Adj, p: seq<Hop>, q: seq<Hop>, s: nat, m: nat, t: nat)
    requires IsWalk(adj, p, s, m) && IsWalk(adj, q, m, t)
    ensures IsWalk(adj, p + q, s, t) && Weight(p + q) == Weight(p) + Weight(q)
  {
    if q == [] {
      assert p + q == p;
    } else {
      var k := |q| - 1;
      Concat(adj, p, q[..k], s, m, q[k].u);
      assert (p + q)[..|p| + k] == p + q[..k];
    }
  }

  /** The vertex a walk from s is at after its first i hops. */
  ghost function At(p: seq<Hop>, s: nat, i: nat): nat
    requires i <= |p|
  {
    if i == 0 then s else p[i - 1].e.to
  }

  lemma TakeTwice(p: seq<Hop>, i: nat, k: nat)
    requires i <= k <= |p|
    ensures p[..k][..i] == p[..i]
  {
  }

  lemma DropThenTake(p: seq<Hop>, i: nat, k: nat)
    requires i <= k < |p|
    ensures p[i..][..k - i] == p[..k][i..] && |p[i..]| == |p| - i && p[i..][k - i] == p[k]
  {
  }

  lemma {:induction false} Split(adj: Adj, p: seq<Hop>, s: nat, t: nat, i: nat)
    requires IsWalk(adj, p, s, t) && i <= |p| && WellFormed(adj)
    ensures IsWalk(adj, p[..i], s, At(p, s, i)) && IsWalk(adj, p[i..], At(p, s, i), t)
    ensures Weight(p) == Weight(p[..i]) + Weight(p[i..])
    ensures At(p, s, i) < |adj| && s < |adj| && t < |adj|
  {
    if i == |p| {
      assert p[..i] == p && p[i..] == [];
      if p != [] { Split(adj, p[..i - 1], s, p[i - 1].u, 0); }
    } else {
      var k := |p| - 1;
      Split(adj, p[..k], s, p[k].u, i);
      TakeTwice(p, i, k);
      DropThenTake(p, i, k);
    }
  }

  ghost predicate Reachable(adj: Adj, s: nat, t: nat) {
    exists p :: IsWalk(adj, p, s, t)
  }

  ghost predicate Cyclic(adj: Adj) {
    exists u, p :: p != [] && IsWalk(adj, p, u, u)
  }

  /** Some walk leads from a cycle to v. */
  ghost predicate FromCycle(adj: Adj, v: nat) {
    exists u, p, q :: p != [] && IsWalk(adj, p, u, u) && IsWalk(adj, q, u, v)
  }

  /** Some vertex reachable from s lies on a closed walk of negative weight. */
  ghost predicate NegativeCycle(adj: Adj, s: nat) {
    exists u, p, c :: IsWalk(adj, p, s, u) && IsWalk(adj, c, u, u) && Weight(c) < 0
  }

  /** Some walk from s to t passes a vertex that lies on a closed walk of negative weight. */
  ghost predicate NegativeOnWay(adj: Adj, s: nat, t: nat) {
    exists u, p, c, q :: IsWalk(adj, p, s, u) && IsWalk(adj, c, u, u) && Weight(c) < 0 && IsWalk(adj, q, u, t)
  }

  lemma OnWayReachable(adj: Adj, s: nat, t: nat)
    requires NegativeOnWay(adj, s, t)
    ensures NegativeCycle(adj, s)
  {
    var u, p, c, q :| IsWalk(adj, p, s, u) && IsWalk(adj, c, u, u) && Weight(c) < 0 && IsWalk(adj, q, u, t);
  }

  // ---- pigeonhole ---------------------------------------------------------------

  ghost predicate NoDuplicates<T(!new)>(s: seq<T>) {
    forall i, j :: 0 <= i < j < |s| ==> s[i] != s[j]
  }

  ghost predicate AllBelow(s: seq<nat>, n: nat) {
    forall i :: 0 <= i < |s| ==> s[i] < n
  }

  /** Distinct numbers below n: there are at most n of them, and n of them are all. */
  lemma {:induction false} Pigeonhole(s: seq<nat>, n: nat)
    requires NoDuplicates(s) && AllBelow(s, n)
    ensures |s| <= n
    ensures |s| == n ==> forall x: nat :: x < n ==> x in s
  {
    if s != [] {
      assert s[0] < n;
      if i :| 0 <= i < |s| && s[i] == n - 1 {
        var r := s[..i] + s[i + 1..];
        assert forall j :: 0 <= j < |r| ==> r[j] == s[if j < i then j else j + 1];
        Pigeonhole(r, n - 1);
        forall x: nat | |s| == n && x < n
          ensures x in s
        {
          if x < n - 1 { assert x in r; }
        }
      } else {
        Pigeonhole(s, n - 1);
      }
    }
  }

  ghost function Stops(p: seq<Hop>, s: nat): (r: seq<nat>)
    ensures |r| == |p| + 1
  {
    seq(|p| + 1, i requires 0 <= i <= |p| => At(p, s, i))
  }

  /** A walk of |adj| hops or more passes some vertex twice. */
  lemma Revisit(adj: Adj, p: seq<Hop>, s: nat, t: nat) returns (i: nat, j: nat)
    requires IsWalk(adj, p, s, t) && WellFormed(adj) && |p| >= |adj|
    ensures i < j <= |p| && At(p, s, i) == At(p, s, j)
  {
    var r := Stops(p, s);
    forall k | 0 <= k < |r|
      ensures r[k] < |adj|
    {
      Split(adj, p, s, t, k);
    }
    if NoDuplicates(r) {
      Pigeonhole(r, |adj|);
      assert false;
    }
    i, j :| 0 <= i < j < |r| && r[i] == r[j];
  }

  /** The closed part between two visits of the same vertex, and the rest. */
  lemma CutOut(adj: Adj, p: seq<Hop>, s: nat, t: nat, i: nat, j: nat)
    requires IsWalk(adj, p, s, t) && WellFormed(adj) && i < j <= |p| && At(p, s, i) == At(p, s, j)
    ensures IsWalk(adj, p[..i], s, At(p, s, i)) && IsWalk(adj, p[i..j], At(p, s, i), At(p, s, i))
    ensures IsWalk(adj, p[j..], At(p, s, i), t) && IsWalk(adj, p[..i] + p[j..], s, t)
    ensures Weight(p) == Weight(p[..i] + p[j..]) + Weight(p[i..j])
  {
    Split(adj, p, s, t, j);
    Split(adj, p[..j], s, At(p, s, j), i);
    assert p[..j][..i] == p[..i] && p[..j][i..] == p[i..j];
    assert At(p[..j], s, i) == At(p, s, i);
    Concat(adj, p[..i], p[j..], s, At(p, s, i), t);
  }

  /** A long walk means a cycle. */
  lemma LongWalkCyclic(adj: Adj, p: seq<Hop>, s: nat, t: nat)
    requires IsWalk(adj, p, s, t) && WellFormed(adj) && |p| >= |adj|
    ensures Cyclic(adj)
  {
    var i, j := Revisit(adj, p, s, t);
    CutOut(adj, p, s, t, i, j);
    assert p[i..j] != [];
  }

  /** The cycle that a long walk means leads to the end of the walk. */
  lemma LongWalkFromCycle(adj: Adj, p: seq<Hop>, s: nat, t: nat)
    requires IsWalk(adj, p, s, t) && WellFormed(adj) && |p| >= |adj|
    ensures FromCycle(adj, t)
  {
    var i, j := Revisit(adj, p, s, t);
    CutOut(adj, p, s, t, i, j);
    assert p[i..j] != [];
  }

  /** What a vertex behind a cycle leads to is behind the cycle. */
  lemma StaysFromCycle(adj: Adj, p: seq<Hop>, s: nat, t: nat)
    requires IsWalk(adj, p, s, t) && FromCycle(adj, s)
    ensures FromCycle(adj, t)
  {
    var u, c, q :| c != [] && IsWalk(adj, c, u, u) && IsWalk(adj, q, u, s);
    Concat(adj, q, p, u, s, t);
  }

  /** Where one can get at all, one can get in fewer than |adj| hops. */
  lemma {:induction false} FewHops(adj: Adj, p: seq<Hop>, s: nat, t: nat) returns (q: seq<Hop>)
    requires IsWalk(adj, p, s, t) && WellFormed(adj)
    ensures IsWalk(adj, q, s, t) && |q| < |adj|
    decreases |p|
  {
    if |p| < |adj| {
      q := p;
    } else {
      var i, j := Revisit(adj, p, s, t);
      CutOut(adj, p, s, t, i, j);
      q := FewHops(adj, p[..i] + p[j..], s, t);
    }
  }

  /** If no negative cycle is on the way, some walk of fewer than |adj| hops is as light. */
  lemma {:induction false} Shorten(adj: Adj, p: seq<Hop>, s: nat, t: nat) returns (q: seq<Hop>)
    requires IsWalk(adj, p, s, t) && WellFormed(adj) && !NegativeOnWay(adj, s, t)
    ensures IsWalk(adj, q, s, t) && |q| < |adj| && Weight(q) <= Weight(p)
    decreases |p|
  {
    if |p| < |adj| {
      q := p;
    } else {
      var i, j := Revisit(adj, p, s, t);
      CutOut(adj, p, s, t, i, j);
      assert Weight(p[i..j]) >= 0;
      q := Shorten(adj, p[..i] + p[j..], s, t);
    }
  }
}
