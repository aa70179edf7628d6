/** Depth-first search: cycle detection with a recursion stack, and the
    topological order that reverses the order of finishing. */
module DepthFirst {
  import opened Walks
  import opened Topological

  /** Neighbours on the stack of open calls are joined by edges. */
  ghost predicate Chain(adj: Adj, stk: seq<nat>) {
    forall i :: 0 < i < |stk| ==> IsSuccessor(adj, stk[i - 1], stk[i])
  }

  /** The visited vertices are the finished ones and those on the stack. */
  ghost predicate Visited(adj: Adj, vis: seq<bool>, fin: seq<nat>, stk: seq<nat>) {
    && |vis| == |adj| && AllBelow(fin, |adj|) && AllBelow(stk, |adj|) && NoDuplicates(fin + stk) && Chain(adj, stk)
    && forall v: nat :: v < |adj| ==> (vis[v] <==> v in fin || v in stk)
  }

  ghost predicate OnStack(adj: Adj, rec: seq<bool>, stk: seq<nat>) {
    |rec| == |adj| && forall v: nat :: v < |adj| ==> (rec[v] <==> v in stk)
  }

  lemma HopWalk(adj: Adj, u: nat, v: nat) returns (p: seq<Hop>)
    requires IsSuccessor(adj, u, v) && u < |adj|
    ensures IsWalk(adj, p, u, v) && |p| == 1
  {
    var k :| 0 <= k < |adj[u]| && adj[u][k].to == v;
    var h := Hop(u, adj[u][k]);
    assert [h][..0] == [] && IsHop(adj, h);
    p := [h];
  }

  lemma {:induction false} ChainWalk(adj: Adj, stk: seq<nat>, i: nat, j: nat) returns (p: seq<Hop>)
    requires Chain(adj, stk) && AllBelow(stk, |adj|) && i <= j < |stk|
    ensures IsWalk(adj, p, stk[i], stk[j])
    decreases j - i
  {
    if i == j {
      p := [];
    } else {
      var q := ChainWalk(adj, stk, i, j - 1);
      var r := HopWalk(adj, stk[j - 1], stk[j]);
      Concat(adj, q, r, stk[i], stk[j - 1], stk[j]);
      p := q + r;
    }
  }

  /** An edge from the top of the stack back into the stack closes a cycle. */
  lemma BackEdge(adj: Adj, stk: seq<nat>, w: nat)
    requires Chain(adj, stk) && AllBelow(stk, |adj|) && w in stk && IsSuccessor(adj, stk[|stk| - 1], w)
    ensures Cyclic(adj)
  {
    var i :| 0 <= i < |stk| && stk[i] == w;
    var p := ChainWalk(adj, stk, i, |stk| - 1);
    var r := HopWalk(adj, stk[|stk| - 1], w);
    Concat(adj, p, r, w, stk[|stk| - 1], w);
    assert p + r != [];
  }

  lemma Room(adj: Adj, vis: seq<bool>, fin: seq<nat>, stk: seq<nat>)
    requires Visited(adj, vis, fin, stk)
    ensures |fin| + |stk| <= |adj|
  {
    Pigeonhole(fin + stk, |adj|);
  }

  lemma Open(adj: Adj, vis: seq<bool>, fin: seq<nat>, stk: seq<nat>, v: nat)
    requires Visited(adj, vis, fin, stk) && v < |adj| && !vis[v]
    requires stk != [] ==> IsSuccessor(adj, stk[|stk| - 1], v)
    ensures Visited(adj, vis[v := true], fin, stk + [v])
  {
    assert v !in fin && v !in stk;
    assert fin + (stk + [v]) == (fin + stk) + [v];
  }

  lemma Close(adj: Adj, vis: seq<bool>, fin: seq<nat>, stk: seq<nat>, v: nat)
    requires Visited(adj, vis, fin, stk + [v])
    ensures Visited(adj, vis, fin + [v], stk)
    ensures v !in stk && v !in fin
  {
    var s, t := fin + (stk + [v]), (fin + [v]) + stk;
    assert s[|fin| + |stk|] == v;
    forall i, j | 0 <= i < j < |t|
      ensures t[i] != t[j]
    {
      var a := if i < |fin| then i else if i == |fin| then |s| - 1 else i - 1;
      var b := if j < |fin| then j else if j == |fin| then |s| - 1 else j - 1;
      assert t[i] == s[a] && t[j] == s[b];
      assert a < b || b < a;
    }
    assert forall i :: 0 <= i < |stk| ==> stk[i] == (stk + [v])[i] && s[|fin| + i] == stk[i];
    assert forall i :: 0 <= i < |fin| ==> s[i] == fin[i];
  }

  lemma FinishEdges(adj: Adj, fin: seq<nat>, v: nat)
    requires EdgesBack(adj, fin) && v < |adj|
    requires forall k :: 0 <= k < |adj[v]| ==> adj[v][k].to in fin
    ensures EdgesBack(adj, fin + [v])
  {
    var f := fin + [v];
    forall i, k | 0 <= i < |f| && 0 <= k < |adj[f[i]]|
      ensures adj[f[i]][k].to in f[..i]
    {
      assert f[..i] == fin[..i];
      if i == |fin| { assert fin[..i] == fin; }
    }
  }

  // ---- reversing the order of finishing -------------------------------------------------

  ghost function Reversed(s: seq<nat>): (r: seq<nat>)
    ensures |r| == |s| && forall i :: 0 <= i < |s| ==> r[i] == s[|s| - 1 - i]
  {
    seq(|s|, i requires 0 <= i < |s| => s[|s| - 1 - i])
  }

  lemma ReversedTopological(adj: Adj, fin: seq<nat>)
    requires |fin| == |adj| && NoDuplicates(fin) && EdgesBack(adj, fin)
    ensures IsTopological(adj, Reversed(fin))
  {
    var r, n := Reversed(fin), |fin|;
    forall i, j | 0 <= i < n && 0 <= j < n && IsSuccessor(adj, r[i], r[j])
      ensures i < j
    {
      var a := n - 1 - i;
      var k :| 0 <= k < |adj[fin[a]]| && adj[fin[a]][k].to == r[j];
      assert r[j] in fin[..a];
      var b :| 0 <= b < a && fin[..a][b] == r[j];
      assert fin[b] == fin[n - 1 - j];
    }
  }

  // ---- cycle detection ----------------------------------------------------------------------

  method CycleFrom(adj: Adj, v: nat, vis: array<bool>, rec: array<bool>, ghost fin: seq<nat>, ghost stk: seq<nat>)
    returns (found: bool, ghost fin': seq<nat>)
    requires WellFormed(adj) && vis != rec && vis.Length == rec.Length == |adj| && v < |adj| && !vis[v]
    requires Visited(adj, vis[..], fin, stk) && OnStack(adj, rec[..], stk) && EdgesBack(adj, fin)
    requires stk != [] ==> IsSuccessor(adj, stk[|stk| - 1], v)
    modifies vis, rec
    ensures found ==> Cyclic(adj)
    ensures !found ==> Visited(adj, vis[..], fin', stk) && OnStack(adj, rec[..], stk) && EdgesBack(adj, fin')
    ensures !found ==> fin <= fin' && v in fin'
    decreases |adj| - |fin| - |stk|
  {
    Open(adj, vis[..], fin, stk, v);
    ghost var vis0, rec0 := vis[..], rec[..];
    vis[v], rec[v] := true, true;
    assert vis[..] == vis0[v := true] && rec[..] == rec0[v := true];
    ghost var s := stk + [v];
    fin' := fin;
    Room(adj, vis[..], fin, s);
    for i := 0 to |adj[v]|
      invariant Visited(adj, vis[..], fin', s) && OnStack(adj, rec[..], s) && EdgesBack(adj, fin')
      invariant fin <= fin' && forall k :: 0 <= k < i ==> adj[v][k].to in fin'
    {
      var w := adj[v][i].to;
      assert IsSuccessor(adj, s[|s| - 1], w);
      if !vis[w] {
        found, fin' := CycleFrom(adj, w, vis, rec, fin', s);
        if found { return; }
      }
      if rec[w] {
        BackEdge(adj, s, w);
        return true, fin';
      }
    }
    Close(adj, vis[..], fin', stk, v);
    FinishEdges(adj, fin', v);
    rec0 := rec[..];
    rec[v] := false;
    assert rec[..] == rec0[v := false];
    fin' := fin' + [v];
    found := false;
  }

  method HasCycle(adj: Adj) returns (found: bool)
    requires WellFormed(adj)
    ensures found <==> Cyclic(adj)
  {
    var n := |adj|;
    var vis, rec := new bool[n](_ => false), new bool[n](_ => false);
    ghost var fin: seq<nat> := [];
    found := false;
    var i: nat := 0;
    while i < n && !found
      invariant i <= n && (found ==> Cyclic(adj))
      invariant !found ==> Visited(adj, vis[..], fin, []) && OnStack(adj, rec[..], []) && EdgesBack(adj, fin)
      invariant !found ==> forall v: nat :: v < i ==> v in fin
    {
      if !vis[i] { found, fin := CycleFrom(adj, i, vis, rec, fin, []); }
      i := i + 1;
    }
    if !found { FinishedAcyclic(adj, vis[..], fin); }
  }

  lemma FinishedAcyclic(adj: Adj, vis: seq<bool>, fin: seq<nat>)
    requires WellFormed(adj) && Visited(adj, vis, fin, []) && EdgesBack(adj, fin)
    requires forall v: nat :: v < |adj| ==> v in fin
    ensures |fin| == |adj| && NoDuplicates(fin) && IsTopological(adj, Reversed(fin)) && !Cyclic(adj)
  {
    assert fin + [] == fin;
    Pigeonhole(fin, |adj|);
    AllListed(fin, |adj|);
    ReversedTopological(adj, fin);
    TopologicalAcyclic(adj, Reversed(fin));
  }
}
