/** Union-find over two arrays, with path compression and union by rank. The ghost
    sequence rep names the root of every element; the ghost sequence pairs records
    what has been united. */
module UnionFinds {
  import opened Powers

  // ---- the equivalence closure of the united pairs -----------------------------------

  ghost predicate Linked(pairs: seq<(nat, nat)>, a: nat, b: nat) {
    (a, b) in pairs || (b, a) in pairs
  }

  ghost predicate IsChain(pairs: seq<(nat, nat)>, c: seq<nat>, a: nat, b: nat) {
    && c != [] && c[0] == a && c[|c| - 1] == b
    && forall i :: 0 < i < |c| ==> Linked(pairs, c[i - 1], c[i])
  }

  /** a and b are related by the least equivalence that contains the pairs. */
  ghost predicate Equivalent(pairs: seq<(nat, nat)>, a: nat, b: nat) {
    exists c :: IsChain(pairs, c, a, b)
  }

  lemma EquivalentReflexive(pairs: seq<(nat, nat)>, a: nat)
    ensures Equivalent(pairs, a, a)
  {
    assert IsChain(pairs, [a], a, a);
  }

  lemma EquivalentTransitive(pairs: seq<(nat, nat)>, a: nat, b: nat, c: nat)
    requires Equivalent(pairs, a, b) && Equivalent(pairs, b, c)
    ensures Equivalent(pairs, a, c)
  {
    var p :| IsChain(pairs, p, a, b);
    var q :| IsChain(pairs, q, b, c);
    var r := p + q[1..];
    forall i | 0 < i < |r|
      ensures Linked(pairs, r[i - 1], r[i])
    {
      if i > |p| { assert Linked(pairs, q[i - |p|], q[i - |p| + 1]); }
      else if i == |p| { assert Linked(pairs, q[0], q[1]); }
    }
    assert IsChain(pairs, r, a, c);
  }

  lemma EquivalentSymmetric(pairs: seq<(nat, nat)>, a: nat, b: nat)
    requires Equivalent(pairs, a, b)
    ensures Equivalent(pairs, b, a)
  {
    var p :| IsChain(pairs, p, a, b);
    var r := seq(|p|, i requires 0 <= i < |p| => p[|p| - 1 - i]);
    forall i | 0 < i < |r|
      ensures Linked(pairs, r[i - 1], r[i])
    {
      assert Linked(pairs, p[|p| - 1 - i], p[|p| - i]);
    }
    assert IsChain(pairs, r, b, a);
  }

  lemma EquivalentGrows(pairs: seq<(nat, nat)>, x: (nat, nat), a: nat, b: nat)
    requires Equivalent(pairs, a, b)
    ensures Equivalent(pairs + [x], a, b)
  {
    var c :| IsChain(pairs, c, a, b);
    forall i | 0 < i < |c|
      ensures Linked(pairs + [x], c[i - 1], c[i])
    {
      assert Linked(pairs, c[i - 1], c[i]);
    }
    assert IsChain(pairs + [x], c, a, b);
  }

  lemma EquivalentNew(pairs: seq<(nat, nat)>, x: nat, y: nat)
    ensures Equivalent(pairs + [(x, y)], x, y)
  {
    assert (pairs + [(x, y)])[|pairs|] == (x, y);
    assert Linked(pairs + [(x, y)], x, y);
    assert IsChain(pairs + [(x, y)], [x, y], x, y);
  }

  /** rep names the classes of the equivalence. */
  ghost predicate Classifies(rep: seq<nat>, pairs: seq<(nat, nat)>) {
    && (forall a, b :: 0 <= a < |rep| && 0 <= b < |rep| && rep[a] == rep[b] ==> Equivalent(pairs, a, b))
    && (forall i :: 0 <= i < |pairs| ==> pairs[i].0 < |rep| && pairs[i].1 < |rep| && rep[pairs[i].0] == rep[pairs[i].1])
  }

  lemma {:induction false} ChainSameClass(rep: seq<nat>, pairs: seq<(nat, nat)>, c: seq<nat>, a: nat, b: nat)
    requires Classifies(rep, pairs) && IsChain(pairs, c, a, b) && a < |rep|
    ensures b < |rep| && rep[a] == rep[b]
  {
    if |c| > 1 {
      var k := |c| - 1;
      assert IsChain(pairs, c[..k], a, c[k - 1]) by {
        assert forall i :: 0 < i < k ==> Linked(pairs, c[i - 1], c[i]);
      }
      ChainSameClass(rep, pairs, c[..k], a, c[k - 1]);
      assert Linked(pairs, c[k - 1], c[k]);
    }
  }

  /** Same root exactly if equivalent. */
  lemma ClassIff(rep: seq<nat>, pairs: seq<(nat, nat)>, a: nat, b: nat)
    requires Classifies(rep, pairs) && a < |rep| && b < |rep|
    ensures rep[a] == rep[b] <==> Equivalent(pairs, a, b)
  {
    if Equivalent(pairs, a, b) {
      var c :| IsChain(pairs, c, a, b);
      ChainSameClass(rep, pairs, c, a, b);
    }
  }

  // ---- the forest ------------------------------------------------------------------------

  ghost function Class(rep: seq<nat>, r: nat): set<nat> {
    set x | 0 <= x < |rep| && rep[x] == r
  }

  ghost function Roots(rep: seq<nat>): set<nat> {
    set x | 0 <= x < |rep| && rep[x] == x
  }

  /** Parent links lead to rep, ranks rise along them, and a root of rank k has at
      least 2^k members. */
  ghost predicate Forest(parent: seq<nat>, rank: seq<nat>, rep: seq<nat>) {
    && |parent| == |rank| == |rep|
    && (forall x :: 0 <= x < |rep| ==> Placed(parent, rank, rep, x))
    && (forall x :: 0 <= x < |rep| && rep[x] == x ==> Pow2(rank[x]) <= |Class(rep, x)|)
  }

  ghost predicate Placed(parent: seq<nat>, rank: seq<nat>, rep: seq<nat>, x: nat)
    requires |parent| == |rank| == |rep| && x < |rep|
  {
    && parent[x] < |rep| && rep[x] < |rep|
    && (parent[x] == x ==> rep[x] == x)
    && (parent[x] != x ==> rank[x] < rank[parent[x]] && rep[parent[x]] == rep[x])
    && parent[rep[x]] == rep[x]
    && rank[x] <= rank[rep[x]]
  }

  ghost function UpTo(n: nat): (s: set<nat>)
    ensures |s| == n && forall x :: x in s <==> 0 <= x < n
  {
    if n == 0 then {} else UpTo(n - 1) + {n - 1}
  }

  lemma ClassSize(rep: seq<nat>, r: nat)
    ensures |Class(rep, r)| <= |rep|
  {
    Subset(Class(rep, r), UpTo(|rep|));
  }

  lemma {:induction false} Subset(a: set<nat>, b: set<nat>)
    requires a <= b
    ensures |a| <= |b|
  {
    if a != {} {
      var x :| x in a;
      Subset(a - {x}, b - {x});
    }
  }

  /** Ranks stay below log2 of the number of elements. */
  lemma RankBound(parent: seq<nat>, rank: seq<nat>, rep: seq<nat>, x: nat)
    requires Forest(parent, rank, rep) && x < |rep|
    ensures rank[x] < |rep| && Pow2(rank[x]) <= |rep|
  {
    assert Placed(parent, rank, rep, x);
    var r := rep[x];
    assert Placed(parent, rank, rep, r);
    ClassSize(rep, r);
    Pow2Monotone(rank[x], rank[r]);
  }

  lemma RootOf(parent: seq<nat>, rank: seq<nat>, rep: seq<nat>, x: nat)
    requires Forest(parent, rank, rep) && x < |rep|
    ensures rep[x] < |rep| && rep[rep[x]] == rep[x] && rep[x] in Roots(rep)
  {
    assert Placed(parent, rank, rep, x);
    assert Placed(parent, rank, rep, rep[x]);
  }

  /** Redirecting x to its root changes nothing but the path. */
  lemma Compress(parent: seq<nat>, rank: seq<nat>, rep: seq<nat>, x: nat)
    requires Forest(parent, rank, rep) && x < |rep| && parent[x] != x
    ensures Forest(parent[x := rep[x]], rank, rep)
  {
    var p := parent[x := rep[x]];
    assert Placed(parent, rank, rep, x) && Placed(parent, rank, rep, parent[x]);
    assert Placed(parent, rank, rep, rep[x]);
    forall y | 0 <= y < |rep|
      ensures Placed(p, rank, rep, y)
    {
      assert Placed(parent, rank, rep, y);
    }
  }

  /** rep after root b has been hung below root a. */
  ghost function Merged(rep: seq<nat>, a: nat, b: nat): (r: seq<nat>)
    ensures |r| == |rep| && forall x :: 0 <= x < |rep| ==> r[x] == if rep[x] == b then a else rep[x]
  {
    seq(|rep|, x requires 0 <= x < |rep| => if rep[x] == b then a else rep[x])
  }

  lemma MergedClass(rep: seq<nat>, a: nat, b: nat)
    requires a != b
    ensures |Class(Merged(rep, a, b), a)| == |Class(rep, a)| + |Class(rep, b)|
    ensures forall x :: x != a && x != b ==> Class(Merged(rep, a, b), x) == Class(rep, x)
  {
    assert Class(Merged(rep, a, b), a) == Class(rep, a) + Class(rep, b);
    assert Class(rep, a) !! Class(rep, b);
  }

  lemma MergedRoots(rep: seq<nat>, a: nat, b: nat)
    requires a < |rep| && b < |rep| && a != b && rep[a] == a && rep[b] == b
    ensures |Roots(Merged(rep, a, b))| == |Roots(rep)| - 1
  {
    assert Roots(Merged(rep, a, b)) == Roots(rep) - {b};
  }

  /** Hanging the root of lower rank below the other, and raising the rank of equals. */
  lemma HangRoot(parent: seq<nat>, rank: seq<nat>, rep: seq<nat>, a: nat, b: nat)
    requires Forest(parent, rank, rep) && a < |rep| && b < |rep| && a != b && rep[a] == a && rep[b] == b
    requires rank[a] >= rank[b]
    ensures Forest(parent[b := a], if rank[a] == rank[b] then rank[a := rank[a] + 1] else rank, Merged(rep, a, b))
  {
    var p, k, m := parent[b := a], if rank[a] == rank[b] then rank[a := rank[a] + 1] else rank, Merged(rep, a, b);
    MergedClass(rep, a, b);
    assert Placed(parent, rank, rep, a) && Placed(parent, rank, rep, b);
    forall x | 0 <= x < |rep|
      ensures Placed(p, k, m, x)
    {
      assert Placed(parent, rank, rep, x);
      assert Placed(parent, rank, rep, rep[x]);
    }
    forall x | 0 <= x < |rep| && m[x] == x
      ensures Pow2(k[x]) <= |Class(m, x)|
    {
    }
  }

  /** Uniting x and y is what merging their classes means for the equivalence. */
  lemma UnionClassifies(rep: seq<nat>, pairs: seq<(nat, nat)>, x: nat, y: nat, a: nat, b: nat)
    requires Classifies(rep, pairs) && x < |rep| && y < |rep|
    requires (a == rep[x] && b == rep[y]) || (a == rep[y] && b == rep[x])
    ensures Classifies(Merged(rep, a, b), pairs + [(x, y)])
  {
    var m, ps := Merged(rep, a, b), pairs + [(x, y)];
    EquivalentNew(pairs, x, y);
    EquivalentSymmetric(ps, x, y);
    forall u, v | 0 <= u < |rep| && 0 <= v < |rep| && m[u] == m[v]
      ensures Equivalent(ps, u, v)
    {
      if rep[u] == rep[v] {
        EquivalentGrows(pairs, (x, y), u, v);
      } else {
        var p, q := if rep[u] == rep[x] then x else y, if rep[u] == rep[x] then y else x;
        EquivalentGrows(pairs, (x, y), u, p);
        EquivalentGrows(pairs, (x, y), q, v);
        EquivalentTransitive(ps, u, p, q);
        EquivalentTransitive(ps, u, q, v);
      }
    }
  }

  lemma SameClassified(rep: seq<nat>, pairs: seq<(nat, nat)>, x: nat, y: nat)
    requires Classifies(rep, pairs) && x < |rep| && y < |rep| && rep[x] == rep[y]
    ensures Classifies(rep, pairs + [(x, y)])
  {
    forall u, v | 0 <= u < |rep| && 0 <= v < |rep| && rep[u] == rep[v]
      ensures Equivalent(pairs + [(x, y)], u, v)
    {
      EquivalentGrows(pairs, (x, y), u, v);
    }
  }

  // ---- counting the classes ----------------------------------------------------------------

  /** One element out of every class. */
  ghost predicate Transversal(pairs: seq<(nat, nat)>, n: nat, s: set<nat>) {
    && (forall x :: x in s ==> x < n)
    && (forall x, y :: x in s && y in s && x != y ==> !Equivalent(pairs, x, y))
    && (forall x :: 0 <= x < n ==> Covered(pairs, s, x))
  }

  ghost predicate Covered(pairs: seq<(nat, nat)>, s: set<nat>, x: nat) {
    exists y :: y in s && Equivalent(pairs, x, y)
  }

  ghost function Image(s: set<nat>, rep: seq<nat>): set<nat>
    requires forall x :: x in s ==> x < |rep|
  {
    set x | x in s :: rep[x]
  }

  lemma {:induction false} ImageSize(s: set<nat>, rep: seq<nat>)
    requires forall x :: x in s ==> x < |rep|
    requires forall x, y :: x in s && y in s && x != y ==> rep[x] != rep[y]
    ensures |Image(s, rep)| == |s|
  {
    if s != {} {
      var x :| x in s;
      ImageSize(s - {x}, rep);
      assert Image(s, rep) == Image(s - {x}, rep) + {rep[x]};
    }
  }

  /** However one picks one element out of every class, there are as many as roots. */
  lemma RootsCountClasses(rep: seq<nat>, pairs: seq<(nat, nat)>, s: set<nat>)
    requires Classifies(rep, pairs) && Transversal(pairs, |rep|, s)
    requires forall x :: 0 <= x < |rep| ==> rep[x] < |rep| && rep[rep[x]] == rep[x]
    ensures |s| == |Roots(rep)|
  {
    forall x, y | x in s && y in s && x != y
      ensures rep[x] != rep[y]
    {
      ClassIff(rep, pairs, x, y);
    }
    forall r | r in Roots(rep)
      ensures r in Image(s, rep)
    {
      assert Covered(pairs, s, r);
      var y :| y in s && Equivalent(pairs, r, y);
      ClassIff(rep, pairs, r, y);
      assert rep[y] == r;
    }
    assert Image(s, rep) == Roots(rep);
    ImageSize(s, rep);
  }

  /** k steps up the parent links. */
  ghost function Above(parent: seq<nat>, x: nat, k: nat): (a: nat)
    requires x < |parent| && forall y :: 0 <= y < |parent| ==> parent[y] < |parent|
    ensures a < |parent|
    decreases k
  {
    if k == 0 then x else Above(parent, parent[x], k - 1)
  }

  /** Every element that parent links lead to from x. */
  ghost predicate OnPath(parent: seq<nat>, x: nat, y: nat)
    requires x < |parent| && forall y :: 0 <= y < |parent| ==> parent[y] < |parent|
  {
    exists k: nat :: Above(parent, x, k) == y
  }

  lemma OnPathStep(parent: seq<nat>, x: nat, y: nat)
    requires x < |parent| && forall y :: 0 <= y < |parent| ==> parent[y] < |parent|
    ensures OnPath(parent, x, y) <==> x == y || OnPath(parent, parent[x], y)
  {
    if OnPath(parent, x, y) {
      var k: nat :| Above(parent, x, k) == y;
      if k > 0 { assert Above(parent, parent[x], k - 1) == y; }
    }
    if x == y { assert Above(parent, x, 0) == y; }
    if OnPath(parent, parent[x], y) {
      var k: nat :| Above(parent, parent[x], k) == y;
      assert Above(parent, x, k + 1) == y;
    }
  }

  /** Ranks rise on the way up, so that as many steps as there are ranks between x and its
      root lead to the root, and these are at most log2 of the number of elements. */
  lemma {:induction false} PathBound(parent: seq<nat>, rank: seq<nat>, rep: seq<nat>, x: nat, k: nat)
    requires Forest(parent, rank, rep) && x < |rep| && rep[x] < |rep| && rank[x] + k >= rank[rep[x]]
    ensures forall y :: 0 <= y < |parent| ==> parent[y] < |parent|
    ensures Above(parent, x, k) == rep[x]
    ensures Pow2(rank[rep[x]]) <= |rep|
    decreases k
  {
    forall y | 0 <= y < |parent|
      ensures parent[y] < |parent|
    {
      assert Placed(parent, rank, rep, y);
    }
    assert Placed(parent, rank, rep, x);
    RankBound(parent, rank, rep, rep[x]);
    if parent[x] == x {
      RootStays(parent, x, k);
    } else {
      assert Placed(parent, rank, rep, parent[x]);
      PathBound(parent, rank, rep, parent[x], k - 1);
    }
  }

  /** The roots are one element out of every class. */
  lemma RootsAreTransversal(rep: seq<nat>, pairs: seq<(nat, nat)>)
    requires Classifies(rep, pairs)
    requires forall x :: 0 <= x < |rep| ==> rep[x] < |rep| && rep[rep[x]] == rep[x]
    ensures Transversal(pairs, |rep|, Roots(rep))
  {
    forall x, y | x in Roots(rep) && y in Roots(rep) && x != y
      ensures !Equivalent(pairs, x, y)
    {
      ClassIff(rep, pairs, x, y);
    }
    forall x | 0 <= x < |rep|
      ensures Covered(pairs, Roots(rep), x)
    {
      ClassIff(rep, pairs, x, rep[x]);
      assert rep[x] in Roots(rep);
    }
  }

  /** The root of lower rank hangs below the other one, that of y if the ranks are equal, and
      only then a rank rises. */
  ghost predicate ByRank(rep: seq<nat>, k: seq<nat>, rep': seq<nat>, k': seq<nat>, x: nat, y: nat) {
    && |rep| == |k| == |rep'| == |k'| && x < |rep| && y < |rep| && rep[x] < |k| && rep[y] < |k|
    && var a, b := rep[x], rep[y];
      if a == b then rep' == rep && k' == k
      else
        var up, down := if k[a] < k[b] then b else a, if k[a] < k[b] then a else b;
        && (forall z :: 0 <= z < |rep| ==> rep'[z] == if rep[z] == down then up else rep[z])
        && k' == k[up := k[up] + if k[a] == k[b] then 1 else 0]
  }

  lemma StaysByRank(rep: seq<nat>, k: seq<nat>, x: nat, y: nat)
    requires |rep| == |k| && x < |rep| && y < |rep| && rep[x] == rep[y] < |k|
    ensures ByRank(rep, k, rep, k, x, y)
  {
  }

  lemma MergedByRank(rep: seq<nat>, k: seq<nat>, x: nat, y: nat, up: nat, down: nat)
    requires |rep| == |k| && x < |rep| && y < |rep| && rep[x] < |k| && rep[y] < |k| && rep[x] != rep[y]
    requires (up, down) == if k[rep[x]] < k[rep[y]] then (rep[y], rep[x]) else (rep[x], rep[y])
    ensures ByRank(rep, k, Merged(rep, up, down), if k[up] == k[down] then k[up := k[up] + 1] else k, x, y)
  {
  }

  lemma AloneForest(parent: seq<nat>, rank: seq<nat>, rep: seq<nat>)
    requires |parent| == |rank| == |rep|
    requires forall x :: 0 <= x < |rep| ==> parent[x] == rep[x] == x && rank[x] == 0
    ensures Forest(parent, rank, rep)
  {
    forall x | 0 <= x < |rep|
      ensures Pow2(rank[x]) <= |Class(rep, x)|
    {
      assert Class(rep, x) == {x};
    }
  }

  lemma AloneClasses(rep: seq<nat>)
    requires forall x :: 0 <= x < |rep| ==> rep[x] == x
    ensures Classifies(rep, [])
  {
    hide Equivalent;
    forall a | 0 <= a < |rep|
      ensures Equivalent([], a, a)
    {
      EquivalentReflexive([], a);
    }
  }

  /** At first every element is a class of its own. */
  lemma Alone(parent: seq<nat>, rank: seq<nat>, rep: seq<nat>, n: nat)
    requires |parent| == |rank| == |rep| == n
    requires forall x :: 0 <= x < n ==> parent[x] == rep[x] == x && rank[x] == 0
    ensures Forest(parent, rank, rep) && Classifies(rep, []) && |Roots(rep)| == n
  {
    hide Forest, Classifies;
    AloneForest(parent, rank, rep);
    AloneClasses(rep);
    assert Roots(rep) == UpTo(n);
  }

  class UnionFind {
    const n: nat
    const parent: array<nat>
    const rank: array<nat>
    var numComponents: nat
    ghost var rep: seq<nat>
    ghost var pairs: seq<(nat, nat)>

    ghost predicate Valid()
      reads this, parent, rank
    {
      && parent.Length == rank.Length == |rep| == n && parent != rank
      && Forest(parent[..], rank[..], rep)
      && Classifies(rep, pairs)
      && numComponents == |Roots(rep)|
    }

    constructor (n: nat)
      ensures Valid() && fresh(parent) && fresh(rank)
      ensures this.n == n && pairs == [] && forall x :: 0 <= x < n ==> rep[x] == x && rank[x] == 0
    {
      this.n := n;
      parent := new nat[n](i => i);
      rank := new nat[n](_ => 0);
      numComponents := n;
      rep := seq(n, i requires 0 <= i < n => i);
      pairs := [];
      new;
      Alone(parent[..], rank[..], rep, n);
    }

    /** The root of x; afterwards everything on the way hangs directly below it, and
        nothing else has moved. */
    method Find(x: nat) returns (r: nat)
      requires Valid() && x < n
      modifies parent
      ensures Valid() && r == rep[x]
      ensures forall y :: 0 <= y < n ==> old(parent[y]) < n
      ensures forall y :: 0 <= y < n ==>
        parent[y] == if OnPath(old(parent[..]), x, y) then r else old(parent[y])
      decreases n - rank[x]
    {
      ghost var p0, k := parent[..], rank[..];
      assert Placed(p0, k, rep, x);
      forall y | 0 <= y < n
        ensures p0[y] < n
      {
        assert Placed(p0, k, rep, y);
      }
      RankBound(p0, k, rep, p0[x]);
      if parent[x] != x {
        var top := Find(parent[x]);
        ghost var p1 := parent[..];
        assert Placed(p1, k, rep, x);
        parent[x] := top;
        assert parent[..] == p1[x := top];
        if p1[x] != x { Compress(p1, k, rep, x); }
        forall y | 0 <= y < n
          ensures parent[y] == if OnPath(p0, x, y) then top else p0[y]
        {
          OnPathStep(p0, x, y);
        }
      } else {
        forall y | 0 <= y < n
          ensures parent[y] == if OnPath(p0, x, y) then x else p0[y]
        {
          RootPath(p0, x, y);
        }
      }
      return parent[x];
    }

    /** Unites the classes of x and y; says whether they were different. The root of lower rank
        gives way, and that of y if the ranks are equal; only then a rank rises. */
    method Union(x: nat, y: nat) returns (united: bool)
      requires Valid() && x < n && y < n
      modifies this, parent, rank
      ensures Valid()
      ensures pairs == old(pairs) + [(x, y)]
      ensures united <==> !Equivalent(old(pairs), x, y)
      ensures numComponents == if united then old(numComponents) - 1 else old(numComponents)
      ensures ByRank(old(rep), old(rank[..]), rep, rank[..], x, y)
    {
      hide Forest, Classifies, Equivalent, OnPath, ByRank;
      var rx := Find(x);
      var ry := Find(y);
      ClassIff(rep, pairs, x, y);
      RootOf(parent[..], rank[..], rep, x);
      RootOf(parent[..], rank[..], rep, y);
      if rx == ry {
        SameClassified(rep, pairs, x, y);
        StaysByRank(rep, rank[..], x, y);
        pairs := pairs + [(x, y)];
        return false;
      }
      ghost var p, k, rep0, pairs0 := parent[..], rank[..], rep, pairs;
      assert |p| == n && |k| == n && |rep| == n;
      if rank[rx] < rank[ry] { rx, ry := ry, rx; }
      HangRoot(p, k, rep, rx, ry);
      UnionClassifies(rep, pairs, x, y, rx, ry);
      MergedRoots(rep, rx, ry);
      parent[ry] := rx;
      if rank[rx] == rank[ry] { rank[rx] := rank[rx] + 1; }
      assert parent[..] == p[ry := rx];
      assert rank[..] == if k[rx] == k[ry] then k[rx := k[rx] + 1] else k;
      assert rx in Roots(rep);
      numComponents := numComponents - 1;
      MergedByRank(rep0, k, x, y, rx, ry);
      rep := Merged(rep, rx, ry);
      pairs := pairs + [(x, y)];
      return true;
    }

    /** Whether x and y are related by the united pairs. */
    method Connected(x: nat, y: nat) returns (same: bool)
      requires Valid() && x < n && y < n
      modifies parent
      ensures Valid()
      ensures same <==> Equivalent(pairs, x, y)
    {
      var rx := Find(x);
      var ry := Find(y);
      ClassIff(rep, pairs, x, y);
      return rx == ry;
    }

    /** The component count is the number of classes, however they are counted. */
    lemma ComponentsAreClasses(s: set<nat>)
      requires Valid()
      ensures Transversal(pairs, n, Roots(rep))
      ensures Transversal(pairs, n, s) ==> numComponents == |s|
    {
      forall x | 0 <= x < n
        ensures rep[x] < n && rep[rep[x]] == rep[x]
      {
        RootOf(parent[..], rank[..], rep, x);
      }
      RootsAreTransversal(rep, pairs);
      if Transversal(pairs, n, s) { RootsCountClasses(rep, pairs, s); }
    }
  }

  lemma {:induction false} RootPath(parent: seq<nat>, x: nat, y: nat)
    requires x < |parent| && parent[x] == x && forall y :: 0 <= y < |parent| ==> parent[y] < |parent|
    ensures OnPath(parent, x, y) <==> x == y
  {
    if OnPath(parent, x, y) {
      var k: nat :| Above(parent, x, k) == y;
      RootStays(parent, x, k);
    }
    OnPathStep(parent, x, y);
  }

  lemma {:induction false} RootStays(parent: seq<nat>, x: nat, k: nat)
    requires x < |parent| && parent[x] == x && forall y :: 0 <= y < |parent| ==> parent[y] < |parent|
    ensures Above(parent, x, k) == x
  {
    if k > 0 { RootStays(parent, x, k - 1); }
  }

  /** A structure over 0..n-1 in which exactly the given edges have been united. */
  method FromEdges(n: nat, edges: seq<(nat, nat)>) returns (uf: UnionFind)
    requires forall i :: 0 <= i < |edges| ==> edges[i].0 < n && edges[i].1 < n
    ensures fresh(uf) && uf.Valid() && uf.n == n && uf.pairs == edges
  {
    uf := new UnionFind(n);
    for i := 0 to |edges|
      invariant fresh(uf) && fresh(uf.parent) && fresh(uf.rank)
      invariant uf.Valid() && uf.n == n && uf.pairs == edges[..i]
    {
      var _ := uf.Union(edges[i].0, edges[i].1);
    }
  }
}
