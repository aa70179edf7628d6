/** Segment tree with lazy range addition, embedded in two arrays of 4n cells. Node k
    has children 2k and 2k+1; lazy[k] is an addition still owed to everything below k.
    Values reads the plain sequence that a node stands for off the two arrays. */
module SegmentTrees {

  ghost function Sum(a: seq<int>): int {
    if a == [] then 0 else a[0] + Sum(a[1..])
  }

  lemma {:induction false} SumConcat(a: seq<int>, b: seq<int>)
    ensures Sum(a + b) == Sum(a) + Sum(b)
  {
    if a == [] {
      assert a + b == b;
    } else {
      assert (a + b)[1..] == a[1..] + b;
      SumConcat(a[1..], b);
    }
  }

  /** The plain array after adding d to every position in [l, r]; a starts at position lo. */
  ghost function Added(a: seq<int>, lo: int, l: int, r: int, d: int): (b: seq<int>)
    ensures |b| == |a|
    ensures forall i :: 0 <= i < |a| ==> b[i] == if l <= lo + i <= r then a[i] + d else a[i]
  {
    seq(|a|, i requires 0 <= i < |a| => if l <= lo + i <= r then a[i] + d else a[i])
  }

  /** The sum of the plain array over the positions in [l, r]. */
  ghost function SumOver(a: seq<int>, lo: int, l: int, r: int): int {
    if a == [] then 0
    else (if l <= lo <= r then a[0] else 0) + SumOver(a[1..], lo + 1, l, r)
  }

  lemma {:induction false} SumOverConcat(a: seq<int>, b: seq<int>, lo: int, l: int, r: int)
    ensures SumOver(a + b, lo, l, r) == SumOver(a, lo, l, r) + SumOver(b, lo + |a|, l, r)
  {
    if a == [] {
      assert a + b == b;
    } else {
      assert (a + b)[1..] == a[1..] + b;
      SumOverConcat(a[1..], b, lo + 1, l, r);
    }
  }

  lemma {:induction false} SumOverAll(a: seq<int>, lo: int, l: int, r: int)
    requires l <= lo && lo + |a| - 1 <= r
    ensures SumOver(a, lo, l, r) == Sum(a)
  {
    if a != [] { SumOverAll(a[1..], lo + 1, l, r); }
  }

  lemma {:induction false} SumOverNone(a: seq<int>, lo: int, l: int, r: int)
    requires r < lo || lo + |a| - 1 < l
    ensures SumOver(a, lo, l, r) == 0
  {
    if a != [] { SumOverNone(a[1..], lo + 1, l, r); }
  }

  /** The same sum as a slice of the plain array. */
  lemma SumOverSlice(a: seq<int>, l: nat, r: nat)
    requires l <= r < |a|
    ensures SumOver(a, 0, l, r) == Sum(a[l..r + 1])
  {
    assert a == a[..l] + a[l..];
    assert a[l..] == a[l..r + 1] + a[r + 1..];
    SumOverConcat(a[..l], a[l..], 0, l, r);
    SumOverConcat(a[l..r + 1], a[r + 1..], l, l, r);
    SumOverNone(a[..l], 0, l, r);
    SumOverNone(a[r + 1..], r + 1, l, r);
    SumOverAll(a[l..r + 1], l, l, r);
  }

  /** d added everywhere. */
  ghost function Raised(a: seq<int>, d: int): (b: seq<int>)
    ensures |b| == |a| && forall i :: 0 <= i < |a| ==> b[i] == a[i] + d
  {
    seq(|a|, i requires 0 <= i < |a| => a[i] + d)
  }

  lemma RaisedTwice(a: seq<int>, x: int, y: int)
    ensures Raised(Raised(a, x), y) == Raised(a, x + y)
  {
  }

  lemma RaisedConcat(a: seq<int>, b: seq<int>, d: int)
    ensures Raised(a + b, d) == Raised(a, d) + Raised(b, d)
  {
  }

  lemma RaisedZero(a: seq<int>)
    ensures Raised(a, 0) == a
  {
  }

  lemma {:induction false} SumRaised(a: seq<int>, d: int)
    ensures Sum(Raised(a, d)) == Sum(a) + d * |a|
  {
    if a != [] {
      assert Raised(a, d)[1..] == Raised(a[1..], d);
      SumRaised(a[1..], d);
    }
  }

  lemma SumRaisedBy(a: seq<int>, d: int, w: int)
    requires |a| == w
    ensures Sum(Raised(a, d)) == Sum(a) + d * w
  {
    SumRaised(a, d);
  }

  // ---- node numbers ------------------------------------------------------------------------

  /** A node k over w + 1 positions, and all nodes below it, have numbers below 4n. */
  ghost predicate Room(k: int, w: nat, n: int)
    decreases w
  {
    1 <= k < 4 * n && (w > 0 ==> Room(2 * k, w / 2, n) && Room(2 * k + 1, (w - 1) / 2, n))
  }

  /** Numbers double where widths halve. */
  lemma {:induction false} RoomFor(k: int, w: nat, n: int)
    requires 1 <= k < 4 * n && (k + 1) * w <= 2 * (n - 1)
    ensures Room(k, w, n)
    decreases w
  {
    if w > 0 {
      RoomBelow(k, w, n);
      Twice(k + 1, w / 2, w, 2 * k + 1);
      Twice(k + 1, (w - 1) / 2, w, 2 * k + 2);
      RoomFor(2 * k, w / 2, n);
      RoomFor(2 * k + 1, (w - 1) / 2, n);
    }
  }

  lemma RoomBelow(k: int, w: nat, n: int)
    requires 1 <= k && w > 0 && (k + 1) * w <= 2 * (n - 1)
    ensures 2 * k + 1 < 4 * n
  {
    Scale(k + 1, 1, w);
  }

  /** Half the width for at most twice the number. */
  lemma Twice(c: nat, x: nat, w: nat, e: nat)
    requires 2 * x <= w && e <= 2 * c
    ensures e * x <= c * w
  {
    Scale(x, e, 2 * c);
    Scale(c, 2 * x, w);
    assert x * (2 * c) == c * (2 * x) && x * e == e * x;
  }

  /** Four cells for every position are enough. */
  lemma RootFits(n: int)
    requires n >= 1
    ensures Fits(1, 0, n - 1, n)
  {
    RoomFor(1, n - 1, n);
  }

  lemma Scale(c: nat, x: int, y: int)
    requires x <= y
    ensures c * x <= c * y
  {
  }

  /** Node k may stand for the positions lo..hi of an array of n. */
  ghost predicate Fits(k: int, lo: int, hi: int, n: int) {
    0 <= lo <= hi < n && Room(k, hi - lo, n)
  }

  function Mid(lo: nat, hi: nat): nat {
    (lo + hi) / 2
  }

  lemma FitsChildren(k: int, lo: int, hi: int, n: int)
    requires Fits(k, lo, hi, n) && lo < hi
    ensures lo <= Mid(lo, hi) < hi && k >= 1 && 2 * k + 1 < 4 * n
    ensures Fits(2 * k, lo, Mid(lo, hi), n) && Fits(2 * k + 1, Mid(lo, hi) + 1, hi, n)
  {
    assert Room(2 * k + 1, (hi - lo - 1) / 2, n);
    assert Mid(lo, hi) - lo == (hi - lo) / 2;
    assert hi - (Mid(lo, hi) + 1) == (hi - lo - 1) / 2;
  }

  /** j is k or below it. */
  ghost predicate Below(k: nat, j: nat)
    decreases j
  {
    j == k || (j > k && j > 0 && Below(k, j / 2))
  }

  lemma {:induction false} BelowChildren(k: nat, j: nat)
    requires k > 0
    ensures Below(2 * k, j) || Below(2 * k + 1, j) ==> Below(k, j) && j != k
    ensures !(Below(2 * k, j) && Below(2 * k + 1, j))
    decreases j
  {
    if j > k { BelowChildren(k, j / 2); }
  }

  // ---- what a node stands for --------------------------------------------------------------

  ghost predicate Cells(t: seq<int>, z: seq<int>, k: int, lo: int, hi: int, n: int) {
    |t| == |z| == 4 * n && Fits(k, lo, hi, n)
  }

  /** The plain values at lo..hi, up to what is owed from above k. */
  ghost function Values(t: seq<int>, z: seq<int>, k: int, lo: int, hi: int, n: int): (a: seq<int>)
    requires Cells(t, z, k, lo, hi, n)
    ensures |a| == hi - lo + 1
    decreases hi - lo
  {
    if lo == hi then [t[k]]
    else
      FitsChildren(k, lo, hi, n);
      Raised(Values(t, z, 2 * k, lo, Mid(lo, hi), n) + Values(t, z, 2 * k + 1, Mid(lo, hi) + 1, hi, n), z[k])
  }

  /** Every node holds the sum of what it stands for. */
  ghost predicate Summed(t: seq<int>, z: seq<int>, k: int, lo: int, hi: int, n: int)
    requires Cells(t, z, k, lo, hi, n)
    decreases hi - lo
  {
    && t[k] == Sum(Values(t, z, k, lo, hi, n))
    && if lo == hi then true else
      FitsChildren(k, lo, hi, n);
      Summed(t, z, 2 * k, lo, Mid(lo, hi), n) && Summed(t, z, 2 * k + 1, Mid(lo, hi) + 1, hi, n)
  }

  ghost predicate SameBelow(t: seq<int>, z: seq<int>, u: seq<int>, y: seq<int>, k: nat) {
    |t| == |z| == |u| == |y| && forall j: nat :: j < |t| && Below(k, j) ==> t[j] == u[j] && z[j] == y[j]
  }

  lemma SameBelowChildren(t: seq<int>, z: seq<int>, u: seq<int>, y: seq<int>, k: nat)
    requires SameBelow(t, z, u, y, k) && k > 0
    ensures SameBelow(t, z, u, y, 2 * k) && SameBelow(t, z, u, y, 2 * k + 1)
  {
    forall j: nat | j < |t| && (Below(2 * k, j) || Below(2 * k + 1, j))
      ensures t[j] == u[j] && z[j] == y[j]
    {
      BelowChildren(k, j);
    }
  }

  lemma SameTop(t: seq<int>, z: seq<int>, u: seq<int>, y: seq<int>, k: nat)
    requires SameBelow(t, z, u, y, k) && k < |t|
    ensures |t| == |z| == |u| == |y| && t[k] == u[k] && z[k] == y[k]
  {
    assert Below(k, k);
  }

  /** A node means what the cells below it say, whatever happens elsewhere. */
  lemma {:induction false} Frame(t: seq<int>, z: seq<int>, u: seq<int>, y: seq<int>, k: int, lo: int, hi: int, n: int)
    requires Cells(t, z, k, lo, hi, n) && SameBelow(t, z, u, y, k)
    ensures Values(u, y, k, lo, hi, n) == Values(t, z, k, lo, hi, n)
    ensures Summed(u, y, k, lo, hi, n) == Summed(t, z, k, lo, hi, n)
    decreases hi - lo
  {
    hide Fits, Room, Below, SameBelow, Sum, Raised;
    FitsBounds(k, lo, hi, n);
    SameTop(t, z, u, y, k);
    if lo < hi {
      FitsChildren(k, lo, hi, n);
      SameBelowChildren(t, z, u, y, k);
      Frame(t, z, u, y, 2 * k, lo, Mid(lo, hi), n);
      Frame(t, z, u, y, 2 * k + 1, Mid(lo, hi) + 1, hi, n);
    }
  }

  lemma Unfold(t: seq<int>, z: seq<int>, k: int, lo: int, hi: int, n: int)
    requires Cells(t, z, k, lo, hi, n) && lo < hi
    ensures lo <= Mid(lo, hi) < hi
    ensures Fits(2 * k, lo, Mid(lo, hi), n) && Fits(2 * k + 1, Mid(lo, hi) + 1, hi, n)
    ensures Values(t, z, k, lo, hi, n)
      == Raised(Values(t, z, 2 * k, lo, Mid(lo, hi), n) + Values(t, z, 2 * k + 1, Mid(lo, hi) + 1, hi, n), z[k])
  {
    FitsChildren(k, lo, hi, n);
  }

  /** Raising the tag of k by d, and its sum accordingly, adds d to all it stands for. */
  lemma TaggedSum(t: seq<int>, z: seq<int>, u: seq<int>, y: seq<int>, k: int, lo: int, hi: int, n: int, d: int)
    requires Cells(t, z, k, lo, hi, n) && Summed(t, z, k, lo, hi, n)
    requires u == t[k := Sum(Raised(Values(t, z, k, lo, hi, n), d))] && y == z[k := z[k] + d]
    ensures Values(u, y, k, lo, hi, n) == Raised(Values(t, z, k, lo, hi, n), d)
    ensures Summed(u, y, k, lo, hi, n)
  {
    hide Values, Summed, Below, Fits, Local, SameBelow, Room, Mid, Raised, Added, Sum, SumOver;
    FitsBounds(k, lo, hi, n);
    if lo < hi {
      HandedDown(t, z, k, lo, hi, n);
      Unfold(u, y, k, lo, hi, n);
      var mid := Mid(lo, hi);
      SameApart(t, z, u, y, k);
      Frame(t, z, u, y, 2 * k, lo, mid, n);
      Frame(t, z, u, y, 2 * k + 1, mid + 1, hi, n);
      RaisedTwice(Values(t, z, 2 * k, lo, mid, n) + Values(t, z, 2 * k + 1, mid + 1, hi, n), z[k], d);
      SummedFrom(u, y, k, lo, hi, n);
    } else {
      TaggedLeaf(t, z, u, y, k, lo, n, d);
    }
  }

  lemma TaggedLeaf(t: seq<int>, z: seq<int>, u: seq<int>, y: seq<int>, k: int, lo: int, n: int, d: int)
    requires Cells(t, z, k, lo, lo, n)
    requires u == t[k := Sum(Raised(Values(t, z, k, lo, lo, n), d))] && y == z[k := z[k] + d]
    ensures Values(u, y, k, lo, lo, n) == Raised(Values(t, z, k, lo, lo, n), d)
    ensures Summed(u, y, k, lo, lo, n)
  {
    assert Raised([t[k]], d) == [t[k] + d];
    assert Sum([t[k] + d]) == t[k] + d;
  }

  lemma FitsBounds(k: int, lo: int, hi: int, n: int)
    requires Fits(k, lo, hi, n)
    ensures 1 <= k < 4 * n && 0 <= lo <= hi < n
  {
  }

  /** Adding d to the tag of k and d times the width to its sum adds d to all it stands for. */
  lemma Tagged(t: seq<int>, z: seq<int>, u: seq<int>, y: seq<int>, k: int, lo: int, hi: int, n: int, d: int)
    requires Cells(t, z, k, lo, hi, n) && Summed(t, z, k, lo, hi, n)
    requires u == t[k := t[k] + d * (hi - lo + 1)] && y == z[k := z[k] + d]
    ensures Values(u, y, k, lo, hi, n) == Raised(Values(t, z, k, lo, hi, n), d)
    ensures Summed(u, y, k, lo, hi, n)
  {
    hide Values, Summed, Below, Fits, Local, SameBelow, Room, Mid, Raised, Added, Sum, SumOver;
    FitsBounds(k, lo, hi, n);
    SummedHere(t, z, k, lo, hi, n);
    SumRaisedBy(Values(t, z, k, lo, hi, n), d, hi - lo + 1);
    TaggedSum(t, z, u, y, k, lo, hi, n, d);
  }

  /** With nothing owed, a node is its two children side by side. */
  lemma Parted(t: seq<int>, z: seq<int>, k: int, lo: int, hi: int, n: int)
    requires Cells(t, z, k, lo, hi, n) && lo < hi && z[k] == 0
    ensures lo <= Mid(lo, hi) < hi
    ensures Fits(2 * k, lo, Mid(lo, hi), n) && Fits(2 * k + 1, Mid(lo, hi) + 1, hi, n)
    ensures Values(t, z, k, lo, hi, n)
      == Values(t, z, 2 * k, lo, Mid(lo, hi), n) + Values(t, z, 2 * k + 1, Mid(lo, hi) + 1, hi, n)
  {
    FitsChildren(k, lo, hi, n);
    var a := Values(t, z, 2 * k, lo, Mid(lo, hi), n) + Values(t, z, 2 * k + 1, Mid(lo, hi) + 1, hi, n);
    assert Raised(a, 0) == a;
  }

  lemma LocalChain(t: seq<int>, z: seq<int>, u: seq<int>, y: seq<int>, v: seq<int>, x: seq<int>, k: nat)
    requires Local(t, z, u, y, k) && Local(u, y, v, x, k)
    ensures Local(t, z, v, x, k)
  {
  }

  lemma LocalHere(t: seq<int>, z: seq<int>, u: seq<int>, y: seq<int>, k: nat)
    requires k < |t| == |z| == |u| == |y|
    requires (u == t || u == t[k := u[k]]) && (y == z || y == z[k := y[k]])
    ensures Local(t, z, u, y, k)
  {
    assert Below(k, k);
  }

  /** Only cells below k have changed between (t, z) and (u, y). */
  ghost predicate Local(t: seq<int>, z: seq<int>, u: seq<int>, y: seq<int>, k: nat) {
    |t| == |z| == |u| == |y| && forall j: nat :: j < |t| && !Below(k, j) ==> t[j] == u[j] && z[j] == y[j]
  }

  lemma LocalUp(t: seq<int>, z: seq<int>, u: seq<int>, y: seq<int>, k: nat)
    requires k > 0 && (Local(t, z, u, y, 2 * k) || Local(t, z, u, y, 2 * k + 1))
    ensures Local(t, z, u, y, k)
    ensures k < |t| ==> t[k] == u[k] && z[k] == y[k]
    ensures Local(t, z, u, y, 2 * k) ==> SameBelow(t, z, u, y, 2 * k + 1)
    ensures Local(t, z, u, y, 2 * k + 1) ==> SameBelow(t, z, u, y, 2 * k)
  {
    BelowChildren(k, k);
    forall j: nat | j < |t|
      ensures Below(2 * k, j) || Below(2 * k + 1, j) ==> Below(k, j)
      ensures !(Below(2 * k, j) && Below(2 * k + 1, j))
    {
      BelowChildren(k, j);
    }
  }

  // ---- the operations ----------------------------------------------------------------------

  lemma BuiltLeaf(t: seq<int>, z: seq<int>, k: int, lo: int, n: int)
    requires Cells(t, z, k, lo, lo, n)
    ensures Values(t, z, k, lo, lo, n) == [t[k]] && Summed(t, z, k, lo, lo, n)
  {
    assert Sum([t[k]]) == t[k];
  }

  method Build(tree: array<int>, lazy: array<int>, arr: seq<int>, k: int, lo: int, hi: int)
    requires tree != lazy && tree.Length == lazy.Length == 4 * |arr| && Fits(k, lo, hi, |arr|)
    modifies tree, lazy
    ensures Values(tree[..], lazy[..], k, lo, hi, |arr|) == arr[lo..hi + 1]
    ensures Summed(tree[..], lazy[..], k, lo, hi, |arr|)
    ensures Local(old(tree[..]), old(lazy[..]), tree[..], lazy[..], k)
    decreases hi - lo
  {
    hide Values, Summed, Below, Fits, Local, SameBelow, Room, Mid, Raised, Added, Sum, SumOver;
    FitsBounds(k, lo, hi, |arr|);
    ghost var n, t0, z0 := |arr|, tree[..], lazy[..];
    lazy[k] := 0;
    if lo == hi {
      tree[k] := arr[lo];
      LocalHere(t0, z0, tree[..], lazy[..], k);
      BuiltLeaf(tree[..], lazy[..], k, lo, n);
      return;
    }
    LocalHere(t0, z0, tree[..], lazy[..], k);
    var mid := Mid(lo, hi);
    FitsChildren(k, lo, hi, n);
    ghost var t1, z1 := tree[..], lazy[..];
    Build(tree, lazy, arr, 2 * k, lo, mid);
    ghost var t2, z2 := tree[..], lazy[..];
    Build(tree, lazy, arr, 2 * k + 1, mid + 1, hi);
    ghost var t3, z3 := tree[..], lazy[..];
    tree[k] := tree[2 * k] + tree[2 * k + 1];
    LocalUp(t1, z1, t2, z2, k);
    LocalUp(t2, z2, t3, z3, k);
    Frame(t2, z2, t3, z3, 2 * k, lo, mid, n);
    assert tree[..] == t3[k := t3[2 * k] + t3[2 * k + 1]] && lazy[..] == z3;
    Recombined(t3, z3, tree[..], k, lo, hi, n);
    LocalHere(t3, z3, tree[..], z3, k);
    LocalChain(t0, z0, t1, z1, t2, z2, k);
    LocalChain(t0, z0, t2, z2, t3, z3, k);
    LocalChain(t0, z0, t3, z3, tree[..], z3, k);
    assert arr[lo..hi + 1] == arr[lo..mid + 1] + arr[mid + 1..hi + 1];
  }

  /** Storing the sum of the children at k, with nothing owed, makes k right again. */
  lemma Recombined(t: seq<int>, z: seq<int>, u: seq<int>, k: int, lo: int, hi: int, n: int)
    requires Cells(t, z, k, lo, hi, n) && lo < hi && z[k] == 0
    requires 2 * k + 1 < |t| && u == t[k := t[2 * k] + t[2 * k + 1]]
    requires Fits(2 * k, lo, Mid(lo, hi), n) && Summed(t, z, 2 * k, lo, Mid(lo, hi), n)
    requires Mid(lo, hi) < hi && Fits(2 * k + 1, Mid(lo, hi) + 1, hi, n)
    requires Summed(t, z, 2 * k + 1, Mid(lo, hi) + 1, hi, n)
    ensures Summed(u, z, k, lo, hi, n)
    ensures Values(u, z, k, lo, hi, n)
      == Values(t, z, 2 * k, lo, Mid(lo, hi), n) + Values(t, z, 2 * k + 1, Mid(lo, hi) + 1, hi, n)
  {
    hide Values, Summed, Below, Fits, Local, SameBelow, Room, Mid, Raised, Added, Sum, SumOver;
    FitsBounds(k, lo, hi, n);
    FitsBounds(2 * k, lo, Mid(lo, hi), n);
    SummedHere(t, z, 2 * k, lo, Mid(lo, hi), n);
    SummedHere(t, z, 2 * k + 1, Mid(lo, hi) + 1, hi, n);
    assert z == z[k := z[k]];
    SameApart(t, z, u, z, k);
    Frame(t, z, u, z, 2 * k, lo, Mid(lo, hi), n);
    Frame(t, z, u, z, 2 * k + 1, Mid(lo, hi) + 1, hi, n);
    Parted(u, z, k, lo, hi, n);
    SumConcat(Values(t, z, 2 * k, lo, Mid(lo, hi), n), Values(t, z, 2 * k + 1, Mid(lo, hi) + 1, hi, n));
    SummedFrom(u, z, k, lo, hi, n);
  }

  /** Hands what k owes to its children: nothing is owed afterwards, and k stands for
      what it stood for. */
  method PushDown(tree: array<int>, lazy: array<int>, k: int, lo: int, hi: int, ghost n: int)
    requires tree != lazy && tree.Length == lazy.Length == 4 * n && Fits(k, lo, hi, n) && lo < hi
    requires Summed(tree[..], lazy[..], k, lo, hi, n)
    modifies tree, lazy
    ensures lazy[k] == 0
    ensures Values(tree[..], lazy[..], k, lo, hi, n) == old(Values(tree[..], lazy[..], k, lo, hi, n))
    ensures Summed(tree[..], lazy[..], k, lo, hi, n)
    ensures Local(old(tree[..]), old(lazy[..]), tree[..], lazy[..], k)
  {
    hide Values, Summed, Local, Room, Sum;
    FitsBounds(k, lo, hi, n);
    if lazy[k] == 0 {
      LocalHere(tree[..], lazy[..], tree[..], lazy[..], k);
      return;
    }
    var mid := Mid(lo, hi);
    FitsChildren(k, lo, hi, n);
    ghost var t0, z0, d := tree[..], lazy[..], lazy[k];
    tree[2 * k] := tree[2 * k] + lazy[k] * (mid - lo + 1);
    tree[2 * k + 1] := tree[2 * k + 1] + lazy[k] * (hi - mid);
    lazy[2 * k] := lazy[2 * k] + lazy[k];
    lazy[2 * k + 1] := lazy[2 * k + 1] + lazy[k];
    lazy[k] := 0;
    ghost var t1, z1 := t0[2 * k := t0[2 * k] + d * (mid - lo + 1)], z0[2 * k := z0[2 * k] + d];
    ghost var t2, z2 := t1[2 * k + 1 := t1[2 * k + 1] + d * (hi - (mid + 1) + 1)], z1[2 * k + 1 := z1[2 * k + 1] + d];
    assert tree[..] == t2 && lazy[..] == z2[k := 0];
    Handed(t0, z0, t1, z1, t2, z2, k, lo, hi, n, d);
  }

  lemma Handed(t0: seq<int>, z0: seq<int>, t1: seq<int>, z1: seq<int>, t2: seq<int>, z2: seq<int>, k: int, lo: int,
      hi: int, n: int, d: int)
    requires Cells(t0, z0, k, lo, hi, n) && lo < hi && Summed(t0, z0, k, lo, hi, n) && d == z0[k]
    requires 2 * k + 1 < |t0|
    requires t1 == t0[2 * k := t0[2 * k] + d * (Mid(lo, hi) - lo + 1)] && z1 == z0[2 * k := z0[2 * k] + d]
    requires t2 == t1[2 * k + 1 := t1[2 * k + 1] + d * (hi - (Mid(lo, hi) + 1) + 1)]
    requires z2 == z1[2 * k + 1 := z1[2 * k + 1] + d]
    ensures Values(t2, z2[k := 0], k, lo, hi, n) == Values(t0, z0, k, lo, hi, n)
    ensures Summed(t2, z2[k := 0], k, lo, hi, n)
    ensures Local(t0, z0, t2, z2[k := 0], k)
  {
    hide Values, Summed, Below, Fits, Local, SameBelow, Room, Mid, Raised, Added, Sum, SumOver;
    FitsBounds(k, lo, hi, n);
    var mid, z3 := Mid(lo, hi), z2[k := 0];
    HandedDown(t0, z0, k, lo, hi, n);
    LocalHere(t0, z0, t1, z1, 2 * k);
    LocalHere(t1, z1, t2, z2, 2 * k + 1);
    LocalHere(t2, z2, t2, z3, k);
    LocalUp(t0, z0, t1, z1, k);
    LocalUp(t1, z1, t2, z2, k);
    Tagged(t0, z0, t1, z1, 2 * k, lo, mid, n, d);
    Frame(t0, z0, t1, z1, 2 * k + 1, mid + 1, hi, n);
    Tagged(t1, z1, t2, z2, 2 * k + 1, mid + 1, hi, n, d);
    Frame(t1, z1, t2, z2, 2 * k, lo, mid, n);
    SameApart(t2, z2, t2, z3, k);
    Frame(t2, z2, t2, z3, 2 * k, lo, mid, n);
    Frame(t2, z2, t2, z3, 2 * k + 1, mid + 1, hi, n);
    Parted(t2, z3, k, lo, hi, n);
    var a, b := Values(t0, z0, 2 * k, lo, mid, n), Values(t0, z0, 2 * k + 1, mid + 1, hi, n);
    RaisedConcat(a, b, d);
    RaisedZero(Raised(a, d) + Raised(b, d));
    SummedFrom(t2, z3, k, lo, hi, n);
    LocalChain(t0, z0, t1, z1, t2, z2, k);
    LocalChain(t0, z0, t2, z2, t2, z3, k);
  }

  lemma HandedDown(t: seq<int>, z: seq<int>, k: int, lo: int, hi: int, n: int)
    requires Cells(t, z, k, lo, hi, n) && lo < hi && Summed(t, z, k, lo, hi, n)
    ensures lo <= Mid(lo, hi) < hi
    ensures Fits(2 * k, lo, Mid(lo, hi), n) && Fits(2 * k + 1, Mid(lo, hi) + 1, hi, n)
    ensures t[k] == Sum(Values(t, z, k, lo, hi, n))
    ensures Values(t, z, k, lo, hi, n)
      == Raised(Values(t, z, 2 * k, lo, Mid(lo, hi), n) + Values(t, z, 2 * k + 1, Mid(lo, hi) + 1, hi, n), z[k])
    ensures Summed(t, z, 2 * k, lo, Mid(lo, hi), n) && Summed(t, z, 2 * k + 1, Mid(lo, hi) + 1, hi, n)
  {
    FitsChildren(k, lo, hi, n);
  }

  lemma SummedFrom(t: seq<int>, z: seq<int>, k: int, lo: int, hi: int, n: int)
    requires Cells(t, z, k, lo, hi, n) && lo < hi && t[k] == Sum(Values(t, z, k, lo, hi, n))
    requires lo <= Mid(lo, hi) < hi
    requires Fits(2 * k, lo, Mid(lo, hi), n) && Summed(t, z, 2 * k, lo, Mid(lo, hi), n)
    requires Fits(2 * k + 1, Mid(lo, hi) + 1, hi, n) && Summed(t, z, 2 * k + 1, Mid(lo, hi) + 1, hi, n)
    ensures Summed(t, z, k, lo, hi, n)
  {
  }

  lemma SummedHere(t: seq<int>, z: seq<int>, k: int, lo: int, hi: int, n: int)
    requires Cells(t, z, k, lo, hi, n) && Summed(t, z, k, lo, hi, n)
    ensures t[k] == Sum(Values(t, z, k, lo, hi, n))
  {
  }

  lemma SameApart(t: seq<int>, z: seq<int>, u: seq<int>, y: seq<int>, k: nat)
    requires 0 < k < |t| == |z| == |u| == |y|
    requires u == t[k := u[k]] && y == z[k := y[k]]
    ensures SameBelow(t, z, u, y, 2 * k) && SameBelow(t, z, u, y, 2 * k + 1)
  {
    forall j: nat | j < |t|
      ensures Below(2 * k, j) || Below(2 * k + 1, j) ==> j != k
    {
      BelowChildren(k, j);
    }
  }

  /** Adds delta to the positions of [l, r] that lie in lo..hi. */
  method RangeUpdateFrom(tree: array<int>, lazy: array<int>, k: int, lo: int, hi: int, l: int, r: int, delta: int,
      ghost n: int)
    requires tree != lazy && tree.Length == lazy.Length == 4 * n && Fits(k, lo, hi, n)
    requires Summed(tree[..], lazy[..], k, lo, hi, n)
    modifies tree, lazy
    ensures Values(tree[..], lazy[..], k, lo, hi, n)
      == Added(old(Values(tree[..], lazy[..], k, lo, hi, n)), lo, l, r, delta)
    ensures Summed(tree[..], lazy[..], k, lo, hi, n)
    ensures Local(old(tree[..]), old(lazy[..]), tree[..], lazy[..], k)
    decreases hi - lo
  {
    hide Values, Summed, Below, Fits, Local, SameBelow, Room, Mid, Raised, Added, Sum, SumOver;
    FitsBounds(k, lo, hi, n);
    ghost var t0, z0 := tree[..], lazy[..];
    ghost var a0 := Values(t0, z0, k, lo, hi, n);
    LocalHere(t0, z0, t0, z0, k);
    if r < lo || hi < l {
      assert Added(a0, lo, l, r, delta) == a0;
      return;
    }
    if l <= lo && hi <= r {
      tree[k] := tree[k] + delta * (hi - lo + 1);
      lazy[k] := lazy[k] + delta;
      Tagged(t0, z0, tree[..], lazy[..], k, lo, hi, n, delta);
      assert Added(a0, lo, l, r, delta) == Raised(a0, delta);
      LocalHere(t0, z0, tree[..], lazy[..], k);
      return;
    }
    PushDown(tree, lazy, k, lo, hi, n);
    ghost var t1, z1 := tree[..], lazy[..];
    HandedDown(t1, z1, k, lo, hi, n);
    Parted(t1, z1, k, lo, hi, n);
    var mid := Mid(lo, hi);
    RangeUpdateFrom(tree, lazy, 2 * k, lo, mid, l, r, delta, n);
    ghost var t2, z2 := tree[..], lazy[..];
    LocalUp(t1, z1, t2, z2, k);
    Frame(t1, z1, t2, z2, 2 * k + 1, mid + 1, hi, n);
    RangeUpdateFrom(tree, lazy, 2 * k + 1, mid + 1, hi, l, r, delta, n);
    ghost var t3, z3 := tree[..], lazy[..];
    LocalUp(t2, z2, t3, z3, k);
    Frame(t2, z2, t3, z3, 2 * k, lo, mid, n);
    FitsBounds(2 * k + 1, mid + 1, hi, n);
    tree[k] := tree[2 * k] + tree[2 * k + 1];
    assert tree[..] == t3[k := t3[2 * k] + t3[2 * k + 1]] && lazy[..] == z3;
    Recombined(t3, z3, tree[..], k, lo, hi, n);
    AddedConcat(Values(t1, z1, 2 * k, lo, mid, n), Values(t1, z1, 2 * k + 1, mid + 1, hi, n), lo, l, r, delta);
    LocalHere(t3, z3, tree[..], z3, k);
    LocalChain(t0, z0, t1, z1, t2, z2, k);
    LocalChain(t0, z0, t2, z2, t3, z3, k);
    LocalChain(t0, z0, t3, z3, tree[..], z3, k);
  }

  lemma AddedConcat(a: seq<int>, b: seq<int>, lo: int, l: int, r: int, d: int)
    ensures Added(a + b, lo, l, r, d) == Added(a, lo, l, r, d) + Added(b, lo + |a|, l, r, d)
  {
  }

  /** The sum over the positions of [l, r] in lo..hi. The cells may change, not what they mean. */
  method QuerySumFrom(tree: array<int>, lazy: array<int>, k: int, lo: int, hi: int, l: int, r: int, ghost n: int)
    returns (s: int)
    requires tree != lazy && tree.Length == lazy.Length == 4 * n && Fits(k, lo, hi, n)
    requires Summed(tree[..], lazy[..], k, lo, hi, n)
    modifies tree, lazy
    ensures s == SumOver(old(Values(tree[..], lazy[..], k, lo, hi, n)), lo, l, r)
    ensures Values(tree[..], lazy[..], k, lo, hi, n) == old(Values(tree[..], lazy[..], k, lo, hi, n))
    ensures Summed(tree[..], lazy[..], k, lo, hi, n)
    ensures Local(old(tree[..]), old(lazy[..]), tree[..], lazy[..], k)
    decreases hi - lo
  {
    hide Values, Summed, Below, Fits, Local, SameBelow, Room, Mid, Raised, Added, Sum, SumOver;
    FitsBounds(k, lo, hi, n);
    ghost var t0, z0 := tree[..], lazy[..];
    ghost var a0 := Values(t0, z0, k, lo, hi, n);
    SummedHere(t0, z0, k, lo, hi, n);
    LocalHere(t0, z0, t0, z0, k);
    if r < lo || hi < l {
      SumOverNone(a0, lo, l, r);
      return 0;
    }
    if l <= lo && hi <= r {
      SumOverAll(a0, lo, l, r);
      return tree[k];
    }
    PushDown(tree, lazy, k, lo, hi, n);
    ghost var t1, z1 := tree[..], lazy[..];
    HandedDown(t1, z1, k, lo, hi, n);
    Parted(t1, z1, k, lo, hi, n);
    var mid := Mid(lo, hi);
    var left := QuerySumFrom(tree, lazy, 2 * k, lo, mid, l, r, n);
    ghost var t2, z2 := tree[..], lazy[..];
    LocalUp(t1, z1, t2, z2, k);
    Frame(t1, z1, t2, z2, 2 * k + 1, mid + 1, hi, n);
    var right := QuerySumFrom(tree, lazy, 2 * k + 1, mid + 1, hi, l, r, n);
    ghost var t3, z3 := tree[..], lazy[..];
    LocalUp(t2, z2, t3, z3, k);
    Frame(t2, z2, t3, z3, 2 * k, lo, mid, n);
    Parted(t3, z3, k, lo, hi, n);
    SumOverConcat(Values(t1, z1, 2 * k, lo, mid, n), Values(t1, z1, 2 * k + 1, mid + 1, hi, n), lo, l, r);
    SummedFrom(t3, z3, k, lo, hi, n);
    LocalChain(t0, z0, t1, z1, t2, z2, k);
    LocalChain(t0, z0, t2, z2, t3, z3, k);
    s := left + right;
  }

  class SegTree {
    const n: nat
    const tree: array<int>
    const lazy: array<int>
    ghost var values: seq<int>

    ghost predicate Valid()
      reads this, tree, lazy
    {
      && n >= 1 && Fits(1, 0, n - 1, n) && tree != lazy && tree.Length == lazy.Length == 4 * n
      && Summed(tree[..], lazy[..], 1, 0, n - 1, n)
      && values == Values(tree[..], lazy[..], 1, 0, n - 1, n)
    }

    constructor (arr: seq<int>)
      requires |arr| >= 1
      ensures Valid() && fresh(tree) && fresh(lazy)
      ensures n == |arr| && values == arr
    {
      hide Values, Summed, Fits, Room, Sum;
      n := |arr|;
      tree := new int[4 * |arr|](_ => 0);
      lazy := new int[4 * |arr|](_ => 0);
      values := arr;
      new;
      RootFits(n);
      Build(tree, lazy, arr, 1, 0, n - 1);
      assert arr[0..n - 1 + 1] == arr;
    }

    /** Any l and r: only positions of the array change. */
    method RangeUpdate(l: int, r: int, delta: int)
      requires Valid()
      modifies this, tree, lazy
      ensures Valid()
      ensures values == Added(old(values), 0, l, r, delta)
    {
      RangeUpdateFrom(tree, lazy, 1, 0, n - 1, l, r, delta, n);
      values := Added(values, 0, l, r, delta);
    }

    method QuerySum(l: int, r: int) returns (s: int)
      requires Valid()
      modifies tree, lazy
      ensures Valid()
      ensures s == SumOver(values, 0, l, r)
      ensures 0 <= l <= r < n ==> s == Sum(values[l..r + 1])
    {
      hide Values, Summed, Fits, Room, Sum, SumOver, Local;
      if 0 <= l <= r < n { SumOverSlice(values, l, r); }
      s := QuerySumFrom(tree, lazy, 1, 0, n - 1, l, r, n);
    }
  }
}
