/** The binary min-heap that Dijkstra keeps in two parallel arrays: the macros
    HPUSH and HPOP_V as methods, proved against sift functions on the sequence
    of entries. */
module MinHeap {

  datatype Entry = Entry(k: int, v: nat)

  function Par(i: nat): nat
    requires i > 0
  {
    (i - 1) / 2
  }

  ghost predicate Heap(s: seq<Entry>) {
    forall i :: 0 < i < |s| ==> s[Par(i)].k <= s[i].k
  }

  lemma {:induction false} RootLeast(s: seq<Entry>, i: nat)
    requires Heap(s) && i < |s|
    ensures s[0].k <= s[i].k
  {
    if i > 0 { RootLeast(s, Par(i)); }
  }

  function Swap(s: seq<Entry>, i: nat, j: nat): (r: seq<Entry>)
    requires i < |s| && j < |s|
    ensures |r| == |s| && multiset(r) == multiset(s)
  {
    s[i := s[j]][j := s[i]]
  }

  // ---- up ------------------------------------------------------------------------

  /** The heap order may fail only between i and its parent. */
  ghost predicate HeapButUp(s: seq<Entry>, i: nat) {
    && i < |s|
    && (forall j :: 0 < j < |s| && j != i ==> s[Par(j)].k <= s[j].k)
    && (forall j :: 0 < j < |s| && Par(j) == i && i > 0 ==> s[Par(i)].k <= s[j].k)
  }

  function SiftUp(s: seq<Entry>, i: nat): (r: seq<Entry>)
    requires i < |s|
    ensures |r| == |s| && multiset(r) == multiset(s)
    decreases i
  {
    if i > 0 && s[Par(i)].k > s[i].k then SiftUp(Swap(s, i, Par(i)), Par(i)) else s
  }

  lemma SiftUpStep(s: seq<Entry>, i: nat)
    requires i < |s|
    ensures i > 0 && s[(i - 1) / 2].k > s[i].k ==> SiftUp(s, i) == SiftUp(Swap(s, i, (i - 1) / 2), (i - 1) / 2)
    ensures i == 0 || s[(i - 1) / 2].k <= s[i].k ==> SiftUp(s, i) == s
  {
  }

  lemma {:induction false} SiftUpHeap(s: seq<Entry>, i: nat)
    requires HeapButUp(s, i)
    ensures Heap(SiftUp(s, i))
    decreases i
  {
    if i > 0 && s[Par(i)].k > s[i].k {
      var t := Swap(s, i, Par(i));
      forall j | 0 < j < |t| && j != Par(i)
        ensures t[Par(j)].k <= t[j].k
      {
        if j != i { assert s[Par(j)].k <= s[j].k; }
      }
      SiftUpHeap(t, Par(i));
    }
  }

  // ---- down ------------------------------------------------------------------------

  /** The heap order may fail only between i and its children. */
  ghost predicate HeapButDown(s: seq<Entry>, i: nat) {
    && (forall j :: 0 < j < |s| && Par(j) != i ==> s[Par(j)].k <= s[j].k)
    && (forall j :: 0 < j < |s| && Par(j) == i && 0 < i < |s| ==> s[Par(i)].k <= s[j].k)
  }

  /** The least of i and its children, the earlier one among equals. */
  function Least(s: seq<Entry>, i: nat): (b: nat)
    requires i < |s|
    ensures b < |s| && (b == i || (b > 0 && Par(b) == i))
    ensures s[b].k <= s[i].k && (b != i ==> s[b].k < s[i].k)
    ensures 2 * i + 1 < |s| ==> s[b].k <= s[2 * i + 1].k
    ensures 2 * i + 2 < |s| ==> s[b].k <= s[2 * i + 2].k
  {
    var l, r := 2 * i + 1, 2 * i + 2;
    var b := if l < |s| && s[l].k < s[i].k then l else i;
    if r < |s| && s[r].k < s[b].k then r else b
  }

  lemma LeastLater(s: seq<Entry>, i: nat)
    requires i < |s|
    ensures i <= Least(s, i)
  {
  }

  function SiftDown(s: seq<Entry>, i: nat): (r: seq<Entry>)
    requires i < |s|
    ensures |r| == |s| && multiset(r) == multiset(s)
    decreases |s| - i
  {
    var b := Least(s, i);
    if b == i then s else SiftDown(Swap(s, i, b), b)
  }

  lemma SiftDownStep(s: seq<Entry>, i: nat)
    requires i < |s|
    ensures SiftDown(s, i) == var b := Least(s, i); if b == i then s else SiftDown(Swap(s, i, b), b)
  {
  }

  /** With i and its children exchanged as they should be, only b is left to fail. */
  lemma Sunk(s: seq<Entry>, i: nat, b: nat)
    requires HeapButDown(s, i) && i < |s| && b == Least(s, i) && b != i
    ensures HeapButDown(Swap(s, i, b), b)
  {
    var t := Swap(s, i, b);
    forall j | 0 < j < |t| && Par(j) != b
      ensures t[Par(j)].k <= t[j].k
    {
      if Par(j) == i { assert j == 2 * i + 1 || j == 2 * i + 2; }
    }
  }

  lemma {:induction false} SiftDownHeap(s: seq<Entry>, i: nat)
    requires HeapButDown(s, i) && i < |s|
    ensures Heap(SiftDown(s, i))
    decreases |s| - i
  {
    hide SiftDown, Swap, HeapButDown, Heap, Least;
    SiftDownStep(s, i);
    LeastLater(s, i);
    var b := Least(s, i);
    if b == i {
      InOrder(s, i);
    } else {
      Sunk(s, i, b);
      SiftDownHeap(Swap(s, i, b), b);
    }
  }

  lemma InOrder(s: seq<Entry>, i: nat)
    requires HeapButDown(s, i) && i < |s| && Least(s, i) == i
    ensures Heap(s)
  {
    forall j | 0 < j < |s|
      ensures s[Par(j)].k <= s[j].k
    {
      if Par(j) == i { assert j == 2 * i + 1 || j == 2 * i + 2; }
    }
  }

  /** The entries once e has come in at the end and has risen to its place. */
  function Pushed(s: seq<Entry>, e: Entry): (r: seq<Entry>)
    ensures |r| == |s| + 1 && multiset(r) == multiset(s) + multiset{e}
  {
    SiftUp(s + [e], |s|)
  }

  /** The entries once the last one has taken the place of the root and has sunk. */
  function Popped(s: seq<Entry>): (r: seq<Entry>)
    requires s != []
    ensures |r| == |s| - 1 && multiset(r) + multiset{s[0]} == multiset(s)
  {
    var n := |s| - 1;
    if n == 0 then
      assert s == [s[0]];
      []
    else
      LastFirst(s);
      SiftDown([s[n]] + s[1..n], 0)
  }

  lemma LastFirst(s: seq<Entry>)
    requires |s| > 1
    ensures multiset([s[|s| - 1]] + s[1..|s| - 1]) + multiset{s[0]} == multiset(s)
  {
    assert s == [s[0]] + s[1..|s| - 1] + [s[|s| - 1]];
  }

  // ---- which child moves up ----------------------------------------------------------------

  /** Of the children of i, b moves up above a key k: the left one unless the right one is
      strictly less. */
  ghost predicate MovesUp(s: seq<Entry>, k: int, i: nat, b: nat) {
    && b < |s| && s[b].k < k
    && ((b == 2 * i + 1 && (2 * i + 2 < |s| ==> s[2 * i + 1].k <= s[2 * i + 2].k))
        || (b == 2 * i + 2 && s[2 * i + 2].k < s[2 * i + 1].k))
  }

  /** The way a key k takes down from slot i: the slots that it passes, up to one whose children
      are not below it. */
  ghost predicate WayDown(s: seq<Entry>, k: int, i: nat, way: seq<nat>) {
    && way != [] && way[0] == i
    && (forall j :: 0 <= j < |way| ==> i <= way[j] < |s|)
    && (forall j :: 0 <= j < |way| - 1 ==> MovesUp(s, k, way[j], way[j + 1]))
    && forall b :: b < |s| && (b == 2 * way[|way| - 1] + 1 || b == 2 * way[|way| - 1] + 2) ==> s[b].k >= k
  }

  /** r is s after e has gone that way: everything on it has moved up one slot. */
  ghost predicate Shifted(s: seq<Entry>, r: seq<Entry>, e: Entry, way: seq<nat>) {
    && |r| == |s| && way != []
    && (forall j :: 0 <= j < |way| ==> way[j] < |s|)
    && (forall j :: 0 <= j < |way| - 1 ==> r[way[j]] == s[way[j + 1]])
    && r[way[|way| - 1]] == e
    && forall q :: 0 <= q < |s| && q !in way ==> r[q] == s[q]
  }

  lemma {:induction false} SiftDownWay(s: seq<Entry>, i: nat) returns (way: seq<nat>)
    requires i < |s|
    ensures WayDown(s, s[i].k, i, way) && Shifted(s, SiftDown(s, i), s[i], way)
    decreases |s| - i
  {
    hide SiftDown;
    SiftDownStep(s, i);
    LeastLater(s, i);
    var b := Least(s, i);
    if b == i {
      way := [i];
    } else {
      var t := Swap(s, i, b);
      var w := SiftDownWay(t, b);
      way := WayFrom(s, i, b, w, SiftDown(t, b));
    }
  }

  /** Below b nothing has changed. */
  lemma SwappedAbove(s: seq<Entry>, k: int, i: nat, b: nat, p: nat, q: nat)
    requires i < b <= p < |s|
    ensures MovesUp(Swap(s, i, b), k, p, q) ==> MovesUp(s, k, p, q) && q > b
    ensures b < q < |s| ==> Swap(s, i, b)[q] == s[q]
  {
  }

  /** The way on from b, with i in front. */
  lemma WayFrom(s: seq<Entry>, i: nat, b: nat, w: seq<nat>, r: seq<Entry>) returns (way: seq<nat>)
    requires i < b < |s| && MovesUp(s, s[i].k, i, b)
    requires WayDown(Swap(s, i, b), s[i].k, b, w) && Shifted(Swap(s, i, b), r, s[i], w)
    ensures WayDown(s, s[i].k, i, way) && Shifted(s, r, s[i], way)
  {
    hide MovesUp;
    var t := Swap(s, i, b);
    way := [i] + w;
    WayOn(s, i, b, w);
    assert i !in w;
    forall j | 0 <= j < |way| - 1
      ensures r[way[j]] == s[way[j + 1]]
    {
      if j > 0 { SwappedAbove(s, s[i].k, i, b, w[j - 1], w[j]); }
    }
    forall q | 0 <= q < |s| && q !in way
      ensures r[q] == s[q]
    {
      assert q !in w && q != i;
      assert q != b by { assert w[0] == b; }
    }
  }

  lemma WayOn(s: seq<Entry>, i: nat, b: nat, w: seq<nat>)
    requires i < b < |s| && MovesUp(s, s[i].k, i, b) && WayDown(Swap(s, i, b), s[i].k, b, w)
    ensures WayDown(s, s[i].k, i, [i] + w)
    ensures forall j :: 0 <= j < |w| - 1 ==> MovesUp(Swap(s, i, b), s[i].k, w[j], w[j + 1])
  {
    hide MovesUp, Swap;
    var way := [i] + w;
    forall j | 0 <= j < |way| - 1
      ensures MovesUp(s, s[i].k, way[j], way[j + 1])
    {
      if j > 0 { SwappedAbove(s, s[i].k, i, b, w[j - 1], w[j]); }
    }
    var z := w[|w| - 1];
    forall c | 0 <= c < |s| && (c == 2 * z + 1 || c == 2 * z + 2)
      ensures s[c].k >= s[i].k
    {
      SwappedAbove(s, s[i].k, i, b, z, c);
    }
  }

  /** What a pop does to the slots, told exactly: the last entry takes the place of the root and
      goes down, and wherever it passes two children the left one moves up unless the right one
      is less. */
  lemma PoppedWay(s: seq<Entry>) returns (way: seq<nat>)
    requires |s| > 1
    ensures var n := |s| - 1; var u := [s[n]] + s[1..n];
      WayDown(u, s[n].k, 0, way) && Shifted(u, Popped(s), s[n], way)
  {
    hide WayDown, Shifted, SiftDown;
    var n := |s| - 1;
    way := SiftDownWay([s[n]] + s[1..n], 0);
  }

  /** Of two children with the same key the left one moves up, and the right one stays. */
  lemma PoppedTie(s: seq<Entry>)
    requires |s| > 3 && s[1].k <= s[2].k && s[1].k < s[|s| - 1].k
    ensures Popped(s)[0] == s[1] && Popped(s)[2] == s[2]
  {
    hide Popped;
    var n := |s| - 1;
    var way := PoppedWay(s);
    var t := [s[n]] + s[1..n];
    assert t[1] == s[1] && t[2] == s[2];
    assert |way| > 1;
    assert MovesUp(t, s[n].k, way[0], way[1]);
    forall j | 0 <= j < |way|
      ensures way[j] != 2
    {
      if j > 1 { assert MovesUp(t, s[n].k, way[j - 1], way[j]); }
    }
  }

  // ---- the arrays -----------------------------------------------------------------

  /** The first n slots of the two arrays. */
  ghost function Entries(ks: array<int>, vs: array<nat>, n: nat): (s: seq<Entry>)
    requires n <= ks.Length && n <= vs.Length
    reads ks, vs
    ensures |s| == n && forall i :: 0 <= i < n ==> s[i] == Entry(ks[i], vs[i])
  {
    seq(n, i requires 0 <= i < n && n <= ks.Length && n <= vs.Length reads ks, vs => Entry(ks[i], vs[i]))
  }

  method SwapSlots(ks: array<int>, vs: array<nat>, ghost n: nat, i: nat, j: nat)
    requires i < n && j < n && n <= ks.Length == vs.Length && ks as object != vs
    modifies ks, vs
    ensures Entries(ks, vs, n) == Swap(old(Entries(ks, vs, n)), i, j)
  {
    ks[i], ks[j] := ks[j], ks[i];
    vs[i], vs[j] := vs[j], vs[i];
  }

  method Push(ks: array<int>, vs: array<nat>, n: nat, k: int, v: nat)
    requires n < ks.Length == vs.Length && ks as object != vs && Heap(Entries(ks, vs, n))
    modifies ks, vs
    ensures Heap(Entries(ks, vs, n + 1))
    ensures multiset(Entries(ks, vs, n + 1)) == multiset(old(Entries(ks, vs, n))) + multiset{Entry(k, v)}
    ensures Entries(ks, vs, n + 1) == Pushed(old(Entries(ks, vs, n)), Entry(k, v))
  {
    ghost var was := Entries(ks, vs, n);
    ks[n], vs[n] := k, v;
    assert Entries(ks, vs, n + 1) == was + [Entry(k, v)];
    SiftUpHeap(was + [Entry(k, v)], n);
    BubbleUp(ks, vs, n);
  }

  method BubbleUp(ks: array<int>, vs: array<nat>, n: nat)
    requires n < ks.Length == vs.Length && ks as object != vs
    modifies ks, vs
    ensures Entries(ks, vs, n + 1) == SiftUp(old(Entries(ks, vs, n + 1)), n)
  {
    hide SiftUp, Swap, Par, Entries;
    var i: nat := n;
    ghost var start := Entries(ks, vs, n + 1);
    SiftUpStep(start, n);
    while i > 0 && ks[(i - 1) / 2] > ks[i]
      invariant i <= n
      invariant SiftUp(Entries(ks, vs, n + 1), i) == SiftUp(start, n)
      invariant i == 0 || ks[(i - 1) / 2] <= ks[i] ==> SiftUp(Entries(ks, vs, n + 1), i) == Entries(ks, vs, n + 1)
    {
      var p: nat := (i - 1) / 2;
      SiftUpStep(Entries(ks, vs, n + 1), i);
      SwapSlots(ks, vs, n + 1, i, p);
      i := p;
      SiftUpStep(Entries(ks, vs, n + 1), i);
    }
  }

  /** Removes the entry at the root; n is the number of entries left. */
  method Pop(ks: array<int>, vs: array<nat>, n: nat)
    requires n < ks.Length == vs.Length && ks as object != vs && Heap(Entries(ks, vs, n + 1))
    modifies ks, vs
    ensures Heap(Entries(ks, vs, n))
    ensures multiset(Entries(ks, vs, n)) + multiset{old(Entries(ks, vs, n + 1)[0])}
      == multiset(old(Entries(ks, vs, n + 1)))
    ensures Entries(ks, vs, n) == Popped(old(Entries(ks, vs, n + 1)))
  {
    ghost var was := Entries(ks, vs, n + 1);
    ks[0], vs[0] := ks[n], vs[n];
    ghost var s := Entries(ks, vs, n);
    MovedToRoot(was, s, n);
    if n > 0 {
      assert s == [was[n]] + was[1..n];
      BubbleDown(ks, vs, n);
      SiftDownHeap(s, 0);
    }
  }

  lemma MovedToRoot(was: seq<Entry>, s: seq<Entry>, n: nat)
    requires |was| == n + 1 && |s| == n && Heap(was)
    requires forall i :: 0 <= i < n ==> s[i] == was[if i == 0 then n else i]
    ensures HeapButDown(s, 0)
    ensures multiset(s) + multiset{was[0]} == multiset(was)
  {
    if n > 0 {
      assert was == [was[0]] + was[1..n] + [was[n]];
      assert s == [was[n]] + was[1..n];
    } else {
      assert was == [was[0]];
    }
  }

  /** The choice of the slot to swap with. */
  method LeastSlot(ks: array<int>, ghost vs: array<nat>, n: nat, i: nat) returns (b: nat)
    requires i < n <= ks.Length == vs.Length
    ensures b == Least(Entries(ks, vs, n), i)
  {
    var l, r := 2 * i + 1, 2 * i + 2;
    b := i;
    if l < n && ks[l] < ks[b] { b := l; }
    if r < n && ks[r] < ks[b] { b := r; }
  }

  method BubbleDown(ks: array<int>, vs: array<nat>, n: nat)
    requires 0 < n <= ks.Length == vs.Length && ks as object != vs
    modifies ks, vs
    ensures Entries(ks, vs, n) == SiftDown(old(Entries(ks, vs, n)), 0)
  {
    hide SiftDown, Swap, Least, Entries, Par;
    var i: nat := 0;
    ghost var start := Entries(ks, vs, n);
    while true
      invariant i < n
      invariant SiftDown(Entries(ks, vs, n), i) == SiftDown(start, 0)
      decreases n - i
    {
      LeastLater(Entries(ks, vs, n), i);
      var b := LeastSlot(ks, vs, n, i);
      SiftDownStep(Entries(ks, vs, n), i);
      if b == i { break; }
      SwapSlots(ks, vs, n, i, b);
      i := b;
    }
  }
}
