/** The singly linked list: cycle detection with two pointers, and the stable in-place
    merge sort. */
module LinkedLists {

  class LLNode {
    const val: int
    var next: LLNode?

    constructor (val: int)
      ensures this.val == val && next == null
    {
      this.val := val;
      next := null;
    }
  }

  // ---- following next ----------------------------------------------------------------------

  type Links = map<LLNode, LLNode?>

  /** A finite structure: every node in it leads to another one in it, or nowhere. */
  ghost predicate Closed(m: Links) {
    forall n :: n in m ==> m[n] == null || m[n] in m
  }

  /** k steps along next from n. */
  ghost function Nth(m: Links, n: LLNode?, k: nat): (r: LLNode?)
    requires Closed(m) && (n == null || n in m)
    ensures r == null || r in m
    decreases k
  {
    if n == null || k == 0 then n else Nth(m, m[n], k - 1)
  }

  /** Following next from n comes to a node a second time. */
  ghost predicate Cyclic(m: Links, n: LLNode?)
    requires Closed(m) && (n == null || n in m)
  {
    exists i: nat, j: nat :: i < j && Nth(m, n, i) != null && Nth(m, n, i) == Nth(m, n, j)
  }

  lemma {:induction false} NthAdd(m: Links, n: LLNode?, i: nat, k: nat)
    requires Closed(m) && (n == null || n in m)
    ensures Nth(m, Nth(m, n, i), k) == Nth(m, n, i + k)
    decreases i
  {
    if n != null && i > 0 { NthAdd(m, m[n], i - 1, k); }
  }

  lemma NthNext(m: Links, n: LLNode?, k: nat)
    requires Closed(m) && (n == null || n in m)
    ensures Nth(m, n, k + 1) == var x := Nth(m, n, k); if x == null then null else m[x]
  {
    NthAdd(m, n, k, 1);
  }

  lemma NullStays(m: Links, n: LLNode?, i: nat, j: nat)
    requires Closed(m) && (n == null || n in m) && i <= j && Nth(m, n, i) == null
    ensures Nth(m, n, j) == null
  {
    NthAdd(m, n, i, j - i);
  }

  /** Once a node has come again, everything comes again. */
  lemma Periodic(m: Links, n: LLNode?, i: nat, j: nat, k: nat)
    requires Closed(m) && (n == null || n in m) && i < j && Nth(m, n, i) == Nth(m, n, j) && k >= i
    ensures Nth(m, n, k + (j - i)) == Nth(m, n, k)
  {
    NthAdd(m, n, i, k - i);
    NthAdd(m, n, j, k - i);
  }

  lemma {:induction false} PeriodicTimes(m: Links, n: LLNode?, i: nat, j: nat, k: nat, c: nat, d: nat)
    requires Closed(m) && (n == null || n in m) && i < j && Nth(m, n, i) == Nth(m, n, j) && k >= i
    requires d == c * (j - i)
    ensures Nth(m, n, k + d) == Nth(m, n, k)
    decreases c
  {
    if c > 0 {
      var e := d - (j - i);
      assert e == (c - 1) * (j - i);
      NatMultiple(c - 1, j - i);
      PeriodicTimes(m, n, i, j, k, c - 1, e);
      Periodic(m, n, i, j, k + e);
    }
  }

  lemma NatMultiple(c: nat, p: nat)
    ensures c * p >= 0
  {
  }

  /** A cycle never ends. */
  lemma {:induction false} CycleEndless(m: Links, n: LLNode?, i: nat, j: nat, k: nat)
    requires Closed(m) && (n == null || n in m) && i < j && Nth(m, n, i) == Nth(m, n, j)
    requires Nth(m, n, k) == null
    ensures Nth(m, n, i) == null
    decreases k
  {
    if k <= j {
      NullStays(m, n, k, j);
    } else {
      Periodic(m, n, i, j, k - (j - i));
      CycleEndless(m, n, i, j, k - (j - i));
    }
  }

  lemma NoCycle(m: Links, n: LLNode?, k: nat)
    requires Closed(m) && (n == null || n in m) && Nth(m, n, k) == null
    ensures !Cyclic(m, n)
  {
    if Cyclic(m, n) {
      var i: nat, j: nat :| i < j && Nth(m, n, i) != null && Nth(m, n, i) == Nth(m, n, j);
      CycleEndless(m, n, i, j, k);
    }
  }

  /** The first k nodes of a walk that has not ended. */
  ghost function Walk(m: Links, n: LLNode?, k: nat): (s: seq<LLNode>)
    requires Closed(m) && (n == null || n in m) && forall i :: 0 <= i < k ==> Nth(m, n, i) != null
    ensures |s| == k && forall i :: 0 <= i < k ==> s[i] == Nth(m, n, i)
  {
    if k == 0 then [] else Walk(m, n, k - 1) + [Nth(m, n, k - 1)]
  }

  lemma {:induction false} Pigeonhole(s: seq<LLNode>, all: set<LLNode>)
    requires (forall i :: 0 <= i < |s| ==> s[i] in all) && |s| > |all|
    ensures exists i, j :: 0 <= i < j < |s| && s[i] == s[j]
    decreases |s|
  {
    var k := |s| - 1;
    if i :| 0 <= i < k && s[i] == s[k] {
    } else {
      Pigeonhole(s[..k], all - {s[k]});
      var i, j :| 0 <= i < j < k && s[..k][i] == s[..k][j];
      assert s[i] == s[j];
    }
  }

  /** If the walk from n is still going after as many steps as there are nodes, then the
      two pointers have met by then. */
  lemma TheyMeet(m: Links, n: LLNode?, k: nat) returns (i: nat)
    requires Closed(m) && (n == null || n in m) && k >= |m.Keys| && Nth(m, n, k) != null
    ensures 1 <= i <= k && Nth(m, n, i) == Nth(m, n, 2 * i)
  {
    forall j | 0 <= j < k + 1
      ensures Nth(m, n, j) != null
    {
      if Nth(m, n, j) == null { NullStays(m, n, j, k); }
    }
    var s := Walk(m, n, k + 1);
    Pigeonhole(s, m.Keys);
    var a, b :| 0 <= a < b < |s| && s[a] == s[b];
    var c: nat;
    i, c := MultipleFrom(a, b - a);
    PeriodicTimes(m, n, a, b, i, c, i);
  }

  /** A positive multiple of p among a .. a + p. */
  lemma MultipleFrom(a: nat, p: nat) returns (i: nat, c: nat)
    requires p > 0
    ensures i == c * p && i >= a && 1 <= i <= a + p
  {
    c := a / p + 1;
    i := c * p;
    var r := a % p;
    assert a == (a / p) * p + r;
    assert i == (a / p) * p + p;
  }

  ghost function Pointers(all: set<LLNode>): (m: Links)
    reads all
    ensures m.Keys == all && forall n :: n in all ==> m[n] == n.next
  {
    map n | n in all :: n.next
  }

  /** Whether following next from head comes to a node a second time. */
  method HasCycle(head: LLNode?, ghost all: set<LLNode>) returns (cycle: bool)
    requires head == null || head in all
    requires forall n :: n in all ==> n.next == null || n.next in all
    ensures cycle <==> Cyclic(Pointers(all), head)
  {
    ghost var m := Pointers(all);
    var slow, fast := head, head;
    ghost var i: nat := 0;
    while fast != null && fast.next != null
      invariant (slow == null || slow in all) && (fast == null || fast in all)
      invariant slow == Nth(m, head, i) && fast == Nth(m, head, 2 * i)
      invariant forall j :: 1 <= j <= i ==> Nth(m, head, j) != Nth(m, head, 2 * j)
      decreases |all| - i
    {
      if i >= |all| {
        assert m.Keys == all;
        if Nth(m, head, i) == null { NullStays(m, head, i, 2 * i); }
        var j := TheyMeet(m, head, i);
        assert false;
      }
      if slow == null { NullStays(m, head, i, 2 * i); }
      NthNext(m, head, i);
      NthNext(m, head, 2 * i);
      NthNext(m, head, 2 * i + 1);
      slow := slow.next;
      fast := fast.next.next;
      i := i + 1;
      if slow == fast {
        if slow == null { NullStays(m, head, i, 2 * i - 1); }
        assert i < 2 * i;
        return true;
      }
    }
    NthNext(m, head, 2 * i);
    NoCycle(m, head, 2 * i + 1);
    return false;
  }

  // ---- lists as sequences of nodes ---------------------------------------------------------

  ghost function NodeAt(s: seq<LLNode>, i: nat): LLNode? {
    if i < |s| then s[i] else null
  }

  ghost predicate Distinct(s: seq<LLNode>) {
    forall i, j :: 0 <= i < j < |s| ==> s[i] != s[j]
  }

  /** The nodes of s, in this order, hang on head. */
  ghost predicate IsList(head: LLNode?, s: seq<LLNode>)
    reads s
  {
    && Distinct(s) && head == NodeAt(s, 0)
    && forall i :: 0 <= i < |s| ==> s[i].next == NodeAt(s, i + 1)
  }

  ghost predicate Ascending(s: seq<LLNode>) {
    forall i, j :: 0 <= i < j < |s| ==> s[i].val <= s[j].val
  }

  /** The nodes with value v, in order. */
  ghost function Having(s: seq<LLNode>, v: int): seq<LLNode> {
    if s == [] then []
    else (if s[0].val == v then [s[0]] else []) + Having(s[1..], v)
  }

  lemma {:induction false} HavingConcat(a: seq<LLNode>, b: seq<LLNode>, v: int)
    ensures Having(a + b, v) == Having(a, v) + Having(b, v)
  {
    if a == [] {
      assert a + b == b;
    } else {
      assert (a + b)[0] == a[0] && (a + b)[1..] == a[1..] + b;
      HavingConcat(a[1..], b, v);
      Associate(if a[0].val == v then [a[0]] else [], Having(a[1..], v), Having(b, v));
    }
  }

  lemma Associate(a: seq<LLNode>, b: seq<LLNode>, c: seq<LLNode>)
    ensures a + (b + c) == (a + b) + c
  {
  }

  /** s is made of nodes of a and of b. */
  ghost predicate Among(s: seq<LLNode>, a: seq<LLNode>, b: seq<LLNode>) {
    forall i :: 0 <= i < |s| ==> s[i] in a || s[i] in b
  }

  ghost predicate AtLeast(s: seq<LLNode>, v: int) {
    forall i :: 0 <= i < |s| ==> v <= s[i].val
  }

  lemma AmongAtLeast(s: seq<LLNode>, a: seq<LLNode>, b: seq<LLNode>, v: int)
    requires Among(s, a, b) && AtLeast(a, v) && AtLeast(b, v)
    ensures AtLeast(s, v)
  {
  }

  // ---- merging -----------------------------------------------------------------------------

  ghost function Merged(a: seq<LLNode>, b: seq<LLNode>): seq<LLNode> {
    if a == [] then b
    else if b == [] then a
    else if a[0].val <= b[0].val then [a[0]] + Merged(a[1..], b)
    else [b[0]] + Merged(a, b[1..])
  }

  lemma {:induction false} MergedElements(a: seq<LLNode>, b: seq<LLNode>)
    ensures multiset(Merged(a, b)) == multiset(a) + multiset(b)
  {
    if a != [] && b != [] {
      if a[0].val <= b[0].val {
        MergedElements(a[1..], b);
        assert a == [a[0]] + a[1..];
      } else {
        MergedElements(a, b[1..]);
        assert b == [b[0]] + b[1..];
      }
    }
  }

  lemma {:induction false} MergedAmong(a: seq<LLNode>, b: seq<LLNode>)
    ensures Among(Merged(a, b), a, b)
  {
    MergedElements(a, b);
    var s := Merged(a, b);
    forall i | 0 <= i < |s|
      ensures s[i] in a || s[i] in b
    {
      assert s[i] in multiset(s);
    }
  }

  lemma {:induction false} MergedAscending(a: seq<LLNode>, b: seq<LLNode>)
    requires Ascending(a) && Ascending(b)
    ensures Ascending(Merged(a, b))
  {
    if a != [] && b != [] {
      FirstLeast(a);
      FirstLeast(b);
      if a[0].val <= b[0].val {
        MergedAscending(a[1..], b);
        MergedAmong(a[1..], b);
        LeastOf(a[0], a[1..], b, Merged(a[1..], b));
      } else {
        MergedAscending(a, b[1..]);
        MergedAmong(a, b[1..]);
        LeastOf(b[0], a, b[1..], Merged(a, b[1..]));
      }
    }
  }

  lemma FirstLeast(s: seq<LLNode>)
    requires Ascending(s) && s != []
    ensures AtLeast(s, s[0].val) && AtLeast(s[1..], s[0].val) && Ascending(s[1..])
  {
  }

  lemma LeastOf(n: LLNode, a: seq<LLNode>, b: seq<LLNode>, s: seq<LLNode>)
    requires Ascending(s) && Among(s, a, b) && AtLeast(a, n.val) && AtLeast(b, n.val)
    ensures Ascending([n] + s)
  {
    AmongAtLeast(s, a, b, n.val);
  }

  /** Of equal values, those of a come first, each side in its own order. */
  lemma {:induction false} MergedStable(a: seq<LLNode>, b: seq<LLNode>, v: int)
    requires Ascending(a) && Ascending(b)
    ensures Having(Merged(a, b), v) == Having(a, v) + Having(b, v)
  {
    if a != [] && b != [] {
      if a[0].val <= b[0].val {
        MergedStable(a[1..], b, v);
      } else {
        MergedStable(a, b[1..], v);
        if b[0].val == v { NoneBelow(a, v); }
      }
    }
  }

  lemma {:induction false} NoneBelow(s: seq<LLNode>, v: int)
    requires Ascending(s) && (s != [] ==> v < s[0].val)
    ensures Having(s, v) == []
  {
    if s != [] { NoneBelow(s[1..], v); }
  }

  // ---- sorting -----------------------------------------------------------------------------

  /** What merge sort makes of s: the halves sorted and merged. */
  ghost function Sorted(s: seq<LLNode>): seq<LLNode>
    decreases |s|
  {
    if |s| <= 1 then s
    else Merged(Sorted(s[..(|s| + 1) / 2]), Sorted(s[(|s| + 1) / 2..]))
  }

  /** Ascending, the same nodes, and equal values in their old order. */
  lemma {:induction false} SortedIs(s: seq<LLNode>)
    ensures Ascending(Sorted(s))
    ensures multiset(Sorted(s)) == multiset(s)
    ensures forall v :: Having(Sorted(s), v) == Having(s, v)
    decreases |s|
  {
    if |s| > 1 {
      var a, b := s[..(|s| + 1) / 2], s[(|s| + 1) / 2..];
      assert s == a + b;
      SortedIs(a);
      SortedIs(b);
      MergedAscending(Sorted(a), Sorted(b));
      MergedElements(Sorted(a), Sorted(b));
      forall v
        ensures Having(Sorted(s), v) == Having(s, v)
      {
        MergedStable(Sorted(a), Sorted(b), v);
        HavingConcat(a, b, v);
      }
    }
  }

  // ---- the operations ----------------------------------------------------------------------

  /** The nodes of s, in this order, hang on a. */
  ghost predicate Hanging(a: LLNode?, s: seq<LLNode>)
    reads s
  {
    a == NodeAt(s, 0) && forall k :: 0 <= k < |s| ==> s[k].next == NodeAt(s, k + 1)
  }

  /** Every node of d leads to the next. */
  ghost predicate Chain(d: seq<LLNode>)
    reads d
  {
    forall k :: 0 <= k < |d| - 1 ==> d[k].next == d[k + 1]
  }

  ghost predicate Apart(a: seq<LLNode>, b: seq<LLNode>) {
    forall n: LLNode :: n in a ==> n !in b
  }

  /** A chain that ends at last, and two lists to be merged behind it. */
  ghost predicate Merging(d: seq<LLNode>, last: LLNode, a: LLNode?, xs: seq<LLNode>, b: LLNode?, ys: seq<LLNode>)
    reads d, xs, ys
  {
    && d != [] && d[|d| - 1] == last && Chain(d) && Hanging(a, xs) && Hanging(b, ys)
    && Distinct(d) && Distinct(xs) && Distinct(ys) && Apart(d, xs) && Apart(d, ys) && Apart(xs, ys)
  }

  lemma MergingParts(d: seq<LLNode>, last: LLNode, a: LLNode?, xs: seq<LLNode>, b: LLNode?, ys: seq<LLNode>)
    requires Merging(d, last, a, xs, b, ys)
    ensures a == NodeAt(xs, 0) && b == NodeAt(ys, 0) && d != [] && d[|d| - 1] == last
    ensures Merging(d, last, b, ys, a, xs)
  {
  }

  /** The first node of xs moves to the end of d. */
  lemma Moved(d: seq<LLNode>, n: LLNode, xs: seq<LLNode>, ys: seq<LLNode>)
    requires Distinct(d) && Distinct([n] + xs) && Apart(d, [n] + xs) && Apart(d, ys) && Apart([n] + xs, ys)
    ensures Distinct(d + [n]) && Distinct(xs) && Apart(d + [n], xs) && Apart(d + [n], ys) && Apart(xs, ys)
    ensures n !in d && n !in xs && n !in ys
  {
    var w := [n] + xs;
    assert w[0] == n && n in w;
    forall i | 0 <= i < |xs|
      ensures xs[i] in w && xs[i] == w[i + 1] && xs[i] != n
    {
    }
    forall i | 0 <= i < |d|
      ensures d[i] != n
    {
      assert d[i] in d;
    }
  }

  method Append(last: LLNode, a: LLNode, ghost d: seq<LLNode>, ghost xs: seq<LLNode>, ghost b: LLNode?,
      ghost ys: seq<LLNode>)
    returns (rest: LLNode?)
    requires xs != [] && Merging(d, last, a, xs, b, ys)
    modifies last
    ensures Merging(d + [a], a, rest, xs[1..], b, ys)
  {
    assert xs == [a] + xs[1..];
    Moved(d, a, xs[1..], ys);
    assert last in d && a in xs;
    last.next := a;
    rest := a.next;
  }

  /** Moves nodes behind dummy, from a on ties, until one of the lists is used up. */
  method Interleave(dummy: LLNode, a0: LLNode?, b0: LLNode?, ghost xs: seq<LLNode>, ghost ys: seq<LLNode>)
    returns (tail: LLNode, a: LLNode?, b: LLNode?, ghost d: seq<LLNode>, ghost us: seq<LLNode>, ghost vs: seq<LLNode>)
    requires Merging([dummy], dummy, a0, xs, b0, ys)
    modifies dummy, xs, ys
    ensures Merging(d, tail, a, us, b, vs) && d != [] && d[0] == dummy && (a == null || b == null)
    ensures d[1..] + Merged(us, vs) == Merged(xs, ys)
    ensures tail == dummy || tail in xs || tail in ys
  {
    hide Merging, Merged;
    tail, a, b, d, us, vs := dummy, a0, b0, [dummy], xs, ys;
    MergingParts(d, tail, a, us, b, vs);
    while a != null && b != null
      invariant Merging(d, tail, a, us, b, vs) && d != [] && d[0] == dummy
      invariant a == NodeAt(us, 0) && b == NodeAt(vs, 0)
      invariant d[1..] + Merged(us, vs) == Merged(xs, ys)
      invariant tail == dummy || tail in xs || tail in ys
      invariant Among(us, xs, xs) && Among(vs, ys, ys)
      decreases |us| + |vs|
    {
      MergingParts(d, tail, a, us, b, vs);
      MergeStep(d, us, vs);
      RestAmong(us, xs);
      RestAmong(vs, ys);
      if a.val <= b.val {
        var n: LLNode := a;
        a := Append(tail, n, d, us, b, vs);
        tail, d, us := n, d + [n], us[1..];
      } else {
        var n: LLNode := b;
        b := Append(tail, n, d, vs, a, us);
        tail, d, vs := n, d + [n], vs[1..];
        MergingParts(d, tail, b, vs, a, us);
      }
      MergingParts(d, tail, a, us, b, vs);
    }
  }

  /** Relinks two sorted lists into one. */
  method MergeSorted(a0: LLNode?, b0: LLNode?, ghost xs: seq<LLNode>, ghost ys: seq<LLNode>) returns (head: LLNode?)
    requires IsList(a0, xs) && IsList(b0, ys) && Apart(xs, ys)
    modifies xs, ys
    ensures IsList(head, Merged(xs, ys))
  {
    var dummy := new LLNode(0);
    ghost var d, us, vs;
    var tail, a, b;
    tail, a, b, d, us, vs := Interleave(dummy, a0, b0, xs, ys);
    MergingParts(d, tail, a, us, b, vs);
    if a != null {
      Attach(tail, a, d, us, b, vs);
    } else {
      Attach(tail, b, d, vs, a, us);
    }
    head := dummy.next;
  }

  method Attach(last: LLNode, a: LLNode?, ghost d: seq<LLNode>, ghost xs: seq<LLNode>, ghost b: LLNode?,
      ghost ys: seq<LLNode>)
    requires Merging(d, last, a, xs, b, ys)
    modifies last
    ensures IsList(d[0].next, d[1..] + xs)
  {
    assert last in d;
    last.next := a;
    Appended(d, xs);
  }

  lemma MergeStep(d: seq<LLNode>, us: seq<LLNode>, vs: seq<LLNode>)
    requires d != [] && us != [] && vs != []
    ensures us[0].val <= vs[0].val ==> (d + [us[0]])[1..] + Merged(us[1..], vs) == d[1..] + Merged(us, vs)
    ensures us[0].val > vs[0].val ==> (d + [vs[0]])[1..] + Merged(us, vs[1..]) == d[1..] + Merged(us, vs)
  {
  }

  lemma Appended(d: seq<LLNode>, rest: seq<LLNode>)
    requires d != [] && Distinct(d) && Distinct(rest) && Apart(d, rest)
    requires Chain(d) && d[|d| - 1].next == NodeAt(rest, 0)
    requires forall k :: 0 <= k < |rest| ==> rest[k].next == NodeAt(rest, k + 1)
    ensures IsList(d[0].next, d[1..] + rest)
  {
    hide Distinct, Apart;
    var s := d[1..] + rest;
    TailApart(d, rest);
    DistinctJoin(d[1..], rest);
    forall k | 0 <= k < |s|
      ensures s[k].next == NodeAt(s, k + 1)
    {
      if k < |d| - 1 { assert s[k] == d[k + 1]; } else { assert s[k] == rest[k - (|d| - 1)]; }
    }
  }

  lemma TailApart(d: seq<LLNode>, rest: seq<LLNode>)
    requires d != [] && Distinct(d) && Apart(d, rest)
    ensures Distinct(d[1..]) && Apart(d[1..], rest)
  {
  }

  lemma DistinctJoin(a: seq<LLNode>, b: seq<LLNode>)
    requires Distinct(a) && Distinct(b) && Apart(a, b)
    ensures Distinct(a + b)
  {
    forall i, j | 0 <= i < |a| && 0 <= j < |b|
      ensures a[i] != b[j]
    {
      assert a[i] in a && b[j] in b;
    }
  }

  /** Splits behind the middle, sorts both halves and merges them, moving no value. */
  method MergeSortNode(head: LLNode?, ghost s: seq<LLNode>) returns (sorted: LLNode?)
    requires IsList(head, s)
    modifies s
    ensures IsList(sorted, Sorted(s))
    decreases |s|
  {
    hide IsList, Distinct, Sorted;
    Ends(head, s);
    if head == null || head.next == null { return head; }
    var second; ghost var a, b;
    second, a, b := SplitInMiddle(head, s);
    assert forall i :: 0 <= i < |b| ==> b[i] !in a;
    var x := MergeSortNode(head, a);
    assert IsList(second, b);
    SameNodes(a);
    assert forall i :: 0 <= i < |Sorted(a)| ==> Sorted(a)[i] !in b;
    var y := MergeSortNode(second, b);
    assert IsList(x, Sorted(a));
    SortedUnfold(s);
    SameNodes(a);
    SameNodes(b);
    ApartAmong(a, b, Sorted(a), Sorted(b));
    sorted := MergeSorted(x, y, Sorted(a), Sorted(b));
  }

  lemma RestAmong(s: seq<LLNode>, a: seq<LLNode>)
    requires Among(s, a, a) && s != []
    ensures Among(s[1..], a, a) && s[0] in a
  {
  }

  lemma Ends(head: LLNode?, s: seq<LLNode>)
    requires IsList(head, s)
    ensures head == NodeAt(s, 0) && (head != null ==> head in s)
    ensures head == null || head.next == null <==> |s| <= 1
    ensures |s| <= 1 ==> Sorted(s) == s
  {
  }

  lemma SortedUnfold(s: seq<LLNode>)
    requires |s| > 1
    ensures Sorted(s) == Merged(Sorted(s[..(|s| + 1) / 2]), Sorted(s[(|s| + 1) / 2..]))
  {
  }

  method SplitInMiddle(head: LLNode, ghost s: seq<LLNode>)
    returns (second: LLNode?, ghost a: seq<LLNode>, ghost b: seq<LLNode>)
    requires IsList(head, s) && |s| > 1
    modifies s
    ensures a == s[..(|s| + 1) / 2] && b == s[(|s| + 1) / 2..]
    ensures IsList(head, a) && IsList(second, b) && Apart(a, b)
    ensures Among(a, s, s) && Among(b, s, s)
  {
    var slow: LLNode, fast := head, head.next;
    ghost var i: nat := 0;
    while fast != null && fast.next != null
      invariant i < |s| && slow == s[i] && fast == NodeAt(s, 2 * i + 1) && 2 * i + 1 <= |s|
      decreases |s| - i
    {
      assert fast == s[2 * i + 1];
      assert slow.next == s[i + 1];
      slow := slow.next;
      fast := fast.next.next;
      i := i + 1;
    }
    ghost var m := (|s| + 1) / 2;
    assert i + 1 == m by {
      if fast != null { assert fast == s[2 * i + 1]; }
    }
    second := slow.next;
    slow.next := null;
    a, b := s[..m], s[m..];
    assert s == a + b;
    Halved(s, m);
  }

  /** Cutting the link behind position m - 1 leaves two lists. */
  lemma Halved(s: seq<LLNode>, m: nat)
    requires Distinct(s) && 0 < m <= |s| && s[m - 1].next == null
    requires forall k :: 0 <= k < |s| && k != m - 1 ==> s[k].next == NodeAt(s, k + 1)
    ensures IsList(NodeAt(s, 0), s[..m]) && IsList(NodeAt(s, m), s[m..]) && Apart(s[..m], s[m..])
  {
    Halves(s, m);
    var a, b := s[..m], s[m..];
    forall k | 0 <= k < |a|
      ensures a[k].next == NodeAt(a, k + 1)
    {
      assert a[k] == s[k];
    }
    forall k | 0 <= k < |b|
      ensures b[k].next == NodeAt(b, k + 1)
    {
      assert b[k] == s[m + k];
    }
  }

  lemma Halves(s: seq<LLNode>, m: nat)
    requires Distinct(s) && m <= |s|
    ensures Distinct(s[..m]) && Distinct(s[m..]) && Apart(s[..m], s[m..])
  {
  }

  lemma SameNodes(s: seq<LLNode>)
    ensures Among(Sorted(s), s, s)
  {
    SortedIs(s);
    var r := Sorted(s);
    forall i | 0 <= i < |r|
      ensures r[i] in s
    {
      assert r[i] in multiset(r);
    }
  }

  lemma ApartAmong(a: seq<LLNode>, b: seq<LLNode>, r: seq<LLNode>, s: seq<LLNode>)
    requires Apart(a, b) && Among(r, a, a) && Among(s, b, b)
    ensures Apart(r, s)
  {
  }
}
