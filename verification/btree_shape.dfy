/** B-trees as values: what they hold in order, which ones are well shaped, and what
    splitting, borrowing, merging and deleting do to them. */
module BTreeShape {
  import opened BTreeNodes

  datatype Tree = Tree(id: BTNode, keys: seq<int>, kids: seq<Tree>)

  // ---- the keys in order -------------------------------------------------------------------

  ghost function Inorder(t: Tree): seq<int> {
    if t.kids == [] then t.keys else Flat(t.kids, t.keys)
  }

  /** The children's keys with the separators between them. */
  ghost function Flat(ts: seq<Tree>, ks: seq<int>): seq<int> {
    if ts == [] then []
    else if ks == [] then Inorder(ts[0])
    else Inorder(ts[0]) + [ks[0]] + Flat(ts[1..], ks[1..])
  }

  /** Children each followed by its separator. */
  ghost function Pre(ts: seq<Tree>, ks: seq<int>): seq<int>
    requires |ts| == |ks|
  {
    if ts == [] then [] else Inorder(ts[0]) + [ks[0]] + Pre(ts[1..], ks[1..])
  }

  /** Children each led in by its separator. */
  ghost function Post(ts: seq<Tree>, ks: seq<int>): seq<int>
    requires |ts| == |ks|
  {
    if ts == [] then [] else [ks[0]] + Inorder(ts[0]) + Post(ts[1..], ks[1..])
  }

  lemma {:induction false} PreJoin(xs: seq<Tree>, ks: seq<int>, ys: seq<Tree>, ls: seq<int>)
    requires |xs| == |ks| && |ys| == |ls|
    ensures Pre(xs + ys, ks + ls) == Pre(xs, ks) + Pre(ys, ls)
  {
    if xs == [] {
      assert xs + ys == ys && ks + ls == ls;
    } else {
      assert (xs + ys)[1..] == xs[1..] + ys && (ks + ls)[1..] == ks[1..] + ls;
      PreJoin(xs[1..], ks[1..], ys, ls);
    }
  }

  lemma {:induction false} FlatJoin(xs: seq<Tree>, ks: seq<int>, c: Tree, ys: seq<Tree>, ls: seq<int>)
    requires |xs| == |ks| && |ys| == |ls|
    ensures Flat(xs + [c] + ys, ks + ls) == Pre(xs, ks) + Inorder(c) + Post(ys, ls)
  {
    hide Inorder, Post;
    if xs == [] {
      assert xs + [c] + ys == [c] + ys && ks + ls == ls;
      FlatPost(c, ys, ls);
    } else {
      RestJoined(xs, [c], ys);
      RestJoined(ks, [], ls);
      assert ks + [] + ls == ks + ls && ks[1..] + [] + ls == ks[1..] + ls;
      FlatJoin(xs[1..], ks[1..], c, ys, ls);
      Associate(Inorder(xs[0]), ks[0], Pre(xs[1..], ks[1..]), Inorder(c), Post(ys, ls));
    }
  }

  lemma RestJoined<A>(a: seq<A>, b: seq<A>, c: seq<A>)
    requires a != []
    ensures (a + b + c)[0] == a[0] && (a + b + c)[1..] == a[1..] + b + c && a + b + c != []
  {
  }

  lemma {:induction false} FlatPost(c: Tree, ys: seq<Tree>, ls: seq<int>)
    requires |ys| == |ls|
    ensures Flat([c] + ys, ls) == Inorder(c) + Post(ys, ls)
    decreases |ls|
  {
    assert ([c] + ys)[0] == c && ([c] + ys)[1..] == ys;
    if ls != [] {
      FlatPost(ys[0], ys[1..], ls[1..]);
      assert [ys[0]] + ys[1..] == ys;
    }
  }

  lemma Associate(a: seq<int>, k: int, b: seq<int>, c: seq<int>, d: seq<int>)
    ensures a + [k] + (b + c + d) == (a + [k] + b) + c + d
  {
  }

  /** Everything in front of child i, its separator included. */
  ghost function Before(t: Tree, i: nat): seq<int>
    requires |t.kids| == |t.keys| + 1 && i < |t.kids|
  {
    Pre(t.kids[..i], t.keys[..i])
  }

  /** Everything behind child i, its separator included. */
  ghost function After(t: Tree, i: nat): seq<int>
    requires |t.kids| == |t.keys| + 1 && i < |t.kids|
  {
    Post(t.kids[i + 1..], t.keys[i..])
  }

  lemma InorderAt(t: Tree, i: nat)
    requires |t.kids| == |t.keys| + 1 && i < |t.kids|
    ensures Inorder(t) == Before(t, i) + Inorder(t.kids[i]) + After(t, i)
  {
    hide Flat, Pre, Post;
    FlatJoin(t.kids[..i], t.keys[..i], t.kids[i], t.kids[i + 1..], t.keys[i..]);
    CutAround(t.kids, i);
    assert t.keys[..i] + t.keys[i..] == t.keys;
  }

  lemma CutAround<A>(s: seq<A>, i: nat)
    requires i < |s|
    ensures s[..i] + [s[i]] + s[i + 1..] == s
  {
  }

  lemma AfterLast(t: Tree)
    requires |t.kids| == |t.keys| + 1
    ensures After(t, |t.keys|) == []
  {
  }

  lemma BeforeFirst(t: Tree)
    requires |t.kids| == |t.keys| + 1
    ensures Before(t, 0) == []
  {
  }

  lemma BeforeNext(t: Tree, i: nat)
    requires |t.kids| == |t.keys| + 1 && i < |t.keys|
    ensures Before(t, i + 1) == Before(t, i) + Inorder(t.kids[i]) + [t.keys[i]]
  {
    PreJoin(t.kids[..i], t.keys[..i], [t.kids[i]], [t.keys[i]]);
    assert t.kids[..i] + [t.kids[i]] == t.kids[..i + 1] && t.keys[..i] + [t.keys[i]] == t.keys[..i + 1];
    assert Pre([t.kids[i]], [t.keys[i]]) == Inorder(t.kids[i]) + [t.keys[i]] by {
      assert Pre([], []) == [];
    }
  }

  lemma AfterNext(t: Tree, i: nat)
    requires |t.kids| == |t.keys| + 1 && i < |t.keys|
    ensures After(t, i) == [t.keys[i]] + Inorder(t.kids[i + 1]) + After(t, i + 1)
  {
    assert t.kids[i + 1..][0] == t.kids[i + 1] && t.kids[i + 1..][1..] == t.kids[i + 2..];
    assert t.keys[i..][0] == t.keys[i] && t.keys[i..][1..] == t.keys[i + 1..];
  }

  /** u is t with something else in place of child i and its successors up to child j. */
  ghost predicate SameAround(t: Tree, i: nat, j: nat, u: Tree, k: nat)
    requires |t.kids| == |t.keys| + 1 && i <= j < |t.kids|
    requires |u.kids| == |u.keys| + 1 && i <= k < |u.kids|
  {
    && u.kids[..i] == t.kids[..i] && u.keys[..i] == t.keys[..i]
    && u.kids[k + 1..] == t.kids[j + 1..] && u.keys[k..] == t.keys[j..]
  }

  lemma SurroundingsKept(t: Tree, i: nat, j: nat, u: Tree, k: nat)
    requires |t.kids| == |t.keys| + 1 && i <= j < |t.kids|
    requires |u.kids| == |u.keys| + 1 && i <= k < |u.kids|
    requires SameAround(t, i, j, u, k)
    ensures Before(u, i) == Before(t, i) && After(u, k) == After(t, j)
  {
  }

  /** Replacing child i replaces its keys. */
  lemma ChildReplaced(t: Tree, i: nat, c: Tree)
    requires |t.kids| == |t.keys| + 1 && i < |t.kids|
    ensures Inorder(Tree(t.id, t.keys, t.kids[i := c])) == Before(t, i) + Inorder(c) + After(t, i)
  {
    var u := Tree(t.id, t.keys, t.kids[i := c]);
    assert SameAround(t, i, i, u, i);
    SurroundingsKept(t, i, i, u, i);
    InorderAt(u, i);
  }

  // ---- sorted sequences --------------------------------------------------------------------

  ghost predicate Sorted(s: seq<int>) {
    forall i, j :: 0 <= i < j < |s| ==> s[i] <= s[j]
  }

  ghost predicate Ascending(s: seq<int>) {
    forall i, j :: 0 <= i < j < |s| ==> s[i] < s[j]
  }

  /** s with key put in front of the first larger element. */
  ghost function Inserted(s: seq<int>, key: int): seq<int> {
    if s == [] then [key]
    else if key < s[0] then [key] + s
    else [s[0]] + Inserted(s[1..], key)
  }

  lemma {:induction false} InsertedElements(s: seq<int>, key: int)
    ensures multiset(Inserted(s, key)) == multiset(s) + multiset{key}
    ensures forall x :: x in Inserted(s, key) <==> x in s || x == key
  {
    if s != [] && key >= s[0] {
      InsertedElements(s[1..], key);
      assert s == [s[0]] + s[1..];
    }
  }

  lemma {:induction false} InsertedSorted(s: seq<int>, key: int)
    requires Sorted(s)
    ensures Sorted(Inserted(s, key))
  {
    if s != [] && key >= s[0] {
      InsertedSorted(s[1..], key);
      InsertedElements(s[1..], key);
      SortedCons(s[0], Inserted(s[1..], key));
    }
  }

  lemma SortedCons(a: int, s: seq<int>)
    requires Sorted(s) && forall x :: x in s ==> a <= x
    ensures Sorted([a] + s)
  {
    forall j | 0 <= j < |s|
      ensures a <= s[j]
    {
      assert s[j] in s;
    }
  }

  lemma {:induction false} InsertedAscending(s: seq<int>, key: int)
    requires Ascending(s) && key !in s
    ensures Ascending(Inserted(s, key))
  {
    if s != [] && key >= s[0] {
      InsertedAscending(s[1..], key);
      InsertedElements(s[1..], key);
      AscendingCons(s[0], Inserted(s[1..], key));
    }
  }

  lemma AscendingCons(a: int, s: seq<int>)
    requires Ascending(s) && forall x :: x in s ==> a < x
    ensures Ascending([a] + s)
  {
    forall j | 0 <= j < |s|
      ensures a < s[j]
    {
      assert s[j] in s;
    }
  }

  /** Insertion into the middle part, if key belongs there. */
  lemma {:induction false} InsertedMiddle(a: seq<int>, b: seq<int>, c: seq<int>, key: int)
    requires forall i :: 0 <= i < |a| ==> a[i] <= key
    requires Sorted(c) && (c != [] ==> key <= c[0])
    ensures Inserted(a + b + c, key) == a + Inserted(b, key) + c
  {
    if a == [] {
      assert a + b + c == b + c;
      InsertedBefore(b, c, key);
      assert a + Inserted(b, key) + c == Inserted(b, key) + c;
    } else {
      InsertedMiddle(a[1..], b, c, key);
      ConsSlices(a, b, c);
      ConsSlices(a, Inserted(b, key), c);
    }
  }

  lemma ConsSlices(a: seq<int>, b: seq<int>, c: seq<int>)
    requires a != []
    ensures (a + b + c)[1..] == a[1..] + b + c && (a + b + c)[0] == a[0] && a + b + c != []
    ensures a + b + c == [a[0]] + (a[1..] + b + c)
  {
  }

  lemma {:induction false} InsertedBefore(b: seq<int>, c: seq<int>, key: int)
    requires Sorted(c) && (c != [] ==> key <= c[0])
    ensures Inserted(b + c, key) == Inserted(b, key) + c
  {
    if b == [] {
      assert b + c == c;
      InsertedFront(c, key);
    } else {
      assert (b + c)[1..] == b[1..] + c && (b + c)[0] == b[0];
      InsertedBefore(b[1..], c, key);
      assert [key] + (b + c) == ([key] + b) + c;
    }
  }

  lemma {:induction false} InsertedFront(c: seq<int>, key: int)
    requires Sorted(c) && (c != [] ==> key <= c[0])
    ensures Inserted(c, key) == [key] + c
  {
    if c != [] && key == c[0] {
      assert c == [c[0]] + c[1..];
      InsertedFront(c[1..], key);
    }
  }

  ghost function Without(s: seq<int>, key: int): seq<int> {
    if s == [] then []
    else (if s[0] == key then [] else [s[0]]) + Without(s[1..], key)
  }

  lemma {:induction false} WithoutAbsent(s: seq<int>, key: int)
    requires key !in s
    ensures Without(s, key) == s
  {
    if s != [] { WithoutAbsent(s[1..], key); }
  }

  lemma {:induction false} WithoutMiddle(a: seq<int>, key: int, b: seq<int>)
    requires key !in a && key !in b
    ensures Without(a + [key] + b, key) == a + b
  {
    var s := a + [key] + b;
    if a == [] {
      assert s[1..] == b;
      WithoutAbsent(b, key);
    } else {
      assert s[1..] == a[1..] + [key] + b;
      WithoutMiddle(a[1..], key, b);
    }
  }

  lemma {:induction false} WithoutContents(s: seq<int>, key: int)
    requires Ascending(s)
    ensures Ascending(Without(s, key))
    ensures forall x :: x in Without(s, key) <==> x in s && x != key
    ensures |Without(s, key)| == if key in s then |s| - 1 else |s|
  {
    if s != [] {
      WithoutContents(s[1..], key);
      if s[0] == key {
        WithoutAbsent(s[1..], key);
        assert [] + s[1..] == s[1..];
      } else {
        AscendingCons(s[0], Without(s[1..], key));
      }
    }
  }

  /** The elements of s that lie in [lo, hi]. */
  ghost function Within(s: seq<int>, lo: int, hi: int): seq<int> {
    if s == [] then []
    else (if lo <= s[0] <= hi then [s[0]] else []) + Within(s[1..], lo, hi)
  }

  lemma {:induction false} WithinConcat(a: seq<int>, b: seq<int>, lo: int, hi: int)
    ensures Within(a + b, lo, hi) == Within(a, lo, hi) + Within(b, lo, hi)
  {
    if a == [] {
      assert a + b == b;
    } else {
      assert (a + b)[1..] == a[1..] + b;
      WithinConcat(a[1..], b, lo, hi);
    }
  }

  lemma {:induction false} WithinElements(s: seq<int>, lo: int, hi: int)
    ensures forall x :: x in Within(s, lo, hi) <==> x in s && lo <= x <= hi
  {
    if s != [] { WithinElements(s[1..], lo, hi); }
  }

  lemma {:induction false} WithinSorted(s: seq<int>, lo: int, hi: int)
    requires Sorted(s)
    ensures Sorted(Within(s, lo, hi))
  {
    if s != [] {
      WithinSorted(s[1..], lo, hi);
      WithinElements(s[1..], lo, hi);
      if lo <= s[0] <= hi {
        SortedCons(s[0], Within(s[1..], lo, hi));
      } else {
        assert [] + Within(s[1..], lo, hi) == Within(s[1..], lo, hi);
      }
    }
  }

  // ---- shape -------------------------------------------------------------------------------

  /** All leaves h levels down, at least least keys here, T - 1 .. 2T - 1 below. */
  ghost predicate Shape(t: Tree, h: nat, least: nat)
    decreases h
  {
    && least <= |t.keys| <= MAX_KEYS
    && if h == 0 then t.kids == []
       else |t.kids| == |t.keys| + 1 && forall i :: 0 <= i < |t.kids| ==> Shape(t.kids[i], h - 1, T - 1)
  }

  // ---- splitting, borrowing, merging -------------------------------------------------------

  /** Two neighbours with the key between them, inside the rest. */
  lemma InorderAtPair(t: Tree, i: nat)
    requires |t.kids| == |t.keys| + 1 && i < |t.keys|
    ensures Inorder(t) == Before(t, i) + (Inorder(t.kids[i]) + [t.keys[i]] + Inorder(t.kids[i + 1])) + After(t, i + 1)
  {
    InorderAt(t, i);
    AfterNext(t, i);
    Regroup(Before(t, i), Inorder(t.kids[i]), t.keys[i], Inorder(t.kids[i + 1]), After(t, i + 1));
  }

  lemma Regroup(b: seq<int>, l: seq<int>, k: int, r: seq<int>, a: seq<int>)
    ensures b + l + ([k] + r + a) == b + (l + [k] + r) + a
  {
  }

  ghost function Merged(l: Tree, k: int, r: Tree): Tree {
    Tree(l.id, l.keys + [k] + r.keys, l.kids + r.kids)
  }

  lemma MergedInorder(l: Tree, k: int, r: Tree, h: nat)
    requires Shape(l, h, 0) && Shape(r, h, 0)
    ensures Inorder(Merged(l, k, r)) == Inorder(l) + [k] + Inorder(r)
  {
    if h > 0 {
      var m, n := Merged(l, k, r), |l.keys|;
      InorderAtPairOf(m, n, l, k, r);
    }
  }

  lemma InorderAtPairOf(m: Tree, n: nat, l: Tree, k: int, r: Tree)
    requires |l.kids| == |l.keys| + 1 && |r.kids| == |r.keys| + 1 && n == |l.keys|
    requires m == Merged(l, k, r)
    ensures Inorder(m) == Inorder(l) + [k] + Inorder(r)
  {
    hide Inorder, Before, After, Merged;
    MergedAround(m, n, l, k, r);
    InorderAt(m, n);
    AfterNext(m, n);
    InorderAt(l, n);
    AfterLast(l);
    InorderAt(r, 0);
    BeforeFirst(r);
    Regroup3(Before(l, n), Inorder(l.kids[n]), k, Inorder(r.kids[0]), After(r, 0));
  }

  lemma MergedAround(m: Tree, n: nat, l: Tree, k: int, r: Tree)
    requires |l.kids| == |l.keys| + 1 && |r.kids| == |r.keys| + 1 && n == |l.keys|
    requires m == Merged(l, k, r)
    ensures |m.kids| == |m.keys| + 1 && n < |m.keys|
    ensures m.keys[n] == k && m.kids[n] == l.kids[n] && m.kids[n + 1] == r.kids[0]
    ensures Before(m, n) == Before(l, n) && After(m, n + 1) == After(r, 0)
  {
    hide Pre, Post;
    assert m.kids[..n] == l.kids[..n] && m.keys[..n] == l.keys[..n];
    assert m.kids[n + 2..] == r.kids[1..] && m.keys[n + 1..] == r.keys[0..];
  }

  lemma Regroup3(b: seq<int>, l: seq<int>, k: int, r: seq<int>, a: seq<int>)
    ensures b + l + ([k] + r + a) == (b + l + []) + [k] + ([] + r + a)
  {
  }

  ghost function LowerHalf(y: Tree): Tree
    requires |y.keys| == MAX_KEYS && (y.kids == [] || |y.kids| == MAX_KEYS + 1)
  {
    Tree(y.id, y.keys[..T - 1], if y.kids == [] then [] else y.kids[..T])
  }

  ghost function UpperHalf(y: Tree, z: BTNode): Tree
    requires |y.keys| == MAX_KEYS && (y.kids == [] || |y.kids| == MAX_KEYS + 1)
  {
    Tree(z, y.keys[T..], if y.kids == [] then [] else y.kids[T..])
  }

  lemma Halves(y: Tree, z: BTNode, h: nat)
    requires Shape(y, h, T - 1) && |y.keys| == MAX_KEYS
    ensures Shape(LowerHalf(y), h, T - 1) && Shape(UpperHalf(y, z), h, T - 1)
    ensures Inorder(y) == Inorder(LowerHalf(y)) + [y.keys[T - 1]] + Inorder(UpperHalf(y, z))
  {
    var l, r := LowerHalf(y), UpperHalf(y, z);
    if h > 0 {
      assert forall j :: 0 <= j < T ==> r.kids[j] == y.kids[j + T];
    }
    ShapeLess(l, h, T - 1, 0);
    ShapeLess(r, h, T - 1, 0);
    MergedInorder(l, y.keys[T - 1], r, h);
    assert l.keys + [y.keys[T - 1]] + r.keys == y.keys;
    assert l.kids + r.kids == y.kids;
    assert Merged(l, y.keys[T - 1], r) == y;
  }

  lemma ShapeLess(t: Tree, h: nat, least: nat, less: nat)
    requires Shape(t, h, least) && less <= least
    ensures Shape(t, h, less)
  {
  }

  /** t after splitting its full child i, the new node being z. */
  ghost function Split(t: Tree, i: nat, z: BTNode): Tree
    requires |t.kids| == |t.keys| + 1 && i < |t.kids|
    requires |t.kids[i].keys| == MAX_KEYS && (t.kids[i].kids == [] || |t.kids[i].kids| == MAX_KEYS + 1)
  {
    var y := t.kids[i];
    Tree(t.id, Insert(t.keys, i, y.keys[T - 1]), Insert(t.kids[i := LowerHalf(y)], i + 1, UpperHalf(y, z)))
  }

  ghost function WithKid(t: Tree, i: nat, c: Tree): Tree
    requires i < |t.kids|
  {
    Tree(t.id, t.keys, t.kids[i := c])
  }

  lemma FullChild(t: Tree, i: nat, h: nat, least: nat)
    requires h > 0 && Shape(t, h, least) && i < |t.kids|
    ensures |t.kids| == |t.keys| + 1 && Shape(t.kids[i], h - 1, T - 1)
    ensures |t.kids[i].keys| == MAX_KEYS ==> t.kids[i].kids == [] || |t.kids[i].kids| == MAX_KEYS + 1
    ensures (t.kids[i].kids == []) == (h == 1)
  {
    assert Shape(t.kids[i], h - 1, T - 1);
  }

  ghost predicate Splittable(t: Tree, i: nat, h: nat, least: nat) {
    && h > 0 && Shape(t, h, least) && |t.kids| == |t.keys| + 1 && i < |t.kids|
    && |t.keys| < MAX_KEYS && |t.kids[i].keys| == MAX_KEYS
    && (t.kids[i].kids == [] || |t.kids[i].kids| == MAX_KEYS + 1)
  }

  lemma SplitParts(t: Tree, i: nat, z: BTNode, h: nat, least: nat)
    requires Splittable(t, i, h, least)
    ensures var s, y := Split(t, i, z), t.kids[i];
      && |s.kids| == |s.keys| + 1 && |s.keys| == |t.keys| + 1
      && s.kids[i] == LowerHalf(y) && s.kids[i + 1] == UpperHalf(y, z) && s.keys[i] == y.keys[T - 1]
      && SameAround(t, i, i, s, i + 1)
  {
  }

  lemma SplitShape(t: Tree, i: nat, z: BTNode, h: nat, least: nat)
    requires Splittable(t, i, h, least)
    ensures Shape(Split(t, i, z), h, least)
  {
    var s := Split(t, i, z);
    Halves(t.kids[i], z, h - 1);
    SplitParts(t, i, z, h, least);
    AroundShape(t, i, i, s, i + 1, h, least, least);
  }

  lemma AroundShape(t: Tree, i: nat, j: nat, u: Tree, k: nat, h: nat, least: nat, less: nat)
    requires h > 0 && Shape(t, h, least) && i <= j < |t.kids|
    requires |u.kids| == |u.keys| + 1 && i <= k < |u.kids| && SameAround(t, i, j, u, k)
    requires less <= |u.keys| <= MAX_KEYS
    requires forall m :: i <= m <= k ==> Shape(u.kids[m], h - 1, T - 1)
    ensures Shape(u, h, less)
  {
    forall m | 0 <= m < |u.kids|
      ensures Shape(u.kids[m], h - 1, T - 1)
    {
      if m < i {
        assert u.kids[m] == u.kids[..i][m] == t.kids[..i][m] == t.kids[m];
      } else if m > k {
        assert u.kids[m] == u.kids[k + 1..][m - (k + 1)] == t.kids[j + 1..][m - (k + 1)] == t.kids[m - k + j];
      }
    }
  }

  lemma SplitInorder(t: Tree, i: nat, z: BTNode, h: nat, least: nat)
    requires Splittable(t, i, h, least)
    ensures Inorder(Split(t, i, z)) == Inorder(t)
  {
    hide Inorder, Before, After, Split, LowerHalf, UpperHalf, SameAround;
    var s := Split(t, i, z);
    FullChild(t, i, h, least);
    Halves(t.kids[i], z, h - 1);
    SplitParts(t, i, z, h, least);
    SurroundingsKept(t, i, i, s, i + 1);
    InorderAtPair(s, i);
    InorderAt(t, i);
  }

  ghost function LastOf<A>(s: seq<A>): A
    requires s != []
  {
    s[|s| - 1]
  }

  ghost function FrontOf<A>(s: seq<A>): seq<A> {
    if s == [] then [] else s[..|s| - 1]
  }

  ghost function RestOf<A>(s: seq<A>): seq<A> {
    if s == [] then [] else s[1..]
  }

  /** Child i after it has borrowed from its left neighbour, and that neighbour. */
  ghost function BorrowLeft(t: Tree, i: nat): Tree
    requires 0 < i < |t.kids| && |t.kids| == |t.keys| + 1 && t.kids[i - 1].keys != []
  {
    var s, c := t.kids[i - 1], t.kids[i];
    Tree(t.id, t.keys[i - 1 := LastOf(s.keys)],
         t.kids[i - 1 := Tree(s.id, FrontOf(s.keys), FrontOf(s.kids))]
               [i := Tree(c.id, [t.keys[i - 1]] + c.keys, if s.kids == [] then c.kids else [LastOf(s.kids)] + c.kids)])
  }

  ghost function BorrowRight(t: Tree, i: nat): Tree
    requires i + 1 < |t.kids| && |t.kids| == |t.keys| + 1 && t.kids[i + 1].keys != []
  {
    var s, c := t.kids[i + 1], t.kids[i];
    Tree(t.id, t.keys[i := s.keys[0]],
         t.kids[i := Tree(c.id, c.keys + [t.keys[i]], if s.kids == [] then c.kids else c.kids + [s.kids[0]])]
               [i + 1 := Tree(s.id, RestOf(s.keys), RestOf(s.kids))])
  }

  /** The children i and i + 1 joined around the key between them. */
  ghost function Merge(t: Tree, i: nat): Tree
    requires i + 1 < |t.kids| && |t.kids| == |t.keys| + 1
  {
    Tree(t.id, Drop(t.keys, i), Drop(t.kids[i := Merged(t.kids[i], t.keys[i], t.kids[i + 1])], i + 1))
  }

  /** Two neighbours and the key between them may be exchanged for others with the same
      keys in order. */
  lemma PairReplaced(t: Tree, i: nat, u: Tree)
    requires |t.kids| == |t.keys| + 1 && i + 1 < |t.kids| && |u.kids| == |u.keys| + 1 && i + 1 < |u.kids|
    requires SameAround(t, i, i + 1, u, i + 1)
    requires Inorder(u.kids[i]) + [u.keys[i]] + Inorder(u.kids[i + 1])
      == Inorder(t.kids[i]) + [t.keys[i]] + Inorder(t.kids[i + 1])
    ensures Inorder(u) == Inorder(t)
    ensures Before(u, i) == Before(t, i) && After(u, i + 1) == After(t, i + 1)
  {
    hide Inorder, Before, After, SameAround;
    SurroundingsKept(t, i, i + 1, u, i + 1);
    InorderAtPair(t, i);
    InorderAtPair(u, i);
  }

  lemma BorrowLeftParts(t: Tree, i: nat, h: nat, least: nat)
    requires h > 0 && Shape(t, h, least) && 0 < i < |t.kids|
    requires |t.kids[i - 1].keys| >= T && |t.kids[i].keys| == T - 1
    ensures var f := BorrowLeft(t, i);
      && |f.kids| == |f.keys| + 1 == |t.kids| && |f.kids[i].keys| == T
      && Shape(f.kids[i - 1], h - 1, T - 1) && Shape(f.kids[i], h - 1, T - 1)
      && SameAround(t, i - 1, i, f, i)
      && Inorder(f.kids[i - 1]) + [f.keys[i - 1]] + Inorder(f.kids[i])
        == Inorder(t.kids[i - 1]) + [t.keys[i - 1]] + Inorder(t.kids[i])
      && |Inorder(f.kids[i - 1])| <= |Inorder(t.kids[i - 1])|
  {
    var f := BorrowLeft(t, i);
    FullChild(t, i - 1, h, least);
    FullChild(t, i, h, least);
    Rotated(f.kids[i - 1], f.keys[i - 1], t.kids[i - 1], t.keys[i - 1], t.kids[i], f.kids[i], h - 1);
  }

  lemma BorrowLeftInorder(t: Tree, i: nat, h: nat, least: nat)
    requires h > 0 && Shape(t, h, least) && 0 < i < |t.kids|
    requires |t.kids[i - 1].keys| >= T && |t.kids[i].keys| == T - 1
    ensures Shape(BorrowLeft(t, i), h, least) && |BorrowLeft(t, i).kids[i].keys| == T
    ensures Inorder(BorrowLeft(t, i)) == Inorder(t)
    ensures |Before(BorrowLeft(t, i), i)| <= |Before(t, i)|
    ensures After(BorrowLeft(t, i), i) == After(t, i)
  {
    var f := BorrowLeft(t, i);
    BorrowLeftParts(t, i, h, least);
    AroundShape(t, i - 1, i, f, i, h, least, least);
    PairReplaced(t, i - 1, f);
    BeforeNext(t, i - 1);
    BeforeNext(f, i - 1);
  }

  /** The last key of s and the separator k rotate over to c. */
  lemma Rotated(s': Tree, m: int, s: Tree, k: int, c: Tree, c': Tree, h: nat)
    requires Shape(s, h, T) && Shape(c, h, T - 1) && |c.keys| < MAX_KEYS && m == LastOf(s.keys)
    requires s'.keys == FrontOf(s.keys) && s'.kids == FrontOf(s.kids)
    requires c'.keys == [k] + c.keys && c'.kids == if s.kids == [] then c.kids else [LastOf(s.kids)] + c.kids
    ensures Shape(s', h, T - 1) && Shape(c', h, T - 1)
    ensures Inorder(s') + [m] + Inorder(c') == Inorder(s) + [k] + Inorder(c)
    ensures |Inorder(s')| <= |Inorder(s)|
  {
    hide Inorder, Shape;
    Ends(s.keys);
    Ends(s.kids);
    ShapeSizes(s, h, T);
    ShapeSizes(c, h, T - 1);
    if h == 0 {
      LeafShape(s', c', h);
      LeafInorder(s, s');
      LeafInorder(c, c');
      RotatedLeaf(s'.keys, m, k, c.keys);
    } else {
      RotatedShape(s', s, c, c', h);
      RotatedInorder(s', m, s, k, c, c', LastOf(s.kids));
      LongerLeft(s', m, s, LastOf(s.kids));
    }
  }

  lemma Ends<A>(s: seq<A>)
    ensures s != [] ==> s == FrontOf(s) + [LastOf(s)] && s == [s[0]] + RestOf(s)
    ensures |FrontOf(s)| == |RestOf(s)| == if s == [] then 0 else |s| - 1
  {
  }

  lemma ShapeSizes(t: Tree, h: nat, least: nat)
    requires Shape(t, h, least)
    ensures least <= |t.keys| <= MAX_KEYS && if h == 0 then t.kids == [] else |t.kids| == |t.keys| + 1
  {
  }

  lemma LeafShape(l: Tree, r: Tree, h: nat)
    requires h == 0 && l.kids == [] && r.kids == [] && T - 1 <= |l.keys| <= MAX_KEYS && T - 1 <= |r.keys| <= MAX_KEYS
    ensures Shape(l, h, T - 1) && Shape(r, h, T - 1)
  {
  }

  lemma LeafInorder(l: Tree, r: Tree)
    requires l.kids == [] && r.kids == []
    ensures Inorder(l) == l.keys && Inorder(r) == r.keys
  {
  }

  lemma RotatedLeaf(a: seq<int>, m: int, k: int, b: seq<int>)
    ensures a + [m] + ([k] + b) == (a + [m]) + [k] + b
  {
  }

  /** A child that moves from the end of s to the front of c moves nothing in order. */
  lemma RotatedInorder(s': Tree, m: int, s: Tree, k: int, c: Tree, c': Tree, last: Tree)
    requires |s'.kids| == |s'.keys| + 1 && s.kids == s'.kids + [last] && s.keys == s'.keys + [m]
    requires |c.kids| == |c.keys| + 1 && c'.kids == [last] + c.kids && c'.keys == [k] + c.keys
    ensures Inorder(s') + [m] + Inorder(c') == Inorder(s) + [k] + Inorder(c)
  {
    LongerLeft(s', m, s, last);
    LongerRight(c, k, c', last);
    hide Inorder;
    Regroup4(Inorder(s'), m, Inorder(last), k, Inorder(c));
  }

  lemma LongerLeft(s': Tree, m: int, s: Tree, last: Tree)
    requires |s'.kids| == |s'.keys| + 1 && s.kids == s'.kids + [last] && s.keys == s'.keys + [m]
    ensures Inorder(s) == Inorder(s') + [m] + Inorder(last)
  {
    var bare := Tree(last.id, [], [last]);
    assert Inorder(bare) == Inorder(last);
    InorderAtPairOf(Merged(s', m, bare), |s'.keys|, s', m, bare);
    assert s'.keys + [m] + [] == s'.keys + [m];
    SameInorder(s, Merged(s', m, bare));
  }

  lemma LongerRight(c: Tree, k: int, c': Tree, first: Tree)
    requires |c.kids| == |c.keys| + 1 && c'.kids == [first] + c.kids && c'.keys == [k] + c.keys
    ensures Inorder(c') == Inorder(first) + [k] + Inorder(c)
  {
    var bare := Tree(first.id, [], [first]);
    assert Inorder(bare) == Inorder(first);
    InorderAtPairOf(Merged(bare, k, c), 0, bare, k, c);
    assert [] + [k] + c.keys == [k] + c.keys;
    SameInorder(c', Merged(bare, k, c));
  }

  ghost predicate KidShapes(ts: seq<Tree>, h: nat) {
    forall j :: 0 <= j < |ts| ==> Shape(ts[j], h, T - 1)
  }

  lemma KidShapesOf(t: Tree, h: nat, least: nat)
    requires h > 0 && Shape(t, h, least)
    ensures KidShapes(t.kids, h - 1) && |t.kids| == |t.keys| + 1
  {
  }

  lemma ShapeOf(t: Tree, h: nat, least: nat)
    requires h > 0 && least <= |t.keys| <= MAX_KEYS && |t.kids| == |t.keys| + 1 && KidShapes(t.kids, h - 1)
    ensures Shape(t, h, least)
  {
  }

  lemma FewerKids(s: seq<Tree>, h: nat)
    requires KidShapes(s, h)
    ensures KidShapes(FrontOf(s), h) && KidShapes(RestOf(s), h)
  {
  }

  lemma MoreKids(a: seq<Tree>, b: seq<Tree>, h: nat)
    requires KidShapes(a, h) && KidShapes(b, h)
    ensures KidShapes(a + b, h)
  {
  }

  lemma RotatedShape(s': Tree, s: Tree, c: Tree, c': Tree, h: nat)
    requires h > 0 && Shape(s, h, T) && Shape(c, h, T - 1) && |c.keys| < MAX_KEYS
    requires |s'.keys| == |s.keys| - 1 && s'.kids == FrontOf(s.kids)
    requires |c'.keys| == |c.keys| + 1 && c'.kids == [LastOf(s.kids)] + c.kids
    ensures Shape(s', h, T - 1) && Shape(c', h, T - 1)
  {
    hide Shape;
    ShapeSizes(s, h, T);
    ShapeSizes(c, h, T - 1);
    KidShapesOf(s, h, T);
    KidShapesOf(c, h, T - 1);
    FewerKids(s.kids, h - 1);
    MoreKids([LastOf(s.kids)], c.kids, h - 1);
    ShapeOf(s', h, T - 1);
    ShapeOf(c', h, T - 1);
  }

  lemma SameInorder(t: Tree, u: Tree)
    requires t.keys == u.keys && t.kids == u.kids
    ensures Inorder(t) == Inorder(u)
  {
  }

  lemma Regroup4(a: seq<int>, m: int, b: seq<int>, k: int, c: seq<int>)
    ensures a + [m] + (b + [k] + c) == (a + [m] + b) + [k] + c
  {
  }

  lemma BorrowRightParts(t: Tree, i: nat, h: nat, least: nat)
    requires h > 0 && Shape(t, h, least) && i + 1 < |t.kids|
    requires |t.kids[i + 1].keys| >= T && |t.kids[i].keys| == T - 1
    ensures var f := BorrowRight(t, i);
      && |f.kids| == |f.keys| + 1 == |t.kids| && |f.kids[i].keys| == T
      && Shape(f.kids[i], h - 1, T - 1) && Shape(f.kids[i + 1], h - 1, T - 1)
      && SameAround(t, i, i + 1, f, i + 1)
      && Inorder(f.kids[i]) + [f.keys[i]] + Inorder(f.kids[i + 1])
        == Inorder(t.kids[i]) + [t.keys[i]] + Inorder(t.kids[i + 1])
      && |Inorder(f.kids[i + 1])| <= |Inorder(t.kids[i + 1])|
  {
    var f := BorrowRight(t, i);
    FullChild(t, i, h, least);
    FullChild(t, i + 1, h, least);
    RotatedBack(f.kids[i + 1], f.keys[i], t.kids[i + 1], t.keys[i], t.kids[i], f.kids[i], h - 1);
  }

  lemma BorrowRightInorder(t: Tree, i: nat, h: nat, least: nat)
    requires h > 0 && Shape(t, h, least) && i + 1 < |t.kids|
    requires |t.kids[i + 1].keys| >= T && |t.kids[i].keys| == T - 1
    ensures Shape(BorrowRight(t, i), h, least) && |BorrowRight(t, i).kids[i].keys| == T
    ensures Inorder(BorrowRight(t, i)) == Inorder(t)
    ensures Before(BorrowRight(t, i), i) == Before(t, i)
    ensures |After(BorrowRight(t, i), i)| <= |After(t, i)|
  {
    var f := BorrowRight(t, i);
    BorrowRightParts(t, i, h, least);
    AroundShape(t, i, i + 1, f, i + 1, h, least, least);
    PairReplaced(t, i, f);
    AfterNext(t, i);
    AfterNext(f, i);
  }

  /** The first key of s and the separator k rotate back to c. */
  lemma RotatedBack(s': Tree, m: int, s: Tree, k: int, c: Tree, c': Tree, h: nat)
    requires Shape(s, h, T) && Shape(c, h, T - 1) && |c.keys| < MAX_KEYS && m == s.keys[0]
    requires s'.keys == RestOf(s.keys) && s'.kids == RestOf(s.kids)
    requires c'.keys == c.keys + [k] && c'.kids == if s.kids == [] then c.kids else c.kids + [s.kids[0]]
    ensures Shape(s', h, T - 1) && Shape(c', h, T - 1)
    ensures Inorder(c') + [m] + Inorder(s') == Inorder(c) + [k] + Inorder(s)
    ensures |Inorder(s')| <= |Inorder(s)|
  {
    hide Inorder, Shape;
    Ends(s.keys);
    Ends(s.kids);
    ShapeSizes(s, h, T);
    ShapeSizes(c, h, T - 1);
    if h == 0 {
      LeafShape(s', c', h);
      LeafInorder(s, s');
      LeafInorder(c, c');
      RotatedLeaf(c.keys, k, m, s'.keys);
    } else {
      RotatedBackShape(s', s, c, c', h);
      RotatedInorder(c, k, c', m, s', s, s.kids[0]);
      LongerRight(s', m, s, s.kids[0]);
    }
  }

  lemma RotatedBackShape(s': Tree, s: Tree, c: Tree, c': Tree, h: nat)
    requires h > 0 && Shape(s, h, T) && Shape(c, h, T - 1) && |c.keys| < MAX_KEYS
    requires |s'.keys| == |s.keys| - 1 && s'.kids == RestOf(s.kids)
    requires |c'.keys| == |c.keys| + 1 && c'.kids == c.kids + [s.kids[0]]
    ensures Shape(s', h, T - 1) && Shape(c', h, T - 1)
  {
    hide Shape;
    ShapeSizes(s, h, T);
    ShapeSizes(c, h, T - 1);
    KidShapesOf(s, h, T);
    KidShapesOf(c, h, T - 1);
    FewerKids(s.kids, h - 1);
    MoreKids(c.kids, [s.kids[0]], h - 1);
    ShapeOf(s', h, T - 1);
    ShapeOf(c', h, T - 1);
  }

  lemma MergeParts(t: Tree, i: nat, h: nat, least: nat)
    requires h > 0 && Shape(t, h, least) && i + 1 < |t.kids|
    requires |t.kids[i].keys| == T - 1 && |t.kids[i + 1].keys| == T - 1
    ensures var f := Merge(t, i);
      && |f.kids| == |f.keys| + 1 == |t.kids| - 1 && |f.kids[i].keys| == MAX_KEYS
      && Shape(f.kids[i], h - 1, T - 1)
      && SameAround(t, i, i + 1, f, i)
      && Inorder(f.kids[i]) == Inorder(t.kids[i]) + [t.keys[i]] + Inorder(t.kids[i + 1])
  {
    var l, k, r := t.kids[i], t.keys[i], t.kids[i + 1];
    FullChild(t, i, h, least);
    FullChild(t, i + 1, h, least);
    ShapeLess(l, h - 1, T - 1, 0);
    ShapeLess(r, h - 1, T - 1, 0);
    MergedInorder(l, k, r, h - 1);
  }

  lemma MergeInorder(t: Tree, i: nat, h: nat, least: nat)
    requires h > 0 && Shape(t, h, least) && i + 1 < |t.kids|
    requires |t.kids[i].keys| == T - 1 && |t.kids[i + 1].keys| == T - 1
    ensures Shape(Merge(t, i), h, if least == 0 then 0 else least - 1)
    ensures |Merge(t, i).keys| == |t.keys| - 1 && |Merge(t, i).kids[i].keys| == MAX_KEYS
    ensures Inorder(Merge(t, i)) == Inorder(t)
    ensures Before(Merge(t, i), i) == Before(t, i) && After(Merge(t, i), i) == After(t, i + 1)
  {
    var f := Merge(t, i);
    MergeParts(t, i, h, least);
    AroundShape(t, i, i + 1, f, i, h, least, if least == 0 then 0 else least - 1);
    SurroundingsKept(t, i, i + 1, f, i);
    InorderAt(f, i);
    InorderAtPair(t, i);
  }
}
