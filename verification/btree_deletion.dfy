/** Deleting from a B-tree, as a function of the tree before: which branch is taken
    where, what the result holds, and when the key survives. */
module BTreeDeletion {
  import opened BTreeNodes
  import opened BTreeShape

  /** Brings child i up to T keys: borrow from the left, else from the right, else merge. */
  ghost function Fix(t: Tree, i: nat): Tree
    requires |t.kids| == |t.keys| + 1 && |t.keys| >= 1 && i < |t.kids|
  {
    if i > 0 && |t.kids[i - 1].keys| >= T then BorrowLeft(t, i)
    else if i < |t.keys| && |t.kids[i + 1].keys| >= T then BorrowRight(t, i)
    else Merge(t, if i < |t.keys| then i else i - 1)
  }

  /** Which neighbour the repair draws on: the left one if it can spare a key, whatever the right
      one could do; the right one only if the left one cannot; and if neither can, child i joins
      the right one, or the left one if it is the last. A neighbour that is not drawn on stays as
      it is. */
  lemma LeftFirst(t: Tree, i: nat)
    requires |t.kids| == |t.keys| + 1 && |t.keys| >= 1 && i < |t.kids|
    ensures var f := Fix(t, i);
      var left, right := i > 0 && |t.kids[i - 1].keys| >= 3, i < |t.keys| && |t.kids[i + 1].keys| >= 3;
      && |f.kids| == |t.kids| - (if left || right then 0 else 1)
      && (left ==>
        && t.kids[i - 1].keys == f.kids[i - 1].keys + [f.keys[i - 1]]
        && f.kids[i].keys == [t.keys[i - 1]] + t.kids[i].keys
        && (i < |t.keys| ==> f.kids[i + 1] == t.kids[i + 1] && f.keys[i] == t.keys[i]))
      && (right && !left ==>
        && t.kids[i + 1].keys == [f.keys[i]] + f.kids[i + 1].keys
        && f.kids[i].keys == t.kids[i].keys + [t.keys[i]]
        && (i > 0 ==> f.kids[i - 1] == t.kids[i - 1] && f.keys[i - 1] == t.keys[i - 1]))
      && (!left && !right && i < |t.keys| ==>
        && f.kids[i].keys == t.kids[i].keys + [t.keys[i]] + t.kids[i + 1].keys
        && f.keys == t.keys[..i] + t.keys[i + 1..])
      && (!left && !right && i == |t.keys| ==>
        && f.kids[i - 1].keys == t.kids[i - 1].keys + [t.keys[i - 1]] + t.kids[i].keys
        && f.keys == t.keys[..i - 1])
  {
    if i > 0 && |t.kids[i - 1].keys| >= T {
      var c := t.kids[i - 1].keys;
      assert c == c[..|c| - 1] + [c[|c| - 1]];
    }
  }

  /** Where child i is after Fix. */
  ghost function Moved(f: Tree, i: nat): nat
    requires i <= |f.keys| + 1
  {
    if i > |f.keys| then i - 1 else i
  }

  ghost predicate Deletable(t: Tree, h: nat) {
    Shape(t, h, if h == 0 then 0 else 1)
  }

  lemma KidsDeletable(t: Tree, h: nat)
    requires Deletable(t, h) && h > 0
    ensures |t.kids| == |t.keys| + 1 && |t.keys| >= 1
    ensures forall j :: 0 <= j < |t.kids| ==> Shape(t.kids[j], h - 1, T - 1) && Deletable(t.kids[j], h - 1)
  {
    forall j | 0 <= j < |t.kids|
      ensures Shape(t.kids[j], h - 1, T - 1) && Deletable(t.kids[j], h - 1)
    {
      ShapeLess(t.kids[j], h - 1, T - 1, 1);
      ShapeLess(t.kids[j], h - 1, T - 1, 0);
    }
  }

  ghost predicate Fixable(t: Tree, i: nat, h: nat, least: nat) {
    && h > 0 && least >= 1 && Shape(t, h, least) && |t.kids| == |t.keys| + 1
    && i < |t.kids| && |t.kids[i].keys| == T - 1
  }

  ghost predicate Fixed(t: Tree, i: nat, f: Tree, d: nat, h: nat, least: nat)
    requires |t.kids| == |t.keys| + 1 && i < |t.kids|
  {
    && least >= 1 && Shape(f, h, least - 1) && |f.kids| == |f.keys| + 1 && d < |f.kids|
    && |f.kids[d].keys| >= T
    && Inorder(f) == Inorder(t)
    && |Before(f, d)| <= |Before(t, i)| && |After(f, d)| <= |After(t, i)|
  }

  /** The child has keys to spare, the node has lost at most one, nothing moved in order. */
  lemma FixGood(t: Tree, i: nat, h: nat, least: nat)
    requires Fixable(t, i, h, least)
    ensures |t.keys| >= 1 && i <= |Fix(t, i).keys| + 1
    ensures Fixed(t, i, Fix(t, i), Moved(Fix(t, i), i), h, least)
  {
    if i > 0 && |t.kids[i - 1].keys| >= T {
      BorrowLeftInorder(t, i, h, least);
      ShapeLess(Fix(t, i), h, least, least - 1);
    } else if i < |t.keys| && |t.kids[i + 1].keys| >= T {
      BorrowRightInorder(t, i, h, least);
      ShapeLess(Fix(t, i), h, least, least - 1);
    } else if i < |t.keys| {
      FullChild(t, i + 1, h, least);
      MergeInorder(t, i, h, least);
      AfterNext(t, i);
    } else {
      FullChild(t, i - 1, h, least);
      MergeInorder(t, i - 1, h, least);
      BeforeNext(t, i - 1);
    }
  }

  ghost function MaxKey(t: Tree): int
    requires t.kids == [] ==> t.keys != []
  {
    if t.kids == [] then LastOf(t.keys)
    else if LastOf(t.kids).kids == [] && LastOf(t.kids).keys == [] then 0
    else MaxKey(LastOf(t.kids))
  }

  ghost function MinKey(t: Tree): int
    requires t.kids == [] ==> t.keys != []
  {
    if t.kids == [] then t.keys[0]
    else if t.kids[0].kids == [] && t.kids[0].keys == [] then 0
    else MinKey(t.kids[0])
  }

  lemma {:induction false} MaxIsLast(t: Tree, h: nat)
    requires Shape(t, h, 1)
    ensures Inorder(t) != [] && LastOf(Inorder(t)) == MaxKey(t)
    decreases h
  {
    if h > 0 {
      var n := |t.keys|;
      ShapeLess(t.kids[n], h - 1, T - 1, 1);
      MaxIsLast(t.kids[n], h - 1);
      InorderAt(t, n);
      assert After(t, n) == [];
    }
  }

  lemma {:induction false} MinIsFirst(t: Tree, h: nat)
    requires Shape(t, h, 1)
    ensures Inorder(t) != [] && Inorder(t)[0] == MinKey(t)
    decreases h
  {
    if h > 0 {
      ShapeLess(t.kids[0], h - 1, T - 1, 1);
      MinIsFirst(t.kids[0], h - 1);
      InorderAt(t, 0);
      assert Before(t, 0) == [];
    }
  }

  /** The tree with child i brought up to T keys if it has fewer. */
  ghost function Ready(t: Tree, i: nat): Tree
    requires |t.kids| == |t.keys| + 1 && |t.keys| >= 1 && i < |t.kids|
  {
    if |t.kids[i].keys| < T then Fix(t, i) else t
  }

  lemma MinimalChild(t: Tree, i: nat, h: nat)
    requires Deletable(t, h) && h > 0 && i <= |t.keys|
    ensures |t.kids| == |t.keys| + 1 && (|t.kids[i].keys| < T ==> |t.kids[i].keys| == T - 1)
  {
    FullChild(t, i, h, 1);
  }

  lemma ReadyGood(t: Tree, i: nat, h: nat)
    requires Deletable(t, h) && h > 0 && i <= |t.keys|
    ensures |t.kids| == |t.keys| + 1 && |t.keys| >= 1 && i <= |Ready(t, i).keys| + 1
    ensures Fixed(t, i, Ready(t, i), Moved(Ready(t, i), i), h, 1)
    ensures Deletable(Ready(t, i).kids[Moved(Ready(t, i), i)], h - 1)
  {
    hide Fix, Inorder, Before, After, Shape;
    KidsDeletable(t, h);
    if |t.kids[i].keys| < T {
      MinimalChild(t, i, h);
      FixGood(t, i, h, 1);
    } else {
      ShapeLess(t, h, 1, 0);
    }
    var f, d := Ready(t, i), Moved(Ready(t, i), i);
    FullChild(f, d, h, 0);
    ShapeLess(f.kids[d], h - 1, T - 1, 1);
    ShapeLess(f.kids[d], h - 1, T - 1, 0);
  }

  ghost predicate Found(t: Tree, i: nat, key: int) {
    i < |t.keys| && t.keys[i] == key
  }

  /** What deleting key leaves of t. */
  ghost function Deleted(t: Tree, key: int, h: nat): Tree
    requires Deletable(t, h)
    decreases h
  {
    hide Shape, Fix, Inorder, Before, After, Ready;
    var i := First(t.keys, key);
    if h == 0 then
      if i < |t.keys| && t.keys[i] == key then Tree(t.id, Drop(t.keys, i), []) else t
    else
      KidsDeletable(t, h);
      ReadyGood(t, i, h);
      if i < |t.keys| && t.keys[i] == key && |t.kids[i].keys| >= T then
        var p := MaxKey(t.kids[i]);
        WithKid(Tree(t.id, t.keys[i := p], t.kids), i, Deleted(t.kids[i], p, h - 1))
      else if i < |t.keys| && t.keys[i] == key && |t.kids[i + 1].keys| >= T then
        var p := MinKey(t.kids[i + 1]);
        WithKid(Tree(t.id, t.keys[i := p], t.kids), i + 1, Deleted(t.kids[i + 1], p, h - 1))
      else
        var f := Ready(t, i);
        var d := Moved(f, i);
        WithKid(f, d, Deleted(f.kids[d], key, h - 1))
  }

  /** The child the search goes on in. */
  ghost function NextKid(t: Tree, i: nat, h: nat): (c: Tree)
    requires Deletable(t, h) && h > 0 && i <= |t.keys|
    ensures Deletable(c, h - 1)
  {
    KidsDeletable(t, h);
    ReadyGood(t, i, h);
    Ready(t, i).kids[Moved(Ready(t, i), i)]
  }

  /** Whether, on the way down, key is met in a node while both children beside it are
      minimal and the left neighbour of the left one has a key to lend. */
  ghost predicate Kept(t: Tree, key: int, h: nat)
    requires Deletable(t, h)
    decreases h
  {
    var i := First(t.keys, key);
    h > 0 &&
    (KidsDeletable(t, h);
     if Found(t, i, key) then
       && |t.kids[i].keys| < T && |t.kids[i + 1].keys| < T
       && ((i > 0 && |t.kids[i - 1].keys| >= T) || Kept(NextKid(t, i, h), key, h - 1))
     else Kept(NextKid(t, i, h), key, h - 1))
  }

  /** What is there once too often after deleting key: nothing if a copy of key has gone, key
      if none has, another key if that one took the place of key and its own deletion failed. */
  ghost function Surplus(t: Tree, key: int, h: nat): (s: multiset<int>)
    requires Deletable(t, h)
    ensures |s| <= 1
    decreases h
  {
    var i := First(t.keys, key);
    if h == 0 then
      if Found(t, i, key) then multiset{} else multiset{key}
    else
      KidsDeletable(t, h);
      if Found(t, i, key) && |t.kids[i].keys| >= T then
        Surplus(t.kids[i], MaxKey(t.kids[i]), h - 1)
      else if Found(t, i, key) && |t.kids[i + 1].keys| >= T then
        Surplus(t.kids[i + 1], MinKey(t.kids[i + 1]), h - 1)
      else
        Surplus(NextKid(t, i, h), key, h - 1)
  }

  /** Whether deleting a stored key goes wrong somewhere on the way down: where the key that
      moves up cannot be deleted below, or where the left neighbour lends and child i holds no
      copy of key. */
  ghost predicate Fails(t: Tree, key: int, h: nat)
    requires Deletable(t, h)
    decreases h
  {
    var i := First(t.keys, key);
    h > 0 &&
    (KidsDeletable(t, h);
     if Found(t, i, key) && |t.kids[i].keys| >= T then Fails(t.kids[i], MaxKey(t.kids[i]), h - 1)
     else if Found(t, i, key) && |t.kids[i + 1].keys| >= T then Fails(t.kids[i + 1], MinKey(t.kids[i + 1]), h - 1)
     else
       || (Found(t, i, key) && i > 0 && |t.kids[i - 1].keys| >= T && key !in Inorder(t.kids[i]))
       || Fails(NextKid(t, i, h), key, h - 1))
  }

  // ---- one step down -----------------------------------------------------------------------

  /** The search for key stops at, or goes through, child i; f and d are what it goes on with. */
  ghost predicate At(t: Tree, key: int, h: nat, i: nat, f: Tree, d: nat) {
    && h > 0 && Deletable(t, h) && i == First(t.keys, key)
    && |t.kids| == |t.keys| + 1 && |t.keys| >= 1 && i < |t.kids|
    && (forall j :: 0 <= j < |t.kids| ==> Deletable(t.kids[j], h - 1))
    && f == Ready(t, i) && i <= |f.keys| + 1 && d == Moved(f, i) && |f.kids| == |f.keys| + 1 && d < |f.kids|
    && Deletable(f.kids[d], h - 1)
  }

  lemma AtFirst(t: Tree, key: int, h: nat) returns (i: nat, f: Tree, d: nat)
    requires Deletable(t, h) && h > 0
    ensures At(t, key, h, i, f, d) && Fixed(t, i, f, d, h, 1)
  {
    hide Ready, Shape, Deletable;
    i := First(t.keys, key);
    KidsDeletable(t, h);
    ReadyGood(t, i, h);
    f := Ready(t, i);
    d := Moved(f, i);
  }

  /** The deletion from t is the deletion from child d of f, apart from what a lending left
      neighbour does. */
  ghost predicate GoesOn(t: Tree, key: int, h: nat, i: nat, f: Tree, d: nat)
    requires h > 0 && Deletable(t, h) && i <= |t.keys| && i < |t.kids|
    requires |f.kids| == |f.keys| + 1 && d < |f.kids| && Deletable(f.kids[d], h - 1)
  {
    hide Shape, Deletable, Deleted, Kept, Surplus, Fails, Inorder;
    var lends := Found(t, i, key) && i > 0 && |t.kids[i - 1].keys| >= T;
    && Deleted(t, key, h) == WithKid(f, d, Deleted(f.kids[d], key, h - 1))
    && Kept(t, key, h) == (lends || Kept(f.kids[d], key, h - 1))
    && Surplus(t, key, h) == Surplus(f.kids[d], key, h - 1)
    && Fails(t, key, h) == ((lends && key !in Inorder(t.kids[i])) || Fails(f.kids[d], key, h - 1))
  }

  lemma Descends(t: Tree, key: int, h: nat, i: nat, f: Tree, d: nat)
    requires At(t, key, h, i, f, d)
    requires Found(t, i, key) ==> |t.kids[i].keys| < T && |t.kids[i + 1].keys| < T
    ensures GoesOn(t, key, h, i, f, d)
  {
    hide Ready, Shape, Deletable;
  }

  lemma TakesMax(t: Tree, key: int, h: nat, i: nat, f: Tree, d: nat)
    requires At(t, key, h, i, f, d) && Found(t, i, key) && |t.kids[i].keys| >= T
    ensures Deleted(t, key, h)
      == WithKid(Tree(t.id, t.keys[i := MaxKey(t.kids[i])], t.kids), i, Deleted(t.kids[i], MaxKey(t.kids[i]), h - 1))
    ensures !Kept(t, key, h) && Surplus(t, key, h) == Surplus(t.kids[i], MaxKey(t.kids[i]), h - 1)
    ensures Fails(t, key, h) == Fails(t.kids[i], MaxKey(t.kids[i]), h - 1)
  {
    hide Ready, Shape, Deletable;
  }

  lemma TakesMin(t: Tree, key: int, h: nat, i: nat, f: Tree, d: nat)
    requires At(t, key, h, i, f, d) && Found(t, i, key) && |t.kids[i].keys| < T && |t.kids[i + 1].keys| >= T
    ensures var min := MinKey(t.kids[i + 1]);
      Deleted(t, key, h) == WithKid(Tree(t.id, t.keys[i := min], t.kids), i + 1, Deleted(t.kids[i + 1], min, h - 1))
    ensures !Kept(t, key, h) && Surplus(t, key, h) == Surplus(t.kids[i + 1], MinKey(t.kids[i + 1]), h - 1)
    ensures Fails(t, key, h) == Fails(t.kids[i + 1], MinKey(t.kids[i + 1]), h - 1)
  {
    hide Ready, Shape, Deletable;
  }

  // ---- order -------------------------------------------------------------------------------

  lemma AscendingParts(a: seq<int>, b: seq<int>, c: seq<int>)
    requires Ascending(a + b + c)
    ensures Ascending(a) && Ascending(b) && Ascending(c)
    ensures forall i, j :: 0 <= i < |a| && 0 <= j < |b| ==> a[i] < b[j]
    ensures forall i, j :: 0 <= i < |b| && 0 <= j < |c| ==> b[i] < c[j]
    ensures forall i, j :: 0 <= i < |a| && 0 <= j < |c| ==> a[i] < c[j]
  {
    var s := a + b + c;
    assert forall i :: 0 <= i < |a| ==> s[i] == a[i];
    assert forall i :: 0 <= i < |b| ==> s[|a| + i] == b[i];
    assert forall i :: 0 <= i < |c| ==> s[|a| + |b| + i] == c[i];
  }

  ghost predicate AllBelow(s: seq<int>, key: int) {
    forall i :: 0 <= i < |s| ==> s[i] < key
  }

  ghost predicate AllAbove(s: seq<int>, key: int) {
    forall i :: 0 <= i < |s| ==> key < s[i]
  }

  ghost predicate NoneNew(s: seq<int>, r: seq<int>) {
    forall x :: x in s ==> x in r
  }

  lemma SortedParts(a: seq<int>, b: seq<int>, c: seq<int>)
    requires Sorted(a + b + c)
    ensures Sorted(a) && Sorted(b) && Sorted(c)
    ensures forall i, j :: 0 <= i < |a| && 0 <= j < |b| ==> a[i] <= b[j]
    ensures forall i, j :: 0 <= i < |b| && 0 <= j < |c| ==> b[i] <= c[j]
    ensures forall i, j :: 0 <= i < |a| && 0 <= j < |c| ==> a[i] <= c[j]
    ensures forall x :: x in a + b + c <==> x in a || x in b || x in c
  {
    SortedHalves(a + b, c);
    SortedHalves(a, b);
    forall i | 0 <= i < |a|
      ensures (a + b)[i] == a[i]
    {
    }
    forall i | 0 <= i < |b|
      ensures (a + b)[|a| + i] == b[i]
    {
    }
  }

  lemma SortedHalves(a: seq<int>, b: seq<int>)
    requires Sorted(a + b)
    ensures Sorted(a) && Sorted(b)
    ensures forall i, j :: 0 <= i < |a| && 0 <= j < |b| ==> a[i] <= b[j]
  {
    var s := a + b;
    assert forall i :: 0 <= i < |a| ==> s[i] == a[i];
    assert forall i :: 0 <= i < |b| ==> s[|a| + i] == b[i];
  }

  /** Where the search leaves the keys in front of child i and behind it. */
  lemma Placed(t: Tree, key: int, i: nat)
    requires |t.kids| == |t.keys| + 1 && Sorted(Inorder(t)) && i == First(t.keys, key)
    ensures AllBelow(Before(t, i), key)
    ensures !Found(t, i, key) ==> AllAbove(After(t, i), key)
  {
    var b, m, a := Before(t, i), Inorder(t.kids[i]), After(t, i);
    InorderAt(t, i);
    SortedParts(b, m, a);
    if i > 0 {
      BeforeNext(t, i - 1);
      assert b[|b| - 1] == t.keys[i - 1];
    }
    if i < |t.keys| {
      AfterNext(t, i);
      assert a[0] == t.keys[i];
    }
  }

  lemma Shorter(b: seq<int>, m: seq<int>, a: seq<int>, b': seq<int>, m': seq<int>, a': seq<int>, key: int)
    requires b' + m' + a' == b + m + a && |b'| <= |b| && |a'| <= |a|
    ensures AllBelow(b, key) ==> AllBelow(b', key)
    ensures AllAbove(a, key) ==> AllAbove(a', key)
  {
    var s, s' := b + m + a, b' + m' + a';
    forall i | 0 <= i < |b'|
      ensures b'[i] == b[i]
    {
      assert s'[i] == b'[i] && s[i] == b[i];
    }
    forall i | 0 <= i < |a'|
      ensures a'[i] == a[i + |a| - |a'|]
    {
      var k := |s| - |a'| + i;
      assert s'[k] == a'[i] && s[k] == a[i + |a| - |a'|];
    }
  }

  // ---- only separators are kept ------------------------------------------------------------

  ghost predicate InLeaf(t: Tree, key: int) {
    if t.kids == [] then key in t.keys else exists j :: 0 <= j < |t.kids| && InLeaf(t.kids[j], key)
  }

  /** key stands between two children, somewhere in t. */
  ghost predicate Separates(t: Tree, key: int) {
    t.kids != [] && (key in t.keys || exists j :: 0 <= j < |t.kids| && Separates(t.kids[j], key))
  }

  /** c has been put together from parts of l and r and the key between them. */
  ghost predicate Gathered(c: Tree, l: Tree, k: int, r: Tree) {
    && (c.kids != [] ==> l.kids != [] && r.kids != [])
    && (forall j :: 0 <= j < |c.keys| ==> c.keys[j] == k || c.keys[j] in l.keys || c.keys[j] in r.keys)
    && (forall j :: 0 <= j < |c.kids| ==> c.kids[j] in l.kids || c.kids[j] in r.kids)
  }

  lemma GatheredSeparates(c: Tree, l: Tree, k: int, r: Tree, key: int)
    requires Gathered(c, l, k, r) && key != k && !Separates(l, key) && !Separates(r, key)
    ensures !Separates(c, key)
  {
    if c.kids != [] {
      forall j | 0 <= j < |c.kids|
        ensures !Separates(c.kids[j], key)
      {
        var g := c.kids[j];
        if g in l.kids {
          var m :| 0 <= m < |l.kids| && l.kids[m] == g;
        } else {
          var m :| 0 <= m < |r.kids| && r.kids[m] == g;
        }
      }
    }
  }

  lemma BorrowLeftGathers(t: Tree, i: nat, h: nat)
    requires h > 0 && Shape(t, h, 1) && 0 < i < |t.kids| && t.kids[i - 1].keys != []
    ensures |t.kids| == |t.keys| + 1 && |BorrowLeft(t, i).keys| == |t.keys| && |BorrowLeft(t, i).kids| == |t.kids|
    ensures Gathered(BorrowLeft(t, i).kids[i], t.kids[i - 1], t.keys[i - 1], t.kids[i])
  {
    FullChild(t, i - 1, h, 1);
    FullChild(t, i, h, 1);
  }

  lemma BorrowRightGathers(t: Tree, i: nat, h: nat)
    requires h > 0 && Shape(t, h, 1) && i + 1 < |t.kids| && t.kids[i + 1].keys != []
    ensures |t.kids| == |t.keys| + 1 && |BorrowRight(t, i).keys| == |t.keys| && |BorrowRight(t, i).kids| == |t.kids|
    ensures Gathered(BorrowRight(t, i).kids[i], t.kids[i], t.keys[i], t.kids[i + 1])
  {
    FullChild(t, i + 1, h, 1);
    FullChild(t, i, h, 1);
  }

  lemma MergeGathers(t: Tree, i: nat, h: nat)
    requires h > 0 && Shape(t, h, 1) && i + 1 < |t.kids|
    ensures |t.kids| == |t.keys| + 1 && |Merge(t, i).keys| == |t.keys| - 1 && |Merge(t, i).kids| == |t.kids| - 1
    ensures Gathered(Merge(t, i).kids[i], t.kids[i], t.keys[i], t.kids[i + 1])
  {
    FullChild(t, i + 1, h, 1);
    FullChild(t, i, h, 1);
    assert Merge(t, i).kids[i] == Merged(t.kids[i], t.keys[i], t.kids[i + 1]);
  }

  /** Fixing a child lets no new key stand between its children. */
  lemma SeparatorsBelow(t: Tree, key: int, h: nat, i: nat, f: Tree, d: nat)
    requires At(t, key, h, i, f, d) && !Separates(t, key)
    ensures !Separates(f.kids[d], key)
  {
    hide Shape, Deletable, Separates, BorrowLeft, BorrowRight, Merge;
    NoSeparator(t, key, h);
    if |t.kids[i].keys| < T {
      DeletableShape(t, h);
      FullChild(t, i, h, 1);
      if i > 0 && |t.kids[i - 1].keys| >= T {
        BorrowLeftGathers(t, i, h);
        GatheredSeparates(f.kids[i], t.kids[i - 1], t.keys[i - 1], t.kids[i], key);
      } else if i < |t.keys| && |t.kids[i + 1].keys| >= T {
        BorrowRightGathers(t, i, h);
        GatheredSeparates(f.kids[i], t.kids[i], t.keys[i], t.kids[i + 1], key);
      } else {
        var m := if i < |t.keys| then i else i - 1;
        MergeGathers(t, m, h);
        GatheredSeparates(f.kids[m], t.kids[m], t.keys[m], t.kids[m + 1], key);
      }
    }
  }

  lemma NoSeparator(t: Tree, key: int, h: nat)
    requires Deletable(t, h) && h > 0 && !Separates(t, key)
    ensures key !in t.keys && forall j :: 0 <= j < |t.kids| ==> !Separates(t.kids[j], key)
  {
  }

  /** A key that stands between no two children is not kept, whatever else is in the tree. */
  lemma {:induction false} KeptSeparates(t: Tree, key: int, h: nat)
    requires Deletable(t, h) && Kept(t, key, h)
    ensures Separates(t, key)
    decreases h
  {
    hide Shape, Deletable, Separates, Ready, Deleted, First;
    if !Separates(t, key) {
      var i, f, d := AtFirst(t, key, h);
      NoSeparator(t, key, h);
      Descends(t, key, h, i, f, d);
      SeparatorsBelow(t, key, h, i, f, d);
      KeptSeparates(f.kids[d], key, h - 1);
    }
  }

  // ---- a key in a leaf is never kept -------------------------------------------------------

  lemma {:induction false} BeforeHas(t: Tree, i: nat, j: nat)
    requires |t.kids| == |t.keys| + 1 && j < i <= |t.keys|
    ensures t.keys[j] in Before(t, i) && forall x :: x in Inorder(t.kids[j]) ==> x in Before(t, i)
  {
    hide Inorder, Before;
    BeforeNext(t, i - 1);
    if j < i - 1 { BeforeHas(t, i - 1, j); }
  }

  lemma {:induction false} AfterHas(t: Tree, i: nat, j: nat)
    requires |t.kids| == |t.keys| + 1 && i <= j < |t.keys|
    ensures t.keys[j] in After(t, i) && forall x :: x in Inorder(t.kids[j + 1]) ==> x in After(t, i)
    decreases j - i
  {
    hide Inorder, After;
    AfterNext(t, i);
    if i < j { AfterHas(t, i + 1, j); }
  }

  lemma {:induction false} LeafHas(t: Tree, key: int, h: nat)
    requires Shape(t, h, 0) && (InLeaf(t, key) || Separates(t, key))
    ensures key in Inorder(t)
    decreases h
  {
    hide Inorder, Before, After;
    if h == 0 {
      LeafKeys(t);
    } else {
      if key in t.keys {
        var m :| 0 <= m < |t.keys| && t.keys[m] == key;
        InorderAt(t, m + 1);
        BeforeHas(t, m + 1, m);
      } else {
        var j :| 0 <= j < |t.kids| && (InLeaf(t.kids[j], key) || Separates(t.kids[j], key));
        ShapeLess(t.kids[j], h - 1, T - 1, 0);
        LeafHas(t.kids[j], key, h - 1);
        InorderAt(t, j);
      }
    }
  }

  lemma LeafKeys(t: Tree)
    requires t.kids == []
    ensures Inorder(t) == t.keys
  {
  }

  lemma InMiddleOnly(b: seq<int>, m: seq<int>, a: seq<int>, key: int)
    requires Ascending(b + m + a) && key in m
    ensures key !in b && key !in a
  {
    AscendingParts(b, m, a);
    var i :| 0 <= i < |m| && m[i] == key;
  }

  /** Distinct keys: what is in child j is in no other child and not beside one. */
  lemma OnlyThere(t: Tree, key: int, j: nat, m: nat)
    requires |t.kids| == |t.keys| + 1 && j < |t.kids| && Ascending(Inorder(t)) && key in Inorder(t.kids[j])
    ensures m < |t.keys| ==> t.keys[m] != key
    ensures m < |t.kids| && m != j ==> key !in Inorder(t.kids[m])
  {
    hide Inorder, Before, After, Ascending;
    InorderAt(t, j);
    InMiddleOnly(Before(t, j), Inorder(t.kids[j]), After(t, j), key);
    if m < j {
      BeforeHas(t, j, m);
    } else if m < |t.keys| {
      AfterHas(t, j, m);
    }
    if j < m < |t.kids| {
      AfterHas(t, j, m - 1);
      assert t.kids[(m - 1) + 1] == t.kids[m];
    }
  }

  lemma {:induction false} LeafSeparatesNot(t: Tree, key: int, h: nat)
    requires Shape(t, h, 0) && Ascending(Inorder(t)) && InLeaf(t, key)
    ensures !Separates(t, key)
    decreases h
  {
    hide Inorder, Before, After, Ascending;
    if h > 0 {
      var j :| 0 <= j < |t.kids| && InLeaf(t.kids[j], key);
      ShapeLess(t.kids[j], h - 1, T - 1, 0);
      LeafHas(t.kids[j], key, h - 1);
      forall m | 0 <= m < |t.kids|
        ensures !Separates(t.kids[m], key) && (m < |t.keys| ==> t.keys[m] != key)
      {
        OnlyThere(t, key, j, m);
        ShapeLess(t.kids[m], h - 1, T - 1, 0);
        if m == j {
          KidAscending(t, j);
          LeafSeparatesNot(t.kids[j], key, h - 1);
        } else if Separates(t.kids[m], key) {
          LeafHas(t.kids[m], key, h - 1);
        }
      }
    }
  }

  lemma KidAscending(t: Tree, i: nat)
    requires |t.kids| == |t.keys| + 1 && i < |t.kids| && Ascending(Inorder(t))
    ensures Ascending(Inorder(t.kids[i]))
  {
    hide Inorder, Before, After;
    InorderAt(t, i);
    AscendingParts(Before(t, i), Inorder(t.kids[i]), After(t, i));
  }

  /** With distinct keys, a key stored in a leaf is never kept. */
  lemma LeafNotKept(t: Tree, key: int, h: nat)
    requires Deletable(t, h) && Ascending(Inorder(t)) && InLeaf(t, key)
    ensures !Kept(t, key, h)
  {
    hide Inorder, Ascending, InLeaf, Kept;
    ShapeLess(t, h, if h == 0 then 0 else 1, 0);
    LeafSeparatesNot(t, key, h);
    if Kept(t, key, h) { KeptSeparates(t, key, h); }
  }

  lemma {:induction false} EndsInLeaves(t: Tree, h: nat)
    requires Shape(t, h, 1)
    ensures InLeaf(t, MaxKey(t)) && InLeaf(t, MinKey(t))
    decreases h
  {
    if h > 0 {
      var n := |t.keys|;
      ShapeLess(t.kids[n], h - 1, T - 1, 1);
      ShapeLess(t.kids[0], h - 1, T - 1, 1);
      EndsInLeaves(t.kids[n], h - 1);
      EndsInLeaves(t.kids[0], h - 1);
    }
  }

  // ---- what is left ------------------------------------------------------------------------

  lemma MiddleReplaced(b: seq<int>, m: seq<int>, a: seq<int>, m': seq<int>)
    requires Sorted(b + m + a) && Sorted(m') && NoneNew(m', m)
    ensures Sorted(b + m' + a) && NoneNew(b + m' + a, b + m + a)
    ensures multiset(b + m' + a) + multiset(m) == multiset(b + m + a) + multiset(m')
  {
    SortedParts(b, m, a);
    SortedJoin(b, m');
    SortedJoin(b + m', a);
  }

  lemma SortedJoin(a: seq<int>, b: seq<int>)
    requires Sorted(a) && Sorted(b) && forall x, y :: x in a && y in b ==> x <= y
    ensures Sorted(a + b)
  {
    var s := a + b;
    forall i, j | 0 <= i < j < |s|
      ensures s[i] <= s[j]
    {
      if i < |a| <= j { assert a[i] in a && b[j - |a|] in b; }
    }
  }

  lemma Balance(u: multiset<int>, m: multiset<int>, t: multiset<int>, m': multiset<int>, k: multiset<int>,
      s: multiset<int>)
    requires u + m == t + m' && m' + k == m + s
    ensures u + k == t + s
  {
    forall x
      ensures (u + k)[x] == (t + s)[x]
    {
      assert (u + m)[x] == (t + m')[x] && (m' + k)[x] == (m + s)[x];
    }
  }

  /** Sorted as before, nothing new, and one key less but for the surplus. */
  ghost predicate DeletedWell(t: Tree, key: int, h: nat)
    requires Deletable(t, h)
  {
    var s := Inorder(Deleted(t, key, h));
    Sorted(s) && NoneNew(s, Inorder(t)) && multiset(s) + multiset{key} == multiset(Inorder(t)) + Surplus(t, key, h)
  }

  lemma WellDeleted(s: seq<int>, t: Tree, key: int, h: nat)
    requires Deletable(t, h) && s == Inorder(Deleted(t, key, h))
    ensures DeletedWell(t, key, h) <==> (
      && Sorted(s) && NoneNew(s, Inorder(t))
      && multiset(s) + multiset{key} == multiset(Inorder(t)) + Surplus(t, key, h))
  {
  }

  lemma DeletedBelow(t: Tree, key: int, h: nat, i: nat, f: Tree, d: nat)
    requires At(t, key, h, i, f, d) && Inorder(f) == Inorder(t) && Sorted(Inorder(t))
    requires Found(t, i, key) ==> |t.kids[i].keys| < T && |t.kids[i + 1].keys| < T
    requires DeletedWell(f.kids[d], key, h - 1)
    ensures DeletedWell(t, key, h)
  {
    hide Inorder, Before, After, Deleted, Kept, Surplus, Fails, Shape, Deletable, Ready, Sorted, NoneNew, DeletedWell;
    Descends(t, key, h, i, f, d);
    var b, m, a, m' := Before(f, d), Inorder(f.kids[d]), After(f, d), Inorder(Deleted(f.kids[d], key, h - 1));
    InorderAt(f, d);
    ChildReplaced(f, d, Deleted(f.kids[d], key, h - 1));
    WellDeleted(m', f.kids[d], key, h - 1);
    MiddleReplaced(b, m, a, m');
    Balance(multiset(b + m' + a), multiset(m), multiset(b + m + a), multiset(m'), multiset{key}, Surplus(t, key, h));
    WellDeleted(b + m' + a, t, key, h);
  }

  /** The largest element of l takes key's place and has been deleted from l. */
  lemma LargestMoves(l: seq<int>, l': seq<int>, p: int, key: int, r: seq<int>, s: multiset<int>)
    requires Sorted(l + [key] + r) && Sorted(l') && NoneNew(l', l) && l != [] && p == LastOf(l)
    requires multiset(l') + multiset{p} == multiset(l) + s
    ensures var m, m' := l + [key] + r, l' + [p] + r;
      Sorted(m') && NoneNew(m', m) && multiset(m') + multiset{key} == multiset(m) + s
  {
    SortedParts(l, [key], r);
    assert [key][0] == key;
    SortedJoin(l', [p]);
    SortedJoin(l' + [p], r);
    var m, m' := l + [key] + r, l' + [p] + r;
    assert multiset(m') + multiset{key} == (multiset(l') + multiset{p}) + multiset(r) + multiset{key};
  }

  /** The smallest element of r takes key's place and has been deleted from r. */
  lemma SmallestMoves(l: seq<int>, key: int, p: int, r: seq<int>, r': seq<int>, s: multiset<int>)
    requires Sorted(l + [key] + r) && Sorted(r') && NoneNew(r', r) && r != [] && p == r[0]
    requires multiset(r') + multiset{p} == multiset(r) + s
    ensures var m, m' := l + [key] + r, l + [p] + r';
      Sorted(m') && NoneNew(m', m) && multiset(m') + multiset{key} == multiset(m) + s
  {
    SortedParts(l, [key], r);
    assert [key][0] == key;
    SortedJoin(l, [p]);
    SortedJoin(l + [p], r');
    var m, m' := l + [key] + r, l + [p] + r';
    assert multiset(m') + multiset{key} == (multiset(r') + multiset{p}) + multiset(l) + multiset{key};
  }

  lemma OnlyPairChanged(t: Tree, i: nat, u: Tree, k: int, l: Tree, r: Tree)
    requires |t.kids| == |t.keys| + 1 && i < |t.keys|
    requires u.keys == t.keys[i := k] && u.kids == t.kids[i := l][i + 1 := r]
    ensures SameAround(t, i, i + 1, u, i + 1)
  {
  }

  /** The separator i and its two neighbours exchanged. */
  lemma PairExchanged(t: Tree, key: int, h: nat, i: nat, u: Tree, m: seq<int>, m': seq<int>)
    requires Deletable(t, h) && Sorted(Inorder(t)) && u == Deleted(t, key, h)
    requires |t.kids| == |t.keys| + 1 == |u.kids| == |u.keys| + 1 && i < |t.keys| && SameAround(t, i, i + 1, u, i + 1)
    requires m == Inorder(t.kids[i]) + [t.keys[i]] + Inorder(t.kids[i + 1])
    requires m' == Inorder(u.kids[i]) + [u.keys[i]] + Inorder(u.kids[i + 1])
    requires Sorted(m') && NoneNew(m', m) && multiset(m') + multiset{key} == multiset(m) + Surplus(t, key, h)
    ensures DeletedWell(t, key, h)
  {
    hide Inorder, Before, After, Deleted, Surplus, Shape, Deletable, Sorted, NoneNew, DeletedWell, SameAround;
    SurroundingsKept(t, i, i + 1, u, i + 1);
    InorderAtPair(t, i);
    InorderAtPair(u, i);
    var b, a := Before(t, i), After(t, i + 1);
    MiddleReplaced(b, m, a, m');
    Balance(multiset(b + m' + a), multiset(m), multiset(b + m + a), multiset(m'), multiset{key}, Surplus(t, key, h));
    WellDeleted(b + m' + a, t, key, h);
  }

  lemma PairSorted(t: Tree, i: nat)
    requires |t.kids| == |t.keys| + 1 && i < |t.keys| && Sorted(Inorder(t))
    ensures Sorted(Inorder(t.kids[i]) + [t.keys[i]] + Inorder(t.kids[i + 1]))
    ensures Sorted(Inorder(t.kids[i])) && Sorted(Inorder(t.kids[i + 1]))
  {
    hide Inorder, Before, After, Sorted;
    InorderAtPair(t, i);
    SortedParts(Before(t, i), Inorder(t.kids[i]) + [t.keys[i]] + Inorder(t.kids[i + 1]), After(t, i + 1));
    SortedParts(Inorder(t.kids[i]), [t.keys[i]], Inorder(t.kids[i + 1]));
  }

  /** Replaced by its predecessor. */
  lemma DeletedByMax(t: Tree, key: int, h: nat, i: nat, f: Tree, d: nat)
    requires At(t, key, h, i, f, d) && Sorted(Inorder(t)) && Found(t, i, key) && |t.kids[i].keys| >= T
    requires DeletedWell(t.kids[i], MaxKey(t.kids[i]), h - 1)
    ensures DeletedWell(t, key, h)
  {
    hide Inorder, Before, After, Deleted, Kept, Surplus, Fails, Shape, Deletable, Ready, First, MaxKey, SameAround,
      Sorted, NoneNew, DeletedWell;
    var l, r, p := t.kids[i], t.kids[i + 1], MaxKey(t.kids[i]);
    TakesMax(t, key, h, i, f, d);
    PairSorted(t, i);
    HasOne(l, h - 1);
    MaxIsLast(l, h - 1);
    var u := Deleted(t, key, h);
    WellDeleted(Inorder(u.kids[i]), l, p, h - 1);
    OnlyPairChanged(t, i, u, p, u.kids[i], r);
    LargestMoves(Inorder(l), Inorder(u.kids[i]), p, key, Inorder(r), Surplus(t, key, h));
    PairExchanged(t, key, h, i, u, Inorder(l) + [key] + Inorder(r), Inorder(u.kids[i]) + [p] + Inorder(r));
  }

  /** Replaced by its successor. */
  lemma DeletedByMin(t: Tree, key: int, h: nat, i: nat, f: Tree, d: nat)
    requires At(t, key, h, i, f, d) && Sorted(Inorder(t)) && Found(t, i, key) && |t.kids[i].keys| < T
    requires |t.kids[i + 1].keys| >= T
    requires DeletedWell(t.kids[i + 1], MinKey(t.kids[i + 1]), h - 1)
    ensures DeletedWell(t, key, h)
  {
    hide Inorder, Before, After, Deleted, Kept, Surplus, Fails, Shape, Deletable, Ready, First, MinKey, SameAround,
      Sorted, NoneNew, DeletedWell;
    var l, r, p := t.kids[i], t.kids[i + 1], MinKey(t.kids[i + 1]);
    TakesMin(t, key, h, i, f, d);
    PairSorted(t, i);
    HasOne(r, h - 1);
    MinIsFirst(r, h - 1);
    var u := Deleted(t, key, h);
    WellDeleted(Inorder(u.kids[i + 1]), r, p, h - 1);
    OnlyPairChanged(t, i, u, p, l, u.kids[i + 1]);
    SmallestMoves(Inorder(l), key, p, Inorder(r), Inorder(u.kids[i + 1]), Surplus(t, key, h));
    PairExchanged(t, key, h, i, u, Inorder(l) + [key] + Inorder(r), Inorder(l) + [p] + Inorder(u.kids[i + 1]));
  }

  lemma HasOne(t: Tree, h: nat)
    requires Deletable(t, h) && |t.keys| >= 1
    ensures Shape(t, h, 1)
  {
  }

  lemma KidsSorted(t: Tree, i: nat, f: Tree, d: nat)
    requires |t.kids| == |t.keys| + 1 && i < |t.kids| && Sorted(Inorder(t))
    requires |f.kids| == |f.keys| + 1 && d < |f.kids| && Inorder(f) == Inorder(t)
    ensures Sorted(Inorder(t.kids[i])) && Sorted(Inorder(f.kids[d]))
    ensures i < |t.keys| ==> Sorted(Inorder(t.kids[i + 1]))
  {
    hide Inorder, Before, After, Sorted;
    InorderAt(f, d);
    SortedParts(Before(f, d), Inorder(f.kids[d]), After(f, d));
    InorderAt(t, i);
    SortedParts(Before(t, i), Inorder(t.kids[i]), After(t, i));
    if i < |t.keys| { PairSorted(t, i); }
  }

  lemma DeletedLeaf(t: Tree, key: int)
    requires Deletable(t, 0) && Sorted(Inorder(t))
    ensures DeletedWell(t, key, 0)
  {
    hide Sorted, NoneNew;
    var i := First(t.keys, key);
    LeafKeys(t);
    if Found(t, i, key) {
      OneDropped(t.keys, i);
    } else {
      NothingNew(t.keys);
    }
  }

  lemma OneDropped(s: seq<int>, i: nat)
    requires Sorted(s) && i < |s|
    ensures Sorted(Drop(s, i)) && NoneNew(Drop(s, i), s)
    ensures multiset(Drop(s, i)) + multiset{s[i]} == multiset(s) + multiset{}
  {
    assert s == s[..i] + [s[i]] + s[i + 1..];
  }

  lemma NothingNew(s: seq<int>)
    ensures NoneNew(s, s)
  {
  }

  /** Whatever is stored, duplicates included: order is kept, nothing new appears, and the
      keys lose key and gain the surplus. */
  lemma {:induction false} DeletedIs(t: Tree, key: int, h: nat)
    requires Deletable(t, h) && Sorted(Inorder(t))
    ensures DeletedWell(t, key, h)
    decreases h
  {
    hide Inorder, Before, After, Deleted, Kept, Surplus, Fails, Shape, Deletable, Ready, Sorted, DeletedWell, First,
      MaxKey, MinKey;
    if h == 0 {
      DeletedLeaf(t, key);
    } else {
      var i, f, d := AtFirst(t, key, h);
      KidsSorted(t, i, f, d);
      if Found(t, i, key) && |t.kids[i].keys| >= T {
        DeletedIs(t.kids[i], MaxKey(t.kids[i]), h - 1);
        DeletedByMax(t, key, h, i, f, d);
      } else if Found(t, i, key) && |t.kids[i + 1].keys| >= T {
        DeletedIs(t.kids[i + 1], MinKey(t.kids[i + 1]), h - 1);
        DeletedByMin(t, key, h, i, f, d);
      } else {
        DeletedIs(f.kids[d], key, h - 1);
        DeletedBelow(t, key, h, i, f, d);
      }
    }
  }

  // ---- when the surplus is empty -----------------------------------------------------------

  /** A key that is not found on the way has not left the subtree the search goes on in. */
  lemma StaysBelow(t: Tree, key: int, h: nat, i: nat, f: Tree, d: nat)
    requires At(t, key, h, i, f, d) && Fixed(t, i, f, d, h, 1) && Sorted(Inorder(t)) && !Found(t, i, key)
    ensures key in Inorder(f.kids[d]) <==> key in Inorder(t)
  {
    hide Inorder, Shape, Deletable, Ready, Sorted, Before, After;
    Placed(t, key, i);
    InorderAt(t, i);
    InorderAt(f, d);
    Shorter(Before(t, i), Inorder(t.kids[i]), After(t, i), Before(f, d), Inorder(f.kids[d]), After(f, d), key);
  }

  lemma LeafSurplus(t: Tree, key: int)
    requires Deletable(t, 0) && Sorted(Inorder(t))
    ensures Surplus(t, key, 0) == if key in Inorder(t) then multiset{} else multiset{key}
    ensures !Kept(t, key, 0) && !Fails(t, key, 0)
  {
  }

  /** A key that is not there is not removed. */
  lemma {:induction false} AbsentSurplus(t: Tree, key: int, h: nat)
    requires Deletable(t, h) && Sorted(Inorder(t)) && key !in Inorder(t)
    ensures Surplus(t, key, h) == multiset{key}
    decreases h
  {
    hide Inorder, Before, After, Deleted, Kept, Surplus, Fails, Shape, Deletable, Ready, Sorted, First;
    if h == 0 {
      LeafSurplus(t, key);
    } else {
      var i, f, d := AtFirst(t, key, h);
      if Found(t, i, key) {
        InorderAt(t, i + 1);
        BeforeHas(t, i + 1, i);
      }
      StaysBelow(t, key, h, i, f, d);
      Descends(t, key, h, i, f, d);
      KidsSorted(t, i, f, d);
      AbsentSurplus(f.kids[d], key, h - 1);
    }
  }

  /** A key that stands between no two children is removed once, duplicates or not. */
  lemma {:induction false} PlainSurplus(t: Tree, key: int, h: nat)
    requires Deletable(t, h) && Sorted(Inorder(t)) && key in Inorder(t) && !Separates(t, key)
    ensures Surplus(t, key, h) == multiset{}
    decreases h
  {
    hide Inorder, Before, After, Deleted, Kept, Surplus, Fails, Shape, Deletable, Ready, Sorted, First, Separates;
    if h == 0 {
      LeafSurplus(t, key);
    } else {
      var i, f, d := AtFirst(t, key, h);
      NoSeparator(t, key, h);
      StaysBelow(t, key, h, i, f, d);
      SeparatorsBelow(t, key, h, i, f, d);
      Descends(t, key, h, i, f, d);
      KidsSorted(t, i, f, d);
      PlainSurplus(f.kids[d], key, h - 1);
    }
  }

  lemma DeletableShape(t: Tree, h: nat)
    requires Deletable(t, h) && h > 0
    ensures Shape(t, h, 1)
  {
  }

  /** A key lent from the left leaves key where it is, outside child i. */
  lemma LeftLends(t: Tree, key: int, h: nat, i: nat)
    requires h > 0 && Shape(t, h, 1) && 0 < i < |t.keys| && t.keys[i - 1] < key
    requires |t.kids| == |t.keys| + 1 && |t.kids[i - 1].keys| >= T && |t.kids[i].keys| == T - 1
    requires key !in Inorder(t.kids[i]) && Sorted(Inorder(t))
    ensures key !in Inorder(BorrowLeft(t, i).kids[i])
  {
    var f := BorrowLeft(t, i);
    BorrowLeftInorder(t, i, h, 1);
    InorderAt(t, i);
    InorderAt(f, i);
    BeforeNext(t, i - 1);
    Lent(Before(f, i), Inorder(f.kids[i]), Before(t, i), Inorder(t.kids[i]), After(t, i), key);
  }

  lemma Lent(b': seq<int>, m': seq<int>, b: seq<int>, m: seq<int>, a: seq<int>, key: int)
    requires b' + m' + a == b + m + a && Sorted(b + m + a) && b != [] && LastOf(b) < key && key !in m
    ensures key !in m'
  {
    SortedParts(b, m, a);
    assert |b'| + |m'| == |b| + |m|;
    assert b' + m' == (b' + m' + a)[..|b| + |m|] == (b + m + a)[..|b| + |m|] == b + m;
    assert forall x :: x in m' ==> x in b' + m';
  }

  /** Key between two minimal children, the left neighbour able to lend: key is not removed. */
  lemma LentSurplus(t: Tree, key: int, h: nat, i: nat)
    requires Deletable(t, h) && h > 0 && Sorted(Inorder(t)) && i == First(t.keys, key) && Found(t, i, key)
    requires |t.kids| == |t.keys| + 1 && |t.kids[i].keys| < T && |t.kids[i + 1].keys| < T
    requires i > 0 && |t.kids[i - 1].keys| >= T && key !in Inorder(t.kids[i])
    ensures Surplus(t, key, h) == multiset{key} && Kept(t, key, h)
  {
    hide Inorder, Deleted, Kept, Surplus, Shape, Deletable, Sorted, BorrowLeft;
    var j, f, d := AtFirst(t, key, h);
    Descends(t, key, h, i, f, d);
    MinimalChild(t, i, h);
    DeletableShape(t, h);
    LeftLends(t, key, h, i);
    BorrowLeftSize(t, i);
    KidsSorted(t, i, f, d);
    AbsentSurplus(f.kids[d], key, h - 1);
  }

  lemma BorrowLeftSize(t: Tree, i: nat)
    requires 0 < i < |t.kids| && |t.kids| == |t.keys| + 1 && t.kids[i - 1].keys != []
    ensures |BorrowLeft(t, i).keys| == |t.keys|
  {
  }

  /** Both children minimal and merged: key is in the middle of the merged child. */
  lemma MergedHas(t: Tree, key: int, h: nat, i: nat)
    requires h > 0 && Shape(t, h, 1) && Found(t, i, key) && |t.kids| == |t.keys| + 1
    requires |t.kids[i].keys| == T - 1 && |t.kids[i + 1].keys| == T - 1
    ensures |Merge(t, i).keys| == |t.keys| - 1 && |Merge(t, i).kids| == |t.kids| - 1
    ensures key in Inorder(Merge(t, i).kids[i])
  {
    MergeParts(t, i, h, 1);
    var l, r := Inorder(t.kids[i]), Inorder(t.kids[i + 1]);
    assert (l + [key] + r)[|l|] == key;
  }

  /** Distinct keys: the surplus is key if key is kept, and nothing otherwise. */
  lemma {:induction false} KeptSurplus(t: Tree, key: int, h: nat)
    requires Deletable(t, h) && Ascending(Inorder(t)) && key in Inorder(t)
    ensures Surplus(t, key, h) == if Kept(t, key, h) then multiset{key} else multiset{}
    decreases h
  {
    hide Inorder, Before, After, Deleted, Kept, Surplus, Fails, Shape, Deletable, Ready, Ascending, First, MaxKey,
      MinKey, Merge, BorrowLeft;
    AscendingSorted(Inorder(t));
    if h == 0 {
      LeafSurplus(t, key);
    } else {
      var i, f, d := AtFirst(t, key, h);
      KidsAscending(t, i, f, d, h);
      if !Found(t, i, key) {
        StaysBelow(t, key, h, i, f, d);
        Descends(t, key, h, i, f, d);
        KeptSurplus(f.kids[d], key, h - 1);
      } else if |t.kids[i].keys| >= T {
        TakesMax(t, key, h, i, f, d);
        EndSurplus(t.kids[i], h - 1);
      } else if |t.kids[i + 1].keys| >= T {
        TakesMin(t, key, h, i, f, d);
        EndSurplus(t.kids[i + 1], h - 1);
      } else {
        MinimalChild(t, i, h);
        MinimalChild(t, i + 1, h);
        DeletableShape(t, h);
        OnlyBeside(t, key, i);
        if i > 0 && |t.kids[i - 1].keys| >= T {
          LentSurplus(t, key, h, i);
        } else {
          Descends(t, key, h, i, f, d);
          MergedHas(t, key, h, i);
          ReadyMerges(t, i);
          KeptSurplus(f.kids[d], key, h - 1);
        }
      }
    }
  }

  lemma ReadyMerges(t: Tree, i: nat)
    requires |t.kids| == |t.keys| + 1 && i < |t.keys| && |t.kids[i].keys| < T && |t.kids[i + 1].keys| < T
    requires !(i > 0 && |t.kids[i - 1].keys| >= T)
    ensures Ready(t, i) == Merge(t, i)
  {
  }

  lemma OnlyBeside(t: Tree, key: int, i: nat)
    requires |t.kids| == |t.keys| + 1 && Found(t, i, key) && Ascending(Inorder(t))
    ensures key !in Inorder(t.kids[i])
  {
    if key in Inorder(t.kids[i]) { OnlyThere(t, key, i, i); }
  }

  /** The largest and the smallest key of a subtree with distinct keys are removed. */
  lemma EndSurplus(t: Tree, h: nat)
    requires Deletable(t, h) && |t.keys| >= 1 && Ascending(Inorder(t))
    ensures Surplus(t, MaxKey(t), h) == multiset{} && Surplus(t, MinKey(t), h) == multiset{}
  {
    hide Inorder, Shape, Deletable, Surplus, Ascending, MaxKey, MinKey, InLeaf, Separates;
    AscendingSorted(Inorder(t));
    HasOne(t, h);
    ShapeLess(t, h, 1, 0);
    MaxIsLast(t, h);
    MinIsFirst(t, h);
    EndsInLeaves(t, h);
    LeafSeparatesNot(t, MaxKey(t), h);
    LeafSeparatesNot(t, MinKey(t), h);
    PlainSurplus(t, MaxKey(t), h);
    PlainSurplus(t, MinKey(t), h);
  }

  /** A copy of key in child i is still there once the child has borrowed. */
  lemma BorrowerHas(t: Tree, key: int, h: nat, i: nat)
    requires h > 0 && Shape(t, h, 1) && 0 < i < |t.kids| && |t.kids| == |t.keys| + 1
    requires |t.kids[i - 1].keys| >= T && |t.kids[i].keys| == T - 1 && key in Inorder(t.kids[i])
    ensures key in Inorder(BorrowLeft(t, i).kids[i])
  {
    FullChild(t, i - 1, h, 1);
    FullChild(t, i, h, 1);
    var s, c, c' := t.kids[i - 1], t.kids[i], BorrowLeft(t, i).kids[i];
    if h == 1 {
      LeafKeys(c);
      LeafKeys(c');
    } else {
      LongerRight(c, t.keys[i - 1], c', LastOf(s.kids));
    }
  }

  /** The exact condition, duplicates included: a stored key is removed once unless deletion
      fails on the way. */
  lemma {:induction false} FailsIff(t: Tree, key: int, h: nat)
    requires Deletable(t, h) && Sorted(Inorder(t)) && key in Inorder(t)
    ensures Surplus(t, key, h) != multiset{} <==> Fails(t, key, h)
    decreases h
  {
    hide Inorder, Before, After, Deleted, Kept, Surplus, Fails, Shape, Deletable, Ready, Sorted, First, MaxKey, MinKey,
      Merge, BorrowLeft;
    if h == 0 {
      LeafSurplus(t, key);
    } else {
      var i, f, d := AtFirst(t, key, h);
      KidsSorted(t, i, f, d);
      if !Found(t, i, key) {
        StaysBelow(t, key, h, i, f, d);
        Descends(t, key, h, i, f, d);
        FailsIff(f.kids[d], key, h - 1);
      } else if |t.kids[i].keys| >= T {
        TakesMax(t, key, h, i, f, d);
        HasOne(t.kids[i], h - 1);
        MaxIsLast(t.kids[i], h - 1);
        FailsIff(t.kids[i], MaxKey(t.kids[i]), h - 1);
      } else if |t.kids[i + 1].keys| >= T {
        TakesMin(t, key, h, i, f, d);
        HasOne(t.kids[i + 1], h - 1);
        MinIsFirst(t.kids[i + 1], h - 1);
        FailsIff(t.kids[i + 1], MinKey(t.kids[i + 1]), h - 1);
      } else {
        MinimalChild(t, i, h);
        MinimalChild(t, i + 1, h);
        DeletableShape(t, h);
        Descends(t, key, h, i, f, d);
        if i > 0 && |t.kids[i - 1].keys| >= T {
          if key in Inorder(t.kids[i]) {
            BorrowerHas(t, key, h, i);
            ReadyBorrows(t, i);
            FailsIff(f.kids[d], key, h - 1);
          } else {
            LentSurplus(t, key, h, i);
          }
        } else {
          MergedHas(t, key, h, i);
          ReadyMerges(t, i);
          FailsIff(f.kids[d], key, h - 1);
        }
      }
    }
  }

  lemma ReadyBorrows(t: Tree, i: nat)
    requires |t.kids| == |t.keys| + 1 && 0 < i < |t.keys| && |t.kids[i].keys| < T && |t.kids[i - 1].keys| >= T
    ensures Ready(t, i) == BorrowLeft(t, i) && |Ready(t, i).keys| == |t.keys|
  {
  }

  /** So a stored key goes, once and alone, exactly if its deletion does not fail. */
  lemma DeletedOnce(t: Tree, key: int, h: nat)
    requires Deletable(t, h) && Sorted(Inorder(t)) && key in Inorder(t)
    ensures multiset(Inorder(Deleted(t, key, h))) == multiset(Inorder(t)) - multiset{key} <==> !Fails(t, key, h)
  {
    hide Inorder, Deleted, Surplus, Fails, Shape, Deletable, Sorted, NoneNew;
    FailsIff(t, key, h);
    DeletedIs(t, key, h);
    OneLess(multiset(Inorder(Deleted(t, key, h))), multiset(Inorder(t)), key, Surplus(t, key, h));
  }

  lemma OneLess(r: multiset<int>, m: multiset<int>, key: int, s: multiset<int>)
    requires r + multiset{key} == m + s && key in m
    ensures r == m - multiset{key} <==> s == multiset{}
  {
    if s == multiset{} {
      forall x
        ensures r[x] == (m - multiset{key})[x]
      {
        assert (r + multiset{key})[x] == (m + s)[x];
      }
    } else {
      assert |r| + 1 == |r + multiset{key}| == |m| + |s|;
      assert |m - multiset{key}| == |m| - 1;
    }
  }

  lemma AscendingSorted(s: seq<int>)
    requires Ascending(s)
    ensures Sorted(s)
  {
  }

  lemma KidsAscending(t: Tree, i: nat, f: Tree, d: nat, h: nat)
    requires |t.kids| == |t.keys| + 1 && i < |t.kids| && Ascending(Inorder(t)) && Fixed(t, i, f, d, h, 1)
    ensures Ascending(Inorder(t.kids[i])) && Ascending(Inorder(f.kids[d]))
    ensures i < |t.keys| ==> Ascending(Inorder(t.kids[i + 1]))
  {
    hide Inorder, Ascending, Before, After, Shape;
    KidAscending(t, i);
    KidAscending(f, d);
    if i < |t.keys| { KidAscending(t, i + 1); }
  }

  // ---- distinct keys -----------------------------------------------------------------------

  lemma SameFirst(a: seq<int>, b: seq<int>)
    requires Sorted(a) && Sorted(b) && a != [] && multiset(a) == multiset(b)
    ensures b != [] && a[0] == b[0]
  {
    assert a[0] in multiset(b);
    assert b[0] in multiset(a);
  }

  lemma RestElements(s: seq<int>)
    requires s != []
    ensures multiset(s[1..]) == multiset(s) - multiset{s[0]} && multiset(s) == multiset(s[1..]) + multiset{s[0]}
  {
    assert s == [s[0]] + s[1..];
  }

  lemma {:induction false} SortedUnique(a: seq<int>, b: seq<int>)
    requires Sorted(a) && Sorted(b) && multiset(a) == multiset(b)
    ensures a == b
  {
    if a == [] {
      assert |b| == |multiset(b)| == |multiset(a)| == 0;
    } else {
      SameFirst(a, b);
      RestElements(a);
      RestElements(b);
      SortedUnique(a[1..], b[1..]);
      assert a == [a[0]] + a[1..] && b == [b[0]] + b[1..];
    }
  }

  lemma Cancel(s: multiset<int>, t: multiset<int>, k: multiset<int>)
    requires s + k == t + k
    ensures s == t
  {
    forall x
      ensures s[x] == t[x]
    {
      assert (s + k)[x] == (t + k)[x];
    }
  }

  lemma {:induction false} WithoutElements(s: seq<int>, key: int)
    requires Ascending(s)
    ensures Sorted(Without(s, key))
    ensures key in s ==> multiset(Without(s, key)) + multiset{key} == multiset(s)
  {
    WithoutContents(s, key);
    AscendingSorted(Without(s, key));
    hide Sorted;
    if s != [] && key in s {
      RestAscending(s);
      RestElements(s);
      if s[0] == key { WithoutAbsent(s[1..], key); } else { WithoutElements(s[1..], key); }
    }
  }

  lemma RestAscending(s: seq<int>)
    requires Ascending(s) && s != []
    ensures Ascending(s[1..]) && s[0] !in s[1..]
  {
  }

  /** With distinct keys, deleting key takes exactly key out, or nothing if key is kept. */
  lemma DeletedDistinct(t: Tree, key: int, h: nat)
    requires Deletable(t, h) && Ascending(Inorder(t))
    ensures Inorder(Deleted(t, key, h)) == if Kept(t, key, h) then Inorder(t) else Without(Inorder(t), key)
  {
    hide Inorder, Deleted, Kept, Surplus, Shape, Deletable, Ascending, Sorted, Without, NoneNew, DeletedWell;
    var s, w := Inorder(Deleted(t, key, h)), Without(Inorder(t), key);
    AscendingSorted(Inorder(t));
    DeletedIs(t, key, h);
    WellDeleted(s, t, key, h);
    var k := multiset{key};
    if key in Inorder(t) {
      KeptSurplus(t, key, h);
      WithoutElements(Inorder(t), key);
      if Kept(t, key, h) {
        Cancel(multiset(s), multiset(Inorder(t)), k);
        SortedUnique(s, Inorder(t));
      } else {
        Cancel(multiset(s), multiset(w), k);
        SortedUnique(s, w);
      }
    } else {
      AbsentSurplus(t, key, h);
      WithoutAbsent(Inorder(t), key);
      Cancel(multiset(s), multiset(Inorder(t)), k);
      SortedUnique(s, Inorder(t));
    }
  }

  /** Deletion keeps the shape; the node itself may lose one key. */
  lemma {:induction false} DeletedShape(t: Tree, key: int, h: nat, least: nat)
    requires Shape(t, h, least) && (h > 0 ==> least >= 1) && Deletable(t, h)
    ensures Shape(Deleted(t, key, h), h, if least == 0 then 0 else least - 1)
    ensures Deleted(t, key, h).id == t.id
    decreases h
  {
    hide Inorder, Before, After, Deleted, Kept, Surplus, Fails, Deletable, Ready, Shape;
    if h == 0 {
      DeletedLeafShape(t, key, least);
    } else {
      var i, f, d := AtFirst(t, key, h);
      ShapeParts(t, h, least);
      if Found(t, i, key) && |t.kids[i].keys| >= T {
        var p := MaxKey(t.kids[i]);
        TakesMax(t, key, h, i, f, d);
        FullChild(t, i, h, least);
        ShapeMore(t.kids[i], h - 1);
        DeletedShape(t.kids[i], p, h - 1, T);
        WithKidShape(Tree(t.id, t.keys[i := p], t.kids), i, Deleted(t.kids[i], p, h - 1), h, least);
      } else if Found(t, i, key) && |t.kids[i + 1].keys| >= T {
        var p := MinKey(t.kids[i + 1]);
        TakesMin(t, key, h, i, f, d);
        FullChild(t, i + 1, h, least);
        ShapeMore(t.kids[i + 1], h - 1);
        DeletedShape(t.kids[i + 1], p, h - 1, T);
        WithKidShape(Tree(t.id, t.keys[i := p], t.kids), i + 1, Deleted(t.kids[i + 1], p, h - 1), h, least);
      } else {
        Descends(t, key, h, i, f, d);
        ReadyShape(t, i, f, d, h, least);
        FullChild(f, d, h, least - 1);
        ShapeMore(f.kids[d], h - 1);
        DeletedShape(f.kids[d], key, h - 1, T);
        WithKidShape(f, d, Deleted(f.kids[d], key, h - 1), h, least - 1);
      }
    }
  }

  lemma ShapeParts(t: Tree, h: nat, least: nat)
    requires h > 0 && Shape(t, h, least)
    ensures |t.kids| == |t.keys| + 1 && least <= |t.keys| <= MAX_KEYS
    ensures forall j :: 0 <= j < |t.kids| ==> Shape(t.kids[j], h - 1, T - 1)
  {
  }

  lemma ShapeMore(t: Tree, h: nat)
    requires Shape(t, h, T - 1) && |t.keys| >= T
    ensures Shape(t, h, T)
  {
  }

  lemma DeletedLeafShape(t: Tree, key: int, least: nat)
    requires Shape(t, 0, least) && Deletable(t, 0)
    ensures Shape(Deleted(t, key, 0), 0, if least == 0 then 0 else least - 1) && Deleted(t, key, 0).id == t.id
  {
  }

  /** Same number of keys, one child exchanged for another of the same height. */
  lemma WithKidShape(t: Tree, i: nat, c: Tree, h: nat, least: nat)
    requires h > 0 && |t.kids| == |t.keys| + 1 && i < |t.kids| && least <= |t.keys| <= MAX_KEYS
    requires forall j :: 0 <= j < |t.kids| ==> Shape(t.kids[j], h - 1, T - 1)
    requires Shape(c, h - 1, T - 1)
    ensures Shape(WithKid(t, i, c), h, least)
    ensures least > 0 ==> Shape(WithKid(t, i, c), h, least - 1)
  {
  }

  lemma ReadyShape(t: Tree, i: nat, f: Tree, d: nat, h: nat, least: nat)
    requires h > 0 && least >= 1 && Shape(t, h, least) && |t.kids| == |t.keys| + 1 && i < |t.kids| && |t.keys| >= 1
    requires f == Ready(t, i) && i <= |f.keys| + 1 && d == Moved(f, i) && d < |f.kids|
    ensures Shape(f, h, least - 1) && f.id == t.id && |f.kids[d].keys| >= T && |f.kids| == |f.keys| + 1
    ensures least - 1 <= |f.keys| <= MAX_KEYS
    ensures forall j :: 0 <= j < |f.kids| ==> Shape(f.kids[j], h - 1, T - 1)
  {
    hide Inorder, Before, After;
    FullChild(t, i, h, least);
    if |t.kids[i].keys| < T {
      FixGood(t, i, h, least);
    } else {
      ShapeLess(t, h, least, least - 1);
    }
  }

  /** For a key that is there, deletion does what it is for exactly if key is not kept. */
  lemma DeletedIff(t: Tree, key: int, h: nat)
    requires Deletable(t, h) && Ascending(Inorder(t)) && key in Inorder(t)
    ensures Inorder(Deleted(t, key, h)) == Without(Inorder(t), key) <==> !Kept(t, key, h)
  {
    DeletedDistinct(t, key, h);
    WithoutContents(Inorder(t), key);
  }

  /** Three leaves of 3, 2 and 2 keys under a root with the keys 4 and 7, as inserting
      9, 8, .. 1 leaves them: deleting 7 leaves 7 in the tree. */
  lemma KeptExample(t: Tree)
    requires t.keys == [4, 7] && |t.kids| == 3 && forall i :: 0 <= i < 3 ==> t.kids[i].kids == []
    requires t.kids[0].keys == [1, 2, 3] && t.kids[1].keys == [5, 6] && t.kids[2].keys == [8, 9]
    ensures Deletable(t, 1) && Ascending(Inorder(t)) && 7 in Inorder(t) && Kept(t, 7, 1)
    ensures Inorder(Deleted(t, 7, 1)) == Inorder(t) == [1, 2, 3, 4, 5, 6, 7, 8, 9]
  {
    hide Shape, Deletable, Inorder, Kept, Deleted, First;
    LeafShapes(t);
    ThreeLeaves(t);
    FirstIs(t.keys, 7, 1);
    LeafKeys(t.kids[1]);
    AscendingSorted(Inorder(t));
    LentSurplus(t, 7, 1, 1);
    DeletedDistinct(t, 7, 1);
    assert Inorder(t)[6] == 7;
  }

  /** With duplicates worse can happen: the predecessor 2 takes the place of 3 but stays
      below as well, so a 3 is gone and there is a 2 too many. */
  lemma SwappedExample(t: Tree)
    requires Deletable(t, 2) && Sorted(Inorder(t)) && t.keys == [3] && |t.kids| == 2
    requires t.kids[0].keys == [1, 2, 2] && |t.kids[0].kids| == 4
    requires t.kids[0].kids[0].keys == [1, 1, 1] && t.kids[0].kids[1].keys == [1, 1]
    requires t.kids[0].kids[2].keys == [2, 2] && t.kids[0].kids[3].keys == [2, 2, 2]
    ensures Surplus(t, 3, 2) == multiset{2}
    ensures multiset(Inorder(Deleted(t, 3, 2))) + multiset{3} == multiset(Inorder(t)) + multiset{2}
  {
    hide Shape, Deletable, Inorder, Kept, Deleted, Surplus, Fails, First, Ready, MaxKey, Sorted, NoneNew;
    var l := t.kids[0];
    KidsDeletable(t, 2);
    FirstIs(t.keys, 3, 0);
    var i, f, d := AtFirst(t, 3, 2);
    KidsSorted(t, i, f, d);
    TakesMax(t, 3, 2, i, f, d);
    TwoLevels(l);
    FirstIs(l.keys, 2, 1);
    LeafKeys(l.kids[1]);
    LentSurplus(l, 2, 1, 1);
    DeletedIs(t, 3, 2);
  }

  lemma TwoLevels(l: Tree)
    requires Deletable(l, 1) && |l.keys| == 3 && |l.kids| == 4 && l.kids[3].keys == [2, 2, 2]
    ensures l.kids[1].kids == [] && MaxKey(l) == 2
  {
    KidsDeletable(l, 1);
  }

  lemma LeafShapes(t: Tree)
    requires |t.keys| == 2 && |t.kids| == 3
    requires forall i :: 0 <= i < 3 ==> t.kids[i].kids == [] && 2 <= |t.kids[i].keys| <= MAX_KEYS
    ensures Deletable(t, 1)
  {
    assert forall i :: 0 <= i < 3 ==> Shape(t.kids[i], 0, T - 1);
  }

  lemma ThreeLeaves(t: Tree)
    requires |t.keys| == 2 && |t.kids| == 3 && forall i :: 0 <= i < 3 ==> t.kids[i].kids == []
    ensures Inorder(t) == t.kids[0].keys + [t.keys[0]] + t.kids[1].keys + [t.keys[1]] + t.kids[2].keys
  {
    hide Inorder, Before, After, Post;
    InorderAt(t, 0);
    BeforeFirst(t);
    AfterLast(t);
    AfterNext(t, 0);
    AfterNext(t, 1);
    LeafKeys(t.kids[0]);
    LeafKeys(t.kids[1]);
    LeafKeys(t.kids[2]);
    Lined(t.kids[0].keys, t.keys[0], t.kids[1].keys, t.keys[1], t.kids[2].keys);
  }

  lemma Lined(a: seq<int>, k: int, b: seq<int>, l: int, c: seq<int>)
    ensures [] + a + ([k] + b + ([l] + c + [])) == a + [k] + b + [l] + c
  {
  }

  // ---- a root that gives way ---------------------------------------------------------------

  /** The tree without a root that has lost its last key. */
  ghost function Shrunk(t: Tree, h: nat): Tree {
    if h > 0 && t.keys == [] && |t.kids| == 1 then t.kids[0] else t
  }

  ghost function ShrunkHeight(t: Tree, h: nat): nat {
    if h > 0 && t.keys == [] then h - 1 else h
  }

  // ---- the left neighbour lends ------------------------------------------------------------

  lemma LeafWithout(t: Tree, key: int, i: nat)
    requires Deletable(t, 0) && FirstAt(t.keys, key, i)
    ensures Deleted(t, key, 0) == Tree(t.id, Drop(t.keys, i), []) && !Kept(t, key, 0)
  {
    FirstIs(t.keys, key, i);
  }

  ghost predicate FirstAt(s: seq<int>, key: int, i: nat) {
    i < |s| && s[i] == key && forall k :: 0 <= k < i ==> s[k] < key
  }

  lemma LentOrder(t: Tree, s: seq<int>)
    requires |t.keys| == 2 && |t.kids| == 3 && forall i :: 0 <= i < 3 ==> t.kids[i].kids == []
    requires s == t.kids[0].keys + [t.keys[0]] + t.kids[1].keys + [t.keys[1]] + t.kids[2].keys
    requires Ascending(s) && forall i :: 0 <= i < 3 ==> 2 <= |t.kids[i].keys| <= MAX_KEYS
    ensures Deletable(t, 1) && Inorder(t) == s && Ascending(Inorder(t))
  {
    hide Shape, Deletable, Inorder;
    LeafShapes(t);
    ThreeLeaves(t);
  }

  lemma LentKeys(t: Tree)
    requires t.keys == [4, 7] && |t.kids| == 3 && forall i :: 0 <= i < 3 ==> t.kids[i].kids == []
    requires t.kids[0].keys == [1, 2, 3] && t.kids[1].keys == [5, 6] && t.kids[2].keys == [8, 9, 10]
    ensures var f := BorrowLeft(t, 1);
      && f.keys == [3, 7] && |f.kids| == 3 && f.kids[0].keys == [1, 2] && f.kids[0].kids == []
      && f.kids[1].keys == [4, 5, 6] && f.kids[1].kids == [] && f.kids[2] == t.kids[2]
  {
    assert FrontOf([1, 2, 3]) == [1, 2];
    assert [4] + [5, 6] == [4, 5, 6];
    assert [4, 7][0 := 3] == [3, 7];
  }

  lemma BothOrders()
    ensures var s := [1, 2, 3, 4, 5, 6, 7, 8, 9, 10]; Ascending(s) && 5 in s
    ensures var s := [1, 2, 3, 4, 6, 7, 8, 9, 10];
      Ascending(s) && 8 in s && Without(s, 8) == [1, 2, 3, 4, 6, 7, 9, 10]
  {
    hide Ascending, Without;
    var s, r := [1, 2, 3, 4, 5, 6, 7, 8, 9, 10], [1, 2, 3, 4, 6, 7, 8, 9, 10];
    StepsAscend(s);
    StepsAscend(r);
    assert s[4] == 5 && r[6] == 8;
    WithoutMiddle([1, 2, 3, 4, 6, 7], 8, [9, 10]);
    assert r == [1, 2, 3, 4, 6, 7] + [8] + [9, 10];
  }

  lemma LentBefore(t: Tree)
    requires t.keys == [4, 7] && |t.kids| == 3 && forall i :: 0 <= i < 3 ==> t.kids[i].kids == []
    requires t.kids[0].keys == [1, 2, 3] && t.kids[1].keys == [5, 6] && t.kids[2].keys == [8, 9, 10]
    ensures Deletable(t, 1) && Ascending(Inorder(t)) && 5 in Inorder(t)
  {
    hide Deletable, Inorder, Ascending, Without;
    BothOrders();
    LentOrder(t, [1, 2, 3, 4, 5, 6, 7, 8, 9, 10]);
  }

  lemma LentAfter(f: Tree, u: Tree, c: Tree)
    requires f.keys == [3, 7] && |f.kids| == 3 && f.kids[0].keys == [1, 2] && f.kids[0].kids == []
    requires f.kids[2].keys == [8, 9, 10] && f.kids[2].kids == []
    requires c.keys == [4, 6] && c.kids == [] && u == WithKid(f, 1, c)
    ensures u.keys == [3, 7] && |u.kids| == 3 && (forall i :: 0 <= i < 3 ==> u.kids[i].kids == [])
    ensures u.kids[0].keys == [1, 2] && u.kids[1].keys == [4, 6] && u.kids[2].keys == [8, 9, 10]
    ensures Shrunk(u, 1) == u && ShrunkHeight(u, 1) == 1
  {
  }

  /** Deleting 5 takes 3 from the left leaf although the right one could spare a key as well. */
  lemma LentExample(t: Tree)
    requires t.keys == [4, 7] && |t.kids| == 3 && forall i :: 0 <= i < 3 ==> t.kids[i].kids == []
    requires t.kids[0].keys == [1, 2, 3] && t.kids[1].keys == [5, 6] && t.kids[2].keys == [8, 9, 10]
    ensures Deletable(t, 1) && Ascending(Inorder(t)) && 5 in Inorder(t) && !Kept(t, 5, 1)
    ensures var u := Deleted(t, 5, 1);
      && u.keys == [3, 7] && |u.kids| == 3 && (forall i :: 0 <= i < 3 ==> u.kids[i].kids == [])
      && u.kids[0].keys == [1, 2] && u.kids[1].keys == [4, 6] && u.kids[2].keys == [8, 9, 10]
    ensures Shrunk(Deleted(t, 5, 1), 1) == Deleted(t, 5, 1) && ShrunkHeight(Deleted(t, 5, 1), 1) == 1
  {
    hide Shape, Deletable, Inorder, Ascending, Kept, Deleted, First, Fix, Fails, Surplus, BorrowLeft, Shrunk,
      ShrunkHeight, WithKid;
    LentBefore(t);
    FirstIs(t.keys, 5, 1);
    var i, f, d := AtFirst(t, 5, 1);
    Descends(t, 5, 1, i, f, d);
    ReadyBorrows(t, 1);
    LentKeys(t);
    assert f == BorrowLeft(t, 1) && d == 1;
    LeafWithout(f.kids[1], 5, 1);
    assert Drop([4, 5, 6], 1) == [4, 6];
    LentAfter(f, Deleted(t, 5, 1), Deleted(f.kids[1], 5, 0));
  }

  lemma {:induction false} StepsAscend(s: seq<int>)
    requires forall i :: 0 < i < |s| ==> s[i - 1] < s[i]
    ensures Ascending(s)
  {
    if |s| > 1 {
      var n := |s| - 1;
      StepsAscend(s[..n]);
      assert forall i :: 0 <= i < n ==> s[..n][i] == s[i];
      assert forall i :: 0 <= i < n - 1 ==> s[i] < s[n - 1];
    }
  }

  /** So 8 is still in a leaf, and goes. */
  lemma LentGoes(t: Tree)
    requires t.keys == [3, 7] && |t.kids| == 3 && forall i :: 0 <= i < 3 ==> t.kids[i].kids == []
    requires t.kids[0].keys == [1, 2] && t.kids[1].keys == [4, 6] && t.kids[2].keys == [8, 9, 10]
    ensures Deletable(t, 1) && Ascending(Inorder(t)) && 8 in Inorder(t) && !Kept(t, 8, 1)
    ensures Without(Inorder(t), 8) == [1, 2, 3, 4, 6, 7, 9, 10]
  {
    hide Shape, Deletable, Inorder, Ascending, Kept, Deleted, First, Fix, Fails, Surplus, Without;
    BothOrders();
    LentOrder(t, [1, 2, 3, 4, 6, 7, 8, 9, 10]);
    FirstIs(t.keys, 8, 2);
    var i, f, d := AtFirst(t, 8, 1);
    Descends(t, 8, 1, i, f, d);
    assert f == t && d == 2;
    LeafWithout(t.kids[2], 8, 0);
  }
}
