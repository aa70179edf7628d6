/** Nodes of a B-tree of minimum degree 3. A node's key and child buffers have a fixed
    size and live inside the node; only the first n keys and n + 1 children count. Cell
    is what a node currently says. */
module BTreeNodes {

  const T := 3
  const MAX_KEYS := 2 * T - 1

  datatype Cell = Cell(keys: seq<int>, kids: seq<BTNode>)

  function Insert<A>(s: seq<A>, i: nat, x: A): seq<A>
    requires i <= |s|
  {
    s[..i] + [x] + s[i..]
  }

  function Drop<A>(s: seq<A>, i: nat): seq<A>
    requires i < |s|
  {
    s[..i] + s[i + 1..]
  }

  lemma InsertIs<A>(s: seq<A>, i: nat, x: A, r: seq<A>)
    requires i <= |s| && |r| == |s| + 1 && r[i] == x
    requires forall k :: 0 <= k < i ==> r[k] == s[k]
    requires forall k :: i <= k < |s| ==> r[k + 1] == s[k]
    ensures r == Insert(s, i, x)
  {
    forall k | i < k < |r|
      ensures r[k] == s[k - 1]
    {
      assert r[(k - 1) + 1] == s[k - 1];
    }
  }

  lemma DropIs<A>(s: seq<A>, i: nat, r: seq<A>)
    requires i < |s| && |r| == |s| - 1
    requires forall k :: 0 <= k < i ==> r[k] == s[k]
    requires forall k :: i < k < |s| ==> r[k - 1] == s[k]
    ensures r == Drop(s, i)
  {
    forall k | i <= k < |r|
      ensures r[k] == s[k + 1]
    {
      assert r[(k + 1) - 1] == s[k + 1];
    }
  }

  class BTNode {
    var keys: seq<int>
    var children: seq<BTNode?>
    var n: nat
    var leaf: bool

    ghost predicate Sized()
      reads this
    {
      |keys| == MAX_KEYS && |children| == MAX_KEYS + 1 && n <= MAX_KEYS
    }

    ghost predicate Says(c: Cell)
      reads this
    {
      && Sized()
      && n == |c.keys| && keys[..n] == c.keys
      && leaf == (c.kids == [])
      && (!leaf ==> |c.kids| == n + 1 && forall k :: 0 <= k <= n ==> children[k] == c.kids[k])
    }

    constructor (leaf: bool)
      ensures Sized() && n == 0 && this.leaf == leaf
    {
      keys := seq(MAX_KEYS, _ => 0);
      children := seq(MAX_KEYS + 1, _ => null);
      n := 0;
      this.leaf := leaf;
    }

    // ---- shifting the buffers ------------------------------------------------------------

    /** Moves the keys from i on one place up. */
    method KeysUp(i: nat)
      requires Sized() && i <= n < MAX_KEYS
      modifies this`keys
      ensures |keys| == MAX_KEYS
      ensures forall k :: 0 <= k < i ==> keys[k] == old(keys[k])
      ensures forall k :: i <= k < n ==> keys[k + 1] == old(keys[k])
    {
      var j := n;
      while j > i
        invariant i <= j <= n && |keys| == MAX_KEYS
        invariant forall k :: 0 <= k < j ==> keys[k] == old(keys[k])
        invariant forall k :: j <= k < n ==> keys[k + 1] == old(keys[k])
      {
        keys := keys[j := keys[j - 1]];
        j := j - 1;
      }
    }

    /** Moves the keys above i one place down. */
    method KeysDown(i: nat)
      requires Sized() && i < n
      modifies this`keys
      ensures |keys| == MAX_KEYS
      ensures forall k :: 0 <= k < i ==> keys[k] == old(keys[k])
      ensures forall k :: i < k < n ==> keys[k - 1] == old(keys[k])
    {
      var j := i;
      while j < n - 1
        invariant i <= j <= n - 1 && |keys| == MAX_KEYS
        invariant forall k :: 0 <= k < i || j <= k < n ==> keys[k] == old(keys[k])
        invariant forall k :: i < k <= j ==> keys[k - 1] == old(keys[k])
      {
        keys := keys[j := keys[j + 1]];
        j := j + 1;
      }
    }

    /** Moves the children from i on one place up. */
    method KidsUp(i: nat)
      requires Sized() && i <= n + 1 && n < MAX_KEYS
      modifies this`children
      ensures |children| == MAX_KEYS + 1
      ensures forall k :: 0 <= k < i ==> children[k] == old(children[k])
      ensures forall k :: i <= k <= n ==> children[k + 1] == old(children[k])
    {
      var j := n + 1;
      while j > i
        invariant i <= j <= n + 1 && |children| == MAX_KEYS + 1
        invariant forall k :: 0 <= k < j ==> children[k] == old(children[k])
        invariant forall k :: j <= k <= n ==> children[k + 1] == old(children[k])
      {
        children := children[j := children[j - 1]];
        j := j - 1;
      }
    }

    /** Moves the children above i one place down. */
    method KidsDown(i: nat)
      requires Sized() && i <= n
      modifies this`children
      ensures |children| == MAX_KEYS + 1
      ensures forall k :: 0 <= k < i ==> children[k] == old(children[k])
      ensures forall k :: i < k <= n ==> children[k - 1] == old(children[k])
    {
      var j := i;
      while j < n
        invariant i <= j <= n && |children| == MAX_KEYS + 1
        invariant forall k :: 0 <= k < i || j <= k <= n ==> children[k] == old(children[k])
        invariant forall k :: i < k <= j ==> children[k - 1] == old(children[k])
      {
        children := children[j := children[j + 1]];
        j := j + 1;
      }
    }

    /** Copies count keys of other, from position from, to position to. */
    method CopyKeys(other: BTNode, from: nat, to: nat, count: nat)
      requires Sized() && other.Sized() && other != this
      requires from + count <= MAX_KEYS && to + count <= MAX_KEYS
      modifies this`keys
      ensures |keys| == MAX_KEYS
      ensures forall k :: 0 <= k < to ==> keys[k] == old(keys[k])
      ensures forall k :: to <= k < to + count ==> keys[k] == other.keys[from + (k - to)]
    {
      for j := 0 to count
        invariant |keys| == MAX_KEYS
        invariant forall k :: 0 <= k < to ==> keys[k] == old(keys[k])
        invariant forall k :: to <= k < to + j ==> keys[k] == other.keys[from + (k - to)]
      {
        keys := keys[to + j := other.keys[from + j]];
      }
    }

    method CopyKids(other: BTNode, from: nat, to: nat, count: nat)
      requires Sized() && other.Sized() && other != this
      requires from + count <= MAX_KEYS + 1 && to + count <= MAX_KEYS + 1
      modifies this`children
      ensures |children| == MAX_KEYS + 1
      ensures forall k :: 0 <= k < to ==> children[k] == old(children[k])
      ensures forall k :: to <= k < to + count ==> children[k] == other.children[from + (k - to)]
    {
      for j := 0 to count
        invariant |children| == MAX_KEYS + 1
        invariant forall k :: 0 <= k < to ==> children[k] == old(children[k])
        invariant forall k :: to <= k < to + j ==> children[k] == other.children[from + (k - to)]
      {
        children := children[to + j := other.children[from + j]];
      }
    }

    // ---- one node ------------------------------------------------------------------------

    /** The first position whose key is not below key. */
    method Position(key: int, ghost c: Cell) returns (i: nat)
      requires Says(c)
      ensures i == First(c.keys, key)
    {
      i := 0;
      while i < n && key > keys[i]
        invariant i <= n && forall k :: 0 <= k < i ==> key > c.keys[k]
      {
        i := i + 1;
      }
      FirstIs(c.keys, key, i);
    }

    /** Puts key behind all keys of a leaf that are not above it. */
    method InsertIntoLeaf(key: int, ghost c: Cell)
      requires Says(c) && leaf && n < MAX_KEYS
      modifies this
      ensures Says(Cell(Insert(c.keys, Upper(c.keys, key), key), []))
    {
      var i: int := n - 1;
      while i >= 0 && key < keys[i]
        invariant -1 <= i < n && Sized() && n == old(n) && leaf
        invariant forall k :: 0 <= k <= i ==> keys[k] == c.keys[k]
        invariant forall k :: i < k < n ==> key < c.keys[k] && keys[k + 1] == c.keys[k]
      {
        keys := keys[i + 1 := keys[i]];
        i := i - 1;
      }
      keys := keys[i + 1 := key];
      n := n + 1;
      UpperIs(c.keys, key, i + 1);
      InsertIs(c.keys, i + 1, key, keys[..n]);
    }

    /** The child to descend to when inserting key. */
    method Branch(key: int, ghost c: Cell) returns (i: nat)
      requires Says(c)
      ensures i == Upper(c.keys, key)
    {
      var j: int := n - 1;
      while j >= 0 && key < keys[j]
        invariant -1 <= j < n
        invariant forall k :: j < k < n ==> key < c.keys[k]
      {
        j := j - 1;
      }
      i := j + 1;
      UpperIs(c.keys, key, i);
    }

    method RemoveFromLeaf(i: nat, ghost c: Cell)
      requires Says(c) && leaf && i < n
      modifies this
      ensures Says(Cell(Drop(c.keys, i), []))
    {
      KeysDown(i);
      n := n - 1;
      DropIs(c.keys, i, keys[..n]);
    }

    method SetKey(i: nat, key: int, ghost c: Cell)
      requires Says(c) && i < n
      modifies this`keys
      ensures Says(Cell(c.keys[i := key], c.kids))
    {
      keys := keys[i := key];
    }

    /** Takes in key at position i and, behind it, the child kid. */
    method TakeIn(i: nat, key: int, kid: BTNode, ghost c: Cell)
      requires Says(c) && !leaf && i <= n < MAX_KEYS
      modifies this
      ensures Says(Cell(Insert(c.keys, i, key), Insert(c.kids, i + 1, kid)))
    {
      KidsUp(i + 1);
      children := children[i + 1 := kid];
      KeysUp(i);
      keys := keys[i := key];
      n := n + 1;
      InsertIs(c.keys, i, key, keys[..n]);
    }

    /** Gives up the key at position i and the child behind it. */
    method GiveUp(i: nat, ghost c: Cell)
      requires Says(c) && !leaf && i < n
      modifies this
      ensures Says(Cell(Drop(c.keys, i), Drop(c.kids, i + 1)))
    {
      KeysDown(i);
      KidsDown(i + 1);
      n := n - 1;
      DropIs(c.keys, i, keys[..n]);
    }

    /** Becomes the upper half of the full node y. */
    method TakeUpper(y: BTNode, ghost cy: Cell)
      requires Sized() && y != this && y.Says(cy) && y.n == MAX_KEYS && leaf == y.leaf
      modifies this
      ensures Says(Cell(cy.keys[T..], if cy.kids == [] then [] else cy.kids[T..]))
    {
      n := T - 1;
      CopyKeys(y, T, 0, T - 1);
      if !y.leaf { CopyKids(y, T, 0, T); }
      assert keys[..n] == cy.keys[T..];
    }

    /** Keeps the first m keys and the children around them. */
    method Cut(m: nat, ghost c: Cell)
      requires Says(c) && m <= n
      modifies this`n
      ensures Says(Cell(c.keys[..m], if c.kids == [] then [] else c.kids[..m + 1]))
    {
      n := m;
    }

    method PushFront(key: int, kid: BTNode?, ghost c: Cell)
      requires Says(c) && n < MAX_KEYS && (kid == null <==> leaf)
      modifies this
      ensures Says(Cell([key] + c.keys, if kid == null then [] else [kid] + c.kids))
    {
      KeysUp(0);
      if !leaf { KidsUp(0); }
      keys := keys[0 := key];
      if !leaf { children := children[0 := kid]; }
      n := n + 1;
      assert keys[..n] == [key] + c.keys;
    }

    method PushBack(key: int, kid: BTNode?, ghost c: Cell)
      requires Says(c) && n < MAX_KEYS && (kid == null <==> leaf)
      modifies this
      ensures Says(Cell(c.keys + [key], if kid == null then [] else c.kids + [kid]))
    {
      keys := keys[n := key];
      if !leaf { children := children[n + 1 := kid]; }
      n := n + 1;
      assert keys[..n] == c.keys + [key];
    }

    method PopFront(ghost c: Cell)
      requires Says(c) && n > 0
      modifies this
      ensures Says(Cell(c.keys[1..], if c.kids == [] then [] else c.kids[1..]))
    {
      KeysDown(0);
      if !leaf { KidsDown(0); }
      n := n - 1;
      assert keys[..n] == c.keys[1..];
    }

    /** Takes in key and everything r holds. */
    method Append(key: int, r: BTNode, ghost c: Cell, ghost cr: Cell)
      requires Says(c) && r != this && r.Says(cr) && n + 1 + r.n <= MAX_KEYS && leaf == r.leaf
      modifies this
      ensures Says(Cell(c.keys + [key] + cr.keys, c.kids + cr.kids))
    {
      keys := keys[n := key];
      CopyKeys(r, 0, n + 1, r.n);
      if !leaf { CopyKids(r, 0, n + 1, r.n + 1); }
      n := n + r.n + 1;
      assert keys[..n] == c.keys + [key] + cr.keys;
    }
  }

  /** The number of leading keys below key. */
  function First(s: seq<int>, key: int): (i: nat)
    ensures i <= |s|
    ensures forall k :: 0 <= k < i ==> s[k] < key
    ensures i < |s| ==> key <= s[i]
  {
    if s == [] || key <= s[0] then 0 else 1 + First(s[1..], key)
  }

  lemma FirstIs(s: seq<int>, key: int, i: nat)
    requires i <= |s| && (forall k :: 0 <= k < i ==> s[k] < key) && (i < |s| ==> key <= s[i])
    ensures First(s, key) == i
  {
  }

  /** One past the last key that is not above key. */
  function Upper(s: seq<int>, key: int): (i: nat)
    ensures i <= |s|
    ensures i > 0 ==> s[i - 1] <= key
    ensures forall k :: i <= k < |s| ==> key < s[k]
  {
    if s == [] then 0 else if s[|s| - 1] <= key then |s| else Upper(s[..|s| - 1], key)
  }

  lemma UpperIs(s: seq<int>, key: int, i: nat)
    requires i <= |s| && (i > 0 ==> s[i - 1] <= key) && (forall k :: i <= k < |s| ==> key < s[k])
    ensures Upper(s, key) == i
  {
  }

  // ---- a node and its children -------------------------------------------------------------

  /** Splits the full child y at position i of x: its median moves up into x, its right
      half into a new child beside it. */
  method SplitChild(x: BTNode, i: nat, y: BTNode, ghost cx: Cell, ghost cy: Cell) returns (z: BTNode)
    requires x.Says(cx) && y.Says(cy) && x != y
    requires i < |cx.kids| && cx.kids[i] == y && |cx.keys| < MAX_KEYS && |cy.keys| == MAX_KEYS
    modifies x, y
    ensures fresh(z)
    ensures x.Says(Cell(Insert(cx.keys, i, cy.keys[T - 1]), Insert(cx.kids, i + 1, z)))
    ensures y.Says(Cell(cy.keys[..T - 1], if cy.kids == [] then [] else cy.kids[..T]))
    ensures z.Says(Cell(cy.keys[T..], if cy.kids == [] then [] else cy.kids[T..]))
  {
    z := new BTNode(y.leaf);
    z.TakeUpper(y, cy);
    var median := y.keys[T - 1];
    y.Cut(T - 1, cy);
    x.TakeIn(i, median, z, cx);
  }

  /** Moves the last key of s up into x and the key of x that separates s from c down
      into c, the last child of s with it. */
  method BorrowFromLeft(x: BTNode, i: nat, s: BTNode, c: BTNode, ghost cx: Cell, ghost cs: Cell, ghost cc: Cell)
    requires x.Says(cx) && s.Says(cs) && c.Says(cc) && x != s && x != c && s != c
    requires 0 < i < |cx.kids| && cx.kids[i] == c && cx.kids[i - 1] == s
    requires |cs.keys| >= 1 && |cc.keys| < MAX_KEYS && (cs.kids == []) == (cc.kids == [])
    modifies x, s, c
    ensures x.Says(Cell(cx.keys[i - 1 := cs.keys[|cs.keys| - 1]], cx.kids))
    ensures s.Says(Cell(cs.keys[..|cs.keys| - 1], if cs.kids == [] then [] else cs.kids[..|cs.keys|]))
    ensures c.Says(Cell([cx.keys[i - 1]] + cc.keys, if cc.kids == [] then [] else [cs.kids[|cs.keys|]] + cc.kids))
  {
    c.PushFront(x.keys[i - 1], if s.leaf then null else s.children[s.n], cc);
    x.SetKey(i - 1, s.keys[s.n - 1], cx);
    s.Cut(s.n - 1, cs);
  }

  /** The mirror image: the first key and child of s. */
  method BorrowFromRight(x: BTNode, i: nat, s: BTNode, c: BTNode, ghost cx: Cell, ghost cs: Cell, ghost cc: Cell)
    requires x.Says(cx) && s.Says(cs) && c.Says(cc) && x != s && x != c && s != c
    requires i + 1 < |cx.kids| && cx.kids[i] == c && cx.kids[i + 1] == s
    requires |cs.keys| >= 1 && |cc.keys| < MAX_KEYS && (cs.kids == []) == (cc.kids == [])
    modifies x, s, c
    ensures x.Says(Cell(cx.keys[i := cs.keys[0]], cx.kids))
    ensures s.Says(Cell(cs.keys[1..], if cs.kids == [] then [] else cs.kids[1..]))
    ensures c.Says(Cell(cc.keys + [cx.keys[i]], if cc.kids == [] then [] else cc.kids + [cs.kids[0]]))
  {
    c.PushBack(x.keys[i], if s.leaf then null else s.children[0], cc);
    x.SetKey(i, s.keys[0], cx);
    s.PopFront(cs);
  }

  /** Joins the children i and i + 1 of x around the key between them; r is given up. */
  method MergeChildren(x: BTNode, i: nat, l: BTNode, r: BTNode, ghost cx: Cell, ghost cl: Cell, ghost cr: Cell)
    requires x.Says(cx) && l.Says(cl) && r.Says(cr) && x != l && x != r && l != r
    requires i + 1 < |cx.kids| && cx.kids[i] == l && cx.kids[i + 1] == r && i < |cx.keys|
    requires |cl.keys| + 1 + |cr.keys| <= MAX_KEYS && (cl.kids == []) == (cr.kids == [])
    modifies x, l
    ensures x.Says(Cell(Drop(cx.keys, i), Drop(cx.kids, i + 1)))
    ensures l.Says(Cell(cl.keys + [cx.keys[i]] + cr.keys, cl.kids + cr.kids))
  {
    l.Append(x.keys[i], r, cl, cr);
    x.GiveUp(i, cx);
  }
}
