/** The value side of the red-black tree: the shape of a tree of linked nodes,
    the context ("zipper") around one of its subtrees, and the colour and order
    rules. Nothing here reads the heap; module RedBlackTree ties it to nodes. */
module RedBlackShape {
  import opened Powers

  datatype Color = Red | Black

  /** A node of the C structure. Links are never null: the absent child is the
      tree's sentinel. */
  class RBNode {
    var key: int
    var val: int
    var color: Color
    var left: RBNode
    var right: RBNode
    var parent: RBNode

    /** The black sentinel, linked to itself. */
    constructor Sentinel()
      ensures color == Black
    {
      key, val, color := 0, 0, Black;
      left, right, parent := this, this, this;
    }

    /** A fresh red node whose three links are the sentinel. */
    constructor (key: int, val: int, nil: RBNode)
      ensures this.key == key && this.val == val && color == Red
      ensures left == nil && right == nil && parent == nil
    {
      this.key, this.val, color := key, val, Red;
      left, right, parent := nil, nil, nil;
    }
  }

  datatype Entry = Entry(n: RBNode, key: int, val: int)

  datatype Tree = Leaf | Node(l: Tree, e: Entry, c: Color, r: Tree)

  /** What surrounds a subtree, innermost parent first. */
  datatype Ctx =
    | Top
    | InLeft(up: Ctx, e: Entry, c: Color, sib: Tree)
    | InRight(up: Ctx, e: Entry, c: Color, sib: Tree)

  ghost function Plug(z: Ctx, t: Tree): Tree {
    match z
    case Top => t
    case InLeft(up, e, c, sib) => Plug(up, Node(t, e, c, sib))
    case InRight(up, e, c, sib) => Plug(up, Node(sib, e, c, t))
  }

  ghost function Parent(z: Ctx, t: Tree): Tree
    requires !z.Top?
  {
    if z.InLeft? then Node(t, z.e, z.c, z.sib) else Node(z.sib, z.e, z.c, t)
  }

  lemma {:induction false} PlugNode(z: Ctx, t: Tree)
    requires t.Node?
    ensures Plug(z, t).Node?
  {
    if !z.Top? { PlugNode(z.up, Parent(z, t)); }
  }

  ghost function Depth(z: Ctx): nat {
    if z.Top? then 0 else 1 + Depth(z.up)
  }

  // ---- identities of the nodes -------------------------------------------

  ghost function Ids(t: Tree): set<RBNode> {
    if t.Leaf? then {} else Ids(t.l) + {t.e.n} + Ids(t.r)
  }

  ghost function CtxIds(z: Ctx): set<RBNode> {
    if z.Top? then {} else CtxIds(z.up) + {z.e.n} + Ids(z.sib)
  }

  ghost predicate Distinct(t: Tree) {
    t.Node? ==>
      && t.e.n !in Ids(t.l) && t.e.n !in Ids(t.r) && Ids(t.l) !! Ids(t.r)
      && Distinct(t.l) && Distinct(t.r)
  }

  ghost predicate CtxDistinct(z: Ctx) {
    !z.Top? ==>
      && z.e.n !in CtxIds(z.up) && z.e.n !in Ids(z.sib) && CtxIds(z.up) !! Ids(z.sib)
      && CtxDistinct(z.up) && Distinct(z.sib)
  }

  // ---- order ----------------------------------------------------------------

  function InOrder(t: Tree): seq<Entry> {
    if t.Leaf? then [] else InOrder(t.l) + [t.e] + InOrder(t.r)
  }

  /** The entries to the left of the hole. */
  ghost function Before(z: Ctx): seq<Entry> {
    match z
    case Top => []
    case InLeft(up, _, _, _) => Before(up)
    case InRight(up, e, _, sib) => Before(up) + InOrder(sib) + [e]
  }

  /** The entries to the right of the hole. */
  ghost function After(z: Ctx): seq<Entry> {
    match z
    case Top => []
    case InLeft(up, e, _, sib) => [e] + InOrder(sib) + After(up)
    case InRight(up, _, _, _) => After(up)
  }

  lemma Regroup(a: seq<Entry>, b: seq<Entry>, c: seq<Entry>, d: seq<Entry>, e: seq<Entry>)
    ensures a + (b + c + d) + e == a + b + (c + d + e)
    ensures a + (b + c + d) + e == (a + b + c) + d + e
  {
  }

  lemma {:induction false} PlugInOrder(z: Ctx, t: Tree)
    ensures InOrder(Plug(z, t)) == Before(z) + InOrder(t) + After(z)
  {
    match z
    case Top =>
    case InLeft(up, e, c, sib) =>
      PlugInOrder(up, Node(t, e, c, sib));
      Regroup(Before(up), InOrder(t), [e], InOrder(sib), After(up));
    case InRight(up, e, c, sib) =>
      PlugInOrder(up, Node(sib, e, c, t));
      Regroup(Before(up), InOrder(sib), [e], InOrder(t), After(up));
  }

  lemma {:induction false} PlugIds(z: Ctx, t: Tree)
    ensures Ids(Plug(z, t)) == CtxIds(z) + Ids(t)
  {
    match z
    case Top =>
    case InLeft(up, e, c, sib) => PlugIds(up, Node(t, e, c, sib));
    case InRight(up, e, c, sib) => PlugIds(up, Node(sib, e, c, t));
  }

  ghost predicate Ascending(s: seq<Entry>) {
    forall i, j :: 0 <= i < j < |s| ==> s[i].key < s[j].key
  }

  /** key lies strictly between what is left and what is right of the hole. */
  ghost predicate Between(z: Ctx, key: int) {
    && (forall i :: 0 <= i < |Before(z)| ==> Before(z)[i].key < key)
    && (forall i :: 0 <= i < |After(z)| ==> key < After(z)[i].key)
  }

  lemma AscendingParts(a: seq<Entry>, b: seq<Entry>, c: seq<Entry>)
    requires Ascending(a + b + c)
    ensures Ascending(a) && Ascending(b) && Ascending(c)
    ensures forall i, j :: 0 <= i < |a| && 0 <= j < |b| ==> a[i].key < b[j].key
    ensures forall i, j :: 0 <= i < |b| && 0 <= j < |c| ==> b[i].key < c[j].key
  {
    var s := a + b + c;
    assert forall i :: 0 <= i < |a| ==> s[i] == a[i];
    assert forall i :: 0 <= i < |b| ==> s[|a| + i] == b[i];
    assert forall i :: 0 <= i < |c| ==> s[|a| + |b| + i] == c[i];
  }

  /** Going left or right at a node keeps the searched key between. */
  lemma SearchStep(z: Ctx, t: Tree, key: int)
    requires Between(z, key) && t.Node? && Ascending(InOrder(Plug(z, t)))
    ensures key < t.e.key ==> Between(InLeft(z, t.e, t.c, t.r), key)
    ensures key > t.e.key ==> Between(InRight(z, t.e, t.c, t.l), key)
  {
    hide Plug, InOrder, Ascending;
    PlugInOrder(z, t);
    InOrderOf(t);
    AscendingParts(Before(z), InOrder(t), After(z));
    AscendingParts(InOrder(t.l), [t.e], InOrder(t.r));
    if key < t.e.key {
      var r := [t.e] + InOrder(t.r) + After(z);
      assert After(InLeft(z, t.e, t.c, t.r)) == r;
      forall i | 0 <= i < |r|
        ensures key < r[i].key
      {
        if 0 < i <= |InOrder(t.r)| {
          assert [t.e][0].key < InOrder(t.r)[i - 1].key;
        }
      }
    } else if key > t.e.key {
      var l := Before(z) + InOrder(t.l) + [t.e];
      assert Before(InRight(z, t.e, t.c, t.l)) == l;
      forall i | 0 <= i < |l|
        ensures l[i].key < key
      {
        if |Before(z)| <= i < |l| - 1 {
          assert InOrder(t.l)[i - |Before(z)|].key < [t.e][0].key;
        }
      }
    }
  }

  /** The last comparison of the search tells on which side the hole is. */
  lemma HoleSide(z: Ctx, key: int)
    requires Between(z, key) && !z.Top?
    ensures key < z.e.key <==> z.InLeft?
  {
    if z.InLeft? {
      assert After(z)[0] == z.e;
    } else {
      assert Before(z)[|Before(z)| - 1] == z.e;
    }
  }

  lemma BetweenAscending(z: Ctx, e: Entry)
    requires Between(z, e.key) && Ascending(Before(z) + After(z))
    ensures Ascending(Before(z) + [e] + After(z))
  {
    var a, b := Before(z), After(z);
    assert a + b == a + b + [];
    AscendingParts(a, b, []);
    forall i, j | 0 <= i < |a| && 0 <= j < |b|
      ensures a[i].key < b[j].key
    {
    }
  }

  ghost function Nodes(s: seq<Entry>): set<RBNode> {
    set e | e in s :: e.n
  }

  lemma {:induction false} IdsInOrder(t: Tree)
    ensures Ids(t) == Nodes(InOrder(t))
  {
    if t.Node? {
      IdsInOrder(t.l);
      IdsInOrder(t.r);
      assert Nodes(InOrder(t)) == Nodes(InOrder(t.l)) + {t.e.n} + Nodes(InOrder(t.r));
    }
  }

  /** The map an in-order listing stands for. */
  ghost function MapOf(s: seq<Entry>): map<int, int> {
    if s == [] then map[]
    else MapOf(s[..|s| - 1])[s[|s| - 1].key := s[|s| - 1].val]
  }

  lemma {:induction false} MapOfLookup(s: seq<Entry>)
    requires Ascending(s)
    ensures forall i :: 0 <= i < |s| ==> s[i].key in MapOf(s) && MapOf(s)[s[i].key] == s[i].val
    ensures forall k :: k in MapOf(s) ==> exists i :: 0 <= i < |s| && s[i].key == k
  {
    if s != [] {
      var p := s[..|s| - 1];
      MapOfLookup(p);
      forall k | k in MapOf(s)
        ensures exists i :: 0 <= i < |s| && s[i].key == k
      {
        if k in MapOf(p) && k != s[|s| - 1].key {
          var i :| 0 <= i < |p| && p[i].key == k;
          assert s[i].key == k;
        } else {
          assert s[|s| - 1].key == k;
        }
      }
      forall i | 0 <= i < |s|
        ensures s[i].key in MapOf(s) && MapOf(s)[s[i].key] == s[i].val
      {
        if i < |p| { assert p[i] == s[i]; }
      }
    }
  }

  lemma {:induction false} MapOfSize(s: seq<Entry>)
    requires Ascending(s)
    ensures |MapOf(s)| == |s|
  {
    if s != [] {
      var p, e := s[..|s| - 1], s[|s| - 1];
      MapOfSize(p);
      MapOfAbsent(p, e.key);
      assert MapOf(s).Keys == MapOf(p).Keys + {e.key};
    }
  }

  lemma {:induction false} MapOfAbsent(s: seq<Entry>, k: int)
    requires forall i :: 0 <= i < |s| ==> s[i].key != k
    ensures k !in MapOf(s)
  {
    if s != [] {
      MapOfAbsent(s[..|s| - 1], k);
    }
  }

  /** Whatever the value at one key, the other entries of the map stay. */
  lemma {:induction false} UpdateInMiddle(a: seq<Entry>, e: Entry, b: seq<Entry>)
    requires forall i :: 0 <= i < |b| ==> b[i].key != e.key
    ensures MapOf(a + [e] + b) == MapOf(a + b)[e.key := e.val]
  {
    if b == [] {
      assert a + [e] + b == a + [e] && a + b == a;
      assert (a + [e])[..|a|] == a;
    } else {
      var m := |b| - 1;
      UpdateInMiddle(a, e, b[..m]);
      assert (a + [e] + b)[..|a| + 1 + m] == a + [e] + b[..m];
      assert (a + b)[..|a| + m] == a + b[..m];
    }
  }

  /** Inserting an entry in key order is an update at a fresh key; taking it out
      again is a removal. */
  lemma InsertIsUpdate(a: seq<Entry>, e: Entry, b: seq<Entry>)
    requires Ascending(a + [e] + b)
    ensures Ascending(a + b) && e.key !in MapOf(a + b)
    ensures MapOf(a + [e] + b) == MapOf(a + b)[e.key := e.val]
    ensures MapOf(a + b) == MapOf(a + [e] + b) - {e.key}
  {
    var s, s' := a + b, a + [e] + b;
    assert s'[|a|] == e;
    forall i | 0 <= i < |s|
      ensures s[i].key != e.key
    {
      var j := if i < |a| then i else i + 1;
      assert s[i] == s'[j];
    }
    forall i, j | 0 <= i < j < |s|
      ensures s[i].key < s[j].key
    {
      assert s[i] == s'[if i < |a| then i else i + 1];
      assert s[j] == s'[if j < |a| then j else j + 1];
    }
    assert forall i :: 0 <= i < |b| ==> b[i] == s[|a| + i];
    MapOfAbsent(s, e.key);
    UpdateInMiddle(a, e, b);
  }

  /** Overwriting the value at a present key is a map update. */
  lemma OverwriteIsUpdate(a: seq<Entry>, e: Entry, v: int, b: seq<Entry>)
    requires Ascending(a + [e] + b)
    ensures Ascending(a + [e.(val := v)] + b)
    ensures MapOf(a + [e.(val := v)] + b) == MapOf(a + [e] + b)[e.key := v]
  {
    var s, s' := a + [e] + b, a + [e.(val := v)] + b;
    assert s[|a|] == e;
    assert forall i :: 0 <= i < |s| ==> s'[i].key == s[i].key;
    assert forall i :: 0 <= i < |b| ==> b[i] == s[|a| + 1 + i];
    UpdateInMiddle(a, e, b);
    UpdateInMiddle(a, e.(val := v), b);
  }

  // ---- colour rules -----------------------------------------------------------

  function ColorOf(t: Tree): Color {
    if t.Leaf? then Black else t.c
  }

  function Weight(c: Color): nat {
    if c == Black then 1 else 0
  }

  /** Black nodes on the leftmost path; in a balanced tree, on every path. */
  function BlackHeight(t: Tree): nat {
    if t.Leaf? then 0 else BlackHeight(t.l) + Weight(t.c)
  }

  ghost predicate Balanced(t: Tree) {
    t.Node? ==> Balanced(t.l) && Balanced(t.r) && BlackHeight(t.l) == BlackHeight(t.r)
  }

  ghost predicate NoRedRed(t: Tree) {
    t.Node? ==>
      && (t.c == Red ==> ColorOf(t.l) == Black && ColorOf(t.r) == Black)
      && NoRedRed(t.l) && NoRedRed(t.r)
  }

  ghost predicate IsRedBlack(t: Tree) {
    ColorOf(t) == Black && Balanced(t) && NoRedRed(t)
  }

  /** Plugging a balanced tree of black height h gives a balanced tree. */
  ghost predicate CtxBalanced(z: Ctx, h: nat) {
    !z.Top? ==>
      && Balanced(z.sib) && BlackHeight(z.sib) == h
      && CtxBalanced(z.up, h + Weight(z.c))
  }

  /** Plugging a tree with root colour c adds no red node with a red child. */
  ghost predicate CtxNoRedRed(z: Ctx, c: Color) {
    !z.Top? ==>
      && (z.c == Red ==> c == Black && ColorOf(z.sib) == Black)
      && NoRedRed(z.sib) && CtxNoRedRed(z.up, z.c)
  }

  /** The colour of the whole tree's root, if the hole's root has colour c. */
  ghost function RootColor(z: Ctx, c: Color): Color {
    if z.Top? then c else RootColor(z.up, z.c)
  }

  lemma {:induction false} PlugColors(z: Ctx, t: Tree)
    requires Balanced(t) && NoRedRed(t)
    requires CtxBalanced(z, BlackHeight(t)) && CtxNoRedRed(z, ColorOf(t))
    requires RootColor(z, ColorOf(t)) == Black
    ensures IsRedBlack(Plug(z, t))
  {
    match z
    case Top =>
    case InLeft(up, e, c, sib) => PlugColors(up, Node(t, e, c, sib));
    case InRight(up, e, c, sib) => PlugColors(up, Node(sib, e, c, t));
  }

  /** Every subtree of a red-black tree sits in a context that fits it. */
  lemma {:induction false} UnplugColors(z: Ctx, t: Tree)
    requires IsRedBlack(Plug(z, t))
    ensures Balanced(t) && NoRedRed(t)
    ensures CtxBalanced(z, BlackHeight(t)) && CtxNoRedRed(z, ColorOf(t))
    ensures RootColor(z, ColorOf(t)) == Black
  {
    match z
    case Top =>
    case InLeft(up, e, c, sib) => UnplugColors(up, Node(t, e, c, sib));
    case InRight(up, e, c, sib) => UnplugColors(up, Node(sib, e, c, t));
  }

  // ---- insertion: one step of the fixup -------------------------------------------

  ghost function RotatedLeft(t: Tree): Tree
    requires t.Node? && t.r.Node?
  {
    Node(Node(t.l, t.e, t.c, t.r.l), t.r.e, t.r.c, t.r.r)
  }

  ghost function RotatedRight(t: Tree): Tree
    requires t.Node? && t.l.Node?
  {
    Node(t.l.l, t.l.e, t.l.c, Node(t.l.r, t.e, t.c, t.r))
  }

  lemma RotationOrderLeft(t: Tree)
    requires t.Node? && t.r.Node?
    ensures InOrder(RotatedLeft(t)) == InOrder(t)
  {
    Regroup(InOrder(t.l), [t.e], InOrder(t.r.l), [t.r.e], InOrder(t.r.r));
  }

  lemma RotationOrderRight(t: Tree)
    requires t.Node? && t.l.Node?
    ensures InOrder(RotatedRight(t)) == InOrder(t)
  {
    Regroup(InOrder(t.l.l), [t.l.e], InOrder(t.l.r), [t.e], InOrder(t.r));
  }

  /** A red subtree, fine in itself, whose parent may be red too. */
  ghost predicate RedHole(z: Ctx, t: Tree) {
    && t.Node? && t.c == Red && NoRedRed(t) && Balanced(t)
    && CtxBalanced(z, BlackHeight(t)) && CtxNoRedRed(z, Black) && RootColor(z, Black) == Black
  }

  ghost function Grand(z: Ctx, t: Tree): Tree
    requires !z.Top? && !z.up.Top?
  {
    Parent(z.up, Parent(z, t))
  }

  ghost function Recolored(g: Tree): Tree
    requires g.Node? && g.l.Node? && g.r.Node?
  {
    Node(g.l.(c := Black), g.e, Red, g.r.(c := Black))
  }

  lemma SameOrder(z: Ctx, t: Tree, t': Tree)
    requires InOrder(t) == InOrder(t')
    ensures InOrder(Plug(z, t)) == InOrder(Plug(z, t'))
  {
    PlugInOrder(z, t);
    PlugInOrder(z, t');
  }

  /** What the rules say about the parent and the grandparent of a red node
      under a red parent. */
  lemma RedParent(z: Ctx, t: Tree)
    requires RedHole(z, t) && !z.Top? && z.c == Red
    ensures !z.up.Top? && z.up.c == Black
    ensures Balanced(z.sib) && NoRedRed(z.sib) && ColorOf(z.sib) == Black
    ensures BlackHeight(z.sib) == BlackHeight(t)
    ensures Balanced(z.up.sib) && NoRedRed(z.up.sib) && BlackHeight(z.up.sib) == BlackHeight(t)
    ensures CtxBalanced(z.up.up, BlackHeight(t) + 1) && CtxNoRedRed(z.up.up, Black)
    ensures RootColor(z.up.up, Black) == Black
  {
    assert CtxBalanced(z.up, BlackHeight(t)) && CtxNoRedRed(z.up, Red);
    assert RootColor(z.up, Red) == Black;
    assert !z.up.up.Top? ==> RootColor(z.up.up, z.up.c) == RootColor(z.up.up, Black);
  }

  lemma RedUncle(z: Ctx, t: Tree)
    requires RedHole(z, t) && !z.Top? && z.c == Red && !z.up.Top? && ColorOf(z.up.sib) == Red
    ensures var g := Grand(z, t); g.l.Node? && g.r.Node?
    ensures var g := Grand(z, t);
      RedHole(z.up.up, Recolored(g)) && InOrder(Plug(z.up.up, Recolored(g))) == InOrder(Plug(z, t))
  {
    RedParent(z, t);
    var g := Grand(z, t);
    SameOrder(z.up.up, g, Recolored(g));
  }

  /** An inner red grandchild is rotated to the outside. */
  lemma InnerLeft(z: Ctx, t: Tree)
    requires RedHole(z, t) && z.InRight? && z.c == Red
    ensures var p := RotatedLeft(Parent(z, t));
      RedHole(InLeft(z.up, p.e, p.c, p.r), p.l) && InOrder(Plug(z.up, p)) == InOrder(Plug(z, t))
  {
    RedParent(z, t);
    var p := Parent(z, t);
    Regroup(InOrder(z.sib), [z.e], InOrder(t.l), [t.e], InOrder(t.r));
    SameOrder(z.up, p, RotatedLeft(p));
    assert CtxBalanced(z.up, BlackHeight(t)) && CtxNoRedRed(z.up, Red);
  }

  lemma InnerRight(z: Ctx, t: Tree)
    requires RedHole(z, t) && z.InLeft? && z.c == Red
    ensures var p := RotatedRight(Parent(z, t));
      RedHole(InRight(z.up, p.e, p.c, p.l), p.r) && InOrder(Plug(z.up, p)) == InOrder(Plug(z, t))
  {
    RedParent(z, t);
    var p := Parent(z, t);
    Regroup(InOrder(t.l), [t.e], InOrder(t.r), [z.e], InOrder(z.sib));
    SameOrder(z.up, p, RotatedRight(p));
    assert CtxBalanced(z.up, BlackHeight(t)) && CtxNoRedRed(z.up, Red);
  }

  /** With an outer red grandchild and a black uncle, recolouring parent and
      grandparent and rotating the grandparent ends the repair. */
  lemma OuterLeft(z: Ctx, t: Tree)
    requires RedHole(z, t) && z.InLeft? && z.c == Red && z.up.InLeft? && ColorOf(z.up.sib) == Black
    ensures var g := Grand(z, t); var g' := RotatedRight(Node(g.l.(c := Black), g.e, Red, g.r));
      && g'.l == t
      && RedHole(InLeft(z.up.up, g'.e, g'.c, g'.r), t)
      && InOrder(Plug(z.up.up, g')) == InOrder(Plug(z, t))
  {
    RedParent(z, t);
    var g := Grand(z, t);
    Regroup(InOrder(t), [z.e], InOrder(z.sib), [z.up.e], InOrder(z.up.sib));
    SameOrder(z.up.up, g, RotatedRight(Node(g.l.(c := Black), g.e, Red, g.r)));
  }

  lemma OuterRight(z: Ctx, t: Tree)
    requires RedHole(z, t) && z.InRight? && z.c == Red && z.up.InRight? && ColorOf(z.up.sib) == Black
    ensures var g := Grand(z, t); var g' := RotatedLeft(Node(g.l, g.e, Red, g.r.(c := Black)));
      && g'.r == t
      && RedHole(InRight(z.up.up, g'.e, g'.c, g'.l), t)
      && InOrder(Plug(z.up.up, g')) == InOrder(Plug(z, t))
  {
    RedParent(z, t);
    var g := Grand(z, t);
    Regroup(InOrder(z.up.sib), [z.up.e], InOrder(z.sib), [z.e], InOrder(t));
    SameOrder(z.up.up, g, RotatedLeft(Node(g.l, g.e, Red, g.r.(c := Black))));
  }

  /** The node with the least key, or nil. */
  ghost function First(s: seq<Entry>, nil: RBNode): RBNode {
    if s == [] then nil else s[0].n
  }

  lemma FirstOfInsert(a: seq<Entry>, e: Entry, b: seq<Entry>, nil: RBNode)
    requires Ascending(a + [e] + b)
    ensures First(a + [e] + b, nil) == if a + b == [] || e.key < (a + b)[0].key then e.n else First(a + b, nil)
  {
    var s, s' := a + b, a + [e] + b;
    assert s'[|a|] == e;
    if a != [] {
      assert s[0] == a[0] == s'[0];
    } else if b != [] {
      assert s[0] == b[0] == s'[1];
    }
  }

  /** Hanging a red entry into the hole the search ends at. */
  lemma HangRed(z: Ctx, e: Entry)
    requires IsRedBlack(Plug(z, Leaf))
    ensures RedHole(z, Node(Leaf, e, Red, Leaf))
  {
    UnplugColors(z, Leaf);
  }

  lemma InsertSeq(a: seq<Entry>, e: Entry, b: seq<Entry>, nil: RBNode)
    requires Ascending(a + [e] + b)
    ensures var s, s' := a + b, a + [e] + b;
      && MapOf(s') == MapOf(s)[e.key := e.val] && |s'| == |s| + 1
      && First(s', nil) == if s == [] || e.key < s[0].key then e.n else First(s, nil)
  {
    InsertIsUpdate(a, e, b);
    FirstOfInsert(a, e, b, nil);
  }

  lemma PlugLeafInOrder(z: Ctx, e: Entry)
    ensures InOrder(Plug(z, Leaf)) == Before(z) + After(z)
    ensures InOrder(Plug(z, Node(Leaf, e, Red, Leaf))) == Before(z) + [e] + After(z)
  {
    PlugInOrder(z, Leaf);
    PlugInOrder(z, Node(Leaf, e, Red, Leaf));
    assert Before(z) + [] == Before(z);
    assert InOrder(Node(Leaf, e, Red, Leaf)) == [e];
  }

  /** A tree with the in-order listing of a hung node has one node more. */
  lemma HangNodes(z: Ctx, e: Entry, T: Tree, known: set<RBNode>, nil: RBNode)
    requires InOrder(T) == InOrder(Plug(z, Node(Leaf, e, Red, Leaf)))
    requires known == Ids(Plug(z, Leaf)) + {nil}
    ensures known + {e.n} == Ids(T) + {nil}
  {
    SameNodes(T, Plug(z, Node(Leaf, e, Red, Leaf)));
    PlugIds(z, Node(Leaf, e, Red, Leaf));
    PlugIds(z, Leaf);
  }

  lemma HangEntry(z: Ctx, e: Entry, nil: RBNode)
    requires Ascending(InOrder(Plug(z, Leaf))) && Between(z, e.key)
    ensures var s, s' := InOrder(Plug(z, Leaf)), InOrder(Plug(z, Node(Leaf, e, Red, Leaf)));
      && Ascending(s') && MapOf(s') == MapOf(s)[e.key := e.val] && |s'| == |s| + 1
      && First(s', nil) == (if s == [] || e.key < s[0].key then e.n else First(s, nil))
      && (s != [] ==> s[0] in s')
  {
    PlugLeafInOrder(z, e);
    BetweenAscending(z, e);
    InsertSeq(Before(z), e, After(z), nil);
    if Before(z) != [] {
      assert (Before(z) + After(z))[0] == (Before(z) + [e] + After(z))[0];
    } else if After(z) != [] {
      assert (Before(z) + After(z))[0] == (Before(z) + [e] + After(z))[1];
    }
  }

  /** What w has that s has not: e, and maybe another first node. */
  ghost predicate OneMore(s: seq<Entry>, w: seq<Entry>, e: Entry, nil: RBNode) {
    && Ascending(w) && |w| == |s| + 1 && (s != [] ==> s[0] in w)
    && First(w, nil) == (if s == [] || e.key < s[0].key then e.n else First(s, nil))
  }

  lemma HungMore(z: Ctx, e: Entry, nil: RBNode)
    requires Ascending(InOrder(Plug(z, Leaf))) && Between(z, e.key)
    ensures var s, w := InOrder(Plug(z, Leaf)), InOrder(Plug(z, Node(Leaf, e, Red, Leaf)));
      OneMore(s, w, e, nil) && MapOf(w) == MapOf(s)[e.key := e.val]
  {
    HangEntry(z, e, nil);
  }

  lemma SameNodes(t: Tree, t': Tree)
    requires InOrder(t) == InOrder(t')
    ensures Ids(t) == Ids(t')
  {
    IdsInOrder(t);
    IdsInOrder(t');
  }

  lemma OverwriteColors(z: Ctx, t: Tree, v: int)
    requires IsRedBlack(Plug(z, t)) && t.Node?
    ensures IsRedBlack(Plug(z, t.(e := t.e.(val := v))))
    ensures Ids(Plug(z, t.(e := t.e.(val := v)))) == Ids(Plug(z, t))
  {
    var t' := t.(e := t.e.(val := v));
    UnplugColors(z, t);
    PlugColors(z, t');
    PlugIds(z, t);
    PlugIds(z, t');
  }

  lemma OverwriteEntry(z: Ctx, t: Tree, v: int, nil: RBNode)
    requires Ascending(InOrder(Plug(z, t))) && t.Node?
    ensures var s, s' := InOrder(Plug(z, t)), InOrder(Plug(z, t.(e := t.e.(val := v))));
      && Ascending(s') && MapOf(s') == MapOf(s)[t.e.key := v]
      && |s'| == |s| && First(s', nil) == First(s, nil)
  {
    hide Plug, InOrder, Before, After, Ascending, MapOf;
    var t' := t.(e := t.e.(val := v));
    PlugInOrder(z, t);
    PlugInOrder(z, t');
    InOrderOf(t);
    InOrderOf(t');
    var a, b := Before(z) + InOrder(t.l), InOrder(t.r) + After(z);
    GroupAround(Before(z), InOrder(t.l), t.e, InOrder(t.r), After(z));
    GroupAround(Before(z), InOrder(t.l), t'.e, InOrder(t.r), After(z));
    OverwriteIsUpdate(a, t.e, v, b);
    FirstOverwritten(a, t.e, t'.e, b, nil);
  }

  lemma InOrderOf(t: Tree)
    requires t.Node?
    ensures InOrder(t) == InOrder(t.l) + [t.e] + InOrder(t.r)
  {
  }

  lemma GroupAround(b: seq<Entry>, l: seq<Entry>, e: Entry, r: seq<Entry>, a: seq<Entry>)
    ensures b + (l + [e] + r) + a == (b + l) + [e] + (r + a)
  {
  }

  lemma FirstOverwritten(a: seq<Entry>, e: Entry, e': Entry, b: seq<Entry>, nil: RBNode)
    requires e.n == e'.n
    ensures |a + [e'] + b| == |a + [e] + b| && First(a + [e'] + b, nil) == First(a + [e] + b, nil)
  {
    if a != [] {
      assert (a + [e] + b)[0] == a[0] && (a + [e'] + b)[0] == a[0];
    }
  }

  // ---- deletion: one step of the fixup ---------------------------------------------

  /** The two sides of the root are fine in themselves. */
  ghost predicate NoRedRedBelow(t: Tree) {
    t.Node? ==> NoRedRed(t.l) && NoRedRed(t.r)
  }

  /** A subtree that is one black node short on every path. */
  ghost predicate ShortHole(z: Ctx, t: Tree) {
    && Balanced(t) && NoRedRedBelow(t)
    && CtxBalanced(z, BlackHeight(t) + 1) && CtxNoRedRed(z, Black) && RootColor(z, Black) == Black
  }

  lemma TopHole(t: Tree)
    requires IsRedBlack(t) && t.Node?
    ensures ShortHole(Top, t) && Plug(Top, t) == t
  {
  }

  ghost function WithSib(z: Ctx, s: Tree): Ctx
    requires !z.Top?
  {
    if z.InLeft? then InLeft(z.up, z.e, z.c, s) else InRight(z.up, z.e, z.c, s)
  }

  /** How far the repair is from its end. */
  ghost function Debt(z: Ctx, t: Tree): nat {
    if ColorOf(t) == Red then 0 else 1 + Depth(z)
  }

  lemma ShortSibling(z: Ctx, t: Tree)
    requires ShortHole(z, t) && !z.Top?
    ensures z.sib.Node? && Balanced(z.sib) && NoRedRed(z.sib) && BlackHeight(z.sib) == BlackHeight(t) + 1
    ensures Balanced(z.sib.l) && Balanced(z.sib.r) && BlackHeight(z.sib.l) == BlackHeight(z.sib.r)
    ensures NoRedRed(z.sib.l) && NoRedRed(z.sib.r)
    ensures z.c == Red ==> z.sib.c == Black
    ensures z.sib.c == Red ==>
      && z.sib.l.Node? && z.sib.r.Node? && z.sib.l.c == Black && z.sib.r.c == Black
    ensures CtxBalanced(z.up, BlackHeight(t) + 1 + Weight(z.c)) && CtxNoRedRed(z.up, z.c)
    ensures RootColor(z.up, z.c) == Black
  {
  }

  /** What CtxNoRedRed says of a red hole root it says of a black one. */
  lemma CtxRedIsBlack(z: Ctx, c: Color)
    requires CtxNoRedRed(z, c) && RootColor(z, c) == Black
    ensures CtxNoRedRed(z, Black) && RootColor(z, Black) == Black
  {
  }

  /** The sibling turns red: now the parent's subtree is short. */
  lemma SiblingReddens(z: Ctx, t: Tree)
    requires ShortHole(z, t) && !z.Top? && ColorOf(t) == Black && ColorOf(z.sib) == Black
    requires z.sib.Node? ==> ColorOf(z.sib.l) == Black && ColorOf(z.sib.r) == Black
    ensures z.sib.Node?
    ensures var p := Parent(WithSib(z, z.sib.(c := Red)), t);
      ShortHole(z.up, p) && InOrder(Plug(z.up, p)) == InOrder(Plug(z, t))
  {
    ShortSibling(z, t);
    CtxRedIsBlack(z.up, z.c);
    SameOrder(z.up, Parent(z, t), Parent(WithSib(z, z.sib.(c := Red)), t));
  }

  /** A red sibling is rotated above the parent, which turns red. */
  lemma SiblingRisesLeft(z: Ctx, t: Tree)
    requires ShortHole(z, t) && z.InLeft? && ColorOf(t) == Black && ColorOf(z.sib) == Red
    ensures var g := RotatedLeft(Node(t, z.e, Red, z.sib.(c := Black)));
      var z' := InLeft(InLeft(z.up, g.e, g.c, g.r), z.e, Red, z.sib.l);
      && g.l == Node(t, z.e, Red, z.sib.l)
      && ShortHole(z', t) && z'.sib.Node? && z'.sib.c == Black && InOrder(Plug(z', t)) == InOrder(Plug(z, t))
  {
    ShortSibling(z, t);
    var p := Node(t, z.e, Red, z.sib.(c := Black));
    assert InOrder(p.r) == InOrder(z.sib);
    assert InOrder(p) == InOrder(Parent(z, t));
    RotationOrderLeft(p);
    SameOrder(z.up, Parent(z, t), RotatedLeft(p));
    assert BlackHeight(z.sib.l) == BlackHeight(t) + 1;
  }

  /** The sibling's near child turns black and is rotated above it. */
  lemma NephewRisesLeft(z: Ctx, t: Tree)
    requires ShortHole(z, t) && z.InLeft? && ColorOf(z.sib) == Black
    requires z.sib.Node? ==> ColorOf(z.sib.l) == Red && ColorOf(z.sib.r) == Black
    ensures z.sib.Node? && z.sib.l.Node?
    ensures var w := RotatedRight(Node(z.sib.l.(c := Black), z.sib.e, Red, z.sib.r));
      var z' := WithSib(z, w);
      && ShortHole(z', t) && w.c == Black && ColorOf(w.r) == Red && InOrder(Plug(z', t)) == InOrder(Plug(z, t))
  {
    ShortSibling(z, t);
    var v := Node(z.sib.l.(c := Black), z.sib.e, Red, z.sib.r);
    assert InOrder(v.l) == InOrder(z.sib.l);
    assert InOrder(v) == InOrder(z.sib);
    assert NoRedRed(v.l) && NoRedRed(v.r);
    RotationOrderRight(v);
    SameOrder(z.up, Parent(z, t), Parent(WithSib(z, RotatedRight(v)), t));
  }

  /** The sibling takes the parent's place and colour; the repair is over. */
  lemma SiblingReplacesLeft(z: Ctx, t: Tree)
    requires ShortHole(z, t) && z.InLeft? && ColorOf(t) == Black && ColorOf(z.sib) == Black
    requires z.sib.Node? ==> ColorOf(z.sib.r) == Red
    ensures z.sib.Node? && z.sib.r.Node?
    ensures var g := RotatedLeft(Node(t, z.e, Black, Node(z.sib.l, z.sib.e, z.c, z.sib.r.(c := Black))));
      IsRedBlack(Plug(z.up, g)) && InOrder(Plug(z.up, g)) == InOrder(Plug(z, t))
  {
    ShortSibling(z, t);
    var p := Node(t, z.e, Black, Node(z.sib.l, z.sib.e, z.c, z.sib.r.(c := Black)));
    assert InOrder(p.r.r) == InOrder(z.sib.r);
    assert InOrder(p.r) == InOrder(z.sib);
    assert InOrder(p) == InOrder(Parent(z, t));
    RotationOrderLeft(p);
    SameOrder(z.up, Parent(z, t), RotatedLeft(p));
    PlugColors(z.up, RotatedLeft(p));
  }

  /** A red sibling is rotated above the parent, which turns red. */
  lemma SiblingRisesRight(z: Ctx, t: Tree)
    requires ShortHole(z, t) && z.InRight? && ColorOf(t) == Black && ColorOf(z.sib) == Red
    ensures var g := RotatedRight(Node(z.sib.(c := Black), z.e, Red, t));
      var z' := InRight(InRight(z.up, g.e, g.c, g.l), z.e, Red, z.sib.r);
      && g.r == Node(z.sib.r, z.e, Red, t)
      && ShortHole(z', t) && z'.sib.Node? && z'.sib.c == Black && InOrder(Plug(z', t)) == InOrder(Plug(z, t))
  {
    ShortSibling(z, t);
    var p := Node(z.sib.(c := Black), z.e, Red, t);
    assert InOrder(p.l) == InOrder(z.sib);
    assert InOrder(p) == InOrder(Parent(z, t));
    RotationOrderRight(p);
    SameOrder(z.up, Parent(z, t), RotatedRight(p));
    assert BlackHeight(z.sib.r) == BlackHeight(t) + 1;
  }

  /** The sibling's near child turns black and is rotated above it. */
  lemma NephewRisesRight(z: Ctx, t: Tree)
    requires ShortHole(z, t) && z.InRight? && ColorOf(z.sib) == Black
    requires z.sib.Node? ==> ColorOf(z.sib.r) == Red && ColorOf(z.sib.l) == Black
    ensures z.sib.Node? && z.sib.r.Node?
    ensures var w := RotatedLeft(Node(z.sib.l, z.sib.e, Red, z.sib.r.(c := Black)));
      var z' := WithSib(z, w);
      && ShortHole(z', t) && w.c == Black && ColorOf(w.l) == Red && InOrder(Plug(z', t)) == InOrder(Plug(z, t))
  {
    ShortSibling(z, t);
    var v := Node(z.sib.l, z.sib.e, Red, z.sib.r.(c := Black));
    assert InOrder(v.r) == InOrder(z.sib.r);
    assert InOrder(v) == InOrder(z.sib);
    assert NoRedRed(v.r) && NoRedRed(v.l);
    RotationOrderLeft(v);
    SameOrder(z.up, Parent(z, t), Parent(WithSib(z, RotatedLeft(v)), t));
  }

  /** The sibling takes the parent's place and colour; the repair is over. */
  lemma SiblingReplacesRight(z: Ctx, t: Tree)
    requires ShortHole(z, t) && z.InRight? && ColorOf(t) == Black && ColorOf(z.sib) == Black
    requires z.sib.Node? ==> ColorOf(z.sib.l) == Red
    ensures z.sib.Node? && z.sib.l.Node?
    ensures var g := RotatedRight(Node(Node(z.sib.l.(c := Black), z.sib.e, z.c, z.sib.r), z.e, Black, t));
      IsRedBlack(Plug(z.up, g)) && InOrder(Plug(z.up, g)) == InOrder(Plug(z, t))
  {
    ShortSibling(z, t);
    var p := Node(Node(z.sib.l.(c := Black), z.sib.e, z.c, z.sib.r), z.e, Black, t);
    assert InOrder(p.l.l) == InOrder(z.sib.l);
    assert InOrder(p.l) == InOrder(z.sib);
    assert InOrder(p) == InOrder(Parent(z, t));
    RotationOrderRight(p);
    SameOrder(z.up, Parent(z, t), RotatedRight(p));
    PlugColors(z.up, RotatedRight(p));
  }

  /** The repair is over as well when the short subtree's root is red or the
      whole tree's root: painting it black settles the matter. */
  lemma ShortBlackened(z: Ctx, t: Tree)
    requires ShortHole(z, t) && t.Node? && (z.Top? || t.c == Red)
    ensures IsRedBlack(Plug(z, t.(c := Black)))
    ensures InOrder(Plug(z, t.(c := Black))) == InOrder(Plug(z, t))
  {
    SameOrder(z, t, t.(c := Black));
    PlugColors(z, t.(c := Black));
  }

  // ---- deletion: taking a node out ---------------------------------------------------

  /** The innermost k frames of z are left turns. */
  ghost predicate Spine(z: Ctx, k: nat) {
    k > 0 ==> z.InLeft? && Spine(z.up, k - 1)
  }

  ghost function Above(z: Ctx, k: nat): Ctx
    requires Spine(z, k)
  {
    if k == 0 then z else Above(z.up, k - 1)
  }

  ghost function Below(z: Ctx, k: nat, t: Tree): Tree
    requires Spine(z, k)
  {
    if k == 0 then t else Below(z.up, k - 1, Parent(z, t))
  }

  ghost function SpineAfter(z: Ctx, k: nat): seq<Entry>
    requires Spine(z, k)
  {
    if k == 0 then [] else [z.e] + InOrder(z.sib) + SpineAfter(z.up, k - 1)
  }

  lemma {:induction false} BelowInOrder(z: Ctx, k: nat, t: Tree)
    requires Spine(z, k)
    ensures InOrder(Below(z, k, t)) == InOrder(t) + SpineAfter(z, k)
    ensures Plug(Above(z, k), Below(z, k, t)) == Plug(z, t)
  {
    if k > 0 {
      BelowInOrder(z.up, k - 1, Parent(z, t));
      assert InOrder(Parent(z, t)) + SpineAfter(z.up, k - 1) == InOrder(t) + SpineAfter(z, k);
    }
  }

  lemma {:induction false} BelowNode(z: Ctx, k: nat, t: Tree)
    requires Spine(z, k) && k > 0
    ensures Below(z, k, t).Node?
  {
    if k > 1 { BelowNode(z.up, k - 1, Parent(z, t)); }
  }

  /** The entry e instead of the one that z has above its k left turns. */
  ghost function Replace(z: Ctx, k: nat, e: Entry): Ctx
    requires Spine(z, k) && !Above(z, k).Top?
  {
    if k > 0 then InLeft(Replace(z.up, k - 1, e), z.e, z.c, z.sib)
    else if z.InLeft? then InLeft(z.up, e, z.c, z.sib)
    else InRight(z.up, e, z.c, z.sib)
  }

  lemma {:induction false} ReplaceParts(z: Ctx, k: nat, e: Entry, t: Tree)
    requires Spine(z, k) && !Above(z, k).Top?
    ensures Spine(Replace(z, k, e), k)
    ensures Above(Replace(z, k, e), k) == Replace(Above(z, k), 0, e)
    ensures Below(Replace(z, k, e), k, t) == Below(z, k, t)
    ensures !Replace(z, k, e).Top? && Replace(z, k, e).e == if k == 0 then e else z.e
  {
    if k > 0 { ReplaceParts(z.up, k - 1, e, Parent(z, t)); }
  }

  lemma {:induction false} ReplaceColors(z: Ctx, k: nat, e: Entry, h: nat, c: Color)
    requires Spine(z, k) && !Above(z, k).Top?
    ensures CtxBalanced(Replace(z, k, e), h) == CtxBalanced(z, h)
    ensures CtxNoRedRed(Replace(z, k, e), c) == CtxNoRedRed(z, c)
    ensures RootColor(Replace(z, k, e), c) == RootColor(z, c)
  {
    if k > 0 { ReplaceColors(z.up, k - 1, e, h + Weight(z.c), z.c); }
  }

  /** A node with at most one child gives way to that child s: a red one is not
      missed, a black one leaves its place one black node short. */
  ghost predicate Vacated(z: Ctx, s: Tree, c: Color) {
    if c == Black then ShortHole(z, s) else IsRedBlack(Plug(z, s))
  }

  lemma VacatedColors(z: Ctx, s: Tree, c: Color)
    requires Balanced(s) && NoRedRed(s) && CtxBalanced(z, BlackHeight(s) + Weight(c))
    requires CtxNoRedRed(z, Black) && RootColor(z, Black) == Black && (c == Red ==> ColorOf(s) == Black)
    ensures Vacated(z, s, c)
  {
    if c == Red { PlugColors(z, s); }
  }

  lemma RemoveColors(z: Ctx, t: Tree, s: Tree)
    requires IsRedBlack(Plug(z, t)) && t.Node?
    requires (t.l.Leaf? && s == t.r) || (t.r.Leaf? && s == t.l)
    ensures Balanced(s) && NoRedRed(s) && CtxBalanced(z, BlackHeight(s) + Weight(t.c))
    ensures CtxNoRedRed(z, Black) && RootColor(z, Black) == Black && (t.c == Red ==> ColorOf(s) == Black)
  {
    hide Plug, IsRedBlack, CtxBalanced, CtxNoRedRed, RootColor;
    UnplugColors(z, t);
    CtxRedIsBlack(z, t.c);
  }

  lemma ReplaceVacated(z: Ctx, k: nat, t: Tree, s: Tree, e: Entry)
    requires IsRedBlack(Plug(z, t)) && t.Node? && t.l.Leaf? && s == t.r
    requires Spine(z, k) && !Above(z, k).Top?
    ensures Vacated(Replace(z, k, e), s, t.c)
  {
    hide Plug, IsRedBlack, CtxBalanced, CtxNoRedRed, Balanced, NoRedRed, Vacated, Replace, Spine, Above;
    RemoveColors(z, t, s);
    ReplaceColors(z, k, e, BlackHeight(s) + Weight(t.c), Black);
    VacatedColors(Replace(z, k, e), s, t.c);
  }

  /** The listing loses one entry: the map loses its key, the nodes its node. */
  ghost predicate Without(s': seq<Entry>, s: seq<Entry>, e: Entry) {
    && Ascending(s') && MapOf(s') == MapOf(s) - {e.key} && |s'| == |s| - 1
    && (forall x :: x in s' ==> x in s && x.key != e.key) && Nodes(s) == Nodes(s') + {e.n}
  }

  lemma DropSeq(a: seq<Entry>, e: Entry, b: seq<Entry>)
    requires Ascending(a + [e] + b)
    ensures Without(a + b, a + [e] + b, e)
  {
    var s, s' := a + [e] + b, a + b;
    InsertIsUpdate(a, e, b);
    AscendingParts(a, [e], b);
    assert [e][0] == e;
    assert forall x :: x in s' <==> x in a || x in b;
    assert forall x :: x in s <==> x in s' || x == e;
  }

  lemma EmptySides(a: seq<Entry>, b: seq<Entry>, c: seq<Entry>)
    ensures (a + []) + (b + c) == a + b + c == (a + b) + ([] + c)
  {
  }

  lemma RegroupTail(a: seq<Entry>, b: seq<Entry>, c: seq<Entry>, d: seq<Entry>)
    ensures a + b + (c + d) == a + ((b + c) + d) == a + (b + c + d)
  {
  }

  lemma AroundEntry(z: Ctx, t: Tree)
    requires t.Node?
    ensures InOrder(Plug(z, t)) == (Before(z) + InOrder(t.l)) + [t.e] + (InOrder(t.r) + After(z))
  {
    PlugInOrder(z, t);
    Regroup(Before(z), InOrder(t.l), [t.e], InOrder(t.r), After(z));
    RegroupTail(Before(z) + InOrder(t.l), [t.e], InOrder(t.r), After(z));
  }

  lemma OnlyChildInOrder(z: Ctx, t: Tree, s: Tree)
    requires t.Node? && ((t.l.Leaf? && s == t.r) || (t.r.Leaf? && s == t.l))
    ensures InOrder(Plug(z, s)) == (Before(z) + InOrder(t.l)) + (InOrder(t.r) + After(z))
  {
    PlugInOrder(z, s);
    EmptySides(Before(z), InOrder(s), After(z));
  }

  lemma DropOnlyChild(z: Ctx, t: Tree, s: Tree)
    requires Ascending(InOrder(Plug(z, t))) && t.Node?
    requires (t.l.Leaf? && s == t.r) || (t.r.Leaf? && s == t.l)
    ensures Without(InOrder(Plug(z, s)), InOrder(Plug(z, t)), t.e)
  {
    AroundEntry(z, t);
    OnlyChildInOrder(z, t, s);
    DropSeq(Before(z) + InOrder(t.l), t.e, InOrder(t.r) + After(z));
  }

  lemma SuccessorInOrder(z: Ctx, l: Tree, y: Entry, c: Color, r: Tree, rs: seq<Entry>)
    requires rs == [y] + InOrder(r)
    ensures InOrder(Plug(z, Node(l, y, c, r))) == (Before(z) + InOrder(l)) + (rs + After(z))
  {
    AroundEntry(z, Node(l, y, c, r));
    RegroupTail(Before(z) + InOrder(l), [y], InOrder(r), After(z));
  }

  /** The least entry y of the right subtree moves into the place of t's entry. */
  lemma DropBySuccessor(z: Ctx, t: Tree, y: Entry, r: Tree)
    requires Ascending(InOrder(Plug(z, t))) && t.Node? && InOrder(t.r) == [y] + InOrder(r)
    ensures Without(InOrder(Plug(z, Node(t.l, y, t.c, r))), InOrder(Plug(z, t)), t.e)
  {
    AroundEntry(z, t);
    SuccessorInOrder(z, t.l, y, t.c, r, InOrder(t.r));
    DropSeq(Before(z) + InOrder(t.l), t.e, InOrder(t.r) + After(z));
  }

  lemma {:induction false} AboveIds(z: Ctx, k: nat)
    requires Spine(z, k) && !Above(z, k).Top?
    ensures !z.Top? && Above(z, k).e.n in CtxIds(z) && (k > 0 ==> Above(z, k).e.n in CtxIds(z.up))
  {
    if k > 0 { AboveIds(z.up, k - 1); }
  }

  /** Entry t.e is deleted by moving the least entry of its right subtree up:
      s is the node that held that entry, k left turns down in context c. */
  lemma InnerRemoval(z: Ctx, t: Tree, c: Ctx, k: nat, s: Tree)
    requires IsRedBlack(Plug(z, t)) && Ascending(InOrder(Plug(z, t))) && t.Node?
    requires Spine(c, k) && Above(c, k) == InRight(z, t.e, t.c, t.l) && Below(c, k, s) == t.r && s.Node? && s.l.Leaf?
    ensures var z' := Replace(c, k, s.e);
      && Vacated(z', s.r, s.c)
      && Without(InOrder(Plug(z', s.r)), InOrder(Plug(z, t)), t.e)
      && Spine(z', k) && Above(z', k) == InRight(z, s.e, t.c, t.l) && Below(z', k, s.r) == Below(c, k, s.r)
      && !z'.Top? && z'.e == if k == 0 then s.e else c.e
  {
    var r := Below(c, k, s.r);
    BelowInOrder(c, k, s);
    BelowInOrder(c, k, s.r);
    assert InOrder(s) == [s.e] + InOrder(s.r);
    assert InOrder(t.r) == [s.e] + InOrder(r);
    assert Plug(c, s) == Plug(z, t);
    ReplaceVacated(c, k, s, s.r, s.e);
    ReplaceParts(c, k, s.e, s.r);
    BelowInOrder(Replace(c, k, s.e), k, s.r);
    DropBySuccessor(z, t, s.e, r);
  }

  /** A search that ends in an empty subtree proves the key absent. */
  lemma SearchFailed(z: Ctx, key: int)
    requires Between(z, key)
    ensures key !in MapOf(InOrder(Plug(z, Leaf)))
  {
    PlugInOrder(z, Leaf);
    MapOfAbsent(Before(z) + InOrder(Leaf) + After(z), key);
  }

  /** A search that ends at a node finds the value of its key. */
  lemma SearchFound(z: Ctx, t: Tree)
    requires t.Node? && Ascending(InOrder(Plug(z, t)))
    ensures t.e in InOrder(Plug(z, t))
    ensures t.e.key in MapOf(InOrder(Plug(z, t))) && MapOf(InOrder(Plug(z, t)))[t.e.key] == t.e.val
  {
    AroundEntry(z, t);
    var s := (Before(z) + InOrder(t.l)) + [t.e] + (InOrder(t.r) + After(z));
    assert s[|Before(z) + InOrder(t.l)|] == t.e;
    MapOfLookup(s);
  }

  lemma LeastIsFirst(z: Ctx, k: nat, t: Tree, nil: RBNode)
    requires Spine(z, k) && t.Node? && t.l.Leaf?
    ensures First(InOrder(Below(z, k, t)), nil) == t.e.n
  {
    BelowInOrder(z, k, t);
  }

  // ---- reading ------------------------------------------------------------------------

  /** Where a node sits in the tree. */
  lemma {:induction false} PlaceOf(z: Ctx, t: Tree, n: RBNode) returns (z': Ctx, t': Tree)
    requires n in Ids(t)
    ensures Plug(z', t') == Plug(z, t) && t'.Node? && t'.e.n == n
    decreases t
  {
    if t.e.n == n {
      z', t' := z, t;
    } else if n in Ids(t.l) {
      z', t' := PlaceOf(InLeft(z, t.e, t.c, t.r), t.l, n);
    } else {
      z', t' := PlaceOf(InRight(z, t.e, t.c, t.l), t.r, n);
    }
  }

  /** The keys above e.key are those listed after e, the least of them first. */
  lemma KeysAfter(a: seq<Entry>, e: Entry, b: seq<Entry>)
    requires Ascending(a + [e] + b)
    ensures forall k :: k in MapOf(a + [e] + b) && e.key < k ==> b != [] && b[0].key <= k
    ensures b != [] ==> e.key < b[0].key && b[0].key in MapOf(a + [e] + b)
  {
    var s := a + [e] + b;
    MapOfLookup(s);
    assert s[|a|] == e;
    if b != [] { assert s[|a| + 1] == b[0]; }
    forall k | k in MapOf(s) && e.key < k
      ensures b != [] && b[0].key <= k
    {
      var i :| 0 <= i < |s| && s[i].key == k;
      assert i > |a|;
    }
  }

  function Height(t: Tree): nat {
    if t.Leaf? then 0 else 1 + if Height(t.l) < Height(t.r) then Height(t.r) else Height(t.l)
  }

  /** No path is longer than twice the black height, and a subtree of black
      height h holds at least 2^h - 1 entries. */
  lemma {:induction false} HeightAndSize(t: Tree)
    requires Balanced(t) && NoRedRed(t)
    ensures Height(t) <= 2 * BlackHeight(t) + if ColorOf(t) == Red then 1 else 0
    ensures Pow2(BlackHeight(t)) <= |InOrder(t)| + 1
  {
    if t.Node? {
      HeightAndSize(t.l);
      HeightAndSize(t.r);
    }
  }

  lemma SquareMonotone(a: nat, b: nat)
    requires a <= b
    ensures a * a <= b * b
  {
    assert b * b - a * a == (b - a) * (b + a);
  }

  /** Height at most 2 log2(n + 1), written without the logarithm. */
  lemma HeightBound(t: Tree)
    requires IsRedBlack(t)
    ensures Pow2(Height(t)) <= (|InOrder(t)| + 1) * (|InOrder(t)| + 1)
  {
    HeightAndSize(t);
    var h, n := BlackHeight(t), |InOrder(t)| + 1;
    Pow2Monotone(Height(t), h + h);
    Pow2Adds(h, h);
    SquareMonotone(Pow2(h), n);
  }
}
