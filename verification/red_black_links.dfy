/** Which links store which tree. A Mem is the content of every node's fields at
    one moment; At says that it stores a given subtree in a given context. The
    pointer surgery of the C code is described on Mem and shown to do to the
    stored tree what it is meant to do. */
module RedBlackLinks {
  import opened RedBlackShape

  datatype Fields = Fields(key: int, val: int, color: Color, left: RBNode, right: RBNode, parent: RBNode)
  type Mem = map<RBNode, Fields>

  ghost function Ptr(t: Tree, nil: RBNode): RBNode {
    if t.Leaf? then nil else t.e.n
  }

  ghost function Up(z: Ctx, nil: RBNode): RBNode {
    if z.Top? then nil else z.e.n
  }

  /** The nodes below p store the tree t. The sentinel's fields play no part. */
  ghost predicate Linked(m: Mem, t: Tree, p: RBNode, nil: RBNode) {
    t.Node? ==>
      && t.e.n in m
      && m[t.e.n] == Fields(t.e.key, t.e.val, t.c, Ptr(t.l, nil), Ptr(t.r, nil), p)
      && Linked(m, t.l, t.e.n, nil) && Linked(m, t.r, t.e.n, nil)
  }

  /** The nodes of t store its children and colours; parent fields may hold anything. */
  ghost predicate LinkedDown(m: Mem, t: Tree, nil: RBNode) {
    t.Node? ==>
      && t.e.n in m && t.e.n != nil && m[t.e.n].color == t.c
      && m[t.e.n].left == Ptr(t.l, nil) && m[t.e.n].right == Ptr(t.r, nil)
      && LinkedDown(m, t.l, nil) && LinkedDown(m, t.r, nil)
  }

  lemma {:induction false} LinkedIsDown(m: Mem, t: Tree, p: RBNode, nil: RBNode)
    requires Linked(m, t, p, nil) && nil !in Ids(t)
    ensures LinkedDown(m, t, nil)
  {
    if t.Node? {
      LinkedIsDown(m, t.l, t.e.n, nil);
      LinkedIsDown(m, t.r, t.e.n, nil);
    }
  }

  /** The nodes from the hole up to the root store the context z. */
  ghost predicate LinkedCtx(m: Mem, z: Ctx, hole: RBNode, nil: RBNode, root: RBNode) {
    match z
    case Top => root == hole
    case InLeft(up, e, c, sib) =>
      && e.n in m && m[e.n] == Fields(e.key, e.val, c, hole, Ptr(sib, nil), Up(up, nil))
      && Linked(m, sib, e.n, nil) && LinkedCtx(m, up, e.n, nil, root)
    case InRight(up, e, c, sib) =>
      && e.n in m && m[e.n] == Fields(e.key, e.val, c, Ptr(sib, nil), hole, Up(up, nil))
      && Linked(m, sib, e.n, nil) && LinkedCtx(m, up, e.n, nil, root)
  }

  /** No node occurs twice, and none is the sentinel. */
  ghost predicate Apart(z: Ctx, t: Tree, nil: RBNode) {
    && Distinct(t) && CtxDistinct(z) && Ids(t) !! CtxIds(z)
    && nil !in Ids(t) && nil !in CtxIds(z)
  }

  /** The memory stores t at the place whose surroundings are z. */
  ghost predicate At(m: Mem, root: RBNode, nil: RBNode, z: Ctx, t: Tree) {
    && nil in m
    && Apart(z, t, nil)
    && Linked(m, t, Up(z, nil), nil)
    && LinkedCtx(m, z, Ptr(t, nil), nil, root)
  }

  // ---- framing ------------------------------------------------------------------

  ghost predicate Same(m: Mem, m': Mem, s: set<RBNode>) {
    forall n :: n in s && n in m ==> n in m' && m'[n] == m[n]
  }

  lemma {:induction false} FrameLinked(m: Mem, m': Mem, t: Tree, p: RBNode, nil: RBNode)
    requires Linked(m, t, p, nil) && Same(m, m', Ids(t))
    ensures Linked(m', t, p, nil)
  {
    if t.Node? {
      FrameLinked(m, m', t.l, t.e.n, nil);
      FrameLinked(m, m', t.r, t.e.n, nil);
    }
  }

  lemma {:induction false} FrameCtx(m: Mem, m': Mem, z: Ctx, hole: RBNode, nil: RBNode, root: RBNode)
    requires LinkedCtx(m, z, hole, nil, root) && Same(m, m', CtxIds(z))
    ensures LinkedCtx(m', z, hole, nil, root)
  {
    if !z.Top? {
      FrameLinked(m, m', z.sib, z.e.n, nil);
      FrameCtx(m, m', z.up, z.e.n, nil, root);
    }
  }

  // ---- rotations ---------------------------------------------------------------------

  /** m' differs from m only at x, y, b and p; p's link to x leads to y. */
  ghost predicate Around(m: Mem, m': Mem, nil: RBNode, x: RBNode, y: RBNode, b: RBNode, p: RBNode) {
    && x in m && y in m && b in m && p in m
    && m'.Keys == m.Keys
    && (b != nil ==> m'[b] == m[b].(parent := x))
    && (p != nil ==> m'[p] == if x == m[p].left then m[p].(left := y) else m[p].(right := y))
    && SameBut(m, m', {x, y, b, p}, nil)
  }

  ghost predicate SameBut(m: Mem, m': Mem, s: set<RBNode>, nil: RBNode) {
    forall n :: n in m && (n in s ==> n == nil) ==> n in m' && m'[n] == m[n]
  }

  lemma AroundCtx(m: Mem, m': Mem, root: RBNode, nil: RBNode, z: Ctx, x: RBNode, y: RBNode, b: RBNode)
    requires LinkedCtx(m, z, x, nil, root) && CtxDistinct(z) && nil !in CtxIds(z) && x != nil
    requires x !in CtxIds(z) && y !in CtxIds(z) && b !in CtxIds(z)
    requires Around(m, m', nil, x, y, b, Up(z, nil))
    ensures LinkedCtx(m', z, y, nil, if z.Top? then y else root)
  {
    if !z.Top? {
      FrameLinked(m, m', z.sib, z.e.n, nil);
      FrameCtx(m, m', z.up, z.e.n, nil, root);
    }
  }

  /** m' is m with the links around x, its right child y, y's left child b and
      x's parent p rotated to the left. */
  ghost predicate LeftRotation(m: Mem, m': Mem, nil: RBNode, x: RBNode, y: RBNode, b: RBNode, p: RBNode) {
    && Around(m, m', nil, x, y, b, p)
    && m'[x] == m[x].(right := b, parent := y)
    && m'[y] == m[y].(left := x, parent := p)
  }

  /** x, its right child y, y's left child b and x's parent p as m links them. */
  ghost predicate LeftPivot(m: Mem, nil: RBNode, x: RBNode, y: RBNode, b: RBNode, p: RBNode) {
    && x in m && y in m && b in m && p in m
    && y == m[x].right && b == m[y].left && p == m[x].parent
    && x != nil && y != nil && x != y && x != b && y != b && x != p && y != p && (b == p ==> b == nil)
  }

  lemma LeftPivotOf(m: Mem, root: RBNode, nil: RBNode, z: Ctx, t: Tree)
    requires At(m, root, nil, z, t) && t.Node? && t.r.Node?
    ensures LeftPivot(m, nil, t.e.n, t.r.e.n, Ptr(t.r.l, nil), Up(z, nil))
    ensures z.Top? <==> Up(z, nil) == nil
  {
    assert Linked(m, t.r, t.e.n, nil) && Linked(m, t.r.l, t.r.e.n, nil) && Distinct(t.r);
  }

  lemma LeftRotationInside(m: Mem, m': Mem, nil: RBNode, t: Tree, p: RBNode)
    requires t.Node? && t.r.Node? && Distinct(t) && nil !in Ids(t) && p !in Ids(t)
    requires Linked(m, t, p, nil) && LeftRotation(m, m', nil, t.e.n, t.r.e.n, Ptr(t.r.l, nil), p)
    ensures Linked(m', RotatedLeft(t), p, nil)
  {
    var a, b, c := t.l, t.r.l, t.r.r;
    var x, y := t.e.n, t.r.e.n;
    assert Linked(m, b, y, nil) && Distinct(b);
    assert Ids(t) == Ids(a) + {x} + (Ids(b) + {y} + Ids(c));
    FrameLinked(m, m', a, x, nil);
    FrameLinked(m, m', c, y, nil);
    if b.Node? {
      FrameLinked(m, m', b.l, b.e.n, nil);
      FrameLinked(m, m', b.r, b.e.n, nil);
    }
  }

  ghost predicate RightRotation(m: Mem, m': Mem, nil: RBNode, x: RBNode, y: RBNode, b: RBNode, p: RBNode) {
    && Around(m, m', nil, x, y, b, p)
    && m'[x] == m[x].(left := b, parent := y)
    && m'[y] == m[y].(right := x, parent := p)
  }

  ghost predicate RightPivot(m: Mem, nil: RBNode, x: RBNode, y: RBNode, b: RBNode, p: RBNode) {
    && x in m && y in m && b in m && p in m
    && y == m[x].left && b == m[y].right && p == m[x].parent
    && x != nil && y != nil && x != y && x != b && y != b && x != p && y != p && (b == p ==> b == nil)
    && (p != nil ==> (x == m[p].left) != (x == m[p].right))
  }

  lemma RightPivotOf(m: Mem, root: RBNode, nil: RBNode, z: Ctx, t: Tree)
    requires At(m, root, nil, z, t) && t.Node? && t.l.Node?
    ensures RightPivot(m, nil, t.e.n, t.l.e.n, Ptr(t.l.r, nil), Up(z, nil))
    ensures z.Top? <==> Up(z, nil) == nil
  {
    assert Linked(m, t.l, t.e.n, nil) && Linked(m, t.l.r, t.l.e.n, nil) && Distinct(t.l);
    if !z.Top? {
      assert z.sib.Node? ==> z.sib.e.n in Ids(z.sib);
    }
  }

  lemma RightRotationInside(m: Mem, m': Mem, nil: RBNode, t: Tree, p: RBNode)
    requires t.Node? && t.l.Node? && Distinct(t) && nil !in Ids(t) && p !in Ids(t)
    requires Linked(m, t, p, nil) && RightRotation(m, m', nil, t.e.n, t.l.e.n, Ptr(t.l.r, nil), p)
    ensures Linked(m', RotatedRight(t), p, nil)
  {
    var a, b, c := t.l.l, t.l.r, t.r;
    var x, y := t.e.n, t.l.e.n;
    assert Linked(m, b, y, nil) && Distinct(b);
    assert Ids(t) == (Ids(a) + {y} + Ids(b)) + {x} + Ids(c);
    FrameLinked(m, m', a, y, nil);
    FrameLinked(m, m', c, x, nil);
    if b.Node? {
      FrameLinked(m, m', b.l, b.e.n, nil);
      FrameLinked(m, m', b.r, b.e.n, nil);
    }
  }

  lemma RotatedLeftIds(t: Tree)
    requires t.Node? && t.r.Node? && Distinct(t)
    ensures Ids(RotatedLeft(t)) == Ids(t) && Distinct(RotatedLeft(t))
    ensures t.r.e.n in Ids(t) && (t.r.l.Node? ==> t.r.l.e.n in Ids(t))
  {
    assert Distinct(t.r);
    assert t.r.l.Node? ==> t.r.l.e.n in Ids(t.r.l) && t.r.l.e.n in Ids(t.r);
  }

  /** A left rotation of the links is a left rotation of the stored tree. */
  lemma LeftRotationAt(m: Mem, m': Mem, root: RBNode, nil: RBNode, z: Ctx, t: Tree)
    requires At(m, root, nil, z, t) && t.Node? && t.r.Node?
    requires LeftRotation(m, m', nil, t.e.n, t.r.e.n, Ptr(t.r.l, nil), Up(z, nil))
    ensures At(m', if z.Top? then t.r.e.n else root, nil, z, RotatedLeft(t))
  {
    RotatedLeftIds(t);
    LeftRotationInside(m, m', nil, t, Up(z, nil));
    AroundCtx(m, m', root, nil, z, t.e.n, t.r.e.n, Ptr(t.r.l, nil));
  }

  lemma RotatedRightIds(t: Tree)
    requires t.Node? && t.l.Node? && Distinct(t)
    ensures Ids(RotatedRight(t)) == Ids(t) && Distinct(RotatedRight(t))
    ensures t.l.e.n in Ids(t) && (t.l.r.Node? ==> t.l.r.e.n in Ids(t))
  {
    assert Distinct(t.l);
    assert t.l.r.Node? ==> t.l.r.e.n in Ids(t.l.r) && t.l.r.e.n in Ids(t.l);
  }

  /** A right rotation of the links is a right rotation of the stored tree. */
  lemma RightRotationAt(m: Mem, m': Mem, root: RBNode, nil: RBNode, z: Ctx, t: Tree)
    requires At(m, root, nil, z, t) && t.Node? && t.l.Node?
    requires RightRotation(m, m', nil, t.e.n, t.l.e.n, Ptr(t.l.r, nil), Up(z, nil))
    ensures At(m', if z.Top? then t.l.e.n else root, nil, z, RotatedRight(t))
  {
    RotatedRightIds(t);
    RightRotationInside(m, m', nil, t, Up(z, nil));
    AroundCtx(m, m', root, nil, z, t.e.n, t.l.e.n, Ptr(t.l.r, nil));
  }

  // ---- moving the focus, painting -----------------------------------------------

  /** A subtree in its context and its parent in the next context are the same
      state of affairs. */
  lemma FocusAt(m: Mem, root: RBNode, nil: RBNode, z: Ctx, t: Tree)
    requires !z.Top?
    ensures At(m, root, nil, z, t) <==> At(m, root, nil, z.up, Parent(z, t))
  {
    assert CtxIds(z) == CtxIds(z.up) + {z.e.n} + Ids(z.sib);
    assert Ids(Parent(z, t)) == Ids(t) + {z.e.n} + Ids(z.sib);
  }

  ghost function Paint(m: Mem, n: RBNode, c: Color): (m': Mem)
    requires n in m
    ensures m'.Keys == m.Keys
  {
    m[n := m[n].(color := c)]
  }

  lemma PaintAt(m: Mem, root: RBNode, nil: RBNode, z: Ctx, t: Tree, c: Color)
    requires At(m, root, nil, z, t) && t.Node?
    ensures t.e.n in m && t.e.n != nil && At(Paint(m, t.e.n, c), root, nil, z, t.(c := c))
  {
    var m' := Paint(m, t.e.n, c);
    FrameLinked(m, m', t.l, t.e.n, nil);
    FrameLinked(m, m', t.r, t.e.n, nil);
    FrameCtx(m, m', z, t.e.n, nil, root);
  }

  lemma PaintLeftAt(m: Mem, root: RBNode, nil: RBNode, z: Ctx, t: Tree, c: Color)
    requires At(m, root, nil, z, t) && t.Node? && t.l.Node?
    ensures t.l.e.n in m && t.l.e.n != nil && At(Paint(m, t.l.e.n, c), root, nil, z, t.(l := t.l.(c := c)))
  {
    var z' := InLeft(z, t.e, t.c, t.r);
    FocusAt(m, root, nil, z', t.l);
    PaintAt(m, root, nil, z', t.l, c);
    FocusAt(Paint(m, t.l.e.n, c), root, nil, z', t.l.(c := c));
  }

  lemma PaintRightAt(m: Mem, root: RBNode, nil: RBNode, z: Ctx, t: Tree, c: Color)
    requires At(m, root, nil, z, t) && t.Node? && t.r.Node?
    ensures t.r.e.n in m && t.r.e.n != nil && At(Paint(m, t.r.e.n, c), root, nil, z, t.(r := t.r.(c := c)))
  {
    var z' := InRight(z, t.e, t.c, t.l);
    FocusAt(m, root, nil, z', t.r);
    PaintAt(m, root, nil, z', t.r, c);
    FocusAt(Paint(m, t.r.e.n, c), root, nil, z', t.r.(c := c));
  }

  /** What a node's own fields and those of its parent and grandparent say. */
  lemma LinksAt(m: Mem, root: RBNode, nil: RBNode, z: Ctx, t: Tree)
    requires At(m, root, nil, z, t) && t.Node?
    ensures t.e.n in m && t.e.n != nil && m[t.e.n].parent == Up(z, nil) && m[t.e.n].color == t.c
    ensures z.Top? ==> root == t.e.n
    ensures !z.Top? ==>
      var p := z.e.n;
      && p != nil && p in m && m[p].color == z.c && m[p].parent == Up(z.up, nil)
      && (t.e.n == m[p].left <==> z.InLeft?) && (t.e.n == m[p].right <==> z.InRight?)
  {
    assert !z.Top? && z.sib.Node? ==> z.sib.e.n in Ids(z.sib);
  }

  lemma SiblingAt(m: Mem, root: RBNode, nil: RBNode, z: Ctx, t: Tree)
    requires At(m, root, nil, z, t) && !z.Top?
    ensures z.e.n in m && z.e.n != nil && m[z.e.n].color == z.c && m[z.e.n].parent == Up(z.up, nil)
    ensures m[z.e.n].left == (if z.InLeft? then Ptr(t, nil) else Ptr(z.sib, nil))
    ensures m[z.e.n].right == (if z.InLeft? then Ptr(z.sib, nil) else Ptr(t, nil))
    ensures Ptr(z.sib, nil) in m
    ensures z.sib.Node? ==>
      && z.sib.e.n != nil && m[z.sib.e.n].color == z.sib.c
      && m[z.sib.e.n].left == Ptr(z.sib.l, nil) && m[z.sib.e.n].right == Ptr(z.sib.r, nil)
    ensures Ptr(z.sib, nil) == Ptr(t, nil) ==> z.sib.Leaf? && t.Leaf?
  {
    assert z.sib.Node? ==> z.sib.e.n in Ids(z.sib);
  }

  /** The two recolourings before the last rotation of an insertion. */
  lemma PaintFamilyLeft(m: Mem, root: RBNode, nil: RBNode, z: Ctx, t: Tree)
    requires At(m, root, nil, z, t) && t.Node? && z.InLeft? && z.up.InLeft?
    ensures t.e.n in m && m[t.e.n].parent == z.e.n && z.e.n in m && m[z.e.n].parent == z.up.e.n && z.up.e.n in m
    ensures z.e.n != nil && z.up.e.n != nil
    ensures var g := Grand(z, t);
      At(Paint(Paint(m, z.e.n, Black), z.up.e.n, Red), root, nil, z.up.up, Node(g.l.(c := Black), g.e, Red, g.r))
  {
    LinksAt(m, root, nil, z, t);
    FocusAt(m, root, nil, z, t);
    FocusAt(m, root, nil, z.up, Parent(z, t));
    var g := Grand(z, t);
    PaintLeftAt(m, root, nil, z.up.up, g, Black);
    PaintAt(Paint(m, z.e.n, Black), root, nil, z.up.up, g.(l := g.l.(c := Black)), Red);
  }

  lemma PaintFamilyRight(m: Mem, root: RBNode, nil: RBNode, z: Ctx, t: Tree)
    requires At(m, root, nil, z, t) && t.Node? && z.InRight? && z.up.InRight?
    ensures t.e.n in m && m[t.e.n].parent == z.e.n && z.e.n in m && m[z.e.n].parent == z.up.e.n && z.up.e.n in m
    ensures z.e.n != nil && z.up.e.n != nil
    ensures var g := Grand(z, t);
      At(Paint(Paint(m, z.e.n, Black), z.up.e.n, Red), root, nil, z.up.up, Node(g.l, g.e, Red, g.r.(c := Black)))
  {
    LinksAt(m, root, nil, z, t);
    FocusAt(m, root, nil, z, t);
    FocusAt(m, root, nil, z.up, Parent(z, t));
    var g := Grand(z, t);
    PaintRightAt(m, root, nil, z.up.up, g, Black);
    PaintAt(Paint(m, z.e.n, Black), root, nil, z.up.up, g.(r := g.r.(c := Black)), Red);
  }

  /** The relatives an insertion looks at. */
  lemma FamilyAt(m: Mem, root: RBNode, nil: RBNode, z: Ctx, t: Tree)
    requires At(m, root, nil, z, t) && RedHole(z, t) && !z.Top? && z.c == Red
    ensures !z.up.Top?
    ensures t.e.n in m && m[t.e.n].parent == z.e.n
    ensures z.e.n in m && z.e.n != nil && m[z.e.n].color == Red && m[z.e.n].parent == z.up.e.n
    ensures (t.e.n == m[z.e.n].left <==> z.InLeft?) && (t.e.n == m[z.e.n].right <==> z.InRight?)
    ensures z.up.e.n in m && Ptr(z.up.sib, nil) in m
    ensures (z.e.n == m[z.up.e.n].left <==> z.up.InLeft?)
    ensures (if z.up.InLeft? then m[z.up.e.n].right else m[z.up.e.n].left) == Ptr(z.up.sib, nil)
    ensures z.up.sib.Node? ==> z.up.sib.e.n != nil && m[z.up.sib.e.n].color == z.up.sib.c
    ensures At(m, root, nil, z.up.up, Grand(z, t))
  {
    RedParent(z, t);
    LinksAt(m, root, nil, z, t);
    FocusAt(m, root, nil, z, t);
    LinksAt(m, root, nil, z.up, Parent(z, t));
    SiblingAt(m, root, nil, z.up, Parent(z, t));
    FocusAt(m, root, nil, z.up, Parent(z, t));
  }

  lemma {:induction false} PlugAt(m: Mem, root: RBNode, nil: RBNode, z: Ctx, t: Tree)
    ensures At(m, root, nil, z, t) <==> At(m, root, nil, Top, Plug(z, t))
  {
    if !z.Top? {
      FocusAt(m, root, nil, z, t);
      PlugAt(m, root, nil, z.up, Parent(z, t));
    }
  }

  lemma {:induction false} RootAt(m: Mem, root: RBNode, nil: RBNode, z: Ctx, t: Tree)
    requires At(m, root, nil, z, t) && t.Node?
    ensures root in m && root != nil && m[root].color == RootColor(z, t.c)
  {
    if !z.Top? {
      FocusAt(m, root, nil, z, t);
      RootAt(m, root, nil, z.up, Parent(z, t));
    }
  }

  lemma OverwriteAt(m: Mem, root: RBNode, nil: RBNode, z: Ctx, t: Tree, v: int)
    requires At(m, root, nil, z, t) && t.Node?
    ensures t.e.n in m && t.e.n != nil
    ensures At(m[t.e.n := m[t.e.n].(val := v)], root, nil, z, t.(e := t.e.(val := v)))
  {
    var m' := m[t.e.n := m[t.e.n].(val := v)];
    FrameLinked(m, m', t.l, t.e.n, nil);
    FrameLinked(m, m', t.r, t.e.n, nil);
    FrameCtx(m, m', z, t.e.n, nil, root);
  }

  /** A new node e.n hung into the hole, as the links m' say. */
  lemma HangAt(m: Mem, m': Mem, root: RBNode, nil: RBNode, z: Ctx, e: Entry)
    requires At(m, root, nil, z, Leaf) && e.n !in m
    requires m'.Keys == m.Keys + {e.n} && m'[e.n] == Fields(e.key, e.val, Red, nil, nil, Up(z, nil))
    requires !z.Top? ==>
      z.e.n in m && m'[z.e.n] == if z.InLeft? then m[z.e.n].(left := e.n) else m[z.e.n].(right := e.n)
    requires forall n :: n in m && n != Up(z, nil) ==> m'[n] == m[n]
    ensures At(m', if z.Top? then e.n else root, nil, z, Node(Leaf, e, Red, Leaf))
  {
    LinkedKeys(m, z, nil, nil, root);
    if !z.Top? {
      FrameLinked(m, m', z.sib, z.e.n, nil);
      FrameCtx(m, m', z.up, z.e.n, nil, root);
    }
  }

  lemma {:induction false} LinkedTreeKeys(m: Mem, t: Tree, p: RBNode, nil: RBNode)
    requires Linked(m, t, p, nil)
    ensures Ids(t) <= m.Keys
  {
    if t.Node? {
      LinkedTreeKeys(m, t.l, t.e.n, nil);
      LinkedTreeKeys(m, t.r, t.e.n, nil);
    }
  }

  lemma {:induction false} LinkedKeys(m: Mem, z: Ctx, hole: RBNode, nil: RBNode, root: RBNode)
    requires LinkedCtx(m, z, hole, nil, root)
    ensures CtxIds(z) <= m.Keys
  {
    if !z.Top? {
      LinkedTreeKeys(m, z.sib, z.e.n, nil);
      LinkedKeys(m, z.up, z.e.n, nil, root);
    }
  }

  /** The comparison at a node sends a search to the right side. */
  lemma StepAt(m: Mem, root: RBNode, nil: RBNode, z: Ctx, t: Tree, key: int)
    requires At(m, root, nil, z, t) && t.Node? && Between(z, key) && Ascending(InOrder(Plug(z, t)))
    ensures t.e.n in m && t.e.n != nil && m[t.e.n].key == t.e.key
    ensures m[t.e.n].left == Ptr(t.l, nil) && m[t.e.n].right == Ptr(t.r, nil)
    ensures At(m, root, nil, InLeft(z, t.e, t.c, t.r), t.l)
    ensures At(m, root, nil, InRight(z, t.e, t.c, t.l), t.r)
    ensures key < t.e.key ==> Between(InLeft(z, t.e, t.c, t.r), key)
    ensures key > t.e.key ==> Between(InRight(z, t.e, t.c, t.l), key)
  {
    SearchStep(z, t, key);
    FocusAt(m, root, nil, InLeft(z, t.e, t.c, t.r), t.l);
    FocusAt(m, root, nil, InRight(z, t.e, t.c, t.l), t.r);
  }

  /** Every entry of the listing is what its node stores. */
  lemma {:induction false} EntriesAt(m: Mem, t: Tree, p: RBNode, nil: RBNode)
    requires Linked(m, t, p, nil)
    ensures forall e :: e in InOrder(t) ==> e.n in Ids(t) && e.n in m && m[e.n].key == e.key && m[e.n].val == e.val
  {
    if t.Node? {
      EntriesAt(m, t.l, t.e.n, nil);
      EntriesAt(m, t.r, t.e.n, nil);
    }
  }

  // ---- deletion: the short subtree and its sibling ----------------------------------

  /** As At, and the parent link of the subtree's root is right even when that
      root is the sentinel. */
  ghost predicate HoleAt(m: Mem, root: RBNode, nil: RBNode, z: Ctx, t: Tree) {
    At(m, root, nil, z, t) && Ptr(t, nil) in m && m[Ptr(t, nil)].parent == Up(z, nil)
  }

  ghost function SiblingCtx(z: Ctx, t: Tree): Ctx
    requires !z.Top?
  {
    if z.InLeft? then InRight(z.up, z.e, z.c, t) else InLeft(z.up, z.e, z.c, t)
  }

  lemma SiblingFocus(m: Mem, root: RBNode, nil: RBNode, z: Ctx, t: Tree)
    requires !z.Top?
    ensures At(m, root, nil, z, t) <==> At(m, root, nil, SiblingCtx(z, t), z.sib)
  {
    FocusAt(m, root, nil, z, t);
    FocusAt(m, root, nil, SiblingCtx(z, t), z.sib);
  }

  lemma NephewsAt(m: Mem, root: RBNode, nil: RBNode, z: Ctx, t: Tree)
    requires At(m, root, nil, z, t) && !z.Top? && z.sib.Node?
    ensures Ptr(z.sib.l, nil) in m && Ptr(z.sib.r, nil) in m
    ensures z.sib.l.Node? ==> Ptr(z.sib.l, nil) != nil && m[Ptr(z.sib.l, nil)].color == z.sib.l.c
    ensures z.sib.r.Node? ==> Ptr(z.sib.r, nil) != nil && m[Ptr(z.sib.r, nil)].color == z.sib.r.c
  {
    assert Linked(m, z.sib.l, z.sib.e.n, nil) && Linked(m, z.sib.r, z.sib.e.n, nil);
    assert z.sib.l.Node? ==> z.sib.l.e.n in Ids(z.sib.l);
    assert z.sib.r.Node? ==> z.sib.r.e.n in Ids(z.sib.r);
  }

  lemma TopAt(m: Mem, root: RBNode, nil: RBNode, z: Ctx, t: Tree)
    requires At(m, root, nil, z, t)
    ensures root == Ptr(t, nil) <==> z.Top?
  {
    RootInCtx(m, z, Ptr(t, nil), nil, root);
  }

  lemma {:induction false} RootInCtx(m: Mem, z: Ctx, hole: RBNode, nil: RBNode, root: RBNode)
    requires LinkedCtx(m, z, hole, nil, root)
    ensures if z.Top? then root == hole else root in CtxIds(z)
  {
    if !z.Top? { RootInCtx(m, z.up, z.e.n, nil, root); }
  }

  /** What the deletion loop reads at the short subtree, even an empty one. */
  lemma ShortLinksAt(m: Mem, root: RBNode, nil: RBNode, z: Ctx, t: Tree)
    requires At(m, root, nil, z, t) && ShortHole(z, t)
    ensures root == Ptr(t, nil) <==> z.Top?
    ensures t.Node? ==> t.e.n in m && t.e.n != nil && m[t.e.n].color == t.c
    ensures !z.Top? ==> z.e.n in m && (Ptr(t, nil) == m[z.e.n].left <==> z.InLeft?)
  {
    TopAt(m, root, nil, z, t);
    if t.Node? { LinksAt(m, root, nil, z, t); }
    if !z.Top? {
      ShortSibling(z, t);
      SiblingAt(m, root, nil, z, t);
    }
  }

  lemma PaintSiblingAt(m: Mem, root: RBNode, nil: RBNode, z: Ctx, t: Tree, c: Color)
    requires At(m, root, nil, z, t) && !z.Top? && z.sib.Node?
    ensures z.sib.e.n in m && z.sib.e.n != nil && z.sib.e.n != Ptr(t, nil)
    ensures At(Paint(m, z.sib.e.n, c), root, nil, WithSib(z, z.sib.(c := c)), t)
  {
    SiblingAt(m, root, nil, z, t);
    SiblingFocus(m, root, nil, z, t);
    PaintAt(m, root, nil, SiblingCtx(z, t), z.sib, c);
    SiblingFocus(Paint(m, z.sib.e.n, c), root, nil, WithSib(z, z.sib.(c := c)), t);
  }

  /** Sibling and parent repainted, seen from the parent. */
  lemma PaintPairAt(m: Mem, root: RBNode, nil: RBNode, z: Ctx, t: Tree, cs: Color, cp: Color)
    requires At(m, root, nil, z, t) && !z.Top? && z.sib.Node?
    ensures z.sib.e.n in m && z.sib.e.n != nil && z.e.n in m && z.e.n != nil
    ensures var p := Parent(WithSib(z, z.sib.(c := cs)), t);
      At(Paint(Paint(m, z.sib.e.n, cs), z.e.n, cp), root, nil, z.up, p.(c := cp))
  {
    PaintSiblingAt(m, root, nil, z, t, cs);
    var z' := WithSib(z, z.sib.(c := cs));
    var m' := Paint(m, z.sib.e.n, cs);
    FocusAt(m', root, nil, z', t);
    PaintAt(m', root, nil, z.up, Parent(z', t), cp);
  }

  /** The sibling's left child and the sibling repainted. */
  lemma PaintNephewLeftAt(m: Mem, root: RBNode, nil: RBNode, z: Ctx, t: Tree)
    requires At(m, root, nil, z, t) && z.InLeft? && z.sib.Node? && z.sib.l.Node?
    ensures z.sib.l.e.n in m && z.sib.l.e.n != nil && z.sib.e.n in m && z.sib.e.n != nil
    ensures m[z.sib.e.n].left == z.sib.l.e.n
    ensures At(Paint(Paint(m, z.sib.l.e.n, Black), z.sib.e.n, Red), root, nil,
      SiblingCtx(z, t), Node(z.sib.l.(c := Black), z.sib.e, Red, z.sib.r))
  {
    SiblingAt(m, root, nil, z, t);
    SiblingFocus(m, root, nil, z, t);
    PaintLeftAt(m, root, nil, SiblingCtx(z, t), z.sib, Black);
    PaintAt(Paint(m, z.sib.l.e.n, Black), root, nil, SiblingCtx(z, t),
      Node(z.sib.l.(c := Black), z.sib.e, z.sib.c, z.sib.r), Red);
  }

  /** Sibling, parent and the sibling's right child repainted. */
  lemma PaintAllLeftAt(m: Mem, root: RBNode, nil: RBNode, z: Ctx, t: Tree)
    requires At(m, root, nil, z, t) && z.InLeft? && z.sib.Node? && z.sib.r.Node?
    ensures z.sib.r.e.n in m && z.sib.r.e.n != nil && z.e.n in m && z.e.n != nil
    ensures z.sib.e.n in m && z.sib.e.n != nil && z.sib.e.n != z.sib.r.e.n && z.sib.e.n != z.e.n
    ensures m[z.sib.e.n].right == z.sib.r.e.n && m[z.e.n].color == z.c
    ensures At(Paint(Paint(Paint(m, z.sib.e.n, z.c), z.e.n, Black), z.sib.r.e.n, Black), root, nil, z.up,
      Node(t, z.e, Black, Node(z.sib.l, z.sib.e, z.c, z.sib.r.(c := Black))))
  {
    SiblingAt(m, root, nil, z, t);
    PaintPairAt(m, root, nil, z, t, z.c, Black);
    var m' := Paint(Paint(m, z.sib.e.n, z.c), z.e.n, Black);
    var s := z.sib.(c := z.c);
    var z' := InRight(z.up, z.e, Black, t);
    FocusAt(m', root, nil, z', s);
    PaintRightAt(m', root, nil, z', s, Black);
    FocusAt(Paint(m', s.r.e.n, Black), root, nil, z', Node(s.l, s.e, s.c, s.r.(c := Black)));
    assert z.sib.e.n in Ids(z.sib) && Distinct(z.sib) && z.sib.r.e.n in Ids(z.sib.r);
  }

  /** The sibling's right child and the sibling repainted. */
  lemma PaintNephewRightAt(m: Mem, root: RBNode, nil: RBNode, z: Ctx, t: Tree)
    requires At(m, root, nil, z, t) && z.InRight? && z.sib.Node? && z.sib.r.Node?
    ensures z.sib.r.e.n in m && z.sib.r.e.n != nil && z.sib.e.n in m && z.sib.e.n != nil
    ensures m[z.sib.e.n].right == z.sib.r.e.n
    ensures At(Paint(Paint(m, z.sib.r.e.n, Black), z.sib.e.n, Red), root, nil,
      SiblingCtx(z, t), Node(z.sib.l, z.sib.e, Red, z.sib.r.(c := Black)))
  {
    SiblingAt(m, root, nil, z, t);
    SiblingFocus(m, root, nil, z, t);
    PaintRightAt(m, root, nil, SiblingCtx(z, t), z.sib, Black);
    PaintAt(Paint(m, z.sib.r.e.n, Black), root, nil, SiblingCtx(z, t),
      Node(z.sib.l, z.sib.e, z.sib.c, z.sib.r.(c := Black)), Red);
  }

  /** Sibling, parent and the sibling's left child repainted. */
  lemma PaintAllRightAt(m: Mem, root: RBNode, nil: RBNode, z: Ctx, t: Tree)
    requires At(m, root, nil, z, t) && z.InRight? && z.sib.Node? && z.sib.l.Node?
    ensures z.sib.l.e.n in m && z.sib.l.e.n != nil && z.e.n in m && z.e.n != nil
    ensures z.sib.e.n in m && z.sib.e.n != nil && z.sib.e.n != z.sib.l.e.n && z.sib.e.n != z.e.n
    ensures m[z.sib.e.n].left == z.sib.l.e.n && m[z.e.n].color == z.c
    ensures At(Paint(Paint(Paint(m, z.sib.e.n, z.c), z.e.n, Black), z.sib.l.e.n, Black), root, nil, z.up,
      Node(Node(z.sib.l.(c := Black), z.sib.e, z.c, z.sib.r), z.e, Black, t))
  {
    SiblingAt(m, root, nil, z, t);
    PaintPairAt(m, root, nil, z, t, z.c, Black);
    var m' := Paint(Paint(m, z.sib.e.n, z.c), z.e.n, Black);
    var s := z.sib.(c := z.c);
    var z' := InLeft(z.up, z.e, Black, t);
    FocusAt(m', root, nil, z', s);
    PaintLeftAt(m', root, nil, z', s, Black);
    FocusAt(Paint(m', s.l.e.n, Black), root, nil, z', Node(s.l.(c := Black), s.e, s.c, s.r));
    assert z.sib.e.n in Ids(z.sib) && Distinct(z.sib) && z.sib.l.e.n in Ids(z.sib.l);
  }

  // ---- deletion: taking a node out -------------------------------------------------

  lemma {:induction false} AboveAt(m: Mem, root: RBNode, nil: RBNode, z: Ctx, k: nat, t: Tree)
    requires Spine(z, k)
    ensures At(m, root, nil, z, t) <==> At(m, root, nil, Above(z, k), Below(z, k, t))
  {
    if k > 0 {
      FocusAt(m, root, nil, z, t);
      AboveAt(m, root, nil, z.up, k - 1, Parent(z, t));
    }
  }

  /** v has taken u's place below p; u's own links are left as they were. */
  ghost predicate Transplanted(m: Mem, m': Mem, nil: RBNode, u: RBNode, v: RBNode, p: RBNode) {
    && u in m && v in m && p in m && m'.Keys == m.Keys
    && m'[v] == m[v].(parent := p)
    && (p != nil ==> m'[p] == if u == m[p].left then m[p].(left := v) else m[p].(right := v))
    && (forall n :: n in m && n != v && (n == p ==> n == nil) ==> m'[n] == m[n])
  }

  lemma TransplantAt(m: Mem, m': Mem, root: RBNode, nil: RBNode, z: Ctx, u: RBNode, s: Tree, p: RBNode)
    requires nil in m && LinkedCtx(m, z, u, nil, root) && Apart(z, s, nil) && u != nil && u !in CtxIds(z)
    requires Linked(m, s, p, nil) && Transplanted(m, m', nil, u, Ptr(s, nil), Up(z, nil))
    ensures HoleAt(m', if z.Top? then Ptr(s, nil) else root, nil, z, s)
  {
    if s.Node? {
      FrameLinked(m, m', s.l, s.e.n, nil);
      FrameLinked(m, m', s.r, s.e.n, nil);
    }
    if !z.Top? {
      assert z.sib.Node? ==> z.sib.e.n in Ids(z.sib);
      FrameLinked(m, m', z.sib, z.e.n, nil);
      FrameCtx(m, m', z.up, z.e.n, nil, root);
    }
  }

  /** A child of t in t's own context. */
  lemma ChildApart(m: Mem, root: RBNode, nil: RBNode, z: Ctx, t: Tree, s: Tree)
    requires At(m, root, nil, z, t) && t.Node? && (s == t.l || s == t.r)
    ensures Apart(z, s, nil) && t.e.n != nil && t.e.n in m && t.e.n !in CtxIds(z) && t.e.n !in Ids(s)
    ensures Linked(m, s, t.e.n, nil) && Ptr(s, nil) in m && Up(z, nil) in m && m[t.e.n].parent == Up(z, nil)
    ensures Ptr(s, nil) == Up(z, nil) ==> Ptr(s, nil) == nil
    ensures m[t.e.n].left == Ptr(t.l, nil) && m[t.e.n].right == Ptr(t.r, nil) && m[t.e.n].color == t.c
  {
    assert s.Node? ==> s.e.n in Ids(s);
    assert !z.Top? ==> z.e.n in CtxIds(z);
  }

  /** y stands ready to take the place of the node of entry e: it has no left
      child, and its right subtree is already r. */
  ghost predicate Ready(m: Mem, root: RBNode, nil: RBNode, z: Ctx, e: Entry, l: Tree, c: Color, y: Entry, yc: Color,
      r: Tree, p: RBNode) {
    && nil in m && e.n != nil && e.n in m
    && m[e.n].left == Ptr(l, nil) && m[e.n].color == c && m[e.n].parent == Up(z, nil)
    && LinkedCtx(m, z, e.n, nil, root) && Linked(m, l, e.n, nil)
    && Linked(m, Node(Leaf, y, yc, r), p, nil)
    && Apart(z, Node(l, y, c, r), nil) && e.n !in CtxIds(z) && e.n !in Ids(Node(l, y, c, r))
  }

  /** The left subtree and the colour handed over from the old node to y. */
  ghost predicate HandedOver(m: Mem, m': Mem, y: RBNode, l: RBNode, c: Color) {
    && y in m && l in m && y != l && m'.Keys == m.Keys
    && m'[y] == m[y].(left := l, color := c) && m'[l] == m[l].(parent := y)
    && (forall n :: n in m && n != y && n != l ==> m'[n] == m[n])
  }

  lemma ReadyTransplant(m: Mem, m': Mem, root: RBNode, nil: RBNode, z: Ctx, e: Entry, l: Tree, c: Color, y: Entry,
      yc: Color, r: Tree, p: RBNode)
    requires Ready(m, root, nil, z, e, l, c, y, yc, r, p)
    requires Transplanted(m, m', nil, e.n, y.n, Up(z, nil))
    ensures At(m', if z.Top? then y.n else root, nil, z, Node(Leaf, y, yc, r))
    ensures Linked(m', l, e.n, nil) && m'[e.n] == m[e.n]
  {
    assert Ids(Node(Leaf, y, yc, r)) == {y.n} + Ids(r) && Ids(Node(l, y, c, r)) == Ids(l) + {y.n} + Ids(r);
    assert Apart(z, Node(Leaf, y, yc, r), nil);
    TransplantAt(m, m', root, nil, z, e.n, Node(Leaf, y, yc, r), p);
    assert !z.Top? ==> z.e.n in CtxIds(z);
    FrameLinked(m, m', l, e.n, nil);
  }

  lemma HandOverAt(m: Mem, m': Mem, root: RBNode, nil: RBNode, z: Ctx, x: RBNode, l: Tree, c: Color, y: Entry,
      yc: Color, r: Tree)
    requires At(m, root, nil, z, Node(Leaf, y, yc, r)) && Linked(m, l, x, nil) && l.Node?
    requires Apart(z, Node(l, y, c, r), nil) && HandedOver(m, m', y.n, l.e.n, c)
    ensures At(m', root, nil, z, Node(l, y, c, r))
  {
    assert Distinct(l);
    FrameLinked(m, m', l.l, l.e.n, nil);
    FrameLinked(m, m', l.r, l.e.n, nil);
    FrameLinked(m, m', r, y.n, nil);
    FrameCtx(m, m', z, y.n, nil, root);
  }

  /** The detached successor y with the rest r of the right subtree below it. */
  lemma ReadyFar(m: Mem, m': Mem, root: RBNode, nil: RBNode, z: Ctx, t: Tree, y: Entry, yc: Color, p: RBNode)
    requires At(m, root, nil, z, t) && t.Node? && t.r.Node?
    requires y.n in m && y.n != nil && y.n !in CtxIds(z) && y.n !in Ids(t) && t.r.e.n in m
    requires m[y.n] == Fields(y.key, y.val, yc, nil, m[y.n].right, p)
    requires m'.Keys == m.Keys && m'[y.n] == m[y.n].(right := t.r.e.n) && m'[t.r.e.n] == m[t.r.e.n].(parent := y.n)
    requires forall n :: n in m && n != y.n && n != t.r.e.n ==> m'[n] == m[n]
    ensures Ready(m', root, nil, z, t.e, t.l, t.c, y, yc, t.r, p)
  {
    assert t.r.e.n in Ids(t.r) && Distinct(t.r);
    assert Linked(m, t.r, t.e.n, nil);
    FrameLinked(m, m', t.l, t.e.n, nil);
    FrameLinked(m, m', t.r.l, t.r.e.n, nil);
    FrameLinked(m, m', t.r.r, t.r.e.n, nil);
    FrameCtx(m, m', z, t.e.n, nil, root);
  }

  /** The right child itself is the successor. */
  lemma ReadyNear(m: Mem, m': Mem, root: RBNode, nil: RBNode, z: Ctx, t: Tree)
    requires At(m, root, nil, z, t) && t.Node? && t.r.Node? && t.r.l.Leaf?
    requires m'.Keys == m.Keys && Ptr(t.r.r, nil) in m && m'[Ptr(t.r.r, nil)] == m[Ptr(t.r.r, nil)].(parent := t.r.e.n)
    requires forall n :: n in m && n != Ptr(t.r.r, nil) ==> m'[n] == m[n]
    ensures Ready(m', root, nil, z, t.e, t.l, t.c, t.r.e, t.r.c, t.r.r, t.e.n)
  {
    assert Linked(m, t.r, t.e.n, nil) && Linked(m, t.r.r, t.r.e.n, nil) && Distinct(t.r);
    assert Same(m, m', m.Keys - {nil});
    LinkedTreeKeys(m, t, Up(z, nil), nil);
    LinkedKeys(m, z, t.e.n, nil, root);
    FrameLinked(m, m', t.l, t.e.n, nil);
    FrameLinked(m, m', t.r, t.e.n, nil);
    FrameCtx(m, m', z, t.e.n, nil, root);
  }

  lemma LeftChildAt(m: Mem, root: RBNode, nil: RBNode, z: Ctx, t: Tree)
    requires At(m, root, nil, z, t) && t.Node?
    ensures t.e.n in m && m[t.e.n].left == Ptr(t.l, nil) && (Ptr(t.l, nil) == nil <==> t.l.Leaf?)
    ensures t.l.Node? ==> At(m, root, nil, InLeft(z, t.e, t.c, t.r), t.l)
  {
    assert t.l.Node? ==> t.l.e.n in Ids(t.l);
    FocusAt(m, root, nil, InLeft(z, t.e, t.c, t.r), t.l);
  }

  lemma ChildrenAt(m: Mem, root: RBNode, nil: RBNode, z: Ctx, t: Tree)
    requires At(m, root, nil, z, t) && t.Node?
    ensures Ptr(t.l, nil) == nil <==> t.l.Leaf?
    ensures Ptr(t.r, nil) == nil <==> t.r.Leaf?
  {
    assert t.l.Node? ==> t.l.e.n in Ids(t.l);
    assert t.r.Node? ==> t.r.e.n in Ids(t.r);
  }

  lemma PromoteParts(m: Mem, root: RBNode, nil: RBNode, z: Ctx, e: Entry, l: Tree, c: Color, y: Entry, yc: Color,
      r: Tree, p: RBNode)
    requires Ready(m, root, nil, z, e, l, c, y, yc, r, p) && l.Node?
    ensures y.n in m && y.n != e.n && y.n != nil && Up(z, nil) in m && y.n != Up(z, nil) && e.n != Up(z, nil)
    ensures l.e.n in m && l.e.n != y.n && l.e.n != e.n && l.e.n != nil && l.e.n != Up(z, nil)
  {
    assert l.e.n in Ids(l) && y.n in Ids(Node(l, y, c, r));
    assert !z.Top? ==> z.e.n in CtxIds(z);
  }

  /** The successor is the right child itself exactly when the walk took no step. */
  lemma NearOrFar(m: Mem, root: RBNode, nil: RBNode, z: Ctx, k: nat, t: Tree)
    requires At(m, root, nil, z, t) && t.Node? && Spine(z, k) && !Above(z, k).Top?
    ensures t.e.n in m && t.e.n != nil && m[t.e.n].color == t.c && m[t.e.n].right == Ptr(t.r, nil) && Ptr(t.r, nil) in m
    ensures m[t.e.n].parent == Above(z, k).e.n <==> k == 0
  {
    AboveIds(z, k);
    ChildApart(m, root, nil, z, t, t.r);
  }

  /** With y taken out, the rest of the tree does not contain it. */
  lemma FarApart(z: Ctx, k: nat, t: Tree, up: Ctx, whole: Tree, nil: RBNode)
    requires Apart(z, t, nil) && t.Node? && Spine(z, k) && k > 0
    requires Plug(up, whole) == Plug(Above(z, k), Below(z, k, t.r))
    ensures t.e.n !in CtxIds(up) && t.e.n !in Ids(whole)
  {
    BelowInOrder(z, k, t.r);
    PlugIds(z, t.r);
    PlugIds(up, whole);
  }

  /** s, deep below t on the right, will be no part of t any more. */
  lemma FarOut(m: Mem, root: RBNode, nil: RBNode, up: Ctx, t: Tree, c: Ctx, k: nat, s: Tree)
    requires At(m, root, nil, c, s) && s.Node? && s.l.Leaf?
    requires t.Node? && Spine(c, k) && k > 0 && Above(c, k) == InRight(up, t.e, t.c, t.l)
    ensures s.e.n !in CtxIds(up) && s.e.n !in Ids(Node(t.l, t.e, t.c, Below(c, k, s.r)))
    ensures s.e.n in m && s.e.n != nil && !c.Top?
    ensures m[s.e.n] == Fields(s.e.key, s.e.val, s.c, nil, Ptr(s.r, nil), c.e.n)
  {
    ChildApart(m, root, nil, c, s, s.r);
    FarApart(c, k, s, up, Node(t.l, t.e, t.c, Below(c, k, s.r)), nil);
  }

  /** With the hole filled, z still stands above it. */
  lemma FarIn(m: Mem, root: RBNode, nil: RBNode, up: Ctx, t: Tree, c: Ctx, k: nat, s: Tree)
    requires At(m, root, nil, c, s) && t.Node? && Spine(c, k) && k > 0 && Above(c, k) == InRight(up, t.e, t.c, t.l)
    ensures Below(c, k, s).Node? && At(m, root, nil, up, Node(t.l, t.e, t.c, Below(c, k, s)))
    ensures t.e.n in m && m[t.e.n].right == Below(c, k, s).e.n && m[t.e.n].right in m && m[t.e.n].right != t.e.n
    ensures Below(c, k, s).e.n != nil
  {
    var r := Below(c, k, s);
    BelowNode(c, k, s);
    AboveAt(m, root, nil, c, k, s);
    FocusAt(m, root, nil, Above(c, k), r);
    ChildApart(m, root, nil, up, Node(t.l, t.e, t.c, r), r);
  }

  lemma HoleIsAt(m: Mem, root: RBNode, nil: RBNode, z: Ctx, t: Tree)
    requires HoleAt(m, root, nil, z, t)
    ensures At(m, root, nil, z, t) && Ptr(t, nil) in m && m[Ptr(t, nil)].parent == Up(z, nil)
  {
  }

  lemma OwnIds(t: Tree, r: Tree)
    requires t.Node? && r.Node? && t.r == r
    ensures t.e.n in Ids(t) && r.e.n in Ids(t)
  {
  }

  /** Once taken out, z is no node of the tree any more. */
  lemma DroppedNode(m: Mem, t: Tree, p: RBNode, t': Tree, e: Entry, nil: RBNode)
    requires Linked(m, t, p, nil) && e in InOrder(t) && Without(InOrder(t'), InOrder(t), e)
    requires m.Keys == Ids(t) + {nil} && nil !in Ids(t)
    ensures e.n !in Ids(t') && m.Keys - {e.n} == Ids(t') + {nil}
  {
    EntriesAt(m, t, p, nil);
    IdsInOrder(t);
    IdsInOrder(t');
  }

  lemma ForgetAt(m: Mem, root: RBNode, nil: RBNode, t: Tree, x: RBNode)
    requires At(m, root, nil, Top, t) && x !in Ids(t) && x != nil
    ensures At(m - {x}, root, nil, Top, t)
  {
    FrameLinked(m, m - {x}, t, nil, nil);
  }

  /** What the walk up to a successor reads. */
  lemma ParentAt(m: Mem, root: RBNode, nil: RBNode, z: Ctx, t: Tree)
    requires At(m, root, nil, z, t) && t.Node?
    ensures t.e.n in m && m[t.e.n].parent == Up(z, nil) && (Up(z, nil) == nil <==> z.Top?)
    ensures !z.Top? ==>
      && z.e.n in m && (t.e.n == m[z.e.n].right <==> z.InRight?)
      && m[z.e.n].parent == Up(z.up, nil) && At(m, root, nil, z.up, Parent(z, t))
  {
    LinksAt(m, root, nil, z, t);
    if !z.Top? { FocusAt(m, root, nil, z, t); }
  }
}
