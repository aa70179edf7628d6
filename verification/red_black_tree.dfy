/** The red-black tree of linked nodes with a shared sentinel and a cached
    minimum. The ghost shape is the tree that the links store. */
module RedBlackTree {
  import opened Powers
  import opened RedBlackShape
  import opened RedBlackLinks

  /** m is what the fields of its nodes say. */
  ghost predicate Synced(m: Mem)
    reads m.Keys
  {
    forall n :: n in m ==> m[n] == Fields(n.key, n.val, n.color, n.left, n.right, n.parent)
  }

  /** The nodes hold a red-black search tree, and size and leftmost fit it. */
  ghost predicate Fit(m: Mem, root: RBNode, nil: RBNode, t: Tree, size: nat, leftmost: RBNode) {
    && m.Keys == Ids(t) + {nil} && At(m, root, nil, Top, t) && m[nil].color == Black
    && IsRedBlack(t) && Ascending(InOrder(t))
    && size == |InOrder(t)| && leftmost == First(InOrder(t), nil)
  }

  ghost function Snapshot(nodes: set<RBNode>): (m: Mem)
    reads nodes
    ensures m.Keys == nodes && Synced(m)
  {
    map n | n in nodes :: Fields(n.key, n.val, n.color, n.left, n.right, n.parent)
  }

  lemma MoreFits(m: Mem, root: RBNode, nil: RBNode, t: Tree, s: seq<Entry>, e: Entry)
    requires m.Keys == Ids(t) + {nil} && At(m, root, nil, Top, t) && m[nil].color == Black
    requires IsRedBlack(t) && OneMore(s, InOrder(t), e, nil)
    ensures Fit(m, root, nil, t, |s| + 1, if s == [] || e.key < s[0].key then e.n else First(s, nil))
  {
  }

  class RBTree {
    var root: RBNode
    const nil: RBNode
    var leftmost: RBNode
    var size: nat
    ghost var shape: Tree
    ghost var mem: Mem  // the fields of the sentinel and of every node of the tree

    ghost predicate Valid()
      reads this, mem.Keys
    {
      Synced(mem) && Fit(mem, root, nil, shape, size, leftmost)
    }

    /** The stored map. */
    ghost function Model(): map<int, int>
      reads this
    {
      MapOf(InOrder(shape))
    }

    constructor ()
      ensures Valid() && Model() == map[] && fresh(mem.Keys)
    {
      var s := new RBNode.Sentinel();
      nil := s;
      root, leftmost, size := s, s, 0;
      shape, mem := Leaf, map[s := Fields(s.key, s.val, s.color, s.left, s.right, s.parent)];
    }

    /** The link changes of a left rotation at x. */
    method RotateLeftLinks(x: RBNode, ghost m: Mem, ghost y: RBNode, ghost b: RBNode, ghost p: RBNode)
      returns (ghost m': Mem)
      requires Synced(m) && LeftPivot(m, nil, x, y, b, p)
      modifies this`root, {x, y}`parent, x`right, y`left
      modifies (if b == nil then {} else {b})`parent
      modifies (if p == nil then {} else {p})`left, (if p == nil then {} else {p})`right
      ensures Synced(m') && LeftRotation(m, m', nil, x, y, b, p)
      ensures root == if p == nil then y else old(root)
    {
      var y := x.right;
      x.right := y.left;
      if y.left != nil { y.left.parent := x; }
      y.parent := x.parent;
      if x.parent == nil { root := y; }
      else if x == x.parent.left { x.parent.left := y; }
      else { x.parent.right := y; }
      y.left := x;
      x.parent := y;
      m' := Snapshot(m.Keys);
    }

    method RotateLeft(x: RBNode, ghost m: Mem, ghost z: Ctx, ghost t: Tree) returns (ghost m': Mem)
      requires Synced(m) && At(m, root, nil, z, t) && t.Node? && t.r.Node? && x == t.e.n
      modifies this`root, m.Keys
      ensures Synced(m') && At(m', root, nil, z, RotatedLeft(t))
      ensures m'.Keys == m.Keys && m'[nil] == m[nil]
    {
      LeftPivotOf(m, root, nil, z, t);
      m' := RotateLeftLinks(x, m, t.r.e.n, Ptr(t.r.l, nil), Up(z, nil));
      LeftRotationAt(m, m', old(root), nil, z, t);
    }

    /** The link changes of a right rotation at x. */
    method RotateRightLinks(x: RBNode, ghost m: Mem, ghost y: RBNode, ghost b: RBNode, ghost p: RBNode)
      returns (ghost m': Mem)
      requires Synced(m) && RightPivot(m, nil, x, y, b, p)
      modifies this`root, {x, y}`parent, x`left, y`right
      modifies (if b == nil then {} else {b})`parent
      modifies (if p == nil then {} else {p})`left, (if p == nil then {} else {p})`right
      ensures Synced(m') && RightRotation(m, m', nil, x, y, b, p)
      ensures root == if p == nil then y else old(root)
    {
      var y := x.left;
      x.left := y.right;
      if y.right != nil { y.right.parent := x; }
      y.parent := x.parent;
      if x.parent == nil { root := y; }
      else if x == x.parent.right { x.parent.right := y; }
      else { x.parent.left := y; }
      y.right := x;
      x.parent := y;
      m' := Snapshot(m.Keys);
    }

    method RotateRight(x: RBNode, ghost m: Mem, ghost z: Ctx, ghost t: Tree) returns (ghost m': Mem)
      requires Synced(m) && At(m, root, nil, z, t) && t.Node? && t.l.Node? && x == t.e.n
      modifies this`root, m.Keys
      ensures Synced(m') && At(m', root, nil, z, RotatedRight(t))
      ensures m'.Keys == m.Keys && m'[nil] == m[nil]
    {
      RightPivotOf(m, root, nil, z, t);
      m' := RotateRightLinks(x, m, t.l.e.n, Ptr(t.l.r, nil), Up(z, nil));
      RightRotationAt(m, m', old(root), nil, z, t);
    }

    method SetColor(n: RBNode, c: Color, ghost m: Mem) returns (ghost m': Mem)
      requires Synced(m) && n in m
      modifies n`color
      ensures Synced(m') && m' == Paint(m, n, c) && root == old(root)
    {
      n.color := c;
      m' := Paint(m, n, c);
    }

    /** Parent and uncle of a red node under a red parent are red: both turn
        black and the grandparent turns red. */
    method PushRedUp(l: RBNode, r: RBNode, g: RBNode, ghost m: Mem, ghost z: Ctx, ghost t: Tree) returns (ghost m': Mem)
      requires Synced(m) && At(m, root, nil, z, t)
      requires t.Node? && t.l.Node? && t.r.Node? && g == t.e.n && l == t.l.e.n && r == t.r.e.n
      modifies l`color, r`color, g`color
      ensures Synced(m') && m'.Keys == m.Keys && m'[nil] == m[nil]
      ensures At(m', root, nil, z, Node(t.l.(c := Black), t.e, Red, t.r.(c := Black)))
    {
      PaintLeftAt(m, root, nil, z, t, Black);
      m' := SetColor(l, Black, m);
      ghost var t1 := t.(l := t.l.(c := Black));
      PaintRightAt(m', root, nil, z, t1, Black);
      m' := SetColor(r, Black, m');
      PaintAt(m', root, nil, z, t1.(r := t.r.(c := Black)), Red);
      m' := SetColor(g, Red, m');
    }

    /** Inner red grandchild, black uncle: the parent p turns to the left. */
    method TurnOutLeft(p: RBNode, ghost m: Mem, ghost ctx: Ctx, ghost t: Tree)
      returns (ghost m': Mem, ghost ctx': Ctx, ghost t': Tree)
      requires Synced(m) && At(m, root, nil, ctx, t) && RedHole(ctx, t)
      requires ctx.InRight? && ctx.c == Red && p == ctx.e.n
      modifies this`root, m.Keys
      ensures Synced(m') && m'.Keys == m.Keys && m'[nil] == m[nil]
      ensures At(m', root, nil, ctx', t') && RedHole(ctx', t') && p == t'.e.n
      ensures ctx'.InLeft? && ctx'.c == Red && ctx'.up == ctx.up
      ensures InOrder(Plug(ctx', t')) == InOrder(Plug(ctx, t))
    {
      InnerLeft(ctx, t);
      FocusAt(m, root, nil, ctx, t);
      m' := RotateLeft(p, m, ctx.up, Parent(ctx, t));
      ghost var q := RotatedLeft(Parent(ctx, t));
      ctx', t' := InLeft(ctx.up, q.e, q.c, q.r), q.l;
      FocusAt(m', root, nil, ctx', t');
    }

    /** Inner red grandchild, black uncle: the parent p turns to the right. */
    method TurnOutRight(p: RBNode, ghost m: Mem, ghost ctx: Ctx, ghost t: Tree)
      returns (ghost m': Mem, ghost ctx': Ctx, ghost t': Tree)
      requires Synced(m) && At(m, root, nil, ctx, t) && RedHole(ctx, t)
      requires ctx.InLeft? && ctx.c == Red && p == ctx.e.n
      modifies this`root, m.Keys
      ensures Synced(m') && m'.Keys == m.Keys && m'[nil] == m[nil]
      ensures At(m', root, nil, ctx', t') && RedHole(ctx', t') && p == t'.e.n
      ensures ctx'.InRight? && ctx'.c == Red && ctx'.up == ctx.up
      ensures InOrder(Plug(ctx', t')) == InOrder(Plug(ctx, t))
    {
      InnerRight(ctx, t);
      FocusAt(m, root, nil, ctx, t);
      m' := RotateRight(p, m, ctx.up, Parent(ctx, t));
      ghost var q := RotatedRight(Parent(ctx, t));
      ctx', t' := InRight(ctx.up, q.e, q.c, q.l), q.r;
      FocusAt(m', root, nil, ctx', t');
    }

    /** Outer red grandchild z, black uncle: z's grandparent turns to the right. */
    method RaiseLeft(z: RBNode, ghost m: Mem, ghost ctx: Ctx, ghost t: Tree) returns (ghost m': Mem, ghost ctx': Ctx)
      requires Synced(m) && At(m, root, nil, ctx, t) && RedHole(ctx, t) && z == t.e.n
      requires ctx.InLeft? && ctx.c == Red && ctx.up.InLeft? && ColorOf(ctx.up.sib) == Black
      modifies this`root, m.Keys
      ensures Synced(m') && m'.Keys == m.Keys && m'[nil] == m[nil]
      ensures At(m', root, nil, ctx', t) && RedHole(ctx', t) && ctx'.InLeft? && ctx'.up == ctx.up.up && ctx'.c == Black
      ensures InOrder(Plug(ctx', t)) == InOrder(Plug(ctx, t))
    {
      OuterLeft(ctx, t);
      PaintFamilyLeft(m, root, nil, ctx, t);
      var parent := z.parent;
      var grand := parent.parent;
      assert parent == ctx.e.n && grand == ctx.up.e.n;
      m' := SetColor(parent, Black, m);
      m' := SetColor(grand, Red, m');
      assert m'.Keys == m.Keys && m'[nil] == m[nil];
      ghost var g := Grand(ctx, t);
      ghost var g2 := Node(g.l.(c := Black), g.e, Red, g.r);
      m' := RotateRight(grand, m', ctx.up.up, g2);
      ghost var g' := RotatedRight(g2);
      ctx' := InLeft(ctx.up.up, g'.e, g'.c, g'.r);
      FocusAt(m', root, nil, ctx', t);
    }

    /** Outer red grandchild z, black uncle: z's grandparent turns to the left. */
    method RaiseRight(z: RBNode, ghost m: Mem, ghost ctx: Ctx, ghost t: Tree) returns (ghost m': Mem, ghost ctx': Ctx)
      requires Synced(m) && At(m, root, nil, ctx, t) && RedHole(ctx, t) && z == t.e.n
      requires ctx.InRight? && ctx.c == Red && ctx.up.InRight? && ColorOf(ctx.up.sib) == Black
      modifies this`root, m.Keys
      ensures Synced(m') && m'.Keys == m.Keys && m'[nil] == m[nil]
      ensures At(m', root, nil, ctx', t) && RedHole(ctx', t) && ctx'.InRight? && ctx'.up == ctx.up.up && ctx'.c == Black
      ensures InOrder(Plug(ctx', t)) == InOrder(Plug(ctx, t))
    {
      OuterRight(ctx, t);
      PaintFamilyRight(m, root, nil, ctx, t);
      var parent := z.parent;
      var grand := parent.parent;
      assert parent == ctx.e.n && grand == ctx.up.e.n;
      m' := SetColor(parent, Black, m);
      m' := SetColor(grand, Red, m');
      assert m'.Keys == m.Keys && m'[nil] == m[nil];
      ghost var g := Grand(ctx, t);
      ghost var g2 := Node(g.l, g.e, Red, g.r.(c := Black));
      m' := RotateLeft(grand, m', ctx.up.up, g2);
      ghost var g' := RotatedLeft(g2);
      ctx' := InRight(ctx.up.up, g'.e, g'.c, g'.l);
      FocusAt(m', root, nil, ctx', t);
    }

    /** One turn of the insertion loop below a left parent. */
    method FixLeft(z: RBNode, ghost m: Mem, ghost ctx: Ctx, ghost t: Tree)
      returns (z': RBNode, ghost m': Mem, ghost ctx': Ctx, ghost t': Tree)
      requires Synced(m) && At(m, root, nil, ctx, t) && RedHole(ctx, t) && z == t.e.n
      requires !ctx.Top? && ctx.c == Red && ctx.up.InLeft?
      modifies this`root, m.Keys
      ensures Synced(m') && m'.Keys == m.Keys && m'[nil] == m[nil]
      ensures At(m', root, nil, ctx', t') && RedHole(ctx', t') && z' == t'.e.n
      ensures InOrder(Plug(ctx', t')) == InOrder(Plug(ctx, t)) && Depth(ctx') < Depth(ctx)
    {
      FamilyAt(m, root, nil, ctx, t);
      z' := z;
      var y := z.parent.parent.right;
      if y != nil && y.color == Red {
        RedUncle(ctx, t);
        z' := z.parent.parent;
        ctx', t' := ctx.up.up, Grand(ctx, t);
        m' := PushRedUp(z.parent, y, z', m, ctx', t');
        t' := Recolored(t');
      } else {
        m', ctx', t' := m, ctx, t;
        if z == z.parent.right {
          z' := z.parent;
          m', ctx', t' := TurnOutLeft(z', m, ctx, t);
        }
        m', ctx' := RaiseLeft(z', m', ctx', t');
      }
    }

    /** One turn of the insertion loop below a right parent. */
    method FixRight(z: RBNode, ghost m: Mem, ghost ctx: Ctx, ghost t: Tree)
      returns (z': RBNode, ghost m': Mem, ghost ctx': Ctx, ghost t': Tree)
      requires Synced(m) && At(m, root, nil, ctx, t) && RedHole(ctx, t) && z == t.e.n
      requires !ctx.Top? && ctx.c == Red && ctx.up.InRight?
      modifies this`root, m.Keys
      ensures Synced(m') && m'.Keys == m.Keys && m'[nil] == m[nil]
      ensures At(m', root, nil, ctx', t') && RedHole(ctx', t') && z' == t'.e.n
      ensures InOrder(Plug(ctx', t')) == InOrder(Plug(ctx, t)) && Depth(ctx') < Depth(ctx)
    {
      FamilyAt(m, root, nil, ctx, t);
      z' := z;
      var y := z.parent.parent.left;
      if y != nil && y.color == Red {
        RedUncle(ctx, t);
        z' := z.parent.parent;
        ctx', t' := ctx.up.up, Grand(ctx, t);
        m' := PushRedUp(y, z.parent, z', m, ctx', t');
        t' := Recolored(t');
      } else {
        m', ctx', t' := m, ctx, t;
        if z == z.parent.left {
          z' := z.parent;
          m', ctx', t' := TurnOutRight(z', m, ctx, t);
        }
        m', ctx' := RaiseRight(z', m', ctx', t');
      }
    }

    method InsertFixup(z0: RBNode, ghost m0: Mem, ghost ctx0: Ctx, ghost t0: Tree) returns (ghost m: Mem, ghost T: Tree)
      requires Synced(m0) && At(m0, root, nil, ctx0, t0) && RedHole(ctx0, t0) && z0 == t0.e.n
      modifies this`root, m0.Keys
      ensures Synced(m) && m.Keys == m0.Keys && m[nil] == m0[nil]
      ensures At(m, root, nil, Top, T) && IsRedBlack(T) && InOrder(T) == InOrder(Plug(ctx0, t0))
    {
      var z := z0;
      m := m0;
      ghost var ctx, t := ctx0, t0;
      LinksAt(m, root, nil, ctx, t);
      while z.parent != nil && z.parent.color == Red
        invariant Synced(m) && m.Keys == m0.Keys && m[nil] == m0[nil]
        invariant At(m, root, nil, ctx, t) && RedHole(ctx, t) && z == t.e.n
        invariant InOrder(Plug(ctx, t)) == InOrder(Plug(ctx0, t0))
        decreases Depth(ctx)
      {
        LinksAt(m, root, nil, ctx, t);
        FamilyAt(m, root, nil, ctx, t);
        if z.parent == z.parent.parent.left {
          z, m, ctx, t := FixLeft(z, m, ctx, t);
        } else {
          z, m, ctx, t := FixRight(z, m, ctx, t);
        }
      }
      LinksAt(m, root, nil, ctx, t);
      m, T := BlackenRoot(m, ctx, t);
    }

    /** The repair is over: the root, if it is the red node, turns black. */
    method BlackenRoot(ghost m: Mem, ghost ctx: Ctx, ghost t: Tree) returns (ghost m': Mem, ghost T: Tree)
      requires Synced(m) && At(m, root, nil, ctx, t) && RedHole(ctx, t) && CtxNoRedRed(ctx, Red)
      modifies m.Keys
      ensures Synced(m') && m'.Keys == m.Keys && m'[nil] == m[nil]
      ensures At(m', root, nil, Top, T) && IsRedBlack(T) && InOrder(T) == InOrder(Plug(ctx, t))
    {
      RootAt(m, root, nil, ctx, t);
      m' := SetColor(root, Black, m);
      if ctx.Top? {
        PaintAt(m, root, nil, ctx, t, Black);
        T := t.(c := Black);
      } else {
        assert m' == m;
        assert RootColor(ctx, Red) == RootColor(ctx, Black);
        PlugColors(ctx, t);
        PlugAt(m, root, nil, ctx, t);
        T := Plug(ctx, t);
      }
    }

    /** Walks down from the root towards key: x is the node with that key or the
        sentinel, y its parent. */
    method Locate(key: int) returns (x: RBNode, y: RBNode, ghost ctx: Ctx, ghost t: Tree)
      requires Valid()
      ensures At(mem, root, nil, ctx, t) && x == Ptr(t, nil) && y == Up(ctx, nil)
      ensures Plug(ctx, t) == shape && Between(ctx, key)
      ensures t.Node? ==> x != nil && t.e.key == key
    {
      y, x := nil, root;
      ctx, t := Top, shape;
      while x != nil && key != x.key
        invariant At(mem, root, nil, ctx, t) && x == Ptr(t, nil) && y == Up(ctx, nil)
        invariant Plug(ctx, t) == shape && Between(ctx, key)
        decreases t
      {
        StepAt(mem, root, nil, ctx, t, key);
        y := x;
        if key < x.key {
          x := x.left;
          ctx, t := InLeft(ctx, t.e, t.c, t.r), t.l;
        } else {
          x := x.right;
          ctx, t := InRight(ctx, t.e, t.c, t.l), t.r;
        }
      }
      if t.Node? { StepAt(mem, root, nil, ctx, t, key); }
    }

    /** Inserts a key or overwrites the value of a present one. */
    method Insert(key: int, val: int)
      requires Valid()
      modifies this, mem.Keys
      ensures Valid() && fresh(mem.Keys - old(mem.Keys))
      ensures Model() == old(Model())[key := val]
    {
      var x, y;
      ghost var ctx, t;
      x, y, ctx, t := Locate(key);
      if x != nil {
        Overwrite(x, val, ctx, t);
        return;
      }
      InsertNew(key, val, y, ctx);
    }

    method InsertNew(key: int, val: int, y: RBNode, ghost ctx: Ctx)
      requires Valid() && At(mem, root, nil, ctx, Leaf) && Between(ctx, key) && y == Up(ctx, nil)
      requires Plug(ctx, Leaf) == shape
      modifies this, mem.Keys
      ensures Valid() && fresh(mem.Keys - old(mem.Keys))
      ensures Model() == old(Model())[key := val]
    {
      hide Plug, InOrder, Ascending, MapOf, IsRedBlack, At, First, Between, Ids, OneMore;
      var z := new RBNode(key, val, nil);
      ghost var s := InOrder(shape);
      HungMore(ctx, Entry(z, key, val), nil);
      ghost var m, T := Attach(z, y, key, ctx, mem);
      Commit(z, key, val, s, m, T);
    }

    /** Counts the new node z and updates the cached minimum. */
    method Commit(z: RBNode, key: int, ghost val: int, ghost s: seq<Entry>, ghost m: Mem, ghost T: Tree)
      requires Synced(m) && m.Keys == Ids(T) + {nil} && At(m, root, nil, Top, T) && m[nil].color == Black
      requires IsRedBlack(T) && OneMore(s, InOrder(T), Entry(z, key, val), nil)
      requires size == |s| && leftmost == First(s, nil)
      modifies this`size, this`leftmost, this`mem, this`shape
      ensures Valid() && mem == m && shape == T
    {
      hide Fit, InOrder, Ascending, IsRedBlack, MapOf, Linked, Ids;
      EntriesAt(m, T, nil, nil);
      MoreFits(m, root, nil, T, s, Entry(z, key, val));
      size := size + 1;
      if leftmost == nil || key < leftmost.key { leftmost := z; }
      mem, shape := m, T;
    }

    /** Links the new node z below y, where the search for its key ended. */
    method Attach(z: RBNode, y: RBNode, key: int, ghost ctx: Ctx, ghost m: Mem) returns (ghost m': Mem, ghost T: Tree)
      requires Synced(m) && At(m, root, nil, ctx, Leaf) && Between(ctx, key) && y == Up(ctx, nil)
      requires IsRedBlack(Plug(ctx, Leaf)) && m.Keys == Ids(Plug(ctx, Leaf)) + {nil}
      requires z !in m && z.key == key && z.color == Red && z.left == nil && z.right == nil
      modifies z, m.Keys, this`root
      ensures Synced(m') && m'.Keys == m.Keys + {z} && nil in m && m'[nil] == m[nil]
      ensures At(m', root, nil, Top, T) && IsRedBlack(T)
      ensures InOrder(T) == InOrder(Plug(ctx, Node(Leaf, Entry(z, key, old(z.val)), Red, Leaf)))
      ensures m'.Keys == Ids(T) + {nil}
    {
      ghost var e := Entry(z, key, z.val);
      ghost var t := Node(Leaf, e, Red, Leaf);
      HangRed(ctx, e);
      m' := LinkNew(z, y, key, ctx, e, m);
      m', T := InsertFixup(z, m', ctx, t);
      HangNodes(ctx, e, T, m.Keys, nil);
    }

    method LinkNew(z: RBNode, y: RBNode, key: int, ghost ctx: Ctx, ghost e: Entry, ghost m: Mem) returns (ghost m': Mem)
      requires Synced(m) && At(m, root, nil, ctx, Leaf) && Between(ctx, key) && y == Up(ctx, nil)
      requires z !in m && e == Entry(z, z.key, z.val) && z.key == key
      requires z.color == Red && z.left == nil && z.right == nil
      modifies z`parent, (if y == nil then {} else {y})`left, (if y == nil then {} else {y})`right, this`root
      ensures Synced(m') && m'.Keys == m.Keys + {z} && m'[nil] == m[nil]
      ensures At(m', root, nil, ctx, Node(Leaf, e, Red, Leaf))
    {
      if !ctx.Top? { HoleSide(ctx, key); }
      z.parent := y;
      if y == nil { root := z; }
      else if key < y.key { y.left := z; }
      else { y.right := z; }
      m' := Snapshot(m.Keys + {z});
      HangAt(m, m', old(root), nil, ctx, e);
    }

    method Overwrite(x: RBNode, val: int, ghost ctx: Ctx, ghost t: Tree)
      requires Valid() && At(mem, root, nil, ctx, t) && t.Node? && x == t.e.n && Plug(ctx, t) == shape
      modifies x`val, this`mem, this`shape
      ensures Valid() && mem.Keys == old(mem.Keys)
      ensures Model() == old(Model())[t.e.key := val]
    {
      hide Plug, InOrder, Ascending, MapOf, IsRedBlack, At, First, Ids;
      OverwriteEntry(ctx, t, val, nil);
      OverwriteColors(ctx, t, val);
      OverwriteAt(mem, root, nil, ctx, t, val);
      x.val := val;
      mem := mem[x := mem[x].(val := val)];
      ghost var t' := t.(e := t.e.(val := val));
      PlugAt(mem, root, nil, ctx, t');
      shape := Plug(ctx, t');
    }

    // ---- deletion

    /** Sibling w of the short subtree and both its children are black. */
    method Redden(w: RBNode, ghost m: Mem, ghost ctx: Ctx, ghost t: Tree) returns (ghost m': Mem, ghost t': Tree)
      requires Synced(m) && At(m, root, nil, ctx, t) && ShortHole(ctx, t) && !ctx.Top?
      requires ColorOf(t) == Black && ctx.sib.Node? && w == ctx.sib.e.n
      requires ctx.sib.c == Black && ColorOf(ctx.sib.l) == Black && ColorOf(ctx.sib.r) == Black
      modifies w`color
      ensures Synced(m') && m'.Keys == m.Keys && (nil in m ==> m'[nil] == m[nil])
      ensures HoleAt(m', root, nil, ctx.up, t') && ShortHole(ctx.up, t') && t'.Node? && t'.e == ctx.e && t'.c == ctx.c
      ensures InOrder(Plug(ctx.up, t')) == InOrder(Plug(ctx, t))
    {
      SiblingReddens(ctx, t);
      PaintSiblingAt(m, root, nil, ctx, t, Red);
      m' := SetColor(w, Red, m);
      ghost var ctx' := WithSib(ctx, ctx.sib.(c := Red));
      t' := Parent(ctx', t);
      FocusAt(m', root, nil, ctx', t);
      LinksAt(m', root, nil, ctx.up, t');
    }

    /** The sibling w is red: it turns black, the parent p red and to the left. */
    method RaiseSiblingLeft(w: RBNode, p: RBNode, ghost m: Mem, ghost ctx: Ctx, ghost t: Tree)
      returns (ghost m': Mem, ghost ctx': Ctx)
      requires Synced(m) && HoleAt(m, root, nil, ctx, t) && ShortHole(ctx, t) && ctx.InLeft?
      requires ColorOf(t) == Black && ctx.sib.Node? && ctx.sib.c == Red && w == ctx.sib.e.n && p == ctx.e.n
      modifies this`root, m.Keys
      ensures Synced(m') && m'.Keys == m.Keys && (nil in m ==> m'[nil] == m[nil])
      ensures HoleAt(m', root, nil, ctx', t) && ShortHole(ctx', t)
      ensures ctx'.InLeft? && ctx'.sib.Node? && ctx'.sib.c == Black && ctx'.c == Red && ctx'.e == ctx.e
      ensures InOrder(Plug(ctx', t)) == InOrder(Plug(ctx, t))
    {
      SiblingRisesLeft(ctx, t);
      PaintPairAt(m, root, nil, ctx, t, Black, Red);
      m' := SetColor(w, Black, m);
      m' := SetColor(p, Red, m');
      assert m'[nil] == m[nil] && m'.Keys == m.Keys;
      ghost var g := Node(t, ctx.e, Red, ctx.sib.(c := Black));
      m' := RotateLeft(p, m', ctx.up, g);
      g := RotatedLeft(g);
      ghost var c1 := InLeft(ctx.up, g.e, g.c, g.r);
      ctx' := InLeft(c1, ctx.e, Red, ctx.sib.l);
      FocusAt(m', root, nil, c1, g.l);
      FocusAt(m', root, nil, ctx', t);
      if t.Node? { LinksAt(m', root, nil, ctx', t); }
    }

    /** The sibling w's left child is red, its right one black: w turns to the right. */
    method RaiseNephewLeft(w: RBNode, ghost m: Mem, ghost ctx: Ctx, ghost t: Tree)
      returns (ghost m': Mem, ghost ctx': Ctx)
      requires Synced(m) && HoleAt(m, root, nil, ctx, t) && ShortHole(ctx, t) && ctx.InLeft?
      requires ctx.sib.Node? && ctx.sib.c == Black && w == ctx.sib.e.n
      requires ColorOf(ctx.sib.l) == Red && ColorOf(ctx.sib.r) == Black
      modifies this`root, m.Keys
      ensures Synced(m') && m'.Keys == m.Keys && (nil in m ==> m'[nil] == m[nil])
      ensures HoleAt(m', root, nil, ctx', t) && ShortHole(ctx', t)
      ensures ctx'.InLeft? && ctx'.sib.Node? && ctx'.sib.c == Black && ColorOf(ctx'.sib.r) == Red
      ensures ctx'.e == ctx.e && ctx'.c == ctx.c
      ensures InOrder(Plug(ctx', t)) == InOrder(Plug(ctx, t))
    {
      NephewRisesLeft(ctx, t);
      PaintNephewLeftAt(m, root, nil, ctx, t);
      m' := SetColor(w.left, Black, m);
      m' := SetColor(w, Red, m');
      assert m'[nil] == m[nil];
      ghost var v := Node(ctx.sib.l.(c := Black), ctx.sib.e, Red, ctx.sib.r);
      m' := RotateRight(w, m', SiblingCtx(ctx, t), v);
      ctx' := WithSib(ctx, RotatedRight(v));
      SiblingFocus(m', root, nil, ctx', t);
      if t.Node? { LinksAt(m', root, nil, ctx', t); }
    }

    /** The sibling w's right child is red: w takes the parent p's place. */
    method ReplaceParentLeft(w: RBNode, p: RBNode, ghost m: Mem, ghost ctx: Ctx, ghost t: Tree)
      returns (ghost m': Mem, ghost T: Tree)
      requires Synced(m) && At(m, root, nil, ctx, t) && ShortHole(ctx, t) && ctx.InLeft?
      requires ColorOf(t) == Black && ctx.sib.Node? && ctx.sib.c == Black && w == ctx.sib.e.n && p == ctx.e.n
      requires ColorOf(ctx.sib.r) == Red
      modifies this`root, m.Keys
      ensures Synced(m') && m'.Keys == m.Keys && (nil in m ==> m'[nil] == m[nil])
      ensures At(m', root, nil, Top, T) && IsRedBlack(T) && T.Node? && InOrder(T) == InOrder(Plug(ctx, t))
    {
      SiblingReplacesLeft(ctx, t);
      PaintAllLeftAt(m, root, nil, ctx, t);
      var v, c := w.right, p.color;
      assert v == ctx.sib.r.e.n && c == ctx.c;
      m' := SetColor(w, c, m);
      m' := SetColor(p, Black, m');
      m' := SetColor(v, Black, m');
      assert m'[nil] == m[nil];
      ghost var g := Node(t, ctx.e, Black, Node(ctx.sib.l, ctx.sib.e, ctx.c, ctx.sib.r.(c := Black)));
      m' := RotateLeft(p, m', ctx.up, g);
      g := RotatedLeft(g);
      PlugAt(m', root, nil, ctx.up, g);
      T := Plug(ctx.up, g);
      PlugNode(ctx.up, g);
    }

    /** One turn of the deletion loop for a left child x. */
    method RefillLeft(x: RBNode, ghost m: Mem, ghost ctx: Ctx, ghost t: Tree)
      returns (x': RBNode, ghost m': Mem, ghost ctx': Ctx, ghost t': Tree)
      requires Synced(m) && HoleAt(m, root, nil, ctx, t) && ShortHole(ctx, t) && x == Ptr(t, nil)
      requires ctx.InLeft? && ColorOf(t) == Black
      modifies this`root, m.Keys
      ensures Synced(m') && m'.Keys == m.Keys && (nil in m ==> m'[nil] == m[nil])
      ensures HoleAt(m', root, nil, ctx', t') && ShortHole(ctx', t') && t'.Node? && x' == t'.e.n
      ensures InOrder(Plug(ctx', t')) == InOrder(Plug(ctx, t))
      ensures Debt(ctx', t') < Debt(ctx, t)
    {
      ShortSibling(ctx, t);
      SiblingAt(m, root, nil, ctx, t);
      var p := x.parent;
      var w := p.right;
      m', ctx' := m, ctx;
      if w != nil && w.color == Red {
        m', ctx' := RaiseSiblingLeft(w, p, m', ctx', t);
        SiblingAt(m', root, nil, ctx', t);
        w := p.right;
      }
      x', m', ctx', t' := SettleLeft(x, p, w, m', ctx', t);
    }

    method SettleLeft(x: RBNode, p: RBNode, w0: RBNode, ghost m: Mem, ghost ctx: Ctx, ghost t: Tree)
      returns (x': RBNode, ghost m': Mem, ghost ctx': Ctx, ghost t': Tree)
      requires Synced(m) && HoleAt(m, root, nil, ctx, t) && ShortHole(ctx, t) && x == Ptr(t, nil)
      requires ctx.InLeft? && ColorOf(t) == Black && p == ctx.e.n
      requires ctx.sib.Node? && ctx.sib.c == Black && w0 == ctx.sib.e.n
      modifies this`root, m.Keys
      ensures Synced(m') && m'.Keys == m.Keys && (nil in m ==> m'[nil] == m[nil])
      ensures HoleAt(m', root, nil, ctx', t') && ShortHole(ctx', t') && t'.Node? && x' == t'.e.n
      ensures InOrder(Plug(ctx', t')) == InOrder(Plug(ctx, t))
      ensures ctx' == Top || (ctx' == ctx.up && t'.c == ctx.c)
    {
      hide Plug, InOrder, ShortHole, IsRedBlack, Ids, CtxIds;
      SiblingAt(m, root, nil, ctx, t);
      NephewsAt(m, root, nil, ctx, t);
      var w := w0;
      if (w.left == nil || w.left.color == Black) && (w.right == nil || w.right.color == Black) {
        m', t' := Redden(w, m, ctx, t);
        x', ctx' := p, ctx.up;
      } else {
        m', ctx' := m, ctx;
        if w.right == nil || w.right.color == Black {
          m', ctx' := RaiseNephewLeft(w, m', ctx', t);
          SiblingAt(m', root, nil, ctx', t);
          w := p.right;
        }
        m', t' := ReplaceParentLeft(w, p, m', ctx', t);
        x', ctx' := root, Top;
        TopHole(t');
        LinksAt(m', root, nil, Top, t');
      }
    }

    /** The sibling w is red: it turns black, the parent p red and to the right. */
    method RaiseSiblingRight(w: RBNode, p: RBNode, ghost m: Mem, ghost ctx: Ctx, ghost t: Tree)
      returns (ghost m': Mem, ghost ctx': Ctx)
      requires Synced(m) && HoleAt(m, root, nil, ctx, t) && ShortHole(ctx, t) && ctx.InRight?
      requires ColorOf(t) == Black && ctx.sib.Node? && ctx.sib.c == Red && w == ctx.sib.e.n && p == ctx.e.n
      modifies this`root, m.Keys
      ensures Synced(m') && m'.Keys == m.Keys && (nil in m ==> m'[nil] == m[nil])
      ensures HoleAt(m', root, nil, ctx', t) && ShortHole(ctx', t)
      ensures ctx'.InRight? && ctx'.sib.Node? && ctx'.sib.c == Black && ctx'.c == Red && ctx'.e == ctx.e
      ensures InOrder(Plug(ctx', t)) == InOrder(Plug(ctx, t))
    {
      SiblingRisesRight(ctx, t);
      PaintPairAt(m, root, nil, ctx, t, Black, Red);
      m' := SetColor(w, Black, m);
      m' := SetColor(p, Red, m');
      assert m'[nil] == m[nil] && m'.Keys == m.Keys;
      ghost var g := Node(ctx.sib.(c := Black), ctx.e, Red, t);
      m' := RotateRight(p, m', ctx.up, g);
      g := RotatedRight(g);
      ghost var c1 := InRight(ctx.up, g.e, g.c, g.l);
      ctx' := InRight(c1, ctx.e, Red, ctx.sib.r);
      FocusAt(m', root, nil, c1, g.r);
      FocusAt(m', root, nil, ctx', t);
      if t.Node? { LinksAt(m', root, nil, ctx', t); }
    }

    /** The sibling w's right child is red, its left one black: w turns to the left. */
    method RaiseNephewRight(w: RBNode, ghost m: Mem, ghost ctx: Ctx, ghost t: Tree)
      returns (ghost m': Mem, ghost ctx': Ctx)
      requires Synced(m) && HoleAt(m, root, nil, ctx, t) && ShortHole(ctx, t) && ctx.InRight?
      requires ctx.sib.Node? && ctx.sib.c == Black && w == ctx.sib.e.n
      requires ColorOf(ctx.sib.r) == Red && ColorOf(ctx.sib.l) == Black
      modifies this`root, m.Keys
      ensures Synced(m') && m'.Keys == m.Keys && (nil in m ==> m'[nil] == m[nil])
      ensures HoleAt(m', root, nil, ctx', t) && ShortHole(ctx', t)
      ensures ctx'.InRight? && ctx'.sib.Node? && ctx'.sib.c == Black && ColorOf(ctx'.sib.l) == Red
      ensures ctx'.e == ctx.e && ctx'.c == ctx.c
      ensures InOrder(Plug(ctx', t)) == InOrder(Plug(ctx, t))
    {
      NephewRisesRight(ctx, t);
      PaintNephewRightAt(m, root, nil, ctx, t);
      m' := SetColor(w.right, Black, m);
      m' := SetColor(w, Red, m');
      assert m'[nil] == m[nil];
      ghost var v := Node(ctx.sib.l, ctx.sib.e, Red, ctx.sib.r.(c := Black));
      m' := RotateLeft(w, m', SiblingCtx(ctx, t), v);
      ctx' := WithSib(ctx, RotatedLeft(v));
      SiblingFocus(m', root, nil, ctx', t);
      if t.Node? { LinksAt(m', root, nil, ctx', t); }
    }

    /** The sibling w's left child is red: w takes the parent p's place. */
    method ReplaceParentRight(w: RBNode, p: RBNode, ghost m: Mem, ghost ctx: Ctx, ghost t: Tree)
      returns (ghost m': Mem, ghost T: Tree)
      requires Synced(m) && At(m, root, nil, ctx, t) && ShortHole(ctx, t) && ctx.InRight?
      requires ColorOf(t) == Black && ctx.sib.Node? && ctx.sib.c == Black && w == ctx.sib.e.n && p == ctx.e.n
      requires ColorOf(ctx.sib.l) == Red
      modifies this`root, m.Keys
      ensures Synced(m') && m'.Keys == m.Keys && (nil in m ==> m'[nil] == m[nil])
      ensures At(m', root, nil, Top, T) && IsRedBlack(T) && T.Node? && InOrder(T) == InOrder(Plug(ctx, t))
    {
      SiblingReplacesRight(ctx, t);
      PaintAllRightAt(m, root, nil, ctx, t);
      var v, c := w.left, p.color;
      assert v == ctx.sib.l.e.n && c == ctx.c;
      m' := SetColor(w, c, m);
      m' := SetColor(p, Black, m');
      m' := SetColor(v, Black, m');
      assert m'[nil] == m[nil];
      ghost var g := Node(Node(ctx.sib.l.(c := Black), ctx.sib.e, ctx.c, ctx.sib.r), ctx.e, Black, t);
      m' := RotateRight(p, m', ctx.up, g);
      g := RotatedRight(g);
      PlugAt(m', root, nil, ctx.up, g);
      T := Plug(ctx.up, g);
      PlugNode(ctx.up, g);
    }

    /** One turn of the deletion loop for a right child x. */
    method RefillRight(x: RBNode, ghost m: Mem, ghost ctx: Ctx, ghost t: Tree)
      returns (x': RBNode, ghost m': Mem, ghost ctx': Ctx, ghost t': Tree)
      requires Synced(m) && HoleAt(m, root, nil, ctx, t) && ShortHole(ctx, t) && x == Ptr(t, nil)
      requires ctx.InRight? && ColorOf(t) == Black
      modifies this`root, m.Keys
      ensures Synced(m') && m'.Keys == m.Keys && (nil in m ==> m'[nil] == m[nil])
      ensures HoleAt(m', root, nil, ctx', t') && ShortHole(ctx', t') && t'.Node? && x' == t'.e.n
      ensures InOrder(Plug(ctx', t')) == InOrder(Plug(ctx, t))
      ensures Debt(ctx', t') < Debt(ctx, t)
    {
      ShortSibling(ctx, t);
      SiblingAt(m, root, nil, ctx, t);
      var p := x.parent;
      var w := p.left;
      m', ctx' := m, ctx;
      if w != nil && w.color == Red {
        m', ctx' := RaiseSiblingRight(w, p, m', ctx', t);
        SiblingAt(m', root, nil, ctx', t);
        w := p.left;
      }
      x', m', ctx', t' := SettleRight(x, p, w, m', ctx', t);
    }

    method SettleRight(x: RBNode, p: RBNode, w0: RBNode, ghost m: Mem, ghost ctx: Ctx, ghost t: Tree)
      returns (x': RBNode, ghost m': Mem, ghost ctx': Ctx, ghost t': Tree)
      requires Synced(m) && HoleAt(m, root, nil, ctx, t) && ShortHole(ctx, t) && x == Ptr(t, nil)
      requires ctx.InRight? && ColorOf(t) == Black && p == ctx.e.n
      requires ctx.sib.Node? && ctx.sib.c == Black && w0 == ctx.sib.e.n
      modifies this`root, m.Keys
      ensures Synced(m') && m'.Keys == m.Keys && (nil in m ==> m'[nil] == m[nil])
      ensures HoleAt(m', root, nil, ctx', t') && ShortHole(ctx', t') && t'.Node? && x' == t'.e.n
      ensures InOrder(Plug(ctx', t')) == InOrder(Plug(ctx, t))
      ensures ctx' == Top || (ctx' == ctx.up && t'.c == ctx.c)
    {
      hide Plug, InOrder, ShortHole, IsRedBlack, Ids, CtxIds;
      SiblingAt(m, root, nil, ctx, t);
      NephewsAt(m, root, nil, ctx, t);
      var w := w0;
      if (w.right == nil || w.right.color == Black) && (w.left == nil || w.left.color == Black) {
        m', t' := Redden(w, m, ctx, t);
        x', ctx' := p, ctx.up;
      } else {
        m', ctx' := m, ctx;
        if w.left == nil || w.left.color == Black {
          m', ctx' := RaiseNephewRight(w, m', ctx', t);
          SiblingAt(m', root, nil, ctx', t);
          w := p.left;
        }
        m', t' := ReplaceParentRight(w, p, m', ctx', t);
        x', ctx' := root, Top;
        TopHole(t');
        LinksAt(m', root, nil, Top, t');
      }
    }

    method DeleteFixup(x0: RBNode, ghost m0: Mem, ghost ctx0: Ctx, ghost t0: Tree) returns (ghost m: Mem, ghost T: Tree)
      requires Synced(m0) && HoleAt(m0, root, nil, ctx0, t0) && ShortHole(ctx0, t0) && x0 == Ptr(t0, nil)
      requires nil in m0 && m0[nil].color == Black
      modifies this`root, m0.Keys
      ensures Synced(m) && m.Keys == m0.Keys && nil in m && m[nil].color == Black
      ensures At(m, root, nil, Top, T) && IsRedBlack(T) && InOrder(T) == InOrder(Plug(ctx0, t0))
    {
      hide Plug, InOrder, ShortHole, IsRedBlack, At, Debt, Ids;
      var x := x0;
      m := m0;
      ghost var ctx, t := ctx0, t0;
      ShortLinksAt(m, root, nil, ctx, t);
      while x != root && (x == nil || x.color == Black)
        invariant Synced(m) && m.Keys == m0.Keys && nil in m && m[nil].color == Black
        invariant HoleAt(m, root, nil, ctx, t) && ShortHole(ctx, t) && x == Ptr(t, nil)
        invariant x == root <==> ctx.Top?
        invariant t.Node? ==> x != nil && m[x].color == t.c
        invariant InOrder(Plug(ctx, t)) == InOrder(Plug(ctx0, t0))
        decreases Debt(ctx, t)
      {
        x, m, ctx, t := Refill(x, m, ctx, t);
      }
      m, T := Blacken(x, m, ctx, t);
    }

    /** One turn of the deletion loop. */
    method Refill(x: RBNode, ghost m: Mem, ghost ctx: Ctx, ghost t: Tree)
      returns (x': RBNode, ghost m': Mem, ghost ctx': Ctx, ghost t': Tree)
      requires Synced(m) && HoleAt(m, root, nil, ctx, t) && ShortHole(ctx, t) && x == Ptr(t, nil)
      requires !ctx.Top? && ColorOf(t) == Black
      modifies this`root, m.Keys
      ensures Synced(m') && m'.Keys == m.Keys && (nil in m ==> m'[nil] == m[nil])
      ensures HoleAt(m', root, nil, ctx', t') && ShortHole(ctx', t') && t'.Node? && x' == t'.e.n
      ensures x' in m' && m'[x'].color == t'.c && x' != nil && (x' == root <==> ctx'.Top?)
      ensures InOrder(Plug(ctx', t')) == InOrder(Plug(ctx, t))
      ensures Debt(ctx', t') < Debt(ctx, t)
    {
      ShortLinksAt(m, root, nil, ctx, t);
      if x == x.parent.left {
        x', m', ctx', t' := RefillLeft(x, m, ctx, t);
      } else {
        x', m', ctx', t' := RefillRight(x, m, ctx, t);
      }
      ShortLinksAt(m', root, nil, ctx', t');
    }

    method Blacken(x: RBNode, ghost m: Mem, ghost ctx: Ctx, ghost t: Tree) returns (ghost m': Mem, ghost T: Tree)
      requires Synced(m) && At(m, root, nil, ctx, t) && ShortHole(ctx, t) && x == Ptr(t, nil)
      requires m[nil].color == Black && (ctx.Top? || ColorOf(t) == Red)
      modifies x`color
      ensures Synced(m') && m'.Keys == m.Keys && m'[nil].color == Black
      ensures At(m', root, nil, Top, T) && IsRedBlack(T) && InOrder(T) == InOrder(Plug(ctx, t))
    {
      m' := SetColor(x, Black, m);
      if t.Node? {
        ShortBlackened(ctx, t);
        PaintAt(m, root, nil, ctx, t, Black);
        PlugAt(m', root, nil, ctx, t.(c := Black));
        T := Plug(ctx, t.(c := Black));
      } else {
        assert m' == m;
        T := Leaf;
      }
    }

    method Transplant(u: RBNode, v: RBNode, ghost m: Mem, ghost p: RBNode) returns (ghost m': Mem)
      requires Synced(m) && u in m && v in m && p in m && m[u].parent == p && u != v && u != p && (v == p ==> v == nil)
      modifies this`root, v`parent, (if p == nil then {} else {p})`left, (if p == nil then {} else {p})`right
      ensures Synced(m') && Transplanted(m, m', nil, u, v, p)
      ensures root == if p == nil then v else old(root)
    {
      if u.parent == nil { root := v; }
      else if u == u.parent.left { u.parent.left := v; }
      else { u.parent.right := v; }
      v.parent := u.parent;
      m' := Snapshot(m.Keys);
    }

    /** A node with at most one child gives way to that child. */
    method TransplantChild(u: RBNode, v: RBNode, ghost m: Mem, ghost ctx: Ctx, ghost t: Tree, ghost s: Tree)
      returns (ghost m': Mem)
      requires Synced(m) && At(m, root, nil, ctx, t) && t.Node? && (s == t.l || s == t.r) && u == t.e.n
      requires v == Ptr(s, nil)
      modifies this`root, m.Keys
      ensures Synced(m') && m'.Keys == m.Keys && HoleAt(m', root, nil, ctx, s) && m'[nil].color == m[nil].color
      ensures m'[u] == m[u]
    {
      ChildApart(m, root, nil, ctx, t, s);
      m' := Transplant(u, v, m, Up(ctx, nil));
      TransplantAt(m, m', old(root), nil, ctx, u, s, u);
    }

    /** The walk to the leftmost node below x. */
    method WalkLeft(x: RBNode, ghost m: Mem, ghost ctx: Ctx, ghost t: Tree)
      returns (y: RBNode, ghost z: Ctx, ghost k: nat, ghost s: Tree)
      requires Synced(m) && At(m, root, nil, ctx, t) && t.Node? && x == t.e.n
      ensures At(m, root, nil, z, s) && s.Node? && s.l.Leaf? && y == s.e.n
      ensures Spine(z, k) && Above(z, k) == ctx && Below(z, k, s) == t
    {
      y, z, k, s := x, ctx, 0, t;
      while y.left != nil
        invariant At(m, root, nil, z, s) && s.Node? && y == s.e.n
        invariant Spine(z, k) && Above(z, k) == ctx && Below(z, k, s) == t
        decreases s
      {
        LeftChildAt(m, root, nil, z, s);
        y := y.left;
        z, k, s := InLeft(z, s.e, s.c, s.r), k + 1, s.l;
      }
      LeftChildAt(m, root, nil, z, s);
    }

    /** z's left subtree and colour pass to y, which has taken z's place. */
    method HandOver(z: RBNode, y: RBNode, ghost m: Mem) returns (ghost m': Mem)
      requires Synced(m) && z in m && y in m && z.left in m && z != y && z.left != y && z.left != z
      modifies y`left, y`color, {z.left}`parent
      ensures Synced(m') && HandedOver(m, m', y, m[z].left, m[z].color) && root == old(root)
    {
      y.left := z.left;
      y.left.parent := y;
      y.color := z.color;
      m' := Snapshot(m.Keys);
    }

    /** The successor y, made ready, replaces z. */
    method Promote(z: RBNode, y: RBNode, ghost m: Mem, ghost ctx: Ctx, ghost e: Entry, ghost l: Tree, ghost c: Color,
        ghost ye: Entry, ghost yc: Color, ghost r: Tree, ghost p: RBNode)
      returns (ghost m': Mem)
      requires Synced(m) && Ready(m, root, nil, ctx, e, l, c, ye, yc, r, p) && z == e.n && y == ye.n && l.Node?
      modifies this`root, m.Keys
      ensures Synced(m') && m'.Keys == m.Keys && m'[nil] == m[nil]
      ensures At(m', root, nil, ctx, Node(l, ye, c, r))
    {
      PromoteParts(m, root, nil, ctx, e, l, c, ye, yc, r, p);
      m' := Transplant(z, y, m, Up(ctx, nil));
      ReadyTransplant(m, m', old(root), nil, ctx, e, l, c, ye, yc, r, p);
      ghost var m1 := m';
      m' := HandOver(z, y, m');
      HandOverAt(m1, m', root, nil, ctx, z, l, c, ye, yc, r);
    }

    /** z's right subtree passes to y. */
    method TakeRight(z: RBNode, y: RBNode, ghost m: Mem) returns (ghost m': Mem)
      requires Synced(m) && z in m && y in m && z.right in m && z != y && z.right != y && z.right != z
      modifies y`right, {z.right}`parent
      ensures Synced(m') && m'.Keys == m.Keys && root == old(root)
      ensures m'[y] == m[y].(right := m[z].right) && m'[m[z].right] == m[m[z].right].(parent := y)
      ensures forall n :: n in m && n != y && n != m[z].right ==> m'[n] == m[n]
    {
      y.right := z.right;
      y.right.parent := y;
      m' := Snapshot(m.Keys);
    }

    method SetParent(x: RBNode, y: RBNode, ghost m: Mem) returns (ghost m': Mem)
      requires Synced(m) && x in m
      modifies x`parent
      ensures Synced(m') && m'.Keys == m.Keys && m' == m[x := m[x].(parent := y)] && root == old(root)
    {
      x.parent := y;
      m' := m[x := m[x].(parent := y)];
    }

    /** The successor y leaves its place deep in z's right subtree and takes over that subtree. */
    method DetachFar(z: RBNode, y: RBNode, ghost m: Mem, ghost up: Ctx, ghost t: Tree, ghost c: Ctx, ghost k: nat,
        ghost s: Tree)
      returns (ghost m': Mem)
      requires Synced(m) && At(m, root, nil, c, s) && s.Node? && s.l.Leaf? && y == s.e.n
      requires t.Node? && z == t.e.n && Spine(c, k) && k > 0 && Above(c, k) == InRight(up, t.e, t.c, t.l)
      modifies this`root, m.Keys
      ensures Synced(m') && m'.Keys == m.Keys && m'[nil].color == m[nil].color
      ensures Ready(m', root, nil, up, t.e, t.l, t.c, s.e, s.c, Below(c, k, s.r), c.e.n)
      ensures s.r.Leaf? ==> m'[nil].parent == c.e.n
    {
      hide At, HoleAt, Ready, Spine, Above, Below, Plug, CtxIds, Ids, Linked, Apart;
      FarOut(m, root, nil, up, t, c, k, s);
      ghost var r, t' := Below(c, k, s.r), Node(t.l, t.e, t.c, Below(c, k, s.r));
      m' := TransplantChild(y, y.right, m, c, s, s.r);
      HoleIsAt(m', root, nil, c, s.r);
      FarIn(m', root, nil, up, t, c, k, s.r);
      OwnIds(t', r);
      ghost var m1 := m';
      m' := TakeRight(z, y, m');
      ReadyFar(m1, m', root, nil, up, t', s.e, s.c, c.e.n);
    }

    /** A node z with two children is replaced by its successor y; x takes y's place. */
    method TakeOutInner(z: RBNode, ghost m: Mem, ghost ctx: Ctx, ghost t: Tree)
      returns (x: RBNode, yColor: Color, ghost m': Mem, ghost ctx': Ctx, ghost s: Tree)
      requires Synced(m) && At(m, root, nil, ctx, t) && t.Node? && t.l.Node? && t.r.Node? && z == t.e.n
      requires IsRedBlack(Plug(ctx, t)) && Ascending(InOrder(Plug(ctx, t)))
      modifies this`root, m.Keys
      ensures Synced(m') && m'.Keys == m.Keys && m'[nil].color == m[nil].color
      ensures HoleAt(m', root, nil, ctx', s) && x == Ptr(s, nil) && Vacated(ctx', s, yColor)
      ensures Without(InOrder(Plug(ctx', s)), InOrder(Plug(ctx, t)), t.e)
    {
      ChildApart(m, root, nil, ctx, t, t.r);
      ghost var up := InRight(ctx, t.e, t.c, t.l);
      FocusAt(m, root, nil, up, t.r);
      var y;
      ghost var c, k, ys;
      y, c, k, ys := WalkLeft(z.right, m, up, t.r);
      NearOrFar(m, root, nil, c, k, ys);
      InnerRemoval(ctx, t, c, k, ys);
      yColor, x := y.color, y.right;
      if y.parent == z {
        m' := SetParent(x, y, m);
        ReadyNear(m, m', root, nil, ctx, t);
      } else {
        m' := DetachFar(z, y, m, ctx, t, c, k, ys);
      }
      s, ctx' := ys.r, Replace(c, k, ys.e);
      ghost var r := Below(c, k, s);
      m' := Promote(z, y, m', ctx, t.e, t.l, t.c, ys.e, ys.c, r, c.e.n);
      FocusAt(m', root, nil, InRight(ctx, ys.e, t.c, t.l), r);
      AboveAt(m', root, nil, ctx', k, s);
      if s.Node? { LinksAt(m', root, nil, ctx', s); }
    }

    /** With one child at most, that child takes the place of z. */
    method TakeOutOver(z: RBNode, v: RBNode, ghost m: Mem, ghost ctx: Ctx, ghost t: Tree, ghost s: Tree)
      returns (ghost m': Mem)
      requires Synced(m) && At(m, root, nil, ctx, t) && t.Node? && z == t.e.n && v == Ptr(s, nil)
      requires (t.l.Leaf? && s == t.r) || (t.r.Leaf? && s == t.l)
      requires IsRedBlack(Plug(ctx, t)) && Ascending(InOrder(Plug(ctx, t)))
      modifies this`root, m.Keys
      ensures Synced(m') && m'.Keys == m.Keys && m'[nil].color == m[nil].color
      ensures HoleAt(m', root, nil, ctx, s) && Vacated(ctx, s, t.c)
      ensures Without(InOrder(Plug(ctx, s)), InOrder(Plug(ctx, t)), t.e)
    {
      hide Plug, InOrder, Ascending, IsRedBlack, At, HoleAt, Vacated, Without, Balanced, NoRedRed, CtxBalanced,
        CtxNoRedRed;
      RemoveColors(ctx, t, s);
      DropOnlyChild(ctx, t, s);
      VacatedColors(ctx, s, t.c);
      m' := TransplantChild(z, v, m, ctx, t, s);
    }

    /** The node z leaves the tree; x takes the vacated place, which has lost
        a node of colour yColor. */
    method TakeOut(z: RBNode, ghost m: Mem, ghost ctx: Ctx, ghost t: Tree)
      returns (x: RBNode, yColor: Color, ghost m': Mem, ghost ctx': Ctx, ghost s: Tree)
      requires Synced(m) && At(m, root, nil, ctx, t) && t.Node? && z == t.e.n
      requires IsRedBlack(Plug(ctx, t)) && Ascending(InOrder(Plug(ctx, t)))
      modifies this`root, m.Keys
      ensures Synced(m') && m'.Keys == m.Keys && m'[nil].color == m[nil].color
      ensures HoleAt(m', root, nil, ctx', s) && x == Ptr(s, nil) && Vacated(ctx', s, yColor)
      ensures Without(InOrder(Plug(ctx', s)), InOrder(Plug(ctx, t)), t.e)
    {
      hide Plug, InOrder, Ascending, IsRedBlack, At, HoleAt, Vacated, Without, Balanced, NoRedRed, CtxBalanced,
        CtxNoRedRed;
      ChildApart(m, root, nil, ctx, t, t.l);
      ChildApart(m, root, nil, ctx, t, t.r);
      ChildrenAt(m, root, nil, ctx, t);
      if z.left == nil {
        yColor, x, s, ctx' := z.color, z.right, t.r, ctx;
        m' := TakeOutOver(z, z.right, m, ctx, t, s);
      } else if z.right == nil {
        yColor, x, s, ctx' := z.color, z.left, t.l, ctx;
        m' := TakeOutOver(z, z.left, m, ctx, t, s);
      } else {
        x, yColor, m', ctx', s := TakeOutInner(z, m, ctx, t);
      }
    }

    /** Deletes a key if it is present. */
    method Delete(key: int)
      requires Valid()
      modifies this, mem.Keys
      ensures Valid() && mem.Keys <= old(mem.Keys)
      ensures Model() == old(Model()) - {key}
    {
      var z, y;
      ghost var ctx, t;
      z, y, ctx, t := Locate(key);
      if z == nil {
        SearchFailed(ctx, key);
        return;
      }
      DeleteNode(z, ctx, t);
    }

    method DeleteNode(z: RBNode, ghost ctx: Ctx, ghost t: Tree)
      requires Valid() && At(mem, root, nil, ctx, t) && t.Node? && z == t.e.n && Plug(ctx, t) == shape
      modifies this, mem.Keys
      ensures Valid() && mem.Keys <= old(mem.Keys)
      ensures Model() == old(Model()) - {t.e.key}
    {
      hide Plug, InOrder, Ascending, IsRedBlack, HoleAt, Vacated, Linked, LinkedCtx, MapOf, First;
      SearchFound(ctx, t);
      ghost var m0, shape0 := mem, shape;
      var x, yColor;
      ghost var m, z', s, T;
      // framing: the tree object itself is none of its nodes
      ghost var known: set<object> := mem.Keys;
      assert this !in known;
      x, yColor, m, z', s := TakeOut(z, mem, ctx, t);
      assert size == old(size);
      known := m.Keys;
      assert this !in known;
      m, T := Repair(x, yColor, m, z', s);
      DroppedNode(m0, shape0, nil, T, t.e, nil);
      ForgetAt(m, root, nil, T, z);
      Uncount(m - {z}, T);
    }

    method Repair(x: RBNode, yColor: Color, ghost m: Mem, ghost ctx: Ctx, ghost s: Tree)
      returns (ghost m': Mem, ghost T: Tree)
      requires Synced(m) && HoleAt(m, root, nil, ctx, s) && x == Ptr(s, nil) && Vacated(ctx, s, yColor)
      requires nil in m && m[nil].color == Black
      modifies this`root, m.Keys
      ensures Synced(m') && m'.Keys == m.Keys && nil in m' && m'[nil].color == Black
      ensures At(m', root, nil, Top, T) && IsRedBlack(T) && InOrder(T) == InOrder(Plug(ctx, s))
    {
      m', T := m, Plug(ctx, s);
      if yColor == Black {
        m', T := DeleteFixup(x, m, ctx, s);
      } else {
        PlugAt(m, root, nil, ctx, s);
      }
    }

    /** Counts the removed node and finds the cached minimum again. */
    method Uncount(ghost m: Mem, ghost T: Tree)
      requires Synced(m) && m.Keys == Ids(T) + {nil} && At(m, root, nil, Top, T) && m[nil].color == Black
      requires IsRedBlack(T) && Ascending(InOrder(T)) && size == |InOrder(T)| + 1
      modifies this`size, this`leftmost, this`mem, this`shape
      ensures Valid() && mem == m && shape == T
    {
      size := size - 1;
      leftmost := LeastNode(m, T);
      mem, shape := m, T;
    }

    method LeastNode(ghost m: Mem, ghost T: Tree) returns (l: RBNode)
      requires Synced(m) && At(m, root, nil, Top, T)
      ensures l == First(InOrder(T), nil)
    {
      l := root;
      if root != nil {
        ghost var z, k, s;
        l, z, k, s := WalkLeft(root, m, Top, T);
        LeastIsFirst(z, k, s, nil);
      }
    }

    // ---- reading

    method Search(key: int) returns (r: RBNode?)
      requires Valid()
      ensures r == null <==> key !in Model()
      ensures r != null ==> r in mem && r != nil && r.key == key && r.val == Model()[key]
    {
      var x, y;
      ghost var ctx, t;
      x, y, ctx, t := Locate(key);
      if x == nil {
        SearchFailed(ctx, key);
        return null;
      }
      SearchFound(ctx, t);
      return x;
    }

    /** The least key, from the cache. */
    method Minimum() returns (r: RBNode?)
      requires Valid()
      ensures r == null <==> Model() == map[]
      ensures r != null ==> r.key in Model() && r.val == Model()[r.key] && forall k :: k in Model() ==> r.key <= k
    {
      MapOfLookup(InOrder(shape));
      EntriesAt(mem, shape, nil, nil);
      if leftmost == nil { return null; }
      assert InOrder(shape)[0].key in Model();
      return leftmost;
    }

    /** The node with the next greater key, or null. */
    method Successor(node: RBNode) returns (r: RBNode?)
      requires Valid() && node in mem && node != nil
      ensures r == null ==> forall k :: k in Model() ==> k <= node.key
      ensures r != null ==> r in mem && r.key in Model() && node.key < r.key
      ensures r != null ==> forall k :: k in Model() && node.key < k ==> r.key <= k
    {
      ghost var z, t := PlaceOf(Top, shape, node);
      PlugAt(mem, root, nil, z, t);
      AroundEntry(z, t);
      KeysAfter(Before(z) + InOrder(t.l), t.e, InOrder(t.r) + After(z));
      r := NextNode(node, z, t);
    }

    method NextNode(start: RBNode, ghost z0: Ctx, ghost t0: Tree) returns (r: RBNode?)
      requires Synced(mem) && At(mem, root, nil, z0, t0) && t0.Node? && start == t0.e.n
      ensures r == null <==> InOrder(t0.r) + After(z0) == []
      ensures r != null ==> r in mem && r.key == (InOrder(t0.r) + After(z0))[0].key
    {
      ChildrenAt(mem, root, nil, z0, t0);
      ChildApart(mem, root, nil, z0, t0, t0.r);
      if start.right != nil {
        ghost var up := InRight(z0, t0.e, t0.c, t0.l);
        FocusAt(mem, root, nil, up, t0.r);
        var x;
        ghost var c, k, s;
        x, c, k, s := WalkLeft(start.right, mem, up, t0.r);
        BelowInOrder(c, k, s);
        LinksAt(mem, root, nil, c, s);
        return x;
      }
      r := ClimbFrom(start, z0, t0);
    }

    method ClimbFrom(start: RBNode, ghost z0: Ctx, ghost t0: Tree) returns (r: RBNode?)
      requires Synced(mem) && At(mem, root, nil, z0, t0) && t0.Node? && start == t0.e.n
      ensures r == null <==> After(z0) == []
      ensures r != null ==> r in mem && r.key == After(z0)[0].key
    {
      ParentAt(mem, root, nil, z0, t0);
      var node, y := start, start.parent;
      ghost var z, t := z0, t0;
      while y != nil && node == y.right
        invariant At(mem, root, nil, z, t) && t.Node? && node == t.e.n && y == Up(z, nil)
        invariant After(z) == After(z0)
        decreases z
      {
        ParentAt(mem, root, nil, z, t);
        node := y;
        y := y.parent;
        z, t := z.up, Parent(z, t);
      }
      ParentAt(mem, root, nil, z, t);
      if y == nil { return null; }
      SiblingAt(mem, root, nil, z, t);
      return y;
    }

    /** The number of black nodes on every path below n, the sentinel included, or -1 if
        the paths differ or a red node has a red child. Parent fields are not read. */
    method CheckBlackHeight(n: RBNode, ghost t: Tree) returns (bh: int)
      requires Synced(mem) && LinkedDown(mem, t, nil) && n == Ptr(t, nil)
      ensures bh == if Balanced(t) && NoRedRed(t) then BlackHeight(t) + 1 else -1
      decreases t
    {
      if n == nil { return 1; }
      var lh := CheckBlackHeight(n.left, t.l);
      var rh := CheckBlackHeight(n.right, t.r);
      if lh < 0 || rh < 0 || lh != rh { return -1; }
      if n.color == Red && ((n.left != nil && n.left.color == Red) || (n.right != nil && n.right.color == Red)) {
        return -1;
      }
      return lh + if n.color == Black then 1 else 0;
    }

    /** Whatever the parent fields hold. */
    method IsValid() returns (b: bool)
      requires Synced(mem) && LinkedDown(mem, shape, nil) && root == Ptr(shape, nil)
      ensures b <==> IsRedBlack(shape)
    {
      if root == nil { return true; }
      if root.color == Red { return false; }
      var bh := CheckBlackHeight(root, shape);
      return bh > 0;
    }

    /** Every tree the operations produce passes the check. */
    lemma ValidIsChecked()
      requires Valid()
      ensures LinkedDown(mem, shape, nil) && root == Ptr(shape, nil) && IsRedBlack(shape)
    {
      LinkedIsDown(mem, shape, nil, nil);
    }

    /** size counts the stored keys, and the height is at most 2 log2(size + 1), here
        without the logarithm. */
    lemma HeightIsLogarithmic()
      requires Valid()
      ensures size == |Model()|
      ensures Pow2(Height(shape)) <= (size + 1) * (size + 1)
    {
      MapOfSize(InOrder(shape));
      HeightBound(shape);
    }
  }
}
