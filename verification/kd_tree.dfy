/** The two-dimensional k-d tree: insertion and nearest-neighbour search. Coordinates are
    exact reals. */
module KdTrees {

  class KDNode {
    const x: real
    const y: real
    const val: int
    var left: KDNode?
    var right: KDNode?

    constructor (x: real, y: real, val: int)
      ensures this.x == x && this.y == y && this.val == val && left == null && right == null
    {
      this.x := x;
      this.y := y;
      this.val := val;
      left := null;
      right := null;
    }
  }

  datatype Tree = Leaf | Node(l: Tree, n: KDNode, r: Tree)

  ghost function Top(t: Tree): KDNode? {
    if t.Leaf? then null else t.n
  }

  ghost function Ids(t: Tree): set<KDNode> {
    if t.Leaf? then {} else Ids(t.l) + {t.n} + Ids(t.r)
  }

  ghost predicate Distinct(t: Tree) {
    t.Node? ==> t.n !in Ids(t.l) && t.n !in Ids(t.r) && Ids(t.l) !! Ids(t.r) && Distinct(t.l) && Distinct(t.r)
  }

  datatype Kids = Kids(left: KDNode?, right: KDNode?)

  /** What the child pointers of every node are. */
  type Wires = map<KDNode, Kids>

  ghost predicate Synced(m: Wires)
    reads m.Keys
  {
    forall p :: p in m ==> p.left == m[p].left && p.right == m[p].right
  }

  /** The pointers of the nodes of t are those of t. */
  ghost predicate Wired(m: Wires, t: Tree) {
    t.Node? ==> t.n in m && m[t.n] == Kids(Top(t.l), Top(t.r)) && Wired(m, t.l) && Wired(m, t.r)
  }

  /** The nodes of s are known to both, and say the same. */
  ghost predicate SameOn(m: Wires, now: Wires, s: set<KDNode>) {
    forall p :: p in s ==> p in m && p in now && now[p] == m[p]
  }

  lemma {:induction false} WiredFrame(m: Wires, now: Wires, t: Tree)
    requires Wired(m, t) && SameOn(m, now, Ids(t))
    ensures Wired(now, t)
  {
    if t.Node? {
      WiredFrame(m, now, t.l);
      WiredFrame(m, now, t.r);
    }
  }

  lemma {:induction false} WiredIn(m: Wires, t: Tree)
    requires Wired(m, t)
    ensures Ids(t) <= m.Keys
  {
    if t.Node? {
      WiredIn(m, t.l);
      WiredIn(m, t.r);
    }
  }

  /** The axis alternates with the depth. */
  function Coord(n: KDNode, depth: nat): real {
    if depth % 2 == 0 then n.x else n.y
  }

  ghost predicate AllBefore(s: set<KDNode>, n: KDNode, depth: nat) {
    forall p :: p in s ==> Coord(p, depth) < Coord(n, depth)
  }

  ghost predicate NoneBefore(s: set<KDNode>, n: KDNode, depth: nat) {
    forall p :: p in s ==> Coord(p, depth) >= Coord(n, depth)
  }

  ghost predicate Split(t: Tree, depth: nat)
    decreases t
  {
    t.Node? ==>
      && AllBefore(Ids(t.l), t.n, depth)
      && NoneBefore(Ids(t.r), t.n, depth)
      && Split(t.l, depth + 1) && Split(t.r, depth + 1)
  }

  lemma Parts(m: Wires, t: Tree, depth: nat)
    requires t.Node? && Wired(m, t) && Split(t, depth)
    ensures t.n in m && m[t.n] == Kids(Top(t.l), Top(t.r)) && Wired(m, t.l) && Wired(m, t.r)
    ensures Split(t.l, depth + 1) && Split(t.r, depth + 1) && Ids(t) == Ids(t.l) + {t.n} + Ids(t.r)
    ensures AllBefore(Ids(t.l), t.n, depth)
    ensures NoneBefore(Ids(t.r), t.n, depth)
  {
  }

  lemma DistinctParts(t: Tree)
    requires t.Node? && Distinct(t)
    ensures t.n !in Ids(t.l) && t.n !in Ids(t.r) && Ids(t.l) !! Ids(t.r) && Distinct(t.l) && Distinct(t.r)
  {
  }

  /** Left and right parts under n, whose pointers lead to them. */
  lemma Joined(m: Wires, l: Tree, n: KDNode, r: Tree, depth: nat)
    requires n in m && m[n] == Kids(Top(l), Top(r)) && Wired(m, l) && Wired(m, r)
    requires Split(l, depth + 1) && Split(r, depth + 1)
    requires n !in Ids(l) && n !in Ids(r) && Ids(l) !! Ids(r) && Distinct(l) && Distinct(r)
    requires AllBefore(Ids(l), n, depth)
    requires NoneBefore(Ids(r), n, depth)
    ensures var t := Node(l, n, r); Wired(m, t) && Distinct(t) && Split(t, depth) && Ids(t) == Ids(l) + {n} + Ids(r)
  {
  }

  lemma Single(m: Wires, n: KDNode, depth: nat)
    requires n in m && m[n] == Kids(null, null)
    ensures var t := Node(Leaf, n, Leaf); Wired(m, t) && Distinct(t) && Split(t, depth) && Ids(t) == {n}
    ensures Ids(Leaf) == {}
  {
  }

  /** t with a new node p where the search for it ends. */
  ghost function Planted(t: Tree, p: KDNode, depth: nat): Tree
    decreases t
  {
    if t.Leaf? then Node(Leaf, p, Leaf)
    else if Coord(p, depth) < Coord(t.n, depth) then Node(Planted(t.l, p, depth + 1), t.n, t.r)
    else Node(t.l, t.n, Planted(t.r, p, depth + 1))
  }

  lemma PlantedStep(t: Tree, p: KDNode, depth: nat)
    ensures t.Leaf? ==> Planted(t, p, depth) == Node(Leaf, p, Leaf)
    ensures t.Node? && Coord(p, depth) < Coord(t.n, depth) ==>
      Planted(t, p, depth) == Node(Planted(t.l, p, depth + 1), t.n, t.r)
    ensures t.Node? && Coord(p, depth) >= Coord(t.n, depth) ==>
      Planted(t, p, depth) == Node(t.l, t.n, Planted(t.r, p, depth + 1))
  {
  }

  /** Among the nodes of s, one null pointer of q has become p, and no other pointer has
      changed. */
  ghost predicate OneGrown(m: Wires, now: Wires, s: set<KDNode>, q: KDNode, p: KDNode) {
    && q in s && q in m && q in now && SameOn(m, now, s - {q})
    && ((m[q].left == null && now[q] == Kids(p, m[q].right)) || (m[q].right == null && now[q] == Kids(m[q].left, p)))
  }

  lemma {:induction false} WiredAlike(m: Wires, now: Wires, t: Tree)
    requires Wired(m, t) && Wired(now, t)
    ensures SameOn(m, now, Ids(t))
  {
    if t.Node? {
      WiredAlike(m, now, t.l);
      WiredAlike(m, now, t.r);
    }
  }

  /** Planting into a tree that is not empty changes exactly one pointer of its nodes, and
      that one from null. */
  lemma {:induction false} PlantedPointers(m: Wires, now: Wires, t: Tree, p: KDNode, depth: nat) returns (q: KDNode)
    requires t.Node? && Distinct(t) && Wired(m, t) && Wired(now, Planted(t, p, depth))
    ensures OneGrown(m, now, Ids(t), q, p)
    decreases t
  {
    var left := Coord(p, depth) < Coord(t.n, depth);
    var s, o := if left then t.l else t.r, if left then t.r else t.l;
    PlantedStep(t, p, depth);
    PlantedStep(s, p, depth + 1);
    WiredAlike(m, now, o);
    if s.Leaf? {
      q := t.n;
    } else {
      q := PlantedPointers(m, now, s, p, depth + 1);
    }
  }

  function Sq(a: real): real {
    a * a
  }

  lemma SqMonotone(a: real, b: real)
    requires 0.0 <= a <= b || b <= a <= 0.0 || (b <= -a && 0.0 <= a)
    ensures Sq(a) <= Sq(b)
  {
    var c, d := if a < 0.0 then -a else a, if b < 0.0 then -b else b;
    assert 0.0 <= c <= d;
    assert c * c <= c * d <= d * d;
    assert Sq(a) == c * c && Sq(b) == d * d;
  }

  lemma SqNonNegative(a: real)
    ensures Sq(a) >= 0.0
  {
    if a >= 0.0 { assert a * a >= 0.0; } else { assert a * a == (-a) * (-a) >= 0.0; }
  }

  function Dist2(x0: real, y0: real, x1: real, y1: real): real {
    Sq(x0 - x1) + Sq(y0 - y1)
  }

  function DistTo(p: KDNode, qx: real, qy: real): real {
    Dist2(qx, qy, p.x, p.y)
  }

  /** A squared distance, or none found yet. */
  datatype Distance = Infinite | Finite(d: real)

  predicate Less(d: real, b: Distance) {
    b.Infinite? || d < b.d
  }

  /** No point of ps is closer than b. */
  ghost predicate NoneCloser(ps: set<KDNode>, qx: real, qy: real, b: Distance) {
    forall p :: p in ps ==> !Less(DistTo(p, qx, qy), b)
  }

  /** Points beyond the splitting line are at least as far as the line. */
  lemma BeyondTheLine(ps: set<KDNode>, n: KDNode, depth: nat, qx: real, qy: real, b: Distance)
    requires var q := if depth % 2 == 0 then qx else qy;
      if q - Coord(n, depth) < 0.0 then NoneBefore(ps, n, depth) else AllBefore(ps, n, depth)
    requires var q := if depth % 2 == 0 then qx else qy; !Less(Sq(q - Coord(n, depth)), b)
    ensures NoneCloser(ps, qx, qy, b)
  {
    var q := if depth % 2 == 0 then qx else qy;
    forall p | p in ps
      ensures !Less(DistTo(p, qx, qy), b)
    {
      SqMonotone(q - Coord(n, depth), q - Coord(p, depth));
      SqNonNegative(qx - p.x);
      SqNonNegative(qy - p.y);
    }
  }

  // ---- inserting ---------------------------------------------------------------------------

  method SetLeft(n: KDNode, k: KDNode, ghost m: Wires) returns (ghost now: Wires)
    requires Synced(m) && n in m
    modifies n`left
    ensures now == m[n := Kids(k, m[n].right)] && Synced(now)
  {
    n.left := k;
    now := m[n := Kids(k, m[n].right)];
  }

  method SetRight(n: KDNode, k: KDNode, ghost m: Wires) returns (ghost now: Wires)
    requires Synced(m) && n in m
    modifies n`right
    ensures now == m[n := Kids(m[n].left, k)] && Synced(now)
  {
    n.right := k;
    now := m[n := Kids(m[n].left, k)];
  }

  /** Below n, or in its place if there is none; r is what hangs there afterwards. */
  method InsertFrom(n: KDNode?, x: real, y: real, val: int, depth: nat, ghost m: Wires, ghost t: Tree)
    returns (r: KDNode, ghost now: Wires, ghost u: Tree, ghost added: KDNode)
    requires n == Top(t) && Synced(m) && Wired(m, t) && Distinct(t) && Split(t, depth)
    modifies m.Keys
    ensures r == Top(u) && Synced(now) && Wired(now, u) && Distinct(u) && Split(u, depth)
    ensures fresh(added) && added.x == x && added.y == y && added.val == val && now.Keys == m.Keys + {added}
    ensures SameOn(m, now, m.Keys - Ids(t))
    ensures Ids(u) == Ids(t) + {added} && added !in m
    ensures u == Planted(t, added, depth)
    decreases t
  {
    hide Planted, Wired, Distinct, Split, Ids, AllBefore, NoneBefore, SameOn;
    if n == null {
      r := new KDNode(x, y, val);
      now := m[r := Kids(null, null)];
      Single(now, r, depth);
      NewNode(m, r, now[r], Ids(t));
      PlantedStep(t, r, depth);
      return r, now, Node(Leaf, r, Leaf), r;
    }
    r := n;
    Parts(m, t, depth);
    DistinctParts(t);
    var cmp := if depth % 2 == 0 then x - n.x else y - n.y;
    ghost var mid, c;
    var k;
    if cmp < 0.0 {
      k, mid, c, added := InsertFrom(n.left, x, y, val, depth + 1, m, t.l);
      Grown(m, n, t.l, t.r, mid, c, added);
      now := SetLeft(n, k, mid);
      u := Node(c, n, t.r);
      Elsewhere(m, mid, n, now[n], Ids(t.l), Ids(t));
      LeftReplaced(m, t, depth, mid, c, now, added);
    } else {
      k, mid, c, added := InsertFrom(n.right, x, y, val, depth + 1, m, t.r);
      Grown(m, n, t.r, t.l, mid, c, added);
      now := SetRight(n, k, mid);
      u := Node(t.l, n, c);
      Elsewhere(m, mid, n, now[n], Ids(t.r), Ids(t));
      RightReplaced(m, t, depth, mid, c, now, added);
    }
    PlantedStep(t, added, depth);
  }

  lemma NewNode(m: Wires, n: KDNode, k: Kids, s: set<KDNode>)
    requires n !in m
    ensures SameOn(m, m[n := k], m.Keys - s)
  {
  }

  lemma Elsewhere(m: Wires, mid: Wires, n: KDNode, k: Kids, s: set<KDNode>, t: set<KDNode>)
    requires SameOn(m, mid, m.Keys - s) && s <= t && n in t
    ensures SameOn(m, mid[n := k], m.Keys - t)
  {
  }

  /** A child s of n has become c, one node larger; the other child o is as it was. */
  lemma Grown(m: Wires, n: KDNode, s: Tree, o: Tree, mid: Wires, c: Tree, added: KDNode)
    requires n in m && Wired(m, s) && Wired(m, o) && n !in Ids(s) && n !in Ids(o) && Ids(s) !! Ids(o)
    requires Wired(mid, c) && Ids(c) == Ids(s) + {added} && added !in m
    requires SameOn(m, mid, m.Keys - Ids(s))
    ensures n in mid && mid[n] == m[n] && Wired(mid, o) && n !in Ids(c) && Ids(c) !! Ids(o)
    ensures Ids(o) <= mid.Keys && Ids(c) <= mid.Keys
  {
    hide Wired, Ids, SameOn;
    WiredIn(m, s);
    WiredIn(m, o);
    WiredIn(mid, c);
    Disjoint(m.Keys, n, Ids(s), Ids(o), added, Ids(c));
    SameOnPart(m, mid, m.Keys - Ids(s), Ids(o));
    SameAt(m, mid, m.Keys - Ids(s), n);
    WiredFrame(m, mid, o);
    WiredIn(mid, o);
  }

  lemma Disjoint(known: set<KDNode>, n: KDNode, s: set<KDNode>, o: set<KDNode>, added: KDNode, c: set<KDNode>)
    requires n in known && s <= known && o <= known && s !! o && n !in s && n !in o && added !in known
    requires c == s + {added}
    ensures n !in c && c !! o && o <= known - s && n in known - s
  {
  }

  lemma SameAt(m: Wires, now: Wires, s: set<KDNode>, p: KDNode)
    requires SameOn(m, now, s) && p in s
    ensures p in m && p in now && now[p] == m[p]
  {
  }

  lemma SameOnPart(m: Wires, now: Wires, s: set<KDNode>, r: set<KDNode>)
    requires SameOn(m, now, s) && r <= s
    ensures SameOn(m, now, r)
  {
  }

  lemma LeftReplaced(m: Wires, t: Tree, depth: nat, mid: Wires, c: Tree, now: Wires, added: KDNode)
    requires t.Node? && Wired(mid, c) && Wired(mid, t.r) && Split(c, depth + 1) && Split(t, depth) && Distinct(c)
    requires Distinct(t)
    requires t.n !in Ids(c) && t.n !in Ids(t.r) && Ids(c) !! Ids(t.r) && now == mid[t.n := Kids(Top(c), Top(t.r))]
    requires Ids(t.r) <= mid.Keys && Ids(c) <= mid.Keys
    requires Ids(c) == Ids(t.l) + {added} && Coord(added, depth) < Coord(t.n, depth)
    ensures var u := Node(c, t.n, t.r);
      Wired(now, u) && Distinct(u) && Split(u, depth) && Ids(u) == Ids(t) + {added}
  {
    WiredFrame(mid, now, c);
    WiredFrame(mid, now, t.r);
    assert AllBefore(Ids(c), t.n, depth);
    Joined(now, c, t.n, t.r, depth);
    assert Ids(t) == Ids(t.l) + {t.n} + Ids(t.r);
  }

  lemma RightReplaced(m: Wires, t: Tree, depth: nat, mid: Wires, c: Tree, now: Wires, added: KDNode)
    requires t.Node? && Wired(mid, c) && Wired(mid, t.l) && Split(c, depth + 1) && Split(t, depth) && Distinct(c)
    requires Distinct(t)
    requires t.n !in Ids(c) && t.n !in Ids(t.l) && Ids(c) !! Ids(t.l) && now == mid[t.n := Kids(Top(t.l), Top(c))]
    requires Ids(t.l) <= mid.Keys && Ids(c) <= mid.Keys
    requires Ids(c) == Ids(t.r) + {added} && Coord(added, depth) >= Coord(t.n, depth)
    ensures var u := Node(t.l, t.n, c);
      Wired(now, u) && Distinct(u) && Split(u, depth) && Ids(u) == Ids(t) + {added}
  {
    WiredFrame(mid, now, c);
    WiredFrame(mid, now, t.l);
    assert NoneBefore(Ids(c), t.n, depth);
    Joined(now, t.l, t.n, c, depth);
    assert Ids(t) == Ids(t.l) + {t.n} + Ids(t.r);
  }

  lemma OneMore(s: set<KDNode>, p: KDNode, u: set<KDNode>)
    requires p !in s && u == s + {p}
    ensures |u| == |s| + 1
  {
  }

  lemma NoPoints()
    ensures Ids(Leaf) == {}
  {
  }

  lemma Square(a: real)
    ensures a * a == Sq(a)
  {
  }

  /** The distance is the Euclidean one, squared. */
  lemma Euclidean(p: KDNode, x: real, y: real)
    ensures DistTo(p, x, y) == (p.x - x) * (p.x - x) + (p.y - y) * (p.y - y)
  {
    Mirrored(x, p.x);
    Mirrored(y, p.y);
  }

  lemma Mirrored(a: real, b: real)
    ensures Sq(a - b) == (b - a) * (b - a)
  {
    var d := a - b;
    assert b - a == -d && d * d == (-d) * (-d);
  }

  // ---- searching ---------------------------------------------------------------------------

  /** The search that skips nothing: the node, then the side of the query, then the other one,
      keeping the first of equally near points. */
  ghost function Exhaustive(t: Tree, qx: real, qy: real, depth: nat, best: KDNode?): KDNode?
    decreases t
  {
    if t.Leaf? then best
    else
      var b := if best == null || DistTo(t.n, qx, qy) < DistTo(best, qx, qy) then t.n else best;
      if (if depth % 2 == 0 then qx < t.n.x else qy < t.n.y)
      then Exhaustive(t.r, qx, qy, depth + 1, Exhaustive(t.l, qx, qy, depth + 1, b))
      else Exhaustive(t.l, qx, qy, depth + 1, Exhaustive(t.r, qx, qy, depth + 1, b))
  }

  lemma ExhaustiveStep(t: Tree, qx: real, qy: real, depth: nat, best: KDNode?)
    requires t.Node?
    ensures Exhaustive(t, qx, qy, depth, best) ==
      var b := if best == null || DistTo(t.n, qx, qy) < DistTo(best, qx, qy) then t.n else best;
      if (if depth % 2 == 0 then qx < t.n.x else qy < t.n.y)
      then Exhaustive(t.r, qx, qy, depth + 1, Exhaustive(t.l, qx, qy, depth + 1, b))
      else Exhaustive(t.l, qx, qy, depth + 1, Exhaustive(t.r, qx, qy, depth + 1, b))
  {
  }

  lemma ExhaustiveEnd(qx: real, qy: real, depth: nat, best: KDNode?)
    ensures Exhaustive(Leaf, qx, qy, depth, best) == best
  {
  }

  /** Where no point is closer there is nothing to find. */
  lemma {:induction false} NothingFound(t: Tree, qx: real, qy: real, depth: nat, best: KDNode?, b: Distance)
    requires NoneCloser(Ids(t), qx, qy, b)
    requires if best == null then b.Infinite? else b == Finite(DistTo(best, qx, qy))
    ensures Exhaustive(t, qx, qy, depth, best) == best
    decreases t
  {
    hide Dist2, Sq;
    if t.Node? {
      assert t.n in Ids(t);
      NothingFound(t.l, qx, qy, depth + 1, best, b);
      NothingFound(t.r, qx, qy, depth + 1, best, b);
    }
  }

  /** The best node so far, improved by what lies below n. */
  method NearestFrom(n: KDNode?, qx: real, qy: real, depth: nat, best0: KDNode?, bd0: Distance, ghost m: Wires,
      ghost t: Tree)
    returns (best: KDNode?, bd: Distance)
    requires n == Top(t) && Synced(m) && Wired(m, t) && Split(t, depth)
    requires bd0.Infinite? <==> best0 == null
    requires best0 != null ==> bd0 == Finite(DistTo(best0, qx, qy))
    ensures bd.Infinite? <==> best == null
    ensures best != null ==> bd == Finite(DistTo(best, qx, qy)) && (best == best0 || best in Ids(t))
    ensures bd == bd0 || (bd.Finite? && Less(bd.d, bd0))
    ensures NoneCloser(Ids(t), qx, qy, bd)
    ensures best == Exhaustive(t, qx, qy, depth, best0)
    decreases t
  {
    hide Wired, Distinct, Split, Ids, Dist2, Sq, Exhaustive;
    best, bd := best0, bd0;
    if n == null {
      NoPoints();
      ExhaustiveEnd(qx, qy, depth, best0);
      return;
    }
    Parts(m, t, depth);
    ExhaustiveStep(t, qx, qy, depth, best0);
    var d2 := Dist2(qx, qy, n.x, n.y);
    if Less(d2, bd) { best, bd := n, Finite(d2); }
    var diff := if depth % 2 == 0 then qx - n.x else qy - n.y;
    var near := if diff < 0.0 then n.left else n.right;
    var far := if diff < 0.0 then n.right else n.left;
    ghost var nt, ft := if diff < 0.0 then t.l else t.r, if diff < 0.0 then t.r else t.l;
    best, bd := NearestFrom(near, qx, qy, depth + 1, best, bd, m, nt);
    if Less(diff * diff, bd) {
      best, bd := NearestFrom(far, qx, qy, depth + 1, best, bd, m, ft);
    } else {
      Square(diff);
      BeyondTheLine(Ids(ft), n, depth, qx, qy, bd);
      NothingFound(ft, qx, qy, depth + 1, best, bd);
    }
  }

  /** What holds between operations. */
  ghost predicate Consistent(root: KDNode?, m: Wires, t: Tree, size: nat)
    reads m.Keys
  {
    && root == Top(t) && Synced(m) && Wired(m, t) && Distinct(t) && Split(t, 0)
    && m.Keys == Ids(t) && size == |Ids(t)|
  }

  /** One more node in a consistent tree. */
  method InsertNode(n: KDNode?, x: real, y: real, val: int, ghost m: Wires, ghost t: Tree, ghost size: nat)
    returns (r: KDNode, ghost now: Wires, ghost u: Tree, ghost added: KDNode)
    requires Consistent(n, m, t, size)
    modifies m.Keys
    ensures Consistent(r, now, u, size + 1)
    ensures fresh(added) && added.x == x && added.y == y && added.val == val && now.Keys == m.Keys + {added}
    ensures Ids(u) == Ids(t) + {added} && u == Planted(t, added, 0)
  {
    hide Planted, Wired, Distinct, Split, Ids;
    r, now, u, added := InsertFrom(n, x, y, val, 0, m, t);
    OneMore(Ids(t), added, Ids(u));
  }

  class KDTree {
    var root: KDNode?
    var size: nat
    ghost var wires: Wires
    ghost var tree: Tree

    ghost predicate Valid()
      reads this, wires.Keys
    {
      Consistent(root, wires, tree, size)
    }

    ghost function Points(): set<KDNode>
      reads this
    {
      Ids(tree)
    }

    constructor ()
      ensures Valid() && Points() == {}
    {
      root := null;
      size := 0;
      wires := map[];
      tree := Leaf;
    }

    method Insert(x: real, y: real, val: int) returns (ghost added: KDNode)
      requires Valid()
      modifies this, wires.Keys
      ensures Valid() && size == old(size) + 1
      ensures fresh(added) && added.x == x && added.y == y && added.val == val
      ensures Points() == old(Points()) + {added} && tree == Planted(old(tree), added, 0)
    {
      hide Planted, Consistent, Ids;
      ghost var known: set<object> := wires.Keys;
      assert this !in known;
      var r; ghost var now, u;
      r, now, u, added := InsertNode(root, x, y, val, wires, tree, size);
      root := r;
      size := size + 1;
      wires, tree := now, u;
    }

    /** A stored point at the least distance, if there is any point: the one that a search
        through all points finds. */
    method Nearest(x: real, y: real) returns (best: KDNode?)
      requires Valid()
      ensures best == null <==> Points() == {}
      ensures best != null ==> best in Points()
      ensures best != null ==> forall p :: p in Points() ==>
        (best.x - x) * (best.x - x) + (best.y - y) * (best.y - y) <= (p.x - x) * (p.x - x) + (p.y - y) * (p.y - y)
      ensures best == Exhaustive(tree, x, y, 0, null)
    {
      hide Exhaustive, DistTo;
      var bd;
      best, bd := NearestFrom(root, x, y, 0, null, Infinite, wires, tree);
      if root != null { assert tree.n in Ids(tree); }
      if best != null {
        Euclidean(best, x, y);
        forall p | p in Points()
          ensures (best.x - x) * (best.x - x) + (best.y - y) * (best.y - y)
            <= (p.x - x) * (p.x - x) + (p.y - y) * (p.y - y)
        {
          Euclidean(p, x, y);
        }
      }
    }
  }
}
