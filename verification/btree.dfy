/** The B-tree operations on the nodes themselves. Every operation turns one stored tree
    into another; what the other holds is stated about the trees as values. */
module BTrees {
  import opened BTreeNodes
  import opened BTreeShape
  import opened BTreeGrowth
  import opened BTreeDeletion
  import opened BTreeMemory

  ghost predicate Synced(mem: Memory)
    reads mem.Keys
  {
    forall b :: b in mem ==> b.Says(mem[b])
  }

  /** t lies in the nodes that mem describes, and mem is up to date. */
  ghost predicate Holds(mem: Memory, t: Tree)
    reads mem.Keys
  {
    Synced(mem) && Stored(mem, t) && Distinct(Ids(t))
  }

  // ---- neighbouring children, as the nodes see them ----------------------------------------

  lemma KidCells(mem: Memory, t: Tree, i: nat)
    requires Stored(mem, t) && Distinct(Ids(t)) && i < |t.kids|
    ensures t.id in mem && mem[t.id] == CellOf(t)
    ensures t.kids[i].id in mem && mem[t.kids[i].id] == CellOf(t.kids[i]) && t.kids[i].id != t.id
    ensures Stored(mem, t.kids[i]) && Distinct(Ids(t.kids[i]))
    ensures |CellOf(t).kids| == |t.kids| && CellOf(t).kids[i] == t.kids[i].id
  {
    hide Stored, StoredAll, Ids, IdsAll, Distinct;
    Parts(mem, t, i);
    KidsOf(mem, t.kids[i]);
    IdsAround(t, i);
    Apart(t.id, IdsAll(t.kids[..i]), Ids(t.kids[i]), IdsAll(t.kids[i + 1..]));
    OwnId(t.kids[i]);
  }

  lemma OwnId(t: Tree)
    ensures t.id in Ids(t)
  {
  }

  lemma KidsOf(mem: Memory, t: Tree)
    requires Stored(mem, t)
    ensures t.id in mem && mem[t.id] == CellOf(t)
  {
  }

  lemma NeighboursDiffer(mem: Memory, t: Tree, i: nat)
    requires Stored(mem, t) && Distinct(Ids(t)) && i + 1 < |t.kids|
    ensures t.kids[i].id != t.kids[i + 1].id
  {
    hide Stored, StoredAll, Distinct;
    var k, r := t.kids[i], t.kids[i + 1..];
    assert r[0] == t.kids[i + 1];
    IdsAround(t, i);
    Apart(t.id, IdsAll(t.kids[..i]), Ids(k), IdsAll(r));
    assert t.kids[i + 1].id in IdsAll(r);
    OwnId(k);
  }

  lemma SplitStored(mem: Memory, t: Tree, i: nat, z: BTNode, now: Memory, h: nat, least: nat)
    requires Stored(mem, t) && Distinct(Ids(t)) && Splittable(t, i, h, least) && z !in mem
    requires var y := t.kids[i];
      now == mem[t.id := CellOf(Split(t, i, z))][y.id := CellOf(LowerHalf(y))][z := CellOf(UpperHalf(y, z))]
    ensures Became(mem, t, now, Split(t, i, z))
  {
    hide Stored, StoredAll, Ids, IdsAll, Distinct, CellOf, Shape, Became;
    var y := t.kids[i];
    var a, b, l, r := t.kids[..i], t.kids[i + 1..], LowerHalf(y), UpperHalf(y, z);
    assert t.kids == a + [y] + b;
    assert Split(t, i, z).kids == a + [l, r] + b;
    assert l.kids + r.kids == y.kids;
    SplitBecame(mem, t, now, Split(t, i, z), a, y, l, r, b);
  }

  lemma LentLeft(t: Tree, i: nat)
    requires 0 < i < |t.kids| && |t.kids| == |t.keys| + 1 && t.kids[i - 1].keys != []
    ensures var f := BorrowLeft(t, i);
      && f.id == t.id && |f.kids| == |t.kids|
      && f.kids == t.kids[..i - 1] + [f.kids[i - 1], f.kids[i]] + t.kids[i + 1..]
      && f.kids[i - 1].id == t.kids[i - 1].id && f.kids[i].id == t.kids[i].id
      && f.kids[i - 1].kids + f.kids[i].kids == t.kids[i - 1].kids + t.kids[i].kids
  {
    var f := BorrowLeft(t, i);
    TwoReplaced(t.kids, i - 1, f.kids[i - 1], f.kids[i]);
    LastMoves(t.kids[i - 1].kids, t.kids[i].kids);
  }

  lemma TwoReplaced(ts: seq<Tree>, i: nat, l: Tree, r: Tree)
    requires i + 1 < |ts|
    ensures ts[i := l][i + 1 := r] == ts[..i] + [l, r] + ts[i + 2..]
  {
  }

  lemma LastMoves(s: seq<Tree>, c: seq<Tree>)
    ensures s != [] ==> FrontOf(s) + ([LastOf(s)] + c) == s + c
    ensures s != [] ==> c + [s[0]] + RestOf(s) == c + s
  {
  }

  lemma LentRight(t: Tree, i: nat)
    requires i + 1 < |t.kids| && |t.kids| == |t.keys| + 1 && t.kids[i + 1].keys != []
    ensures var f := BorrowRight(t, i);
      && f.id == t.id && |f.kids| == |t.kids| && f.kids == t.kids[..i] + [f.kids[i], f.kids[i + 1]] + t.kids[i + 2..]
      && f.kids[i].id == t.kids[i].id && f.kids[i + 1].id == t.kids[i + 1].id
      && f.kids[i].kids + f.kids[i + 1].kids == t.kids[i].kids + t.kids[i + 1].kids
  {
    var f := BorrowRight(t, i);
    TwoReplaced(t.kids, i, f.kids[i], f.kids[i + 1]);
    LastMoves(t.kids[i + 1].kids, t.kids[i].kids);
  }

  lemma BorrowLeftStored(mem: Memory, t: Tree, i: nat, now: Memory)
    requires Stored(mem, t) && Distinct(Ids(t))
    requires 0 < i < |t.kids| && |t.kids| == |t.keys| + 1 && t.kids[i - 1].keys != []
    requires var f := BorrowLeft(t, i);
      now == mem[t.id := CellOf(f)][t.kids[i - 1].id := CellOf(f.kids[i - 1])][t.kids[i].id := CellOf(f.kids[i])]
    ensures Became(mem, t, now, BorrowLeft(t, i))
  {
    hide Stored, StoredAll, Ids, IdsAll, Distinct, CellOf, Became, BorrowLeft;
    var f := BorrowLeft(t, i);
    var a, b := t.kids[..i - 1], t.kids[i + 1..];
    assert t.kids == a + [t.kids[i - 1], t.kids[i]] + b;
    LentLeft(t, i);
    PairBecame(mem, t, now, f, a, t.kids[i - 1], t.kids[i], f.kids[i - 1], f.kids[i], b);
  }

  lemma BorrowRightStored(mem: Memory, t: Tree, i: nat, now: Memory)
    requires Stored(mem, t) && Distinct(Ids(t))
    requires i + 1 < |t.kids| && |t.kids| == |t.keys| + 1 && t.kids[i + 1].keys != []
    requires var f := BorrowRight(t, i);
      now == mem[t.id := CellOf(f)][t.kids[i].id := CellOf(f.kids[i])][t.kids[i + 1].id := CellOf(f.kids[i + 1])]
    ensures Became(mem, t, now, BorrowRight(t, i))
  {
    hide Stored, StoredAll, Ids, IdsAll, Distinct, CellOf, Became, BorrowRight;
    var f := BorrowRight(t, i);
    var a, b := t.kids[..i], t.kids[i + 2..];
    assert t.kids == a + [t.kids[i], t.kids[i + 1]] + b;
    LentRight(t, i);
    PairBecame(mem, t, now, f, a, t.kids[i], t.kids[i + 1], f.kids[i], f.kids[i + 1], b);
  }

  lemma MergeStored(mem: Memory, t: Tree, i: nat, now: Memory)
    requires Stored(mem, t) && Distinct(Ids(t)) && i + 1 < |t.kids| && |t.kids| == |t.keys| + 1
    requires var f := Merge(t, i); now == mem[t.id := CellOf(f)][t.kids[i].id := CellOf(f.kids[i])]
    ensures Became(mem, t, now, Merge(t, i))
  {
    hide Stored, StoredAll, Ids, IdsAll, Distinct, CellOf, Became;
    var f := Merge(t, i);
    var a, b := t.kids[..i], t.kids[i + 2..];
    assert t.kids == a + [t.kids[i], t.kids[i + 1]] + b;
    assert f.kids == a + [f.kids[i]] + b;
    MergeBecame(mem, t, now, f, a, t.kids[i], t.kids[i + 1], f.kids[i], b);
  }

  lemma TopsCut(ts: seq<Tree>, i: nat)
    requires i <= |ts|
    ensures Tops(ts[..i]) == Tops(ts)[..i] && Tops(ts[i..]) == Tops(ts)[i..]
  {
  }

  lemma TopsJoin(a: seq<Tree>, b: seq<Tree>)
    ensures Tops(a + b) == Tops(a) + Tops(b)
  {
  }

  lemma TopsSame(ts: seq<Tree>, us: seq<Tree>)
    requires |ts| == |us| && forall i :: 0 <= i < |ts| ==> ts[i].id == us[i].id
    ensures Tops(ts) == Tops(us)
  {
  }

  /** The cells around child i after borrowing, in the words of the nodes. */
  lemma BorrowLeftCells(t: Tree, i: nat)
    requires 0 < i < |t.kids| && |t.kids| == |t.keys| + 1 && t.kids[i - 1].keys != []
    requires (t.kids[i - 1].kids == []) == (t.kids[i].kids == [])
    requires t.kids[i - 1].kids == [] || |t.kids[i - 1].kids| == |t.kids[i - 1].keys| + 1
    ensures var f, cs, cc := BorrowLeft(t, i), CellOf(t.kids[i - 1]), CellOf(t.kids[i]);
      && CellOf(f) == Cell(t.keys[i - 1 := cs.keys[|cs.keys| - 1]], CellOf(t).kids)
      && CellOf(f.kids[i - 1]) == Cell(cs.keys[..|cs.keys| - 1], if cs.kids == [] then [] else cs.kids[..|cs.keys|])
      && CellOf(f.kids[i])
        == Cell([t.keys[i - 1]] + cc.keys, if cc.kids == [] then [] else [cs.kids[|cs.keys|]] + cc.kids)
  {
    var f, s, c := BorrowLeft(t, i), t.kids[i - 1], t.kids[i];
    TopsSame(f.kids, t.kids);
    if s.kids != [] {
      TopsCut(s.kids, |s.keys|);
      TopsJoin([LastOf(s.kids)], c.kids);
      assert Tops([LastOf(s.kids)]) == [LastOf(s.kids).id];
    }
  }

  lemma BorrowRightCells(t: Tree, i: nat)
    requires i + 1 < |t.kids| && |t.kids| == |t.keys| + 1 && t.kids[i + 1].keys != []
    requires (t.kids[i + 1].kids == []) == (t.kids[i].kids == [])
    ensures var f, cs, cc := BorrowRight(t, i), CellOf(t.kids[i + 1]), CellOf(t.kids[i]);
      && CellOf(f) == Cell(t.keys[i := cs.keys[0]], CellOf(t).kids)
      && CellOf(f.kids[i + 1]) == Cell(cs.keys[1..], if cs.kids == [] then [] else cs.kids[1..])
      && CellOf(f.kids[i]) == Cell(cc.keys + [t.keys[i]], if cc.kids == [] then [] else cc.kids + [cs.kids[0]])
  {
    var f, s, c := BorrowRight(t, i), t.kids[i + 1], t.kids[i];
    TopsSame(f.kids, t.kids);
    if s.kids != [] {
      TopsCut(s.kids, 1);
      TopsJoin(c.kids, [s.kids[0]]);
      assert Tops([s.kids[0]]) == [s.kids[0].id];
    }
  }

  lemma MergeCells(t: Tree, i: nat)
    requires i + 1 < |t.kids| && |t.kids| == |t.keys| + 1
    ensures var f, cl, cr := Merge(t, i), CellOf(t.kids[i]), CellOf(t.kids[i + 1]);
      && CellOf(f) == Cell(Drop(t.keys, i), Drop(CellOf(t).kids, i + 1))
      && CellOf(f.kids[i]) == Cell(cl.keys + [t.keys[i]] + cr.keys, cl.kids + cr.kids)
  {
  }

  lemma SplitCells(t: Tree, i: nat, z: BTNode, h: nat, least: nat)
    requires Splittable(t, i, h, least)
    ensures var s, y := Split(t, i, z), t.kids[i];
      && CellOf(s) == Cell(Insert(t.keys, i, y.keys[T - 1]), Insert(CellOf(t).kids, i + 1, z))
      && CellOf(LowerHalf(y)) == Cell(y.keys[..T - 1], if CellOf(y).kids == [] then [] else CellOf(y).kids[..T])
      && CellOf(UpperHalf(y, z)) == Cell(y.keys[T..], if CellOf(y).kids == [] then [] else CellOf(y).kids[T..])
  {
    var ts, y := t.kids, t.kids[i];
    SplitTops(ts, i, LowerHalf(y), UpperHalf(y, z));
    if y.kids != [] { TopsCut(y.kids, T); }
  }

  lemma SplitTops(ts: seq<Tree>, i: nat, l: Tree, r: Tree)
    requires i < |ts| && l.id == ts[i].id
    ensures Tops(Insert(ts[i := l], i + 1, r)) == Insert(Tops(ts), i + 1, r.id)
  {
  }

  lemma SaysKid(x: BTNode, c: Cell, i: nat)
    requires x.Says(c) && i < |c.kids|
    ensures i < |x.children| && x.children[i] == c.kids[i]
  {
  }

  lemma SaysNode(x: BTNode, c: Cell)
    requires x.Says(c)
    ensures x.n == |c.keys| <= |x.keys| && x.leaf == (c.kids == []) && x.n < |x.children|
    ensures forall i :: 0 <= i < x.n ==> x.keys[i] == c.keys[i]
    ensures forall i :: 0 <= i < |c.kids| && i <= x.n ==> x.children[i] == c.kids[i]
  {
    assert forall i :: 0 <= i < x.n ==> x.keys[i] == x.keys[..x.n][i];
  }

  // ---- splitting and fixing in place -------------------------------------------------------

  /** Splits the full child i of x. */
  method SplitAt(x: BTNode, i: nat, ghost mem: Memory, ghost t: Tree, ghost h: nat, ghost least: nat)
    returns (z: BTNode, ghost now: Memory)
    requires Holds(mem, t) && x == t.id && Splittable(t, i, h, least)
    modifies mem.Keys
    ensures Synced(now) && fresh(now.Keys - mem.Keys) && Became(mem, t, now, Split(t, i, z))
  {
    hide Stored, StoredAll, Ids, IdsAll, Distinct, Tops, Shape, Split, LowerHalf, UpperHalf, Became, BTNode.Says;
    KidCells(mem, t, i);
    SaysKid(x, CellOf(t), i);
    var y := x.children[i];
    z := SplitChild(x, i, y, CellOf(t), CellOf(t.kids[i]));
    SplitCells(t, i, z, h, least);
    now := mem[x := CellOf(Split(t, i, z))][y := CellOf(LowerHalf(t.kids[i]))][z := CellOf(UpperHalf(t.kids[i], z))];
    SplitStored(mem, t, i, z, now, h, least);
  }

  method LendLeft(x: BTNode, i: nat, ghost mem: Memory, ghost t: Tree) returns (ghost now: Memory)
    requires Holds(mem, t) && x == t.id && 0 < i < |t.kids| && |t.kids| == |t.keys| + 1
    requires LendsTo(t.kids[i - 1], t.kids[i])
    modifies mem.Keys
    ensures Synced(now) && fresh(now.Keys - mem.Keys) && Became(mem, t, now, BorrowLeft(t, i))
  {
    hide Stored, StoredAll, Ids, IdsAll, Distinct, Tops, BorrowLeft, Became, BTNode.Says;
    KidCells(mem, t, i);
    KidCells(mem, t, i - 1);
    NeighboursDiffer(mem, t, i - 1);
    BorrowLeftCells(t, i);
    SaysKid(x, CellOf(t), i - 1);
    SaysKid(x, CellOf(t), i);
    var s, c := x.children[i - 1], x.children[i];
    BorrowFromLeft(x, i, s, c, CellOf(t), CellOf(t.kids[i - 1]), CellOf(t.kids[i]));
    ghost var f := BorrowLeft(t, i);
    now := mem[x := CellOf(f)][s := CellOf(f.kids[i - 1])][c := CellOf(f.kids[i])];
    BorrowLeftStored(mem, t, i, now);
  }

  method LendRight(x: BTNode, i: nat, ghost mem: Memory, ghost t: Tree) returns (ghost now: Memory)
    requires Holds(mem, t) && x == t.id && i + 1 < |t.kids| && |t.kids| == |t.keys| + 1
    requires LendsTo(t.kids[i + 1], t.kids[i])
    modifies mem.Keys
    ensures Synced(now) && fresh(now.Keys - mem.Keys) && Became(mem, t, now, BorrowRight(t, i))
  {
    hide Stored, StoredAll, Ids, IdsAll, Distinct, Tops, BorrowRight, Became, BTNode.Says;
    KidCells(mem, t, i);
    KidCells(mem, t, i + 1);
    NeighboursDiffer(mem, t, i);
    BorrowRightCells(t, i);
    SaysKid(x, CellOf(t), i);
    SaysKid(x, CellOf(t), i + 1);
    var s, c := x.children[i + 1], x.children[i];
    BorrowFromRight(x, i, s, c, CellOf(t), CellOf(t.kids[i + 1]), CellOf(t.kids[i]));
    ghost var f := BorrowRight(t, i);
    now := mem[x := CellOf(f)][c := CellOf(f.kids[i])][s := CellOf(f.kids[i + 1])];
    BorrowRightStored(mem, t, i, now);
  }

  method MergeAt(x: BTNode, i: nat, ghost mem: Memory, ghost t: Tree) returns (ghost now: Memory)
    requires Holds(mem, t) && x == t.id && i + 1 < |t.kids| && |t.kids| == |t.keys| + 1
    requires |t.kids[i].keys| + |t.kids[i + 1].keys| < MAX_KEYS && (t.kids[i].kids == []) == (t.kids[i + 1].kids == [])
    modifies mem.Keys
    ensures Synced(now) && fresh(now.Keys - mem.Keys) && Became(mem, t, now, Merge(t, i))
  {
    hide Stored, StoredAll, Ids, IdsAll, Distinct, Tops, Merge, Became, BTNode.Says;
    KidCells(mem, t, i);
    KidCells(mem, t, i + 1);
    NeighboursDiffer(mem, t, i);
    MergeCells(t, i);
    SaysKid(x, CellOf(t), i);
    SaysKid(x, CellOf(t), i + 1);
    var l, r := x.children[i], x.children[i + 1];
    MergeChildren(x, i, l, r, CellOf(t), CellOf(t.kids[i]), CellOf(t.kids[i + 1]));
    ghost var f := Merge(t, i);
    now := mem[x := CellOf(f)][l := CellOf(f.kids[i])];
    MergeStored(mem, t, i, now);
  }

  ghost predicate LendsTo(s: Tree, c: Tree) {
    && s.keys != [] && |c.keys| < MAX_KEYS && (s.kids == []) == (c.kids == [])
    && (s.kids == [] || |s.kids| == |s.keys| + 1)
  }

  lemma FixableKids(t: Tree, i: nat, h: nat, least: nat)
    requires Fixable(t, i, h, least)
    ensures |t.keys| >= 1
    ensures i > 0 && |t.kids[i - 1].keys| >= T ==> LendsTo(t.kids[i - 1], t.kids[i])
    ensures i < |t.keys| && |t.kids[i + 1].keys| >= T ==> LendsTo(t.kids[i + 1], t.kids[i])
    ensures forall j :: 0 <= j < |t.kids| ==> T - 1 <= |t.kids[j].keys|
    ensures forall j :: 0 <= j < |t.kids| ==> (t.kids[j].kids == []) == (h == 1)
  {
    forall j | 0 <= j < |t.kids|
      ensures T - 1 <= |t.kids[j].keys| && (t.kids[j].kids == []) == (h == 1)
    {
      FullChild(t, j, h, least);
    }
    FullChild(t, i, h, least);
    if i > 0 { FullChild(t, i - 1, h, least); }
    if i < |t.keys| { FullChild(t, i + 1, h, least); }
  }

  /** Brings child i of x up to T keys. */
  method FixChild(x: BTNode, i: nat, ghost mem: Memory, ghost t: Tree, ghost h: nat, ghost least: nat)
    returns (ghost now: Memory)
    requires Holds(mem, t) && x == t.id && Fixable(t, i, h, least)
    modifies mem.Keys
    ensures |t.keys| >= 1
    ensures Synced(now) && fresh(now.Keys - mem.Keys) && Became(mem, t, now, Fix(t, i))
  {
    hide Stored, StoredAll, Ids, IdsAll, Distinct, Tops, Shape, BorrowLeft, BorrowRight, Merge, Became, BTNode.Says;
    FixableKids(t, i, h, least);
    KidCells(mem, t, i);
    SaysNode(x, CellOf(t));
    if i > 0 {
      KidCells(mem, t, i - 1);
      SaysNode(t.kids[i - 1].id, CellOf(t.kids[i - 1]));
    }
    if i < |t.keys| {
      KidCells(mem, t, i + 1);
      SaysNode(t.kids[i + 1].id, CellOf(t.kids[i + 1]));
    }
    if i > 0 && x.children[i - 1].n >= T {
      now := LendLeft(x, i, mem, t);
    } else if i < x.n && x.children[i + 1].n >= T {
      now := LendRight(x, i, mem, t);
    } else {
      now := MergeAt(x, if i < x.n then i else i - 1, mem, t);
    }
  }

  // ---- descending --------------------------------------------------------------------------

  lemma NodeFacts(mem: Memory, t: Tree, h: nat, least: nat)
    requires Stored(mem, t) && Shape(t, h, least)
    ensures t.id in mem && mem[t.id] == CellOf(t)
    ensures least <= |t.keys| <= MAX_KEYS
    ensures if h == 0 then t.kids == [] else |t.kids| == |t.keys| + 1
    ensures (CellOf(t).kids == []) == (h == 0)
    ensures |CellOf(t).kids| == |t.kids|
  {
  }

  method MaxOf(x: BTNode, ghost mem: Memory, ghost t: Tree, ghost h: nat) returns (p: int)
    requires Holds(mem, t) && x == t.id && Shape(t, h, 1)
    ensures p == MaxKey(t)
  {
    hide Stored, StoredAll, Ids, IdsAll, Distinct, Tops, Shape;
    var pred := x;
    ghost var u, g := t, h;
    NodeFacts(mem, u, g, 1);
    while !pred.leaf
      invariant Stored(mem, u) && Distinct(Ids(u)) && pred == u.id && Shape(u, g, 1) && 1 <= |u.keys| <= MAX_KEYS
      invariant pred in mem && mem[pred] == CellOf(u) && MaxKey(u) == MaxKey(t)
      invariant (CellOf(u).kids == []) == (g == 0)
      invariant if g == 0 then u.kids == [] else |u.kids| == |u.keys| + 1
      decreases g
    {
      ghost var k := u.kids[|u.keys|];
      FullChild(u, |u.keys|, g, 1);
      ShapeLess(k, g - 1, T - 1, 1);
      KidCells(mem, u, |u.keys|);
      NodeFacts(mem, k, g - 1, 1);
      pred := pred.children[pred.n];
      u, g := k, g - 1;
    }
    p := pred.keys[pred.n - 1];
  }

  method MinOf(x: BTNode, ghost mem: Memory, ghost t: Tree, ghost h: nat) returns (p: int)
    requires Holds(mem, t) && x == t.id && Shape(t, h, 1)
    ensures p == MinKey(t)
  {
    hide Stored, StoredAll, Ids, IdsAll, Distinct, Tops, Shape;
    var n := x;
    ghost var u, g := t, h;
    NodeFacts(mem, u, g, 1);
    while !n.leaf
      invariant Stored(mem, u) && Distinct(Ids(u)) && n == u.id && Shape(u, g, 1) && 1 <= |u.keys| <= MAX_KEYS
      invariant n in mem && mem[n] == CellOf(u) && MinKey(u) == MinKey(t)
      invariant (CellOf(u).kids == []) == (g == 0)
      invariant if g == 0 then u.kids == [] else |u.kids| == |u.keys| + 1
      decreases g
    {
      ghost var k := u.kids[0];
      FullChild(u, 0, g, 1);
      ShapeLess(k, g - 1, T - 1, 1);
      KidCells(mem, u, 0);
      NodeFacts(mem, k, g - 1, 1);
      n := n.children[0];
      u, g := k, g - 1;
    }
    p := n.keys[0];
  }

  // ---- searching ---------------------------------------------------------------------------

  /** key is below t exactly if it is here or below the child the search goes on in. */
  lemma SearchStep(t: Tree, key: int, i: nat)
    requires |t.kids| == |t.keys| + 1 && Sorted(Inorder(t)) && i == First(t.keys, key)
    ensures Found(t, i, key) ==> key in Inorder(t)
    ensures !Found(t, i, key) ==> (key in Inorder(t) <==> key in Inorder(t.kids[i]))
    ensures Sorted(Inorder(t.kids[i]))
  {
    var b, m, a := Before(t, i), Inorder(t.kids[i]), After(t, i);
    InorderAt(t, i);
    SortedParts(b, m, a);
    if i > 0 {
      BeforeNext(t, i - 1);
      assert b[|b| - 1] == t.keys[i - 1];
    }
    if i < |t.keys| {
      AfterNext(t, i);
      assert a[0] == t.keys[i];
    }
  }

  lemma LeafSearch(t: Tree, key: int, i: nat)
    requires t.kids == [] && i == First(t.keys, key) && Sorted(Inorder(t))
    ensures key in Inorder(t) <==> Found(t, i, key)
  {
  }

  method SearchFrom(x: BTNode, key: int, ghost mem: Memory, ghost t: Tree, ghost h: nat) returns (found: bool)
    requires Holds(mem, t) && x == t.id && Shape(t, h, 0) && Sorted(Inorder(t))
    ensures found <==> key in Inorder(t)
  {
    hide Stored, StoredAll, Ids, IdsAll, Distinct, Tops, Shape, Inorder, Sorted;
    var cur: BTNode? := x;
    ghost var u, g := t, h;
    NodeFacts(mem, u, g, 0);
    while cur != null
      invariant cur != null && Stored(mem, u) && Distinct(Ids(u)) && cur == u.id && Shape(u, g, 0) && Sorted(Inorder(u))
      invariant key in Inorder(u) <==> key in Inorder(t)
      invariant cur in mem && mem[cur] == CellOf(u)
      invariant (CellOf(u).kids == []) == (g == 0)
      invariant if g == 0 then u.kids == [] else |u.kids| == |u.keys| + 1
      decreases g
    {
      var i := cur.Position(key, CellOf(u));
      if g == 0 { LeafSearch(u, key, i); } else { SearchStep(u, key, i); }
      if i < cur.n && cur.keys[i] == key { return true; }
      if cur.leaf { return false; }
      ghost var k := u.kids[i];
      FullChild(u, i, g, 0);
      ShapeLess(k, g - 1, T - 1, 0);
      KidCells(mem, u, i);
      NodeFacts(mem, k, g - 1, 0);
      cur := cur.children[i];
      u, g := k, g - 1;
    }
    return false;
  }

  // ---- inserting ---------------------------------------------------------------------------

  /** key belongs below child i if the keys beside it say so. */
  lemma InsertedBelow(t: Tree, key: int, i: nat, c: Tree)
    requires |t.kids| == |t.keys| + 1 && i < |t.kids| && Sorted(Inorder(t))
    requires (i > 0 ==> t.keys[i - 1] <= key) && (i < |t.keys| ==> key <= t.keys[i])
    requires Inorder(c) == Inserted(Inorder(t.kids[i]), key)
    ensures Inorder(WithKid(t, i, c)) == Inserted(Inorder(t), key)
  {
    hide Inorder, Before, After, Inserted;
    var b, m, a := Before(t, i), Inorder(t.kids[i]), After(t, i);
    InorderAt(t, i);
    SortedParts(b, m, a);
    if i > 0 {
      BeforeNext(t, i - 1);
      assert b[|b| - 1] == t.keys[i - 1];
    } else {
      BeforeFirst(t);
    }
    if i < |t.keys| { AfterNext(t, i); } else { AfterLast(t); }
    ChildReplaced(t, i, c);
    InsertedMiddle(b, m, a, key);
  }

  lemma KidSorted(t: Tree, i: nat)
    requires |t.kids| == |t.keys| + 1 && i < |t.kids| && Sorted(Inorder(t))
    ensures Sorted(Inorder(t.kids[i]))
  {
    hide Inorder, Before, After;
    InorderAt(t, i);
    SortedParts(Before(t, i), Inorder(t.kids[i]), After(t, i));
  }

  lemma LeafInserted(s: seq<int>, key: int)
    requires Sorted(s)
    ensures Insert(s, Upper(s, key), key) == Inserted(s, key)
  {
    var i := Upper(s, key);
    assert s == s[..i] + [] + s[i..];
    InsertedMiddle(s[..i], [], s[i..], key);
  }

  /** Inserts key below x, which is not full; no full node is ever entered. */
  method InsertNonfull(x: BTNode, key: int, ghost mem: Memory, ghost t: Tree, ghost h: nat, ghost least: nat)
    returns (ghost now: Memory, ghost u: Tree)
    requires Holds(mem, t) && x == t.id && Shape(t, h, least) && |t.keys| < MAX_KEYS && Sorted(Inorder(t))
    modifies mem.Keys
    ensures Synced(now) && fresh(now.Keys - mem.Keys) && Became(mem, t, now, u)
    ensures Shape(u, h, least) && Inorder(u) == Inserted(Inorder(t), key) && FormOf(u) == Grown(FormOf(t), key, h)
    decreases h
  {
    hide Stored, StoredAll, Ids, IdsAll, Distinct, Tops, Shape, Inorder, Sorted, Became, Split, FormOf, Grown, Entered,
      BTNode.Says;
    NodeFacts(mem, t, h, least);
    SaysNode(x, CellOf(t));
    if x.leaf {
      x.InsertIntoLeaf(key, CellOf(t));
      u := Tree(t.id, Insert(t.keys, Upper(t.keys, key), key), []);
      now := mem[x := CellOf(u)];
      LeafGrown(mem, t, now, u, key, least);
      LeafForm(t, key, u);
    } else {
      var i;
      ghost var s, m;
      i, m, s := EnterChild(x, key, mem, t, h, least);
      BecameHolds(mem, t, m, s);
      KidSorted(s, i);
      KidCells(m, s, i);
      SaysNode(x, CellOf(s));
      FullChild(s, i, h, least);
      ghost var c;
      now, c := InsertNonfull(x.children[i], key, m, s.kids[i], h - 1, T - 1);
      u := WithKid(s, i, c);
      BecameAround(m, s, i, now, c);
      BecameChain(mem, t, m, s, now, u);
      InsertedBelow(s, key, i, c);
      BelowForm(t, s, i, c, key, h);
      ShapeParts(s, h, least);
      WithKidShape(s, i, c, h, least);
    }
  }

  /** Finds the child of x to enter and splits it first if it is full. */
  method EnterChild(x: BTNode, key: int, ghost mem: Memory, ghost t: Tree, ghost h: nat, ghost least: nat)
    returns (i: nat, ghost m: Memory, ghost s: Tree)
    requires Holds(mem, t) && x == t.id && h > 0 && Shape(t, h, least) && |t.keys| < MAX_KEYS
    modifies mem.Keys
    ensures Synced(m) && fresh(m.Keys - mem.Keys) && Became(mem, t, m, s)
    ensures Shape(s, h, least) && Inorder(s) == Inorder(t)
    ensures |s.kids| == |s.keys| + 1 && i < |s.kids| && |s.kids[i].keys| < MAX_KEYS
    ensures (i > 0 ==> s.keys[i - 1] <= key) && (i < |s.keys| ==> key <= s.keys[i])
    ensures Entered(FormOf(t), key) == (FormOf(s), i)
  {
    hide Stored, StoredAll, Ids, IdsAll, Distinct, Tops, Shape, Inorder, Became, Split, FormOf, Entered;
    NodeFacts(mem, t, h, least);
    i := x.Branch(key, CellOf(t));
    FullChild(t, i, h, least);
    KidCells(mem, t, i);
    NodeFacts(mem, t.kids[i], h - 1, T - 1);
    m, s := mem, t;
    BecameSame(mem, t);
    if x.children[i].n == MAX_KEYS {
      i, m, s := SplitAndPick(x, i, key, mem, t, h, least);
    } else {
      RoomForm(t, i, key);
    }
  }

  /** Splits the full child i of x and picks the half that key belongs to. */
  method SplitAndPick(x: BTNode, i: nat, key: int, ghost mem: Memory, ghost t: Tree, ghost h: nat, ghost least: nat)
    returns (j: nat, ghost m: Memory, ghost s: Tree)
    requires Holds(mem, t) && x == t.id && Splittable(t, i, h, least) && i == Upper(t.keys, key)
    modifies mem.Keys
    ensures Synced(m) && fresh(m.Keys - mem.Keys) && Became(mem, t, m, s)
    ensures Shape(s, h, least) && Inorder(s) == Inorder(t)
    ensures |s.kids| == |s.keys| + 1 && j < |s.kids| && |s.kids[j].keys| < MAX_KEYS
    ensures (j > 0 ==> s.keys[j - 1] <= key) && (j < |s.keys| ==> key <= s.keys[j])
    ensures Entered(FormOf(t), key) == (FormOf(s), j)
  {
    hide Stored, StoredAll, Ids, IdsAll, Distinct, Tops, Shape, Inorder, Became, Split, Upper, FormOf, Entered;
    ghost var z;
    z, m := SplitAt(x, i, mem, t, h, least);
    s := Split(t, i, z);
    SplitInorder(t, i, z, h, least);
    SplitShape(t, i, z, h, least);
    SplitKeys(t, i, z, h, least, key);
    FullForm(t, i, key, z, h, least);
    BecameHolds(mem, t, m, s);
    NodeFacts(m, s, h, least);
    j := if key > x.keys[i] then i + 1 else i;
  }

  lemma LeafGrown(mem: Memory, t: Tree, now: Memory, u: Tree, key: int, least: nat)
    requires Stored(mem, t) && Distinct(Ids(t)) && Shape(t, 0, least) && |t.keys| < MAX_KEYS && Sorted(Inorder(t))
    requires u == Tree(t.id, Insert(t.keys, Upper(t.keys, key), key), []) && now == mem[t.id := CellOf(u)]
    ensures Became(mem, t, now, u) && Shape(u, 0, least) && Inorder(u) == Inserted(Inorder(t), key)
  {
    KeysBecame(mem, t, now, u);
    LeafInserted(t.keys, key);
  }

  lemma BecameHolds(mem: Memory, t: Tree, now: Memory, u: Tree)
    requires Became(mem, t, now, u)
    ensures Stored(now, u) && Distinct(Ids(u)) && u.id == t.id && mem.Keys <= now.Keys
  {
  }

  /** The half on key's side of the median has room, and key lies between its neighbours. */
  lemma SplitKeys(t: Tree, i: nat, z: BTNode, h: nat, least: nat, key: int)
    requires Splittable(t, i, h, least) && i == Upper(t.keys, key)
    ensures var s := Split(t, i, z);
      && |s.kids| == |s.keys| + 1 && i < |s.keys|
      && var j := if key > s.keys[i] then i + 1 else i;
        |s.kids[j].keys| < MAX_KEYS && (j > 0 ==> s.keys[j - 1] <= key) && (j < |s.keys| ==> key <= s.keys[j])
  {
  }

  // ---- deleting ----------------------------------------------------------------------------

  /** Deletes key below x. */
  method DeleteFrom(x: BTNode, key: int, ghost mem: Memory, ghost t: Tree, ghost h: nat) returns (ghost now: Memory)
    requires Holds(mem, t) && x == t.id && Deletable(t, h)
    modifies mem.Keys
    ensures Synced(now) && fresh(now.Keys - mem.Keys) && Became(mem, t, now, Deleted(t, key, h))
    decreases h
  {
    hide Stored, StoredAll, Ids, IdsAll, Distinct, Tops, Shape, Became, Deleted, Ready, Deletable, Kept, Fails, Surplus,
      BTNode.Says;
    NodeOf(mem, t, h);
    SaysNode(x, CellOf(t));
    var i := x.Position(key, CellOf(t));
    if x.leaf {
      if i < x.n && x.keys[i] == key {
        x.RemoveFromLeaf(i, CellOf(t));
        now := mem[x := Cell(Drop(t.keys, i), [])];
      } else {
        now := mem;
      }
      LeafDeleted(mem, t, key, now);
    } else {
      ghost var _, f, d := AtFirst(t, key, h);
      KidCells(mem, t, i);
      SaysNode(t.kids[i].id, CellOf(t.kids[i]));
      if i < x.n {
        KidCells(mem, t, i + 1);
        SaysNode(t.kids[i + 1].id, CellOf(t.kids[i + 1]));
      }
      if i < x.n && x.keys[i] == key && x.children[i].n >= T {
        now := ReplaceByMax(x, key, i, mem, t, h, f, d);
      } else if i < x.n && x.keys[i] == key && x.children[i + 1].n >= T {
        now := ReplaceByMin(x, key, i, mem, t, h, f, d);
      } else {
        now := DeleteBelow(x, key, i, mem, t, h, f, d);
      }
    }
  }

  lemma NodeOf(mem: Memory, t: Tree, h: nat)
    requires Stored(mem, t) && Deletable(t, h)
    ensures t.id in mem && mem[t.id] == CellOf(t)
    ensures |t.keys| <= MAX_KEYS
    ensures if h == 0 then t.kids == [] else |t.kids| == |t.keys| + 1
    ensures (CellOf(t).kids == []) == (h == 0)
    ensures |CellOf(t).kids| == |t.kids|
  {
    NodeFacts(mem, t, h, if h == 0 then 0 else 1);
  }

  lemma LeafDeleted(mem: Memory, t: Tree, key: int, now: Memory)
    requires Stored(mem, t) && Distinct(Ids(t)) && Deletable(t, 0)
    requires var i := First(t.keys, key);
      now == if Found(t, i, key) then mem[t.id := Cell(Drop(t.keys, i), [])] else mem
    ensures Became(mem, t, now, Deleted(t, key, 0))
  {
    var u := Deleted(t, key, 0);
    if Found(t, First(t.keys, key), key) {
      assert CellOf(u) == Cell(u.keys, []);
      KeysBecame(mem, t, now, u);
    } else {
      BecameSame(mem, t);
    }
  }

  /** The separator i becomes p. */
  method SetSeparator(x: BTNode, i: nat, p: int, ghost mem: Memory, ghost t: Tree) returns (ghost m: Memory)
    requires Holds(mem, t) && x == t.id && i < |t.keys| && |t.kids| == |t.keys| + 1 && x in mem
    modifies x`keys
    ensures var s := Tree(t.id, t.keys[i := p], t.kids); Holds(m, s) && Became(mem, t, m, s)
    ensures m.Keys == mem.Keys && i < |x.keys| && x.keys[i] == p
  {
    hide Stored, StoredAll, Ids, IdsAll, Distinct, Tops, Became, BTNode.Says;
    NodeCell(mem, t);
    SaysNode(x, CellOf(t));
    x.SetKey(i, p, CellOf(t));
    ghost var s := Tree(t.id, t.keys[i := p], t.kids);
    m := mem[x := CellOf(s)];
    SaysNode(x, CellOf(s));
    KeysBecame(mem, t, m, s);
    BecameHolds(mem, t, m, s);
  }

  method ReplaceByMax(x: BTNode, key: int, i: nat, ghost mem: Memory, ghost t: Tree, ghost h: nat, ghost f: Tree,
      ghost d: nat)
    returns (ghost now: Memory)
    requires Holds(mem, t) && x == t.id && At(t, key, h, i, f, d) && Found(t, i, key) && |t.kids[i].keys| >= T
    modifies mem.Keys
    ensures Synced(now) && fresh(now.Keys - mem.Keys) && Became(mem, t, now, Deleted(t, key, h))
    decreases h, 0
  {
    hide Stored, StoredAll, Ids, IdsAll, Distinct, Tops, Shape, Became, Deleted, Ready, Deletable, First, Kept, Fails,
      Surplus, MaxKey, MinKey, BTNode.Says;
    TakesMax(t, key, h, i, f, d);
    KidCells(mem, t, i);
    KidHasOne(t, i, h);
    SaysNode(x, CellOf(t));
    ghost var k := t.kids[i];
    var p := MaxOf(x.children[i], mem, k, h - 1);
    ghost var s := Tree(t.id, t.keys[i := p], t.kids);
    ghost var m := SetSeparator(x, i, p, mem, t);
    KidCells(m, s, i);
    now := DeleteFrom(x.children[i], x.keys[i], m, k, h - 1);
    BecameAround(m, s, i, now, Deleted(k, p, h - 1));
    BecameChain(mem, t, m, s, now, Deleted(t, key, h));
  }

  lemma KidHasOne(t: Tree, i: nat, h: nat)
    requires Deletable(t, h) && h > 0 && i < |t.kids|
    ensures |t.kids| == |t.keys| + 1 && Shape(t.kids[i], h - 1, 1)
  {
    KidsDeletable(t, h);
    ShapeLess(t.kids[i], h - 1, T - 1, 1);
  }

  method ReplaceByMin(x: BTNode, key: int, i: nat, ghost mem: Memory, ghost t: Tree, ghost h: nat, ghost f: Tree,
      ghost d: nat)
    returns (ghost now: Memory)
    requires Holds(mem, t) && x == t.id && At(t, key, h, i, f, d) && Found(t, i, key)
    requires |t.kids[i].keys| < T && |t.kids[i + 1].keys| >= T
    modifies mem.Keys
    ensures Synced(now) && fresh(now.Keys - mem.Keys) && Became(mem, t, now, Deleted(t, key, h))
    decreases h, 0
  {
    hide Stored, StoredAll, Ids, IdsAll, Distinct, Tops, Shape, Became, Deleted, Ready, Deletable, First, Kept, Fails,
      Surplus, MaxKey, MinKey, BTNode.Says;
    TakesMin(t, key, h, i, f, d);
    KidCells(mem, t, i + 1);
    KidHasOne(t, i + 1, h);
    SaysNode(x, CellOf(t));
    ghost var k := t.kids[i + 1];
    var p := MinOf(x.children[i + 1], mem, k, h - 1);
    ghost var s := Tree(t.id, t.keys[i := p], t.kids);
    ghost var m := SetSeparator(x, i, p, mem, t);
    KidCells(m, s, i + 1);
    now := DeleteFrom(x.children[i + 1], x.keys[i], m, k, h - 1);
    BecameAround(m, s, i + 1, now, Deleted(k, p, h - 1));
    BecameChain(mem, t, m, s, now, Deleted(t, key, h));
  }

  /** The child to go on in is brought up to T keys first if it has fewer. */
  method DeleteBelow(x: BTNode, key: int, i: nat, ghost mem: Memory, ghost t: Tree, ghost h: nat, ghost f: Tree,
      ghost d: nat)
    returns (ghost now: Memory)
    requires Holds(mem, t) && x == t.id && At(t, key, h, i, f, d)
    requires Found(t, i, key) ==> |t.kids[i].keys| < T && |t.kids[i + 1].keys| < T
    modifies mem.Keys
    ensures Synced(now) && fresh(now.Keys - mem.Keys) && Became(mem, t, now, Deleted(t, key, h))
    decreases h, 0
  {
    hide Stored, StoredAll, Ids, IdsAll, Distinct, Tops, Shape, Became, Deleted, Deletable, Fix, First, Kept, Fails,
      Surplus, BTNode.Says;
    Descends(t, key, h, i, f, d);
    KidCells(mem, t, i);
    SaysNode(x, CellOf(t));
    SaysNode(t.kids[i].id, CellOf(t.kids[i]));
    ghost var m := mem;
    BecameSame(mem, t);
    if x.children[i].n < T {
      ToFix(t, i, h);
      m := FixChild(x, i, mem, t, h, 1);
    }
    BecameHolds(mem, t, m, f);
    NodeCell(m, f);
    SaysNode(x, CellOf(f));
    var di := if i > x.n then i - 1 else i;
    KidCells(m, f, d);
    now := DeleteFrom(x.children[di], key, m, f.kids[d], h - 1);
    BecameAround(m, f, d, now, Deleted(f.kids[d], key, h - 1));
    BecameChain(mem, t, m, f, now, Deleted(t, key, h));
  }

  lemma ToFix(t: Tree, i: nat, h: nat)
    requires Deletable(t, h) && h > 0 && i <= |t.keys|
    ensures |t.kids| == |t.keys| + 1 && (|t.kids[i].keys| < T ==> Fixable(t, i, h, 1))
  {
    MinimalChild(t, i, h);
  }

  lemma NodeCell(mem: Memory, t: Tree)
    requires Stored(mem, t)
    ensures t.id in mem && mem[t.id] == CellOf(t)
  {
  }

  // ---- ranges ------------------------------------------------------------------------------

  /** What has been gone through before position i. */
  ghost function Prefix(t: Tree, i: nat): seq<int>
    requires i <= |t.keys| && (t.kids == [] || |t.kids| == |t.keys| + 1)
  {
    if t.kids == [] then t.keys[..i] else Before(t, i)
  }

  /** Some child behind a separator equal to hi holds hi. */
  ghost predicate Hidden(t: Tree, hi: int)
    decreases t, 1
  {
    exists j :: 0 <= j < |t.kids| && HiddenAt(t, j, hi)
  }

  ghost predicate HiddenAt(t: Tree, j: nat, hi: int)
    requires j < |t.kids|
    decreases t, 0
  {
    (0 < j <= |t.keys| && t.keys[j - 1] == hi && hi in Inorder(t.kids[j])) || Hidden(t.kids[j], hi)
  }

  ghost predicate HiddenBefore(t: Tree, i: nat, hi: int) {
    exists j :: 0 <= j < i && j < |t.kids| && HiddenAt(t, j, hi)
  }

  lemma {:induction false} HiddenIsThere(t: Tree, hi: int, h: nat)
    requires Shape(t, h, 0) && Hidden(t, hi)
    ensures hi in Inorder(t)
    decreases h
  {
    hide Inorder, Before, After;
    var j :| 0 <= j < |t.kids| && HiddenAt(t, j, hi);
    InorderAt(t, j);
    if hi !in Inorder(t.kids[j]) {
      ShapeLess(t.kids[j], h - 1, T - 1, 0);
      HiddenIsThere(t.kids[j], hi, h - 1);
    }
  }

  lemma {:induction false} HiddenTwice(t: Tree, hi: int, h: nat)
    requires Shape(t, h, 0) && Ascending(Inorder(t))
    ensures !Hidden(t, hi)
    decreases h
  {
    hide Inorder, Before, After, Ascending;
    forall j | 0 <= j < |t.kids|
      ensures !HiddenAt(t, j, hi)
    {
      KidAscending(t, j);
      ShapeLess(t.kids[j], h - 1, T - 1, 0);
      HiddenTwice(t.kids[j], hi, h - 1);
      if hi in Inorder(t.kids[j]) && j > 0 { OnlyThere(t, hi, j, j - 1); }
    }
  }

  /** v is w without, at most, some copies of hi at the end of which one at least is left. */
  ghost predicate CutAt(v: seq<int>, w: seq<int>, hi: int) {
    v <= w && (forall j :: |v| <= j < |w| ==> w[j] == hi) && (v != w ==> hi in v)
  }

  lemma CutJoin(v: seq<int>, w: seq<int>, v': seq<int>, w': seq<int>, hi: int)
    requires CutAt(v, w, hi) && CutAt(v', w', hi) && (v != w ==> forall x :: x in w' ==> x == hi)
    ensures CutAt(v + v', w + w', hi)
    ensures v + v' == w + w' <==> v == w && v' == w'
  {
    if v == w {
      forall j | |v + v'| <= j < |w + w'|
        ensures (w + w')[j] == hi
      {
        assert (w + w')[j] == w'[j - |w|];
      }
    } else {
      forall j | |v| <= j < |w + w'|
        ensures (w + w')[j] == hi
      {
        if j >= |w| { assert w'[j - |w|] in w'; }
      }
      forall j | 0 <= j < |v'|
        ensures v'[j] == hi
      {
        assert v'[j] == w'[j] && w'[j] in w';
      }
      forall j | 0 <= j < |v + v'|
        ensures (v + v')[j] == (w + w')[j]
      {
        if j < |v| { assert v[j] == w[j]; }
      }
    }
  }

  /** What a skipped child would have added: copies of hi, if any, and the separator is one. */
  lemma Skipped(t: Tree, i: nat, lo: int, hi: int, h: nat)
    requires h > 0 && Shape(t, h, 0) && |t.kids| == |t.keys| + 1
    requires 0 < i <= |t.keys| && t.keys[i - 1] >= hi && Sorted(Inorder(t))
    ensures forall x :: x in Within(Inorder(t.kids[i]), lo, hi) ==> x == hi == t.keys[i - 1]
    ensures Within(Inorder(t.kids[i]), lo, hi) == [] <==> lo > hi || !HiddenAt(t, i, hi)
    ensures Within(Inorder(t.kids[i]), lo, hi) != [] ==> hi in Within(Prefix(t, i), lo, hi)
  {
    hide Inorder, Before, After, Sorted, Shape;
    var m, w := Inorder(t.kids[i]), Within(Inorder(t.kids[i]), lo, hi);
    InorderAt(t, i);
    SortedParts(Before(t, i), m, After(t, i));
    BeforeNext(t, i - 1);
    assert Before(t, i)[|Before(t, i)| - 1] == t.keys[i - 1];
    WithinElements(m, lo, hi);
    WithinElements(Before(t, i), lo, hi);
    if w == [] {
      WithinMisses(m, lo, hi);
    } else {
      assert w[0] in w;
    }
    FullChild(t, i, h, 0);
    ShapeLess(t.kids[i], h - 1, T - 1, 0);
    if Hidden(t.kids[i], hi) { HiddenIsThere(t.kids[i], hi, h - 1); }
  }

  lemma WithinMisses(s: seq<int>, lo: int, hi: int)
    requires Within(s, lo, hi) == []
    ensures hi in s ==> lo > hi
  {
    WithinElements(s, lo, hi);
  }

  /** Once hi has been passed, everything of the range that follows is hi. */
  lemma OnlyHiLeft(t: Tree, i: nat, lo: int, hi: int)
    requires i <= |t.keys| && (t.kids == [] || |t.kids| == |t.keys| + 1) && Sorted(Inorder(t))
    requires hi in Within(Prefix(t, i), lo, hi)
    ensures t.kids != [] ==> forall x :: x in Within(Inorder(t.kids[i]), lo, hi) ==> x == hi
    ensures i < |t.keys| ==> forall x :: x in Within([t.keys[i]], lo, hi) ==> x == hi
  {
    WithinElements(Prefix(t, i), lo, hi);
    if i < |t.keys| { WithinElements([t.keys[i]], lo, hi); }
    if t.kids == [] {
      var j :| 0 <= j < i && t.keys[j] == hi;
    } else {
      WithinElements(Inorder(t.kids[i]), lo, hi);
      AllBehind(t, i, hi);
    }
  }

  lemma AllBehind(t: Tree, i: nat, hi: int)
    requires |t.kids| == |t.keys| + 1 && i <= |t.keys| && Sorted(Inorder(t)) && hi in Before(t, i)
    ensures forall x :: x in Inorder(t.kids[i]) ==> hi <= x
    ensures i < |t.keys| ==> hi <= t.keys[i]
  {
    hide Inorder, Before, After, Sorted;
    InorderAt(t, i);
    SortedParts(Before(t, i), Inorder(t.kids[i]), After(t, i));
    if i < |t.keys| {
      AfterNext(t, i);
      assert After(t, i)[0] == t.keys[i];
    }
  }

  /** The keys visited before position i: complete exactly if nothing of it is hidden. */
  ghost predicate VisitedTo(t: Tree, i: nat, lo: int, hi: int, v: seq<int>)
    requires i <= |t.keys| && (t.kids == [] || |t.kids| == |t.keys| + 1)
  {
    && CutAt(v, Within(Prefix(t, i), lo, hi), hi)
    && (v == Within(Prefix(t, i), lo, hi) <==> lo > hi || !HiddenBefore(t, i, hi))
  }

  /** The same for all of t. */
  ghost predicate Visited(t: Tree, lo: int, hi: int, v: seq<int>) {
    && CutAt(v, Within(Inorder(t), lo, hi), hi)
    && (v == Within(Inorder(t), lo, hi) <==> lo > hi || !Hidden(t, hi))
  }

  lemma VisitedNone(t: Tree, lo: int, hi: int)
    requires t.kids == [] || |t.kids| == |t.keys| + 1
    ensures VisitedTo(t, 0, lo, hi, [])
  {
  }

  lemma KidVisited(t: Tree, i: nat, lo: int, hi: int, v: seq<int>, k: seq<int>)
    requires |t.kids| == |t.keys| + 1 && i <= |t.keys| && Sorted(Inorder(t)) && VisitedTo(t, i, lo, hi, v)
    requires (i == 0 || t.keys[i - 1] < hi) && Visited(t.kids[i], lo, hi, k)
    ensures PassedKid(t, i, lo, hi, v + k)
  {
    hide Inorder, Before, Prefix, CutAt, Hidden, HiddenAt, Sorted;
    var w, w' := Within(Prefix(t, i), lo, hi), Within(Inorder(t.kids[i]), lo, hi);
    if v != w {
      CutHas(v, w, hi);
      OnlyHiLeft(t, i, lo, hi);
    }
    CutJoin(v, w, k, w', hi);
    HiddenNext(t, i, hi);
    HiddenHere(t, i, hi);
  }

  lemma CutHas(v: seq<int>, w: seq<int>, hi: int)
    requires CutAt(v, w, hi) && v != w
    ensures hi in w
  {
    var j :| 0 <= j < |v| && v[j] == hi;
    assert w[j] == hi;
  }

  lemma HiddenNext(t: Tree, i: nat, hi: int)
    requires i < |t.kids|
    ensures HiddenBefore(t, i + 1, hi) <==> HiddenBefore(t, i, hi) || HiddenAt(t, i, hi)
  {
  }

  lemma HiddenHere(t: Tree, i: nat, hi: int)
    requires i < |t.kids| && |t.kids| == |t.keys| + 1 && (i == 0 || t.keys[i - 1] < hi)
    ensures HiddenAt(t, i, hi) <==> Hidden(t.kids[i], hi)
  {
  }

  /** Between child i and separator i. */
  ghost predicate PassedKid(t: Tree, i: nat, lo: int, hi: int, v: seq<int>)
    requires i <= |t.keys| && (t.kids == [] || |t.kids| == |t.keys| + 1)
  {
    var w := Within(Prefix(t, i), lo, hi) + if t.kids == [] then [] else Within(Inorder(t.kids[i]), lo, hi);
    && CutAt(v, w, hi)
    && (v == w <==> lo > hi || !HiddenBefore(t, i + 1, hi))
  }

  lemma KidSkipped(t: Tree, i: nat, lo: int, hi: int, v: seq<int>, h: nat)
    requires h > 0 && Shape(t, h, 0) && |t.kids| == |t.keys| + 1
    requires 0 < i <= |t.keys| && t.keys[i - 1] >= hi && Sorted(Inorder(t)) && VisitedTo(t, i, lo, hi, v)
    ensures PassedKid(t, i, lo, hi, v)
  {
    hide Inorder, Before, Prefix, Hidden, HiddenAt, Sorted, Shape, CutAt;
    var w, w' := Within(Prefix(t, i), lo, hi), Within(Inorder(t.kids[i]), lo, hi);
    Skipped(t, i, lo, hi, h);
    HiddenNext(t, i, hi);
    CutGrows(v, w, w', hi);
  }

  lemma CutGrows(v: seq<int>, w: seq<int>, w': seq<int>, hi: int)
    requires CutAt(v, w, hi) && (forall x :: x in w' ==> x == hi) && (w' != [] ==> hi in w)
    ensures CutAt(v, w + w', hi)
    ensures v == w + w' <==> v == w && w' == []
  {
    if v == w && w' != [] { assert hi in v; }
    forall j | |v| <= j < |w + w'|
      ensures (w + w')[j] == hi
    {
      if j >= |w| { assert w'[j - |w|] in w'; }
    }
  }

  lemma LeafPassed(t: Tree, i: nat, lo: int, hi: int, v: seq<int>)
    requires t.kids == [] && i <= |t.keys| && VisitedTo(t, i, lo, hi, v)
    ensures PassedKid(t, i, lo, hi, v)
  {
    assert Within(Prefix(t, i), lo, hi) + [] == Within(Prefix(t, i), lo, hi);
  }

  lemma WithinPrefix(t: Tree, i: nat, lo: int, hi: int)
    requires i <= |t.keys| && (t.kids == [] || |t.kids| == |t.keys| + 1)
    ensures var w := Within(Prefix(t, i), lo, hi) + if t.kids == [] then [] else Within(Inorder(t.kids[i]), lo, hi);
      && (i == |t.keys| ==> w == Within(Inorder(t), lo, hi))
      && (i < |t.keys| ==> Within(Prefix(t, i + 1), lo, hi) == w + Within([t.keys[i]], lo, hi))
  {
    if t.kids == [] {
      WithinPrefixLeaf(t, i, lo, hi);
    } else {
      WithinPrefixInner(t, i, lo, hi);
    }
  }

  lemma WithinPrefixLeaf(t: Tree, i: nat, lo: int, hi: int)
    requires i <= |t.keys| && t.kids == []
    ensures var w := Within(Prefix(t, i), lo, hi) + [];
      && (i == |t.keys| ==> w == Within(Inorder(t), lo, hi))
      && (i < |t.keys| ==> Within(Prefix(t, i + 1), lo, hi) == w + Within([t.keys[i]], lo, hi))
  {
    hide Within;
    assert Within(t.keys[..i], lo, hi) + [] == Within(t.keys[..i], lo, hi);
    if i < |t.keys| {
      assert t.keys[..i + 1] == t.keys[..i] + [t.keys[i]];
      WithinConcat(t.keys[..i], [t.keys[i]], lo, hi);
    } else {
      assert t.keys[..i] == t.keys;
    }
  }

  lemma WithinPrefixInner(t: Tree, i: nat, lo: int, hi: int)
    requires i <= |t.keys| && |t.kids| == |t.keys| + 1
    ensures var w := Within(Prefix(t, i), lo, hi) + Within(Inorder(t.kids[i]), lo, hi);
      && (i == |t.keys| ==> w == Within(Inorder(t), lo, hi))
      && (i < |t.keys| ==> Within(Prefix(t, i + 1), lo, hi) == w + Within([t.keys[i]], lo, hi))
  {
    hide Within, Inorder, Before, After;
    WithinConcat(Before(t, i), Inorder(t.kids[i]), lo, hi);
    if i < |t.keys| {
      BeforeNext(t, i);
      WithinConcat(Before(t, i) + Inorder(t.kids[i]), [t.keys[i]], lo, hi);
    } else {
      InorderAt(t, i);
      AfterLast(t);
      assert Before(t, i) + Inorder(t.kids[i]) + [] == Before(t, i) + Inorder(t.kids[i]);
    }
  }

  lemma KeyVisited(t: Tree, i: nat, lo: int, hi: int, v: seq<int>)
    requires i < |t.keys| && (t.kids == [] || |t.kids| == |t.keys| + 1) && Sorted(Inorder(t))
    requires PassedKid(t, i, lo, hi, v)
    ensures VisitedTo(t, i + 1, lo, hi, v + if lo <= t.keys[i] <= hi then [t.keys[i]] else [])
  {
    hide Inorder, Before, CutAt, Hidden, HiddenAt, HiddenBefore, Sorted, Prefix;
    var e := if lo <= t.keys[i] <= hi then [t.keys[i]] else [];
    assert Within([t.keys[i]], lo, hi) == e;
    WithinPrefix(t, i, lo, hi);
    var w := Within(Prefix(t, i), lo, hi) + if t.kids == [] then [] else Within(Inorder(t.kids[i]), lo, hi);
    CutSame(e, hi);
    if v != w {
      CutHas(v, w, hi);
      HiBefore(t, i, lo, hi);
    }
    CutJoin(v, w, e, e, hi);
  }

  lemma CutSame(s: seq<int>, hi: int)
    ensures CutAt(s, s, hi)
  {
  }

  lemma HiBefore(t: Tree, i: nat, lo: int, hi: int)
    requires i < |t.keys| && (t.kids == [] || |t.kids| == |t.keys| + 1) && Sorted(Inorder(t))
    requires hi in Within(Prefix(t, i), lo, hi) + if t.kids == [] then [] else Within(Inorder(t.kids[i]), lo, hi)
    ensures t.keys[i] >= hi
  {
    WithinElements(Prefix(t, i), lo, hi);
    if t.kids == [] {
      var j :| 0 <= j < i && t.keys[j] == hi;
    } else {
      WithinElements(Inorder(t.kids[i]), lo, hi);
      hide Inorder, Before, After, Sorted;
      InorderAt(t, i + 1);
      SortedParts(Before(t, i + 1), Inorder(t.kids[i + 1]), After(t, i + 1));
      BeforeNext(t, i);
      SortedParts(Before(t, i), Inorder(t.kids[i]), [t.keys[i]]);
      assert [t.keys[i]][0] == t.keys[i];
    }
  }

  lemma AllVisited(t: Tree, lo: int, hi: int, v: seq<int>)
    requires (t.kids == [] || |t.kids| == |t.keys| + 1) && PassedKid(t, |t.keys|, lo, hi, v)
    ensures Visited(t, lo, hi, v)
  {
    hide Inorder, Prefix, CutAt, HiddenAt;
    WithinPrefix(t, |t.keys|, lo, hi);
    assert HiddenBefore(t, |t.keys| + 1, hi) <==> Hidden(t, hi);
  }

  /** The keys the scan visits: what it gets from the children that it enters, and the
      separators in the range. */
  ghost function Scanned(t: Tree, lo: int, hi: int): seq<int>
    decreases t, 2, 0
  {
    ScannedTo(t, |t.keys|, lo, hi) + ScannedKid(t, |t.keys|, lo, hi)
  }

  ghost function ScannedKid(t: Tree, i: nat, lo: int, hi: int): seq<int>
    decreases t, 0, 0
  {
    if i < |t.kids| && i <= |t.keys| && (i == 0 || t.keys[i - 1] < hi) then Scanned(t.kids[i], lo, hi) else []
  }

  ghost function ScannedTo(t: Tree, i: nat, lo: int, hi: int): seq<int>
    requires i <= |t.keys|
    decreases t, 1, i
  {
    if i == 0 then []
    else
      ScannedTo(t, i - 1, lo, hi) + ScannedKid(t, i - 1, lo, hi)
      + if lo <= t.keys[i - 1] <= hi then [t.keys[i - 1]] else []
  }

  lemma ScanStep(t: Tree, i: nat, lo: int, hi: int)
    requires i <= |t.keys|
    ensures ScannedTo(t, 0, lo, hi) == []
    ensures i < |t.keys| ==>
      var e := if lo <= t.keys[i] <= hi then [t.keys[i]] else [];
        ScannedTo(t, i + 1, lo, hi) == ScannedTo(t, i, lo, hi) + ScannedKid(t, i, lo, hi) + e
    ensures i == |t.keys| ==> Scanned(t, lo, hi) == ScannedTo(t, i, lo, hi) + ScannedKid(t, i, lo, hi)
  {
  }

  lemma ScanKid(t: Tree, i: nat, lo: int, hi: int)
    requires i <= |t.keys| && (t.kids == [] || |t.kids| == |t.keys| + 1)
    ensures ScannedKid(t, i, lo, hi)
      == if t.kids != [] && (i == 0 || t.keys[i - 1] < hi) then Scanned(t.kids[i], lo, hi) else []
  {
  }

  /** The keys handed to the visitor, in the order it gets them. */
  method RangeFrom(x: BTNode, lo: int, hi: int, ghost mem: Memory, ghost t: Tree, ghost h: nat)
    returns (visited: seq<int>)
    requires Holds(mem, t) && x == t.id && Shape(t, h, 0) && Sorted(Inorder(t))
    ensures visited == Scanned(t, lo, hi) && Visited(t, lo, hi, visited)
    decreases h
  {
    hide Stored, StoredAll, Ids, IdsAll, Distinct, Tops, Shape, Inorder, Sorted, Prefix, VisitedTo, Visited, PassedKid,
      Scanned, ScannedTo, ScannedKid;
    NodeFacts(mem, t, h, 0);
    visited := [];
    VisitedNone(t, lo, hi);
    ScanStep(t, 0, lo, hi);
    for i := 0 to x.n + 1
      invariant i <= x.n ==> visited == ScannedTo(t, i, lo, hi) && VisitedTo(t, i, lo, hi, visited)
      invariant i == x.n + 1 ==> visited == Scanned(t, lo, hi) && Visited(t, lo, hi, visited)
    {
      ScanStep(t, i, lo, hi);
      ScanKid(t, i, lo, hi);
      if !x.leaf {
        FullChild(t, i, h, 0);
        KidCells(mem, t, i);
        if i == 0 || x.keys[i - 1] < hi {
          ghost var k := t.kids[i];
          KidSorted(t, i);
          ShapeLess(k, h - 1, T - 1, 0);
          var more := RangeFrom(x.children[i], lo, hi, mem, k, h - 1);
          KidVisited(t, i, lo, hi, visited, more);
          visited := visited + more;
        } else {
          KidSkipped(t, i, lo, hi, visited, h);
          assert visited + [] == visited;
        }
      } else {
        LeafPassed(t, i, lo, hi, visited);
        assert visited + [] == visited;
      }
      if i < x.n {
        KeyVisited(t, i, lo, hi, visited);
        if lo <= x.keys[i] <= hi {
          visited := visited + [x.keys[i]];
        } else {
          assert visited + [] == visited;
        }
      } else {
        AllVisited(t, lo, hi, visited);
      }
    }
  }

  /** What a caller sees of the cut: same keys, in order. */
  lemma VisitedIs(t: Tree, lo: int, hi: int, v: seq<int>, h: nat)
    requires Visited(t, lo, hi, v) && Sorted(Inorder(t)) && Shape(t, h, 0)
    ensures Sorted(v) && forall x :: x in v <==> x in Inorder(t) && lo <= x <= hi
    ensures Ascending(Inorder(t)) ==> v == Within(Inorder(t), lo, hi)
  {
    hide Inorder, Hidden, Shape;
    var w := Within(Inorder(t), lo, hi);
    WithinSorted(Inorder(t), lo, hi);
    WithinElements(Inorder(t), lo, hi);
    CutElements(v, w, hi);
    if Ascending(Inorder(t)) { HiddenTwice(t, hi, h); }
  }

  lemma CutElements(v: seq<int>, w: seq<int>, hi: int)
    requires CutAt(v, w, hi) && Sorted(w)
    ensures Sorted(v) && forall x :: x in v <==> x in w
  {
    forall i | 0 <= i < |w|
      ensures w[i] in v
    {
      if i < |v| { assert v[i] == w[i]; }
    }
  }

  lemma RootFacts(mem: Memory, t: Tree, h: nat)
    requires Holds(mem, t) && Shape(t, h, if h == 0 then 0 else 1)
    ensures t.id in mem && t.id.n == |t.keys| <= MAX_KEYS && t.id.Says(CellOf(t))
    ensures (CellOf(t).kids == []) == (h == 0) && |CellOf(t).kids| == |t.kids|
  {
    NodeFacts(mem, t, h, if h == 0 then 0 else 1);
  }

  method Above(r: BTNode) returns (s: BTNode)
    ensures fresh(s) && s.Says(Cell([], [r]))
  {
    s := new BTNode(false);
    s.children := s.children[0 := r];
  }

  /** A new root above the full one, which is split. */
  method GrowRoot(r: BTNode, ghost mem: Memory, ghost t: Tree, ghost h: nat)
    returns (s: BTNode, ghost now: Memory, ghost u: Tree)
    requires Holds(mem, t) && r == t.id && Shape(t, h, if h == 0 then 0 else 1) && |t.keys| == MAX_KEYS
    modifies mem.Keys
    ensures Holds(now, u) && s == u.id && fresh(now.Keys - mem.Keys) && mem.Keys <= now.Keys
    ensures Shape(u, h + 1, 1) && |u.keys| < MAX_KEYS && Inorder(u) == Inorder(t)
    ensures FormOf(u) == Halved(Form([], [FormOf(t)]), 0)
  {
    hide Stored, StoredAll, Ids, IdsAll, Distinct, Tops, Shape, Inorder, Became, Split, FormOf, Halved, BTNode.Says;
    s := Above(r);
    ghost var t1 := Tree(s, [], [t]);
    ghost var m1 := mem[s := Cell([], [r])];
    NewRoot(mem, t, s, m1, h);
    ghost var z;
    z, now := SplitAt(s, 0, m1, t1, h + 1, 0);
    u := Split(t1, 0, z);
    SplitInorder(t1, 0, z, h + 1, 0);
    SplitShape(t1, 0, z, h + 1, 0);
    RootHasOne(t1, z, h + 1);
    RootForm(t, s, z, h + 1);
    BecameHolds(m1, t1, now, u);
  }

  /** A root left without keys gives way to its only child. */
  method ShrinkRoot(r: BTNode, ghost mem: Memory, ghost t: Tree, ghost h: nat)
    returns (s: BTNode, ghost u: Tree, ghost g: nat)
    requires Holds(mem, t) && r == t.id && Shape(t, h, 0)
    ensures Holds(mem, u) && s == u.id && Shape(u, g, if g == 0 then 0 else 1) && Inorder(u) == Inorder(t)
    ensures u == Shrunk(t, h) && g == ShrunkHeight(t, h)
  {
    hide Stored, StoredAll, Ids, IdsAll, Distinct, Tops, Shape, Inorder;
    NodeFacts(mem, t, h, 0);
    s, u, g := r, t, h;
    if r.n == 0 && !r.leaf {
      OnlyKid(t, h);
      KidCells(mem, t, 0);
      s := r.children[0];
      u, g := t.kids[0], h - 1;
    } else {
      NotEmpty(t, h);
    }
  }

  /** Deletes key below the root r, and lets the root give way if it is left without keys. */
  method DeleteBelowRoot(r: BTNode, key: int, ghost mem: Memory, ghost t: Tree, ghost h: nat)
    returns (s: BTNode, ghost now: Memory, ghost u: Tree, ghost g: nat)
    requires Holds(mem, t) && r == t.id && Deletable(t, h) && Shape(Deleted(t, key, h), h, 0)
    modifies mem.Keys
    ensures Holds(now, u) && s == u.id && fresh(now.Keys - mem.Keys)
    ensures Shape(u, g, if g == 0 then 0 else 1) && Inorder(u) == Inorder(Deleted(t, key, h))
    ensures u == Shrunk(Deleted(t, key, h), h) && g == ShrunkHeight(Deleted(t, key, h), h)
  {
    hide Stored, StoredAll, Ids, IdsAll, Distinct, Tops, Shape, Inorder, Became, Deleted, Deletable, BTNode.Says,
      Shrunk, ShrunkHeight;
    now := DeleteFrom(r, key, mem, t, h);
    BecameHolds(mem, t, now, Deleted(t, key, h));
    s, u, g := ShrinkRoot(r, now, Deleted(t, key, h), h);
  }

  // ---- the tree ----------------------------------------------------------------------------

  class BTree {
    var root: BTNode
    var size: int
    ghost var mem: Memory
    ghost var tree: Tree
    ghost var height: nat

    ghost predicate Valid()
      reads this, mem.Keys
    {
      && Holds(mem, tree) && root == tree.id
      && Shape(tree, height, if height == 0 then 0 else 1)
      && Sorted(Inorder(tree))
    }

    ghost function Keys(): seq<int>
      reads this
    {
      Inorder(tree)
    }

    lemma Unfold()
      requires Valid()
      ensures Deletable(tree, height) && Sorted(Keys())
    {
    }

    constructor ()
      ensures Valid() && Keys() == [] && size == 0 && fresh(mem.Keys)
      ensures FormOf(tree) == Form([], []) && height == 0
    {
      var r := new BTNode(true);
      root := r;
      size := 0;
      tree := Tree(r, [], []);
      mem := map[r := Cell([], [])];
      height := 0;
    }

    method Search(key: int) returns (found: bool)
      requires Valid()
      ensures found <==> key in Keys()
    {
      RootShape(tree, height);
      found := SearchFrom(root, key, mem, tree, height);
    }

    /** Any key, present or not. */
    method Insert(key: int)
      requires Valid()
      modifies this, mem.Keys
      ensures Valid() && fresh(mem.Keys - old(mem.Keys))
      ensures Keys() == Inserted(old(Keys()), key) && multiset(Keys()) == multiset(old(Keys())) + multiset{key}
      ensures old(Ascending(Keys())) && key !in old(Keys()) ==> Ascending(Keys())
      ensures FormOf(tree) == GrownRoot(old(FormOf(tree)), key, old(height))
      ensures height == old(height) + if |old(FormOf(tree)).keys| == MAX_KEYS then 1 else 0
      ensures size == old(size) + 1
    {
      hide Synced, Stored, StoredAll, Ids, IdsAll, Distinct, Tops, Shape, Inorder, Sorted, Ascending, Became, Split,
        Inserted, FormOf, Halved, Grown;
      ghost var known: set<object> := mem.Keys;
      assert this !in known;
      ghost var m, t, h := mem, tree, height;
      RootFacts(m, t, h);
      InsertedStaysSorted(t, key);
      FormKeys(t);
      if root.n == MAX_KEYS {
        root, m, t := GrowRoot(root, m, t, h);
        h := h + 1;
      }
      ghost var now, u := InsertNonfull(root, key, m, t, h, if h == 0 then 0 else 1);
      BecameHolds(m, t, now, u);
      mem, tree, height := now, u, h;
      size := size + 1;
    }

    /** The keys lose key and gain the surplus; distinct keys lose exactly key unless it is kept. */
    method Delete(key: int)
      requires Valid()
      modifies this, mem.Keys
      ensures Valid() && fresh(mem.Keys - old(mem.Keys))
      ensures multiset(Keys()) + multiset{key} == multiset(old(Keys())) + old(Surplus(tree, key, height))
      ensures key in old(Keys()) ==>
        (multiset(Keys()) == multiset(old(Keys())) - multiset{key} <==> !old(Fails(tree, key, height)))
      ensures old(Ascending(Keys())) ==>
        Ascending(Keys()) && Keys() == if old(Kept(tree, key, height)) then old(Keys()) else Without(old(Keys()), key)
      ensures key in old(Keys()) ==>
        && tree == old(Shrunk(Deleted(tree, key, height), height))
        && height == old(ShrunkHeight(Deleted(tree, key, height), height))
      ensures key !in old(Keys()) ==> tree == old(tree) && height == old(height)
      ensures size == if key in old(Keys()) then old(size) - 1 else old(size)
    {
      hide Synced, Stored, StoredAll, Ids, IdsAll, Distinct, Tops, Shape, Inorder, Sorted, Ascending, Became, Deleted,
        Kept, Fails, Surplus, Without, DeletedOut, Deletable, BTNode.Says, Shrunk, ShrunkHeight;
      ghost var known: set<object> := mem.Keys;
      assert this !in known;
      ghost var m, t, h := mem, tree, height;
      RootShape(t, h);
      AfterDelete(t, key, h);
      var found := Search(key);
      if !found {
        AbsentStays(t, key, h);
        OutMeans(t, key, h, Inorder(t));
        return;
      }
      OutMeans(t, key, h, Inorder(Deleted(t, key, h)));
      root, m, t, h := DeleteBelowRoot(root, key, m, t, h);
      mem, tree, height := m, t, h;
      size := size - 1;
    }

    /** Visits the stored keys in [lo, hi] in order; no copy is missed exactly if no child
        behind a separator equal to hi holds hi. */
    method RangeScan(lo: int, hi: int) returns (visited: seq<int>)
      requires Valid()
      ensures Sorted(visited) && forall x :: x in visited <==> x in Keys() && lo <= x <= hi
      ensures visited == Scanned(tree, lo, hi) && CutAt(visited, Within(Keys(), lo, hi), hi)
      ensures visited == Within(Keys(), lo, hi) <==> lo > hi || !Hidden(tree, hi)
      ensures Ascending(Keys()) ==> visited == Within(Keys(), lo, hi)
    {
      hide Synced, Stored, StoredAll, Ids, IdsAll, Distinct, Tops, Shape, Inorder, Sorted, Ascending, Within, Hidden,
        CutAt, Scanned;
      RootShape(tree, height);
      visited := RangeFrom(root, lo, hi, mem, tree, height);
      VisitedIs(tree, lo, hi, visited, height);
    }
  }

  /** What the keys s turn into. */
  ghost predicate DeletedOut(t: Tree, key: int, h: nat, s: seq<int>)
    requires Deletable(t, h)
  {
    && multiset(s) + multiset{key} == multiset(Inorder(t)) + Surplus(t, key, h)
    && (key in Inorder(t) ==> (multiset(s) == multiset(Inorder(t)) - multiset{key} <==> !Fails(t, key, h)))
    && (Ascending(Inorder(t)) ==> Ascending(s) && s == if Kept(t, key, h) then Inorder(t) else Without(Inorder(t), key))
  }

  lemma OutMeans(t: Tree, key: int, h: nat, s: seq<int>)
    requires Deletable(t, h) && DeletedOut(t, key, h, s)
    ensures multiset(s) + multiset{key} == multiset(Inorder(t)) + Surplus(t, key, h)
    ensures key in Inorder(t) ==> (multiset(s) == multiset(Inorder(t)) - multiset{key} <==> !Fails(t, key, h))
    ensures Ascending(Inorder(t)) ==>
      Ascending(s) && s == if Kept(t, key, h) then Inorder(t) else Without(Inorder(t), key)
  {
  }

  lemma RootShape(t: Tree, h: nat)
    requires Shape(t, h, if h == 0 then 0 else 1)
    ensures Shape(t, h, 0) && Deletable(t, h)
  {
    ShapeLess(t, h, if h == 0 then 0 else 1, 0);
  }

  lemma InsertedStaysSorted(t: Tree, key: int)
    requires Sorted(Inorder(t))
    ensures Sorted(Inserted(Inorder(t), key))
    ensures multiset(Inserted(Inorder(t), key)) == multiset(Inorder(t)) + multiset{key}
    ensures Ascending(Inorder(t)) && key !in Inorder(t) ==> Ascending(Inserted(Inorder(t), key))
  {
    InsertedSorted(Inorder(t), key);
    InsertedElements(Inorder(t), key);
    if Ascending(Inorder(t)) && key !in Inorder(t) { InsertedAscending(Inorder(t), key); }
  }

  /** An empty node above the old root holds the same keys. */
  lemma NewRoot(mem: Memory, t: Tree, s: BTNode, now: Memory, h: nat)
    requires Stored(mem, t) && Distinct(Ids(t)) && s !in mem && now == mem[s := Cell([], [t.id])]
    requires Shape(t, h, if h == 0 then 0 else 1) && |t.keys| == MAX_KEYS
    ensures var u := Tree(s, [], [t]);
      Stored(now, u) && Distinct(Ids(u)) && Splittable(u, 0, h + 1, 0) && Inorder(u) == Inorder(t)
  {
    var u := Tree(s, [], [t]);
    StoredIn(mem, t);
    StoredFrame(mem, now, t);
    assert [t][1..] == [];
    assert IdsAll([t]) == Ids(t);
    assert Shape(t, h, T - 1);
    assert CellOf(u) == Cell([], [t.id]);
    forall b | b in Ids(u)
      ensures Ids(u)[b] == 1
    {
      if b != s { assert b in Ids(t); }
    }
  }

  lemma RootHasOne(t: Tree, z: BTNode, h: nat)
    requires Splittable(t, 0, h, 0) && Shape(Split(t, 0, z), h, 0)
    ensures Shape(Split(t, 0, z), h, 1) && (t.keys == [] ==> |Split(t, 0, z).keys| == 1)
  {
  }

  lemma AfterDelete(t: Tree, key: int, h: nat)
    requires Deletable(t, h) && Sorted(Inorder(t))
    ensures Shape(Deleted(t, key, h), h, 0)
    ensures Sorted(Inorder(Deleted(t, key, h))) && DeletedOut(t, key, h, Inorder(Deleted(t, key, h)))
  {
    hide Inorder, Sorted, Ascending, Kept, Fails, Surplus, Deleted, Shape, Deletable, Without;
    DeletableLeast(t, h);
    DeletedShape(t, key, h, if h == 0 then 0 else 1);
    DeletedIs(t, key, h);
    if key in Inorder(t) { DeletedOnce(t, key, h); }
    if Ascending(Inorder(t)) {
      DeletedDistinct(t, key, h);
      WithoutContents(Inorder(t), key);
    }
  }

  lemma DeletableLeast(t: Tree, h: nat)
    requires Deletable(t, h)
    ensures Shape(t, h, if h == 0 then 0 else 1)
  {
  }

  lemma AbsentStays(t: Tree, key: int, h: nat)
    requires Deletable(t, h) && Sorted(Inorder(t)) && key !in Inorder(t)
    ensures DeletedOut(t, key, h, Inorder(t))
  {
    AbsentSurplus(t, key, h);
    WithoutAbsent(Inorder(t), key);
  }

  lemma OnlyKid(t: Tree, h: nat)
    requires Shape(t, h, 0) && |t.keys| == 0 && h > 0
    ensures |t.kids| == 1 && Shape(t.kids[0], h - 1, if h - 1 == 0 then 0 else 1) && Inorder(t.kids[0]) == Inorder(t)
  {
    FullChild(t, 0, h, 0);
    ShapeLess(t.kids[0], h - 1, T - 1, 1);
    ShapeLess(t.kids[0], h - 1, T - 1, 0);
  }

  lemma NotEmpty(t: Tree, h: nat)
    requires Shape(t, h, 0) && (h == 0 || |t.keys| > 0)
    ensures Shape(t, h, if h == 0 then 0 else 1)
  {
  }
}
