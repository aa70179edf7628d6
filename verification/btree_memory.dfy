/** How a B-tree value lies in its nodes. A memory says what every node contains; a tree
    is stored if each of its nodes says what the value says, and no node is used twice. */
module BTreeMemory {
  import opened BTreeNodes
  import opened BTreeShape

  type Memory = map<BTNode, Cell>

  ghost function Tops(ts: seq<Tree>): (s: seq<BTNode>)
    ensures |s| == |ts| && forall i :: 0 <= i < |ts| ==> s[i] == ts[i].id
  {
    seq(|ts|, i requires 0 <= i < |ts| => ts[i].id)
  }

  ghost function CellOf(t: Tree): Cell {
    Cell(t.keys, Tops(t.kids))
  }

  ghost function Ids(t: Tree): multiset<BTNode> {
    multiset{t.id} + IdsAll(t.kids)
  }

  ghost function IdsAll(ts: seq<Tree>): multiset<BTNode> {
    if ts == [] then multiset{} else Ids(ts[0]) + IdsAll(ts[1..])
  }

  lemma {:induction false} IdsConcat(a: seq<Tree>, b: seq<Tree>)
    ensures IdsAll(a + b) == IdsAll(a) + IdsAll(b)
  {
    if a == [] {
      assert a + b == b;
    } else {
      assert (a + b)[1..] == a[1..] + b;
      IdsConcat(a[1..], b);
    }
  }

  lemma IdsAt(ts: seq<Tree>, i: nat)
    requires i < |ts|
    ensures IdsAll(ts) == IdsAll(ts[..i]) + Ids(ts[i]) + IdsAll(ts[i + 1..])
  {
    assert ts == ts[..i] + ts[i..] && ts[i..][0] == ts[i] && ts[i..][1..] == ts[i + 1..];
    IdsConcat(ts[..i], ts[i..]);
  }

  ghost predicate Distinct(m: multiset<BTNode>) {
    forall b :: b in m ==> m[b] == 1
  }

  ghost predicate Stored(mem: Memory, t: Tree) {
    && t.id in mem && mem[t.id] == CellOf(t)
    && forall i :: 0 <= i < |t.kids| ==> Stored(mem, t.kids[i])
  }

  ghost predicate StoredAll(mem: Memory, ts: seq<Tree>) {
    forall i :: 0 <= i < |ts| ==> Stored(mem, ts[i])
  }

  lemma {:induction false} StoredIn(mem: Memory, t: Tree)
    requires Stored(mem, t)
    ensures forall b :: b in Ids(t) ==> b in mem
    decreases t, 1
  {
    StoredAllIn(mem, t.kids);
  }

  lemma {:induction false} StoredAllIn(mem: Memory, ts: seq<Tree>)
    requires StoredAll(mem, ts)
    ensures forall b :: b in IdsAll(ts) ==> b in mem
    decreases ts, 0
  {
    if ts != [] {
      assert Stored(mem, ts[0]);
      StoredIn(mem, ts[0]);
      assert forall i :: 0 <= i < |ts[1..]| ==> ts[1..][i] == ts[i + 1];
      StoredAllIn(mem, ts[1..]);
    }
  }

  /** The nodes in m say the same. */
  ghost predicate Same(mem: Memory, now: Memory, m: multiset<BTNode>) {
    forall b :: b in m && b in mem ==> b in now && now[b] == mem[b]
  }

  lemma {:induction false} StoredFrame(mem: Memory, now: Memory, t: Tree)
    requires Stored(mem, t) && Same(mem, now, Ids(t))
    ensures Stored(now, t)
    decreases t, 1
  {
    assert t.id in Ids(t);
    StoredAllFrame(mem, now, t.kids);
  }

  lemma {:induction false} StoredAllFrame(mem: Memory, now: Memory, ts: seq<Tree>)
    requires StoredAll(mem, ts) && Same(mem, now, IdsAll(ts))
    ensures StoredAll(now, ts)
    decreases ts, 0
  {
    if ts != [] {
      assert Stored(mem, ts[0]);
      assert forall b :: b in Ids(ts[0]) ==> b in IdsAll(ts);
      assert forall b :: b in IdsAll(ts[1..]) ==> b in IdsAll(ts);
      StoredFrame(mem, now, ts[0]);
      assert forall i :: 0 <= i < |ts[1..]| ==> ts[1..][i] == ts[i + 1];
      StoredAllFrame(mem, now, ts[1..]);
      forall i | 0 <= i < |ts|
        ensures Stored(now, ts[i])
      {
        if i > 0 { assert Stored(now, ts[1..][i - 1]); }
      }
    }
  }

  // ---- one tree turning into another -------------------------------------------------------

  /** Nodes outside t are as they were; now the memory holds u, made of nodes of t and
      new ones. */
  ghost predicate Became(mem: Memory, t: Tree, now: Memory, u: Tree) {
    && mem.Keys <= now.Keys
    && (forall b :: b in mem && b !in Ids(t) ==> now[b] == mem[b])
    && Stored(now, u) && Distinct(Ids(u)) && u.id == t.id
    && (forall b :: b in Ids(u) ==> b in Ids(t) || b !in mem)
  }

  lemma BecameSame(mem: Memory, t: Tree)
    requires Stored(mem, t) && Distinct(Ids(t))
    ensures Became(mem, t, mem, t)
  {
  }

  lemma BecameChain(m0: Memory, t0: Tree, m1: Memory, t1: Tree, m2: Memory, t2: Tree)
    requires Became(m0, t0, m1, t1) && Became(m1, t1, m2, t2)
    ensures Became(m0, t0, m2, t2)
  {
  }

  /** What becomes of a child becomes of the tree around it. */
  lemma BecameAround(mem: Memory, t: Tree, i: nat, now: Memory, c: Tree)
    requires Stored(mem, t) && Distinct(Ids(t)) && i < |t.kids| && Became(mem, t.kids[i], now, c)
    ensures Became(mem, t, now, WithKid(t, i, c))
  {
    hide Stored, StoredAll, Ids, IdsAll, Distinct;
    var k, u := t.kids[i], WithKid(t, i, c);
    var l, r := t.kids[..i], t.kids[i + 1..];
    assert u.kids[..i] == l && u.kids[i + 1..] == r;
    IdsAround(t, i);
    IdsAround(u, i);
    Parts(mem, t, i);
    StoredIn(mem, t);
    Apart(t.id, IdsAll(l), Ids(k), IdsAll(r));
    Exchanged(t.id, IdsAll(l), Ids(k), IdsAll(r), Ids(c), mem.Keys);
    StoredAllFrame(mem, now, l);
    StoredAllFrame(mem, now, r);
    KidsStored(now, u, i, l, r);
    Assembled(now, u);
  }

  lemma IdsAround(t: Tree, i: nat)
    requires i < |t.kids|
    ensures Ids(t) == multiset{t.id} + IdsAll(t.kids[..i]) + Ids(t.kids[i]) + IdsAll(t.kids[i + 1..])
  {
    IdsAt(t.kids, i);
  }

  lemma Parts(mem: Memory, t: Tree, i: nat)
    requires Stored(mem, t) && i < |t.kids|
    ensures t.id in mem && mem[t.id] == CellOf(t) && StoredAll(mem, t.kids[..i]) && StoredAll(mem, t.kids[i + 1..])
    ensures Stored(mem, t.kids[i])
  {
  }

  lemma Assembled(now: Memory, u: Tree)
    requires u.id in now && now[u.id] == CellOf(u) && StoredAll(now, u.kids)
    ensures Stored(now, u)
  {
  }

  lemma Apart(x: BTNode, l: multiset<BTNode>, k: multiset<BTNode>, r: multiset<BTNode>)
    requires Distinct(multiset{x} + l + k + r)
    ensures x !in k && forall b :: b in l || b in r ==> b !in k
    ensures Distinct(k)
  {
    var m := multiset{x} + l + k + r;
    forall b | b in k
      ensures b != x && l[b] == 0 && r[b] == 0 && k[b] == 1
    {
      assert b in m;
    }
  }

  /** Putting c in the place of k. */
  lemma Exchanged(x: BTNode, l: multiset<BTNode>, k: multiset<BTNode>, r: multiset<BTNode>, c: multiset<BTNode>,
      known: set<BTNode>)
    requires Distinct(multiset{x} + l + k + r) && Distinct(c)
    requires forall b :: b in multiset{x} + l + k + r ==> b in known
    requires forall b :: b in c ==> b in k || b !in known
    ensures Distinct(multiset{x} + l + c + r)
    ensures forall b :: b in multiset{x} + l + c + r ==> b in multiset{x} + l + k + r || b !in known
  {
    var m, w := multiset{x} + l + k + r, multiset{x} + l + c + r;
    Apart(x, l, k, r);
    forall b | b == x || b in l || b in r
      ensures b !in c
    {
      assert b in m;
    }
    forall b | b in w
      ensures w[b] == 1 && (b in m || b !in known)
    {
      if b in c {
        assert c[b] == 1;
      } else {
        assert b in m && m[b] == 1;
      }
    }
  }

  lemma KidsStored(now: Memory, u: Tree, i: nat, l: seq<Tree>, r: seq<Tree>)
    requires i < |u.kids| && u.kids[..i] == l && u.kids[i + 1..] == r
    requires StoredAll(now, l) && StoredAll(now, r) && Stored(now, u.kids[i])
    ensures StoredAll(now, u.kids)
  {
    forall j | 0 <= j < |u.kids|
      ensures Stored(now, u.kids[j])
    {
      if j < i { assert l[j] == u.kids[j]; }
      else if j > i { assert r[j - i - 1] == u.kids[j]; }
    }
  }

  // ---- one node and some neighbouring children rewritten -----------------------------------

  /** The children in part p of t give way to those in q. */
  lemma Spliced(mem: Memory, t: Tree, now: Memory, u: Tree, a: seq<Tree>, p: seq<Tree>, q: seq<Tree>, b: seq<Tree>)
    requires Stored(mem, t) && Distinct(Ids(t)) && t.kids == a + p + b
    requires u.id == t.id && u.kids == a + q + b
    requires mem.Keys <= now.Keys && now[t.id] == CellOf(u)
    requires forall x :: x in mem && x != t.id && x !in IdsAll(p) ==> now[x] == mem[x]
    requires StoredAll(now, q) && Distinct(IdsAll(q))
    requires forall x :: x in IdsAll(q) ==> x in IdsAll(p) || x !in mem
    ensures Became(mem, t, now, u)
  {
    hide Stored, StoredAll, Ids, IdsAll, Distinct, CellOf;
    ThreeParts(mem, t, a, p, b);
    IdsThree(u, a, q, b);
    StoredIn(mem, t);
    Apart(t.id, IdsAll(a), IdsAll(p), IdsAll(b));
    NotTop(t.id, IdsAll(a), IdsAll(p), IdsAll(b));
    Exchanged(t.id, IdsAll(a), IdsAll(p), IdsAll(b), IdsAll(q), mem.Keys);
    StoredAllFrame(mem, now, a);
    StoredAllFrame(mem, now, b);
    StoredThree(now, a, q, b);
    Assembled(now, u);
  }

  lemma NotTop(x: BTNode, l: multiset<BTNode>, k: multiset<BTNode>, r: multiset<BTNode>)
    requires Distinct(multiset{x} + l + k + r)
    ensures x !in l && x !in r
  {
    assert x in multiset{x} + l + k + r;
  }

  lemma IdsThree(t: Tree, a: seq<Tree>, p: seq<Tree>, b: seq<Tree>)
    requires t.kids == a + p + b
    ensures Ids(t) == multiset{t.id} + IdsAll(a) + IdsAll(p) + IdsAll(b)
  {
    IdsConcat(a + p, b);
    IdsConcat(a, p);
  }

  lemma ThreeParts(mem: Memory, t: Tree, a: seq<Tree>, p: seq<Tree>, b: seq<Tree>)
    requires Stored(mem, t) && t.kids == a + p + b
    ensures Ids(t) == multiset{t.id} + IdsAll(a) + IdsAll(p) + IdsAll(b)
    ensures t.id in mem && mem[t.id] == CellOf(t)
    ensures StoredAll(mem, a) && StoredAll(mem, p) && StoredAll(mem, b)
  {
    IdsThree(t, a, p, b);
    StoredHalves(mem, a + p, b);
    StoredHalves(mem, a, p);
  }

  lemma StoredThree(now: Memory, a: seq<Tree>, p: seq<Tree>, b: seq<Tree>)
    requires StoredAll(now, a) && StoredAll(now, p) && StoredAll(now, b)
    ensures StoredAll(now, a + p + b)
  {
  }

  lemma IdsOne(k: Tree)
    ensures IdsAll([k]) == multiset{k.id} + IdsAll(k.kids)
  {
    assert [k][1..] == [];
  }

  lemma IdsTwo(l: Tree, r: Tree)
    ensures IdsAll([l, r]) == multiset{l.id} + multiset{r.id} + IdsAll(l.kids) + IdsAll(r.kids)
  {
    assert [l, r][1..] == [r];
    IdsOne(r);
  }

  /** x, y and z on top of the nodes in m, nothing twice. */
  lemma DistinctTops(x: BTNode, y: BTNode, z: BTNode, a: multiset<BTNode>, m: multiset<BTNode>, b: multiset<BTNode>)
    requires Distinct(multiset{x} + a + (multiset{y} + multiset{z} + m) + b)
    ensures x != y && x != z && y != z && x !in m && y !in m && z !in m
    ensures Distinct(multiset{y} + multiset{z} + m)
  {
    var w := multiset{x} + a + (multiset{y} + multiset{z} + m) + b;
    assert x in w && y in w && z in w;
    forall c | c in multiset{y} + multiset{z} + m
      ensures (multiset{y} + multiset{z} + m)[c] == 1
    {
      assert c in w;
    }
  }

  lemma DistinctTop(x: BTNode, y: BTNode, a: multiset<BTNode>, m: multiset<BTNode>, b: multiset<BTNode>)
    requires Distinct(multiset{x} + a + (multiset{y} + m) + b)
    ensures x != y && x !in m && y !in m && Distinct(multiset{y} + m)
  {
    var w := multiset{x} + a + (multiset{y} + m) + b;
    assert x in w && y in w;
    forall c | c in multiset{y} + m
      ensures (multiset{y} + m)[c] == 1
    {
      assert c in w;
    }
  }

  /** Two neighbours share out their children anew. */
  lemma PairBecame(mem: Memory, t: Tree, now: Memory, u: Tree, a: seq<Tree>, l: Tree, r: Tree, l': Tree, r': Tree,
      b: seq<Tree>)
    requires Stored(mem, t) && Distinct(Ids(t)) && t.kids == a + [l, r] + b
    requires u.id == t.id && u.kids == a + [l', r'] + b && l'.id == l.id && r'.id == r.id
    requires l'.kids + r'.kids == l.kids + r.kids
    requires now == mem[t.id := CellOf(u)][l.id := CellOf(l')][r.id := CellOf(r')]
    ensures Became(mem, t, now, u)
  {
    hide Stored, StoredAll, Ids, IdsAll, Distinct, CellOf;
    ThreeParts(mem, t, a, [l, r], b);
    TwoOf(mem, l, r);
    Reshared(mem, l.kids, r.kids, l'.kids, r'.kids);
    IdsTwo(l, r);
    IdsTwo(l', r');
    var m := IdsAll(l.kids) + IdsAll(r.kids);
    assert IdsAll([l, r]) == multiset{l.id} + multiset{r.id} + m;
    DistinctTops(t.id, l.id, r.id, IdsAll(a), m, IdsAll(b));
    StoredAllFrame(mem, now, l'.kids);
    StoredAllFrame(mem, now, r'.kids);
    Assembled(now, l');
    Assembled(now, r');
    TwoStored(now, l', r');
    assert IdsAll([l', r']) == IdsAll([l, r]);
    Spliced(mem, t, now, u, a, [l, r], [l', r'], b);
  }

  lemma OneOf(mem: Memory, t: Tree)
    requires StoredAll(mem, [t])
    ensures t.id in mem && mem[t.id] == CellOf(t) && StoredAll(mem, t.kids)
  {
    assert Stored(mem, [t][0]);
  }

  lemma TwoOf(mem: Memory, l: Tree, r: Tree)
    requires StoredAll(mem, [l, r])
    ensures l.id in mem && mem[l.id] == CellOf(l) && StoredAll(mem, l.kids)
    ensures r.id in mem && mem[r.id] == CellOf(r) && StoredAll(mem, r.kids)
  {
    assert Stored(mem, [l, r][0]) && Stored(mem, [l, r][1]);
  }

  lemma StoredBoth(mem: Memory, a: seq<Tree>, b: seq<Tree>)
    requires StoredAll(mem, a) && StoredAll(mem, b)
    ensures StoredAll(mem, a + b)
  {
  }

  lemma NoIds(mem: Memory)
    ensures StoredAll(mem, []) && IdsAll([]) == multiset{}
  {
  }

  lemma TwoStored(now: Memory, l: Tree, r: Tree)
    requires Stored(now, l) && Stored(now, r)
    ensures StoredAll(now, [l, r])
  {
  }

  lemma Reshared(mem: Memory, a: seq<Tree>, b: seq<Tree>, a': seq<Tree>, b': seq<Tree>)
    requires StoredAll(mem, a) && StoredAll(mem, b) && a' + b' == a + b
    ensures StoredAll(mem, a') && StoredAll(mem, b')
    ensures IdsAll(a') + IdsAll(b') == IdsAll(a) + IdsAll(b)
  {
    hide Stored, StoredAll, IdsAll;
    IdsConcat(a, b);
    IdsConcat(a', b');
    StoredBoth(mem, a, b);
    StoredHalves(mem, a', b');
  }

  lemma StoredHalves(mem: Memory, a: seq<Tree>, b: seq<Tree>)
    requires StoredAll(mem, a + b)
    ensures StoredAll(mem, a) && StoredAll(mem, b)
  {
    hide Stored;
    var s := a + b;
    forall i | 0 <= i < |a|
      ensures Stored(mem, a[i])
    {
      assert a[i] == s[i];
    }
    forall i | 0 <= i < |b|
      ensures Stored(mem, b[i])
    {
      assert b[i] == s[|a| + i];
    }
  }

  /** Two neighbours become one. */
  lemma MergeBecame(mem: Memory, t: Tree, now: Memory, u: Tree, a: seq<Tree>, l: Tree, r: Tree, c: Tree, b: seq<Tree>)
    requires Stored(mem, t) && Distinct(Ids(t)) && t.kids == a + [l, r] + b
    requires u.id == t.id && u.kids == a + [c] + b && c.id == l.id && c.kids == l.kids + r.kids
    requires now == mem[t.id := CellOf(u)][l.id := CellOf(c)]
    ensures Became(mem, t, now, u)
  {
    hide Stored, StoredAll, Ids, IdsAll, Distinct, CellOf;
    ThreeParts(mem, t, a, [l, r], b);
    TwoOf(mem, l, r);
    StoredBoth(mem, l.kids, r.kids);
    IdsConcat(l.kids, r.kids);
    IdsTwo(l, r);
    IdsOne(c);
    OneStored(now, c);
    var m := IdsAll(c.kids);
    assert IdsAll([l, r]) == multiset{l.id} + multiset{r.id} + m;
    DistinctTops(t.id, l.id, r.id, IdsAll(a), m, IdsAll(b));
    StoredAllFrame(mem, now, c.kids);
    Assembled(now, c);
    Lesser(l.id, r.id, m);
    Spliced(mem, t, now, u, a, [l, r], [c], b);
  }

  lemma OneStored(now: Memory, c: Tree)
    ensures Stored(now, c) ==> StoredAll(now, [c])
  {
  }

  lemma Lesser(y: BTNode, z: BTNode, m: multiset<BTNode>)
    requires Distinct(multiset{y} + multiset{z} + m)
    ensures Distinct(multiset{y} + m)
    ensures forall x :: x in multiset{y} + m ==> x in multiset{y} + multiset{z} + m
  {
    forall x | x in multiset{y} + m
      ensures (multiset{y} + m)[x] == 1 && x in multiset{y} + multiset{z} + m
    {
      assert x in multiset{y} + multiset{z} + m;
    }
  }

  /** One child becomes two, the second in a new node. */
  lemma SplitBecame(mem: Memory, t: Tree, now: Memory, u: Tree, a: seq<Tree>, y: Tree, l: Tree, r: Tree, b: seq<Tree>)
    requires Stored(mem, t) && Distinct(Ids(t)) && t.kids == a + [y] + b
    requires u.id == t.id && u.kids == a + [l, r] + b && l.id == y.id && r.id !in mem && l.kids + r.kids == y.kids
    requires now == mem[t.id := CellOf(u)][y.id := CellOf(l)][r.id := CellOf(r)]
    ensures Became(mem, t, now, u)
  {
    hide Stored, StoredAll, Ids, IdsAll, Distinct, CellOf;
    StoredIn(mem, t);
    ThreeParts(mem, t, a, [y], b);
    OneOf(mem, y);
    NoIds(mem);
    assert y.kids + [] == y.kids;
    Reshared(mem, y.kids, [], l.kids, r.kids);
    assert IdsAll(l.kids) + IdsAll(r.kids) == IdsAll(y.kids);
    IdsOne(y);
    IdsTwo(l, r);
    var m := IdsAll(y.kids);
    DistinctTop(t.id, y.id, IdsAll(a), m, IdsAll(b));
    assert r.id !in multiset{t.id} + IdsAll(a) + IdsAll([y]) + IdsAll(b);
    OneMore(y.id, r.id, m);
    assert IdsAll([l, r]) == multiset{y.id} + multiset{r.id} + m;
    StoredAllFrame(mem, now, l.kids);
    StoredAllFrame(mem, now, r.kids);
    Assembled(now, l);
    Assembled(now, r);
    TwoStored(now, l, r);
    Spliced(mem, t, now, u, a, [y], [l, r], b);
  }

  lemma OneMore(y: BTNode, z: BTNode, m: multiset<BTNode>)
    requires Distinct(multiset{y} + m) && z != y && z !in m
    ensures Distinct(multiset{y} + multiset{z} + m)
  {
    forall x | x in multiset{y} + multiset{z} + m
      ensures (multiset{y} + multiset{z} + m)[x] == 1
    {
      if x != z { assert x in multiset{y} + m; }
    }
  }

  /** Only the keys of the top node change. */
  lemma KeysBecame(mem: Memory, t: Tree, now: Memory, u: Tree)
    requires Stored(mem, t) && Distinct(Ids(t)) && u.id == t.id && u.kids == t.kids
    requires now == mem[t.id := CellOf(u)]
    ensures Became(mem, t, now, u)
  {
    assert t.kids == t.kids + [] + [];
    Spliced(mem, t, now, u, t.kids, [], [], []);
  }
}
