/** The skip list operations. The random height of a new node is a free choice. */
module SkipLists {
  import opened SkipListLinks

  const LEAST_KEY := -0x8000_0000

  ghost predicate Synced(m: Links)
    reads m.Keys`forward
  {
    forall b :: b in m ==> b.forward == m[b]
  }

  /** No node is taller than cur, and cur is no taller than it must be. */
  ghost predicate Levels(nodes: seq<SLNode>, cur: nat) {
    && 1 <= cur <= MAX_LEVEL
    && (forall p :: 0 < p < |nodes| ==> nodes[p].level <= cur)
    && (cur > 1 ==> exists p :: 0 < p < |nodes| && nodes[p].level == cur)
  }

  /** u is the last position of level l in front of q. */
  ghost predicate Precedes(nodes: seq<SLNode>, u: nat, l: nat, q: nat) {
    u < |nodes| && u < q && nodes[u].level > l && Next(nodes, u, l) >= q
  }

  /** update names, for the levels in [from, to), the last node in front of q. */
  ghost predicate Path(nodes: seq<SLNode>, update: seq<SLNode?>, pos: seq<nat>, q: nat, from: int, to: nat) {
    && |update| == |pos| == MAX_LEVEL
    && forall l: nat :: from <= l < to && l < MAX_LEVEL ==> Precedes(nodes, pos[l], l, q) && update[l] == nodes[pos[l]]
  }

  ghost predicate Valued(nodes: seq<SLNode>, vals: seq<int>)
    reads nodes`val
  {
    |vals| == |nodes| && forall p :: 0 < p < |nodes| ==> nodes[p].val == vals[p]
  }

  /** The keys and values of the nodes behind the header. */
  ghost predicate Represents(nodes: seq<SLNode>, vals: seq<int>, contents: map<int, int>) {
    && |vals| == |nodes|
    && (forall p :: 0 < p < |nodes| ==> nodes[p].key in contents && contents[nodes[p].key] == vals[p])
    && forall k :: k in contents ==> Holds(nodes, k)
  }

  ghost predicate Holds(nodes: seq<SLNode>, k: int) {
    exists p :: 0 < p < |nodes| && nodes[p].key == k
  }

  /** Everything that holds between operations. */
  ghost predicate Consistent(header: SLNode, nodes: seq<SLNode>, links: Links, vals: seq<int>, contents: map<int, int>,
      cur: nat, size: nat)
    reads links.Keys`forward, nodes`val
  {
    && Ordered(nodes) && nodes[0] == header
    && Synced(links) && Linked(links, nodes)
    && Levels(nodes, cur)
    && Valued(nodes, vals) && Represents(nodes, vals, contents)
    && size == |nodes| - 1
  }

  // ---- stepping along the chains -----------------------------------------------------------

  /** At position p, on level l, in front of key, with the way on known. */
  ghost predicate Standing(m: Links, nodes: seq<SLNode>, p: nat, l: nat, key: int)
    requires Ordered(nodes)
  {
    && p < |nodes| && p < Rank(nodes, key) && nodes[p].level > l
    && nodes[p] in m && l < |m[nodes[p]]| && m[nodes[p]][l] == NodeAt(nodes, Next(nodes, p, l))
  }

  lemma Stand(m: Links, nodes: seq<SLNode>, p: nat, l: nat, key: int)
    requires Ordered(nodes) && Linked(m, nodes) && l < MAX_LEVEL
    requires p < |nodes| && p < Rank(nodes, key) && nodes[p].level > l
    ensures Standing(m, nodes, p, l, key)
  {
    assert LinkedAt(m, nodes, l);
    assert LinkedNode(m, nodes, p, l);
  }

  lemma Advance(m: Links, nodes: seq<SLNode>, p: nat, l: nat, key: int)
    requires Ordered(nodes) && Linked(m, nodes) && l < MAX_LEVEL && Standing(m, nodes, p, l, key)
    ensures var f, r := m[nodes[p]][l], Next(nodes, p, l);
      if f != null && f.key < key then Standing(m, nodes, r, l, key) && f == nodes[r] && r > p
      else Precedes(nodes, p, l, Rank(nodes, key))
  {
    var f, r := m[nodes[p]][l], Next(nodes, p, l);
    if f != null && f.key < key { Stand(m, nodes, r, l, key); }
  }

  lemma BottomNext(nodes: seq<SLNode>, p: nat)
    requires Ordered(nodes) && p < |nodes|
    ensures Next(nodes, p, 0) == p + 1
  {
  }

  lemma RankLevel(nodes: seq<SLNode>, key: int)
    requires Ordered(nodes)
    ensures 0 < Rank(nodes, key) <= |nodes|
    ensures nodes != [] && nodes[0].level == MAX_LEVEL
  {
  }

  lemma FoundAt(nodes: seq<SLNode>, vals: seq<int>, contents: map<int, int>, key: int)
    requires Ordered(nodes) && Represents(nodes, vals, contents)
    ensures var q := Rank(nodes, key); key in contents <==> q < |nodes| && nodes[q].key == key
    ensures key in contents ==> contents[key] == vals[Rank(nodes, key)]
  {
    if key in contents {
      assert Holds(nodes, key);
      var p :| 0 < p < |nodes| && nodes[p].key == key;
      assert p >= Rank(nodes, key);
    }
  }

  // ---- threading a new node in -------------------------------------------------------------

  /** The chains below level i run through n, those from i on do not yet. */
  ghost predicate Spliced(m: Links, nodes: seq<SLNode>, q: nat, n: SLNode, i: nat)
    requires q <= |nodes|
  {
    && n in m && |m[n]| == n.level
    && (forall p :: 0 <= p < |nodes| ==> nodes[p] in m && |m[nodes[p]]| == nodes[p].level)
    && (forall l :: 0 <= l < i ==> LinkedAt(m, With(nodes, q, n), l))
    && forall l :: i <= l < MAX_LEVEL ==> LinkedAt(m, nodes, l)
  }

  lemma SplicedStart(m: Links, nodes: seq<SLNode>, q: nat, n: SLNode, f: seq<SLNode?>)
    requires Linked(m, nodes) && n !in m && |f| == n.level && q <= |nodes|
    ensures n !in nodes && Spliced(m[n := f], nodes, q, n, 0)
  {
    forall p | 0 <= p < |nodes|
      ensures nodes[p] != n
    {
    }
    var w := m[n := f];
    forall l | 0 <= l < MAX_LEVEL
      ensures LinkedAt(w, nodes, l)
    {
      assert LinkedAt(m, nodes, l);
      forall p | 0 <= p < |nodes| && nodes[p].level > l
        ensures LinkedNode(w, nodes, p, l)
      {
        assert LinkedNode(m, nodes, p, l);
      }
    }
  }

  lemma SplicedStep(m: Links, nodes: seq<SLNode>, q: nat, n: SLNode, u: nat, i: nat)
    requires Ordered(nodes) && q <= |nodes| && Spliced(m, nodes, q, n, i) && n !in nodes
    requires Precedes(nodes, u, i, q) && i < n.level <= MAX_LEVEL
    ensures nodes[u] in m && nodes[u] != n && i < |m[nodes[u]]| && i < |m[n]|
    ensures Spliced(Threaded(m, nodes[u], n, i), nodes, q, n, i + 1)
  {
    hide With, LinkedAt, Next, Ordered;
    assert LinkedAt(m, nodes, i);
    ThreadedLinks(m, nodes, q, n, u, i);
    assert nodes[u] in nodes;
    forall l | 0 <= l < i
      ensures LinkedAt(Threaded(m, nodes[u], n, i), With(nodes, q, n), l)
    {
      ThreadedElsewhere(m, With(nodes, q, n), nodes[u], n, i, l);
    }
    forall l | i < l < MAX_LEVEL
      ensures LinkedAt(Threaded(m, nodes[u], n, i), nodes, l)
    {
      ThreadedElsewhere(m, nodes, nodes[u], n, i, l);
    }
  }

  lemma SplicedDone(m: Links, nodes: seq<SLNode>, q: nat, n: SLNode)
    requires 0 < q <= |nodes| && n.level <= MAX_LEVEL && Spliced(m, nodes, q, n, n.level)
    ensures Linked(m, With(nodes, q, n))
  {
    hide LinkedAt, Next;
    forall l | 0 <= l < MAX_LEVEL
      ensures LinkedAt(m, With(nodes, q, n), l)
    {
      if n.level <= l { LinkedAbove(m, nodes, q, n, l); }
    }
  }

  // ---- cutting a node out ------------------------------------------------------------------

  /** The chains below level i skip x, those from i on run through it. */
  ghost predicate Cut(m: Links, nodes: seq<SLNode>, q: nat, x: SLNode, i: nat)
    requires q <= |nodes|
  {
    && x in m && |m[x]| == x.level
    && (forall p :: 0 <= p < |nodes| ==> nodes[p] in m && |m[nodes[p]]| == nodes[p].level)
    && (forall l :: 0 <= l < i ==> LinkedAt(m, nodes, l))
    && forall l :: i <= l < MAX_LEVEL ==> LinkedAt(m, With(nodes, q, x), l)
  }

  lemma CutStart(m: Links, nodes: seq<SLNode>, q: nat, x: SLNode)
    requires q <= |nodes| && Linked(m, With(nodes, q, x))
    ensures Cut(m, nodes, q, x, 0)
  {
    var s := With(nodes, q, x);
    assert s[q] == x;
    forall p | 0 <= p < |nodes|
      ensures nodes[p] in m && |m[nodes[p]]| == nodes[p].level
    {
      assert nodes[p] == s[Shifted(p, q)];
    }
  }

  /** The pointer in front of q leads to x exactly at the levels that x reaches. */
  lemma CutPointer(m: Links, nodes: seq<SLNode>, q: nat, x: SLNode, u: nat, i: nat)
    requires q <= |nodes| && Ordered(With(nodes, q, x)) && Cut(m, nodes, q, x, i) && i < MAX_LEVEL
    requires Precedes(With(nodes, q, x), u, i, q)
    ensures u < |nodes| && With(nodes, q, x)[u] == nodes[u] && nodes[u] in m && i < |m[nodes[u]]|
    ensures m[nodes[u]][i] == x <==> x.level > i
    ensures x.level > i ==> Next(With(nodes, q, x), u, i) == q
  {
    hide With;
    var s := With(nodes, q, x);
    assert LinkedAt(m, s, i);
    assert LinkedNode(m, s, u, i);
    var r := Next(s, u, i);
    assert s[q] == x;
    if r < |s| && s[r] == x { Distinct(s, r, q); }
  }

  lemma AtLevel(m: Links, nodes: seq<SLNode>, q: nat, x: SLNode, i: nat)
    requires q <= |nodes| && Cut(m, nodes, q, x, i) && i < MAX_LEVEL
    ensures LinkedAt(m, With(nodes, q, x), i)
  {
  }

  lemma SkippingLengths(m: Links, u: SLNode, x: SLNode, l: nat)
    requires u in m && x in m && l < |m[u]| && l < |m[x]|
    ensures forall b :: b in m ==> b in Skipping(m, u, x, l) && |Skipping(m, u, x, l)[b]| == |m[b]|
  {
  }

  lemma CutStep(m: Links, nodes: seq<SLNode>, q: nat, x: SLNode, u: nat, i: nat)
    requires q <= |nodes| && Ordered(With(nodes, q, x)) && Cut(m, nodes, q, x, i) && i < x.level && i < MAX_LEVEL
    requires Precedes(With(nodes, q, x), u, i, q) && nodes[u] != x
    ensures nodes[u] in m && i < |m[nodes[u]]| && i < |m[x]|
    ensures Cut(Skipping(m, nodes[u], x, i), nodes, q, x, i + 1)
  {
    hide With, LinkedAt, Next, Ordered, Skipping, LinkedNode;
    CutPointer(m, nodes, q, x, u, i);
    AtLevel(m, nodes, q, x, i);
    SkippingLinks(m, nodes, q, x, u, i);
    SkippingLengths(m, nodes[u], x, i);
    forall l | 0 <= l < i
      ensures LinkedAt(Skipping(m, nodes[u], x, i), nodes, l)
    {
      SkippingElsewhere(m, nodes, nodes[u], x, i, l);
    }
    forall l | i < l < MAX_LEVEL
      ensures LinkedAt(Skipping(m, nodes[u], x, i), With(nodes, q, x), l)
    {
      SkippingElsewhere(m, With(nodes, q, x), nodes[u], x, i, l);
    }
  }

  lemma CutDone(m: Links, nodes: seq<SLNode>, q: nat, x: SLNode, i: nat)
    requires 0 < q <= |nodes| && x.level <= i && Cut(m, nodes, q, x, i)
    ensures Linked(m, nodes)
  {
    hide LinkedAt, Next;
    forall l | 0 <= l < MAX_LEVEL
      ensures LinkedAt(m, nodes, l)
    {
      if i <= l { LinkedAbove(m, nodes, q, x, l); }
    }
  }

  // ---- contents ----------------------------------------------------------------------------

  lemma InsertedContents(nodes: seq<SLNode>, vals: seq<int>, contents: map<int, int>, n: SLNode, val: int)
    requires Ordered(nodes) && Represents(nodes, vals, contents)
    requires var q := Rank(nodes, n.key); q < |nodes| ==> nodes[q].key != n.key
    ensures var q := Rank(nodes, n.key);
      Represents(With(nodes, q, n), With(vals, q, val), contents[n.key := val])
  {
    hide With, Holds;
    var q := Rank(nodes, n.key);
    var s, v, c := With(nodes, q, n), With(vals, q, val), contents[n.key := val];
    forall p | 0 < p < |s|
      ensures s[p].key in c && c[s[p].key] == v[p]
    {
      if p != q {
        var o := if p < q then p else p - 1;
        assert s[p] == nodes[o] && v[p] == vals[o] && nodes[o].key != n.key;
      }
    }
    forall k | k in c
      ensures Holds(s, k)
    {
      HoldsWith(nodes, q, n, k);
    }
  }

  lemma HoldsWith(nodes: seq<SLNode>, q: nat, n: SLNode, k: int)
    requires 0 < q <= |nodes|
    ensures Holds(With(nodes, q, n), k) <==> Holds(nodes, k) || k == n.key
  {
    hide With;
    var s := With(nodes, q, n);
    assert s[q] == n;
    if Holds(nodes, k) {
      var o :| 0 < o < |nodes| && nodes[o].key == k;
      assert s[Shifted(o, q)] == nodes[o];
    }
    if Holds(s, k) && k != n.key {
      var o :| 0 < o < |s| && s[o].key == k;
      assert nodes[if o < q then o else o - 1] == s[o];
    }
  }

  lemma DeletedContents(nodes: seq<SLNode>, vals: seq<int>, contents: map<int, int>, q: nat, x: SLNode, v: int)
    requires 0 < q <= |nodes| && Ordered(With(nodes, q, x)) && |vals| == |nodes|
    requires Represents(With(nodes, q, x), With(vals, q, v), contents)
    ensures Represents(nodes, vals, contents - {x.key})
  {
    hide With, Holds;
    var s, w, c := With(nodes, q, x), With(vals, q, v), contents - {x.key};
    forall p | 0 < p < |nodes|
      ensures nodes[p].key in c && c[nodes[p].key] == vals[p]
    {
      var o := Shifted(p, q);
      assert s[o] == nodes[p] && w[o] == vals[p] && s[q] == x;
    }
    forall k | k in c
      ensures Holds(nodes, k)
    {
      assert Holds(s, k);
      HoldsWith(nodes, q, x, k);
    }
  }

  lemma OrderedWithout(nodes: seq<SLNode>, q: nat, x: SLNode)
    requires 0 < q <= |nodes| && Ordered(With(nodes, q, x))
    ensures Ordered(nodes) && x !in nodes && nodes[0] == With(nodes, q, x)[0]
  {
    hide With;
    var s := With(nodes, q, x);
    forall p | 0 <= p < |nodes|
      ensures s[Shifted(p, q)] == nodes[p] && nodes[p] != x
    {
      if nodes[p] == x { Distinct(s, Shifted(p, q), q); }
    }
  }

  method RandomLevel() returns (level: nat)
    ensures 1 <= level <= MAX_LEVEL == 16
  {
    level := 1;
    var again: bool := *;
    while again && level < MAX_LEVEL
      invariant 1 <= level <= MAX_LEVEL
      decreases MAX_LEVEL - level
    {
      level := level + 1;
      again := *;
    }
  }

  /** Threads n in behind the nodes named by update, level by level. */
  method ThreadIn(n: SLNode, update: seq<SLNode?>, ghost pos: seq<nat>, ghost q: nat, ghost m0: Links,
      ghost nodes: seq<SLNode>)
    returns (ghost m: Links)
    requires Ordered(nodes) && 0 < q <= |nodes| && n !in nodes && n.level <= MAX_LEVEL
    requires n in m0 && Spliced(m0, nodes, q, n, 0) && Synced(m0) && Path(nodes, update, pos, q, 0, n.level)
    modifies m0.Keys`forward
    ensures Synced(m) && m.Keys == m0.Keys && Linked(m, With(nodes, q, n))
  {
    hide Next, Ordered, Linked, With, Spliced, LinkedAt, NodeAt;
    m := m0;
    for i := 0 to n.level
      invariant Spliced(m, nodes, q, n, i) && Synced(m) && m.Keys == m0.Keys
    {
      SplicedStep(m, nodes, q, n, pos[i], i);
      n.forward := n.forward[i := update[i].forward[i]];
      update[i].forward := update[i].forward[i := n];
      m := Threaded(m, nodes[pos[i]], n, i);
    }
    SplicedDone(m, nodes, q, n);
  }

  /** A new node of the given height, in its place. */
  method AddNode(key: int, val: int, level: nat, next: nat, update: seq<SLNode?>, ghost pos: seq<nat>,
      ghost header: SLNode, ghost links: Links, ghost nodes: seq<SLNode>, ghost vals: seq<int>,
      ghost contents: map<int, int>, ghost cur: nat, ghost size: nat)
    returns (ghost m: Links, ghost ns: seq<SLNode>, ghost vs: seq<int>)
    requires Consistent(header, nodes, links, vals, contents, cur, size) && key !in contents
    requires 1 <= level <= MAX_LEVEL && next == (if level > cur then level else cur)
    requires Path(nodes, update, pos, Rank(nodes, key), 0, level)
    modifies links.Keys`forward
    ensures fresh(m.Keys - links.Keys) && links.Keys <= m.Keys
    ensures Consistent(header, ns, m, vs, contents[key := val], next, size + 1)
  {
    hide Next, Ordered, Linked, With, Spliced, LinkedAt, NodeAt, Path, Rank, Represents, Levels;
    ghost var q := Rank(nodes, key);
    RankLevel(nodes, key);
    FoundAt(nodes, vals, contents, key);
    var n := new SLNode(key, val, level);
    SplicedStart(links, nodes, q, n, n.forward);
    ValuedWith(nodes, vals, q, n, val);
    ns, vs := With(nodes, q, n), With(vals, q, val);
    m := ThreadIn(n, update, pos, q, links[n := n.forward], nodes);
    OrderedWith(nodes, n);
    InsertedContents(nodes, vals, contents, n, val);
    InsertedLevels(nodes, cur, next, q, n);
    WithFirst(nodes, q, n);
  }

  lemma WithFirst(nodes: seq<SLNode>, q: nat, n: SLNode)
    requires 0 < q <= |nodes|
    ensures |With(nodes, q, n)| == |nodes| + 1 && With(nodes, q, n)[0] == nodes[0]
  {
  }

  ghost function Without<A>(s: seq<A>, q: nat): seq<A>
    requires q < |s|
  {
    s[..q] + s[q + 1..]
  }

  lemma WithoutWith<A>(s: seq<A>, q: nat)
    requires q < |s|
    ensures |Without(s, q)| == |s| - 1 && s == With(Without(s, q), q, s[q])
  {
  }

  /** Takes x out of the chains, level by level, up to the first that it does not reach. */
  method CutOut(x: SLNode, update: seq<SLNode?>, ghost pos: seq<nat>, ghost q: nat, ghost m0: Links,
      ghost nodes: seq<SLNode>, cur: nat)
    returns (ghost m: Links)
    requires 0 < q <= |nodes| && Ordered(With(nodes, q, x)) && Synced(m0) && Linked(m0, With(nodes, q, x))
    requires x.level <= cur <= MAX_LEVEL && Path(With(nodes, q, x), update, pos, q, 0, cur)
    modifies m0.Keys`forward
    ensures Synced(m) && m.Keys == m0.Keys && Linked(m, nodes)
  {
    hide Next, Ordered, Linked, With, Cut, LinkedAt, NodeAt, Precedes;
    ghost var s := With(nodes, q, x);
    m := m0;
    CutStart(m, nodes, q, x);
    OrderedWithout(nodes, q, x);
    var i: nat := 0;
    while i < cur
      invariant i <= cur && i <= x.level
      invariant Cut(m, nodes, q, x, i) && Synced(m) && m.Keys == m0.Keys
    {
      assert Precedes(s, pos[i], i, q);
      CutPointer(m, nodes, q, x, pos[i], i);
      if update[i].forward[i] != x { break; }
      assert nodes[pos[i]] in nodes;
      CutStep(m, nodes, q, x, pos[i], i);
      update[i].forward := update[i].forward[i := x.forward[i]];
      m := Skipping(m, nodes[pos[i]], x, i);
      i := i + 1;
    }
    CutDone(m, nodes, q, x, i);
  }

  /** The node at position q leaves, and with it its key. */
  method RemoveNode(x: SLNode, update: seq<SLNode?>, ghost pos: seq<nat>, ghost q: nat, ghost header: SLNode,
      ghost links: Links, ghost nodes: seq<SLNode>, ghost vals: seq<int>, ghost contents: map<int, int>, cur: nat,
      ghost size: nat)
    returns (ghost m: Links, ghost ns: seq<SLNode>, ghost vs: seq<int>)
    requires Consistent(header, nodes, links, vals, contents, cur, size)
    requires 0 < q < |nodes| && nodes[q] == x && Path(nodes, update, pos, q, 0, cur)
    modifies links.Keys`forward
    ensures m.Keys == links.Keys && ns != [] && ns[0] == header && |ns| == size
    ensures Ordered(ns) && Synced(m) && Linked(m, ns) && Valued(ns, vs) && Represents(ns, vs, contents - {x.key})
    ensures forall p :: 0 < p < |ns| ==> ns[p].level <= cur
  {
    ns, vs := Without(nodes, q), Without(vals, q);
    WithoutWith(nodes, q);
    WithoutWith(vals, q);
    assert x.level <= cur;
    hide Next, Ordered, Linked, With, Without, NodeAt, Path, Represents;
    OrderedWithout(ns, q, x);
    DeletedContents(ns, vs, contents, q, x, vals[q]);
    WithFirst(ns, q, x);
    KeptValues(nodes, vals, q, ns, vs, x);
    m := CutOut(x, update, pos, q, links, ns, cur);
  }

  method Dropped(x: SLNode, update: seq<SLNode?>, ghost pos: seq<nat>, ghost q: nat, header: SLNode, ghost links: Links,
      ghost nodes: seq<SLNode>, ghost vals: seq<int>, ghost contents: map<int, int>, cur: nat, ghost size: nat)
    returns (level: nat, ghost m: Links, ghost ns: seq<SLNode>, ghost vs: seq<int>)
    requires Consistent(header, nodes, links, vals, contents, cur, size)
    requires 0 < q < |nodes| && nodes[q] == x && Path(nodes, update, pos, q, 0, cur)
    modifies links.Keys`forward
    ensures m.Keys == links.Keys && size > 0
    ensures Consistent(header, ns, m, vs, contents - {x.key}, level, size - 1)
  {
    assert 1 <= cur <= MAX_LEVEL;
    m, ns, vs := RemoveNode(x, update, pos, q, header, links, nodes, vals, contents, cur, size);
    hide Next, Ordered, Linked, NodeAt, Path, Represents, Levels, Valued;
    level := Lowered(header, cur, m, ns);
  }

  lemma KeptValues(nodes: seq<SLNode>, vals: seq<int>, q: nat, ns: seq<SLNode>, vs: seq<int>, x: SLNode)
    requires Valued(nodes, vals) && 0 < q < |nodes| && |ns| == |nodes| - 1 && |vs| == |vals| - 1
    requires nodes == With(ns, q, x) && vals == With(vs, q, vals[q])
    ensures Valued(ns, vs)
    ensures forall p :: 0 < p < |ns| ==> ns[p] in nodes && ns[p] == nodes[Shifted(p, q)]
  {
    hide With;
    forall p | 0 < p < |ns|
      ensures ns[p].val == vs[p] && ns[p] == nodes[Shifted(p, q)]
    {
      assert vals[Shifted(p, q)] == vs[p];
    }
  }

  /** What consistency says about the place of key. */
  lemma PlaceOf(header: SLNode, nodes: seq<SLNode>, links: Links, vals: seq<int>, contents: map<int, int>, cur: nat,
      size: nat, key: int)
    requires Consistent(header, nodes, links, vals, contents, cur, size)
    ensures Ordered(nodes) && 0 < Rank(nodes, key) <= |nodes| && 1 <= cur <= MAX_LEVEL && nodes[0] == header
    ensures |vals| == |nodes|
    ensures key in contents <==> Rank(nodes, key) < |nodes| && nodes[Rank(nodes, key)].key == key
  {
    FoundAt(nodes, vals, contents, key);
    RankLevel(nodes, key);
  }

  /** The node of key gets another value. */
  method Overwrite(n: SLNode, val: int, ghost header: SLNode, ghost links: Links, ghost nodes: seq<SLNode>,
      ghost vals: seq<int>, ghost contents: map<int, int>, ghost cur: nat, ghost size: nat)
    requires Consistent(header, nodes, links, vals, contents, cur, size)
    requires var q := Rank(nodes, n.key); q < |nodes| && nodes[q] == n
    modifies n`val
    ensures Consistent(header, nodes, links, vals[Rank(nodes, n.key) := val], contents[n.key := val], cur, size)
  {
    hide Next, Rank, Ordered, Linked, Represents, Levels;
    RankLevel(nodes, n.key);
    Revalued(nodes, vals, contents, n.key, val);
    n.val := val;
  }

  class SkipList {
    const header: SLNode
    var curLevel: nat
    var size: nat
    ghost var nodes: seq<SLNode>
    ghost var links: Links
    ghost var vals: seq<int>
    ghost var contents: map<int, int>

    ghost predicate Valid()
      reads this, links.Keys, nodes
    {
      Consistent(header, nodes, links, vals, contents, curLevel, size)
    }

    constructor ()
      ensures Valid() && contents == map[] && fresh(links.Keys)
    {
      var h := new SLNode(LEAST_KEY, 0, MAX_LEVEL);
      header := h;
      curLevel := 1;
      size := 0;
      nodes := [h];
      links := map[h := seq(MAX_LEVEL, _ => null)];
      vals := [0];
      contents := map[];
      new;
      forall l | 0 <= l < MAX_LEVEL
        ensures LinkedAt(links, nodes, l)
      {
        assert LinkedNode(links, nodes, 0, l);
      }
    }

    /** Follows level i from c as long as the keys are below key. */
    method Along(c: SLNode, i: nat, key: int, ghost from: nat) returns (cur: SLNode, ghost p: nat)
      requires Valid() && i < MAX_LEVEL && from < |nodes| && from < Rank(nodes, key) && c == nodes[from]
      requires nodes[from].level > i
      ensures Precedes(nodes, p, i, Rank(nodes, key)) && cur == nodes[p] && nodes[p].level > i
    {
      hide Next, Rank, Ordered, Linked, NodeAt, Represents, Valued, Levels;
      cur, p := c, from;
      Stand(links, nodes, p, i, key);
      Advance(links, nodes, p, i, key);
      while cur.forward[i] != null && cur.forward[i].key < key
        invariant Standing(links, nodes, p, i, key) && cur == nodes[p]
        invariant !(cur.forward[i] != null && cur.forward[i].key < key) ==> Precedes(nodes, p, i, Rank(nodes, key))
        decreases |nodes| - p
      {
        Advance(links, nodes, p, i, key);
        cur := cur.forward[i];
        p := Next(nodes, p, i);
        Advance(links, nodes, p, i, key);
      }
    }

    /** For every level in use, the last node in front of key. */
    method Descend(key: int) returns (cur: SLNode, update: seq<SLNode?>, ghost pos: seq<nat>)
      requires Valid()
      ensures Path(nodes, update, pos, Rank(nodes, key), 0, curLevel)
      ensures |update| == |pos| == MAX_LEVEL && pos[0] < |nodes|
      ensures cur == update[0] == nodes[pos[0]] && Precedes(nodes, pos[0], 0, Rank(nodes, key))
      ensures 1 <= curLevel <= MAX_LEVEL
    {
      hide Next, Rank, Ordered, Linked, NodeAt, Represents, Valued;
      ghost var q := Rank(nodes, key);
      cur := header;
      update := seq(MAX_LEVEL, _ => null);
      pos := seq(MAX_LEVEL, _ => 0);
      ghost var p: nat := 0;
      RankLevel(nodes, key);
      var i: int := curLevel - 1;
      while i >= 0
        invariant -1 <= i < curLevel
        invariant p < |nodes| && p < q && cur == nodes[p] && nodes[p].level > i
        invariant Path(nodes, update, pos, q, i + 1, curLevel)
        invariant i < 0 ==> cur == update[0]
      {
        cur, p := Along(cur, i, key, p);
        update := update[i := cur];
        pos := pos[i := p];
        i := i - 1;
      }
    }

    method Search(key: int) returns (found: bool, val: int)
      requires Valid()
      ensures found <==> key in contents
      ensures found ==> val == contents[key]
    {
      hide Next, Rank, Ordered, Linked, Represents;
      var c, update; ghost var pos;
      c, update, pos := Descend(key);
      var cur := FirstFrom(c, key, pos[0]);
      FoundAt(nodes, vals, contents, key);
      if cur != null && cur.key == key { return true, cur.val; }
      return false, 0;
    }

    /** The node behind the last one in front of key. */
    method FirstFrom(c: SLNode, key: int, ghost p: nat) returns (cur: SLNode?)
      requires Valid() && Precedes(nodes, p, 0, Rank(nodes, key)) && c == nodes[p]
      ensures cur == NodeAt(nodes, Rank(nodes, key)) && p + 1 == Rank(nodes, key)
      ensures cur != null ==> cur in links
    {
      Stand(links, nodes, p, 0, key);
      BottomNext(nodes, p);
      RankLevel(nodes, key);
      cur := c.forward[0];
    }

    method Insert(key: int, val: int)
      requires Valid()
      modifies this, links.Keys
      ensures Valid() && fresh(links.Keys - old(links.Keys))
      ensures contents == old(contents)[key := val]
      ensures size == if key in old(contents) then old(size) else old(size) + 1
    {
      hide Consistent, Ordered, Path, Rank;
      ghost var known: set<object> := links.Keys;
      assert this !in known;
      PlaceOf(header, nodes, links, vals, contents, curLevel, size, key);
      ghost var q := Rank(nodes, key);
      var cur, update; ghost var pos;
      cur, update, pos := Locate(key);
      if cur != null && cur.key == key {
        Overwrite(cur, val, header, links, nodes, vals, contents, curLevel, size);
        vals, contents := vals[q := val], contents[key := val];
        return;
      }
      InsertNew(key, val, update, pos);
    }

    /** The key is not there yet. */
    method InsertNew(key: int, val: int, path: seq<SLNode?>, ghost pathPos: seq<nat>)
      requires Valid() && key !in contents
      requires Path(nodes, path, pathPos, Rank(nodes, key), 0, curLevel)
      modifies this, links.Keys
      ensures Valid() && fresh(links.Keys - old(links.Keys))
      ensures contents == old(contents)[key := val] && size == old(size) + 1
    {
      hide Consistent, Path, Rank;
      ghost var known: set<object> := links.Keys;
      assert this !in known;
      var nextLevel; ghost var m, ns, vs;
      nextLevel, m, ns, vs := Link(key, val, path, pathPos);
      curLevel := nextLevel;
      size := size + 1;
      links, nodes, vals, contents := m, ns, vs, contents[key := val];
    }

    /** Draws a height and puts a new node of that height into its place. */
    method Link(key: int, val: int, path: seq<SLNode?>, ghost pathPos: seq<nat>)
      returns (nextLevel: nat, ghost m: Links, ghost ns: seq<SLNode>, ghost vs: seq<int>)
      requires Valid() && key !in contents
      requires Path(nodes, path, pathPos, Rank(nodes, key), 0, curLevel)
      modifies links.Keys`forward
      ensures fresh(m.Keys - links.Keys) && links.Keys <= m.Keys
      ensures Consistent(header, ns, m, vs, contents[key := val], nextLevel, size + 1)
    {
      hide Consistent, Ordered, Path, Rank;
      PlaceOf(header, nodes, links, vals, contents, curLevel, size, key);
      var newLevel := RandomLevel();
      var update; ghost var pos;
      update, pos := Heightened(newLevel, path, pathPos, Rank(nodes, key));
      nextLevel := if newLevel > curLevel then newLevel else curLevel;
      m, ns, vs := AddNode(key, val, newLevel, nextLevel, update, pos, header, links, nodes, vals, contents, curLevel,
        size);
    }

    /** The header precedes everything on levels not yet in use. */
    method Heightened(newLevel: nat, path: seq<SLNode?>, ghost pathPos: seq<nat>, ghost q: nat)
      returns (update: seq<SLNode?>, ghost pos: seq<nat>)
      requires Valid() && 0 < q <= |nodes| && newLevel <= MAX_LEVEL && Path(nodes, path, pathPos, q, 0, curLevel)
      ensures Path(nodes, update, pos, q, 0, newLevel)
    {
      update, pos := path, pathPos;
      if newLevel > curLevel {
        for i := curLevel to newLevel
          invariant curLevel <= i && Path(nodes, update, pos, q, 0, i)
        {
          EmptyLevel(nodes, curLevel, i, q);
          update := update[i := header];
          pos := pos[i := 0];
        }
      }
    }

    /** The way to key, and the node that holds it if it is there. */
    method Locate(key: int) returns (cur: SLNode?, update: seq<SLNode?>, ghost pos: seq<nat>)
      requires Valid()
      ensures cur != null && cur.key == key <==> key in contents
      ensures cur != null && cur.key == key ==>
        0 < Rank(nodes, key) < |nodes| && nodes[Rank(nodes, key)] == cur && cur in links
      ensures Path(nodes, update, pos, Rank(nodes, key), 0, curLevel)
    {
      hide Next, Rank, Ordered, Linked, Represents, Levels, NodeAt, Valued, Path;
      var c;
      c, update, pos := Descend(key);
      cur := FirstFrom(c, key, pos[0]);
      FoundAt(nodes, vals, contents, key);
      AtRank(nodes, Rank(nodes, key));
      RankLevel(nodes, key);
    }

    /** Whether the key was there; now it is not. */
    method Delete(key: int) returns (found: bool)
      requires Valid()
      modifies this, links.Keys
      ensures Valid() && links.Keys == old(links.Keys)
      ensures found == (key in old(contents)) && contents == old(contents) - {key}
      ensures size == if found then old(size) - 1 else old(size)
    {
      hide Consistent, Ordered, Path, Rank;
      ghost var known: set<object> := links.Keys;
      assert this !in known;
      PlaceOf(header, nodes, links, vals, contents, curLevel, size, key);
      var cur, update; ghost var pos;
      cur, update, pos := Locate(key);
      if cur == null || cur.key != key {
        assert contents - {key} == contents;
        return false;
      }
      var level; ghost var m, ns, vs;
      level, m, ns, vs := Dropped(cur, update, pos, Rank(nodes, key), header, links, nodes, vals, contents, curLevel,
        size);
      size := size - 1;
      curLevel := level;
      links, nodes, vals, contents := m, ns, vs, contents - {key};
      return true;
    }

    /** The pairs with a key in [lo, hi], in the order in which they are visited. */
    method Range(lo: int, hi: int) returns (visited: seq<(int, int)>)
      requires Valid()
      ensures forall i, j :: 0 <= i < j < |visited| ==> visited[i].0 < visited[j].0
      ensures forall k, v :: (k, v) in visited <==> k in contents && lo <= k <= hi && contents[k] == v
    {
      hide Next, Rank, Ordered, Linked, Represents, NodeAt, Pairs, Levels;
      ghost var q := Rank(nodes, lo);
      var c, update; ghost var pos;
      c, update, pos := Descend(lo);
      RankLevel(nodes, lo);
      var cur := FirstFrom(c, lo, pos[0]);
      visited := [];
      ghost var p := q;
      Walked(nodes, vals, q, q);
      while cur != null && cur.key <= hi
        invariant q <= p <= |nodes| && cur == NodeAt(nodes, p)
        invariant visited == Pairs(nodes, vals, q, p)
        invariant forall r :: q <= r < p ==> nodes[r].key <= hi
        decreases |nodes| - p
      {
        AtRank(nodes, p);
        BottomPointer(links, nodes, p);
        Walked(nodes, vals, q, p);
        visited := visited + [(cur.key, cur.val)];
        cur := cur.forward[0];
        p := p + 1;
      }
      AtRank(nodes, p);
      PairsAre(nodes, vals, contents, q, p, lo, hi);
    }
  }

  lemma BottomPointer(m: Links, nodes: seq<SLNode>, p: nat)
    requires Ordered(nodes) && Linked(m, nodes) && p < |nodes|
    ensures nodes[p] in m && |m[nodes[p]]| > 0 && m[nodes[p]][0] == NodeAt(nodes, p + 1)
  {
    assert LinkedAt(m, nodes, 0);
    assert LinkedNode(m, nodes, p, 0);
    BottomNext(nodes, p);
  }

  lemma Walked(nodes: seq<SLNode>, vals: seq<int>, q: nat, p: nat)
    requires q <= p <= |nodes| == |vals|
    ensures q == p ==> Pairs(nodes, vals, q, p) == []
    ensures p < |nodes| ==> Pairs(nodes, vals, q, p + 1) == Pairs(nodes, vals, q, p) + [(nodes[p].key, vals[p])]
  {
  }

  /** Lowers the level in use to the tallest node. */
  method Lowered(header: SLNode, cur: nat, ghost m: Links, ghost nodes: seq<SLNode>) returns (level: nat)
    requires Ordered(nodes) && nodes[0] == header && Synced(m) && Linked(m, nodes)
    requires 1 <= cur <= MAX_LEVEL && forall p :: 0 < p < |nodes| ==> nodes[p].level <= cur
    ensures Levels(nodes, level)
  {
    level := cur;
    Top(m, nodes, level);
    while level > 1 && header.forward[level - 1] == null
      invariant 1 <= level <= cur && forall p :: 0 < p < |nodes| ==> nodes[p].level <= level
      invariant header in m && level - 1 < |m[header]|
      invariant m[header][level - 1] == NodeAt(nodes, Next(nodes, 0, level - 1))
    {
      level := level - 1;
      Top(m, nodes, level);
    }
  }

  lemma Top(m: Links, nodes: seq<SLNode>, level: nat)
    requires Ordered(nodes) && Linked(m, nodes) && 1 <= level <= MAX_LEVEL
    ensures nodes[0] in m && level - 1 < |m[nodes[0]]|
    ensures m[nodes[0]][level - 1] == NodeAt(nodes, Next(nodes, 0, level - 1))
  {
    assert LinkedAt(m, nodes, level - 1);
    assert LinkedNode(m, nodes, 0, level - 1);
  }

  /** The keys and values at the positions from q up to p. */
  ghost function Pairs(nodes: seq<SLNode>, vals: seq<int>, q: nat, p: nat): (s: seq<(int, int)>)
    requires q <= p <= |nodes| == |vals|
    ensures |s| == p - q && forall i :: 0 <= i < p - q ==> s[i] == (nodes[q + i].key, vals[q + i])
  {
    seq(p - q, i requires 0 <= i < p - q => (nodes[q + i].key, vals[q + i]))
  }

  lemma PairsAre(nodes: seq<SLNode>, vals: seq<int>, contents: map<int, int>, q: nat, p: nat, lo: int, hi: int)
    requires Ordered(nodes) && Represents(nodes, vals, contents) && q == Rank(nodes, lo) && q <= p <= |nodes|
    requires forall r :: q <= r < p ==> nodes[r].key <= hi
    requires p < |nodes| ==> nodes[p].key > hi
    ensures var s := Pairs(nodes, vals, q, p);
      (forall i, j :: 0 <= i < j < |s| ==> s[i].0 < s[j].0)
      && forall k, v :: (k, v) in s <==> k in contents && lo <= k <= hi && contents[k] == v
  {
    var s := Pairs(nodes, vals, q, p);
    forall k, v | k in contents && lo <= k <= hi && contents[k] == v
      ensures (k, v) in s
    {
      assert Holds(nodes, k);
      var o :| 0 < o < |nodes| && nodes[o].key == k;
      assert q <= o < p;
      assert s[o - q] == (k, v);
    }
  }

  lemma AtRank(nodes: seq<SLNode>, q: nat)
    ensures NodeAt(nodes, q) == null <==> q >= |nodes|
    ensures q < |nodes| ==> NodeAt(nodes, q) == nodes[q] && nodes[q] in nodes
  {
  }

  lemma Revalued(nodes: seq<SLNode>, vals: seq<int>, contents: map<int, int>, key: int, val: int)
    requires Ordered(nodes) && Represents(nodes, vals, contents)
    requires var q := Rank(nodes, key); q < |nodes| && nodes[q].key == key
    ensures Represents(nodes, vals[Rank(nodes, key) := val], contents[key := val])
    ensures forall p :: 0 <= p < |nodes| && p != Rank(nodes, key) ==> nodes[p] != nodes[Rank(nodes, key)]
  {
    var q := Rank(nodes, key);
    forall p | 0 <= p < |nodes| && p != q
      ensures nodes[p] != nodes[q]
    {
      if nodes[p] == nodes[q] { Distinct(nodes, p, q); }
    }
  }

  lemma ValuedWith(nodes: seq<SLNode>, vals: seq<int>, q: nat, n: SLNode, val: int)
    requires Valued(nodes, vals) && 0 < q <= |nodes| && n.val == val
    ensures |vals| == |nodes| && Valued(With(nodes, q, n), With(vals, q, val))
  {
    hide With;
  }

  /** Above the levels in use, the header is the last node in front of anything. */
  lemma EmptyLevel(nodes: seq<SLNode>, cur: nat, l: nat, q: nat)
    requires Ordered(nodes) && Levels(nodes, cur) && cur <= l < MAX_LEVEL && 0 < q <= |nodes|
    ensures Precedes(nodes, 0, l, q)
  {
  }

  lemma InsertedLevels(nodes: seq<SLNode>, cur: nat, now: nat, q: nat, n: SLNode)
    requires Levels(nodes, cur) && 0 < q <= |nodes| && 1 <= n.level <= MAX_LEVEL
    requires now == if n.level > cur then n.level else cur
    ensures Levels(With(nodes, q, n), now)
  {
    hide With;
    var s := With(nodes, q, n);
    assert s[q] == n;
    if n.level <= cur && cur > 1 {
      var p :| 0 < p < |nodes| && nodes[p].level == cur;
      assert s[Shifted(p, q)].level == cur;
    }
  }
}
