/** The chains of a skip list. nodes is the header followed by all other nodes in order;
    the chain of level l runs through the nodes that are taller than l. Links says what
    every node's forward pointers are. */
module SkipListLinks {

  const MAX_LEVEL := 16

  class SLNode {
    const key: int
    var val: int
    const level: nat
    var forward: seq<SLNode?>

    constructor (key: int, val: int, level: nat)
      ensures this.key == key && this.val == val && this.level == level
      ensures forward == seq(level, _ => null)
    {
      this.key := key;
      this.val := val;
      this.level := level;
      forward := seq(level, _ => null);
    }
  }

  type Links = map<SLNode, seq<SLNode?>>

  /** The next position after p of a node taller than l, or the end. */
  ghost function Next(nodes: seq<SLNode>, p: nat, l: nat): (q: nat)
    requires p < |nodes|
    ensures p < q <= |nodes| && (q < |nodes| ==> nodes[q].level > l)
    ensures forall r :: p < r < q ==> nodes[r].level <= l
    decreases |nodes| - p
  {
    if p + 1 == |nodes| || nodes[p + 1].level > l then p + 1 else Next(nodes, p + 1, l)
  }

  lemma NextIs(nodes: seq<SLNode>, p: nat, l: nat, q: nat)
    requires p < q <= |nodes| && (q < |nodes| ==> nodes[q].level > l)
    requires forall r :: p < r < q ==> nodes[r].level <= l
    ensures Next(nodes, p, l) == q
  {
  }

  ghost function NodeAt(nodes: seq<SLNode>, q: nat): SLNode? {
    if q < |nodes| then nodes[q] else null
  }

  /** A header of full height, then nodes of height 1..16 with ascending keys. */
  ghost predicate Ordered(nodes: seq<SLNode>) {
    && nodes != [] && nodes[0].level == MAX_LEVEL
    && (forall p :: 0 < p < |nodes| ==> 1 <= nodes[p].level <= MAX_LEVEL && nodes[p] != nodes[0])
    && forall p, q :: 0 < p < q < |nodes| ==> nodes[p].key < nodes[q].key
  }

  lemma Distinct(nodes: seq<SLNode>, p: nat, q: nat)
    requires Ordered(nodes) && p < |nodes| && q < |nodes| && nodes[p] == nodes[q]
    ensures p == q
  {
  }

  ghost predicate LinkedNode(m: Links, nodes: seq<SLNode>, p: nat, l: nat)
    requires p < |nodes|
  {
    nodes[p] in m && l < |m[nodes[p]]| && m[nodes[p]][l] == NodeAt(nodes, Next(nodes, p, l))
  }

  /** The chain of level l. */
  ghost predicate LinkedAt(m: Links, nodes: seq<SLNode>, l: nat) {
    forall p :: 0 <= p < |nodes| && nodes[p].level > l ==> LinkedNode(m, nodes, p, l)
  }

  ghost predicate Linked(m: Links, nodes: seq<SLNode>) {
    && (forall p :: 0 <= p < |nodes| ==> nodes[p] in m && |m[nodes[p]]| == nodes[p].level)
    && forall l :: 0 <= l < MAX_LEVEL ==> LinkedAt(m, nodes, l)
  }

  /** The position of the first key that is not below key. */
  ghost function Rank(nodes: seq<SLNode>, key: int): (q: nat)
    requires Ordered(nodes)
    ensures 1 <= q <= |nodes|
    ensures forall p :: 1 <= p < q ==> nodes[p].key < key
    ensures forall p :: q <= p < |nodes| ==> nodes[p].key >= key
  {
    RankFrom(nodes, key, 1)
  }

  ghost function RankFrom(nodes: seq<SLNode>, key: int, p: nat): (q: nat)
    requires Ordered(nodes) && 1 <= p <= |nodes|
    requires forall r :: 1 <= r < p ==> nodes[r].key < key
    ensures p <= q <= |nodes|
    ensures forall r :: 1 <= r < q ==> nodes[r].key < key
    ensures forall r :: q <= r < |nodes| ==> nodes[r].key >= key
    decreases |nodes| - p
  {
    if p < |nodes| && nodes[p].key < key then RankFrom(nodes, key, p + 1) else p
  }

  // ---- one more node -----------------------------------------------------------------------

  ghost function With<A>(nodes: seq<A>, q: nat, n: A): (s: seq<A>)
    requires q <= |nodes|
    ensures |s| == |nodes| + 1 && s[q] == n
    ensures forall p :: 0 <= p < q ==> s[p] == nodes[p]
    ensures forall p :: q <= p < |nodes| ==> s[p + 1] == nodes[p]
    ensures forall p :: q < p < |s| ==> s[p] == nodes[p - 1]
  {
    nodes[..q] + [n] + nodes[q..]
  }

  /** The next positions before n came in at q, and after. */
  lemma NextWith(nodes: seq<SLNode>, q: nat, n: SLNode, p: nat, l: nat)
    requires p < |nodes| && 0 < q <= |nodes|
    ensures p < q && Next(nodes, p, l) < q ==> Next(With(nodes, q, n), p, l) == Next(nodes, p, l)
    ensures p < q <= Next(nodes, p, l) ==>
      Next(With(nodes, q, n), p, l) == if n.level > l then q else Next(nodes, p, l) + 1
    ensures p >= q ==> Next(With(nodes, q, n), p + 1, l) == Next(nodes, p, l) + 1
    ensures p < q <= Next(nodes, p, l) ==> Next(With(nodes, q, n), q, l) == Next(nodes, p, l) + 1
  {
    hide With;
    var s, r := With(nodes, q, n), Next(nodes, p, l);
    if p >= q {
      NextIs(s, p + 1, l, r + 1);
    } else {
      NextIs(s, p, l, if r < q then r else if n.level > l then q else r + 1);
      if q <= r {
        assert r < |nodes| ==> s[r + 1] == nodes[r];
        NextIs(s, q, l, r + 1);
      }
    }
  }

  lemma OrderedWith(nodes: seq<SLNode>, n: SLNode)
    requires Ordered(nodes) && 1 <= n.level <= MAX_LEVEL && n !in nodes
    requires var q := Rank(nodes, n.key); q < |nodes| ==> nodes[q].key != n.key
    ensures Ordered(With(nodes, Rank(nodes, n.key), n))
  {
    hide With;
  }

  /** Where position p has gone. */
  ghost function Shifted(p: nat, q: nat): nat {
    if p < q then p else p + 1
  }

  lemma NodeShifted(nodes: seq<SLNode>, q: nat, n: SLNode, p: nat)
    requires q <= |nodes|
    ensures NodeAt(With(nodes, q, n), Shifted(p, q)) == NodeAt(nodes, p)
  {
  }

  lemma AboveNode(m: Links, nodes: seq<SLNode>, q: nat, n: SLNode, l: nat, p: nat)
    requires 0 < q <= |nodes| && n.level <= l && p < |nodes|
    ensures LinkedNode(m, With(nodes, q, n), Shifted(p, q), l) <==> LinkedNode(m, nodes, p, l)
  {
    hide With, Next, NodeAt;
    NextWith(nodes, q, n, p, l);
    NodeShifted(nodes, q, n, Next(nodes, p, l));
  }

  /** At a level that n does not reach, its coming or going changes nothing. */
  lemma LinkedAbove(m: Links, nodes: seq<SLNode>, q: nat, n: SLNode, l: nat)
    requires 0 < q <= |nodes| && n.level <= l
    ensures LinkedAt(m, With(nodes, q, n), l) <==> LinkedAt(m, nodes, l)
  {
    hide With, Next, LinkedNode;
    var s := With(nodes, q, n);
    forall p | 0 <= p < |nodes|
      ensures LinkedNode(m, s, Shifted(p, q), l) <==> LinkedNode(m, nodes, p, l)
      ensures s[Shifted(p, q)] == nodes[p]
    {
      AboveNode(m, nodes, q, n, l, p);
    }
    if LinkedAt(m, nodes, l) {
      forall p | 0 <= p < |s| && s[p].level > l
        ensures LinkedNode(m, s, p, l)
      {
        var o := if p < q then p else p - 1;
        assert LinkedNode(m, nodes, o, l) && Shifted(o, q) == p;
      }
    }
  }

  /** n is threaded in behind position u at level l. */
  ghost function Threaded(m: Links, u: SLNode, n: SLNode, l: nat): Links
    requires u in m && n in m && u != n && l < |m[u]| && l < |m[n]|
  {
    m[n := m[n][l := m[u][l]]][u := m[u][l := n]]
  }

  lemma ThreadedNode(m: Links, nodes: seq<SLNode>, q: nat, n: SLNode, u: nat, l: nat, o: nat)
    requires u < q <= |nodes| && o < |nodes| && n in m && n.level > l && l < |m[n]|
    requires LinkedNode(m, nodes, u, l) && LinkedNode(m, nodes, o, l)
    requires nodes[o] != n && nodes[u] != n && (o != u ==> nodes[o] != nodes[u])
    requires nodes[u].level > l && nodes[o].level > l && Next(nodes, u, l) >= q
    ensures LinkedNode(Threaded(m, nodes[u], n, l), With(nodes, q, n), Shifted(o, q), l)
  {
    hide With, Next, NodeAt;
    NextWith(nodes, q, n, o, l);
    NodeShifted(nodes, q, n, Next(nodes, o, l));
    if o != u { SameNext(nodes, u, o, l, q); }
    NodeNew(nodes, q, n);
  }

  lemma ThreadedNew(m: Links, nodes: seq<SLNode>, q: nat, n: SLNode, u: nat, l: nat)
    requires u < q <= |nodes| && n in m && n.level > l && l < |m[n]|
    requires LinkedNode(m, nodes, u, l) && nodes[u] != n
    requires nodes[u].level > l && Next(nodes, u, l) >= q
    ensures LinkedNode(Threaded(m, nodes[u], n, l), With(nodes, q, n), q, l)
  {
    hide With, Next, NodeAt;
    NextWith(nodes, q, n, u, l);
    NodeShifted(nodes, q, n, Next(nodes, u, l));
    NodeNew(nodes, q, n);
  }

  lemma NodeNew(nodes: seq<SLNode>, q: nat, n: SLNode)
    requires q <= |nodes|
    ensures NodeAt(With(nodes, q, n), q) == n
  {
  }

  lemma ThreadedLinks(m: Links, nodes: seq<SLNode>, q: nat, n: SLNode, u: nat, l: nat)
    requires Ordered(nodes) && u < q <= |nodes| && n !in nodes && n in m && n.level > l && l < |m[n]|
    requires LinkedAt(m, nodes, l) && nodes[u].level > l && Next(nodes, u, l) >= q
    ensures LinkedNode(m, nodes, u, l)
    ensures LinkedAt(Threaded(m, nodes[u], n, l), With(nodes, q, n), l)
  {
    hide With, Next, LinkedNode, Ordered, Threaded;
    assert LinkedNode(m, nodes, u, l);
    LinkedIn(m, nodes, u, l);
    var s, w := With(nodes, q, n), Threaded(m, nodes[u], n, l);
    forall p | 0 <= p < |s| && s[p].level > l
      ensures LinkedNode(w, s, p, l)
    {
      var o := if p < q then p else if p == q then u else p - 1;
      assert LinkedNode(m, nodes, o, l);
      if nodes[o] == nodes[u] { Distinct(nodes, o, u); }
      if p == q { ThreadedNew(m, nodes, q, n, u, l); } else { ThreadedNode(m, nodes, q, n, u, l, o); }
    }
  }

  lemma LinkedIn(m: Links, nodes: seq<SLNode>, p: nat, l: nat)
    requires p < |nodes| && LinkedNode(m, nodes, p, l)
    ensures nodes[p] in m && l < |m[nodes[p]]| && m[nodes[p]][l] == NodeAt(nodes, Next(nodes, p, l))
  {
  }

  /** Only one node of a level has q in the gap behind it. */
  lemma SameNext(nodes: seq<SLNode>, u: nat, o: nat, l: nat, q: nat)
    requires u < q <= |nodes| && o < |nodes| && o != u && nodes[u].level > l && nodes[o].level > l
    requires Next(nodes, u, l) >= q
    ensures o < q ==> Next(nodes, o, l) < q
  {
    if o < q {
      assert o < u;
      assert Next(nodes, o, l) <= u;
    }
  }

  /** Pointers at other levels are not touched. */
  lemma ThreadedElsewhere(m: Links, s: seq<SLNode>, u: SLNode, n: SLNode, l: nat, k: nat)
    requires u in m && n in m && u != n && l < |m[u]| && l < |m[n]| && k != l
    requires LinkedAt(m, s, k)
    ensures LinkedAt(Threaded(m, u, n, l), s, k)
  {
    forall p | 0 <= p < |s| && s[p].level > k
      ensures LinkedNode(Threaded(m, u, n, l), s, p, k)
    {
      assert LinkedNode(m, s, p, k);
    }
  }

  // ---- one node less -----------------------------------------------------------------------

  /** The pointer of u at level l skips x. */
  ghost function Skipping(m: Links, u: SLNode, x: SLNode, l: nat): Links
    requires u in m && x in m && l < |m[u]| && l < |m[x]|
  {
    m[u := m[u][l := m[x][l]]]
  }

  lemma SkippingNode(m: Links, nodes: seq<SLNode>, q: nat, x: SLNode, u: nat, l: nat, o: nat)
    requires u < q <= |nodes| && o < |nodes| && x.level > l
    requires var s := With(nodes, q, x);
      LinkedNode(m, s, u, l) && LinkedNode(m, s, q, l) && LinkedNode(m, s, Shifted(o, q), l) && Next(s, u, l) == q
    requires o != u ==> nodes[o] != nodes[u]
    requires nodes[u].level > l && nodes[o].level > l
    ensures LinkedNode(Skipping(m, nodes[u], x, l), nodes, o, l)
  {
    hide With, Next, NodeAt;
    NextWith(nodes, q, x, u, l);
    NextWith(nodes, q, x, o, l);
    NodeShifted(nodes, q, x, Next(nodes, o, l));
    NodeShifted(nodes, q, x, Next(nodes, u, l));
    if o != u { SameNext(nodes, u, o, l, q); }
  }

  lemma SkippingLinks(m: Links, nodes: seq<SLNode>, q: nat, x: SLNode, u: nat, l: nat)
    requires q <= |nodes| && Ordered(With(nodes, q, x)) && u < q && x.level > l
    requires LinkedAt(m, With(nodes, q, x), l) && nodes[u].level > l && Next(With(nodes, q, x), u, l) == q
    ensures LinkedNode(m, With(nodes, q, x), u, l) && LinkedNode(m, With(nodes, q, x), q, l)
    ensures LinkedAt(Skipping(m, nodes[u], x, l), nodes, l)
  {
    hide With, Next, LinkedNode, Ordered, Skipping;
    var s := With(nodes, q, x);
    assert s[u] == nodes[u];
    assert LinkedNode(m, s, u, l) && LinkedNode(m, s, q, l);
    LinkedIn(m, s, u, l);
    LinkedIn(m, s, q, l);
    forall o | 0 <= o < |nodes| && nodes[o].level > l
      ensures LinkedNode(Skipping(m, nodes[u], x, l), nodes, o, l)
    {
      var p := Shifted(o, q);
      assert s[p] == nodes[o];
      assert LinkedNode(m, s, p, l);
      if nodes[o] == nodes[u] { Distinct(s, p, u); }
      SkippingNode(m, nodes, q, x, u, l, o);
    }
  }

  lemma SkippingElsewhere(m: Links, s: seq<SLNode>, u: SLNode, x: SLNode, l: nat, k: nat)
    requires u in m && x in m && l < |m[u]| && l < |m[x]| && k != l
    requires LinkedAt(m, s, k)
    ensures LinkedAt(Skipping(m, u, x, l), s, k)
  {
    forall p | 0 <= p < |s| && s[p].level > k
      ensures LinkedNode(Skipping(m, u, x, l), s, p, k)
    {
      assert LinkedNode(m, s, p, k);
    }
  }
}
