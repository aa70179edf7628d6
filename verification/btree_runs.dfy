/** Runs of the B-tree that end badly: a key that is deleted and still there, a key that is
    doubled in place of the one deleted, and a scan that misses keys. */
module BTreeRuns {
  import opened BTreeNodes
  import opened BTreeShape
  import opened BTreeGrowth
  import opened BTreeDeletion
  import opened BTrees

  // ---- insertions whose result is known ----------------------------------------------------

  lemma RootKeys(ks: seq<int>, ls: seq<seq<int>>)
    ensures Two(ks, ls).keys == ks
  {
  }

  method Add(b: BTree, key: int, ghost g: Form, ghost h: nat)
    requires b.Valid() && GrownRoot(FormOf(b.tree), key, b.height) == g
    requires h == b.height + if |FormOf(b.tree).keys| == MAX_KEYS then 1 else 0
    modifies b, b.mem.Keys
    ensures b.Valid() && fresh(b.mem.Keys - old(b.mem.Keys)) && FormOf(b.tree) == g && b.height == h
    ensures b.size == old(b.size) + 1 && multiset(b.Keys()) == multiset(old(b.Keys())) + multiset{key}
  {
    hide BTree.Valid, FormOf, Inorder, Inserted, GrownRoot, Sorted, Ascending;
    b.Insert(key);
  }

  /** Into a single leaf with room. */
  method LeafAdd(b: BTree, key: int, ghost s: seq<int>, ghost p: nat, ghost r: seq<int>)
    requires b.Valid() && FormOf(b.tree) == Form(s, []) && b.height == 0 && |s| < MAX_KEYS
    requires Place(s, key, p) && r == Insert(s, p, key)
    modifies b, b.mem.Keys
    ensures b.Valid() && fresh(b.mem.Keys - old(b.mem.Keys)) && FormOf(b.tree) == Form(r, []) && b.height == 0
    ensures b.size == old(b.size) + 1 && multiset(b.Keys()) == multiset(old(b.Keys())) + multiset{key}
  {
    hide BTree.Valid, FormOf, Inorder, GrownRoot, Grown, Place, Two;
    LeafStep(s, key, p, r);
    Add(b, key, Form(r, []), 0);
  }

  /** Into the first of the leaves below the root, which has room. */
  method FirstAdd(b: BTree, key: int, ghost ks: seq<int>, ghost s: seq<int>, ghost rest: seq<seq<int>>, ghost p: nat,
      ghost r: seq<int>)
    requires b.Valid() && FormOf(b.tree) == Two(ks, [s] + rest) && b.height == 1
    requires Place(ks, key, 0) && |rest| == |ks| < MAX_KEYS && |s| < MAX_KEYS && Place(s, key, p)
    requires r == Insert(s, p, key)
    modifies b, b.mem.Keys
    ensures b.Valid() && fresh(b.mem.Keys - old(b.mem.Keys)) && FormOf(b.tree) == Two(ks, [r] + rest) && b.height == 1
    ensures b.size == old(b.size) + 1 && multiset(b.Keys()) == multiset(old(b.Keys())) + multiset{key}
  {
    hide BTree.Valid, FormOf, Inorder, GrownRoot, Grown, Place, Two;
    RootKeys(ks, [s] + rest);
    FirstStep(ks, s, rest, key, p, r);
    Add(b, key, Two(ks, [r] + rest), 1);
  }

  /** Into the second one. */
  method SecondAdd(b: BTree, key: int, ghost ks: seq<int>, ghost s: seq<int>, ghost t: seq<int>,
      ghost rest: seq<seq<int>>, ghost p: nat, ghost r: seq<int>)
    requires b.Valid() && FormOf(b.tree) == Two(ks, [s] + ([t] + rest)) && b.height == 1
    requires Place(ks, key, 1) && |rest| + 1 == |ks| < MAX_KEYS
    requires |t| < MAX_KEYS && Place(t, key, p) && r == Insert(t, p, key)
    modifies b, b.mem.Keys
    ensures b.Valid() && fresh(b.mem.Keys - old(b.mem.Keys)) && FormOf(b.tree) == Two(ks, [s] + ([r] + rest))
    ensures b.height == 1
    ensures b.size == old(b.size) + 1 && multiset(b.Keys()) == multiset(old(b.Keys())) + multiset{key}
  {
    hide BTree.Valid, FormOf, Inorder, GrownRoot, Grown, Place, Two;
    RootKeys(ks, [s] + ([t] + rest));
    SecondStep(ks, s, t, rest, key, p, r);
    Add(b, key, Two(ks, [s] + ([r] + rest)), 1);
  }

  /** Into the first leaf, which is full. */
  method SplitAdd(b: BTree, key: int, ghost ks: seq<int>, ghost v: int, ghost w: int, ghost x: int, ghost y: int,
      ghost z: int, ghost rest: seq<seq<int>>, ghost p: nat, ghost r: seq<int>)
    requires b.Valid() && b.height == 1 && FormOf(b.tree) == Two(ks, [[v, w, x, y, z]] + rest)
    requires |rest| == |ks| < MAX_KEYS
    requires Place(ks, key, 0) && key <= x && Place([v, w], key, p) && r == Insert([v, w], p, key)
    modifies b, b.mem.Keys
    ensures b.Valid() && fresh(b.mem.Keys - old(b.mem.Keys)) && b.height == 1
    ensures FormOf(b.tree) == Two([x] + ks, [r] + ([[y, z]] + rest))
    ensures b.size == old(b.size) + 1 && multiset(b.Keys()) == multiset(old(b.Keys())) + multiset{key}
  {
    hide BTree.Valid, FormOf, Inorder, GrownRoot, Grown, Place, Two;
    RootKeys(ks, [[v, w, x, y, z]] + rest);
    SplitStep(ks, v, w, x, y, z, rest, key, p, r);
    Add(b, key, Two([x] + ks, [r] + ([[y, z]] + rest)), 1);
  }

  /** Into a single leaf that is full: it becomes two. */
  method FullLeafAdd(b: BTree, key: int, ghost v: int, ghost w: int, ghost x: int, ghost y: int, ghost z: int,
      ghost p: nat, ghost r: seq<int>)
    requires b.Valid() && FormOf(b.tree) == Form([v, w, x, y, z], []) && b.height == 0
    requires if key < x then Place([v, w], key, p) && r == Insert([v, w], p, key)
             else Place([y, z], key, p) && r == Insert([y, z], p, key)
    modifies b, b.mem.Keys
    ensures b.Valid() && fresh(b.mem.Keys - old(b.mem.Keys)) && b.height == 1
    ensures FormOf(b.tree) == Two([x], if key < x then [r] + [[y, z]] else [[v, w]] + ([r] + []))
    ensures b.size == old(b.size) + 1 && multiset(b.Keys()) == multiset(old(b.Keys())) + multiset{key}
  {
    hide BTree.Valid, FormOf, Inorder, GrownRoot, Grown, Two;
    LeafRoot(v, w, x, y, z, key);
    if key < x {
      FirstStep([x], [v, w], [[y, z]], key, p, r);
    } else {
      assert [[y, z]] == [[y, z]] + [];
      SecondStep([x], [v, w], [y, z], [], key, p, r);
    }
    Add(b, key, Two([x], if key < x then [r] + [[y, z]] else [[v, w]] + ([r] + [])), 1);
  }

  // ---- deleted and still there -------------------------------------------------------------

  /** Inserting 9, 8, .. 5 fills the root. */
  method FiveKeys() returns (b: BTree)
    ensures fresh(b) && fresh(b.mem.Keys) && b.Valid() && b.size == 5 && b.height == 0
    ensures FormOf(b.tree) == Form([5, 6, 7, 8, 9], [])
  {
    hide BTree.Valid, FormOf, Inorder, Grown, GrownRoot, Two;
    b := ThreeKeys();
    LeafAdd(b, 6, [7, 8, 9], 0, [6, 7, 8, 9]);
    LeafAdd(b, 5, [6, 7, 8, 9], 0, [5, 6, 7, 8, 9]);
  }

  method ThreeKeys() returns (b: BTree)
    ensures fresh(b) && fresh(b.mem.Keys) && b.Valid() && b.size == 3 && b.height == 0
    ensures FormOf(b.tree) == Form([7, 8, 9], [])
  {
    hide BTree.Valid, FormOf, Inorder, Grown, GrownRoot, Two;
    b := new BTree();
    LeafAdd(b, 9, [], 0, [9]);
    LeafAdd(b, 8, [9], 0, [8, 9]);
    LeafAdd(b, 7, [8, 9], 0, [7, 8, 9]);
  }

  /** Inserting 4, 3, 2, 1 as well splits it, and then its first half. */
  method NineKeys() returns (b: BTree)
    ensures fresh(b) && fresh(b.mem.Keys) && b.Valid() && b.size == 9 && b.height == 1
    ensures FormOf(b.tree) == Two([4, 7], [[1, 2, 3], [5, 6], [8, 9]])
  {
    hide BTree.Valid, FormOf, Inorder, Grown, GrownRoot, Two;
    b := FiveKeys();
    FullLeafAdd(b, 4, 5, 6, 7, 8, 9, 0, [4, 5, 6]);
    ghost var ks, rest := [7], [[8, 9]];
    FirstAdd(b, 3, ks, [4, 5, 6], rest, 0, [3, 4, 5, 6]);
    FirstAdd(b, 2, ks, [3, 4, 5, 6], rest, 0, [2, 3, 4, 5, 6]);
    SplitAdd(b, 1, ks, 2, 3, 4, 5, 6, rest, 0, [1, 2, 3]);
    assert [4] + ks == [4, 7];
    assert [[1, 2, 3]] + ([[5, 6]] + rest) == [[1, 2, 3], [5, 6], [8, 9]];
  }

  /** Inserting 9, 8, .. 1 and then deleting 7: 7 is still there, and the size is wrong. */
  method KeptRun() returns (b: BTree)
    ensures fresh(b) && b.Valid() && b.Keys() == [1, 2, 3, 4, 5, 6, 7, 8, 9] && b.size == 8
  {
    hide BTree.Valid, FormOf, Inorder, Sorted, Ascending, Kept, Fails, Surplus, Deletable, Two;
    b := NineKeys();
    ThreeForms(b.tree);
    KeptExample(b.tree);
    b.Delete(7);
  }

  // ---- lent by the left neighbour ----------------------------------------------------------

  method TenKeys() returns (b: BTree)
    ensures fresh(b) && fresh(b.mem.Keys) && b.Valid() && b.size == 10 && b.height == 1
    ensures FormOf(b.tree) == Two([4, 7], [[1, 2, 3], [5, 6], [8, 9, 10]])
  {
    hide BTree.Valid, FormOf, Inorder, Grown, GrownRoot, Two;
    b := NineKeys();
    RootKeys([4, 7], [[1, 2, 3], [5, 6], [8, 9]]);
    ThirdStep([4, 7], [1, 2, 3], [5, 6], [8, 9], 10, 2, [8, 9, 10]);
    Add(b, 10, Two([4, 7], [[1, 2, 3], [5, 6], [8, 9, 10]]), 1);
  }

  /** Both neighbours of the leaf of 5 could lend. The left one does, so 8 stays in its leaf and
      the next deletion takes it out; moved up by the right one, it would be kept. */
  method LentRun() returns (b: BTree)
    ensures fresh(b) && b.Valid() && b.Keys() == [1, 2, 3, 4, 6, 7, 9, 10] && b.size == 8
  {
    hide BTree.Valid, FormOf, Inorder, Sorted, Ascending, Kept, Fails, Surplus, Deletable, Two, Deleted, Shrunk,
      ShrunkHeight, Without;
    b := TenKeys();
    LeavesOf(b.tree, [4, 7], [[1, 2, 3], [5, 6], [8, 9, 10]]);
    LentExample(b.tree);
    b.Delete(5);
    LentGoes(b.tree);
    b.Delete(8);
  }

  // ---- missed by a scan --------------------------------------------------------------------

  /** Equal keys fill the root. */
  method FiveFives() returns (b: BTree)
    ensures fresh(b) && fresh(b.mem.Keys) && b.Valid() && b.size == 5 && b.height == 0
    ensures FormOf(b.tree) == Form([5, 5, 5, 5, 5], [])
    ensures multiset(b.Keys()) == multiset{5, 5, 5, 5, 5}
  {
    hide BTree.Valid, FormOf, Inorder, Grown, GrownRoot, Two;
    b := ThreeFives();
    LeafAdd(b, 5, [5, 5, 5], 3, [5, 5, 5, 5]);
    LeafAdd(b, 5, [5, 5, 5, 5], 4, [5, 5, 5, 5, 5]);
  }

  method ThreeFives() returns (b: BTree)
    ensures fresh(b) && fresh(b.mem.Keys) && b.Valid() && b.size == 3 && b.height == 0
    ensures FormOf(b.tree) == Form([5, 5, 5], [])
    ensures multiset(b.Keys()) == multiset{5, 5, 5}
  {
    hide BTree.Valid, FormOf, Inorder, Grown, GrownRoot, Two;
    b := new BTree();
    LeafAdd(b, 5, [], 0, [5]);
    LeafAdd(b, 5, [5], 1, [5, 5]);
    LeafAdd(b, 5, [5, 5], 2, [5, 5, 5]);
  }

  /** Six equal keys, of which a scan for just this key visits three. */
  method MissedRun() returns (b: BTree, visited: seq<int>)
    ensures fresh(b) && b.Valid() && multiset(b.Keys()) == multiset{5, 5, 5, 5, 5, 5} && visited == [5, 5, 5]
  {
    hide BTree.Valid, FormOf, Inorder, Sorted, Ascending, Two, Hidden, CutAt, Scanned, Within;
    b := FiveFives();
    FullLeafAdd(b, 5, 5, 5, 5, 5, 5, 2, [5, 5, 5]);
    ThreeSeen(b.tree);
    visited := b.RangeScan(5, 5);
  }

  lemma ThreeSeen(t: Tree)
    requires FormOf(t) == Two([5], [[5, 5]] + ([[5, 5, 5]] + []))
    ensures Scanned(t, 5, 5) == [5, 5, 5]
  {
    assert [[5, 5]] + ([[5, 5, 5]] + []) == [[5, 5], [5, 5, 5]];
    LeavesOf(t, [5], [[5, 5], [5, 5, 5]]);
    LeafScan(t.kids[0]);
    hide Scanned, ScannedTo, ScannedKid;
    ScanStep(t, 0, 5, 5);
    ScanStep(t, 1, 5, 5);
    ScanKid(t, 0, 5, 5);
    ScanKid(t, 1, 5, 5);
  }

  lemma LeafScan(t: Tree)
    requires t.kids == [] && t.keys == [5, 5]
    ensures Scanned(t, 5, 5) == [5, 5]
  {
    hide Scanned, ScannedTo, ScannedKid;
    ScanStep(t, 0, 5, 5);
    ScanStep(t, 1, 5, 5);
    ScanStep(t, 2, 5, 5);
    ScanKid(t, 0, 5, 5);
    ScanKid(t, 1, 5, 5);
    ScanKid(t, 2, 5, 5);
  }

  // ---- another key doubled -----------------------------------------------------------------

  /** Four 4s and a 3. */
  method Fours() returns (b: BTree)
    ensures fresh(b) && fresh(b.mem.Keys) && b.Valid() && b.size == 5 && b.height == 0
    ensures FormOf(b.tree) == Form([3, 4, 4, 4, 4], [])
    ensures multiset(b.Keys())[2] == 0 && multiset(b.Keys())[3] == 1
  {
    hide BTree.Valid, FormOf, Inorder, Grown, GrownRoot, Two;
    b := TwoFours();
    LeafAdd(b, 4, [4, 4], 2, [4, 4, 4]);
    LeafAdd(b, 4, [4, 4, 4], 3, [4, 4, 4, 4]);
    LeafAdd(b, 3, [4, 4, 4, 4], 0, [3, 4, 4, 4, 4]);
  }

  method TwoFours() returns (b: BTree)
    ensures fresh(b) && fresh(b.mem.Keys) && b.Valid() && b.size == 2 && b.height == 0
    ensures FormOf(b.tree) == Form([4, 4], [])
    ensures multiset(b.Keys())[2] == 0 && multiset(b.Keys())[3] == 0
  {
    hide BTree.Valid, FormOf, Inorder, Grown, GrownRoot, Two;
    b := new BTree();
    LeafAdd(b, 4, [], 0, [4]);
    LeafAdd(b, 4, [4], 1, [4, 4]);
  }

  /** Four more 3s. */
  method Threes() returns (b: BTree)
    ensures fresh(b) && fresh(b.mem.Keys) && b.Valid() && b.size == 9 && b.height == 1
    ensures FormOf(b.tree) == Two([3, 4], [[3, 3, 3]] + [[3, 4], [4, 4]])
    ensures multiset(b.Keys())[2] == 0 && multiset(b.Keys())[3] == 5
  {
    hide BTree.Valid, FormOf, Inorder, Grown, GrownRoot, Two;
    b := Fours();
    FullLeafAdd(b, 3, 3, 4, 4, 4, 4, 1, [3, 3, 4]);
    ghost var ks, rest := [4], [[4, 4]];
    FirstAdd(b, 3, ks, [3, 3, 4], rest, 2, [3, 3, 3, 4]);
    FirstAdd(b, 3, ks, [3, 3, 3, 4], rest, 3, [3, 3, 3, 3, 4]);
    SplitAdd(b, 3, ks, 3, 3, 3, 3, 4, rest, 2, [3, 3, 3]);
    assert [3] + ks == [3, 4];
    assert [[3, 4]] + rest == [[3, 4], [4, 4]];
  }

  /** Three 2s. */
  method ThreeTwos() returns (b: BTree)
    ensures fresh(b) && fresh(b.mem.Keys) && b.Valid() && b.size == 12 && b.height == 1
    ensures FormOf(b.tree) == Two([3, 3, 4], [[2, 2, 2]] + [[3, 3], [3, 4], [4, 4]])
    ensures multiset(b.Keys())[2] == 3 && multiset(b.Keys())[3] == 5
  {
    hide BTree.Valid, FormOf, Inorder, Grown, GrownRoot, Two;
    b := Threes();
    ghost var ks, rest := [3, 4], [[3, 4], [4, 4]];
    FirstAdd(b, 2, ks, [3, 3, 3], rest, 0, [2, 3, 3, 3]);
    FirstAdd(b, 2, ks, [2, 3, 3, 3], rest, 1, [2, 2, 3, 3, 3]);
    SplitAdd(b, 2, ks, 2, 2, 3, 3, 3, rest, 2, [2, 2, 2]);
    assert [3] + ks == [3, 3, 4];
    assert [[3, 3]] + rest == [[3, 3], [3, 4], [4, 4]];
  }

  /** Three more, the last of which splits off two. */
  method SixTwos() returns (b: BTree)
    ensures fresh(b) && fresh(b.mem.Keys) && b.Valid() && b.size == 15 && b.height == 1
    ensures FormOf(b.tree) == Two([2, 3, 3, 4], [[2, 2, 2]] + [[2, 2], [3, 3], [3, 4], [4, 4]])
    ensures multiset(b.Keys())[2] == 6 && multiset(b.Keys())[3] == 5
  {
    hide BTree.Valid, FormOf, Inorder, Grown, GrownRoot, Two;
    b := ThreeTwos();
    ghost var ks, rest := [3, 3, 4], [[3, 3], [3, 4], [4, 4]];
    FirstAdd(b, 2, ks, [2, 2, 2], rest, 3, [2, 2, 2, 2]);
    FirstAdd(b, 2, ks, [2, 2, 2, 2], rest, 4, [2, 2, 2, 2, 2]);
    SplitAdd(b, 2, ks, 2, 2, 2, 2, 2, rest, 2, [2, 2, 2]);
    assert [2] + ks == [2, 3, 3, 4];
    assert [[2, 2]] + rest == [[2, 2], [3, 3], [3, 4], [4, 4]];
  }

  /** A seventh 2 goes behind the separator 2. */
  method SevenTwos() returns (b: BTree)
    ensures fresh(b) && fresh(b.mem.Keys) && b.Valid() && b.size == 16 && b.height == 1
    ensures FormOf(b.tree) == Two([2, 3, 3, 4], [[2, 2, 2]] + [[2, 2, 2], [3, 3], [3, 4], [4, 4]])
    ensures multiset(b.Keys())[2] == 7 && multiset(b.Keys())[3] == 5
  {
    hide BTree.Valid, FormOf, Inorder, Grown, GrownRoot, Two;
    b := SixTwos();
    ghost var ks, rest := [2, 3, 3, 4], [[3, 3], [3, 4], [4, 4]];
    assert [[2, 2]] + rest == [[2, 2], [3, 3], [3, 4], [4, 4]];
    SecondAdd(b, 2, ks, [2, 2, 2], [2, 2], rest, 2, [2, 2, 2]);
    assert [[2, 2, 2]] + rest == [[2, 2, 2], [3, 3], [3, 4], [4, 4]];
  }

  /** Two 1s. */
  method TwoOnes() returns (b: BTree)
    ensures fresh(b) && fresh(b.mem.Keys) && b.Valid() && b.size == 18 && b.height == 1
    ensures FormOf(b.tree) == Two([2, 3, 3, 4], [[1, 1, 2, 2, 2]] + [[2, 2, 2], [3, 3], [3, 4], [4, 4]])
    ensures multiset(b.Keys())[2] == 7 && multiset(b.Keys())[3] == 5
  {
    hide BTree.Valid, FormOf, Inorder, Grown, GrownRoot, Two;
    b := SevenTwos();
    ghost var ks, rest := [2, 3, 3, 4], [[2, 2, 2], [3, 3], [3, 4], [4, 4]];
    FirstAdd(b, 1, ks, [2, 2, 2], rest, 0, [1, 2, 2, 2]);
    FirstAdd(b, 1, ks, [1, 2, 2, 2], rest, 1, [1, 1, 2, 2, 2]);
  }

  /** A third 1 fills the root, and a fourth splits it. */
  method Tall() returns (b: BTree)
    ensures fresh(b) && fresh(b.mem.Keys) && b.Valid() && b.size == 20 && b.height == 2
    ensures FormOf(b.tree)
      == Form([3], [Two([2, 2], [[1, 1, 1, 1], [2, 2], [2, 2, 2]]), Two([3, 4], [[3, 3], [3, 4], [4, 4]])])
    ensures multiset(b.Keys())[2] == 7 && multiset(b.Keys())[3] == 5
  {
    hide BTree.Valid, FormOf, Inorder, Grown, GrownRoot, Two;
    b := TwoOnes();
    ghost var rest := [[2, 2, 2], [3, 3], [3, 4], [4, 4]];
    SplitAdd(b, 1, [2, 3, 3, 4], 1, 1, 2, 2, 2, rest, 2, [1, 1, 1]);
    ghost var ks, ls := [2] + [2, 3, 3, 4], [[1, 1, 1]] + ([[2, 2]] + rest);
    ghost var kl, ll, kr, lr := [2, 2], [[1, 1, 1]] + [[2, 2], [2, 2, 2]], [3, 4], [[3, 3], [3, 4], [4, 4]];
    assert ks == kl + [3] + kr && ls == ll + lr;
    TwoRoot(ks, ls, 3, kl, ll, kr, lr, 1);
    FirstStep(kl, [1, 1, 1], [[2, 2], [2, 2, 2]], 1, 3, [1, 1, 1, 1]);
    RootKeys(ks, ls);
    RootKeys(kl, ll);
    TallAdd(b, 1, Two(ks, ls), 3, Two(kl, ll), Two(kr, lr), Two(kl, [[1, 1, 1, 1]] + [[2, 2], [2, 2, 2]]));
    assert [[1, 1, 1, 1]] + [[2, 2], [2, 2, 2]] == [[1, 1, 1, 1], [2, 2], [2, 2, 2]];
  }

  /** Into the left of two subtrees, which may have come about just now. */
  method TallAdd(b: BTree, key: int, ghost f: Form, ghost k: int, ghost l: Form, ghost r: Form, ghost g: Form)
    requires b.Valid() && FormOf(b.tree) == f && b.height == if |f.keys| == MAX_KEYS then 1 else 2
    requires GrownRoot(f, key, b.height) == Grown(Form([k], [l, r]), key, 2)
    requires key < k && |l.keys| < MAX_KEYS && Grown(l, key, 1) == g
    modifies b, b.mem.Keys
    ensures b.Valid() && fresh(b.mem.Keys - old(b.mem.Keys)) && FormOf(b.tree) == Form([k], [g, r]) && b.height == 2
    ensures b.size == old(b.size) + 1 && multiset(b.Keys()) == multiset(old(b.Keys())) + multiset{key}
  {
    hide BTree.Valid, FormOf, Inorder, GrownRoot, Grown;
    LeftStep(k, l, r, key, g);
    Add(b, key, Form([k], [g, r]), 2);
  }

  /** Two more 1s bring the left subtree to three keys. */
  method TwentyTwoKeys() returns (b: BTree)
    ensures fresh(b) && fresh(b.mem.Keys) && b.Valid() && b.size == 22 && b.height == 2
    ensures FormOf(b.tree)
      == Form([3], [Two([1, 2, 2], [[1, 1, 1], [1, 1], [2, 2], [2, 2, 2]]), Two([3, 4], [[3, 3], [3, 4], [4, 4]])])
    ensures multiset(b.Keys())[2] == 7 && multiset(b.Keys())[3] == 5
  {
    hide BTree.Valid, FormOf, Inorder, Grown, GrownRoot, Two;
    b := Tall();
    ghost var r, rest := Two([3, 4], [[3, 3], [3, 4], [4, 4]]), [[2, 2], [2, 2, 2]];
    ghost var l := Two([2, 2], [[1, 1, 1, 1]] + rest);
    assert [[1, 1, 1, 1]] + rest == [[1, 1, 1, 1], [2, 2], [2, 2, 2]];
    FirstStep([2, 2], [1, 1, 1, 1], rest, 1, 4, [1, 1, 1, 1, 1]);
    RootKeys([2, 2], [[1, 1, 1, 1]] + rest);
    LeftStep(3, l, r, 1, Two([2, 2], [[1, 1, 1, 1, 1]] + rest));
    TallAdd(b, 1, Form([3], [l, r]), 3, l, r, Two([2, 2], [[1, 1, 1, 1, 1]] + rest));
    l := Two([2, 2], [[1, 1, 1, 1, 1]] + rest);
    SplitStep([2, 2], 1, 1, 1, 1, 1, rest, 1, 2, [1, 1, 1]);
    RootKeys([2, 2], [[1, 1, 1, 1, 1]] + rest);
    ghost var g := Two([1] + [2, 2], [[1, 1, 1]] + ([[1, 1]] + rest));
    LeftStep(3, l, r, 1, g);
    TallAdd(b, 1, Form([3], [l, r]), 3, l, r, g);
    assert [1] + [2, 2] == [1, 2, 2] && [[1, 1, 1]] + ([[1, 1]] + rest) == [[1, 1, 1], [1, 1], [2, 2], [2, 2, 2]];
  }

  /** Deleting one of the five 3s then takes it out and turns seven 2s into eight. */
  method SwappedRun() returns (b: BTree)
    ensures fresh(b) && b.Valid() && b.size == 21
    ensures multiset(b.Keys())[3] == 4 && multiset(b.Keys())[2] == 8
  {
    hide BTree.Valid, FormOf, Inorder, Sorted, Ascending, Kept, Surplus, Fails, Deletable, Two, Deleted;
    b := TwentyTwoKeys();
    TallForms(b.tree);
    b.Unfold();
    SwappedExample(b.tree);
    ghost var m := multiset(b.Keys());
    assert 3 in m;
    assert 3 in b.Keys();
    b.Delete(3);
    assert (multiset(b.Keys()) + multiset{3})[3] == (m + multiset{2})[3];
    assert (multiset(b.Keys()) + multiset{3})[2] == (m + multiset{2})[2];
  }

  lemma TallForms(t: Tree)
    requires FormOf(t) ==
      Form([3], [Two([1, 2, 2], [[1, 1, 1], [1, 1], [2, 2], [2, 2, 2]]), Two([3, 4], [[3, 3], [3, 4], [4, 4]])])
    ensures t.keys == [3] && |t.kids| == 2 && t.kids[0].keys == [1, 2, 2] && |t.kids[0].kids| == 4
    ensures t.kids[0].kids[0].keys == [1, 1, 1] && t.kids[0].kids[1].keys == [1, 1]
    ensures t.kids[0].kids[2].keys == [2, 2] && t.kids[0].kids[3].keys == [2, 2, 2]
  {
    hide Two;
    var f := FormOf(t);
    assert |f.kids| == |t.kids| && f.kids[0] == FormOf(t.kids[0]);
    LeavesOf(t.kids[0], [1, 2, 2], [[1, 1, 1], [1, 1], [2, 2], [2, 2, 2]]);
  }
}
