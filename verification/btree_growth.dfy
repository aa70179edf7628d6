/** What insertion makes of a B-tree when only keys and shape count, not which nodes hold
    them. */
module BTreeGrowth {
  import opened BTreeNodes
  import opened BTreeShape

  /** A tree without its nodes. */
  datatype Form = Form(keys: seq<int>, kids: seq<Form>)

  ghost function FormOf(t: Tree): Form {
    Form(t.keys, seq(|t.kids|, j requires 0 <= j < |t.kids| => FormOf(t.kids[j])))
  }

  function Low<A>(s: seq<A>): seq<A> {
    if |s| <= T then s else s[..T]
  }

  function High<A>(s: seq<A>): seq<A> {
    if |s| <= T then [] else s[T..]
  }

  /** The full child i split, its median moved up. */
  function Halved(f: Form, i: nat): Form
    requires i < |f.kids| && i <= |f.keys| && |f.kids[i].keys| == MAX_KEYS
  {
    var y := f.kids[i];
    var l, r := Form(y.keys[..T - 1], Low(y.kids)), Form(y.keys[T..], High(y.kids));
    Form(Insert(f.keys, i, y.keys[T - 1]), Insert(f.kids[i := l], i + 1, r))
  }

  /** The node once the child to enter has room, and the place of that child. */
  function Entered(f: Form, key: int): (Form, nat) {
    var i := Upper(f.keys, key);
    if i < |f.kids| && |f.kids[i].keys| == MAX_KEYS then
      var s := Halved(f, i);
      (s, if key > s.keys[i] then i + 1 else i)
    else
      (f, i)
  }

  /** A node of height h that is not full, after key has come in. */
  function Grown(f: Form, key: int, h: nat): Form
    decreases h
  {
    if h == 0 then
      Form(Insert(f.keys, Upper(f.keys, key), key), [])
    else
      var (s, j) := Entered(f, key);
      if j < |s.kids| then Form(s.keys, s.kids[j := Grown(s.kids[j], key, h - 1)]) else s
  }

  /** A whole tree of height h after key has come in. */
  function GrownRoot(f: Form, key: int, h: nat): Form {
    if |f.keys| == MAX_KEYS then Grown(Halved(Form([], [f]), 0), key, h + 1) else Grown(f, key, h)
  }

  lemma KidForm(t: Tree, i: nat, c: Tree)
    requires i < |t.kids|
    ensures FormOf(WithKid(t, i, c)) == Form(t.keys, FormOf(t).kids[i := FormOf(c)])
    ensures |FormOf(t).kids| == |t.kids| && FormOf(t).kids[i] == FormOf(t.kids[i])
  {
  }

  lemma HalvedForm(t: Tree, i: nat, z: BTNode, h: nat, least: nat)
    requires Splittable(t, i, h, least)
    ensures i < |FormOf(t).kids| && |FormOf(t).kids[i].keys| == MAX_KEYS
    ensures FormOf(Split(t, i, z)) == Halved(FormOf(t), i)
  {
    var y, f := t.kids[i], FormOf(t);
    HalfForms(y, z);
    var l, r := Form(y.keys[..T - 1], Low(FormOf(y).kids)), Form(y.keys[T..], High(FormOf(y).kids));
    var ts, us := t.kids[i := LowerHalf(y)], f.kids[i := l];
    forall j | 0 <= j < |us|
      ensures us[j] == FormOf(ts[j])
    {
    }
    InsertForms(ts, us, i + 1, UpperHalf(y, z), r);
  }

  lemma HalfForms(y: Tree, z: BTNode)
    requires |y.keys| == MAX_KEYS && (y.kids == [] || |y.kids| == MAX_KEYS + 1)
    ensures FormOf(LowerHalf(y)) == Form(y.keys[..T - 1], Low(FormOf(y).kids))
    ensures FormOf(UpperHalf(y, z)) == Form(y.keys[T..], High(FormOf(y).kids))
  {
    assert FormOf(LowerHalf(y)).kids == Low(FormOf(y).kids);
    assert FormOf(UpperHalf(y, z)).kids == High(FormOf(y).kids);
  }

  lemma InsertForms(ts: seq<Tree>, us: seq<Form>, i: nat, c: Tree, f: Form)
    requires |ts| == |us| && i <= |ts| && f == FormOf(c)
    requires forall j :: 0 <= j < |us| ==> us[j] == FormOf(ts[j])
    ensures |Insert(us, i, f)| == |Insert(ts, i, c)|
    ensures forall j :: 0 <= j < |us| + 1 ==> Insert(us, i, f)[j] == FormOf(Insert(ts, i, c)[j])
  {
  }

  lemma LeafForm(t: Tree, key: int, u: Tree)
    requires u == Tree(t.id, Insert(t.keys, Upper(t.keys, key), key), [])
    ensures FormOf(u) == Grown(FormOf(t), key, 0)
  {
  }

  lemma FullForm(t: Tree, i: nat, key: int, z: BTNode, h: nat, least: nat)
    requires Splittable(t, i, h, least) && i == Upper(t.keys, key)
    ensures var s := Split(t, i, z);
      i < |s.keys| && Entered(FormOf(t), key) == (FormOf(s), if key > s.keys[i] then i + 1 else i)
  {
    HalvedForm(t, i, z, h, least);
    SplitParts(t, i, z, h, least);
  }

  lemma RoomForm(t: Tree, i: nat, key: int)
    requires i == Upper(t.keys, key) && i < |t.kids| && |t.kids[i].keys| != MAX_KEYS
    ensures Entered(FormOf(t), key) == (FormOf(t), i)
  {
  }

  lemma BelowForm(t: Tree, s: Tree, i: nat, c: Tree, key: int, h: nat)
    requires h > 0 && i < |s.kids| && Entered(FormOf(t), key) == (FormOf(s), i)
    requires FormOf(c) == Grown(FormOf(s.kids[i]), key, h - 1)
    ensures FormOf(WithKid(s, i, c)) == Grown(FormOf(t), key, h)
  {
    hide Entered;
    KidForm(s, i, c);
  }

  lemma RootForm(t: Tree, s: BTNode, z: BTNode, h: nat)
    requires Splittable(Tree(s, [], [t]), 0, h, 0)
    ensures |t.keys| == MAX_KEYS && FormOf(Split(Tree(s, [], [t]), 0, z)) == Halved(Form([], [FormOf(t)]), 0)
  {
    hide Split, Halved, Shape;
    FormAbove(t, s);
    HalvedForm(Tree(s, [], [t]), 0, z, h, 0);
  }

  lemma FormAbove(t: Tree, s: BTNode)
    ensures FormOf(Tree(s, [], [t])) == Form([], [FormOf(t)])
  {
    assert FormOf(Tree(s, [], [t])).kids == [FormOf(t)];
  }

  lemma FormKeys(t: Tree)
    ensures FormOf(t).keys == t.keys
  {
  }

  // ---- steps on small trees ----------------------------------------------------------------

  /** key belongs at place i of s. */
  ghost predicate Place(s: seq<int>, key: int, i: nat) {
    i <= |s| && (i > 0 ==> s[i - 1] <= key) && forall k :: i <= k < |s| ==> key < s[k]
  }

  function Leaves(ls: seq<seq<int>>): seq<Form> {
    seq(|ls|, i requires 0 <= i < |ls| => Form(ls[i], []))
  }

  /** A root over leaves. */
  function Two(ks: seq<int>, ls: seq<seq<int>>): Form {
    Form(ks, Leaves(ls))
  }

  lemma LeafStep(s: seq<int>, key: int, p: nat, r: seq<int>)
    requires Place(s, key, p) && r == Insert(s, p, key)
    ensures Grown(Form(s, []), key, 0) == Form(r, [])
    ensures |s| < MAX_KEYS ==> GrownRoot(Form(s, []), key, 0) == Form(r, [])
  {
    UpperIs(s, key, p);
  }

  /** Into leaf i, which has room. */
  lemma KidStep(ks: seq<int>, ls: seq<seq<int>>, key: int, i: nat, p: nat, r: seq<int>)
    requires Place(ks, key, i) && |ls| == |ks| + 1 && |ls[i]| < MAX_KEYS
    requires Place(ls[i], key, p) && r == Insert(ls[i], p, key)
    ensures Grown(Two(ks, ls), key, 1) == Two(ks, ls[i := r])
    ensures |ks| < MAX_KEYS ==> GrownRoot(Two(ks, ls), key, 1) == Two(ks, ls[i := r])
  {
    UpperIs(ks, key, i);
    LeafStep(ls[i], key, p, r);
    assert Leaves(ls)[i := Form(r, [])] == Leaves(ls[i := r]);
  }

  lemma FirstStep(ks: seq<int>, s: seq<int>, rest: seq<seq<int>>, key: int, p: nat, r: seq<int>)
    requires Place(ks, key, 0) && |rest| == |ks| && |s| < MAX_KEYS && Place(s, key, p) && r == Insert(s, p, key)
    ensures Grown(Two(ks, [s] + rest), key, 1) == Two(ks, [r] + rest)
    ensures |ks| < MAX_KEYS ==> GrownRoot(Two(ks, [s] + rest), key, 1) == Two(ks, [r] + rest)
  {
    KidStep(ks, [s] + rest, key, 0, p, r);
    assert ([s] + rest)[0 := r] == [r] + rest;
  }

  lemma SecondStep(ks: seq<int>, s: seq<int>, t: seq<int>, rest: seq<seq<int>>, key: int, p: nat, r: seq<int>)
    requires Place(ks, key, 1) && |rest| + 1 == |ks| && |t| < MAX_KEYS && Place(t, key, p) && r == Insert(t, p, key)
    ensures Grown(Two(ks, [s] + ([t] + rest)), key, 1) == Two(ks, [s] + ([r] + rest))
    ensures |ks| < MAX_KEYS ==> GrownRoot(Two(ks, [s] + ([t] + rest)), key, 1) == Two(ks, [s] + ([r] + rest))
  {
    KidStep(ks, [s] + ([t] + rest), key, 1, p, r);
    assert ([s] + ([t] + rest))[1 := r] == [s] + ([r] + rest);
  }

  lemma ThirdStep(ks: seq<int>, a: seq<int>, b: seq<int>, c: seq<int>, key: int, p: nat, r: seq<int>)
    requires Place(ks, key, 2) && |ks| == 2 && |c| < MAX_KEYS && Place(c, key, p) && r == Insert(c, p, key)
    ensures GrownRoot(Two(ks, [a, b, c]), key, 1) == Two(ks, [a, b, r])
  {
    KidStep(ks, [a, b, c], key, 2, p, r);
    assert [a, b, c][2 := r] == [a, b, r];
  }

  /** The first leaf is full: its upper half moves out, and key goes into the lower one. */
  lemma SplitStep(ks: seq<int>, a: int, b: int, c: int, d: int, e: int, rest: seq<seq<int>>, key: int, p: nat,
      r: seq<int>)
    requires Place(ks, key, 0) && |rest| == |ks| && key <= c && Place([a, b], key, p) && r == Insert([a, b], p, key)
    ensures Grown(Two(ks, [[a, b, c, d, e]] + rest), key, 1) == Two([c] + ks, [r] + ([[d, e]] + rest))
    ensures |ks| < MAX_KEYS ==>
      GrownRoot(Two(ks, [[a, b, c, d, e]] + rest), key, 1) == Two([c] + ks, [r] + ([[d, e]] + rest))
  {
    UpperIs(ks, key, 0);
    FirstHalved(ks, a, b, c, d, e, rest);
    LeafStep([a, b], key, p, r);
    var hs := [[a, b]] + ([[d, e]] + rest);
    assert hs[0] == [a, b];
    assert Leaves(hs)[0 := Form(r, [])] == Leaves([r] + ([[d, e]] + rest));
  }

  lemma FirstHalved(ks: seq<int>, a: int, b: int, c: int, d: int, e: int, rest: seq<seq<int>>)
    ensures Halved(Two(ks, [[a, b, c, d, e]] + rest), 0) == Two([c] + ks, [[a, b]] + ([[d, e]] + rest))
    ensures Leaves([[a, b, c, d, e]] + rest)[0] == Form([a, b, c, d, e], [])
  {
    var s := [a, b, c, d, e];
    assert s[..2] == [a, b] && s[3..] == [d, e] && s[2] == c;
    assert Insert(ks, 0, c) == [c] + ks;
    var hs := Leaves([s] + rest)[0 := Form([a, b], [])];
    assert Insert(hs, 1, Form([d, e], [])) == Leaves([[a, b]] + ([[d, e]] + rest));
  }

  /** A full root that is a leaf is split first. */
  lemma LeafRoot(a: int, b: int, c: int, d: int, e: int, key: int)
    ensures GrownRoot(Form([a, b, c, d, e], []), key, 0) == Grown(Two([c], [[a, b]] + [[d, e]]), key, 1)
  {
    FirstHalved([], a, b, c, d, e, []);
    assert [c] + [] == [c] && [[a, b]] + ([[d, e]] + []) == [[a, b]] + [[d, e]];
    assert Leaves([[a, b, c, d, e]] + []) == [Form([a, b, c, d, e], [])];
  }

  /** So is a full root over leaves. */
  lemma TwoRoot(ks: seq<int>, ls: seq<seq<int>>, k: int, kl: seq<int>, ll: seq<seq<int>>, kr: seq<int>,
      lr: seq<seq<int>>, key: int)
    requires ks == kl + [k] + kr && |kl| == |kr| == T - 1 && ls == ll + lr && |ll| == |lr| == T
    ensures GrownRoot(Two(ks, ls), key, 1) == Grown(Form([k], [Two(kl, ll), Two(kr, lr)]), key, 2)
  {
    var f := Two(ks, ls);
    assert ks[..T - 1] == kl && ks[T..] == kr && ks[T - 1] == k;
    assert Low(f.kids) == Leaves(ll) && High(f.kids) == Leaves(lr);
    assert Insert<int>([], 0, k) == [k];
    assert Insert([f][0 := Two(kl, ll)], 1, Two(kr, lr)) == [Two(kl, ll), Two(kr, lr)];
  }

  /** Below a root with one key, on the left. */
  lemma LeftStep(k: int, a: Form, b: Form, key: int, c: Form)
    requires key < k && |a.keys| < MAX_KEYS && Grown(a, key, 1) == c
    ensures Grown(Form([k], [a, b]), key, 2) == GrownRoot(Form([k], [a, b]), key, 2) == Form([k], [c, b])
  {
    UpperIs([k], key, 0);
    assert [a, b][0 := c] == [c, b];
  }

  lemma ThreeForms(t: Tree)
    requires FormOf(t) == Two([4, 7], [[1, 2, 3], [5, 6], [8, 9]])
    ensures t.keys == [4, 7] && |t.kids| == 3 && forall i :: 0 <= i < 3 ==> t.kids[i].kids == []
    ensures t.kids[0].keys == [1, 2, 3] && t.kids[1].keys == [5, 6] && t.kids[2].keys == [8, 9]
  {
    LeavesOf(t, [4, 7], [[1, 2, 3], [5, 6], [8, 9]]);
  }

  lemma LeavesOf(t: Tree, ks: seq<int>, ls: seq<seq<int>>)
    requires FormOf(t) == Two(ks, ls)
    ensures t.keys == ks && |t.kids| == |ls|
    ensures forall i :: 0 <= i < |ls| ==> t.kids[i].keys == ls[i] && t.kids[i].kids == []
  {
    var f := FormOf(t);
    assert |f.kids| == |t.kids| == |Leaves(ls)| == |ls|;
    forall i | 0 <= i < |ls|
      ensures t.kids[i].keys == ls[i] && t.kids[i].kids == []
    {
      assert f.kids[i] == FormOf(t.kids[i]) == Form(ls[i], []);
      assert |FormOf(t.kids[i]).kids| == |t.kids[i].kids|;
    }
  }
}
