/** Cuckoo hashing: two tables, two hash functions, and an insertion that displaces. */
module CuckooHashing {

  const EMPTY := -1
  const MAX_KICKS := 128

  /** The 32-bit pattern of a key. */
  function Bits(key: int): bv32 {
    (key % 0x1_0000_0000) as bv32
  }

  function Slot(word: bv32, cap: nat): (s: nat)
    requires cap > 0
    ensures s < cap
  {
    Reduced(word as nat, cap)
  }

  function Reduced(n: nat, cap: nat): (s: nat)
    requires cap > 0
    ensures s < cap
  {
    n % cap
  }

  function Mix1(word: bv32): bv32 {
    (word ^ (word >> 16)) * 0x45d9f3b
  }

  function Mix2(word: bv32): bv32 {
    var k := (word ^ (word >> 13)) * 0x9e3779b9;
    k ^ (k >> 11)
  }

  function Hash1(key: int, cap: nat): (s: nat)
    requires cap > 0
    ensures s < cap
  {
    Slot(Mix1(Bits(key)), cap)
  }

  function Hash2(key: int, cap: nat): (s: nat)
    requires cap > 0
    ensures s < cap
  {
    Slot(Mix2(Bits(key)), cap)
  }

  datatype Tables = Tables(k1: seq<int>, v1: seq<int>, k2: seq<int>, v2: seq<int>)

  ghost predicate Sized(t: Tables, cap: nat) {
    cap > 0 && |t.k1| == |t.v1| == |t.k2| == |t.v2| == cap
  }

  // ---- what the tables hold ----------------------------------------------------------------

  function Pair(key: int, val: int): multiset<(int, int)> {
    if key == EMPTY then multiset{} else multiset{(key, val)}
  }

  ghost function PairsOf(k: seq<int>, v: seq<int>): multiset<(int, int)>
    requires |k| == |v|
  {
    if k == [] then multiset{}
    else PairsOf(k[..|k| - 1], v[..|k| - 1]) + Pair(k[|k| - 1], v[|k| - 1])
  }

  /** The pairs in both tables, each as often as it is there. */
  ghost function Pairs(t: Tables): multiset<(int, int)>
    requires |t.k1| == |t.v1| && |t.k2| == |t.v2|
  {
    PairsOf(t.k1, t.v1) + PairsOf(t.k2, t.v2)
  }

  /** Whatever a slot holds belongs there. */
  ghost predicate WellPlaced(t: Tables, cap: nat) {
    && Sized(t, cap)
    && (forall i :: 0 <= i < cap && t.k1[i] != EMPTY ==> Hash1(t.k1[i], cap) == i)
    && (forall i :: 0 <= i < cap && t.k2[i] != EMPTY ==> Hash2(t.k2[i], cap) == i)
  }

  /** key sits in its slot of the first table, or in its slot of the second, not in both. */
  ghost predicate Placed(t: Tables, cap: nat, key: int)
    requires Sized(t, cap)
  {
    (t.k1[Hash1(key, cap)] == key) != (t.k2[Hash2(key, cap)] == key)
  }

  /** The tables hold exactly the pairs of c, every key in one of its two slots. */
  ghost predicate Represents(t: Tables, cap: nat, c: map<int, int>) {
    && Sized(t, cap) && EMPTY !in c
    && (forall i :: 0 <= i < cap && t.k1[i] != EMPTY ==>
      t.k1[i] in c && c[t.k1[i]] == t.v1[i] && Hash1(t.k1[i], cap) == i)
    && (forall i :: 0 <= i < cap && t.k2[i] != EMPTY ==>
      t.k2[i] in c && c[t.k2[i]] == t.v2[i] && Hash2(t.k2[i], cap) == i)
    && forall key :: key in c ==> Placed(t, cap, key)
  }

  /** Two probes decide. */
  lemma TwoProbes(t: Tables, cap: nat, c: map<int, int>, key: int)
    requires Represents(t, cap, c) && key != EMPTY
    ensures key in c <==> t.k1[Hash1(key, cap)] == key || t.k2[Hash2(key, cap)] == key
    ensures t.k1[Hash1(key, cap)] == key ==> c[key] == t.v1[Hash1(key, cap)] && t.k2[Hash2(key, cap)] != key
    ensures t.k2[Hash2(key, cap)] == key ==> c[key] == t.v2[Hash2(key, cap)]
  {
    if key in c { assert Placed(t, cap, key); }
  }

  /** If only slot h can hold key x, a pair of x is there once or not at all. */
  lemma {:induction false} OnceOnly(k: seq<int>, v: seq<int>, x: int, y: int, h: nat)
    requires |k| == |v| && x != EMPTY && forall i :: 0 <= i < |k| && k[i] == x ==> i == h
    ensures PairsOf(k, v)[(x, y)] == if h < |k| && k[h] == x && v[h] == y then 1 else 0
  {
    if k != [] {
      var n := |k| - 1;
      OnceOnly(k[..n], v[..n], x, y, h);
      assert Pair(k[n], v[n])[(x, y)] == if k[n] == x && v[n] == y then 1 else 0;
    }
  }

  lemma {:induction false} NoBlanks(k: seq<int>, v: seq<int>, y: int)
    requires |k| == |v|
    ensures PairsOf(k, v)[(EMPTY, y)] == 0
  {
    if k != [] { NoBlanks(k[..|k| - 1], v[..|k| - 1], y); }
  }

  /** How often a pair is there, told by the two slots of its key. */
  lemma PairCount(t: Tables, cap: nat, x: int, y: int)
    requires WellPlaced(t, cap)
    ensures Pairs(t)[(x, y)] ==
      (if x != EMPTY && t.k1[Hash1(x, cap)] == x && t.v1[Hash1(x, cap)] == y then 1 else 0)
      + (if x != EMPTY && t.k2[Hash2(x, cap)] == x && t.v2[Hash2(x, cap)] == y then 1 else 0)
  {
    hide Hash1, Hash2;
    if x == EMPTY {
      NoBlanks(t.k1, t.v1, y);
      NoBlanks(t.k2, t.v2, y);
    } else {
      OnceOnly(t.k1, t.v1, x, y, Hash1(x, cap));
      OnceOnly(t.k2, t.v2, x, y, Hash2(x, cap));
    }
  }

  ghost predicate SamePairs(s: multiset<(int, int)>, c: map<int, int>) {
    forall x, y :: s[(x, y)] == if x in c && c[x] == y then 1 else 0
  }

  /** The tables represent a map exactly if everything is well placed and the pairs are those
      of the map, each once. */
  lemma RepresentsIff(t: Tables, cap: nat, c: map<int, int>)
    ensures Represents(t, cap, c) <==> WellPlaced(t, cap) && EMPTY !in c && SamePairs(Pairs(t), c)
  {
    if Represents(t, cap, c) { PairsFromMap(t, cap, c); }
    if WellPlaced(t, cap) && EMPTY !in c && SamePairs(Pairs(t), c) { MapFromPairs(t, cap, c); }
  }

  lemma PairsFromMap(t: Tables, cap: nat, c: map<int, int>)
    requires Represents(t, cap, c)
    ensures WellPlaced(t, cap) && SamePairs(Pairs(t), c)
  {
    hide Hash1, Hash2, Pairs;
    forall x, y
      ensures Pairs(t)[(x, y)] == if x in c && c[x] == y then 1 else 0
    {
      PairCount(t, cap, x, y);
      if x != EMPTY { TwoProbes(t, cap, c, x); }
    }
  }

  lemma MapFromPairs(t: Tables, cap: nat, c: map<int, int>)
    requires WellPlaced(t, cap) && EMPTY !in c && SamePairs(Pairs(t), c)
    ensures Represents(t, cap, c)
  {
    hide Hash1, Hash2, Pairs;
    forall i | 0 <= i < cap && t.k1[i] != EMPTY
      ensures t.k1[i] in c && c[t.k1[i]] == t.v1[i]
    {
      PairCount(t, cap, t.k1[i], t.v1[i]);
    }
    forall i | 0 <= i < cap && t.k2[i] != EMPTY
      ensures t.k2[i] in c && c[t.k2[i]] == t.v2[i]
    {
      PairCount(t, cap, t.k2[i], t.v2[i]);
    }
    forall key | key in c
      ensures Placed(t, cap, key)
    {
      PairCount(t, cap, key, c[key]);
    }
  }

  // ---- displacing --------------------------------------------------------------------------

  ghost function Put1(t: Tables, s: nat, key: int, val: int): Tables
    requires s < |t.k1| && s < |t.v1|
  {
    t.(k1 := t.k1[s := key], v1 := t.v1[s := val])
  }

  ghost function Put2(t: Tables, s: nat, key: int, val: int): Tables
    requires s < |t.k2| && s < |t.v2|
  {
    t.(k2 := t.k2[s := key], v2 := t.v2[s := val])
  }

  /** Where an insertion stands: the tables, and the pair that has come out last. */
  datatype Outcome = Outcome(t: Tables, done: bool, key: int, val: int)

  ghost function KickFirst(t: Tables, cap: nat, key: int, val: int): (o: Outcome)
    requires Sized(t, cap)
    ensures Sized(o.t, cap)
  {
    var s := Hash1(key, cap);
    Outcome(Put1(t, s, key, val), t.k1[s] == EMPTY || t.k1[s] == key, t.k1[s], t.v1[s])
  }

  ghost function KickSecond(t: Tables, cap: nat, key: int, val: int): (o: Outcome)
    requires Sized(t, cap)
    ensures Sized(o.t, cap)
  {
    var s := Hash2(key, cap);
    Outcome(Put2(t, s, key, val), t.k2[s] == EMPTY || t.k2[s] == key, t.k2[s], t.v2[s])
  }

  /** At most rounds rounds of displacement, each through both tables. */
  ghost function Kicked(t: Tables, cap: nat, key: int, val: int, rounds: nat): (o: Outcome)
    requires Sized(t, cap)
    ensures Sized(o.t, cap)
    decreases rounds
  {
    if rounds == 0 then Outcome(t, false, key, val)
    else
      var a := KickFirst(t, cap, key, val);
      if a.done then a
      else
        var b := KickSecond(a.t, cap, a.key, a.val);
        if b.done then b else Kicked(b.t, cap, b.key, b.val, rounds - 1)
  }

  lemma BesideRest<A>(a': multiset<A>, b: multiset<A>, a: multiset<A>, c: multiset<A>, r: multiset<A>)
    requires a' + b == a + c
    ensures a' + r + b == a + r + c && r + a' + b == r + a + c
  {
    assert a' + r + b == (a' + b) + r && r + a' + b == (a' + b) + r;
    assert a + r + c == (a + c) + r && r + a + c == (a + c) + r;
  }

  /** One pair in, one pair out. */
  lemma {:induction false} Exchange(k: seq<int>, v: seq<int>, s: nat, x: int, y: int)
    requires |k| == |v| && s < |k|
    ensures PairsOf(k[s := x], v[s := y]) + Pair(k[s], v[s]) == PairsOf(k, v) + Pair(x, y)
  {
    hide Pair;
    var n := |k| - 1;
    var k', v' := k[s := x], v[s := y];
    if s == n {
      assert k'[..n] == k[..n] && v'[..n] == v[..n];
    } else {
      Exchange(k[..n], v[..n], s, x, y);
      assert k'[..n] == k[..n][s := x] && v'[..n] == v[..n][s := y];
      BesideRest(PairsOf(k'[..n], v'[..n]), Pair(k[s], v[s]), PairsOf(k[..n], v[..n]), Pair(x, y), Pair(k[n], v[n]));
    }
  }

  /** What an insertion keeps: everything is well placed, and no pair is lost or made but the
      one that has come out. */
  ghost predicate Conserves(t: Tables, cap: nat, key: int, val: int, o: Outcome)
    requires Sized(t, cap)
  {
    && WellPlaced(o.t, cap)
    && Pairs(o.t) + Pair(o.key, o.val) == Pairs(t) + Pair(key, val)
    && (o.done && o.key != EMPTY ==> o.t.k1[Hash1(o.key, cap)] == o.key || o.t.k2[Hash2(o.key, cap)] == o.key)
  }

  /** Any key, stored, absent or reserved. */
  lemma PutFirst(t: Tables, cap: nat, key: int, val: int)
    requires WellPlaced(t, cap)
    ensures Conserves(t, cap, key, val, KickFirst(t, cap, key, val))
  {
    hide Hash1, Hash2, Pair, PairsOf;
    var s := Hash1(key, cap);
    Exchange(t.k1, t.v1, s, key, val);
    BesideRest(PairsOf(t.k1[s := key], t.v1[s := val]), Pair(t.k1[s], t.v1[s]), PairsOf(t.k1, t.v1), Pair(key, val),
      PairsOf(t.k2, t.v2));
  }

  lemma PutSecond(t: Tables, cap: nat, key: int, val: int)
    requires WellPlaced(t, cap)
    ensures Conserves(t, cap, key, val, KickSecond(t, cap, key, val))
  {
    hide Hash1, Hash2, Pair, PairsOf;
    var s := Hash2(key, cap);
    Exchange(t.k2, t.v2, s, key, val);
    BesideRest(PairsOf(t.k2[s := key], t.v2[s := val]), Pair(t.k2[s], t.v2[s]), PairsOf(t.k2, t.v2), Pair(key, val),
      PairsOf(t.k1, t.v1));
  }

  /** The whole chain of displacements, from any tables and for any key. */
  lemma {:induction false} KickedConserves(t: Tables, cap: nat, key: int, val: int, rounds: nat)
    requires WellPlaced(t, cap)
    ensures Conserves(t, cap, key, val, Kicked(t, cap, key, val, rounds))
    decreases rounds
  {
    hide Hash1, Hash2, Pair, Pairs, KickFirst, KickSecond;
    if rounds > 0 {
      var a := KickFirst(t, cap, key, val);
      PutFirst(t, cap, key, val);
      if !a.done {
        var b := KickSecond(a.t, cap, a.key, a.val);
        PutSecond(a.t, cap, a.key, a.val);
        if !b.done { KickedConserves(b.t, cap, b.key, b.val, rounds - 1); }
      }
    }
  }

  lemma KickedStep(t: Tables, cap: nat, key: int, val: int, rounds: nat)
    requires Sized(t, cap) && rounds > 0
    ensures Kicked(t, cap, key, val, rounds) ==
      var a := KickFirst(t, cap, key, val);
      if a.done then a
      else
        var b := KickSecond(a.t, cap, a.key, a.val);
        if b.done then b else Kicked(b.t, cap, b.key, b.val, rounds - 1)
  {
  }

  lemma KickedNone(t: Tables, cap: nat, key: int, val: int)
    requires Sized(t, cap)
    ensures Kicked(t, cap, key, val, 0) == Outcome(t, false, key, val)
  {
  }

  // ---- what comes out ----------------------------------------------------------------------

  /** A new key: nothing has come out, or on failure a pair that the tables now lack. */
  lemma InsertedNew(t: Tables, cap: nat, c: map<int, int>, key: int, val: int, o: Outcome)
    requires Represents(t, cap, c) && key != EMPTY && key !in c && Conserves(t, cap, key, val, o)
    ensures o.done ==> o.key == EMPTY
    ensures o.key == EMPTY ==> Represents(o.t, cap, c[key := val])
    ensures o.key != EMPTY ==> o.key in c[key := val] && c[key := val][o.key] == o.val
    ensures o.key != EMPTY ==> Represents(o.t, cap, c[key := val] - {o.key})
  {
    hide Hash1, Hash2, Pairs;
    RepresentsIff(t, cap, c);
    var c', p := c[key := val], Pairs(o.t);
    var d := if o.key == EMPTY then c' else c' - {o.key};
    assert (p + Pair(o.key, o.val))[(o.key, o.val)] == (Pairs(t) + Pair(key, val))[(o.key, o.val)];
    forall x, y
      ensures p[(x, y)] + Pair(o.key, o.val)[(x, y)] == if x in c' && c'[x] == y then 1 else 0
    {
      assert (p + Pair(o.key, o.val))[(x, y)] == (Pairs(t) + Pair(key, val))[(x, y)];
    }
    forall x, y
      ensures p[(x, y)] == if x in d && d[x] == y then 1 else 0
    {
      assert p[(x, y)] + Pair(o.key, o.val)[(x, y)] == if x in c' && c'[x] == y then 1 else 0;
    }
    RepresentsIff(o.t, cap, d);
    if o.done && o.key != EMPTY { TwoProbes(o.t, cap, d, o.key); }
  }

  /** The pairs of c and a second pair of key, without the one that has come out. */
  lemma PairsAgain(t: Tables, cap: nat, c: map<int, int>, key: int, val: int, o: Outcome, x: int, y: int)
    requires Represents(t, cap, c) && key in c && Conserves(t, cap, key, val, o)
    ensures Pairs(o.t)[(x, y)] + Pair(o.key, o.val)[(x, y)]
      == (if x in c && c[x] == y then 1 else 0) + if x == key && y == val then 1 else 0
  {
    hide Hash1, Hash2, Pairs;
    RepresentsIff(t, cap, c);
    assert (Pairs(o.t) + Pair(o.key, o.val))[(x, y)] == (Pairs(t) + Pair(key, val))[(x, y)];
  }

  /** A key that is stored already: if its old pair has come out the new value counts; if the
      new pair has, the old value does; if nothing has, both pairs are in the tables. */
  lemma InsertedAgain(t: Tables, cap: nat, c: map<int, int>, key: int, val: int, o: Outcome)
    requires Represents(t, cap, c) && key in c && Conserves(t, cap, key, val, o)
    ensures o.done ==> o.key == EMPTY || o.key == key
    ensures o.key == key ==> o.val == c[key] || o.val == val
    ensures o.key == key && o.val == c[key] ==> Represents(o.t, cap, c[key := val])
    ensures o.key == key && o.val == val ==> Represents(o.t, cap, c)
    ensures o.key == EMPTY ==> o.t.k1[Hash1(key, cap)] == key == o.t.k2[Hash2(key, cap)]
  {
    hide Hash1, Hash2, Pairs;
    PairsAgain(t, cap, c, key, val, o, o.key, o.val);
    if o.key == EMPTY {
      PairsAgain(t, cap, c, key, val, o, key, val);
      PairsAgain(t, cap, c, key, val, o, key, c[key]);
      PairCount(o.t, cap, key, val);
      PairCount(o.t, cap, key, c[key]);
    } else if o.key == key {
      KeyReplaced(t, cap, c, key, val, o);
    } else if o.done {
      var v := if o.t.k1[Hash1(o.key, cap)] == o.key then o.t.v1[Hash1(o.key, cap)] else o.t.v2[Hash2(o.key, cap)];
      PairCount(o.t, cap, o.key, v);
      PairCount(o.t, cap, o.key, o.val);
      PairsAgain(t, cap, c, key, val, o, o.key, v);
    }
  }

  lemma KeyReplaced(t: Tables, cap: nat, c: map<int, int>, key: int, val: int, o: Outcome)
    requires Represents(t, cap, c) && key in c && Conserves(t, cap, key, val, o) && o.key == key
    ensures o.val == c[key] ==> Represents(o.t, cap, c[key := val])
    ensures o.val == val ==> Represents(o.t, cap, c)
  {
    hide Hash1, Hash2, Pairs;
    forall x, y
      ensures o.val == c[key] ==> Pairs(o.t)[(x, y)] == if x in c[key := val] && c[key := val][x] == y then 1 else 0
      ensures o.val == val ==> Pairs(o.t)[(x, y)] == if x in c && c[x] == y then 1 else 0
    {
      PairsAgain(t, cap, c, key, val, o, x, y);
    }
    RepresentsIff(o.t, cap, c[key := val]);
    RepresentsIff(o.t, cap, c);
  }

  // ---- probing and taking out --------------------------------------------------------------

  ghost predicate Probed(t: Tables, cap: nat, key: int)
    requires Sized(t, cap)
  {
    t.k1[Hash1(key, cap)] == key || t.k2[Hash2(key, cap)] == key
  }

  /** The value beside the first probe that meets key. */
  ghost function ValueOf(t: Tables, cap: nat, key: int): int
    requires Sized(t, cap) && Probed(t, cap, key)
  {
    if t.k1[Hash1(key, cap)] == key then t.v1[Hash1(key, cap)] else t.v2[Hash2(key, cap)]
  }

  ghost function Erased(t: Tables, cap: nat, key: int): Tables
    requires Sized(t, cap)
  {
    if t.k1[Hash1(key, cap)] == key then t.(k1 := t.k1[Hash1(key, cap) := EMPTY])
    else if t.k2[Hash2(key, cap)] == key then t.(k2 := t.k2[Hash2(key, cap) := EMPTY])
    else t
  }

  /** Exactly the pair that a probe would find goes; the reserved key takes nothing out. */
  lemma ErasedPairs(t: Tables, cap: nat, key: int)
    requires WellPlaced(t, cap)
    ensures WellPlaced(Erased(t, cap, key), cap)
    ensures Probed(t, cap, key) ==> Pairs(Erased(t, cap, key)) + Pair(key, ValueOf(t, cap, key)) == Pairs(t)
    ensures !Probed(t, cap, key) || key == EMPTY ==> Erased(t, cap, key) == t
  {
    hide Hash1, Hash2, Pair, PairsOf;
    var s1, s2 := Hash1(key, cap), Hash2(key, cap);
    Blank(0);
    if t.k1[s1] == key {
      Blank(t.v1[s1]);
      Exchange(t.k1, t.v1, s1, EMPTY, t.v1[s1]);
      assert t.v1[s1 := t.v1[s1]] == t.v1;
      BesideRest(PairsOf(t.k1[s1 := EMPTY], t.v1), Pair(key, t.v1[s1]), PairsOf(t.k1, t.v1), multiset{},
        PairsOf(t.k2, t.v2));
    } else if t.k2[s2] == key {
      Blank(t.v2[s2]);
      Exchange(t.k2, t.v2, s2, EMPTY, t.v2[s2]);
      assert t.v2[s2 := t.v2[s2]] == t.v2;
      BesideRest(PairsOf(t.k2[s2 := EMPTY], t.v2), Pair(key, t.v2[s2]), PairsOf(t.k2, t.v2), multiset{},
        PairsOf(t.k1, t.v1));
    }
  }

  lemma Blank(val: int)
    ensures Pair(EMPTY, val) == multiset{}
  {
  }

  lemma ErasedMap(t: Tables, cap: nat, c: map<int, int>, key: int)
    requires Represents(t, cap, c) && key != EMPTY
    ensures Probed(t, cap, key) <==> key in c
    ensures key in c ==> ValueOf(t, cap, key) == c[key]
    ensures Represents(Erased(t, cap, key), cap, c - {key})
  {
    hide Hash1, Hash2;
    TwoProbes(t, cap, c, key);
    var w := Erased(t, cap, key);
    forall x | x in c - {key}
      ensures Placed(w, cap, x)
    {
      assert Placed(t, cap, x);
    }
  }

  lemma SizeAfter(c: map<int, int>, key: int, val: int, o: Outcome)
    requires key !in c && (o.key != EMPTY ==> o.key in c[key := val])
    ensures |c[key := val]| == |c| + 1 && (o.key != EMPTY ==> |c[key := val] - {o.key}| == |c|)
  {
    assert c[key := val].Keys == c.Keys + {key};
    assert (c[key := val] - {o.key}).Keys == c[key := val].Keys - {o.key};
  }

  lemma SizeWithout(c: map<int, int>, key: int)
    ensures |c - {key}| == if key in c then |c| - 1 else |c|
  {
    assert (c - {key}).Keys == c.Keys - {key};
  }

  lemma EmptyTables(t: Tables, cap: nat)
    requires Sized(t, cap) && forall i :: 0 <= i < cap ==> t.k1[i] == EMPTY == t.k2[i]
    ensures WellPlaced(t, cap) && Represents(t, cap, map[])
  {
  }
}
