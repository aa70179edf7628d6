/** The cuckoo hash table over its four arrays, and runs of it. */
module CuckooTables {
  import opened CuckooHashing
  import opened CuckooWalks

  class CuckooHash {
    const capacity: nat
    const keys1: array<int>
    const vals1: array<int>
    const keys2: array<int>
    const vals2: array<int>
    var size: int
    ghost var contents: map<int, int>

    ghost predicate Separate()
      reads this
    {
      keys1 != vals1 && keys1 != keys2 && keys1 != vals2 && vals1 != keys2 && vals1 != vals2 && keys2 != vals2
    }

    ghost function Now(): Tables
      reads this, keys1, vals1, keys2, vals2
    {
      Tables(keys1[..], vals1[..], keys2[..], vals2[..])
    }

    /** What every operation keeps, whatever its key. */
    ghost predicate Sane()
      reads this, keys1, vals1, keys2, vals2
    {
      Separate() && WellPlaced(Now(), capacity)
    }

    /** What operations keep that insert only absent keys and never the reserved one. */
    ghost predicate Valid()
      reads this, keys1, vals1, keys2, vals2
    {
      Sane() && Represents(Now(), capacity, contents) && size == |contents|
    }

    constructor (cap: nat)
      requires cap > 0
      ensures Valid() && contents == map[] && capacity == cap
      ensures fresh(keys1) && fresh(vals1) && fresh(keys2) && fresh(vals2)
      ensures forall i :: 0 <= i < cap ==> Now().k1[i] == -1 == Now().k2[i]
    {
      hide Represents, WellPlaced;
      capacity := cap;
      keys1 := new int[cap](_ => EMPTY);
      vals1 := new int[cap];
      keys2 := new int[cap](_ => EMPTY);
      vals2 := new int[cap];
      size := 0;
      contents := map[];
      new;
      EmptyTables(Now(), cap);
    }

    /** Two probes, for any key; the reserved one is found exactly if a slot of it is empty. */
    method Get(key: int) returns (found: bool, val: int)
      requires Sane()
      ensures found <==> Probed(Now(), capacity, key)
      ensures found ==> val == ValueOf(Now(), capacity, key)
      ensures Valid() && key != EMPTY ==> (found <==> key in contents) && (found ==> val == contents[key])
    {
      var s1, s2 := Hash1(key, capacity), Hash2(key, capacity);
      if Valid() && key != EMPTY { ErasedMap(Now(), capacity, contents, key); }
      if keys1[s1] == key { return true, vals1[s1]; }
      if keys2[s2] == key { return true, vals2[s2]; }
      return false, 0;
    }

    /** For any key and any state of the tables: pairs are conserved, but for the one that has
        come out. For a new key that is none, or on failure the one left in hand; which of the
        two is told by the tables before. */
    method Insert(key: int, val: int) returns (ok: bool, ghost o: Outcome)
      requires Sane()
      modifies this, keys1, vals1, keys2, vals2
      ensures Sane() && o == Kicked(old(Now()), capacity, key, val, MAX_KICKS) && Now() == o.t && ok == o.done
      ensures Conserves(old(Now()), capacity, key, val, o)
      ensures size == old(size) + if ok then 1 else 0
      ensures old(Valid()) && key != -1 && key !in old(contents) ==>
        Valid() && contents == if ok then old(contents)[key := val] else old(contents)[key := val] - {o.key}
      ensures old(Valid()) && key != -1 && key !in old(contents) ==>
        (ok <==> old(FindsRoom(Now(), capacity, key)))
      ensures old(Valid()) && key != -1 && key !in old(contents) && !ok ==> o.key in old(contents)[key := val]
    {
      hide Hash1, Hash2, Kicked, KickFirst, KickSecond, Represents, WellPlaced, Pair, Pairs, FindsRoom;
      PlacedSized(Now(), capacity);
      o := Kicked(Now(), capacity, key, val, MAX_KICKS);
      KickedConserves(Now(), capacity, key, val, MAX_KICKS);
      ghost var t, c := Now(), contents;
      ok := Displace(key, val);
      assert WellPlaced(o.t, capacity);
      if old(Valid()) && key != EMPTY && key !in c {
        InsertedNew(t, capacity, c, key, val, o);
        StoredNew(t, capacity, c, key, val);
        FailsFull(t, capacity, key, val, MAX_KICKS);
        SizeAfter(c, key, val, o);
        contents := if ok then c[key := val] else c[key := val] - {o.key};
      }
    }

    /** The loop of the insertion. */
    method Displace(key: int, val: int) returns (ok: bool)
      requires Separate() && Sized(Now(), capacity)
      modifies this`size, keys1, vals1, keys2, vals2
      ensures Sized(Now(), capacity) && old(Sized(Now(), capacity))
      ensures var o := Kicked(old(Now()), capacity, key, val, MAX_KICKS); Now() == o.t && ok == o.done
      ensures size == old(size) + if ok then 1 else 0
    {
      hide Hash1, Hash2, Kicked, KickFirst, KickSecond;
      ghost var end := Kicked(Now(), capacity, key, val, MAX_KICKS);
      var curKey, curVal := key, val;
      for kick := 0 to MAX_KICKS
        invariant Sized(Now(), capacity) && size == old(size)
        invariant end == Kicked(Now(), capacity, curKey, curVal, MAX_KICKS - kick)
      {
        KickedStep(Now(), capacity, curKey, curVal, MAX_KICKS - kick);
        ok, curKey, curVal := Kick1(curKey, curVal);
        if ok { return; }
        ok, curKey, curVal := Kick2(curKey, curVal);
        if ok { return; }
      }
      KickedNone(Now(), capacity, curKey, curVal);
      return false;
    }

    /** Puts the pair into its slot of the first table; k and v are what was there. */
    method Kick1(key: int, val: int) returns (done: bool, k: int, v: int)
      requires Separate() && Sized(Now(), capacity)
      modifies this`size, keys1, vals1
      ensures Sized(Now(), capacity) && old(Sized(Now(), capacity))
      ensures Outcome(Now(), done, k, v) == KickFirst(old(Now()), capacity, key, val)
      ensures size == old(size) + if done then 1 else 0
    {
      hide Hash1, Hash2;
      var s1 := Hash1(key, capacity);
      ghost var t := Now();
      k, v := keys1[s1], vals1[s1];
      done := keys1[s1] == EMPTY || keys1[s1] == key;
      keys1[s1], vals1[s1] := key, val;
      if done { size := size + 1; }
      assert Now() == Put1(t, s1, key, val);
    }

    method Kick2(key: int, val: int) returns (done: bool, k: int, v: int)
      requires Separate() && Sized(Now(), capacity)
      modifies this`size, keys2, vals2
      ensures Sized(Now(), capacity) && old(Sized(Now(), capacity))
      ensures Outcome(Now(), done, k, v) == KickSecond(old(Now()), capacity, key, val)
      ensures size == old(size) + if done then 1 else 0
    {
      hide Hash1, Hash2;
      var s2 := Hash2(key, capacity);
      ghost var t := Now();
      k, v := keys2[s2], vals2[s2];
      done := keys2[s2] == EMPTY || keys2[s2] == key;
      keys2[s2], vals2[s2] := key, val;
      if done { size := size + 1; }
      assert Now() == Put2(t, s2, key, val);
    }

    /** For any key: exactly the pair goes that Get would have found. */
    method Delete(key: int) returns (found: bool)
      requires Sane()
      modifies this, keys1, keys2
      ensures Sane() && Now() == Erased(old(Now()), capacity, key)
      ensures found <==> old(Probed(Now(), capacity, key))
      ensures found ==> Pairs(Now()) + Pair(key, old(ValueOf(Now(), capacity, key))) == old(Pairs(Now()))
      ensures !found || key == EMPTY ==> Now() == old(Now())
      ensures size == old(size) - if found then 1 else 0
      ensures old(Valid()) && key != EMPTY ==>
        Valid() && contents == old(contents) - {key} && (found <==> key in old(contents))
    {
      hide Hash1, Hash2, Represents, Pair, Pairs, Erased, Probed;
      ghost var t, c := Now(), contents;
      ErasedPairs(t, capacity, key);
      SizeWithout(c, key);
      found := TakeOut(key);
      if old(Valid()) && key != EMPTY {
        ErasedMap(t, capacity, c, key);
        contents := c - {key};
      }
    }

    method TakeOut(key: int) returns (found: bool)
      requires Separate() && Sized(Now(), capacity)
      modifies this`size, keys1, keys2
      ensures old(Sized(Now(), capacity)) && Now() == Erased(old(Now()), capacity, key)
      ensures found <==> old(Probed(Now(), capacity, key))
      ensures size == old(size) - if found then 1 else 0
    {
      hide Hash1, Hash2;
      var s1, s2 := Hash1(key, capacity), Hash2(key, capacity);
      ghost var t := Now();
      if keys1[s1] == key {
        keys1[s1] := EMPTY;
        size := size - 1;
        assert Now() == t.(k1 := t.k1[s1 := EMPTY]);
        return true;
      }
      if keys2[s2] == key {
        keys2[s2] := EMPTY;
        size := size - 1;
        assert Now() == t.(k2 := t.k2[s2 := EMPTY]);
        return true;
      }
      return false;
    }
  }

  lemma PlacedSized(t: Tables, cap: nat)
    requires WellPlaced(t, cap)
    ensures Sized(t, cap)
  {
  }

  /** What is left in hand after the last round is a real pair. */
  lemma {:induction false} FailsFull(t: Tables, cap: nat, key: int, val: int, rounds: nat)
    requires Sized(t, cap) && key != EMPTY
    ensures !Kicked(t, cap, key, val, rounds).done ==> Kicked(t, cap, key, val, rounds).key != EMPTY
    decreases rounds
  {
    hide Hash1, Hash2;
    if rounds > 0 {
      var a := KickFirst(t, cap, key, val);
      if !a.done {
        var b := KickSecond(a.t, cap, a.key, a.val);
        if !b.done { FailsFull(b.t, cap, b.key, b.val, rounds - 1); }
      }
    }
  }

  // ---- runs --------------------------------------------------------------------------------

  /** Tables with one slot each. */
  ghost function Single(k1: int, v1: int, k2: int, v2: int): (t: Tables)
    ensures Sized(t, 1)
  {
    Tables([k1], [v1], [k2], [v2])
  }

  lemma IntoFree(k: int, v: int, v1: int, k2: int, v2: int)
    ensures var o := Kicked(Single(EMPTY, v1, k2, v2), 1, k, v, MAX_KICKS);
      o.done && o.t == Single(k, v, k2, v2)
  {
    hide Hash1, Hash2, Kicked;
    KickedStep(Single(EMPTY, v1, k2, v2), 1, k, v, MAX_KICKS);
  }

  lemma IntoTaken(k: int, v: int, k1: int, v1: int, v2: int)
    requires k1 != EMPTY && k1 != k
    ensures var o := Kicked(Single(k1, v1, EMPTY, v2), 1, k, v, MAX_KICKS);
      o.done && o.t == Single(k, v, k1, v1)
  {
    hide Hash1, Hash2, Kicked;
    KickedStep(Single(k1, v1, EMPTY, v2), 1, k, v, MAX_KICKS);
  }

  /** Round and round: the old pair drives out the new one. */
  lemma IntoBoth(k: int, v: int, k1: int, v1: int, v2: int)
    requires k1 != EMPTY && k1 != k && k != EMPTY
    ensures var o := Kicked(Single(k1, v1, k, v2), 1, k, v, MAX_KICKS);
      o.done && o.t == Single(k, v2, k1, v1)
  {
    hide Hash1, Hash2, Kicked;
    KickedStep(Single(k1, v1, k, v2), 1, k, v, MAX_KICKS);
    assert KickFirst(Single(k1, v1, k, v2), 1, k, v) == Outcome(Single(k, v, k, v2), false, k1, v1);
    assert KickSecond(Single(k, v, k, v2), 1, k1, v1) == Outcome(Single(k, v, k1, v1), false, k, v2);
    KickedStep(Single(k, v, k1, v1), 1, k, v2, MAX_KICKS - 1);
  }

  lemma OutOfFirst(k: int, v: int, k2: int, v2: int)
    requires k != EMPTY
    ensures Erased(Single(k, v, k2, v2), 1, k) == Single(EMPTY, v, k2, v2)
    ensures Probed(Single(k, v, k2, v2), 1, k) && ValueOf(Single(k, v, k2, v2), 1, k) == v
  {
    hide Hash1, Hash2;
  }

  lemma SingleNow(t: Tables)
    requires Sized(t, 1)
    ensures t == Single(t.k1[0], t.v1[0], t.k2[0], t.v2[0])
  {
  }

  /** Insert a, then b: b has driven a into the second table. */
  method TwoKeys(a: int, b: int, v: int) returns (h: CuckooHash)
    requires a != b && a != EMPTY && b != EMPTY
    ensures fresh(h) && fresh(h.keys1) && fresh(h.vals1) && fresh(h.keys2) && fresh(h.vals2)
    ensures h.Sane() && h.capacity == 1 && h.Now() == Single(b, v, a, v) && h.size == 2
  {
    hide Represents, WellPlaced, Kicked, Conserves, Single, Hash1, Hash2;
    h := new CuckooHash(1);
    var ok; ghost var o;
    ghost var t := h.Now();
    NothingYet(t);
    SingleNow(t);
    IntoFree(a, v, t.v1[0], EMPTY, t.v2[0]);
    ok, o := h.Insert(a, v);
    IntoTaken(b, v, a, v, t.v2[0]);
    ok, o := h.Insert(b, v);
  }

  lemma NothingYet(t: Tables)
    requires Represents(t, 1, map[])
    ensures Sized(t, 1) && t.k1[0] == EMPTY == t.k2[0]
  {
  }

  /** With b out again, a finds its first slot free and is stored twice, and counted twice. */
  method TwiceRun(a: int, b: int, v: int, w: int) returns (h: CuckooHash)
    requires a != b && a != EMPTY && b != EMPTY
    ensures fresh(h) && fresh(h.keys1) && fresh(h.vals1) && fresh(h.keys2) && fresh(h.vals2)
    ensures h.Sane() && h.capacity == 1 && h.Now() == Single(a, w, a, v) && h.size == 2
  {
    hide Represents, WellPlaced, Kicked, Conserves, Single, Hash1, Hash2, Erased, Pairs, Pair, FindsRoom;
    h := TwoKeys(a, b, v);
    OutOfFirst(b, v, a, v);
    var ok := h.Delete(b);
    IntoFree(a, w, v, a, v);
    ghost var o;
    ok, o := h.Insert(a, w);
  }

  /** Then a's new value is found first, and once it is deleted, the old one. */
  method TwiceFound(a: int, b: int, v: int, w: int) returns (h: CuckooHash, first: int, left: int)
    requires a != b && a != EMPTY && b != EMPTY
    ensures fresh(h) && h.Sane() && h.size == 1 && first == w && left == v
  {
    hide Represents, WellPlaced, Single, Hash1, Hash2, Erased, Pairs, Pair, Probed, ValueOf;
    h := TwiceRun(a, b, v, w);
    OutOfFirst(a, w, a, v);
    var found;
    found, first := h.Get(a);
    found := h.Delete(a);
    InSecondOnly(a, w, v);
    found, left := h.Get(a);
  }

  lemma InSecondOnly(k: int, v1: int, v2: int)
    requires k != EMPTY
    ensures Probed(Single(EMPTY, v1, k, v2), 1, k) && ValueOf(Single(EMPTY, v1, k, v2), 1, k) == v2
  {
    hide Hash1, Hash2;
  }

  /** Right after b, a's new value is dropped without a word. */
  method DroppedRun(a: int, b: int, v: int, w: int) returns (h: CuckooHash, ok: bool, found: bool, val: int)
    requires a != b && a != EMPTY && b != EMPTY
    ensures fresh(h) && h.Sane() && h.Now() == Single(a, v, b, v) && ok && found && val == v
  {
    hide Represents, WellPlaced, Kicked, Conserves, Single, Hash1, Hash2, Probed, ValueOf, Pairs, Pair;
    h := TwoKeys(a, b, v);
    IntoBoth(a, w, b, v, v);
    ghost var o;
    ok, o := h.Insert(a, w);
    OutOfFirst(a, v, b, v);
    found, val := h.Get(a);
  }

  // ---- a chain of three rounds -------------------------------------------------------------

  /** Known values of the two mixing functions. */
  lemma MixedWords()
    ensures Mix1(0x1234_5678) == 2819813764 && Mix1(0xffff_fffe) == 1696767803
    ensures Mix2(0x1234_5678) == 2523052164 && Mix2(0xffff_fffe) == 3497358422
  {
  }

  lemma SlotsOfFour()
    ensures Hash1(0, 2) == 0 && Hash2(0, 2) == 0 && Hash1(1, 2) == 1 && Hash2(1, 2) == 0
    ensures Hash1(2, 2) == 0 && Hash2(2, 2) == 0 && Hash1(5, 2) == 1 && Hash2(5, 2) == 1
  {
  }

  /** Tables with two slots each. */
  ghost function Double(a: int, va: int, b: int, vb: int, c: int, vc: int, d: int, vd: int): (t: Tables)
    ensures Sized(t, 2)
  {
    Tables([a, b], [va, vb], [c, d], [vc, vd])
  }

  lemma DoubleNow(t: Tables)
    requires Sized(t, 2)
    ensures t == Double(t.k1[0], t.v1[0], t.k1[1], t.v1[1], t.k2[0], t.v2[0], t.k2[1], t.v2[1])
  {
  }

  lemma FirstOf(key: int, val: int, a: int, va: int, b: int, vb: int, c: int, vc: int, d: int, vd: int)
    ensures var t := Double(a, va, b, vb, c, vc, d, vd);
      KickFirst(t, 2, key, val)
      == if Hash1(key, 2) == 0 then Outcome(Double(key, val, b, vb, c, vc, d, vd), a == EMPTY || a == key, a, va)
      else Outcome(Double(a, va, key, val, c, vc, d, vd), b == EMPTY || b == key, b, vb)
  {
    hide Hash1;
    var t := Double(a, va, b, vb, c, vc, d, vd);
    assert t.k1[0 := key] == [key, b] && t.v1[0 := val] == [val, vb];
    assert t.k1[1 := key] == [a, key] && t.v1[1 := val] == [va, val];
  }

  lemma SecondOf(key: int, val: int, a: int, va: int, b: int, vb: int, c: int, vc: int, d: int, vd: int)
    ensures var t := Double(a, va, b, vb, c, vc, d, vd);
      KickSecond(t, 2, key, val)
      == if Hash2(key, 2) == 0 then Outcome(Double(a, va, b, vb, key, val, d, vd), c == EMPTY || c == key, c, vc)
      else Outcome(Double(a, va, b, vb, c, vc, key, val), d == EMPTY || d == key, d, vd)
  {
    hide Hash2;
    var t := Double(a, va, b, vb, c, vc, d, vd);
    assert t.k2[0 := key] == [key, d] && t.v2[0 := val] == [val, vd];
    assert t.k2[1 := key] == [c, key] && t.v2[1 := val] == [vc, val];
  }

  lemma InsertsZero(v: int, t: Tables)
    requires Sized(t, 2) && t.k1[0] == EMPTY
    ensures var o := Kicked(t, 2, 0, v, MAX_KICKS);
      o.done && o.t == Double(0, v, t.k1[1], t.v1[1], t.k2[0], t.v2[0], t.k2[1], t.v2[1])
  {
    hide Hash1, Hash2, Kicked, KickFirst, KickSecond, Double;
    SlotsOfFour();
    DoubleNow(t);
    KickedStep(t, 2, 0, v, MAX_KICKS);
    FirstOf(0, v, t.k1[0], t.v1[0], t.k1[1], t.v1[1], t.k2[0], t.v2[0], t.k2[1], t.v2[1]);
  }

  lemma InsertsOne(v: int, u: int, x: int, y: int, z: int)
    ensures var o := Kicked(Double(0, u, EMPTY, x, EMPTY, y, EMPTY, z), 2, 1, v, MAX_KICKS);
      o.done && o.t == Double(0, u, 1, v, EMPTY, y, EMPTY, z)
  {
    hide Hash1, Hash2, Kicked, KickFirst, KickSecond, Double;
    SlotsOfFour();
    KickedStep(Double(0, u, EMPTY, x, EMPTY, y, EMPTY, z), 2, 1, v, MAX_KICKS);
    FirstOf(1, v, 0, u, EMPTY, x, EMPTY, y, EMPTY, z);
  }

  lemma InsertsTwo(v: int, u: int, x: int, y: int, z: int)
    ensures var o := Kicked(Double(0, u, 1, x, EMPTY, y, EMPTY, z), 2, 2, v, MAX_KICKS);
      o.done && o.t == Double(2, v, 1, x, 0, u, EMPTY, z)
  {
    hide Hash1, Hash2, Kicked, KickFirst, KickSecond, Double;
    SlotsOfFour();
    KickedStep(Double(0, u, 1, x, EMPTY, y, EMPTY, z), 2, 2, v, MAX_KICKS);
    FirstOf(2, v, 0, u, 1, x, EMPTY, y, EMPTY, z);
    SecondOf(0, u, 2, v, 1, x, EMPTY, y, EMPTY, z);
  }

  /** 5 drives out 1, 1 drives out 0, 0 drives out 2, 2 drives out 1, 1 drives out 5. */
  lemma InsertsFive(v: int, u: int, x: int, y: int, z: int)
    ensures var o := Kicked(Double(2, u, 1, x, 0, y, EMPTY, z), 2, 5, v, MAX_KICKS);
      o.done && o.t == Double(0, y, 1, x, 2, u, 5, v)
  {
    hide Hash1, Hash2, Kicked, KickFirst, KickSecond, Double;
    SlotsOfFour();
    KickedStep(Double(2, u, 1, x, 0, y, EMPTY, z), 2, 5, v, MAX_KICKS);
    FirstOf(5, v, 2, u, 1, x, 0, y, EMPTY, z);
    SecondOf(1, x, 2, u, 5, v, 0, y, EMPTY, z);
    KickedStep(Double(2, u, 5, v, 1, x, EMPTY, z), 2, 0, y, MAX_KICKS - 1);
    FirstOf(0, y, 2, u, 5, v, 1, x, EMPTY, z);
    SecondOf(2, u, 0, y, 5, v, 1, x, EMPTY, z);
    KickedStep(Double(0, y, 5, v, 2, u, EMPTY, z), 2, 1, x, MAX_KICKS - 2);
    FirstOf(1, x, 0, y, 5, v, 2, u, EMPTY, z);
    SecondOf(5, v, 0, y, 1, x, 2, u, EMPTY, z);
  }

  /** With two slots in each table, the fourth insertion takes three rounds and stores all. */
  method ThreeRounds(a: int, b: int, c: int, d: int) returns (h: CuckooHash, ok: bool)
    ensures fresh(h) && h.Sane() && ok && h.size == 4 && h.Now() == Double(0, a, 1, b, 2, c, 5, d)
  {
    hide Represents, WellPlaced, Kicked, Conserves, Double, Hash1, Hash2, FindsRoom;
    h := new CuckooHash(2);
    ghost var o;
    ghost var t := h.Now();
    AllEmpty(t);
    InsertsZero(a, t);
    ok, o := h.Insert(0, a);
    InsertsOne(b, a, t.v1[1], t.v2[0], t.v2[1]);
    ok, o := h.Insert(1, b);
    InsertsTwo(c, a, b, t.v2[0], t.v2[1]);
    ok, o := h.Insert(2, c);
    InsertsFive(d, c, b, a, t.v2[1]);
    ok, o := h.Insert(5, d);
  }

  lemma AllEmpty(t: Tables)
    requires WellPlaced(t, 2) && forall i :: 0 <= i < 2 ==> t.k1[i] == -1 == t.k2[i]
    ensures Sized(t, 2) && t.k1[0] == t.k1[1] == t.k2[0] == t.k2[1] == EMPTY
  {
  }
}
