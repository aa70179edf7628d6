/** What an insertion does, told by the tables before it: the walk through the slots from the
    first seat of the key, and from its second one, decides how many kicks it takes and which
    pair comes out. */
module CuckooWalks {
  import opened CuckooHashing

  // ---- one kick at a time ------------------------------------------------------------------

  /** The slot of k in the first table on even steps, in the second on odd ones. */
  function Seat(cap: nat, i: nat, k: int): (s: nat)
    requires cap > 0
    ensures s < cap
  {
    if i % 2 == 0 then Hash1(k, cap) else Hash2(k, cap)
  }

  ghost function PairAt(t: Tables, cap: nat, i: nat, s: nat): (int, int)
    requires Sized(t, cap) && s < cap
  {
    if i % 2 == 0 then (t.k1[s], t.v1[s]) else (t.k2[s], t.v2[s])
  }

  ghost function PutAt(t: Tables, cap: nat, i: nat, s: nat, k: int, v: int): (w: Tables)
    requires Sized(t, cap) && s < cap
    ensures Sized(w, cap)
  {
    if i % 2 == 0 then Put1(t, s, k, v) else Put2(t, s, k, v)
  }

  lemma PutPair(t: Tables, cap: nat, i: nat, s: nat, k: int, v: int, j: nat, q: nat)
    requires Sized(t, cap) && s < cap && q < cap
    ensures PairAt(PutAt(t, cap, i, s, k, v), cap, j, q)
      == if i % 2 == j % 2 && s == q then (k, v) else PairAt(t, cap, j, q)
  {
  }

  lemma SamePair(t: Tables, cap: nat, i: nat, j: nat, s: nat)
    requires Sized(t, cap) && s < cap && i % 2 == j % 2
    ensures PairAt(t, cap, i, s) == PairAt(t, cap, j, s)
  {
  }

  lemma SameSeat(cap: nat, i: nat, j: nat, k: int)
    requires cap > 0 && i % 2 == j % 2
    ensures Seat(cap, i, k) == Seat(cap, j, k)
  {
  }

  ghost function Kick(t: Tables, cap: nat, i: nat, k: int, v: int): (o: Outcome)
    requires Sized(t, cap)
    ensures Sized(o.t, cap)
  {
    var p := PairAt(t, cap, i, Seat(cap, i, k));
    Outcome(PutAt(t, cap, i, Seat(cap, i, k), k, v), p.0 == EMPTY || p.0 == k, p.0, p.1)
  }

  /** At most n kicks, the first of them with number i. */
  ghost function Kicks(t: Tables, cap: nat, i: nat, k: int, v: int, n: nat): (o: Outcome)
    requires Sized(t, cap)
    ensures Sized(o.t, cap)
    decreases n
  {
    if n == 0 then Outcome(t, false, k, v)
    else
      var a := Kick(t, cap, i, k, v);
      if a.done then a else Kicks(a.t, cap, i + 1, a.key, a.val, n - 1)
  }

  lemma KicksStep(t: Tables, cap: nat, i: nat, k: int, v: int, n: nat)
    requires Sized(t, cap) && n > 0
    ensures Kicks(t, cap, i, k, v, n) ==
      var a := Kick(t, cap, i, k, v);
      if a.done then a else Kicks(a.t, cap, i + 1, a.key, a.val, n - 1)
  {
  }

  lemma NoKick(t: Tables, cap: nat, i: nat, k: int, v: int)
    requires Sized(t, cap)
    ensures Kicks(t, cap, i, k, v, 0) == Outcome(t, false, k, v)
  {
  }

  lemma KickIs(t: Tables, cap: nat, i: nat, k: int, v: int)
    requires Sized(t, cap)
    ensures i % 2 == 0 ==> Kick(t, cap, i, k, v) == KickFirst(t, cap, k, v)
    ensures i % 2 == 1 ==> Kick(t, cap, i, k, v) == KickSecond(t, cap, k, v)
  {
    hide Hash1, Hash2;
  }

  /** A round is two kicks. */
  lemma {:induction false} RoundsAreKicks(t: Tables, cap: nat, i: nat, k: int, v: int, rounds: nat)
    requires Sized(t, cap) && i % 2 == 0
    ensures Kicked(t, cap, k, v, rounds) == Kicks(t, cap, i, k, v, 2 * rounds)
    decreases rounds
  {
    hide KickFirst, KickSecond, Kick, Kicks;
    if rounds == 0 {
      NoKick(t, cap, i, k, v);
    } else {
      KickedStep(t, cap, k, v, rounds);
      KicksStep(t, cap, i, k, v, 2 * rounds);
      KickIs(t, cap, i, k, v);
      var a := Kick(t, cap, i, k, v);
      if !a.done {
        KicksStep(a.t, cap, i + 1, a.key, a.val, 2 * rounds - 1);
        KickIs(a.t, cap, i + 1, a.key, a.val);
        var b := Kick(a.t, cap, i + 1, a.key, a.val);
        if !b.done { RoundsAreKicks(b.t, cap, i + 2, b.key, b.val, rounds - 1); }
      }
    }
  }

  // ---- the walk ----------------------------------------------------------------------------

  /** A walk through the tables t that key starts at its first seat if start is 0, at its second
      one if start is 1. */
  datatype Walk = Walk(t: Tables, cap: nat, start: nat, key: int)

  /** The i-th key of the walk: key itself, then whoever sits in the slot it leads to. */
  ghost function Met(w: Walk, i: nat): int
    requires Sized(w.t, w.cap)
    decreases i, 0
  {
    if i == 0 then w.key else PairAt(w.t, w.cap, w.start + i - 1, Slot(w, i - 1)).0
  }

  ghost function Slot(w: Walk, i: nat): (s: nat)
    requires Sized(w.t, w.cap)
    ensures s < w.cap
    decreases i, 1
  {
    Seat(w.cap, w.start + i, Met(w, i))
  }

  /** The pair in hand after i kicks, as long as the walk comes to no slot twice. */
  ghost function Hand(w: Walk, val: int, i: nat): (p: (int, int))
    requires Sized(w.t, w.cap)
    ensures p.0 == Met(w, i)
  {
    if i == 0 then (w.key, val) else PairAt(w.t, w.cap, w.start + i - 1, Slot(w, i - 1))
  }

  lemma HandIs(w: Walk, val: int, i: nat)
    requires Sized(w.t, w.cap)
    ensures Hand(w, val, 0) == (w.key, val) && Met(w, 0) == w.key
    ensures Hand(w, val, i + 1) == PairAt(w.t, w.cap, w.start + i, Slot(w, i))
    ensures Met(w, i + 1) == PairAt(w.t, w.cap, w.start + i, Slot(w, i)).0
    ensures Slot(w, i) == Seat(w.cap, w.start + i, Met(w, i))
  {
  }

  /** The walk meets m different keys before anything else. */
  ghost predicate Fresh(w: Walk, m: nat)
    requires Sized(w.t, w.cap)
  {
    && (forall i, j :: 0 <= i < j < m ==> Met(w, i) != Met(w, j))
    && (forall i :: 0 <= i < m ==> Met(w, i) != EMPTY)
  }

  lemma FreshAt(w: Walk, m: nat, i: nat, j: nat)
    requires Sized(w.t, w.cap) && Fresh(w, m) && i < j < m
    ensures Met(w, i) != Met(w, j) && Met(w, i) != EMPTY && Met(w, j) != EMPTY
  {
    hide Met;
  }

  lemma FreshTo(w: Walk, m: nat, j: nat)
    requires Sized(w.t, w.cap) && Fresh(w, m) && j <= m
    ensures Fresh(w, j)
  {
  }

  /** The m-th step leads to an empty slot, or to a key met before. */
  ghost predicate Stops(w: Walk, m: nat)
    requires Sized(w.t, w.cap)
  {
    Met(w, m) == EMPTY || exists j :: 0 <= j < m && Met(w, j) == Met(w, m)
  }

  /** A walk stops once. */
  lemma OneStop(w: Walk, m: nat, n: nat)
    requires Sized(w.t, w.cap) && Stops(w, m) && Fresh(w, n)
    ensures n <= m
  {
    hide Met;
  }

  lemma OneMore(w: Walk, m: nat)
    requires Sized(w.t, w.cap) && Fresh(w, m) && !Stops(w, m)
    ensures Fresh(w, m + 1)
  {
    hide Met;
  }

  /** Where the walk ends within n steps, or that it does not. */
  lemma {:induction false} FirstStop(w: Walk, n: nat) returns (m: nat)
    requires Sized(w.t, w.cap) && w.key != EMPTY
    ensures 1 <= m <= n + 1 && Fresh(w, m) && (m <= n ==> Stops(w, m))
  {
    hide Met;
    HandIs(w, 0, 0);
    if n == 0 {
      m := 1;
    } else {
      m := FirstStop(w, n - 1);
      if m == n && !Stops(w, m) {
        m := n + 1;
        OneMore(w, n);
      }
    }
  }

  /** The walk comes to an empty slot after m steps. */
  ghost predicate EmptyAfter(w: Walk, m: nat)
    requires Sized(w.t, w.cap)
  {
    1 <= m && Fresh(w, m) && Met(w, m) == -1
  }

  /** It comes to the key met as number j; that is key itself if j is 0, and otherwise the slot
      is one that the walk has been to. */
  ghost predicate SeenAfter(w: Walk, m: nat, j: nat)
    requires Sized(w.t, w.cap)
  {
    j < m && Fresh(w, m) && Met(w, m) == Met(w, j)
  }

  lemma SeenOnce(w: Walk, m: nat, j: nat, n: nat, i: nat)
    requires Sized(w.t, w.cap) && SeenAfter(w, m, j) && SeenAfter(w, n, i)
    ensures m == n && j == i
  {
    hide Met, Fresh;
    OneStop(w, m, n);
    OneStop(w, n, m);
    if j < i { FreshAt(w, m, j, i); }
    if i < j { FreshAt(w, m, i, j); }
  }

  lemma SeenNotEmpty(w: Walk, m: nat, j: nat, n: nat)
    requires Sized(w.t, w.cap) && SeenAfter(w, m, j)
    ensures !EmptyAfter(w, n)
  {
    hide Met;
    if EmptyAfter(w, n) {
      OneStop(w, m, n);
      OneStop(w, n, m);
    }
  }

  lemma SlotsApart(w: Walk, i: nat, j: nat)
    requires Sized(w.t, w.cap) && (w.start + i) % 2 == (w.start + j) % 2 && Met(w, i + 1) != Met(w, j + 1)
    ensures Slot(w, i) != Slot(w, j)
  {
    hide Slot, Met, Hand, PairAt;
    HandIs(w, 0, i);
    HandIs(w, 0, j);
    SamePair(w.t, w.cap, w.start + i, w.start + j, Slot(w, i));
  }

  /** What is stored sits in one place only, and belongs there. */
  lemma OnePlace(t: Tables, cap: nat, c: map<int, int>, i: nat, s: nat, j: nat, q: nat)
    requires Represents(t, cap, c) && s < cap && q < cap && PairAt(t, cap, i, s).0 != EMPTY
    ensures s == Seat(cap, i, PairAt(t, cap, i, s).0)
    ensures PairAt(t, cap, i, s).0 in c && PairAt(t, cap, i, s).1 == c[PairAt(t, cap, i, s).0]
    ensures PairAt(t, cap, i, s).0 == PairAt(t, cap, j, q).0 ==> i % 2 == j % 2 && s == q
  {
    hide Hash1, Hash2;
    assert Placed(t, cap, PairAt(t, cap, i, s).0);
  }

  /** A key met again has been met in the same slot. */
  lemma SeenSlot(w: Walk, c: map<int, int>, m: nat, j: nat)
    requires Sized(w.t, w.cap) && Represents(w.t, w.cap, c) && 1 <= j < m
    requires Met(w, m) == Met(w, j) && Met(w, j) != EMPTY
    ensures m % 2 == j % 2 && Slot(w, m - 1) == Slot(w, j - 1)
  {
    hide Hash1, Hash2, Seat, Represents;
    OnePlace(w.t, w.cap, c, w.start + j - 1, Slot(w, j - 1), w.start + m - 1, Slot(w, m - 1));
  }

  // ---- kicks along the walk ----------------------------------------------------------------

  /** The walk has not been to slot q of table j in its first n steps. */
  ghost predicate Untouched(w: Walk, n: nat, j: nat, q: nat)
    requires Sized(w.t, w.cap)
  {
    forall i: nat :: i < n && (w.start + i) % 2 == j % 2 ==> Slot(w, i) != q
  }

  /** The first r slots of the walk hold what has been put there, and outside the first m ones
      nothing has changed. */
  ghost predicate Moved(w: Walk, val: int, now: Tables, r: nat, m: nat) {
    && Sized(w.t, w.cap) && Sized(now, w.cap) && r <= m
    && (forall i: nat :: i < r ==> PairAt(now, w.cap, w.start + i, Slot(w, i)) == Hand(w, val, i))
    && (forall j: nat, q: nat :: j < 2 && q < w.cap && Untouched(w, m, j, q) ==>
      PairAt(now, w.cap, j, q) == PairAt(w.t, w.cap, j, q))
  }

  lemma MovedSized(w: Walk, val: int, now: Tables, r: nat, m: nat)
    requires Moved(w, val, now, r, m)
    ensures Sized(w.t, w.cap) && Sized(now, w.cap) && r <= m
  {
  }

  lemma MovedHolds(w: Walk, val: int, now: Tables, r: nat, m: nat, i: nat)
    requires Moved(w, val, now, r, m) && i < r
    ensures PairAt(now, w.cap, w.start + i, Slot(w, i)) == Hand(w, val, i)
  {
  }

  lemma MovedLeft(w: Walk, val: int, now: Tables, r: nat, m: nat, j: nat, q: nat)
    requires Moved(w, val, now, r, m) && q < w.cap && Untouched(w, m, j, q)
    ensures PairAt(now, w.cap, j, q) == PairAt(w.t, w.cap, j, q)
  {
    hide Slot, Hand, PairAt;
    assert Untouched(w, m, j % 2, q);
    SamePair(now, w.cap, j, j % 2, q);
    SamePair(w.t, w.cap, j, j % 2, q);
  }

  lemma UntouchedLess(w: Walk, n: nat, m: nat, j: nat, q: nat)
    requires Sized(w.t, w.cap) && Untouched(w, m, j, q) && n <= m
    ensures Untouched(w, n, j, q)
    ensures n < m && (w.start + n) % 2 == j % 2 ==> Slot(w, n) != q
  {
    hide Slot;
  }

  lemma UntouchedAt(w: Walk, n: nat, j: nat, q: nat, i: nat)
    requires Sized(w.t, w.cap) && Untouched(w, n, j, q) && i < n && (w.start + i) % 2 == j % 2
    ensures Slot(w, i) != q
  {
    hide Slot;
  }

  lemma NothingMoved(w: Walk, val: int)
    requires Sized(w.t, w.cap)
    ensures Moved(w, val, w.t, 0, 0) && Hand(w, val, 0) == (w.key, val)
  {
  }

  /** A slot of the walk that leads to a key not met so far has not been visited. */
  lemma NewSlot(w: Walk, n: nat)
    requires Sized(w.t, w.cap) && forall i: nat :: 0 < i <= n ==> Met(w, i) != Met(w, n + 1)
    ensures Untouched(w, n, w.start + n, Slot(w, n))
  {
    hide Met, Slot;
    forall i: nat | i < n && (w.start + i) % 2 == (w.start + n) % 2
      ensures Slot(w, i) != Slot(w, n)
    {
      SlotsApart(w, i, n);
    }
  }

  lemma NewSlotFresh(w: Walk, m: nat, n: nat)
    requires Sized(w.t, w.cap) && Fresh(w, m) && n < m
    requires n + 1 == m ==> Met(w, m) == EMPTY || Met(w, m) == Met(w, 0)
    ensures Untouched(w, n, w.start + n, Slot(w, n))
  {
    hide Met, Slot, Untouched;
    forall i: nat | 0 < i <= n
      ensures Met(w, i) != Met(w, n + 1)
    {
      if n + 1 < m { FreshAt(w, m, i, n + 1); } else { FreshAt(w, m, 0, i); }
    }
    NewSlot(w, n);
  }

  /** A kick at a slot that the walk has not been to. */
  lemma KickAhead(w: Walk, val: int, now: Tables, n: nat)
    requires Moved(w, val, now, n, n) && Untouched(w, n, w.start + n, Slot(w, n))
    ensures var h := Hand(w, val, n);
      var o, x := Kick(now, w.cap, w.start + n, h.0, h.1), Met(w, n + 1);
      && (o.done <==> x == EMPTY || x == h.0) && (o.key, o.val) == Hand(w, val, n + 1)
      && Moved(w, val, o.t, n + 1, n + 1)
  {
    hide Hash1, Hash2, Seat, PairAt, PutAt, Moved, Met, Slot, Hand;
    MovedSized(w, val, now, n, n);
    var h, s := Hand(w, val, n), Slot(w, n);
    HandIs(w, val, n);
    MovedLeft(w, val, now, n, n, w.start + n, s);
    PlacedAhead(w, val, now, n);
  }

  lemma PlacedAhead(w: Walk, val: int, now: Tables, n: nat)
    requires Moved(w, val, now, n, n) && Untouched(w, n, w.start + n, Slot(w, n))
    ensures var h := Hand(w, val, n);
      Moved(w, val, PutAt(now, w.cap, w.start + n, Slot(w, n), h.0, h.1), n + 1, n + 1)
  {
    hide Hash1, Hash2, Seat, PairAt, PutAt, Met, Slot, Hand, Untouched;
    var h, s := Hand(w, val, n), Slot(w, n);
    var u := PutAt(now, w.cap, w.start + n, s, h.0, h.1);
    forall i: nat | i < n + 1
      ensures PairAt(u, w.cap, w.start + i, Slot(w, i)) == Hand(w, val, i)
    {
      PutPair(now, w.cap, w.start + n, s, h.0, h.1, w.start + i, Slot(w, i));
      if i < n && (w.start + i) % 2 == (w.start + n) % 2 { UntouchedAt(w, n, w.start + n, s, i); }
    }
    forall j: nat, q: nat | j < 2 && q < w.cap && Untouched(w, n + 1, j, q)
      ensures PairAt(u, w.cap, j, q) == PairAt(w.t, w.cap, j, q)
    {
      PutPair(now, w.cap, w.start + n, s, h.0, h.1, j, q);
      UntouchedLess(w, n, n + 1, j, q);
    }
  }

  /** Something else is put into slot r of the walk. */
  lemma PutBack(w: Walk, val: int, now: Tables, r: nat, m: nat, r': nat, m': nat, n: nat, k: int, v: int)
    requires Moved(w, val, now, r, m) && r' <= r && r' < m' && m <= m' && n % 2 == (w.start + r') % 2
    requires forall i: nat :: 0 < i <= r' ==> Met(w, i) != Met(w, r' + 1)
    ensures Moved(w, val, PutAt(now, w.cap, n, Slot(w, r'), k, v), r', m')
  {
    hide Hash1, Hash2, Seat, PairAt, PutAt, Met, Slot, Hand, Untouched;
    var s := Slot(w, r');
    var u := PutAt(now, w.cap, n, s, k, v);
    forall i: nat | i < r'
      ensures PairAt(u, w.cap, w.start + i, Slot(w, i)) == Hand(w, val, i)
    {
      PutPair(now, w.cap, n, s, k, v, w.start + i, Slot(w, i));
      if (w.start + i) % 2 == n % 2 { SlotsApart(w, i, r'); }
    }
    forall j: nat, q: nat | j < 2 && q < w.cap && Untouched(w, m', j, q)
      ensures PairAt(u, w.cap, j, q) == PairAt(w.t, w.cap, j, q)
    {
      PutPair(now, w.cap, n, s, k, v, j, q);
      UntouchedLess(w, m, m', j, q);
      UntouchedLess(w, r', m', j, q);
    }
  }

  /** The key in hand goes back to the slot it came from and drives out the key before. */
  lemma KickBack(w: Walk, c: map<int, int>, val: int, now: Tables, r: nat, m: nat, n: nat)
    requires Moved(w, val, now, r, m) && Represents(w.t, w.cap, c)
    requires r > 0 && Fresh(w, r + 1) && n % 2 == (w.start + r - 1) % 2
    ensures var h := Hand(w, val, r);
      var o := Kick(now, w.cap, n, h.0, h.1);
      !o.done && (o.key, o.val) == Hand(w, val, r - 1) && Moved(w, val, o.t, r - 1, m)
  {
    hide Hash1, Hash2, Seat, PairAt, PutAt, Represents, Met, Slot, Hand, Fresh, Moved;
    MovedSized(w, val, now, r, m);
    var h, s := Hand(w, val, r), Slot(w, r - 1);
    HandIs(w, val, r - 1);
    FreshAt(w, r + 1, r - 1, r);
    OnePlace(w.t, w.cap, c, w.start + r - 1, s, w.start + r - 1, s);
    SameSeat(w.cap, n, w.start + r - 1, h.0);
    SamePair(now, w.cap, n, w.start + r - 1, s);
    MovedHolds(w, val, now, r, m, r - 1);
    forall i: nat | 0 < i < r
      ensures Met(w, i) != Met(w, r)
    {
      FreshAt(w, r + 1, i, r);
    }
    PutBack(w, val, now, r, m, r - 1, m, n, h.0, h.1);
  }

  /** At a slot it has been to, the walk turns round. */
  lemma KickSeen(w: Walk, c: map<int, int>, val: int, now: Tables, m: nat, j: nat)
    requires Sized(w.t, w.cap) && Represents(w.t, w.cap, c) && 1 <= j && SeenAfter(w, m, j)
    requires Moved(w, val, now, m - 1, m - 1)
    ensures var h := Hand(w, val, m - 1);
      var o := Kick(now, w.cap, w.start + m - 1, h.0, h.1);
      !o.done && (o.key, o.val) == Hand(w, val, j - 1) && Moved(w, val, o.t, j - 1, m - 1)
    ensures m % 2 == j % 2
  {
    hide Hash1, Hash2, Seat, PairAt, PutAt, Represents, Untouched, Met, Slot, Hand, Fresh, Moved;
    MovedSized(w, val, now, m - 1, m - 1);
    var h, s := Hand(w, val, m - 1), Slot(w, j - 1);
    FreshAt(w, m, j - 1, j);
    if j < m - 1 { FreshAt(w, m, j - 1, m - 1); }
    SeenSlot(w, c, m, j);
    HandIs(w, val, m - 1);
    SamePair(now, w.cap, w.start + m - 1, w.start + j - 1, s);
    MovedHolds(w, val, now, m - 1, m - 1, j - 1);
    forall i: nat | 0 < i < j
      ensures Met(w, i) != Met(w, j)
    {
      FreshAt(w, m, i, j);
    }
    PutBack(w, val, now, m - 1, m - 1, j - 1, m - 1, w.start + m - 1, h.0, h.1);
  }

  /** As long as the walk meets new keys, so does the insertion. */
  lemma {:induction false} Forward(w: Walk, val: int, now: Tables, n: nat, e: nat, k: nat) returns (u: Tables)
    requires Moved(w, val, now, n, n) && n <= e && Fresh(w, e + 1)
    ensures Moved(w, val, u, e, e)
    ensures var h, g := Hand(w, val, n), Hand(w, val, e);
      var o := Kicks(now, w.cap, w.start + n, h.0, h.1, k);
      if k < e - n then !o.done else o == Kicks(u, w.cap, w.start + e, g.0, g.1, k - (e - n))
    decreases e - n
  {
    hide Kick, Kicks, Moved, Met, Slot, Hand, Untouched, Fresh;
    MovedSized(w, val, now, n, n);
    if n == e {
      u := now;
    } else {
      var h := Hand(w, val, n);
      NewSlotFresh(w, e + 1, n);
      FreshAt(w, e + 1, n, n + 1);
      KickAhead(w, val, now, n);
      var o := Kick(now, w.cap, w.start + n, h.0, h.1);
      if k == 0 {
        NoKick(now, w.cap, w.start + n, h.0, h.1);
        u := Forward(w, val, o.t, n + 1, e, 0);
      } else {
        KicksStep(now, w.cap, w.start + n, h.0, h.1, k);
        u := Forward(w, val, o.t, n + 1, e, k - 1);
      }
    }
  }

  lemma Parity(n: nat, a: nat)
    requires n % 2 == (a + 1) % 2
    ensures (n + 1) % 2 == a % 2
    ensures a > 0 ==> n % 2 == (a - 1) % 2
  {
  }

  /** On the way back every kick undoes one, down to key itself. */
  lemma {:induction false} Backward(w: Walk, c: map<int, int>, val: int, now: Tables, r: nat, m: nat, n: nat, k: nat)
    returns (u: Tables)
    requires Moved(w, val, now, r, m) && Represents(w.t, w.cap, c) && Fresh(w, r + 1)
    requires n % 2 == (w.start + r + 1) % 2
    ensures Moved(w, val, u, 0, m)
    ensures var h := Hand(w, val, r);
      var o := Kicks(now, w.cap, n, h.0, h.1, k);
      if k < r then !o.done else o == Kicks(u, w.cap, n + r, w.key, val, k - r)
    decreases r
  {
    hide Kick, Kicks, Moved, Met, Slot, Hand, Fresh, Represents, Sized;
    MovedSized(w, val, now, r, m);
    HandIs(w, val, 0);
    if r == 0 {
      u := now;
    } else {
      var h := Hand(w, val, r);
      Parity(n, w.start + r);
      KickBack(w, c, val, now, r, m, n);
      FreshTo(w, r + 1, r);
      var o := Kick(now, w.cap, n, h.0, h.1);
      if k == 0 {
        NoKick(now, w.cap, n, h.0, h.1);
        u := Backward(w, c, val, o.t, r - 1, m, n + 1, 0);
      } else {
        KicksStep(now, w.cap, n, h.0, h.1, k);
        u := Backward(w, c, val, o.t, r - 1, m, n + 1, k - 1);
      }
    }
  }

  /** From the slot seen before, it takes j kicks to bring key back. */
  lemma TurnsBack(w: Walk, c: map<int, int>, val: int, a: Tables, m: nat, j: nat, k: nat) returns (u: Tables)
    requires Sized(w.t, w.cap) && Represents(w.t, w.cap, c) && 1 <= j && SeenAfter(w, m, j)
    requires Moved(w, val, a, m - 1, m - 1)
    ensures Moved(w, val, u, 0, m - 1) && (m + j) % 2 == 0
    ensures var g := Hand(w, val, m - 1);
      var o := Kicks(a, w.cap, w.start + m - 1, g.0, g.1, k);
      if k < j then !o.done else o == Kicks(u, w.cap, w.start + m + j - 1, w.key, val, k - j)
  {
    hide Kick, Kicks, Moved, Met, Slot, Hand, Fresh, Represents;
    MovedSized(w, val, a, m - 1, m - 1);
    var g, n := Hand(w, val, m - 1), w.start + m - 1;
    KickSeen(w, c, val, a, m, j);
    FreshTo(w, m, j);
    EvenSum(w.start, m, j);
    var o := Kick(a, w.cap, n, g.0, g.1);
    if k == 0 {
      NoKick(a, w.cap, n, g.0, g.1);
      u := Backward(w, c, val, o.t, j - 1, m - 1, n + 1, 0);
    } else {
      KicksStep(a, w.cap, n, g.0, g.1, k);
      u := Backward(w, c, val, o.t, j - 1, m - 1, n + 1, k - 1);
    }
  }

  lemma EvenSum(s: nat, m: nat, j: nat)
    requires m % 2 == j % 2
    ensures (m + j) % 2 == 0 && (s + m) % 2 == (s + j) % 2
  {
  }

  /** A walk that turns round takes m + j - 1 kicks to bring key back, and changes its own
      slots only. */
  lemma TurnsRound(w: Walk, c: map<int, int>, val: int, m: nat, j: nat, k: nat) returns (u: Tables)
    requires Sized(w.t, w.cap) && Represents(w.t, w.cap, c) && 1 <= j && SeenAfter(w, m, j)
    ensures Moved(w, val, u, 0, m - 1) && (m + j) % 2 == 0
    ensures var o := Kicks(w.t, w.cap, w.start, w.key, val, k);
      if k < m + j - 1 then !o.done else o == Kicks(u, w.cap, w.start + m + j - 1, w.key, val, k - (m + j - 1))
  {
    hide Kicks, Moved, Met, Slot, Hand, Fresh, Represents;
    NothingMoved(w, val);
    var a := Forward(w, val, w.t, 0, m - 1, k);
    u := TurnsBack(w, c, val, a, m, j, if k < m - 1 then 0 else k - (m - 1));
  }

  /** A walk that comes to an empty slot after m steps takes m kicks. */
  lemma FindsEmpty(w: Walk, val: int, m: nat, k: nat)
    requires Sized(w.t, w.cap) && EmptyAfter(w, m)
    ensures var o := Kicks(w.t, w.cap, w.start, w.key, val, k); (o.done <==> k >= m) && (o.done ==> o.key == EMPTY)
  {
    hide Kick, Kicks, Moved, Met, Slot, Hand, Fresh, Untouched;
    NothingMoved(w, val);
    var a := Forward(w, val, w.t, 0, m - 1, k);
    MovedSized(w, val, a, m - 1, m - 1);
    var g := Hand(w, val, m - 1);
    NewSlotFresh(w, m, m - 1);
    KickAhead(w, val, a, m - 1);
    if k == m - 1 { NoKick(a, w.cap, w.start + m - 1, g.0, g.1); }
    if k >= m { KicksStep(a, w.cap, w.start + m - 1, g.0, g.1, k - (m - 1)); }
  }

  /** As long as the walk goes on, the insertion does. */
  lemma GoesOn(w: Walk, val: int, k: nat)
    requires Sized(w.t, w.cap) && Fresh(w, k + 1)
    ensures var o := Kicks(w.t, w.cap, w.start, w.key, val, k); !o.done && (o.key, o.val) == Hand(w, val, k)
  {
    hide Kick, Kicks, Moved, Met, Slot, Hand, Fresh;
    NothingMoved(w, val);
    var u := Forward(w, val, w.t, 0, k, k);
    MovedSized(w, val, u, k, k);
    var g := Hand(w, val, k);
    NoKick(u, w.cap, w.start + k, g.0, g.1);
  }

  // ---- a key that is stored ----------------------------------------------------------------

  /** A stored key outside its first slot. */
  ghost predicate InSecond(t: Tables, cap: nat, c: map<int, int>, key: int) {
    Sized(t, cap) && Represents(t, cap, c) && key in c && t.k1[Hash1(key, cap)] != key
  }

  lemma SecondSeat(t: Tables, cap: nat, c: map<int, int>, key: int)
    requires InSecond(t, cap, c, key)
    ensures PairAt(t, cap, 1, Seat(cap, 1, key)) == (key, c[key]) && key != EMPTY
    ensures Met(Walk(t, cap, 0, key), 1) != key
  {
    hide Hash1, Hash2;
    assert Placed(t, cap, key);
  }

  /** The walk does not come to the second seat of key as long as it is fresh. */
  lemma SecondLeft(w: Walk, c: map<int, int>, n: nat)
    requires InSecond(w.t, w.cap, c, w.key) && w.start == 0 && Fresh(w, n + 1)
    ensures Untouched(w, n, 1, Seat(w.cap, 1, w.key))
  {
    hide Seat, Represents, Met, Slot;
    SecondSeat(w.t, w.cap, c, w.key);
    HandIs(w, 0, 0);
    forall i: nat | i < n && (w.start + i) % 2 == 1
      ensures Slot(w, i) != Seat(w.cap, 1, w.key)
    {
      FreshAt(w, n + 1, 0, i + 1);
      HandIs(w, 0, i);
      SamePair(w.t, w.cap, w.start + i, 1, Slot(w, i));
    }
  }

  /** At the second seat of key the old pair is driven out. */
  lemma KickHome(w: Walk, c: map<int, int>, val: int, now: Tables, m: nat, n: nat)
    requires InSecond(w.t, w.cap, c, w.key) && w.start == 0 && Fresh(w, m + 1) && n % 2 == 1
    requires Moved(w, val, now, 0, m)
    ensures var o := Kick(now, w.cap, n, w.key, val); o.done && (o.key, o.val) == (w.key, c[w.key])
  {
    hide Seat, PutAt, Met, Slot, Fresh, Moved, Untouched, PairAt, Represents;
    MovedSized(w, val, now, 0, m);
    SecondSeat(w.t, w.cap, c, w.key);
    SecondLeft(w, c, m);
    MovedLeft(w, val, now, 0, m, 1, Seat(w.cap, 1, w.key));
    SameSeat(w.cap, n, 1, w.key);
    SamePair(now, w.cap, n, 1, Seat(w.cap, 1, w.key));
  }

  /** The walk turns round. */
  lemma StoredTurns(w: Walk, c: map<int, int>, val: int, m: nat, j: nat, k: nat)
    requires InSecond(w.t, w.cap, c, w.key) && w.start == 0 && 1 <= j && SeenAfter(w, m, j)
    ensures var o := Kicks(w.t, w.cap, 0, w.key, val, k);
      (o.done <==> k >= m + j) && (o.done ==> (o.key, o.val) == (w.key, c[w.key]))
  {
    hide Kick, Kicks, Moved, Met, Slot, Hand, Fresh, Represents;
    var u := TurnsRound(w, c, val, m, j, k);
    MovedSized(w, val, u, 0, m - 1);
    KickHome(w, c, val, u, m - 1, m + j - 1);
    if k == m + j - 1 { NoKick(u, w.cap, m + j - 1, w.key, val); }
    if k >= m + j { KicksStep(u, w.cap, m + j - 1, w.key, val, k - (m + j - 1)); }
  }

  lemma OwnSeat(w: Walk, c: map<int, int>, val: int, m: nat)
    requires InSecond(w.t, w.cap, c, w.key) && w.start == 0 && m > 0 && Met(w, m) == w.key
    ensures m > 1 && m % 2 == 0 && Hand(w, val, m) == (w.key, c[w.key])
  {
    hide Hash1, Hash2, Seat, PairAt, Represents, Slot, Met, Hand;
    SecondSeat(w.t, w.cap, c, w.key);
    HandIs(w, val, m - 1);
    OnePlace(w.t, w.cap, c, m - 1, Slot(w, m - 1), 1, Seat(w.cap, 1, w.key));
  }

  /** The walk comes to the second seat of key: the old pair, out of its seat, goes to the first
      one and drives out the new one. */
  lemma StoredMet(w: Walk, c: map<int, int>, val: int, m: nat, k: nat)
    requires InSecond(w.t, w.cap, c, w.key) && w.start == 0 && SeenAfter(w, m, 0)
    ensures var o := Kicks(w.t, w.cap, 0, w.key, val, k);
      (o.done <==> k > m) && (o.done ==> (o.key, o.val) == (w.key, val))
  {
    hide Kick, Kicks, Moved, Met, Slot, Hand, Fresh, Represents, Untouched;
    HandIs(w, val, 0);
    OwnSeat(w, c, val, m);
    NothingMoved(w, val);
    var a := Forward(w, val, w.t, 0, m - 1, k);
    MovedSized(w, val, a, m - 1, m - 1);
    var g := Hand(w, val, m - 1);
    NewSlotFresh(w, m, m - 1);
    KickAhead(w, val, a, m - 1);
    FreshAt(w, m, 0, m - 1);
    var b := Kick(a, w.cap, m - 1, g.0, g.1);
    KickOwn(w, val, c[w.key], b.t, m);
    if k == m - 1 { NoKick(a, w.cap, m - 1, g.0, g.1); }
    if k >= m { KicksStep(a, w.cap, m - 1, g.0, g.1, k - (m - 1)); }
    if k == m { NoKick(b.t, w.cap, m, b.key, b.val); }
    if k > m { KicksStep(b.t, w.cap, m, b.key, b.val, k - m); }
  }

  lemma KickOwn(w: Walk, val: int, was: int, now: Tables, m: nat)
    requires Moved(w, val, now, m, m) && m > 0 && m % 2 == 0 && w.start == 0
    ensures var o := Kick(now, w.cap, m, w.key, was); o.done && (o.key, o.val) == (w.key, val)
  {
    hide PutAt, Untouched, Moved, PairAt, Seat;
    MovedSized(w, val, now, m, m);
    MovedHolds(w, val, now, m, m, 0);
    HandIs(w, val, 0);
    SameSeat(w.cap, m, 0, w.key);
    SamePair(now, w.cap, m, 0, Seat(w.cap, 0, w.key));
  }

  /** The 256 kicks of 128 rounds reach the empty slot. */
  ghost predicate StaysTwice(t: Tables, cap: nat, key: int)
    requires Sized(t, cap)
  {
    exists m: nat :: m <= 256 && EmptyAfter(Walk(t, cap, 0, key), m)
  }

  /** They reach the second seat of key and go on from there. */
  ghost predicate KeepsOld(t: Tables, cap: nat, key: int)
    requires Sized(t, cap)
  {
    exists m: nat :: 1 < m < 256 && SeenAfter(Walk(t, cap, 0, key), m, 0)
  }

  /** key sits in its first seat, or the kicks reach a slot seen before and lead back from it. */
  ghost predicate TakesNew(t: Tables, cap: nat, key: int)
    requires Sized(t, cap)
  {
    || t.k1[Hash1(key, cap)] == key
    || exists m: nat, j: nat :: 0 < j && m + j <= 256 && SeenAfter(Walk(t, cap, 0, key), m, j)
  }

  /** The pair that comes out of an insertion of a key in its second seat. */
  lemma WhatComesOut(t: Tables, cap: nat, c: map<int, int>, key: int, val: int)
    requires InSecond(t, cap, c, key)
    ensures var o := Kicked(t, cap, key, val, MAX_KICKS);
      && (StaysTwice(t, cap, key) <==> o.done && o.key == EMPTY)
      && (KeepsOld(t, cap, key) ==> o.done && (o.key, o.val) == (key, val))
      && (TakesNew(t, cap, key) ==> o.done && (o.key, o.val) == (key, c[key]))
      && (o.done ==> StaysTwice(t, cap, key) || KeepsOld(t, cap, key) || TakesNew(t, cap, key))
  {
    hide Kicked, Kicks, Represents, Met, Fresh, Slot, Hand, Seat, SeenAfter, EmptyAfter;
    var w := Walk(t, cap, 0, key);
    SecondSeat(t, cap, c, key);
    RoundsAreKicks(t, cap, 0, key, val, MAX_KICKS);
    if StaysTwice(t, cap, key) {
      var m: nat :| m <= 256 && EmptyAfter(w, m);
      FindsEmpty(w, val, m, 256);
    }
    if KeepsOld(t, cap, key) {
      var m: nat :| 1 < m < 256 && SeenAfter(w, m, 0);
      StoredMet(w, c, val, m, 256);
    }
    if TakesNew(t, cap, key) {
      var m: nat, j: nat :| 0 < j && m + j <= 256 && SeenAfter(w, m, j);
      StoredTurns(w, c, val, m, j, 256);
    }
    var m, j := WhereItStops(w, 256);
    if m == 257 {
      GoesOn(w, val, 256);
    } else if EmptyAfter(w, m) {
      FindsEmpty(w, val, m, 256);
    } else if j == 0 {
      StoredMet(w, c, val, m, 256);
      SeenOwn(w, m);
    } else {
      StoredTurns(w, c, val, m, j, 256);
    }
  }

  /** The end of the walk, or that it goes on for n steps. */
  lemma WhereItStops(w: Walk, n: nat) returns (m: nat, j: nat)
    requires Sized(w.t, w.cap) && w.key != EMPTY
    ensures 1 <= m <= n + 1 && Fresh(w, m) && (m <= n ==> EmptyAfter(w, m) || SeenAfter(w, m, j))
  {
    hide Met;
    j := 0;
    m := FirstStop(w, n);
    if m <= n && Met(w, m) != EMPTY {
      j :| 0 <= j < m && Met(w, j) == Met(w, m);
    }
  }

  lemma SeenOwn(w: Walk, m: nat)
    requires Sized(w.t, w.cap) && SeenAfter(w, m, 0) && Met(w, 1) != w.key
    ensures m > 1
  {
    HandIs(w, 0, 0);
  }

  /** What an insertion of a stored key does, told exactly by the tables before it: the new
      value counts, the old one does, both pairs are there, or it gives up. */
  lemma StoredAgain(t: Tables, cap: nat, c: map<int, int>, key: int, val: int)
    requires Represents(t, cap, c) && key in c
    ensures var o, same := Kicked(t, cap, key, val, MAX_KICKS), val == c[key];
      && (o.done && Represents(o.t, cap, c[key := val]) <==> TakesNew(t, cap, key) || (same && KeepsOld(t, cap, key)))
      && (o.done && Represents(o.t, cap, c) <==> KeepsOld(t, cap, key) || (same && TakesNew(t, cap, key)))
      && (o.done && o.t.k1[Hash1(key, cap)] == key == o.t.k2[Hash2(key, cap)] <==> StaysTwice(t, cap, key))
      && (!o.done <==> !TakesNew(t, cap, key) && !KeepsOld(t, cap, key) && !StaysTwice(t, cap, key))
  {
    hide Hash1, Hash2, Kicked, Pairs, Represents, StaysTwice, KeepsOld, TakesNew;
    RepresentsIff(t, cap, c);
    var o := Kicked(t, cap, key, val, MAX_KICKS);
    KickedConserves(t, cap, key, val, MAX_KICKS);
    InsertedAgain(t, cap, c, key, val, o);
    Exclusive(o.t, cap, c, key, val);
    if t.k1[Hash1(key, cap)] == key {
      InPlace(t, cap, c, key, val);
    } else {
      WhatComesOut(t, cap, c, key, val);
    }
  }

  lemma InPlace(t: Tables, cap: nat, c: map<int, int>, key: int, val: int)
    requires Represents(t, cap, c) && key in c && t.k1[Hash1(key, cap)] == key
    ensures var o := Kicked(t, cap, key, val, MAX_KICKS); o.done && (o.key, o.val) == (key, c[key])
    ensures TakesNew(t, cap, key) && !KeepsOld(t, cap, key) && !StaysTwice(t, cap, key)
  {
    hide Hash1, Hash2, Kicked;
    TwoProbes(t, cap, c, key);
    KickedStep(t, cap, key, val, MAX_KICKS);
    var w := Walk(t, cap, 0, key);
    HandIs(w, val, 0);
    hide Met;
    assert Stops(w, 1);
    forall m: nat | m > 1
      ensures !Fresh(w, m)
    {
      if Fresh(w, m) { OneStop(w, 1, m); }
    }
  }

  /** No two of the results go together, unless the values are the same. */
  lemma Exclusive(w: Tables, cap: nat, c: map<int, int>, key: int, val: int)
    requires Sized(w, cap) && key in c && key != EMPTY
    ensures Represents(w, cap, c) || Represents(w, cap, c[key := val]) ==>
      !(w.k1[Hash1(key, cap)] == key == w.k2[Hash2(key, cap)])
    ensures Represents(w, cap, c) && Represents(w, cap, c[key := val]) ==> val == c[key]
    ensures val == c[key] ==> c[key := val] == c
  {
    hide Hash1, Hash2;
    if Represents(w, cap, c) { TwoProbes(w, cap, c, key); }
    if Represents(w, cap, c[key := val]) { TwoProbes(w, cap, c[key := val], key); }
  }

  // ---- a new key ---------------------------------------------------------------------------

  /** Where an insertion finds room for a new key within the 256 kicks of 128 rounds: the walk
      from the first seat of key comes to an empty slot, or it turns round, which takes m + j - 1
      kicks, and the walk from the second seat does. */
  ghost predicate FindsRoom(t: Tables, cap: nat, key: int)
    requires Sized(t, cap)
  {
    || (exists m: nat :: m <= 256 && EmptyAfter(Walk(t, cap, 0, key), m))
    || (exists m: nat, j: nat, n: nat ::
      0 < j && m + j - 1 + n <= 256 && SeenAfter(Walk(t, cap, 0, key), m, j) && EmptyAfter(Walk(t, cap, 1, key), n))
  }

  ghost predicate NewTo(t: Tables, cap: nat, c: map<int, int>, key: int) {
    Sized(t, cap) && Represents(t, cap, c) && key != EMPTY && key !in c
  }

  lemma NotMetAgain(w: Walk, c: map<int, int>, i: nat)
    requires NewTo(w.t, w.cap, c, w.key) && i > 0
    ensures Met(w, i) != w.key
  {
    hide Represents, Met, Slot, PairAt;
    HandIs(w, 0, i - 1);
    if Met(w, i) != EMPTY { OnePlace(w.t, w.cap, c, w.start + i - 1, Slot(w, i - 1), 0, 0); }
  }

  /** Walks that come to the same key in the same table go on alike. */
  lemma {:induction false} Merges(w: Walk, u: Walk, i: nat, e: nat, d: nat)
    requires Sized(w.t, w.cap) && w.t == u.t && w.cap == u.cap
    requires Met(w, i) == Met(u, e) && (w.start + i) % 2 == (u.start + e) % 2
    ensures Met(w, i + d) == Met(u, e + d) && Slot(w, i + d) == Slot(u, e + d)
    decreases d
  {
    hide Met, Slot, Hand, PairAt, Seat;
    if d > 0 {
      Merges(w, u, i, e, d - 1);
      SamePair(w.t, w.cap, w.start + i + d - 1, u.start + e + d - 1, Slot(w, i + d - 1));
      HandIs(w, 0, i + d - 1);
      HandIs(u, 0, e + d - 1);
    }
    HandIs(w, 0, i + d);
    HandIs(u, 0, e + d);
    SameSeat(w.cap, w.start + i + d, u.start + e + d, Met(w, i + d));
  }

  /** A walk that comes to a slot it has been to goes round for ever. */
  lemma {:induction false} NeverEmpty(w: Walk, c: map<int, int>, m: nat, j: nat, i: nat)
    requires Sized(w.t, w.cap) && Represents(w.t, w.cap, c) && 1 <= j && SeenAfter(w, m, j)
    ensures Met(w, i) != EMPTY
    decreases i
  {
    hide Met, Slot, Represents;
    if i >= m {
      SeenSlot(w, c, m, j);
      Merges(w, w, m, j, i - m);
      NeverEmpty(w, c, m, j, j + i - m);
    }
  }

  /** If the first walk goes round and the second one does not, they have no slot in common. */
  lemma WalksApart(w: Walk, u: Walk, c: map<int, int>, m: nat, j: nat, n: nat, i: nat)
    requires Sized(w.t, w.cap) && Represents(w.t, w.cap, c) && 1 <= j && SeenAfter(w, m, j)
    requires w.t == u.t && w.cap == u.cap && EmptyAfter(u, n) && i < n
    ensures Untouched(w, m - 1, u.start + i, Slot(u, i))
  {
    hide Met, Slot, Hand, PairAt, Represents, Fresh;
    forall x: nat | x < m - 1 && (w.start + x) % 2 == (u.start + i) % 2
      ensures Slot(w, x) != Slot(u, i)
    {
      if Slot(w, x) == Slot(u, i) {
        SamePair(w.t, w.cap, w.start + x, u.start + i, Slot(w, x));
        HandIs(w, 0, x);
        HandIs(u, 0, i);
        Merges(w, u, x + 1, i + 1, n - (i + 1));
        NeverEmpty(w, c, m, j, x + 1 + (n - (i + 1)));
      }
    }
  }

  /** A walk through slots that have not been touched is the same. */
  lemma {:induction false} SameWalk(w: Walk, u: Walk, val: int, now: Tables, e: nat, i: nat)
    requires Sized(w.t, w.cap) && w.t == u.t && w.cap == u.cap && Sized(now, w.cap) && Moved(w, val, now, 0, e)
    requires forall x: nat :: x < i ==> Untouched(w, e, u.start + x, Slot(u, x))
    ensures Met(u.(t := now), i) == Met(u, i)
  {
    hide Met, Slot, Hand, PairAt, Moved, Untouched, Sized;
    var x := u.(t := now);
    HandIs(u, 0, 0);
    HandIs(x, 0, 0);
    if i > 0 {
      SameWalk(w, u, val, now, e, i - 1);
      HandIs(u, 0, i - 1);
      HandIs(x, 0, i - 1);
      MovedLeft(w, val, now, 0, e, u.start + i - 1, Slot(u, i - 1));
    }
  }

  /** So the second walk is the same after the first one has been gone and undone. */
  lemma StillEmpty(w: Walk, u: Walk, c: map<int, int>, val: int, now: Tables, m: nat, j: nat, n: nat)
    requires Sized(w.t, w.cap) && Represents(w.t, w.cap, c) && 1 <= j && SeenAfter(w, m, j)
    requires w.t == u.t && w.cap == u.cap && EmptyAfter(u, n)
    requires Sized(now, w.cap) && Moved(w, val, now, 0, m - 1)
    ensures EmptyAfter(u.(t := now), n)
  {
    hide Met, Slot, Represents, Moved, Untouched;
    forall x: nat | x < n
      ensures Untouched(w, m - 1, u.start + x, Slot(u, x))
    {
      WalksApart(w, u, c, m, j, n, x);
    }
    forall i: nat | i <= n
      ensures Met(u.(t := now), i) == Met(u, i)
    {
      SameWalk(w, u, val, now, m - 1, i);
    }
  }

  lemma {:induction false} KicksAlike(t: Tables, cap: nat, i: nat, j: nat, k: int, v: int, n: nat)
    requires Sized(t, cap) && i % 2 == j % 2
    ensures Kicks(t, cap, i, k, v, n) == Kicks(t, cap, j, k, v, n)
    decreases n
  {
    hide Kick;
    if n > 0 {
      KickIs(t, cap, i, k, v);
      KickIs(t, cap, j, k, v);
      var a := Kick(t, cap, i, k, v);
      if !a.done { KicksAlike(a.t, cap, i + 1, j + 1, a.key, a.val, n - 1); }
    }
  }

  /** The first walk turns round and the second one comes to an empty slot. */
  lemma SecondTry(t: Tables, cap: nat, c: map<int, int>, key: int, val: int, m: nat, j: nat, n: nat, k: nat)
    requires NewTo(t, cap, c, key) && 1 <= j && SeenAfter(Walk(t, cap, 0, key), m, j)
    requires EmptyAfter(Walk(t, cap, 1, key), n)
    ensures Kicks(t, cap, 0, key, val, k).done <==> k >= m + j - 1 + n
  {
    hide Kicks, Moved, Met, Represents, Fresh, EmptyAfter;
    var w, u := Walk(t, cap, 0, key), Walk(t, cap, 1, key);
    var now := TurnsRound(w, c, val, m, j, k);
    MovedSized(w, val, now, 0, m - 1);
    if k >= m + j - 1 {
      var d: nat := k - (m + j - 1);
      StillEmpty(w, u, c, val, now, m, j, n);
      FindsEmpty(u.(t := now), val, n, d);
      KicksAlike(now, cap, m + j - 1, 1, key, val, d);
    }
  }

  // ---- no room at all ----------------------------------------------------------------------

  /** Slot q of table a lies on the walk from one of the two seats of key. */
  ghost predicate OnWay(t: Tables, cap: nat, key: int, a: nat, q: nat)
    requires Sized(t, cap)
  {
    exists b: nat, i: nat :: b < 2 && OnWalk(Walk(t, cap, b, key), i, a, q)
  }

  ghost predicate OnWalk(w: Walk, i: nat, a: nat, q: nat)
    requires Sized(w.t, w.cap)
  {
    (w.start + i) % 2 == a % 2 && Slot(w, i) == q
  }

  /** Both seats of x do. */
  ghost predicate Confined(t: Tables, cap: nat, key: int, x: int)
    requires Sized(t, cap)
  {
    OnWay(t, cap, key, 0, Seat(cap, 0, x)) && OnWay(t, cap, key, 1, Seat(cap, 1, x))
  }

  /** Every slot on the way is taken, by a key that is confined to it. */
  ghost predicate Crowded(t: Tables, cap: nat, key: int, now: Tables)
    requires Sized(t, cap) && Sized(now, cap)
  {
    forall a: nat, q: nat :: a < 2 && q < cap && OnWay(t, cap, key, a, q) ==>
      PairAt(now, cap, a, q).0 != EMPTY && Confined(t, cap, key, PairAt(now, cap, a, q).0)
  }

  lemma SeatsConfine(t: Tables, cap: nat, key: int, x: int, i: nat)
    requires Sized(t, cap) && OnWay(t, cap, key, i, Seat(cap, i, x)) && OnWay(t, cap, key, i + 1, Seat(cap, i + 1, x))
    ensures Confined(t, cap, key, x)
  {
    hide OnWay;
    SameWay(t, cap, key, i, i % 2, Seat(cap, i, x));
    SameWay(t, cap, key, i + 1, (i + 1) % 2, Seat(cap, i + 1, x));
    SameSeat(cap, i, i % 2, x);
    SameSeat(cap, i + 1, (i + 1) % 2, x);
  }

  lemma SameWay(t: Tables, cap: nat, key: int, i: nat, j: nat, q: nat)
    requires Sized(t, cap) && i % 2 == j % 2
    ensures OnWay(t, cap, key, i, q) == OnWay(t, cap, key, j, q)
  {
    hide Slot;
    if OnWay(t, cap, key, i, q) {
      var b: nat, n: nat :| b < 2 && OnWalk(Walk(t, cap, b, key), n, i, q);
      assert OnWalk(Walk(t, cap, b, key), n, j, q);
    }
    if OnWay(t, cap, key, j, q) {
      var b: nat, n: nat :| b < 2 && OnWalk(Walk(t, cap, b, key), n, j, q);
      assert OnWalk(Walk(t, cap, b, key), n, i, q);
    }
  }

  /** If neither walk comes to an empty slot, all slots on the way are taken. */
  lemma CrowdedAtFirst(t: Tables, cap: nat, c: map<int, int>, key: int)
    requires NewTo(t, cap, c, key)
    requires forall i: nat :: Met(Walk(t, cap, 0, key), i) != EMPTY && Met(Walk(t, cap, 1, key), i) != EMPTY
    ensures Crowded(t, cap, key, t) && Confined(t, cap, key, key)
  {
    hide Met, Slot, PairAt, Represents, OnWay, Confined, Seat;
    forall a: nat, q: nat | a < 2 && q < cap && OnWay(t, cap, key, a, q)
      ensures PairAt(t, cap, a, q).0 != EMPTY && Confined(t, cap, key, PairAt(t, cap, a, q).0)
    {
      var b, i := SomeWalk(t, cap, key, a, q);
      var w := Walk(t, cap, b, key);
      HandIs(w, 0, i);
      HandIs(w, 0, i + 1);
      SamePair(t, cap, a, b + i, q);
      assert Met(w, i + 1) != EMPTY;
      OnePlace(t, cap, c, b + i, q, 0, 0);
      WalkOn(w, i);
      WalkOn(w, i + 1);
      SeatsConfine(t, cap, key, Met(w, i + 1), b + i);
    }
    var w, u := Walk(t, cap, 0, key), Walk(t, cap, 1, key);
    HandIs(w, 0, 0);
    HandIs(u, 0, 0);
    WalkOn(w, 0);
    WalkOn(u, 0);
    SeatsConfine(t, cap, key, key, 0);
  }

  lemma SomeWalk(t: Tables, cap: nat, key: int, a: nat, q: nat) returns (b: nat, i: nat)
    requires Sized(t, cap) && OnWay(t, cap, key, a, q)
    ensures b < 2 && (b + i) % 2 == a % 2 && Slot(Walk(t, cap, b, key), i) == q
  {
    hide Slot;
    b, i :| b < 2 && OnWalk(Walk(t, cap, b, key), i, a, q);
  }

  lemma WalkOn(w: Walk, i: nat)
    requires Sized(w.t, w.cap) && w.start < 2
    ensures OnWay(w.t, w.cap, w.key, w.start + i, Slot(w, i))
  {
    hide Slot;
    assert OnWalk(Walk(w.t, w.cap, w.start, w.key), i, w.start + i, Slot(w, i));
  }

  lemma ConfinedSeat(t: Tables, cap: nat, key: int, x: int, n: nat)
    requires Sized(t, cap) && Confined(t, cap, key, x)
    ensures OnWay(t, cap, key, n % 2, Seat(cap, n, x))
  {
    hide OnWay;
  }

  lemma CrowdedAt(t: Tables, cap: nat, key: int, now: Tables, n: nat, q: nat)
    requires Sized(t, cap) && Sized(now, cap) && Crowded(t, cap, key, now)
    requires q < cap && OnWay(t, cap, key, n % 2, q)
    ensures PairAt(now, cap, n, q).0 != EMPTY && Confined(t, cap, key, PairAt(now, cap, n, q).0)
  {
    hide OnWay, Confined, PairAt;
    SamePair(now, cap, n, n % 2, q);
  }

  lemma StaysCrowded(t: Tables, cap: nat, key: int, now: Tables, n: nat, s: nat, k: int, v: int)
    requires Sized(t, cap) && Sized(now, cap) && Crowded(t, cap, key, now) && s < cap
    requires k != EMPTY && Confined(t, cap, key, k)
    ensures Crowded(t, cap, key, PutAt(now, cap, n, s, k, v))
  {
    hide OnWay, Confined, PairAt, PutAt;
    forall a: nat, q: nat | a < 2 && q < cap && OnWay(t, cap, key, a, q)
      ensures var x := PairAt(PutAt(now, cap, n, s, k, v), cap, a, q).0; x != EMPTY && Confined(t, cap, key, x)
    {
      PutPair(now, cap, n, s, k, v, a, q);
    }
  }

  /** Then no number of kicks brings out an empty slot. */
  lemma {:induction false} NoRoom(t: Tables, cap: nat, key: int, now: Tables, i: nat, k: int, v: int, n: nat)
    requires Sized(t, cap) && Sized(now, cap) && Crowded(t, cap, key, now)
    requires k != EMPTY && Confined(t, cap, key, k)
    ensures Kicks(now, cap, i, k, v, n).key != EMPTY
    decreases n
  {
    hide Crowded, Confined, Kicks, PutAt, PairAt, Seat;
    if n == 0 {
      NoKick(now, cap, i, k, v);
    } else {
      KicksStep(now, cap, i, k, v, n);
      ConfinedSeat(t, cap, key, k, i);
      CrowdedAt(t, cap, key, now, i, Seat(cap, i, k));
      StaysCrowded(t, cap, key, now, i, Seat(cap, i, k), k, v);
      var a := Kick(now, cap, i, k, v);
      if !a.done { NoRoom(t, cap, key, a.t, i + 1, a.key, a.val, n - 1); }
    }
  }

  /** Where a walk that comes to an empty slot does so first. */
  lemma FirstEmpty(w: Walk, c: map<int, int>, n: nat) returns (m: nat)
    requires NewTo(w.t, w.cap, c, w.key) && Met(w, n) == EMPTY
    ensures EmptyAfter(w, m)
  {
    hide Met, Represents;
    var j;
    m, j := WhereItStops(w, n);
    if m <= n && !EmptyAfter(w, m) {
      NewSeen(w, c, m, j);
      NeverEmpty(w, c, m, j, n);
    }
  }

  lemma NewSeen(w: Walk, c: map<int, int>, m: nat, j: nat)
    requires NewTo(w.t, w.cap, c, w.key) && SeenAfter(w, m, j)
    ensures j > 0
  {
    hide Met, Represents;
    HandIs(w, 0, 0);
    NotMetAgain(w, c, m);
  }

  /** Exactly when a new key is stored, told by the tables before the call. */
  lemma StoredNew(t: Tables, cap: nat, c: map<int, int>, key: int, val: int)
    requires Represents(t, cap, c) && key != -1 && key !in c
    ensures Kicked(t, cap, key, val, MAX_KICKS).done <==> FindsRoom(t, cap, key)
  {
    hide Kicked, Kicks, Represents, Met, Fresh, SeenAfter, EmptyAfter, Crowded, Confined;
    var w, u := Walk(t, cap, 0, key), Walk(t, cap, 1, key);
    RepresentsSized(t, cap, c);
    RoundsAreKicks(t, cap, 0, key, val, MAX_KICKS);
    var m, j := WhereItStops(w, 256);
    if m == 257 {
      GoesOn(w, val, 256);
      FreshFindsNone(w);
    } else if EmptyAfter(w, m) {
      FindsEmpty(w, val, m, 256);
    } else {
      NewSeen(w, c, m, j);
      OnlySeen(t, cap, key, m, j);
      if n: nat :| Met(u, n) == EMPTY {
        var e := FirstEmpty(u, c, n);
        SecondTry(t, cap, c, key, val, m, j, e, 256);
        OnlyEmpty(u, e);
      } else {
        forall i: nat
          ensures Met(w, i) != EMPTY
        {
          NeverEmpty(w, c, m, j, i);
        }
        CrowdedAtFirst(t, cap, c, key);
        NoRoom(t, cap, key, t, 0, key, val, 256);
        KickedConserves(t, cap, key, val, MAX_KICKS);
        InsertedNew(t, cap, c, key, val, Kicked(t, cap, key, val, MAX_KICKS));
        NoneEmpty(u);
      }
    }
  }

  lemma RepresentsSized(t: Tables, cap: nat, c: map<int, int>)
    requires Represents(t, cap, c)
    ensures Sized(t, cap) && WellPlaced(t, cap)
  {
  }

  lemma FreshFindsNone(w: Walk)
    requires Sized(w.t, w.cap) && Fresh(w, 257)
    ensures forall m: nat :: m <= 256 ==> !EmptyAfter(w, m)
    ensures forall m: nat, j: nat :: m <= 256 ==> !SeenAfter(w, m, j)
  {
    hide Met;
  }

  lemma OnlySeen(t: Tables, cap: nat, key: int, m: nat, j: nat)
    requires Sized(t, cap) && SeenAfter(Walk(t, cap, 0, key), m, j) && j > 0
    ensures FindsRoom(t, cap, key)
      <==> exists n: nat :: m + j - 1 + n <= 256 && EmptyAfter(Walk(t, cap, 1, key), n)
  {
    hide SeenAfter, EmptyAfter;
    var w, u := Walk(t, cap, 0, key), Walk(t, cap, 1, key);
    forall n: nat
      ensures !EmptyAfter(w, n)
    {
      SeenNotEmpty(w, m, j, n);
    }
    forall m': nat, j': nat | SeenAfter(w, m', j')
      ensures m' == m && j' == j
    {
      SeenOnce(w, m, j, m', j');
    }
  }

  lemma OnlyEmpty(w: Walk, m: nat)
    requires Sized(w.t, w.cap) && EmptyAfter(w, m)
    ensures forall n: nat :: EmptyAfter(w, n) ==> n == m
  {
    hide Met;
    forall n: nat | EmptyAfter(w, n)
      ensures n == m
    {
      OneStop(w, m, n);
      OneStop(w, n, m);
    }
  }

  lemma NoneEmpty(w: Walk)
    requires Sized(w.t, w.cap) && forall i: nat :: Met(w, i) != EMPTY
    ensures forall n: nat :: !EmptyAfter(w, n)
  {
    hide Met;
  }
}
