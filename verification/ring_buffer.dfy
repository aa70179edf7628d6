/** The single-producer single-consumer ring buffer: size_t arithmetic, the two
    operations run alone, and every interleaving of their atomic steps. */
module RingBuffers {
  import opened Powers

  /** The number of size_t values; counters wrap at it. */
  const SIZE_T: nat := 0x1_0000_0000_0000_0000

  // ---- powers of two and masks -----------------------------------------------------

  ghost predicate IsPow2(n: nat) {
    exists k: nat :: Pow2(k) == n
  }

  /** Bitwise and. */
  function And(a: nat, b: nat): (r: nat)
    ensures r <= b
  {
    if a == 0 || b == 0 then 0
    else 2 * And(a / 2, b / 2) + if a % 2 == 1 && b % 2 == 1 then 1 else 0
  }

  lemma {:induction false} HalfMod(a: nat, p: nat)
    requires p > 0
    ensures a % (2 * p) == 2 * ((a / 2) % p) + a % 2
  {
    var q, r := (a / 2) / p, (a / 2) % p;
    assert a / 2 == p * q + r;
    assert a == (2 * p) * q + (2 * r + a % 2);
    ModUnique(a, 2 * p, q, 2 * r + a % 2);
  }

  lemma ModUnique(a: int, m: int, q: int, r: int)
    requires m > 0 && a == m * q + r && 0 <= r < m
    ensures a % m == r && a / m == q
  {
    var d := a / m - q;
    assert a == m * (a / m) + a % m;
    assert m * d == r - a % m;
    assert (d >= 1 ==> m * d >= m) && (d <= -1 ==> m * d <= -m);
  }

  /** Masking with 2^k - 1 is the remainder by 2^k. */
  lemma {:induction false} MaskIsMod(a: nat, k: nat)
    ensures And(a, Pow2(k) - 1) == a % Pow2(k)
  {
    if k == 0 {
      assert a % 1 == 0;
    } else {
      var p := Pow2(k - 1);
      MaskIsMod(a / 2, k - 1);
      HalfMod(a, p);
      assert (2 * p - 1) / 2 == p - 1 && (2 * p - 1) % 2 == 1;
      if a == 0 { assert 0 % (2 * p) == 0; }
    }
  }

  lemma SizeTIsPow2()
    ensures Pow2(64) == SIZE_T
  {
    hide Pow2;
    EightBits();
    Squared(8, 0x100);
    Squared(16, 0x1_0000);
    Squared(32, 0x1_0000_0000);
  }

  lemma EightBits()
    ensures Pow2(8) == 0x100
  {
  }

  lemma Squared(k: nat, p: nat)
    requires Pow2(k) == p
    ensures Pow2(2 * k) == p * p
  {
    hide Pow2;
    Pow2Adds(k, k);
    assert k + k == 2 * k;
  }

  // ---- next_pow2 ---------------------------------------------------------------------

  /** p after k left shifts of 1 in size_t. */
  function Shifted(k: nat): nat {
    if k == 0 then 1 else (2 * Shifted(k - 1)) % SIZE_T
  }

  lemma {:induction false} ShiftedIs(k: nat)
    ensures Shifted(k) == if k < 64 then Pow2(k) else 0
  {
    if k > 0 {
      ShiftedIs(k - 1);
      ShiftOnce(if k - 1 < 64 then Pow2(k - 1) else 0, k);
    }
  }

  lemma ShiftOnce(p: nat, k: nat)
    requires k > 0 && p == if k - 1 < 64 then Pow2(k - 1) else 0
    ensures (2 * p) % SIZE_T == if k < 64 then Pow2(k) else 0
  {
    SizeTIsPow2();
    if k < 64 {
      Pow2Strict(k, 64);
      Within(2 * p);
    } else if k == 64 {
      Whole();
    }
  }

  lemma Within(x: nat)
    requires x < SIZE_T
    ensures x % SIZE_T == x
  {
  }

  lemma Whole()
    ensures SIZE_T % SIZE_T == 0
  {
  }

  lemma Pow2Strict(a: nat, b: nat)
    requires a < b
    ensures Pow2(a) < Pow2(b)
  {
    Pow2Monotone(a + 1, b);
  }

  /** The loop of next_pow2 ends exactly for n up to 2^63: beyond that the shifted
      bit falls out of the word and every later p is 0. */
  lemma NextPow2Terminates(n: nat)
    requires n < SIZE_T
    ensures (exists k :: Shifted(k) >= n) <==> n <= SIZE_T / 2
  {
    SizeTIsPow2();
    ShiftedIs(63);
    if n > SIZE_T / 2 {
      forall k
        ensures Shifted(k) < n
      {
        ShiftedIs(k);
        if k < 64 { Pow2Monotone(k, 63); }
      }
    }
  }

  method NextPow2(n: nat) returns (p: nat)
    requires n <= SIZE_T / 2
    ensures IsPow2(p) && n <= p <= SIZE_T / 2
    ensures p == 1 || p < 2 * n
  {
    SizeTIsPow2();
    ghost var k := 0;
    p := 1;
    while p < n
      invariant p == Pow2(k) && p <= SIZE_T / 2
      invariant p == 1 || p < 2 * n
      decreases n - p
    {
      p := (2 * p) % SIZE_T;
      k := k + 1;
      assert p == Pow2(k);
      if k >= 64 { Pow2Monotone(64, k); } else { Pow2Monotone(k, 63); }
    }
  }

  // ---- counters ------------------------------------------------------------------------

  /** Unsigned subtraction of two counters. */
  function Sub(a: nat, b: nat): nat {
    (a - b) % SIZE_T
  }

  /** The slot of a counter. */
  function Slot(c: nat, capacity: nat): (r: nat)
    requires capacity > 0
    ensures r < capacity
  {
    And(c, capacity - 1)
  }

  /** A capacity that rb_create can produce. */
  ghost predicate GoodCapacity(capacity: nat) {
    IsPow2(capacity) && capacity <= SIZE_T / 2
  }

  /** The wrapped counter still finds the slot of the true count. */
  lemma SlotOfWrapped(c: nat, capacity: nat)
    requires GoodCapacity(capacity)
    ensures Slot(c % SIZE_T, capacity) == c % capacity
  {
    var k: nat :| Pow2(k) == capacity;
    SizeTIsPow2();
    if k >= 64 { Pow2Monotone(64, k); assert false; }
    Pow2Adds(k, 64 - k);
    MaskIsMod(c % SIZE_T, k);
    ModOfMultiple(c, capacity, Pow2(64 - k));
  }

  lemma ModOfMultiple(c: nat, m: nat, f: nat)
    requires m > 0 && f > 0
    ensures m * f > 0 && (c % (m * f)) % m == c % m
  {
    var n := m * f;
    assert n > 0;
    var r := c % n;
    assert c == n * (c / n) + r;
    assert r == m * (r / m) + r % m;
    assert c == m * (f * (c / n) + r / m) + r % m by {
      assert n * (c / n) == m * (f * (c / n));
    }
    ModUnique(c, m, f * (c / n) + r / m, r % m);
  }

  /** Which capacities survive the wrap with plain remainders: exactly the divisors
      of SIZE_T. At the wrap any other capacity sends the next count to a wrong slot. */
  lemma WrapNeedsDivisor(capacity: nat)
    requires 0 < capacity < SIZE_T
    ensures (forall c: nat :: (c % SIZE_T) % capacity == c % capacity) <==> SIZE_T % capacity == 0
  {
    if SIZE_T % capacity == 0 {
      forall c: nat
        ensures (c % SIZE_T) % capacity == c % capacity
      {
        assert SIZE_T == capacity * (SIZE_T / capacity);
        ModOfMultiple(c, capacity, SIZE_T / capacity);
      }
    } else {
      assert (SIZE_T % SIZE_T) % capacity == 0;
    }
  }

  /** A difference of at most half the range is computed exactly despite the wrap. */
  lemma SubWrapped(a: nat, b: nat)
    requires b <= a < b + SIZE_T
    ensures Sub(a % SIZE_T, b % SIZE_T) == a - b
  {
    var x, y := a % SIZE_T - b % SIZE_T, a / SIZE_T - b / SIZE_T;
    assert a - b == SIZE_T * y + x;
    ModUnique(x, SIZE_T, -y, a - b);
  }

  lemma IncrementWrapped(c: nat)
    ensures (c % SIZE_T + 1) % SIZE_T == (c + 1) % SIZE_T
  {
    var q, r := (c + 1) / SIZE_T, (c + 1) % SIZE_T;
    ModUnique(c % SIZE_T + 1, SIZE_T, q - c / SIZE_T, r);
  }

  // ---- the protocol ----------------------------------------------------------------------

  /** Where the producer is inside rb_produce, with what it has loaded. */
  datatype Producer = PIdle | PTail(val: int, tail: nat) | PRoom(val: int, tail: nat) | PWritten(val: int, tail: nat)

  /** Where the consumer is inside rb_consume. */
  datatype Consumer = CIdle | CHead(head: nat) | CItem(head: nat) | CRead(out: int, head: nat)

  /** The shared fields, the two parties, and the history: values whose tail store
      has happened, and values whose head store has happened. */
  datatype State = State(
    buf: seq<int>, head: nat, tail: nat, p: Producer, c: Consumer,
    published: seq<int>, consumed: seq<int>)

  function Init(buf: seq<int>): State {
    State(buf, 0, 0, PIdle, CIdle, [], [])
  }

  /** The producer's next atomic step; val is what a new call wants to produce.
      The second load and its test are one step, as the test is local. */
  function ProducerStep(s: State, val: int): State
    requires |s.buf| > 0
  {
    match s.p
    case PIdle => s.(p := PTail(val, s.tail))
    case PTail(v, tail) =>
      if Sub(tail, s.head) >= |s.buf| then s.(p := PIdle) else s.(p := PRoom(v, tail))
    case PRoom(v, tail) =>
      s.(buf := s.buf[Slot(tail, |s.buf|) := v], p := PWritten(v, tail))
    case PWritten(v, tail) =>
      s.(tail := (tail + 1) % SIZE_T, published := s.published + [v], p := PIdle)
  }

  function ConsumerStep(s: State): State
    requires |s.buf| > 0
  {
    match s.c
    case CIdle => s.(c := CHead(s.head))
    case CHead(head) =>
      if head == s.tail then s.(c := CIdle) else s.(c := CItem(head))
    case CItem(head) =>
      s.(c := CRead(s.buf[Slot(head, |s.buf|)], head))
    case CRead(out, head) =>
      s.(head := (head + 1) % SIZE_T, consumed := s.consumed + [out], c := CIdle)
  }

  ghost predicate Next(s: State, s': State) {
    |s.buf| > 0 && (s' == ConsumerStep(s) || exists val :: s' == ProducerStep(s, val))
  }

  /** The slot of the k-th unread value. */
  function LiveSlot(s: State, k: nat): nat
    requires |s.buf| > 0
  {
    Slot((s.head + k) % SIZE_T, |s.buf|)
  }

  /** The values from head up to tail, as the shared fields alone give them. */
  function Live(s: State): seq<int>
    requires |s.buf| > 0
  {
    seq(Sub(s.tail, s.head), i requires 0 <= i => s.buf[LiveSlot(s, i)])
  }

  /** The inductive invariant, in terms of the true counts of published and consumed values. */
  ghost predicate Inv(s: State) {
    var cap, t, h := |s.buf|, |s.published|, |s.consumed|;
    && GoodCapacity(cap)
    && s.tail == t % SIZE_T && s.head == h % SIZE_T
    && h <= t <= h + cap
    && s.consumed == s.published[..h]
    && (forall i :: h <= i < t ==> s.buf[i % cap] == s.published[i])
    && ProducerInv(s, cap, t, h) && ConsumerInv(s, t, h)
  }

  ghost predicate ProducerInv(s: State, cap: nat, t: nat, h: nat)
    requires cap == |s.buf| > 0
  {
    match s.p
    case PIdle => true
    case PTail(v, tail) => tail == t % SIZE_T
    case PRoom(v, tail) => tail == t % SIZE_T && t < h + cap
    case PWritten(v, tail) => tail == t % SIZE_T && t < h + cap && s.buf[t % cap] == v
  }

  ghost predicate ConsumerInv(s: State, t: nat, h: nat)
    requires |s.published| == t
  {
    match s.c
    case CIdle => true
    case CHead(head) => head == h % SIZE_T
    case CItem(head) => head == h % SIZE_T && h < t
    case CRead(out, head) => head == h % SIZE_T && h < t && out == s.published[h]
  }

  lemma InitInv(buf: seq<int>)
    requires GoodCapacity(|buf|)
    ensures Inv(Init(buf))
  {
  }

  /** Counts less than one capacity apart lie in different slots. */
  lemma DistinctSlots(a: nat, b: nat, cap: nat)
    requires cap > 0 && a < b < a + cap
    ensures a % cap != b % cap
  {
    var x := b - a;
    if a % cap + x < cap {
      ModUnique(b, cap, a / cap, a % cap + x);
    } else {
      ModUnique(b, cap, a / cap + 1, a % cap + x - cap);
    }
  }

  lemma SlotUnread(h: nat, t: nat, cap: nat)
    requires h <= t < h + cap
    ensures forall i :: h <= i < t ==> i % cap != t % cap
  {
    forall i | h <= i < t
      ensures i % cap != t % cap
    {
      DistinctSlots(i, t, cap);
    }
  }

  lemma ProducerKeepsInv(s: State, val: int)
    requires Inv(s)
    ensures Inv(ProducerStep(s, val))
  {
    var cap, t, h := |s.buf|, |s.published|, |s.consumed|;
    match s.p
    case PIdle =>
    case PTail(v, tail) => SubWrapped(t, h);
    case PRoom(v, tail) =>
      SlotOfWrapped(t, cap);
      SlotUnread(h, t, cap);
    case PWritten(v, tail) => IncrementWrapped(t);
  }

  lemma ConsumerKeepsInv(s: State)
    requires Inv(s)
    ensures Inv(ConsumerStep(s))
  {
    var cap, t, h := |s.buf|, |s.published|, |s.consumed|;
    match s.c
    case CIdle =>
    case CHead(head) => if h == t { } else { }
    case CItem(head) => SlotOfWrapped(h, cap);
    case CRead(out, head) => IncrementWrapped(h);
  }

  // ---- what every run keeps ------------------------------------------------------------------

  ghost predicate IsRun(run: seq<State>, buf: seq<int>) {
    && run != [] && run[0] == Init(buf)
    && forall i :: 0 < i < |run| ==> Next(run[i - 1], run[i])
  }

  lemma {:induction false} RunInv(run: seq<State>, buf: seq<int>, i: nat)
    requires GoodCapacity(|buf|) && IsRun(run, buf) && i < |run|
    ensures Inv(run[i]) && |run[i].buf| == |buf|
  {
    if i == 0 {
      InitInv(buf);
    } else {
      RunInv(run, buf, i - 1);
      assert Next(run[i - 1], run[i]);
      if run[i] == ConsumerStep(run[i - 1]) {
        ConsumerKeepsInv(run[i - 1]);
      } else {
        var val :| run[i] == ProducerStep(run[i - 1], val);
        ProducerKeepsInv(run[i - 1], val);
      }
    }
  }

  /** First in, first out, at every moment of every interleaving: what was
      published is what was consumed followed by what the buffer holds. */
  lemma FifoAlways(run: seq<State>, buf: seq<int>, i: nat)
    requires GoodCapacity(|buf|) && IsRun(run, buf) && i < |run|
    ensures |run[i].buf| == |buf| && run[i].published == run[i].consumed + Live(run[i])
    ensures |Live(run[i])| <= |buf|
  {
    RunInv(run, buf, i);
    LiveIs(run[i]);
  }

  lemma LiveIs(s: State)
    requires Inv(s)
    ensures Live(s) == s.published[|s.consumed|..]
  {
    var t, h := |s.published|, |s.consumed|;
    SubWrapped(t, h);
    forall i | 0 <= i < t - h
      ensures Live(s)[i] == s.published[h + i]
    {
      LiveSlotIs(s, i);
    }
  }

  lemma LiveSlotIs(s: State, k: nat)
    requires Inv(s)
    ensures LiveSlot(s, k) == (|s.consumed| + k) % |s.buf|
  {
    var h := |s.consumed|;
    ModUnique(s.head + k, SIZE_T, (h + k) / SIZE_T - h / SIZE_T, (h + k) % SIZE_T);
    SlotOfWrapped(h + k, |s.buf|);
  }

  lemma WriteApart(s: State)
    requires Inv(s) && s.p.PRoom?
    ensures forall k :: 0 <= k < |Live(s)| ==> Slot(s.p.tail, |s.buf|) != LiveSlot(s, k)
    ensures s.c.CItem? ==> Slot(s.p.tail, |s.buf|) != Slot(s.c.head, |s.buf|)
  {
    var cap, t, h := |s.buf|, |s.published|, |s.consumed|;
    LiveIs(s);
    SlotOfWrapped(t, cap);
    SlotOfWrapped(h, cap);
    forall k | 0 <= k < t - h
      ensures Slot(s.p.tail, cap) != LiveSlot(s, k)
    {
      LiveSlotIs(s, k);
      DistinctSlots(h + k, t, cap);
    }
    if s.c.CItem? { DistinctSlots(h, t, cap); }
  }

  /** The slot the producer is about to write holds no unread value, and is not
      the one the consumer is about to read. */
  lemma NoOverwrite(run: seq<State>, buf: seq<int>, i: nat)
    requires GoodCapacity(|buf|) && IsRun(run, buf) && i < |run| && run[i].p.PRoom?
    ensures var s := run[i];
      && |s.buf| == |buf|
      && (forall k :: 0 <= k < |Live(s)| ==> Slot(s.p.tail, |s.buf|) != LiveSlot(s, k))
      && (s.c.CItem? ==> Slot(s.p.tail, |s.buf|) != Slot(s.c.head, |s.buf|))
  {
    RunInv(run, buf, i);
    WriteApart(run[i]);
  }

  /** A call gives up only on a buffer that is really full, or really empty, at
      the moment of its second load. */
  lemma RefusalIsHonest(run: seq<State>, buf: seq<int>, i: nat, val: int)
    requires GoodCapacity(|buf|) && IsRun(run, buf) && i < |run|
    ensures |run[i].buf| == |buf|
    ensures run[i].p.PTail? ==> (ProducerStep(run[i], val).p.PIdle? <==> |Live(run[i])| == |buf|)
    ensures run[i].c.CHead? ==> (ConsumerStep(run[i]).c.CIdle? <==> Live(run[i]) == [])
  {
    RunInv(run, buf, i);
    var s := run[i];
    SubWrapped(|s.published|, |s.consumed|);
    LiveIs(s);
  }

  // ---- a whole call, when the other party rests ---------------------------------------------

  lemma FullIff(s: State)
    requires Inv(s)
    ensures 0 < |s.buf| && s.tail < SIZE_T && s.head < SIZE_T
    ensures Sub(s.tail, s.head) >= |s.buf| <==> |Live(s)| >= |s.buf|
    ensures |Live(s)| <= |s.buf|
  {
    LiveIs(s);
    SubWrapped(|s.published|, |s.consumed|);
  }

  lemma EmptyIff(s: State)
    requires Inv(s)
    ensures 0 < |s.buf| && s.tail < SIZE_T && s.head < SIZE_T
    ensures s.head == s.tail <==> Live(s) == []
  {
    LiveIs(s);
    SubWrapped(|s.published|, |s.consumed|);
    SubSame(s.tail, s.head);
  }

  lemma SubSame(a: nat, b: nat)
    requires a < SIZE_T && b < SIZE_T
    ensures Sub(a, b) == 0 <==> a == b
  {
  }

  lemma FourProducerSteps(s: State, val: int)
    requires Inv(s) && s.p == PIdle && 0 < |s.buf| && Sub(s.tail, s.head) < |s.buf|
    ensures |ProducerStep(s, val).buf| > 0 && |ProducerStep(ProducerStep(s, val), val).buf| > 0
    ensures |ProducerStep(ProducerStep(ProducerStep(s, val), val), val).buf| > 0
    ensures var s4 := ProducerStep(ProducerStep(ProducerStep(ProducerStep(s, val), val), val), val);
      && s4 == s.(buf := s.buf[Slot(s.tail, |s.buf|) := val], tail := (s.tail + 1) % SIZE_T,
        published := s.published + [val])
      && Inv(s4) && Live(s4) == Live(s) + [val]
  {
    var s1 := ProducerStep(s, val);
    ProducerKeepsInv(s, val);
    var s2 := ProducerStep(s1, val);
    ProducerKeepsInv(s1, val);
    var s3 := ProducerStep(s2, val);
    ProducerKeepsInv(s2, val);
    var s4 := ProducerStep(s3, val);
    ProducerKeepsInv(s3, val);
    hide Inv, Live;
    LiveIs(s);
    LiveIs(s4);
    Bounds(s);
    assert s4.published[|s.consumed|..] == s.published[|s.consumed|..] + [val];
  }

  lemma Bounds(s: State)
    requires Inv(s)
    ensures |s.consumed| <= |s.published|
  {
  }

  lemma FourConsumerSteps(s: State)
    requires Inv(s) && s.c == CIdle && 0 < |s.buf| && s.head != s.tail
    ensures |ConsumerStep(s).buf| > 0 && |ConsumerStep(ConsumerStep(s)).buf| > 0
    ensures |ConsumerStep(ConsumerStep(ConsumerStep(s))).buf| > 0
    ensures var out, s4 := s.buf[Slot(s.head, |s.buf|)], ConsumerStep(ConsumerStep(ConsumerStep(ConsumerStep(s))));
      && s4 == s.(head := (s.head + 1) % SIZE_T, consumed := s.consumed + [out])
      && Inv(s4) && Live(s) == [out] + Live(s4)
  {
    var s1 := ConsumerStep(s);
    ConsumerKeepsInv(s);
    var s2 := ConsumerStep(s1);
    ConsumerKeepsInv(s1);
    var s3 := ConsumerStep(s2);
    ConsumerKeepsInv(s2);
    var s4 := ConsumerStep(s3);
    ConsumerKeepsInv(s3);
    hide Live;
    LiveIs(s);
    LiveIs(s4);
    assert s4.consumed == s.published[..|s.consumed| + 1];
    assert s.published[|s.consumed|..] == [s.published[|s.consumed|]] + s.published[|s.consumed| + 1..];
  }

  class RingBuffer {
    const buf: array<int>
    const capacity: nat
    var head: nat
    var tail: nat
    ghost var published: seq<int>
    ghost var consumed: seq<int>

    /** The protocol state with both parties outside their calls. */
    ghost function View(): State
      reads this, buf
    {
      State(buf[..], head, tail, PIdle, CIdle, published, consumed)
    }

    ghost predicate Valid()
      reads this, buf
    {
      buf.Length == capacity && Inv(View())
    }

    ghost function Contents(): seq<int>
      requires Valid()
      reads this, buf
    {
      Live(View())
    }

    /** The capacity is rounded up to a power of two. */
    constructor (capacity: nat)
      requires capacity <= SIZE_T / 2
      ensures Valid() && fresh(buf) && Contents() == []
      ensures GoodCapacity(this.capacity) && capacity <= this.capacity
      ensures this.capacity == 1 || this.capacity < 2 * capacity
    {
      var c := NextPow2(capacity);
      this.capacity := c;
      buf := new int[c];
      head, tail := 0, 0;
      published, consumed := [], [];
      new;
      InitInv(buf[..]);
      LiveIs(View());
    }

    method Produce(val: int) returns (ok: bool)
      requires Valid()
      modifies this`tail, this`published, buf
      ensures Valid() && ok == (|old(Contents())| < capacity)
      ensures Contents() == if ok then old(Contents()) + [val] else old(Contents())
      ensures ok ==> View() == ProducerStep(ProducerStep(ProducerStep(ProducerStep(old(View()), val), val), val), val)
    {
      hide Inv, Live, Sub, Slot, ProducerStep;
      ghost var s0 := View();
      FullIff(s0);
      if Sub(tail, head) >= capacity { return false; }
      FourProducerSteps(s0, val);
      buf[Slot(tail, capacity)] := val;
      tail := (tail + 1) % SIZE_T;
      published := published + [val];
      assert View() == s0.(buf := s0.buf[Slot(s0.tail, |s0.buf|) := val], tail := (s0.tail + 1) % SIZE_T,
        published := s0.published + [val]);
      return true;
    }

    method Consume() returns (ok: bool, out: int)
      requires Valid()
      modifies this`head, this`consumed
      ensures Valid() && ok == (old(Contents()) != [])
      ensures ok ==> out == old(Contents())[0] && Contents() == old(Contents())[1..]
      ensures !ok ==> Contents() == []
      ensures ok ==> View() == ConsumerStep(ConsumerStep(ConsumerStep(ConsumerStep(old(View())))))
    {
      hide Inv, Live, Slot, ConsumerStep;
      ghost var s0 := View();
      out := 0;
      EmptyIff(s0);
      if head == tail { return false, out; }
      FourConsumerSteps(s0);
      out := buf[Slot(head, capacity)];
      head := (head + 1) % SIZE_T;
      consumed := consumed + [out];
      assert View() == s0.(head := (s0.head + 1) % SIZE_T, consumed := s0.consumed + [out]);
      return true, out;
    }
  }
}
