/** The wavelet tree over values 0 .. sigma - 1: building, rank, select, and the descent
    of quantile. A node is never changed once it is built, so it is a value. */
module WaveletTrees {

  datatype WTNode = Null | Node(lo: int, hi: int, bits: seq<bool>, left: WTNode, right: WTNode)

  function Mid(lo: nat, hi: nat): nat {
    (lo + hi) / 2
  }

  // ---- what goes left and what goes right --------------------------------------------------

  ghost function Low(s: seq<int>, mid: int): seq<int> {
    if s == [] then [] else (if s[0] <= mid then [s[0]] else []) + Low(s[1..], mid)
  }

  ghost function High(s: seq<int>, mid: int): seq<int> {
    if s == [] then [] else (if s[0] > mid then [s[0]] else []) + High(s[1..], mid)
  }

  lemma PartConcat(a: seq<int>, b: seq<int>, mid: int)
    ensures Low(a + b, mid) == Low(a, mid) + Low(b, mid)
    ensures High(a + b, mid) == High(a, mid) + High(b, mid)
  {
    LowConcat(a, b, mid);
    HighConcat(a, b, mid);
  }

  lemma {:induction false} LowConcat(a: seq<int>, b: seq<int>, mid: int)
    ensures Low(a + b, mid) == Low(a, mid) + Low(b, mid)
  {
    if a == [] {
      assert a + b == b;
    } else {
      assert (a + b)[1..] == a[1..] + b && (a + b)[0] == a[0];
      LowConcat(a[1..], b, mid);
      Associate(if a[0] <= mid then [a[0]] else [], Low(a[1..], mid), Low(b, mid));
    }
  }

  lemma {:induction false} HighConcat(a: seq<int>, b: seq<int>, mid: int)
    ensures High(a + b, mid) == High(a, mid) + High(b, mid)
  {
    if a == [] {
      assert a + b == b;
    } else {
      assert (a + b)[1..] == a[1..] + b && (a + b)[0] == a[0];
      HighConcat(a[1..], b, mid);
      Associate(if a[0] > mid then [a[0]] else [], High(a[1..], mid), High(b, mid));
    }
  }

  lemma Associate(a: seq<int>, b: seq<int>, c: seq<int>)
    ensures a + (b + c) == (a + b) + c
  {
  }

  lemma PartSnoc(s: seq<int>, i: nat, mid: int)
    requires i < |s|
    ensures Low(s[..i + 1], mid) == Low(s[..i], mid) + if s[i] <= mid then [s[i]] else []
    ensures High(s[..i + 1], mid) == High(s[..i], mid) + if s[i] > mid then [s[i]] else []
  {
    assert s[..i + 1] == s[..i] + [s[i]];
    PartConcat(s[..i], [s[i]], mid);
    PartOne(s[i], mid);
  }

  lemma PartOne(x: int, mid: int)
    ensures Low([x], mid) == if x <= mid then [x] else []
    ensures High([x], mid) == if x > mid then [x] else []
  {
  }

  ghost predicate Between(s: seq<int>, lo: int, hi: int) {
    forall i :: 0 <= i < |s| ==> lo <= s[i] <= hi
  }

  lemma {:induction false} PartBetween(s: seq<int>, lo: int, mid: int, hi: int)
    requires Between(s, lo, hi)
    ensures Between(Low(s, mid), lo, mid) && Between(High(s, mid), mid + 1, hi)
    ensures |Low(s, mid)| + |High(s, mid)| == |s|
  {
    if s != [] { PartBetween(s[1..], lo, mid, hi); }
  }

  /** A range of s is a range of either part. */
  lemma PartSlice(s: seq<int>, l: nat, e: nat, mid: int)
    requires l <= e <= |s|
    ensures var a, b := |Low(s[..l], mid)|, |Low(s[l..e], mid)|;
      a + b <= |Low(s, mid)| && Low(s, mid)[a..a + b] == Low(s[l..e], mid)
    ensures var a, b := |High(s[..l], mid)|, |High(s[l..e], mid)|;
      a + b <= |High(s, mid)| && High(s, mid)[a..a + b] == High(s[l..e], mid)
  {
    assert s == s[..l] + s[l..e] + s[e..];
    PartConcat(s[..l] + s[l..e], s[e..], mid);
    PartConcat(s[..l], s[l..e], mid);
  }

  // ---- counting ----------------------------------------------------------------------------

  ghost function Count(s: seq<int>, c: int): nat {
    if s == [] then 0 else (if s[0] == c then 1 else 0) + Count(s[1..], c)
  }

  ghost function CountBelow(s: seq<int>, c: int): nat {
    if s == [] then 0 else (if s[0] < c then 1 else 0) + CountBelow(s[1..], c)
  }

  lemma {:induction false} CountConcat(a: seq<int>, b: seq<int>, c: int)
    ensures Count(a + b, c) == Count(a, c) + Count(b, c)
  {
    if a == [] {
      assert a + b == b;
    } else {
      assert (a + b)[0] == a[0] && (a + b)[1..] == a[1..] + b;
      CountConcat(a[1..], b, c);
    }
  }

  /** Every value is counted in the part it goes to. */
  lemma {:induction false} CountParts(s: seq<int>, mid: int, c: int)
    ensures Count(s, c) == Count(if c <= mid then Low(s, mid) else High(s, mid), c)
    ensures c <= mid + 1 ==> CountBelow(s, c) == CountBelow(Low(s, mid), c)
    ensures c > mid ==> CountBelow(s, c) == |Low(s, mid)| + CountBelow(High(s, mid), c)
  {
    if s != [] {
      CountParts(s[1..], mid, c);
      var l, h := Low(s[1..], mid), High(s[1..], mid);
      assert ([s[0]] + l)[1..] == l && ([s[0]] + h)[1..] == h;
      assert [] + l == l && [] + h == h;
    }
  }

  lemma {:induction false} CountBounds(s: seq<int>, c: int)
    ensures CountBelow(s, c) + Count(s, c) <= |s|
  {
    if s != [] { CountBounds(s[1..], c); }
  }

  lemma {:induction false} CountOutside(s: seq<int>, lo: int, hi: int, c: int)
    requires Between(s, lo, hi)
    ensures c > hi ==> CountBelow(s, c) == |s| && Count(s, c) == 0
    ensures c < lo ==> CountBelow(s, c) == 0 && Count(s, c) == 0
    ensures lo == hi == c ==> Count(s, c) == |s| && CountBelow(s, c) == 0
  {
    if s != [] { CountOutside(s[1..], lo, hi, c); }
  }

  /** v is the k-th smallest element of s, counting from 1. */
  ghost predicate IsKth(s: seq<int>, k: int, v: int) {
    CountBelow(s, v) < k <= CountBelow(s, v) + Count(s, v)
  }

  lemma {:induction false} CountMonotone(s: seq<int>, v: int, w: int)
    requires v < w
    ensures CountBelow(s, v) + Count(s, v) <= CountBelow(s, w)
  {
    if s != [] { CountMonotone(s[1..], v, w); }
  }

  lemma KthUnique(s: seq<int>, k: int, v: int, w: int)
    requires IsKth(s, k, v) && IsKth(s, k, w)
    ensures v == w
  {
    if v < w { CountMonotone(s, v, w); }
    if w < v { CountMonotone(s, w, v); }
  }

  /** One step of the descent keeps the k-th smallest. */
  lemma KthStep(s: seq<int>, lo: int, mid: int, hi: int, k: int, v: int)
    requires Between(s, lo, hi) && lo <= mid < hi
    ensures k <= |Low(s, mid)| ==> (IsKth(s, k, v) <==> IsKth(Low(s, mid), k, v))
    ensures k > |Low(s, mid)| ==> (IsKth(s, k, v) <==> IsKth(High(s, mid), k - |Low(s, mid)|, v))
  {
    PartBetween(s, lo, mid, hi);
    CountParts(s, mid, v);
    CountOutside(Low(s, mid), lo, mid, v);
    CountOutside(High(s, mid), mid + 1, hi, v);
    CountBounds(Low(s, mid), v);
    CountBounds(High(s, mid), v);
  }

  /** One step of rank: the first i elements, in the coordinates of the child d goes to. */
  lemma RankStep(s: seq<int>, i: nat, mid: int, d: int)
    requires i <= |s|
    ensures var z, o := |Low(s[0..i], mid)|, |High(s[0..i], mid)|;
      && z <= |Low(s, mid)| && o <= |High(s, mid)|
      && Count(s[..i], d) == if d <= mid then Count(Low(s, mid)[..z], d) else Count(High(s, mid)[..o], d)
  {
    PartSlice(s, 0, i, mid);
    assert s[0..i] == s[..i] && s[..0] == [];
    CountParts(s[..i], mid, d);
    var z, o := |Low(s[..i], mid)|, |High(s[..i], mid)|;
    assert Low(s, mid)[0..z] == Low(s, mid)[..z] && High(s, mid)[0..o] == High(s, mid)[..o];
  }

  lemma RankEnd(s: seq<int>, i: nat, lo: nat, hi: nat, d: int)
    requires Represents(Null, s, lo, hi) && i <= |s| && lo <= d <= hi
    ensures Count(s[..i], d) == i
  {
    if s != [] { CountOutside(s[..i], lo, hi, d); }
  }

  ghost predicate SameKth(s: seq<int>, k: int, t: seq<int>, m: int) {
    forall v :: IsKth(s, k, v) <==> IsKth(t, m, v)
  }

  lemma SameKthSelf(s: seq<int>, k: int)
    ensures SameKth(s, k, s, k)
  {
  }

  /** One step of the descent of quantile, in the coordinates of the children. */
  lemma DescentStep(s: seq<int>, lo: int, mid: int, hi: int, l: nat, r: nat, k: int, t: seq<int>, m: int)
    requires Between(s, lo, hi) && lo <= mid < hi && l <= r < |s| && 1 <= k <= r - l + 1
    requires SameKth(s[l..r + 1], k, t, m)
    ensures var z, a := |Low(s[l..r + 1], mid)|, |Low(s[..l], mid)|;
      k <= z ==> a + z <= |Low(s, mid)| && SameKth(Low(s, mid)[a..a + z], k, t, m)
    ensures var z, o, b := |Low(s[l..r + 1], mid)|, |High(s[l..r + 1], mid)|, |High(s[..l], mid)|;
      k > z ==> b + o <= |High(s, mid)| && k - z <= o && SameKth(High(s, mid)[b..b + o], k - z, t, m)
  {
    var w := s[l..r + 1];
    PartSlice(s, l, r + 1, mid);
    SliceBetween(s, l, r + 1, lo, hi);
    PartBetween(w, lo, mid, hi);
    forall v
      ensures k <= |Low(w, mid)| ==> (IsKth(w, k, v) <==> IsKth(Low(w, mid), k, v))
      ensures k > |Low(w, mid)| ==> (IsKth(w, k, v) <==> IsKth(High(w, mid), k - |Low(w, mid)|, v))
    {
      KthStep(w, lo, mid, hi, k, v);
    }
  }

  /** A range over a one-letter alphabet has that letter at every rank. */
  lemma DescentEnd(s: seq<int>, lo: int, l: nat, r: nat, k: int, t: seq<int>, m: int)
    requires Between(s, lo, lo) && l <= r < |s| && 1 <= k <= r - l + 1 && SameKth(s[l..r + 1], k, t, m)
    ensures IsKth(t, m, lo)
  {
    SliceBetween(s, l, r + 1, lo, lo);
    CountOutside(s[l..r + 1], lo, lo, lo);
    assert IsKth(s[l..r + 1], k, lo);
  }

  // ---- the tree ----------------------------------------------------------------------------

  /** node is the wavelet tree of s over lo .. hi. */
  ghost predicate Represents(node: WTNode, s: seq<int>, lo: nat, hi: nat)
    decreases node
  {
    && Between(s, lo, hi)
    && match node
       case Null => s == [] || lo == hi
       case Node(l, h, bits, left, right) =>
         && l == lo < hi == h && |bits| == |s|
         && (forall i :: 0 <= i < |s| ==> bits[i] == (s[i] > Mid(lo, hi)))
         && Represents(left, Low(s, Mid(lo, hi)), lo, Mid(lo, hi))
         && Represents(right, High(s, Mid(lo, hi)), Mid(lo, hi) + 1, hi)
  }

  lemma Children(node: WTNode, s: seq<int>, lo: nat, hi: nat)
    requires node.Node? && Represents(node, s, lo, hi)
    ensures node.lo == lo < hi == node.hi && Between(s, lo, hi) && lo <= Mid(lo, hi) < hi
    ensures |node.bits| == |s| && forall i :: 0 <= i < |s| ==> node.bits[i] == (s[i] > Mid(lo, hi))
    ensures Represents(node.left, Low(s, Mid(lo, hi)), lo, Mid(lo, hi))
    ensures Represents(node.right, High(s, Mid(lo, hi)), Mid(lo, hi) + 1, hi)
  {
  }

  lemma NoChildren(s: seq<int>, lo: nat, hi: nat)
    requires Represents(Null, s, lo, hi) && s != []
    ensures lo == hi && Between(s, lo, lo)
  {
  }

  method Build(s: seq<int>, lo: nat, hi: nat) returns (node: WTNode)
    requires lo <= hi && Between(s, lo, hi)
    ensures Represents(node, s, lo, hi)
    decreases hi - lo
  {
    hide Represents, Low, High, Mid;
    if |s| == 0 || lo == hi {
      Childless(s, lo, hi);
      return Null;
    }
    MidBetween(lo, hi);
    PartNone(Mid(lo, hi));
    var mid := Mid(lo, hi);
    var left, right: seq<int> := [], [];
    var bits := seq(|s|, _ => false);
    assert s[..0] == [];
    for i := 0 to |s|
      invariant left == Low(s[..i], mid) && right == High(s[..i], mid)
      invariant |bits| == |s| && forall j :: 0 <= j < i ==> bits[j] == (s[j] > mid)
      invariant forall j :: i <= j < |s| ==> !bits[j]
    {
      PartSnoc(s, i, mid);
      if s[i] <= mid {
        left := left + [s[i]];
      } else {
        bits := bits[i := true];
        right := right + [s[i]];
      }
    }
    assert s[..|s|] == s;
    PartBetween(s, lo, mid, hi);
    var l := Build(left, lo, mid);
    var r := Build(right, mid + 1, hi);
    node := Node(lo, hi, bits, l, r);
    Joined(s, lo, hi, bits, l, r);
  }

  lemma Childless(s: seq<int>, lo: nat, hi: nat)
    requires Between(s, lo, hi) && (s == [] || lo == hi)
    ensures Represents(Null, s, lo, hi)
  {
  }

  lemma Joined(s: seq<int>, lo: nat, hi: nat, bits: seq<bool>, l: WTNode, r: WTNode)
    requires Between(s, lo, hi) && lo < hi && |bits| == |s|
    requires forall i :: 0 <= i < |s| ==> bits[i] == (s[i] > Mid(lo, hi))
    requires Represents(l, Low(s, Mid(lo, hi)), lo, Mid(lo, hi))
    requires Represents(r, High(s, Mid(lo, hi)), Mid(lo, hi) + 1, hi)
    ensures Represents(Node(lo, hi, bits, l, r), s, lo, hi)
  {
  }

  lemma MidBetween(lo: nat, hi: nat)
    requires lo < hi
    ensures lo <= Mid(lo, hi) < hi
  {
  }

  lemma PartNone(mid: int)
    ensures Low([], mid) == [] && High([], mid) == []
  {
  }

  lemma NoParts(s: seq<int>, l: nat, mid: int)
    requires l <= |s|
    ensures Low(s[l..l], mid) == High(s[l..l], mid) == []
  {
    assert s[l..l] == [];
  }

  lemma OneMore(s: seq<int>, l: nat, i: nat, mid: int)
    requires l <= i < |s|
    ensures |Low(s[l..i + 1], mid)| == |Low(s[l..i], mid)| + if s[i] <= mid then 1 else 0
    ensures |High(s[l..i + 1], mid)| == |High(s[l..i], mid)| + if s[i] > mid then 1 else 0
  {
    assert s[l..i + 1] == s[l..i] + [s[i]];
    PartConcat(s[l..i], [s[i]], mid);
    PartOne(s[i], mid);
  }

  /** Bits set and bits clear in [l, e). */
  method CountBits(bits: seq<bool>, l: nat, e: nat, ghost s: seq<int>, ghost mid: int) returns (zeros: nat, ones: nat)
    requires l <= e <= |bits| == |s| && forall i :: 0 <= i < |s| ==> bits[i] == (s[i] > mid)
    ensures zeros == |Low(s[l..e], mid)| && ones == |High(s[l..e], mid)| && zeros + ones == e - l
  {
    hide Low, High;
    zeros, ones := 0, 0;
    NoParts(s, l, mid);
    for i := l to e
      invariant zeros == |Low(s[l..i], mid)| && ones == |High(s[l..i], mid)| && zeros + ones == i - l
    {
      OneMore(s, l, i, mid);
      if bits[i] { ones := ones + 1; } else { zeros := zeros + 1; }
    }
  }

  /** The letter a descent has come to, or -1 at an empty child. */
  function Letter(node: WTNode): int {
    if node.Node? then node.lo else -1
  }

  function Clamped(c: int, sigma: nat): int
    requires sigma > 0
  {
    if c < 0 then 0 else if c >= sigma then sigma - 1 else c
  }

  class WaveletTree {
    const values: seq<int>
    const sigma: nat
    const root: WTNode

    ghost predicate Valid() {
      sigma > 0 && Represents(root, values, 0, sigma - 1)
    }

    constructor (s: seq<int>, sigma: nat)
      requires sigma > 0 && Between(s, 0, sigma - 1)
      ensures Valid() && values == s && this.sigma == sigma
    {
      var r := Build(s, 0, sigma - 1);
      values := s;
      this.sigma := sigma;
      root := r;
    }

    /** How often c occurs among the first i0 values; a c outside the alphabet is taken for
        the nearest letter. */
    method Rank(c: int, i0: nat) returns (i: nat)
      requires Valid() && i0 <= |values|
      ensures i == Count(values[..i0], Clamped(c, sigma))
      ensures 0 <= c < sigma ==> i == Count(values[..i0], c)
    {
      hide Low, High, Between, Count, Represents, Mid;
      i := i0;
      var node := root;
      ghost var d := Clamped(c, sigma);
      ghost var s, lo: nat, hi: nat := values, 0, sigma - 1;
      while node.Node?
        invariant Represents(node, s, lo, hi) && i <= |s| && lo <= d <= hi
        invariant c < lo ==> d == lo
        invariant c > hi ==> d == hi
        invariant lo <= c <= hi ==> d == c
        invariant Count(s[..i], d) == Count(values[..i0], d)
        decreases node
      {
        Children(node, s, lo, hi);
        var mid := Mid(node.lo, node.hi);
        var zeros, ones := CountBits(node.bits, 0, i, s, mid);
        RankStep(s, i, mid, d);
        if c <= mid {
          i := zeros;
          node := node.left;
          s, hi := Low(s, mid), mid;
        } else {
          i := ones;
          node := node.right;
          s, lo := High(s, mid), mid + 1;
        }
      }
      RankEnd(s, i, lo, hi, d);
    }

    /** The position of the k-th occurrence of c, counting from 1, or -1. */
    method Select(c: int, k: int) returns (p: int)
      requires Valid()
      ensures p == -1 <==> k <= 0 || Count(values, c) < k
      ensures p != -1 ==> 0 <= p < |values| && values[p] == c && Count(values[..p], c) == k - 1
    {
      var cnt := 0;
      assert values[..0] == [];
      for i := 0 to |values|
        invariant cnt == Count(values[..i], c) && (k <= 0 || cnt < k)
      {
        CountSnoc(values, i, c);
        if values[i] == c {
          cnt := cnt + 1;
          if cnt == k {
            CountPrefix(values, i + 1, c);
            return i;
          }
        }
      }
      assert values[..|values|] == values;
      return -1;
    }

    /** The descent ends with the alphabet narrowed down to the k-th smallest value of
        [l0, r0], but always at an empty child, so that -1 is returned. */
    method Quantile(l0: nat, r0: nat, k0: int) returns (q: int, ghost reached: int)
      requires Valid() && l0 <= r0 < |values| && 1 <= k0 <= r0 - l0 + 1
      ensures q == -1
      ensures IsKth(values[l0..r0 + 1], k0, reached) && 0 <= reached < sigma
    {
      hide SameKth, Low, High, Between, IsKth, Represents, Mid;
      SameKthSelf(values[l0..r0 + 1], k0);
      var l, r, k := l0, r0, k0;
      var node := root;
      ghost var s, lo: nat, hi: nat := values, 0, sigma - 1;
      while node.Node? && node.lo < node.hi
        invariant Represents(node, s, lo, hi) && 0 <= lo <= hi < sigma
        invariant 0 <= l <= r < |s| && 1 <= k <= r - l + 1
        invariant SameKth(s[l..r + 1], k, values[l0..r0 + 1], k0)
        decreases node
      {
        Children(node, s, lo, hi);
        var mid := Mid(node.lo, node.hi);
        var zeros, ones := CountBits(node.bits, l, r + 1, s, mid);
        var lz, lone := CountBits(node.bits, 0, l, s, mid);
        assert s[0..l] == s[..l];
        DescentStep(s, lo, mid, hi, l, r, k, values[l0..r0 + 1], k0);
        if k <= zeros {
          l := lz;
          r := lz + zeros - 1;
          node := node.left;
          s, hi := Low(s, mid), mid;
        } else {
          k := k - zeros;
          l := lone;
          r := lone + ones - 1;
          node := node.right;
          s, lo := High(s, mid), mid + 1;
        }
      }
      if node.Node? { Children(node, s, lo, hi); } else { NoChildren(s, lo, hi); }
      reached := lo;
      DescentEnd(s, lo, l, r, k, values[l0..r0 + 1], k0);
      q := Letter(node);
    }
  }

  lemma SliceBetween(s: seq<int>, l: nat, e: nat, lo: int, hi: int)
    requires l <= e <= |s| && Between(s, lo, hi)
    ensures Between(s[l..e], lo, hi)
  {
  }

  lemma CountSnoc(s: seq<int>, i: nat, c: int)
    requires i < |s|
    ensures Count(s[..i + 1], c) == Count(s[..i], c) + if s[i] == c then 1 else 0
  {
    assert s[..i + 1] == s[..i] + [s[i]];
    CountConcat(s[..i], [s[i]], c);
  }

  /** The position with letter c and rank m is unique, so rank and select undo each other. */
  lemma OccurrenceUnique(s: seq<int>, c: int, p: nat, q: nat)
    requires p < |s| && q < |s| && s[p] == c && s[q] == c && Count(s[..p], c) == Count(s[..q], c)
    ensures p == q
  {
    if p < q { CountLater(s, c, p, q); }
    if q < p { CountLater(s, c, q, p); }
  }

  lemma CountLater(s: seq<int>, c: int, p: nat, q: nat)
    requires p < q <= |s| && s[p] == c
    ensures Count(s[..p], c) < Count(s[..q], c)
  {
    CountSnoc(s, p, c);
    CountPrefix(s[..q], p + 1, c);
    assert s[..q][..p + 1] == s[..p + 1];
  }

  lemma CountPrefix(s: seq<int>, i: nat, c: int)
    requires i <= |s|
    ensures Count(s[..i], c) <= Count(s, c)
  {
    assert s == s[..i] + s[i..];
    CountConcat(s[..i], s[i..], c);
  }
}
