/** Counting the ascents of an array under range additions, with a lazy segment tree. */
module Ascents {
  import opened Basics

  const MAX_VALUE := 2000000000
  const MIN_VALUE := 0
  const INF := 1000000000000000

  /** A greatest and a least value. */
  datatype Bounds = Bounds(max: int, min: int)

  function Join(p: Bounds, q: Bounds): Bounds {
    Bounds(Max(p.max, q.max), Min(p.min, q.min))
  }

  function Plus(p: Bounds, d: int): Bounds {
    Bounds(p.max + d, p.min + d)
  }

  const NOTHING := Bounds(-INF, INF)

  /** A node of the tree; `lazy` is still to be added to everything at and below the node. */
  datatype Cell = Cell(max: int, min: int, lazy: int) {
    function Top(): Bounds {
      Bounds(max + lazy, min + lazy)
    }
  }

  // ----- sequences of bounds -----

  function Shift(v: seq<Bounds>, d: int): (r: seq<Bounds>)
    ensures |r| == |v| && forall p :: 0 <= p < |v| ==> r[p] == Plus(v[p], d)
  {
    seq(|v|, p requires 0 <= p < |v| => Plus(v[p], d))
  }

  /** Adds `d` at the positions from `lo` to `hi`. */
  function AddRange(v: seq<Bounds>, lo: int, hi: int, d: int): (r: seq<Bounds>)
    ensures |r| == |v| && forall p :: 0 <= p < |v| ==> r[p] == if lo <= p <= hi then Plus(v[p], d) else v[p]
  {
    seq(|v|, p requires 0 <= p < |v| => if lo <= p <= hi then Plus(v[p], d) else v[p])
  }

  lemma AddRangeConcat(v: seq<Bounds>, w: seq<Bounds>, lo: int, hi: int, d: int)
    ensures AddRange(v + w, lo, hi, d) == AddRange(v, lo, hi, d) + AddRange(w, lo - |v|, hi - |v|, d)
  {
  }

  lemma ShiftZero(v: seq<Bounds>)
    ensures Shift(v, 0) == v
  {
    assert forall p :: 0 <= p < |v| ==> Plus(v[p], 0) == v[p];
  }

  lemma ShiftTwice(v: seq<Bounds>, w: seq<Bounds>, c: int, d: int)
    ensures Shift(Shift(v, c), d) == Shift(v, c + d)
    ensures Shift(v, d) + Shift(w, d) == Shift(v + w, d)
  {
  }

  /** The greatest and the least of the values at the positions from `lo` to `hi`. */
  function Within(v: seq<Bounds>, lo: int, hi: int): Bounds {
    if v == [] then NOTHING
    else
      var last := |v| - 1;
      Join(Within(v[..last], lo, hi), if lo <= last <= hi then v[last] else NOTHING)
  }

  predicate InBounds(v: seq<Bounds>) {
    forall p :: 0 <= p < |v| ==> v[p].max >= -INF && v[p].min <= INF
  }

  lemma {:induction false} WithinLimits(v: seq<Bounds>, lo: int, hi: int)
    ensures Within(v, lo, hi).max >= -INF && Within(v, lo, hi).min <= INF
  {
    if v != [] { WithinLimits(v[..|v| - 1], lo, hi); }
  }

  lemma {:induction false} WithinConcat(v: seq<Bounds>, w: seq<Bounds>, lo: int, hi: int)
    ensures Within(v + w, lo, hi) == Join(Within(v, lo, hi), Within(w, lo - |v|, hi - |v|))
    decreases |w|
  {
    if w == [] {
      assert v + w == v;
      WithinLimits(v, lo, hi);
    } else {
      var front := w[..|w| - 1];
      assert (v + w)[..|v + w| - 1] == v + front;
      WithinConcat(v, front, lo, hi);
    }
  }

  /** The same for positions that are counted from `a` on the left and from `c` on the right. */
  lemma WithinBoth(v: seq<Bounds>, w: seq<Bounds>, a: int, c: int, i: int, j: int)
    requires c == a + |v|
    ensures Within(v + w, i - a, j - a).max == Max(Within(v, i - a, j - a).max, Within(w, i - c, j - c).max)
    ensures Within(v + w, i - a, j - a).min == Min(Within(v, i - a, j - a).min, Within(w, i - c, j - c).min)
  {
    WithinConcat(v, w, i - a, j - a);
    assert i - a - |v| == i - c && j - a - |v| == j - c;
  }

  lemma AddRangeBoth(v: seq<Bounds>, w: seq<Bounds>, a: int, c: int, i: int, j: int, d: int)
    requires c == a + |v|
    ensures AddRange(v + w, i - a, j - a, d) == AddRange(v, i - a, j - a, d) + AddRange(w, i - c, j - c, d)
  {
    AddRangeConcat(v, w, i - a, j - a, d);
    assert i - a - |v| == i - c && j - a - |v| == j - c;
  }

  lemma {:induction false} WithinNone(v: seq<Bounds>, lo: int, hi: int)
    requires hi < 0 || lo >= |v|
    ensures Within(v, lo, hi) == NOTHING
  {
    if v != [] { WithinNone(v[..|v| - 1], lo, hi); }
  }

  /** What `Within` means. */
  lemma {:induction false} WithinIsExtreme(v: seq<Bounds>, lo: int, hi: int)
    requires 0 <= lo <= hi < |v| && InBounds(v)
    ensures forall p :: lo <= p <= hi ==> v[p].max <= Within(v, lo, hi).max && v[p].min >= Within(v, lo, hi).min
    ensures exists p :: lo <= p <= hi && v[p].max == Within(v, lo, hi).max
    ensures exists p :: lo <= p <= hi && v[p].min == Within(v, lo, hi).min
  {
    var front := v[..|v| - 1];
    assert forall p :: 0 <= p < |front| ==> front[p] == v[p];
    if hi < |front| {
      WithinIsExtreme(front, lo, hi);
      assert Within(v, lo, hi) == Join(Within(front, lo, hi), NOTHING);
      WithinLimits(front, lo, hi);
    } else if lo < |front| {
      WithinIsExtreme(front, lo, hi - 1);
      WithinTail(front, lo, hi);
      var p :| lo <= p <= hi - 1 && front[p].max == Within(front, lo, hi - 1).max;
      var q :| lo <= q <= hi - 1 && front[q].min == Within(front, lo, hi - 1).min;
      assert v[p].max == front[p].max && v[q].min == front[q].min;
      assert Within(v, lo, hi) == Join(Within(front, lo, hi), v[hi]);
    } else {
      WithinNone(front, lo, hi);
      assert Within(v, lo, hi) == Join(NOTHING, v[hi]);
      assert v[hi].max == Within(v, lo, hi).max && v[hi].min == Within(v, lo, hi).min;
    }
  }

  lemma {:induction false} WithinTail(v: seq<Bounds>, lo: int, hi: int)
    requires hi == |v|
    ensures Within(v, lo, hi) == Within(v, lo, hi - 1)
  {
    WithinSame(v, lo, hi, hi - 1);
  }

  lemma {:induction false} WithinSame(v: seq<Bounds>, lo: int, hi: int, hi': int)
    requires hi >= |v| - 1 && hi' >= |v| - 1
    ensures Within(v, lo, hi) == Within(v, lo, hi')
  {
    if v != [] { WithinSame(v[..|v| - 1], lo, hi, hi'); }
  }

  /** The bounds of all values. */
  function All(v: seq<Bounds>): Bounds
    requires v != []
  {
    if |v| == 1 then v[0] else Join(All(v[..|v| - 1]), v[|v| - 1])
  }

  lemma {:induction false} AllConcat(v: seq<Bounds>, w: seq<Bounds>)
    requires v != [] && w != []
    ensures All(v + w) == Join(All(v), All(w))
    decreases |w|
  {
    assert (v + w)[..|v + w| - 1] == v + w[..|w| - 1];
    if |w| == 1 {
      assert v + w[..0] == v;
    } else {
      AllConcat(v, w[..|w| - 1]);
    }
  }

  lemma {:induction false} AllShift(v: seq<Bounds>, d: int)
    requires v != []
    ensures All(Shift(v, d)) == Plus(All(v), d)
    decreases |v|
  {
    if |v| > 1 {
      assert Shift(v, d)[..|v| - 1] == Shift(v[..|v| - 1], d);
      AllShift(v[..|v| - 1], d);
    }
  }

  lemma {:induction false} WithinAll(v: seq<Bounds>, lo: int, hi: int)
    requires v != [] && InBounds(v) && lo <= 0 && hi >= |v| - 1
    ensures Within(v, lo, hi) == All(v)
    decreases |v|
  {
    var front := v[..|v| - 1];
    assert forall p :: 0 <= p < |front| ==> front[p] == v[p];
    assert v[|v| - 1].max >= -INF && v[|v| - 1].min <= INF;
    if |v| > 1 {
      WithinAll(front, lo, hi);
    } else {
      assert Within(front, lo, hi) == NOTHING;
    }
  }

  // ----- the tree as a sequence of cells -----

  /** Node `node` has `h` levels below it in a tree of `size` cells. */
  predicate Fits(size: nat, node: nat, h: nat)
    decreases h
  {
    1 <= node < size && (h > 0 ==> Fits(size, 2 * node, h - 1) && Fits(size, 2 * node + 1, h - 1))
  }

  /** The values at the leaves below a node. */
  function Values(s: seq<Cell>, node: nat, h: nat): (v: seq<Bounds>)
    requires Fits(|s|, node, h)
    ensures |v| == Pow2(h)
    decreases h
  {
    if h == 0 then [s[node].Top()]
    else Shift(Values(s, 2 * node, h - 1) + Values(s, 2 * node + 1, h - 1), s[node].lazy)
  }

  /** Each inner node has the bounds of its children. */
  predicate Ok(s: seq<Cell>, node: nat, h: nat)
    requires Fits(|s|, node, h)
    decreases h
  {
    h > 0 ==>
      && Ok(s, 2 * node, h - 1) && Ok(s, 2 * node + 1, h - 1)
      && Bounds(s[node].max, s[node].min) == Join(s[2 * node].Top(), s[2 * node + 1].Top())
  }

  /** Cell `x` is at or below `node`. */
  predicate Sub(node: nat, x: nat)
    decreases x
  {
    node >= 1 && (x == node || (x > node && Sub(node, x / 2)))
  }

  /** Nothing changed at or below `node`. */
  predicate SameBelow(s: seq<Cell>, t: seq<Cell>, node: nat) {
    |s| == |t| && forall x :: 0 <= x < |s| && Sub(node, x) ==> s[x] == t[x]
  }

  /** Nothing changed outside of the cells at or below `node`. */
  predicate SameOutside(s: seq<Cell>, t: seq<Cell>, node: nat) {
    |s| == |t| && forall x :: 0 <= x < |s| && !Sub(node, x) ==> s[x] == t[x]
  }

  lemma {:induction false} SubChild(node: nat, x: nat)
    requires node >= 1
    ensures Sub(2 * node, x) || Sub(2 * node + 1, x) ==> Sub(node, x) && x != node
    ensures !(Sub(2 * node, x) && Sub(2 * node + 1, x))
    decreases x
  {
    if x > 2 * node { SubChild(node, x / 2); }
    assert Sub(node, node);
  }

  lemma {:induction false} SameValues(s: seq<Cell>, t: seq<Cell>, node: nat, h: nat)
    requires Fits(|s|, node, h) && SameBelow(s, t, node)
    ensures Values(s, node, h) == Values(t, node, h) && Ok(s, node, h) == Ok(t, node, h)
    decreases h
  {
    assert Sub(node, node);
    if h > 0 {
      BelowChildren(s, t, node);
      assert Sub(2 * node, 2 * node) && Sub(2 * node + 1, 2 * node + 1);
      SameValues(s, t, 2 * node, h - 1);
      SameValues(s, t, 2 * node + 1, h - 1);
    }
  }

  lemma BelowChildren(s: seq<Cell>, t: seq<Cell>, node: nat)
    requires node >= 1 && |s| == |t| && forall x :: 0 <= x < |s| && Sub(node, x) && x != node ==> s[x] == t[x]
    ensures SameBelow(s, t, 2 * node) && SameBelow(s, t, 2 * node + 1)
  {
    forall x | 0 <= x < |s| ensures Sub(2 * node, x) || Sub(2 * node + 1, x) ==> s[x] == t[x] {
      SubChild(node, x);
    }
  }

  /** `t` is `s` with `d` more to be added at `node`; outside of the subtree anything may differ. */
  predicate LazyAdded(s: seq<Cell>, t: seq<Cell>, node: nat, d: int) {
    && |s| == |t| && 1 <= node < |s| && t[node] == s[node].(lazy := s[node].lazy + d)
    && forall x :: 0 <= x < |s| && Sub(node, x) && x != node ==> s[x] == t[x]
  }

  lemma {:induction false} AddLazy(s: seq<Cell>, t: seq<Cell>, node: nat, h: nat, d: int)
    requires Fits(|s|, node, h) && LazyAdded(s, t, node, d)
    ensures Values(t, node, h) == Shift(Values(s, node, h), d) && Ok(t, node, h) == Ok(s, node, h)
  {
    if h > 0 {
      BelowChildren(s, t, node);
      SameValues(s, t, 2 * node, h - 1);
      SameValues(s, t, 2 * node + 1, h - 1);
      assert Sub(2 * node, 2 * node) && Sub(2 * node + 1, 2 * node + 1);
      var both := Values(s, 2 * node, h - 1) + Values(s, 2 * node + 1, h - 1);
      ShiftTwice(both, [], s[node].lazy, d);
    }
  }

  lemma {:induction false} TopIsAll(s: seq<Cell>, node: nat, h: nat)
    requires Fits(|s|, node, h) && Ok(s, node, h)
    ensures s[node].Top() == All(Values(s, node, h))
    decreases h
  {
    if h > 0 {
      hide Values, Ok, Fits, All;
      var v, w := TopOfChildren(s, node, h);
      TopIsAll(s, 2 * node, h - 1);
      TopIsAll(s, 2 * node + 1, h - 1);
      AllConcat(v, w);
      AllShift(v + w, s[node].lazy);
    }
  }

  lemma TopOfChildren(s: seq<Cell>, node: nat, h: nat) returns (v: seq<Bounds>, w: seq<Bounds>)
    requires h > 0 && Fits(|s|, node, h) && Ok(s, node, h)
    ensures Fits(|s|, 2 * node, h - 1) && Fits(|s|, 2 * node + 1, h - 1) && Ok(s, 2 * node, h - 1) && Ok(s, 2 * node + 1, h - 1)
    ensures v == Values(s, 2 * node, h - 1) && w == Values(s, 2 * node + 1, h - 1) && v != [] && w != []
    ensures 1 <= node && 2 * node + 1 < |s| && Values(s, node, h) == Shift(v + w, s[node].lazy)
    ensures s[node].Top() == Plus(Join(s[2 * node].Top(), s[2 * node + 1].Top()), s[node].lazy)
  {
    hide Pow2;
    v, w := Values(s, 2 * node, h - 1), Values(s, 2 * node + 1, h - 1);
  }

  // ----- pushing -----

  /** What is left to be added at a node is added to it and handed to its children. */
  function Pushed(s: seq<Cell>, node: nat, h: nat): (t: seq<Cell>)
    requires Fits(|s|, node, h)
    ensures |t| == |s|
  {
    var (c, d) := (s[node], s[node].lazy);
    var own := s[node := Cell(c.max + d, c.min + d, 0)];
    if h == 0 then own
    else
      assert Fits(|s|, 2 * node, h - 1) && Fits(|s|, 2 * node + 1, h - 1);
      var (l, r) := (s[2 * node], s[2 * node + 1]);
      own[2 * node := l.(lazy := l.lazy + d)][2 * node + 1 := r.(lazy := r.lazy + d)]
  }

  lemma {:induction false} PushKeeps(s: seq<Cell>, node: nat, h: nat)
    requires Fits(|s|, node, h) && Ok(s, node, h)
    ensures var t := Pushed(s, node, h);
      && Values(t, node, h) == Values(s, node, h) && Ok(t, node, h) && SameOutside(s, t, node)
      && t[node].lazy == 0 && t[node].Top() == s[node].Top()
  {
    var (t, d) := (Pushed(s, node, h), s[node].lazy);
    PushedFrame(s, node, h);
    if h > 0 {
      var (l, r) := (2 * node, 2 * node + 1);
      assert Fits(|s|, l, h - 1) && Fits(|s|, r, h - 1);
      hide Sub, Shift, SameOutside, Fits, Pushed;
      AddLazy(s, t, l, h - 1, d);
      AddLazy(s, t, r, h - 1, d);
      var (v, w) := (Values(s, l, h - 1), Values(s, r, h - 1));
      ShiftTwice(v, w, 0, d);
      ShiftZero(Shift(v + w, d));
    }
  }

  lemma PushedFrame(s: seq<Cell>, node: nat, h: nat)
    requires Fits(|s|, node, h)
    ensures SameOutside(s, Pushed(s, node, h), node)
    ensures h > 0 ==> LazyAdded(s, Pushed(s, node, h), 2 * node, s[node].lazy)
    ensures h > 0 ==> LazyAdded(s, Pushed(s, node, h), 2 * node + 1, s[node].lazy)
  {
    hide Sub, LazyAdded, SameOutside, Pushed, Fits;
    PushedCells(s, node, h);
    var (t, d) := (Pushed(s, node, h), s[node].lazy);
    if h > 0 {
      PushedChild(s, t, node, 2 * node, d);
      PushedChild(s, t, node, 2 * node + 1, d);
    } else {
      OutsideHere(s, t, node);
    }
  }

  /** The cells that change. */
  lemma PushedCells(s: seq<Cell>, node: nat, h: nat)
    requires Fits(|s|, node, h)
    ensures 1 <= node < |s| && (h == 0 ==> Pushed(s, node, h) == s[node := Pushed(s, node, h)[node]])
    ensures h > 0 ==>
      (var (t, l, r, d) := (Pushed(s, node, h), 2 * node, 2 * node + 1, s[node].lazy);
       && r < |s| && t[l] == s[l].(lazy := s[l].lazy + d) && t[r] == s[r].(lazy := s[r].lazy + d)
       && forall x :: 0 <= x < |s| && x != node && x != l && x != r ==> t[x] == s[x])
  {
    var (c, d, t) := (s[node], s[node].lazy, Pushed(s, node, h));
    var own := s[node := Cell(c.max + d, c.min + d, 0)];
    if h == 0 {
      assert t == own;
    } else {
      var (l, r) := (2 * node, 2 * node + 1);
      assert Fits(|s|, l, h - 1) && Fits(|s|, r, h - 1);
      assert t == own[l := s[l].(lazy := s[l].lazy + d)][r := s[r].(lazy := s[r].lazy + d)];
      hide Fits, Pushed;
    }
  }

  lemma PushedChild(s: seq<Cell>, t: seq<Cell>, node: nat, child: nat, d: int)
    requires node >= 1 && |s| == |t| && (child == 2 * node || child == 2 * node + 1) && 2 * node + 1 < |s|
    requires forall x :: 0 <= x < |s| && x != node && x != 2 * node && x != 2 * node + 1 ==> t[x] == s[x]
    requires t[child] == s[child].(lazy := s[child].lazy + d)
    ensures LazyAdded(s, t, child, d) && SameOutside(s, t, node)
  {
    assert Sub(node, node) && Sub(node, 2 * node) && Sub(node, 2 * node + 1);
    forall x | 0 <= x < |s| && Sub(child, x) && x != child ensures s[x] == t[x] {
      SubChild(node, x);
      assert Sub(2 * node, 2 * node) && Sub(2 * node + 1, 2 * node + 1);
    }
  }

  // ----- the tree in memory -----

  class SegmentTree {
    const N: nat
    const data: array<Cell>
    const increase: array<bool>
    var increases: int
    ghost const levels: nat
    ghost var values: seq<int>

    /** The tree holds `values`. */
    ghost predicate IsTree()
      reads this, data
    {
      && N == Pow2(levels) && data.Length == 2 * N + 7
      && |values| == increase.Length + 1 <= N
      && Holds(data[..], 1, levels, Padded(values, N))
    }

    /** In addition the ascents are known. */
    ghost predicate Valid()
      reads this, data, increase
    {
      IsTree() && Marked(values, increase[..]) && increases == CountTrue(increase[..])
    }

    constructor (initial: seq<int>)
      requires initial != []
      ensures Valid() && values == initial && fresh(data) && fresh(increase)
    {
      var n := |initial|;
      var size := NextPow(n);
      N, increases, values := size, 0, initial;
      levels := CeilLog2(n) + 1;
      data := new Cell[size * 2 + 7](_ => Cell(-INF, INF, 0));
      increase := new bool[n - 1](_ => false);
      new;
      hide Holds, Marked, CountTrue, Pow2, CeilLog2;
      FillLeaves(data, N, initial);
      BuildInner(data, N);
      BuiltHolds(data[..], N, levels, initial);
      Mark(increase, initial);
      increases := CountMarks(increase);
    }

    static method NextPow(n: nat) returns (size: nat)
      requires n > 0
      ensures size == Pow2(CeilLog2(n) + 1)
    {
      size := Pow2(CeilLog2(n) + 1);
    }

    method GetValue(position: nat) returns (res: int)
      requires IsTree() && position < |values|
      ensures res == values[position]
    {
      var idx := position + N;
      ghost var s := data[..];
      ValueIsPath(s, levels, Padded(values, N), position);
      res := data[idx].max + data[idx].lazy;
      while idx / 2 != 0
        invariant 0 < idx < data.Length && res + Above(s, idx / 2) == s[position + N].max + Above(s, position + N)
      {
        idx := idx / 2;
        res := res + data[idx].lazy;
      }
    }

    method GetMax(l: int, r: int) returns (res: int)
      requires IsTree() && Limited(values) && 0 <= l && r <= |values|
      modifies data
      ensures IsTree() && IsGreatest(values, l, r, res)
    {
      hide Within, IsGreatest, Pow2, Fits, Values, Ok, SameOutside;
      PaddedInBounds(values, N);
      res := QueryTreeMax(1, 0, N - 1, l, r - 1, levels, Padded(values, N));
      PaddedWithin(values, N, l, r);
    }

    method GetMin(l: int, r: int) returns (res: int)
      requires IsTree() && Limited(values) && 0 <= l && r <= |values|
      modifies data
      ensures IsTree() && IsLeast(values, l, r, res)
    {
      hide Within, IsLeast, Pow2, Fits, Values, Ok, SameOutside;
      PaddedInBounds(values, N);
      res := QueryTreeMin(1, 0, N - 1, l, r - 1, levels, Padded(values, N));
      PaddedWithin(values, N, l, r);
    }

    method AddToRange(l: int, r: int, d: int)
      requires IsTree() && r <= |values|
      modifies data, `values
      ensures IsTree() && values == AddTo(old(values), l, r, d)
    {
      UpdateTree(1, 0, N - 1, l, r - 1, d, levels, Padded(values, N));
      PaddedAdded(values, N, l, r, d);
      values := AddTo(values, l, r, d);
    }

    /** Looks again whether there is an ascent to `idx`. */
    method UpdateIncrease(idx: int)
      requires IsTree() && increases == CountTrue(increase[..])
      modifies `increases, increase
      ensures increases == CountTrue(increase[..])
      ensures increase[..] == Remarked(values, old(increase[..]), idx)
    {
      if idx <= 0 || idx > increase.Length {
        return;
      }
      var before := GetValue(idx - 1);
      var here := GetValue(idx);
      var new_value := before < here;
      var old_value := increase[idx - 1];
      if old_value == new_value {
        assert increase[..] == old(increase[..])[idx - 1 := new_value];
        return;
      }
      var change := if new_value && !old_value then 1 else -1;
      CountUpdated(increase[..], idx - 1, new_value);
      increases := increases + change;
      increase[idx - 1] := new_value;
      assert increase[..] == old(increase[..])[idx - 1 := new_value];
    }

    /** Adds `d` from `l` up to `r` unless a value would leave the limits; the answer is the number of ascents. */
    method QueryRange(l: int, r: int, d: int) returns (res: int)
      requires Valid() && Limited(values) && 0 <= l && r <= |values|
      modifies this, data, increase
      ensures Valid() && Limited(values)
      ensures Rejected(old(values), l, r, d) ==> res == -1 && values == old(values)
      ensures !Rejected(old(values), l, r, d) ==> values == AddTo(old(values), l, r, d) && res == |Ascents(values)|
      ensures l < r ==> (res == -1 <==> exists p :: l <= p < r && !(0 <= old(values)[p] + d <= 2000000000))
      ensures l >= r ==> (res == -1 <==> d > 1000002000000000 || d < -1000000000000000)
      ensures |values| == |old(values)| && forall p :: 0 <= p < |values| ==>
        values[p] == old(values)[p] + if res != -1 && l <= p < r then d else 0
      ensures res != -1 ==> forall i :: i in Ascents(values) <==> 1 <= i < |values| && values[i - 1] < values[i]
      ensures (forall p :: 0 <= p < |old(values)| ==> 0 <= old(values)[p] <= 2000000000) ==>
        forall p :: 0 <= p < |values| ==> 0 <= values[p] <= 2000000000
    {
      hide Rejected, AddTo, Limited;
      ghost var w := values;
      res := AddAndCount(l, r, d);
      AnswerMeans(w, l, r, d);
      AscentsAre(values);
    }

    method AddAndCount(l: int, r: int, d: int) returns (res: int)
      requires Valid() && Limited(values) && 0 <= l && r <= |values|
      modifies this, data, increase
      ensures Valid() && Limited(values)
      ensures Rejected(old(values), l, r, d) ==> res == -1 && values == old(values)
      ensures !Rejected(old(values), l, r, d) ==> values == AddTo(old(values), l, r, d) && res == |Ascents(values)|
    {
      ghost var w := values;
      assert |w| == |increase[..]| + 1;
      hide Limited, Holds, Padded, IsGreatest, IsLeast, Rejected, Marked, Ascents, CountTrue, Remarked, AddTo, Pow2;
      var max := GetMax(l, r);
      var min := GetMin(l, r);
      RejectedByExtremes(w, l, r, d, max, min);
      if d + max > MAX_VALUE || d + min < MIN_VALUE {
        return -1;
      }
      AddToRange(l, r, d);
      UpdateIncrease(r);
      UpdateIncrease(l);
      MarkedAgain(w, l, r, d, old(increase[..]));
      CountIsAscents(values, increase[..]);
      return increases;
    }

    method PushLazy(node: nat, a: int, b: int, ghost h: nat, ghost v: seq<Bounds>)
      requires Holds(data[..], node, h, v) && (a == b <==> h == 0)
      modifies data
      ensures Holds(data[..], node, h, v) && SameOutside(old(data[..]), data[..], node)
      ensures node < data.Length && data[node].lazy == 0
    {
      ghost var s := data[..];
      PushKeeps(s, node, h);
      Levels(s, node, h, v);
      if data[node].lazy == 0 {
        OutsideHere(s, s, node);
        return;
      }
      var (c, d) := (data[node], data[node].lazy);
      data[node] := Cell(c.max + d, c.min + d, d);
      if a != b {
        data[2 * node] := data[2 * node].(lazy := data[2 * node].lazy + d);
        data[2 * node + 1] := data[2 * node + 1].(lazy := data[2 * node + 1].lazy + d);
      }
      data[node] := data[node].(lazy := 0);
      assert data[..] == Pushed(s, node, h);
    }

    /** The greatest value at the positions from `i` to `j` below a node with the positions from `a` to `b`. */
    method QueryTreeMax(node: nat, a: int, b: int, i: int, j: int, ghost h: nat, ghost v: seq<Bounds>) returns (res: int)
      requires Covers(a, b, h) && Holds(data[..], node, h, v) && InBounds(v)
      modifies data
      ensures res == Within(v, i - a, j - a).max
      ensures Holds(data[..], node, h, v) && SameOutside(old(data[..]), data[..], node)
      decreases h, 1
    {
      ghost var s := data[..];
      Levels(s, node, h, v);
      hide Holds, Within, Sub, SameOutside, Pow2, AddRange, InBounds, Shift, All;
      if a > b || a > j || b < i {
        WithinNone(v, i - a, j - a);
        OutsideHere(s, s, node);
        return -INF;
      }
      PushLazy(node, a, b, h, v);
      ghost var t := data[..];
      if a >= i && b <= j {
        TopOf(t, node, h, v);
        WithinAll(v, i - a, j - a);
        return data[node].max;
      }
      res := QueryChildrenMax(node, a, b, i, j, h, v);
      SameOutsideTwice(s, t, data[..], node);
    }

    method QueryChildrenMax(node: nat, a: int, b: int, i: int, j: int, ghost h: nat, ghost v: seq<Bounds>) returns (res: int)
      requires Covers(a, b, h) && h > 0 && Holds(data[..], node, h, v) && InBounds(v)
      requires node < data.Length && data[node].lazy == 0
      modifies data
      ensures res == Within(v, i - a, j - a).max
      ensures Holds(data[..], node, h, v) && SameOutside(old(data[..]), data[..], node)
      decreases h, 0
    {
      ghost var s := data[..];
      hide *;
      ghost var l, r := Split(s, node, a, b, h, v);
      var mid := (a + b) / 2;
      var q1 := QueryTreeMax(2 * node, a, mid, i, j, h - 1, l);
      ghost var t := data[..];
      AfterLeft(s, t, node, h, r);
      var q2 := QueryTreeMax(2 * node + 1, 1 + mid, b, i, j, h - 1, r);
      ghost var u := data[..];
      QueryKeeps(s, t, u, node, h, l, r);
      WithinBoth(l, r, a, mid + 1, i, j);
      res := Max(q1, q2);
    }

    /** The least value at the positions from `i` to `j` below a node with the positions from `a` to `b`. */
    method QueryTreeMin(node: nat, a: int, b: int, i: int, j: int, ghost h: nat, ghost v: seq<Bounds>) returns (res: int)
      requires Covers(a, b, h) && Holds(data[..], node, h, v) && InBounds(v)
      modifies data
      ensures res == Within(v, i - a, j - a).min
      ensures Holds(data[..], node, h, v) && SameOutside(old(data[..]), data[..], node)
      decreases h, 1
    {
      ghost var s := data[..];
      Levels(s, node, h, v);
      hide Holds, Within, Sub, SameOutside, Pow2, AddRange, InBounds, Shift, All;
      if a > b || a > j || b < i {
        WithinNone(v, i - a, j - a);
        OutsideHere(s, s, node);
        return INF;
      }
      PushLazy(node, a, b, h, v);
      ghost var t := data[..];
      if a >= i && b <= j {
        TopOf(t, node, h, v);
        WithinAll(v, i - a, j - a);
        return data[node].min;
      }
      res := QueryChildrenMin(node, a, b, i, j, h, v);
      SameOutsideTwice(s, t, data[..], node);
    }

    method QueryChildrenMin(node: nat, a: int, b: int, i: int, j: int, ghost h: nat, ghost v: seq<Bounds>) returns (res: int)
      requires Covers(a, b, h) && h > 0 && Holds(data[..], node, h, v) && InBounds(v)
      requires node < data.Length && data[node].lazy == 0
      modifies data
      ensures res == Within(v, i - a, j - a).min
      ensures Holds(data[..], node, h, v) && SameOutside(old(data[..]), data[..], node)
      decreases h, 0
    {
      ghost var s := data[..];
      hide *;
      ghost var l, r := Split(s, node, a, b, h, v);
      var mid := (a + b) / 2;
      var q1 := QueryTreeMin(2 * node, a, mid, i, j, h - 1, l);
      ghost var t := data[..];
      AfterLeft(s, t, node, h, r);
      var q2 := QueryTreeMin(2 * node + 1, 1 + mid, b, i, j, h - 1, r);
      ghost var u := data[..];
      QueryKeeps(s, t, u, node, h, l, r);
      WithinBoth(l, r, a, mid + 1, i, j);
      res := Min(q1, q2);
    }

    /** Adds `d` at the positions from `i` to `j`. */
    method UpdateTree(node: nat, a: int, b: int, i: int, j: int, d: int, ghost h: nat, ghost v: seq<Bounds>)
      requires Covers(a, b, h) && Holds(data[..], node, h, v)
      modifies data
      ensures Holds(data[..], node, h, AddRange(v, i - a, j - a, d)) && SameOutside(old(data[..]), data[..], node)
      ensures node < data.Length && data[node].lazy == 0
      decreases h, 1
    {
      ghost var s := data[..];
      Levels(s, node, h, v);
      AddRangeEnds(v, i - a, j - a, d);
      hide Holds, Within, Sub, SameOutside, Pow2, AddRange, InBounds, Shift, All;
      PushLazy(node, a, b, h, v);
      ghost var t := data[..];
      if a > b || b < i || a > j {
        return;
      }
      if a >= i && b <= j {
        data[node] := data[node].(lazy := data[node].lazy + d);
        ghost var u := data[..];
        LazyHere(t, u, node, h, v, d);
        PushLazy(node, a, b, h, Shift(v, d));
        SameOutsideTwice(s, t, u, node);
        SameOutsideTwice(s, u, data[..], node);
        return;
      }
      UpdateChildren(node, a, b, i, j, d, h, v);
      SameOutsideTwice(s, t, data[..], node);
    }

    method UpdateChildren(node: nat, a: int, b: int, i: int, j: int, d: int, ghost h: nat, ghost v: seq<Bounds>)
      requires Covers(a, b, h) && h > 0 && Holds(data[..], node, h, v)
      requires node < data.Length && data[node].lazy == 0
      modifies data
      ensures Holds(data[..], node, h, AddRange(v, i - a, j - a, d)) && SameOutside(old(data[..]), data[..], node)
      ensures node < data.Length && data[node].lazy == 0
      decreases h, 0
    {
      ghost var s := data[..];
      hide *;
      ghost var l, r := Split(s, node, a, b, h, v);
      var mid := (a + b) / 2;
      ghost var (l', r') := (AddRange(l, i - a, j - a, d), AddRange(r, i - (mid + 1), j - (mid + 1), d));
      UpdateTree(2 * node, a, mid, i, j, d, h - 1, l);
      ghost var t := data[..];
      AfterLeft(s, t, node, h, r);
      UpdateTree(2 * node + 1, mid + 1, b, i, j, d, h - 1, r);
      ghost var u := data[..];
      AfterRight(s, t, u, node, h, l');
      Recompute(node, h, l', r');
      SameOutsideTwice(s, u, data[..], node);
      AddRangeBoth(l, r, a, mid + 1, i, j, d);
    }

    method Recompute(node: nat, ghost h: nat, ghost l: seq<Bounds>, ghost r: seq<Bounds>)
      requires 1 <= node && 2 * node + 1 < data.Length && h > 0
      requires Holds(data[..], 2 * node, h - 1, l) && Holds(data[..], 2 * node + 1, h - 1, r)
      requires data[node].lazy == data[2 * node].lazy == data[2 * node + 1].lazy == 0
      modifies data
      ensures Holds(data[..], node, h, l + r) && data[node].lazy == 0 && SameOutside(old(data[..]), data[..], node)
    {
      ghost var s := data[..];
      data[node] := data[node].(max := Max(data[2 * node].max, data[2 * node + 1].max));
      data[node] := data[node].(min := Min(data[2 * node].min, data[2 * node + 1].min));
      Recomputed(s, data[..], node, h);
      OutsideHere(s, data[..], node);
    }
  }

  /** The subtree at `node` has the values `v`. */
  predicate Holds(s: seq<Cell>, node: nat, h: nat, v: seq<Bounds>) {
    Fits(|s|, node, h) && Ok(s, node, h) && Values(s, node, h) == v
  }

  method FillLeaves(data: array<Cell>, size: nat, initial: seq<int>)
    requires data.Length >= 2 * size && |initial| <= size
    requires forall x :: 0 <= x < data.Length ==> data[x] == Cell(-INF, INF, 0)
    modifies data
    ensures forall x :: 0 <= x < data.Length ==>
      data[x] == if size <= x < size + |initial| then Cell(initial[x - size], initial[x - size], 0) else Cell(-INF, INF, 0)
  {
    for i := 0 to |initial|
      invariant forall x :: 0 <= x < data.Length ==>
        data[x] == if size <= x < size + i then Cell(initial[x - size], initial[x - size], 0) else Cell(-INF, INF, 0)
    {
      data[size + i] := Cell(initial[i], initial[i], 0);
    }
  }

  method BuildInner(data: array<Cell>, size: nat)
    requires data.Length >= 2 * size && forall x :: 0 <= x < data.Length ==> data[x].lazy == 0
    modifies data
    ensures forall x :: size <= x < data.Length ==> data[x] == old(data[x])
    ensures forall x :: 0 <= x < data.Length ==> data[x].lazy == 0
    ensures forall x :: 1 <= x < size ==> IsJoin(data[..], x)
  {
    var i: nat := size;
    while i > 1
      invariant i <= size
      invariant forall x :: size <= x < data.Length ==> data[x] == old(data[x])
      invariant forall x :: 0 <= x < data.Length ==> data[x].lazy == 0
      invariant forall x :: i <= x < size && 1 <= x ==> IsJoin(data[..], x)
    {
      i := i - 1;
      ghost var s := data[..];
      data[i] := Cell(Max(data[2 * i].max, data[2 * i + 1].max), Min(data[2 * i].min, data[2 * i + 1].min), 0);
      forall x | i <= x < size ensures IsJoin(data[..], x) {
        if x > i { assert IsJoin(s, x); }
      }
    }
  }

  method Mark(increase: array<bool>, initial: seq<int>)
    requires |initial| == increase.Length + 1
    modifies increase
    ensures Marked(initial, increase[..])
  {
    for i := 1 to |initial|
      invariant forall k :: 0 <= k < i - 1 ==> increase[k] == (initial[k] < initial[k + 1])
    {
      increase[i - 1] := initial[i - 1] < initial[i];
    }
  }

  method CountMarks(increase: array<bool>) returns (count: nat)
    ensures count == CountTrue(increase[..])
  {
    count := 0;
    for i := 0 to increase.Length
      invariant count == CountTrue(increase[..i])
    {
      assert increase[..i + 1][..i] == increase[..i];
      if increase[i] {
        count := count + 1;
      }
    }
    assert increase[..increase.Length] == increase[..];
  }

  lemma Levels(s: seq<Cell>, node: nat, h: nat, v: seq<Bounds>)
    requires Holds(s, node, h, v)
    ensures 1 <= node < |s| && |v| == Pow2(h) && (h == 0 <==> Pow2(h) == 1)
    ensures h > 0 ==> Pow2(h) == 2 * Pow2(h - 1) && 2 * node + 1 < |s|
  {
    if h > 0 { assert Fits(|s|, 2 * node + 1, h - 1); }
  }

  lemma TopOf(s: seq<Cell>, node: nat, h: nat, v: seq<Bounds>)
    requires Holds(s, node, h, v)
    ensures v != [] && node < |s| && s[node].Top() == All(v)
  {
    TopIsAll(s, node, h);
  }

  /** At a pushed node the values are those of the children. */
  lemma Children(s: seq<Cell>, node: nat, h: nat, v: seq<Bounds>) returns (l: seq<Bounds>, r: seq<Bounds>)
    requires Holds(s, node, h, v) && h > 0 && node < |s| && s[node].lazy == 0
    ensures v == l + r && |l| == Pow2(h - 1) == |r|
    ensures Holds(s, 2 * node, h - 1, l) && Holds(s, 2 * node + 1, h - 1, r)
    ensures InBounds(v) ==> InBounds(l) && InBounds(r)
  {
    l, r := Values(s, 2 * node, h - 1), Values(s, 2 * node + 1, h - 1);
    ShiftZero(l + r);
    assert forall p :: 0 <= p < |l| ==> (l + r)[p] == l[p];
    assert forall p :: 0 <= p < |r| ==> (l + r)[|l| + p] == r[p];
  }

  /** Below a node with the positions from `a` to `b` there are `h` levels. */
  predicate Covers(a: int, b: int, h: nat) {
    0 <= a && b == a + Pow2(h) - 1
  }

  /** A pushed node and its positions are divided between its children. */
  lemma Split(s: seq<Cell>, node: nat, a: int, b: int, h: nat, v: seq<Bounds>) returns (l: seq<Bounds>, r: seq<Bounds>)
    requires Covers(a, b, h) && Holds(s, node, h, v) && h > 0 && node < |s| && s[node].lazy == 0
    ensures node >= 1 && 2 * node + 1 < |s| && v == l + r
    ensures Holds(s, 2 * node, h - 1, l) && Holds(s, 2 * node + 1, h - 1, r)
    ensures var mid := (a + b) / 2; Covers(a, mid, h - 1) && Covers(mid + 1, b, h - 1) && mid + 1 == a + |l|
    ensures InBounds(v) ==> InBounds(l) && InBounds(r)
  {
    Levels(s, node, h, v);
    l, r := Children(s, node, h, v);
  }

  lemma AddRangeEnds(v: seq<Bounds>, lo: int, hi: int, d: int)
    ensures hi < 0 || lo >= |v| ==> AddRange(v, lo, hi, d) == v
    ensures lo <= 0 && hi >= |v| - 1 ==> AddRange(v, lo, hi, d) == Shift(v, d)
  {
  }

  lemma LazyHere(s: seq<Cell>, t: seq<Cell>, node: nat, h: nat, v: seq<Bounds>, d: int)
    requires Holds(s, node, h, v) && 1 <= node < |s| && t == s[node := s[node].(lazy := s[node].lazy + d)]
    ensures Holds(t, node, h, Shift(v, d)) && SameOutside(s, t, node)
  {
    OutsideHere(s, t, node);
    AddLazy(s, t, node, h, d);
  }

  lemma OutsideHere(s: seq<Cell>, t: seq<Cell>, node: nat)
    requires 1 <= node < |s| && |t| == |s| && t == s[node := t[node]]
    ensures SameOutside(s, t, node)
  {
    assert Sub(node, node);
  }

  /** Work below the left child does not touch the right child. */
  lemma AfterLeft(s: seq<Cell>, t: seq<Cell>, node: nat, h: nat, r: seq<Bounds>)
    requires node >= 1 && h > 0 && 2 * node + 1 < |s| && SameOutside(s, t, 2 * node)
    requires Holds(s, 2 * node + 1, h - 1, r)
    ensures Holds(t, 2 * node + 1, h - 1, r) && |t| == |s| && t[node] == s[node] && t[2 * node + 1] == s[2 * node + 1]
  {
    forall x: nat | x < |s| && Sub(2 * node + 1, x) ensures s[x] == t[x] {
      SubChild(node, x);
    }
    SameValues(s, t, 2 * node + 1, h - 1);
    assert Sub(2 * node + 1, 2 * node + 1);
    SubChild(node, node);
  }

  /** Work below the right child does not touch the left child. */
  lemma AfterRight(s: seq<Cell>, t: seq<Cell>, u: seq<Cell>, node: nat, h: nat, l: seq<Bounds>)
    requires node >= 1 && h > 0 && 2 * node + 1 < |s|
    requires SameOutside(s, t, 2 * node) && SameOutside(t, u, 2 * node + 1) && Holds(t, 2 * node, h - 1, l)
    ensures Holds(u, 2 * node, h - 1, l) && SameOutside(s, u, node) && |s| == |t| == |u|
    ensures u[node] == s[node] && u[2 * node] == t[2 * node]
  {
    forall x: nat | x < |s| ensures (Sub(2 * node, x) ==> t[x] == u[x]) && (!Sub(node, x) ==> s[x] == u[x]) {
      SubChild(node, x);
    }
    SameValues(t, u, 2 * node, h - 1);
    assert Sub(2 * node, 2 * node);
    SubChild(node, node);
  }

  /** A pushed node whose children keep their values keeps its own. */
  lemma QueryKeeps(s: seq<Cell>, t: seq<Cell>, u: seq<Cell>, node: nat, h: nat, l: seq<Bounds>, r: seq<Bounds>)
    requires h > 0 && node >= 1 && 2 * node + 1 < |s| && s[node].lazy == 0 && Holds(s, node, h, l + r)
    requires Holds(s, 2 * node, h - 1, l) && Holds(s, 2 * node + 1, h - 1, r)
    requires SameOutside(s, t, 2 * node) && Holds(t, 2 * node, h - 1, l)
    requires SameOutside(t, u, 2 * node + 1) && Holds(u, 2 * node + 1, h - 1, r)
    ensures Holds(u, node, h, l + r) && SameOutside(s, u, node)
  {
    hide *;
    AfterRight(s, t, u, node, h, l);
    SameTops(s, u, node, h, l, r);
  }

  lemma SameTops(s: seq<Cell>, u: seq<Cell>, node: nat, h: nat, l: seq<Bounds>, r: seq<Bounds>)
    requires h > 0 && node >= 1 && 2 * node + 1 < |s| == |u| && s[node].lazy == 0 && Holds(s, node, h, l + r)
    requires Holds(s, 2 * node, h - 1, l) && Holds(s, 2 * node + 1, h - 1, r) && u[node] == s[node]
    requires Holds(u, 2 * node, h - 1, l) && Holds(u, 2 * node + 1, h - 1, r)
    ensures Holds(u, node, h, l + r)
  {
    hide All, Shift;
    TopIsAll(s, 2 * node, h - 1);
    TopIsAll(u, 2 * node, h - 1);
    TopIsAll(s, 2 * node + 1, h - 1);
    TopIsAll(u, 2 * node + 1, h - 1);
  }

  /** A node rebuilt from its pushed children. */
  lemma Recomputed(s: seq<Cell>, t: seq<Cell>, node: nat, h: nat)
    requires Fits(|s|, node, h) && h > 0 && Ok(s, 2 * node, h - 1) && Ok(s, 2 * node + 1, h - 1)
    requires s[node].lazy == s[2 * node].lazy == s[2 * node + 1].lazy == 0
    requires t == s[node := Cell(Max(s[2 * node].max, s[2 * node + 1].max), Min(s[2 * node].min, s[2 * node + 1].min), 0)]
    ensures Ok(t, node, h) && Values(t, node, h) == Values(s, 2 * node, h - 1) + Values(s, 2 * node + 1, h - 1)
  {
    BelowChildren(s, t, node);
    SameValues(s, t, 2 * node, h - 1);
    SameValues(s, t, 2 * node + 1, h - 1);
    ShiftZero(Values(s, 2 * node, h - 1) + Values(s, 2 * node + 1, h - 1));
  }

  lemma SameOutsideTwice(s: seq<Cell>, t: seq<Cell>, u: seq<Cell>, node: nat)
    requires SameOutside(s, t, node) && SameOutside(t, u, node)
    ensures SameOutside(s, u, node)
  {
  }

  // ----- the plain array -----

  /** The leaves: the values and then nothing. */
  function Padded(w: seq<int>, size: nat): (v: seq<Bounds>)
    ensures |v| == size
    ensures forall p :: 0 <= p < size ==> v[p] == if p < |w| then Bounds(w[p], w[p]) else NOTHING
  {
    seq(size, p requires 0 <= p => if p < |w| then Bounds(w[p], w[p]) else NOTHING)
  }

  predicate Limited(w: seq<int>) {
    forall p :: 0 <= p < |w| ==> -INF <= w[p] <= INF
  }

  function AddTo(w: seq<int>, l: int, r: int, d: int): (u: seq<int>)
    ensures |u| == |w| && forall p :: 0 <= p < |w| ==> u[p] == if l <= p < r then w[p] + d else w[p]
  {
    seq(|w|, p requires 0 <= p < |w| => if l <= p < r then w[p] + d else w[p])
  }

  ghost predicate IsGreatest(w: seq<int>, l: int, r: int, res: int)
    requires 0 <= l && r <= |w|
  {
    if l >= r then res == -INF
    else (forall p :: l <= p < r ==> w[p] <= res) && exists p :: l <= p < r && w[p] == res
  }

  ghost predicate IsLeast(w: seq<int>, l: int, r: int, res: int)
    requires 0 <= l && r <= |w|
  {
    if l >= r then res == INF
    else (forall p :: l <= p < r ==> w[p] >= res) && exists p :: l <= p < r && w[p] == res
  }

  /** Some value would leave the limits; an empty range is refused only for a huge `d`. */
  predicate Rejected(w: seq<int>, l: int, r: int, d: int)
    requires 0 <= l && r <= |w|
  {
    if l >= r then d - INF > MAX_VALUE || d + INF < MIN_VALUE
    else exists p :: l <= p < r && !(MIN_VALUE <= w[p] + d <= MAX_VALUE)
  }

  /** The values that the program is made for are within its infinity. */
  lemma UsualIsLimited(w: seq<int>)
    requires forall p :: 0 <= p < |w| ==> 0 <= w[p] <= 2000000000
    ensures Limited(w)
  {
  }

  /** What a query does, in numbers. */
  lemma AnswerMeans(w: seq<int>, l: int, r: int, d: int)
    requires 0 <= l && r <= |w|
    ensures var v := AddTo(w, l, r, d);
      && (l < r ==> (Rejected(w, l, r, d) <==> exists p :: l <= p < r && !(0 <= w[p] + d <= 2000000000)))
      && (l >= r ==> (Rejected(w, l, r, d) <==> d > 1000002000000000 || d < -1000000000000000))
      && |v| == |w| && (forall p :: 0 <= p < |w| ==> v[p] == w[p] + if l <= p < r then d else 0)
  {
  }

  /** The ascents are the positions whose value exceeds the one before. */
  lemma AscentsAre(v: seq<int>)
    ensures forall i :: i in Ascents(v) <==> 1 <= i < |v| && v[i - 1] < v[i]
  {
    forall i ensures i in Ascents(v) <==> 1 <= i < |v| && v[i - 1] < v[i] {
      InAscents(v, i);
    }
  }

  lemma InAscents(v: seq<int>, i: int)
    ensures i in Ascents(v) <==> 1 <= i < |v| && v[i - 1] < v[i]
  {
  }

  lemma RejectedByExtremes(w: seq<int>, l: int, r: int, d: int, max: int, min: int)
    requires 0 <= l && r <= |w| && Limited(w) && IsGreatest(w, l, r, max) && IsLeast(w, l, r, min)
    ensures Rejected(w, l, r, d) <==> d + max > MAX_VALUE || d + min < MIN_VALUE
    ensures !Rejected(w, l, r, d) ==> Limited(AddTo(w, l, r, d))
  {
    if l < r && !Rejected(w, l, r, d) {
      forall p | 0 <= p < |w| ensures -INF <= AddTo(w, l, r, d)[p] <= INF {
      }
    }
  }

  /** Only the marks at the ends of the range can change. */
  lemma MarkedAgain(w: seq<int>, l: int, r: int, d: int, marks: seq<bool>)
    requires Marked(w, marks)
    ensures var u := AddTo(w, l, r, d);
      Marked(u, Remarked(u, Remarked(u, marks, r), l))
  {
  }

  /** The marks after the one for position `idx` was found anew. */
  function Remarked(w: seq<int>, marks: seq<bool>, idx: int): (r: seq<bool>)
    requires |w| == |marks| + 1
    ensures |r| == |marks|
  {
    if 1 <= idx <= |marks| then marks[idx - 1 := w[idx - 1] < w[idx]] else marks
  }

  /** The positions whose value is above the one before. */
  function Ascents(w: seq<int>): set<int> {
    set i | 1 <= i < |w| && IsAscent(w, i)
  }

  predicate IsAscent(w: seq<int>, i: int) {
    1 <= i < |w| && w[i - 1] < w[i]
  }

  predicate Marked(w: seq<int>, marks: seq<bool>) {
    |w| == |marks| + 1 && forall k :: 0 <= k < |marks| ==> marks[k] == (w[k] < w[k + 1])
  }

  function CountTrue(marks: seq<bool>): nat {
    if marks == [] then 0 else CountTrue(marks[..|marks| - 1]) + if marks[|marks| - 1] then 1 else 0
  }

  lemma {:induction false} CountUpdated(marks: seq<bool>, k: nat, b: bool)
    requires k < |marks|
    ensures CountTrue(marks[k := b]) == CountTrue(marks) + (if b then 1 else 0) - (if marks[k] then 1 else 0)
    decreases |marks|
  {
    var last := |marks| - 1;
    if k < last {
      assert marks[k := b][..last] == marks[..last][k := b];
      CountUpdated(marks[..last], k, b);
    } else {
      assert marks[k := b][..last] == marks[..last];
    }
  }

  lemma {:induction false} CountIsAscents(w: seq<int>, marks: seq<bool>)
    requires Marked(w, marks)
    ensures CountTrue(marks) == |Ascents(w)|
    decreases |marks|
  {
    if marks == [] {
      assert Ascents(w) == {};
    } else {
      var (front, last) := (w[..|w| - 1], |marks| - 1);
      CountIsAscents(front, marks[..last]);
      LastAscent(w);
      assert marks[last] == (w[last] < w[last + 1]);
    }
  }

  lemma LastAscent(w: seq<int>)
    requires |w| > 1
    ensures |Ascents(w)| == |Ascents(w[..|w| - 1])| + if w[|w| - 2] < w[|w| - 1] then 1 else 0
  {
    var (front, k) := (w[..|w| - 1], |w| - 1);
    forall i | 1 <= i < k ensures IsAscent(w, i) == IsAscent(front, i) {
    }
    assert Ascents(w) == Ascents(front) + if IsAscent(w, k) then {k} else {};
  }

  lemma PaddedInBounds(w: seq<int>, size: nat)
    requires Limited(w) && |w| <= size
    ensures InBounds(Padded(w, size))
  {
  }

  lemma {:induction false} PaddedWithin(w: seq<int>, size: nat, l: int, r: int)
    requires Limited(w) && 0 <= l && r <= |w| <= size
    ensures IsGreatest(w, l, r, Within(Padded(w, size), l, r - 1).max)
    ensures IsLeast(w, l, r, Within(Padded(w, size), l, r - 1).min)
  {
    var v := Padded(w, size);
    if l < r {
      WithinIsExtreme(v, l, r - 1);
      var p :| l <= p <= r - 1 && v[p].max == Within(v, l, r - 1).max;
      var q :| l <= q <= r - 1 && v[q].min == Within(v, l, r - 1).min;
      assert w[p] == v[p].max && w[q] == v[q].min;
      assert forall k :: l <= k < r ==> w[k] == v[k].max == v[k].min;
    } else {
      WithinEmpty(v, l, r - 1);
    }
  }

  lemma {:induction false} WithinEmpty(v: seq<Bounds>, lo: int, hi: int)
    requires lo > hi
    ensures Within(v, lo, hi) == NOTHING
  {
    if v != [] { WithinEmpty(v[..|v| - 1], lo, hi); }
  }

  lemma PaddedAdded(w: seq<int>, size: nat, l: int, r: int, d: int)
    requires r <= |w| <= size
    ensures AddRange(Padded(w, size), l, r - 1, d) == Padded(AddTo(w, l, r, d), size)
  {
  }

  // ----- paths -----

  function CeilLog2(n: nat): (e: nat)
    ensures Pow2(e) >= n && (n > 0 ==> Pow2(e) < 2 * n)
  {
    if n <= 1 then 0 else 1 + CeilLog2((n + 1) / 2)
  }

  /** What is still to be added at `x` and above it. */
  function Above(s: seq<Cell>, x: nat): int
    requires x < |s|
  {
    if x == 0 then 0 else s[x].lazy + Above(s, x / 2)
  }

  function Leaf(node: nat, h: nat, p: nat): nat
    decreases h
  {
    if h == 0 then node
    else if p < Pow2(h - 1) then Leaf(2 * node, h - 1, p)
    else Leaf(2 * node + 1, h - 1, p - Pow2(h - 1))
  }

  lemma {:induction false} LeafPlace(node: nat, h: nat, p: nat)
    requires p < Pow2(h)
    ensures Leaf(node, h, p) == node * Pow2(h) + p
    decreases h
  {
    if h > 0 {
      Halves(node, Pow2(h - 1));
      if p < Pow2(h - 1) {
        LeafPlace(2 * node, h - 1, p);
      } else {
        LeafPlace(2 * node + 1, h - 1, p - Pow2(h - 1));
      }
    }
  }

  lemma Halves(node: nat, width: nat)
    ensures 2 * node * width == node * (2 * width) && (2 * node + 1) * width == node * (2 * width) + width
  {
  }

  /** A value is its leaf with everything that is still to be added on the path to the root. */
  lemma {:induction false} PathValue(s: seq<Cell>, node: nat, h: nat, p: nat)
    requires Fits(|s|, node, h) && p < Pow2(h)
    ensures var leaf := Leaf(node, h, p);
      leaf < |s| && Plus(Values(s, node, h)[p], Above(s, node / 2)) == Plus(Bounds(s[leaf].max, s[leaf].min), Above(s, leaf))
    decreases h
  {
    if h > 0 {
      var half := Pow2(h - 1);
      var (c, q) := if p < half then (2 * node, p) else (2 * node + 1, p - half);
      PathValue(s, c, h - 1, q);
      assert c / 2 == node;
      assert Values(s, node, h)[p] == Plus(Values(s, c, h - 1)[q], s[node].lazy);
    }
  }

  lemma ValueIsPath(s: seq<Cell>, h: nat, v: seq<Bounds>, p: nat)
    requires Holds(s, 1, h, v) && p < |v|
    ensures p + Pow2(h) < |s| && v[p] == Plus(Bounds(s[p + Pow2(h)].max, s[p + Pow2(h)].min), Above(s, p + Pow2(h)))
  {
    PathValue(s, 1, h, p);
    LeafPlace(1, h, p);
  }

  // ----- building -----

  predicate IsJoin(s: seq<Cell>, x: nat) {
    && 1 <= x && 2 * x + 1 < |s|
    && Bounds(s[x].max, s[x].min) == Join(s[2 * x].Top(), s[2 * x + 1].Top())
  }

  lemma {:induction false} Pow2Grows(a: nat, b: nat)
    requires a <= b
    ensures Pow2(a) <= Pow2(b)
    decreases b
  {
    if a < b { Pow2Grows(a, b - 1); }
  }

  lemma {:induction false} BuiltOk(s: seq<Cell>, node: nat, h: nat, k: nat)
    requires Pow2(k) <= node < Pow2(k + 1) && 2 * Pow2(k + h) <= |s|
    requires forall x :: 1 <= x < Pow2(k + h) ==> IsJoin(s, x)
    ensures Fits(|s|, node, h) && Ok(s, node, h)
    decreases h
  {
    Pow2Grows(k + 1, k + h + 1);
    if h > 0 {
      Pow2Grows(k + 1, k + h);
      assert (k + 1) + (h - 1) == k + h;
      BuiltOk(s, 2 * node, h - 1, k + 1);
      BuiltOk(s, 2 * node + 1, h - 1, k + 1);
      assert IsJoin(s, node);
    }
  }

  lemma {:induction false} NothingAbove(s: seq<Cell>, x: nat)
    requires x < |s| && forall y :: 0 <= y < |s| ==> s[y].lazy == 0
    ensures Above(s, x) == 0
  {
    if x > 0 { NothingAbove(s, x / 2); }
  }

  lemma {:induction false} BuiltHolds(s: seq<Cell>, size: nat, h: nat, w: seq<int>)
    requires size == Pow2(h) && |s| == 2 * size + 7 && |w| <= size
    requires forall x :: 0 <= x < |s| ==> s[x].lazy == 0
    requires forall x :: 1 <= x < size ==> IsJoin(s, x)
    requires forall x :: size <= x < 2 * size ==>
      s[x] == if x < size + |w| then Cell(w[x - size], w[x - size], 0) else Cell(-INF, INF, 0)
    ensures Holds(s, 1, h, Padded(w, size))
  {
    assert Pow2(0) == 1 && Pow2(1) == 2 * Pow2(0);
    assert 0 + h == h;
    BuiltOk(s, 1, h, 0);
    var v := Values(s, 1, h);
    forall p | 0 <= p < size ensures v[p] == Padded(w, size)[p] {
      ValueIsPath(s, h, v, p);
      assert size <= p + size < 2 * size;
      NothingAbove(s, p + size);
    }
    assert v == Padded(w, size);
  }
}
