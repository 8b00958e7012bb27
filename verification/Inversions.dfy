/** Counting decreasing subsequences of a permutation with one segment tree for each length. */
module Inversions {
  import opened Basics

  const P_MOD: nat := 1000000000

  function Mod(x: nat): (r: nat)
    ensures r < P_MOD
  {
    x % P_MOD
  }

  /** The remainder by a thousand million. */
  lemma ModIs(x: nat)
    ensures Mod(x) < 1000000000 && (exists q: nat :: x == 1000000000 * q + Mod(x)) && (x < 1000000000 ==> Mod(x) == x)
  {
    var q: nat := x / 1000000000;
    assert x == 1000000000 * q + Mod(x);
  }

  lemma ModAdd(a: nat, b: nat)
    ensures Mod(Mod(a) + b) == Mod(a + b) && Mod(a + Mod(b)) == Mod(a + b) && Mod(Mod(a)) == Mod(a)
  {
    ModAddLeft(a, b);
    ModAddLeft(b, a);
    ModAddLeft(a, 0);
    hide Mod;
    assert a + Mod(b) == Mod(b) + a && a + b == b + a && a + 0 == a && Mod(a) + 0 == Mod(a);
  }

  lemma ModAddLeft(a: nat, b: nat)
    ensures Mod(Mod(a) + b) == Mod(a + b)
  {
    assert a == a / P_MOD * P_MOD + Mod(a);
  }

  /** The sum of the elements from `l` to `r`. */
  function Sum(s: seq<nat>, l: nat, r: nat): nat
    requires r <= |s|
    decreases r
  {
    if r <= l then 0 else Sum(s, l, r - 1) + s[r - 1]
  }

  lemma {:induction false} SumFirst(s: seq<nat>, l: nat, r: nat)
    requires l < r <= |s|
    ensures Sum(s, l, r) == s[l] + Sum(s, l + 1, r)
    decreases r
  {
    if l + 1 < r { SumFirst(s, l, r - 1); }
  }

  lemma {:induction false} SumSame(s: seq<nat>, t: seq<nat>, l: nat, r: nat)
    requires r <= |s| == |t| && forall i :: l <= i < r ==> s[i] == t[i]
    ensures Sum(s, l, r) == Sum(t, l, r)
    decreases r
  {
    if l < r { SumSame(s, t, l, r - 1); }
  }

  // ----- the tree -----

  /** Each inner node is the sum of its children. */
  predicate Inner(s: seq<nat>, i: nat) {
    2 * i + 1 < |s| && s[i] == Mod(s[2 * i] + s[2 * i + 1])
  }

  predicate IsTree(s: seq<nat>, n: nat) {
    n >= 1 && |s| == 2 * n && forall i: nat :: 1 <= i < n ==> Inner(s, i)
  }

  /** The parents of a row of nodes have the same sum. */
  lemma {:induction false} SumOfParents(s: seq<nat>, n: nat, l: nat, r: nat)
    requires IsTree(s, n) && 1 <= l <= r <= n
    ensures Mod(Sum(s, 2 * l, 2 * r)) == Mod(Sum(s, l, r))
    decreases r
  {
    if l < r {
      var i := r - 1;
      SumOfParents(s, n, l, i);
      assert Inner(s, i);
      assert Sum(s, 2 * l, 2 * r) == Sum(s, 2 * l, 2 * i) + (s[2 * i] + s[2 * i + 1]);
      AddParent(Sum(s, 2 * l, 2 * i), Sum(s, l, i), s[2 * i] + s[2 * i + 1]);
    }
  }

  lemma AddParent(a: nat, b: nat, c: nat)
    requires Mod(a) == Mod(b)
    ensures Mod(a + c) == Mod(b + Mod(c))
  {
    ModAdd(a, c);
    ModAdd(b, c);
  }

  /** The least power of two above `n`. */
  function PowerAbove(n: nat): (p: nat)
    ensures n < p && (n > 0 ==> p <= 2 * n)
  {
    if n == 0 then 1 else 2 * PowerAbove(n / 2)
  }

  class SegmentTree {
    const N: nat
    const range: nat
    const data: array<nat>

    ghost predicate Valid()
      reads data
    {
      IsTree(data[..], N) && range <= N
    }

    /** The values of the positions. */
    ghost function Leaves(): seq<nat>
      reads data
      requires Valid()
    {
      data[N..]
    }

    static method NextPow(n: nat) returns (result: nat)
      ensures result == PowerAbove(n)
    {
      result := 1;
      var m := n;
      Twice(1, PowerAbove(n));
      while m > 0
        invariant Times(result, PowerAbove(m)) == PowerAbove(n)
        decreases m
      {
        Twice(result, PowerAbove(m / 2));
        hide Times;
        m := m / 2;
        result := result * 2;
      }
      Twice(result, 1);
    }

    constructor (n: nat)
      ensures Valid() && N == PowerAbove(n) && range == n && fresh(data) && forall i :: 0 <= i < N ==> Leaves()[i] == 0
    {
      var size := NextPow(n);
      N, range := size, n;
      data := new nat[2 * size](_ => 0);
      new;
      forall i | 1 <= i < N ensures Inner(data[..], i) {
      }
    }

    /** The sum of the values at the positions from `l` up to `r`. */
    method SumRange(l: int, r: int) returns (res: nat)
      requires Valid() && r <= N
      ensures res == if r <= l || l < 0 then 0 else Sum(Leaves(), l, r) % 1000000000
    {
      if r <= l || r > data.Length || l < 0 {
        return 0;
      }
      hide Sum, Mod;
      ghost var s := data[..];
      var left: nat, right: nat := l + N, r + N;
      LeafSum(s, N, l, r);
      res := 0;
      while left < right
        invariant 1 <= left <= right <= 2 * N && res < P_MOD
        invariant Mod(res + Sum(s, left, right)) == Mod(Sum(s, l + N, r + N))
        decreases right
      {
        ghost var (before, l0, r0) := (res, left, right);
        if left % 2 == 1 {
          res := res + data[left];
          left := left + 1;
        }
        if right % 2 == 1 {
          right := right - 1;
          res := res + data[right];
        }
        Climb(s, N, before, l0, r0, left, right, res);
        res := res % P_MOD;
        left := left / 2;
        right := right / 2;
      }
      SumFinished(s, left, res);
    }

    /** Stores a value and rebuilds the sums above it. */
    method Insert(position: int, value: nat)
      requires Valid()
      modifies data
      ensures Valid()
      ensures Leaves() == if 0 <= position < range then old(Leaves())[position := value] else old(Leaves())
    {
      if position < 0 || position >= range {
        return;
      }
      var idx := position + N;
      data[idx] := value;
      assert AllBut(data[..], N, idx / 2) by {
        StillInner(old(data[..]), data[..], N, idx);
      }
      idx := idx / 2;
      while idx > 0
        invariant 0 <= idx < N && AllBut(data[..], N, idx)
        invariant data[N..] == old(data[N..])[position := value]
      {
        ghost var s := data[..];
        data[idx] := (data[idx * 2] + data[idx * 2 + 1]) % P_MOD;
        RestoreInner(s, data[..], N, idx);
        idx := idx / 2;
      }
    }
  }

  /** Every inner node except possibly node `hole` is the sum of its children. */
  predicate AllBut(s: seq<nat>, n: nat, hole: nat) {
    n >= 1 && |s| == 2 * n && forall i: nat :: 1 <= i < n && i != hole ==> Inner(s, i)
  }

  lemma StillInner(s: seq<nat>, t: seq<nat>, n: nat, idx: nat)
    requires IsTree(s, n) && n <= idx < 2 * n && |t| == |s|
    requires forall a :: 0 <= a < |s| && a != idx ==> t[a] == s[a]
    ensures AllBut(t, n, idx / 2)
  {
    forall i: nat | 1 <= i < n && i != idx / 2 ensures Inner(t, i) {
      assert Inner(s, i);
    }
  }

  /** Recomputing the hole moves it to the parent. */
  lemma RestoreInner(s: seq<nat>, t: seq<nat>, n: nat, idx: nat)
    requires AllBut(s, n, idx) && 1 <= idx < n && |t| == |s|
    requires t[idx] == Mod(s[2 * idx] + s[2 * idx + 1])
    requires forall a :: 0 <= a < |s| && a != idx ==> t[a] == s[a]
    ensures AllBut(t, n, idx / 2)
  {
    forall i: nat | 1 <= i < n && i != idx / 2 ensures Inner(t, i) {
      if i != idx { assert Inner(s, i); }
    }
  }

  lemma Twice(a: nat, b: nat)
    ensures Times(a, 2 * b) == Times(a * 2, b) && Times(a, 1) == a && Times(1, b) == b
  {
  }

  lemma {:induction false} LeafSum(s: seq<nat>, n: nat, l: nat, r: nat)
    requires n <= |s| && n + r <= |s|
    ensures Sum(s, l + n, r + n) == Sum(s[n..], l, r)
    decreases r
  {
    if l < r {
      LeafSum(s, n, l, r - 1);
      assert r + n - 1 == (r - 1) + n;
    }
  }

  /** Taking an odd left end and an odd right end off a row leaves whole pairs of siblings. */
  lemma TakeEnds(s: seq<nat>, before: nat, l0: nat, r0: nat, l: nat, r: nat, res: nat)
    requires l0 < r0 <= |s| && l == l0 + l0 % 2 && r == r0 - r0 % 2
    requires res == before + (if l0 % 2 == 1 then s[l0] else 0) + (if r0 % 2 == 1 then s[r] else 0)
    ensures l <= r && l % 2 == 0 && r % 2 == 0
    ensures res + Sum(s, l, r) == before + Sum(s, l0, r0)
  {
    if l0 % 2 == 1 { SumFirst(s, l0, r0); }
    if r0 % 2 == 1 { assert Sum(s, l, r0) == Sum(s, l, r) + s[r]; }
  }

  /** One round of the query: the ends are taken and the rest is summed by the parents. */
  lemma Climb(s: seq<nat>, n: nat, before: nat, l0: nat, r0: nat, l: nat, r: nat, res: nat)
    requires IsTree(s, n) && 1 <= l0 < r0 <= 2 * n && l == l0 + l0 % 2 && r == r0 - r0 % 2
    requires res == before + (if l0 % 2 == 1 then s[l0] else 0) + (if r0 % 2 == 1 then s[r] else 0)
    ensures 1 <= l / 2 <= r / 2 <= n
    ensures Mod(res % P_MOD + Sum(s, l / 2, r / 2)) == Mod(before + Sum(s, l0, r0))
  {
    TakeEnds(s, before, l0, r0, l, r, res);
    HalveRow(s, n, res, l / 2, r / 2);
  }

  lemma SumFinished(s: seq<nat>, l: nat, res: nat)
    requires l <= |s| && res < P_MOD
    ensures Mod(res + Sum(s, l, l)) == res
  {
  }

  lemma HalveRow(s: seq<nat>, n: nat, res: nat, l: nat, r: nat)
    requires IsTree(s, n) && 1 <= l <= r <= n
    ensures Mod(Mod(res) + Sum(s, l, r)) == Mod(res + Sum(s, 2 * l, 2 * r))
  {
    SumOfParents(s, n, l, r);
    var (low, high) := (Sum(s, 2 * l, 2 * r), Sum(s, l, r));
    ModAdd(res, low);
    ModAdd(res, high);
  }

  // ----- decreasing subsequences -----

  /** The indices in `c`, all below `m`, are increasing and their values decreasing. */
  predicate IsDecreasing(d: seq<nat>, m: nat, c: seq<nat>)
    requires m <= |d|
  {
    && (forall a :: 0 <= a < |c| ==> c[a] < m)
    && (forall a, b :: 0 <= a < b < |c| ==> c[a] < c[b] && d[c[a]] > d[c[b]])
  }

  /** The decreasing subsequences of length `k` among the first `m` values that end above `v`. */
  ghost function Chains(d: seq<nat>, k: nat, m: nat, v: nat): set<seq<nat>>
    requires m <= |d| && k >= 1
    decreases m, 0
  {
    if m == 0 then {}
    else Chains(d, k, m - 1, v) + (if d[m - 1] > v then Ending(d, k, m - 1) else {})
  }

  /** The decreasing subsequences of length `k` whose last index is `i`. */
  ghost function Ending(d: seq<nat>, k: nat, i: nat): set<seq<nat>>
    requires i < |d| && k >= 1
    decreases i, 1
  {
    if k == 1 then {[i]}
    else Extended(Chains(d, k - 1, i, d[i]), i)
  }

  ghost function Extended(chains: set<seq<nat>>, i: nat): set<seq<nat>> {
    set c | c in chains :: c + [i]
  }

  lemma {:induction false} ChainsAreDecreasing(d: seq<nat>, k: nat, m: nat, v: nat, c: seq<nat>)
    requires m <= |d| && k >= 1
    ensures c in Chains(d, k, m, v) <==> |c| == k && IsDecreasing(d, m, c) && d[c[k - 1]] > v
    decreases m, 0
  {
    if m > 0 {
      ChainsAreDecreasing(d, k, m - 1, v, c);
      EndingIsDecreasing(d, k, m - 1, c);
      if |c| == k && IsDecreasing(d, m, c) && c[k - 1] != m - 1 {
        assert IsDecreasing(d, m - 1, c) by {
          forall a | 0 <= a < |c| ensures c[a] < m - 1 {
            if a < k - 1 { assert c[a] < c[k - 1]; }
          }
        }
      }
    }
  }

  lemma {:induction false} EndingIsDecreasing(d: seq<nat>, k: nat, i: nat, c: seq<nat>)
    requires i < |d| && k >= 1
    ensures c in Ending(d, k, i) <==> |c| == k && IsDecreasing(d, i + 1, c) && c[k - 1] == i
    decreases i, 1
  {
    if k == 1 {
      assert c in Ending(d, k, i) <==> c == [i];
    } else {
      hide IsDecreasing, Chains;
      var shorter := Chains(d, k - 1, i, d[i]);
      assert c in Ending(d, k, i) <==> exists front :: front in shorter && c == front + [i];
      if |c| == k && c[k - 1] == i {
        var front := c[..k - 1];
        assert c == front + [i];
        ChainsAreDecreasing(d, k - 1, i, d[i], front);
        if IsDecreasing(d, i + 1, c) {
          FrontIsDecreasing(d, i, c);
        } else if front in shorter {
          LongerIsDecreasing(d, i, front);
        }
        forall other | other in shorter && c == other + [i] ensures other == front {
          assert other == (other + [i])[..|other|];
        }
      }
      forall front | front in shorter && c == front + [i] ensures |c| == k {
        ChainsAreDecreasing(d, k - 1, i, d[i], front);
      }
    }
  }

  lemma FrontIsDecreasing(d: seq<nat>, i: nat, c: seq<nat>)
    requires i < |d| && |c| >= 2 && IsDecreasing(d, i + 1, c) && c[|c| - 1] == i
    ensures IsDecreasing(d, i, c[..|c| - 1]) && d[c[|c| - 2]] > d[i]
  {
    assert c[|c| - 2] < c[|c| - 1];
  }

  lemma LongerIsDecreasing(d: seq<nat>, i: nat, front: seq<nat>)
    requires i < |d| && |front| >= 1 && IsDecreasing(d, i, front) && d[front[|front| - 1]] > d[i]
    ensures IsDecreasing(d, i + 1, front + [i])
  {
    var c := front + [i];
    forall a, b | 0 <= a < b < |c| ensures c[a] < c[b] && d[c[a]] > d[c[b]] {
      if b < |front| {
        assert front[a] < front[b];
      } else if a < |front| - 1 {
        assert front[a] < front[|front| - 1];
      }
    }
  }

  lemma {:induction false} ExtendedSize(chains: set<seq<nat>>, i: nat)
    ensures |Extended(chains, i)| == |chains|
    decreases |chains|
  {
    if chains != {} {
      var c :| c in chains;
      ExtendedSize(chains - {c}, i);
      assert Extended(chains, i) == Extended(chains - {c}, i) + {c + [i]};
      forall e | e in chains - {c} ensures e + [i] != c + [i] {
        assert (e + [i])[..|e|] == e && (c + [i])[..|c|] == c;
      }
    }
  }

  lemma ChainsSize(d: seq<nat>, k: nat, m: nat, v: nat)
    requires m < |d| && k >= 1
    ensures |Chains(d, k, m + 1, v)| == |Chains(d, k, m, v)| + (if d[m] > v then |Ending(d, k, m)| else 0)
  {
    var (before, last) := (Chains(d, k, m, v), Ending(d, k, m));
    forall c | c in before ensures c !in last {
      ChainsAreDecreasing(d, k, m, v, c);
      EndingIsDecreasing(d, k, m, c);
      assert c[k - 1] < m;
    }
    assert before !! last;
  }

  // ----- what the trees hold -----

  predicate IsPermutation(d: seq<nat>) {
    && (forall i :: 0 <= i < |d| ==> 1 <= d[i] <= |d|)
    && (forall i, j :: 0 <= i < j < |d| ==> d[i] != d[j])
  }

  /**
   * The values in the tree for length `k` after the first `m` values were added: at each of these
   * values, less one, the number of decreasing subsequences of length `k` that end there.
   */
  ghost function Row(d: seq<nat>, size: nat, k: nat, m: nat): (row: seq<nat>)
    requires IsPermutation(d) && |d| <= size && m <= |d| && k >= 1
    ensures |row| == size
  {
    if m == 0 then seq(size, _ => 0)
    else Row(d, size, k, m - 1)[d[m - 1] - 1 := Mod(|Ending(d, k, m - 1)|)]
  }

  lemma {:induction false} RowIsZero(d: seq<nat>, size: nat, k: nat, m: nat, x: nat)
    requires IsPermutation(d) && |d| <= size && m <= |d| && k >= 1 && x < size
    requires forall i :: 0 <= i < m ==> d[i] - 1 != x
    ensures Row(d, size, k, m)[x] == 0
  {
    if m > 0 { RowIsZero(d, size, k, m - 1, x); }
  }

  lemma {:induction false} SumOfZeros(s: seq<nat>, l: nat, r: nat)
    requires r <= |s| && forall i :: 0 <= i < |s| ==> s[i] == 0
    ensures Sum(s, l, r) == 0
    decreases r
  {
    if l < r { SumOfZeros(s, l, r - 1); }
  }

  lemma {:induction false} SumUpdated(s: seq<nat>, x: nat, value: nat, l: nat, r: nat)
    requires x < |s| && s[x] == 0 && r <= |s|
    ensures Sum(s[x := value], l, r) == Sum(s, l, r) + (if l <= x < r then value else 0)
    decreases r
  {
    if l < r { SumUpdated(s, x, value, l, r - 1); }
  }

  /** The values stored above `v` add up to the number of subsequences that end above `v`. */
  lemma {:induction false} NoSum(d: seq<nat>, size: nat, k: nat, v: nat)
    requires IsPermutation(d) && |d| <= size && k >= 1
    ensures Mod(Sum(Row(d, size, k, 0), v, |d|)) == Mod(|Chains(d, k, 0, v)|)
  {
    SumOfZeros(Row(d, size, k, 0), v, |d|);
  }

  lemma {:induction false} RowSum(d: seq<nat>, size: nat, k: nat, m: nat, v: nat)
    requires IsPermutation(d) && |d| <= size && m <= |d| && k >= 1
    ensures Mod(Sum(Row(d, size, k, m), v, |d|)) == Mod(|Chains(d, k, m, v)|)
  {
    hide *;
    if m == 0 {
      NoSum(d, size, k, v);
    } else {
      RowSum(d, size, k, m - 1, v);
      RowSumStep(d, size, k, m - 1, v);
      assert m == (m - 1) + 1;
    }
  }

  /** The next value goes to a place that is still free. */
  lemma RowNext(d: seq<nat>, size: nat, k: nat, m: nat) returns (x: nat, count: nat)
    requires IsPermutation(d) && |d| <= size && m < |d| && k >= 1
    ensures x + 1 == d[m] && count == |Ending(d, k, m)| && x < |d|
    ensures var row := Row(d, size, k, m); row[x] == 0 && Row(d, size, k, m + 1) == row[x := Mod(count)]
  {
    x, count := d[m] - 1, |Ending(d, k, m)|;
    RowIsZero(d, size, k, m, x);
  }

  lemma RowSumStep(d: seq<nat>, size: nat, k: nat, m: nat, v: nat)
    requires IsPermutation(d) && |d| <= size && m < |d| && k >= 1
    requires Mod(Sum(Row(d, size, k, m), v, |d|)) == Mod(|Chains(d, k, m, v)|)
    ensures Mod(Sum(Row(d, size, k, m + 1), v, |d|)) == Mod(|Chains(d, k, m + 1, v)|)
  {
    hide *;
    var x, count := RowNext(d, size, k, m);
    var row := Row(d, size, k, m);
    SumUpdated(row, x, Mod(count), v, |d|);
    ChainsSize(d, k, m, v);
    var (sum, chains) := (Sum(row, v, |d|), |Chains(d, k, m, v)|);
    AddBoth(sum, chains, count);
    var (sum', chains') := (Sum(row[x := Mod(count)], v, |d|), |Chains(d, k, m + 1, v)|);
    assert sum' == sum + (if v <= x then Mod(count) else 0);
    assert chains' == chains + (if v <= x then count else 0);
    assert Mod(sum') == Mod(chains');
  }

  lemma AddBoth(a: nat, b: nat, c: nat)
    requires Mod(a) == Mod(b)
    ensures Mod(a + Mod(c)) == Mod(b + c)
  {
    ModAdd(a, c);
    ModAdd(a, Mod(c));
    ModAdd(b, c);
  }

  /** The number that is stored for value `m` is the number of shorter subsequences that end above it. */
  lemma StoredCount(d: seq<nat>, size: nat, k: nat, m: nat)
    requires IsPermutation(d) && |d| <= size && m < |d| && k >= 1
    ensures Mod(Sum(Row(d, size, k, m + 1), d[m], |d|)) == Mod(|Ending(d, k + 1, m)|)
  {
    RowSum(d, size, k, m + 1, d[m]);
    ChainsSize(d, k, m, d[m]);
    ExtendedSize(Chains(d, k, m, d[m]), m);
  }

  // ----- the program -----

  ghost predicate Trees(trees: seq<SegmentTree>, size: nat, range: nat)
    reads set t | t in trees :: t.data
  {
    && (forall j :: 0 <= j < |trees| ==> trees[j].Valid() && trees[j].N == size && trees[j].range == range)
    && (forall i, j :: 0 <= i < j < |trees| ==> trees[i].data != trees[j].data)
  }

  /** Trees below `done` have `m + 1` values, the others `m`. */
  ghost predicate Counted(trees: seq<SegmentTree>, d: seq<nat>, size: nat, m: nat, done: nat)
    requires Trees(trees, size, |d|) && IsPermutation(d) && |d| <= size
    requires m <= |d| && (done > 0 ==> m < |d|)
    reads set t | t in trees :: t.data
  {
    forall j :: 0 <= j < |trees| ==> trees[j].Leaves() == Row(d, size, j + 1, if j < done then m + 1 else m)
  }

  method AddToTree(trees: seq<SegmentTree>, d: seq<nat>, ghost size: nat, m: nat, j: nat, value: nat)
    requires IsPermutation(d) && |d| <= size && m < |d| && j < |trees|
    requires Trees(trees, size, |d|) && Counted(trees, d, size, m, j)
    requires value == Mod(|Ending(d, j + 1, m)|)
    modifies trees[j].data
    ensures Trees(trees, size, |d|) && Counted(trees, d, size, m, j + 1)
  {
    trees[j].Insert(d[m] - 1, value);
    forall i | 0 <= i < |trees|
      ensures trees[i].Valid() && trees[i].Leaves() == Row(d, size, i + 1, if i < j + 1 then m + 1 else m)
    {
      if i != j {
        assert trees[i].data != trees[j].data;
        assert trees[i].data[..] == old(trees[i].data[..]);
      }
    }
  }

  /** The number that goes into tree `j`, as tree `j - 1` gives it. */
  method ShorterCount(trees: seq<SegmentTree>, d: seq<nat>, ghost size: nat, m: nat, j: nat) returns (count: nat)
    requires IsPermutation(d) && |d| <= size && m < |d| && 1 <= j < |trees|
    requires Trees(trees, size, |d|) && Counted(trees, d, size, m, j)
    ensures count == Mod(|Ending(d, j + 1, m)|)
  {
    count := trees[j - 1].SumRange(d[m], |d|);
    ghost var row := Row(d, size, j, m + 1);
    assert trees[j - 1].Leaves() == row;
    assert count == Mod(Sum(row, d[m], |d|));
    StoredCount(d, size, j, m);
  }

  /** A forest of `k` empty trees. */
  method Plant(d: seq<nat>, k: nat) returns (trees: seq<SegmentTree>)
    requires IsPermutation(d)
    ensures |trees| == k && fresh(set t | t in trees :: t.data)
    ensures Trees(trees, PowerAbove(|d|), |d|) && Counted(trees, d, PowerAbove(|d|), 0, 0)
  {
    trees := [];
    while |trees| < k
      invariant |trees| <= k && fresh(set t | t in trees :: t.data)
      invariant Trees(trees, PowerAbove(|d|), |d|) && Counted(trees, d, PowerAbove(|d|), 0, 0)
    {
      var t := new SegmentTree(|d|);
      FirstRow(t, d, |trees| + 1);
      trees := trees + [t];
    }
  }

  /** One round of the outer loop: the next value goes into every tree. */
  method AddValue(trees: seq<SegmentTree>, d: seq<nat>, ghost size: nat, m: nat)
    requires IsPermutation(d) && |d| <= size && m < |d| && |trees| > 0
    requires Trees(trees, size, |d|) && Counted(trees, d, size, m, 0)
    modifies set t | t in trees :: t.data
    ensures Trees(trees, size, |d|) && Counted(trees, d, size, m + 1, 0)
  {
    AddToTree(trees, d, size, m, 0, 1);
    for j := 1 to |trees|
      invariant Trees(trees, size, |d|) && Counted(trees, d, size, m, j)
    {
      var count := ShorterCount(trees, d, size, m, j);
      AddToTree(trees, d, size, m, j, count);
    }
  }

  /** The program: the number of decreasing subsequences of length `k`, up to multiples of 10^9. */
  method CountDecreasing(d: seq<nat>, k: nat) returns (res: nat)
    requires IsPermutation(d) && k >= 1
    ensures res == Mod(|Chains(d, k, |d|, 0)|)
    ensures res < 1000000000 && (exists q: nat :: |Chains(d, k, |d|, 0)| == 1000000000 * q + res)
    ensures |Chains(d, k, |d|, 0)| < 1000000000 ==> res == |Chains(d, k, |d|, 0)|
    ensures forall c :: c in Chains(d, k, |d|, 0) <==> |c| == k && IsDecreasing(d, |d|, c)
  {
    ghost var size := PowerAbove(|d|);
    var trees := Plant(d, k);
    for m := 0 to |d|
      invariant Trees(trees, size, |d|) && Counted(trees, d, size, m, 0)
    {
      AddValue(trees, d, size, m);
    }
    res := trees[k - 1].SumRange(0, |d|);
    RowSum(d, size, k, |d|, 0);
    ModIs(|Chains(d, k, |d|, 0)|);
    forall c ensures c in Chains(d, k, |d|, 0) <==> |c| == k && IsDecreasing(d, |d|, c) {
      ChainsAreDecreasing(d, k, |d|, 0, c);
    }
  }

  lemma FirstRow(t: SegmentTree, d: seq<nat>, k: nat)
    requires IsPermutation(d) && |d| <= t.N && k >= 1
    requires t.Valid() && forall i :: 0 <= i < t.N ==> t.Leaves()[i] == 0
    ensures t.Leaves() == Row(d, t.N, k, 0)
  {
  }
}
