/** Finding a node at a given distance in a rooted binary tree, with binary lifting. */
module DistantNodes {
  import opened Basics

  const MAX_DEPTH: nat := 19

  /** The link tables cover climbs of fewer than 524288 steps. */
  lemma LinksCover()
    ensures Pow2(MAX_DEPTH) == 524288
  {
    assert Pow2(5) == 32 && Pow2(10) == 32 * Pow2(5) && Pow2(15) == 32 * Pow2(10) && Pow2(19) == 16 * Pow2(15);
  }

  // ----- jumping along links -----

  predicate IsLink(n: nat, x: int) {
    x == -1 || 1 <= x < n
  }

  predicate Links(f: seq<int>) {
    forall v :: 1 <= v < |f| ==> IsLink(|f|, f[v])
  }

  /** The node `k` links after `x`, or -1 when there are fewer links. */
  function Jump(f: seq<int>, x: int, k: nat): (r: int)
    requires Links(f) && IsLink(|f|, x)
    ensures IsLink(|f|, r)
    decreases k
  {
    if x == -1 || k == 0 then x else Jump(f, f[x], k - 1)
  }

  lemma {:induction false} JumpAdd(f: seq<int>, x: int, a: nat, b: nat)
    requires Links(f) && IsLink(|f|, x)
    ensures Jump(f, Jump(f, x, a), b) == Jump(f, x, a + b)
    decreases a
  {
    if x != -1 && a > 0 { JumpAdd(f, f[x], a - 1, b); }
  }

  // ----- the tree -----

  function Deepest(s: seq<nat>): (m: nat)
    ensures forall i :: 0 <= i < |s| ==> s[i] <= m
  {
    if s == [] then 0 else Max(Deepest(s[..|s| - 1]), s[|s| - 1])
  }

  /** The links of a tree with nodes 1, 2, ...; -1 stands for a missing node. */
  datatype Tree = Tree(left: seq<int>, right: seq<int>, parent: seq<int>, depth: seq<nat>) {
    predicate Node(v: int) {
      1 <= v < |parent|
    }

    predicate IsChild(c: int, v: int) {
      c == -1 || (2 <= c < |parent| && parent[c] == v)
    }

    /** Node 1 is the root and every other node is one of the two children of its parent. */
    predicate Valid() {
      && |left| == |right| == |depth| == |parent| >= 2
      && parent[1] == -1 && depth[1] == 0
      && (forall v :: 2 <= v < |parent| ==> Node(parent[v]) && depth[v] == depth[parent[v]] + 1)
      && (forall v :: 2 <= v < |parent| ==> left[parent[v]] == v || right[parent[v]] == v)
      && (forall v :: 1 <= v < |parent| ==> IsChild(left[v], v) && IsChild(right[v], v))
      && (forall v :: 1 <= v < |parent| && left[v] != -1 ==> left[v] != right[v])
    }

    function Below(v: int): nat
      requires Valid() && Node(v)
    {
      Deepest(depth) - depth[v]
    }

    /** The greatest distance to a descendant. */
    function Height(v: int): nat
      requires Valid() && Node(v)
      decreases Below(v)
    {
      var (l, r) := (left[v], right[v]);
      if l == -1 && r == -1 then 0
      else 1 + Max(if l != -1 then Height(l) else 0, if r != -1 then Height(r) else 0)
    }

    /** The child with the greatest height, -1 for a leaf. */
    function Heavy(v: int): int
      requires Valid() && Node(v)
    {
      var (l, r) := (left[v], right[v]);
      var (left_h, right_h) := (if l != -1 then Height(l) else 0, if r != -1 then Height(r) else 0);
      if left_h >= right_h && l != -1 then l else r
    }

    function HeavyLinks(): (f: seq<int>)
      requires Valid()
      ensures Links(f) && |f| == |parent|
    {
      seq(|parent|, v requires 0 <= v < |parent| => if v == 0 then -1 else Heavy(v))
    }

    function Brother(v: int): int
      requires Valid() && Node(v)
    {
      if parent[v] == -1 then -1
      else if v == left[parent[v]] then right[parent[v]]
      else left[parent[v]]
    }

    /** The number of steps from `v` up to the parent of `u`, a brother of `v` or of an ancestor. */
    function Steps(v: int, u: int): int
      requires Valid() && Node(v) && Node(u)
    {
      depth[v] as int - depth[u] as int + 1
    }

    /** The length of the longest path from `v` over `u`, a brother of `v` or of an ancestor. */
    function Via(v: int, u: int): int
      requires Valid() && Node(v) && Node(u)
    {
      Steps(v, u) + 1 + Height(u)
    }

    /** The brother of `v` or of an ancestor over which the path from `v` can be longest, -1 if there is none. */
    function Turn(v: int): (u: int)
      requires Valid() && Node(v)
      ensures u == -1 || Node(u)
      decreases depth[v]
    {
      var (b, p) := (Brother(v), parent[v]);
      if p == -1 then -1
      else if b == -1 then Turn(p)
      else if Turn(p) == -1 || Via(v, b) >= Via(v, Turn(p)) then b
      else Turn(p)
    }

    /** The greatest distance that is found. */
    function Reach(v: int): int
      requires Valid() && Node(v)
    {
      if Turn(v) == -1 then Height(v) else Max(Height(v), Via(v, Turn(v)))
    }

    predicate Adjacent(x: int, y: int)
      requires Valid() && Node(x) && Node(y)
    {
      parent[x] == y || parent[y] == x
    }

    predicate IsWalk(p: seq<int>, a: int, x: int)
      requires Valid()
    {
      && |p| > 0 && p[0] == a && p[|p| - 1] == x
      && (forall i :: 0 <= i < |p| ==> Node(p[i]))
      && (forall i :: 0 < i < |p| ==> Adjacent(p[i - 1], p[i]))
    }

    /** A shortest walk from `a` to `x` has `d` steps. */
    ghost predicate Distance(a: int, x: int, d: nat)
      requires Valid()
    {
      && (exists p :: IsWalk(p, a, x) && |p| == d + 1)
      && (forall p :: IsWalk(p, a, x) ==> |p| >= d + 1)
    }

    /** The `k`-th ancestor. */
    function Up(v: int, k: nat): (r: int)
      requires Valid() && IsLink(|parent|, v)
      ensures IsLink(|parent|, r)
    {
      Jump(parent, v, k)
    }

    /** Climbing `i` steps from `a` meets climbing `j` steps from `x`. */
    predicate Meet(a: int, x: int, i: nat, j: nat)
      requires Valid() && Node(a) && Node(x)
    {
      Up(a, i) == Up(x, j) != -1
    }

    /** The two climbs do not meet a step earlier. */
    predicate FirstMeet(a: int, x: int, i: nat, j: nat)
      requires Valid() && Node(a) && Node(x)
    {
      Meet(a, x, i, j) && (i > 0 && j > 0 ==> Up(a, i - 1) != Up(x, j - 1))
    }
  }

  // ----- ancestors and distances -----

  lemma UpStep(t: Tree, v: int, k: nat)
    requires t.Valid() && t.Node(v)
    ensures t.Up(v, 0) == v
    ensures k > 0 ==> t.Up(v, k) == t.Up(t.parent[v], k - 1)
    ensures t.Up(v, k) != -1 ==> t.Up(v, k + 1) == t.parent[t.Up(v, k)]
    ensures t.Up(v, k) == -1 ==> t.Up(v, k + 1) == -1
  {
    JumpAdd(t.parent, v, k, 1);
    assert forall x :: t.Node(x) ==> Jump(t.parent, x, 1) == Jump(t.parent, t.parent[x], 0);
  }

  lemma {:induction false} UpDepth(t: Tree, v: int, k: nat)
    requires t.Valid() && t.Node(v)
    ensures t.Up(v, k) != -1 <==> k <= t.depth[v]
    ensures t.Up(v, k) != -1 ==> t.depth[t.Up(v, k)] == t.depth[v] - k
    decreases k
  {
    UpStep(t, v, k);
    if k > 0 && t.parent[v] != -1 { UpDepth(t, t.parent[v], k - 1); }
  }

  /** A walk up and down. */
  lemma WalkOn(t: Tree, p: seq<int>, a: int, y: int, x: int) returns (q: seq<int>)
    requires t.Valid() && t.IsWalk(p, a, y) && t.Node(x) && t.Adjacent(y, x)
    ensures t.IsWalk(q, a, x) && q == p + [x]
  {
    q := p + [x];
  }

  lemma {:induction false} MeetingWalk(t: Tree, a: int, x: int, i: nat, j: nat) returns (p: seq<int>)
    requires t.Valid() && t.Node(a) && t.Node(x) && t.Meet(a, x, i, j)
    ensures t.IsWalk(p, a, x) && |p| == i + j + 1
    decreases i + j
  {
    UpStep(t, x, j);
    if j > 0 {
      assert t.parent[x] != -1;
      p := MeetingWalk(t, a, t.parent[x], i, j - 1);
      p := WalkOn(t, p, a, t.parent[x], x);
    } else if i > 0 {
      UpStep(t, a, i - 1);
      var y := t.Up(a, i - 1);
      UpStep(t, y, 0);
      p := MeetingWalk(t, a, y, i - 1, 0);
      p := WalkOn(t, p, a, y, x);
    } else {
      p := [a];
    }
  }

  /** Every walk is at least as long as some meeting of the climbs. */
  lemma {:induction false} WalkMeets(t: Tree, p: seq<int>, a: int, x: int) returns (i: nat, j: nat)
    requires t.Valid() && t.IsWalk(p, a, x)
    ensures t.Node(a) && t.Node(x) && t.Meet(a, x, i, j) && i + j < |p|
    decreases |p|
  {
    if |p| == 1 {
      i, j := 0, 0;
      UpStep(t, a, 0);
    } else {
      var y := p[|p| - 2];
      assert t.Adjacent(p[|p| - 2], p[|p| - 1]);
      i, j := WalkMeets(t, p[..|p| - 1], a, y);
      UpStep(t, a, i);
      UpStep(t, y, j);
      if t.parent[x] == y {
        UpStep(t, x, j + 1);
        j := j + 1;
      } else if j > 0 {
        j := j - 1;
      } else {
        UpStep(t, x, 0);
        i := i + 1;
      }
    }
  }

  lemma MeetLater(t: Tree, a: int, x: int, i: nat, j: nat, k: nat)
    requires t.Valid() && t.Node(a) && t.Node(x) && t.Meet(a, x, i, j)
    ensures t.Up(a, i + k) == t.Up(x, j + k)
  {
    JumpAdd(t.parent, a, i, k);
    JumpAdd(t.parent, x, j, k);
  }

  /** Where the climbs first meet is the distance. */
  lemma {:induction false} FirstMeetIsDistance(t: Tree, a: int, x: int, i: nat, j: nat)
    requires t.Valid() && t.Node(a) && t.Node(x) && t.FirstMeet(a, x, i, j)
    ensures t.Distance(a, x, i + j)
  {
    var p := MeetingWalk(t, a, x, i, j);
    forall q | t.IsWalk(q, a, x) ensures |q| >= i + j + 1 {
      var i', j' := WalkMeets(t, q, a, x);
      UpDepth(t, a, i);
      UpDepth(t, x, j);
      UpDepth(t, a, i');
      UpDepth(t, x, j');
      assert i - i' == j - j';
      if i' < i {
        MeetLater(t, a, x, i', j', i - 1 - i');
        assert false;
      }
    }
  }

  lemma {:induction false} Earliest(t: Tree, a: int, x: int, i0: nat, j0: nat) returns (i: nat, j: nat)
    requires t.Valid() && t.Node(a) && t.Node(x) && t.Meet(a, x, i0, j0)
    ensures t.FirstMeet(a, x, i, j)
    decreases i0
  {
    if i0 > 0 && j0 > 0 && t.Up(a, i0 - 1) == t.Up(x, j0 - 1) {
      UpDepth(t, a, i0);
      UpDepth(t, a, i0 - 1);
      i, j := Earliest(t, a, x, i0 - 1, j0 - 1);
    } else {
      i, j := i0, j0;
    }
  }

  lemma {:induction false} DistanceMeets(t: Tree, a: int, x: int, d: nat) returns (i: nat, j: nat)
    requires t.Valid() && t.Distance(a, x, d)
    ensures t.Node(a) && t.Node(x) && t.FirstMeet(a, x, i, j) && i + j == d
  {
    var p :| t.IsWalk(p, a, x) && |p| == d + 1;
    i, j := WalkMeets(t, p, a, x);
    i, j := Earliest(t, a, x, i, j);
    FirstMeetIsDistance(t, a, x, i, j);
    var q := MeetingWalk(t, a, x, i, j);
  }

  // ----- heights and turns -----

  lemma {:induction false} HeavyHeight(t: Tree, v: int)
    requires t.Valid() && t.Node(v)
    ensures t.Height(v) == 0 <==> t.Heavy(v) == -1
    ensures t.Heavy(v) != -1 ==> t.Node(t.Heavy(v)) && t.parent[t.Heavy(v)] == v && t.Height(t.Heavy(v)) == t.Height(v) - 1
  {
  }

  /** Going down along the highest children reaches a descendant at every distance up to the height. */
  lemma {:induction false} DownReaches(t: Tree, v: int, j: nat)
    requires t.Valid() && t.Node(v) && j <= t.Height(v)
    ensures var x := Jump(t.HeavyLinks(), v, j); t.Node(x) && t.Up(x, j) == v
    decreases j
  {
    var x := Jump(t.HeavyLinks(), v, j);
    if j == 0 {
      UpStep(t, v, 0);
    } else {
      HeavyHeight(t, v);
      var w := t.Heavy(v);
      assert t.HeavyLinks()[v] == w;
      DownReaches(t, w, j - 1);
      UpStep(t, x, j - 1);
    }
  }

  /** No descendant is farther away than the height. */
  lemma {:induction false} HeightBounds(t: Tree, v: int, x: int, j: nat)
    requires t.Valid() && t.Node(v) && t.Node(x) && t.Up(x, j) == v
    ensures j <= t.Height(v)
    decreases j
  {
    if j > 0 {
      UpDepth(t, x, j);
      UpDepth(t, x, j - 1);
      UpStep(t, x, j - 1);
      var w := t.Up(x, j - 1);
      HeightBounds(t, w, x, j - 1);
      assert t.left[v] == w || t.right[v] == w;
    }
  }

  /** The best turn is the brother of an ancestor or of the node itself. */
  lemma {:induction false} TurnIsBrother(t: Tree, v: int)
    requires t.Valid() && t.Node(v) && t.Turn(v) != -1
    ensures var u := t.Turn(v);
      && t.depth[u] <= t.depth[v] && t.parent[u] != -1 && t.Steps(v, u) <= t.depth[v]
      && t.Up(v, t.depth[v] - t.depth[u] + 1) == t.parent[u]
      && t.Up(v, t.depth[v] - t.depth[u]) != u
    decreases t.depth[v]
  {
    var (u, p) := (t.Turn(v), t.parent[v]);
    UpStep(t, v, 0);
    if u == t.Brother(v) {
      UpStep(t, p, 0);
      UpStep(t, v, 1);
    } else {
      TurnIsBrother(t, p);
      UpStep(t, v, t.depth[v] - t.depth[u] + 1);
      UpStep(t, v, t.depth[v] - t.depth[u]);
    }
  }

  /** No brother of an ancestor allows a longer path than the best turn. */
  lemma {:induction false} TurnIsBest(t: Tree, v: int, k: nat)
    requires t.Valid() && t.Node(v) && t.Up(v, k) != -1 && t.Brother(t.Up(v, k)) != -1
    ensures t.Turn(v) != -1 && t.Via(v, t.Brother(t.Up(v, k))) <= t.Via(v, t.Turn(v))
    decreases k
  {
    UpStep(t, v, k);
    if k > 0 {
      TurnIsBest(t, t.parent[v], k - 1);
    }
  }

  // ----- what is found -----

  function Found(t: Tree, a: int, d: nat): (x: int)
    requires t.Valid() && t.Node(a)
    ensures IsLink(|t.parent|, x)
  {
    if t.Height(a) >= d then Jump(t.HeavyLinks(), a, d)
    else if t.Turn(a) == -1 then -1
    else
      var u := t.Turn(a);
      var top := t.Steps(a, u);
      if top >= d then t.Up(a, d)
      else if d - top - 1 <= t.Height(u) then Jump(t.HeavyLinks(), u, d - top - 1)
      else -1
  }

  /** The node that is found is at the wanted distance, and one is found exactly up to the reach. */
  lemma {:induction false} FoundIsRight(t: Tree, a: int, d: nat)
    requires t.Valid() && t.Node(a)
    ensures Found(t, a, d) != -1 ==> t.Distance(a, Found(t, a, d), d)
    ensures Found(t, a, d) == -1 <==> d > t.Reach(a)
  {
    var x := Found(t, a, d);
    if t.Height(a) >= d {
      DownReaches(t, a, d);
      UpStep(t, a, 0);
      FirstMeetIsDistance(t, a, x, 0, d);
    } else if t.Turn(a) != -1 {
      TurnIsBrother(t, a);
      var top := t.Steps(a, t.Turn(a));
      if top >= d {
        ClimbIsRight(t, a, d);
      } else if d - top - 1 <= t.Height(t.Turn(a)) {
        TurnIsRight(t, a, d - top - 1, d);
      }
    }
  }

  lemma {:induction false} ClimbIsRight(t: Tree, a: int, d: nat)
    requires t.Valid() && t.Node(a) && d <= t.depth[a]
    ensures t.Node(t.Up(a, d)) && t.Distance(a, t.Up(a, d), d)
  {
    UpDepth(t, a, d);
    UpStep(t, t.Up(a, d), 0);
    FirstMeetIsDistance(t, a, t.Up(a, d), d, 0);
  }

  lemma {:induction false} TurnIsRight(t: Tree, a: int, j: nat, d: nat)
    requires t.Valid() && t.Node(a) && t.Turn(a) != -1 && j <= t.Height(t.Turn(a))
    requires d == t.Steps(a, t.Turn(a)) + j + 1
    ensures t.Distance(a, Jump(t.HeavyLinks(), t.Turn(a), j), d)
  {
    var u := t.Turn(a);
    var x := Jump(t.HeavyLinks(), u, j);
    TurnIsBrother(t, a);
    DownReaches(t, u, j);
    UpStep(t, x, j);
    FirstMeetIsDistance(t, a, x, t.Steps(a, u), j + 1);
  }

  /** Beyond the reach there are only ancestors. */
  lemma {:induction false} NothingBeyond(t: Tree, a: int, x: int, d: nat)
    requires t.Valid() && t.Node(a) && t.Distance(a, x, d)
    ensures d <= t.Reach(a) || (d <= t.depth[a] && x == t.Up(a, d))
  {
    var i, j := DistanceMeets(t, a, x, d);
    UpDepth(t, a, i);
    if j == 0 {
    } else if i == 0 {
      UpStep(t, a, 0);
      HeightBounds(t, a, x, j);
    } else {
      UpDepth(t, a, i - 1);
      UpDepth(t, x, j);
      UpDepth(t, x, j - 1);
      UpStep(t, a, i - 1);
      UpStep(t, x, j - 1);
      var (w, u) := (t.Up(a, i - 1), t.Up(x, j - 1));
      assert t.parent[w] == t.parent[u] && w != u;
      assert t.Brother(w) == u;
      TurnIsBest(t, a, i - 1);
      HeightBounds(t, u, x, j - 1);
    }
  }

  /**
   * A missing node is reported exactly when there is none, unless only ancestors are at the distance:
   * the answer is right if and only if the distance is within reach or leads above the root.
   */
  lemma {:induction false} MissingIsRight(t: Tree, a: int, d: nat)
    requires t.Valid() && t.Node(a)
    ensures (Found(t, a, d) == -1 <==> forall x :: !t.Distance(a, x, d)) <==> (d <= t.Reach(a) || d > t.depth[a])
  {
    FoundIsRight(t, a, d);
    if d > t.Reach(a) && d <= t.depth[a] {
      ClimbIsRight(t, a, d);
    }
    forall x | d > t.Reach(a) && d > t.depth[a] ensures !t.Distance(a, x, d) {
      if t.Distance(a, x, d) { NothingBeyond(t, a, x, d); }
    }
  }

  /** Every node has two children or none. */
  predicate Full(t: Tree)
    requires t.Valid()
  {
    forall v :: 1 <= v < |t.parent| ==> (t.left[v] == -1 <==> t.right[v] == -1)
  }

  /** In a full tree every distance up to the root is within reach. */
  lemma {:induction false} FullReaches(t: Tree, a: int)
    requires t.Valid() && t.Node(a) && Full(t)
    ensures t.Reach(a) >= t.depth[a]
  {
    if t.depth[a] > 0 {
      var k := t.depth[a] - 1;
      UpDepth(t, a, k);
      var w := t.Up(a, k);
      assert t.depth[w] == 1 && t.parent[w] != -1;
      assert t.Brother(w) != -1;
      TurnIsBest(t, a, k);
    }
  }

  /** In a full tree nothing is missed. */
  lemma {:induction false} FullIsRight(t: Tree, a: int, d: nat)
    requires t.Valid() && t.Node(a) && Full(t)
    ensures Found(t, a, d) == -1 <==> forall x :: !t.Distance(a, x, d)
  {
    FullReaches(t, a);
    MissingIsRight(t, a, d);
  }

  /** Below a single child the parent is missed. */
  lemma {:induction false} ParentIsMissed()
    ensures var t := Tree([-1, 2, -1], [-1, -1, -1], [-1, -1, 1], [0, 0, 1]);
      t.Valid() && Found(t, 2, 1) == -1 && t.Distance(2, 1, 1)
  {
    var t := Tree([-1, 2, -1], [-1, -1, -1], [-1, -1, 1], [0, 0, 1]);
    assert t.Turn(1) == -1 && t.Brother(2) == -1;
    assert t.Height(2) == 0;
    UpStep(t, 2, 0);
    UpStep(t, 1, 0);
    UpStep(t, 2, 1);
    FirstMeetIsDistance(t, 2, 1, 1, 0);
  }

  // ----- the program -----

  class Nodes {
    const n: nat
    const left: array<int>
    const right: array<int>
    const parent: array<int>
    const bestTurn: array<int>
    const height: array<int>
    const pos: array<int>
    const upLinks: array2<int>
    const downLinks: array2<int>

    /** The arrays, one for each field of a node, are all there and apart. */
    ghost predicate Valid() {
      && left.Length == right.Length == parent.Length == bestTurn.Length == height.Length == pos.Length == n
      && upLinks.Length0 == downLinks.Length0 == n && upLinks.Length1 == downLinks.Length1 == MAX_DEPTH
      && left != right && left != parent && left != bestTurn && left != height && left != pos
      && right != parent && right != bestTurn && right != height && right != pos
      && parent != bestTurn && parent != height && parent != pos
      && bestTurn != height && bestTurn != pos && height != pos && upLinks != downLinks
    }

    /** The children and parents are those of tree `t`. */
    ghost predicate Holds(t: Tree)
      reads left, right, parent
    {
      Valid() && t.Valid() && |t.parent| == n && left[..] == t.left && right[..] == t.right && parent[..] == t.parent
    }

    constructor (size: nat)
      ensures Valid() && n == size + 1 && Blank()
      ensures fresh(left) && fresh(right) && fresh(parent) && fresh(bestTurn) && fresh(height) && fresh(pos)
      ensures fresh(upLinks) && fresh(downLinks)
    {
      n := size + 1;
      left, right := new int[size + 1](_ => -1), new int[size + 1](_ => -1);
      parent, bestTurn := new int[size + 1](_ => -1), new int[size + 1](_ => -1);
      height, pos := new int[size + 1](_ => 0), new int[size + 1](_ => 0);
      upLinks := new int[size + 1, MAX_DEPTH]((_, _) => -1);
      downLinks := new int[size + 1, MAX_DEPTH]((_, _) => -1);
    }

    ghost predicate Blank()
      requires Valid()
      reads left, right, parent, bestTurn, height, pos, upLinks, downLinks
    {
      && (forall v :: 0 <= v < n ==> left[v] == right[v] == parent[v] == bestTurn[v] == -1 && height[v] == pos[v] == 0)
      && (forall v, l :: 0 <= v < n && 0 <= l < MAX_DEPTH ==> upLinks[v, l] == downLinks[v, l] == -1)
    }

    method SetChildren(i: int, a: int, b: int)
      requires Valid() && 1 <= i < n && a < n && b < n
      modifies left, right, parent
      ensures forall v :: 0 <= v < n ==> left[v] == if v == i && a >= 1 then a else old(left[v])
      ensures forall v :: 0 <= v < n ==> right[v] == if v == i && b >= 1 then b else old(right[v])
      ensures forall v :: 0 <= v < n ==> parent[v] == if v >= 1 && (v == a || v == b) then i else old(parent[v])
    {
      if a >= 1 {
        left[i] := a;
        parent[a] := i;
      }
      if b >= 1 {
        parent[b] := i;
        right[i] := b;
      }
    }

    /** The links of the nodes below `i` and the links to them are set. */
    ghost predicate Partly(t: Tree, i: nat)
      reads left, right, parent
    {
      && Valid() && t.Valid() && |t.parent| == n && t.parent[0] == -1
      && (forall v :: 0 <= v < n ==> left[v] == if v < i then t.left[v] else -1)
      && (forall v :: 0 <= v < n ==> right[v] == if v < i then t.right[v] else -1)
      && (forall v :: 0 <= v < n ==> parent[v] == if t.parent[v] < i then t.parent[v] else -1)
    }

    method SetNext(i: int, a: int, b: int, ghost t: Tree)
      requires 1 <= i < n && Partly(t, i)
      requires t.left[i] == (if a >= 1 then a else -1) && t.right[i] == (if b >= 1 then b else -1)
      modifies left, right, parent
      ensures Partly(t, i + 1)
    {
      assert t.IsChild(t.left[i], i) && t.IsChild(t.right[i], i);
      SetChildren(i, a, b);
      forall v | 0 <= v < n ensures parent[v] == if t.parent[v] < i + 1 then t.parent[v] else -1 {
        if v >= 1 && t.parent[v] == i {
          assert t.left[i] == v || t.right[i] == v;
        }
      }
    }

    // ----- heights, positions and turns -----

    ghost predicate HeightDone(t: Tree, x: int)
      requires Valid() && t.Valid() && |t.parent| == n && t.Node(x)
      reads height, downLinks
    {
      height[x] == t.Height(x) && downLinks[x, 0] == t.Heavy(x)
    }

    /** Every node has its height, or still has none; no longer links yet. */
    ghost predicate Heights(t: Tree)
      requires Valid() && t.Valid() && |t.parent| == n
      reads height, downLinks
    {
      && (forall x :: 1 <= x < n ==> HeightDone(t, x) || (height[x] == 0 && downLinks[x, 0] == -1))
      && (forall x, l :: 1 <= x < n && 1 <= l < MAX_DEPTH ==> downLinks[x, l] == -1)
    }

    method CalculateHeight(v: int, ghost t: Tree)
      requires Holds(t) && t.Node(v) && Heights(t)
      requires t.left[v] != -1 ==> HeightDone(t, t.left[v])
      requires t.right[v] != -1 ==> HeightDone(t, t.right[v])
      modifies height, downLinks
      ensures Heights(t) && HeightDone(t, v)
      ensures forall x :: 1 <= x < n && old(HeightDone(t, x)) ==> HeightDone(t, x)
    {
      var left_h := if left[v] != -1 then height[left[v]] else 0;
      var right_h := if right[v] != -1 then height[right[v]] else 0;
      if left[v] != -1 || right[v] != -1 {
        height[v] := 1 + Max(left_h, right_h);
      }
      if left_h >= right_h && left[v] != -1 {
        downLinks[v, 0] := left[v];
      } else if right[v] != -1 {
        downLinks[v, 0] := right[v];
      }
      assert HeightDone(t, v);
      forall x | 1 <= x < n && x != v && old(HeightDone(t, x)) ensures HeightDone(t, x) {
      }
    }

    /** The first walk, children before parents. */
    method VisitHeights(node: int, ghost t: Tree)
      requires Holds(t) && IsLink(n, node) && Heights(t)
      modifies height, downLinks
      ensures Heights(t)
      ensures forall x :: 1 <= x < n && (old(HeightDone(t, x)) || Under(t, node, x)) ==> HeightDone(t, x)
      decreases if node == -1 then 0 else t.Below(node) + 1
    {
      if node == -1 {
        return;
      }
      VisitHeights(left[node], t);
      VisitHeights(right[node], t);
      forall c | c == t.left[node] || c == t.right[node] ensures c != -1 ==> HeightDone(t, c) {
        if c != -1 { UpStep(t, c, 0); }
      }
      CalculateHeight(node, t);
      UnderChildren(t, node);
    }

    ghost predicate PosDone(t: Tree, x: int)
      requires Valid() && t.Valid() && |t.parent| == n && t.Node(x)
      reads pos
    {
      pos[x] == t.depth[x]
    }

    /** The second walk, parents before children. */
    method VisitPositions(node: int, ghost t: Tree)
      requires Holds(t) && IsLink(n, node)
      requires forall x :: 1 <= x < n ==> PosDone(t, x) || pos[x] == 0
      requires node > 1 ==> PosDone(t, t.parent[node])
      modifies pos
      ensures forall x :: 1 <= x < n ==> PosDone(t, x) || pos[x] == 0
      ensures forall x :: 1 <= x < n && (old(PosDone(t, x)) || Under(t, node, x)) ==> PosDone(t, x)
      decreases if node == -1 then 0 else t.Below(node) + 1
    {
      if node == -1 {
        return;
      }
      if parent[node] != -1 {
        pos[node] := pos[parent[node]] + 1;
      }
      assert PosDone(t, node);
      VisitPositions(left[node], t);
      VisitPositions(right[node], t);
      UnderChildren(t, node);
    }

    ghost predicate Measured(t: Tree)
      requires Valid() && t.Valid() && |t.parent| == n
      reads height, pos, downLinks
    {
      forall x :: 1 <= x < n ==> HeightDone(t, x) && PosDone(t, x)
    }

    ghost predicate TurnDone(t: Tree, x: int)
      requires Valid() && t.Valid() && |t.parent| == n && t.Node(x)
      reads bestTurn
    {
      bestTurn[x] == t.Turn(x)
    }

    method GetBrother(v: int, ghost t: Tree) returns (brother: int)
      requires Holds(t) && t.Node(v)
      ensures brother == t.Brother(v)
    {
      if parent[v] == -1 {
        return -1;
      }
      if v == left[parent[v]] {
        return right[parent[v]];
      }
      return left[parent[v]];
    }

    method CalculateTurn(v: int, ghost t: Tree)
      requires Holds(t) && t.Node(v) && Measured(t)
      requires v > 1 ==> TurnDone(t, t.parent[v])
      requires forall x :: 1 <= x < n ==> TurnDone(t, x) || bestTurn[x] == -1
      modifies bestTurn
      ensures TurnDone(t, v) && forall x :: 1 <= x < n && x != v ==> bestTurn[x] == old(bestTurn[x])
    {
      var brother := GetBrother(v, t);
      var above := parent[v];
      if brother == -1 && above == -1 {
        return;
      }
      if brother == -1 {
        bestTurn[v] := bestTurn[above];
        return;
      }
      if above == -1 || bestTurn[above] == -1 {
        bestTurn[v] := brother;
        return;
      }
      var turn := bestTurn[above];
      assert HeightDone(t, brother) && HeightDone(t, turn) && PosDone(t, v) && PosDone(t, turn);
      if height[brother] >= pos[v] - pos[turn] + height[turn] {
        bestTurn[v] := brother;
      } else {
        bestTurn[v] := turn;
      }
    }

    /** The third walk, parents before children. */
    method VisitTurns(node: int, ghost t: Tree)
      requires Holds(t) && IsLink(n, node) && Measured(t)
      requires forall x :: 1 <= x < n ==> TurnDone(t, x) || bestTurn[x] == -1
      requires node > 1 ==> TurnDone(t, t.parent[node])
      modifies bestTurn
      ensures forall x :: 1 <= x < n ==> TurnDone(t, x) || bestTurn[x] == -1
      ensures forall x :: 1 <= x < n && (old(TurnDone(t, x)) || Under(t, node, x)) ==> TurnDone(t, x)
      decreases if node == -1 then 0 else t.Below(node) + 1
    {
      if node == -1 {
        return;
      }
      CalculateTurn(node, t);
      VisitTurns(left[node], t);
      VisitTurns(right[node], t);
      UnderChildren(t, node);
    }

    method CalculateData(ghost t: Tree)
      requires Holds(t) && Heights(t) && forall x :: 1 <= x < n ==> pos[x] == 0 && bestTurn[x] == -1
      modifies height, downLinks, pos, bestTurn
      ensures Heights(t) && Measured(t) && forall x :: 1 <= x < n ==> TurnDone(t, x)
    {
      AllUnderRoot(t);
      VisitHeights(1, t);
      VisitPositions(1, t);
      VisitTurns(1, t);
    }

    // ----- links -----

    /** All links of lengths 1, 2, 4, ... */
    method SetupLinks(ghost t: Tree)
      requires Holds(t)
      requires Filled(upLinks, t.parent, 1, 1) && Filled(downLinks, t.HeavyLinks(), 1, 1)
      modifies upLinks, downLinks
      ensures Filled(upLinks, t.parent, MAX_DEPTH, 1) && Filled(downLinks, t.HeavyLinks(), MAX_DEPTH, 1)
    {
      assert n >= 2;
      hide Tree.Valid, Tree.HeavyLinks;
      for i := 1 to MAX_DEPTH
        invariant Filled(upLinks, t.parent, i, 1) && Filled(downLinks, t.HeavyLinks(), i, 1)
      {
        for j := 1 to n
          invariant Filled(upLinks, t.parent, i, j) && Filled(downLinks, t.HeavyLinks(), i, j)
        {
          FillNext(upLinks, t.parent, i, j);
          FillNext(downLinks, t.HeavyLinks(), i, j);
        }
      }
    }

    /** Everything a query reads belongs to tree `t`. */
    ghost predicate Ready(t: Tree)
      reads left, right, parent, height, pos, bestTurn, upLinks, downLinks
    {
      && Holds(t) && Measured(t) && (forall x :: 1 <= x < n ==> TurnDone(t, x))
      && Filled(upLinks, t.parent, MAX_DEPTH, 1) && Filled(downLinks, t.HeavyLinks(), MAX_DEPTH, 1)
    }

    method Finalize(ghost t: Tree)
      requires Holds(t) && (forall x :: 1 <= x < n ==> height[x] == pos[x] == 0 && bestTurn[x] == -1)
      requires forall v, l :: 0 <= v < n && 0 <= l < MAX_DEPTH ==> upLinks[v, l] == downLinks[v, l] == -1
      modifies height, pos, bestTurn, upLinks, downLinks
      ensures Ready(t)
    {
      CalculateData(t);
      hide Tree.Valid, Tree.Heavy, Tree.Height, Tree.Turn, Jump;
      for i := 2 to n
        modifies upLinks
        invariant forall v, l :: 1 <= v < n && 0 <= l < MAX_DEPTH ==>
          upLinks[v, l] == if l == 0 && v < i then t.parent[v] else -1
      {
        upLinks[i, 0] := parent[i];
      }
      BaseLinks(t);
      SetupLinks(t);
      LinksKept(t);
    }

    /** A query: a node at the wanted distance, or -1 beyond the reach. */
    method FindNode(a: int, d: nat, ghost t: Tree) returns (r: int)
      requires Ready(t) && t.Node(a) && Deepest(t.depth) < Pow2(MAX_DEPTH)
      ensures r != -1 ==> t.Distance(a, r, d)
      ensures r == -1 <==> d > t.Reach(a)
      ensures Full(t) ==> (r == -1 <==> forall x :: !t.Distance(a, x, d))
    {
      r := Find(a, d, t);
      FoundIsRight(t, a, d);
      if Full(t) { FullIsRight(t, a, d); }
    }

    method Find(a: int, distance: nat, ghost t: Tree) returns (r: int)
      requires Ready(t) && t.Node(a) && Deepest(t.depth) < Pow2(MAX_DEPTH)
      ensures r == Found(t, a, distance)
    {
      hide Tree.Valid, Tree.Height, Tree.Turn, Tree.Heavy, Tree.HeavyLinks, Tree.Reach, Tree.Distance, Jump, Deepest, Pow2, Filled;
      var d := distance;
      assert HeightDone(t, a) && PosDone(t, a) && TurnDone(t, a);
      if height[a] >= d {
        r := GoDown(a, d, t);
        return;
      }
      if bestTurn[a] == -1 {
        return -1;
      }
      var turn := bestTurn[a];
      assert HeightDone(t, turn) && PosDone(t, turn);
      TurnIsBrother(t, a);
      if pos[a] - pos[turn] + 1 >= d {
        r := GoUp(a, d, t);
        return;
      }
      d := d - (pos[a] - pos[turn] + 2);
      if d <= height[turn] {
        r := GoDown(turn, d, t);
        return;
      }
      return -1;
    }

    method GoUp(start: int, d: nat, ghost t: Tree) returns (r: int)
      requires Ready(t) && t.Node(start) && Deepest(t.depth) < Pow2(MAX_DEPTH) && d <= t.depth[start]
      ensures r == t.Up(start, d)
    {
      HeightBelow(t, start);
      ClimbIsRight(t, start, d);
      r := GoDirection(start, d, upLinks, t.parent);
    }

    method GoDown(start: int, d: nat, ghost t: Tree) returns (r: int)
      requires Ready(t) && t.Node(start) && Deepest(t.depth) < Pow2(MAX_DEPTH) && d <= t.Height(start)
      ensures r == Jump(t.HeavyLinks(), start, d)
    {
      HeightBelow(t, start);
      DownReaches(t, start, d);
      r := GoDirection(start, d, downLinks, t.HeavyLinks());
    }

    lemma BaseLinks(t: Tree)
      requires Holds(t) && Heights(t) && Measured(t)
      requires forall v, l :: 1 <= v < n && 0 <= l < MAX_DEPTH ==> upLinks[v, l] == if l == 0 then t.parent[v] else -1
      ensures Filled(upLinks, t.parent, 1, 1) && Filled(downLinks, t.HeavyLinks(), 1, 1)
    {
      JumpOnce(t);
      forall v, l: nat | 1 <= v < n && l < MAX_DEPTH
        ensures downLinks[v, l] == if l < 1 then Jump(t.HeavyLinks(), v, Pow2(l)) else -1
      {
        assert HeightDone(t, v);
      }
    }

    lemma LinksKept(t: Tree)
      requires Holds(t) && Filled(downLinks, t.HeavyLinks(), MAX_DEPTH, 1)
      ensures forall x :: t.Node(x) ==> downLinks[x, 0] == t.Heavy(x)
    {
      JumpOnce(t);
      forall x | t.Node(x) ensures downLinks[x, 0] == t.Heavy(x) {
        assert downLinks[x, 0] == Jump(t.HeavyLinks(), x, Pow2(0));
      }
    }
  }

  // ----- parts of the program -----

  ghost predicate Filled(table: array2<int>, f: seq<int>, i: nat, j: nat)
    reads table
  {
    && Links(f) && table.Length0 == |f| && table.Length1 == MAX_DEPTH
    && forall v, l: nat :: 1 <= v < |f| && l < MAX_DEPTH ==>
        table[v, l] == if l < i || (l == i && v < j) then Jump(f, v, Pow2(l)) else -1
  }

  method FillNext(table: array2<int>, ghost f: seq<int>, i: nat, j: nat)
    requires Filled(table, f, i, j) && 1 <= i < MAX_DEPTH && 1 <= j < |f|
    modifies table
    ensures Filled(table, f, i, j + 1) && (j + 1 == |f| ==> Filled(table, f, i + 1, 1))
  {
    var inter := table[j, i - 1];
    JumpAdd(f, j, Pow2(i - 1), Pow2(i - 1));
    if inter != -1 {
      table[j, i] := table[inter, i - 1];
    }
  }

  /** Follows `d` links by the binary digits of `d`. */
  method GoDirection(start: int, d: nat, table: array2<int>, ghost f: seq<int>) returns (num: int)
    requires Filled(table, f, MAX_DEPTH, 1) && 1 <= start < |f| && d < Pow2(MAX_DEPTH)
    requires Jump(f, start, d) != -1
    ensures num == Jump(f, start, d)
  {
    num := start;
    if d == 0 {
      return;
    }
    var pos: nat, rest: nat := 0, d;
    TimesOne(d);
    while rest > 0
      invariant pos <= MAX_DEPTH && rest < Pow2(MAX_DEPTH - pos) && 1 <= num < |f|
      invariant Jump(f, num, Times(rest, Pow2(pos))) == Jump(f, start, d)
    {
      Halve(rest, Pow2(pos));
      if rest % 2 == 1 {
        JumpAdd(f, num, Pow2(pos), Times(rest / 2, Pow2(pos + 1)));
        num := table[num, pos];
      }
      rest := rest / 2;
      pos := pos + 1;
    }
    TimesOne(Pow2(pos));
  }

  lemma TimesOne(a: nat)
    ensures Times(a, Pow2(0)) == a && Times(0, a) == 0
  {
    assert Pow2(0) == 1;
  }

  lemma Halve(rest: nat, p: nat)
    ensures Times(rest, p) == (if rest % 2 == 1 then p else 0) + Times(rest / 2, 2 * p)
  {
    assert rest == rest % 2 + 2 * (rest / 2);
    assert (rest / 2) * (2 * p) == 2 * (rest / 2) * p;
  }

  lemma {:induction false} HeightBelow(t: Tree, v: int)
    requires t.Valid() && t.Node(v)
    ensures t.Height(v) <= t.Below(v) <= Deepest(t.depth) && t.depth[v] <= Deepest(t.depth)
    decreases t.Below(v)
  {
    if t.left[v] != -1 { HeightBelow(t, t.left[v]); }
    if t.right[v] != -1 { HeightBelow(t, t.right[v]); }
  }

  /** `x` is `v` or one of its descendants. */
  ghost predicate Under(t: Tree, v: int, x: int)
    requires t.Valid() && IsLink(|t.parent|, v)
  {
    v != -1 && t.Node(x) && t.depth[x] >= t.depth[v] && t.Up(x, t.depth[x] - t.depth[v]) == v
  }

  lemma UnderChildren(t: Tree, v: int)
    requires t.Valid() && t.Node(v)
    ensures forall x :: Under(t, v, x) ==> x == v || Under(t, t.left[v], x) || Under(t, t.right[v], x)
  {
    forall x | Under(t, v, x) && x != v ensures Under(t, t.left[v], x) || Under(t, t.right[v], x) {
      var k := t.depth[x] - t.depth[v];
      UpStep(t, x, 0);
      UpDepth(t, x, k - 1);
      UpStep(t, x, k - 1);
    }
  }

  lemma OnlyRoot(t: Tree, v: int)
    requires t.Valid() && t.Node(v)
    ensures v == 1 <==> t.depth[v] == 0
  {
    if v >= 2 { assert t.Node(t.parent[v]); }
  }

  lemma AllUnderRoot(t: Tree)
    requires t.Valid()
    ensures forall x :: t.Node(x) ==> Under(t, 1, x)
  {
    forall x | t.Node(x) ensures Under(t, 1, x) {
      UpDepth(t, x, t.depth[x]);
      OnlyRoot(t, t.Up(x, t.depth[x]));
    }
  }

  lemma JumpOnce(t: Tree)
    requires t.Valid()
    ensures forall v :: t.Node(v) ==> Jump(t.parent, v, Pow2(0)) == t.parent[v]
    ensures forall v :: t.Node(v) ==> Jump(t.HeavyLinks(), v, Pow2(0)) == t.Heavy(v)
  {
    forall v | t.Node(v)
      ensures Jump(t.parent, v, Pow2(0)) == t.parent[v] && Jump(t.HeavyLinks(), v, Pow2(0)) == t.Heavy(v)
    {
      assert t.HeavyLinks()[v] == t.Heavy(v);
      assert Pow2(0) == 1;
    }
  }

  /** Entry `i - 1` of the input names the children of node `i`; numbers below 1 stand for none. */
  ghost predicate IsInput(t: Tree, kids: seq<(int, int)>)
    requires t.Valid()
  {
    && |t.parent| == |kids| + 1 && t.left[0] == t.right[0] == t.parent[0] == -1
    && (forall i :: 1 <= i <= |kids| ==> t.left[i] == (if kids[i - 1].0 >= 1 then kids[i - 1].0 else -1))
    && (forall i :: 1 <= i <= |kids| ==> t.right[i] == (if kids[i - 1].1 >= 1 then kids[i - 1].1 else -1))
  }

  lemma NothingSet(nodes: Nodes, t: Tree)
    requires t.Valid() && nodes.Valid() && nodes.n == |t.parent| && t.parent[0] == t.left[0] == t.right[0] == -1
    requires forall v :: 0 <= v < nodes.n ==> nodes.left[v] == nodes.right[v] == nodes.parent[v] == -1
    ensures nodes.Partly(t, 1)
  {
    forall v | 2 <= v < |t.parent| ensures t.parent[v] >= 1 {
      assert t.Node(t.parent[v]);
    }
  }

  lemma AllSet(nodes: Nodes, t: Tree)
    requires nodes.Partly(t, nodes.n)
    ensures nodes.Holds(t)
  {
    forall v | 2 <= v < |t.parent| ensures t.parent[v] < nodes.n {
      assert t.Node(t.parent[v]);
    }
  }

  /** Reading the tree. */
  method Build(kids: seq<(int, int)>, ghost t: Tree) returns (nodes: Nodes)
    requires t.Valid() && IsInput(t, kids)
    ensures nodes.Ready(t)
  {
    nodes := new Nodes(|kids|);
    hide Tree.Height, Tree.Heavy, Tree.Turn, Tree.HeavyLinks, Filled;
    NothingSet(nodes, t);
    hide Tree.Valid, Nodes.Blank;
    for i := 1 to |kids| + 1
      modifies nodes.left, nodes.right, nodes.parent
      invariant nodes.Partly(t, i)
    {
      nodes.SetNext(i, kids[i - 1].0, kids[i - 1].1, t);
    }
    AllSet(nodes, t);
    nodes.Finalize(t);
  }
}
