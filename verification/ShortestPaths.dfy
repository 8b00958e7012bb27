/** Shortest ways between points when a step costs the smaller of the two coordinate differences. */
module ShortestPaths {

  const INF: nat := 4000000005

  type Point = (nat, nat)

  /** Nodes are numbered from 1; `data[0]` is not used. */
  predicate IsNode(data: seq<Point>, v: nat) {
    1 <= v < |data|
  }

  function Distance(a: nat, b: nat): nat {
    if a < b then b - a else a - b
  }

  /** The cost of a step. */
  function Cost(data: seq<Point>, a: nat, b: nat): nat
    requires IsNode(data, a) && IsNode(data, b)
  {
    var (dx, dy) := (Distance(data[a].0, data[b].0), Distance(data[a].1, data[b].1));
    if dx < dy then dx else dy
  }

  /**
   * The cost is the absolute difference in one coordinate, and not more than that in the other; it is the same in
   * both directions, and nothing exactly between points that share a coordinate.
   */
  lemma CostIsSmaller(data: seq<Point>, a: nat, b: nat)
    requires IsNode(data, a) && IsNode(data, b)
    ensures var (c, dx, dy) := (Cost(data, a, b), data[a].0 as int - data[b].0 as int, data[a].1 as int - data[b].1 as int);
      && c * c == (if dx * dx <= dy * dy then dx * dx else dy * dy)
      && c == Cost(data, b, a) && (c == 0 <==> dx == 0 || dy == 0)
  {
    var (x, y) := (Distance(data[a].0, data[b].0), Distance(data[a].1, data[b].1));
    Square(data[a].0 as int - data[b].0 as int, x);
    Square(data[a].1 as int - data[b].1 as int, y);
    Squares(x, y);
    Squares(y, x);
  }

  lemma Square(d: int, x: nat)
    requires x == d || x == -d
    ensures x * x == d * d
  {
  }

  lemma Squares(x: nat, y: nat)
    ensures x <= y ==> x * x <= y * y
  {
  }

  /** A walk through nodes, in a graph that is given by its steps. */
  ghost predicate IsWalk(data: seq<Point>, steps: set<(nat, nat)>, p: seq<nat>)
  {
    p != [] && IsNode(data, p[|p| - 1])
    && (|p| == 1 || (IsWalk(data, steps, p[..|p| - 1]) && (p[|p| - 2], p[|p| - 1]) in steps))
  }

  ghost function Length(data: seq<Point>, steps: set<(nat, nat)>, p: seq<nat>): nat
    requires IsWalk(data, steps, p)
  {
    if |p| == 1 then 0 else Length(data, steps, p[..|p| - 1]) + Cost(data, p[|p| - 2], p[|p| - 1])
  }

  ghost predicate Connects(data: seq<Point>, steps: set<(nat, nat)>, p: seq<nat>, a: nat, b: nat) {
    IsWalk(data, steps, p) && p[0] == a && p[|p| - 1] == b
  }

  /** All steps between nodes. */
  ghost function Complete(data: seq<Point>): set<(nat, nat)> {
    set a: nat, b: nat | a < |data| && b < |data| && 1 <= a && 1 <= b :: (a, b)
  }

  /** `d` is the length of a shortest walk. */
  ghost predicate IsShortest(data: seq<Point>, steps: set<(nat, nat)>, a: nat, b: nat, d: nat) {
    && (exists p :: Connects(data, steps, p, a, b) && Length(data, steps, p) == d)
    && (forall p :: Connects(data, steps, p, a, b) ==> Length(data, steps, p) >= d)
  }

  /** The same walk backwards, in the complete graph. */
  lemma {:induction false} Backwards(data: seq<Point>, p: seq<nat>, a: nat, b: nat) returns (q: seq<nat>)
    requires Connects(data, Complete(data), p, a, b)
    ensures Connects(data, Complete(data), q, b, a) && Length(data, Complete(data), q) == Length(data, Complete(data), p)
    decreases |p|
  {
    var steps := Complete(data);
    if |p| == 1 {
      q := p;
    } else {
      var c := p[|p| - 2];
      var front := Backwards(data, p[..|p| - 1], a, c);
      assert IsNode(data, c) && IsNode(data, b);
      var one := WalkStep(data, steps, [b], b, b, c);
      CostIsSmaller(data, c, b);
      q := WalkJoin(data, steps, one, front, b, c, a);
    }
  }

  /** The shortest distance is the same in both directions. */
  lemma ShortestIsSymmetric(data: seq<Point>, a: nat, b: nat, d: nat)
    requires IsShortest(data, Complete(data), a, b, d)
    ensures IsShortest(data, Complete(data), b, a, d)
  {
    var steps := Complete(data);
    hide Complete, IsWalk, Length;
    var p :| Connects(data, steps, p, a, b) && Length(data, steps, p) == d;
    var q := Backwards(data, p, a, b);
    forall r | Connects(data, steps, r, b, a) ensures Length(data, steps, r) >= d {
      var t := Backwards(data, r, b, a);
    }
  }

  /** A point to the lower left: both coordinates fall by five. */
  lemma {:induction false} FallingPoints()
    ensures var data := [(0, 0), (5, 5), (0, 0)];
      Cost(data, 1, 2) == 5 && IsShortest(data, Complete(data), 1, 2, 5) && IsShortest(data, Complete(data), 2, 1, 5)
  {
    var data: seq<Point> := [(0, 0), (5, 5), (0, 0)];
    var steps := Complete(data);
    var p := WalkStep(data, steps, [1], 1, 1, 2);
    forall p | Connects(data, steps, p, 1, 2) ensures Length(data, steps, p) >= 5 {
      FallsByFive(data, p);
    }
    ShortestIsSymmetric(data, 1, 2, 5);
  }

  lemma {:induction false} FallsByFive(data: seq<Point>, p: seq<nat>)
    requires data == [(0, 0), (5, 5), (0, 0)] && IsWalk(data, Complete(data), p) && p[0] == 1
    ensures p[|p| - 1] == 2 ==> Length(data, Complete(data), p) >= 5
    decreases |p|
  {
    if |p| > 1 {
      FallsByFive(data, p[..|p| - 1]);
    }
  }

  // ----- the neighbours in the two orders are enough -----

  /** An order of all nodes by one coordinate. */
  ghost predicate Sorted(data: seq<Point>, order: seq<nat>, byX: bool) {
    && (forall i :: 0 <= i < |order| ==> IsNode(data, order[i]))
    && (forall v :: IsNode(data, v) ==> v in order)
    && (forall i, j :: 0 <= i < j < |order| ==> Coordinate(data, order[i], byX) <= Coordinate(data, order[j], byX))
  }

  function Coordinate(data: seq<Point>, v: nat, byX: bool): nat
    requires IsNode(data, v)
  {
    if byX then data[v].0 else data[v].1
  }

  /** Each node and its neighbours in an order. */
  ghost function Neighbours(order: seq<nat>): set<(nat, nat)> {
    set i, j | 0 <= i < |order| && 0 <= j < |order| && (j == i + 1 || i == j + 1) :: (order[i], order[j])
  }

  lemma {:induction false} WalkStep(data: seq<Point>, steps: set<(nat, nat)>, p: seq<nat>, a: nat, b: nat, c: nat) returns (q: seq<nat>)
    requires Connects(data, steps, p, a, b) && IsNode(data, c) && (b, c) in steps
    ensures Connects(data, steps, q, a, c) && Length(data, steps, q) == Length(data, steps, p) + Cost(data, b, c)
  {
    q := p + [c];
    assert q[..|q| - 1] == p;
  }

  lemma {:induction false} WalkJoin(data: seq<Point>, steps: set<(nat, nat)>, p: seq<nat>, r: seq<nat>, a: nat, b: nat, c: nat) returns (q: seq<nat>)
    requires Connects(data, steps, p, a, b) && Connects(data, steps, r, b, c)
    ensures Connects(data, steps, q, a, c) && Length(data, steps, q) == Length(data, steps, p) + Length(data, steps, r)
    decreases |r|
  {
    if |r| == 1 {
      q := p;
    } else {
      var t := WalkJoin(data, steps, p, r[..|r| - 1], a, b, r[|r| - 2]);
      q := WalkStep(data, steps, t, a, r[|r| - 2], c);
    }
  }

  /** Along an order, the costs add up to no more than the difference of the coordinates. */
  lemma {:induction false} Along(data: seq<Point>, steps: set<(nat, nat)>, order: seq<nat>, byX: bool, i: nat, j: nat) returns (p: seq<nat>)
    requires Sorted(data, order, byX) && Neighbours(order) <= steps && i < |order| && j < |order|
    ensures Connects(data, steps, p, order[i], order[j])
    ensures Length(data, steps, p) <= Distance(Coordinate(data, order[i], byX), Coordinate(data, order[j], byX))
    decreases if i < j then j - i else i - j
  {
    if i == j {
      p := [order[i]];
    } else {
      var k := if i < j then j - 1 else j + 1;
      var q := Along(data, steps, order, byX, i, k);
      assert (order[k], order[j]) in Neighbours(order);
      p := WalkStep(data, steps, q, order[i], order[k], order[j]);
    }
  }

  /** The steps of the program's graph: neighbours by x and neighbours by y. */
  ghost function Sparse(xCord: seq<nat>, yCord: seq<nat>): set<(nat, nat)> {
    Neighbours(xCord) + Neighbours(yCord)
  }

  lemma {:induction false} SparseWalk(data: seq<Point>, xCord: seq<nat>, yCord: seq<nat>, a: nat, b: nat) returns (p: seq<nat>)
    requires Sorted(data, xCord, true) && Sorted(data, yCord, false) && IsNode(data, a) && IsNode(data, b)
    ensures Connects(data, Sparse(xCord, yCord), p, a, b) && Length(data, Sparse(xCord, yCord), p) <= Cost(data, a, b)
  {
    var i :| 0 <= i < |xCord| && xCord[i] == a;
    var j :| 0 <= j < |xCord| && xCord[j] == b;
    var k :| 0 <= k < |yCord| && yCord[k] == a;
    var l :| 0 <= l < |yCord| && yCord[l] == b;
    if Distance(data[a].0, data[b].0) < Distance(data[a].1, data[b].1) {
      p := Along(data, Sparse(xCord, yCord), xCord, true, i, j);
    } else {
      p := Along(data, Sparse(xCord, yCord), yCord, false, k, l);
    }
  }

  /** Every walk has one in the program's graph that is no longer. */
  lemma {:induction false} NoLonger(data: seq<Point>, xCord: seq<nat>, yCord: seq<nat>, p: seq<nat>, a: nat, b: nat) returns (q: seq<nat>)
    requires Sorted(data, xCord, true) && Sorted(data, yCord, false) && Connects(data, Complete(data), p, a, b)
    ensures Connects(data, Sparse(xCord, yCord), q, a, b)
    ensures Length(data, Sparse(xCord, yCord), q) <= Length(data, Complete(data), p)
    decreases |p|
  {
    if |p| == 1 {
      q := p;
    } else {
      var c := p[|p| - 2];
      var (steps, front) := (Sparse(xCord, yCord), p[..|p| - 1]);
      var r := NoLonger(data, xCord, yCord, front, a, c);
      var t := SparseWalk(data, xCord, yCord, c, b);
      q := WalkJoin(data, steps, r, t, a, c, b);
    }
  }

  lemma {:induction false} SparseIsComplete(data: seq<Point>, xCord: seq<nat>, yCord: seq<nat>, p: seq<nat>)
    requires Sorted(data, xCord, true) && Sorted(data, yCord, false) && IsWalk(data, Sparse(xCord, yCord), p)
    ensures IsWalk(data, Complete(data), p) && Length(data, Complete(data), p) == Length(data, Sparse(xCord, yCord), p)
    decreases |p|
  {
    if |p| > 1 {
      SparseIsComplete(data, xCord, yCord, p[..|p| - 1]);
      assert IsNode(data, p[..|p| - 1][|p| - 2]);
    }
  }

  /** The program's graph has the same distances as the complete one. */
  lemma {:induction false} SameDistances(data: seq<Point>, xCord: seq<nat>, yCord: seq<nat>, a: nat, b: nat, d: nat)
    requires Sorted(data, xCord, true) && Sorted(data, yCord, false)
    ensures IsShortest(data, Sparse(xCord, yCord), a, b, d) <==> IsShortest(data, Complete(data), a, b, d)
  {
    var steps := Sparse(xCord, yCord);
    forall p | Connects(data, steps, p, a, b)
      ensures Connects(data, Complete(data), p, a, b) && Length(data, Complete(data), p) == Length(data, steps, p)
    {
      SparseIsComplete(data, xCord, yCord, p);
    }
    forall p | Connects(data, Complete(data), p, a, b)
      ensures exists q :: Connects(data, steps, q, a, b) && Length(data, steps, q) <= Length(data, Complete(data), p)
    {
      var q := NoLonger(data, xCord, yCord, p, a, b);
    }
  }

  // ----- the program -----

  type Edge = (nat, nat)

  function MakeEdge(a: nat, b: nat, data: seq<Point>): Edge
    requires IsNode(data, a) && IsNode(data, b)
  {
    (b, Cost(data, a, b))
  }

  /** The edges of a node are its steps with their costs. */
  ghost predicate EdgesOf(data: seq<Point>, steps: set<(nat, nat)>, v: nat, edges: set<Edge>) {
    forall e: Edge :: e in edges <==> (v, e.0) in steps && IsNode(data, v) && IsNode(data, e.0) && e == MakeEdge(v, e.0, data)
  }

  ghost predicate IsGraph(data: seq<Point>, steps: set<(nat, nat)>, graph: seq<set<Edge>>) {
    |graph| == |data| && forall v: nat :: IsNode(data, v) ==> EdgesOf(data, steps, v, graph[v])
  }

  /** The neighbours among the first `k` places of an order, on both sides. */
  ghost function Upto(order: seq<nat>, k: nat): set<(nat, nat)>
    requires k <= |order|
  {
    set i, j | 0 <= i < k && 0 <= j < |order| && (j == i + 1 || i == j + 1) :: (order[i], order[j])
  }

  ghost function Right(order: seq<nat>, k: nat): set<(nat, nat)> {
    if k + 1 < |order| then {(order[k], order[k + 1])} else {}
  }

  ghost function Left(order: seq<nat>, k: nat): set<(nat, nat)> {
    if 0 < k < |order| then {(order[k], order[k - 1])} else {}
  }

  lemma {:induction false} UptoNext(order: seq<nat>, k: nat)
    requires k < |order|
    ensures Upto(order, k + 1) == Upto(order, k) + Right(order, k) + Left(order, k)
  {
    assert Upto(order, k) <= Upto(order, k + 1);
    forall e | e in Upto(order, k + 1) && e !in Upto(order, k)
      ensures (k + 1 < |order| && e == (order[k], order[k + 1])) || (k > 0 && e == (order[k], order[k - 1]))
    {
    }
    if k + 1 < |order| { assert (order[k], order[k + 1]) in Upto(order, k + 1); }
    if k > 0 { assert (order[k], order[k - 1]) in Upto(order, k + 1); }
  }

  method AddEdge(graph: array<set<Edge>>, data: seq<Point>, a: nat, b: nat, ghost steps: set<(nat, nat)>)
    requires IsNode(data, a) && IsNode(data, b) && IsGraph(data, steps, graph[..])
    modifies graph
    ensures IsGraph(data, steps + {(a, b)}, graph[..])
  {
    graph[a] := graph[a] + {MakeEdge(a, b, data)};
  }

  /** The four neighbours of the `v`-th nodes, and those of all nodes before them. */
  ghost function Around(xCord: seq<nat>, yCord: seq<nat>, v: nat): set<(nat, nat)> {
    Right(xCord, v) + Right(yCord, v) + (Left(xCord, v) + Left(yCord, v))
  }

  ghost function Before(xCord: seq<nat>, yCord: seq<nat>, v: nat): set<(nat, nat)>
    requires v <= |xCord| == |yCord|
  {
    Upto(xCord, v) + Upto(yCord, v)
  }

  lemma BeforeNext(xCord: seq<nat>, yCord: seq<nat>, v: nat)
    requires v < |xCord| == |yCord|
    ensures Before(xCord, yCord, v + 1) == Before(xCord, yCord, v) + Around(xCord, yCord, v)
  {
    UptoNext(xCord, v);
    UptoNext(yCord, v);
    hide Upto, Right, Left;
  }

  lemma BeforeAll(xCord: seq<nat>, yCord: seq<nat>)
    requires |xCord| == |yCord|
    ensures Before(xCord, yCord, 0) == {} && Before(xCord, yCord, |xCord|) == Sparse(xCord, yCord)
  {
    UptoNone(xCord);
    UptoNone(yCord);
  }

  method JoinNeighbours(graph: array<set<Edge>>, data: seq<Point>, xCord: seq<nat>, yCord: seq<nat>, v: nat, ghost steps: set<(nat, nat)>)
    requires AllNodes(data, xCord) && AllNodes(data, yCord) && v < |xCord| == |yCord| && IsGraph(data, steps, graph[..])
    modifies graph
    ensures IsGraph(data, steps + Around(xCord, yCord, v), graph[..])
  {
    hide IsGraph, Right, Left;
    JoinRight(graph, data, xCord, yCord, v, steps);
    JoinLeft(graph, data, xCord, yCord, v, steps + (Right(xCord, v) + Right(yCord, v)));
    assert steps + (Right(xCord, v) + Right(yCord, v)) + (Left(xCord, v) + Left(yCord, v)) == steps + Around(xCord, yCord, v);
  }

  method JoinRight(graph: array<set<Edge>>, data: seq<Point>, xCord: seq<nat>, yCord: seq<nat>, v: nat, ghost steps: set<(nat, nat)>)
    requires AllNodes(data, xCord) && AllNodes(data, yCord) && v < |xCord| == |yCord| && IsGraph(data, steps, graph[..])
    modifies graph
    ensures IsGraph(data, steps + (Right(xCord, v) + Right(yCord, v)), graph[..])
  {
    hide IsGraph;
    if v + 1 < |xCord| {
      AddEdge(graph, data, xCord[v], xCord[v + 1], steps);
      AddEdge(graph, data, yCord[v], yCord[v + 1], steps + {(xCord[v], xCord[v + 1])});
    }
    assert v + 1 < |xCord| ==> (steps + {(xCord[v], xCord[v + 1])}) + {(yCord[v], yCord[v + 1])} == steps + (Right(xCord, v) + Right(yCord, v));
    assert v + 1 >= |xCord| ==> steps == steps + (Right(xCord, v) + Right(yCord, v));
  }

  method JoinLeft(graph: array<set<Edge>>, data: seq<Point>, xCord: seq<nat>, yCord: seq<nat>, v: nat, ghost steps: set<(nat, nat)>)
    requires AllNodes(data, xCord) && AllNodes(data, yCord) && v < |xCord| == |yCord| && IsGraph(data, steps, graph[..])
    modifies graph
    ensures IsGraph(data, steps + (Left(xCord, v) + Left(yCord, v)), graph[..])
  {
    hide IsGraph;
    if v > 0 {
      AddEdge(graph, data, xCord[v], xCord[v - 1], steps);
      AddEdge(graph, data, yCord[v], yCord[v - 1], steps + {(xCord[v], xCord[v - 1])});
    }
    assert v > 0 ==> (steps + {(xCord[v], xCord[v - 1])}) + {(yCord[v], yCord[v - 1])} == steps + (Left(xCord, v) + Left(yCord, v));
    assert v == 0 ==> steps == steps + (Left(xCord, v) + Left(yCord, v));
  }

  /** Joins each node with its neighbours in both orders. */
  method BuildGraph(data: seq<Point>, xCord: seq<nat>, yCord: seq<nat>) returns (graph: array<set<Edge>>)
    requires |data| >= 1 && Sorted(data, xCord, true) && Sorted(data, yCord, false) && |xCord| == |yCord| == |data| - 1
    ensures fresh(graph) && graph.Length == |data| && IsGraph(data, Sparse(xCord, yCord), graph[..])
  {
    graph := new set<Edge>[|data|](_ => {});
    assert IsGraph(data, {}, graph[..]);
    hide *;
    InOrder(data, xCord, true);
    InOrder(data, yCord, false);
    BeforeAll(xCord, yCord);
    for v := 0 to |xCord|
      invariant AllNodes(data, xCord) && AllNodes(data, yCord) && IsGraph(data, Before(xCord, yCord, v), graph[..])
    {
      JoinNeighbours(graph, data, xCord, yCord, v, Before(xCord, yCord, v));
      BeforeNext(xCord, yCord, v);
    }
  }

  predicate AllNodes(data: seq<Point>, order: seq<nat>) {
    forall i :: 0 <= i < |order| ==> IsNode(data, order[i])
  }

  lemma UptoNone(order: seq<nat>)
    ensures Upto(order, 0) == {} && Upto(order, |order|) == Neighbours(order)
  {
  }

  lemma InOrder(data: seq<Point>, order: seq<nat>, byX: bool)
    requires Sorted(data, order, byX)
    ensures AllNodes(data, order)
  {
  }

  // ----- the queue loop -----

  /** All distances found so far are those of walks, or none was found. */
  ghost predicate Found(data: seq<Point>, steps: set<(nat, nat)>, distances: seq<nat>) {
    && |distances| == |data| > 1 && distances[1] == 0
    && forall v: nat :: IsNode(data, v) ==> distances[v] == INF || (distances[v] < INF && HasWalk(data, steps, v, distances[v]))
  }

  ghost predicate HasWalk(data: seq<Point>, steps: set<(nat, nat)>, v: nat, d: nat) {
    exists p :: Connects(data, steps, p, 1, v) && Length(data, steps, p) == d
  }

  /** No step from `v` gives a shorter way. */
  ghost predicate Relaxed(data: seq<Point>, steps: set<(nat, nat)>, distances: seq<nat>, v: nat)
    requires |distances| == |data| && IsNode(data, v)
  {
    forall u: nat :: (v, u) in steps && IsNode(data, u) ==> distances[u] <= distances[v] + Cost(data, v, u)
  }

  /** A node waits in the queue, or its steps are done. */
  ghost predicate Pending(data: seq<Point>, steps: set<(nat, nat)>, distances: seq<nat>, q: multiset<Edge>)
    requires |distances| == |data|
  {
    (forall e :: e in q ==> IsNode(data, e.1))
    && forall v: nat :: IsNode(data, v) ==> (distances[v], v) in q || Relaxed(data, steps, distances, v)
  }

  /** When all steps are done, no walk is shorter than the distance found. */
  lemma {:induction false} NoneShorter(data: seq<Point>, steps: set<(nat, nat)>, distances: seq<nat>, p: seq<nat>)
    requires Found(data, steps, distances) && Pending(data, steps, distances, multiset{}) && IsWalk(data, steps, p) && p[0] == 1
    ensures distances[p[|p| - 1]] <= Length(data, steps, p)
    decreases |p|
  {
    if |p| > 1 {
      NoneShorter(data, steps, distances, p[..|p| - 1]);
      assert Relaxed(data, steps, distances, p[|p| - 2]);
    }
  }

  // ----- termination: every new entry of the queue makes a distance smaller -----

  ghost function Sum(s: seq<nat>): nat {
    if s == [] then 0 else Sum(s[..|s| - 1]) + s[|s| - 1]
  }

  lemma {:induction false} SumFalls(s: seq<nat>, i: nat, x: nat)
    requires i < |s| && x < s[i]
    ensures Sum(s[i := x]) < Sum(s)
  {
    var (t, n) := (s[i := x], |s| - 1);
    if i < n {
      SumFalls(s[..n], i, x);
      assert t[..n] == s[..n][i := x];
    } else {
      assert t[..n] == s[..n];
    }
  }

  lemma {:induction false} LeastEntry(q: multiset<Edge>) returns (top: Edge)
    requires |q| > 0
    ensures top in q && forall e :: e in q ==> top.0 < e.0 || (top.0 == e.0 && top.1 <= e.1)
    decreases |q|
  {
    var y: Edge :| y in q;
    var rest := q - multiset{y};
    top := y;
    if |rest| > 0 {
      var z := LeastEntry(rest);
      top := if y.0 < z.0 || (y.0 == z.0 && y.1 <= z.1) then y else z;
    }
    assert forall e :: e in q ==> e == y || e in rest;
  }

  method Pop(q: multiset<Edge>) returns (top: Edge, rest: multiset<Edge>)
    requires |q| > 0
    ensures top in q && q == rest + multiset{top}
    ensures forall e :: e in q ==> top.0 < e.0 || (top.0 == e.0 && top.1 <= e.1)
  {
    ghost var least := LeastEntry(q);
    top :| top in q && forall e :: e in q ==> top.0 < e.0 || (top.0 == e.0 && top.1 <= e.1);
    rest := q - multiset{top};
  }

  /** A shorter way to `u` by the step from `v`. */
  lemma {:induction false} Improve(data: seq<Point>, steps: set<(nat, nat)>, distances: seq<nat>, v: nat, u: nat)
    requires Found(data, steps, distances) && IsNode(data, v) && IsNode(data, u) && (v, u) in steps
    requires distances[u] > distances[v] + Cost(data, v, u)
    ensures Found(data, steps, distances[u := distances[v] + Cost(data, v, u)]) && u != 1 && u != v
  {
    var p :| Connects(data, steps, p, 1, v) && Length(data, steps, p) == distances[v];
    var q := WalkStep(data, steps, p, 1, v, u);
    assert HasWalk(data, steps, u, distances[v] + Cost(data, v, u));
  }

  /** All nodes but `v` are waiting or done, and so are the steps of `v` that are not in `todo`. */
  ghost predicate PendingBut(data: seq<Point>, steps: set<(nat, nat)>, distances: seq<nat>, q: multiset<Edge>, v: nat, todo: set<Edge>)
    requires |distances| == |data|
  {
    (forall e :: e in q ==> IsNode(data, e.1))
    && (forall x: nat :: IsNode(data, x) && x != v ==> (distances[x], x) in q || Relaxed(data, steps, distances, x))
    && forall u: nat :: IsNode(data, v) && IsNode(data, u) && (v, u) in steps && MakeEdge(v, u, data) !in todo ==>
      distances[u] <= distances[v] + Cost(data, v, u)
  }

  lemma {:induction false} PendingAfter(data: seq<Point>, steps: set<(nat, nat)>, distances: seq<nat>, q: multiset<Edge>, v: nat, todo: set<Edge>,
                                        e: Edge)
    requires |distances| == |data| && PendingBut(data, steps, distances, q, v, todo) && IsNode(data, v) && e in todo
    requires IsNode(data, e.0) && e == MakeEdge(v, e.0, data) && (v, e.0) in steps && e.0 != v
    requires distances[e.0] > distances[v] + e.1
    ensures var d := distances[v] + e.1;
      PendingBut(data, steps, distances[e.0 := d], q + multiset{(d, e.0)}, v, todo - {e})
  {
    var d := distances[v] + e.1;
    var (after, q') := (distances[e.0 := d], q + multiset{(d, e.0)});
    forall x: nat | IsNode(data, x) && x != v
      ensures (after[x], x) in q' || Relaxed(data, steps, after, x)
    {
      if x != e.0 && !((distances[x], x) in q) {
        assert Relaxed(data, steps, distances, x);
      }
    }
  }

  /** One step: if it gives a shorter way, the new distance is stored and the node queued again. */
  method RelaxEdge(data: seq<Point>, ghost steps: set<(nat, nat)>, distances: array<nat>, v: nat, edge: Edge, q: multiset<Edge>,
                   ghost todo: set<Edge>) returns (q': multiset<Edge>)
    requires Found(data, steps, distances[..]) && IsNode(data, v) && IsNode(data, edge.0) && edge in todo
    requires edge == MakeEdge(v, edge.0, data) && (v, edge.0) in steps && PendingBut(data, steps, distances[..], q, v, todo)
    modifies distances
    ensures Found(data, steps, distances[..]) && PendingBut(data, steps, distances[..], q', v, todo - {edge})
    ensures Sum(distances[..]) < old(Sum(distances[..])) || (distances[..] == old(distances[..]) && q' == q)
  {
    ghost var before := distances[..];
    assert |before| == |data| && IsNode(data, v) && IsNode(data, edge.0);
    hide Found, PendingBut, Sum, MakeEdge, Cost;
    var u: nat, d: nat := edge.0, distances[v] + edge.1;
    q' := q;
    if distances[u] > d {
      Shorter(data, steps, before, v, u, d, q, todo, edge);
      distances[u] := d;
      q' := q + multiset{(d, u)};
      assert distances[..] == before[u := d];
    } else {
      StepIsDone(data, steps, before, q, v, todo, edge);
    }
  }

  lemma SizeOfFound(data: seq<Point>, steps: set<(nat, nat)>, distances: seq<nat>)
    requires Found(data, steps, distances)
    ensures |distances| == |data|
  {
  }

  lemma EdgeCost(data: seq<Point>, v: nat, u: nat)
    requires IsNode(data, v) && IsNode(data, u)
    ensures v < |data| && u < |data| && MakeEdge(v, u, data) == (u, Cost(data, v, u))
  {
  }

  lemma Shorter(data: seq<Point>, steps: set<(nat, nat)>, before: seq<nat>, v: nat, u: nat, d: nat, q: multiset<Edge>, todo: set<Edge>, edge: Edge)
    requires Found(data, steps, before) && IsNode(data, v) && IsNode(data, edge.0) && edge in todo && u == edge.0
    requires edge == MakeEdge(v, u, data) && (v, u) in steps && PendingBut(data, steps, before, q, v, todo)
    requires d == before[v] + edge.1 && before[u] > d
    ensures Found(data, steps, before[u := d]) && PendingBut(data, steps, before[u := d], q + multiset{(d, u)}, v, todo - {edge})
    ensures Sum(before[u := d]) < Sum(before)
  {
    hide Found, PendingBut, Sum, MakeEdge, IsNode;
    SizeOfFound(data, steps, before);
    EdgeCost(data, v, u);
    Improve(data, steps, before, v, u);
    PendingAfter(data, steps, before, q, v, todo, edge);
    SumFalls(before, u, d);
  }

  /** All steps from a node that was taken from the queue. */
  method Relax(data: seq<Point>, ghost steps: set<(nat, nat)>, distances: array<nat>, v: nat, edges: set<Edge>, q: multiset<Edge>)
    returns (q': multiset<Edge>)
    requires Found(data, steps, distances[..]) && IsNode(data, v) && EdgesOf(data, steps, v, edges)
    requires PendingBut(data, steps, distances[..], q, v, edges)
    modifies distances
    ensures Found(data, steps, distances[..]) && Pending(data, steps, distances[..], q')
    ensures Sum(distances[..]) < old(Sum(distances[..])) || (distances[..] == old(distances[..]) && q' == q)
  {
    assert distances.Length == |data|;
    hide PendingBut, Sum, Found;
    q' := q;
    var todo := edges;
    while todo != {}
      invariant todo <= edges && Found(data, steps, distances[..]) && distances.Length == |data|
      invariant PendingBut(data, steps, distances[..], q', v, todo)
      invariant Sum(distances[..]) < old(Sum(distances[..])) || (distances[..] == old(distances[..]) && q' == q)
      decreases |todo|
    {
      var edge :| edge in todo;
      q' := RelaxEdge(data, steps, distances, v, edge, q', todo);
      todo := todo - {edge};
    }
    AllStepsDone(data, steps, distances[..], q', v);
  }

  lemma {:induction false} StepIsDone(data: seq<Point>, steps: set<(nat, nat)>, distances: seq<nat>, q: multiset<Edge>, v: nat, todo: set<Edge>, e: Edge)
    requires |distances| == |data| && PendingBut(data, steps, distances, q, v, todo) && IsNode(data, v) && e in todo
    requires IsNode(data, e.0) && e == MakeEdge(v, e.0, data) && distances[e.0] <= distances[v] + e.1
    ensures PendingBut(data, steps, distances, q, v, todo - {e})
  {
  }

  lemma {:induction false} AllStepsDone(data: seq<Point>, steps: set<(nat, nat)>, distances: seq<nat>, q: multiset<Edge>, v: nat)
    requires |distances| == |data| && PendingBut(data, steps, distances, q, v, {}) && IsNode(data, v)
    ensures Pending(data, steps, distances, q)
  {
  }

  /** The queue loop: it ends because every node that is queued again has come nearer. */
  method RunQueue(data: seq<Point>, ghost steps: set<(nat, nat)>, graph: array<set<Edge>>, distances: array<nat>, queue: multiset<Edge>)
    requires Found(data, steps, distances[..]) && Pending(data, steps, distances[..], queue) && IsGraph(data, steps, graph[..])
    modifies distances
    ensures Found(data, steps, distances[..]) && Pending(data, steps, distances[..], multiset{})
  {
    assert distances.Length == |data| == graph.Length;
    hide *;
    var q := queue;
    while |q| > 0
      invariant distances.Length == |data| == graph.Length && IsGraph(data, steps, graph[..])
      invariant Found(data, steps, distances[..]) && Pending(data, steps, distances[..], q)
      decreases Sum(distances[..]), |q|
    {
      var top, rest := Pop(q);
      var v := top.1;
      TopIsNode(data, steps, distances[..], q, top);
      GraphAt(data, steps, graph[..], v);
      if top.0 != distances[v] {
        StaleEntry(data, steps, distances[..], q, rest, top);
        q := rest;
      } else {
        TakenOff(data, steps, distances[..], q, rest, top, graph[v]);
        q := Relax(data, steps, distances, v, graph[v], rest);
      }
    }
    assert q == multiset{};
  }

  /** The shortest distances from node 1, for points with coordinates below the start value of the distances. */
  method Distances(data: seq<Point>, xCord: seq<nat>, yCord: seq<nat>) returns (distances: array<nat>)
    requires |data| > 1 && Sorted(data, xCord, true) && Sorted(data, yCord, false) && |xCord| == |yCord| == |data| - 1
    requires forall v: nat :: IsNode(data, v) ==> data[v].0 < 4000000005 && data[v].1 < 4000000005
    ensures distances.Length == |data|
    ensures forall v: nat :: IsNode(data, v) ==> IsShortest(data, Complete(data), 1, v, distances[v])
  {
    hide Found, Pending, Sorted, IsGraph, IsShortest, Complete, Sparse;
    var graph := BuildGraph(data, xCord, yCord);
    ghost var steps := Sparse(xCord, yCord);
    distances := new nat[|data|](_ => INF);
    distances[1] := 0;
    var q := Queue(data, distances[..]);
    StartFound(data, steps, distances[..]);
    AllQueued(data, steps, distances[..], q);
    RunQueue(data, steps, graph, distances, q);
    forall v: nat | IsNode(data, v)
      ensures IsShortest(data, Complete(data), 1, v, distances[v])
    {
      IsFinal(data, xCord, yCord, distances[..], v);
    }
  }

  lemma AllQueued(data: seq<Point>, steps: set<(nat, nat)>, distances: seq<nat>, q: multiset<Edge>)
    requires |distances| == |data| && (forall e :: e in q ==> IsNode(data, e.1))
    requires forall v: nat :: IsNode(data, v) ==> (distances[v], v) in q
    ensures Pending(data, steps, distances, q)
  {
  }

  /** Every node is queued once at the start. */
  method Queue(data: seq<Point>, distances: seq<nat>) returns (q: multiset<Edge>)
    requires |distances| == |data| > 1
    ensures forall e :: e in q ==> IsNode(data, e.1)
    ensures forall v: nat :: IsNode(data, v) ==> (distances[v], v) in q
  {
    q := multiset{};
    for j := 1 to |data|
      invariant forall e :: e in q ==> IsNode(data, e.1)
      invariant forall v: nat :: 1 <= v < j ==> (distances[v], v) in q
    {
      q := q + multiset{(distances[j], j)};
    }
  }

  lemma StartFound(data: seq<Point>, steps: set<(nat, nat)>, distances: seq<nat>)
    requires |distances| == |data| > 1 && distances[1] == 0 && forall v :: 1 < v < |data| ==> distances[v] == INF
    ensures Found(data, steps, distances)
  {
    var p := [1];
    assert Connects(data, steps, p, 1, 1) && Length(data, steps, p) == 0;
  }

  lemma GraphAt(data: seq<Point>, steps: set<(nat, nat)>, graph: seq<set<Edge>>, v: nat)
    requires IsGraph(data, steps, graph)
    ensures |graph| == |data| && (IsNode(data, v) ==> EdgesOf(data, steps, v, graph[v]))
  {
  }

  lemma TopIsNode(data: seq<Point>, steps: set<(nat, nat)>, distances: seq<nat>, q: multiset<Edge>, top: Edge)
    requires |distances| == |data| && Pending(data, steps, distances, q) && top in q
    ensures IsNode(data, top.1)
  {
  }

  lemma StaleEntry(data: seq<Point>, steps: set<(nat, nat)>, distances: seq<nat>, q: multiset<Edge>, rest: multiset<Edge>, top: Edge)
    requires |distances| == |data| && Pending(data, steps, distances, q) && q == rest + multiset{top}
    requires IsNode(data, top.1) && top.0 != distances[top.1]
    ensures Pending(data, steps, distances, rest)
  {
  }

  lemma TakenOff(data: seq<Point>, steps: set<(nat, nat)>, distances: seq<nat>, q: multiset<Edge>, rest: multiset<Edge>, top: Edge,
                 edges: set<Edge>)
    requires |distances| == |data| && Pending(data, steps, distances, q) && q == rest + multiset{top}
    requires IsNode(data, top.1) && EdgesOf(data, steps, top.1, edges)
    ensures PendingBut(data, steps, distances, rest, top.1, edges)
  {
  }

  /** When the queue is empty, the distances are the shortest ones. */
  lemma {:induction false} IsFinal(data: seq<Point>, xCord: seq<nat>, yCord: seq<nat>, distances: seq<nat>, v: nat)
    requires Sorted(data, xCord, true) && Sorted(data, yCord, false) && IsNode(data, v) && data[1].0 < INF && data[v].0 < INF
    requires Found(data, Sparse(xCord, yCord), distances) && Pending(data, Sparse(xCord, yCord), distances, multiset{})
    ensures IsShortest(data, Complete(data), 1, v, distances[v])
  {
    var steps := Sparse(xCord, yCord);
    forall p | Connects(data, steps, p, 1, v)
      ensures Length(data, steps, p) >= distances[v]
    {
      NoneShorter(data, steps, distances, p);
    }
    var p := SparseWalk(data, xCord, yCord, 1, v);
    assert distances[v] < INF;
    SameDistances(data, xCord, yCord, 1, v, distances[v]);
  }
}