/** The acceptance of equations: a depth-first search with three colours looks for cyclic dependencies. */
module CycleCheck {
  import opened Basics
  import opened Equations

  const MAX_VARIABLES: nat := 1024

  datatype Status = NotVisited | Visited | Done

  /** A cycle that can be reached from `start`. */
  ghost predicate CycleFrom(eqs: System, start: nat) {
    exists p, q :: IsWalk(eqs, p) && p[0] == start && IsCycle(eqs, q) && q[0] == p[|p| - 1]
  }

  /** All variables have numbers below the limit, and no equation has more occurrences than fit. */
  predicate InRange(eqs: System) {
    forall x :: x in eqs ==> x < MAX_VARIABLES && |Vars(eqs[x])| <= MAX_VARIABLES && forall y :: y in Vars(eqs[x]) ==> y < MAX_VARIABLES
  }

  /** Each dependency comes earlier in the list. */
  ghost predicate Closed(eqs: System, finished: seq<nat>) {
    forall i, y :: 0 <= i < |finished| && Edge(eqs, finished[i], y) ==> y in finished[..i]
  }

  /** The colours of the search: the stack is being visited, and the finished ones are done. */
  ghost predicate Coloured(eqs: System, start: nat, status: seq<Status>, stack: seq<nat>, finished: seq<nat>, res: bool) {
    && |status| == MAX_VARIABLES
    && (forall u :: 0 <= u < MAX_VARIABLES ==> (status[u] == Visited <==> u in stack) && (status[u] == Done <==> u in finished))
    && (forall u :: u in stack || u in finished ==> u < MAX_VARIABLES)
    && (stack != [] ==> stack[0] == start && IsWalk(eqs, stack))
    && (if res then CycleFrom(eqs, start) else Closed(eqs, finished))
  }

  ghost function White(status: seq<Status>): set<nat> {
    set u: nat | u < |status| && status[u] == NotVisited
  }

  /** An edge back into the stack closes a cycle. */
  lemma BackEdge(eqs: System, start: nat, stack: seq<nat>, w: nat)
    requires stack != [] && stack[0] == start && IsWalk(eqs, stack) && w in stack && Edge(eqs, stack[|stack| - 1], w)
    ensures CycleFrom(eqs, start)
  {
    var j :| 0 <= j < |stack| && stack[j] == w;
    var (p, q) := (stack[..j + 1], stack[j..] + [w]);
    assert IsWalk(eqs, p) && p[|p| - 1] == w;
    assert IsCycle(eqs, q) by {
      forall i | 0 < i < |q| ensures Edge(eqs, q[i - 1], q[i]) {
        assert q[i - 1] == stack[j + i - 1];
        assert i < |q| - 1 ==> q[i] == stack[j + i];
      }
    }
  }

  /** The search enters a variable. */
  lemma Enter(eqs: System, start: nat, status: seq<Status>, stack: seq<nat>, finished: seq<nat>, res: bool, x: nat)
    requires Coloured(eqs, start, status, stack, finished, res) && x < MAX_VARIABLES && status[x] == NotVisited
    requires if stack == [] then x == start else Edge(eqs, stack[|stack| - 1], x)
    ensures Coloured(eqs, start, status[x := Visited], stack + [x], finished, res)
    ensures White(status[x := Visited]) == White(status) - {x} && x in White(status) && x !in stack
  {
    hide CycleFrom, Closed;
  }

  lemma WalkFront(eqs: System, stack: seq<nat>, x: nat)
    requires IsWalk(eqs, stack + [x])
    ensures stack != [] ==> IsWalk(eqs, stack) && stack[0] == (stack + [x])[0]
  {
    assert forall i :: 0 <= i < |stack| ==> (stack + [x])[i] == stack[i];
  }

  /** The search leaves a variable. */
  lemma Leave(eqs: System, start: nat, status: seq<Status>, stack: seq<nat>, finished: seq<nat>, res: bool, x: nat)
    requires Coloured(eqs, start, status, stack + [x], finished, res) && x !in stack && (res || Closed(eqs, finished + [x]))
    ensures x < MAX_VARIABLES && Coloured(eqs, start, status[x := Done], stack, finished + [x], res)
    ensures White(status[x := Done]) == White(status) && x !in finished
  {
    hide CycleFrom, Closed, IsWalk;
    assert x in stack + [x] && status[x] == Visited;
    assert forall u :: u in stack + [x] <==> u in stack || u == x;
    WalkFront(eqs, stack, x);
  }

  lemma ClosedNext(eqs: System, finished: seq<nat>, x: nat)
    requires Closed(eqs, finished) && (x in eqs ==> forall y :: y in Vars(eqs[x]) ==> y in finished)
    ensures Closed(eqs, finished + [x])
  {
    var f := finished + [x];
    forall i, y | 0 <= i < |f| && Edge(eqs, f[i], y)
      ensures y in f[..i]
    {
      assert f[..i] == finished[..i];
    }
  }

  /** A walk leads to earlier elements of a closed list. */
  lemma {:induction false} WalkGoesDown(eqs: System, finished: seq<nat>, p: seq<nat>, i: nat, k: nat) returns (j: nat)
    requires Closed(eqs, finished) && IsWalk(eqs, p) && k < |p| && i < |finished| && p[0] == finished[i]
    ensures j <= i && p[k] == finished[j] && (k > 0 ==> j < i)
  {
    j := i;
    if k > 0 {
      var m := WalkGoesDown(eqs, finished, p, i, k - 1);
      assert Edge(eqs, finished[m], p[k]);
      j :| 0 <= j < m && finished[..m][j] == p[k];
    }
  }

  lemma {:induction false} NoCycleAt(eqs: System, finished: seq<nat>, q: seq<nat>, i: nat)
    requires Closed(eqs, finished) && IsCycle(eqs, q) && i < |finished| && q[0] == finished[i]
    ensures false
    decreases i
  {
    var j := WalkGoesDown(eqs, finished, q, i, |q| - 1);
    NoCycleAt(eqs, finished, q, j);
  }

  lemma ClosedHasNoCycle(eqs: System, finished: seq<nat>, start: nat)
    requires Closed(eqs, finished) && start in finished
    ensures !CycleFrom(eqs, start)
  {
    forall p, q | IsWalk(eqs, p) && p[0] == start && IsCycle(eqs, q) && q[0] == p[|p| - 1]
      ensures false
    {
      var i :| 0 <= i < |finished| && finished[i] == start;
      var j := WalkGoesDown(eqs, finished, p, i, |p| - 1);
      NoCycleAt(eqs, finished, q, j);
    }
  }

  class Checker {
    const status: array<Status>
    const neighbours: array2<nat>

    ghost predicate Valid()
      reads {}
    {
      status.Length == MAX_VARIABLES && neighbours.Length0 == MAX_VARIABLES && neighbours.Length1 == MAX_VARIABLES
    }

    constructor ()
      ensures Valid() && fresh(status) && fresh(neighbours)
    {
      status := new Status[MAX_VARIABLES](_ => NotVisited);
      neighbours := new nat[MAX_VARIABLES, MAX_VARIABLES]((_, _) => 0);
    }

    /** Appends the variables of an expression to a row of the table. */
    method GetThem(e: Expr, number: nat, varIndex: nat) returns (count: nat)
      requires Valid() && varIndex < MAX_VARIABLES && number + |Vars(e)| <= MAX_VARIABLES
      modifies neighbours
      ensures count == number + |Vars(e)|
      ensures forall j :: number <= j < count ==> neighbours[varIndex, j] == Vars(e)[j - number]
      ensures forall i, j :: 0 <= i < MAX_VARIABLES && 0 <= j < MAX_VARIABLES && (i != varIndex || j < number) ==>
        neighbours[i, j] == old(neighbours[i, j])
      decreases e
    {
      match e {
        case Num(_) => count := number;
        case Minus(c) => count := GetThem(c, number, varIndex);
        case Add(l, r) => count := GetThem(l, number, varIndex); count := GetThem(r, count, varIndex);
        case Mul(l, r) => count := GetThem(l, number, varIndex); count := GetThem(r, count, varIndex);
        case Var(x, _) => neighbours[varIndex, number] := x; count := number + 1;
      }
    }

    method GetNeighbours(eqs: System, varIndex: nat) returns (number: nat)
      requires Valid() && varIndex < MAX_VARIABLES && InRange(eqs)
      modifies neighbours
      ensures number == if varIndex in eqs then |Vars(eqs[varIndex])| else 0
      ensures varIndex in eqs ==> forall j :: 0 <= j < number ==> neighbours[varIndex, j] == Vars(eqs[varIndex])[j]
      ensures forall i, j :: 0 <= i < MAX_VARIABLES && 0 <= j < MAX_VARIABLES && i != varIndex ==>
        neighbours[i, j] == old(neighbours[i, j])
    {
      number := 0;
      if varIndex in eqs {
        number := GetThem(eqs[varIndex], number, varIndex);
      }
    }

    method Visit(eqs: System, varIndex: nat, res: bool, ghost start: nat, ghost stack: seq<nat>, ghost finished: seq<nat>)
      returns (result: bool, ghost more: seq<nat>)
      requires Valid() && InRange(eqs) && Coloured(eqs, start, status[..], stack, finished, res)
      requires varIndex < MAX_VARIABLES && status[varIndex] == NotVisited
      requires if stack == [] then varIndex == start else Edge(eqs, stack[|stack| - 1], varIndex)
      modifies status, neighbours
      ensures Coloured(eqs, start, status[..], stack, more + [varIndex], result)
      ensures finished <= more && varIndex !in more
      ensures res ==> result
      ensures White(status[..]) <= White(old(status[..]))
      ensures forall i, j :: 0 <= i < MAX_VARIABLES && 0 <= j < MAX_VARIABLES && old(status[i]) != NotVisited ==>
        neighbours[i, j] == old(neighbours[i, j])
      decreases White(status[..])
    {
      hide CycleFrom, Closed, IsWalk, White;
      result, more := res, finished;
      Enter(eqs, start, status[..], stack, finished, res, varIndex);
      ghost var before := status[..];
      status[varIndex] := Visited;
      assert status[..] == before[varIndex := Visited];
      ghost var path := stack + [varIndex];
      var h := GetNeighbours(eqs, varIndex);
      for i := 0 to h
        invariant Coloured(eqs, start, status[..], path, more, result)
        invariant finished <= more && (res ==> result)
        invariant White(status[..]) <= White(old(status[..])) - {varIndex}
        invariant varIndex in eqs ==> forall j :: i <= j < h ==> neighbours[varIndex, j] == Vars(eqs[varIndex])[j]
        invariant !result ==> varIndex in eqs ==> forall j :: 0 <= j < i ==> Vars(eqs[varIndex])[j] in more
        invariant forall a, b :: 0 <= a < MAX_VARIABLES && 0 <= b < MAX_VARIABLES && old(status[a]) != NotVisited ==>
          neighbours[a, b] == old(neighbours[a, b])
      {
        var neighbour := neighbours[varIndex, i];
        assert varIndex in eqs && neighbour == Vars(eqs[varIndex])[i] && Edge(eqs, varIndex, neighbour);
        if status[neighbour] == Visited {
          BackEdge(eqs, start, path, neighbour);
          result := true;
        }
        if status[neighbour] == NotVisited {
          result, more := Visit(eqs, neighbour, result, start, path, more);
          more := more + [neighbour];
        }
        neighbours[varIndex, i] := 0;
      }
      if !result {
        ClosedNext(eqs, more, varIndex);
      }
      Leave(eqs, start, status[..], stack, more, result, varIndex);
      before := status[..];
      status[varIndex] := Done;
      assert status[..] == before[varIndex := Done];
    }

    /** Whether a cycle can be reached from the left-hand side of the new equation. */
    method IsCyclic(eqs: System, left: nat) returns (result: bool, ghost finished: seq<nat>)
      requires Valid() && InRange(eqs) && left < MAX_VARIABLES
      modifies status, neighbours
      ensures result <==> CycleFrom(eqs, left)
      ensures !result ==> left !in finished && Closed(eqs, finished + [left])
    {
      for i := 0 to MAX_VARIABLES
        invariant forall u :: 0 <= u < i ==> status[u] == NotVisited
      {
        status[i] := NotVisited;
      }
      result, finished := Visit(eqs, left, false, left, [], []);
      if !result {
        ClosedHasNoCycle(eqs, finished + [left], left);
      }
    }
  }

  // ----- accepting a list of equations -----

  datatype Equation = Equation(left: nat, right: Expr)

  /** The system of the first `k` equations; a line that could not be parsed adds nothing. */
  function Collect(list: seq<Option<Equation>>, k: nat): System
    requires k <= |list|
  {
    if k == 0 then map[]
    else if list[k - 1].None? then Collect(list, k - 1)
    else Collect(list, k - 1)[list[k - 1].value.left := list[k - 1].value.right]
  }

  /** The first `k` lines are equations for different variables, without a cyclic dependency. */
  ghost predicate Good(list: seq<Option<Equation>>, k: nat)
    requires k <= |list|
  {
    && (forall i :: 0 <= i < k ==> list[i].Some?)
    && (forall i, j :: 0 <= i < j < k ==> list[i].value.left != list[j].value.left)
    && Acyclic(Collect(list, k))
  }

  predicate LineInRange(line: Option<Equation>) {
    line.None? || (line.value.left < MAX_VARIABLES && |Vars(line.value.right)| <= MAX_VARIABLES
                   && forall y :: y in Vars(line.value.right) ==> y < MAX_VARIABLES)
  }

  lemma {:induction false} CollectKeys(list: seq<Option<Equation>>, k: nat)
    requires k <= |list| && forall i :: 0 <= i < k ==> list[i].Some?
    ensures forall x :: x in Collect(list, k) <==> exists i :: 0 <= i < k && list[i].value.left == x
  {
    if k > 0 { CollectKeys(list, k - 1); }
  }

  lemma {:induction false} CollectInRange(list: seq<Option<Equation>>, k: nat)
    requires k <= |list| && forall i :: 0 <= i < |list| ==> LineInRange(list[i])
    ensures InRange(Collect(list, k))
  {
    if k > 0 { CollectInRange(list, k - 1); }
  }

  /** Without a cycle through the new left-hand side, the ranks can be extended. */
  lemma ExtendRank(old': System, rank: nat -> nat, top: nat, x: nat, e: Expr, finished: seq<nat>)
    returns (rank': nat -> nat, top': nat)
    requires Ranked(old', rank, top) && x !in old' && x !in finished && Closed(old'[x := e], finished + [x])
    ensures Ranked(old'[x := e], rank', top')
  {
    var eqs := old'[x := e];
    rank' := (u: nat) => if u == x then top else if u in finished then rank(u) else top + 1 + rank(u);
    top' := 2 * top + 1;
    var f := finished + [x];
    forall u, y | Edge(eqs, u, y) && y in eqs
      ensures rank'(y) < rank'(u)
    {
      if u in f {
        var i :| 0 <= i < |f| && f[i] == u && (u == x ==> i == |finished|);
        assert y in f[..i];
        assert y in finished;
      }
      if u != x && y != x {
        assert Edge(old', u, y);
      }
    }
  }

  /** A cycle stays a cycle when equations are added. */
  lemma {:induction false} CyclesStay(list: seq<Option<Equation>>, k: nat)
    requires k < |list| && Good(list, k + 1)
    ensures Good(list, k)
  {
    var (small, large) := (Collect(list, k), Collect(list, k + 1));
    CollectKeys(list, k);
    forall p ensures !IsCycle(small, p) {
      if IsCycle(small, p) {
        assert forall u, y :: Edge(small, u, y) ==> Edge(large, u, y);
        assert IsCycle(large, p);
      }
    }
  }

  ghost function Zero(): nat -> nat {
    (u: nat) => 0
  }

  lemma RankNothing()
    ensures Ranked(map[], Zero(), 0)
  {
  }

  lemma CycleSpoils(eqs: System, x: nat)
    requires CycleFrom(eqs, x)
    ensures !Acyclic(eqs)
  {
  }

  /** Reads equations until one is refused. */
  method ReadEquations(list: seq<Option<Equation>>) returns (accepted: nat, eqs: System, ghost rank: nat -> nat, ghost top: nat)
    requires forall i :: 0 <= i < |list| && list[i].Some? ==>
      (list[i].value.left < 1024 && |Vars(list[i].value.right)| <= 1024 && forall y :: y in Vars(list[i].value.right) ==> y < 1024)
    ensures accepted <= |list| && Good(list, accepted) && (accepted < |list| ==> !Good(list, accepted + 1))
    ensures Ranked(Collect(list, accepted), rank, top)
    ensures accepted == |list| ==> eqs == Collect(list, |list|)
  {
    hide Ranked, Closed, Acyclic, CycleFrom, InRange;
    var checker := new Checker();
    RankNothing();
    accepted, eqs, rank, top := 0, map[], Zero(), 0;
    while accepted < |list|
      invariant accepted <= |list| && eqs == Collect(list, accepted)
      invariant forall i :: 0 <= i < accepted ==> list[i].Some?
      invariant forall i, j :: 0 <= i < j < accepted ==> list[i].value.left != list[j].value.left
      invariant Ranked(eqs, rank, top) && fresh(checker.status) && fresh(checker.neighbours) && checker.Valid()
    {
      RankedIsAcyclic(eqs, rank, top);
      CollectKeys(list, accepted);
      var line := list[accepted];
      if line.None? || line.value.left in eqs {
        return;
      }
      var (left, right) := (line.value.left, line.value.right);
      CollectInRange(list, accepted + 1);
      ghost var old' := eqs;
      eqs := eqs[left := right];
      var cyclic, finished := checker.IsCyclic(eqs, left);
      if cyclic {
        CycleSpoils(eqs, left);
        return;
      }
      rank, top := ExtendRank(old', rank, top, left, right, finished);
      accepted := accepted + 1;
    }
    RankedIsAcyclic(eqs, rank, top);
  }

  /** So all lines are accepted exactly when the whole list is good. */
  lemma {:induction false} GoodUpTo(list: seq<Option<Equation>>, k: nat, n: nat)
    requires k <= n <= |list| && Good(list, n)
    ensures Good(list, k)
  {
    if k < n {
      CyclesStay(list, n - 1);
      GoodUpTo(list, k, n - 1);
    }
  }
}
