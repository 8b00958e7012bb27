/** Choosing k projects so that the hardest of them is as easy as possible, each after those it depends on. */
module Projects {

  /** Projects are numbered from 1 to `n`; a pair (a, b) says that `a` depends on `b`, possibly more than once. */
  datatype Plan = Plan(n: nat, need: seq<int>, edges: seq<(nat, nat)>) {
    ghost predicate Valid(rank: nat -> nat) {
      && |need| == n + 1 && (forall a :: 1 <= a <= n ==> need[a] >= 0)
      && (forall e :: e in edges ==> 1 <= e.0 <= n && 1 <= e.1 <= n && rank(e.1) < rank(e.0))
    }

    /** A set of projects that contains everything its members depend on. */
    ghost predicate Closed(s: set<nat>) {
      (forall a :: a in s ==> 1 <= a <= n) && forall e :: e in edges && e.0 in s ==> e.1 in s
    }

    /** A project that is not done and can be done next. */
    ghost predicate Available(done: set<nat>, a: nat) {
      1 <= a <= n && a !in done && forall e :: e in edges && e.0 == a ==> e.1 in done
    }

    /** `v` is the smallest bound on the needs of `k` projects that can be done. */
    ghost predicate IsBest(k: nat, v: int)
      requires |need| == n + 1
    {
      && (exists s :: Closed(s) && |s| == k && forall a :: a in s ==> need[a] <= v)
      && forall s :: Closed(s) && |s| == k && k > 0 ==> exists a :: a in s && need[a] >= v
    }
  }

  /** How many dependencies of `a` are not done. */
  ghost function Missing(edges: seq<(nat, nat)>, a: nat, done: set<nat>): nat {
    if edges == [] then 0
    else
      var e := edges[|edges| - 1];
      Missing(edges[..|edges| - 1], a, done) + if e.0 == a && e.1 !in done then 1 else 0
  }

  /** Those that depend on `b`, one for each edge. */
  function Dependents(edges: seq<(nat, nat)>, b: nat): seq<nat> {
    if edges == [] then []
    else
      var e := edges[|edges| - 1];
      Dependents(edges[..|edges| - 1], b) + if e.1 == b then [e.0] else []
  }

  lemma {:induction false} MissingNone(edges: seq<(nat, nat)>, a: nat, done: set<nat>)
    ensures Missing(edges, a, done) == 0 <==> forall e :: e in edges && e.0 == a ==> e.1 in done
  {
    if edges != [] {
      var front := edges[..|edges| - 1];
      MissingNone(front, a, done);
      assert edges == front + [edges[|edges| - 1]];
    }
  }

  lemma {:induction false} MissingLess(edges: seq<(nat, nat)>, a: nat, done: set<nat>, b: nat)
    requires b !in done
    ensures Missing(edges, a, done + {b}) + multiset(Dependents(edges, b))[a] == Missing(edges, a, done)
  {
    if edges != [] {
      MissingLess(edges[..|edges| - 1], a, done, b);
    }
  }

  lemma {:induction false} DependentsInRange(p: Plan, rank: nat -> nat, edges: seq<(nat, nat)>, b: nat)
    requires p.Valid(rank) && forall e :: e in edges ==> e in p.edges
    ensures forall a :: a in Dependents(edges, b) ==> 1 <= a <= p.n && a != b
  {
    if edges != [] {
      assert edges[|edges| - 1] in p.edges;
      DependentsInRange(p, rank, edges[..|edges| - 1], b);
    }
  }

  /** Something can be done next in every closed set that is not done. */
  lemma {:induction false} Next(p: Plan, rank: nat -> nat, done: set<nat>, s: set<nat>, a: nat) returns (b: nat)
    requires p.Valid(rank) && p.Closed(s) && a in s && a !in done
    ensures b in s && p.Available(done, b)
    decreases rank(a)
  {
    if e :| e in p.edges && e.0 == a && e.1 !in done {
      b := Next(p, rank, done, s, e.1);
    } else {
      b := a;
    }
  }

  lemma Outside(s: set<nat>, t: set<nat>) returns (a: nat)
    requires |t| < |s|
    ensures a in s && a !in t
  {
    if forall x :: x in s ==> x in t {
      Fits(s, t);
    }
    a :| a in s && a !in t;
  }

  lemma {:induction false} Fits(s: set<nat>, t: set<nat>)
    requires s <= t
    ensures |s| <= |t|
  {
    assert t == s + (t - s);
  }

  /** All projects. */
  function All(n: nat): (s: set<nat>)
    ensures (forall a :: a in s <==> 1 <= a <= n) && |s| == n
  {
    if n == 0 then {} else All(n - 1) + {n}
  }

  // ----- the priority queue -----

  type Entry = (int, nat)

  predicate Before(x: Entry, y: Entry) {
    x.0 < y.0 || (x.0 == y.0 && x.1 <= y.1)
  }

  lemma {:induction false} LeastExists(q: multiset<Entry>) returns (top: Entry)
    requires |q| > 0
    ensures top in q && forall x :: x in q ==> Before(top, x)
    decreases |q|
  {
    var y :| y in q;
    var rest := q - multiset{y};
    top := y;
    if |rest| > 0 {
      var z := LeastExists(rest);
      top := if Before(y, z) then y else z;
    }
    assert forall x :: x in q ==> x == y || x in rest;
  }

  /** The queue holds each available project once, with its need. */
  ghost predicate Holds(p: Plan, q: multiset<Entry>, done: set<nat>)
    requires |p.need| == p.n + 1
  {
    forall x: Entry :: q[x] == if p.Available(done, x.1) && x.0 == p.need[x.1] then 1 else 0
  }

  lemma TablesNext(edges: seq<(nat, nat)>, i: nat)
    requires i < |edges|
    ensures forall a :: Missing(edges[..i + 1], a, {}) == Missing(edges[..i], a, {}) + if edges[i].0 == a then 1 else 0
    ensures forall b :: Dependents(edges[..i + 1], b) == Dependents(edges[..i], b) + if edges[i].1 == b then [edges[i].0] else []
  {
    assert edges[..i + 1][..i] == edges[..i];
  }

  /** Builds the tables: how many dependencies are open, and who waits for whom. */
  method Tables(p: Plan, ghost rank: nat -> nat) returns (inDegree: array<int>, graph: array<seq<nat>>)
    requires p.Valid(rank)
    ensures fresh(inDegree) && fresh(graph) && graph.Length == p.n + 1 && Counted(p, inDegree[..], [], {})
    ensures forall a :: 0 <= a <= p.n ==> graph[a] == Dependents(p.edges, a)
  {
    inDegree := new int[p.n + 1](_ => 0);
    graph := new seq<nat>[p.n + 1](_ => []);
    for i := 0 to |p.edges|
      invariant forall a :: 0 <= a <= p.n ==> inDegree[a] == Missing(p.edges[..i], a, {}) && graph[a] == Dependents(p.edges[..i], a)
    {
      hide Missing, Dependents;
      var (a, b) := p.edges[i];
      assert p.edges[i] in p.edges;
      TablesNext(p.edges, i);
      inDegree[a] := inDegree[a] + 1;
      graph[b] := graph[b] + [a];
    }
    assert p.edges[..|p.edges|] == p.edges;
  }

  /** What becomes available when `b` is done. */
  lemma {:induction false} NowAvailable(p: Plan, a: nat, b: nat, done: set<nat>)
    requires p.Closed(done) && p.Available(done, b)
    ensures a in Dependents(p.edges, b) && 1 <= a <= p.n && a != b && Missing(p.edges, a, done + {b}) == 0 ==>
      p.Available(done + {b}, a) && !p.Available(done, a)
    ensures p.Available(done + {b}, a) && !p.Available(done, a) ==>
      a in Dependents(p.edges, b) && a != b && Missing(p.edges, a, done + {b}) == 0
    ensures p.Available(done, a) && a != b ==> p.Available(done + {b}, a)
  {
    MissingLess(p.edges, a, done, b);
    MissingNone(p.edges, a, done);
    MissingNone(p.edges, a, done + {b});
    InDependents(p.edges, a, b);
  }

  lemma {:induction false} InDependents(edges: seq<(nat, nat)>, a: nat, b: nat)
    ensures a in Dependents(edges, b) <==> (a, b) in edges
  {
    if edges != [] {
      var front := edges[..|edges| - 1];
      InDependents(front, a, b);
      assert edges == front + [edges[|edges| - 1]];
    }
  }

  /** The entries that were added to the queue. */
  ghost predicate Added(p: Plan, dependents: seq<nat>, inDegree: seq<int>, x: Entry)
    requires |p.need| == p.n + 1 == |inDegree|
  {
    1 <= x.1 <= p.n && x.0 == p.need[x.1] && x.1 in dependents && inDegree[x.1] == 0
  }

  /** The counters when the dependents in `d` have been counted down. */
  ghost predicate Counted(p: Plan, inDegree: seq<int>, d: seq<nat>, done: set<nat>) {
    |inDegree| == p.n + 1 && forall a :: 1 <= a <= p.n ==> inDegree[a] == Missing(p.edges, a, done) - multiset(d)[a]
  }

  /** The queue when those of them that wait no more have been added. */
  ghost predicate Queued(p: Plan, inDegree: seq<int>, d: seq<nat>, q: multiset<Entry>, q': multiset<Entry>) {
    |p.need| == p.n + 1 == |inDegree| && forall x: Entry :: q'[x] == q[x] + if Added(p, d, inDegree, x) then 1 else 0
  }

  lemma {:induction false} CountedNext(p: Plan, inDegree: seq<int>, d: seq<nat>, j: nat, done: set<nat>, b: nat)
    requires j < |d| && Counted(p, inDegree, d[..j], done) && b !in done && d == Dependents(p.edges, b) && 1 <= d[j] <= p.n
    ensures inDegree[d[j]] > 0 && Counted(p, inDegree[d[j] := inDegree[d[j]] - 1], d[..j + 1], done)
  {
    MissingLess(p.edges, d[j], done, b);
    hide Missing, Dependents;
    assert d[..j + 1] == d[..j] + [d[j]] && d == d[..j + 1] + d[j + 1..];
  }

  lemma {:induction false} QueuedNext(p: Plan, inDegree: seq<int>, d: seq<nat>, j: nat, q: multiset<Entry>, q0: multiset<Entry>, q1: multiset<Entry>)
    requires j < |d| && Queued(p, inDegree, d[..j], q, q0) && 1 <= d[j] <= p.n && inDegree[d[j]] > 0
    requires q1 == if inDegree[d[j]] == 1 then q0 + multiset{(p.need[d[j]], d[j])} else q0
    ensures Queued(p, inDegree[d[j] := inDegree[d[j]] - 1], d[..j + 1], q, q1)
  {
    var after := inDegree[d[j] := inDegree[d[j]] - 1];
    assert d[..j + 1] == d[..j] + [d[j]];
    forall x: Entry
      ensures Added(p, d[..j + 1], after, x) <==> Added(p, d[..j], inDegree, x) || (inDegree[d[j]] == 1 && x == (p.need[d[j]], d[j]))
    {
    }
  }

  lemma AllCounted(p: Plan, inDegree: seq<int>, d: seq<nat>, done: set<nat>, b: nat)
    requires Counted(p, inDegree, d, done) && b !in done && d == Dependents(p.edges, b)
    ensures Counted(p, inDegree, [], done + {b})
  {
    forall a ensures Missing(p.edges, a, done + {b}) + multiset(d)[a] == Missing(p.edges, a, done) {
      MissingLess(p.edges, a, done, b);
    }
  }

  /** One project is done: those that waited only for it become available. */
  method Finish(p: Plan, inDegree: array<int>, dependents: seq<nat>, b: nat, q: multiset<Entry>, ghost done: set<nat>,
                ghost rank: nat -> nat) returns (q': multiset<Entry>)
    requires p.Valid(rank) && p.Available(done, b) && dependents == Dependents(p.edges, b)
    requires Counted(p, inDegree[..], [], done) && p.Closed(done) && Holds(p, q + multiset{(p.need[b], b)}, done)
    modifies inDegree
    ensures Counted(p, inDegree[..], [], done + {b}) && Holds(p, q', done + {b})
  {
    assert b !in done && |p.need| == p.n + 1 == inDegree.Length && Queued(p, inDegree[..], [], q, q);
    hide Plan.Valid, Plan.Available, Plan.Closed, Holds, Missing, Dependents, Counted, Queued;
    q' := q;
    DependentsInRange(p, rank, p.edges, b);
    assert dependents[..0] == [];
    for j := 0 to |dependents|
      invariant Counted(p, inDegree[..], dependents[..j], done) && Queued(p, inDegree[..], dependents[..j], q, q')
    {
      var i := dependents[j];
      assert i in dependents;
      CountedNext(p, inDegree[..], dependents, j, done, b);
      ghost var (before, q0) := (inDegree[..], q');
      inDegree[i] := inDegree[i] - 1;
      if inDegree[i] == 0 {
        q' := q' + multiset{(p.need[i], i)};
      }
      assert inDegree[..] == before[i := before[i] - 1];
      QueuedNext(p, before, dependents, j, q, q0, q');
    }
    assert dependents[..|dependents|] == dependents;
    AllCounted(p, inDegree[..], dependents, done, b);
    AllAdded(p, dependents, inDegree[..], b, q, q', done);
  }

  lemma {:induction false} AllAdded(p: Plan, dependents: seq<nat>, inDegree: seq<int>, b: nat, q: multiset<Entry>, q': multiset<Entry>,
                                    done: set<nat>)
    requires |p.need| == p.n + 1 == |inDegree| && p.Closed(done) && p.Available(done, b) && dependents == Dependents(p.edges, b)
    requires Counted(p, inDegree, [], done + {b}) && Queued(p, inDegree, dependents, q, q')
    requires Holds(p, q + multiset{(p.need[b], b)}, done) && forall a :: a in dependents ==> a != b
    ensures Holds(p, q', done + {b})
  {
    forall x: Entry
      ensures q'[x] == if p.Available(done + {b}, x.1) && x.0 == p.need[x.1] then 1 else 0
    {
      NowAvailable(p, x.1, b, done);
      hide Plan.Available, Plan.Closed, Missing, Dependents;
      var y := (p.need[b], b);
      assert (q + multiset{y})[x] == q[x] + if x == y then 1 else 0;
    }
  }

  /** What holds after some rounds: what is done, the worst of it, and that it could not be avoided. */
  ghost predicate Progress(p: Plan, done: set<nat>, result: int)
    requires |p.need| == p.n + 1
  {
    && p.Closed(done) && result >= 0 && (done == {} ==> result == 0) && (forall a :: a in done ==> p.need[a] <= result)
    && forall s :: p.Closed(s) && |s| >= |done| > 0 ==> exists a :: a in s && p.need[a] >= result
  }

  /** Taking the easiest available project is as good as anything. */
  lemma {:induction false} TakeEasiest(p: Plan, rank: nat -> nat, done: set<nat>, result: int, b: nat)
    requires p.Valid(rank) && Progress(p, done, result) && p.Available(done, b)
    requires forall a: nat :: p.Available(done, a) ==> p.need[b] <= p.need[a]
    ensures Progress(p, done + {b}, if p.need[b] > result then p.need[b] else result)
  {
    forall s | p.Closed(s) && |s| >= |done| + 1
      ensures exists a :: a in s && p.need[a] >= if p.need[b] > result then p.need[b] else result
    {
      if p.need[b] > result || |done| == 0 {
        var x := Outside(s, done);
        var a := Next(p, rank, done, s, x);
        assert p.need[a] >= p.need[b];
      } else {
        assert exists a :: a in s && p.need[a] >= result;
      }
    }
  }

  lemma Waiting(p: Plan, rank: nat -> nat, done: set<nat>) returns (a: nat)
    requires p.Valid(rank) && |done| < p.n
    ensures p.Available(done, a)
  {
    var x := Outside(All(p.n), done);
    a := Next(p, rank, done, All(p.n), x);
  }

  lemma BestIsFirst(p: Plan, q: multiset<Entry>, done: set<nat>, top: Entry)
    requires |p.need| == p.n + 1 && Holds(p, q, done) && top in q && forall x :: x in q ==> Before(top, x)
    ensures p.Available(done, top.1) && top.1 !in done && 1 <= top.1 <= p.n && top.0 == p.need[top.1]
    ensures forall a: nat :: p.Available(done, a) ==> top.0 <= p.need[a]
  {
    assert q[top] > 0;
    forall a: nat | p.Available(done, a) ensures top.0 <= p.need[a] {
      assert q[(p.need[a], a)] == 1;
    }
  }

  method PopLeast(q: multiset<Entry>) returns (top: Entry, rest: multiset<Entry>)
    requires |q| > 0
    ensures top in q && (forall x :: x in q ==> Before(top, x)) && q == rest + multiset{top}
  {
    ghost var least := LeastExists(q);
    top :| top in q && forall x :: x in q ==> Before(top, x);
    rest := q - multiset{top};
  }

  /** At first the projects without dependencies are available. */
  method FirstQueue(p: Plan, inDegree: array<int>, ghost rank: nat -> nat) returns (projects: multiset<Entry>)
    requires p.Valid(rank) && Counted(p, inDegree[..], [], {})
    ensures Holds(p, projects, {})
  {
    projects := multiset{};
    for i := 1 to p.n + 1
      invariant forall x: Entry :: projects[x] == if x.1 < i && p.Available({}, x.1) && x.0 == p.need[x.1] then 1 else 0
    {
      MissingNone(p.edges, i, {});
      if inDegree[i] == 0 {
        projects := projects + multiset{(p.need[i], i)};
      }
    }
  }

  lemma Started(p: Plan, rank: nat -> nat)
    requires p.Valid(rank)
    ensures Progress(p, {}, 0)
  {
  }

  lemma InQueue(p: Plan, q: multiset<Entry>, done: set<nat>, a: nat)
    requires |p.need| == p.n + 1 && Holds(p, q, done) && p.Available(done, a)
    ensures (p.need[a], a) in q && |q| > 0
  {
    assert q[(p.need[a], a)] == 1;
  }

  lemma BestSoFar(p: Plan, done: set<nat>, result: int)
    requires |p.need| == p.n + 1 && Progress(p, done, result)
    ensures p.IsBest(|done|, result)
  {
  }

  /** The easiest way to do `k` projects. */
  method Select(p: Plan, k: nat, ghost rank: nat -> nat) returns (result: int)
    requires p.Valid(rank) && k <= p.n
    ensures p.IsBest(k, result) && (k == 0 ==> result == 0)
  {
    hide Plan.Available, Plan.Closed, Holds, Counted, Dependents, Plan.IsBest, Before;
    var inDegree, graph := Tables(p, rank);
    var projects := FirstQueue(p, inDegree, rank);
    Started(p, rank);
    ghost var done: set<nat> := {};
    result := 0;
    var left := k;
    while left > 0
      invariant 0 <= left <= k && (left == k ==> result == 0)
      invariant |done| == k - left && Progress(p, done, result) && Holds(p, projects, done)
      invariant forall a :: 0 <= a <= p.n ==> graph[a] == Dependents(p.edges, a)
      invariant fresh(inDegree) && Counted(p, inDegree[..], [], done)
    {
      ghost var a := Waiting(p, rank, done);
      InQueue(p, projects, done, a);
      var top, rest := PopLeast(projects);
      var (need, b) := top;
      BestIsFirst(p, projects, done, (need, b));
      TakeEasiest(p, rank, done, result, b);
      projects := Finish(p, inDegree, graph[b], b, rest, done, rank);
      result := if need > result then need else result;
      done := done + {b};
      left := left - 1;
    }
    BestSoFar(p, done, result);
  }
}
