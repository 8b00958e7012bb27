/**
 * Brandes' algorithm: a breadth-first phase that counts shortest walks, a backward phase that adds up
 * dependencies, and the sum over all sources. Exact arithmetic stands for the program's doubles.
 */
module Brandes {
  import opened Sums
  import opened WalkCounts
  import opened Dependencies
  import opened Exploration

  // ----- the order in which vertices leave the queue -----

  /** Exactly the labelled vertices, each once, nearest first. */
  predicate Ordered(d: seq<int>, order: seq<nat>) {
    && (forall i: nat :: i < |order| ==> order[i] < |d| && d[order[i]] >= 0)
    && (forall i: nat, j: nat :: i < j < |order| ==> order[i] != order[j] && d[order[i]] <= d[order[j]])
    && (forall v: nat :: v < |d| && d[v] >= 0 ==> v in order)
  }

  lemma PushOrdered(d: seq<int>, order: seq<nat>, w: nat, k: int)
    requires Ordered(d, order) && w < |d| && d[w] < 0 && k >= 0
    requires forall x: nat :: x < |d| ==> d[x] <= k
    ensures Ordered(d[w := k], order + [w])
  {
    var (d', o) := (d[w := k], order + [w]);
    assert forall i: nat :: i < |order| ==> o[i] == order[i] && order[i] != w;
    assert o[|order|] == w;
    forall v: nat | v < |d'| && d'[v] >= 0 ensures v in o {
      assert v != w ==> v in order;
    }
  }

  /** The scanned lists while the front of the queue is being processed. */
  predicate ScannedUpTo(g: Graph, done: seq<seq<nat>>, popped: seq<nat>) {
    |done| == |g| && forall u: nat :: u < |g| ==> done[u] == if u in popped then g[u] else []
  }

  lemma AtTheFront(g: Graph, s: nat, p: Progress, popped: seq<nat>, v: nat, rest: seq<nat>)
    requires Explored(g, s, p) && ScannedUpTo(g, p.done, popped) && Ordered(p.d, popped + [v] + rest)
    requires forall x: nat :: x in rest && x < |p.d| && v < |p.d| ==> p.d[x] <= p.d[v] + 1
    ensures v < |g| && p.done[v] == [] && Frontier(p, v)
  {
    var o := popped + [v] + rest;
    assert o[|popped|] == v;
    hide Explored, Sum, Walks;
    forall u | u in popped ensures u != v && u < |p.d| && p.d[u] <= p.d[v] {
      var i: nat :| i < |popped| && popped[i] == u;
      assert o[i] == u;
    }
    forall x: nat | x < |p.d| ensures p.d[x] <= p.d[v] + 1 {
      if p.d[x] >= 0 {
        assert x in o;
        assert x in popped || x == v || x in rest;
      }
    }
  }

  lemma StartExplored(g: Graph, s: nat, p: Progress)
    requires Sized(g, p) && s < |g| && IsGraph(g)
    requires forall v: nat :: v < |g| ==> p.d[v] == (if v == s then 0 else -1) && p.sigma[v] == (if v == s then 1.0 else 0.0)
    requires forall v: nat :: v < |g| ==> p.preds[v] == [] && p.done[v] == []
    ensures Explored(g, s, p) && Ordered(p.d, [s])
  {
    assert Walks(g, 0, s, s) == 1;
    hide Walks;
    forall w: nat | w < |g| ensures Sum(|g|, EdgeTerms(p, w)) == 0.0 {
      forall u: nat | u < |g| ensures EdgeTerms(p, w)(u) == 0.0 {
        NoTimes(p.done[u], w);
      }
      SumZero(|g|, EdgeTerms(p, w));
    }
  }

  // ----- the breadth-first phase -----

  /** The body of the inner loop: the edge from v to w. */
  method Visit(v: nat, w: nat, sigma: array<real>, d: array<int>, P: array<seq<nat>>, Q0: seq<nat>, ghost done: seq<seq<nat>>)
    returns (Q: seq<nat>)
    requires v < d.Length == sigma.Length == P.Length == |done| && w < d.Length && d[v] >= 0
    modifies sigma, d, P
    ensures ScanEdge(old(Progress(d[..], sigma[..], P[..], done)), v, w)
      == Progress(d[..], sigma[..], P[..], done[v := done[v] + [w]])
    ensures Q == if old(d[w]) < 0 then Q0 + [w] else Q0
  {
    Q := Q0;
    if d[w] < 0 {
      Q := Q + [w];
      d[w] := d[v] + 1;
    }
    if d[w] == d[v] + 1 {
      sigma[w] := sigma[w] + sigma[v];
      P[w] := P[w] + [v];
    }
  }

  /** Scans the adjacency list of v, the vertex just taken from the queue. */
  method Scan(g: Graph, s: nat, v: nat, sigma: array<real>, d: array<int>, P: array<seq<nat>>, Q0: seq<nat>,
              ghost popped: seq<nat>, ghost done0: seq<seq<nat>>)
    returns (Q: seq<nat>, ghost done: seq<seq<nat>>)
    requires IsGraph(g) && v < |g| == d.Length == sigma.Length == P.Length == |done0|
    requires Explored(g, s, Progress(d[..], sigma[..], P[..], done0)) && done0[v] == []
    requires Frontier(Progress(d[..], sigma[..], P[..], done0), v)
    requires Ordered(d[..], popped + [v] + Q0)
    modifies sigma, d, P
    ensures done == done0[v := g[v]] && Explored(g, s, Progress(d[..], sigma[..], P[..], done))
    ensures Frontier(Progress(d[..], sigma[..], P[..], done), v) && d[v] == old(d[v])
    ensures Ordered(d[..], popped + [v] + Q)
  {
    hide Explored, Ordered;
    Q, done := Q0, done0;
    var i := 0;
    while i < |g[v]|
      invariant i <= |g[v]| && done == done0[v := g[v][..i]]
      invariant Explored(g, s, Progress(d[..], sigma[..], P[..], done))
      invariant Frontier(Progress(d[..], sigma[..], P[..], done), v) && d[v] == old(d[v])
      invariant Ordered(d[..], popped + [v] + Q)
    {
      var w := g[v][i];
      ghost var p := Progress(d[..], sigma[..], P[..], done);
      assert w in Next(g, v);
      ScanKeeps(g, s, p, v, w);
      if d[w] < 0 {
        PushOrdered(d[..], popped + [v] + Q, w, d[v] + 1);
        assert popped + [v] + Q + [w] == popped + [v] + (Q + [w]);
      }
      Q := Visit(v, w, sigma, d, P, Q, done);
      assert g[v][..i + 1] == g[v][..i] + [w];
      done := done[v := done[v] + [w]];
      assert Progress(d[..], sigma[..], P[..], done) == ScanEdge(p, v, w);
      i := i + 1;
    }
    assert g[v][..i] == g[v];
  }

  /** Between two rounds: `popped` has left the queue `queue`, whose labels differ by at most one. */
  predicate BetweenRounds(g: Graph, s: nat, p: Progress, popped: seq<nat>, queue: seq<nat>) {
    && Explored(g, s, p) && ScannedUpTo(g, p.done, popped) && Ordered(p.d, popped + queue)
    && forall x: nat :: x in queue && x < |g| && queue[0] < |g| ==> p.d[x] <= p.d[queue[0]] + 1
  }

  lemma AllScanned(g: Graph, s: nat, p: Progress, popped: seq<nat>)
    requires BetweenRounds(g, s, p, popped, [])
    ensures Complete(g, s, p) && Ordered(p.d, popped)
  {
    assert popped + [] == popped;
  }

  lemma Dequeue(g: Graph, s: nat, p: Progress, popped: seq<nat>, queue: seq<nat>)
    requires BetweenRounds(g, s, p, popped, queue) && queue != []
    ensures var v := queue[0];
      v < |g| && p.done[v] == [] && Explored(g, s, p) && Frontier(p, v) && Ordered(p.d, popped + [v] + queue[1..])
  {
    assert popped + queue == popped + [queue[0]] + queue[1..];
    assert (popped + queue)[|popped|] == queue[0];
    hide Explored;
    assert |p.d| == |g| by { assert Explored(g, s, p) ==> |p.d| == |g|; }
    AtTheFront(g, s, p, popped, queue[0], queue[1..]);
  }

  lemma RoundDone(g: Graph, s: nat, p: Progress, p': Progress, popped: seq<nat>, v: nat, queue: seq<nat>)
    requires v < |g| && ScannedUpTo(g, p.done, popped) && v !in popped
    requires Explored(g, s, p') && p'.done == p.done[v := g[v]] && Frontier(p', v) && Ordered(p'.d, popped + [v] + queue)
    ensures BetweenRounds(g, s, p', popped + [v], queue)
  {
    var o := popped + [v] + queue;
    assert o[|popped|] == v && (queue != [] ==> o[|popped| + 1] == queue[0]);
  }

  lemma FirstOnce(d: seq<int>, popped: seq<nat>, v: nat, queue: seq<nat>)
    requires Ordered(d, popped + [v] + queue)
    ensures v !in popped
  {
    var o := popped + [v] + queue;
    assert o[|popped|] == v;
    forall i: nat | i < |popped| ensures popped[i] != v {
      assert o[i] == popped[i];
    }
  }

  /** The first phase: labels, counters and predecessor lists, and the vertices in the order they left the queue. */
  method Explore(g: Graph, s: nat, sigma: array<real>, d: array<int>, P: array<seq<nat>>)
    returns (S: seq<nat>, ghost done: seq<seq<nat>>)
    requires IsGraph(g) && s < |g| == d.Length == sigma.Length == P.Length
    requires forall v: nat :: v < |g| ==> d[v] == -1 && sigma[v] == 0.0 && P[v] == []
    modifies sigma, d, P
    ensures Complete(g, s, Progress(d[..], sigma[..], P[..], done)) && Ordered(d[..], S)
  {
    sigma[s] := 1.0;
    d[s] := 0;
    var Q: seq<nat> := [s];
    S := [];
    done := seq(|g|, _ => []);
    StartExplored(g, s, Progress(d[..], sigma[..], P[..], done));
    assert S + Q == [s];
    hide Explored, Ordered, Complete, Frontier;
    while Q != []
      invariant |done| == |g| && ScannedUpTo(g, done, S) && BetweenRounds(g, s, Progress(d[..], sigma[..], P[..], done), S, Q)
      decreases set v: nat | v < |g| && v !in S
    {
      ghost var before := set v: nat | v < |g| && v !in S;
      ghost var p := Progress(d[..], sigma[..], P[..], done);
      Dequeue(g, s, p, S, Q);
      var v := Q[0];
      Q := Q[1..];
      FirstOnce(p.d, S, v, Q);
      Q, done := Scan(g, s, v, sigma, d, P, Q, S, done);
      RoundDone(g, s, p, Progress(d[..], sigma[..], P[..], done), S, v, Q);
      assert v in before;
      S := S + [v];
    }
    AllScanned(g, s, Progress(d[..], sigma[..], P[..], done), S);
  }

  // ----- the backward phase -----

  /** What the vertices taken from the stack so far contribute to the dependency on v. */
  ghost function TakenTerms(g: Graph, s: nat, v: nat, taken: set<nat>): nat -> real {
    (w: nat) => if w in taken then Contribution(g, s, v, w) else 0.0
  }

  lemma TakeOne(g: Graph, s: nat, v: nat, taken: set<nat>, w: nat)
    requires w < |g| && w !in taken
    ensures Sum(|g|, TakenTerms(g, s, v, taken + {w})) == Sum(|g|, TakenTerms(g, s, v, taken)) + Contribution(g, s, v, w)
  {
    SumDiffer(|g|, TakenTerms(g, s, v, taken), TakenTerms(g, s, v, taken + {w}), w);
  }

  /** Once all vertices farther away have been taken, the dependency is complete. */
  lemma TakenAll(g: Graph, s: nat, v: nat, taken: set<nat>)
    requires IsGraph(g) && v < |g| && Distance(g, s, v) >= 0
    requires forall w: nat :: w < |g| && Distance(g, s, w) == Distance(g, s, v) + 1 ==> w in taken
    ensures Sum(|g|, TakenTerms(g, s, v, taken)) == Dependency(g, s, v)
  {
    DependencyRecurrence(g, s, v);
    SumEqual(|g|, TakenTerms(g, s, v, taken), Contributions(g, s, v));
  }

  /** What the first phase leaves for the second: walk counts and the edges one step farther. */
  ghost predicate Counted(g: Graph, s: nat, sigma: seq<real>, preds: seq<seq<nat>>) {
    && |sigma| == |preds| == |g|
    && (forall v: nat :: v < |g| ==> sigma[v] == Sigma(g, s, v) as real)
    && (forall w: nat, v: nat :: w < |g| && v < |g| ==> Times(preds[w], v) == Link(g, s, v, w))
    && (forall w: nat, v: nat :: w < |g| && v in preds[w] ==> v < |g|)
  }

  lemma CompleteIsCounted(g: Graph, s: nat, p: Progress)
    requires Complete(g, s, p) && IsGraph(g)
    ensures Counted(g, s, p.sigma, p.preds)
  {
    hide Distance, Walks, LabelsOk, CountersOk, PredecessorsOk;
    forall v: nat | v < |g| ensures p.sigma[v] == Sigma(g, s, v) as real {
      CountersAreSigmas(g, s, p, v);
    }
    forall w: nat, v: nat | w < |g| && v < |g| ensures Times(p.preds[w], v) == Link(g, s, v, w) {
      PredecessorsAreLinks(g, s, p, v, w);
    }
  }

  ghost function Step(g: Graph, s: nat, v: nat, w: nat): real
    requires Sigma(g, s, w) > 0
  {
    (Sigma(g, s, v) as real / Sigma(g, s, w) as real) * (1.0 + Dependency(g, s, w))
  }

  lemma StepsMakeContribution(g: Graph, s: nat, v: nat, w: nat)
    requires Sigma(g, s, w) > 0
    ensures Product(Link(g, s, v, w) as real, Step(g, s, v, w)) == Contribution(g, s, v, w)
  {
    hide Link, Sigma, Dependency;
  }

  lemma OneMoreStep(xs: seq<nat>, x: nat, v: nat, c: real)
    ensures Product(Times(xs + [x], v) as real, c) == Product(Times(xs, v) as real, c) + if v == x then c else 0.0
  {
    AddTimes(xs, x, v);
    assert (Times(xs, v) as real + 1.0) * c == Times(xs, v) as real * c + c;
  }

  /** Spreads the finished dependency on w over the predecessors of w. */
  method Spread(g: Graph, s: nat, w: nat, sigma: array<real>, preds: seq<nat>, delta: array<real>)
    requires w < |g| == sigma.Length == delta.Length && delta != sigma
    requires Sigma(g, s, w) > 0 && forall v: nat :: v < |g| ==> sigma[v] == Sigma(g, s, v) as real
    requires forall v: nat :: v < |g| ==> Times(preds, v) == Link(g, s, v, w)
    requires forall v: nat :: v in preds ==> v < |g| && v != w
    requires delta[w] == Dependency(g, s, w)
    modifies delta
    ensures forall v: nat :: v < |g| ==> delta[v] == old(delta[v]) + Contribution(g, s, v, w)
  {
    hide Contribution, Link, Sigma, Dependency, Times, Product;
    assert forall v: nat :: v < |g| ==> Product(Times(preds[..0], v) as real, Step(g, s, v, w)) == 0.0 by {
      EmptyProduct(g, s, w);
    }
    for j := 0 to |preds|
      invariant forall v: nat :: v < |g| ==>
        delta[v] == old(delta[v]) + Product(Times(preds[..j], v) as real, Step(g, s, v, w))
      invariant delta[w] == Dependency(g, s, w)
    {
      var v := preds[j];
      assert v in preds && preds[..j + 1] == preds[..j] + [v];
      forall x: nat | x < |g| ensures Product(Times(preds[..j + 1], x) as real, Step(g, s, x, w))
        == Product(Times(preds[..j], x) as real, Step(g, s, x, w)) + if x == v then Step(g, s, v, w) else 0.0
      {
        OneMoreStep(preds[..j], v, x, Step(g, s, x, w));
      }
      delta[v] := delta[v] + (sigma[v] / sigma[w]) * (1.0 + delta[w]);
    }
    assert preds[..|preds|] == preds;
    forall v: nat | v < |g| ensures Product(Times(preds, v) as real, Step(g, s, v, w)) == Contribution(g, s, v, w) {
      StepsMakeContribution(g, s, v, w);
    }
  }

  lemma EmptyProduct(g: Graph, s: nat, w: nat)
    requires Sigma(g, s, w) > 0
    ensures forall v: nat :: Product(Times([], v) as real, Step(g, s, v, w)) == 0.0
  {
  }

  /** The stack of the second phase: reachable vertices only, and every vertex above is at least as far away. */
  ghost predicate Stacked(g: Graph, s: nat, S: seq<nat>, taken: set<nat>) {
    && (forall i: nat :: i < |S| ==> S[i] < |g| && Distance(g, s, S[i]) >= 0 && S[i] !in taken)
    && (forall i: nat, j: nat :: i < j < |S| ==> S[i] != S[j] && Distance(g, s, S[i]) <= Distance(g, s, S[j]))
    && (forall v: nat :: v < |g| && Distance(g, s, v) >= 0 ==> v in S || v in taken)
  }

  lemma StackReady(g: Graph, s: nat, p: Progress, S: seq<nat>)
    requires Complete(g, s, p) && IsGraph(g) && Ordered(p.d, S)
    ensures Stacked(g, s, S, {})
  {
    hide LabelsOk, CountersOk, PredecessorsOk;
    forall v: nat | v < |g| ensures p.d[v] == Distance(g, s, v) {
      LabelsAreDistances(g, s, p, v);
    }
  }

  lemma Popped(g: Graph, s: nat, S: seq<nat>, taken: set<nat>)
    requires Stacked(g, s, S, taken) && S != []
    ensures var w := S[|S| - 1];
      && Stacked(g, s, S[..|S| - 1], taken + {w})
      && forall x: nat :: x < |g| && Distance(g, s, x) == Distance(g, s, w) + 1 ==> x in taken
  {
    var (w, rest) := (S[|S| - 1], S[..|S| - 1]);
    hide Distance;
    forall v: nat | v < |g| && Distance(g, s, v) >= 0 ensures v in rest || v in taken + {w} {
      if v in S {
        var i: nat :| i < |S| && S[i] == v;
        assert i < |rest| ==> rest[i] == v;
      }
    }
    assert forall i: nat :: i < |S| ==> Distance(g, s, S[i]) <= Distance(g, s, w);
  }

  lemma PredecessorFacts(g: Graph, s: nat, sigma: seq<real>, preds: seq<seq<nat>>, w: nat)
    requires Counted(g, s, sigma, preds) && w < |g|
    ensures forall v: nat :: v in preds[w] ==> v < |g| && v != w
  {
    hide Distance, Walks;
    forall v: nat | v in preds[w] ensures v < |g| && v != w {
      TimesIn(preds[w], v);
    }
  }

  /** The second phase: empties the stack, finishing the dependencies farthest vertices first. */
  method Accumulate(g: Graph, s: nat, S0: seq<nat>, sigma: array<real>, P: array<seq<nat>>, delta: array<real>, BC: array<real>)
    requires IsGraph(g) && s < |g| == sigma.Length == P.Length == delta.Length == BC.Length
    requires delta != sigma && delta != BC && BC != sigma
    requires Counted(g, s, sigma[..], P[..]) && Stacked(g, s, S0, {})
    requires forall v: nat :: v < |g| ==> delta[v] == 0.0
    modifies delta, BC
    ensures forall v: nat :: v < |g| ==> BC[v] == old(BC[v]) + if v == s then 0.0 else Dependency(g, s, v)
  {
    var S := S0;
    ghost var taken: set<nat> := {};
    forall v: nat | v < |g| ensures Sum(|g|, TakenTerms(g, s, v, {})) == 0.0 {
      SumZero(|g|, TakenTerms(g, s, v, {}));
    }
    hide Counted, Stacked, Sum, TakenTerms, Contribution, Dependency, Sigma, Link, Distance;
    while S != []
      invariant Stacked(g, s, S, taken)
      invariant forall v: nat :: v < |g| ==> delta[v] == Sum(|g|, TakenTerms(g, s, v, taken))
      invariant forall v: nat :: v < |g| ==>
        BC[v] == old(BC[v]) + if v in taken && v != s then Dependency(g, s, v) else 0.0
      decreases S
    {
      var w := S[|S| - 1];
      assert w < |g| && Distance(g, s, w) >= 0 && w !in taken by { TopOfStack(g, s, S, taken); }
      Popped(g, s, S, taken);
      S := S[..|S| - 1];
      TakenAll(g, s, w, taken);
      PredecessorFacts(g, s, sigma[..], P[..], w);
      SigmaPositive(g, s, w);
      CountedAt(g, s, sigma[..], P[..], w);
      Spread(g, s, w, sigma, P[w], delta);
      forall v: nat | v < |g| ensures Sum(|g|, TakenTerms(g, s, v, taken + {w}))
        == Sum(|g|, TakenTerms(g, s, v, taken)) + Contribution(g, s, v, w)
      {
        TakeOne(g, s, v, taken, w);
      }
      taken := taken + {w};
      OwnContribution(g, s, w);
      if w != s {
        BC[w] := BC[w] + delta[w];
      }
    }
    forall v: nat | v < |g| && v !in taken ensures Dependency(g, s, v) == 0.0 {
      EmptyStack(g, s, taken, v);
    }
  }

  lemma TopOfStack(g: Graph, s: nat, S: seq<nat>, taken: set<nat>)
    requires Stacked(g, s, S, taken) && S != []
    ensures var w := S[|S| - 1]; w < |g| && Distance(g, s, w) >= 0 && w !in taken
  {
  }

  lemma EmptyStack(g: Graph, s: nat, taken: set<nat>, v: nat)
    requires Stacked(g, s, [], taken) && v < |g| && v !in taken
    ensures Dependency(g, s, v) == 0.0
  {
    UnreachableDependency(g, s, v);
  }

  lemma CountedAt(g: Graph, s: nat, sigma: seq<real>, preds: seq<seq<nat>>, w: nat)
    requires Counted(g, s, sigma, preds) && w < |g|
    ensures forall v: nat :: v < |g| ==> sigma[v] == Sigma(g, s, v) as real
    ensures forall v: nat :: v < |g| ==> Times(preds[w], v) == Link(g, s, v, w)
  {
  }

  lemma OwnContribution(g: Graph, s: nat, w: nat)
    ensures Contribution(g, s, w, w) == 0.0
  {
  }

  // ----- one source, and all sources -----

  /** Adds the dependencies of one source to the scores. */
  method Brandes(g: Graph, s: nat, BC: array<real>)
    requires IsGraph(g) && s < |g| == BC.Length
    modifies BC
    ensures forall v: nat :: v < |g| ==> BC[v] == old(BC[v]) + if v == s then 0.0 else Dependency(g, s, v)
  {
    hide Complete, Ordered, Counted, Stacked, Dependency;
    var n := |g|;
    var sigma, d, delta, P := new real[n], new int[n], new real[n], new seq<nat>[n];
    for w := 0 to n
      invariant forall v: nat :: v < w ==> P[v] == [] && sigma[v] == 0.0 && d[v] == -1 && delta[v] == 0.0
      invariant BC[..] == old(BC[..])
    {
      P[w] := [];
      sigma[w] := 0.0;
      d[w] := -1;
      delta[w] := 0.0;
    }
    var S, done := Explore(g, s, sigma, d, P);
    ghost var p := Progress(d[..], sigma[..], P[..], done);
    CompleteIsCounted(g, s, p);
    StackReady(g, s, p, S);
    Accumulate(g, s, S, sigma, P, delta, BC);
  }

  ghost function OthersTerms(g: Graph, v: nat): nat -> real {
    (s: nat) => if s == v then 0.0 else Dependency(g, s, v)
  }

  /** Betweenness: over all sources and targets other than v, the share of the shortest walks that visit v. */
  ghost function Betweenness(g: Graph, v: nat): real {
    Sum(|g|, OthersTerms(g, v))
  }

  /** The sources are divided into consecutive groups, one for each thread; the scores are updated atomically. */
  method AllSources(g: Graph, threads: nat) returns (BC: array<real>)
    requires IsGraph(g) && threads > 0
    ensures BC.Length == |g| && forall v: nat :: v < |g| ==> BC[v] == Betweenness(g, v)
  {
    var n := |g|;
    BC := new real[n](_ => 0.0);
    var group := if n / threads > 1 then n / threads else 1;
    var first := 0;
    hide Sum, Dependency;
    assert forall v: nat :: v < n ==> Sum(0, OthersTerms(g, v)) == 0.0 by {
      forall v: nat | v < n ensures Sum(0, OthersTerms(g, v)) == 0.0 { SumZero(0, OthersTerms(g, v)); }
    }
    while first < n
      invariant forall v: nat :: v < n ==> BC[v] == Sum(if first < n then first else n, OthersTerms(g, v))
    {
      var last := if first + group < n then first + group else n;
      for s := first to last
        invariant forall v: nat :: v < n ==> BC[v] == Sum(s, OthersTerms(g, v))
      {
        Brandes(g, s, BC);
        forall v: nat | v < n ensures Sum(s + 1, OthersTerms(g, v))
          == Sum(s, OthersTerms(g, v)) + if v == s then 0.0 else Dependency(g, s, v)
        {
          LastTerm(s + 1, OthersTerms(g, v));
        }
      }
      first := first + group;
    }
  }

  lemma LastTerm(n: nat, f: nat -> real)
    requires n > 0
    ensures Sum(n, f) == Sum(n - 1, f) + f(n - 1)
  {
  }
}
