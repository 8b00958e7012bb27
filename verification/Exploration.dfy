/** What the breadth-first phase of Brandes' algorithm maintains, stated on the values of its arrays. */
module Exploration {
  import opened Sums
  import opened WalkCounts
  import opened Dependencies

  /**
   * The arrays of the breadth-first phase, and how far each adjacency list has been scanned:
   * `done[u]` is the scanned part of the list of u.
   */
  datatype Progress = Progress(d: seq<int>, sigma: seq<real>, preds: seq<seq<nat>>, done: seq<seq<nat>>)

  function EdgeTerms(p: Progress, w: nat): nat -> real {
    (u: nat) =>
      if u < |p.d| && u < |p.sigma| && u < |p.done| && w < |p.d| && p.d[u] >= 0 && p.d[u] + 1 == p.d[w]
      then Product(p.sigma[u], Times(p.done[u], w) as real) else 0.0
  }

  predicate Sized(g: Graph, p: Progress) {
    |p.d| == |p.sigma| == |p.preds| == |p.done| == |g|
  }

  /** Labels are lengths of walks, and a scanned edge never leads more than one step farther. */
  predicate LabelsOk(g: Graph, s: nat, p: Progress)
    requires Sized(g, p) && s < |g|
  {
    && p.d[s] == 0
    && (forall v: nat :: v < |g| ==> p.d[v] >= -1)
    && (forall v: nat :: v < |g| && p.d[v] >= 0 ==> Walks(g, p.d[v], s, v) > 0)
    && (forall u: nat, x: nat {:trigger x in p.done[u]} :: u < |g| && x in p.done[u] ==> x < |g| && p.d[u] >= 0 && 0 <= p.d[x] <= p.d[u] + 1)
  }

  /** The counters add up over the scanned edges that lead one step farther. */
  predicate CountersOk(g: Graph, s: nat, p: Progress)
    requires Sized(g, p)
  {
    forall w: nat :: w < |g| ==> p.sigma[w] == Sum(|g|, EdgeTerms(p, w)) + (if w == s then 1.0 else 0.0)
  }

  /** The predecessor lists record exactly those edges. */
  predicate PredecessorsOk(g: Graph, p: Progress)
    requires Sized(g, p)
  {
    forall w: nat, u: nat :: w < |g| && u < |g| ==>
      Times(p.preds[w], u) == if p.d[u] >= 0 && p.d[u] + 1 == p.d[w] then Times(p.done[u], w) else 0
  }

  predicate PredecessorsInGraph(g: Graph, p: Progress)
    requires Sized(g, p)
  {
    forall w: nat, u: nat :: w < |g| && u in p.preds[w] ==> u < |g|
  }

  predicate Explored(g: Graph, s: nat, p: Progress) {
    Sized(g, p) && s < |g| && LabelsOk(g, s, p) && CountersOk(g, s, p) && PredecessorsOk(g, p) && PredecessorsInGraph(g, p)
  }

  // ----- scanning one edge -----

  /** The program's update for the edge from v to w. */
  function ScanEdge(p: Progress, v: nat, w: nat): Progress
    requires v < |p.d| == |p.sigma| == |p.preds| == |p.done| && w < |p.d|
  {
    var d' := if p.d[w] < 0 then p.d[w := p.d[v] + 1] else p.d;
    var done' := p.done[v := p.done[v] + [w]];
    if d'[w] == p.d[v] + 1 then
      Progress(d', p.sigma[w := p.sigma[w] + p.sigma[v]], p.preds[w := p.preds[w] + [v]], done')
    else
      Progress(d', p.sigma, p.preds, done')
  }

  /** While v is scanned, no vertex farther away has been scanned, and no label is more than one greater. */
  predicate Frontier(p: Progress, v: nat)
    requires v < |p.d| == |p.done|
  {
    && p.d[v] >= 0
    && (forall x: nat :: x < |p.d| ==> p.d[x] <= p.d[v] + 1)
    && (forall u: nat :: u < |p.d| && p.done[u] != [] ==> p.d[u] <= p.d[v])
  }

  lemma HasMember(xs: seq<nat>)
    ensures xs == [] || exists x: nat :: x in xs
  {
    if xs != [] {
      assert xs[0] in xs;
    }
  }

  lemma UnseenUnscanned(g: Graph, s: nat, p: Progress, w: nat)
    requires Sized(g, p) && s < |g| && LabelsOk(g, s, p) && w < |g| && p.d[w] < 0
    ensures p.done[w] == [] && forall u: nat :: u < |g| ==> w !in p.done[u]
  {
    HasMember(p.done[w]);
  }

  lemma EdgeWalk(g: Graph, s: nat, k: nat, v: nat, w: nat)
    requires Walks(g, k, s, v) > 0 && w in Next(g, v)
    ensures Walks(g, k + 1, s, w) > 0
  {
    var i: nat :| i < |Next(g, v)| && Next(g, v)[i] == w;
    assert Walks(g, 0, w, w) > 0;
    FirstStepCounts(g, 0, Next(g, v), i, w);
    assert Walks(g, 1, v, w) > 0;
    JoinWalks(g, k, 1, s, v, w);
  }

  lemma ScanLabels(g: Graph, s: nat, p: Progress, v: nat, w: nat)
    requires Explored(g, s, p) && v < |g| && w < |g| && w in Next(g, v) && Frontier(p, v)
    ensures var p' := ScanEdge(p, v, w); LabelsOk(g, s, p') && Frontier(p', v)
  {
    hide Walks, CountersOk, PredecessorsOk, PredecessorsInGraph, Frontier;
    ScanFrontier(g, s, p, v, w);
    ScanWalks(g, s, p, v, w);
    ScanEdges(g, s, p, v, w);
  }

  lemma ScanFrontier(g: Graph, s: nat, p: Progress, v: nat, w: nat)
    requires Explored(g, s, p) && v < |g| && w < |g| && Frontier(p, v)
    ensures Frontier(ScanEdge(p, v, w), v)
  {
    hide Walks, CountersOk, PredecessorsOk, PredecessorsInGraph;
    if p.d[w] < 0 {
      UnseenUnscanned(g, s, p, w);
    }
    hide LabelsOk;
  }

  lemma ScanWalks(g: Graph, s: nat, p: Progress, v: nat, w: nat)
    requires Explored(g, s, p) && v < |g| && w < |g| && w in Next(g, v) && Frontier(p, v)
    ensures var p' := ScanEdge(p, v, w);
      && p'.d[s] == 0 && (forall x: nat :: x < |g| ==> p'.d[x] >= -1)
      && (forall x: nat :: x < |g| && p'.d[x] >= 0 ==> Walks(g, p'.d[x], s, x) > 0)
  {
    hide Walks, CountersOk, PredecessorsOk, PredecessorsInGraph;
    EdgeWalk(g, s, p.d[v], v, w);
  }

  lemma ScanEdges(g: Graph, s: nat, p: Progress, v: nat, w: nat)
    requires Explored(g, s, p) && v < |g| && w < |g| && Frontier(p, v)
    ensures var p' := ScanEdge(p, v, w);
      forall u: nat, x: nat {:trigger x in p'.done[u]} :: u < |g| && x in p'.done[u] ==>
        x < |g| && p'.d[u] >= 0 && 0 <= p'.d[x] <= p'.d[u] + 1
  {
    var p' := ScanEdge(p, v, w);
    hide Walks, WalksFrom, Sum, EdgeTerms, Times, CountersOk, PredecessorsOk, PredecessorsInGraph;
    forall u: nat, x: nat {:trigger x in p'.done[u]} | u < |g| && x in p'.done[u]
      ensures x < |g| && p'.d[u] >= 0 && 0 <= p'.d[x] <= p'.d[u] + 1
    {
      assert x in p.done[u] || (u == v && x == w);
    }
  }

  lemma AddTimes(xs: seq<nat>, y: nat, x: nat)
    ensures Times(xs + [y], x) == Times(xs, x) + if x == y then 1 else 0
  {
  }

  lemma NoTimes(xs: seq<nat>, x: nat)
    requires x !in xs
    ensures Times(xs, x) == 0
  {
  }

  lemma ScanPredecessor(g: Graph, s: nat, p: Progress, v: nat, w: nat, x: nat, u: nat)
    requires Explored(g, s, p) && v < |g| && w < |g| && Frontier(p, v) && x < |g| && u < |g|
    ensures var p' := ScanEdge(p, v, w);
      Times(p'.preds[x], u) == if p'.d[u] >= 0 && p'.d[u] + 1 == p'.d[x] then Times(p'.done[u], x) else 0
  {
    hide Walks, Sum, EdgeTerms, Times, CountersOk, PredecessorsInGraph;
    AddTimes(p.preds[w], v, u);
    AddTimes(p.done[v], w, x);
    if p.d[w] < 0 {
      UnseenUnscanned(g, s, p, w);
      hide LabelsOk;
      NoTimes(p.done[u], w);
      NoTimes(p.done[w], x);
    }
  }

  lemma ScanPredecessors(g: Graph, s: nat, p: Progress, v: nat, w: nat)
    requires Explored(g, s, p) && v < |g| && w < |g| && Frontier(p, v)
    ensures PredecessorsOk(g, ScanEdge(p, v, w)) && PredecessorsInGraph(g, ScanEdge(p, v, w))
  {
    forall x: nat, u: nat | x < |g| && u < |g|
      ensures var p' := ScanEdge(p, v, w);
        Times(p'.preds[x], u) == if p'.d[u] >= 0 && p'.d[u] + 1 == p'.d[x] then Times(p'.done[u], x) else 0
    {
      ScanPredecessor(g, s, p, v, w, x, u);
    }
    hide LabelsOk, CountersOk, Times;
    assert PredecessorsInGraph(g, ScanEdge(p, v, w));
  }

  /** Only the term of v can change, and only in the sum for w. */
  lemma ScanTerms(g: Graph, s: nat, p: Progress, v: nat, w: nat, x: nat, u: nat)
    requires Explored(g, s, p) && v < |g| && w < |g| && x < |g| && u < |g| && Frontier(p, v)
    ensures var p' := ScanEdge(p, v, w);
      EdgeTerms(p', x)(u) == EdgeTerms(p, x)(u) + if u == v && x == w && p'.d[w] == p.d[v] + 1 then p.sigma[v] else 0.0
  {
    hide Walks, Sum, Times;
    AddTimes(p.done[v], w, x);
    if p.d[w] < 0 {
      UnseenUnscanned(g, s, p, w);
      NoTimes(p.done[u], w);
      NoTimes(p.done[w], x);
    }
    if u == w && p.done[w] == [] {
      NoTimes(p.done[w], x);
    }
  }

  lemma ScanCounters(g: Graph, s: nat, p: Progress, v: nat, w: nat)
    requires Explored(g, s, p) && v < |g| && w < |g| && Frontier(p, v)
    ensures CountersOk(g, s, ScanEdge(p, v, w))
  {
    var p' := ScanEdge(p, v, w);
    hide Walks, Sum, Times, EdgeTerms;
    forall x: nat | x < |g| ensures p'.sigma[x] == Sum(|g|, EdgeTerms(p', x)) + (if x == s then 1.0 else 0.0) {
      forall u: nat | u < |g| && u != v ensures EdgeTerms(p, x)(u) == EdgeTerms(p', x)(u) {
        ScanTerms(g, s, p, v, w, x, u);
      }
      ScanTerms(g, s, p, v, w, x, v);
      SumDiffer(|g|, EdgeTerms(p, x), EdgeTerms(p', x), v);
    }
  }

  lemma ScanKeeps(g: Graph, s: nat, p: Progress, v: nat, w: nat)
    requires Explored(g, s, p) && v < |g| && w < |g| && w in Next(g, v) && Frontier(p, v)
    ensures Explored(g, s, ScanEdge(p, v, w)) && Frontier(ScanEdge(p, v, w), v)
  {
    ScanLabels(g, s, p, v, w);
    ScanPredecessors(g, s, p, v, w);
    ScanCounters(g, s, p, v, w);
  }

  // ----- when everything reachable has been scanned -----

  predicate Complete(g: Graph, s: nat, p: Progress) {
    Explored(g, s, p) && forall u: nat :: u < |g| && p.d[u] >= 0 ==> p.done[u] == g[u]
  }

  lemma {:induction false} LabelsBound(g: Graph, s: nat, p: Progress, u: nat, k: nat, v: nat)
    requires Complete(g, s, p) && IsGraph(g) && u < |g| && p.d[u] >= 0 && v < |g| && Walks(g, k, u, v) > 0
    ensures 0 <= p.d[v] <= p.d[u] + k
    decreases k
  {
    hide Sum, EdgeTerms, WalksFrom, Times, PredecessorsOk, CountersOk;
    if k > 0 {
      var i := SomeFirstStep(g, k - 1, Next(g, u), v);
      assert g[u][i] in p.done[u];
      LabelsBound(g, s, p, g[u][i], k - 1, v);
    }
  }

  /** The labels are the distances from the source. */
  lemma LabelsAreDistances(g: Graph, s: nat, p: Progress, v: nat)
    requires Complete(g, s, p) && IsGraph(g) && v < |g|
    ensures p.d[v] == Distance(g, s, v)
  {
    hide Sum, EdgeTerms, Times, PredecessorsOk, CountersOk;
    assert Walks(g, 0, s, s) > 0;
    if Distance(g, s, v) >= 0 {
      LabelsBound(g, s, p, s, Distance(g, s, v), v);
    }
    if p.d[v] >= 0 {
      assert Reachable(g, s, v);
    }
  }

  /** The predecessor lists are the edges that lead one step farther. */
  lemma PredecessorsAreLinks(g: Graph, s: nat, p: Progress, u: nat, w: nat)
    requires Complete(g, s, p) && IsGraph(g) && u < |g| && w < |g|
    ensures Times(p.preds[w], u) == Link(g, s, u, w)
  {
    LabelsAreDistances(g, s, p, u);
    LabelsAreDistances(g, s, p, w);
  }

  /** The counters are the numbers of shortest walks. */
  lemma {:induction false} CountersAreSigmas(g: Graph, s: nat, p: Progress, w: nat)
    requires Complete(g, s, p) && IsGraph(g) && w < |g|
    ensures p.sigma[w] == Sigma(g, s, w) as real
    decreases p.d[w]
  {
    LabelsAreDistances(g, s, p, w);
    SourceDistance(g, s);
    assert Sized(g, p) && p.sigma[w] == Sum(|g|, EdgeTerms(p, w)) + (if w == s then 1.0 else 0.0);
    hide Distance, Reachable, IsDistance, Walks, WalksFrom, Sum, Times, Explored, EdgeTerms;
    if w == s || p.d[w] < 0 {
      NoTerms(g, s, p, w);
    } else {
      SourceOnly(g, s, w);
      forall u: nat | u < |g| ensures EdgeTerms(p, w)(u) == SigmaTerms(g, s, w)(u) {
        LabelsAreDistances(g, s, p, u);
        if p.d[u] >= 0 && p.d[u] + 1 == p.d[w] {
          CountersAreSigmas(g, s, p, u);
        }
        TermsAgree(g, s, p, w, u);
      }
      SumEqual(|g|, EdgeTerms(p, w), SigmaTerms(g, s, w));
      SigmaRecurrence(g, s, w);
    }
  }

  lemma TermsAgree(g: Graph, s: nat, p: Progress, w: nat, u: nat)
    requires Complete(g, s, p) && w < |g| && u < |g|
    requires p.d[u] == Distance(g, s, u) && p.d[w] == Distance(g, s, w)
    requires p.d[u] >= 0 && p.d[u] + 1 == p.d[w] ==> p.sigma[u] == Sigma(g, s, u) as real
    ensures EdgeTerms(p, w)(u) == SigmaTerms(g, s, w)(u)
  {
    hide Distance, Reachable, IsDistance, Walks, WalksFrom, Sum, Times, Sigma, LabelsOk, CountersOk, PredecessorsOk;
  }

  lemma NoTerms(g: Graph, s: nat, p: Progress, w: nat)
    requires Explored(g, s, p) && w < |g| && p.d[w] <= 0
    ensures Sum(|g|, EdgeTerms(p, w)) == 0.0
  {
    SumZero(|g|, EdgeTerms(p, w));
  }

  lemma SourceOnly(g: Graph, s: nat, w: nat)
    requires w != s
    ensures Distance(g, s, w) != 0
  {
    assert Walks(g, 0, s, w) == 0;
  }
}
