/** Counting walks and shortest walks in a directed graph with parallel edges. */
module WalkCounts {
  import opened Sums

  /** The adjacency lists of the vertices 0 .. |g|-1; a repeated entry is a parallel edge. */
  type Graph = seq<seq<nat>>

  predicate IsGraph(g: Graph) {
    forall u: nat, i: nat :: u < |g| && i < |g[u]| ==> g[u][i] < |g|
  }

  function Next(g: Graph, u: nat): seq<nat> {
    if u < |g| then g[u] else []
  }

  function Times(xs: seq<nat>, x: nat): nat {
    multiset(xs)[x]
  }

  /** The number of walks with `k` edges from `u` to `t`. */
  function Walks(g: Graph, k: nat, u: nat, t: nat): nat
    decreases k, 0
  {
    if k == 0 then (if u == t then 1 else 0) else WalksFrom(g, k - 1, Next(g, u), t)
  }

  /** The number of such walks from any of `xs`, one for each entry. */
  function WalksFrom(g: Graph, k: nat, xs: seq<nat>, t: nat): nat
    decreases k, |xs|
  {
    if xs == [] then 0 else Walks(g, k, xs[0], t) + WalksFrom(g, k, xs[1..], t)
  }

  /** The number of walks with `k` edges from `u` to `t` that visit `v`. */
  function Via(g: Graph, k: nat, u: nat, t: nat, v: nat): nat
    decreases k, 0
  {
    if u == v then Walks(g, k, u, t)
    else if k == 0 then 0
    else ViaFrom(g, k - 1, Next(g, u), t, v)
  }

  function ViaFrom(g: Graph, k: nat, xs: seq<nat>, t: nat, v: nat): nat
    decreases k, |xs|
  {
    if xs == [] then 0 else Via(g, k, xs[0], t, v) + ViaFrom(g, k, xs[1..], t, v)
  }

  // ----- distance -----

  ghost predicate Reachable(g: Graph, s: nat, v: nat) {
    exists k: nat :: Walks(g, k, s, v) > 0
  }

  ghost predicate IsDistance(g: Graph, s: nat, v: nat, k: nat) {
    Walks(g, k, s, v) > 0 && forall j: nat :: j < k ==> Walks(g, j, s, v) == 0
  }

  /** The length of a shortest walk, or -1 when there is none. */
  ghost function Distance(g: Graph, s: nat, v: nat): (d: int)
    ensures d >= -1
    ensures d >= 0 <==> Reachable(g, s, v)
    ensures d >= 0 ==> IsDistance(g, s, v, d)
  {
    if Reachable(g, s, v) then
      var k: nat :| Walks(g, k, s, v) > 0;
      Least(g, s, v, k)
    else -1
  }

  ghost function Least(g: Graph, s: nat, v: nat, k: nat): (d: nat)
    requires Walks(g, k, s, v) > 0
    ensures IsDistance(g, s, v, d)
  {
    if j: nat :| j < k && Walks(g, j, s, v) > 0 then Least(g, s, v, j) else k
  }

  lemma DistanceUnique(g: Graph, s: nat, v: nat, k: nat)
    requires IsDistance(g, s, v, k)
    ensures Distance(g, s, v) == k
  {
    assert Walks(g, k, s, v) > 0;
  }

  // ----- decomposing walks -----

  lemma {:induction false} SomeFirstStep(g: Graph, k: nat, xs: seq<nat>, t: nat) returns (i: nat)
    requires WalksFrom(g, k, xs, t) > 0
    ensures i < |xs| && Walks(g, k, xs[i], t) > 0
  {
    if Walks(g, k, xs[0], t) > 0 {
      i := 0;
    } else {
      var j := SomeFirstStep(g, k, xs[1..], t);
      i := j + 1;
    }
  }

  lemma {:induction false} FirstStepCounts(g: Graph, k: nat, xs: seq<nat>, i: nat, t: nat)
    requires i < |xs|
    ensures WalksFrom(g, k, xs, t) >= Walks(g, k, xs[i], t)
  {
    if i > 0 { FirstStepCounts(g, k, xs[1..], i - 1, t); }
  }

  /** Walks can be joined. */
  lemma {:induction false} JoinWalks(g: Graph, i: nat, j: nat, u: nat, v: nat, t: nat)
    requires Walks(g, i, u, v) > 0 && Walks(g, j, v, t) > 0
    ensures Walks(g, i + j, u, t) > 0
  {
    hide WalksFrom;
    if i > 0 {
      var x := SomeFirstStep(g, i - 1, Next(g, u), v);
      JoinWalks(g, i - 1, j, Next(g, u)[x], v, t);
      FirstStepCounts(g, i + j - 1, Next(g, u), x, t);
    }
  }

  function EndingTerms(g: Graph, k: nat, xs: seq<nat>, t: nat): nat -> real {
    (x: nat) => Times(xs, x) as real * Walks(g, k, x, t) as real
  }

  lemma TimesOfRest(xs: seq<nat>)
    requires xs != []
    ensures Times(xs, xs[0]) == Times(xs[1..], xs[0]) + 1
    ensures forall x: nat :: x != xs[0] ==> Times(xs, x) == Times(xs[1..], x)
  {
    assert xs == [xs[0]] + xs[1..];
  }

  lemma OneMore(a: real, b: real)
    ensures (a + 1.0) * b == a * b + b
  {
  }

  /** Grouping the first steps by where they lead. */
  lemma {:induction false} FirstEdge(g: Graph, k: nat, xs: seq<nat>, t: nat)
    requires forall i: nat :: i < |xs| ==> xs[i] < |g|
    ensures WalksFrom(g, k, xs, t) as real == Sum(|g|, EndingTerms(g, k, xs, t))
  {
    hide Walks, Sum;
    if xs == [] {
      SumZero(|g|, EndingTerms(g, k, xs, t));
    } else {
      var (f, h) := (EndingTerms(g, k, xs[1..], t), EndingTerms(g, k, xs, t));
      FirstEdge(g, k, xs[1..], t);
      TimesOfRest(xs);
      assert h(xs[0]) == f(xs[0]) + Walks(g, k, xs[0], t) as real by {
        OneMore(Times(xs[1..], xs[0]) as real, Walks(g, k, xs[0], t) as real);
      }
      hide Times;
      SumDiffer(|g|, f, h, xs[0]);
    }
  }

  function LastTerms(g: Graph, k: nat, u: nat, t: nat): nat -> real {
    (v: nat) => Walks(g, k, u, v) as real * Times(Next(g, v), t) as real
  }

  function LastTermsFrom(g: Graph, k: nat, xs: seq<nat>, t: nat): nat -> real {
    (v: nat) => WalksFrom(g, k, xs, v) as real * Times(Next(g, v), t) as real
  }

  /** A walk is a shorter walk and a last edge. */
  lemma {:induction false} LastEdge(g: Graph, k: nat, u: nat, t: nat)
    requires IsGraph(g) && u < |g|
    ensures Walks(g, k + 1, u, t) as real == Sum(|g|, LastTerms(g, k, u, t))
    decreases k, 0
  {
    hide WalksFrom, Sum;
    if k == 0 {
      FirstEdge(g, 0, Next(g, u), t);
      ZeroLengths(g, Next(g, u), t);
      var (z: nat -> real, terms) := ((v: nat) => 0.0, LastTerms(g, 0, u, t));
      assert terms(u) == Times(Next(g, u), t) as real;
      assert forall v: nat :: v != u ==> terms(v) == 0.0;
      hide LastTerms, Times;
      SumZero(|g|, z);
      SumDiffer(|g|, z, terms, u);
    } else {
      LastEdgeFrom(g, k - 1, Next(g, u), t);
      SumEqual(|g|, LastTermsFrom(g, k - 1, Next(g, u), t), LastTerms(g, k, u, t));
    }
  }

  lemma {:induction false} ZeroLengths(g: Graph, xs: seq<nat>, t: nat)
    ensures WalksFrom(g, 0, xs, t) == Times(xs, t)
  {
    if xs != [] {
      ZeroLengths(g, xs[1..], t);
      assert xs == [xs[0]] + xs[1..];
    }
  }

  lemma {:induction false} LastEdgeFrom(g: Graph, k: nat, xs: seq<nat>, t: nat)
    requires IsGraph(g) && forall i: nat :: i < |xs| ==> xs[i] < |g|
    ensures WalksFrom(g, k + 1, xs, t) as real == Sum(|g|, LastTermsFrom(g, k, xs, t))
    decreases k, 1 + |xs|
  {
    hide Walks, Sum;
    if xs == [] {
      SumZero(|g|, LastTermsFrom(g, k, xs, t));
    } else {
      LastEdge(g, k, xs[0], t);
      LastEdgeFrom(g, k, xs[1..], t);
      SumPlus(|g|, LastTerms(g, k, xs[0], t), LastTermsFrom(g, k, xs[1..], t), LastTermsFrom(g, k, xs, t));
    }
  }
}
