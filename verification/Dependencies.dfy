/**
 * Brandes' theorem: the dependency of a source on a vertex, defined by counting shortest walks
 * that visit the vertex, satisfies the recurrence the accumulation phase evaluates.
 */
module Dependencies {
  import opened Sums
  import opened WalkCounts

  /** The number of shortest walks from s to t; 0 when t cannot be reached. */
  ghost function Sigma(g: Graph, s: nat, t: nat): nat {
    if Distance(g, s, t) < 0 then 0 else Walks(g, Distance(g, s, t), s, t)
  }

  /** The share of the shortest walks from s to t that visit v. */
  ghost function Share(g: Graph, s: nat, t: nat, v: nat): real {
    if t == s || t == v || Distance(g, s, t) < 0 then 0.0
    else Via(g, Distance(g, s, t), s, t, v) as real / Sigma(g, s, t) as real
  }

  ghost function Shares(g: Graph, s: nat, v: nat): nat -> real {
    (t: nat) => Share(g, s, t, v)
  }

  /** The dependency of s on v: the sum of these shares over all targets other than s and v. */
  ghost function Dependency(g: Graph, s: nat, v: nat): real {
    Sum(|g|, Shares(g, s, v))
  }

  /** The walks from v to t that continue a shortest walk from s to v to a shortest walk from s to t. */
  ghost function Continuations(g: Graph, s: nat, v: nat, t: nat): nat {
    var (dv, dt) := (Distance(g, s, v), Distance(g, s, t));
    if 0 <= dv <= dt then Walks(g, dt - dv, v, t) else 0
  }

  // ----- shortest walks through a vertex -----

  lemma StepDistance(g: Graph, s: nat, u: nat, i: nat)
    requires Distance(g, s, u) >= 0 && i < |Next(g, u)|
    ensures 0 <= Distance(g, s, Next(g, u)[i]) <= Distance(g, s, u) + 1
  {
    var (d, x) := (Distance(g, s, u), Next(g, u)[i]);
    assert Walks(g, 0, x, x) > 0;
    FirstStepCounts(g, 0, Next(g, u), i, x);
    assert Walks(g, 1, u, x) > 0;
    JoinWalks(g, d, 1, s, u, x);
  }

  /** A continuation of a shortest walk from u to t leaves u for a vertex one step farther. */
  lemma OffShortest(g: Graph, s: nat, x: nat, t: nat, k: nat)
    requires Distance(g, s, x) >= 0 && Distance(g, s, x) + k < Distance(g, s, t)
    ensures Walks(g, k, x, t) == 0
  {
    if Walks(g, k, x, t) > 0 {
      JoinWalks(g, Distance(g, s, x), k, s, x, t);
    }
  }

  lemma {:induction false} ViaAtMost(g: Graph, k: nat, u: nat, t: nat, v: nat)
    ensures Via(g, k, u, t, v) <= Walks(g, k, u, t)
    decreases k, 0
  {
    if u != v && k > 0 { ViaFromAtMost(g, k - 1, Next(g, u), t, v); }
  }

  lemma {:induction false} ViaFromAtMost(g: Graph, k: nat, xs: seq<nat>, t: nat, v: nat)
    ensures ViaFrom(g, k, xs, t, v) <= WalksFrom(g, k, xs, t)
    decreases k, |xs|
  {
    if xs != [] {
      ViaAtMost(g, k, xs[0], t, v);
      ViaFromAtMost(g, k, xs[1..], t, v);
    }
  }

  /** A shortest walk from s to t that has reached u visits v exactly once, when it is as far from s as v is. */
  lemma {:induction false} ViaFactors(g: Graph, s: nat, u: nat, t: nat, v: nat, k: nat)
    requires Distance(g, s, u) >= 0 && Distance(g, s, t) == Distance(g, s, u) + k
    ensures Via(g, k, u, t, v) == if Distance(g, s, v) < Distance(g, s, u) then 0
      else Walks(g, Distance(g, s, v) - Distance(g, s, u), u, v) * Continuations(g, s, v, t)
    decreases k, 0
  {
    hide ViaFrom, WalksFrom, Distance;
    if u != v && k > 0 {
      forall i: nat | i < |Next(g, u)| ensures 0 <= Distance(g, s, Next(g, u)[i]) <= Distance(g, s, u) + 1 {
        StepDistance(g, s, u, i);
      }
      ViaFromFactors(g, s, Next(g, u), t, v, k - 1, Distance(g, s, u) + 1);
    }
  }

  lemma {:induction false} ViaFromFactors(g: Graph, s: nat, xs: seq<nat>, t: nat, v: nat, k: nat, d: nat)
    requires forall i: nat :: i < |xs| ==> 0 <= Distance(g, s, xs[i]) <= d
    requires Distance(g, s, t) == d + k
    ensures ViaFrom(g, k, xs, t, v) == if Distance(g, s, v) < d then 0
      else WalksFrom(g, Distance(g, s, v) - d, xs, v) * Continuations(g, s, v, t)
    decreases k, 1 + |xs|
  {
    hide Via, Walks, Distance, Continuations;
    if xs != [] {
      var (x, dv, c) := (xs[0], Distance(g, s, v), Continuations(g, s, v, t));
      ViaFromFactors(g, s, xs[1..], t, v, k, d);
      if Distance(g, s, x) == d {
        ViaFactors(g, s, x, t, v, k);
      } else {
        OffShortest(g, s, x, t, k);
        ViaAtMost(g, k, x, t, v);
        if dv >= d { OffShortest(g, s, x, v, dv - d); }
      }
      if dv >= d {
        Distribute(Walks(g, dv - d, x, v), WalksFrom(g, dv - d, xs[1..], v), c);
      }
    }
  }

  lemma Distribute(a: nat, b: nat, c: nat)
    ensures (a + b) * c == a * c + b * c
  {
  }

  lemma SourceDistance(g: Graph, s: nat)
    ensures Distance(g, s, s) == 0 && Sigma(g, s, s) == 1
  {
    assert IsDistance(g, s, s, 0);
    DistanceUnique(g, s, s, 0);
  }

  /** What a share is, in terms of walk counts. */
  ghost function Ratio(g: Graph, s: nat, v: nat, t: nat): real {
    if Sigma(g, s, t) == 0 then 0.0 else Continuations(g, s, v, t) as real / Sigma(g, s, t) as real
  }

  lemma ShareIsRatio(g: Graph, s: nat, t: nat, v: nat)
    requires Distance(g, s, v) >= 0
    ensures Share(g, s, t, v) == if t == v then 0.0 else Product(Sigma(g, s, v) as real, Ratio(g, s, v, t))
  {
    SourceDistance(g, s);
    if t != v && Distance(g, s, t) >= 0 {
      if t == s {
        assert Distance(g, s, v) > 0 by {
          assert IsDistance(g, s, v, Distance(g, s, v));
        }
      } else {
        ViaFactors(g, s, s, t, v, Distance(g, s, t));
        Quotient(Sigma(g, s, v), Continuations(g, s, v, t), Sigma(g, s, t));
      }
    }
  }

  lemma Quotient(a: nat, b: nat, c: nat)
    requires c > 0
    ensures (a * b) as real / c as real == a as real * (b as real / c as real)
  {
    assert (a * b) as real == a as real * b as real;
  }

  // ----- one step farther from the source -----

  /** The number of edges from v to w that lead one step farther from s. */
  ghost function Link(g: Graph, s: nat, v: nat, w: nat): nat {
    if Distance(g, s, v) >= 0 && Distance(g, s, w) == Distance(g, s, v) + 1 then Times(Next(g, v), w) else 0
  }

  ghost function ContinuationTerms(g: Graph, s: nat, v: nat, t: nat): nat -> real {
    (w: nat) => Product(Link(g, s, v, w) as real, Continuations(g, s, w, t) as real)
  }

  lemma TimesIn(xs: seq<nat>, x: nat)
    ensures Times(xs, x) > 0 <==> x in xs
  {
  }

  lemma ContinuationTerm(g: Graph, s: nat, v: nat, t: nat, w: nat)
    requires Distance(g, s, t) > Distance(g, s, v) >= 0
    ensures EndingTerms(g, Distance(g, s, t) - Distance(g, s, v) - 1, Next(g, v), t)(w) == ContinuationTerms(g, s, v, t)(w)
  {
    var dv := Distance(g, s, v);
    TimesIn(Next(g, v), w);
    hide Distance, Times, Walks;
    if w in Next(g, v) {
      var i: nat :| i < |Next(g, v)| && Next(g, v)[i] == w;
      StepDistance(g, s, v, i);
      if Distance(g, s, w) <= dv { OffShortest(g, s, w, t, Distance(g, s, t) - dv - 1); }
    }
  }

  lemma NoContinuationTerm(g: Graph, s: nat, v: nat, t: nat, w: nat)
    requires Distance(g, s, v) >= 0 && Distance(g, s, t) <= Distance(g, s, v)
    ensures ContinuationTerms(g, s, v, t)(w) == 0.0
  {
  }

  /** Every continuation takes one of the edges that lead one step farther. */
  lemma ContinuationStep(g: Graph, s: nat, v: nat, t: nat)
    requires IsGraph(g) && v < |g| && Distance(g, s, v) >= 0
    ensures Sum(|g|, ContinuationTerms(g, s, v, t)) == if t == v then 0.0 else Continuations(g, s, v, t) as real
  {
    if Distance(g, s, t) > Distance(g, s, v) {
      ContinuationStepFar(g, s, v, t);
    } else {
      assert t != v ==> Continuations(g, s, v, t) == 0;
      hide *;
      forall w: nat | w < |g| ensures ContinuationTerms(g, s, v, t)(w) == 0.0 {
        NoContinuationTerm(g, s, v, t, w);
      }
      SumZero(|g|, ContinuationTerms(g, s, v, t));
    }
  }

  lemma ContinuationStepFar(g: Graph, s: nat, v: nat, t: nat)
    requires IsGraph(g) && v < |g| && Distance(g, s, t) > Distance(g, s, v) >= 0
    ensures Sum(|g|, ContinuationTerms(g, s, v, t)) == Continuations(g, s, v, t) as real
  {
    var k := Distance(g, s, t) - Distance(g, s, v) - 1;
    hide Sum, Distance, Reachable, IsDistance, WalksFrom;
    assert Continuations(g, s, v, t) == Walks(g, k + 1, v, t) == WalksFrom(g, k, Next(g, v), t);
    assert forall i: nat :: i < |Next(g, v)| ==> Next(g, v)[i] < |g|;
    hide *;
    FirstEdge(g, k, Next(g, v), t);
    forall w: nat | w < |g| ensures EndingTerms(g, k, Next(g, v), t)(w) == ContinuationTerms(g, s, v, t)(w) {
      ContinuationTerm(g, s, v, t, w);
    }
    SumEqual(|g|, EndingTerms(g, k, Next(g, v), t), ContinuationTerms(g, s, v, t));
  }

  // ----- the recurrence -----

  /** What w contributes to the dependency on v. */
  ghost function Contribution(g: Graph, s: nat, v: nat, w: nat): real {
    if Link(g, s, v, w) == 0 then 0.0
    else Link(g, s, v, w) as real * ((Sigma(g, s, v) as real / Sigma(g, s, w) as real) * (1.0 + Dependency(g, s, w)))
  }

  ghost function Contributions(g: Graph, s: nat, v: nat): nat -> real {
    (w: nat) => Contribution(g, s, v, w)
  }

  ghost function Ratios(g: Graph, s: nat, w: nat): nat -> real {
    (t: nat) => Ratio(g, s, w, t)
  }

  lemma SigmaPositive(g: Graph, s: nat, t: nat)
    ensures Sigma(g, s, t) > 0 <==> Distance(g, s, t) >= 0
  {
  }

  /** Adding up the ratios over all targets gives the dependency and the share of w itself. */
  lemma RatioSum(g: Graph, s: nat, w: nat)
    requires w < |g| && Distance(g, s, w) >= 0
    ensures Sigma(g, s, w) > 0
    ensures Product(Sigma(g, s, w) as real, Sum(|g|, Ratios(g, s, w))) == 1.0 + Dependency(g, s, w)
  {
    var (c, shares) := (Sigma(g, s, w) as real, Shares(g, s, w));
    SigmaPositive(g, s, w);
    assert shares(w) == 0.0;
    assert forall t: nat :: shares(t) == Share(g, s, t, w);
    assert Dependency(g, s, w) == Sum(|g|, shares);
    hide *;
    forall t: nat | t < |g| ensures Scaled(c, Ratios(g, s, w))(t) == if t == w then 1.0 else shares(t) {
      ScaledRatio(g, s, w, t);
    }
    SumScaled(|g|, c, Ratios(g, s, w));
    SumDiffer(|g|, shares, Scaled(c, Ratios(g, s, w)), w);
  }

  lemma ScaledRatio(g: Graph, s: nat, w: nat, t: nat)
    requires Distance(g, s, w) >= 0
    ensures Scaled(Sigma(g, s, w) as real, Ratios(g, s, w))(t) == if t == w then 1.0 else Share(g, s, t, w)
  {
    ShareIsRatio(g, s, t, w);
    assert Continuations(g, s, w, w) == 1;
    SigmaPositive(g, s, w);
    hide Distance, Walks, WalksFrom, Reachable, IsDistance, Share, Sigma, Continuations, Product;
    if t == w {
      Inverse(Sigma(g, s, w) as real);
    }
  }

  lemma Inverse(c: real)
    requires c != 0.0
    ensures Product(c, 1.0 / c) == 1.0
  {
  }

  ghost function LinkedRatio(g: Graph, s: nat, v: nat): (nat, nat) -> real {
    (t: nat, w: nat) => Product(Sigma(g, s, v) as real, Product(Link(g, s, v, w) as real, Ratio(g, s, w, t)))
  }

  lemma LinkedRatioRow(g: Graph, s: nat, v: nat, t: nat, w: nat)
    requires Sigma(g, s, t) > 0
    ensures Row(LinkedRatio(g, s, v), t)(w)
      == Scaled(Weight(g, s, v, t), ContinuationTerms(g, s, v, t))(w)
  {
    hide Sigma, Link, Continuations, Product;
    Rearrange(Sigma(g, s, v) as real, Link(g, s, v, w) as real, Continuations(g, s, w, t) as real, Sigma(g, s, t) as real);
  }

  lemma LinkedRatioColumn(g: Graph, s: nat, v: nat, t: nat, w: nat, al: real)
    requires al == Sigma(g, s, v) as real * Link(g, s, v, w) as real
    ensures Column(LinkedRatio(g, s, v), w)(t) == Scaled(al, Ratios(g, s, w))(t)
  {
    hide Sigma, Link, Ratio, Product;
    Associate(Sigma(g, s, v) as real, Link(g, s, v, w) as real, Ratio(g, s, w, t));
  }

  lemma Associate(a: real, b: real, c: real)
    ensures Product(a, Product(b, c)) == Product(a * b, c)
  {
  }

  lemma Rearrange(a: real, l: real, c: real, d: real)
    requires d != 0.0
    ensures Product(a, Product(l, c / d)) == Product(a / d, Product(l, c))
  {
  }

  /** A share splits over the edges that lead one step farther. */
  lemma ShareSplits(g: Graph, s: nat, v: nat, t: nat)
    requires IsGraph(g) && v < |g| && Distance(g, s, v) >= 0
    ensures Share(g, s, t, v) == Sum(|g|, Row(LinkedRatio(g, s, v), t))
  {
    if Sigma(g, s, t) == 0 {
      assert Share(g, s, t, v) == 0.0;
      assert forall w: nat :: Row(LinkedRatio(g, s, v), t)(w) == 0.0;
      hide *;
      SumZero(|g|, Row(LinkedRatio(g, s, v), t));
    } else {
      ShareSplitsFor(g, s, v, t);
    }
  }

  ghost function Weight(g: Graph, s: nat, v: nat, t: nat): real
    requires Sigma(g, s, t) > 0
  {
    Sigma(g, s, v) as real / Sigma(g, s, t) as real
  }

  lemma ShareSplitsFor(g: Graph, s: nat, v: nat, t: nat)
    requires IsGraph(g) && v < |g| && Distance(g, s, v) >= 0 && Sigma(g, s, t) > 0
    ensures Share(g, s, t, v) == Sum(|g|, Row(LinkedRatio(g, s, v), t))
  {
    hide *;
    ShareAsProduct(g, s, v, t);
    var (row, scaled) := (Row(LinkedRatio(g, s, v), t), Scaled(Weight(g, s, v, t), ContinuationTerms(g, s, v, t)));
    forall w: nat | w < |g| ensures row(w) == scaled(w) {
      LinkedRatioRow(g, s, v, t, w);
    }
    SumEqual(|g|, row, scaled);
  }

  lemma ShareAsProduct(g: Graph, s: nat, v: nat, t: nat)
    requires IsGraph(g) && v < |g| && Distance(g, s, v) >= 0 && Sigma(g, s, t) > 0
    ensures Share(g, s, t, v) == Sum(|g|, Scaled(Weight(g, s, v, t), ContinuationTerms(g, s, v, t)))
  {
    ShareIsRatio(g, s, t, v);
    ContinuationStep(g, s, v, t);
    hide Sum, Distance, Reachable, IsDistance, WalksFrom, Walks, Share, Sigma, Continuations, ContinuationTerms, Scaled, Product;
    SumScaled(|g|, Weight(g, s, v, t), ContinuationTerms(g, s, v, t));
    if t != v {
      MoveDivision(Sigma(g, s, v) as real, Continuations(g, s, v, t) as real, Sigma(g, s, t) as real);
    } else {
      ProductZero(Weight(g, s, v, t));
    }
  }

  lemma ProductZero(a: real)
    ensures Product(a, 0.0) == 0.0
  {
  }

  lemma MoveDivision(a: real, d: real, c: real)
    requires c != 0.0
    ensures Product(a, d / c) == Product(a / c, d)
  {
  }

  lemma ColumnIsContribution(g: Graph, s: nat, v: nat, w: nat)
    requires w < |g| && Distance(g, s, v) >= 0
    ensures Sum(|g|, Column(LinkedRatio(g, s, v), w)) == Contribution(g, s, v, w)
  {
    var (col, n, a, l) := (Column(LinkedRatio(g, s, v), w), |g|, Sigma(g, s, v) as real, Link(g, s, v, w) as real);
    var (c, dep, r, al) := (Sigma(g, s, w) as real, Dependency(g, s, w), Ratios(g, s, w), a * l);
    hide Sum, Distance, Reachable, IsDistance, WalksFrom, Walks, Dependency, Sigma;
    if l != 0.0 { RatioSum(g, s, w); }
    assert Contribution(g, s, v, w) == if l == 0.0 then 0.0 else l * ((a / c) * (1.0 + dep));
    hide *;
    forall t: nat | t < n ensures col(t) == Scaled(al, r)(t) {
      LinkedRatioColumn(g, s, v, t, w, al);
    }
    SumEqual(n, col, Scaled(al, r));
    SumScaled(n, al, r);
    if l != 0.0 {
      Rescale(a, l, c, Sum(n, r), dep);
    }
  }

  lemma Rescale(a: real, l: real, c: real, r: real, dep: real)
    requires c != 0.0 && Product(c, r) == 1.0 + dep
    ensures Product(a * l, r) == l * ((a / c) * (1.0 + dep))
  {
    assert (a / c) * (c * r) == a * r;
  }

  /**
   * Brandes' theorem. The dependency on a reachable v is the sum, over the edges v -> w that lead one
   * step farther from the source, of sigma(v)/sigma(w) * (1 + dependency(w)).
   */
  lemma DependencyRecurrence(g: Graph, s: nat, v: nat)
    requires IsGraph(g) && v < |g| && Distance(g, s, v) >= 0
    ensures Dependency(g, s, v) == Sum(|g|, Contributions(g, s, v))
  {
    var (n, f) := (|g|, LinkedRatio(g, s, v));
    hide Sum, Distance, Reachable, IsDistance, Walks, WalksFrom, Link, Contribution, Share;
    forall t: nat | t < n ensures Shares(g, s, v)(t) == RowSums(n, f)(t) {
      ShareSplits(g, s, v, t);
    }
    SumEqual(n, Shares(g, s, v), RowSums(n, f));
    SumSwap(n, n, f);
    forall w: nat | w < n ensures ColumnSums(n, f)(w) == Contributions(g, s, v)(w) {
      ColumnIsContribution(g, s, v, w);
    }
    SumEqual(n, ColumnSums(n, f), Contributions(g, s, v));
  }

  /** No shortest walk visits a vertex that cannot be reached. */
  lemma UnreachableDependency(g: Graph, s: nat, v: nat)
    requires Distance(g, s, v) < 0
    ensures Dependency(g, s, v) == 0.0
  {
    SourceDistance(g, s);
    forall t: nat | t < |g| ensures Shares(g, s, v)(t) == 0.0 {
      if Distance(g, s, t) >= 0 && t != s && t != v {
        ViaFactors(g, s, s, t, v, Distance(g, s, t));
      }
    }
    SumZero(|g|, Shares(g, s, v));
  }

  ghost function SigmaTerms(g: Graph, s: nat, w: nat): nat -> real {
    (v: nat) => Product(Sigma(g, s, v) as real, Link(g, s, v, w) as real)
  }

  /** The number of shortest walks to w adds up over the vertices one step nearer to the source. */
  lemma SigmaRecurrence(g: Graph, s: nat, w: nat)
    requires IsGraph(g) && s < |g| && Distance(g, s, w) > 0
    ensures Sigma(g, s, w) as real == Sum(|g|, SigmaTerms(g, s, w))
  {
    var k := Distance(g, s, w) - 1;
    LastEdge(g, k, s, w);
    forall v: nat | v < |g| ensures LastTerms(g, k, s, w)(v) == SigmaTerms(g, s, w)(v) {
      SigmaTerm(g, s, w, v);
    }
    SumEqual(|g|, LastTerms(g, k, s, w), SigmaTerms(g, s, w));
  }

  lemma SigmaTerm(g: Graph, s: nat, w: nat, v: nat)
    requires Distance(g, s, w) > 0
    ensures LastTerms(g, Distance(g, s, w) - 1, s, w)(v) == SigmaTerms(g, s, w)(v)
  {
    var k := Distance(g, s, w) - 1;
    TimesIn(Next(g, v), w);
    if w in Next(g, v) && Distance(g, s, v) >= 0 {
      var i: nat :| i < |Next(g, v)| && Next(g, v)[i] == w;
      StepDistance(g, s, v, i);
    }
    if Walks(g, k, s, v) > 0 {
      assert Reachable(g, s, v);
    }
  }
}
