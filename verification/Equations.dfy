/** Systems of equations between numbered variables, and what they mean in each round of initial values. */
module Equations {
  import opened Basics

  /** A variable occurrence has its own pipe, given by the descriptor `fd`. */
  datatype Expr =
    | Num(value: int)
    | Minus(child: Expr)
    | Add(left: Expr, right: Expr)
    | Mul(left: Expr, right: Expr)
    | Var(index: nat, fd: nat)

  /** The variables of an expression, in the order of their occurrences. */
  function Vars(e: Expr): seq<nat> {
    match e
    case Num(_) => []
    case Minus(c) => Vars(c)
    case Add(l, r) => Vars(l) + Vars(r)
    case Mul(l, r) => Vars(l) + Vars(r)
    case Var(x, _) => [x]
  }

  /** An operation on values that may be missing. */
  function Combine(plus: bool, a: Option<int>, b: Option<int>): Option<int> {
    if a.None? || b.None? then None else Some(if plus then a.value + b.value else a.value * b.value)
  }

  function Eval(e: Expr, env: nat -> Option<int>): Option<int> {
    match e
    case Num(v) => Some(v)
    case Minus(c) => var a := Eval(c, env); if a.None? then None else Some(-a.value)
    case Add(l, r) => Combine(true, Eval(l, env), Eval(r, env))
    case Mul(l, r) => Combine(false, Eval(l, env), Eval(r, env))
    case Var(x, _) => env(x)
  }

  lemma {:induction false} EvalDependsOnVars(e: Expr, f: nat -> Option<int>, g: nat -> Option<int>)
    requires forall x :: x in Vars(e) ==> f(x) == g(x)
    ensures Eval(e, f) == Eval(e, g)
  {
    match e
    case Num(_) =>
    case Minus(c) => EvalDependsOnVars(c, f, g);
    case Add(l, r) => EvalDependsOnVars(l, f, g); EvalDependsOnVars(r, f, g);
    case Mul(l, r) => EvalDependsOnVars(l, f, g); EvalDependsOnVars(r, f, g);
    case Var(_, _) =>
  }

  // ----- what the operations are -----

  /** Sums, products and negations of values, and of missing values. */
  lemma EvalOfValues(e: Expr, f: Expr, env: nat -> Option<int>)
    ensures var (a, b) := (Eval(e, env), Eval(f, env));
      && Eval(Add(e, f), env) == (if a.Some? && b.Some? then Some(a.value + b.value) else None)
      && Eval(Mul(e, f), env) == (if a.Some? && b.Some? then Some(a.value * b.value) else None)
      && Eval(Minus(e), env) == (if a.Some? then Some(-a.value) else None)
  {
  }

  /** The laws of arithmetic, for expressions that have values. */
  lemma {:induction false} EvalLaws(e: Expr, f: Expr, g: Expr, env: nat -> Option<int>)
    requires Eval(e, env).Some? && Eval(f, env).Some? && Eval(g, env).Some?
    ensures Eval(Add(e, Num(0)), env) == Eval(e, env) == Eval(Mul(e, Num(1)), env) == Eval(Minus(Minus(e)), env)
    ensures Eval(Mul(e, Num(0)), env) == Some(0) == Eval(Add(e, Minus(e)), env)
    ensures Eval(Add(e, Num(1)), env).Some? && Eval(Add(e, Num(1)), env).value == Eval(e, env).value + 1
    ensures Eval(Add(e, f), env) == Eval(Add(f, e), env) && Eval(Mul(e, f), env) == Eval(Mul(f, e), env)
    ensures Eval(Add(Add(e, f), g), env) == Eval(Add(e, Add(f, g)), env)
    ensures Eval(Mul(Mul(e, f), g), env) == Eval(Mul(e, Mul(f, g)), env)
    ensures Eval(Mul(e, Add(f, g)), env) == Eval(Add(Mul(e, f), Mul(e, g)), env)
  {
    assert Eval(Num(0), env) == Some(0) && Eval(Num(1), env) == Some(1);
    hide Eval;
    EvalOfValues(e, Num(0), env);
    EvalOfValues(e, Num(1), env);
    EvalOfValues(Minus(e), f, env);
    EvalOfValues(e, Minus(e), env);
    EvalOfValues(e, f, env);
    EvalOfValues(f, e, env);
    EvalOfValues(f, g, env);
    EvalOfValues(e, g, env);
    EvalOfValues(Add(e, f), g, env);
    EvalOfValues(e, Add(f, g), env);
    EvalOfValues(Mul(e, f), g, env);
    EvalOfValues(e, Mul(f, g), env);
    EvalOfValues(Mul(e, f), Mul(e, g), env);
    ProductLaws(Eval(e, env).value, Eval(f, env).value, Eval(g, env).value);
  }

  lemma ProductLaws(a: int, b: int, c: int)
    ensures a * b == b * a && (a * b) * c == a * (b * c) && a * (b + c) == a * b + a * c
  {
  }

  // ----- systems -----

  /** At most one equation per left-hand side. */
  type System = map<nat, Expr>

  predicate Edge(eqs: System, x: nat, y: nat) {
    x in eqs && y in Vars(eqs[x])
  }

  /** Every variable's equation uses only variables of smaller rank, or variables without an equation. */
  ghost predicate Ranked(eqs: System, rank: nat -> nat, top: nat) {
    && (forall x :: x in eqs ==> rank(x) < top)
    && (forall x, y :: Edge(eqs, x, y) && y in eqs ==> rank(y) < rank(x))
  }

  /** Following equations from the first to the last variable of `p`. */
  ghost predicate IsWalk(eqs: System, p: seq<nat>) {
    p != [] && forall i :: 0 < i < |p| ==> Edge(eqs, p[i - 1], p[i])
  }

  ghost predicate IsCycle(eqs: System, p: seq<nat>) {
    |p| > 1 && IsWalk(eqs, p) && p[0] == p[|p| - 1]
  }

  ghost predicate Acyclic(eqs: System) {
    forall p :: !IsCycle(eqs, p)
  }

  lemma {:induction false} RankFalls(eqs: System, rank: nat -> nat, top: nat, p: seq<nat>, i: nat)
    requires Ranked(eqs, rank, top) && IsWalk(eqs, p) && 0 < i < |p| && p[i] in eqs
    ensures rank(p[i]) < rank(p[0])
  {
    if i > 1 {
      assert Edge(eqs, p[i - 1], p[i]);
      RankFalls(eqs, rank, top, p, i - 1);
    }
  }

  lemma RankedIsAcyclic(eqs: System, rank: nat -> nat, top: nat)
    requires Ranked(eqs, rank, top)
    ensures Acyclic(eqs)
  {
    forall p | IsCycle(eqs, p) ensures false {
      assert Edge(eqs, p[0], p[1]);
      RankFalls(eqs, rank, top, p, |p| - 1);
    }
  }

  // ----- rounds -----

  /** `values` satisfies all equations of a round, whose initial values take the place of the equations. */
  ghost predicate Solves(eqs: System, inits: map<nat, int>, values: nat -> Option<int>) {
    forall x :: values(x) ==
      if x in inits then Some(inits[x]) else if x in eqs then Eval(eqs[x], values) else None
  }

  /** Evaluation that gives up below depth `k`. */
  function Unfold(eqs: System, inits: map<nat, int>, k: nat, x: nat): Option<int>
    decreases k
  {
    if x in inits then Some(inits[x])
    else if x in eqs && k > 0 then Eval(eqs[x], (y: nat) => Unfold(eqs, inits, k - 1, y))
    else None
  }

  /** The values found by evaluation down to depth `k`. */
  function Values(eqs: System, inits: map<nat, int>, k: nat): nat -> Option<int> {
    (x: nat) => Unfold(eqs, inits, k, x)
  }

  lemma UnfoldStep(eqs: System, inits: map<nat, int>, k: nat, x: nat)
    requires k > 0 && x in eqs && x !in inits
    ensures Unfold(eqs, inits, k, x) == Eval(eqs[x], Values(eqs, inits, k - 1))
  {
    EvalDependsOnVars(eqs[x], (y: nat) => Unfold(eqs, inits, k - 1, y), Values(eqs, inits, k - 1));
  }

  lemma {:induction false} UnfoldDeepEnough(eqs: System, inits: map<nat, int>, rank: nat -> nat, top: nat, x: nat, k: nat, m: nat)
    requires Ranked(eqs, rank, top) && (x in eqs ==> rank(x) < k && rank(x) < m)
    ensures Unfold(eqs, inits, k, x) == Unfold(eqs, inits, m, x)
    decreases k
  {
    if x !in inits && x in eqs {
      forall y | y in Vars(eqs[x])
        ensures Unfold(eqs, inits, k - 1, y) == Unfold(eqs, inits, m - 1, y)
      {
        assert Edge(eqs, x, y);
        UnfoldDeepEnough(eqs, inits, rank, top, y, k - 1, m - 1);
      }
      EvalDependsOnVars(eqs[x], Values(eqs, inits, k - 1), Values(eqs, inits, m - 1));
      UnfoldStep(eqs, inits, k, x);
      UnfoldStep(eqs, inits, m, x);
    }
  }

  /** An acyclic system has a solution in every round. */
  lemma {:induction false} SolutionExists(eqs: System, inits: map<nat, int>, rank: nat -> nat, top: nat)
    requires Ranked(eqs, rank, top)
    ensures Solves(eqs, inits, Values(eqs, inits, top))
  {
    var values := Values(eqs, inits, top);
    forall x | x !in inits && x in eqs
      ensures values(x) == Eval(eqs[x], values)
    {
      forall y | y in Vars(eqs[x])
        ensures Unfold(eqs, inits, top - 1, y) == values(y)
      {
        assert Edge(eqs, x, y);
        UnfoldDeepEnough(eqs, inits, rank, top, y, top - 1, top);
      }
      EvalDependsOnVars(eqs[x], Values(eqs, inits, top - 1), values);
      UnfoldStep(eqs, inits, top, x);
    }
  }

  /** And only one. */
  lemma {:induction false} SolutionIsUnique(eqs: System, inits: map<nat, int>, rank: nat -> nat, top: nat,
                                            f: nat -> Option<int>, g: nat -> Option<int>, x: nat)
    requires Ranked(eqs, rank, top) && Solves(eqs, inits, f) && Solves(eqs, inits, g)
    ensures f(x) == g(x)
    decreases if x in eqs then rank(x) + 1 else 0
  {
    if x !in inits && x in eqs {
      forall y | y in Vars(eqs[x]) ensures f(y) == g(y) {
        assert Edge(eqs, x, y);
        SolutionIsUnique(eqs, inits, rank, top, f, g, y);
      }
      EvalDependsOnVars(eqs[x], f, g);
    }
  }
}
