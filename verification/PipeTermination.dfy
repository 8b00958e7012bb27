/**
 * Every run of the network ends: each step uses up a part of a finite amount of work, and a run that cannot go on
 * has printed all rounds and leaves no process waiting.
 */
module PipeTermination {
  import opened Basics
  import opened Equations
  import opened ProcessTree
  import opened PipeNetwork

  // ----- the work that is left -----

  /** How many more messages a process can take. */
  function NodeWork(p: Proc, rounds: nat): int {
    if p.done then 0 else 2 * rounds + 2 - p.taken
  }

  function TreeWork(p: Proc, rounds: nat): int {
    NodeWork(p, rounds) + match p.node
                          case MinusNode(c) => TreeWork(c, rounds)
                          case BinNode(_, l, r) => TreeWork(l, rounds) + TreeWork(r, rounds)
                          case _ => 0
  }

  /** How many more steps a passing process can make, with `pipes` pipes to write to. */
  function PassWork(w: Pass, pipes: nat, rounds: nat): int {
    if w.stopped || w.at >= rounds then 0 else (rounds - w.at) * (pipes + 2) - w.pos
  }

  function MainWork(p: Plan, n: Net): int {
    (p.s.Rounds() - |n.results|) * (|p.order| + 1) - n.written + (|p.order| - n.ended)
  }

  function Total(k: nat, f: nat -> int): int {
    if k == 0 then 0 else Total(k - 1, f) + f(k - 1)
  }

  function TreeWorks(n: Net, rounds: nat): nat -> int {
    (x: nat) => if x in n.trees then TreeWork(n.trees[x], rounds) else 0
  }

  function PassWorks(p: Plan, n: Net): nat -> int {
    (x: nat) => if x in n.passes && x in p.desc then PassWork(n.passes[x], |p.desc[x]|, p.s.Rounds()) else 0
  }

  /** All work that is left, when the variables are less than `top`. */
  function Work(p: Plan, n: Net, top: nat): int {
    Total(top, TreeWorks(n, p.s.Rounds())) + Total(top, PassWorks(p, n)) + MainWork(p, n)
  }

  lemma {:induction false} TotalSame(k: nat, f: nat -> int, g: nat -> int)
    requires forall i: nat :: i < k ==> f(i) == g(i)
    ensures Total(k, f) == Total(k, g)
  {
    if k > 0 { TotalSame(k - 1, f, g); }
  }

  lemma {:induction false} TotalFalls(k: nat, f: nat -> int, g: nat -> int, x: nat)
    requires x < k && g(x) < f(x) && forall i: nat :: i < k && i != x ==> f(i) == g(i)
    ensures Total(k, g) < Total(k, f)
  {
    if x == k - 1 {
      TotalSame(k - 1, f, g);
    } else {
      TotalFalls(k - 1, f, g, x);
    }
  }

  lemma {:induction false} TotalNotNegative(k: nat, f: nat -> int)
    requires forall i: nat :: i < k ==> f(i) >= 0
    ensures Total(k, f) >= 0
  {
    if k > 0 { TotalNotNegative(k - 1, f); }
  }

  // ----- a step of an expression's processes -----

  lemma {:induction false} HistoryLength(h: seq<Msg>)
    requires End !in h
    ensures |h| == |Inits(h)| + |Inters(h)|
  {
    if h != [] { HistoryLength(h[..|h| - 1]); }
  }

  /** A process that goes on has not taken more messages than the rounds need. */
  lemma {:induction false} TakenIsBounded(s: Setup, e: Expr, p: Proc, owner: map<nat, nat>, pipes: Pipes, ending: bool)
    requires s.Valid() && TreeOk(s, e, p, pipes, ending) && Owns(e, owner) && PipesOk(s, owner, pipes, ending)
    ensures NodeWork(p, s.Rounds()) >= 0 && (!p.done ==> NodeWork(p, s.Rounds()) >= 2)
  {
    hide Say, Balanced, Ground, TreeOk, Inits, Inters;
    if !p.done && e.Var? {
      VarTaken(s, e, p, owner, pipes, ending);
    } else if !p.done {
      OtherTaken(s, e, p, pipes, ending);
    }
  }

  lemma {:induction false} VarTaken(s: Setup, e: Expr, p: Proc, owner: map<nat, nat>, pipes: Pipes, ending: bool)
    requires s.Valid() && TreeOk(s, e, p, pipes, ending) && Owns(e, owner) && PipesOk(s, owner, pipes, ending)
    requires !p.done && e.Var?
    ensures p.taken <= 2 * s.Rounds()
  {
    hide Say, Balanced, Ground, Inits, Inters;
    var h := pipes[e.fd];
    HistoryLength(h[..p.taken]);
    InitsGrow(h[..p.taken], h);
    assert PipeOk(s, owner[e.fd], h, ending);
  }

  lemma {:induction false} OtherTaken(s: Setup, e: Expr, p: Proc, pipes: Pipes, ending: bool)
    requires s.Valid() && TreeOk(s, e, p, pipes, ending) && !p.done && !e.Var?
    ensures p.taken <= s.Rounds()
  {
  }

  lemma {:induction false} TreeWorkNotNegative(s: Setup, e: Expr, p: Proc, owner: map<nat, nat>, pipes: Pipes, ending: bool)
    requires s.Valid() && TreeOk(s, e, p, pipes, ending) && Owns(e, owner) && PipesOk(s, owner, pipes, ending)
    ensures TreeWork(p, s.Rounds()) >= 0
    decreases e
  {
    hide NodeWork, PipesOk, OutOk, VarOk;
    TakenIsBounded(s, e, p, owner, pipes, ending);
    match (e, p.node)
    case (Num(_), NumNode(_)) =>
    case (Minus(c), MinusNode(d)) => TreeWorkNotNegative(s, c, d, owner, pipes, ending);
    case (Add(l, r), BinNode(_, l', r')) =>
      TreeWorkNotNegative(s, l, l', owner, pipes, ending);
      TreeWorkNotNegative(s, r, r', owner, pipes, ending);
    case (Mul(l, r), BinNode(_, l', r')) =>
      TreeWorkNotNegative(s, l, l', owner, pipes, ending);
      TreeWorkNotNegative(s, r, r', owner, pipes, ending);
    case (Var(_, _), VarNode(_)) =>
  }

  /** Whichever process of an expression makes a step, there is less to do. */
  lemma {:induction false} StepWorks(s: Setup, e: Expr, p: Proc, q: Proc, owner: map<nat, nat>, pipes: Pipes, ending: bool)
    requires s.Valid() && TreeOk(s, e, p, pipes, ending) && Owns(e, owner) && PipesOk(s, owner, pipes, ending)
    requires Step(p, q, s.Rounds(), pipes)
    ensures TreeWork(q, s.Rounds()) < TreeWork(p, s.Rounds())
    decreases e, 1
  {
    hide PipesOk, OutOk, VarOk, ActVar, ActNum, ActMinus, ActBin;
    if CanAct(p, pipes) && q == Act(p, s.Rounds(), pipes) {
      TakenIsBounded(s, e, p, owner, pipes, ending);
      ActWorks(p, s.Rounds(), pipes);
    } else {
      match (e, p.node)
      case (Minus(c), MinusNode(d)) => StepWorks(s, c, d, q.node.child, owner, pipes, ending);
      case (Add(l, r), BinNode(_, l', r')) => BothStepWorks(s, e, l, r, p, q, owner, pipes, ending);
      case (Mul(l, r), BinNode(_, l', r')) => BothStepWorks(s, e, l, r, p, q, owner, pipes, ending);
      case _ =>
    }
  }

  lemma {:induction false} BothStepWorks(s: Setup, e: Expr, l: Expr, r: Expr, p: Proc, q: Proc, owner: map<nat, nat>, pipes: Pipes, ending: bool)
    requires s.Valid() && Owns(l, owner) && Owns(r, owner) && PipesOk(s, owner, pipes, ending)
    requires p.node.BinNode? && (e == Add(l, r) || e == Mul(l, r))
    requires TreeOk(s, l, p.node.left, pipes, ending) && TreeOk(s, r, p.node.right, pipes, ending)
    requires Step(p, q, s.Rounds(), pipes) && !(CanAct(p, pipes) && q == Act(p, s.Rounds(), pipes))
    ensures TreeWork(q, s.Rounds()) < TreeWork(p, s.Rounds())
    decreases e, 0
  {
    hide TreeOk, PipesOk;
    if Step(p.node.left, q.node.left, s.Rounds(), pipes) && q == p.(node := BinNode(p.node.plus, q.node.left, p.node.right)) {
      StepWorks(s, l, p.node.left, q.node.left, owner, pipes, ending);
    } else {
      StepWorks(s, r, p.node.right, q.node.right, owner, pipes, ending);
    }
  }

  lemma {:induction false} ActWorks(p: Proc, rounds: nat, pipes: Pipes)
    requires CanAct(p, pipes) && NodeWork(p, rounds) > 0
    ensures TreeWork(Act(p, rounds, pipes), rounds) < TreeWork(p, rounds)
  {
    hide ActVar, ActNum, ActMinus, ActBin;
  }

  // ----- a step of the network -----

  predicate Numbers(eqs: System, top: nat) {
    forall x :: x in eqs ==> x < top
  }

  lemma {:induction false} TreeStepWorks(p: Plan, n: Net, n': Net, x: nat, top: nat)
    requires p.Valid() && Inv(p, n) && TreeSteps(p, n, n', x) && Numbers(p.s.eqs, top)
    ensures Work(p, n', top) < Work(p, n, top)
  {
    hide TreeOk, PipesOk, GivenOk, PassedOk, Step, TreeWork, PassWork, Total, Setup.Valid, Owns;
    StepWorks(p.s, p.s.eqs[x], n.trees[x], n'.trees[x], p.owner, n.pipes, Ending(p, n));
    TotalFalls(top, TreeWorks(n, p.s.Rounds()), TreeWorks(n', p.s.Rounds()), x);
    TotalSame(top, PassWorks(p, n), PassWorks(p, n'));
  }

  lemma {:induction false} PassStepWorks(p: Plan, n: Net, n': Net, x: nat, top: nat)
    requires p.Valid() && Inv(p, n) && PassSteps(p, n, n', x) && Numbers(p.s.eqs, top)
    ensures Work(p, n', top) < Work(p, n, top)
  {
    hide TreesOk, PipesOk, GivenOk, PassWork, Total, Plan.Valid, TreeWorks, PassWorks;
    assert PassOk(p, n, x);
    assert x in p.s.eqs;
    PassWorksLess(n.passes[x], n'.passes[x], |p.desc[x]|, p.s.Rounds());
    PassTotal(p, n, n', x, top);
    TreesSame(n, n', p.s.Rounds(), top);
  }

  lemma {:induction false} PassTotal(p: Plan, n: Net, n': Net, x: nat, top: nat)
    requires x < top && x in p.desc && x in n.passes && x in n'.passes && n'.passes == n.passes[x := n'.passes[x]]
    requires PassWork(n'.passes[x], |p.desc[x]|, p.s.Rounds()) < PassWork(n.passes[x], |p.desc[x]|, p.s.Rounds())
    ensures Total(top, PassWorks(p, n')) < Total(top, PassWorks(p, n))
  {
    hide PassWork, Total;
    TotalFalls(top, PassWorks(p, n), PassWorks(p, n'), x);
  }

  lemma TreesSame(n: Net, n': Net, rounds: nat, top: nat)
    requires n'.trees == n.trees
    ensures Total(top, TreeWorks(n', rounds)) == Total(top, TreeWorks(n, rounds))
  {
    hide Total, TreeWork;
    TotalSame(top, TreeWorks(n, rounds), TreeWorks(n', rounds));
  }

  lemma PassesSame(p: Plan, n: Net, n': Net, top: nat)
    requires n'.passes == n.passes
    ensures Total(top, PassWorks(p, n')) == Total(top, PassWorks(p, n))
  {
    hide Total, PassWork;
    TotalSame(top, PassWorks(p, n), PassWorks(p, n'));
  }

  lemma Rows(a: nat, b: nat)
    requires a > 0
    ensures a * b == (a - 1) * b + b && (a - 1) * b >= 0
  {
  }

  lemma PassWorksLess(w: Pass, w': Pass, pipes: nat, rounds: nat)
    requires !w.stopped && w.at < rounds && w.pos <= pipes
    requires || (w.pos < pipes && w' == w.(pos := w.pos + 1)) || (w.pos == pipes && w' == w.(stopped := true))
             || (w.pos == pipes && w' == Pass(w.at + 1, 0, false))
    ensures PassWork(w', pipes, rounds) < PassWork(w, pipes, rounds)
  {
    Rows(rounds - w.at, pipes + 2);
  }

  lemma MainWorkLess(p: Plan, n: Net, n': Net)
    requires p.Valid() && MainOk(p, n) && (MainWrites(p, n, n') || MainEnds(p, n, n') || exists stale :: MainReads(p, n, n', stale))
    ensures MainWork(p, n') < MainWork(p, n) && n'.trees == n.trees && n'.passes == n.passes
  {
    hide Plan.Valid, SayInit, Print;
    if |n.results| < p.s.Rounds() { Rows(p.s.Rounds() - |n.results|, |p.order| + 1); }
  }

  lemma MainStepWorks(p: Plan, n: Net, n': Net, top: nat)
    requires p.Valid() && MainOk(p, n) && (MainWrites(p, n, n') || MainEnds(p, n, n') || exists stale :: MainReads(p, n, n', stale))
    ensures Work(p, n', top) < Work(p, n, top)
  {
    hide Plan.Valid, MainOk, MainWrites, MainEnds, MainReads, Total, TreeWorks, PassWorks, MainWork;
    MainWorkLess(p, n, n');
    TreesSame(n, n', p.s.Rounds(), top);
    PassesSame(p, n, n', top);
  }

  lemma InvHasMain(p: Plan, n: Net)
    requires p.Valid() && Inv(p, n)
    ensures MainOk(p, n)
  {
    hide TreesOk, PipesOk, GivenOk, PassedOk, MainOk, Plan.Valid;
  }

  lemma {:induction false} NextWorks(p: Plan, n: Net, n': Net, top: nat)
    requires p.Valid() && Inv(p, n) && Next(p, n, n') && Numbers(p.s.eqs, top)
    ensures Work(p, n', top) < Work(p, n, top)
  {
    hide Inv, TreeSteps, PassSteps, MainWrites, MainReads, MainEnds, Work;
    if x :| TreeSteps(p, n, n', x) {
      TreeStepWorks(p, n, n', x, top);
    } else if x :| PassSteps(p, n, n', x) {
      PassStepWorks(p, n, n', x, top);
    } else {
      assert MainOk(p, n) by { InvHasMain(p, n); }
      MainStepWorks(p, n, n', top);
    }
  }

  // ----- the END messages of the main program -----

  predicate EndsOk(p: Plan, n: Net) {
    n.ended <= |p.order| && forall q :: 0 <= q < n.ended ==> p.order[q] in n.pipes && End in n.pipes[p.order[q]]
  }

  lemma {:induction false} NextKeepsEnds(p: Plan, n: Net, n': Net)
    requires EndsOk(p, n) && Next(p, n, n')
    ensures EndsOk(p, n')
  {
    hide Step, SayInit, Print;
  }

  lemma MainWorkNotNegative(p: Plan, n: Net)
    requires p.Valid() && MainOk(p, n) && EndsOk(p, n)
    ensures MainWork(p, n) >= 0
  {
    if |n.results| < p.s.Rounds() { Rows(p.s.Rounds() - |n.results|, |p.order| + 1); }
  }

  lemma PassWorkNotNegative(w: Pass, pipes: nat, rounds: nat)
    requires w.pos <= pipes
    ensures PassWork(w, pipes, rounds) >= 0
  {
    if w.at < rounds { Rows(rounds - w.at, pipes + 2); }
  }

  lemma {:induction false} WorkNotNegative(p: Plan, n: Net, top: nat)
    requires p.Valid() && Inv(p, n) && EndsOk(p, n)
    ensures Work(p, n, top) >= 0
  {
    hide TreeOk, PipesOk, GivenOk, TreeWork, PassWork, Total, Setup.Valid, Owns;
    forall x: nat | x < top ensures TreeWorks(n, p.s.Rounds())(x) >= 0 {
      if x in n.trees {
        TreeWorkNotNegative(p.s, p.s.eqs[x], n.trees[x], p.owner, n.pipes, Ending(p, n));
      }
    }
    forall x: nat | x < top ensures PassWorks(p, n)(x) >= 0 {
      if x in n.passes {
        assert PassOk(p, n, x);
        PassWorkNotNegative(n.passes[x], |p.desc[x]|, p.s.Rounds());
      }
    }
    TotalNotNegative(top, TreeWorks(n, p.s.Rounds()));
    TotalNotNegative(top, PassWorks(p, n));
    MainWorkNotNegative(p, n);
  }

  // ----- where a run ends -----

  predicate AllDone(p: Proc) {
    p.done && match p.node
              case MinusNode(c) => AllDone(c)
              case BinNode(_, l, r) => AllDone(l) && AllDone(r)
              case _ => true
  }

  /** All rounds are printed, all pipes are told to end, and every process has ended. */
  predicate Finished(p: Plan, n: Net) {
    && |n.results| == p.s.Rounds() && n.ended == |p.order|
    && (forall x :: x in n.trees ==> AllDone(n.trees[x]))
    && (forall x :: x in n.passes ==> n.passes[x].stopped || n.passes[x].at >= p.s.Rounds())
  }

  /** Once END is in every pipe, no process of an expression waits. */
  lemma {:induction false} QuietIsDone(s: Setup, e: Expr, p: Proc, pipes: Pipes, ending: bool)
    requires s.Valid() && TreeOk(s, e, p, pipes, ending) && Quiet(p, pipes)
    requires forall fd :: fd in pipes ==> End in pipes[fd]
    ensures AllDone(p)
    decreases e
  {
    match (e, p.node)
    case (Num(_), NumNode(_)) =>
    case (Minus(c), MinusNode(d)) => QuietIsDone(s, c, d, pipes, ending);
    case (Add(l, r), BinNode(_, l', r')) => QuietIsDone(s, l, l', pipes, ending); QuietIsDone(s, r, r', pipes, ending);
    case (Mul(l, r), BinNode(_, l', r')) => QuietIsDone(s, l, l', pipes, ending); QuietIsDone(s, r, r', pipes, ending);
    case (Var(x, fd), VarNode(v)) =>
      assert p.taken == |pipes[fd]| ==> pipes[fd][..p.taken] == pipes[fd];
  }

  lemma {:induction false} TreeGoesOn(p: Plan, n: Net, x: nat) returns (n': Net)
    requires p.Valid() && Inv(p, n) && EndsOk(p, n) && n.ended == |p.order| && x in n.trees && !AllDone(n.trees[x])
    ensures Next(p, n, n')
  {
    hide TreeOk, PipesOk, GivenOk, PassedOk, PassSteps, MainWrites, MainReads, MainEnds, Step, Quiet, AllDone;
    forall fd | fd in n.pipes ensures End in n.pipes[fd] {
      var q :| 0 <= q < |p.order| && p.order[q] == fd;
    }
    var t := QuietOrStep(n.trees[x], p.s.Rounds(), n.pipes);
    n' := n.(trees := n.trees[x := t]);
    if Quiet(n.trees[x], n.pipes) {
      QuietIsDone(p.s, p.s.eqs[x], n.trees[x], n.pipes, Ending(p, n));
      assert false;
    }
    assert TreeSteps(p, n, n', x);
  }

  lemma {:induction false} PassGoesOn(p: Plan, n: Net, x: nat) returns (n': Net)
    requires p.Valid() && Inv(p, n) && x in n.passes && !n.passes[x].stopped && n.passes[x].at < p.s.Rounds()
    requires AllDone(n.trees[x])
    ensures Next(p, n, n')
  {
    hide TreesOk, PipesOk, GivenOk, TreeSteps, PassSteps, MainWrites, MainReads, MainEnds;
    assert PassOk(p, n, x) && n.trees[x].done;
    n' := PassSuccessor(p, n, x);
  }

  /** Until everything is finished, the network can go on. */
  lemma {:induction false} GoesOn(p: Plan, n: Net, rank: nat -> nat, top: nat) returns (n': Net)
    requires p.Valid() && Inv(p, n) && EndsOk(p, n) && Ranked(p.s.eqs, rank, top) && !Finished(p, n)
    ensures Next(p, n, n')
  {
    InvHasMain(p, n);
    hide Inv, Plan.Valid, Ranked, TreeSteps, PassSteps, MainWrites, MainReads, AllDone;
    if |n.results| < p.s.Rounds() {
      n' := NeverStuck(p, n, rank, top);
    } else if n.ended < |p.order| {
      n' := EndSuccessor(p, n);
    } else if x :| x in n.trees && !AllDone(n.trees[x]) {
      n' := TreeGoesOn(p, n, x);
    } else {
      var x :| x in n.passes && !n.passes[x].stopped && n.passes[x].at < p.s.Rounds();
      SameNames(p, n, x);
      n' := PassGoesOn(p, n, x);
    }
  }

  lemma SameNames(p: Plan, n: Net, x: nat)
    requires p.Valid() && Inv(p, n) && x in n.passes
    ensures x in n.trees
  {
    hide TreesOk, PipesOk, GivenOk, PassedOk, MainOk, Plan.Valid;
  }

  lemma {:induction false} EndSuccessor(p: Plan, n: Net) returns (n': Net)
    requires p.Valid() && Inv(p, n) && n.ended < |p.order| && |n.results| == p.s.Rounds()
    ensures Next(p, n, n')
  {
    hide TreesOk, PipesOk, GivenOk, PassedOk, TreeSteps, PassSteps, MainWrites, MainReads;
    n' := n.(ended := n.ended + 1, pipes := Append(n.pipes, p.order[n.ended], End));
    assert MainEnds(p, n, n');
  }

  lemma {:induction false} WorkFalls(p: Plan, run: seq<Net>, i: nat, top: nat)
    requires p.Valid() && IsRun(p, run) && i < |run| && Numbers(p.s.eqs, top)
    ensures Inv(p, run[i]) && EndsOk(p, run[i]) && i + Work(p, run[i], top) <= Work(p, run[0], top)
  {
    RunKeeps(p, run, i);
    hide Inv, Next, Work, Plan.Valid;
    if i == 0 {
      assert Starts(p, run[0]);
    } else {
      WorkFalls(p, run, i - 1, top);
      assert Next(p, run[i - 1], run[i]);
      NextKeepsEnds(p, run[i - 1], run[i]);
      NextWorks(p, run[i - 1], run[i], top);
    }
  }

  /**
   * No interleaving of an accepted system goes on for ever, and one that cannot be continued has printed the solution
   * of x[0] in every round and has ended every process.
   */
  lemma {:induction false} EveryRunFinishes(p: Plan, run: seq<Net>, rank: nat -> nat, depth: nat, top: nat)
    requires p.Valid() && IsRun(p, run) && Ranked(p.s.eqs, rank, depth) && Numbers(p.s.eqs, top)
    ensures |run| <= 1 + Work(p, run[0], top)
    ensures var last := run[|run| - 1];
      (forall n :: !Next(p, last, n)) ==>
        && Finished(p, last)
        && (forall k :: 0 <= k < p.s.Rounds() ==> last.results[k] == if 0 in p.s.eqs then p.s.sols[k](0) else None)
  {
    var last := run[|run| - 1];
    WorkFalls(p, run, |run| - 1, top);
    WorkNotNegative(p, last, top);
    RunIsRight(p, run, |run| - 1);
    hide Inv, Work, Plan.Valid, IsRun;
    if !Finished(p, last) {
      var next := GoesOn(p, last, rank, depth);
    }
  }
}
