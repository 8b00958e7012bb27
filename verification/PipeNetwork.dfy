/**
 * The whole program as interleaved steps: the processes of all equations, a process per left-hand side that
 * passes its results to the pipes of its variable, and the main program, which writes the initial values of a
 * round to all pipes and then waits for the result of x[0].
 */
module PipeNetwork {
  import opened Basics
  import opened Equations
  import opened ProcessTree

  /** `order` is the order in which the main program writes to the pipes; `desc` lists the pipes of a variable. */
  datatype Plan = Plan(s: Setup, owner: map<nat, nat>, order: seq<nat>, desc: map<nat, seq<nat>>) {
    ghost predicate Valid() {
      && s.Valid()
      && (forall x :: x in s.eqs ==> Owns(s.eqs[x], owner))
      && (forall q :: 0 <= q < |order| ==> order[q] in owner) && (forall fd :: fd in owner ==> fd in order)
      && (forall q, r :: 0 <= q < r < |order| ==> order[q] != order[r])
      && (forall x :: x in s.eqs ==> x in desc)
      && (forall x, i :: x in desc && 0 <= i < |desc[x]| ==> desc[x][i] in owner && owner[desc[x][i]] == x)
      && (forall x, i, j :: x in desc && 0 <= i < j < |desc[x]| ==> desc[x][i] != desc[x][j])
      && (forall fd :: fd in owner && owner[fd] in desc ==> fd in desc[owner[fd]])
    }
  }

  /** A passing process: the message it is at, and to how many pipes it has written it. */
  datatype Pass = Pass(at: nat, pos: nat, stopped: bool)

  /** `written` counts the pipes that have this round's initial value, `ended` those that were told to end. */
  datatype Net = Net(trees: map<nat, Proc>, passes: map<nat, Pass>, pipes: Pipes, written: nat, results: seq<Option<int>>, ended: nat)

  // ----- the steps -----

  ghost predicate Starts(p: Plan, n: Net) {
    && n.trees == (map x | x in p.s.eqs :: Spawn(p.s.eqs, p.s.eqs[x]))
    && n.passes == (map x | x in p.s.eqs && x != 0 :: Pass(0, 0, false))
    && n.pipes == (map fd | fd in p.owner :: [])
    && n.written == 0 && n.results == [] && n.ended == 0
  }

  function Append(pipes: Pipes, fd: nat, m: Msg): Pipes
    requires fd in pipes
  {
    pipes[fd := pipes[fd] + [m]]
  }

  predicate TreeSteps(p: Plan, n: Net, n': Net, x: nat) {
    x in n.trees && x in n'.trees && Step(n.trees[x], n'.trees[x], p.s.Rounds(), n.pipes)
    && n' == n.(trees := n.trees[x := n'.trees[x]])
  }

  predicate PassCan(p: Plan, n: Net, x: nat) {
    x in n.passes && x in n.trees && x in p.desc && !n.passes[x].stopped
    && n.passes[x].at < p.s.Rounds() && n.passes[x].at < |n.trees[x].out|
  }

  /** Forwards the current message to the next pipe; after the last pipe, goes on or stops at END. */
  predicate PassSteps(p: Plan, n: Net, n': Net, x: nat) {
    PassCan(p, n, x) && (
      var (w, m) := (n.passes[x], n.trees[x].out[n.passes[x].at]);
      if w.pos < |p.desc[x]| then
        p.desc[x][w.pos] in n.pipes
        && n' == n.(passes := n.passes[x := w.(pos := w.pos + 1)], pipes := Append(n.pipes, p.desc[x][w.pos], m))
      else if m.End? then n' == n.(passes := n.passes[x := w.(stopped := true)])
      else n' == n.(passes := n.passes[x := Pass(w.at + 1, 0, false)]))
  }

  /** The main program writes an initial value. */
  predicate MainWrites(p: Plan, n: Net, n': Net) {
    0 in p.s.eqs && |n.results| < p.s.Rounds() && n.written < |p.order|
    && p.order[n.written] in n.pipes && p.order[n.written] in p.owner
    && n' == n.(written := n.written + 1,
                pipes := Append(n.pipes, p.order[n.written], SayInit(p.s, p.owner[p.order[n.written]], |n.results|)))
  }

  /** What is printed for a message, given the initial values of the round. */
  function Print(st: Msg, inits: map<nat, int>, stale: int): Option<int> {
    if st.NoValue? && 0 !in inits then None
    else if 0 in inits then Some(inits[0])
    else Some(if st.Value? then st.value else stale)
  }

  /** The main program reads the result of x[0], or prints that there is none when it has no equation. */
  predicate MainReads(p: Plan, n: Net, n': Net, stale: int) {
    && |n.results| < p.s.Rounds()
    && (if 0 in p.s.eqs then
          n.written == |p.order| && 0 in n.trees && |n.results| < |n.trees[0].out|
          && n' == n.(written := 0, results := n.results + [Print(n.trees[0].out[|n.results|], p.s.inits[|n.results|], stale)])
        else n' == n.(results := n.results + [None]))
  }

  predicate MainEnds(p: Plan, n: Net, n': Net) {
    |n.results| == p.s.Rounds() && n.ended < |p.order| && p.order[n.ended] in n.pipes
    && n' == n.(ended := n.ended + 1, pipes := Append(n.pipes, p.order[n.ended], End))
  }

  ghost predicate Next(p: Plan, n: Net, n': Net) {
    || (exists x :: TreeSteps(p, n, n', x))
    || (exists x :: PassSteps(p, n, n', x))
    || MainWrites(p, n, n')
    || (exists stale :: MainReads(p, n, n', stale))
    || MainEnds(p, n, n')
  }

  // ----- what every state satisfies -----

  predicate Ending(p: Plan, n: Net) {
    |n.results| == p.s.Rounds()
  }

  /** The number of initial values in the `q`-th pipe. */
  function Given(p: Plan, n: Net, q: nat): nat {
    if 0 in p.s.eqs then |n.results| + if q < n.written then 1 else 0 else 0
  }

  /** The number of results in the `i`-th pipe of `x`. */
  function Passed(n: Net, x: nat, i: nat): nat
    requires x in n.trees
  {
    if x !in n.passes then 0
    else
      var w := n.passes[x];
      w.at + if i < w.pos && w.at < |n.trees[x].out| && !n.trees[x].out[w.at].End? then 1 else 0
  }

  ghost predicate PassOk(p: Plan, n: Net, x: nat)
    requires x in n.trees && x in n.passes && x in p.desc
  {
    var (w, t) := (n.passes[x], n.trees[x]);
    && w.at <= Count(t) && w.pos <= |p.desc[x]| && (w.pos > 0 ==> w.at < |t.out|)
    && (w.stopped ==> w.at < |t.out| && t.out[w.at].End?)
  }

  predicate Shaped(p: Plan, n: Net) {
    n.trees.Keys == p.s.eqs.Keys && n.passes.Keys == p.s.eqs.Keys - {0} && n.pipes.Keys == p.owner.Keys
  }

  ghost predicate TreesOk(p: Plan, n: Net)
    requires p.Valid() && Shaped(p, n)
  {
    forall x :: x in n.trees ==> TreeOk(p.s, p.s.eqs[x], n.trees[x], n.pipes, Ending(p, n))
  }

  ghost predicate GivenOk(p: Plan, n: Net)
    requires p.Valid() && Shaped(p, n)
  {
    forall q :: 0 <= q < |p.order| ==> |Inits(n.pipes[p.order[q]])| == Given(p, n, q)
  }

  ghost predicate PassedOk(p: Plan, n: Net)
    requires p.Valid() && Shaped(p, n)
  {
    && (forall x :: x in n.passes ==> PassOk(p, n, x))
    && (forall x, i :: x in n.trees && 0 <= i < |p.desc[x]| ==> |Inters(n.pipes[p.desc[x][i]])| == Passed(n, x, i))
  }

  ghost predicate MainOk(p: Plan, n: Net)
    requires p.Valid()
  {
    && n.written <= |p.order| && |n.results| <= p.s.Rounds() && (Ending(p, n) || 0 !in p.s.eqs ==> n.written == 0)
    && (forall i :: 0 <= i < |n.results| ==> n.results[i] == if 0 in p.s.eqs then p.s.sols[i](0) else None)
  }

  ghost predicate Inv(p: Plan, n: Net)
    requires p.Valid()
  {
    Shaped(p, n) && TreesOk(p, n) && PipesOk(p.s, p.owner, n.pipes, Ending(p, n))
    && GivenOk(p, n) && PassedOk(p, n) && MainOk(p, n)
  }

  lemma EmptyPipe(s: Setup, x: nat, ending: bool)
    requires s.Valid()
    ensures PipeOk(s, x, [], ending) && Inits([]) == [] && Inters([]) == []
  {
  }

  lemma {:induction false} InvStart(p: Plan, n: Net)
    requires p.Valid() && Starts(p, n)
    ensures Inv(p, n)
  {
    hide TreeOk, Setup.Valid, PipeOk, Owns;
    forall x | x in n.trees
      ensures TreeOk(p.s, p.s.eqs[x], n.trees[x], n.pipes, Ending(p, n))
    {
      Start(p.s, p.s.eqs[x], p.owner, n.pipes);
      MoreInPipes(p.s, p.s.eqs[x], n.trees[x], n.pipes, n.pipes, false, Ending(p, n));
    }
    forall fd | fd in p.owner ensures PipeOk(p.s, p.owner[fd], n.pipes[fd], Ending(p, n)) {
      EmptyPipe(p.s, p.owner[fd], Ending(p, n));
    }
  }

  // ----- messages written to a pipe -----

  lemma {:induction false} HistoryOf(h: seq<Msg>, m: Msg)
    ensures Inits(h + [m]) == Inits(h) + if m.Init? || m.InitNone? then [m] else []
    ensures Inters(h + [m]) == Inters(h) + if m.Value? || m.NoValue? then [m] else []
  {
    assert (h + [m])[..|h|] == h;
  }

  lemma {:induction false} StaysBalanced(h: seq<Msg>, m: Msg)
    requires Balanced(h) && (m.Value? || m.NoValue? ==> |Inters(h)| <= |Inits(h)|)
    ensures Balanced(h + [m])
  {
    HistoryOf(h, m);
    hide Inits, Inters;
    assert h[..|h|] == h;
    forall k | 0 <= k <= |h| + 1
      ensures |Inters((h + [m])[..k])| <= |Inits((h + [m])[..k])| + 1
    {
      if k <= |h| {
        assert (h + [m])[..k] == h[..k];
      } else {
        assert (h + [m])[..k] == h + [m];
      }
    }
  }

  /** A message may be written if it is the next initial value, the next result in time, or END at the end. */
  lemma {:induction false} MayWrite(s: Setup, x: nat, h: seq<Msg>, m: Msg, ending: bool)
    requires s.Valid() && PipeOk(s, x, h, ending)
    requires || (|Inits(h)| < s.Rounds() && m == SayInit(s, x, |Inits(h)|))
             || (x in s.eqs && |Inters(h)| < s.Rounds() && m == Say(s, s.eqs[x], |Inters(h)|)
                 && (Ground(s.eqs[x]) || |Inters(h)| <= |Inits(h)|))
             || (m == End && ending)
    ensures PipeOk(s, x, h + [m], ending)
  {
    hide Balanced, Inits, Inters, Ground;
    HistoryOf(h, m);
    if x in s.eqs && !Ground(s.eqs[x]) {
      StaysBalanced(h, m);
    }
  }

  lemma {:induction false} Appended(p: Plan, n: Net, fd: nat, m: Msg)
    requires p.Valid() && Inv(p, n) && fd in p.owner
    requires PipeOk(p.s, p.owner[fd], n.pipes[fd] + [m], Ending(p, n))
    ensures var pipes := Append(n.pipes, fd, m);
      && PipesOk(p.s, p.owner, pipes, Ending(p, n))
      && (forall x :: x in n.trees ==> TreeOk(p.s, p.s.eqs[x], n.trees[x], pipes, Ending(p, n)))
      && (forall d :: d in p.owner ==> |Inits(pipes[d])| == |Inits(n.pipes[d])| + if d == fd && (m.Init? || m.InitNone?) then 1 else 0)
      && (forall d :: d in p.owner ==> |Inters(pipes[d])| == |Inters(n.pipes[d])| + if d == fd && (m.Value? || m.NoValue?) then 1 else 0)
  {
    hide TreeOk, PipeOk, Inits, Inters, PassOk, Passed, Given;
    var pipes := Append(n.pipes, fd, m);
    HistoryOf(n.pipes[fd], m);
    assert Grown(n.pipes, pipes);
    forall x | x in n.trees
      ensures TreeOk(p.s, p.s.eqs[x], n.trees[x], pipes, Ending(p, n))
    {
      MoreInPipes(p.s, p.s.eqs[x], n.trees[x], n.pipes, pipes, Ending(p, n), Ending(p, n));
    }
  }

  lemma {:induction false} PassedStays(p: Plan, n: Net, n': Net)
    requires p.Valid() && Shaped(p, n) && Shaped(p, n') && PassedOk(p, n) && n'.trees == n.trees && n'.passes == n.passes
    requires forall d :: d in p.owner ==> |Inters(n'.pipes[d])| == |Inters(n.pipes[d])|
    ensures PassedOk(p, n')
  {
    hide Inters;
    forall x | x in n'.passes ensures PassOk(p, n', x) {
      assert PassOk(p, n, x);
    }
  }

  // ----- every step keeps the invariant -----

  lemma {:induction false} TreeStepKeeps(p: Plan, n: Net, n': Net, x: nat)
    requires p.Valid() && Inv(p, n) && TreeSteps(p, n, n', x)
    ensures Inv(p, n')
  {
    hide TreeOk, PipeOk, Inits, Inters, Step;
    StepKeeps(p.s, p.s.eqs[x], n.trees[x], n'.trees[x], p.owner, n.pipes, Ending(p, n));
    forall y | y in n'.passes
      ensures PassOk(p, n', y)
    {
      assert PassOk(p, n, y);
    }
    forall y, i | y in n'.trees && 0 <= i < |p.desc[y]|
      ensures Passed(n', y, i) == Passed(n, y, i)
    {
      assert y in n.passes ==> PassOk(p, n, y);
    }
  }

  lemma {:induction false} MainWriteKeeps(p: Plan, n: Net, n': Net)
    requires p.Valid() && Inv(p, n) && MainWrites(p, n, n')
    ensures Inv(p, n')
  {
    hide TreeOk, PipeOk, Inits, Inters, PassedOk, Setup.Valid, Owns, Grown;
    var fd := p.order[n.written];
    var m := SayInit(p.s, p.owner[fd], |n.results|);
    MayWrite(p.s, p.owner[fd], n.pipes[fd], m, Ending(p, n));
    Appended(p, n, fd, m);
    PassedStays(p, n, n');
  }

  lemma {:induction false} MainEndKeeps(p: Plan, n: Net, n': Net)
    requires p.Valid() && Inv(p, n) && MainEnds(p, n, n')
    ensures Inv(p, n')
  {
    hide TreeOk, PipeOk, Inits, Inters, PassedOk, Setup.Valid, Owns, Grown;
    var fd := p.order[n.ended];
    MayWrite(p.s, p.owner[fd], n.pipes[fd], End, Ending(p, n));
    Appended(p, n, fd, End);
    PassedStays(p, n, n');
  }

  /** The barrier: a result with variables in it is never more than a round ahead of any pipe's initial values. */
  lemma {:induction false} Barrier(p: Plan, n: Net, x: nat, fd: nat)
    requires p.Valid() && Inv(p, n) && x in n.trees && fd in p.owner && !Ground(p.s.eqs[x])
    ensures Count(n.trees[x]) <= |Inits(n.pipes[fd])| + 1
  {
    hide TreeOk, PipeOk, Inits, Inters, PassOk, Passed;
    var begun := if 0 in p.s.eqs then |n.results| + if n.written > 0 then 1 else 0 else 0;
    forall d | d in n.pipes
      ensures |n.results| * (if 0 in p.s.eqs then 1 else 0) <= |Inits(n.pipes[d])| <= begun
    {
      var q :| 0 <= q < |p.order| && p.order[q] == d;
    }
    NotAhead(p.s, p.s.eqs[x], n.trees[x], n.pipes, Ending(p, n), begun);
  }

  /** A pass process writes what it may. */
  lemma {:induction false} PassMayWrite(p: Plan, n: Net, x: nat)
    requires p.Valid() && Inv(p, n) && PassCan(p, n, x) && n.passes[x].pos < |p.desc[x]|
    ensures var (fd, m) := (p.desc[x][n.passes[x].pos], n.trees[x].out[n.passes[x].at]);
      PipeOk(p.s, x, n.pipes[fd] + [m], Ending(p, n)) && (m == End || m.Value? || m.NoValue?)
  {
    var (w, t) := (n.passes[x], n.trees[x]);
    var (fd, m) := (p.desc[x][w.pos], t.out[w.at]);
    assert PassOk(p, n, x) && Passed(n, x, w.pos) == w.at;
    ChildSays(p.s, p.s.eqs[x], t, w.at, Ending(p, n));
    hide TreeOk, PipeOk, Inits, Inters, PassOk, Passed, Say;
    if !Ground(p.s.eqs[x]) {
      Barrier(p, n, x, fd);
    }
    MayWrite(p.s, x, n.pipes[fd], m, Ending(p, n));
  }

  lemma {:induction false} PassStepKeeps(p: Plan, n: Net, n': Net, x: nat)
    requires p.Valid() && Inv(p, n) && PassSteps(p, n, n', x)
    ensures Inv(p, n')
  {
    hide Inv;
    if n.passes[x].pos < |p.desc[x]| {
      ForwardKeeps(p, n, n', x);
    } else {
      MoveOnKeeps(p, n, n', x);
    }
  }

  lemma {:induction false} ForwardKeeps(p: Plan, n: Net, n': Net, x: nat)
    requires p.Valid() && Inv(p, n) && PassSteps(p, n, n', x) && n.passes[x].pos < |p.desc[x]|
    ensures Inv(p, n')
  {
    hide TreeOk, PipeOk, Inits, Inters, Say, PassedOk, Passed;
    PassMayWrite(p, n, x);
    Appended(p, n, p.desc[x][n.passes[x].pos], n.trees[x].out[n.passes[x].at]);
    ForwardPasses(p, n, n', x);
  }

  lemma {:induction false} ForwardPasses(p: Plan, n: Net, n': Net, x: nat)
    requires p.Valid() && Shaped(p, n) && Shaped(p, n') && PassedOk(p, n)
    requires PassSteps(p, n, n', x) && n.passes[x].pos < |p.desc[x]|
    requires var (fd, m) := (p.desc[x][n.passes[x].pos], n.trees[x].out[n.passes[x].at]);
      (m.End? || m.Value? || m.NoValue?) && forall d :: d in p.owner ==>
        |Inters(n'.pipes[d])| == |Inters(n.pipes[d])| + if d == fd && (m.Value? || m.NoValue?) then 1 else 0
    ensures PassedOk(p, n')
  {
    hide Inters, Setup.Valid, Owns;
    ForwardOk(p, n, n', x);
    forall y, i | y in n'.trees && 0 <= i < |p.desc[y]|
      ensures |Inters(n'.pipes[p.desc[y][i]])| == Passed(n', y, i)
    {
      assert |Inters(n.pipes[p.desc[y][i]])| == Passed(n, y, i);
    }
  }

  lemma {:induction false} ForwardOk(p: Plan, n: Net, n': Net, x: nat)
    requires p.Valid() && Shaped(p, n) && Shaped(p, n') && PassedOk(p, n)
    requires PassSteps(p, n, n', x) && n.passes[x].pos < |p.desc[x]|
    ensures forall y :: y in n'.passes ==> PassOk(p, n', y)
  {
    hide Inters, Passed;
    forall y | y in n'.passes ensures PassOk(p, n', y) {
      assert PassOk(p, n, y);
    }
  }

  lemma {:induction false} MoveOnKeeps(p: Plan, n: Net, n': Net, x: nat)
    requires p.Valid() && Inv(p, n) && PassSteps(p, n, n', x) && n.passes[x].pos >= |p.desc[x]|
    ensures Inv(p, n')
  {
    hide PipeOk, Inits, Inters, Say, PassedOk, Passed;
    ChildSays(p.s, p.s.eqs[x], n.trees[x], n.passes[x].at, Ending(p, n));
    hide TreeOk, OutOk;
    MoveOnPasses(p, n, n', x);
  }

  lemma {:induction false} MoveOnPasses(p: Plan, n: Net, n': Net, x: nat)
    requires p.Valid() && Shaped(p, n) && Shaped(p, n') && PassedOk(p, n)
    requires PassSteps(p, n, n', x) && n.passes[x].pos >= |p.desc[x]|
    requires !n.trees[x].out[n.passes[x].at].End? ==> n.passes[x].at < Count(n.trees[x])
    ensures PassedOk(p, n')
  {
    hide Inters, Setup.Valid, Owns;
    assert PassOk(p, n, x);
    forall y | y in n'.passes ensures PassOk(p, n', y) {
      assert PassOk(p, n, y);
    }
    forall y, i | y in n'.trees && 0 <= i < |p.desc[y]|
      ensures Passed(n', y, i) == Passed(n, y, i)
    {
    }
  }

  lemma {:induction false} PipesMayEnd(s: Setup, owner: map<nat, nat>, pipes: Pipes, ending: bool, ending': bool)
    requires s.Valid() && PipesOk(s, owner, pipes, ending) && (ending ==> ending')
    ensures PipesOk(s, owner, pipes, ending')
  {
    hide Inits, Inters, Balanced, Ground;
  }

  /** What is printed for the expected message is the solution. */
  lemma {:induction false} ReadIsRight(s: Setup, k: nat, stale: int)
    requires s.Valid() && k < s.Rounds() && 0 in s.eqs
    ensures Print(Say(s, s.eqs[0], k), s.inits[k], stale) == s.sols[k](0)
  {
    SayVar(s, 0, 0, k);
  }

  lemma MainOkBounds(p: Plan, n: Net)
    requires p.Valid() && MainOk(p, n)
    ensures |n.results| <= p.s.Rounds() && n.written <= |p.order| && (Ending(p, n) || 0 !in p.s.eqs ==> n.written == 0)
  {
  }

  lemma {:induction false} MainReadPrints(p: Plan, n: Net, n': Net, stale: int)
    requires p.Valid() && Inv(p, n) && MainReads(p, n, n', stale)
    ensures MainOk(p, n')
  {
    hide PassedOk, GivenOk, PipesOk, Owns, Print;
    var k := |n.results|;
    if 0 in p.s.eqs {
      ChildSays(p.s, p.s.eqs[0], n.trees[0], k, Ending(p, n));
      ReadIsRight(p.s, k, stale);
      assert n.trees[0].out[k] == Say(p.s, p.s.eqs[0], k);
    }
  }

  lemma {:induction false} MainReadKeeps(p: Plan, n: Net, n': Net, stale: int)
    requires p.Valid() && Inv(p, n) && MainReads(p, n, n', stale)
    ensures Inv(p, n')
  {
    hide PassedOk, TreeOk, PipeOk, Inits, Inters, Print, MainOk, Setup.Valid, Owns;
    MainReadPrints(p, n, n', stale);
    assert |n.results| <= p.s.Rounds() && n.written <= |p.order| by { MainOkBounds(p, n); }
    forall x | x in n.trees
      ensures TreeOk(p.s, p.s.eqs[x], n.trees[x], n.pipes, Ending(p, n'))
    {
      MoreInPipes(p.s, p.s.eqs[x], n.trees[x], n.pipes, n.pipes, Ending(p, n), Ending(p, n'));
    }
    PipesMayEnd(p.s, p.owner, n.pipes, Ending(p, n), Ending(p, n'));
    PassedStays(p, n, n');
  }

  lemma {:induction false} NextKeeps(p: Plan, n: Net, n': Net)
    requires p.Valid() && Inv(p, n) && Next(p, n, n')
    ensures Inv(p, n')
  {
    hide Inv, TreeSteps, PassSteps, MainWrites, MainReads, MainEnds;
    if x :| TreeSteps(p, n, n', x) {
      TreeStepKeeps(p, n, n', x);
    } else if x :| PassSteps(p, n, n', x) {
      PassStepKeeps(p, n, n', x);
    } else if MainWrites(p, n, n') {
      MainWriteKeeps(p, n, n');
    } else if stale :| MainReads(p, n, n', stale) {
      MainReadKeeps(p, n, n', stale);
    } else {
      MainEndKeeps(p, n, n');
    }
  }

  // ----- whole runs -----

  ghost predicate IsRun(p: Plan, run: seq<Net>) {
    run != [] && Starts(p, run[0]) && forall i :: 0 < i < |run| ==> Next(p, run[i - 1], run[i])
  }

  lemma {:induction false} RunKeeps(p: Plan, run: seq<Net>, i: nat)
    requires p.Valid() && IsRun(p, run) && i < |run|
    ensures Inv(p, run[i])
  {
    hide Inv, Starts, Next;
    if i == 0 {
      InvStart(p, run[0]);
    } else {
      RunKeeps(p, run, i - 1);
      assert Next(p, run[i - 1], run[i]);
      NextKeeps(p, run[i - 1], run[i]);
    }
  }

  /**
   * In every interleaving, each process of each equation has written a prefix of what its part of the equation says
   * under the solution, and what was printed is the solution of x[0] in each round.
   */
  lemma {:induction false} RunIsRight(p: Plan, run: seq<Net>, i: nat)
    requires p.Valid() && IsRun(p, run) && i < |run|
    ensures run[i].trees.Keys == p.s.eqs.Keys
    ensures forall x :: x in p.s.eqs ==> AllOutOk(p.s, p.s.eqs[x], run[i].trees[x], |run[i].results| == p.s.Rounds())
    ensures |run[i].results| <= p.s.Rounds()
    ensures forall k :: 0 <= k < |run[i].results| ==> run[i].results[k] == if 0 in p.s.eqs then p.s.sols[k](0) else None
  {
    hide IsRun, TreeOk, AllOutOk, PipesOk, GivenOk, PassedOk, Setup.Valid, Owns;
    RunKeeps(p, run, i);
    var n := run[i];
    forall x | x in p.s.eqs
      ensures AllOutOk(p.s, p.s.eqs[x], n.trees[x], |n.results| == p.s.Rounds())
    {
      TreeWrites(p.s, p.s.eqs[x], n.trees[x], n.pipes, Ending(p, n));
    }
  }

  /** What a pipe holds: the initial values and the results of its variable, each numbered from round 1 on. */
  lemma {:induction false} PipeHistory(p: Plan, run: seq<Net>, i: nat, fd: nat)
    requires p.Valid() && IsRun(p, run) && i < |run| && fd in p.owner
    ensures fd in run[i].pipes
    ensures var (x, starts, results) := (p.owner[fd], Inits(run[i].pipes[fd]), Inters(run[i].pipes[fd]));
      && |starts| <= |p.s.inits| && |results| <= |p.s.inits| == |p.s.sols| && (results != [] ==> x in p.s.eqs)
      && (forall k :: 0 <= k < |starts| ==>
            starts[k] == if x in p.s.inits[k] then Init(k + 1, p.s.inits[k][x]) else InitNone(k + 1))
      && (forall k :: 0 <= k < |results| ==>
            (var v := Eval(p.s.eqs[x], p.s.sols[k]); results[k] == if v.Some? then Value(k + 1, v.value) else NoValue(k + 1)))
  {
    RunKeeps(p, run, i);
    assert PipeOk(p.s, p.owner[fd], run[i].pipes[fd], Ending(p, run[i])) by {
      hide IsRun, PipeOk, TreesOk, GivenOk, PassedOk, MainOk;
    }
    hide IsRun, Inv, Balanced, Ground, Inits, Inters;
  }

  /** What is printed in a round in which `x` and `y` have initial values. */
  lemma {:induction false} PrintedResult(p: Plan, run: seq<Net>, i: nat, k: nat, x: nat, y: nat, fd: nat, fd': nat)
    requires p.Valid() && IsRun(p, run) && i < |run| && k < |run[i].results|
    requires 0 in p.s.eqs && k < p.s.Rounds() && x in p.s.inits[k] && y in p.s.inits[k]
    ensures var (inits, e, printed) := (p.s.inits[k], p.s.eqs[0], run[i].results[k]);
      if 0 in inits then printed == Some(inits[0])
      else
        && (e == Add(Var(x, fd), Var(y, fd')) ==> printed == Some(inits[x] + inits[y]))
        && (e == Mul(Var(x, fd), Var(y, fd')) ==> printed == Some(inits[x] * inits[y]))
        && (e == Minus(Var(x, fd)) ==> printed == Some(-inits[x]))
  {
    hide IsRun, AllOutOk;
    RunIsRight(p, run, i);
    var values := p.s.sols[k];
    assert Solves(p.s.eqs, p.s.inits[k], values);
    assert values(x) == Some(p.s.inits[k][x]) && values(y) == Some(p.s.inits[k][y]);
    EvalOfValues(Var(x, fd), Var(y, fd'), values);
  }

  /** What is printed in a round in which neither an initial value nor an equation gives a value to `x`. */
  lemma {:induction false} NothingPrinted(p: Plan, run: seq<Net>, i: nat, k: nat, x: nat, y: nat, fd: nat, fd': nat)
    requires p.Valid() && IsRun(p, run) && i < |run| && k < |run[i].results|
    requires 0 in p.s.eqs && k < p.s.Rounds() && 0 !in p.s.inits[k] && x !in p.s.inits[k] && x !in p.s.eqs
    requires p.s.eqs[0] in {Add(Var(x, fd), Var(y, fd')), Add(Var(y, fd'), Var(x, fd)), Mul(Var(x, fd), Var(y, fd')), Mul(Var(y, fd'), Var(x, fd)), Minus(Var(x, fd))}
    ensures run[i].results[k] == None
  {
    hide IsRun, AllOutOk;
    RunIsRight(p, run, i);
    var values := p.s.sols[k];
    assert Solves(p.s.eqs, p.s.inits[k], values);
    assert values(x) == None;
    EvalOfValues(Var(x, fd), Var(y, fd'), values);
    EvalOfValues(Var(y, fd'), Var(x, fd), values);
  }

  // ----- nothing waits for ever -----

  predicate AllQuiet(p: Plan, n: Net) {
    (forall x :: x in n.trees ==> Quiet(n.trees[x], n.pipes)) && (forall x :: x in n.passes ==> !PassCan(p, n, x))
  }

  /** If nothing but the main program can move, every equation below x[0] has its result for the main program's round. */
  lemma {:induction false} ResultsAreThere(p: Plan, n: Net, rank: nat -> nat, top: nat, x: nat)
    requires p.Valid() && Inv(p, n) && AllQuiet(p, n) && Ranked(p.s.eqs, rank, top)
    requires |n.results| < p.s.Rounds() && 0 in p.s.eqs && n.written == |p.order|
    requires x in p.s.eqs && rank(x) <= rank(0)
    ensures Count(n.trees[x]) >= |n.results| + 1
    decreases rank(x)
  {
    var k := |n.results| + 1;
    forall y | Edge(p.s.eqs, x, y) && y in p.s.eqs
      ensures y in n.passes && n.passes[y].at >= k
    {
      ResultsAreThere(p, n, rank, top, y);
      PassIsDone(p, n, y);
    }
    IsFed(p, n, x, p.s.eqs[x], k);
    QuietHasWritten(p.s, p.s.eqs[x], n.trees[x], n.pipes, k);
  }

  lemma {:induction false} PassIsDone(p: Plan, n: Net, y: nat)
    requires p.Valid() && Inv(p, n) && y in n.passes && !PassCan(p, n, y) && !Ending(p, n)
    ensures n.passes[y].at >= Count(n.trees[y])
  {
    assert PassOk(p, n, y);
  }

  lemma {:induction false} IsFed(p: Plan, n: Net, x: nat, e: Expr, k: nat)
    requires p.Valid() && Inv(p, n) && x in p.s.eqs && 0 in p.s.eqs && n.written == |p.order| && k == |n.results| + 1
    requires Owns(e, p.owner) && forall y :: y in Vars(e) && y in p.s.eqs ==> y in n.passes && n.passes[y].at >= k
    ensures Fed(p.s.eqs, e, n.pipes, k)
    decreases e
  {
    hide TreeOk, PipeOk, Inits, Inters;
    match e
    case Num(_) =>
    case Minus(c) => IsFed(p, n, x, c, k);
    case Add(l, r) => IsFed(p, n, x, l, k); IsFed(p, n, x, r, k);
    case Mul(l, r) => IsFed(p, n, x, l, k); IsFed(p, n, x, r, k);
    case Var(y, fd) =>
      var q :| 0 <= q < |p.order| && p.order[q] == fd;
      assert |Inits(n.pipes[p.order[q]])| == Given(p, n, q);
      if y in p.s.eqs {
        var i :| 0 <= i < |p.desc[y]| && p.desc[y][i] == fd;
        assert |Inters(n.pipes[p.desc[y][i]])| == Passed(n, y, i);
      }
  }

  /** An accepted system never gets stuck: until all rounds are printed, some process can make a step. */
  lemma {:induction false} NeverStuck(p: Plan, n: Net, rank: nat -> nat, top: nat) returns (n': Net)
    requires p.Valid() && Inv(p, n) && Ranked(p.s.eqs, rank, top) && |n.results| < p.s.Rounds()
    ensures Next(p, n, n')
  {
    if 0 !in p.s.eqs {
      n' := n.(results := n.results + [None]);
      assert MainReads(p, n, n', 0);
    } else if n.written < |p.order| {
      n' := n.(written := n.written + 1,
               pipes := Append(n.pipes, p.order[n.written], SayInit(p.s, p.owner[p.order[n.written]], |n.results|)));
      assert MainWrites(p, n, n');
    } else if x :| x in n.trees && !Quiet(n.trees[x], n.pipes) {
      var t := QuietOrStep(n.trees[x], p.s.Rounds(), n.pipes);
      n' := n.(trees := n.trees[x := t]);
      assert TreeSteps(p, n, n', x);
    } else if x :| x in n.passes && PassCan(p, n, x) {
      n' := PassSuccessor(p, n, x);
      assert PassSteps(p, n, n', x);
    } else {
      ResultsAreThere(p, n, rank, top, 0);
      n' := n.(written := 0, results := n.results + [Print(n.trees[0].out[|n.results|], p.s.inits[|n.results|], 0)]);
      assert MainReads(p, n, n', 0);
    }
  }

  lemma {:induction false} PassSuccessor(p: Plan, n: Net, x: nat) returns (n': Net)
    requires p.Valid() && Inv(p, n) && PassCan(p, n, x)
    ensures PassSteps(p, n, n', x)
  {
    hide TreesOk, PipesOk, GivenOk, PassedOk, MainOk, Setup.Valid, Owns;
    var (w, m) := (n.passes[x], n.trees[x].out[n.passes[x].at]);
    if w.pos < |p.desc[x]| {
      n' := n.(passes := n.passes[x := w.(pos := w.pos + 1)], pipes := Append(n.pipes, p.desc[x][w.pos], m));
    } else if m.End? {
      n' := n.(passes := n.passes[x := w.(stopped := true)]);
    } else {
      n' := n.(passes := n.passes[x := Pass(w.at + 1, 0, false)]);
    }
  }

  // ----- every accepted system can be run -----

  /** The solutions of an accepted system make a setup for any initial values. */
  lemma {:induction false} SetupExists(eqs: System, inits: seq<map<nat, int>>, rank: nat -> nat, top: nat)
    requires Ranked(eqs, rank, top)
    ensures Setup(eqs, inits, seq(|inits|, i requires 0 <= i < |inits| => Values(eqs, inits[i], top))).Valid()
  {
    forall i | 0 <= i < |inits|
      ensures Solves(eqs, inits[i], Values(eqs, inits[i], top))
    {
      SolutionExists(eqs, inits[i], rank, top);
    }
  }

  /** The pipes of an expression, each with its variable. */
  function Occurrences(e: Expr): set<(nat, nat)> {
    match e
    case Num(_) => {}
    case Minus(c) => Occurrences(c)
    case Add(l, r) => Occurrences(l) + Occurrences(r)
    case Mul(l, r) => Occurrences(l) + Occurrences(r)
    case Var(x, fd) => {(fd, x)}
  }

  function AllOccurrences(eqs: System): set<(nat, nat)> {
    set x, o | x in eqs && o in Occurrences(eqs[x]) :: o
  }

  /** No pipe belongs to two variables. */
  predicate Apart(eqs: System) {
    forall o, o' :: o in AllOccurrences(eqs) && o' in AllOccurrences(eqs) && o.0 == o'.0 ==> o == o'
  }

  lemma {:induction false} OwnsAll(e: Expr, owner: map<nat, nat>)
    requires forall o :: o in Occurrences(e) ==> o.0 in owner && owner[o.0] == o.1
    ensures Owns(e, owner)
  {
    match e
    case Num(_) =>
    case Minus(c) => OwnsAll(c, owner);
    case Add(l, r) => OwnsAll(l, owner); OwnsAll(r, owner);
    case Mul(l, r) => OwnsAll(l, owner); OwnsAll(r, owner);
    case Var(x, fd) => assert (fd, x) in Occurrences(e);
  }

  lemma OwnerExists(eqs: System) returns (owner: map<nat, nat>)
    requires Apart(eqs)
    ensures forall x :: x in eqs ==> Owns(eqs[x], owner)
  {
    hide Occurrences, Owns;
    owner := OwnerOfPipes(AllOccurrences(eqs));
    forall x | x in eqs ensures Owns(eqs[x], owner) {
      OwnsAll(eqs[x], owner);
    }
  }

  lemma OwnerOfPipes(all: set<(nat, nat)>) returns (owner: map<nat, nat>)
    requires forall o, o' :: o in all && o' in all && o.0 == o'.0 ==> o == o'
    ensures forall o :: o in all ==> o.0 in owner && owner[o.0] == o.1
    decreases |all|
  {
    owner := map[];
    if o :| o in all {
      owner := OwnerOfPipes(all - {o});
      owner := owner[o.0 := o.1];
    }
  }

  predicate Distinct(q: seq<nat>) {
    forall i, j :: 0 <= i < j < |q| ==> q[i] != q[j]
  }

  lemma {:induction false} ListOf(s: set<nat>) returns (q: seq<nat>)
    ensures (forall x :: x in q <==> x in s) && Distinct(q)
    decreases |s|
  {
    q := [];
    if x :| x in s {
      var before := ListOf(s - {x});
      q := before + [x];
    }
  }

  /** The pipes of one variable, in the given order. */
  function PipesOf(x: nat, order: seq<nat>, owner: map<nat, nat>): seq<nat> {
    if order == [] then []
    else
      var (before, fd) := (order[..|order| - 1], order[|order| - 1]);
      PipesOf(x, before, owner) + if fd in owner && owner[fd] == x then [fd] else []
  }

  lemma {:induction false} PipesOfOne(x: nat, order: seq<nat>, owner: map<nat, nat>)
    requires Distinct(order)
    ensures Distinct(PipesOf(x, order, owner))
    ensures forall fd :: fd in PipesOf(x, order, owner) <==> fd in order && fd in owner && owner[fd] == x
  {
    if order != [] {
      assert order == order[..|order| - 1] + [order[|order| - 1]];
      PipesOfOne(x, order[..|order| - 1], owner);
    }
  }

  lemma {:induction false} PlanFor(s: Setup) returns (p: Plan)
    requires s.Valid() && Apart(s.eqs)
    ensures p.Valid() && p.s == s
  {
    hide Apart, Owns, PipesOf, Setup.Valid;
    var owner := OwnerExists(s.eqs);
    var order := ListOf(owner.Keys);
    forall x | x in s.eqs ensures Distinct(PipesOf(x, order, owner))
      && forall fd :: fd in PipesOf(x, order, owner) <==> fd in owner && owner[fd] == x
    {
      PipesOfOne(x, order, owner);
    }
    p := Plan(s, owner, order, map x | x in s.eqs :: PipesOf(x, order, owner));
  }

  /** An accepted system has a plan and a starting state for any initial values. */
  lemma {:induction false} PlanExists(eqs: System, inits: seq<map<nat, int>>, rank: nat -> nat, top: nat) returns (p: Plan, n: Net)
    requires Ranked(eqs, rank, top) && Apart(eqs)
    ensures p.Valid() && p.s.eqs == eqs && p.s.inits == inits && Starts(p, n)
  {
    hide Ranked, Apart, Plan.Valid, Setup.Valid;
    SetupExists(eqs, inits, rank, top);
    p := PlanFor(Setup(eqs, inits, seq(|inits|, i requires 0 <= i < |inits| => Values(eqs, inits[i], top))));
    n := Net(map x | x in eqs :: Spawn(eqs, eqs[x]), map x | x in eqs && x != 0 :: Pass(0, 0, false),
             map fd | fd in p.owner :: [], 0, [], 0);
  }

  // ----- the barrier is needed -----

  /** A result two rounds ahead of the initial values would be written although its round has an initial value. */
  lemma WithoutBarrier(fd: nat, next: int)
    ensures ActVar(VarState(1, fd, true, [], [NoValue(1), Value(2, 5)], 0), InitNone(1)).1 == [NoValue(1), Value(2, 5)]
    ensures ActVar(VarState(1, fd, true, [InitNone(1)], [NoValue(1)], 1), Init(2, next)).1 == []
    ensures ActVar(VarState(1, fd, true, [InitNone(1), Init(2, next)], [NoValue(1)], 1), Value(2, 5)).1 == [Value(2, next)]
  {
  }
}
