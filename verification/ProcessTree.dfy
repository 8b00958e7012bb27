/**
 * The processes of an expression, one for each node. Every process reads messages from its children or from
 * its pipe and writes one message per round; what was ever written to a pipe is kept as its history.
 */
module ProcessTree {
  import opened Basics
  import opened Equations

  datatype Msg = End | Value(round: nat, value: int) | NoValue(round: nat) | Init(round: nat, value: int) | InitNone(round: nat)

  /** `out` is all that was written; `taken` counts the messages read, or the rounds begun by a number. */
  datatype Proc = Proc(node: Node, taken: nat, out: seq<Msg>, done: bool)

  datatype Node = NumNode(value: int) | MinusNode(child: Proc) | BinNode(plus: bool, left: Proc, right: Proc) | VarNode(state: VarState)

  /** A variable: the initial values and the results of its equation that came so far. */
  datatype VarState = VarState(index: nat, fd: nat, isLeft: bool, init: seq<Msg>, inter: seq<Msg>, round: nat)

  type Pipes = map<nat, seq<Msg>>

  /** The processes at their start. */
  function Spawn(eqs: System, e: Expr): Proc {
    Proc(match e
         case Num(v) => NumNode(v)
         case Minus(c) => MinusNode(Spawn(eqs, c))
         case Add(l, r) => BinNode(true, Spawn(eqs, l), Spawn(eqs, r))
         case Mul(l, r) => BinNode(false, Spawn(eqs, l), Spawn(eqs, r))
         case Var(x, fd) => VarNode(VarState(x, fd, x in eqs, [], [], 0)),
         0, [], false)
  }

  // ----- the steps: what is written and what a variable remembers -----

  /** A number is written in every round, without waiting for anything. */
  function ActNum(value: int, taken: nat, rounds: nat): seq<Msg> {
    if taken < rounds then [Value(taken + 1, value)] else [End]
  }

  function ActMinus(round: nat, st: Msg): seq<Msg> {
    match st
    case End => [End]
    case NoValue(_) => [NoValue(round)]
    case Value(_, v) => [Value(round, -v)]
    case _ => []
  }

  function ActBin(plus: bool, round: nat, l: Msg, r: Msg): seq<Msg> {
    if l.End? || r.End? then [End]
    else if l.NoValue? || r.NoValue? then [NoValue(round)]
    else if l.Value? && r.Value? then [Value(round, if plus then l.value + r.value else l.value * r.value)]
    else []
  }

  /**
   * A variable writes a round when its initial value and the result of its equation are both there. The two
   * tests one after the other would write two rounds if the next result were there already.
   */
  function ActVar(v: VarState, st: Msg): (VarState, seq<Msg>) {
    var w := v.(init := if st.Init? || st.InitNone? then v.init + [st] else v.init,
                inter := if st.Value? || st.NoValue? then v.inter + [st] else v.inter);
    if st.End? then (w, [End])
    else if v.isLeft then
      if |w.init| <= w.round || |w.inter| <= w.round then (w, [])
      else if w.init[w.round].Init? then (w.(round := w.round + 1), [Value(w.round + 1, w.init[w.round].value)])
      else
        var (w1, o1) := if w.inter[w.round].NoValue? then (w.(round := w.round + 1), [NoValue(w.round + 1)]) else (w, []);
        if w1.round < |w1.inter| && w1.inter[w1.round].Value?
        then (w1.(round := w1.round + 1), o1 + [Value(w1.round + 1, w1.inter[w1.round].value)]) else (w1, o1)
    else
      var w1 := w.(round := w.round + 1);
      (w1, if st.Init? then [Value(w1.round, st.value)] else if st.InitNone? then [NoValue(w1.round)] else [])
  }

  /** Whether the process itself has something to do. */
  predicate CanAct(p: Proc, pipes: Pipes) {
    !p.done && match p.node
               case NumNode(_) => true
               case MinusNode(c) => p.taken < |c.out|
               case BinNode(_, l, r) => p.taken < |l.out| && p.taken < |r.out|
               case VarNode(v) => v.fd in pipes && p.taken < |pipes[v.fd]|
  }

  /** One turn of the process's loop; it ends after writing END. */
  function Act(p: Proc, rounds: nat, pipes: Pipes): Proc
    requires CanAct(p, pipes)
  {
    var (node, written) := match p.node
      case NumNode(v) => (p.node, ActNum(v, p.taken, rounds))
      case MinusNode(c) => (p.node, ActMinus(p.taken + 1, c.out[p.taken]))
      case BinNode(plus, l, r) => (p.node, ActBin(plus, p.taken + 1, l.out[p.taken], r.out[p.taken]))
      case VarNode(v) => var (w, o) := ActVar(v, pipes[v.fd][p.taken]); (VarNode(w), o);
    Proc(node, p.taken + 1, p.out + written, written == [End])
  }

  /** One process of the tree makes a step. */
  predicate Step(p: Proc, q: Proc, rounds: nat, pipes: Pipes) {
    (CanAct(p, pipes) && q == Act(p, rounds, pipes)) || match (p.node, q.node)
                                                        case (MinusNode(c), MinusNode(d)) => q == p.(node := MinusNode(d)) && Step(c, d, rounds, pipes)
                                                        case (BinNode(plus, l, r), BinNode(_, l', r')) =>
                                                          || (q == p.(node := BinNode(plus, l', r)) && Step(l, l', rounds, pipes))
                                                          || (q == p.(node := BinNode(plus, l, r')) && Step(r, r', rounds, pipes))
                                                        case _ => false
  }

  // ----- what the messages should be -----

  /** The equations, the initial values of all rounds and, for each round, a solution. */
  datatype Setup = Setup(eqs: System, inits: seq<map<nat, int>>, sols: seq<nat -> Option<int>>) {
    ghost predicate Valid() {
      |sols| == |inits| && forall i :: 0 <= i < |inits| ==> Solves(eqs, inits[i], sols[i])
    }

    function Rounds(): nat { |inits| }
  }

  function ToMsg(round: nat, v: Option<int>): Msg {
    if v.None? then NoValue(round) else Value(round, v.value)
  }

  /** The message of round `i` of an expression. */
  function Say(s: Setup, e: Expr, i: nat): (m: Msg)
    requires i < |s.sols|
    ensures m.Value? || m.NoValue?
  {
    ToMsg(i + 1, Eval(e, s.sols[i]))
  }

  function SayInit(s: Setup, x: nat, i: nat): Msg
    requires i < |s.inits|
  {
    if x in s.inits[i] then Init(i + 1, s.inits[i][x]) else InitNone(i + 1)
  }

  function Inits(h: seq<Msg>): seq<Msg> {
    if h == [] then []
    else Inits(h[..|h| - 1]) + if h[|h| - 1].Init? || h[|h| - 1].InitNone? then [h[|h| - 1]] else []
  }

  function Inters(h: seq<Msg>): seq<Msg> {
    if h == [] then []
    else Inters(h[..|h| - 1]) + if h[|h| - 1].Value? || h[|h| - 1].NoValue? then [h[|h| - 1]] else []
  }

  /** An expression without variables. */
  predicate Ground(e: Expr) {
    Vars(e) == []
  }

  /** The number of rounds that were written. */
  function Count(p: Proc): int {
    |p.out| - if p.done then 1 else 0
  }

  /** A prefix of the expected messages, followed by END only after the last round or when the program ends. */
  ghost predicate OutOk(s: Setup, e: Expr, p: Proc, ending: bool)
    requires s.Valid()
  {
    && 0 <= Count(p) <= s.Rounds()
    && (forall i :: 0 <= i < Count(p) ==> p.out[i] == Say(s, e, i))
    && (p.done ==> p.out[Count(p)] == End && (Count(p) == s.Rounds() || ending))
  }

  /** In each part of the history, the results are at most one ahead of the initial values. */
  ghost predicate Balanced(h: seq<Msg>) {
    forall k {:trigger h[..k]} :: 0 <= k <= |h| ==> |Inters(h[..k])| <= |Inits(h[..k])| + 1
  }

  /** What may have been written to a pipe of the variable `x`. */
  ghost predicate PipeOk(s: Setup, x: nat, h: seq<Msg>, ending: bool)
    requires s.Valid()
  {
    var (a, b) := (Inits(h), Inters(h));
    && |a| <= s.Rounds() && (forall i :: 0 <= i < |a| ==> a[i] == SayInit(s, x, i))
    && |b| <= s.Rounds() && (b != [] ==> x in s.eqs) && (forall i :: 0 <= i < |b| ==> b[i] == Say(s, s.eqs[x], i))
    && (End in h ==> ending)
    && (x in s.eqs && !Ground(s.eqs[x]) ==> Balanced(h))
  }

  /** What a variable process knows: the messages it has read, and how many rounds it has written. */
  ghost predicate VarOk(s: Setup, p: Proc, v: VarState, pipes: Pipes) {
    && v.fd in pipes && p.taken <= |pipes[v.fd]| && (v.isLeft <==> v.index in s.eqs)
    && Count(p) <= |Inits(pipes[v.fd])|
    && (!p.done ==> Reading(p, v, pipes[v.fd][..p.taken]))
  }

  ghost predicate Reading(p: Proc, v: VarState, h: seq<Msg>) {
    && End !in h && v.init == Inits(h) && v.inter == Inters(h) && v.round == |p.out|
    && |p.out| == if v.isLeft then Min(|v.init|, |v.inter|) else |h|
  }

  /** All processes of an expression are as they should be. */
  ghost predicate TreeOk(s: Setup, e: Expr, p: Proc, pipes: Pipes, ending: bool)
    requires s.Valid()
    decreases e
  {
    OutOk(s, e, p, ending) && match (e, p.node)
                              case (Num(v), NumNode(w)) => v == w && p.taken == |p.out|
                              case (Minus(c), MinusNode(d)) => TreeOk(s, c, d, pipes, ending) && p.taken == |p.out| && Count(p) <= Count(d)
                              case (Add(l, r), BinNode(plus, l', r')) =>
                                plus && p.taken == |p.out| && Count(p) <= Count(l') && Count(p) <= Count(r')
                                && TreeOk(s, l, l', pipes, ending) && TreeOk(s, r, r', pipes, ending)
                              case (Mul(l, r), BinNode(plus, l', r')) =>
                                !plus && p.taken == |p.out| && Count(p) <= Count(l') && Count(p) <= Count(r')
                                && TreeOk(s, l, l', pipes, ending) && TreeOk(s, r, r', pipes, ending)
                              case (Var(x, fd), VarNode(v)) => VarOk(s, p, v, pipes) && v.index == x && v.fd == fd
                              case _ => false
  }

  /** Every process of an expression has written a prefix of what its own part of the expression says. */
  ghost predicate AllOutOk(s: Setup, e: Expr, p: Proc, ending: bool)
    requires s.Valid()
    decreases e
  {
    OutOk(s, e, p, ending) && match (e, p.node)
                              case (Minus(c), MinusNode(d)) => AllOutOk(s, c, d, ending)
                              case (Add(l, r), BinNode(_, l', r')) => AllOutOk(s, l, l', ending) && AllOutOk(s, r, r', ending)
                              case (Mul(l, r), BinNode(_, l', r')) => AllOutOk(s, l, l', ending) && AllOutOk(s, r, r', ending)
                              case _ => true
  }

  lemma {:induction false} TreeWrites(s: Setup, e: Expr, p: Proc, pipes: Pipes, ending: bool)
    requires s.Valid() && TreeOk(s, e, p, pipes, ending)
    ensures AllOutOk(s, e, p, ending)
    decreases e
  {
    hide OutOk, VarOk;
    match (e, p.node)
    case (Minus(c), MinusNode(d)) => TreeWrites(s, c, d, pipes, ending);
    case (Add(l, r), BinNode(_, l', r')) => TreeWrites(s, l, l', pipes, ending); TreeWrites(s, r, r', pipes, ending);
    case (Mul(l, r), BinNode(_, l', r')) => TreeWrites(s, l, l', pipes, ending); TreeWrites(s, r, r', pipes, ending);
    case _ =>
  }

  // ----- every step keeps the processes as they should be -----

  /** Each variable's pipe belongs to that variable. */
  predicate Owns(e: Expr, owner: map<nat, nat>) {
    match e
    case Num(_) => true
    case Minus(c) => Owns(c, owner)
    case Add(l, r) => Owns(l, owner) && Owns(r, owner)
    case Mul(l, r) => Owns(l, owner) && Owns(r, owner)
    case Var(x, fd) => fd in owner && owner[fd] == x
  }

  ghost predicate PipesOk(s: Setup, owner: map<nat, nat>, pipes: Pipes, ending: bool)
    requires s.Valid()
  {
    pipes.Keys == owner.Keys && forall fd :: fd in owner ==> PipeOk(s, owner[fd], pipes[fd], ending)
  }

  ghost predicate Grown(pipes: Pipes, pipes': Pipes) {
    pipes.Keys == pipes'.Keys && forall fd :: fd in pipes ==> pipes[fd] <= pipes'[fd]
  }

  lemma {:induction false} Start(s: Setup, e: Expr, owner: map<nat, nat>, pipes: Pipes)
    requires s.Valid() && Owns(e, owner) && pipes.Keys == owner.Keys
    ensures TreeOk(s, e, Spawn(s.eqs, e), pipes, false)
  {
    match e
    case Num(_) =>
    case Minus(c) => Start(s, c, owner, pipes);
    case Add(l, r) => Start(s, l, owner, pipes); Start(s, r, owner, pipes);
    case Mul(l, r) => Start(s, l, owner, pipes); Start(s, r, owner, pipes);
    case Var(_, _) =>
  }

  lemma {:induction false} InitsGrow(h: seq<Msg>, h': seq<Msg>)
    requires h <= h'
    ensures |Inits(h)| <= |Inits(h')| && Inits(h) <= Inits(h') && Inters(h) <= Inters(h')
  {
    if |h| < |h'| {
      InitsGrow(h, h'[..|h'| - 1]);
    } else {
      assert h == h';
    }
  }

  /** More messages in the pipes disturb nothing. */
  lemma {:induction false} MoreInPipes(s: Setup, e: Expr, p: Proc, pipes: Pipes, pipes': Pipes, ending: bool, ending': bool)
    requires s.Valid() && TreeOk(s, e, p, pipes, ending) && Grown(pipes, pipes') && (ending ==> ending')
    ensures TreeOk(s, e, p, pipes', ending')
    decreases e
  {
    match (e, p.node)
    case (Num(_), NumNode(_)) =>
    case (Minus(c), MinusNode(d)) => MoreInPipes(s, c, d, pipes, pipes', ending, ending');
    case (Add(l, r), BinNode(_, l', r')) =>
      MoreInPipes(s, l, l', pipes, pipes', ending, ending');
      MoreInPipes(s, r, r', pipes, pipes', ending, ending');
    case (Mul(l, r), BinNode(_, l', r')) =>
      MoreInPipes(s, l, l', pipes, pipes', ending, ending');
      MoreInPipes(s, r, r', pipes, pipes', ending, ending');
    case (Var(x, fd), VarNode(v)) =>
      InitsGrow(pipes[fd], pipes'[fd]);
      assert pipes'[fd][..p.taken] == pipes[fd][..p.taken];
  }

  /** An expression with variables has not gone further than the initial values. */
  lemma {:induction false} NotAhead(s: Setup, e: Expr, p: Proc, pipes: Pipes, ending: bool, begun: nat)
    requires s.Valid() && TreeOk(s, e, p, pipes, ending) && !Ground(e)
    requires forall fd :: fd in pipes ==> |Inits(pipes[fd])| <= begun
    ensures Count(p) <= begun
    decreases e
  {
    match (e, p.node)
    case (Minus(c), MinusNode(d)) => NotAhead(s, c, d, pipes, ending, begun);
    case (Add(l, r), BinNode(_, l', r')) =>
      if Ground(l) { NotAhead(s, r, r', pipes, ending, begun); } else { NotAhead(s, l, l', pipes, ending, begun); }
    case (Mul(l, r), BinNode(_, l', r')) =>
      if Ground(l) { NotAhead(s, r, r', pipes, ending, begun); } else { NotAhead(s, l, l', pipes, ending, begun); }
    case (Var(x, fd), VarNode(v)) =>
    case _ =>
  }

  lemma {:induction false} GroundHasValue(e: Expr, env: nat -> Option<int>)
    requires Ground(e)
    ensures Eval(e, env).Some?
  {
    match e
    case Num(_) =>
    case Minus(c) => GroundHasValue(c, env);
    case Add(l, r) => GroundHasValue(l, env); GroundHasValue(r, env);
    case Mul(l, r) => GroundHasValue(l, env); GroundHasValue(r, env);
  }

  /** The history one message further. */
  lemma {:induction false} NextInHistory(h: seq<Msg>, k: nat)
    requires k < |h|
    ensures h[..k + 1] == h[..k] + [h[k]]
    ensures Inits(h[..k + 1]) == Inits(h[..k]) + if h[k].Init? || h[k].InitNone? then [h[k]] else []
    ensures Inters(h[..k + 1]) == Inters(h[..k]) + if h[k].Value? || h[k].NoValue? then [h[k]] else []
    ensures Inits(h[..k + 1]) <= Inits(h) && Inters(h[..k + 1]) <= Inters(h)
  {
    assert h[..k + 1][..k] == h[..k];
    InitsGrow(h[..k + 1], h);
  }

  /** What a variable says in a round: its initial value, or else what its equation says. */
  lemma {:induction false} SayVar(s: Setup, x: nat, fd: nat, i: nat)
    requires s.Valid() && i < s.Rounds()
    ensures Say(s, Var(x, fd), i) ==
      if x in s.inits[i] then Value(i + 1, s.inits[i][x]) else if x in s.eqs then Say(s, s.eqs[x], i) else NoValue(i + 1)
  {
  }

  /** The message completes at most one round, and that round is written. */
  lemma {:induction false} LeftWrites(s: Setup, x: nat, fd: nat, v: VarState, st: Msg)
    requires s.Valid() && v.isLeft && x in s.eqs && !st.End? && v.round == Min(|v.init|, |v.inter|)
    requires var w := ActVar(v, st).0;
      && |w.init| <= s.Rounds() && (forall i :: 0 <= i < |w.init| ==> w.init[i] == SayInit(s, x, i))
      && |w.inter| <= s.Rounds() && (forall i :: 0 <= i < |w.inter| ==> w.inter[i] == Say(s, s.eqs[x], i))
    requires Ground(s.eqs[x]) || |v.inter| <= |v.init| + 1
    ensures var (w, o) := ActVar(v, st);
      && v.round <= w.round == Min(|w.init|, |w.inter|) <= v.round + 1
      && o == if w.round > v.round then [Say(s, Var(x, fd), v.round)] else []
  {
    var r := v.round;
    if r < s.Rounds() {
      SayVar(s, x, fd, r);
      if Ground(s.eqs[x]) {
        GroundHasValue(s.eqs[x], s.sols[r]);
      }
    }
  }

  /** Writing the next expected message, or nothing. */
  lemma {:induction false} Wrote(s: Setup, e: Expr, p: Proc, q: Proc, ending: bool)
    requires s.Valid() && OutOk(s, e, p, ending) && !p.done && !q.done
    requires q.out == p.out || (|p.out| < s.Rounds() && q.out == p.out + [Say(s, e, |p.out|)])
    ensures OutOk(s, e, q, ending) && Count(q) == |q.out| && p.out <= q.out
  {
    hide Say;
  }

  /** A variable writes what its solution says: one round when both messages of the round are there. */
  lemma {:induction false} VarActs(s: Setup, p: Proc, x: nat, fd: nat, pipes: Pipes, ending: bool)
    requires s.Valid() && p.node.VarNode? && CanAct(p, pipes) && p.node.state.fd == fd && p.node.state.index == x
    requires OutOk(s, Var(x, fd), p, ending) && VarOk(s, p, p.node.state, pipes) && PipeOk(s, x, pipes[fd], ending)
    ensures var q := Act(p, s.Rounds(), pipes);
      q.node.VarNode? && q.node.state.fd == fd && q.node.state.index == x
      && OutOk(s, Var(x, fd), q, ending) && VarOk(s, q, q.node.state, pipes) && p.out <= q.out
  {
    var (h, k, v) := (pipes[fd], p.taken, p.node.state);
    if h[k].End? {
      hide Say, Inits, Inters, Balanced, Ground;
      EndKeeps(s, p, x, fd, pipes, ending);
    } else if v.isLeft {
      LeftActs(s, p, v, x, fd, pipes, ending);
    } else {
      OtherActs(s, p, v, x, fd, pipes, ending);
    }
  }

  /** What a variable with an equation knows and writes after one more message. */
  lemma {:induction false} LeftTurn(s: Setup, v: VarState, x: nat, fd: nat, h: seq<Msg>, k: nat, ending: bool)
    requires s.Valid() && PipeOk(s, x, h, ending) && k < |h| && h[k] != End && v.isLeft && x in s.eqs
    requires v.init == Inits(h[..k]) && v.inter == Inters(h[..k]) && v.round == Min(|v.init|, |v.inter|)
    ensures var (w, o) := ActVar(v, h[k]);
      && w.isLeft && w.fd == v.fd && w.index == v.index && w.init == Inits(h[..k + 1]) && w.inter == Inters(h[..k + 1])
      && |w.init| <= |Inits(h)| && v.round <= w.round == Min(|w.init|, |w.inter|) <= v.round + 1
      && (w.round > v.round ==> v.round < s.Rounds())
      && o == if w.round > v.round then [Say(s, Var(x, fd), v.round)] else []
  {
    hide Say, Inits, Inters, Balanced, Ground;
    NextInHistory(h, k);
    BalancedAt(s, x, h, k, ending);
    LeftWrites(s, x, fd, v, h[k]);
  }

  lemma {:induction false} LeftActs(s: Setup, p: Proc, v: VarState, x: nat, fd: nat, pipes: Pipes, ending: bool)
    requires s.Valid() && p.node == VarNode(v) && CanAct(p, pipes) && v.fd == fd && v.index == x
    requires OutOk(s, Var(x, fd), p, ending) && VarOk(s, p, v, pipes) && PipeOk(s, x, pipes[fd], ending)
    requires pipes[fd][p.taken] != End && v.isLeft
    ensures var q := Act(p, s.Rounds(), pipes);
      q.node.VarNode? && q.node.state.fd == fd && q.node.state.index == x
      && OutOk(s, Var(x, fd), q, ending) && VarOk(s, q, q.node.state, pipes) && p.out <= q.out
  {
    hide Say, Inits, Inters, PipeOk, OutOk, ActVar, Setup.Valid;
    var (h, k) := (pipes[fd], p.taken);
    NextInHistory(h, k);
    LeftTurn(s, v, x, fd, h, k, ending);
    var (w, o) := ActVar(v, h[k]);
    var q := Act(p, s.Rounds(), pipes);
    assert q == Proc(VarNode(w), k + 1, p.out + o, false);
    Wrote(s, Var(x, fd), p, q, ending);
  }

  lemma {:induction false} OtherActs(s: Setup, p: Proc, v: VarState, x: nat, fd: nat, pipes: Pipes, ending: bool)
    requires s.Valid() && p.node == VarNode(v) && CanAct(p, pipes) && v.fd == fd && v.index == x
    requires OutOk(s, Var(x, fd), p, ending) && VarOk(s, p, v, pipes) && PipeOk(s, x, pipes[fd], ending)
    requires pipes[fd][p.taken] != End && !v.isLeft
    ensures var q := Act(p, s.Rounds(), pipes);
      q.node.VarNode? && q.node.state.fd == fd && q.node.state.index == x
      && OutOk(s, Var(x, fd), q, ending) && VarOk(s, q, q.node.state, pipes) && p.out <= q.out
  {
    hide Say, Inits, Inters, Balanced, Ground, OutOk;
    var (h, k) := (pipes[fd], p.taken);
    NextInHistory(h, k);
    OtherWrites(s, x, fd, h, k, ending);
    var (w, o) := ActVar(v, h[k]);
    assert o == [Say(s, Var(x, fd), k)] && w.init == Inits(h[..k + 1]) && w.inter == Inters(h[..k + 1]);
    hide ActVar, PipeOk;
    Wrote(s, Var(x, fd), p, Act(p, s.Rounds(), pipes), ending);
  }

  lemma {:induction false} BalancedAt(s: Setup, x: nat, h: seq<Msg>, k: nat, ending: bool)
    requires s.Valid() && PipeOk(s, x, h, ending) && k <= |h| && x in s.eqs
    ensures Ground(s.eqs[x]) || |Inters(h[..k])| <= |Inits(h[..k])| + 1
  {
    assert Ground(s.eqs[x]) || Balanced(h);
  }

  lemma {:induction false} EndKeeps(s: Setup, p: Proc, x: nat, fd: nat, pipes: Pipes, ending: bool)
    requires s.Valid() && p.node.VarNode? && CanAct(p, pipes) && p.node.state.fd == fd
    requires OutOk(s, Var(x, fd), p, ending) && PipeOk(s, x, pipes[fd], ending) && pipes[fd][p.taken] == End
    ensures var q := Act(p, s.Rounds(), pipes);
      OutOk(s, Var(x, fd), q, ending) && q.done && Count(q) == Count(p) && p.out <= q.out
  {
    assert pipes[fd][p.taken] in pipes[fd];
  }

  /** A variable without an equation answers each initial value. */
  lemma {:induction false} OtherWrites(s: Setup, x: nat, fd: nat, h: seq<Msg>, k: nat, ending: bool)
    requires s.Valid() && PipeOk(s, x, h, ending) && x !in s.eqs && k < |h| && h[k] != End && End !in h[..k]
    ensures |Inits(h[..k + 1])| == k + 1 && k < s.Rounds() && h[k] == SayInit(s, x, k)
    ensures Say(s, Var(x, fd), k) == if h[k].Init? then Value(k + 1, h[k].value) else NoValue(k + 1)
  {
    NextInHistory(h, k);
    AllInits(h[..k + 1]);
    SayVar(s, x, fd, k);
  }

  lemma {:induction false} AllInits(h: seq<Msg>)
    requires Inters(h) == [] && End !in h
    ensures Inits(h) == h
  {
    if h != [] {
      assert h == h[..|h| - 1] + [h[|h| - 1]];
      AllInits(h[..|h| - 1]);
    }
  }

  /** A child's next message is the expected one, or END where it may be. */
  lemma {:induction false} ChildSays(s: Setup, e: Expr, p: Proc, k: nat, ending: bool)
    requires s.Valid() && OutOk(s, e, p, ending) && k < |p.out|
    ensures if p.out[k] == End then p.done && Count(p) == k && (k == s.Rounds() || ending)
            else k < Count(p) && k < s.Rounds() && p.out[k] == Say(s, e, k)
  {
    hide Say;
  }

  /** A process that reads the expected messages of its children writes its own, and passes END on. */
  lemma {:induction false} OwnAct(s: Setup, e: Expr, p: Proc, pipes: Pipes, ending: bool)
    requires s.Valid() && TreeOk(s, e, p, pipes, ending) && CanAct(p, pipes) && !e.Var?
    ensures var q := Act(p, s.Rounds(), pipes);
      TreeOk(s, e, q, pipes, ending) && p.out <= q.out && Count(p) <= Count(q)
  {
    hide PipeOk, VarOk, ActVar, Setup.Valid;
    match (e, p.node)
    case (Num(_), NumNode(_)) =>
    case (Minus(c), MinusNode(d)) => ChildSays(s, c, d, p.taken, ending);
    case (Add(l, r), BinNode(_, l', r')) => BinActs(s, e, l, r, p, pipes, ending);
    case (Mul(l, r), BinNode(_, l', r')) => BinActs(s, e, l, r, p, pipes, ending);
    case _ =>
  }

  lemma {:induction false} BinActs(s: Setup, e: Expr, l: Expr, r: Expr, p: Proc, pipes: Pipes, ending: bool)
    requires s.Valid() && TreeOk(s, e, p, pipes, ending) && CanAct(p, pipes) && (e == Add(l, r) || e == Mul(l, r))
    ensures var q := Act(p, s.Rounds(), pipes);
      TreeOk(s, e, q, pipes, ending) && p.out <= q.out && Count(p) <= Count(q)
  {
    hide PipeOk, VarOk, ActVar, Setup.Valid;
    ChildSays(s, l, p.node.left, p.taken, ending);
    ChildSays(s, r, p.node.right, p.taken, ending);
  }

  /** A step of any process keeps all processes of the expression as they should be. */
  lemma {:induction false} StepKeeps(s: Setup, e: Expr, p: Proc, q: Proc, owner: map<nat, nat>, pipes: Pipes, ending: bool)
    requires s.Valid() && TreeOk(s, e, p, pipes, ending) && Owns(e, owner) && PipesOk(s, owner, pipes, ending)
    requires Step(p, q, s.Rounds(), pipes)
    ensures TreeOk(s, e, q, pipes, ending) && p.out <= q.out && Count(p) <= Count(q)
    decreases e, 1
  {
    hide Say, PipeOk, VarOk, ActVar, ActNum, ActMinus, ActBin;
    if CanAct(p, pipes) && q == Act(p, s.Rounds(), pipes) {
      if e.Var? {
        VarActs(s, p, e.index, e.fd, pipes, ending);
      } else {
        OwnAct(s, e, p, pipes, ending);
      }
    } else {
      match (e, p.node)
      case (Minus(c), MinusNode(d)) => StepKeeps(s, c, d, q.node.child, owner, pipes, ending);
      case (Add(l, r), BinNode(_, l', r')) => BinStepKeeps(s, e, l, r, p, q, owner, pipes, ending);
      case (Mul(l, r), BinNode(_, l', r')) => BinStepKeeps(s, e, l, r, p, q, owner, pipes, ending);
      case _ =>
    }
  }

  lemma {:induction false} BinStepKeeps(s: Setup, e: Expr, l: Expr, r: Expr, p: Proc, q: Proc, owner: map<nat, nat>, pipes: Pipes, ending: bool)
    requires s.Valid() && Owns(l, owner) && Owns(r, owner) && PipesOk(s, owner, pipes, ending)
    requires (e == Add(l, r) || e == Mul(l, r)) && p.node.BinNode? && q.node.BinNode?
    requires TreeOk(s, l, p.node.left, pipes, ending) && TreeOk(s, r, p.node.right, pipes, ending)
    requires || (q == p.(node := BinNode(p.node.plus, q.node.left, p.node.right)) && Step(p.node.left, q.node.left, s.Rounds(), pipes))
             || (q == p.(node := BinNode(p.node.plus, p.node.left, q.node.right)) && Step(p.node.right, q.node.right, s.Rounds(), pipes))
    ensures TreeOk(s, l, q.node.left, pipes, ending) && TreeOk(s, r, q.node.right, pipes, ending)
    ensures Count(p.node.left) <= Count(q.node.left) && Count(p.node.right) <= Count(q.node.right)
    decreases e, 0
  {
    hide TreeOk, Step;
    if q == p.(node := BinNode(p.node.plus, q.node.left, p.node.right)) && Step(p.node.left, q.node.left, s.Rounds(), pipes) {
      StepKeeps(s, l, p.node.left, q.node.left, owner, pipes, ending);
    } else {
      StepKeeps(s, r, p.node.right, q.node.right, owner, pipes, ending);
    }
  }

  // ----- nothing waits for ever -----

  /** No process of the tree can make a step. */
  predicate Quiet(p: Proc, pipes: Pipes) {
    !CanAct(p, pipes) && match p.node
                         case MinusNode(c) => Quiet(c, pipes)
                         case BinNode(_, l, r) => Quiet(l, pipes) && Quiet(r, pipes)
                         case _ => true
  }

  lemma {:induction false} QuietOrStep(p: Proc, rounds: nat, pipes: Pipes) returns (q: Proc)
    ensures Quiet(p, pipes) || Step(p, q, rounds, pipes)
  {
    q := p;
    if CanAct(p, pipes) {
      q := Act(p, rounds, pipes);
    } else {
      match p.node
      case MinusNode(c) =>
        var d := QuietOrStep(c, rounds, pipes);
        q := p.(node := MinusNode(d));
      case BinNode(plus, l, r) =>
        if Quiet(l, pipes) {
          var r' := QuietOrStep(r, rounds, pipes);
          q := p.(node := BinNode(plus, l, r'));
        } else {
          var l' := QuietOrStep(l, rounds, pipes);
          q := p.(node := BinNode(plus, l', r));
        }
      case _ =>
    }
  }

  /** The pipes of the expression's variables hold what is needed for `n` rounds. */
  predicate Fed(eqs: System, e: Expr, pipes: Pipes, n: nat) {
    match e
    case Num(_) => true
    case Minus(c) => Fed(eqs, c, pipes, n)
    case Add(l, r) => Fed(eqs, l, pipes, n) && Fed(eqs, r, pipes, n)
    case Mul(l, r) => Fed(eqs, l, pipes, n) && Fed(eqs, r, pipes, n)
    case Var(x, fd) => fd in pipes && |Inits(pipes[fd])| >= n && (x in eqs ==> |Inters(pipes[fd])| >= n)
  }

  /** When all processes of an expression wait, they have written all rounds they were fed. */
  lemma {:induction false} QuietHasWritten(s: Setup, e: Expr, p: Proc, pipes: Pipes, n: nat)
    requires s.Valid() && TreeOk(s, e, p, pipes, false) && Quiet(p, pipes) && n <= s.Rounds() && Fed(s.eqs, e, pipes, n)
    ensures Count(p) >= n
    decreases e
  {
    match (e, p.node)
    case (Num(_), NumNode(_)) =>
    case (Minus(c), MinusNode(d)) => QuietHasWritten(s, c, d, pipes, n);
    case (Add(l, r), BinNode(_, l', r')) => QuietHasWritten(s, l, l', pipes, n); QuietHasWritten(s, r, r', pipes, n);
    case (Mul(l, r), BinNode(_, l', r')) => QuietHasWritten(s, l, l', pipes, n); QuietHasWritten(s, r, r', pipes, n);
    case (Var(x, fd), VarNode(v)) =>
      if !p.done {
        assert pipes[fd][..p.taken] == pipes[fd];
        NotLonger(pipes[fd]);
      }
  }

  lemma {:induction false} NotLonger(h: seq<Msg>)
    ensures |Inits(h)| <= |h|
  {
    if h != [] { NotLonger(h[..|h| - 1]); }
  }
}
