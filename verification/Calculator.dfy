/** A calculator that reads an expression from left to right with one stack, and multiplies and adds late. */
module Calculator {
  import opened Basics

  const SLOTS: nat := 32

  datatype Token = Start | Num | LeftParen | Plus | Times

  /** The two arrays of the stack and the index of its top. */
  datatype State = State(token: seq<Token>, value: seq<int>, sp: nat) {
    predicate Valid() {
      |token| == |value| == SLOTS && sp < SLOTS && token[0] == Start
    }

    function Top(): Token
      requires Valid()
    {
      token[sp]
    }
  }

  /** `Undefined` is an access outside of the arrays. */
  datatype Outcome = Going(st: State) | Printed(value: int) | Wtf | Exited | Undefined

  // ----- one character at a time -----

  function Push(st: State, t: Token): Outcome
    requires st.Valid()
  {
    if st.sp + 1 < SLOTS then Going(State(st.token[st.sp + 1 := t], st.value, st.sp + 1)) else Undefined
  }

  predicate IsDigit(c: char) {
    '0' <= c <= '9'
  }

  function PushDigit(st: State, c: char): Outcome
    requires st.Valid() && IsDigit(c)
  {
    var d := c as int - '0' as int;
    if st.Top() == Num then Going(st.(value := st.value[st.sp := st.value[st.sp] * 10 + d]))
    else if st.sp + 1 < SLOTS then Going(State(st.token[st.sp + 1 := Num], st.value[st.sp + 1 := d], st.sp + 1))
    else Undefined
  }

  /** A number on top with the sign `op` below it. */
  predicate Reducible(st: State, op: Token)
    requires st.Valid()
  {
    st.sp >= 2 && st.Top() == Num && st.token[st.sp - 1] == op
  }

  function Apply(op: Token, a: int, b: int): int {
    if op == Times then a * b else a + b
  }

  /** Performs all pending operations of one kind, the last one first. */
  function Reduce(st: State, op: Token): (r: State)
    requires st.Valid() && op != Start
    ensures r.Valid() && r.token == st.token && !Reducible(r, op)
    decreases st.sp
  {
    if Reducible(st, op) then
      Reduce(State(st.token, st.value[st.sp - 2 := Apply(op, st.value[st.sp - 2], st.value[st.sp])], st.sp - 2), op)
    else st
  }

  function Step(st: State, c: char): (r: Outcome)
    requires st.Valid()
    ensures r.Going? ==> r.st.Valid()
  {
    if c == ' ' then Going(st)
    else if c == '(' then Push(st, LeftParen)
    else if IsDigit(c) then PushDigit(st, c)
    else if c == '*' then Push(st, Times)
    else
      var s1 := Reduce(st, Times);
      if c == '+' then Push(s1, Plus)
      else
        Closing(Reduce(s1, Plus), c)
  }

  function Feed(st: State, s: string): (r: Outcome)
    requires st.Valid()
    ensures r.Going? ==> r.st.Valid()
    decreases |s|
  {
    if s == "" then Going(st)
    else
      var r := Step(st, s[0]);
      if r.Going? then Feed(r.st, s[1..]) else r
  }

  function Initial(): (st: State)
    ensures st.Valid()
  {
    State(seq(SLOTS, _ => Start), seq(SLOTS, _ => 0), 0)
  }

  // ----- the program -----

  /** Reads characters up to the end of a line or of the input. */
  method DoIt(input: string) returns (r: Outcome)
    ensures r == if Feed(Initial(), input).Going? then Exited else Feed(Initial(), input)
  {
    var token := new Token[SLOTS](_ => Start);
    var value := new int[SLOTS](_ => 0);
    var sp := 0;
    assert token[..] == Initial().token && value[..] == Initial().value;
    hide Step, Initial, State.Valid;
    for i := 0 to |input|
      invariant fresh(token) && fresh(value) && State(token[..], value[..], sp).Valid()
      invariant Feed(Initial(), input) == Feed(State(token[..], value[..], sp), input[i..])
    {
      assert input[i..][0] == input[i] && input[i..][1..] == input[i + 1..];
      var more;
      more, sp, r := Character(token, value, sp, input[i]);
      if !more {
        return;
      }
    }
    r := Exited;
  }

  /** What is done with one character; `more` says that the loop goes on. */
  method Character(token: array<Token>, value: array<int>, top: nat, c: char) returns (more: bool, sp: nat, r: Outcome)
    requires State(token[..], value[..], top).Valid()
    modifies token, value
    ensures Step(old(State(token[..], value[..], top)), c) == if more then Going(State(token[..], value[..], sp)) else r
    ensures !more ==> !r.Going?
  {
    more, sp, r := true, top, Wtf;
    if c == ' ' {
    } else if c == '(' {
      more, sp := PushToken(token, value, sp, LeftParen);
      r := Undefined;
    } else if IsDigit(c) {
      if token[sp] != Num {
        if sp + 1 >= SLOTS { return false, sp, Undefined; }
        sp := sp + 1;
        token[sp] := Num;
        value[sp] := 0;
      }
      value[sp] := value[sp] * 10;
      value[sp] := value[sp] + (c as int - '0' as int);
    } else if c == '*' {
      more, sp := PushToken(token, value, sp, Times);
      r := Undefined;
    } else {
      sp := Pending(token, value, sp, Times);
      if c == '+' {
        more, sp := PushToken(token, value, sp, Plus);
        r := Undefined;
      } else {
        sp := Pending(token, value, sp, Plus);
        more, sp, r := Close(token, value, sp, c);
      }
    }
  }

  method PushToken(token: array<Token>, value: array<int>, top: nat, t: Token) returns (ok: bool, sp: nat)
    requires State(token[..], value[..], top).Valid()
    modifies token
    ensures Push(old(State(token[..], value[..], top)), t) == if ok then Going(State(token[..], value[..], sp)) else Undefined
  {
    ok, sp := top + 1 < SLOTS, top;
    if ok {
      sp := sp + 1;
      token[sp] := t;
    }
  }

  /** A character that ends an expression. */
  function Closing(st: State, c: char): (r: Outcome)
    requires st.Valid()
    ensures r.Going? ==> r.st.Valid()
  {
    if c == ')' then
      if st.sp == 0 then Undefined
      else if st.token[st.sp - 1] != LeftParen then Wtf
      else Going(State(st.token[st.sp - 1 := Num], st.value[st.sp - 1 := st.value[st.sp]], st.sp - 1))
    else if c == '\n' then
      if st.sp == 0 then Undefined else if st.token[st.sp - 1] != Start then Wtf else Printed(st.value[st.sp])
    else Wtf
  }

  method Close(token: array<Token>, value: array<int>, top: nat, c: char) returns (more: bool, sp: nat, r: Outcome)
    requires State(token[..], value[..], top).Valid()
    modifies token, value
    ensures Closing(old(State(token[..], value[..], top)), c) == if more then Going(State(token[..], value[..], sp)) else r
    ensures !more ==> !r.Going?
  {
    more, sp, r := false, top, Wtf;
    if c == ')' || c == '\n' {
      if sp == 0 {
        r := Undefined;
      } else if c == ')' && token[sp - 1] == LeftParen {
        value[sp - 1] := value[sp];
        sp := sp - 1;
        token[sp] := Num;
        more := true;
      } else if c == '\n' && token[sp - 1] == Start {
        r := Printed(value[sp]);
      }
    }
  }

  /** The loop over the pending operations of one kind. */
  method Pending(token: array<Token>, value: array<int>, top: nat, op: Token) returns (sp: nat)
    requires State(token[..], value[..], top).Valid() && op != Start
    modifies value
    ensures State(token[..], value[..], sp) == Reduce(State(token[..], old(value[..]), top), op)
  {
    sp := top;
    while sp > 0 && token[sp] == Num && token[sp - 1] == op
      invariant State(token[..], value[..], sp).Valid()
      invariant Reduce(State(token[..], value[..], sp), op) == Reduce(State(token[..], old(value[..]), top), op)
      decreases sp
    {
      ghost var st := State(token[..], value[..], sp);
      value[sp - 2] := Apply(op, value[sp - 2], value[sp]);
      sp := sp - 2;
    }
  }

  // ----- expressions -----

  datatype Factor = Number(digits: string) | Paren(inner: Sum)

  datatype Product = One(factor: Factor) | Mul(front: Product, factor: Factor)

  datatype Sum = Single(product: Product) | Add(front: Sum, product: Product)

  function DecimalFrom(n: int, digits: string): int
    requires forall i :: 0 <= i < |digits| ==> IsDigit(digits[i])
    decreases |digits|
  {
    if digits == "" then n else DecimalFrom(n * 10 + (digits[0] as int - '0' as int), digits[1..])
  }

  predicate FactorOk(f: Factor) {
    match f
    case Number(digits) => digits != "" && forall i :: 0 <= i < |digits| ==> IsDigit(digits[i])
    case Paren(s) => SumOk(s)
  }

  predicate ProductOk(p: Product) {
    FactorOk(p.factor) && (p.Mul? ==> ProductOk(p.front))
  }

  predicate SumOk(s: Sum) {
    ProductOk(s.product) && (s.Add? ==> SumOk(s.front))
  }

  function FactorText(f: Factor): string {
    match f
    case Number(digits) => digits
    case Paren(s) => "(" + SumText(s) + ")"
  }

  function ProductText(p: Product): string {
    if p.One? then FactorText(p.factor) else ProductText(p.front) + "*" + FactorText(p.factor)
  }

  function SumText(s: Sum): string {
    if s.Single? then ProductText(s.product) else SumText(s.front) + "+" + ProductText(s.product)
  }

  /** The usual meaning: multiplication binds more strongly, and both associate to the left. */
  function FactorValue(f: Factor): int
    requires FactorOk(f)
  {
    match f
    case Number(digits) => DecimalFrom(0, digits)
    case Paren(s) => SumValue(s)
  }

  function ProductValue(p: Product): int
    requires ProductOk(p)
  {
    if p.One? then FactorValue(p.factor) else ProductValue(p.front) * FactorValue(p.factor)
  }

  function SumValue(s: Sum): int
    requires SumOk(s)
  {
    if s.Single? then ProductValue(s.product) else SumValue(s.front) + ProductValue(s.product)
  }

  // ----- how much of the stack an expression needs -----

  function Width(p: Product): nat {
    if p.One? then 1 else Width(p.front) + 2
  }

  function Summands(s: Sum): nat {
    if s.Single? then 1 else Summands(s.front) + 1
  }

  function FactorNeed(f: Factor): nat {
    match f
    case Number(_) => 1
    case Paren(s) => 1 + SumNeed(s)
  }

  function ProductNeed(p: Product): nat {
    if p.One? then FactorNeed(p.factor) else Max(ProductNeed(p.front), Width(p.front) + 1 + FactorNeed(p.factor))
  }

  function SumNeed(s: Sum): nat {
    if s.Single? then ProductNeed(s.product) else Max(SumNeed(s.front), 2 * Summands(s.front) + ProductNeed(s.product))
  }

  // ----- what is on the stack -----

  /** Nothing up to `k` has changed. */
  predicate Same(a: State, b: State, k: nat)
    requires a.Valid() && b.Valid()
  {
    k < SLOTS && forall i :: 0 <= i <= k ==> a.token[i] == b.token[i] && a.value[i] == b.value[i]
  }

  /** Above `base` there are numbers with multiplication signs between them. */
  predicate FactorsOn(st: State, base: nat)
    requires st.Valid()
    decreases st.sp
  {
    base < st.sp && st.Top() == Num
    && (st.sp == base + 1 || (st.sp >= base + 3 && st.token[st.sp - 1] == Times && FactorsOn(st.(sp := st.sp - 2), base)))
  }

  function FactorsValue(st: State, base: nat): int
    requires st.Valid() && FactorsOn(st, base)
    decreases st.sp
  {
    if st.sp == base + 1 then st.value[st.sp] else FactorsValue(st.(sp := st.sp - 2), base) * st.value[st.sp]
  }

  /** Between `base` and `b` there are numbers, each with a plus sign after it. */
  predicate SummandsOn(st: State, base: nat, b: nat)
    requires st.Valid()
    decreases b
  {
    base <= b < SLOTS
    && (b == base || (b >= base + 2 && st.token[b] == Plus && st.token[b - 1] == Num && SummandsOn(st, base, b - 2)))
  }

  function SummandsValue(st: State, base: nat, b: nat): int
    requires st.Valid() && SummandsOn(st, base, b)
    decreases b
  {
    if b == base then 0 else SummandsValue(st, base, b - 2) + st.value[b - 1]
  }

  lemma {:induction false} FactorsKept(a: State, b: State, base: nat)
    requires a.Valid() && b.Valid() && a.sp == b.sp && Same(a, b, a.sp) && FactorsOn(a, base)
    ensures FactorsOn(b, base) && FactorsValue(b, base) == FactorsValue(a, base)
    decreases a.sp
  {
    if a.sp > base + 1 {
      FactorsKept(a.(sp := a.sp - 2), b.(sp := a.sp - 2), base);
    }
  }

  lemma {:induction false} SummandsKept(x: State, y: State, base: nat, b: nat)
    requires x.Valid() && y.Valid() && b < SLOTS && Same(x, y, b) && SummandsOn(x, base, b)
    ensures SummandsOn(y, base, b) && SummandsValue(y, base, b) == SummandsValue(x, base, b)
    decreases b
  {
    if b > base {
      SummandsKept(x, y, base, b - 2);
    }
  }

  /** The last two factors multiplied. */
  function LastProduct(st: State): (r: State)
    requires st.Valid() && st.sp >= 2
    ensures r.Valid()
  {
    State(st.token, st.value[st.sp - 2 := st.value[st.sp - 2] * st.value[st.sp]], st.sp - 2)
  }

  lemma {:induction false} OneProduct(st: State, base: nat)
    requires st.Valid() && FactorsOn(st, base) && st.sp > base + 1
    ensures var next := LastProduct(st);
      FactorsOn(next, base) && FactorsValue(next, base) == FactorsValue(st, base) && Same(st, next, base)
      && Reduce(st, Times) == Reduce(next, Times)
  {
    var (a, b, next) := (st.value[st.sp - 2], st.value[st.sp], LastProduct(st));
    if st.sp > base + 3 {
      var deep := st.(sp := st.sp - 4);
      FactorsKept(deep, next.(sp := st.sp - 4), base);
      Associate(FactorsValue(deep, base), a, b);
    }
  }

  lemma Associate(x: int, a: int, b: int)
    ensures x * (a * b) == x * a * b
  {
  }

  /** Multiplying from the right gives the same product. */
  lemma {:induction false} ReduceFactors(st: State, base: nat)
    requires st.Valid() && FactorsOn(st, base) && st.token[base] != Times
    ensures var r := Reduce(st, Times);
      r.sp == base + 1 && r.Top() == Num && r.value[base + 1] == FactorsValue(st, base) && Same(st, r, base)
    decreases st.sp
  {
    if st.sp > base + 1 {
      OneProduct(st, base);
      ReduceFactors(LastProduct(st), base);
    }
  }

  /** Adding from the right gives the same sum. */
  lemma {:induction false} ReduceSummands(st: State, base: nat, b: nat)
    requires st.Valid() && SummandsOn(st, base, b) && st.sp == b + 1 && st.Top() == Num && st.token[base] != Plus
    ensures var r := Reduce(st, Plus);
      r.sp == base + 1 && r.Top() == Num && r.value[base + 1] == SummandsValue(st, base, b) + st.value[b + 1] && Same(st, r, base)
    decreases b
  {
    if b > base {
      var next := State(st.token, st.value[b - 1 := st.value[b - 1] + st.value[b + 1]], b - 1);
      SummandsKept(st, next, base, b - 2);
      assert Reduce(st, Plus) == Reduce(next, Plus);
      ReduceSummands(next, base, b - 2);
    }
  }

  // ----- reading an expression -----

  lemma {:induction false} FeedAppend(st: State, a: string, b: string)
    requires st.Valid()
    ensures Feed(st, a + b) == if Feed(st, a).Going? then Feed(Feed(st, a).st, b) else Feed(st, a)
    decreases |a|
  {
    hide Step;
    if a == "" {
      assert a + b == b;
    } else {
      var r := Step(st, a[0]);
      assert (a + b)[0] == a[0] && (a + b)[1..] == a[1..] + b;
      if r.Going? {
        FeedAppend(r.st, a[1..], b);
      }
    }
  }

  lemma FeedOne(st: State, c: char)
    requires st.Valid()
    ensures Feed(st, [c]) == Step(st, c)
  {
    hide Step;
    var r := Step(st, c);
    assert [c][1..] == "";
    assert r.Going? ==> Feed(r.st, "") == r;
  }

  /** One more number is on the stack. */
  predicate Pushed(st: State, r: Outcome, v: int)
    requires st.Valid()
  {
    r.Going? && r.st.Valid() && r.st.sp == st.sp + 1 && r.st.Top() == Num && r.st.value[r.st.sp] == v && Same(st, r.st, st.sp)
  }

  lemma {:induction false} ReadDigits(st: State, digits: string, n: int)
    requires st.Valid() && st.Top() == Num && st.value[st.sp] == n && forall i :: 0 <= i < |digits| ==> IsDigit(digits[i])
    ensures Feed(st, digits) == Going(st.(value := st.value[st.sp := DecimalFrom(n, digits)]))
    decreases |digits|
  {
    if digits != "" {
      var d := digits[0] as int - '0' as int;
      var next := st.(value := st.value[st.sp := n * 10 + d]);
      assert Step(st, digits[0]) == Going(next);
      ReadDigits(next, digits[1..], n * 10 + d);
      assert next.value[st.sp := DecimalFrom(n, digits)] == st.value[st.sp := DecimalFrom(n, digits)];
    } else {
      assert st.value[st.sp := n] == st.value;
    }
  }

  lemma {:induction false} ReadNumber(st: State, digits: string)
    requires st.Valid() && st.Top() != Num && st.sp + 1 < SLOTS && digits != "" && forall i :: 0 <= i < |digits| ==> IsDigit(digits[i])
    ensures Pushed(st, Feed(st, digits), DecimalFrom(0, digits))
  {
    var d := digits[0] as int - '0' as int;
    var next := State(st.token[st.sp + 1 := Num], st.value[st.sp + 1 := d], st.sp + 1);
    assert Step(st, digits[0]) == Going(next);
    ReadDigits(next, digits[1..], d);
  }

  lemma {:induction false} ReadFactor(st: State, f: Factor)
    requires st.Valid() && FactorOk(f) && st.Top() != Num && st.sp + FactorNeed(f) < SLOTS
    ensures Pushed(st, Feed(st, FactorText(f)), FactorValue(f))
    decreases f
  {
    match f
    case Number(digits) => ReadNumber(st, digits);
    case Paren(s) =>
      var open := State(st.token[st.sp + 1 := LeftParen], st.value, st.sp + 1);
      assert Step(st, '(') == Going(open);
      FeedOne(st, '(');
      FeedAppend(st, "(" + SumText(s), ")");
      FeedAppend(st, "(", SumText(s));
      var b := ReadSum(open, s);
      var inner := Feed(open, SumText(s)).st;
      FeedOne(inner, ')');
      CloseSum(st, open, inner, b, s);
  }

  /** The factors of a product are on the stack. */
  predicate ProductRead(st: State, r: Outcome, p: Product)
    requires st.Valid() && ProductOk(p)
  {
    && r.Going? && r.st.Valid() && r.st.sp == st.sp + Width(p) && Same(st, r.st, st.sp)
    && FactorsOn(r.st, st.sp) && FactorsValue(r.st, st.sp) == ProductValue(p)
  }

  lemma {:induction false} ReadProduct(st: State, p: Product)
    requires st.Valid() && ProductOk(p) && st.Top() != Num && st.sp + ProductNeed(p) < SLOTS
    ensures ProductRead(st, Feed(st, ProductText(p)), p)
    decreases p
  {
    if p.One? {
      ReadFactor(st, p.factor);
    } else {
      var (front, f) := (ProductText(p.front), FactorText(p.factor));
      ReadProduct(st, p.front);
      FeedAppend(st, front + "*", f);
      FeedAppend(st, front, "*");
      var a := Feed(st, front).st;
      FeedOne(a, '*');
      NeedsRoom(p.factor);
      var times := State(a.token[a.sp + 1 := Times], a.value, a.sp + 1);
      assert Step(a, '*') == Going(times);
      ReadFactor(times, p.factor);
      OneMoreFactor(st, a, times, Feed(times, f).st, p);
    }
  }

  lemma NeedsRoom(f: Factor)
    ensures FactorNeed(f) >= 1
  {
  }

  lemma {:induction false} OneMoreFactor(st: State, a: State, times: State, b: State, p: Product)
    requires st.Valid() && p.Mul? && ProductOk(p) && ProductRead(st, Going(a), p.front) && a.sp + 1 < SLOTS
    requires times == State(a.token[a.sp + 1 := Times], a.value, a.sp + 1) && Pushed(times, Going(b), FactorValue(p.factor))
    ensures ProductRead(st, Going(b), p)
  {
    assert b.token[times.sp] == Times;
    FactorsKept(a, b.(sp := a.sp), st.sp);
  }

  /** The summands of a sum are on the stack, the last one as factors above `b`. */
  predicate SumRead(st: State, r: Outcome, s: Sum, b: nat)
    requires st.Valid() && SumOk(s)
  {
    && r.Going? && r.st.Valid() && b == st.sp + 2 * (Summands(s) - 1) && b < r.st.sp && Same(st, r.st, st.sp)
    && SummandsOn(r.st, st.sp, b) && FactorsOn(r.st, b)
    && SummandsValue(r.st, st.sp, b) + FactorsValue(r.st, b) == SumValue(s)
  }

  lemma {:induction false} ReadSum(st: State, s: Sum) returns (b: nat)
    requires st.Valid() && SumOk(s) && (st.Top() == Start || st.Top() == LeftParen) && st.sp + SumNeed(s) < SLOTS
    ensures SumRead(st, Feed(st, SumText(s)), s, b)
    decreases s
  {
    if s.Single? {
      ReadProduct(st, s.product);
      b := st.sp;
    } else {
      var (front, p) := (SumText(s.front), ProductText(s.product));
      var c := ReadSum(st, s.front);
      FeedAppend(st, front + "+", p);
      FeedAppend(st, front, "+");
      var a := Feed(st, front).st;
      FeedOne(a, '+');
      b := c + 2;
      ProductNeeds(s.product);
      var plus := PlusSign(st, a, c, s.front);
      ReadProduct(plus, s.product);
      OneMoreSummand(st, plus, Feed(plus, p).st, b, s);
    }
  }

  lemma {:induction false} ProductNeeds(p: Product)
    ensures ProductNeed(p) >= 1
  {
    if p.Mul? { ProductNeeds(p.front); }
  }

  /** A plus sign multiplies the last summand out. */
  lemma {:induction false} PlusSign(st: State, a: State, c: nat, s: Sum) returns (plus: State)
    requires st.Valid() && SumOk(s) && SumRead(st, Going(a), s, c) && c + 2 < SLOTS && (st.Top() == Start || st.Top() == LeftParen)
    ensures Step(a, '+') == Going(plus) && plus.Valid() && plus.sp == c + 2 && plus.Top() == Plus && Same(st, plus, st.sp)
    ensures SummandsOn(plus, st.sp, c + 2) && SummandsValue(plus, st.sp, c + 2) == SumValue(s)
  {
    BaseIsNoTimes(st, a, c);
    ReduceFactors(a, c);
    var r := Reduce(a, Times);
    plus := State(r.token[c + 2 := Plus], r.value, c + 2);
    SummandsKept(a, plus, st.sp, c);
  }

  lemma BaseIsNoTimes(st: State, a: State, c: nat)
    requires st.Valid() && a.Valid() && Same(st, a, st.sp) && SummandsOn(a, st.sp, c) && (st.Top() == Start || st.Top() == LeftParen)
    ensures a.token[c] != Times && a.token[st.sp] == st.Top()
  {
  }

  lemma {:induction false} OneMoreSummand(st: State, plus: State, z: State, b: nat, s: Sum)
    requires st.Valid() && plus.Valid() && s.Add? && SumOk(s) && b == plus.sp == st.sp + 2 * Summands(s.front) && Same(st, plus, st.sp)
    requires SummandsOn(plus, st.sp, b) && SummandsValue(plus, st.sp, b) == SumValue(s.front) && ProductRead(plus, Going(z), s.product)
    ensures SumRead(st, Going(z), s, b)
  {
    SummandsKept(plus, z, st.sp, b);
  }

  /** At the end of a sum everything is added up. */
  lemma {:induction false} CloseSum(st: State, open: State, inner: State, b: nat, s: Sum)
    requires st.Valid() && st.sp + 1 < SLOTS && SumOk(s) && open == State(st.token[st.sp + 1 := LeftParen], st.value, st.sp + 1)
    requires SumRead(open, Going(inner), s, b)
    ensures Pushed(st, Step(inner, ')'), SumValue(s))
  {
    var r := AddedUp(open, inner, b, s);
    assert r.token[r.sp - 1] == LeftParen;
  }

  lemma {:induction false} AddedUp(st: State, inner: State, b: nat, s: Sum) returns (r: State)
    requires st.Valid() && SumOk(s) && SumRead(st, Going(inner), s, b) && (st.Top() == Start || st.Top() == LeftParen)
    ensures r.Valid() && r == Reduce(Reduce(inner, Times), Plus) && r.sp == st.sp + 1 && r.Top() == Num
    ensures r.value[r.sp] == SumValue(s) && Same(st, r, st.sp)
  {
    BaseIsNoTimes(st, inner, b);
    ReduceFactors(inner, b);
    var m := Reduce(inner, Times);
    SummandsKept(inner, m, st.sp, b);
    ReduceSummands(m, st.sp, b);
    r := Reduce(m, Plus);
  }

  // ----- expressions that do not fit -----

  lemma {:induction false} FactorTooDeep(st: State, f: Factor)
    requires st.Valid() && FactorOk(f) && st.Top() != Num && st.sp + FactorNeed(f) >= SLOTS
    ensures Feed(st, FactorText(f)) == Undefined
    decreases f
  {
    match f
    case Number(digits) => assert Step(st, digits[0]) == Undefined;
    case Paren(s) =>
      FeedOne(st, '(');
      FeedAppend(st, "(" + SumText(s), ")");
      FeedAppend(st, "(", SumText(s));
      if st.sp + 1 < SLOTS {
        SumTooDeep(State(st.token[st.sp + 1 := LeftParen], st.value, st.sp + 1), s);
      }
  }

  lemma {:induction false} ProductTooDeep(st: State, p: Product)
    requires st.Valid() && ProductOk(p) && st.Top() != Num && st.sp + ProductNeed(p) >= SLOTS
    ensures Feed(st, ProductText(p)) == Undefined
    decreases p
  {
    if p.One? {
      FactorTooDeep(st, p.factor);
    } else {
      var (front, f) := (ProductText(p.front), FactorText(p.factor));
      FeedAppend(st, front + "*", f);
      FeedAppend(st, front, "*");
      if st.sp + ProductNeed(p.front) >= SLOTS {
        ProductTooDeep(st, p.front);
      } else {
        ReadProduct(st, p.front);
        var a := Feed(st, front).st;
        FeedOne(a, '*');
        if a.sp + 1 < SLOTS {
          FactorTooDeep(State(a.token[a.sp + 1 := Times], a.value, a.sp + 1), p.factor);
        }
      }
    }
  }

  lemma {:induction false} SumTooDeep(st: State, s: Sum)
    requires st.Valid() && SumOk(s) && (st.Top() == Start || st.Top() == LeftParen) && st.sp + SumNeed(s) >= SLOTS
    ensures Feed(st, SumText(s)) == Undefined
    decreases s
  {
    if s.Single? {
      ProductTooDeep(st, s.product);
    } else {
      var (front, p) := (SumText(s.front), ProductText(s.product));
      FeedAppend(st, front + "+", p);
      FeedAppend(st, front, "+");
      if st.sp + SumNeed(s.front) >= SLOTS {
        SumTooDeep(st, s.front);
      } else {
        var c := ReadSum(st, s.front);
        var a := Feed(st, front).st;
        FeedOne(a, '+');
        if c + 2 < SLOTS {
          var plus := PlusSign(st, a, c, s.front);
          ProductTooDeep(plus, s.product);
        } else {
          BaseIsNoTimes(st, a, c);
          ReduceFactors(a, c);
        }
      }
    }
  }

  // ----- the whole line -----

  function WithoutSpaces(s: string): string {
    if s == "" then "" else (if s[0] == ' ' then "" else [s[0]]) + WithoutSpaces(s[1..])
  }

  lemma {:induction false} SpacesDoNotMatter(st: State, s: string)
    requires st.Valid()
    ensures Feed(st, s) == Feed(st, WithoutSpaces(s))
    decreases |s|
  {
    if s != "" {
      var (rest, r) := (WithoutSpaces(s[1..]), Step(st, s[0]));
      if r.Going? {
        SpacesDoNotMatter(r.st, s[1..]);
      }
      assert s[0] != ' ' ==> ([s[0]] + rest)[1..] == rest;
      assert s[0] == ' ' ==> WithoutSpaces(s) == rest;
    }
  }

  /** A line with a well-formed expression prints its value exactly when its tokens fit on the stack. */
  lemma {:induction false} LineIsEvaluated(input: string, s: Sum)
    requires SumOk(s) && WithoutSpaces(input) == SumText(s) + "\n"
    ensures Feed(Initial(), input) == if SumNeed(s) < SLOTS then Printed(SumValue(s)) else Undefined
  {
    var st := Initial();
    SpacesDoNotMatter(st, input);
    FeedAppend(st, SumText(s), "\n");
    if SumNeed(s) < SLOTS {
      var b := ReadSum(st, s);
      var inner := Feed(st, SumText(s)).st;
      FeedOne(inner, '\n');
      var r := AddedUp(st, inner, b, s);
      assert r.token[0] == Start;
    } else {
      SumTooDeep(st, s);
    }
  }

  // ----- a concrete expression that does not fit -----

  /** A digit in `k` pairs of parentheses. */
  function Nested(k: nat): Sum {
    Single(One(if k == 0 then Number("7") else Paren(Nested(k - 1))))
  }

  function NestedText(k: nat): string {
    if k == 0 then "7" else "(" + NestedText(k - 1) + ")"
  }

  /** An expression of one factor. */
  lemma OneFactor(f: Factor)
    requires FactorOk(f)
    ensures var s := Single(One(f));
      SumOk(s) && SumText(s) == FactorText(f) && SumValue(s) == FactorValue(f) && SumNeed(s) == FactorNeed(f)
  {
    assert ProductText(One(f)) == FactorText(f) && ProductNeed(One(f)) == FactorNeed(f);
  }

  lemma {:induction false} NestedFacts(k: nat)
    ensures SumOk(Nested(k)) && SumText(Nested(k)) == NestedText(k) && SumValue(Nested(k)) == 7 && SumNeed(Nested(k)) == k + 1
    ensures ' ' !in NestedText(k)
  {
    if k == 0 {
      assert DecimalFrom(0, "7") == DecimalFrom(7, "7"[1..]);
      OneFactor(Number("7"));
    } else {
      NestedFacts(k - 1);
      var f := Paren(Nested(k - 1));
      assert FactorOk(f) && FactorText(f) == NestedText(k) && FactorValue(f) == 7 && FactorNeed(f) == k + 1;
      OneFactor(f);
    }
  }

  lemma {:induction false} NoSpaces(s: string)
    requires ' ' !in s
    ensures WithoutSpaces(s) == s
  {
    if s != "" {
      assert ' ' !in s[1..];
      NoSpaces(s[1..]);
    }
  }

  /** Thirty pairs of parentheses around a digit are evaluated, one more pair writes behind the stack. */
  lemma {:induction false} NestedLine(k: nat)
    ensures Feed(Initial(), NestedText(k) + "\n") == if k <= 30 then Printed(7) else Undefined
  {
    hide Feed, SumOk, SumText, SumValue, SumNeed, NestedText, WithoutSpaces;
    NestedFacts(k);
    NoSpaces(NestedText(k) + "\n");
    LineIsEvaluated(NestedText(k) + "\n", Nested(k));
  }

  lemma DigitsAre(c: char)
    ensures IsDigit(c) <==> c in "0123456789"
  {
  }

  /** A line with all that an expression may have. */
  lemma {:induction false} SampleLine()
    ensures Feed(Initial(), "12+30*(4+9)\n") == Printed(402)
  {
    var inner := Add(Single(One(Number("4"))), One(Number("9")));
    var s := Add(Single(One(Number("12"))), Mul(One(Number("30")), Paren(inner)));
    SampleFacts(inner, s);
    assert "12+30*(4+9)\n" == "12+30*(4+9)" + "\n";
    NoSpaces("12+30*(4+9)\n");
    LineIsEvaluated("12+30*(4+9)\n", s);
  }

  lemma {:induction false} SampleFacts(inner: Sum, s: Sum)
    requires inner == Add(Single(One(Number("4"))), One(Number("9")))
    requires s == Add(Single(One(Number("12"))), Mul(One(Number("30")), Paren(inner)))
    ensures SumOk(s) && SumText(s) == "12+30*(4+9)" && SumValue(s) == 402 && SumNeed(s) < SLOTS
  {
    OneFactor(Number("4"));
    OneFactor(Number("12"));
    SampleNumbers();
    hide DecimalFrom;
    assert ProductText(One(Number("9"))) == "9" && ProductText(One(Number("30"))) == "30";
    assert SumText(inner) == "4+9" && SumValue(inner) == 13 && SumOk(inner) && SumNeed(inner) <= 4;
    var product := Mul(One(Number("30")), Paren(inner));
    assert ProductText(product) == "30*(4+9)" && ProductOk(product) && ProductValue(product) == 390 && ProductNeed(product) <= 9;
  }

  lemma {:induction false} SampleNumbers()
    ensures DecimalFrom(0, "4") == 4 && DecimalFrom(0, "9") == 9 && DecimalFrom(0, "30") == 30 && DecimalFrom(0, "12") == 12
  {
    assert DecimalFrom(0, "4") == DecimalFrom(4, "4"[1..]) && DecimalFrom(0, "9") == DecimalFrom(9, "9"[1..]);
    assert "12"[1..] == "2" && DecimalFrom(0, "12") == DecimalFrom(1, "2") == DecimalFrom(12, "2"[1..]);
    assert "30"[1..] == "0" && DecimalFrom(0, "30") == DecimalFrom(3, "0") == DecimalFrom(30, "0"[1..]);
  }

  // ----- parentheses in any line -----

  function Count(s: string, c: char): nat {
    if s == "" then 0 else Count(s[..|s| - 1], c) + if s[|s| - 1] == c then 1 else 0
  }

  /** The stack when all pending operations are performed. */
  function Reduced(st: State): (r: State)
    requires st.Valid()
    ensures r.Valid() && r.token == st.token && r.sp <= st.sp
  {
    ReduceSinks(st, Times);
    ReduceSinks(Reduce(st, Times), Plus);
    Reduce(Reduce(st, Times), Plus)
  }

  lemma {:induction false} ReduceSinks(st: State, op: Token)
    requires st.Valid() && op != Start
    ensures Reduce(st, op).sp <= st.sp
    decreases st.sp
  {
    if Reducible(st, op) {
      ReduceSinks(State(st.token, st.value[st.sp - 2 := Apply(op, st.value[st.sp - 2], st.value[st.sp])], st.sp - 2), op);
    }
  }

  /** How often a right parenthesis finds a left one where a number should be: it then takes two left ones away. */
  function Doubled(s: string): nat {
    if s == "" then 0
    else
      var (front, before) := (s[..|s| - 1], Feed(Initial(), s[..|s| - 1]));
      Doubled(front) + if s[|s| - 1] == ')' && before.Going? && Reduced(before.st).Top() == LeftParen then 1 else 0
  }

  /** The left parentheses on the stack. */
  function Parens(token: seq<Token>, k: nat): nat
    requires k < |token|
  {
    if k == 0 then 0 else Parens(token, k - 1) + if token[k] == LeftParen then 1 else 0
  }

  /** The start mark is at the bottom only. */
  predicate OneStart(st: State)
    requires st.Valid()
  {
    forall i :: 1 <= i <= st.sp ==> st.token[i] != Start
  }

  lemma {:induction false} ParensSame(a: seq<Token>, b: seq<Token>, k: nat)
    requires k < |a| && k < |b| && forall i :: 0 <= i <= k ==> a[i] == b[i]
    ensures Parens(a, k) == Parens(b, k)
  {
    if k > 0 { ParensSame(a, b, k - 1); }
  }

  lemma {:induction false} ReduceParens(st: State, op: Token)
    requires st.Valid() && (op == Times || op == Plus) && OneStart(st)
    ensures var r := Reduce(st, op); Parens(r.token, r.sp) == Parens(st.token, st.sp) && OneStart(r)
    decreases st.sp
  {
    if Reducible(st, op) {
      var next := State(st.token, st.value[st.sp - 2 := Apply(op, st.value[st.sp - 2], st.value[st.sp])], st.sp - 2);
      assert Parens(st.token, st.sp) == Parens(st.token, st.sp - 1) == Parens(st.token, st.sp - 2);
      ReduceParens(next, op);
    }
  }

  lemma {:induction false} ReducedParens(st: State)
    requires st.Valid() && OneStart(st)
    ensures var r := Reduced(st); Parens(r.token, r.sp) == Parens(st.token, st.sp) && OneStart(r)
  {
    ReduceParens(st, Times);
    ReduceParens(Reduce(st, Times), Plus);
  }

  lemma {:induction false} PushParens(st: State, t: Token)
    requires st.Valid() && OneStart(st) && t != Start && Push(st, t).Going?
    ensures var r := Push(st, t).st;
      Parens(r.token, r.sp) == Parens(st.token, st.sp) + (if t == LeftParen then 1 else 0) && OneStart(r)
  {
    ParensSame(Push(st, t).st.token, st.token, st.sp);
  }

  lemma {:induction false} DigitParens(st: State, c: char)
    requires st.Valid() && OneStart(st) && IsDigit(c) && PushDigit(st, c).Going?
    ensures var r := PushDigit(st, c).st; Parens(r.token, r.sp) == Parens(st.token, st.sp) && OneStart(r)
  {
    if st.Top() != Num { ParensSame(PushDigit(st, c).st.token, st.token, st.sp); }
  }

  /** A right parenthesis takes away one left one, or two. */
  lemma {:induction false} CloseParens(st: State)
    requires st.Valid() && OneStart(st) && Closing(st, ')').Going?
    ensures var r := Closing(st, ')').st;
      Parens(r.token, r.sp) + 1 + (if st.Top() == LeftParen then 1 else 0) == Parens(st.token, st.sp) && OneStart(r)
  {
    var r := Closing(st, ')').st;
    assert r.sp > 0;
    ParensSame(r.token, st.token, r.sp - 1);
    assert Parens(st.token, st.sp) == Parens(st.token, st.sp - 1) + if st.Top() == LeftParen then 1 else 0;
  }

  lemma {:induction false} StepParens(st: State, c: char)
    requires st.Valid() && OneStart(st) && Step(st, c).Going?
    ensures var r := Step(st, c).st;
      OneStart(r) && Parens(st.token, st.sp) + (if c == '(' then 1 else 0)
      == Parens(r.token, r.sp) + if c == ')' then 1 + (if Reduced(st).Top() == LeftParen then 1 else 0) else 0
  {
    hide Reduce, Parens, OneStart;
    if c == ' ' {
    } else if c == '(' {
      PushParens(st, LeftParen);
    } else if IsDigit(c) {
      DigitParens(st, c);
    } else if c == '*' {
      PushParens(st, Times);
    } else if c == '+' {
      ReduceParens(st, Times);
      PushParens(Reduce(st, Times), Plus);
    } else {
      ReducedParens(st);
      CloseParens(Reduced(st));
    }
  }

  /** The left parentheses on the stack are those that were not closed, less one for each that was taken away in addition. */
  lemma {:induction false} OpenOnes(s: string)
    requires Feed(Initial(), s).Going?
    ensures var st := Feed(Initial(), s).st; OneStart(st) && Count(s, '(') == Count(s, ')') + Doubled(s) + Parens(st.token, st.sp)
    decreases |s|
  {
    hide Step;
    if s != "" {
      var (front, c) := (s[..|s| - 1], s[|s| - 1]);
      assert s == front + [c];
      FeedAppend(Initial(), front, [c]);
      OpenOnes(front);
      FeedOne(Feed(Initial(), front).st, c);
      StepParens(Feed(Initial(), front).st, c);
    }
  }

  /**
   * In a line that is printed, the left parentheses outnumber the right ones by those that were taken away two at a time,
   * and one at the end of the line. So it is balanced exactly when a right parenthesis and the end of the line never
   * find a left parenthesis where a number should be.
   */
  lemma {:induction false} PrintedLine(line: string)
    requires Feed(Initial(), line + "\n").Printed? && '\n' !in line
    ensures Feed(Initial(), line).Going? && forall i :: 0 <= i < |line| ==> InLine(line[i])
    ensures var atEnd := Reduced(Feed(Initial(), line).st).Top() == LeftParen;
      && Count(line, '(') == Count(line, ')') + Doubled(line) + (if atEnd then 1 else 0)
      && (Count(line, '(') == Count(line, ')') <==> Doubled(line) == 0 && !atEnd)
  {
    NoLine(line);
    FeedAppend(Initial(), line, "\n");
    var st := Feed(Initial(), line).st;
    FeedOne(st, '\n');
    OpenOnes(line);
    UsualCharacters(line);
    ReducedParens(st);
    var r := Reduced(st);
    assert r.sp == 1;
    assert Parens(r.token, 1) == if r.Top() == LeftParen then 1 else 0;
  }

  /** The only characters that a line may hold. */
  predicate InLine(c: char) {
    c == ' ' || c == '+' || c == '*' || c == '(' || c == ')' || '0' <= c <= '9'
  }

  /** Any other character before the end of the line stops the reading. */
  lemma {:induction false} UsualCharacters(s: string)
    requires Feed(Initial(), s).Going?
    ensures forall i :: 0 <= i < |s| ==> InLine(s[i])
    decreases |s|
  {
    if s != "" {
      var (front, c) := (s[..|s| - 1], s[|s| - 1]);
      assert s == front + [c];
      FeedAppend(Initial(), front, [c]);
      UsualCharacters(front);
      FeedOne(Feed(Initial(), front).st, c);
      forall i | 0 <= i < |s| ensures InLine(s[i]) {
        if i < |front| { assert s[i] == front[i]; }
      }
    }
  }

  /** Nothing is printed before the end of a line. */
  lemma {:induction false} NoLine(s: string)
    requires '\n' !in s
    ensures !Feed(Initial(), s).Printed?
    decreases |s|
  {
    if s != "" {
      var (front, c) := (s[..|s| - 1], s[|s| - 1]);
      assert s == front + [c] && c in s;
      FeedAppend(Initial(), front, [c]);
      NoLine(front);
      if Feed(Initial(), front).Going? {
        FeedOne(Feed(Initial(), front).st, c);
      }
    }
  }

  /** A number or a right parenthesis is the last thing but spaces. */
  predicate EndsInNumber(s: string) {
    s != "" && if s[|s| - 1] == ' ' then EndsInNumber(s[..|s| - 1]) else IsDigit(s[|s| - 1]) || s[|s| - 1] == ')'
  }

  /** Operators and right parentheses come after numbers and right parentheses only. */
  predicate Proper(s: string) {
    s == "" || (Proper(s[..|s| - 1]) && (s[|s| - 1] in "+*)" ==> EndsInNumber(s[..|s| - 1])))
  }

  predicate OperatorsAfterNumbers(st: State)
    requires st.Valid()
  {
    forall i :: 1 <= i <= st.sp && (st.token[i] == Plus || st.token[i] == Times) ==> st.token[i - 1] == Num
  }

  lemma {:induction false} ReduceProper(st: State, op: Token)
    requires st.Valid() && (op == Times || op == Plus) && OperatorsAfterNumbers(st)
    ensures OperatorsAfterNumbers(Reduce(st, op)) && (Reduce(st, op).Top() == Num <==> st.Top() == Num)
    ensures Reduce(st, op).Top() == LeftParen <==> st.Top() == LeftParen
    decreases st.sp
  {
    if Reducible(st, op) {
      ReduceProper(State(st.token, st.value[st.sp - 2 := Apply(op, st.value[st.sp - 2], st.value[st.sp])], st.sp - 2), op);
    }
  }

  lemma {:induction false} StepProper(st: State, c: char)
    requires st.Valid() && OperatorsAfterNumbers(st) && Step(st, c).Going? && (c in "+*)" ==> st.Top() == Num)
    ensures var r := Step(st, c).st;
      OperatorsAfterNumbers(r) && (r.Top() == Num <==> (c == ' ' && st.Top() == Num) || IsDigit(c) || c == ')')
    ensures c == ')' ==> Reduced(st).Top() != LeftParen
  {
    hide Reduce;
    ReduceProper(st, Times);
    ReduceProper(Reduce(st, Times), Plus);
  }

  lemma {:induction false} ProperStack(s: string)
    requires Feed(Initial(), s).Going? && Proper(s)
    ensures var st := Feed(Initial(), s).st; OperatorsAfterNumbers(st) && (st.Top() == Num <==> EndsInNumber(s)) && Doubled(s) == 0
    decreases |s|
  {
    if s != "" {
      hide Step, OperatorsAfterNumbers, Reduced;
      var (front, c) := (s[..|s| - 1], s[|s| - 1]);
      assert s == front + [c];
      FeedAppend(Initial(), front, [c]);
      ProperStack(front);
      FeedOne(Feed(Initial(), front).st, c);
      StepProper(Feed(Initial(), front).st, c);
    }
  }

  /** A printed line in which operators, right parentheses and the end come after numbers is balanced. */
  lemma {:induction false} ProperIsBalanced(line: string)
    requires Feed(Initial(), line + "\n").Printed? && '\n' !in line && Proper(line) && EndsInNumber(line)
    ensures Count(line, '(') == Count(line, ')')
  {
    PrintedLine(line);
    ProperStack(line);
    ReduceProper(Feed(Initial(), line).st, Times);
    ReduceProper(Reduce(Feed(Initial(), line).st, Times), Plus);
  }

  /** Two lines that are printed although a right parenthesis is missing. */
  lemma {:induction false} UnbalancedIsPrinted()
    ensures Feed(Initial(), "(\n") == Printed(0) && Feed(Initial(), "(()\n") == Printed(0)
  {
    var one := Step(Initial(), '(').st;
    var two := Step(one, '(').st;
    var three := Step(two, ')').st;
    assert Step(one, '\n') == Printed(0) == Step(three, '\n');
    FeedOne(Initial(), '(');
    FeedAppend(Initial(), "(", "\n");
    FeedOne(one, '\n');
    FeedAppend(Initial(), "(", "(");
    FeedOne(one, '(');
    FeedAppend(Initial(), "((", ")");
    FeedOne(two, ')');
    FeedAppend(Initial(), "(()", "\n");
    FeedOne(three, '\n');
    assert "(" + "\n" == "(\n" && "(" + "(" == "((" && "((" + ")" == "(()" && "(()" + "\n" == "(()\n";
  }
}
