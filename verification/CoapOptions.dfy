/**
 * The option encoding of CoAP (section 3.1 of RFC 7252): sorted options, each with the difference to
 * the previous option number, a length and a value.
 */
module CoapOptions {

  import opened Bytes

  datatype Option = Option(number: nat, value: seq<byte>)

  /** 16-bit arithmetic wraps around. */
  function Uint16(a: int): (r: nat)
    ensures r < 65536
  {
    a % 65536
  }

  // ----- numbers of variable size -----

  /** The half byte that announces the size of `n`. */
  function Nibble(n: nat): (h: nat)
    ensures h <= 14
  {
    if n < 13 then n else if n < 269 then 13 else 14
  }

  /** The first byte of an option. */
  function Header(delta: nat, length: nat): (h: byte)
    ensures h != 0xFF
  {
    16 * Nibble(delta) + Nibble(length)
  }

  /** The number of extra bytes `n` takes. */
  function ExtraBytes(n: nat): (k: nat)
    ensures k <= 2
  {
    if n < 13 then 0 else if n < 269 then 1 else 2
  }

  /** The extra bytes, most significant first. */
  function Extension(n: nat): (s: seq<byte>)
    requires n < 65536
    ensures |s| == ExtraBytes(n)
  {
    if n < 13 then [] else if n < 269 then [n - 13] else [(n - 269) / 256, (n - 269) % 256]
  }

  /** Where the bytes of an option are, in numbers. */
  lemma {:induction false} OptionFormat(delta: nat, value: seq<byte>)
    requires delta < 65536 && |value| < 65536
    ensures var (e, n) := (EncodeOne(delta, value), |value|);
      && |e| == 1 + n + (if delta < 13 then 0 else if delta < 269 then 1 else 2) + (if n < 13 then 0 else if n < 269 then 1 else 2)
      && (var p := if delta < 13 then 1 else if delta < 269 then 2 else 3;
          && (if delta < 13 then e[0] / 16 == delta
              else if delta < 269 then e[0] / 16 == 13 && e[1] == delta - 13
              else e[0] / 16 == 14 && 256 * (e[1] as int) + e[2] as int == delta - 269)
          && (if n < 13 then e[0] % 16 == n
              else if n < 269 then e[0] % 16 == 13 && e[p] == n - 13
              else e[0] % 16 == 14 && 256 * (e[p] as int) + e[p + 1] as int == n - 269))
      && e[|e| - n..] == value
  {
    DeltaFormat(delta, value);
    LengthFormat(delta, value);
  }

  lemma {:induction false} DeltaFormat(delta: nat, value: seq<byte>)
    requires delta < 65536 && |value| < 65536
    ensures var e := EncodeOne(delta, value);
      if delta < 13 then e[0] / 16 == delta
      else if delta < 269 then e[0] / 16 == 13 && e[1] == delta - 13
      else e[0] / 16 == 14 && 256 * (e[1] as int) + e[2] as int == delta - 269
  {
    var (e, x) := (EncodeOne(delta, value), Extension(delta));
    NibblesBack(delta, delta);
    NibblesBack(|value|, delta);
    assert e[0] == Header(delta, |value|);
    PartsOf(delta, value);
    hide EncodeOne;
    assert |x| > 0 ==> e[1] == e[1..1 + |x|][0];
    assert |x| > 1 ==> e[2] == e[1..1 + |x|][1];
  }

  lemma {:induction false} LengthFormat(delta: nat, value: seq<byte>)
    requires delta < 65536 && |value| < 65536
    ensures var (e, n) := (EncodeOne(delta, value), |value|);
      && e[|e| - n..] == value
      && (var p := if delta < 13 then 1 else if delta < 269 then 2 else 3;
          if n < 13 then e[0] % 16 == n
          else if n < 269 then e[0] % 16 == 13 && e[p] == n - 13
          else e[0] % 16 == 14 && 256 * (e[p] as int) + e[p + 1] as int == n - 269)
  {
    var (e, q, x) := (EncodeOne(delta, value), 1 + ExtraBytes(delta), Extension(|value|));
    NibblesBack(|value|, delta);
    assert e[0] == Header(delta, |value|);
    PartsOf(delta, value);
    hide EncodeOne;
    assert |x| > 0 ==> e[q] == e[q..q + |x|][0];
    assert |x| > 1 ==> e[q + 1] == e[q..q + |x|][1];
  }

  // ----- encoding -----

  function EncodeOne(delta: nat, value: seq<byte>): (s: seq<byte>)
    requires delta < 65536 && |value| < 65536
    ensures |s| == 1 + ExtraBytes(delta) + ExtraBytes(|value|) + |value|
  {
    [Header(delta, |value|)] + Extension(delta) + Extension(|value|) + value
  }

  /** All numbers and the sizes of all values fit into 16 bits. */
  predicate Numbered(opts: seq<Option>) {
    forall o :: o in opts ==> o.number < 65536 && |o.value| < 65536
  }

  /** The numbers never decrease, from `prev` on. */
  predicate Ascending(opts: seq<Option>, prev: nat) {
    opts == [] || (prev <= opts[0].number && Ascending(opts[1..], opts[0].number))
  }

  /** What section 3.1 of RFC 7252 asks for. */
  predicate Encodable(opts: seq<Option>, prev: nat) {
    Numbered(opts) && Ascending(opts, prev)
  }

  /** The difference to the previous number in 16 bits, in which the program computes. */
  function Delta(number: nat, prev: nat): (d: nat)
    ensures d < 65536 && (prev <= number < prev + 65536 ==> d == number - prev)
  {
    Uint16(number - prev)
  }

  /** The bytes from which the program reads these options; in an ascending list no difference wraps around. */
  function Encode(opts: seq<Option>, prev: nat): seq<byte>
    requires Numbered(opts)
  {
    if opts == [] then []
    else EncodeOne(Delta(opts[0].number, prev), opts[0].value) + Encode(opts[1..], opts[0].number)
  }

  /** The number of the last option, or `prev` when there is none. */
  function Last(opts: seq<Option>, prev: nat): nat {
    if opts == [] then prev else opts[|opts| - 1].number
  }

  /** How many options stay before a new one with this number: those whose number is not greater. */
  function Rank(opts: seq<Option>, number: nat): (k: nat)
    ensures k <= |opts|
  {
    if opts == [] || opts[0].number > number then 0 else 1 + Rank(opts[1..], number)
  }

  /** A new option goes after all options whose number is not greater. */
  function InsertSorted(opts: seq<Option>, o: Option): seq<Option> {
    var k := Rank(opts, o.number);
    opts[..k] + [o] + opts[k..]
  }

  /** Whether the program takes the end of the message for the place of a new option. */
  predicate Appends(opts: seq<Option>, max: nat, number: nat) {
    number >= max || Rank(opts, number) == |opts|
  }

  /**
   * The option list the program ends with. `max` is its record of the largest number added; when that
   * record is not the last number (after an append that did not fit), appended numbers come out wrong.
   */
  function Outcome(opts: seq<Option>, max: nat, o: Option): seq<Option> {
    if o.number >= max || opts == [] then opts + [Option(Uint16(Last(opts, 0) + o.number - max), o.value)]
    else InsertSorted(opts, o)
  }

  // ----- structure lemmas -----

  lemma {:induction false} AscendingSplit(a: seq<Option>, b: seq<Option>, prev: nat)
    ensures Ascending(a + b, prev) <==> Ascending(a, prev) && Ascending(b, Last(a, prev))
  {
    if a == [] {
      assert a + b == b;
    } else {
      assert (a + b)[1..] == a[1..] + b;
      AscendingSplit(a[1..], b, a[0].number);
      assert Last(a, prev) == Last(a[1..], a[0].number);
    }
  }

  lemma {:induction false} EncodeCons(o: Option, rest: seq<Option>, prev: nat)
    requires Numbered([o] + rest)
    ensures Numbered(rest) && o.number < 65536 && |o.value| < 65536
    ensures Encode([o] + rest, prev) == EncodeOne(Delta(o.number, prev), o.value) + Encode(rest, o.number)
  {
    assert ([o] + rest)[1..] == rest && ([o] + rest)[0] == o && o in [o] + rest;
  }

  lemma {:induction false} EncodeSplit(a: seq<Option>, b: seq<Option>, prev: nat)
    requires Numbered(a) && Numbered(b)
    ensures Numbered(a + b) && Encode(a + b, prev) == Encode(a, prev) + Encode(b, Last(a, prev))
  {
    if a == [] {
      assert a + b == b;
    } else {
      hide EncodeOne, Delta, Encode;
      var (o, rest) := (a[0], a[1..]);
      assert a == [o] + rest;
      Regroup([o], rest, b);
      EncodeSplit(rest, b, o.number);
      EncodeCons(o, rest, prev);
      EncodeCons(o, rest + b, prev);
      assert Last(a, prev) == Last(rest, o.number);
      Regroup(EncodeOne(Delta(o.number, prev), o.value), Encode(rest, o.number), Encode(b, Last(a, prev)));
    }
  }

  lemma AscendingCons(o: Option, rest: seq<Option>, prev: nat)
    ensures Ascending([o] + rest, prev) <==> prev <= o.number && Ascending(rest, o.number)
  {
    assert ([o] + rest)[1..] == rest && ([o] + rest)[0] == o;
  }

  lemma AscendingFrom(opts: seq<Option>, prev: nat, number: nat)
    requires Ascending(opts, prev) && (opts != [] ==> number <= opts[0].number)
    ensures Ascending(opts, number)
  {
  }

  /** Up to the rank no number is greater, and there a greater one comes. */
  lemma {:induction false} RankFacts(opts: seq<Option>, number: nat, prev: nat)
    requires prev <= number
    ensures var k := Rank(opts, number);
      Last(opts[..k], prev) <= number && (k < |opts| ==> number < opts[k].number)
  {
    if opts != [] && opts[0].number <= number {
      RankFacts(opts[1..], number, opts[0].number);
      var k := Rank(opts, number);
      assert opts[..k][1..] == opts[1..][..k - 1];
      assert Last(opts[..k], prev) == Last(opts[1..][..k - 1], opts[0].number);
    }
  }

  lemma {:induction false} RankOfLast(opts: seq<Option>, number: nat, prev: nat)
    requires Ascending(opts, prev) && prev <= number
    ensures Rank(opts, number) == |opts| <==> Last(opts, prev) <= number
  {
    if opts != [] {
      LastBounds(opts, prev);
      if opts[0].number <= number { RankOfLast(opts[1..], number, opts[0].number); }
    }
  }

  lemma {:induction false} LastBounds(opts: seq<Option>, prev: nat)
    requires Ascending(opts, prev)
    ensures prev <= Last(opts, prev)
    ensures opts != [] ==> opts[0].number <= Last(opts, prev)
  {
    if opts != [] {
      LastBounds(opts[1..], opts[0].number);
    }
  }

  lemma LastFits(opts: seq<Option>)
    requires Numbered(opts)
    ensures Last(opts, 0) < 65536
  {
  }

  /** Inserting keeps all sizes. */
  lemma {:induction false} InsertSortedNumbered(opts: seq<Option>, o: Option)
    requires Numbered(opts) && o.number < 65536 && |o.value| < 65536
    ensures Numbered(InsertSorted(opts, o))
  {
  }

  /** The options before a new one and after it. */
  lemma {:induction false} InsertedParts(opts: seq<Option>, o: Option) returns (a: seq<Option>, b: seq<Option>)
    ensures a == opts[..Rank(opts, o.number)] && b == opts[Rank(opts, o.number)..]
    ensures opts == a + b && InsertSorted(opts, o) == a + ([o] + b)
    ensures Last(a, 0) <= o.number && (b != [] ==> o.number < b[0].number)
  {
    var k := Rank(opts, o.number);
    hide Rank, Last;
    a, b := opts[..k], opts[k..];
    RankFacts(opts, o.number, 0);
    Regroup(a, [o], b);
  }

  /** Inserting keeps the list sorted. */
  lemma {:induction false} InsertSortedEncodable(opts: seq<Option>, o: Option)
    requires Encodable(opts, 0) && o.number < 65536 && |o.value| < 65536
    ensures Encodable(InsertSorted(opts, o), 0)
    ensures multiset(InsertSorted(opts, o)) == multiset(opts) + multiset{o}
  {
    hide Rank, Numbered, InsertSorted, Ascending, Last;
    var a, b := InsertedParts(opts, o);
    InsertSortedNumbered(opts, o);
    AscendingSplit(a, b, 0);
    AscendingCons(o, b, Last(a, 0));
    AscendingSplit(a, [o] + b, 0);
    AscendingFrom(b, Last(a, 0), o.number);
  }

  /** Three options in bytes: 11 with one byte, 60 with two, and 2000 with none. */
  lemma {:induction false} OptionsInBytes()
    ensures var opts := [Option(11, [97]), Option(60, [1, 2]), Option(2000, [])];
      Numbered(opts) && Encode(opts, 0) == [0xB1, 97] + ([0xD2, 36, 1, 2] + [0xE0, 6, 135])
  {
    var (a, b, c) := (Option(11, [97]), Option(60, [1, 2]), Option(2000, []));
    assert EncodeOne(11, [97]) == [0xB1, 97] && EncodeOne(49, [1, 2]) == [0xD2, 36, 1, 2];
    assert EncodeOne(1940, []) == [0xE0, 6, 135];
    hide EncodeOne;
    assert [a, b, c] == [a] + ([b] + [c]) && [c] == [c] + [];
    EncodeCons(c, [], 60);
    EncodeCons(b, [c], 11);
    EncodeCons(a, [b] + [c], 0);
  }

  /** Inserting one after the other. */
  function InsertAll(opts: seq<Option>, adds: seq<Option>): seq<Option> {
    if adds == [] then opts else InsertSorted(InsertAll(opts, adds[..|adds| - 1]), adds[|adds| - 1])
  }

  lemma {:induction false} InsertAllNext(opts: seq<Option>, adds: seq<Option>, k: nat)
    requires k < |adds|
    ensures InsertAll(opts, adds[..k + 1]) == InsertSorted(InsertAll(opts, adds[..k]), adds[k])
  {
    assert adds[..k + 1][..k] == adds[..k];
  }

  /** The options with one number, in their order. */
  function WithNumber(opts: seq<Option>, number: nat): seq<Option> {
    if opts == [] then []
    else WithNumber(opts[..|opts| - 1], number) + if opts[|opts| - 1].number == number then [opts[|opts| - 1]] else []
  }

  lemma {:induction false} WithNumberSplit(a: seq<Option>, b: seq<Option>, number: nat)
    ensures WithNumber(a + b, number) == WithNumber(a, number) + WithNumber(b, number)
  {
    if b == [] {
      assert a + b == a;
    } else {
      assert (a + b)[..|a + b| - 1] == a + b[..|b| - 1];
      WithNumberSplit(a, b[..|b| - 1], number);
    }
  }

  lemma {:induction false} NoneAbove(opts: seq<Option>, prev: nat, number: nat)
    requires Ascending(opts, prev) && number < prev
    ensures WithNumber(opts, number) == []
  {
    if opts != [] {
      assert opts == [opts[0]] + opts[1..];
      WithNumberSplit([opts[0]], opts[1..], number);
      NoneAbove(opts[1..], opts[0].number, number);
    }
  }

  /** Options with equal numbers stay in the order in which they were added. */
  lemma {:induction false} InsertSortedStable(opts: seq<Option>, o: Option, number: nat)
    requires Ascending(opts, 0)
    ensures WithNumber(InsertSorted(opts, o), number) == WithNumber(opts, number) + WithNumber([o], number)
  {
    hide Rank, Ascending, Last, InsertSorted;
    var a, b := InsertedParts(opts, o);
    Regroup(a, [o], b);
    AscendingSplit(a, b, 0);
    if number == o.number && b != [] {
      TailAbove(b, Last(a, 0), number);
    }
    assert number == o.number ==> WithNumber(b, number) == [];
    assert number != o.number ==> WithNumber([o], number) == [];
    hide WithNumber;
    WithNumberSplit(a, b, number);
    WithNumberSplit(a + [o], b, number);
    WithNumberSplit(a, [o], number);
    PassEmpty(WithNumber(a, number), WithNumber(b, number), WithNumber([o], number));
  }

  lemma PassEmpty<T>(a: seq<T>, b: seq<T>, c: seq<T>)
    requires b == [] || c == []
    ensures (a + c) + b == (a + b) + c
  {
  }

  lemma {:induction false} TailAbove(b: seq<Option>, prev: nat, number: nat)
    requires b != [] && Ascending(b, prev) && number < b[0].number
    ensures WithNumber(b, number) == []
  {
    assert Ascending(b, b[0].number);
    NoneAbove(b, b[0].number, number);
  }

  /** Adding options one after the other is a stable sort by number. */
  lemma {:induction false} InsertAllIsStableSort(adds: seq<Option>)
    requires forall o :: o in adds ==> o.number < 65536 && |o.value| < 65536
    ensures Encodable(InsertAll([], adds), 0) && multiset(InsertAll([], adds)) == multiset(adds)
    ensures forall number :: WithNumber(InsertAll([], adds), number) == WithNumber(adds, number)
  {
    if adds != [] {
      var (before, o) := (adds[..|adds| - 1], adds[|adds| - 1]);
      assert adds == before + [o];
      InsertAllIsStableSort(before);
      var opts := InsertAll([], before);
      InsertSortedEncodable(opts, o);
      forall number ensures WithNumber(InsertAll([], adds), number) == WithNumber(adds, number) {
        InsertSortedStable(opts, o, number);
        WithNumberSplit(before, [o], number);
      }
    }
  }

  lemma {:induction false} EncodeAround(before: seq<Option>, next: Option, rest: seq<Option>)
    requires Numbered(before + ([next] + rest))
    ensures Numbered(before) && Numbered([next] + rest) && Numbered(rest) && next.number < 65536 && |next.value| < 65536
    ensures Encode(before + ([next] + rest), 0)
      == Encode(before, 0) + EncodeOne(Delta(next.number, Last(before, 0)), next.value) + Encode(rest, next.number)
  {
    assert Numbered(before) && Numbered([next] + rest);
    hide Encode, EncodeOne, Numbered, Delta;
    EncodeSplit(before, [next] + rest, 0);
    EncodeCons(next, rest, Last(before, 0));
    Regroup(Encode(before, 0), EncodeOne(Delta(next.number, Last(before, 0)), next.value), Encode(rest, next.number));
  }

  /** The bytes after an insertion: only the new option and the header of its successor are new. */
  lemma {:induction false} EncodeInserted(opts: seq<Option>, o: Option) returns (before: seq<Option>, next: Option, rest: seq<Option>)
    requires Numbered(opts) && o.number < 65536 && |o.value| < 65536
    requires Rank(opts, o.number) < |opts|
    ensures before == opts[..Rank(opts, o.number)] && next == opts[|before|]
    ensures Last(before, 0) <= o.number < next.number < 65536 && |next.value| < 65536
    ensures Numbered(InsertSorted(opts, o)) && Numbered(before) && Numbered(rest)
    ensures Encode(opts, 0)
      == Encode(before, 0) + EncodeOne(next.number - Last(before, 0), next.value) + Encode(rest, next.number)
    ensures Encode(InsertSorted(opts, o), 0)
      == Encode(before, 0) + EncodeOne(o.number - Last(before, 0), o.value)
       + (EncodeOne(next.number - o.number, next.value) + Encode(rest, next.number))
  {
    hide *;
    var tail;
    before, tail := InsertedParts(opts, o);
    next, rest := tail[0], tail[1..];
    assert tail == [next] + rest;
    InsertSortedNumbered(opts, o);
    EncodeAround(before, next, rest);
    EncodeAround(before, o, tail);
    EncodeCons(next, rest, o.number);
  }

  /** Appending at the end. */
  lemma {:induction false} EncodeAppended(opts: seq<Option>, o: Option)
    requires Numbered(opts) && o.number < 65536 && |o.value| < 65536
    ensures Numbered(opts + [o])
    ensures Encode(opts + [o], 0) == Encode(opts, 0) + EncodeOne(Delta(o.number, Last(opts, 0)), o.value)
  {
    EncodeSplit(opts, [o], 0);
  }

  /**
   * Adding an option is right exactly when the record is not consulted, or it is the last number and the new
   * option belongs to the end.
   */
  lemma {:induction false} OutcomeIsRight(opts: seq<Option>, max: nat, o: Option)
    requires Numbered(opts) && max < 65536 && o.number < 65536
    ensures Outcome(opts, max, o) == InsertSorted(opts, o) <==>
      (o.number < max && opts != []) || (max == Last(opts, 0) && Rank(opts, o.number) == |opts|)
  {
    var k := Rank(opts, o.number);
    if o.number >= max || opts == [] {
      var last := Option(Uint16(Last(opts, 0) + o.number - max), o.value);
      NumberOfAppended(opts, max, o.number);
      if k < |opts| {
        RankFacts(opts, o.number, 0);
        assert InsertSorted(opts, o)[k] == o && (opts + [last])[k] == opts[k];
      } else {
        assert InsertSorted(opts, o) == opts + [o];
        assert (opts + [o])[|opts|] == o && (opts + [last])[|opts|] == last;
      }
    }
  }

  lemma NumberOfAppended(opts: seq<Option>, max: nat, number: nat)
    requires Numbered(opts) && max < 65536 && number < 65536
    ensures Last(opts, 0) < 65536
    ensures Uint16(Last(opts, 0) + number - max) == number <==> max == Last(opts, 0)
  {
    Wrapped(Last(opts, 0) + number - max);
  }

  /** In a message whose record is in step, every option goes to its place. */
  lemma {:induction false} OutcomeInStep(opts: seq<Option>, o: Option)
    requires Encodable(opts, 0) && o.number < 65536
    ensures Outcome(opts, Last(opts, 0), o) == InsertSorted(opts, o)
  {
    NumberOfAppended(opts, Last(opts, 0), o.number);
    RankOfLast(opts, o.number, 0);
    OutcomeIsRight(opts, Last(opts, 0), o);
  }

  lemma {:induction false} OutcomeNumbered(opts: seq<Option>, max: nat, o: Option)
    requires Numbered(opts) && o.number < 65536 && |o.value| < 65536
    ensures Numbered(Outcome(opts, max, o))
  {
    InsertSortedNumbered(opts, o);
  }

  /** When the new option goes to the end: the program's delta, from whichever previous number it uses. */
  lemma {:induction false} OutcomeAppended(opts: seq<Option>, max: nat, o: Option, prev: nat)
    requires Numbered(opts) && max < 65536 && o.number < 65536
    requires if o.number >= max || opts == [] then prev == max else Rank(opts, o.number) == |opts| && prev == Last(opts, 0)
    ensures var number := Uint16(Last(opts, 0) + o.number - prev);
      Outcome(opts, max, o) == opts + [Option(number, o.value)] && Delta(number, Last(opts, 0)) == Delta(o.number, prev)
  {
    NumberOfAppended(opts, prev, o.number);
    SameDelta(Last(opts, 0), o.number, prev);
    if opts != [] && o.number < max {
      assert InsertSorted(opts, o) == opts + [o];
    }
  }

  lemma SameDelta(last: nat, number: nat, prev: nat)
    requires last < 65536 && number < 65536 && prev < 65536
    ensures Delta(Uint16(last + number - prev), last) == Delta(number, prev)
  {
    Wrapped(last + number - prev);
    Wrapped(number - prev);
    Wrapped(Uint16(last + number - prev) - last);
  }

  lemma {:induction false} Wrapped(a: int)
    requires -65536 <= a < 131072
    ensures Uint16(a) == if a < 0 then a + 65536 else if a < 65536 then a else a - 65536
  {
  }

  // ----- reading -----

  function Upper(b: byte): (h: nat)
    ensures h < 16
  {
    b / 16
  }

  function Lower(b: byte): (h: nat)
    ensures h < 16
  {
    b % 16
  }

  predicate CanRead(b: seq<byte>, p: nat) {
    p < |b| && p + 1 + ExtraBytesOf(Upper(b[p])) + ExtraBytesOf(Lower(b[p])) <= |b|
  }

  /** The number of extra bytes a half byte announces; 15 is reserved and announces none here. */
  function ExtraBytesOf(h: nat): nat {
    if h == 13 then 1 else if h == 14 then 2 else 0
  }

  /** The value a half byte stands for, with its extra bytes at `p`; 16-bit arithmetic wraps. */
  function ReadValue(b: seq<byte>, h: nat, p: nat): nat
    requires p + ExtraBytesOf(h) <= |b|
  {
    if h == 13 then b[p] + 13
    else if h == 14 then Uint16(256 * (b[p] as int) + (b[p + 1] as int) + 269)
    else h
  }

  function DeltaAt(b: seq<byte>, p: nat): nat
    requires CanRead(b, p)
  {
    ReadValue(b, Upper(b[p]), p + 1)
  }

  function LengthAt(b: seq<byte>, p: nat): nat
    requires CanRead(b, p)
  {
    ReadValue(b, Lower(b[p]), p + 1 + ExtraBytesOf(Upper(b[p])))
  }

  lemma {:induction false} NibblesBack(n: nat, k: nat)
    requires n < 65536
    ensures ExtraBytesOf(Nibble(n)) == ExtraBytes(n)
    ensures Upper(Header(k, n)) == Nibble(k) && Lower(Header(k, n)) == Nibble(n)
  {
  }

  lemma {:induction false} ValueBack(b: seq<byte>, p: nat, n: nat)
    requires n < 65536 && p + ExtraBytes(n) <= |b| && b[p..p + ExtraBytes(n)] == Extension(n)
    ensures ExtraBytesOf(Nibble(n)) == ExtraBytes(n) && ReadValue(b, Nibble(n), p) == n
  {
    var e := b[p..p + ExtraBytes(n)];
    assert forall i: nat :: i < |e| ==> e[i] == b[p + i];
  }

  /** Where the parts of an encoded option are. */
  lemma {:induction false} PartsOf(delta: nat, value: seq<byte>)
    requires delta < 65536 && |value| < 65536
    ensures var (e, q, r) := (EncodeOne(delta, value), 1 + ExtraBytes(delta), 1 + ExtraBytes(delta) + ExtraBytes(|value|));
      e[1..q] == Extension(delta) && e[q..r] == Extension(|value|) && e[r..] == value
  {
    var header: seq<byte> := [Header(delta, |value|)];
    hide Extension, ExtraBytes, Header;
    SliceInside(header, Extension(delta), Extension(|value|) + value, 0, ExtraBytes(delta));
    Regroup(header + Extension(delta), Extension(|value|), value);
    SliceInside(header + Extension(delta), Extension(|value|), value, 0, ExtraBytes(|value|));
  }

  /** Where the parts of an encoded option are among other bytes. */
  lemma {:induction false} PartsInside(pre: seq<byte>, delta: nat, value: seq<byte>, post: seq<byte>)
    requires delta < 65536 && |value| < 65536
    ensures var (b, p) := (pre + EncodeOne(delta, value) + post, |pre|);
      var (q, r) := (p + 1 + ExtraBytes(delta), p + 1 + ExtraBytes(delta) + ExtraBytes(|value|));
      && r + |value| <= |b| && b[p + 1..q] == Extension(delta)
      && b[q..r] == Extension(|value|) && b[r..r + |value|] == value
  {
    hide *;
    var (e, q, r) := (EncodeOne(delta, value), 1 + ExtraBytes(delta), 1 + ExtraBytes(delta) + ExtraBytes(|value|));
    PartsOf(delta, value);
    SliceInside(pre, e, post, 1, q);
    SliceInside(pre, e, post, q, r);
    SliceInside(pre, e, post, r, |e|);
  }

  lemma {:induction false} HeaderInside(pre: seq<byte>, delta: nat, value: seq<byte>, post: seq<byte>)
    requires delta < 65536 && |value| < 65536
    ensures (pre + EncodeOne(delta, value) + post)[|pre|] == Header(delta, |value|)
  {
    hide Header, Extension, ExtraBytes;
  }

  /** An encoded option reads back as its delta, its length and its value. */
  lemma {:induction false} ReadBack(pre: seq<byte>, delta: nat, value: seq<byte>, post: seq<byte>)
    requires delta < 65536 && |value| < 65536
    ensures var b := pre + EncodeOne(delta, value) + post;
      && CanRead(b, |pre|) && DeltaAt(b, |pre|) == delta && LengthAt(b, |pre|) == |value|
      && b[|pre|] == Header(delta, |value|)
      && var start := |pre| + 1 + ExtraBytes(delta) + ExtraBytes(|value|);
         start + |value| <= |b| && b[start..start + |value|] == value
  {
    hide EncodeOne, Extension, ExtraBytes, Nibble, Header, ReadValue, ExtraBytesOf, Upper, Lower;
    HeaderInside(pre, delta, value, post);
    PartsInside(pre, delta, value, post);
    ReadParts(pre + EncodeOne(delta, value) + post, |pre|, delta, value);
  }

  lemma {:induction false} ReadParts(b: seq<byte>, p: nat, delta: nat, value: seq<byte>)
    requires delta < 65536 && |value| < 65536
    requires var (q, r) := (p + 1 + ExtraBytes(delta), p + 1 + ExtraBytes(delta) + ExtraBytes(|value|));
      && r <= |b| && b[p] == Header(delta, |value|)
      && b[p + 1..q] == Extension(delta) && b[q..r] == Extension(|value|)
    ensures CanRead(b, p) && DeltaAt(b, p) == delta && LengthAt(b, p) == |value|
  {
    hide EncodeOne, Extension, ExtraBytes, Nibble, Header, ReadValue, ExtraBytesOf, Upper, Lower;
    NibblesBack(|value|, delta);
    NibblesBack(delta, delta);
    ValueBack(b, p + 1, delta);
    ValueBack(b, p + 1 + ExtraBytes(delta), |value|);
  }

  /** The encoding around the k-th option. */
  lemma {:induction false} EncodeAt(opts: seq<Option>, k: nat) returns (before: seq<Option>, next: Option, rest: seq<Option>)
    requires Numbered(opts) && k < |opts|
    ensures before == opts[..k] && next == opts[k] && rest == opts[k + 1..]
    ensures Numbered(before) && Numbered(rest) && Last(before, 0) < 65536 && next.number < 65536 && |next.value| < 65536
    ensures Encode(opts, 0)
      == Encode(before, 0) + EncodeOne(Delta(next.number, Last(before, 0)), next.value) + Encode(rest, next.number)
    ensures Numbered(opts[..k + 1]) && Last(opts[..k + 1], 0) == next.number
    ensures Encode(opts[..k + 1], 0) == Encode(before, 0) + EncodeOne(Delta(next.number, Last(before, 0)), next.value)
  {
    before, next, rest := opts[..k], opts[k], opts[k + 1..];
    SplitAt(opts, k);
    TakeNext(opts, k);
    assert Last(before, 0) < 65536;
    hide Encode, EncodeOne, Numbered, Delta;
    EncodeAround(before, next, rest);
    EncodeAppended(before, next);
  }

  lemma {:induction false} RankBelow(opts: seq<Option>, number: nat, i: nat)
    requires i < Rank(opts, number)
    ensures opts[i].number <= number
  {
    if i > 0 { RankBelow(opts[1..], number, i - 1); }
  }

  /** The walk over the options stops at the rank. */
  lemma {:induction false} RankReached(opts: seq<Option>, number: nat, k: nat)
    requires k < |opts| && k <= Rank(opts, number)
    ensures opts[k].number > number <==> k == Rank(opts, number)
  {
    RankFacts(opts, number, 0);
    if k < Rank(opts, number) { RankBelow(opts, number, k); }
  }

  /** What a walk over the bytes `b` finds after k options, at position `p`. */
  lemma {:induction false} ReadOption(head: seq<byte>, opts: seq<Option>, k: nat, b: seq<byte>, p: nat)
    requires Numbered(opts) && b == head + Encode(opts, 0) && k <= |opts| && Numbered(opts[..k])
    requires p == |head| + |Encode(opts[..k], 0)| && p < |b|
    ensures k < |opts| && CanRead(b, p) && b[p] != 0xFF
    ensures Last(opts[..k], 0) < 65536 && opts[k].number < 65536 && |opts[k].value| < 65536
    ensures DeltaAt(b, p) == Delta(opts[k].number, Last(opts[..k], 0)) && LengthAt(b, p) == |opts[k].value|
    ensures Uint16(Last(opts[..k], 0) + DeltaAt(b, p)) == opts[k].number
    ensures Numbered(opts[..k + 1]) && Last(opts[..k + 1], 0) == opts[k].number
    ensures var q := p + 1 + ExtraBytes(DeltaAt(b, p)) + ExtraBytes(LengthAt(b, p)) + LengthAt(b, p);
      && q == |head| + |Encode(opts[..k + 1], 0)| && q <= |b| && (q == |b| ==> k + 1 == |opts|)
      && b[q - LengthAt(b, p)..q] == opts[k].value
  {
    TakeAll(opts);
    hide Encode, EncodeOne, Numbered, DeltaAt, LengthAt, CanRead, ReadValue, Nibble, Extension, ExtraBytes, Last, Delta, Uint16;
    var before, next, rest := EncodeAt(opts, k);
    var d := Delta(next.number, Last(before, 0));
    var (pre, e, post) := (head + Encode(before, 0), EncodeOne(d, next.value), Encode(rest, next.number));
    assert b == pre + e + post by {
      Regroup(head, Encode(before, 0) + e, post);
      Regroup(head, Encode(before, 0), e);
    }
    ReadBack(pre, d, next.value, post);
    DeltaBack(next.number, Last(before, 0));
    if post == [] {
      RestEmpty(opts, k, rest);
    }
  }

  /** The difference leads back to the number. */
  lemma DeltaBack(number: nat, prev: nat)
    requires number < 65536 && prev < 65536
    ensures Uint16(prev + Delta(number, prev)) == number
  {
    Wrapped(number - prev);
    Wrapped(prev + Delta(number, prev));
  }

  lemma {:induction false} RestEmpty(opts: seq<Option>, k: nat, rest: seq<Option>)
    requires k < |opts| && Numbered(rest) && Encode(rest, opts[k].number) == [] && rest == opts[k + 1..]
    ensures k + 1 == |opts|
  {
  }
}
