/**
 * Runs of additions in which some do not fit. An addition at the end changes the record of the largest
 * number even when it fails, and later additions rely on that record.
 */
module CoapRuns {
  import opened CoapOptions

  /** The options of a message and its record of the largest number added. */
  datatype State = State(opts: seq<Option>, max: nat)

  predicate Known(s: State) {
    Numbered(s.opts) && s.max < 65536
  }

  /** The memory for the options: it grows on demand, or it is what an external buffer leaves. */
  datatype Room = Growing | Fixed(size: nat)

  predicate Holds(room: Room, opts: seq<Option>)
    requires Numbered(opts)
  {
    room.Growing? || |Encode(opts, 0)| <= room.size
  }

  predicate Sized(o: Option) {
    o.number < 65536 && |o.value| < 65536
  }

  predicate WillFit(s: State, o: Option, room: Room)
    requires Known(s) && Sized(o)
  {
    OutcomeNumbered(s.opts, s.max, o);
    Holds(room, Outcome(s.opts, s.max, o))
  }

  /** One addition: the options change when the outcome fits, the record whenever the end is taken for the place. */
  function Added(s: State, o: Option, room: Room): (t: State)
    requires Known(s) && Sized(o)
    ensures Known(t)
  {
    OutcomeNumbered(s.opts, s.max, o);
    State(if WillFit(s, o, room) then Outcome(s.opts, s.max, o) else s.opts,
          if Appends(s.opts, s.max, o.number) then o.number else s.max)
  }

  /** One addition after the other, whether the ones before fitted or not. */
  function Replay(s: State, adds: seq<Option>, room: Room): (t: State)
    requires Known(s) && Numbered(adds)
    ensures Known(t)
  {
    if adds == [] then s else Added(Replay(s, adds[..|adds| - 1], room), adds[|adds| - 1], room)
  }

  /** The additions that fitted. */
  function Fitted(s: State, adds: seq<Option>, room: Room): seq<Option>
    requires Known(s) && Numbered(adds)
  {
    if adds == [] then []
    else
      var (before, o) := (adds[..|adds| - 1], adds[|adds| - 1]);
      Fitted(s, before, room) + if WillFit(Replay(s, before, room), o, room) then [o] else []
  }

  // ----- how far the record is off -----

  /** How far the record is ahead of the last number, in 16 bits. */
  function Lag(s: State): nat {
    Uint16(s.max - Last(s.opts, 0))
  }

  lemma {:induction false} LagZero(s: State)
    requires Known(s)
    ensures Lag(s) == 0 <==> s.max == Last(s.opts, 0)
  {
    LastFits(s.opts);
    Wrapped(s.max - Last(s.opts, 0));
  }

  /** The lag is the error of a number that is appended from the record. */
  lemma {:induction false} LagIsError(s: State, o: Option)
    requires Known(s) && Sized(o) && (o.number >= s.max || s.opts == [])
    ensures Outcome(s.opts, s.max, o) == s.opts + [Option(Uint16(o.number - Lag(s)), o.value)]
  {
    LastFits(s.opts);
    var last := Last(s.opts, 0);
    Wrapped(s.max - last);
    Wrapped(last + o.number - s.max);
    Wrapped(o.number - Lag(s));
  }

  /**
   * What one addition does to the lag: it stays for an option in the middle and for one appended from the
   * record, it disappears when the walk over the options reaches the end, and a failure at the end
   * sets it anew.
   */
  lemma {:induction false} LagAfter(s: State, o: Option, room: Room)
    requires Known(s) && Sized(o)
    ensures Lag(Added(s, o, room)) ==
      if !Appends(s.opts, s.max, o.number) then Lag(s)
      else if !WillFit(s, o, room) then Uint16(o.number - Last(s.opts, 0))
      else if o.number >= s.max || s.opts == [] then Lag(s)
      else 0
  {
    hide Rank, Encode, Numbered, Uint16;
    LastFits(s.opts);
    if !Appends(s.opts, s.max, o.number) {
      RankFacts(s.opts, o.number, 0);
      LastInserted(s.opts, o);
    } else if WillFit(s, o, room) {
      if o.number >= s.max || s.opts == [] {
        SameLag(Last(s.opts, 0), o.number, s.max);
      } else {
        assert Outcome(s.opts, s.max, o) == s.opts + [o];
        Wrapped(0);
      }
    }
  }

  lemma {:induction false} LastInserted(opts: seq<Option>, o: Option)
    requires Rank(opts, o.number) < |opts|
    ensures Last(InsertSorted(opts, o), 0) == Last(opts, 0)
  {
  }

  lemma {:induction false} SameLag(last: nat, number: nat, max: nat)
    requires last < 65536 && number < 65536 && max < 65536
    ensures Uint16(number - Uint16(last + number - max)) == Uint16(max - last)
  {
    Wrapped(last + number - max);
    Wrapped(number - Uint16(last + number - max));
    Wrapped(max - last);
  }

  /** In a sorted message only a failure behind the last number makes the record wrong. */
  lemma {:induction false} RecordLost(s: State, o: Option, room: Room)
    requires Known(s) && Sized(o) && Ascending(s.opts, 0) && s.max == Last(s.opts, 0)
    ensures var t := Added(s, o, room); t.max == Last(t.opts, 0) <==> WillFit(s, o, room) || o.number <= s.max
  {
    hide Rank, Encode, Numbered, Ascending, Added;
    LagAfter(s, o, room);
    LagZero(s);
    LagZero(Added(s, o, room));
    RankOfLast(s.opts, o.number, 0);
    LastFits(s.opts);
    Wrapped(o.number - Last(s.opts, 0));
  }

  /** The size of a single option with a great number and a short value. */
  lemma ShortEncoding(o: Option)
    requires 269 <= o.number < 65536 && |o.value| < 13
    ensures Numbered([o]) && |Encode([o], 0)| == 3 + |o.value|
  {
    EncodeCons(o, [], 0);
    assert [o] + [] == [o];
  }

  /**
   * A concrete run, in four bytes of memory: option 2000 does not fit, yet 2000 becomes the record of the
   * largest number, and option 11 is then stored with the number 63547.
   */
  lemma {:induction false} FailureSpoilsRecord()
    ensures Added(State([], 0), Option(2000, [1, 2, 3]), Fixed(4)) == State([], 2000)
    ensures Added(State([], 2000), Option(11, [1]), Fixed(4)) == State([Option(63547, [1])], 11)
  {
    hide Uint16, Encode;
    Wrapped(0);
    Wrapped(2000);
    Wrapped(-1989);
    LagIsError(State([], 0), Option(2000, [1, 2, 3]));
    LagIsError(State([], 2000), Option(11, [1]));
    assert Outcome([], 0, Option(2000, [1, 2, 3])) == [Option(2000, [1, 2, 3])];
    assert Outcome([], 2000, Option(11, [1])) == [Option(63547, [1])];
    ShortEncoding(Option(2000, [1, 2, 3]));
    ShortEncoding(Option(63547, [1]));
  }

  // ----- which runs are right -----

  /** The record is not consulted, or it is the last number and the option belongs to the end. */
  predicate Trusted(s: State, o: Option) {
    (o.number < s.max && s.opts != []) || (s.max == Last(s.opts, 0) && Rank(s.opts, o.number) == |s.opts|)
  }

  /** After the first k additions the message holds those options, sorted in, that fitted. */
  predicate RightAt(s: State, adds: seq<Option>, k: nat, room: Room)
    requires Known(s) && Numbered(adds) && k <= |adds|
  {
    Replay(s, adds[..k], room).opts == InsertAll(s.opts, Fitted(s, adds[..k], room))
  }

  /** The next addition does not fit, or it can rely on the record. */
  predicate SafeAt(s: State, adds: seq<Option>, k: nat, room: Room)
    requires Known(s) && Numbered(adds) && k < |adds|
  {
    var t := Replay(s, adds[..k], room);
    WillFit(t, adds[k], room) ==> Trusted(t, adds[k])
  }

  lemma {:induction false} ReplayNext(s: State, adds: seq<Option>, k: nat, room: Room)
    requires Known(s) && Numbered(adds) && k < |adds|
    ensures var t := Replay(s, adds[..k], room);
      && Replay(s, adds[..k + 1], room) == Added(t, adds[k], room)
      && Fitted(s, adds[..k + 1], room) == Fitted(s, adds[..k], room) + if WillFit(t, adds[k], room) then [adds[k]] else []
  {
    hide Added, WillFit;
    assert adds[..k + 1][..k] == adds[..k];
  }

  lemma {:induction false} InsertOneMore(opts: seq<Option>, adds: seq<Option>, o: Option)
    ensures InsertAll(opts, adds + [o]) == InsertSorted(InsertAll(opts, adds), o)
  {
    assert (adds + [o])[..|adds|] == adds;
  }

  lemma {:induction false} AddedOptions(t: State, o: Option, room: Room)
    requires Known(t) && Sized(o)
    ensures Added(t, o, room).opts == if WillFit(t, o, room) then Outcome(t.opts, t.max, o) else t.opts
  {
  }

  lemma {:induction false} RightNext(s: State, adds: seq<Option>, k: nat, room: Room)
    requires Known(s) && Numbered(adds) && k < |adds| && RightAt(s, adds, k, room)
    ensures RightAt(s, adds, k + 1, room) <==> SafeAt(s, adds, k, room)
  {
    hide Rank, Outcome, InsertSorted, InsertAll, Replay, Fitted, Added, WillFit;
    var (t, o, done) := (Replay(s, adds[..k], room), adds[k], Fitted(s, adds[..k], room));
    assert Sized(o);
    ReplayNext(s, adds, k, room);
    AddedOptions(t, o, room);
    OutcomeIsRight(t.opts, t.max, o);
    InsertOneMore(s.opts, done, o);
    assert done + [] == done;
  }

  lemma {:induction false} RightSoFar(s: State, adds: seq<Option>, k: nat, room: Room)
    requires Known(s) && Numbered(adds) && k <= |adds|
    ensures (forall i: nat :: i <= k ==> RightAt(s, adds, i, room)) <==> (forall i: nat :: i < k ==> SafeAt(s, adds, i, room))
  {
    hide RightAt, SafeAt, Numbered;
    if k == 0 {
      NothingAdded(s, adds, room);
    } else {
      RightSoFar(s, adds, k - 1, room);
      if RightAt(s, adds, k - 1, room) { RightNext(s, adds, k - 1, room); }
    }
  }

  lemma {:induction false} NothingAdded(s: State, adds: seq<Option>, room: Room)
    requires Known(s) && Numbered(adds)
    ensures RightAt(s, adds, 0, room)
  {
    assert adds[..0] == [];
  }

  /**
   * A run with failed additions in it is right at every moment exactly when no addition that fits relies on a
   * wrong record.
   */
  lemma {:induction false} RunIsRight(s: State, adds: seq<Option>, room: Room)
    requires Known(s) && Numbered(adds)
    ensures (forall k: nat :: k <= |adds| ==> RightAt(s, adds, k, room))
      <==> (forall k: nat :: k < |adds| ==> SafeAt(s, adds, k, room))
  {
    RightSoFar(s, adds, |adds|, room);
  }
}
