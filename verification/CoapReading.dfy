/** Reading a received CoAP message: what is accepted, and that reading and writing are inverse. */
module CoapReading {
  import opened Bytes
  import opened CoapOptions

  const PAYLOAD_MARKER: byte := 0xFF

  datatype Reading = Malformed | Message(opts: seq<Option>, payload: seq<byte>)

  /** The marker and the payload after it; an empty payload has no marker. */
  function Trailer(payload: seq<byte>): seq<byte> {
    if payload == [] then [] else [PAYLOAD_MARKER] + payload
  }

  /**
   * Whether the program takes the byte at `p` for an option header, in a message of `n` bytes that lies
   * at the start of the memory `b`. A half byte 14 announces two more bytes, but the program asks for
   * one; so up to two bytes after the message may be looked at before the message is refused.
   */
  predicate HasOption(b: seq<byte>, n: nat, p: nat)
    requires n + 2 <= |b|
    ensures HasOption(b, n, p) ==> CanRead(b, p)
  {
    p < n && Upper(b[p]) != 15 && Lower(b[p]) != 15
    && p + 1 + ExtraBytes(Upper(b[p])) + ExtraBytes(Lower(b[p])) <= n
  }

  /** Where the option at `p` ends, by the sizes that its delta and its length need. */
  function OptionEnd(b: seq<byte>, p: nat): (q: nat)
    requires CanRead(b, p)
    ensures p + 1 + LengthAt(b, p) <= q
  {
    p + 1 + ExtraBytes(DeltaAt(b, p)) + ExtraBytes(LengthAt(b, p)) + LengthAt(b, p)
  }

  /** The options from `p` on, after one with the given number, and the payload. */
  function Decode(b: seq<byte>, n: nat, p: nat, number: nat): Reading
    requires p <= n && n + 2 <= |b|
    decreases n - p
  {
    if p == n then Message([], [])
    else if b[p] == PAYLOAD_MARKER then if p + 1 < n then Message([], b[p + 1..n]) else Malformed
    else if !HasOption(b, n, p) || OptionEnd(b, p) > n then Malformed
    else
      var (q, next) := (OptionEnd(b, p), Uint16(number + DeltaAt(b, p)));
      match Decode(b, n, q, next)
      case Malformed => Malformed
      case Message(rest, payload) => Message([Option(next, b[q - LengthAt(b, p)..q])] + rest, payload)
  }

  lemma {:induction false} DecodeEnd(b: seq<byte>, n: nat, number: nat)
    requires n + 2 <= |b|
    ensures Decode(b, n, n, number) == Message([], [])
  {
  }

  lemma {:induction false} DecodeAt(b: seq<byte>, n: nat, p: nat, number: nat)
    requires p < n && n + 2 <= |b|
    ensures b[p] == PAYLOAD_MARKER ==>
      Decode(b, n, p, number) == if p + 1 < n then Message([], b[p + 1..n]) else Malformed
    ensures b[p] != PAYLOAD_MARKER && !(HasOption(b, n, p) && OptionEnd(b, p) <= n) ==> Decode(b, n, p, number).Malformed?
    ensures b[p] != PAYLOAD_MARKER && HasOption(b, n, p) && OptionEnd(b, p) <= n ==>
      (var (q, next) := (OptionEnd(b, p), Uint16(number + DeltaAt(b, p)));
       var rest := Decode(b, n, q, next);
       if rest.Malformed? then Decode(b, n, p, number).Malformed?
       else Decode(b, n, p, number) == Message([Option(next, b[q - LengthAt(b, p)..q])] + rest.opts, rest.payload))
  {
    hide DeltaAt, LengthAt, CanRead, HasOption, OptionEnd, Uint16;
  }

  /** The two extra bytes of a half byte 14 do not overflow 16 bits. */
  predicate Fits(b: seq<byte>, h: nat, p: nat)
    requires p + ExtraBytesOf(h) <= |b|
  {
    h == 14 ==> 256 * (b[p] as int) + (b[p + 1] as int) + 269 < 65536
  }

  /** Neither does for the option at `p`. */
  predicate BothFit(b: seq<byte>, p: nat)
    requires CanRead(b, p)
  {
    Fits(b, Upper(b[p]), p + 1) && Fits(b, Lower(b[p]), p + 1 + ExtraBytesOf(Upper(b[p])))
  }

  /** No 16-bit number overflows while the options are read. */
  predicate Tidy(b: seq<byte>, n: nat, p: nat, number: nat)
    requires p <= n && n + 2 <= |b|
    decreases n - p
  {
    p == n || b[p] == PAYLOAD_MARKER || !HasOption(b, n, p) || OptionEnd(b, p) > n
    || (BothFit(b, p) && number + DeltaAt(b, p) < 65536 && Tidy(b, n, OptionEnd(b, p), number + DeltaAt(b, p)))
  }

  // ----- reading what was written -----

  /** The first option of an encoding, as the program reads it. */
  lemma {:induction false} ReadFirst(pre: seq<byte>, o: Option, prev: nat, post: seq<byte>, n: nat)
    requires o.number < 65536 && |o.value| < 65536 && prev < 65536
    requires var one := EncodeOne(Delta(o.number, prev), o.value); |pre + one| <= n && n + 2 <= |pre + one + post|
    ensures var one := EncodeOne(Delta(o.number, prev), o.value);
      var (b, p, q) := (pre + one + post, |pre|, |pre + one|);
      && HasOption(b, n, p) && b[p] != PAYLOAD_MARKER && DeltaAt(b, p) == Delta(o.number, prev)
      && OptionEnd(b, p) == q && b[q - LengthAt(b, p)..q] == o.value && BothFit(b, p)
      && Uint16(prev + DeltaAt(b, p)) == o.number
  {
    hide EncodeOne, DeltaAt, LengthAt, CanRead, Delta, Uint16;
    DeltaBack(o.number, prev);
    var delta := Delta(o.number, prev);
    ReadBack(pre, delta, o.value, post);
    NibblesBack(|o.value|, delta);
    NibblesBack(delta, delta);
    var (b, p) := (pre + EncodeOne(delta, o.value) + post, |pre|);
    FitsBack(b, p);
  }

  /** A minimal header means that nothing overflowed. */
  lemma {:induction false} FitsBack(b: seq<byte>, p: nat)
    requires CanRead(b, p) && Upper(b[p]) == Nibble(DeltaAt(b, p)) && Lower(b[p]) == Nibble(LengthAt(b, p))
    ensures BothFit(b, p)
  {
  }

  /** One step of reading. */
  lemma {:induction false} DecodeStep(b: seq<byte>, n: nat, p: nat, number: nat, o: Option)
    requires n + 2 <= |b| && HasOption(b, n, p) && b[p] != PAYLOAD_MARKER && OptionEnd(b, p) <= n && BothFit(b, p)
    requires Uint16(number + DeltaAt(b, p)) == o.number && o.value == b[OptionEnd(b, p) - LengthAt(b, p)..OptionEnd(b, p)]
    requires Decode(b, n, OptionEnd(b, p), o.number).Message?
    ensures var rest := Decode(b, n, OptionEnd(b, p), o.number);
      Decode(b, n, p, number) == Message([o] + rest.opts, rest.payload)
    ensures number + DeltaAt(b, p) == o.number && Tidy(b, n, OptionEnd(b, p), o.number) ==> Tidy(b, n, p, number)
  {
    hide DeltaAt, LengthAt, CanRead, HasOption, OptionEnd, BothFit, Uint16;
  }

  /**
   * Options that were encoded are read back, whatever bytes come before them and after the message; when
   * their numbers never decrease, no 16-bit number overflows on the way.
   */
  lemma {:induction false} DecodeEncoded(pre: seq<byte>, opts: seq<Option>, prev: nat, payload: seq<byte>, slack: seq<byte>)
    requires Numbered(opts) && prev < 65536 && |slack| >= 2
    ensures var m := pre + Encode(opts, prev) + Trailer(payload);
      && Decode(m + slack, |m|, |pre|, prev) == Message(opts, payload)
      && (Ascending(opts, prev) ==> Tidy(m + slack, |m|, |pre|, prev))
    decreases |opts|
  {
    hide EncodeOne, DeltaAt, LengthAt, CanRead, HasOption, OptionEnd, BothFit, Uint16, Delta, Decode, Tidy, Trailer, Encode, Numbered, Ascending;
    var m := pre + Encode(opts, prev) + Trailer(payload);
    if opts == [] {
      NothingEncoded(pre, prev, payload, slack);
    } else {
      var (o, rest) := (opts[0], opts[1..]);
      assert [o] + rest == opts;
      EncodeCons(o, rest, prev);
      AscendingCons(o, rest, prev);
      var (one, more, t) := (EncodeOne(Delta(o.number, prev), o.value), Encode(rest, o.number), Trailer(payload));
      Regroup(pre, one, more);
      assert m == pre + one + more + t;
      FiveParts(pre + one, more, t, slack);
      ReadFirst(pre, o, prev, more + t + slack, |m|);
      DecodeEncoded(pre + one, rest, o.number, payload, slack);
      assert prev <= o.number ==> prev + Delta(o.number, prev) == o.number;
      DecodeStep(m + slack, |m|, |pre|, prev, o);
    }
  }

  lemma {:induction false} NothingEncoded(pre: seq<byte>, prev: nat, payload: seq<byte>, slack: seq<byte>)
    requires |slack| >= 2
    ensures var m := pre + Encode([], prev) + Trailer(payload);
      Decode(m + slack, |m|, |pre|, prev) == Message([], payload) && Tidy(m + slack, |m|, |pre|, prev)
  {
    var m := pre + Encode([], prev) + Trailer(payload);
    assert m == pre + Trailer(payload);
    if payload != [] {
      assert (m + slack)[|pre| + 1..|m|] == payload;
    }
  }

  // ----- writing what was read -----

  /** A half byte and its extra bytes are the minimal form of a number that did not overflow. */
  lemma {:induction false} HalfRead(b: seq<byte>, h: nat, p: nat)
    requires h < 15 && p + ExtraBytesOf(h) <= |b| && Fits(b, h, p)
    ensures var v := ReadValue(b, h, p);
      v < 65536 && Nibble(v) == h && ExtraBytes(v) == ExtraBytesOf(h) && b[p..p + ExtraBytesOf(h)] == Extension(v)
  {
    if h == 14 {
      TwoBytes(b[p], b[p + 1]);
      assert b[p..p + 2] == [b[p], b[p + 1]];
    } else if h == 13 {
      assert b[p..p + 1] == [b[p]];
    }
  }

  lemma TwoBytes(high: byte, low: byte)
    requires 256 * high as int + low as int + 269 < 65536
    ensures var v := 256 * high as int + low as int + 269; Uint16(v) == v && Extension(v) == [high, low]
  {
  }

  /** An option whose numbers did not overflow is encoded as it was. */
  lemma {:induction false} EncodeRead(b: seq<byte>, n: nat, p: nat)
    requires n + 2 <= |b| && HasOption(b, n, p) && OptionEnd(b, p) <= n && BothFit(b, p)
    ensures var q := OptionEnd(b, p);
      LengthAt(b, p) < 65536 && b[p..q] == EncodeOne(DeltaAt(b, p), b[q - LengthAt(b, p)..q])
  {
    var (u, l) := (Upper(b[p]), Lower(b[p]));
    var (i, j, q) := (p + 1 + ExtraBytesOf(u), p + 1 + ExtraBytesOf(u) + ExtraBytesOf(l), OptionEnd(b, p));
    HalfRead(b, u, p + 1);
    HalfRead(b, l, i);
    assert b[p] == Header(DeltaAt(b, p), LengthAt(b, p));
    hide Nibble, Extension, ExtraBytes, ExtraBytesOf, ReadValue, Header, Upper, Lower, Fits, HasOption, BothFit;
    SplitSlice(b, p, p + 1, i);
    SplitSlice(b, p, i, j);
    SplitSlice(b, p, j, q);
  }

  /** And only such an option. */
  lemma {:induction false} OnlyFitting(b: seq<byte>, n: nat, p: nat)
    requires n + 2 <= |b| && HasOption(b, n, p) && b[p] == Header(DeltaAt(b, p), LengthAt(b, p))
    ensures BothFit(b, p)
  {
    NibblesBack(LengthAt(b, p), DeltaAt(b, p));
    FitsBack(b, p);
  }

  /** An accepted message is the encoding of what was read from it, exactly when no 16-bit number overflowed. */
  lemma {:induction false} EncodeDecoded(b: seq<byte>, n: nat, p: nat, number: nat)
    requires p <= n && n + 2 <= |b| && number < 65536 && Decode(b, n, p, number).Message?
    ensures var m := Decode(b, n, p, number);
      Tidy(b, n, p, number) <==> Encodable(m.opts, number) && b[p..n] == Encode(m.opts, number) + Trailer(m.payload)
    decreases n - p
  {
    hide EncodeOne, DeltaAt, LengthAt, CanRead, HasOption, OptionEnd, BothFit, Uint16;
    if p == n || b[p] == PAYLOAD_MARKER {
      EncodeNothing(b, n, p, number);
    } else {
      var (q, next) := (OptionEnd(b, p), Uint16(number + DeltaAt(b, p)));
      EncodeDecoded(b, n, q, next);
      var (rest, payload) := (Decode(b, n, q, next).opts, Decode(b, n, q, next).payload);
      var o := Option(next, b[q - LengthAt(b, p)..q]);
      assert Decode(b, n, p, number) == Message([o] + rest, payload);
      LengthFits(b, p);
      SumWraps(number, DeltaAt(b, p));
      if Tidy(b, n, p, number) {
        StepForward(b, n, p, number, o, rest, Trailer(payload));
      }
      if Encodable([o] + rest, number) && b[p..n] == Encode([o] + rest, number) + Trailer(payload) {
        StepBack(b, n, p, number, o, rest, Trailer(payload));
      }
    }
  }

  lemma {:induction false} EncodeNothing(b: seq<byte>, n: nat, p: nat, number: nat)
    requires p <= n && n + 2 <= |b| && (p == n || b[p] == PAYLOAD_MARKER) && Decode(b, n, p, number).Message?
    ensures var m := Decode(b, n, p, number);
      Tidy(b, n, p, number) && Encodable(m.opts, number) && b[p..n] == Encode(m.opts, number) + Trailer(m.payload)
  {
  }

  lemma {:induction false} StepForward(b: seq<byte>, n: nat, p: nat, number: nat, o: Option, rest: seq<Option>, t: seq<byte>)
    requires n + 2 <= |b| && HasOption(b, n, p) && OptionEnd(b, p) <= n && BothFit(b, p)
    requires number + DeltaAt(b, p) == o.number < 65536 && o.value == b[OptionEnd(b, p) - LengthAt(b, p)..OptionEnd(b, p)]
    requires Encodable(rest, o.number) && b[OptionEnd(b, p)..n] == Encode(rest, o.number) + t
    ensures Encodable([o] + rest, number) && b[p..n] == Encode([o] + rest, number) + t
  {
    LengthFits(b, p);
    assert ([o] + rest)[1..] == rest;
    assert Encodable([o] + rest, number);
    hide EncodeOne, DeltaAt, LengthAt, CanRead, HasOption, OptionEnd, BothFit;
    EncodeRead(b, n, p);
    EncodeCons(o, rest, number);
    assert Delta(o.number, number) == DeltaAt(b, p);
    hide *;
    SplitSlice(b, p, OptionEnd(b, p), n);
    Regroup(EncodeOne(Delta(o.number, number), o.value), Encode(rest, o.number), t);
  }

  lemma {:induction false} SumWraps(i: nat, j: nat)
    requires i < 65536 && j < 65536
    ensures Uint16(i + j) == if i + j < 65536 then i + j else i + j - 65536
  {
  }

  lemma {:induction false} LengthFits(b: seq<byte>, p: nat)
    requires CanRead(b, p)
    ensures LengthAt(b, p) < 65536 && DeltaAt(b, p) < 65536
  {
  }

  lemma {:induction false} StepBack(b: seq<byte>, n: nat, p: nat, number: nat, o: Option, rest: seq<Option>, t: seq<byte>)
    requires n + 2 <= |b| && HasOption(b, n, p) && OptionEnd(b, p) <= n && number < 65536
    requires o == Option(Uint16(number + DeltaAt(b, p)), b[OptionEnd(b, p) - LengthAt(b, p)..OptionEnd(b, p)])
    requires Encodable([o] + rest, number) && b[p..n] == Encode([o] + rest, number) + t
    ensures BothFit(b, p) && number + DeltaAt(b, p) == o.number
    ensures Encodable(rest, o.number) && b[OptionEnd(b, p)..n] == Encode(rest, o.number) + t
  {
    hide EncodeOne, DeltaAt, LengthAt, CanRead, HasOption, OptionEnd, BothFit, Ascending, Numbered, Encode, Header, Uint16, Delta;
    AscendingCons(o, rest, number);
    LengthFits(b, p);
    EncodeCons(o, rest, number);
    SumWraps(number, DeltaAt(b, p));
    var (one, more, q) := (EncodeOne(o.number - number, o.value), Encode(rest, o.number), OptionEnd(b, p));
    HeaderFirst(o.number - number, o.value);
    Regroup(one, more, t);
    assert b[p] == b[p..n][0];
    OnlyFitting(b, n, p);
    EncodeRead(b, n, p);
    SplitSlice(b, p, q, n);
    SameTail(b[p..q], b[q..n], more + t);
  }

  lemma {:induction false} HeaderFirst(delta: nat, value: seq<byte>)
    requires delta < 65536 && |value| < 65536
    ensures EncodeOne(delta, value)[0] == Header(delta, |value|)
  {
  }

  /** Two extra bytes 0xFF read as the small delta 268, so the second one is taken for the payload marker. */
  lemma {:induction false} OverflowIsAccepted()
    ensures var b: seq<byte> := [0xE0, 0xFF, 0xFF, 7, 0, 0];
      Decode(b, 4, 0, 0) == Message([Option(268, [])], [7]) && !Tidy(b, 4, 0, 0)
  {
    var b: seq<byte> := [0xE0, 0xFF, 0xFF, 7, 0, 0];
    assert CanRead(b, 0) && DeltaAt(b, 0) == 268 && LengthAt(b, 0) == 0 && OptionEnd(b, 0) == 2 && HasOption(b, 4, 0);
    assert !Fits(b, 14, 1) && Upper(b[0]) == 14;
    assert b[2] == PAYLOAD_MARKER && b[3..4] == [7];
    assert Decode(b, 4, 2, 268) == Message([], [7]);
    assert b[2..2] == [];
    Wrapped(268);
    hide Uint16, DeltaAt, LengthAt, OptionEnd, HasOption, CanRead, Fits;
    assert Decode(b, 4, 0, 0) == Message([Option(268, [])] + [], [7]);
  }

  // ----- whole messages -----

  const HEADER_SIZE: nat := 4

  /** The codes of section 12.1 of RFC 7252 that the program knows. */
  predicate KnownCode(code: byte) {
    code <= 0x04 || 0x41 <= code <= 0x45 || 0x80 <= code <= 0x86 || code == 0x8C || code == 0x8D || code == 0x8F
    || 0xA0 <= code <= 0xA5
  }

  /** These are the codes 0.00 to 0.04, 2.01 to 2.05, 4.00 to 4.06, 4.12, 4.13, 4.15 and 5.00 to 5.05. */
  lemma KnownCodes(code: byte)
    ensures var (class', detail) := (code / 32, code % 32);
      KnownCode(code) <==>
        || (class' == 0 && detail <= 4) || (class' == 2 && 1 <= detail <= 5)
        || (class' == 4 && (detail <= 6 || detail == 12 || detail == 13 || detail == 15)) || (class' == 5 && detail <= 5)
  {
  }

  /** The length of the header and the token. */
  function HeadLength(b: seq<byte>): (l: nat)
    requires |b| > 0
    ensures HEADER_SIZE <= l
  {
    HEADER_SIZE + Lower(b[0])
  }

  predicate HeadIsSound(b: seq<byte>, n: nat)
    requires n + 2 <= |b|
  {
    n >= HEADER_SIZE && Lower(b[0]) <= 8 && HeadLength(b) <= n && KnownCode(b[1])
  }

  predicate Acceptable(b: seq<byte>, n: nat)
    requires n + 2 <= |b|
  {
    HeadIsSound(b, n) && Decode(b, n, HeadLength(b), 0).Message?
  }

  /** Exactly the well-formed messages are accepted, if no 16-bit number overflows. */
  lemma {:induction false} AcceptedAreEncodings(b: seq<byte>, n: nat)
    requires n + 2 <= |b| && HeadIsSound(b, n) && Tidy(b, n, HeadLength(b), 0)
    ensures Acceptable(b, n) <==> exists opts, payload ::
      Encodable(opts, 0) && b[..n] == b[..HeadLength(b)] + Encode(opts, 0) + Trailer(payload)
  {
    hide Decode, Tidy, Encode, Numbered, Ascending, Trailer;
    var (h, head) := (HeadLength(b), b[..HeadLength(b)]);
    SplitSlice(b, 0, h, n);
    assert b[0..n] == b[..n] && b[0..h] == head;
    if Acceptable(b, n) {
      EncodeDecoded(b, n, h, 0);
      var m := Decode(b, n, h, 0);
      Regroup(head, Encode(m.opts, 0), Trailer(m.payload));
      assert b[..n] == head + Encode(m.opts, 0) + Trailer(m.payload);
    }
    forall opts, payload | Encodable(opts, 0) && b[..n] == head + Encode(opts, 0) + Trailer(payload)
      ensures Acceptable(b, n)
    {
      assert b[..n] + b[n..] == b;
      DecodeEncoded(head, opts, 0, payload, b[n..]);
    }
  }
}
