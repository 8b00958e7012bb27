/** A CoAP message that is built in place: options are inserted into the middle of its byte buffer. */
module CoapPdu {
  import opened Bytes
  import opened CoapOptions
  import opened CoapReading
  import opened CoapRuns

  /** An option's bytes: header, extra delta bytes, and the part that does not depend on the delta. */
  function Tail(value: seq<byte>): seq<byte>
    requires |value| < 65536
  {
    Extension(|value|) + value
  }

  lemma {:induction false} EncodeOneParts(delta: nat, value: seq<byte>)
    requires delta < 65536 && |value| < 65536
    ensures EncodeOne(delta, value) == [Header(delta, |value|)] + Extension(delta) + Tail(value)
  {
    var (h: seq<byte>, e) := ([Header(delta, |value|)], Extension(delta));
    Regroup(h + e, Extension(|value|), value);
  }

  /** The bytes around one option. */
  function Around(pre: seq<byte>, d: nat, value: seq<byte>, rest: seq<byte>): seq<byte>
    requires d < 65536 && |value| < 65536
  {
    pre + EncodeOne(d, value) + rest
  }

  /** The bytes around two options in a row. */
  function AroundTwo(pre: seq<byte>, d1: nat, v1: seq<byte>, d2: nat, v2: seq<byte>, rest: seq<byte>): seq<byte>
    requires d1 < 65536 && |v1| < 65536 && d2 < 65536 && |v2| < 65536
  {
    pre + EncodeOne(d1, v1) + (EncodeOne(d2, v2) + rest)
  }

  /** Splitting a gap never needs fewer bytes than it had. */
  lemma {:induction false} SplitDelta(d1: nat, d2: nat)
    ensures ExtraBytes(d1 + d2) <= 1 + ExtraBytes(d1) + ExtraBytes(d2)
    ensures ExtraBytes(d2) <= ExtraBytes(d1 + d2)
  {
  }

  /** The block `[h] + x + u` has been shifted up by `m`. */
  lemma {:induction false} AfterShift(s0: seq<byte>, pre: seq<byte>, h: byte, x: seq<byte>, u: seq<byte>, m: nat)
    requires var block := [h] + x + u; |pre| + m + |block| <= |s0| && s0[..|pre|] == pre
    ensures var s1 := Overwrite(s0, |pre| + m, [h] + x + u);
      var k := |pre| + m + 1 + |x|;
      s1[..|pre|] == pre && s1[|pre| + m] == h && s1[k..k + |u|] == u
  {
    var (p, block) := (|pre| + m, [h] + x + u);
    var s1 := Overwrite(s0, p, block);
    OverwriteKeeps(s0, p, block, 0, |pre|);
    OverwriteParts(s0, p, block);
    hide Overwrite;
    assert s1[p] == s1[p..p + |block|][0];
    DropPrefix([h] + x, u);
    assert s1[p + 1 + |x|..p + |block|] == s1[p..p + |block|][1 + |x|..];
  }

  /** The header of the next option and the new option have been written in front of the unchanged part `u`. */
  lemma {:induction false} AfterWrites(s2: seq<byte>, pre: seq<byte>, new': seq<byte>, t: seq<byte>, u: seq<byte>)
    requires var k := |pre| + |new'| + |t|; k + |u| <= |s2| && s2[..|pre|] == pre && s2[k..k + |u|] == u
    ensures var s4 := Overwrite(Overwrite(s2, |pre| + |new'|, t), |pre|, new');
      s4[..|pre| + |new'| + |t| + |u|] == pre + new' + (t + u)
  {
    var (p, q, k) := (|pre|, |pre| + |new'|, |pre| + |new'| + |t|);
    var n := k + |u|;
    var s3 := Overwrite(s2, q, t);
    var s4 := Overwrite(s3, p, new');
    OverwriteParts(s2, q, t);
    OverwriteKeeps(s2, q, t, 0, p);
    OverwriteKeeps(s2, q, t, k, n);
    OverwriteParts(s3, p, new');
    OverwriteKeeps(s3, p, new', 0, p);
    OverwriteKeeps(s3, p, new', q, k);
    OverwriteKeeps(s3, p, new', k, n);
    hide Overwrite;
    FourParts(s4, p, q, k, n);
  }

  lemma {:induction false} HeadOf(s: seq<byte>, n: nat, head: seq<byte>, e: seq<byte>)
    requires n <= |s| && s[..n] == head + e && |head| >= 1
    ensures s[0] == head[0]
  {
    assert s[..n][0] == head[0];
  }

  lemma {:induction false} FirstByte(s: seq<byte>, n: nat, hdr: seq<byte>, token: seq<byte>, e: seq<byte>, x: byte)
    requires n <= |s| && |hdr| == 4 && s[..n] == hdr + token + e
    ensures s[0] == hdr[0] && s[0 := x][..n] == [x] + hdr[1..] + token + e
  {
    assert s[0] == s[..n][0];
    assert s[0 := x][..n] == s[..n][0 := x];
  }

  lemma {:induction false} SameToken(s: seq<byte>, n: nat, head: seq<byte>, e: seq<byte>, token: seq<byte>)
    requires n <= |s| && s[..n] == head + e && |head| == 4 + |token|
    ensures Overwrite(s, 4, token)[..n] == head[..4] + token + e
  {
    var r := Overwrite(s, 4, token);
    OverwriteParts(s, 4, token);
    assert s[..4] == s[..n][..4] == head[..4];
    OverwriteKeeps(s, 4, token, 4 + |token|, n);
    assert s[4 + |token|..n] == s[..n][|head|..] == e;
    hide Overwrite;
    ThreeParts(r, 4, 4 + |token|, n);
  }

  lemma {:induction false} LongerBytes(s: seq<byte>, hdr: seq<byte>, old': seq<byte>, e: seq<byte>, token: seq<byte>)
    requires |hdr| == 4 && |old'| < |token| && 4 + |token| + |e| <= |s| && s[..4 + |old'| + |e|] == hdr + old' + e
    ensures var s1 := Overwrite(s, 4 + |token|, s[4 + |old'|..4 + |old'| + |e|]);
      Overwrite(s1, 4, token)[..4 + |token| + |e|] == hdr + token + e
  {
    var (k, m, n) := (4 + |old'|, 4 + |old'| + |e|, 4 + |token| + |e|);
    assert s[..4] == s[..m][..4] == hdr;
    assert s[k..m] == s[..m][k..] == e;
    var s1 := Overwrite(s, 4 + |token|, e);
    var s2 := Overwrite(s1, 4, token);
    OverwriteKeeps(s, 4 + |token|, e, 0, 4);
    OverwriteParts(s, 4 + |token|, e);
    OverwriteKeeps(s1, 4, token, 4 + |token|, n);
    OverwriteParts(s1, 4, token);
    hide Overwrite;
    ThreeParts(s2, 4, 4 + |token|, n);
  }

  lemma {:induction false} ShorterBytes(s: seq<byte>, hdr: seq<byte>, old': seq<byte>, e: seq<byte>, token: seq<byte>)
    requires |hdr| == 4 && |token| < |old'| && 4 + |old'| + |e| <= |s| && s[..4 + |old'| + |e|] == hdr + old' + e
    ensures var s1 := Overwrite(s, 4, token);
      Overwrite(s1, 4 + |token|, s1[4 + |old'|..4 + |old'| + |e|])[..4 + |token| + |e|] == hdr + token + e
  {
    var (k, m, n) := (4 + |old'|, 4 + |old'| + |e|, 4 + |token| + |e|);
    assert s[..4] == s[..m][..4] == hdr;
    assert s[k..m] == s[..m][k..] == e;
    var s1 := Overwrite(s, 4, token);
    OverwriteParts(s, 4, token);
    OverwriteKeeps(s, 4, token, k, m);
    var s2 := Overwrite(s1, 4 + |token|, e);
    OverwriteParts(s1, 4 + |token|, e);
    OverwriteKeeps(s1, 4 + |token|, e, 0, 4);
    OverwriteKeeps(s1, 4 + |token|, e, 4, 4 + |token|);
    hide Overwrite;
    ThreeParts(s2, 4, 4 + |token|, n);
  }

  /** A first header byte with another token length. */
  function WithTokenLength(b: byte, tokenLength: nat): (r: byte)
    requires tokenLength < 16
    ensures Lower(r) == tokenLength
  {
    b - b % 16 + tokenLength
  }

  class Pdu {
    var pdu: array<byte>
    var pduLength: nat
    var bufferLength: nat
    var constructedFromBuffer: bool
    var numOptions: nat
    var maxAddedOptionNumber: nat
    var payloadStart: nat
    var payloadLength: nat

    /** The header and token bytes, and the options encoded after them. */
    ghost var head: seq<byte>
    ghost var opts: seq<Option>

    /** The bytes are the header, the token and the encoded options; no payload follows. */
    ghost predicate Valid()
      reads this, pdu
    {
      && pduLength <= bufferLength == pdu.Length
      && HEADER_SIZE <= |head| && |head| == HEADER_SIZE + Lower(head[0])
      && Numbered(opts) && pdu[..pduLength] == head + Encode(opts, 0)
      && maxAddedOptionNumber < 65536
    }

    /** The options are sorted and the record of the largest option number is up to date. */
    ghost predicate InStep()
      reads this
    {
      Ascending(opts, 0) && maxAddedOptionNumber == Last(opts, 0)
    }

    /** What additions depend on. */
    ghost function Records(): State
      reads this
    {
      State(opts, maxAddedOptionNumber)
    }

    /** The bytes there are for options. */
    ghost function Space(): Room
      reads this
    {
      if constructedFromBuffer then Fixed(if |head| <= bufferLength then bufferLength - |head| else 0) else Growing
    }

    /** A message with its own memory, which grows on demand. */
    constructor ()
      ensures Valid() && InStep() && opts == [] && head == [64, 0, 0, 0] && fresh(pdu) && !constructedFromBuffer
    {
      pdu := new byte[4](_ => 0);
      pduLength, bufferLength, numOptions, maxAddedOptionNumber := 4, 4, 0, 0;
      payloadStart, payloadLength, constructedFromBuffer := 0, 0, false;
      head, opts := [64, 0, 0, 0], [];
      new;
      SetVersion(1);
      assert pdu[..4] == head;
    }

    /** A message in an external buffer: a fresh one when `length` is 0, and otherwise a received one. */
    constructor OnBuffer(buffer: array<byte>, length: nat)
      requires if length == 0 then buffer.Length >= HEADER_SIZE else length <= buffer.Length
      modifies buffer
      ensures pdu == buffer && bufferLength == buffer.Length && constructedFromBuffer
      ensures length == 0 ==> Valid() && InStep() && opts == [] && head == [64, 0, 0, 0]
      ensures length > 0 ==> pduLength == length && buffer[..] == old(buffer[..])
    {
      pdu, bufferLength, numOptions, maxAddedOptionNumber := buffer, buffer.Length, 0, 0;
      pduLength := if length == 0 then 4 else length;
      payloadStart, payloadLength, constructedFromBuffer := 0, 0, true;
      head, opts := [64, 0, 0, 0], [];
      new;
      if length == 0 {
        pdu[0], pdu[1], pdu[2], pdu[3] := 0, 0, 0, 0;
        SetVersion(1);
        assert pdu[..4] == head;
      }
    }

    method SetVersion(version: nat)
      requires version <= 3 && pdu.Length > 0
      modifies pdu
      ensures pdu[0] == old(pdu[0]) % 64 + 64 * version
      ensures forall i :: 0 < i < pdu.Length ==> pdu[i] == old(pdu[i])
    {
      pdu[0] := pdu[0] % 64;
      pdu[0] := pdu[0] + 64 * version;
    }

    /** Moves a block of bytes to the end, last byte first. */
    method ShiftPduUp(shiftOffset: nat, shiftAmount: nat)
      requires pduLength <= pdu.Length && shiftOffset + shiftAmount <= pduLength
      modifies pdu
      ensures forall i :: pduLength - shiftAmount <= i < pduLength ==> pdu[i] == old(pdu[i - shiftOffset])
      ensures forall i :: 0 <= i < pduLength - shiftAmount || pduLength <= i < pdu.Length ==> pdu[i] == old(pdu[i])
    {
      var destPointer: int := pduLength - 1;
      var srcPointer: int := destPointer - shiftOffset;
      var left := shiftAmount;
      while left > 0
        invariant 0 <= left <= shiftAmount
        invariant destPointer == pduLength - 1 - (shiftAmount - left) && srcPointer == destPointer - shiftOffset
        invariant forall i :: destPointer < i < pduLength ==> pdu[i] == old(pdu[i - shiftOffset])
        invariant forall i :: 0 <= i <= destPointer || pduLength <= i < pdu.Length ==> pdu[i] == old(pdu[i])
      {
        pdu[destPointer] := pdu[srcPointer];
        destPointer := destPointer - 1;
        srcPointer := srcPointer - 1;
        left := left - 1;
      }
    }

    /** What the shift leaves, as a sequence. */
    method ShiftUp(shiftOffset: nat, shiftAmount: nat)
      requires pduLength <= pdu.Length && shiftOffset + shiftAmount <= pduLength
      modifies pdu
      ensures var source := pduLength - shiftOffset - shiftAmount;
        pdu[..] == old(Overwrite(pdu[..], pduLength - shiftAmount, pdu[..][source..source + shiftAmount]))
    {
      hide Overwrite;
      ghost var before := pdu[..];
      ShiftPduUp(shiftOffset, shiftAmount);
      ghost var after := pdu[..];
      forall i | pduLength - shiftAmount <= i < pduLength
        ensures after[i] == before[i - shiftOffset]
      {
        assert pdu[i] == old(pdu[i - shiftOffset]);
      }
      forall i | 0 <= i < pduLength - shiftAmount || pduLength <= i < |after|
        ensures after[i] == before[i]
      {
        assert pdu[i] == old(pdu[i]);
      }
      ShiftedIs(before, after, pduLength, shiftOffset, shiftAmount);
    }

    /** Moves a block of bytes down, first byte first. */
    method ShiftPduDown(startLocation: nat, shiftOffset: nat, shiftAmount: nat)
      requires startLocation + shiftOffset + shiftAmount <= pdu.Length
      modifies pdu
      ensures var source := startLocation + shiftOffset;
        pdu[..] == old(Overwrite(pdu[..], startLocation, pdu[..][source..source + shiftAmount]))
    {
      ghost var before := pdu[..];
      var destPointer, srcPointer := startLocation, startLocation + shiftOffset;
      var left := shiftAmount;
      while left > 0
        invariant 0 <= left <= shiftAmount
        invariant destPointer == startLocation + (shiftAmount - left) && srcPointer == destPointer + shiftOffset
        invariant forall i :: startLocation <= i < destPointer ==> pdu[i] == before[i + shiftOffset]
        invariant forall i :: 0 <= i < startLocation || destPointer <= i < pdu.Length ==> pdu[i] == before[i]
      {
        pdu[destPointer] := pdu[srcPointer];
        destPointer := destPointer + 1;
        srcPointer := srcPointer + 1;
        left := left - 1;
      }
      hide Overwrite;
      ShiftedDownIs(before, pdu[..], startLocation, shiftOffset, shiftAmount);
    }

    /** Writes the extra bytes of a number. */
    method PutExtension(p: nat, n: nat)
      requires n < 65536 && p + ExtraBytes(n) <= pdu.Length
      modifies pdu
      ensures pdu[..] == old(Overwrite(pdu[..], p, Extension(n)))
    {
      if 13 <= n < 269 {
        pdu[p] := n - 13;
      } else if n >= 269 {
        pdu[p] := (n - 269) / 256;
        pdu[p + 1] := (n - 269) % 256;
      }
    }

    method PutUpperHalf(p: nat, h: nat)
      requires p < pdu.Length && h < 16
      modifies pdu
      ensures pdu[..] == old(Overwrite(pdu[..], p, [16 * h + Lower(pdu[p])]))
    {
      ghost var before := pdu[..];
      hide Overwrite;
      pdu[p] := pdu[p] % 16;
      pdu[p] := pdu[p] + 16 * h;
      OverwriteOne(before, p, 16 * h + Lower(before[p]));
    }

    method SetOptionDelta(optionPosition: nat, optionDelta: nat)
      requires optionDelta < 65536 && optionPosition + 1 + ExtraBytes(optionDelta) <= pdu.Length
      modifies pdu
      ensures pdu[..] == old(Overwrite(pdu[..], optionPosition,
        [16 * Nibble(optionDelta) + Lower(pdu[optionPosition])] + Extension(optionDelta)))
    {
      hide Overwrite, Extension, ExtraBytes, Nibble, Lower;
      ghost var before := pdu[..];
      PutUpperHalf(optionPosition, Nibble(optionDelta));
      ghost var header: seq<byte> := [16 * Nibble(optionDelta) + Lower(before[optionPosition])];
      assert pdu[..] == Overwrite(before, optionPosition, header);
      PutExtension(optionPosition + 1, optionDelta);
      OverwriteTwice(before, optionPosition, header, Extension(optionDelta));
    }

    method CopyValue(p: nat, value: seq<byte>)
      requires p + |value| <= pdu.Length
      modifies pdu
      ensures pdu[..] == old(Overwrite(pdu[..], p, value))
    {
      forall i | 0 <= i < |value| {
        pdu[p + i] := value[i];
      }
    }

    /** Writes the first byte of an option, one half at a time. */
    method PutHeader(headerStart: nat, optionDelta: nat, optionValueLength: nat)
      requires headerStart < pdu.Length
      modifies pdu
      ensures pdu[..] == old(Overwrite(pdu[..], headerStart, [Header(optionDelta, optionValueLength)]))
    {
      ghost var before := pdu[..];
      pdu[headerStart] := 16 * Nibble(optionDelta);
      pdu[headerStart] := pdu[headerStart] + Nibble(optionValueLength);
      OverwriteOne(before, headerStart, Header(optionDelta, optionValueLength));
    }

    method InsertOption(insertionPosition: nat, optionDelta: nat, value: seq<byte>)
      requires optionDelta < 65536 && |value| < 65536
      requires insertionPosition + |EncodeOne(optionDelta, value)| <= pdu.Length
      modifies pdu
      ensures pdu[..] == old(Overwrite(pdu[..], insertionPosition, EncodeOne(optionDelta, value)))
    {
      ghost var (before, d, l) := (pdu[..], Extension(optionDelta), Extension(|value|));
      ghost var header := [Header(optionDelta, |value|)];
      assert EncodeOne(optionDelta, value) == header + d + l + value;
      hide *;
      OverwriteInParts(before, insertionPosition, header, d, l, value);
      PutHeader(insertionPosition, optionDelta, |value|);
      var p := insertionPosition + 1;
      PutExtension(p, optionDelta);
      p := p + ExtraBytes(optionDelta);
      PutExtension(p, |value|);
      p := p + ExtraBytes(|value|);
      CopyValue(p, value);
    }

    function GetTokenLength(): nat
      reads this, pdu
      requires pdu.Length > 0
    {
      Lower(pdu[0])
    }

    /** Where a new option goes, and the number of the option before that place. */
    method FindInsertionPosition(optionNumber: nat) returns (position: nat, prevOptionNumber: nat, ghost k: nat)
      requires Valid() && optionNumber < 65536
      ensures optionNumber >= maxAddedOptionNumber || opts == [] ==>
        position == pduLength && prevOptionNumber == maxAddedOptionNumber
      ensures optionNumber < maxAddedOptionNumber && opts != [] ==>
        k == Rank(opts, optionNumber) && Numbered(opts[..k]) && (position == pduLength <==> k == |opts|)
        && prevOptionNumber == Last(opts[..k], 0) < 65536 && position == |head| + |Encode(opts[..k], 0)|
    {
      hide Encode, Numbered, Rank, DeltaAt, LengthAt, CanRead, Uint16;
      ghost var b := pdu[..pduLength];
      assert b == head + Encode(opts, 0);
      assert pdu[0] == b[0] && HEADER_SIZE + GetTokenLength() == |head|;
      EmptyEncoding(opts);
      TakeAll(opts);
      if optionNumber >= maxAddedOptionNumber || pduLength == HEADER_SIZE + GetTokenLength() {
        return pduLength, maxAddedOptionNumber, |opts|;
      }
      position, prevOptionNumber, k := HEADER_SIZE + GetTokenLength(), 0, 0;
      assert opts[..0] == [];
      while position < pduLength && pdu[position] != 0xFF
        invariant k <= |opts| && k <= Rank(opts, optionNumber) && Numbered(opts[..k])
        invariant prevOptionNumber == Last(opts[..k], 0) < 65536 && position == |head| + |Encode(opts[..k], 0)|
        invariant position <= pduLength && (position == pduLength ==> k == |opts|)
        decreases |opts| - k
      {
        ReadOption(head, opts, k, b, position);
        RankReached(opts, optionNumber, k);
        var delta := DeltaAt(pdu[..pduLength], position);
        var current := Uint16(prevOptionNumber + delta);
        var length := LengthAt(pdu[..pduLength], position);
        if current > optionNumber {
          return;
        }
        prevOptionNumber := current;
        position := position + ExtraBytes(delta) + ExtraBytes(length) + length + 1;
        k := k + 1;
      }
      if position < pduLength {
        ReadOption(head, opts, k, b, position);
      }
    }

    /** Makes the message longer: reallocates the buffer, or fails when an external buffer is too small. */
    method Grow(length: nat) returns (ok: bool)
      requires pduLength <= pdu.Length == bufferLength
      modifies this`pdu, this`pduLength, this`bufferLength
      ensures ok <==> !constructedFromBuffer || old(pduLength) + length <= old(bufferLength)
      ensures pdu.Length == bufferLength && (pdu == old(pdu) || fresh(pdu))
      ensures constructedFromBuffer ==> bufferLength == old(bufferLength)
      ensures ok ==> pduLength == old(pduLength) + length <= bufferLength && pdu[..old(pduLength)] == old(pdu[..pduLength])
      ensures !ok ==> pdu == old(pdu) && pduLength == old(pduLength)
    {
      var oldPduLength := pduLength;
      pduLength := pduLength + length;
      if !constructedFromBuffer {
        var newMemory := new byte[pduLength];
        forall i | 0 <= i < oldPduLength {
          newMemory[i] := pdu[i];
        }
        assert newMemory[..oldPduLength] == pdu[..oldPduLength];
        pdu := newMemory;
        bufferLength := pduLength;
      } else if pduLength > bufferLength {
        pduLength := oldPduLength;
        return false;
      }
      ok := true;
    }

    /** Adds an option at the end. */
    method AppendOption(position: nat, optionNumber: nat, prevOptionNumber: nat, value: seq<byte>) returns (ok: bool)
      requires Valid() && optionNumber < 65536 && |value| < 65536 && position == pduLength
      requires prevOptionNumber < 65536
      modifies `pdu, `pduLength, `bufferLength, `numOptions, `maxAddedOptionNumber, `opts, pdu
      ensures Valid() && head == old(head) && constructedFromBuffer == old(constructedFromBuffer) && Space() == old(Space())
      ensures pdu == old(pdu) || fresh(pdu)
      ensures var one := EncodeOne(Uint16(optionNumber - prevOptionNumber), value);
        ok <==> !constructedFromBuffer || old(pduLength) + |one| <= old(bufferLength)
      ensures ok ==> opts == old(opts) + [Option(Uint16(Last(old(opts), 0) + optionNumber - prevOptionNumber), value)]
      ensures !ok ==> opts == old(opts)
      ensures maxAddedOptionNumber == optionNumber && numOptions == old(numOptions) + if ok then 1 else 0
    {
      hide Encode, Numbered, EncodeOne, Overwrite, Uint16;
      var optionDelta := Uint16(optionNumber - prevOptionNumber);
      var optionLength := 1 + ExtraBytes(optionDelta) + ExtraBytes(|value|) + |value|;
      maxAddedOptionNumber := optionNumber;
      ok := Grow(optionLength);
      if !ok {
        return;
      }
      ghost var o := Option(Uint16(Last(opts, 0) + optionNumber - prevOptionNumber), value);
      LastFits(opts);
      SameDelta(Last(opts, 0), optionNumber, prevOptionNumber);
      EncodeAppended(opts, o);
      ghost var s0 := pdu[..];
      InsertOption(position, optionDelta, value);
      AppendedBytes(s0, head + Encode(opts, 0), EncodeOne(optionDelta, value));
      Regroup(head, Encode(opts, 0), EncodeOne(optionDelta, value));
      numOptions := numOptions + 1;
      opts := opts + [o];
    }

    /** The next option's new delta, and how much longer the message becomes. */
    method ExtraSpace(position: nat, optionDelta: nat, value: seq<byte>) returns (newNextOptionDelta: nat, mallocLength: nat)
      requires pduLength <= pdu.Length && CanRead(pdu[..pduLength], position)
      requires optionDelta <= DeltaAt(pdu[..pduLength], position) < 65536 && |value| < 65536
      ensures optionDelta + newNextOptionDelta == DeltaAt(pdu[..pduLength], position)
      ensures mallocLength + ExtraBytes(optionDelta + newNextOptionDelta)
        == |EncodeOne(optionDelta, value)| + ExtraBytes(newNextOptionDelta)
    {
      var optionLength := 1 + ExtraBytes(optionDelta) + ExtraBytes(|value|) + |value|;
      var nextOptionDelta := DeltaAt(pdu[..pduLength], position);
      newNextOptionDelta := nextOptionDelta - optionDelta;
      SplitDelta(optionDelta, newNextOptionDelta);
      mallocLength := optionLength + (ExtraBytes(newNextOptionDelta) - ExtraBytes(nextOptionDelta));
    }

    /** Inserts an option in front of another one, which must be re-encoded relative to the new one. */
    method InsertBefore(position: nat, optionNumber: nat, prevOptionNumber: nat, value: seq<byte>, ghost k: nat)
      returns (ok: bool)
      requires Valid() && optionNumber < 65536 && |value| < 65536
      requires k == Rank(opts, optionNumber) < |opts| && Numbered(opts[..k])
      requires prevOptionNumber == Last(opts[..k], 0) && position == |head| + |Encode(opts[..k], 0)|
      modifies `pdu, `pduLength, `bufferLength, `numOptions, `maxAddedOptionNumber, `opts, pdu
      ensures Valid() && head == old(head) && constructedFromBuffer == old(constructedFromBuffer) && Space() == old(Space())
      ensures pdu == old(pdu) || fresh(pdu)
      ensures Numbered(InsertSorted(old(opts), Option(optionNumber, value)))
      ensures ok <==> (!constructedFromBuffer ||
        |head| + |Encode(InsertSorted(old(opts), Option(optionNumber, value)), 0)| <= old(bufferLength))
      ensures opts == if ok then InsertSorted(old(opts), Option(optionNumber, value)) else old(opts)
      ensures maxAddedOptionNumber == old(maxAddedOptionNumber) && numOptions == old(numOptions)
    {
      hide Encode, Numbered, EncodeOne, Overwrite, DeltaAt, LengthAt, CanRead, Rank, InsertSorted, Last, ExtraBytes, Around, AroundTwo;
      ghost var o := Option(optionNumber, value);
      ghost var pre, d, nextValue, rest := InsertionBytes(head, opts, o);
      var optionDelta := optionNumber - prevOptionNumber;
      var newNextOptionDelta, mallocLength := ExtraSpace(position, optionDelta, value);
      ok := GrowAndRewrite(position, optionDelta, newNextOptionDelta, value, mallocLength, pre, nextValue, rest, InsertSorted(opts, o));
    }

    /** The allocation and the rewriting of the bytes; `inserted` is the new option list. */
    method GrowAndRewrite(position: nat, optionDelta: nat, newNextOptionDelta: nat, value: seq<byte>, mallocLength: nat,
                          ghost pre: seq<byte>, ghost nextValue: seq<byte>, ghost rest: seq<byte>, ghost inserted: seq<Option>)
      returns (ok: bool)
      requires Valid() && optionDelta + newNextOptionDelta < 65536 && |value| < 65536 && |nextValue| < 65536
      requires position == |pre| && Numbered(inserted)
      requires mallocLength + ExtraBytes(optionDelta + newNextOptionDelta)
        == |EncodeOne(optionDelta, value)| + ExtraBytes(newNextOptionDelta)
      requires head + Encode(opts, 0) == Around(pre, optionDelta + newNextOptionDelta, nextValue, rest)
      requires head + Encode(inserted, 0) == AroundTwo(pre, optionDelta, value, newNextOptionDelta, nextValue, rest)
      requires |Encode(inserted, 0)| == |Encode(opts, 0)| + mallocLength
      modifies `pdu, `pduLength, `bufferLength, `numOptions, `maxAddedOptionNumber, `opts, pdu
      ensures Valid() && head == old(head) && constructedFromBuffer == old(constructedFromBuffer) && Space() == old(Space())
      ensures pdu == old(pdu) || fresh(pdu)
      ensures ok <==> !constructedFromBuffer || |head| + |Encode(inserted, 0)| <= old(bufferLength)
      ensures opts == if ok then inserted else old(opts)
      ensures maxAddedOptionNumber == old(maxAddedOptionNumber) && numOptions == old(numOptions)
    {
      hide Encode, Numbered, EncodeOne, ExtraBytes, Around, AroundTwo;
      ok := Grow(mallocLength);
      if ok {
        Rewrite(position, optionDelta, newNextOptionDelta, value, mallocLength, pre, nextValue, rest);
        opts := inserted;
      }
    }

    method SetTokenLength(tokenLength: nat) returns (ok: bool)
      requires pdu.Length > 0
      modifies pdu
      ensures ok <==> tokenLength <= 8
      ensures pdu[..] == if ok then old(pdu[..])[0 := WithTokenLength(old(pdu[0]), tokenLength)] else old(pdu[..])
      ensures ok ==> pdu[0] % 16 == tokenLength && pdu[0] / 16 == old(pdu[0]) / 16
    {
      if tokenLength > 8 {
        return false;
      }
      pdu[0] := pdu[0] - pdu[0] % 16;
      pdu[0] := pdu[0] + tokenLength;
      ok := true;
    }

    /** Gives memory that is no longer needed back. */
    method Shrink()
      requires pduLength <= pdu.Length == bufferLength
      modifies `pdu, `bufferLength
      ensures pduLength <= pdu.Length == bufferLength && (pdu == old(pdu) || fresh(pdu))
      ensures pdu[..pduLength] == old(pdu[..pduLength])
    {
      if !constructedFromBuffer {
        var newMemory := new byte[pduLength];
        forall i | 0 <= i < pduLength {
          newMemory[i] := pdu[i];
        }
        assert newMemory[..pduLength] == pdu[..pduLength];
        pdu := newMemory;
        bufferLength := pduLength;
      }
    }

    /**
     * Replaces the token; the options stay. The program keeps the old message length in 8 bits, so this is
     * about messages of fewer than 256 bytes. A token of more than 8 bytes leaves an unusable message.
     */
    method SetToken(token: seq<byte>) returns (ok: bool)
      requires Valid() && pduLength < 256 && |token| < 256
      modifies `pdu, `pduLength, `bufferLength, `head, pdu
      ensures pdu == old(pdu) || fresh(pdu)
      ensures ok <==> token != [] && (!constructedFromBuffer || old(pduLength) - |old(head)| + HEADER_SIZE + |token| <= old(bufferLength))
      ensures |token| <= 8 ==> Valid()
      ensures !ok ==> head == old(head) && pdu == old(pdu)
      ensures ok && |token| <= 8 ==> head == [WithTokenLength(old(head[0]), |token|)] + old(head[1..4]) + token
    {
      if token == [] {
        return false;
      }
      HeadOf(pdu[..], pduLength, head, Encode(opts, 0));
      var oldTokenLength := GetTokenLength();
      if |token| == oldTokenLength {
        ok := true;
        ghost var before := pdu[..];
        CopyValue(HEADER_SIZE, token);
        SameToken(before, pduLength, head, Encode(opts, 0), token);
        head := head[..4] + token;
      } else if |token| > oldTokenLength {
        ok := LongerToken(token, oldTokenLength);
      } else {
        ok := true;
        ShorterToken(token, oldTokenLength);
      }
    }

    method LongerToken(token: seq<byte>, oldTokenLength: nat) returns (ok: bool)
      requires Valid() && |head| == HEADER_SIZE + oldTokenLength && oldTokenLength < |token|
      modifies `pdu, `pduLength, `bufferLength, `head, pdu
      ensures pdu == old(pdu) || fresh(pdu)
      ensures ok <==> !constructedFromBuffer || old(pduLength) - |old(head)| + HEADER_SIZE + |token| <= old(bufferLength)
      ensures |token| <= 8 ==> Valid()
      ensures !ok ==> head == old(head) && pdu == old(pdu) && Valid()
      ensures ok && |token| <= 8 ==> head == [WithTokenLength(old(head[0]), |token|)] + old(head[1..4]) + token
    {
      hide Encode, Numbered, Overwrite, Lower, WithTokenLength;
      ghost var (hdr, oldToken, e) := (head[..4], head[4..], Encode(opts, 0));
      var oldPduLength := pduLength;
      ok := Grow(|token| - oldTokenLength);
      if ok {
        ghost var before := pdu[..];
        ShiftUp(pduLength - oldPduLength, pduLength - |token| - HEADER_SIZE);
        CopyValue(HEADER_SIZE, token);
        LongerBytes(before, hdr, oldToken, e, token);
        PutTokenLength(hdr, token, e);
      }
    }

    method ShorterToken(token: seq<byte>, oldTokenLength: nat)
      requires Valid() && |head| == HEADER_SIZE + oldTokenLength && |token| < oldTokenLength
      modifies `pdu, `pduLength, `bufferLength, `head, pdu
      ensures pdu == old(pdu) || fresh(pdu)
      ensures |token| <= 8 ==> Valid() && head == [WithTokenLength(old(head[0]), |token|)] + old(head[1..4]) + token
    {
      hide Encode, Numbered, Overwrite, Lower, WithTokenLength;
      ghost var (hdr, oldToken, e, before) := (head[..4], head[4..], Encode(opts, 0), pdu[..]);
      var oldPduLength := pduLength;
      pduLength := pduLength - oldTokenLength + |token|;
      CopyValue(HEADER_SIZE, token);
      ShiftPduDown(HEADER_SIZE + |token|, oldPduLength - pduLength, oldPduLength - oldTokenLength - HEADER_SIZE);
      ShorterBytes(before, hdr, oldToken, e, token);
      Shrink();
      PutTokenLength(hdr, token, e);
    }

    /** The new token is in place; its length is written last. */
    method PutTokenLength(ghost hdr: seq<byte>, token: seq<byte>, ghost e: seq<byte>)
      requires |hdr| == 4 && pduLength <= pdu.Length == bufferLength && pdu[..pduLength] == hdr + token + e
      requires Numbered(opts) && e == Encode(opts, 0) && maxAddedOptionNumber < 65536
      modifies `head, pdu
      ensures |token| <= 8 ==> Valid() && head == [WithTokenLength(hdr[0], |token|)] + hdr[1..] + token
    {
      hide Encode, Numbered;
      ghost var before := pdu[..];
      var done := SetTokenLength(|token|);
      if done {
        head := [WithTokenLength(hdr[0], |token|)] + hdr[1..] + token;
        FirstByte(before, pduLength, hdr, token, e, WithTokenLength(hdr[0], |token|));
      }
    }

    /**
     * Adds an option in any order of numbers; the record of the largest number changes whenever the end is taken
     * for the place, even when the option does not fit. The option count goes up only when the option goes to the
     * end: after any other insertion it is one too small until the message is validated. A value longer than
     * 65530 bytes would overflow the 16-bit size computation of the program.
     */
    method AddOption(insertedOptionNumber: nat, optionValue: seq<byte>) returns (ok: bool)
      requires Valid() && insertedOptionNumber < 65536 && |optionValue| <= 65530
      modifies `pdu, `pduLength, `bufferLength, `numOptions, `maxAddedOptionNumber, `opts, pdu
      ensures Valid() && head == old(head) && constructedFromBuffer == old(constructedFromBuffer) && Space() == old(Space())
      ensures pdu == old(pdu) || fresh(pdu)
      ensures var o := Option(insertedOptionNumber, optionValue);
        && Known(old(Records()))
        && Records() == Added(old(Records()), o, Space())
        && ok == WillFit(old(Records()), o, Space())
      ensures numOptions == old(numOptions) + if ok && Appends(old(opts), old(maxAddedOptionNumber), insertedOptionNumber) then 1 else 0
      ensures ok && old(InStep()) ==> InStep()
    {
      hide Encode, Numbered, EncodeOne, Rank, InsertSorted, Last, Outcome, Uint16, Ascending;
      ghost var o := Option(insertedOptionNumber, optionValue);
      var position, prevOptionNumber, k := FindInsertionPosition(insertedOptionNumber);
      TakeAll(opts);
      OutcomeFacts(opts, maxAddedOptionNumber, o, prevOptionNumber);
      if Ascending(opts, 0) { InsertSortedEncodable(opts, o); }
      if Ascending(opts, 0) && maxAddedOptionNumber == Last(opts, 0) { OutcomeInStep(opts, o); }
      if position == pduLength {
        ok := AppendOption(position, insertedOptionNumber, prevOptionNumber, optionValue);
      } else {
        ok := InsertBefore(position, insertedOptionNumber, prevOptionNumber, optionValue, k);
      }
    }

    /** The checks before the options: the size, the token length and the code. */
    method CheckHead(ghost slack: seq<byte>) returns (valid: bool)
      requires |slack| == 2 && pduLength <= pdu.Length
      ensures valid <==> HeadIsSound(pdu[..] + slack, pduLength)
      ensures valid <==>
        && pduLength >= 4 && pdu[0] % 16 <= 8 && 4 + pdu[0] % 16 <= pduLength
        && (var (class', detail) := (pdu[1] / 32, pdu[1] % 32);
            || (class' == 0 && detail <= 4) || (class' == 2 && 1 <= detail <= 5)
            || (class' == 4 && (detail <= 6 || detail == 12 || detail == 13 || detail == 15)) || (class' == 5 && detail <= 5))
      ensures valid ==> HEADER_SIZE + GetTokenLength() == HeadLength(pdu[..] + slack) <= pduLength
    {
      if pduLength < 4 {
        return false;
      }
      KnownCodes(pdu[1]);
      var tokenLength := GetTokenLength();
      if tokenLength > 8 || HEADER_SIZE + tokenLength > pduLength {
        return false;
      }
      var code := pdu[1];
      if (code > 0x04 && code < 0x41) || (code > 0x45 && code < 0x80) || (code > 0x86 && code < 0x8C) || code == 0x8E
        || (code > 0x8F && code < 0xA0) || code > 0xA5 {
        return false;
      }
      return true;
    }

    /**
     * Checks a message and records the number of its options and its payload. `slack` stands for the bytes
     * that lie after the buffer in memory.
     */
    method Validate(slack: seq<byte>) returns (valid: bool)
      requires |slack| == 2 && pduLength <= pdu.Length
      modifies `numOptions, `payloadStart, `payloadLength
      ensures valid <==> Acceptable(pdu[..] + slack, pduLength)
      ensures valid ==> var m := Decode(pdu[..] + slack, pduLength, HeadLength(pdu[..] + slack), 0);
        && numOptions == |m.opts| && payloadLength == |m.payload|
        && (payloadLength > 0 ==> payloadStart + payloadLength == pduLength && pdu[payloadStart..pduLength] == m.payload)
    {
      hide DeltaAt, LengthAt, CanRead, Upper, Lower, Uint16, ExtraBytesOf, HeadIsSound, Decode;
      valid := CheckHead(slack);
      if !valid {
        return;
      }
      var b := pdu[..] + slack;
      var optionPos: nat, optionNumber: nat, count := HEADER_SIZE + GetTokenLength(), 0, 0;
      if optionPos == pduLength {
        DecodeEnd(b, pduLength, 0);
        numOptions, payloadLength := 0, 0;
        return true;
      }
      ghost var all := Decode(b, pduLength, optionPos, 0);
      while true
        invariant optionPos <= pduLength
        invariant var rest := Decode(b, pduLength, optionPos, optionNumber);
          (all.Message? <==> rest.Message?)
          && (all.Message? ==> |all.opts| == count + |rest.opts| && all.payload == rest.payload)
        decreases pduLength - optionPos
      {
        if optionPos >= pduLength {
          DecodeEnd(b, pduLength, optionNumber);
          payloadStart, payloadLength, numOptions := 0, 0, count;
          return true;
        }
        DecodeAt(b, pduLength, optionPos, optionNumber);
        if b[optionPos] == PAYLOAD_MARKER {
          if pduLength - optionPos > 1 {
            payloadStart, payloadLength, numOptions := optionPos + 1, pduLength - optionPos - 1, count;
            return true;
          }
          payloadStart, payloadLength := 0, 0;
          return false;
        }
        var (upper, lower) := (Upper(b[optionPos]), Lower(b[optionPos]));
        if upper == 15 || lower == 15 || ExtraBytes(upper) + ExtraBytes(lower) > pduLength - optionPos - 1 {
          return false;
        }
        assert HasOption(b, pduLength, optionPos);
        var (delta, length) := (DeltaAt(b, optionPos), LengthAt(b, optionPos));
        optionNumber := Uint16(optionNumber + delta);
        var totalLength := 1 + ExtraBytes(delta) + ExtraBytes(length) + length;
        if optionPos + totalLength > pduLength {
          return false;
        }
        optionPos := optionPos + totalLength;
        count := count + 1;
      }
    }

    /** The first `numOptions` options, as many as the program believes there are. */
    method GetOptions(slack: seq<byte>) returns (options: seq<Option>)
      requires |slack| == 2 && pduLength <= pdu.Length && Acceptable(pdu[..] + slack, pduLength)
      requires numOptions <= |Decode(pdu[..] + slack, pduLength, HeadLength(pdu[..] + slack), 0).opts|
      ensures options == Decode(pdu[..] + slack, pduLength, HeadLength(pdu[..] + slack), 0).opts[..numOptions]
    {
      hide DeltaAt, LengthAt, CanRead, Upper, Lower, Uint16, ExtraBytesOf, Decode, HasOption;
      var b := pdu[..] + slack;
      options := [];
      var optionPos: nat, optionNumber: nat := HEADER_SIZE + GetTokenLength(), 0;
      ghost var all := Decode(b, pduLength, optionPos, 0);
      for i := 0 to numOptions
        invariant optionPos <= pduLength && options == all.opts[..i]
        invariant Decode(b, pduLength, optionPos, optionNumber) == Message(all.opts[i..], all.payload)
      {
        if optionPos == pduLength {
          DecodeEnd(b, pduLength, optionNumber);
        } else {
          DecodeAt(b, pduLength, optionPos, optionNumber);
        }
        var (delta, length) := (DeltaAt(b, optionPos), LengthAt(b, optionPos));
        optionNumber := Uint16(optionNumber + delta);
        var totalLength := 1 + ExtraBytes(delta) + ExtraBytes(length) + length;
        assert all.opts[i..] == [all.opts[i]] + all.opts[i + 1..];
        options := options + [Option(optionNumber, b[optionPos + totalLength - length..optionPos + totalLength])];
        optionPos := optionPos + totalLength;
      }
    }

    /** Adds options in any order, until one does not fit. */
    method AddAll(adds: seq<Option>) returns (done: nat)
      requires Valid() && InStep()
      requires forall o :: o in adds ==> o.number < 65536 && |o.value| <= 65530
      modifies `pdu, `pduLength, `bufferLength, `numOptions, `maxAddedOptionNumber, `opts, pdu
      ensures Valid() && head == old(head) && constructedFromBuffer == old(constructedFromBuffer)
      ensures done <= |adds| && (pdu == old(pdu) || fresh(pdu))
      ensures opts == InsertAll(old(opts), adds[..done])
      ensures done == |adds| ==> InStep()
      ensures done < |adds| ==> constructedFromBuffer
    {
      hide Encode, Numbered, Outcome, InsertSorted, Ascending, Appends;
      assert adds[..0] == [];
      done := 0;
      while done < |adds|
        invariant Valid() && InStep() && head == old(head) && constructedFromBuffer == old(constructedFromBuffer)
        invariant done <= |adds| && (pdu == old(pdu) || fresh(pdu))
        invariant opts == InsertAll(old(opts), adds[..done])
      {
        OutcomeInStep(opts, adds[done]);
        InsertAllNext(old(opts), adds, done);
        var ok := AddOption(adds[done].number, adds[done].value);
        if !ok {
          return;
        }
        done := done + 1;
      }
    }

    /** Adds options in any order and goes on after one that does not fit. */
    method AddEach(adds: seq<Option>) returns (fitted: seq<Option>)
      requires Valid()
      requires forall o :: o in adds ==> o.number < 65536 && |o.value| <= 65530
      modifies `pdu, `pduLength, `bufferLength, `numOptions, `maxAddedOptionNumber, `opts, pdu
      ensures Valid() && head == old(head) && constructedFromBuffer == old(constructedFromBuffer) && Space() == old(Space())
      ensures pdu == old(pdu) || fresh(pdu)
      ensures Known(old(Records())) && Numbered(adds)
      ensures Records() == Replay(old(Records()), adds, Space()) && fitted == Fitted(old(Records()), adds, Space())
      ensures (forall k: nat :: k < |adds| ==> SafeAt(old(Records()), adds, k, Space()))
        ==> opts == InsertAll(old(opts), fitted)
    {
      hide Encode, Added, WillFit, RightAt, SafeAt, InsertAll;
      ghost var (before, room) := (Records(), Space());
      assert Known(before) && Numbered(adds);
      assert adds[..0] == [];
      fitted := [];
      for k := 0 to |adds|
        invariant Valid() && head == old(head) && constructedFromBuffer == old(constructedFromBuffer) && Space() == room
        invariant pdu == old(pdu) || fresh(pdu)
        invariant Records() == Replay(before, adds[..k], room) && fitted == Fitted(before, adds[..k], room)
      {
        ReplayNext(before, adds, k, room);
        var ok := AddOption(adds[k].number, adds[k].value);
        if ok {
          fitted := fitted + [adds[k]];
        }
      }
      TakeAll(adds);
      RunIsRight(before, adds, room);
      RightAtEnd(before, adds, room);
    }

    /** What was added is found again, sorted by number and otherwise in the order of the additions. */
    method Recount(slack: seq<byte>) returns (valid: bool, options: seq<Option>)
      requires Valid() && |slack| == 2
      modifies `numOptions, `payloadStart, `payloadLength
      ensures Valid() && (valid <==> Lower(head[0]) <= 8 && KnownCode(head[1]))
      ensures valid ==> options == opts && numOptions == |opts| && payloadLength == 0
    {
      hide Encode, Numbered, Decode;
      ghost var b := pdu[..] + slack;
      assert b[..pduLength] == pdu[..pduLength] == head + Encode(opts, 0) + Trailer([]);
      assert b[..pduLength] + b[pduLength..] == b && b[0] == head[0] && b[1] == head[1];
      DecodeEncoded(head, opts, 0, [], b[pduLength..]);
      options := [];
      valid := Validate(slack);
      if valid {
        options := GetOptions(slack);
        TakeAll(opts);
      }
    }

    /** Moves the bytes from `position` on up by `mallocLength` and the next option's header byte before its new delta. */
    method OpenGap(position: nat, mallocLength: nat, optionDeltaAdjustment: int, ghost pre: seq<byte>, ghost h: byte,
                   ghost x: seq<byte>, ghost u: seq<byte>) returns (nextHeaderPos: nat)
      requires pduLength <= pdu.Length && pduLength == |pre| + mallocLength + 1 + |x| + |u| && position == |pre|
      requires -|x| <= optionDeltaAdjustment <= 0
      requires pdu[..pduLength - mallocLength] == pre + ([h] + x + u)
      modifies pdu
      ensures nextHeaderPos == position + mallocLength - optionDeltaAdjustment
      ensures pdu[..][..|pre|] == pre && pdu[nextHeaderPos] == h
      ensures var k := position + mallocLength + 1 + |x|; pdu[..][k..k + |u|] == u
    {
      ghost var (s0, block) := (pdu[..], [h] + x + u);
      Layout(s0, pduLength - mallocLength, pre, block);
      ShiftUp(mallocLength, pduLength - (position + mallocLength));
      AfterShift(s0, pre, h, x, u, mallocLength);
      hide Overwrite;
      ghost var (s1, k) := (pdu[..], position + mallocLength + 1 + |x|);
      nextHeaderPos := position + mallocLength;
      pdu[nextHeaderPos - optionDeltaAdjustment] := pdu[nextHeaderPos];
      nextHeaderPos := nextHeaderPos - optionDeltaAdjustment;
      assert pdu[..] == s1[nextHeaderPos := h];
      assert s1[nextHeaderPos := h][..|pre|] == s1[..|pre|];
      assert s1[nextHeaderPos := h][k..k + |u|] == s1[k..k + |u|];
    }

    /** Writes the next option's new delta and, in front of it, the new option. */
    method FillGap(position: nat, nextHeaderPos: nat, optionDelta: nat, newNextOptionDelta: nat, value: seq<byte>,
                   ghost pre: seq<byte>, ghost nextLength: nat, ghost u: seq<byte>)
      requires optionDelta < 65536 && newNextOptionDelta < 65536 && |value| < 65536 && nextLength < 65536
      requires position == |pre| && nextHeaderPos == position + |EncodeOne(optionDelta, value)|
      requires pduLength == nextHeaderPos + 1 + ExtraBytes(newNextOptionDelta) + |u| <= pdu.Length
      requires pdu[..][..|pre|] == pre && Lower(pdu[nextHeaderPos]) == Nibble(nextLength)
      requires pdu[..][pduLength - |u|..pduLength] == u
      modifies pdu
      ensures pdu[..pduLength] == pre + EncodeOne(optionDelta, value)
        + ([Header(newNextOptionDelta, nextLength)] + Extension(newNextOptionDelta) + u)
    {
      hide EncodeOne, Overwrite, Extension, Nibble, ExtraBytes, Lower;
      ghost var s2 := pdu[..];
      ghost var header: seq<byte> := [Header(newNextOptionDelta, nextLength)];
      SetOptionDelta(nextHeaderPos, newNextOptionDelta);
      InsertOption(position, optionDelta, value);
      AfterWrites(s2, pre, EncodeOne(optionDelta, value), header + Extension(newNextOptionDelta), u);
    }

    /** The shifting and rewriting of the bytes. */
    method Rewrite(position: nat, optionDelta: nat, newNextOptionDelta: nat, value: seq<byte>, mallocLength: nat,
                   ghost pre: seq<byte>, ghost nextValue: seq<byte>, ghost rest: seq<byte>)
      requires optionDelta + newNextOptionDelta < 65536 && |value| < 65536 && |nextValue| < 65536
      requires mallocLength <= pduLength <= pdu.Length && position == |pre|
      requires mallocLength + ExtraBytes(optionDelta + newNextOptionDelta)
        == |EncodeOne(optionDelta, value)| + ExtraBytes(newNextOptionDelta)
      requires pdu[..pduLength - mallocLength] == Around(pre, optionDelta + newNextOptionDelta, nextValue, rest)
      modifies pdu
      ensures pdu[..pduLength] == AroundTwo(pre, optionDelta, value, newNextOptionDelta, nextValue, rest)
    {
      var d := optionDelta + newNextOptionDelta;
      ghost var (h: byte, x, u) := (Header(d, |nextValue|), Extension(d), Tail(nextValue) + rest);
      hide EncodeOne, Overwrite, Tail, Extension, Header, ExtraBytes, Lower;
      assert Lower(h) == Nibble(|nextValue|) by { NibblesBack(|nextValue|, d); }
      SplitDelta(optionDelta, newNextOptionDelta);
      Blocks(d, nextValue, pre, rest);
      Blocks(newNextOptionDelta, nextValue, pre, rest);
      var nextHeaderPos := OpenGap(position, mallocLength, ExtraBytes(newNextOptionDelta) - ExtraBytes(d), pre, h, x, u);
      FillGap(position, nextHeaderPos, optionDelta, newNextOptionDelta, value, pre, |nextValue|, u);
    }
  }

  /** The bytes before and after an insertion, around the gap of size d that it splits. */
  lemma {:induction false} InsertionBytes(head: seq<byte>, opts: seq<Option>, o: Option)
    returns (pre: seq<byte>, d: nat, nextValue: seq<byte>, rest: seq<byte>)
    requires Numbered(opts) && o.number < 65536 && |o.value| < 65536 && Rank(opts, o.number) < |opts|
    ensures var (k, b, inserted) := (Rank(opts, o.number), head + Encode(opts, 0), InsertSorted(opts, o));
      && Numbered(opts[..k]) && Last(opts[..k], 0) <= o.number < Last(opts[..k], 0) + d < 65536
      && pre == head + Encode(opts[..k], 0)
      && |nextValue| < 65536 && b == Around(pre, d, nextValue, rest) && CanRead(b, |pre|) && DeltaAt(b, |pre|) == d
      && Numbered(inserted)
      && var (d1, d2) := (o.number - Last(opts[..k], 0), Last(opts[..k], 0) + d - o.number);
         head + Encode(inserted, 0) == AroundTwo(pre, d1, o.value, d2, nextValue, rest)
         && |Encode(inserted, 0)| + ExtraBytes(d) == |Encode(opts, 0)| + |EncodeOne(d1, o.value)| + ExtraBytes(d2)
  {
    hide Encode, EncodeOne, Numbered, Rank, InsertSorted, Last, CanRead, DeltaAt, ExtraBytes, Nibble;
    var before, next, after := EncodeInserted(opts, o);
    pre, d, nextValue, rest := head + Encode(before, 0), next.number - Last(before, 0), next.value, Encode(after, next.number);
    var (e, one) := (EncodeOne(d, nextValue), EncodeOne(o.number - Last(before, 0), o.value));
    Regroup(head, Encode(before, 0), e);
    Regroup(head, Encode(before, 0) + e, rest);
    ReadBack(pre, d, nextValue, rest);
    Regroup(head, Encode(before, 0), one);
    Regroup(head, Encode(before, 0) + one, EncodeOne(next.number - o.number, nextValue) + rest);
  }

  /** The bytes around an option, with the part that depends on its delta apart. */
  lemma {:induction false} Blocks(d: nat, value: seq<byte>, pre: seq<byte>, rest: seq<byte>)
    requires d < 65536 && |value| < 65536
    ensures var block := [Header(d, |value|)] + Extension(d) + (Tail(value) + rest);
      EncodeOne(d, value) + rest == block && pre + EncodeOne(d, value) + rest == pre + block
  {
    EncodeOneParts(d, value);
    var header: seq<byte> := [Header(d, |value|)];
    hide *;
    Regroup(header + Extension(d), Tail(value), rest);
    Regroup(pre, EncodeOne(d, value), rest);
  }

  lemma {:induction false} Layout(s: seq<byte>, n: nat, pre: seq<byte>, block: seq<byte>)
    requires n <= |s| && s[..n] == pre + block
    ensures n == |pre| + |block| && s[..|pre|] == pre && s[|pre|..n] == block
  {
    assert s[..|pre|] == s[..n][..|pre|];
    assert s[|pre|..n] == s[..n][|pre|..];
  }

  /** What adding leads to, in the terms of the program: `prev` is what it takes for the previous number. */
  lemma {:induction false} OutcomeFacts(opts: seq<Option>, max: nat, o: Option, prev: nat)
    requires Numbered(opts) && max < 65536 && o.number < 65536 && |o.value| < 65536
    ensures var outcome := Outcome(opts, max, o);
      && Numbered(outcome)
      && (o.number < max && opts != [] && Rank(opts, o.number) < |opts| ==>
            outcome == InsertSorted(opts, o) && Last(outcome, 0) == Last(opts, 0))
    ensures var outcome := Outcome(opts, max, o);
      (if o.number >= max || opts == [] then prev == max else Rank(opts, o.number) == |opts| && prev == Last(opts, 0)) ==>
        && outcome == opts + [Option(Uint16(Last(opts, 0) + o.number - prev), o.value)]
        && |Encode(outcome, 0)| == |Encode(opts, 0)| + |EncodeOne(Uint16(o.number - prev), o.value)|
        && (max == Last(opts, 0) ==> Last(outcome, 0) == o.number)
  {
    hide Encode, Numbered, EncodeOne, Rank, Uint16;
    OutcomeNumbered(opts, max, o);
    RankFacts(opts, o.number, 0);
    if if o.number >= max || opts == [] then prev == max else Rank(opts, o.number) == |opts| && prev == Last(opts, 0) {
      LastFits(opts);
      OutcomeAppended(opts, max, o, prev);
      EncodeAppended(opts, Option(Uint16(Last(opts, 0) + o.number - prev), o.value));
      Wrapped(o.number);
    }
  }

  lemma {:induction false} RightAtEnd(s: State, adds: seq<Option>, room: Room)
    requires Known(s) && Numbered(adds)
    ensures RightAt(s, adds, |adds|, room) <==> Replay(s, adds, room).opts == InsertAll(s.opts, Fitted(s, adds, room))
  {
    TakeAll(adds);
  }

  lemma {:induction false} AppendedBytes(s: seq<byte>, pre: seq<byte>, one: seq<byte>)
    requires |pre| + |one| <= |s| && s[..|pre|] == pre
    ensures Overwrite(s, |pre|, one)[..|pre| + |one|] == pre + one
  {
  }

  lemma {:induction false} EmptyEncoding(opts: seq<Option>)
    requires Numbered(opts)
    ensures |Encode(opts, 0)| == 0 <==> opts == []
    ensures Numbered([]) && Encode([], 0) == [] && Last([], 0) == 0
  {
  }

  /** The same in a message of eight bytes. */
  method FailureSpoilsMessage() returns (p: Pdu)
    ensures fresh(p) && p.Valid() && p.opts == [Option(63547, [1])] && p.maxAddedOptionNumber == 11
  {
    hide Encode, Added, WillFit, Outcome, Uint16;
    FailureSpoilsRecord();
    var buffer := new byte[8];
    p := new Pdu.OnBuffer(buffer, 0);
    assert p.Records() == State([], 0) && p.Space() == Fixed(4);
    var first := p.AddOption(2000, [1, 2, 3]);
    assert p.Records() == State([], 2000);
    var second := p.AddOption(11, [1]);
  }

  /**
   * Building a message and reading it: what comes back are the options that were added, sorted by number, and
   * those with equal numbers in the order of the additions.
   */
  method BuildAndRead(adds: seq<Option>, slack: seq<byte>) returns (options: seq<Option>)
    requires |slack| == 2 && forall o :: o in adds ==> o.number < 65536 && |o.value| <= 65530
    ensures Ascending(options, 0) && multiset(options) == multiset(adds)
    ensures forall number :: WithNumber(options, number) == WithNumber(adds, number)
  {
    var p := new Pdu();
    var done := p.AddAll(adds);
    TakeAll(adds);
    var valid;
    valid, options := p.Recount(slack);
    InsertAllIsStableSort(adds);
  }
}
