/** Packing events into datagrams, and reading datagrams back. */
module SnakeDatagrams {
  import opened Bytes
  import opened SnakeEvents

  const MAX_MSG_SIZE: nat := 512
  const BUF_SIZE: nat := 65536

  // ----- reading one event -----

  datatype Loaded = Loaded(event: Event, len: nat) | InvalidLoad | InvalidCrc | InvalidType(len: nat)

  predicate GoodName(name: Name) {
    name != [] && !InvalidPlayerName(name)
  }

  /** Events that the receiver takes: player names are not empty, not too long and printable. */
  predicate Loadable(e: Event) {
    Sized(e.data) && (e.data.NewGame? ==> forall i :: 0 <= i < |e.data.players| ==> GoodName(e.data.players[i]))
  }

  /** The position of the zero byte that ends a string. */
  method FindZero(b: seq<byte>, p: nat) returns (q: nat)
    requires p < |b| && b[|b| - 1] == 0
    ensures p <= q < |b| && b[q] == 0 && forall i :: p <= i < q ==> b[i] != 0
  {
    q := p;
    while b[q] != 0
      invariant p <= q < |b| && forall i :: p <= i < q ==> b[i] != 0
      decreases |b| - q
    {
      q := q + 1;
    }
  }

  lemma {:induction false} NameIsRead(b: seq<byte>, p: nat, name: Name, q: nat)
    requires p + |name| < |b| && b[p..p + |name| + 1] == name + [0] && GoodName(name)
    requires p <= q < |b| && b[q] == 0 && forall i :: p <= i < q ==> b[i] != 0
    ensures q == p + |name| && b[p..q] == name && b[p] != 0
  {
    var s := b[p..p + |name| + 1];
    assert forall i :: 0 <= i < |name| ==> b[p + i] == s[i] == name[i];
    assert b[p + |name|] == s[|name|] == 0;
  }

  /** The player names of a new game, which fill `length` bytes. */
  method LoadNames(b: seq<byte>, p: nat, length: int, ghost expected: seq<Name>) returns (ok: bool, players: seq<Name>)
    requires p + length < |b| && p < |b| && b[|b| - 1] == 0
    ensures length >= 0 && b[p..p + length] == NameBytes(expected) && (forall i :: 0 <= i < |expected| ==> GoodName(expected[i])) ==>
      ok && players == expected
  {
    hide NameBytes, InvalidPlayerName;
    var (size, len) := (p, length);
    players := [];
    ghost var good := length >= 0 && b[p..p + length] == NameBytes(expected) && forall i :: 0 <= i < |expected| ==> GoodName(expected[i]);
    NoNames(expected);
    while len > 0
      invariant size + len == p + length && p <= size
      invariant good ==> |players| <= |expected| && players == expected[..|players|] && size == p + |NameBytes(players)| && len >= 0
    {
      if good { NameAhead(b, p, length, expected, |players|); }
      if b[size] == 0 {
        return false, players;
      }
      var q := FindZero(b, size);
      if good { NameIsRead(b, size, expected[|players|], q); }
      var name := b[size..q];
      if InvalidPlayerName(name) {
        return false, players;
      }
      players := players + [name];
      len := len - (|name| + 1);
      size := size + |name| + 1;
    }
    if good { AllNames(expected, |players|); }
    ok := true;
  }

  /** While bytes are left, there is another name, and it is next. */
  lemma {:induction false} NameAhead(b: seq<byte>, p: nat, length: nat, expected: seq<Name>, k: nat)
    requires p + length < |b| && b[p..p + length] == NameBytes(expected) && k <= |expected| && |NameBytes(expected[..k])| < length
    ensures k < |expected|
    ensures var size := p + |NameBytes(expected[..k])|;
      size + |expected[k]| < |b| && b[size..size + |expected[k]| + 1] == expected[k] + [0]
      && (GoodName(expected[k]) ==> b[size] != 0)
      && expected[..k + 1] == expected[..k] + [expected[k]]
      && |NameBytes(expected[..k + 1])| == |NameBytes(expected[..k])| + |expected[k]| + 1 <= length
  {
    NameBytesSplit(expected, k);
    TakeAll(expected);
    assert k < |expected|;
    NameBytesNext(expected, k);
    var (before, name) := (NameBytes(expected[..k]), expected[k] + [0]);
    assert NameBytes(expected[k..]) == name + NameBytes(expected[k..][1..]);
    hide NameBytes;
    Piece(b, p, p + length, before, name, NameBytes(expected[k..][1..]));
    TakeNext(expected, k);
    var size := p + |before|;
    assert b[size] == b[size..size + |expected[k]| + 1][0];
  }

  lemma {:induction false} NameBytesSplit(players: seq<Name>, k: nat)
    requires k <= |players|
    ensures NameBytes(players) == NameBytes(players[..k]) + NameBytes(players[k..])
  {
    if k == 0 {
      assert players[0..] == players;
    } else {
      NameBytesSplit(players[1..], k - 1);
      assert players[..k][1..] == players[1..][..k - 1] && players[1..][k - 1..] == players[k..];
      Regroup(players[0] + [0], NameBytes(players[1..][..k - 1]), NameBytes(players[k..]));
    }
  }

  lemma {:induction false} AllNames(expected: seq<Name>, k: nat)
    requires k <= |expected| && |NameBytes(expected[..k])| == |NameBytes(expected)|
    ensures expected[..k] == expected
  {
    if k < |expected| {
      NameBytesNext(expected, k);
    }
  }

  /** The data of an event; `length` is negative when the length field of the event is too small. */
  method LoadData(b: seq<byte>, p: nat, tp: byte, length: int, ghost expected: EventData) returns (ok: bool, data: EventData)
    requires tp <= 3 && p + 9 < |b| && p + 8 + length < |b| && p + length < |b| && b[|b| - 1] == 0
    ensures length >= 0 && tp == TypeOf(expected) && b[p..p + length] == DataBytes(expected) && Loadable(Event(0, expected)) ==>
      ok && data == Blank(Event(0, expected)).data
  {
    ghost var good := length >= 0 && tp == TypeOf(expected) && b[p..p + length] == DataBytes(expected) && Loadable(Event(0, expected));
    if tp == 0 {
      if good { NewGameParts(b, p, length, expected); }
      var maxx, maxy := FromU32(b, p), FromU32(b, p + 4);
      var players;
      ok, players := LoadNames(b, p + 8, length - 8, if expected.NewGame? then expected.players else []);
      data := NewGame(maxx, maxy, players);
    } else if tp == 1 {
      if good { PixelParts(b, p, length, expected); }
      ok, data := length == 9, Pixel([], b[p], FromU32(b, p + 1), FromU32(b, p + 5));
    } else if tp == 2 {
      if good { assert b[p] == b[p..p + length][0]; }
      ok, data := length == 1, PlayerEliminated([], b[p]);
    } else {
      ok, data := length == 0, GameOver;
    }
  }

  /** Reads an event from the `dlen` bytes at `p`. */
  method LoadEvent(crc: Checksum, b: seq<byte>, p: nat, dlen: nat, ghost expected: Event) returns (r: Loaded)
    requires p + dlen + 32 < |b| && b[|b| - 1] == 0
    ensures Loadable(expected) && |Encode(crc, expected)| <= dlen && b[p..p + |Encode(crc, expected)|] == Encode(crc, expected) ==>
      r == Loaded(Blank(expected), |Encode(crc, expected)| - 8)
    ensures r.Loaded? || r.InvalidType? ==> r.len + 8 <= dlen
  {
    ghost var good := Loadable(expected) && |Encode(crc, expected)| <= dlen
      && b[p..p + |Encode(crc, expected)|] == Encode(crc, expected);
    if good { EventParts(crc, b, p, expected); }
    if dlen < 13 {
      return InvalidLoad;
    }
    var len := FromU32(b, p);
    if len > dlen - 8 {
      return InvalidLoad;
    }
    var number, tp := FromU32(b, p + 4), b[p + 8];
    if FromU32(b, p + len + 4) != crc(b[p..p + len + 4]) {
      return InvalidCrc;
    }
    if tp > 3 {
      return InvalidType(len);
    }
    var ok, data := LoadData(b, p + 9, tp, len - 5, expected.data);
    r := if ok then Loaded(Event(number, data), len) else InvalidLoad;
  }

  // ----- datagrams -----

  predicate AllSized(es: seq<Event>) {
    forall i :: 0 <= i < |es| ==> Sized(es[i].data)
  }

  function EncodeAll(crc: Checksum, es: seq<Event>): seq<byte>
    requires AllSized(es)
  {
    if es == [] then [] else EncodeAll(crc, es[..|es| - 1]) + Encode(crc, es[|es| - 1])
  }

  /** The game number and whole events. */
  function Datagram(crc: Checksum, gameId: uint32, es: seq<Event>): seq<byte>
    requires AllSized(es)
  {
    U32(gameId) + EncodeAll(crc, es)
  }

  lemma EncodeAllNext(crc: Checksum, es: seq<Event>, e: Event)
    requires AllSized(es) && Sized(e.data)
    ensures AllSized(es + [e]) && EncodeAll(crc, es + [e]) == EncodeAll(crc, es) + Encode(crc, e)
  {
    assert (es + [e])[..|es|] == es;
  }

  lemma {:induction false} EncodeAllJoin(crc: Checksum, a: seq<Event>, b: seq<Event>)
    requires AllSized(a) && AllSized(b)
    ensures AllSized(a + b) && EncodeAll(crc, a + b) == EncodeAll(crc, a) + EncodeAll(crc, b)
    decreases |b|
  {
    hide Encode, Sized;
    if b == [] {
      assert a + b == a;
    } else {
      hide EncodeAll;
      var (front, last) := (b[..|b| - 1], b[|b| - 1]);
      assert b == front + [last];
      EncodeAllJoin(crc, a, front);
      EncodeAllNext(crc, a + front, last);
      EncodeAllNext(crc, front, last);
      Regroup(a, front, [last]);
      Regroup(EncodeAll(crc, a), EncodeAll(crc, front), Encode(crc, last));
    }
  }

  lemma EncodeAllSplit(crc: Checksum, es: seq<Event>, k: nat)
    requires AllSized(es) && k <= |es|
    ensures EncodeAll(crc, es) == EncodeAll(crc, es[..k]) + EncodeAll(crc, es[k..])
  {
    hide EncodeAll;
    EncodeAllJoin(crc, es[..k], es[k..]);
    assert es == es[..k] + es[k..];
  }

  lemma NothingEncoded(crc: Checksum, es: seq<Event>)
    requires AllSized(es)
    ensures EncodeAll(crc, es[|es|..]) == []
  {
  }

  /** The events as they are after a transmission. */
  function BlankAll(es: seq<Event>): seq<Event> {
    seq(|es|, i requires 0 <= i < |es| => Blank(es[i]))
  }

  lemma BlankNext(es: seq<Event>, k: nat)
    requires k < |es|
    ensures BlankAll(es[..k + 1]) == BlankAll(es[..k]) + [Blank(es[k])]
  {
  }

  lemma NoneBlank(es: seq<Event>)
    ensures BlankAll(es[..0]) == []
  {
  }

  /** The `n` bytes are a datagram with these events, all of which the receiver takes. */
  predicate Carries(crc: Checksum, b: seq<byte>, n: nat, gameId: uint32, es: seq<Event>) {
    n <= |b| && (forall i :: 0 <= i < |es| ==> Loadable(es[i])) && AllSized(es) && b[..n] == Datagram(crc, gameId, es)
  }

  datatype Received = Received(gameId: uint32, events: seq<Event>) | Refused

  /** Reads a datagram of `dlen` bytes; `b` is the buffer that it was received into. */
  method Load(crc: Checksum, b: seq<byte>, dlen: nat, ghost gameId: uint32, ghost es: seq<Event>) returns (r: Received)
    requires |b| == BUF_SIZE && dlen < BUF_SIZE && b[|b| - 1] == 0
    ensures dlen <= MAX_MSG_SIZE && Carries(crc, b, dlen, gameId, es) ==> r == Received(gameId, BlankAll(es))
  {
    hide EncodeAll, Encode, Blank, BlankAll, Loadable, Datagram, FromU32, Carries, Sized;
    ghost var good := Carries(crc, b, dlen, gameId, es);
    if dlen > MAX_MSG_SIZE {
      return Refused;
    }
    NoneBlank(es);
    var (id, size, len: int) := (FromU32(b, 0), 4, dlen - 4);
    if good { DatagramStarts(crc, b, dlen, gameId, es); }
    var events := [];
    while len > 0
      invariant size + len == dlen && size >= 4 && (len >= 0 || dlen < 4)
      invariant good ==> AllSized(es) && id == gameId && len >= 0 && |events| <= |es|
      invariant good ==> events == BlankAll(es[..|events|]) && size == 4 + |EncodeAll(crc, es[..|events|])|
    {
      if good {
        EventAhead(crc, b, dlen, gameId, es, |events|);
        BlankNext(es, |events|);
      }
      var e := LoadEvent(crc, b, size, len, if |events| < |es| then es[|events|] else Event(0, GameOver));
      match e {
        case Loaded(event, l) =>
          events := events + [event];
          size, len := size + (l + 8), len - (l + 8);
        case InvalidLoad =>
          return Refused;
        case InvalidCrc =>
          break;
        case InvalidType(l) =>
          size, len := size + (l + 8), len - (l + 8);
      }
    }
    if len < 0 {
      return Refused;
    }
    if good { AllEvents(crc, es, |events|); }
    r := Received(id, events);
  }

  /** While bytes are left, there is another event, and it is next. */
  lemma {:induction false} EventAhead(crc: Checksum, b: seq<byte>, n: nat, gameId: uint32, es: seq<Event>, k: nat)
    requires Carries(crc, b, n, gameId, es) && k <= |es| && AllSized(es)
    requires 4 + |EncodeAll(crc, es[..k])| < n
    ensures k < |es| && Loadable(es[k])
    ensures var p := 4 + |EncodeAll(crc, es[..k])|;
      p + |Encode(crc, es[k])| <= n && b[p..p + |Encode(crc, es[k])|] == Encode(crc, es[k])
      && es[..k + 1] == es[..k] + [es[k]] && |EncodeAll(crc, es[..k + 1])| == |EncodeAll(crc, es[..k])| + |Encode(crc, es[k])|
  {
    hide EncodeAll, Encode, Sized, U32;
    TakeAll(es);
    EncodeAllSplit(crc, es, k);
    NothingEncoded(crc, es);
    assert k < |es|;
    TakeNext(es, k);
    EncodeAllNext(crc, es[..k], es[k]);
    EncodeAllSplit(crc, es, k + 1);
    var (g, x, y, z) := (U32(gameId), EncodeAll(crc, es[..k]), Encode(crc, es[k]), EncodeAll(crc, es[k + 1..]));
    assert b[..n] == b[0..n];
    Regroup(g, x + y, z);
    Regroup(g, x, y);
    ThreePieces(b, 0, n, g + x, y, z);
  }

  lemma DatagramStarts(crc: Checksum, b: seq<byte>, n: nat, gameId: uint32, es: seq<Event>)
    requires 4 <= |b| && Carries(crc, b, n, gameId, es)
    ensures AllSized(es) && FromU32(b, 0) == gameId && n == 4 + |EncodeAll(crc, es)|
    ensures EncodeAll(crc, es[..0]) == []
  {
    hide EncodeAll, U32;
    assert b[..n] == b[0..n] && U32(gameId) + EncodeAll(crc, es) == U32(gameId) + EncodeAll(crc, es) + [];
    ThreePieces(b, 0, n, U32(gameId), EncodeAll(crc, es), []);
    U32Back(b, 0, gameId);
    NothingEncoded(crc, es[..0]);
  }

  lemma {:induction false} AllEvents(crc: Checksum, es: seq<Event>, k: nat)
    requires AllSized(es) && k <= |es| && |EncodeAll(crc, es[..k])| == |EncodeAll(crc, es)|
    ensures es[..k] == es
  {
    TakeAll(es);
    if k < |es| {
      EncodeAllSplit(crc, es, k + 1);
      TakeNext(es, k);
      hide Encode;
      EncodeAllNext(crc, es[..k], es[k]);
    }
  }

  // ----- packing -----

  function Concat(groups: seq<seq<Event>>): seq<Event> {
    if groups == [] then [] else Concat(groups[..|groups| - 1]) + groups[|groups| - 1]
  }

  predicate FitsInDatagram(crc: Checksum, e: Event)
    requires Sized(e.data)
  {
    |Encode(crc, e)| <= MAX_MSG_SIZE - 4
  }

  /** Each datagram holds a nonempty group of events and is short enough. */
  predicate SentAs(crc: Checksum, gameId: uint32, sent: seq<seq<byte>>, groups: seq<seq<Event>>) {
    |sent| == |groups| && forall i :: 0 <= i < |sent| ==>
      groups[i] != [] && AllSized(groups[i]) && sent[i] == Datagram(crc, gameId, groups[i]) && |sent[i]| <= MAX_MSG_SIZE
  }

  lemma SendOne(crc: Checksum, gameId: uint32, sent: seq<seq<byte>>, groups: seq<seq<Event>>, d: seq<byte>, group: seq<Event>)
    requires SentAs(crc, gameId, sent, groups) && group != [] && AllSized(group) && d == Datagram(crc, gameId, group) && |d| <= MAX_MSG_SIZE
    ensures SentAs(crc, gameId, sent + [d], groups + [group])
    ensures Concat(groups + [group]) == Concat(groups) + group
  {
    hide Datagram;
    assert (groups + [group])[..|groups|] == groups;
  }

  class Sender {
    const buf: array<byte>

    constructor ()
      ensures buf.Length == BUF_SIZE && fresh(buf)
    {
      buf := new byte[BUF_SIZE](_ => 0);
    }

    /** Begins a datagram with the game number. */
    method Begin(crc: Checksum, gameId: uint32) returns (size: nat)
      requires buf.Length == BUF_SIZE
      modifies buf
      ensures size == 4 && buf[..size] == Datagram(crc, gameId, [])
    {
      hide Datagram, Overwrite;
      StartDatagram(crc, gameId, buf[..]);
      PutU32(buf, 0, gameId);
      size := 4;
    }

    /** Writes an event behind the others of the datagram. */
    method PutEvent(crc: Checksum, gameId: uint32, size: nat, ghost pending: seq<Event>, e: Event) returns (newSize: nat)
      requires buf.Length == BUF_SIZE && AllSized(pending) && Sized(e.data) && size <= MAX_MSG_SIZE
      requires buf[..size] == Datagram(crc, gameId, pending)
      modifies buf
      ensures newSize == size + |Encode(crc, e)| <= buf.Length && buf[..size] == old(buf[..size])
      ensures AllSized(pending + [e]) && buf[..newSize] == Datagram(crc, gameId, pending + [e])
    {
      hide Encode, EncodeAll, Datagram, Overwrite;
      ghost var before := buf[..];
      var l := Serialize(crc, e, buf, size);
      newSize := size + l;
      AddToDatagram(crc, gameId, before, size, pending, e);
    }

    /**
     * Sends the events from number `n` on, as many in a datagram as fit. An event that fits into no datagram
     * stops everything; what is in the buffer then is lost.
     */
    method SendMessage(crc: Checksum, gameId: uint32, events: seq<Event>, n: nat)
      returns (ok: bool, sent: seq<seq<byte>>, ghost groups: seq<seq<Event>>)
      requires buf.Length == BUF_SIZE && AllSized(events)
      modifies buf
      ensures ok <==> forall i :: n <= i < |events| ==> FitsInDatagram(crc, events[i])
      ensures SentAs(crc, gameId, sent, groups)
      ensures ok <==> forall i :: n <= i < |events| ==> 4 + |Encode(crc, events[i])| <= 512
      ensures forall i :: 0 <= i < |sent| ==>
        (4 < |sent[i]| <= 512
         && gameId == 16777216 * (sent[i][0] as int) + 65536 * (sent[i][1] as int) + 256 * (sent[i][2] as int) + sent[i][3] as int)
      ensures ok ==> Concat(groups) == if n < |events| then events[n..] else []
    {
      hide Encode, EncodeAll, Concat, SentAs, Datagram, Overwrite, Packing;
      ok, sent, groups := true, [], [];
      NoneSent(crc, gameId);
      var size := Begin(crc, gameId);
      if n >= |events| {
        return;
      }
      var it := n;
      ghost var pending: seq<Event> := [];
      StartsPacking(crc, gameId, events, n, buf[..size]);
      while it < |events|
        invariant n <= it <= |events| && size <= MAX_MSG_SIZE
        invariant Packing(crc, gameId, events, n, it, sent, groups, pending, buf[..size])
        decreases |events| - it, |pending|
      {
        var e := events[it];
        PackingFacts(crc, gameId, events, n, it, sent, groups, pending, buf[..size]);
        ghost var before := buf[..size];
        var newSize := PutEvent(crc, gameId, size, pending, e);
        if newSize - size > MAX_MSG_SIZE - 4 {
          assert !FitsInDatagram(crc, events[it]);
          SentFormat(crc, gameId, sent, groups);
          return false, sent, groups;
        }
        if newSize > MAX_MSG_SIZE {
          sent, groups := sent + [buf[..size]], groups + [pending];
          size := Begin(crc, gameId);
          PackFlush(crc, gameId, events, n, it, sent[..|sent| - 1], groups[..|groups| - 1], pending, before, buf[..size]);
          assert sent == sent[..|sent| - 1] + [before] && groups == groups[..|groups| - 1] + [pending];
          pending := [];
        } else {
          size := newSize;
          PackNext(crc, gameId, events, n, it, sent, groups, pending, before, buf[..size]);
          pending := pending + [e];
          it := it + 1;
        }
      }
      PackingFacts(crc, gameId, events, n, it, sent, groups, pending, buf[..size]);
      SendOne(crc, gameId, sent, groups, buf[..size], pending);
      sent, groups := sent + [buf[..size]], groups + [pending];
      SentFormat(crc, gameId, sent, groups);
    }
  }

  /** Each datagram starts with the game number, most significant byte first, and has at most 512 bytes. */
  lemma SentFormat(crc: Checksum, gameId: uint32, sent: seq<seq<byte>>, groups: seq<seq<Event>>)
    requires SentAs(crc, gameId, sent, groups)
    ensures forall i :: 0 <= i < |sent| ==>
      (4 < |sent[i]| <= 512
       && gameId == 16777216 * (sent[i][0] as int) + 65536 * (sent[i][1] as int) + 256 * (sent[i][2] as int) + sent[i][3] as int)
  {
    forall i | 0 <= i < |sent|
      ensures 4 < |sent[i]| <= 512
      ensures gameId == 16777216 * (sent[i][0] as int) + 65536 * (sent[i][1] as int) + 256 * (sent[i][2] as int) + sent[i][3] as int
    {
      hide Encode, U32;
      var (d, group) := (sent[i], groups[i]);
      assert EncodeAll(crc, group) == EncodeAll(crc, group[..|group| - 1]) + Encode(crc, group[|group| - 1]);
      assert d[0..4] == U32(gameId);
      U32Back(d, 0, gameId);
    }
  }

  /** While a message is packed: what was sent, and the datagram `b` that is being filled, are the events so far. */
  ghost predicate Packing(crc: Checksum, gameId: uint32, events: seq<Event>, n: nat, it: nat, sent: seq<seq<byte>>,
                          groups: seq<seq<Event>>, pending: seq<Event>, b: seq<byte>) {
    && n <= it <= |events| && AllSized(events) && AllSized(pending) && (pending == [] ==> it < |events|)
    && |b| <= MAX_MSG_SIZE && b == Datagram(crc, gameId, pending)
    && SentAs(crc, gameId, sent, groups) && Concat(groups) + pending == events[n..it]
    && forall i :: n <= i < it ==> FitsInDatagram(crc, events[i])
  }

  lemma PackingFacts(crc: Checksum, gameId: uint32, events: seq<Event>, n: nat, it: nat, sent: seq<seq<byte>>,
                     groups: seq<seq<Event>>, pending: seq<Event>, b: seq<byte>)
    requires Packing(crc, gameId, events, n, it, sent, groups, pending, b)
    ensures n <= it <= |events| && AllSized(pending) && (pending == [] ==> it < |events|) && b == Datagram(crc, gameId, pending)
    ensures 4 <= |b| <= MAX_MSG_SIZE && (pending == [] ==> |b| == 4)
    ensures SentAs(crc, gameId, sent, groups) && Concat(groups) + pending == events[n..it]
    ensures forall i :: n <= i < it ==> FitsInDatagram(crc, events[i])
  {
    hide SentAs, Concat, FitsInDatagram, AllSized;
  }

  lemma StartsPacking(crc: Checksum, gameId: uint32, events: seq<Event>, n: nat, b: seq<byte>)
    requires n < |events| && AllSized(events) && b == Datagram(crc, gameId, []) && |b| == 4
    ensures Packing(crc, gameId, events, n, n, [], [], [], b)
  {
    hide Datagram;
    NoneSent(crc, gameId);
  }

  lemma PackFlush(crc: Checksum, gameId: uint32, events: seq<Event>, n: nat, it: nat, sent: seq<seq<byte>>,
                  groups: seq<seq<Event>>, pending: seq<Event>, b: seq<byte>, b': seq<byte>)
    requires Packing(crc, gameId, events, n, it, sent, groups, pending, b) && pending != [] && it < |events|
    requires b' == Datagram(crc, gameId, []) && |b'| == 4
    ensures Packing(crc, gameId, events, n, it, sent + [b], groups + [pending], [], b')
  {
    hide SentAs, Concat, FitsInDatagram, Datagram;
    SendOne(crc, gameId, sent, groups, b, pending);
  }

  lemma PackNext(crc: Checksum, gameId: uint32, events: seq<Event>, n: nat, it: nat, sent: seq<seq<byte>>,
                 groups: seq<seq<Event>>, pending: seq<Event>, b: seq<byte>, b': seq<byte>)
    requires Packing(crc, gameId, events, n, it, sent, groups, pending, b) && it < |events| && AllSized(pending + [events[it]])
    requires b' == Datagram(crc, gameId, pending + [events[it]]) && |b'| == |b| + |Encode(crc, events[it])| <= MAX_MSG_SIZE
    ensures Packing(crc, gameId, events, n, it + 1, sent, groups, pending + [events[it]], b')
  {
    hide SentAs, Concat, Datagram, Encode, Sized;
    PackingFacts(crc, gameId, events, n, it, sent, groups, pending, b);
    Regroup(Concat(groups), pending, [events[it]]);
    assert events[n..it + 1] == events[n..it] + [events[it]];
  }

  lemma NoneSent(crc: Checksum, gameId: uint32)
    ensures SentAs(crc, gameId, [], []) && Concat([]) == []
  {
  }

  lemma StartDatagram(crc: Checksum, gameId: uint32, b: seq<byte>)
    requires |b| >= 4
    ensures Overwrite(b, 0, U32(gameId))[..4] == Datagram(crc, gameId, [])
  {
    OverwriteParts(b, 0, U32(gameId));
  }

  lemma AddToDatagram(crc: Checksum, gameId: uint32, b: seq<byte>, size: nat, es: seq<Event>, e: Event)
    requires AllSized(es) && Sized(e.data) && size + |Encode(crc, e)| <= |b| && b[..size] == Datagram(crc, gameId, es)
    ensures AllSized(es + [e]) && size >= 4
    ensures var r := Overwrite(b, size, Encode(crc, e));
      r[..size] == b[..size] && r[..size + |Encode(crc, e)|] == Datagram(crc, gameId, es + [e])
  {
    hide Encode, EncodeAll;
    EncodeAllNext(crc, es, e);
    Regroup(U32(gameId), EncodeAll(crc, es), Encode(crc, e));
    OverwriteParts(b, size, Encode(crc, e));
    DropPrefix(b[..size] + Encode(crc, e), b[size + |Encode(crc, e)|..]);
  }

  lemma U32InBytes()
    ensures U32(0x0102_0304) == [1, 2, 3, 4] && U32(7) == [0, 0, 0, 7]
  {
  }

  /** A datagram with two events. */
  lemma Pair(crc: Checksum, e: Event, f: Event)
    requires Sized(e.data) && Sized(f.data)
    ensures AllSized([e, f])
    ensures forall g :: Datagram(crc, g, [e, f]) == U32(g) + Encode(crc, e) + Encode(crc, f)
  {
    hide Encode, Sized, U32;
    assert AllSized([]) && EncodeAll(crc, []) == [];
    EncodeAllNext(crc, [], e);
    EncodeAllNext(crc, [e], f);
    assert [] + [e] == [e] && [e] + [f] == [e, f];
  }

  /** A datagram of game 7 with a pixel and the end of the game, for a checksum that is always 0x01020304. */
  lemma {:induction false} DatagramInBytes(crc: Checksum)
    requires forall b :: crc(b) == 0x0102_0304
    ensures var es := [Event(258, Pixel([65], 1, 3, 260)), Event(3, GameOver)];
      && AllSized(es)
      && Datagram(crc, 7, es)
        == [0, 0, 0, 7]
         + [0, 0, 0, 14, 0, 0, 1, 2, 1, 1, 0, 0, 0, 3, 0, 0, 1, 4, 1, 2, 3, 4]
         + [0, 0, 0, 5, 0, 0, 0, 3, 3, 1, 2, 3, 4]
  {
    hide *;
    var (e, f) := (Event(258, Pixel([65], 1, 3, 260)), Event(3, GameOver));
    PixelInBytes();
    EndInBytes();
    U32InBytes();
    EncodeParts(crc, e);
    EncodeParts(crc, f);
    Pair(crc, e, f);
  }
}
