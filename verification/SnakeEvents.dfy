/** The events of the snake game and their bytes. */
module SnakeEvents {
  import opened Bytes

  type uint32 = n: int | 0 <= n < 0x1_0000_0000

  type Name = seq<byte>

  /** The checksum is the 32-bit CRC of a library; nothing here depends on which function it is. */
  type Checksum = seq<byte> -> uint32

  datatype EventData =
    | NewGame(maxx: uint32, maxy: uint32, players: seq<Name>)
    | Pixel(playerName: Name, playerNumber: byte, x: uint32, y: uint32)
    | PlayerEliminated(playerName: Name, playerNumber: byte)
    | GameOver

  datatype Event = Event(number: uint32, data: EventData)

  predicate InvalidPlayerName(name: Name) {
    !(|name| < 65 && forall i :: 0 <= i < |name| ==> 33 <= name[i] <= 126)
  }

  /** A name has at most 64 characters, all from '!' to '~'. */
  lemma NameRules(name: Name)
    ensures !InvalidPlayerName(name) <==> |name| <= 64 && forall c :: c in name ==> '!' as int <= c <= '~' as int
  {
    assert forall i :: 0 <= i < |name| ==> name[i] in name;
  }

  /** Player names are not sent with an event; the receiver looks them up by number. */
  function Blank(e: Event): Event {
    match e.data
    case Pixel(_, n, x, y) => Event(e.number, Pixel([], n, x, y))
    case PlayerEliminated(_, n) => Event(e.number, PlayerEliminated([], n))
    case _ => e
  }

  // ----- bytes -----

  /** Four bytes, most significant first. */
  function U32(n: uint32): (s: seq<byte>)
    ensures |s| == 4
  {
    [n / 0x100_0000, n / 0x1_0000 % 0x100, n / 0x100 % 0x100, n % 0x100]
  }

  function FromU32(b: seq<byte>, p: nat): uint32
    requires p + 4 <= |b|
  {
    var (b0: int, b1: int, b2: int, b3: int) := (b[p], b[p + 1], b[p + 2], b[p + 3]);
    b0 * 0x100_0000 + b1 * 0x1_0000 + b2 * 0x100 + b3
  }

  lemma Digits(n: uint32)
    ensures n == n / 0x100_0000 * 0x100_0000 + n / 0x1_0000 % 0x100 * 0x1_0000 + n / 0x100 % 0x100 * 0x100 + n % 0x100
  {
    var (a: int, b: int) := (n / 0x100, n / 0x1_0000);
    assert n == a * 0x100 + n % 0x100;
    assert a == b * 0x100 + a % 0x100 && a / 0x100 == b;
    assert b == b / 0x100 * 0x100 + b % 0x100 && b / 0x100 == n / 0x100_0000;
  }

  lemma U32Back(b: seq<byte>, p: nat, n: uint32)
    requires p + 4 <= |b| && b[p..p + 4] == U32(n)
    ensures FromU32(b, p) == n
  {
    var s := b[p..p + 4];
    Digits(n);
    assert b[p] == s[0] && b[p + 1] == s[1] && b[p + 2] == s[2] && b[p + 3] == s[3];
  }

  function NameBytes(players: seq<Name>): seq<byte> {
    if players == [] then [] else players[0] + [0] + NameBytes(players[1..])
  }

  function TypeOf(d: EventData): byte {
    match d case NewGame(_, _, _) => 0 case Pixel(_, _, _, _) => 1 case PlayerEliminated(_, _) => 2 case GameOver => 3
  }

  function DataBytes(d: EventData): seq<byte> {
    match d
    case NewGame(maxx, maxy, players) => U32(maxx) + U32(maxy) + NameBytes(players)
    case Pixel(_, n, x, y) => [n] + U32(x) + U32(y)
    case PlayerEliminated(_, n) => [n]
    case GameOver => []
  }

  /** Small enough for its length field, and for the buffer. */
  predicate Sized(d: EventData) {
    |DataBytes(d)| <= 65000
  }

  /** The length, the number, the type and the data of an event. */
  function Body(e: Event): (s: seq<byte>)
    requires Sized(e.data)
    ensures |s| == 9 + |DataBytes(e.data)|
  {
    U32(5 + |DataBytes(e.data)|) + U32(e.number) + [TypeOf(e.data)] + DataBytes(e.data)
  }

  function Encode(crc: Checksum, e: Event): (s: seq<byte>)
    requires Sized(e.data)
    ensures |s| == 13 + |DataBytes(e.data)|
  {
    Body(e) + U32(crc(Body(e)))
  }

  // ----- writing an event into a buffer -----

  function CalcLen(d: EventData): (n: nat)
    ensures n == |DataBytes(d)|
  {
    match d
    case NewGame(_, _, players) => 8 + NamesLength(players)
    case Pixel(_, _, _, _) => 9
    case PlayerEliminated(_, _) => 1
    case GameOver => 0
  }

  function NamesLength(players: seq<Name>): (n: nat)
    ensures n == |NameBytes(players)|
  {
    if players == [] then 0 else |players[0]| + 1 + NamesLength(players[1..])
  }

  method PutU32(buf: array<byte>, p: nat, n: uint32)
    requires p + 4 <= buf.Length
    modifies buf
    ensures buf[..] == old(Overwrite(buf[..], p, U32(n)))
  {
    buf[p], buf[p + 1], buf[p + 2], buf[p + 3] := n / 0x100_0000, n / 0x1_0000 % 0x100, n / 0x100 % 0x100, n % 0x100;
  }

  /** A string with the zero byte that ends it. */
  method PutName(buf: array<byte>, p: nat, name: Name)
    requires p + |name| + 1 <= buf.Length
    modifies buf
    ensures buf[..] == old(Overwrite(buf[..], p, name + [0]))
  {
    forall i | 0 <= i < |name| {
      buf[p + i] := name[i];
    }
    buf[p + |name|] := 0;
  }

  lemma {:induction false} NameBytesNext(players: seq<Name>, k: nat)
    requires k < |players|
    ensures NameBytes(players[..k + 1]) == NameBytes(players[..k]) + (players[k] + [0])
    ensures |NameBytes(players[..k + 1])| <= |NameBytes(players)|
  {
    if k == 0 {
      assert players[..1] == [players[0]] && players[..1][1..] == [];
      assert NameBytes([players[0]]) == players[0] + [0] + NameBytes([]);
    } else {
      assert players[..k + 1][1..] == players[1..][..k] && players[..k][1..] == players[1..][..k - 1];
      NameBytesNext(players[1..], k - 1);
      Regroup(players[0] + [0], NameBytes(players[1..][..k - 1]), players[k] + [0]);
    }
  }

  method PutNames(buf: array<byte>, p: nat, players: seq<Name>) returns (size: nat)
    requires p + |NameBytes(players)| <= buf.Length
    modifies buf
    ensures size == |NameBytes(players)| && buf[..] == old(Overwrite(buf[..], p, NameBytes(players)))
  {
    hide Overwrite, NameBytes;
    ghost var before := buf[..];
    size := 0;
    OverwriteNothing(before, p);
    NoNames(players);
    for k := 0 to |players|
      invariant size == |NameBytes(players[..k])| <= |NameBytes(players)|
      invariant buf[..] == Overwrite(before, p, NameBytes(players[..k]))
    {
      NameBytesNext(players, k);
      PutName(buf, p + size, players[k]);
      OverwriteTwice(before, p, NameBytes(players[..k]), players[k] + [0]);
      size := size + |players[k]| + 1;
    }
    TakeAll(players);
  }

  lemma OverwriteNothing(s: seq<byte>, p: nat)
    requires p <= |s|
    ensures Overwrite(s, p, []) == s
  {
  }

  lemma NoNames(players: seq<Name>)
    ensures NameBytes(players[..0]) == []
  {
  }

  /** Serializes the data of an event. */
  method PutData(buf: array<byte>, p: nat, d: EventData) returns (size: nat)
    requires p + |DataBytes(d)| <= buf.Length
    modifies buf
    ensures size == |DataBytes(d)| && buf[..] == old(Overwrite(buf[..], p, DataBytes(d)))
  {
    hide Overwrite, U32, NameBytes;
    ghost var before := buf[..];
    match d {
      case NewGame(maxx, maxy, players) =>
        PutU32(buf, p, maxx);
        PutU32(buf, p + 4, maxy);
        OverwriteTwice(before, p, U32(maxx), U32(maxy));
        size := PutNames(buf, p + 8, players);
        OverwriteTwice(before, p, U32(maxx) + U32(maxy), NameBytes(players));
        size := size + 8;
      case Pixel(_, n, x, y) =>
        buf[p] := n;
        OverwriteOne(before, p, n);
        PutU32(buf, p + 1, x);
        OverwriteTwice(before, p, [n], U32(x));
        PutU32(buf, p + 5, y);
        OverwriteTwice(before, p, [n] + U32(x), U32(y));
        size := 9;
      case PlayerEliminated(_, n) =>
        buf[p] := n;
        OverwriteOne(before, p, n);
        size := 1;
      case GameOver =>
        OverwriteNothing(before, p);
        size := 0;
    }
  }

  /** Serializes what the checksum is taken over. */
  method PutBody(e: Event, buf: array<byte>, p: nat) returns (size: nat)
    requires Sized(e.data) && p + |Body(e)| <= buf.Length
    modifies buf
    ensures size == |Body(e)| && buf[..] == old(Overwrite(buf[..], p, Body(e)))
  {
    ghost var (before, len, no, tp, d) := (buf[..], U32(5 + |DataBytes(e.data)|), U32(e.number), [TypeOf(e.data)], DataBytes(e.data));
    assert Body(e) == len + no + tp + d;
    hide Overwrite, U32, DataBytes, Body;
    PutU32(buf, p, 5 + CalcLen(e.data));
    PutU32(buf, p + 4, e.number);
    OverwriteTwice(before, p, len, no);
    buf[p + 8] := TypeOf(e.data);
    OverwriteOne(Overwrite(before, p, len + no), p + 8, TypeOf(e.data));
    OverwriteTwice(before, p, len + no, tp);
    size := PutData(buf, p + 9, e.data);
    OverwriteTwice(before, p, len + no + tp, d);
    size := size + 9;
  }

  // ----- the bytes of an event -----

  lemma {:induction false} EventParts(crc: Checksum, b: seq<byte>, p: nat, e: Event)
    requires Sized(e.data) && p + |Encode(crc, e)| <= |b| && b[p..p + |Encode(crc, e)|] == Encode(crc, e)
    ensures var len := 5 + |DataBytes(e.data)|;
      && FromU32(b, p) == len && FromU32(b, p + 4) == e.number && b[p + 8] == TypeOf(e.data)
      && b[p + 9..p + 4 + len] == DataBytes(e.data)
      && b[p..p + len + 4] == Body(e) && FromU32(b, p + len + 4) == crc(Body(e))
  {
    hide *;
    var (body, sum) := (Body(e), U32(crc(Body(e))));
    EncodeParts(crc, e);
    ThreePieces(b, p, p + |body| + 4, [], body, sum);
    U32Back(b, p + |body|, crc(body));
    BodyParts(b, p, e);
  }

  lemma EncodeParts(crc: Checksum, e: Event)
    requires Sized(e.data)
    ensures Encode(crc, e) == [] + Body(e) + U32(crc(Body(e)))
  {
    hide Body, U32;
  }

  lemma {:induction false} BodyParts(b: seq<byte>, p: nat, e: Event)
    requires Sized(e.data) && p + |Body(e)| <= |b| && b[p..p + |Body(e)|] == Body(e)
    ensures var len := 5 + |DataBytes(e.data)|;
      && FromU32(b, p) == len && FromU32(b, p + 4) == e.number && b[p + 8] == TypeOf(e.data)
      && b[p + 9..p + 4 + len] == DataBytes(e.data)
  {
    var d := DataBytes(e.data);
    var (len, no, tp) := (U32(5 + |d|), U32(e.number), [TypeOf(e.data)]);
    Regroup(len + no, tp, d);
    assert Body(e) == len + no + (tp + d);
    hide *;
    var q := p + |Body(e)|;
    ThreePieces(b, p, q, len, no, tp + d);
    U32Back(b, p, 5 + |d|);
    U32Back(b, p + 4, e.number);
    Regroup([], tp, d);
    ThreePieces(b, p + 8, q, [], tp, d);
    assert b[p + 8] == b[p + 8..p + 9][0];
  }

  lemma {:induction false} NewGameParts(b: seq<byte>, p: nat, length: nat, d: EventData)
    requires p + length <= |b| && d.NewGame? && b[p..p + length] == DataBytes(d)
    ensures length >= 8 && FromU32(b, p) == d.maxx && FromU32(b, p + 4) == d.maxy
    ensures b[p + 8..p + length] == NameBytes(d.players)
  {
    var (x, y, n) := (U32(d.maxx), U32(d.maxy), NameBytes(d.players));
    assert b[p..p + length] == x + y + n;
    hide *;
    ThreePieces(b, p, p + length, x, y, n);
    U32Back(b, p, d.maxx);
    U32Back(b, p + 4, d.maxy);
  }

  lemma {:induction false} PixelParts(b: seq<byte>, p: nat, length: nat, d: EventData)
    requires p + length <= |b| && d.Pixel? && b[p..p + length] == DataBytes(d)
    ensures length == 9 && b[p] == d.playerNumber && FromU32(b, p + 1) == d.x && FromU32(b, p + 5) == d.y
  {
    var (x, y) := (U32(d.x), U32(d.y));
    assert b[p..p + length] == [d.playerNumber] + x + y;
    hide *;
    ThreePieces(b, p, p + length, [d.playerNumber], x, y);
    assert b[p] == b[p..p + 1][0];
    U32Back(b, p + 1, d.x);
    U32Back(b, p + 5, d.y);
  }

  /** Where the parts of an event are, in numbers. */
  lemma {:induction false} WireFormat(crc: Checksum, b: seq<byte>, p: nat, e: Event)
    requires Sized(e.data) && p + |Encode(crc, e)| <= |b| && b[p..p + |Encode(crc, e)|] == Encode(crc, e)
    ensures var n := |Encode(crc, e)|;
      && n - 8 == 16777216 * (b[p] as int) + 65536 * (b[p + 1] as int) + 256 * (b[p + 2] as int) + b[p + 3] as int
      && e.number == 16777216 * (b[p + 4] as int) + 65536 * (b[p + 5] as int) + 256 * (b[p + 6] as int) + b[p + 7] as int
      && b[p + 8] == (match e.data case NewGame(_, _, _) => 0 case Pixel(_, _, _, _) => 1 case PlayerEliminated(_, _) => 2 case GameOver => 3)
      && crc(b[p..p + n - 4]) == 16777216 * (b[p + n - 4] as int) + 65536 * (b[p + n - 3] as int) + 256 * (b[p + n - 2] as int) + b[p + n - 1] as int
    ensures match e.data
      case NewGame(maxx, maxy, _) =>
        && maxx == 16777216 * (b[p + 9] as int) + 65536 * (b[p + 10] as int) + 256 * (b[p + 11] as int) + b[p + 12] as int
        && maxy == 16777216 * (b[p + 13] as int) + 65536 * (b[p + 14] as int) + 256 * (b[p + 15] as int) + b[p + 16] as int
      case Pixel(_, player, x, y) =>
        && |Encode(crc, e)| == 22 && b[p + 9] == player
        && x == 16777216 * (b[p + 10] as int) + 65536 * (b[p + 11] as int) + 256 * (b[p + 12] as int) + b[p + 13] as int
        && y == 16777216 * (b[p + 14] as int) + 65536 * (b[p + 15] as int) + 256 * (b[p + 16] as int) + b[p + 17] as int
      case PlayerEliminated(_, player) => |Encode(crc, e)| == 14 && b[p + 9] == player
      case GameOver => |Encode(crc, e)| == 13
  {
    hide U32, Body, DataBytes, NameBytes;
    EventParts(crc, b, p, e);
    var length := |DataBytes(e.data)|;
    DataLength(e.data);
    match e.data
    case NewGame(_, _, _) => NewGameParts(b, p + 9, length, e.data);
    case Pixel(_, _, _, _) => PixelParts(b, p + 9, length, e.data);
    case PlayerEliminated(_, _) => assert b[p + 9] == b[p + 9..p + 10][0];
    case GameOver =>
  }

  lemma DataLength(d: EventData)
    ensures match d
      case NewGame(_, _, _) => |DataBytes(d)| >= 8
      case Pixel(_, _, _, _) => |DataBytes(d)| == 9
      case PlayerEliminated(_, n) => DataBytes(d) == [n]
      case GameOver => DataBytes(d) == []
  {
  }

  /** The names of a new game follow each other, each with a zero byte behind it; `at` says where. */
  lemma {:induction false} NamesFormat(b: seq<byte>, p: nat, length: nat, players: seq<Name>) returns (at: seq<nat>)
    requires p + length <= |b| && b[p..p + length] == NameBytes(players)
    ensures |at| == |players| + 1 && at[0] == p && at[|players|] == p + length
    ensures forall k :: 0 <= k < |players| ==>
      at[k + 1] == at[k] + |players[k]| + 1 <= p + length && b[at[k]..at[k] + |players[k]|] == players[k] && b[at[k] + |players[k]|] == 0
    decreases |players|
  {
    if players == [] {
      at := [p];
    } else {
      var (name, rest) := (players[0], NameBytes(players[1..]));
      assert b[p..p + length] == name + [0] + rest;
      hide NameBytes;
      ThreePieces(b, p, p + length, name, [0], rest);
      assert b[p + |name|] == b[p + |name|..p + |name| + 1][0];
      var more := NamesFormat(b, p + |name| + 1, |rest|, players[1..]);
      at := [p] + more;
    }
  }

  /** Serializes an event with its checksum. */
  method Serialize(crc: Checksum, e: Event, buf: array<byte>, p: nat) returns (size: nat)
    requires Sized(e.data) && p + |Encode(crc, e)| <= buf.Length
    modifies buf
    ensures size == |Encode(crc, e)| && buf[..] == old(Overwrite(buf[..], p, Encode(crc, e)))
    ensures size - 8 == 16777216 * (buf[p] as int) + 65536 * (buf[p + 1] as int) + 256 * (buf[p + 2] as int) + buf[p + 3] as int
    ensures e.number == 16777216 * (buf[p + 4] as int) + 65536 * (buf[p + 5] as int) + 256 * (buf[p + 6] as int) + buf[p + 7] as int
    ensures buf[p + 8] == match e.data case NewGame(_, _, _) => 0 case Pixel(_, _, _, _) => 1 case PlayerEliminated(_, _) => 2 case GameOver => 3
    ensures e.data.Pixel? ==>
      (size == 22 && buf[p + 9] == e.data.playerNumber
       && e.data.x == 16777216 * (buf[p + 10] as int) + 65536 * (buf[p + 11] as int) + 256 * (buf[p + 12] as int) + buf[p + 13] as int
       && e.data.y == 16777216 * (buf[p + 14] as int) + 65536 * (buf[p + 15] as int) + 256 * (buf[p + 16] as int) + buf[p + 17] as int)
    ensures e.data.PlayerEliminated? ==> size == 14 && buf[p + 9] == e.data.playerNumber
  {
    hide Overwrite, U32, DataBytes, Body, Sized;
    ghost var before := buf[..];
    size := PutBody(e, buf, p);
    OverwriteParts(before, p, Body(e));
    assert buf[p..p + size] == buf[..][p..p + size];
    PutU32(buf, p + size, crc(buf[p..p + size]));
    OverwriteTwice(before, p, Body(e), U32(crc(Body(e))));
    size := size + 4;
    OverwriteParts(before, p, Encode(crc, e));
    WireFormat(crc, buf[..], p, e);
  }

  lemma NamesInBytes()
    ensures NameBytes([[65], [66, 67]]) == [65, 0, 66, 67, 0]
  {
    var players: seq<Name> := [[65], [66, 67]];
    assert players[1..] == [[66, 67]] && players[1..][1..] == [];
    assert NameBytes(players[1..]) == [66, 67, 0];
  }

  /** A new game on a board of 639 by 479 fields, in bytes. */
  lemma {:induction false} NewGameInBytes()
    ensures var d := NewGame(639, 479, [[65], [66, 67]]);
      Sized(d) && Body(Event(0, d)) == [0, 0, 0, 18, 0, 0, 0, 0, 0, 0, 0, 2, 127, 0, 0, 1, 223, 65, 0, 66, 67, 0]
  {
    hide NameBytes;
    NamesInBytes();
    var players: seq<Name> := [[65], [66, 67]];
    assert U32(18) == [0, 0, 0, 18] && U32(0) == [0, 0, 0, 0] && U32(639) == [0, 0, 2, 127] && U32(479) == [0, 0, 1, 223];
    hide U32;
    var d := NewGame(639, 479, players);
    assert DataBytes(d) == [0, 0, 2, 127, 0, 0, 1, 223, 65, 0, 66, 67, 0];
  }

  /** Event 258: player 1 takes the field (3, 260), in bytes. */
  lemma PixelInBytes()
    ensures var d := Pixel([65], 1, 3, 260); Sized(d) && Body(Event(258, d)) == [0, 0, 0, 14, 0, 0, 1, 2, 1, 1, 0, 0, 0, 3, 0, 0, 1, 4]
  {
    assert U32(14) == [0, 0, 0, 14] && U32(258) == [0, 0, 1, 2] && U32(3) == [0, 0, 0, 3] && U32(260) == [0, 0, 1, 4];
    hide U32;
    assert DataBytes(Pixel([65], 1, 3, 260)) == [1, 0, 0, 0, 3, 0, 0, 1, 4];
  }

  /** The elimination of player 1 and the end of a game, in bytes. */
  lemma EndInBytes()
    ensures var d := PlayerEliminated([65], 1); Sized(d) && Body(Event(2, d)) == [0, 0, 0, 6, 0, 0, 0, 2, 2, 1]
    ensures Sized(GameOver) && Body(Event(3, GameOver)) == [0, 0, 0, 5, 0, 0, 0, 3, 3]
  {
    assert U32(6) == [0, 0, 0, 6] && U32(2) == [0, 0, 0, 2] && U32(5) == [0, 0, 0, 5] && U32(3) == [0, 0, 0, 3];
    hide U32;
  }

  // ----- the events of a game -----

  /** A log as the server keeps it: numbered, one NEW_GAME at the start, and names that agree with it. */
  predicate LogOk(log: seq<Event>) {
    && log != [] && log[0].data.NewGame?
    && forall i :: 0 <= i < |log| ==> log[i].number == i && (i > 0 ==> NamedAs(log[i].data, log[0].data.players))
  }

  predicate NamedAs(d: EventData, players: seq<Name>) {
    match d
    case NewGame(_, _, _) => false
    case Pixel(name, n, _, _) => n < |players| && name == players[n]
    case PlayerEliminated(name, n) => n < |players| && name == players[n]
    case GameOver => true
  }
}
