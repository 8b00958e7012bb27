/** The client: it puts the events of a game together from datagrams that may be lost, repeated or reordered. */
module SnakeClient {
  import opened Basics
  import opened Bytes
  import opened SnakeEvents
  import opened SnakeDatagrams

  /** The events that the user interface is told about: all but GAME_OVER. */
  function Visible(log: seq<Event>): seq<Event> {
    if log == [] then []
    else Visible(log[..|log| - 1]) + if log[|log| - 1].data.GameOver? then [] else [log[|log| - 1]]
  }

  predicate ByNumber(q: seq<Event>) {
    forall i, j :: 0 <= i < j < |q| ==> q[i].number < q[j].number
  }

  /** The queue with `e` at its place: the top of the queue is its first element. */
  function Push(q: seq<Event>, e: Event): seq<Event> {
    if q == [] || e.number < q[0].number then [e] + q else [q[0]] + Push(q[1..], e)
  }

  lemma {:induction false} PushKeepsOrder(q: seq<Event>, e: Event)
    requires ByNumber(q) && forall i :: 0 <= i < |q| ==> q[i].number != e.number
    ensures ByNumber(Push(q, e)) && forall x :: x in Push(q, e) <==> x in q || x == e
  {
    if q != [] && e.number >= q[0].number {
      var (tail, r) := (q[1..], Push(q[1..], e));
      assert q == [q[0]] + tail && Push(q, e) == [q[0]] + r;
      PushKeepsOrder(tail, e);
      hide Push;
      assert forall i :: 0 <= i < |r| ==> r[i] in tail || r[i] == e;
    }
  }

  /** `n` is the least number that is not in the set. */
  ghost predicate IsLeast(n: nat, s: set<nat>) {
    n !in s && forall i :: 0 <= i < n ==> i in s
  }

  lemma NoMembers(s: seq<nat>)
    ensures Members(s[..0]) == {}
  {
  }

  class Client {
    var gameId: uint32
    var lastEvent: nat
    var eventsNo: set<nat>
    var gameEvents: seq<Event>
    var players: seq<Name>

    /** What the user interface was sent in this game, and up to which event. */
    ghost var shown: seq<Event>
    ghost var shownTo: nat

    constructor (gameId: uint32)
      ensures this.gameId == gameId && shown == [] && lastEvent == 0
    {
      this.gameId := gameId;
      lastEvent, eventsNo, gameEvents, players, shown, shownTo := 0, {}, [], [], [], 0;
    }

    /** What the client knows of the game `g` with the log `log`, if it is in that game at all. */
    ghost predicate Follows(g: uint32, log: seq<Event>)
      reads this
    {
      LogOk(log) && (gameId == g ==> 0 in eventsNo && players == log[0].data.players && Holds(log))
    }

    /** The events that are there, those that wait to be shown, and those that were shown. */
    ghost predicate Holds(log: seq<Event>)
      reads this
    {
      && (forall i :: i in eventsNo ==> i < |log|) && IsLeast(lastEvent, eventsNo)
      && ByNumber(gameEvents)
      && (forall e :: e in gameEvents <==> e.number in eventsNo && e.number >= shownTo && e == log[e.number] && !e.data.GameOver?)
      && shownTo <= lastEvent <= |log| && shown == Visible(log[..shownTo])
    }

    predicate HasEvent(n: nat)
      reads this
    {
      n in eventsNo
    }

    /** The name that belongs to the event's player number; the array access of the program fails for a wrong one. */
    method EnrichPlayerName(e: Event) returns (r: Event)
      requires e.data.Pixel? || e.data.PlayerEliminated? ==> e.data.playerNumber < |players|
      modifies `players
      ensures players == if e.data.NewGame? then e.data.players else old(players)
      ensures r.number == e.number && Blank(r) == Blank(e)
      ensures e.data.NewGame? || e.data.GameOver? ==> r == e
      ensures !e.data.NewGame? ==> NamedAs(r.data, players)
    {
      match e.data
      case NewGame(_, _, pl) => players := pl; r := e;
      case Pixel(_, n, x, y) => r := Event(e.number, Pixel(players[n], n, x, y));
      case PlayerEliminated(_, n) => r := Event(e.number, PlayerEliminated(players[n], n));
      case GameOver => r := e;
    }

    /** Moves `lastEvent` past all events that are there. */
    method Advance(ghost limit: nat)
      requires lastEvent <= limit && (forall i :: i in eventsNo ==> i < limit) && forall i :: 0 <= i < lastEvent ==> i in eventsNo
      modifies `lastEvent
      ensures IsLeast(lastEvent, eventsNo) && old(lastEvent) <= lastEvent <= limit
    {
      while lastEvent in eventsNo
        invariant forall i :: 0 <= i < lastEvent ==> i in eventsNo
        invariant old(lastEvent) <= lastEvent <= limit
        decreases limit - lastEvent
      {
        lastEvent := lastEvent + 1;
      }
    }

    /** Stores a new event. */
    method Store(event: Event, ghost log: seq<Event>)
      requires LogOk(log) && Holds(log) && event.number < |log| && event == log[event.number] && event.number !in eventsNo
      modifies `gameEvents, `eventsNo, `lastEvent
      ensures Holds(log) && eventsNo == old(eventsNo) + {event.number}
    {
      if !event.data.GameOver? {
        PushKeepsOrder(gameEvents, event);
        gameEvents := Push(gameEvents, event);
      }
      eventsNo := eventsNo + {event.number};
      Advance(|log|);
    }

    /** Takes one event of a message of game `g`, the `i`-th of the log. */
    method HandleEvent(g: uint32, e: Event, ghost log: seq<Event>, ghost i: nat)
      requires Follows(g, log) && i < |log| && e == Blank(log[i])
      modifies this
      ensures Follows(g, log)
      ensures old(gameId) == g ==> gameId == g && eventsNo == old(eventsNo) + {i} && shown == old(shown) && shownTo == old(shownTo)
      ensures old(gameId) != g && i == 0 ==> gameId == g && eventsNo == {0} && shown == []
      ensures old(gameId) != g && i > 0 ==> gameId == old(gameId)
    {
      if e.data.NewGame? && gameId != g {
        gameId := g;
        eventsNo, players, gameEvents, lastEvent := {}, [], [], 0;
        shown, shownTo := [], 0;
      }
      if gameId == g {
        var event := EnrichPlayerName(e);
        if HasEvent(e.number) {
          return;
        }
        Store(event, log);
      }
    }

    /** Takes a message of game `g`: its events are those of the log at the positions `from`. */
    method HandleIncomingDataServer(m: Received, g: uint32, ghost log: seq<Event>, ghost from: seq<nat>)
      requires Follows(g, log) && m.Received? && m.gameId == g && |from| == |m.events|
      requires forall j :: 0 <= j < |from| ==> from[j] < |log| && m.events[j] == Blank(log[from[j]])
      modifies this
      ensures Follows(g, log)
      ensures old(gameId) == g ==>
        gameId == g && eventsNo == old(eventsNo) + Members(from) && shown == old(shown) && shownTo == old(shownTo)
      ensures gameId == g || gameId == old(gameId)
      ensures old(gameId) != g ==> (gameId == g <==> 0 in from) && (gameId == g ==> shown == [])
      ensures old(gameId) != g && |from| > 0 && from[0] == 0 ==> eventsNo == Members(from)
    {
      hide Members, LogOk, Client.Holds;
      NoMembers(from);
      for j := 0 to |m.events|
        invariant Follows(g, log)
        invariant old(gameId) == g ==>
          gameId == g && eventsNo == old(eventsNo) + Members(from[..j]) && shown == old(shown) && shownTo == old(shownTo)
        invariant gameId == g || gameId == old(gameId)
        invariant old(gameId) != g ==> (gameId == g <==> 0 in from[..j]) && (gameId == g ==> shown == [])
        invariant old(gameId) != g && j > 0 && from[0] == 0 ==> eventsNo == Members(from[..j])
      {
        MembersNext(from, j);
        HandleEvent(g, m.events[j], log, from[j]);
      }
      TakeAll(from);
    }

    /** Whether an event can be shown: all before it are there. */
    predicate IsGuiData()
      reads this
    {
      gameEvents != [] && gameEvents[0].number < lastEvent
    }

    /** The number of the event that the server is asked for. */
    function SendRequest(): nat
      reads this
    {
      lastEvent
    }

    /** Sends the first event of the queue to the user interface. */
    method GuiCommunicate(ghost g: uint32, ghost log: seq<Event>) returns (event: Event)
      requires IsGuiData() && Follows(g, log)
      modifies `gameEvents, `shown, `shownTo
      ensures Follows(g, log) && shown == old(shown) + [event]
    {
      event := gameEvents[0];
      if gameId == g {
        TopIsNext(g, log);
        VisibleNext(log, shownTo, event.number);
      }
      gameEvents := gameEvents[1..];
      shown, shownTo := shown + [event], event.number + 1;
    }

    /** Everything between what was shown and the top of the queue is GAME_OVER. */
    lemma TopIsNext(g: uint32, log: seq<Event>)
      requires Follows(g, log) && gameId == g
      ensures IsGuiData() ==> (var top := gameEvents[0];
        && shownTo <= top.number < |log| && top == log[top.number] && !top.data.GameOver?
        && forall j :: shownTo <= j < top.number ==> log[j].data.GameOver?)
      ensures !IsGuiData() ==> forall j :: shownTo <= j < lastEvent ==> log[j].data.GameOver?
    {
      if gameEvents != [] {
        assert gameEvents[0] in gameEvents;
      }
      forall j | shownTo <= j < lastEvent && !log[j].data.GameOver?
        ensures log[j] in gameEvents
      {
        assert log[j].number == j;
      }
    }

    /** When nothing is left to show, all that is there without a gap has been shown. */
    lemma AllShown(g: uint32, log: seq<Event>)
      requires Follows(g, log) && gameId == g && !IsGuiData()
      ensures shown == Visible(log[..lastEvent])
    {
      TopIsNext(g, log);
      OnlyGameOver(log, shownTo, lastEvent);
    }
  }

  lemma {:induction false} OnlyGameOver(log: seq<Event>, i: nat, k: nat)
    requires i <= k <= |log| && forall j :: i <= j < k ==> log[j].data.GameOver?
    ensures Visible(log[..k]) == Visible(log[..i])
  {
    if i < k {
      OnlyGameOver(log, i, k - 1);
      assert log[..k][..k - 1] == log[..k - 1];
    }
  }

  lemma VisibleNext(log: seq<Event>, i: nat, k: nat)
    requires i <= k < |log| && (forall j :: i <= j < k ==> log[j].data.GameOver?) && !log[k].data.GameOver?
    ensures Visible(log[..k + 1]) == Visible(log[..i]) + [log[k]]
  {
    OnlyGameOver(log, i, k);
    assert log[..k + 1][..k] == log[..k];
  }

  lemma {:induction false} VisiblePrefix(log: seq<Event>, k: nat)
    requires k <= |log|
    ensures Visible(log[..k]) <= Visible(log)
  {
    if k < |log| {
      VisiblePrefix(log[..|log| - 1], k);
      assert log[..|log| - 1][..k] == log[..k];
    } else {
      assert log[..k] == log;
    }
  }

  // ----- whole runs -----

  datatype ClientStep = Receive(datagram: seq<byte>) | ShowOne

  /** A datagram of the game: some events of its log in a row, as the server sends them. */
  ghost predicate OfGame(crc: Checksum, g: uint32, log: seq<Event>, d: seq<byte>) {
    exists lo: nat, hi: nat :: InDatagram(crc, g, log, d, lo, hi)
  }

  predicate InDatagram(crc: Checksum, g: uint32, log: seq<Event>, d: seq<byte>, lo: nat, hi: nat) {
    lo <= hi <= |log| && |d| <= MAX_MSG_SIZE && Carries(crc, d, |d|, g, log[lo..hi])
  }

  function Zeros(n: nat): (s: seq<byte>)
    ensures |s| == n
  {
    seq(n, _ => 0)
  }

  /** The buffer after a datagram was received into it. */
  function Memory(d: seq<byte>): (b: seq<byte>)
    requires |d| <= MAX_MSG_SIZE
    ensures |b| == BUF_SIZE && b[|b| - 1] == 0 && b[..|d|] == d
  {
    d + Zeros(BUF_SIZE - |d|)
  }

  /** The numbers from `lo` to `hi`. */
  function Positions(lo: nat, hi: nat): (s: seq<nat>)
    requires lo <= hi
    ensures |s| == hi - lo && (forall i :: 0 <= i < |s| ==> s[i] == lo + i)
    ensures forall j :: j in s <==> lo <= j < hi
  {
    if lo == hi then [] else Positions(lo, hi - 1) + [hi - 1]
  }

  function Range(lo: nat, hi: nat): set<nat>
    requires lo <= hi
  {
    Members(Positions(lo, hi))
  }

  /** A datagram with the events from `lo` to `hi` adds these; a client that is not in the game enters with the first. */
  method ReceiveDatagram(client: Client, crc: Checksum, d: seq<byte>, ghost g: uint32, ghost log: seq<Event>, ghost lo: nat, ghost hi: nat)
    requires client.Follows(g, log) && InDatagram(crc, g, log, d, lo, hi)
    modifies client
    ensures client.Follows(g, log) && (client.gameId == g || client.gameId == old(client.gameId))
    ensures old(client.gameId) == g ==>
      client.gameId == g && client.shown == old(client.shown) && client.eventsNo == old(client.eventsNo) + Range(lo, hi)
    ensures old(client.gameId) != g ==> (client.gameId == g <==> lo == 0 < hi) && (client.gameId == g ==> client.eventsNo == Range(lo, hi))
  {
    hide Carries, Memory, Blank;
    CarriesInMemory(crc, d, g, log[lo..hi]);
    var m := Load(crc, Memory(d), |d|, g, log[lo..hi]);
    ghost var from := Positions(lo, hi);
    client.HandleIncomingDataServer(m, m.gameId, log, from);
  }

  lemma CarriesInMemory(crc: Checksum, d: seq<byte>, g: uint32, es: seq<Event>)
    requires |d| <= MAX_MSG_SIZE && Carries(crc, d, |d|, g, es)
    ensures Carries(crc, Memory(d), |d|, g, es)
  {
    TakeAll(d);
  }

  /**
   * Whatever datagrams of a game arrive, in whatever order and how often, and whenever the user interface is
   * served: once the client is in the game, it knows the least missing event, and has shown a prefix of the log.
   */
  method Play(client: Client, crc: Checksum, steps: seq<ClientStep>, ghost g: uint32, ghost log: seq<Event>)
    requires client.Follows(g, log)
    requires forall s :: s in steps && s.Receive? ==> OfGame(crc, g, log, s.datagram)
    modifies client
    ensures client.Follows(g, log)
    ensures client.gameId == g ==> IsLeast(client.lastEvent, client.eventsNo) && client.shown <= Visible(log)
    ensures old(client.gameId) == g ==> client.gameId == g && old(client.shown) <= client.shown && old(client.eventsNo) <= client.eventsNo
  {
    hide InDatagram, Visible;
    for k := 0 to |steps|
      invariant client.Follows(g, log)
      invariant old(client.gameId) == g ==>
        client.gameId == g && old(client.shown) <= client.shown && old(client.eventsNo) <= client.eventsNo
    {
      assert steps[k] in steps;
      match steps[k] {
        case Receive(d) =>
          ghost var lo: nat, hi: nat :| InDatagram(crc, g, log, d, lo, hi);
          ReceiveDatagram(client, crc, d, g, log, lo, hi);
        case ShowOne =>
          if client.IsGuiData() {
            var event := client.GuiCommunicate(g, log);
          }
      }
    }
    if client.gameId == g {
      VisiblePrefix(log, client.shownTo);
    }
  }
}
