/** The server and a client together, over a network that loses, repeats and reorders datagrams. */
module SnakeGame {
  import opened Bytes
  import opened SnakeEvents
  import opened SnakeDatagrams
  import opened SnakeClient
  import opened SnakeServer

  /** Every event of a game fits into a datagram, so that the server's sending never fails. */
  lemma {:induction false} LogFits(crc: Checksum, log: seq<Event>, maxx: uint32, maxy: uint32, over: bool)
    requires GameLog(log, maxx, maxy, over)
    ensures AllSized(log) && forall i :: 0 <= i < |log| ==> FitsInDatagram(crc, log[i])
  {
    assert forall i :: 0 <= i < |log| ==> Loadable(log[i]) && |DataBytes(log[i].data)| <= MAX_MSG_SIZE - 4 - 13;
  }

  /** The user interface is told of everything but the last event of a game that is over. */
  lemma {:induction false} VisibleIs(log: seq<Event>, maxx: uint32, maxy: uint32, over: bool)
    requires GameLog(log, maxx, maxy, over)
    ensures Visible(log) == if over then log[..|log| - 1] else log
  {
    hide PixelsOk, EliminationsOk, Loadable;
    var k := if over then |log| - 1 else |log|;
    AllVisible(log[..k]);
    TakeAll(log);
  }

  lemma {:induction false} AllVisible(log: seq<Event>)
    requires forall i :: 0 <= i < |log| ==> !log[i].data.GameOver?
    ensures Visible(log) == log
  {
    if log != [] {
      AllVisible(log[..|log| - 1]);
      assert log == log[..|log| - 1] + [log[|log| - 1]];
    }
  }

  /** Where the `k`-th group starts. */
  function StartOf(groups: seq<seq<Event>>, k: nat): nat
    requires k <= |groups|
  {
    |Concat(groups[..k])|
  }

  lemma {:induction false} ConcatSplit(groups: seq<seq<Event>>, k: nat)
    requires k < |groups|
    ensures StartOf(groups, k + 1) == StartOf(groups, k) + |groups[k]| <= |Concat(groups)|
    ensures Concat(groups)[StartOf(groups, k)..StartOf(groups, k + 1)] == groups[k]
    decreases |groups|
  {
    assert groups[..k + 1][..k] == groups[..k];
    if k == |groups| - 1 {
      TakeAll(groups);
      DropPrefix(Concat(groups[..k]), groups[k]);
    } else {
      var front := groups[..|groups| - 1];
      ConcatSplit(front, k);
      assert front[..k] == groups[..k] && front[..k + 1] == groups[..k + 1];
      SliceInside([], Concat(front), groups[|groups| - 1], StartOf(groups, k), StartOf(groups, k + 1));
    }
  }

  /** Each datagram of an answer holds events of the log in a row, one after the other. */
  lemma {:induction false} SentIsOfGame(crc: Checksum, g: uint32, events: seq<Event>, log: seq<Event>, n: nat,
                                        sent: seq<seq<byte>>, groups: seq<seq<Event>>, k: nat)
    requires events <= log && n <= |events| && SentAs(crc, g, sent, groups) && Concat(groups) == events[n..] && k < |sent|
    requires forall i :: 0 <= i < |events| ==> Loadable(events[i])
    ensures n + StartOf(groups, k + 1) <= |events|
    ensures InDatagram(crc, g, log, sent[k], n + StartOf(groups, k), n + StartOf(groups, k + 1))
  {
    hide Concat, Datagram, Loadable;
    ConcatSplit(groups, k);
    var (lo, hi) := (n + StartOf(groups, k), n + StartOf(groups, k + 1));
    SliceOfDrop(events, n, lo, hi);
    SliceOfTake(log, |events|, lo, hi);
    assert log[..|events|] == events;
    assert groups[k] == log[lo..hi];
    assert forall i :: 0 <= i < hi - lo ==> groups[k][i] == events[lo + i];
    TakeAll(sent[k]);
  }

  /** The server's answer to a request for the events from `n` on, when the log had `length` events. */
  method Answer(sender: Sender, crc: Checksum, g: uint32, log: seq<Event>, length: nat, n: nat, ghost maxx: uint32, ghost maxy: uint32, ghost over: bool)
    returns (sent: seq<seq<byte>>, ghost groups: seq<seq<Event>>)
    requires sender.buf.Length == BUF_SIZE && GameLog(log, maxx, maxy, over) && length <= |log|
    modifies sender.buf
    ensures SentAs(crc, g, sent, groups) && Concat(groups) == if n < length then log[..length][n..] else []
    ensures forall k :: 0 <= k < |sent| ==> OfGame(crc, g, log, sent[k])
  {
    hide Datagram, Encode, Concat, Loadable, EliminationsOk, PixelsOk, InDatagram;
    LogFits(crc, log, maxx, maxy, over);
    var events := log[..length];
    var ok;
    ok, sent, groups := sender.SendMessage(crc, g, events, n);
    if n < length {
      forall k | 0 <= k < |sent| ensures OfGame(crc, g, log, sent[k]) {
        SentIsOfGame(crc, g, events, log, n, sent, groups, k);
        assert InDatagram(crc, g, log, sent[k], n + StartOf(groups, k), n + StartOf(groups, k + 1));
      }
    } else {
      NoGroups(crc, g, sent, groups);
    }
  }

  lemma {:induction false} NoGroups(crc: Checksum, g: uint32, sent: seq<seq<byte>>, groups: seq<seq<Event>>)
    requires SentAs(crc, g, sent, groups)
    ensures sent != [] ==> Concat(groups) != []
  {
    if sent != [] {
      assert groups[|groups| - 1] != [] && Concat(groups) == Concat(groups[..|groups| - 1]) + groups[|groups| - 1];
    }
  }

  datatype SessionStep = Reply(length: nat, n: nat) | Deliver(index: nat) | Show

  /**
   * A whole game as a client sees it. The server answers any requests at any lengths of its growing log; any of
   * the datagrams ever sent may arrive, at any time and any number of times. What was shown is a prefix of the
   * log without GAME_OVER, and the client knows the least event that it misses.
   */
  method Session(sender: Sender, client: Client, crc: Checksum, g: uint32, log: seq<Event>, steps: seq<SessionStep>,
                 ghost maxx: uint32, ghost maxy: uint32, ghost over: bool)
    requires sender.buf.Length == BUF_SIZE && GameLog(log, maxx, maxy, over) && client.Follows(g, log)
    modifies sender.buf, client
    ensures client.Follows(g, log)
    ensures client.gameId == g ==> client.shown <= Visible(log) && IsLeast(client.lastEvent, client.eventsNo)
    ensures client.gameId == g && !client.IsGuiData() ==> client.shown == Visible(log[..client.lastEvent])
    ensures old(client.gameId) == g ==> old(client.shown) <= client.shown
  {
    hide GameLog, OfGame, Visible;
    var network: seq<seq<byte>> := [];
    for i := 0 to |steps|
      invariant client.Follows(g, log) && forall k :: 0 <= k < |network| ==> OfGame(crc, g, log, network[k])
      invariant old(client.gameId) == g ==> client.gameId == g && old(client.shown) <= client.shown
    {
      match steps[i] {
        case Reply(length, n) =>
          if length <= |log| {
            var sent, groups := Answer(sender, crc, g, log, length, n, maxx, maxy, over);
            network := network + sent;
          }
        case Deliver(index) =>
          if index < |network| {
            Play(client, crc, [Receive(network[index])], g, log);
          }
        case Show =>
          Play(client, crc, [ShowOne], g, log);
      }
    }
    if client.gameId == g {
      VisiblePrefix(log, client.shownTo);
      if !client.IsGuiData() { client.AllShown(g, log); }
    }
  }

  lemma RangeJoin(known: set<nat>, lo: nat, mid: nat, hi: nat)
    requires lo <= mid <= hi
    ensures (known + Range(lo, mid)) + Range(mid, hi) == known + Range(lo, hi)
    ensures Range(lo, mid) + Range(mid, hi) == Range(lo, hi) && known + Range(lo, lo) == known
  {
  }

  /** The datagrams of an answer from the `first` on arrive in order at a client that is in the game. */
  method DeliverInGame(client: Client, crc: Checksum, g: uint32, log: seq<Event>, n: nat, sent: seq<seq<byte>>,
                       ghost groups: seq<seq<Event>>, first: nat)
    requires client.Follows(g, log) && IsAnswer(crc, g, log, n, sent, groups)
    requires client.gameId == g && first <= |sent| == |groups| && n + StartOf(groups, first) <= |log|
    modifies client
    ensures client.Follows(g, log) && client.gameId == g
    ensures client.eventsNo == old(client.eventsNo) + Range(n + StartOf(groups, first), |log|)
  {
    hide *;
    ghost var known := client.eventsNo;
    ghost var (from, to) := (n + StartOf(groups, first), n + StartOf(groups, first));
    RangeJoin(client.eventsNo, from, from, from);
    for k := first to |sent|
      invariant client.Follows(g, log) && client.gameId == g && |groups| == |sent| && from <= to == n + StartOf(groups, k) <= |log|
      invariant client.eventsNo == known + Range(from, to)
    {
      NextGroup(crc, g, log, n, sent, groups, k);
      ghost var next := n + StartOf(groups, k + 1);
      ReceiveDatagram(client, crc, sent[k], g, log, to, next);
      RangeJoin(known, from, to, next);
      to := next;
    }
    AllGroups(crc, g, log, n, sent, groups);
  }

  /** All datagrams of an answer arrive in order. */
  method DeliverAll(client: Client, crc: Checksum, g: uint32, log: seq<Event>, n: nat, sent: seq<seq<byte>>, ghost groups: seq<seq<Event>>)
    requires client.Follows(g, log) && IsAnswer(crc, g, log, n, sent, groups)
    modifies client
    ensures client.Follows(g, log)
    ensures old(client.gameId) == g ==> client.gameId == g && client.eventsNo == old(client.eventsNo) + Range(n, |log|)
    ensures old(client.gameId) != g ==> client.gameId == (if n == 0 then g else old(client.gameId)) && (n == 0 ==> client.eventsNo == Range(0, |log|))
  {
    hide *;
    AllGroups(crc, g, log, n, sent, groups);
    if client.gameId == g {
      DeliverInGame(client, crc, g, log, n, sent, groups, 0);
    } else if n == 0 {
      NextGroup(crc, g, log, n, sent, groups, 0);
      ReceiveDatagram(client, crc, sent[0], g, log, 0, StartOf(groups, 1));
      DeliverInGame(client, crc, g, log, n, sent, groups, 1);
      RangeJoin({}, 0, StartOf(groups, 1), |log|);
    } else {
      for k := 0 to |sent|
        invariant client.Follows(g, log) && client.gameId == old(client.gameId) != g && |groups| == |sent|
      {
        NextGroup(crc, g, log, n, sent, groups, k);
        ReceiveDatagram(client, crc, sent[k], g, log, n + StartOf(groups, k), n + StartOf(groups, k + 1));
      }
    }
  }

  /** The datagrams that hold the events of the log from `n` on. */
  ghost predicate IsAnswer(crc: Checksum, g: uint32, log: seq<Event>, n: nat, sent: seq<seq<byte>>, groups: seq<seq<Event>>) {
    n < |log| && SentAs(crc, g, sent, groups) && Concat(groups) == log[n..] && forall i :: 0 <= i < |log| ==> Loadable(log[i])
  }

  lemma AllGroups(crc: Checksum, g: uint32, log: seq<Event>, n: nat, sent: seq<seq<byte>>, groups: seq<seq<Event>>)
    requires IsAnswer(crc, g, log, n, sent, groups)
    ensures n < |log| && |groups| == |sent| > 0 && StartOf(groups, |groups|) == |log| - n && StartOf(groups, 0) == 0
  {
    TakeAll(groups);
  }

  lemma NextGroup(crc: Checksum, g: uint32, log: seq<Event>, n: nat, sent: seq<seq<byte>>, groups: seq<seq<Event>>, k: nat)
    requires IsAnswer(crc, g, log, n, sent, groups) && k < |sent|
    ensures |groups| == |sent| && StartOf(groups, k) < StartOf(groups, k + 1) <= |log| - n
    ensures InDatagram(crc, g, log, sent[k], n + StartOf(groups, k), n + StartOf(groups, k + 1))
  {
    ConcatSplit(groups, k);
    SentIsOfGame(crc, g, log, log, n, sent, groups, k);
  }

  /**
   * One request and its answer without loss bring a client up to date, exactly when it is in the game already or
   * asks from the start; otherwise it stays outside.
   */
  method CatchUp(sender: Sender, client: Client, crc: Checksum, g: uint32, log: seq<Event>, ghost maxx: uint32, ghost maxy: uint32, ghost over: bool)
    requires sender.buf.Length == BUF_SIZE && GameLog(log, maxx, maxy, over) && client.Follows(g, log)
    modifies sender.buf, client
    ensures client.Follows(g, log)
    ensures client.gameId == if old(client.lastEvent) == 0 then g else old(client.gameId)
    ensures client.gameId == g ==> client.lastEvent == |log|
  {
    var n := client.SendRequest();
    var sent, groups := Answer(sender, crc, g, log, |log|, n, maxx, maxy, over);
    TakeAll(log);
    if n < |log| {
      DeliverAll(client, crc, g, log, n, sent, groups);
    }
    if client.gameId == g {
      UpToDate(client, g, log);
    }
  }

  lemma UpToDate(client: Client, g: uint32, log: seq<Event>)
    requires client.Follows(g, log) && client.gameId == g && forall i :: 0 <= i < |log| ==> i in client.eventsNo
    ensures client.lastEvent == |log|
  {
  }

  /**
   * A client that was brought up to date in one game asks for events of the next game in vain: it does not ask
   * from the start, so it never sees the NEW_GAME.
   */
  method NextGameIsMissed(sender: Sender, crc: Checksum, first: uint32, g: uint32, log: seq<Event>, g': uint32, log': seq<Event>,
                          ghost maxx: uint32, ghost maxy: uint32, ghost over: bool)
    returns (client: Client)
    requires sender.buf.Length == BUF_SIZE && first != g && g != g'
    requires GameLog(log, maxx, maxy, true) && GameLog(log', maxx, maxy, over)
    modifies sender.buf
    ensures fresh(client) && client.gameId == g != g'
  {
    hide GameLog, Client.Holds;
    client := new Client(first);
    IsLog(log, maxx, maxy, true);
    CatchUp(sender, client, crc, g, log, maxx, maxy, true);
    IsLog(log', maxx, maxy, over);
    var lastEvent := client.lastEvent;
    CatchUp(sender, client, crc, g', log', maxx, maxy, over);
  }

  lemma IsLog(log: seq<Event>, maxx: uint32, maxy: uint32, over: bool)
    requires GameLog(log, maxx, maxy, over)
    ensures LogOk(log)
  {
  }
}
