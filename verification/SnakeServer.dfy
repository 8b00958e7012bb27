/** The server's game: rounds, eliminations and the log of events. */
module SnakeServer {
  import opened Bytes
  import opened SnakeEvents
  import opened SnakeDatagrams

  type Field = (int, int)

  /** A player; `field` is the field that the snake's position falls into. */
  datatype Player = Player(name: Name, number: byte, field: Field, ready: bool, plays: bool, disconnected: bool)

  // ----- what a log is -----

  predicate IsElimination(e: Event, n: byte) {
    e.data.PlayerEliminated? && e.data.playerNumber == n
  }

  predicate About(e: Event, n: byte) {
    (e.data.Pixel? && e.data.playerNumber == n) || IsElimination(e, n)
  }

  /** The fields of the pixels. */
  ghost function Fields(log: seq<Event>): set<Field> {
    set i | 0 <= i < |log| && log[i].data.Pixel? :: (log[i].data.x, log[i].data.y)
  }

  /** Pixels lie on the board, both border lines included, and no field is taken twice. */
  ghost predicate PixelsOk(log: seq<Event>, maxx: uint32, maxy: uint32) {
    && (forall i :: 0 <= i < |log| && log[i].data.Pixel? ==> log[i].data.x <= maxx && log[i].data.y <= maxy)
    && (forall i, j :: 0 <= i < j < |log| && log[i].data.Pixel? && log[j].data.Pixel? ==>
      log[i].data.x != log[j].data.x || log[i].data.y != log[j].data.y)
  }

  /** Nothing happens to a player after its elimination. */
  ghost predicate EliminationsOk(log: seq<Event>) {
    forall i, j, n :: 0 <= i < j < |log| && IsElimination(log[i], n) ==> !About(log[j], n)
  }

  /** The log of a game, over or not. */
  ghost predicate GameLog(log: seq<Event>, maxx: uint32, maxy: uint32, over: bool) {
    && LogOk(log) && PixelsOk(log, maxx, maxy) && EliminationsOk(log)
    && log[0].data == NewGame(maxx, maxy, log[0].data.players)
    && (forall i :: 0 <= i < |log| ==> (log[i].data.GameOver? <==> over && i == |log| - 1))
    && (forall i :: 0 <= i < |log| ==> Loadable(log[i]) && |DataBytes(log[i].data)| <= MAX_MSG_SIZE - 4 - 13)
  }

  /** What the log takes next: an event of a player that is still in the game, on a free field of the board. */
  ghost predicate MayFollow(log: seq<Event>, maxx: uint32, maxy: uint32, d: EventData)
    requires log != [] && log[0].data.NewGame?
  {
    && NamedAs(d, log[0].data.players)
    && (d.Pixel? ==> d.x <= maxx && d.y <= maxy && (d.x, d.y) !in Fields(log))
    && (d.Pixel? || d.PlayerEliminated? ==> forall i :: 0 <= i < |log| ==> !IsElimination(log[i], d.playerNumber))
  }

  lemma {:induction false} FieldsNext(log: seq<Event>, e: Event)
    ensures Fields(log + [e]) == Fields(log) + if e.data.Pixel? then {(e.data.x, e.data.y)} else {}
  {
    var r := log + [e];
    forall f ensures f in Fields(r) <==> f in Fields(log) || (e.data.Pixel? && f == (e.data.x, e.data.y)) {
      if f in Fields(log) {
        var i :| 0 <= i < |log| && log[i].data.Pixel? && f == (log[i].data.x, log[i].data.y);
        assert r[i] == log[i];
      }
      if e.data.Pixel? && f == (e.data.x, e.data.y) {
        assert r[|log|].data.Pixel?;
      }
    }
  }

  lemma {:induction false} PixelsNext(log: seq<Event>, maxx: uint32, maxy: uint32, e: Event)
    requires PixelsOk(log, maxx, maxy)
    requires e.data.Pixel? ==> e.data.x <= maxx && e.data.y <= maxy && (e.data.x, e.data.y) !in Fields(log)
    ensures PixelsOk(log + [e], maxx, maxy)
  {
    if e.data.Pixel? {
      forall i | 0 <= i < |log| && log[i].data.Pixel?
        ensures log[i].data.x != e.data.x || log[i].data.y != e.data.y
      {
        assert (log[i].data.x, log[i].data.y) in Fields(log);
      }
    }
  }

  /** A log goes on with such an event, and ends with GAME_OVER. */
  lemma {:induction false} Extended(log: seq<Event>, maxx: uint32, maxy: uint32, d: EventData)
    requires GameLog(log, maxx, maxy, false) && |log| < 0x1_0000_0000 && MayFollow(log, maxx, maxy, d)
    ensures var r := log + [Event(|log|, d)];
      GameLog(r, maxx, maxy, d.GameOver?) && Fields(r) == Fields(log) + if d.Pixel? then {(d.x, d.y)} else {}
  {
    var r := log + [Event(|log|, d)];
    FieldsNext(log, r[|log|]);
    PixelsNext(log, maxx, maxy, r[|log|]);
    assert EliminationsOk(r);
    hide Fields, PixelsOk, EliminationsOk;
  }

  // ----- the players -----

  predicate Named(p: Player) {
    p.name != []
  }

  /** The names of the players that have one, in the order of the player table. */
  function PlayerNames(players: seq<Player>): seq<Name> {
    if players == [] then []
    else PlayerNames(players[..|players| - 1]) + if Named(players[|players| - 1]) then [players[|players| - 1].name] else []
  }

  /** The size of the first event with its game number, in a datagram. */
  function AbsoluteSize(players: seq<Player>): nat {
    25 + |NameBytes(PlayerNames(players))|
  }

  /** Each player that is still in the game has its own number, which is that of its name, and was not eliminated. */
  ghost predicate PlayersOk(players: seq<Player>, log: seq<Event>)
    requires log != [] && log[0].data.NewGame?
  {
    && (forall i :: 0 <= i < |players| && players[i].plays ==> InGame(players[i], log))
    && (forall i, j :: 0 <= i < j < |players| && players[i].plays && players[j].plays ==> players[i].number != players[j].number)
  }

  ghost predicate InGame(p: Player, log: seq<Event>)
    requires log != [] && log[0].data.NewGame?
  {
    && p.number < |log[0].data.players| && log[0].data.players[p.number] == p.name
    && forall i :: 0 <= i < |log| ==> !IsElimination(log[i], p.number)
  }

  function Playing(players: seq<Player>): nat {
    if players == [] then 0 else Playing(players[..|players| - 1]) + if players[|players| - 1].plays then 1 else 0
  }

  /** The other players are not touched by an event of one player. */
  lemma {:induction false} PlayersStay(players: seq<Player>, log: seq<Event>, i: nat, p: Player, e: Event)
    requires log != [] && log[0].data.NewGame? && PlayersOk(players, log) && i < |players| && players[i].plays
    requires p.number == players[i].number && p.name == players[i].name
    requires forall n :: IsElimination(e, n) ==> n == p.number && !p.plays
    ensures PlayersOk(players[i := p], log + [e])
  {
    var r := log + [e];
    var after := players[i := p];
    forall j | 0 <= j < |after| && after[j].plays
      ensures InGame(after[j], r)
    {
      assert players[j].plays && InGame(players[j], log);
    }
  }

  lemma {:induction false} MayHappen(players: seq<Player>, log: seq<Event>, maxx: uint32, maxy: uint32, i: nat)
    requires GameLog(log, maxx, maxy, false) && PlayersOk(players, log) && i < |players| && players[i].plays
    ensures var p := players[i];
      && log != [] && log[0].data.NewGame? && MayFollow(log, maxx, maxy, PlayerEliminated(p.name, p.number))
      && (0 <= p.field.0 <= maxx && 0 <= p.field.1 <= maxy && p.field !in Fields(log) ==>
        MayFollow(log, maxx, maxy, Pixel(p.name, p.number, p.field.0, p.field.1)))
  {
    assert InGame(players[i], log);
  }

  /** The first `k` players play if they have a name, and their numbers lead to their names. */
  predicate Numbered(players: seq<Player>, k: nat, names: seq<Name>) {
    && k <= |players|
    && (forall j :: 0 <= j < k && players[j].plays ==> players[j].number < |names| && names[players[j].number] == players[j].name)
    && (forall j, l :: 0 <= j < l < k && players[j].plays && players[l].plays ==> players[j].number != players[l].number)
  }

  lemma NumberedNext(before: seq<Player>, after: seq<Player>, i: nat, names: seq<Name>, more: seq<Name>)
    requires Numbered(before, i, names) && i < |before| && |after| == |before| && forall j :: 0 <= j < i ==> after[j] == before[j]
    requires names <= more
    requires after[i].plays ==> after[i].number == |names| && more == names + [after[i].name]
    ensures Numbered(after, i + 1, more)
  {
  }

  // ----- what a round does -----

  predicate Outside(f: Field, maxx: uint32, maxy: uint32) {
    f.0 < 0 || f.1 < 0 || f.0 > maxx || f.1 > maxy
  }

  /** What a game looks like: the events are numbered by their places. */
  datatype Situation = Situation(players: seq<Player>, taken: set<Field>, log: seq<EventData>) {
    /** The snake of player `i` stands on its field: it takes the field, or it is eliminated. */
    function Land(i: nat, maxx: uint32, maxy: uint32): (r: Situation)
      requires i < |players|
      ensures |r.players| == |players|
    {
      var p := players[i];
      if p.field in taken || Outside(p.field, maxx, maxy) then
        Situation(players[i := p.(plays := false)], taken, log + [PlayerEliminated(p.name, p.number)])
      else
        Situation(players[i := p.(plays := true)], taken + {p.field}, log + [Pixel(p.name, p.number, p.field.0, p.field.1)])
    }

    /** Player `i` goes to a field if it plays; in a round it must come to another field, at the start it need not. */
    function Go(i: nat, f: Field, start: bool, maxx: uint32, maxy: uint32): (r: Situation)
      requires i < |players|
      ensures |r.players| == |players|
    {
      var p := players[i];
      if p.plays && (start || f != p.field) then this.(players := players[i := p.(field := f)]).Land(i, maxx, maxy) else this
    }

    /** The first `k` players go, one after the other. */
    function GoAll(fields: seq<Field>, k: nat, start: bool, maxx: uint32, maxy: uint32): (r: Situation)
      requires k <= |players| == |fields|
      ensures |r.players| == |players|
    {
      if k == 0 then this else GoAll(fields, k - 1, start, maxx, maxy).Go(k - 1, fields[k - 1], start, maxx, maxy)
    }

    /** The game is over: those who are gone leave, and the others wait. */
    function End(): Situation {
      Situation(Remaining(players), taken, log + [GameOver])
    }

    /** The game is over when at most one snake is left. */
    function TryEnd(): Situation {
      if Playing(players) <= 1 then End() else this
    }
  }

  // ----- the events of a round -----

  /** What happens to a snake that comes to a field, after the events so far. */
  ghost predicate Verdict(p: Player, f: Field, log: seq<Event>, maxx: uint32, maxy: uint32, d: EventData) {
    d == if 0 <= f.0 <= maxx && 0 <= f.1 <= maxy && f !in Fields(log)
         then Pixel(p.name, p.number, f.0, f.1) else PlayerEliminated(p.name, p.number)
  }

  /** Player `i` has come to field `f`: there is one more event, and it is still in the game if that is a pixel. */
  ghost predicate Landed(before: seq<Player>, i: nat, f: Field, log: seq<Event>, log': seq<Event>, after: seq<Player>, maxx: uint32, maxy: uint32)
    requires i < |before|
  {
    && |log'| == |log| + 1 && log <= log' && Verdict(before[i], f, log, maxx, maxy, log'[|log|].data)
    && after == before[i := before[i].(field := f, plays := log'[|log|].data.Pixel?)]
  }

  /** `movers` are those of the first `k` players whose snakes come to a field: at the start, or to another one. */
  ghost predicate MovesMade(before: seq<Player>, moves: seq<Field>, k: nat, movers: seq<nat>, start: bool) {
    && k <= |before| == |moves| && (forall i, j :: 0 <= i < j < |movers| ==> movers[i] < movers[j])
    && forall i :: i in movers <==> 0 <= i < k && before[i].plays && (start || moves[i] != before[i].field)
  }

  /** From place `n` on, the log has one event for each mover. */
  ghost predicate Judged(before: seq<Player>, moves: seq<Field>, movers: seq<nat>, log: seq<Event>, n: nat, maxx: uint32, maxy: uint32) {
    && |log| == n + |movers|
    && forall j :: 0 <= j < |movers| ==>
         (movers[j] < |before| == |moves|
          && Verdict(before[movers[j]], moves[movers[j]], log[..n + j], maxx, maxy, log[n + j].data))
  }

  /** The first `k` players have moved. */
  ghost predicate Moved(before: seq<Player>, moves: seq<Field>, k: nat, movers: seq<nat>, log: seq<Event>, n: nat, after: seq<Player>) {
    && |after| == |before| == |moves| && |log| == n + |movers|
    && (forall i :: 0 <= i < |before| && i !in movers ==> after[i] == before[i])
    && (forall j :: 0 <= j < |movers| ==>
          movers[j] < k <= |before| && after[movers[j]] == before[movers[j]].(field := moves[movers[j]], plays := log[n + j].data.Pixel?))
  }

  lemma NextMove(before: seq<Player>, moves: seq<Field>, k: nat, movers: seq<nat>, log: seq<Event>, log': seq<Event>, n: nat,
                 maxx: uint32, maxy: uint32, players: seq<Player>, players': seq<Player>, moving: bool, start: bool)
    requires MovesMade(before, moves, k, movers, start) && Judged(before, moves, movers, log, n, maxx, maxy)
    requires Moved(before, moves, k, movers, log, n, players) && k < |before|
    requires moving <==> players[k].plays && (start || moves[k] != players[k].field)
    requires if moving then Landed(players, k, moves[k], log, log', players', maxx, maxy) else log' == log && players' == players
    ensures log <= log' && |log'| == |log| + if moving then 1 else 0
    ensures var movers' := if moving then movers + [k] else movers;
      && MovesMade(before, moves, k + 1, movers', start) && Judged(before, moves, movers', log', n, maxx, maxy)
      && Moved(before, moves, k + 1, movers', log', n, players')
  {
    hide MovesMade, Judged, Verdict;
    NotYet(before, moves, k, movers, start);
    assert players[k] == before[k];
    NextMover(before, moves, k, movers, start, moving);
    if moving {
      VerdictOf(before[k], players[k], moves[k], log, maxx, maxy, log'[|log|].data);
      NextJudged(before, moves, k, movers, log, log', n, maxx, maxy);
      NextMoved(before, moves, k, movers, log, log', n, players, players');
    }
  }

  lemma NoMoves(before: seq<Player>, moves: seq<Field>, log: seq<Event>, n: nat, maxx: uint32, maxy: uint32, start: bool)
    requires |before| == |moves| && n == |log|
    ensures MovesMade(before, moves, 0, [], start) && Judged(before, moves, [], log, n, maxx, maxy)
    ensures Moved(before, moves, 0, [], log, n, before)
  {
  }

  /** All players have moved: what that says in the terms of the events. */
  lemma RoundFacts(before: seq<Player>, moves: seq<Field>, movers: seq<nat>, log: seq<Event>, log': seq<Event>, n: nat,
                   maxx: uint32, maxy: uint32, players: seq<Player>, start: bool)
    requires MovesMade(before, moves, |moves|, movers, start) && Judged(before, moves, movers, log, n, maxx, maxy)
    requires Moved(before, moves, |moves|, movers, log, n, players) && log <= log'
    ensures |before| == |moves| == |players| && (forall i, j :: 0 <= i < j < |movers| ==> movers[i] < movers[j])
    ensures forall i :: i in movers <==> 0 <= i < |moves| && before[i].plays && (start || moves[i] != before[i].field)
    ensures |log'| >= n + |movers| && forall j :: 0 <= j < |movers| ==> movers[j] < |moves|
    ensures forall j :: 0 <= j < |movers| ==>
      (var (p, f) := (before[movers[j]], moves[movers[j]]);
       log'[n + j].data == if 0 <= f.0 <= maxx && 0 <= f.1 <= maxy && f !in Fields(log'[..n + j])
                           then Pixel(p.name, p.number, f.0, f.1) else PlayerEliminated(p.name, p.number))
    ensures forall i :: 0 <= i < |moves| && i !in movers ==> players[i] == before[i]
    ensures forall j :: 0 <= j < |movers| ==>
      players[movers[j]] == before[movers[j]].(field := moves[movers[j]], plays := log'[n + j].data.Pixel?)
  {
    hide Fields;
    SameVerdicts(before, moves, movers, log, log', n, maxx, maxy);
  }

  lemma NotYet(before: seq<Player>, moves: seq<Field>, k: nat, movers: seq<nat>, start: bool)
    requires MovesMade(before, moves, k, movers, start)
    ensures k !in movers
  {
  }

  lemma NextMover(before: seq<Player>, moves: seq<Field>, k: nat, movers: seq<nat>, start: bool, moving: bool)
    requires MovesMade(before, moves, k, movers, start) && k < |before|
    requires moving <==> before[k].plays && (start || moves[k] != before[k].field)
    ensures MovesMade(before, moves, k + 1, if moving then movers + [k] else movers, start)
  {
    var more := if moving then movers + [k] else movers;
    forall i ensures i in more <==> 0 <= i < k + 1 && before[i].plays && (start || moves[i] != before[i].field) {
      assert i in more <==> i in movers || (moving && i == k);
    }
    forall i, j | 0 <= i < j < |more| ensures more[i] < more[j] {
      if j < |movers| {
      } else {
        assert movers[i] in movers;
      }
    }
  }

  lemma NextJudged(before: seq<Player>, moves: seq<Field>, k: nat, movers: seq<nat>, log: seq<Event>, log': seq<Event>, n: nat, maxx: uint32, maxy: uint32)
    requires Judged(before, moves, movers, log, n, maxx, maxy) && k < |before| == |moves|
    requires log <= log' && |log'| == |log| + 1 && Verdict(before[k], moves[k], log, maxx, maxy, log'[|log|].data)
    ensures Judged(before, moves, movers + [k], log', n, maxx, maxy)
  {
    hide Verdict;
    SameVerdicts(before, moves, movers, log, log', n, maxx, maxy);
    assert log'[..n + |movers|] == log;
  }

  lemma NextMoved(before: seq<Player>, moves: seq<Field>, k: nat, movers: seq<nat>, log: seq<Event>, log': seq<Event>, n: nat,
                  players: seq<Player>, players': seq<Player>)
    requires Moved(before, moves, k, movers, log, n, players) && k < |before| && k !in movers
    requires log <= log' && |log'| == |log| + 1 && players' == players[k := before[k].(field := moves[k], plays := log'[|log|].data.Pixel?)]
    ensures Moved(before, moves, k + 1, movers + [k], log', n, players')
  {
    assert forall i :: i in movers + [k] <==> i in movers || i == k;
  }

  lemma VerdictOf(p: Player, q: Player, f: Field, log: seq<Event>, maxx: uint32, maxy: uint32, d: EventData)
    requires Verdict(q, f, log, maxx, maxy, d) && p.name == q.name && p.number == q.number
    ensures Verdict(p, f, log, maxx, maxy, d)
  {
  }

  lemma SameVerdicts(before: seq<Player>, moves: seq<Field>, movers: seq<nat>, log: seq<Event>, log': seq<Event>, n: nat, maxx: uint32, maxy: uint32)
    requires Judged(before, moves, movers, log, n, maxx, maxy) && log <= log'
    ensures forall j :: 0 <= j < |movers| ==>
      (movers[j] < |before| == |moves|
       && Verdict(before[movers[j]], moves[movers[j]], log'[..n + j], maxx, maxy, log'[n + j].data))
  {
    hide Verdict;
    forall j | 0 <= j < |movers|
      ensures movers[j] < |before| == |moves|
      ensures Verdict(before[movers[j]], moves[movers[j]], log'[..n + j], maxx, maxy, log'[n + j].data)
    {
      assert log'[..n + j] == log[..n + j];
    }
  }

  /** Counting the snakes in the game. */
  lemma {:induction false} TwoPlay(players: seq<Player>)
    ensures Playing(players) == 0 <==> forall i :: 0 <= i < |players| ==> !players[i].plays
    ensures Playing(players) > 1 <==> exists i, j :: 0 <= i < j < |players| && players[i].plays && players[j].plays
  {
    if players != [] {
      var front := players[..|players| - 1];
      TwoPlay(front);
      assert forall i :: 0 <= i < |front| ==> front[i] == players[i];
    }
  }

  function FirstFields(f: nat -> Field, n: nat): (r: seq<Field>)
    ensures |r| == n && forall i :: 0 <= i < n ==> r[i] == f(i)
  {
    seq(n, i requires 0 <= i < n => f(i))
  }

  lemma GoNext(s: Situation, fields: seq<Field>, k: nat, start: bool, maxx: uint32, maxy: uint32)
    requires k < |s.players| == |fields|
    ensures s.GoAll(fields, k + 1, start, maxx, maxy) == s.GoAll(fields, k, start, maxx, maxy).Go(k, fields[k], start, maxx, maxy)
    ensures var r := s.GoAll(fields, k, start, maxx, maxy);
      !r.players[k].plays ==> r.Go(k, fields[k], start, maxx, maxy) == r
  {
  }

  function Remaining(players: seq<Player>): seq<Player> {
    if players == [] then []
    else
      var p := players[|players| - 1];
      Remaining(players[..|players| - 1]) + if p.disconnected then [] else [p.(plays := false, ready := false)]
  }

  method TakeStaying(players: seq<Player>) returns (rest: seq<Player>)
    requires forall i :: 0 <= i < |players| ==> !InvalidPlayerName(players[i].name)
    ensures rest == Remaining(players) && forall j :: 0 <= j < |rest| ==> !InvalidPlayerName(rest[j].name) && !rest[j].plays
  {
    hide InvalidPlayerName;
    rest := [];
    for i := 0 to |players|
      invariant rest == Remaining(players[..i])
      invariant forall j :: 0 <= j < |rest| ==> !InvalidPlayerName(rest[j].name) && !rest[j].plays
    {
      assert players[..i + 1][..i] == players[..i];
      if !players[i].disconnected {
        rest := rest + [players[i].(plays := false, ready := false)];
      }
    }
    TakeAll(players);
  }

  /** The places of those who stay. */
  lemma {:induction false} Staying(players: seq<Player>) returns (stay: seq<nat>)
    ensures forall i, j :: 0 <= i < j < |stay| ==> stay[i] < stay[j]
    ensures forall i :: i in stay <==> 0 <= i < |players| && !players[i].disconnected
    ensures |Remaining(players)| == |stay| && forall j :: 0 <= j < |stay| ==>
      stay[j] < |players| && Remaining(players)[j] == players[stay[j]].(plays := false, ready := false)
  {
    stay := [];
    if players != [] {
      var last := |players| - 1;
      var before := Staying(players[..last]);
      stay := before + if players[last].disconnected then [] else [last];
      assert forall j :: 0 <= j < |before| ==> before[j] in before;
      assert forall i :: i in stay <==> i in before || (i == last && !players[last].disconnected);
    }
  }

  function DataOf(events: seq<Event>): (r: seq<EventData>)
    ensures |r| == |events| && forall i :: 0 <= i < |events| ==> r[i] == events[i].data
  {
    seq(|events|, i requires 0 <= i < |events| => events[i].data)
  }

  /** The players after clients were sent away by chance until their names fit. */
  function Trimmed(players: seq<Player>, choice: nat -> nat): seq<Player> {
    if AbsoluteSize(players) <= MAX_MSG_SIZE || players == [] then players
    else
      var i := choice(|players|) % |players|;
      Trimmed(players[..i] + players[i + 1..], choice)
  }

  /** Everyone with a name plays, under the number of its name. */
  ghost predicate Seated(before: seq<Player>, after: seq<Player>) {
    |after| == |before| && SeatedUpto(before, after, |before|)
  }

  ghost predicate SeatedUpto(before: seq<Player>, after: seq<Player>, k: nat)
    requires |after| == |before|
  {
    forall i :: 0 <= i < k && i < |before| ==>
        if Named(before[i]) then
          after[i] == before[i].(plays := true, number := after[i].number) && after[i].number == |PlayerNames(before[..i])|
        else after[i] == before[i]
  }

  class GameState {
    const maxx: uint32
    const maxy: uint32
    var started: bool
    var players: seq<Player>
    var takenFields: set<Field>
    var events: seq<Event>
    var lastEventNo: nat

    ghost predicate Valid()
      reads this
    {
      && (forall i :: 0 <= i < |players| ==> !InvalidPlayerName(players[i].name))
      && (if started then
            GameLog(events, maxx, maxy, false) && lastEventNo == |events| && takenFields == Fields(events) && PlayersOk(players, events)
          else
            (events == [] || GameLog(events, maxx, maxy, true)) && forall i :: 0 <= i < |players| ==> !players[i].plays)
    }

    ghost function Now(): Situation
      reads this
    {
      Situation(players, takenFields, DataOf(events))
    }

    constructor (maxx: uint32, maxy: uint32)
      ensures Valid() && !started && events == [] && players == [] && this.maxx == maxx && this.maxy == maxy
    {
      this.maxx, this.maxy := maxx, maxy;
      started, players, takenFields, events, lastEventNo := false, [], {}, [], 0;
    }

    /** A new player waits for the next game; its place in the table depends on its address. */
    method AddPlayer(place: nat, name: Name, number: byte)
      requires Valid() && place <= |players| && !InvalidPlayerName(name)
      modifies `players
      ensures Valid() && players == old(players[..place]) + [Player(name, number, (0, 0), false, false, false)] + old(players[place..])
    {
      players := players[..place] + [Player(name, number, (0, 0), false, false, false)] + players[place..];
    }

    /** A client that is gone: its snake goes on to the end of the game. */
    method RemoveClient(i: nat)
      requires Valid() && i < |players|
      modifies `players
      ensures Valid()
      ensures players == if started then old(players)[i := old(players[i]).(disconnected := true)]
                         else old(players[..i]) + old(players[i + 1..])
    {
      if started {
        players := players[i := players[i].(disconnected := true)];
      } else {
        players := players[..i] + players[i + 1..];
      }
    }

    method SetTurnDirection(i: nat, turn: int)
      requires Valid() && i < |players|
      modifies `players
      ensures Valid()
      ensures players == if turn != 0 && Named(old(players[i])) then old(players)[i := old(players[i]).(ready := true)] else old(players)
    {
      if turn != 0 && !players[i].ready && Named(players[i]) {
        players := players[i := players[i].(ready := true)];
      }
    }

    method EventGenerated(d: EventData)
      requires lastEventNo < 0x1_0000_0000
      modifies `events, `lastEventNo
      ensures events == old(events) + [Event(old(lastEventNo), d)] && lastEventNo == old(lastEventNo) + 1
    {
      events := events + [Event(lastEventNo, d)];
      lastEventNo := lastEventNo + 1;
    }

    predicate OutOfRange(f: Field) {
      Outside(f, maxx, maxy)
    }

    /** A snake that has come to a new field: it takes the field, or it is eliminated. */
    method CheckPlayerPosition(i: nat)
      requires Valid() && started && i < |players| && players[i].plays && |events| < 0x1_0000_0000
      modifies `players, `takenFields, `events, `lastEventNo
      ensures Valid() && started && Now() == old(Now()).Land(i, maxx, maxy)
      ensures var p := old(players[i]);
        && (if 0 <= p.field.0 <= maxx && 0 <= p.field.1 <= maxy && p.field !in old(takenFields) then
              events == old(events) + [Event(|old(events)|, Pixel(p.name, p.number, p.field.0, p.field.1))]
              && takenFields == old(takenFields) + {p.field}
            else
              events == old(events) + [Event(|old(events)|, PlayerEliminated(p.name, p.number))]
              && takenFields == old(takenFields))
        && players == old(players)[i := p.(plays := events[|old(events)|].data.Pixel?)]
    {
      hide GameLog, MayFollow, PlayersOk, Fields, InvalidPlayerName;
      var p := players[i];
      var out := p.field in takenFields || OutOfRange(p.field);
      var d := if out then PlayerEliminated(p.name, p.number) else Pixel(p.name, p.number, p.field.0, p.field.1);
      MayHappen(players, events, maxx, maxy, i);
      PlayersStay(players, events, i, p.(plays := !out), Event(lastEventNo, d));
      Extended(events, maxx, maxy, d);
      if out {
        players := players[i := p.(plays := false)];
      } else {
        takenFields := takenFields + {p.field};
      }
      assert players == old(players)[i := p.(plays := !out)];
      EventGenerated(d);
      assert DataOf(events) == DataOf(old(events)) + [d];
    }

    /**
     * One round: every snake in the game moves, here to the given fields; the last one left ends the game.
     * `movers` are the players whose snakes come to another field, and `moved` the players after the moves.
     */
    method Tick(moves: seq<Field>) returns (ghost movers: seq<nat>, ghost moved: seq<Player>)
      requires Valid() && started && |moves| == |players| && |events| + |players| < 0x1_0000_0000
      modifies `players, `takenFields, `events, `lastEventNo, `started
      ensures Valid() && old(events) <= events && |events| <= |old(events)| + |old(players)| + 1
      ensures Now() == old(Now()).GoAll(moves, |moves|, false, maxx, maxy).TryEnd()
      ensures forall i, j :: 0 <= i < j < |movers| ==> movers[i] < movers[j]
      ensures forall i :: i in movers <==> 0 <= i < |moves| && old(players)[i].plays && moves[i] != old(players)[i].field
      ensures forall j :: 0 <= j < |movers| ==> movers[j] < |moves|
      ensures |events| == |old(events)| + |movers| + if started then 0 else 1
      ensures forall j :: 0 <= j < |movers| ==>
        (var (p, f, n) := (old(players)[movers[j]], moves[movers[j]], |old(events)| + j);
         events[n].data == if 0 <= f.0 <= maxx && 0 <= f.1 <= maxy && f !in Fields(events[..n])
                           then Pixel(p.name, p.number, f.0, f.1) else PlayerEliminated(p.name, p.number))
      ensures |moved| == |moves| && forall i :: 0 <= i < |moves| && i !in movers ==> moved[i] == old(players)[i]
      ensures forall j :: 0 <= j < |movers| ==>
        moved[movers[j]] == old(players)[movers[j]].(field := moves[movers[j]], plays := events[|old(events)| + j].data.Pixel?)
      ensures started <==> exists i, j :: 0 <= i < j < |moved| && moved[i].plays && moved[j].plays
      ensures if started then players == moved else events[|events| - 1].data == GameOver
    {
      hide *;
      ghost var before := players;
      movers := MoveSnakes(moves);
      moved := players;
      ghost var (log, n) := (events, |events| - |movers|);
      TryEnd();
      RoundFacts(before, moves, movers, log, events, n, maxx, maxy, moved, false);
    }

    /** The snakes of all that play move. */
    method MoveSnakes(moves: seq<Field>) returns (ghost movers: seq<nat>)
      requires Valid() && started && |moves| == |players| && |events| + |players| < 0x1_0000_0000
      modifies `players, `takenFields, `events, `lastEventNo
      ensures Valid() && started && old(events) <= events && |events| == |old(events)| + |movers| <= |old(events)| + |moves|
      ensures Now() == old(Now()).GoAll(moves, |moves|, false, maxx, maxy)
      ensures MovesMade(old(players), moves, |moves|, movers, false)
      ensures Judged(old(players), moves, movers, events, |old(events)|, maxx, maxy)
      ensures Moved(old(players), moves, |moves|, movers, events, |old(events)|, players)
    {
      hide Situation.Go, Fields, GameLog, PlayersOk, InvalidPlayerName, MovesMade, Judged, Moved, Landed, Verdict;
      ghost var (before, n) := (players, |events|);
      movers := [];
      NoMoves(before, moves, events, n, maxx, maxy, false);
      for i := 0 to |players|
        invariant Valid() && started && |players| == |moves|
        invariant old(events) <= events && |events| == n + |movers| <= n + i
        invariant Now() == old(Now()).GoAll(moves, i, false, maxx, maxy)
        invariant MovesMade(before, moves, i, movers, false) && Judged(before, moves, movers, events, n, maxx, maxy)
        invariant Moved(before, moves, i, movers, events, n, players)
      {
        ghost var (log, was) := (events, players);
        var moving := MoveOn(i, moves[i]);
        NextMove(before, moves, i, movers, log, events, n, maxx, maxy, was, players, moving, false);
        if moving { movers := movers + [i]; }
      }
    }

    /** A snake moves on unless it stays on its field. */
    method MoveOn(i: nat, f: Field) returns (moving: bool)
      requires Valid() && started && i < |players| && |events| < 0x1_0000_0000
      modifies `players, `takenFields, `events, `lastEventNo
      ensures Valid() && started && Now() == old(Now()).Go(i, f, false, maxx, maxy)
      ensures moving <==> old(players[i]).plays && f != old(players[i]).field
      ensures if moving then Landed(old(players), i, f, old(events), events, players, maxx, maxy)
              else events == old(events) && players == old(players)
    {
      hide Situation.Land;
      moving := players[i].plays && f != players[i].field;
      if moving {
        Move(i, f);
      }
    }

    /** A snake that plays comes to a field. */
    method Move(i: nat, f: Field)
      requires Valid() && started && i < |players| && players[i].plays && |events| < 0x1_0000_0000
      modifies `players, `takenFields, `events, `lastEventNo
      ensures Valid() && started && Now() == old(Now()).Go(i, f, true, maxx, maxy)
      ensures Landed(old(players), i, f, old(events), events, players, maxx, maxy)
    {
      assert takenFields == Fields(events);
      players := players[i := players[i].(field := f)];
      CheckPlayerPosition(i);
    }

    method TryEnd()
      requires Valid() && started && |events| < 0x1_0000_0000
      modifies `players, `events, `lastEventNo, `started
      ensures Valid() && old(events) <= events && |events| <= |old(events)| + 1
      ensures Now() == old(Now()).TryEnd() && (started <==> Playing(old(players)) > 1)
      ensures started <==> exists i, j :: 0 <= i < j < |old(players)| && old(players)[i].plays && old(players)[j].plays
      ensures if started then players == old(players) && events == old(events)
              else events == old(events) + [Event(|old(events)|, GameOver)]
    {
      TwoPlay(players);
      if Playing(players) <= 1 {
        ghost var stay := GameOverEvent();
      }
    }

    /** Those who are gone leave, the others, at the places `stay`, wait for the next game, and the log ends. */
    method GameOverEvent() returns (ghost stay: seq<nat>)
      requires Valid() && started && |events| < 0x1_0000_0000
      modifies `players, `events, `lastEventNo, `started
      ensures Valid() && !started && Now() == old(Now()).End()
      ensures events == old(events) + [Event(|old(events)|, GameOver)]
      ensures forall i, j :: 0 <= i < j < |stay| ==> stay[i] < stay[j]
      ensures forall i :: i in stay <==> 0 <= i < |old(players)| && !old(players)[i].disconnected
      ensures |players| == |stay| && forall j :: 0 <= j < |stay| ==>
        stay[j] < |old(players)| && players[j] == old(players)[stay[j]].(plays := false, ready := false)
    {
      hide Remaining, InvalidPlayerName, GameLog;
      stay := Staying(players);
      players := TakeStaying(players);
      started := false;
      Extended(events, maxx, maxy, GameOver);
      EventGenerated(GameOver);
      assert DataOf(events) == DataOf(old(events)) + [GameOver];
    }

    /** Sends clients away until the first event fits into a datagram; `choice` is the source of chance. */
    method EnsureGameEventSize(choice: nat -> nat)
      requires Valid() && !started
      modifies `players
      ensures Valid() && AbsoluteSize(players) <= MAX_MSG_SIZE && players == Trimmed(old(players), choice)
      ensures |players| <= |old(players)|
    {
      while AbsoluteSize(players) > MAX_MSG_SIZE
        invariant Valid() && !started && |players| <= |old(players)|
        invariant Trimmed(players, choice) == Trimmed(old(players), choice)
        decreases |players|
      {
        RemoveClient(choice(|players|) % |players|);
      }
    }

    /**
     * Starts a game with all players that have a name; the snakes start at the given fields. `seated` are the
     * players with their numbers, and `movers` those that play, each of which has one event.
     */
    method StartGame(starts: seq<Field>) returns (ghost seated: seq<Player>, ghost movers: seq<nat>)
      requires Valid() && !started && AbsoluteSize(players) <= MAX_MSG_SIZE && |starts| == |players| < 0x1000_0000
      modifies `players, `takenFields, `events, `lastEventNo, `started
      ensures Valid() && started && |seated| == |players| && Seated(old(players), seated)
      ensures var first := NewGame(maxx, maxy, PlayerNames(old(players)));
        Now() == Situation(seated, {}, [first]).GoAll(starts, |starts|, true, maxx, maxy) && events != [] && events[0].data == first
      ensures forall i, j :: 0 <= i < j < |movers| ==> movers[i] < movers[j]
      ensures forall i :: i in movers <==> 0 <= i < |starts| && seated[i].plays
      ensures forall j :: 0 <= j < |movers| ==> movers[j] < |starts|
      ensures |events| == 1 + |movers| <= 1 + |players|
      ensures forall j :: 0 <= j < |movers| ==>
        (var (p, f) := (seated[movers[j]], starts[movers[j]]);
         events[1 + j].data == if 0 <= f.0 <= maxx && 0 <= f.1 <= maxy && f !in Fields(events[..1 + j])
                               then Pixel(p.name, p.number, f.0, f.1) else PlayerEliminated(p.name, p.number))
      ensures forall j :: 0 <= j < |movers| ==>
        players[movers[j]] == seated[movers[j]].(field := starts[movers[j]], plays := events[1 + j].data.Pixel?)
    {
      ghost var names := PlayerNames(players);
      NumberPlayers();
      seated := players;
      ghost var log := events;
      assert DataOf(events) == [NewGame(maxx, maxy, names)];
      hide GameLog, PlayersOk, Seated, Fields, InvalidPlayerName, PlayerNames, Situation.GoAll, MovesMade, Judged, Moved;
      movers := PlaceSnakes(starts);
      RoundFacts(seated, starts, movers, events, events, 1, maxx, maxy, players, true);
    }

    /** The snakes of all that play come to their first fields. */
    method PlaceSnakes(starts: seq<Field>) returns (ghost movers: seq<nat>)
      requires Valid() && started && |starts| == |players| && |events| + |players| < 0x1_0000_0000
      modifies `players, `takenFields, `events, `lastEventNo
      ensures Valid() && started && old(events) <= events && |events| == |old(events)| + |movers| <= |old(events)| + |starts|
      ensures Now() == old(Now()).GoAll(starts, |starts|, true, maxx, maxy)
      ensures MovesMade(old(players), starts, |starts|, movers, true)
      ensures Judged(old(players), starts, movers, events, |old(events)|, maxx, maxy)
      ensures Moved(old(players), starts, |starts|, movers, events, |old(events)|, players)
    {
      hide GameLog, PlayersOk, Fields, InvalidPlayerName, Situation.Go, MovesMade, Judged, Moved, Landed, Verdict;
      ghost var (before, n, first) := (players, |events|, Now());
      movers := [];
      NoMoves(before, starts, events, n, maxx, maxy, true);
      for i := 0 to |players|
        invariant Valid() && started && |players| == |starts| == |before|
        invariant old(events) <= events && |events| == n + |movers| <= n + i
        invariant Now() == first.GoAll(starts, i, true, maxx, maxy)
        invariant MovesMade(before, starts, i, movers, true) && Judged(before, starts, movers, events, n, maxx, maxy)
        invariant Moved(before, starts, i, movers, events, n, players)
      {
        GoNext(first, starts, i, true, maxx, maxy);
        ghost var (log, was, moving) := (events, players, players[i].plays);
        if players[i].plays {
          Move(i, starts[i]);
        }
        NextMove(before, starts, i, movers, log, events, n, maxx, maxy, was, players, moving, true);
        if moving { movers := movers + [i]; }
      }
    }

    /** Numbers the players that have a name, and lets them play. */
    method AssignNumbers()
      requires |PlayerNames(players)| < 256 && forall i :: 0 <= i < |players| ==> !players[i].plays && !InvalidPlayerName(players[i].name)
      modifies `players
      ensures |players| == |old(players)| && forall i :: 0 <= i < |players| ==> !InvalidPlayerName(players[i].name)
      ensures Numbered(players, |players|, PlayerNames(old(players))) && Seated(old(players), players)
    {
      hide InvalidPlayerName, PlayerNames;
      ghost var was := players;
      NoPlayers(was);
      var number, i := 0, 0;
      while i < |players|
        invariant 0 <= i <= |players| == |was| && players[i..] == was[i..] && number == |PlayerNames(was[..i])|
        invariant forall j :: 0 <= j < |players| ==> !InvalidPlayerName(players[j].name)
        invariant Numbered(players, i, PlayerNames(was[..i])) && SeatedUpto(was, players, i)
      {
        NamesNext(was, i);
        ghost var before := players;
        assert players[i] == players[i..][0] == was[i];
        if Named(players[i]) {
          players := players[i := players[i].(plays := true, number := number)];
          number := number + 1;
        }
        NumberedNext(before, players, i, PlayerNames(was[..i]), PlayerNames(was[..i + 1]));
        assert players[i + 1..] == before[i..][1..] && was[i + 1..] == was[i..][1..];
        i := i + 1;
      }
      TakeAll(was);
    }

    /** The beginning of a game: a new log, and numbers for the players in the order of their names. */
    method NumberPlayers()
      requires Valid() && !started && AbsoluteSize(players) <= MAX_MSG_SIZE
      modifies `players, `takenFields, `events, `lastEventNo, `started
      ensures Valid() && started && Seated(old(players), players) && takenFields == {}
      ensures events == [Event(0, NewGame(maxx, maxy, PlayerNames(old(players))))]
    {
      hide PlayerNames, NameBytes, GameLog, Fields, GoodName, InvalidPlayerName, Seated;
      var names := PlayerNames(players);
      FewNames(players);
      takenFields, events, lastEventNo := {}, [], 0;
      AssignNumbers();
      NamesAreGood(old(players));
      FirstEvent(maxx, maxy, names);
      EventGenerated(NewGame(maxx, maxy, names));
      started := true;
      assert events == [Event(0, NewGame(maxx, maxy, names))];
    }

    /** Starts a game when all players with names are ready and there are at least two. */
    method TryStart(choice: nat -> nat, starts: nat -> Field) returns (running: bool, ghost seated: seq<Player>)
      requires Valid() && |players| < 0x1000_0000
      modifies `players, `takenFields, `events, `lastEventNo, `started
      ensures Valid() && running == started
      ensures old(started) ==> started && events == old(events) && players == old(players)
      ensures !old(started) ==>
        (started <==> |PlayerNames(old(players))| > 1 && forall p :: p in old(players) && Named(p) ==> p.ready)
      ensures !old(started) ==>
        (started <==>
          && (exists i, j :: 0 <= i < j < |old(players)| && old(players)[i].name != [] && old(players)[j].name != [])
          && forall p :: p in old(players) && p.name != [] ==> p.ready)
      ensures !started ==> events == old(events) && players == old(players)
      ensures started && !old(started) ==>
        Seated(Trimmed(old(players), choice), seated) && Begins(starts, seated, PlayerNames(Trimmed(old(players), choice)))
    {
      seated := [];
      if started {
        running := true;
        return;
      }
      TwoNamed(players);
      var waiting := exists p :: p in players && Named(p) && !p.ready;
      if !waiting && |PlayerNames(players)| > 1 {
        EnsureGameEventSize(choice);
        var n := |players|;
        ghost var movers;
        seated, movers := StartGame(FirstFields(starts, n));
      }
      running := started;
    }

    /** The first events: the players with names, and the fields where their snakes start. */
    ghost predicate Begins(starts: nat -> Field, seated: seq<Player>, names: seq<Name>)
      reads this
    {
      Now() == Situation(seated, {}, [NewGame(maxx, maxy, names)]).GoAll(FirstFields(starts, |seated|), |seated|, true, maxx, maxy)
    }
  }

  lemma NoPlayers(players: seq<Player>)
    ensures PlayerNames(players[..0]) == []
  {
  }

  lemma {:induction false} NamesNext(players: seq<Player>, k: nat)
    requires k < |players|
    ensures PlayerNames(players[..k + 1]) == PlayerNames(players[..k]) + if Named(players[k]) then [players[k].name] else []
    ensures PlayerNames(players[..k + 1]) <= PlayerNames(players)
    decreases |players| - k
  {
    assert players[..k + 1][..k] == players[..k];
    if k + 1 < |players| {
      NamesNext(players, k + 1);
    } else {
      TakeAll(players);
    }
  }

  /** The players with names, at the places `at`, and their names. */
  lemma {:induction false} NamedPlayers(players: seq<Player>) returns (at: seq<nat>)
    ensures forall i, j :: 0 <= i < j < |at| ==> at[i] < at[j]
    ensures forall i :: i in at <==> 0 <= i < |players| && players[i].name != []
    ensures |PlayerNames(players)| == |at| && forall j :: 0 <= j < |at| ==> at[j] < |players| && PlayerNames(players)[j] == players[at[j]].name
  {
    at := [];
    if players != [] {
      var last := |players| - 1;
      var before := NamedPlayers(players[..last]);
      at := before + if players[last].name != [] then [last] else [];
      assert forall j :: 0 <= j < |before| ==> before[j] in before;
      assert forall i :: i in at <==> i in before || (i == last && players[last].name != []);
    }
  }

  lemma TwoNamed(players: seq<Player>)
    ensures |PlayerNames(players)| > 1 <==> exists i, j :: 0 <= i < j < |players| && players[i].name != [] && players[j].name != []
  {
    var at := NamedPlayers(players);
    if |at| > 1 {
      assert at[0] in at && at[1] in at && at[0] < at[1];
    }
    if i, j :| 0 <= i < j < |players| && players[i].name != [] && players[j].name != [] {
      assert i in at && j in at;
      var k :| 0 <= k < |at| && at[k] == i;
      var l :| 0 <= l < |at| && at[l] == j;
      assert k != l;
    }
  }

  /** The size that is compared is that of the first datagram: the game number and the first event. */
  lemma AbsoluteSizeIs(crc: Checksum, players: seq<Player>, maxx: uint32, maxy: uint32)
    requires AbsoluteSize(players) <= 512
    ensures var d := NewGame(maxx, maxy, PlayerNames(players)); Sized(d) && AbsoluteSize(players) == 4 + |Encode(crc, Event(0, d))|
  {
  }

  /** A first event that fits has fewer players than a byte can count. */
  lemma {:induction false} FewNames(players: seq<Player>)
    requires AbsoluteSize(players) <= MAX_MSG_SIZE
    ensures |PlayerNames(players)| < 256
  {
    NamesAreLong(PlayerNames(players));
    NamesNotEmpty(players);
  }

  lemma {:induction false} NamesNotEmpty(players: seq<Player>)
    ensures forall i :: 0 <= i < |PlayerNames(players)| ==> PlayerNames(players)[i] != []
  {
    if players != [] {
      NamesNotEmpty(players[..|players| - 1]);
    }
  }

  lemma {:induction false} NamesAreLong(names: seq<Name>)
    ensures (forall i :: 0 <= i < |names| ==> names[i] != []) ==> |NameBytes(names)| >= 2 * |names|
  {
    if names != [] {
      NamesAreLong(names[1..]);
    }
  }

  lemma {:induction false} NamesAreGood(players: seq<Player>)
    requires forall i :: 0 <= i < |players| ==> !InvalidPlayerName(players[i].name)
    ensures forall i :: 0 <= i < |PlayerNames(players)| ==> GoodName(PlayerNames(players)[i])
  {
    hide InvalidPlayerName;
    if players != [] {
      NamesAreGood(players[..|players| - 1]);
    }
  }

  lemma {:induction false} FirstEvent(maxx: uint32, maxy: uint32, names: seq<Name>)
    requires 25 + |NameBytes(names)| <= MAX_MSG_SIZE && forall i :: 0 <= i < |names| ==> GoodName(names[i])
    ensures var log := [Event(0, NewGame(maxx, maxy, names))]; GameLog(log, maxx, maxy, false) && Fields(log) == {}
  {
  }

  // ----- whole runs -----

  datatype ServerStep =
    | Join(place: nat, name: Name, number: byte)
    | Leave(index: nat)
    | Turn(index: nat, turn: int)
    | Round(moves: nat -> Field)

  /** What clients may do: take a valid name, and speak for themselves. */
  predicate Sensible(step: ServerStep) {
    step.Join? ==> !InvalidPlayerName(step.name)
  }

  ghost predicate IsLog(log: seq<Event>, maxx: uint32, maxy: uint32) {
    log == [] || exists over :: GameLog(log, maxx, maxy, over)
  }

  /** The log of the same game, longer, or the log of a new game. */
  predicate GoesOn(log: seq<Event>, next: seq<Event>) {
    log <= next || (next != [] && next[0].data.NewGame? && (log == [] || log[|log| - 1].data.GameOver?))
  }

  /** Every log is that of one game and goes on from the log before. */
  ghost predicate Record(logs: seq<seq<Event>>, maxx: uint32, maxy: uint32) {
    && (forall i :: 0 <= i < |logs| ==> IsLog(logs[i], maxx, maxy))
    && forall i :: 0 < i < |logs| ==> GoesOn(logs[i - 1], logs[i])
  }

  lemma FirstRecord(log: seq<Event>, maxx: uint32, maxy: uint32)
    requires IsLog(log, maxx, maxy)
    ensures Record([log], maxx, maxy)
  {
    hide IsLog, GoesOn;
  }

  lemma NextRecord(logs: seq<seq<Event>>, log: seq<Event>, maxx: uint32, maxy: uint32)
    requires logs != [] && Record(logs, maxx, maxy) && IsLog(log, maxx, maxy) && GoesOn(logs[|logs| - 1], log)
    ensures Record(logs + [log], maxx, maxy)
  {
    hide IsLog, GoesOn;
  }

  /**
   * Any run of the server: clients come, go and turn in any order, games start when they can, and rounds are
   * played while a game is on. The log is always that of one game, and it only grows until the game is over.
   * The run stops early only when event numbers are about to overflow 32 bits.
   */
  method Serve(game: GameState, steps: seq<ServerStep>, choice: nat -> nat, starts: nat -> Field)
    returns (done: nat, ghost logs: seq<seq<Event>>)
    requires game.Valid() && forall i :: 0 <= i < |steps| ==> Sensible(steps[i])
    modifies game
    ensures game.Valid() && done <= |steps| && |logs| == done + 1 && logs[0] == old(game.events) && logs[done] == game.events
    ensures Record(logs, game.maxx, game.maxy)
    ensures done < |steps| ==> |game.events| + |game.players| >= 0x1000_0000
  {
    hide *;
    ValidIsLog(game);
    logs, done := [game.events], 0;
    FirstRecord(game.events, game.maxx, game.maxy);
    while done < |steps|
      invariant game.Valid() && done <= |steps| && |logs| == done + 1 && logs[0] == old(game.events) && logs[done] == game.events
      invariant Record(logs, game.maxx, game.maxy)
    {
      if |game.events| + |game.players| >= 0x1000_0000 {
        return;
      }
      ServeStep(game, steps[done], choice, starts);
      ValidIsLog(game);
      NextRecord(logs, game.events, game.maxx, game.maxy);
      logs := logs + [game.events];
      done := done + 1;
    }
  }

  lemma ValidIsLog(game: GameState)
    requires game.Valid()
    ensures IsLog(game.events, game.maxx, game.maxy)
  {
  }

  method ServeStep(game: GameState, step: ServerStep, choice: nat -> nat, starts: nat -> Field)
    requires game.Valid() && Sensible(step) && |game.events| + |game.players| < 0x1000_0000
    modifies game
    ensures game.Valid() && GoesOn(old(game.events), game.events)
    ensures step.Join? && step.place <= |old(game.players)| ==>
      Player(step.name, step.number, (0, 0), false, false, false) in game.players && game.events == old(game.events)
    ensures step.Leave? ==> game.events == old(game.events)
    ensures step.Turn? && old(game.started) ==> game.events == old(game.events)
    ensures step.Round? && old(game.started) ==>
      (var n := |old(game.players)|;
      game.Now() == old(game.Now()).GoAll(FirstFields(step.moves, n), n, false, game.maxx, game.maxy).TryEnd())
  {
    match step {
      case Join(place, name, number) =>
        if place <= |game.players| { game.AddPlayer(place, name, number); }
      case Leave(index) =>
        if index < |game.players| { game.RemoveClient(index); }
      case Turn(index, turn) =>
        if index < |game.players| {
          game.SetTurnDirection(index, turn);
          var running, seated := game.TryStart(choice, starts);
        }
      case Round(moves) =>
        if game.started {
          var n := |game.players|;
          var movers, moved := game.Tick(FirstFields(moves, n));
        }
    }
  }
}

