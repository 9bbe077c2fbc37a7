/**
 * What each event does to the server's state, as a function from the state
 * before to the state after and the messages sent on the way: one function per
 * message handler, one for a disconnect, one for the bytes of a read, and one
 * per timer pass of the event loop.
 */
module Game {
  import opened Options
  import opened Protocol
  import opened Text
  import opened Scoring
  import opened Lobby

  /** Everything the handlers read and write, and the count of random draws made so far. */
  datatype State = State(
    clients: map<int, Client>, rooms: map<int, Room>, nextRoomId: int,
    answerTimeouts: map<int, int>, lastTimeUpdate: map<int, int>, nextRoundStartTimes: map<int, int>,
    draws: nat)

  /** The state after an event and the messages sent while handling it, in order. */
  datatype Step = Step(state: State, out: seq<Message>)

  /** Seconds to answer after a round starts. */
  const AnswerSeconds: int := 30
  /** Seconds between the end of a round and the start of the next. */
  const BreakSeconds: int := 5

  const Initial: State := State(map[], map[], 1, map[], map[], map[], 0)

  predicate Valid(s: State)
  {
    Consistent(s.clients, s.rooms, s.nextRoomId, s.nextRoundStartTimes)
  }

  /** No client entry disappears and no receive buffer changes. */
  predicate KeepsBuffers(a: map<int, Client>, b: map<int, Client>)
  {
    forall k :: k in a ==> k in b && b[k].incomingBuffer == a[k].incomingBuffer
  }

  /** `getRandomLetter`: the `n`-th value of the random source, as a letter `A`..`Z`. */
  function Letter(random: nat -> nat, n: nat): (c: char)
    ensures 'A' <= c <= 'Z'
  {
    ('A' as int + random(n) % 26) as char
  }

  /** The `GAME_STARTED` payload: `letter;round;rounds`. */
  function RoundText(letter: char, round: int, rounds: int): string
  {
    [letter] + ";" + IntToString(round) + ";" + IntToString(rounds)
  }

  /** A new connection on socket `fd` (a failed `accept` gives a negative one). */
  function OnAccept(s: State, fd: int): State
  {
    if fd >= 0 then s.(clients := s.clients[fd := NewClient]) else s
  }

  // ---------------------------------------------------------------------
  // The lobby

  function OnLogin(s: State, fd: int, nick: string): (r: Step)
    requires fd in s.clients
    ensures KeepsBuffers(s.clients, r.state.clients)
  {
    if NickInUse(s.clients, nick) then Step(s, [Message(fd, LoginFail, "Nick jest zajety!")])
    else Step(s.(clients := s.clients[fd := s.clients[fd].(nick := nick)]), [Message(fd, LoginOk, "Witaj w lobby!")])
  }

  function OnCreateRoom(s: State, fd: int, name: string): (r: Step)
    requires fd in s.clients
    ensures KeepsBuffers(s.clients, r.state.clients)
  {
    if s.clients[fd].nick == "" then Step(s, [])
    else if NameInUse(s.rooms, name) then Step(s, [Message(fd, CreateRoomFail, "Nazwa pokoju jest zajeta!")])
    else
      var id := s.nextRoomId;
      Step(s.(rooms := s.rooms[id := NewRoom(id, name, fd)], nextRoomId := id + 1,
              clients := s.clients[fd := s.clients[fd].(currentRoomId := id)]),
           [Message(fd, CreateRoomOk, name)])
  }

  function OnGetRoomList(s: State, fd: int): Step
  {
    Step(s, [Message(fd, RoomList, Lobby.RoomList(s.rooms))])
  }

  function OnJoinRoom(s: State, fd: int, name: string): (r: Step)
    requires fd in s.clients
    ensures KeepsBuffers(s.clients, r.state.clients)
  {
    match LeastOpen(s.rooms, name)
    case None => Step(s, [Message(fd, JoinRoomFail, "Brak pokoju o takiej nazwie")])
    case Some(id) => JoinAs(s, fd, id)
  }

  /**
   * Socket `fd` joins room `id`: it is appended to the player list, the reply
   * carries the room name and the players' nicks, and every other entry of
   * the player list is told the newcomer's nick.
   */
  function JoinAs(s: State, fd: int, id: int): (r: Step)
    requires fd in s.clients && id in s.rooms
    ensures KeepsBuffers(s.clients, r.state.clients)
  {
    Welcome(Seat(s, fd, id), fd, id)
  }

  /** `fd` appended to the players of room `id`, which becomes its current room. */
  function Seat(s: State, fd: int, id: int): State
    requires fd in s.clients && id in s.rooms
  {
    s.(clients := s.clients[fd := s.clients[fd].(currentRoomId := id)],
       rooms := s.rooms[id := s.rooms[id].(players := s.rooms[id].players + [fd])])
  }

  /** The reply to a player just seated in room `id`, and the notices to the others. */
  function Welcome(t: State, fd: int, id: int): Step
    requires fd in t.clients && id in t.rooms
  {
    var players := t.rooms[id].players;
    var reply := Message(fd, JoinRoomOk, t.rooms[id].name + ";" + NickList(t.clients, players));
    Step(t.(clients := TouchAll(t.clients, players)),
         [reply] + NotifyOthers(players, fd, NewPlayerJoined, t.clients[fd].nick))
  }

  // ---------------------------------------------------------------------
  // A game

  function OnStartGame(s: State, fd: int, now: int, random: nat -> nat): (r: Step)
    requires fd in s.clients
    ensures KeepsBuffers(s.clients, r.state.clients)
  {
    var rid := s.clients[fd].currentRoomId;
    if rid == NoRoom || rid !in s.rooms then Step(s, [])
    else if s.rooms[rid].hostFd != fd then Step(s, [Message(fd, GameStartFail, "Nie jestes hostem!")])
    else if |s.rooms[rid].players| < 2 then Step(s, [Message(fd, GameStartFail, "Za malo graczy!")])
    else BeginGame(s, rid, now, random)
  }

  /**
   * The first round of room `rid` begins: scores of its players are reset,
   * answers and votes cleared, a letter drawn and announced, and the answer
   * deadline set.
   */
  function BeginGame(s: State, rid: int, now: int, random: nat -> nat): (r: Step)
    requires rid in s.rooms
    ensures KeepsBuffers(s.clients, r.state.clients)
  {
    var room := s.rooms[rid];
    var started := room.(gameStarted := true, currentRound := 1, playerAnswers := map[], playerVotes := map[]);
    ResetScoresSpec(s.clients, room.players);
    Step(s.(clients := ResetScores(s.clients, room.players), rooms := s.rooms[rid := started],
            draws := s.draws + 1,
            answerTimeouts := s.answerTimeouts[rid := now + AnswerSeconds],
            lastTimeUpdate := s.lastTimeUpdate[rid := now]),
         SendAll(started.players, GameStarted, RoundText(Letter(random, s.draws), 1, started.maxRounds)))
  }

  function OnSubmitAnswers(s: State, fd: int, data: string): (r: Step)
    requires fd in s.clients
    ensures r.state.clients == s.clients
  {
    var rid := s.clients[fd].currentRoomId;
    if rid == NoRoom then Step(s, [])
    else
      var was := RoomAt(s.rooms, rid);
      var room := was.(playerAnswers := was.playerAnswers[fd := data]);
      var s1 := s.(rooms := s.rooms[rid := room]);
      if |room.playerAnswers| == |room.players| then
        Step(s1, SendAll(room.players, VerificationStart, VerificationPayload(Values(room.playerAnswers))))
      else Step(s1, [])
  }

  /** The round a room's answers and votes are scored as. */
  function ScoredRound(room: Room): Round
  {
    RoundOf(Values(room.playerAnswers), Values(room.playerVotes), |room.players|)
  }

  /** A player's answer string; `""` for one that submitted none. */
  function AnswerOf(room: Room, pid: int): string
  {
    if pid in room.playerAnswers then room.playerAnswers[pid] else ""
  }

  /** The points a player earns in the room's round. */
  function PointsOf(room: Room, pid: int): nat
  {
    RoundPoints(ScoredRound(room), AnswerOf(room, pid))
  }

  /** Each player's points in the room's round. */
  function PointsTable(room: Room): int -> nat
  {
    pid => PointsOf(room, pid)
  }

  /** The client table and the two summaries after the scoring loop visited the player-list entries `fds`. */
  datatype Tally = Tally(clients: map<int, Client>, roundSummary: string, totalSummary: string)

  function Award(cs: map<int, Client>, points: int -> nat, fds: seq<int>): Tally
  {
    if fds == [] then Tally(cs, "", "")
    else AwardOne(Award(cs, points, fds[..|fds| - 1]), fds[|fds| - 1], points(fds[|fds| - 1]))
  }

  /** One pass of the scoring loop: socket `pid` gains `points`, and both summaries get its entry. */
  function AwardOne(a: Tally, pid: int, points: nat): Tally
  {
    var c := At(a.clients, pid);
    var scored := c.(score := c.score + points);
    Tally(a.clients[pid := scored],
          a.roundSummary + c.nick + ":" + IntToString(points) + ";",
          a.totalSummary + scored.nick + ":" + IntToString(scored.score) + ";")
  }

  lemma MulSucc(c: int, p: int)
    ensures (c + 1) * p == c * p + p
  {
  }

  /** The points socket `k` collects over the entries `fds`: its own points once per entry that is `k`. */
  function Gained(fds: seq<int>, k: int, points: int -> nat): nat
  {
    if fds == [] then 0
    else Gained(fds[..|fds| - 1], k, points) + (if fds[|fds| - 1] == k then points(k) else 0)
  }

  lemma {:induction false} GainedIsCount(fds: seq<int>, k: int, points: int -> nat)
    ensures Gained(fds, k, points) == Count(fds, k) * points(k)
  {
    if fds != [] {
      GainedIsCount(fds[..|fds| - 1], k, points);
      MulSucc(Count(fds[..|fds| - 1], k), points(k));
    }
  }

  lemma {:induction false} GainedAbsent(fds: seq<int>, k: int, points: int -> nat)
    requires k !in fds
    ensures Gained(fds, k, points) == 0
  {
    if fds != [] {
      assert fds[|fds| - 1] in fds;
      assert forall x :: x in fds[..|fds| - 1] ==> x in fds;
      GainedAbsent(fds[..|fds| - 1], k, points);
    }
  }

  /** What the scoring loop leaves in the client entry of one socket `k`. */
  lemma {:induction false} AwardAt(cs: map<int, Client>, points: int -> nat, fds: seq<int>, k: int)
    ensures k in Award(cs, points, fds).clients <==> k in cs || k in fds
    ensures k in Award(cs, points, fds).clients ==>
      Award(cs, points, fds).clients[k] == At(cs, k).(score := At(cs, k).score + Gained(fds, k, points))
  {
    if fds != [] {
      var init := fds[..|fds| - 1];
      var pid := fds[|fds| - 1];
      AwardAt(cs, points, init, k);
      assert fds == init + [pid];
      if k == pid && pid !in init {
        GainedAbsent(init, pid, points);
      }
    }
  }

  /**
   * The scoring loop adds each player's round points to its score once per
   * entry in the player list, and changes nothing else in the client table.
   */
  lemma AwardScores(cs: map<int, Client>, points: int -> nat, fds: seq<int>)
    ensures Award(cs, points, fds).clients.Keys == cs.Keys + Members(fds)
    ensures forall k :: k in Award(cs, points, fds).clients ==>
      Award(cs, points, fds).clients[k] == At(cs, k).(score := At(cs, k).score + Count(fds, k) * points(k))
  {
    forall k ensures k in Award(cs, points, fds).clients <==> k in cs.Keys + Members(fds) {
      AwardAt(cs, points, fds, k);
    }
    forall k | k in Award(cs, points, fds).clients
      ensures Award(cs, points, fds).clients[k] == At(cs, k).(score := At(cs, k).score + Count(fds, k) * points(k))
    {
      AwardAt(cs, points, fds, k);
      GainedIsCount(fds, k, points);
    }
  }

  /** One entry of a score summary: `nick:value`. */
  function ScoreEntry(nick: string, value: int): string
  {
    nick + ":" + IntToString(value)
  }

  /** The entries of the round summary: each listed socket's nick and its round points, in list order. */
  function RoundEntries(cs: map<int, Client>, points: int -> nat, fds: seq<int>): seq<string>
  {
    seq(|fds|, k requires 0 <= k < |fds| => ScoreEntry(At(cs, fds[k]).nick, points(fds[k])))
  }

  /**
   * The entries of the total summary: each listed socket's nick and its score
   * as it stands once the loop has scored the k-th entry of the list.
   */
  function TotalEntries(cs: map<int, Client>, points: int -> nat, fds: seq<int>): seq<string>
  {
    seq(|fds|, k requires 0 <= k < |fds| => ScoreEntry(At(cs, fds[k]).nick, RunningScore(cs, points, fds, k)))
  }

  /** The score of the socket at entry `k` once that entry is scored: its points once per listing so far. */
  function RunningScore(cs: map<int, Client>, points: int -> nat, fds: seq<int>, k: nat): int
    requires k < |fds|
  {
    At(cs, fds[k]).score + Count(fds[..k + 1], fds[k]) * points(fds[k])
  }

  lemma RoundEntriesSnoc(cs: map<int, Client>, points: int -> nat, init: seq<int>, pid: int)
    ensures RoundEntries(cs, points, init + [pid]) ==
      RoundEntries(cs, points, init) + [ScoreEntry(At(cs, pid).nick, points(pid))]
  {
  }

  lemma TotalEntriesSnoc(cs: map<int, Client>, points: int -> nat, init: seq<int>, pid: int)
    ensures TotalEntries(cs, points, init + [pid]) ==
      TotalEntries(cs, points, init) + [ScoreEntry(At(cs, pid).nick, RunningScore(cs, points, init + [pid], |init|))]
  {
    var fds := init + [pid];
    forall k | 0 <= k < |init|
      ensures RunningScore(cs, points, fds, k) == RunningScore(cs, points, init, k)
    {
      assert fds[..k + 1] == init[..k + 1];
    }
  }

  /** Before the loop scores entry `pid`, that client has its nick and the score of the entries before. */
  lemma AwardedSoFar(cs: map<int, Client>, points: int -> nat, init: seq<int>, pid: int)
    ensures At(Award(cs, points, init).clients, pid).nick == At(cs, pid).nick
    ensures At(Award(cs, points, init).clients, pid).score + points(pid) == RunningScore(cs, points, init + [pid], |init|)
  {
    AwardedEntry(cs, points, init, pid);
    RunningScoreLast(cs, points, init, pid);
  }

  lemma AwardedEntry(cs: map<int, Client>, points: int -> nat, init: seq<int>, pid: int)
    ensures At(Award(cs, points, init).clients, pid) == At(cs, pid).(score := At(cs, pid).score + Count(init, pid) * points(pid))
  {
    AwardAt(cs, points, init, pid);
    GainedIsCount(init, pid, points);
    if pid !in Award(cs, points, init).clients {
      GainedAbsent(init, pid, points);
    }
  }

  lemma RunningScoreLast(cs: map<int, Client>, points: int -> nat, init: seq<int>, pid: int)
    ensures RunningScore(cs, points, init + [pid], |init|) == At(cs, pid).score + Count(init, pid) * points(pid) + points(pid)
  {
    var fds := init + [pid];
    assert fds[..|init| + 1] == fds && fds[..|fds| - 1] == init;
    assert Count(fds, pid) == Count(init, pid) + 1;
    MulSucc(Count(init, pid), points(pid));
  }

  /** One pass of the scoring loop appends the socket's `nick:points;` and `nick:score;` entries. */
  lemma AwardOneSummaries(a: Tally, pid: int, points: nat, nick: string, total: int)
    requires At(a.clients, pid).nick == nick && At(a.clients, pid).score + points == total
    ensures AwardOne(a, pid, points).roundSummary == a.roundSummary + ScoreEntry(nick, points) + ";"
    ensures AwardOne(a, pid, points).totalSummary == a.totalSummary + ScoreEntry(nick, total) + ";"
  {
    SeqAssoc(a.roundSummary, ScoreEntry(nick, points), ";");
    SeqAssoc(a.totalSummary, ScoreEntry(nick, total), ";");
  }

  /** The round summary holds one `nick:points;` entry per player-list entry, in list order. */
  lemma {:induction false} RoundSummaryIs(cs: map<int, Client>, points: int -> nat, fds: seq<int>)
    ensures Award(cs, points, fds).roundSummary == Terminated(RoundEntries(cs, points, fds), ';')
  {
    if fds == [] {
      assert RoundEntries(cs, points, fds) == [];
    } else {
      var init := fds[..|fds| - 1];
      var pid := fds[|fds| - 1];
      assert fds == init + [pid];
      RoundSummaryIs(cs, points, init);
      var a := Award(cs, points, init);
      var c := At(a.clients, pid);
      AwardAt(cs, points, init, pid);
      assert c.nick == At(cs, pid).nick;
      AwardOneSummaries(a, pid, points(pid), c.nick, c.score + points(pid));
      RoundEntriesSnoc(cs, points, init, pid);
      TerminatedSnoc(RoundEntries(cs, points, init), ScoreEntry(c.nick, points(pid)), ';');
    }
  }

  /**
   * The total summary holds one `nick:score;` entry per player-list entry, in
   * list order, with the score as it stands just after that entry is scored.
   */
  lemma {:induction false} TotalSummaryIs(cs: map<int, Client>, points: int -> nat, fds: seq<int>)
    ensures Award(cs, points, fds).totalSummary == Terminated(TotalEntries(cs, points, fds), ';')
  {
    if fds == [] {
      assert TotalEntries(cs, points, fds) == [];
    } else {
      var init := fds[..|fds| - 1];
      var pid := fds[|fds| - 1];
      assert fds == init + [pid];
      TotalSummaryIs(cs, points, init);
      var a := Award(cs, points, init);
      var c := At(a.clients, pid);
      AwardedSoFar(cs, points, init, pid);
      var total := RunningScore(cs, points, fds, |init|);
      AwardOneSummaries(a, pid, points(pid), c.nick, total);
      TotalEntriesSnoc(cs, points, init, pid);
      TerminatedSnoc(TotalEntries(cs, points, init), ScoreEntry(c.nick, total), ';');
    }
  }

  /** A summary entry for a nick without `;` holds no `;`; for a nick without `:` it splits back into the nick and the number. */
  lemma ScoreEntryRoundTrip(nick: string, value: int)
    ensures ';' !in nick ==> ';' !in ScoreEntry(nick, value)
    ensures ':' !in nick ==> Tokens(ScoreEntry(nick, value), ':') == [nick, IntToString(value)]
  {
    IntToStringHasNoSeparator(value);
    var kv := [nick, IntToString(value)];
    assert ScoreEntry(nick, value) == Join(kv, ':');
    if ':' !in nick {
      TokensOfJoin(kv, ':');
    }
  }

  /** With no `;` in any listed nick, the round summary splits on `;` into exactly its entries. */
  lemma RoundSummaryRoundTrip(cs: map<int, Client>, points: int -> nat, fds: seq<int>)
    requires forall k :: 0 <= k < |fds| ==> ';' !in At(cs, fds[k]).nick
    ensures Tokens(Award(cs, points, fds).roundSummary, ';') == RoundEntries(cs, points, fds)
  {
    RoundSummaryIs(cs, points, fds);
    var es := RoundEntries(cs, points, fds);
    forall k | 0 <= k < |es| ensures ';' !in es[k] {
      ScoreEntryRoundTrip(At(cs, fds[k]).nick, points(fds[k]));
    }
    TokensOfTerminated(es, ';');
  }

  /** With no `;` in any listed nick, the total summary splits on `;` into exactly its entries. */
  lemma TotalSummaryRoundTrip(cs: map<int, Client>, points: int -> nat, fds: seq<int>)
    requires forall k :: 0 <= k < |fds| ==> ';' !in At(cs, fds[k]).nick
    ensures Tokens(Award(cs, points, fds).totalSummary, ';') == TotalEntries(cs, points, fds)
  {
    TotalSummaryIs(cs, points, fds);
    var es := TotalEntries(cs, points, fds);
    forall k | 0 <= k < |es| ensures ';' !in es[k] {
      ScoreEntryRoundTrip(At(cs, fds[k]).nick, RunningScore(cs, points, fds, k));
    }
    TokensOfTerminated(es, ';');
  }

  /** `calculateScores` on room `rid`. */
  function Scores(s: State, rid: int, now: int): (r: Step)
    requires rid in s.rooms
    ensures KeepsBuffers(s.clients, r.state.clients)
  {
    var room := s.rooms[rid];
    var tally := Award(s.clients, PointsTable(room), room.players);
    AwardScores(s.clients, PointsTable(room), room.players);
    CloseRound(s.(clients := tally.clients), rid, now, tally.roundSummary, tally.totalSummary)
  }

  /**
   * After the scores are added: `ROUND_END` with the round summary, the answers
   * and votes cleared, and either the break before the next round or
   * `GAME_END` with the totals, everyone back in the lobby and the room gone.
   */
  function CloseRound(s: State, rid: int, now: int, roundSummary: string, totalSummary: string): (r: Step)
    requires rid in s.rooms
    ensures KeepsBuffers(s.clients, r.state.clients)
  {
    var room := s.rooms[rid];
    var cleared := room.(playerAnswers := map[], playerVotes := map[]);
    var roundEnd := SendAll(room.players, RoundEnd, roundSummary);
    if room.currentRound < room.maxRounds then
      Step(s.(rooms := s.rooms[rid := cleared],
              nextRoundStartTimes := s.nextRoundStartTimes[rid := now + BreakSeconds]),
           roundEnd)
    else
      EvictSpec(s.clients, room.players);
      Step(s.(clients := Evict(s.clients, room.players), rooms := s.rooms - {rid},
              answerTimeouts := s.answerTimeouts - {rid}, lastTimeUpdate := s.lastTimeUpdate - {rid},
              nextRoundStartTimes := s.nextRoundStartTimes - {rid}),
           roundEnd + SendAll(cleared.players, GameEnd, totalSummary))
  }

  function OnSendVote(s: State, fd: int, data: string, now: int): (r: Step)
    requires fd in s.clients
    ensures KeepsBuffers(s.clients, r.state.clients)
  {
    var rid := s.clients[fd].currentRoomId;
    if rid == NoRoom then Step(s, [])
    else
      var was := RoomAt(s.rooms, rid);
      var room := was.(playerVotes := was.playerVotes[fd := data]);
      var s1 := s.(rooms := s.rooms[rid := room]);
      if |room.playerVotes| == |room.players| then Scores(s1, rid, now) else Step(s1, [])
  }

  // ---------------------------------------------------------------------
  // Leaving

  /**
   * Socket `fd` (called `nick`) leaves room `rid`: it is removed from the
   * player list, its answer and vote are dropped, and the others are told.
   */
  function Depart(s: State, fd: int, rid: int, nick: string): (r: Step)
    requires rid in s.rooms
    ensures KeepsBuffers(s.clients, r.state.clients)
  {
    if fd == s.rooms[rid].hostFd then HostDeparts(s, fd, rid) else PlayerDeparts(s, fd, rid, nick)
  }

  /** The host left: every remaining player is sent back to the lobby and the room is gone. */
  function HostDeparts(s: State, fd: int, rid: int): (r: Step)
    requires rid in s.rooms
    ensures KeepsBuffers(s.clients, r.state.clients)
  {
    var rest := Without(s.rooms[rid].players, fd);
    EvictSpec(s.clients, rest);
    Step(s.(clients := Evict(s.clients, rest), rooms := s.rooms - {rid}), SendAll(rest, HostLeft, ""))
  }

  /** Another player left: the rest are told, and a room left empty is gone. */
  function PlayerDeparts(s: State, fd: int, rid: int, nick: string): Step
    requires rid in s.rooms
  {
    var room := s.rooms[rid];
    var rest := Without(room.players, fd);
    var left := room.(players := rest, playerAnswers := room.playerAnswers - {fd},
                      playerVotes := room.playerVotes - {fd});
    Step(s.(rooms := if rest == [] then s.rooms - {rid} else s.rooms[rid := left]), SendAll(rest, PlayerLeft, nick))
  }

  function OnLeaveRoom(s: State, fd: int): (r: Step)
    requires fd in s.clients
    ensures KeepsBuffers(s.clients, r.state.clients)
  {
    var rid := s.clients[fd].currentRoomId;
    if rid == NoRoom || rid !in s.rooms then Step(s, [])
    else Depart(s.(clients := s.clients[fd := s.clients[fd].(currentRoomId := NoRoom)]), fd, rid, s.clients[fd].nick)
  }

  /** `handleDisconnect`: the same departure from the client's room, then the client is forgotten. */
  function OnDisconnect(s: State, fd: int): (r: Step)
    ensures fd !in r.state.clients
  {
    var cs := Touch(s.clients, fd);
    var rid := cs[fd].currentRoomId;
    var d := if rid != NoRoom && rid in s.rooms then Depart(s.(clients := cs), fd, rid, cs[fd].nick)
             else Step(s.(clients := cs), []);
    Step(d.state.(clients := d.state.clients - {fd}), d.out)
  }

  // ---------------------------------------------------------------------
  // Receiving

  /** `processMessage`: one received frame, dispatched on its type byte. */
  function Process(s: State, fd: int, tag: Byte, body: seq<Byte>, now: int, random: nat -> nat): (r: Step)
    requires fd in s.clients
    ensures KeepsBuffers(s.clients, r.state.clients)
  {
    var data := BytesString(body);
    match FromTag(tag)
    case Some(Login) => OnLogin(s, fd, data)
    case Some(CreateRoom) => OnCreateRoom(s, fd, data)
    case Some(GetRoomList) => OnGetRoomList(s, fd)
    case Some(JoinRoom) => OnJoinRoom(s, fd, data)
    case Some(StartGame) => OnStartGame(s, fd, now, random)
    case Some(SubmitAnswers) => OnSubmitAnswers(s, fd, data)
    case Some(SendVote) => OnSendVote(s, fd, data, now)
    case Some(LeaveRoom) => OnLeaveRoom(s, fd)
    case _ => Step(s, [])
  }

  /** The client table with socket `fd`'s receive buffer replaced. */
  function Buffered(s: State, fd: int, buf: seq<Byte>): State
    requires fd in s.clients
  {
    s.(clients := s.clients[fd := s.clients[fd].(incomingBuffer := buf)])
  }

  /** One pass of the framing loop: the frame `d` is taken off the buffer, then dispatched. */
  function DispatchOne(a: Step, fd: int, d: Decoded, now: int, random: nat -> nat): (r: Step)
    requires fd in a.state.clients
    ensures fd in r.state.clients
  {
    var p := Process(Buffered(a.state, fd, d.rest), fd, d.tag, d.body, now, random);
    Step(p.state, a.out + p.out)
  }

  /** The passes of the framing loop over the decodes `ds`, from state `s`. */
  function Dispatch(s: State, fd: int, ds: seq<Decoded>, now: int, random: nat -> nat): (r: Step)
    requires fd in s.clients
    ensures fd in r.state.clients
  {
    if ds == [] then Step(s, [])
    else DispatchOne(Dispatch(s, fd, ds[..|ds| - 1], now, random), fd, ds[|ds| - 1], now, random)
  }

  /**
   * The framing loop of `handleInput` on buffer `buf`: while a whole frame is
   * at the front, it is taken off the buffer and then dispatched.
   */
  function Receive(s: State, fd: int, buf: seq<Byte>, now: int, random: nat -> nat): Step
    requires fd in s.clients
  {
    Dispatch(Buffered(s, fd, buf), fd, Pending(buf), now, random)
  }

  /** The framing loop starts by replacing the buffer, so what was there before does not matter. */
  lemma ReceiveRebuffered(s: State, fd: int, stale: seq<Byte>, buf: seq<Byte>, now: int, random: nat -> nat)
    requires fd in s.clients
    ensures Receive(Buffered(s, fd, stale), fd, buf, now, random) == Receive(s, fd, buf, now, random)
  {
    assert Buffered(Buffered(s, fd, stale), fd, buf).clients == Buffered(s, fd, buf).clients;
  }

  /** What the passes over `ds` leave in the buffers: the tail of the last decode for `fd`, and the old ones elsewhere. */
  lemma {:induction false} DispatchBuffers(s: State, fd: int, ds: seq<Decoded>, now: int, random: nat -> nat)
    requires fd in s.clients
    ensures var r := Dispatch(s, fd, ds, now, random).state;
      r.clients[fd].incomingBuffer == if ds == [] then s.clients[fd].incomingBuffer else ds[|ds| - 1].rest
    ensures var r := Dispatch(s, fd, ds, now, random).state;
      forall k :: k in s.clients && k != fd ==>
        k in r.clients && r.clients[k].incomingBuffer == s.clients[k].incomingBuffer
  {
    if ds != [] {
      DispatchBuffers(s, fd, ds[..|ds| - 1], now, random);
    }
  }

  /**
   * The framing loop leaves in the buffer exactly the incomplete tail behind
   * the buffer's frames, and keeps every other client and its buffer.
   */
  lemma ReceiveLeavesTail(s: State, fd: int, buf: seq<Byte>, now: int, random: nat -> nat)
    requires fd in s.clients
    ensures var r := Receive(s, fd, buf, now, random).state;
      fd in r.clients && r.clients[fd].incomingBuffer == Deframe(buf).1
    ensures var r := Receive(s, fd, buf, now, random).state;
      forall k :: k in s.clients && k != fd ==> k in r.clients && r.clients[k].incomingBuffer == s.clients[k].incomingBuffer
  {
    DispatchBuffers(Buffered(s, fd, buf), fd, Pending(buf), now, random);
    PendingDeframe(buf);
  }

  /** `handleInput` after a read of `bytes`; an empty read is the peer closing the connection. */
  function OnInput(s: State, fd: int, bytes: seq<Byte>, now: int, random: nat -> nat): Step
  {
    if bytes == [] then OnDisconnect(s, fd)
    else
      var cs := Touch(s.clients, fd);
      Receive(s.(clients := cs), fd, cs[fd].incomingBuffer + bytes, now, random)
  }

  // ---------------------------------------------------------------------
  // The timer passes of the event loop

  /** A started room whose answer deadline has passed. */
  predicate Expired(s: State, rid: int, now: int)
  {
    rid in s.answerTimeouts && rid in s.rooms && s.rooms[rid].gameStarted && now > s.answerTimeouts[rid]
  }

  function ExpireStep(s: State, rid: int, now: int): Step
  {
    if Expired(s, rid, now) then
      Step(s.(answerTimeouts := s.answerTimeouts - {rid}), Broadcast(s.rooms, rid, TimeUp, ""))
    else Step(s, [])
  }

  /** The `TIME_UP` pass over the deadlines with the given ids, in order. */
  function ExpireAll(s: State, ids: seq<int>, now: int): Step
  {
    if ids == [] then Step(s, [])
    else
      var a := ExpireAll(s, ids[..|ids| - 1], now);
      var b := ExpireStep(a.state, ids[|ids| - 1], now);
      Step(b.state, a.out + b.out)
  }

  /** A started room whose deadline is still ahead. */
  predicate Ticking(s: State, rid: int, now: int)
  {
    rid in s.answerTimeouts && rid in s.rooms && s.rooms[rid].gameStarted && s.answerTimeouts[rid] - now > 0
  }

  /**
   * One room of the `TIME_LEFT` pass. Reading `lastTimeUpdate[rid]` inserts 0
   * when the room has no entry; the announcement is made, and the entry set
   * to `now`, once a second has passed.
   */
  function AnnounceStep(s: State, rid: int, now: int): (r: Step)
    ensures r.state.answerTimeouts == s.answerTimeouts && r.state.rooms == s.rooms
  {
    if Ticking(s, rid, now) then
      var last := TimeAt(s.lastTimeUpdate, rid);
      if now - last >= 1 then
        Step(s.(lastTimeUpdate := s.lastTimeUpdate[rid := now]),
             Broadcast(s.rooms, rid, TimeLeft, IntToString(s.answerTimeouts[rid] - now)))
      else Step(s.(lastTimeUpdate := s.lastTimeUpdate[rid := last]), [])
    else Step(s, [])
  }

  function AnnounceAll(s: State, ids: seq<int>, now: int): (r: Step)
    ensures r.state.answerTimeouts == s.answerTimeouts && r.state.rooms == s.rooms
  {
    if ids == [] then Step(s, [])
    else
      var a := AnnounceAll(s, ids[..|ids| - 1], now);
      var b := AnnounceStep(a.state, ids[|ids| - 1], now);
      Step(b.state, a.out + b.out)
  }

  /** The `(room id, start time)` entries of a schedule, in the order its iterator visits them. */
  function Schedule(m: map<int, int>): (r: seq<(int, int)>)
    ensures |r| == |m|
    ensures forall k :: 0 <= k < |r| ==> r[k].0 in m && r[k].1 == m[r[k].0]
    ensures forall k :: 0 <= k < |r| ==> r[k].0 == KeysInOrder(m.Keys)[k]
  {
    var ids := KeysInOrder(m.Keys);
    seq(|ids|, k requires 0 <= k < |ids| => (ids[k], m[ids[k]]))
  }

  /**
   * One entry `(rid, startAt)` of the next-round pass: dropped for a room that
   * is gone; once due, the room's next round is started and the entry dropped.
   */
  function RoundStep(s: State, rid: int, startAt: int, now: int, random: nat -> nat): Step
  {
    if rid !in s.rooms then Step(s.(nextRoundStartTimes := s.nextRoundStartTimes - {rid}), [])
    else if now >= startAt then
      var room := s.rooms[rid].(currentRound := s.rooms[rid].currentRound + 1);
      Step(s.(rooms := s.rooms[rid := room], draws := s.draws + 1,
              answerTimeouts := s.answerTimeouts[rid := now + AnswerSeconds],
              lastTimeUpdate := s.lastTimeUpdate[rid := now],
              nextRoundStartTimes := s.nextRoundStartTimes - {rid}),
           SendAll(room.players, GameStarted, RoundText(Letter(random, s.draws), room.currentRound, room.maxRounds)))
    else Step(s, [])
  }

  /** The next-round pass over the given entries, in order. */
  function RoundsAll(s: State, entries: seq<(int, int)>, now: int, random: nat -> nat): Step
  {
    if entries == [] then Step(s, [])
    else
      var a := RoundsAll(s, entries[..|entries| - 1], now, random);
      var e := entries[|entries| - 1];
      var b := RoundStep(a.state, e.0, e.1, now, random);
      Step(b.state, a.out + b.out)
  }

  /** The timer section of one pass of the event loop, at time `now`. */
  function Tick(s: State, now: int, random: nat -> nat): Step
  {
    var e := ExpireAll(s, KeysInOrder(s.answerTimeouts.Keys), now);
    var a := AnnounceAll(e.state, KeysInOrder(e.state.answerTimeouts.Keys), now);
    var n := RoundsAll(a.state, Schedule(a.state.nextRoundStartTimes), now, random);
    Step(n.state, e.out + a.out + n.out)
  }
}
