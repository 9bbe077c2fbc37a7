/**
 * The server object: the client and room tables, the room-id counter and the
 * three timer tables as mutable fields, and the handlers as methods that
 * update them in place. Every method is proved to leave the state, and the
 * messages it sends, exactly as the step functions of `Game` say.
 */
module Server {
  import opened Options
  import opened Protocol
  import opened Text
  import opened Scoring
  import opened Lobby
  import opened Game
  import opened Tallies
  import Invariant

  /** The frames the receive loop has handed to the dispatcher for socket `fd`, tagged with it. */
  function Tagged(fd: int, frames: seq<(Byte, seq<Byte>)>): (r: seq<(int, Byte, seq<Byte>)>)
    ensures |r| == |frames|
    ensures forall k :: 0 <= k < |frames| ==> r[k] == (fd, frames[k].0, frames[k].1)
  {
    if frames == [] then [] else [(fd, frames[0].0, frames[0].1)] + Tagged(fd, frames[1..])
  }

  /** A room's entry written out field by field. */
  lemma RoomEntryText(id: int, r: Room)
    ensures RoomEntry(id, r)
      == IntToString(id) + ":" + r.name + ":" + IntToString(|r.players|) + ":" + StateText(r)
  {
    var a, b, c, d := IntToString(id), r.name, IntToString(|r.players|), StateText(r);
    var fs := EntryFields(id, r);
    assert fs[1..][1..][1..] == [d];
    assert Join(fs[1..][1..], ':') == c + [':'] + d;
    assert Join(fs[1..], ':') == b + [':'] + (c + [':'] + d);
    assert Join(fs, ':') == a + [':'] + (b + [':'] + (c + [':'] + d));
    Nest(a, [':'], b, [':'], c, [':'], d);
  }

  lemma Nest<T>(a: seq<T>, b: seq<T>, c: seq<T>, d: seq<T>, e: seq<T>, f: seq<T>, g: seq<T>)
    ensures a + b + (c + d + (e + f + g)) == a + b + c + d + e + f + g
  {
  }

  /** One more room's entry appended to the list of the rooms before it. */
  lemma EntryAppended(rs: map<int, Room>, list: string, ids: seq<int>, i: nat)
    requires i < |ids| && forall k :: 0 <= k < |ids| ==> ids[k] in rs
    requires list == Terminated(ListingOf(rs, ids[..i]), ';')
    ensures Terminated(ListingOf(rs, ids[..i + 1]), ';') == list + RoomEntry(ids[i], rs[ids[i]]) + ";"
  {
    assert ids[..i + 1][..i] == ids[..i];
    TerminatedSnoc(ListingOf(rs, ids[..i]), RoomEntry(ids[i], rs[ids[i]]), ';');
  }

  /** What the two tallying loops of `calculateScores` leave: the vetoes and the accepted words of the room's round, counted. */
  ghost predicate Tallied(room: Room, vetos: map<(int, string), nat>, counts: map<(int, string), nat>, r: Round)
  {
    && r == ScoredRound(room)
    && (forall e :: TallyOf(vetos, e) == Count(r.vetoes, e))
    && (forall c: nat, w :: TallyOf(counts, (c, w)) == ValidCount(r, c, w))
  }

  lemma TaggedSnoc(fd: int, frames: seq<(Byte, seq<Byte>)>, i: nat)
    requires i < |frames|
    ensures Tagged(fd, frames[..i + 1]) == Tagged(fd, frames[..i]) + [(fd, frames[i].0, frames[i].1)]
  {
    var a, b := Tagged(fd, frames[..i + 1]), Tagged(fd, frames[..i]) + [(fd, frames[i].0, frames[i].1)];
    assert |a| == |b|;
    forall k | 0 <= k < |a| ensures a[k] == b[k] {
    }
  }

  /** Index `i` of `s` is the head of the suffix from `i`, and the prefix grows by it. */
  lemma Uncons<T>(s: seq<T>, i: nat, x: T, t: seq<T>)
    requires i <= |s| && s[i..] == [x] + t
    ensures i < |s| && s[i] == x && s[i + 1..] == t && s[..i + 1][..i] == s[..i]
  {
    assert s[i..][0] == x;
    assert s[i..][1..] == t;
  }

  lemma DispatchSnoc(s: State, fd: int, ds: seq<Decoded>, i: nat, now: int, random: nat -> nat)
    requires fd in s.clients && i < |ds|
    ensures Dispatch(s, fd, ds[..i + 1], now, random) == DispatchOne(Dispatch(s, fd, ds[..i], now, random), fd, ds[i], now, random)
  {
    assert ds[..i + 1][..i] == ds[..i];
  }

  lemma ExpireAllSnoc(s: State, ids: seq<int>, i: nat, now: int)
    requires i < |ids|
    ensures var a := ExpireAll(s, ids[..i], now); var b := ExpireStep(a.state, ids[i], now);
      ExpireAll(s, ids[..i + 1], now) == Step(b.state, a.out + b.out)
  {
    assert ids[..i + 1][..i] == ids[..i];
  }

  lemma AnnounceAllSnoc(s: State, ids: seq<int>, i: nat, now: int)
    requires i < |ids|
    ensures var a := AnnounceAll(s, ids[..i], now); var b := AnnounceStep(a.state, ids[i], now);
      AnnounceAll(s, ids[..i + 1], now) == Step(b.state, a.out + b.out)
  {
    assert ids[..i + 1][..i] == ids[..i];
  }

  lemma RoundsAllSnoc(s: State, entries: seq<(int, int)>, i: nat, now: int, random: nat -> nat)
    requires i < |entries|
    ensures var a := RoundsAll(s, entries[..i], now, random);
      var b := RoundStep(a.state, entries[i].0, entries[i].1, now, random);
      RoundsAll(s, entries[..i + 1], now, random) == Step(b.state, a.out + b.out)
  {
    assert entries[..i + 1][..i] == entries[..i];
  }

  class GameServer {
    var clients: map<int, Client>
    var rooms: map<int, Room>
    var nextRoomId: int
    var answerTimeouts: map<int, int>
    var lastTimeUpdate: map<int, int>
    var nextRoundStartTimes: map<int, int>
    /** How many letters have been drawn from `random`. */
    var draws: nat
    /** The source of `rand()`: its `n`-th value. */
    const random: nat -> nat
    /** Every message handed to `send`, in order. */
    var outbox: seq<Message>
    /** Every frame the receive loop took off a buffer, with its socket, in order. */
    ghost var dispatched: seq<(int, Byte, seq<Byte>)>

    function Snapshot(): State
      reads this`clients, this`rooms, this`nextRoomId, this`answerTimeouts, this`lastTimeUpdate,
        this`nextRoundStartTimes, this`draws
    {
      State(clients, rooms, nextRoomId, answerTimeouts, lastTimeUpdate, nextRoundStartTimes, draws)
    }

    ghost predicate Valid()
      reads this`clients, this`rooms, this`nextRoomId, this`answerTimeouts, this`lastTimeUpdate,
        this`nextRoundStartTimes, this`draws
    {
      Game.Valid(Snapshot())
    }

    constructor (random: nat -> nat)
      ensures Snapshot() == Initial && outbox == [] && dispatched == [] && this.random == random
      ensures Valid()
    {
      clients, rooms, nextRoomId := map[], map[], 1;
      answerTimeouts, lastTimeUpdate, nextRoundStartTimes := map[], map[], map[];
      draws := 0;
      this.random := random;
      outbox, dispatched := [], [];
    }

    // -------------------------------------------------------------------
    // Sending

    /** `sendToClient`: the framed message is handed to `send`. */
    method SendTo(fd: int, kind: MsgType, data: string)
      modifies this`outbox
      ensures outbox == old(outbox) + [Message(fd, kind, data)]
    {
      outbox := outbox + [Message(fd, kind, data)];
    }

    /** One message per entry of `fds`, in order. */
    method SendEach(fds: seq<int>, kind: MsgType, data: string)
      modifies this`outbox
      ensures outbox == old(outbox) + SendAll(fds, kind, data)
    {
      for i := 0 to |fds|
        invariant outbox == old(outbox) + SendAll(fds[..i], kind, data)
      {
        assert fds[..i + 1][..i] == fds[..i];
        SendTo(fds[i], kind, data);
      }
      assert fds[..|fds|] == fds;
    }

    method BroadcastToRoom(rid: int, kind: MsgType, data: string)
      modifies this`outbox
      ensures outbox == old(outbox) + Broadcast(rooms, rid, kind, data)
    {
      if rid !in rooms {
        return;
      }
      SendEach(rooms[rid].players, kind, data);
    }

    method GetRandomLetter() returns (letter: char)
      modifies this`draws
      ensures letter == Letter(random, old(draws)) && draws == old(draws) + 1
    {
      letter := ('A' as int + random(draws) % 26) as char;
      draws := draws + 1;
    }

    // -------------------------------------------------------------------
    // Lookups

    /** The `LOGIN` scan: whether some client already has this nick. */
    method NickTaken(nick: string) returns (taken: bool)
      ensures taken == NickInUse(clients, nick)
    {
      var ids := KeysInOrder(clients.Keys);
      taken := false;
      var i := 0;
      while i < |ids|
        invariant 0 <= i <= |ids|
        invariant forall j :: 0 <= j < i ==> clients[ids[j]].nick != nick
      {
        if clients[ids[i]].nick == nick {
          taken := true;
          return;
        }
        i := i + 1;
      }
    }

    /** The `CREATE_ROOM` scan: whether some room already has this name. */
    method NameTaken(name: string) returns (taken: bool)
      ensures taken == NameInUse(rooms, name)
    {
      var ids := KeysInOrder(rooms.Keys);
      taken := false;
      var i := 0;
      while i < |ids|
        invariant 0 <= i <= |ids|
        invariant forall j :: 0 <= j < i ==> rooms[ids[j]].name != name
      {
        if rooms[ids[i]].name == name {
          taken := true;
          return;
        }
        i := i + 1;
      }
    }

    /** The `JOIN_ROOM` scan: the first room in id order with this name whose game has not started. */
    method FindOpenRoom(name: string) returns (found: Option<int>)
      ensures found == LeastOpen(rooms, name)
    {
      var ids := KeysInOrder(rooms.Keys);
      var i := 0;
      while i < |ids|
        invariant 0 <= i <= |ids|
        invariant forall j :: 0 <= j < i ==> !IsOpen(rooms[ids[j]], name)
      {
        if rooms[ids[i]].name == name && !rooms[ids[i]].gameStarted {
          FirstOpenIsLeast(rooms, name, i);
          return Some(ids[i]);
        }
        i := i + 1;
      }
      NoneOpen(rooms, name);
      found := None;
    }

    /** The `GET_ROOM_LIST` loop: one `id:name:players:state;` entry per room, in id order. */
    method RoomListing() returns (list: string)
      ensures list == Lobby.RoomList(rooms)
    {
      var rs := rooms;
      var ids := KeysInOrder(rs.Keys);
      list := "";
      for i := 0 to |ids|
        invariant list == Terminated(ListingOf(rs, ids[..i]), ';')
      {
        var entry := EntryOf(ids[i], rs[ids[i]]);
        EntryAppended(rs, list, ids, i);
        list := list + entry + ";";
      }
      assert ids[..|ids|] == ids;
    }

    /** One `id:name:players:state` entry of the room list. */
    method EntryOf(id: int, room: Room) returns (entry: string)
      ensures entry == RoomEntry(id, room)
    {
      var state := if room.gameStarted then "inprogress" else "waiting";
      entry := IntToString(id) + ":" + room.name + ":" + IntToString(|room.players|) + ":" + state;
      RoomEntryText(id, room);
    }

    // -------------------------------------------------------------------
    // The handlers of processMessage

    method HandleLogin(fd: int, nick: string)
      requires fd in clients
      modifies this`clients, this`outbox
      ensures Snapshot() == OnLogin(old(Snapshot()), fd, nick).state
      ensures outbox == old(outbox) + OnLogin(old(Snapshot()), fd, nick).out
      ensures old(Valid()) ==> Valid()
    {
      if Valid() {
        Invariant.LoginKeepsValid(Snapshot(), fd, nick);
      }
      var taken := NickTaken(nick);
      if taken {
        SendTo(fd, LoginFail, "Nick jest zajety!");
      } else {
        clients := clients[fd := clients[fd].(nick := nick)];
        SendTo(fd, LoginOk, "Witaj w lobby!");
      }
    }

    method HandleCreateRoom(fd: int, name: string)
      requires fd in clients
      modifies this`clients, this`rooms, this`nextRoomId, this`outbox
      ensures Snapshot() == OnCreateRoom(old(Snapshot()), fd, name).state
      ensures outbox == old(outbox) + OnCreateRoom(old(Snapshot()), fd, name).out
      ensures old(Valid()) ==> Valid()
    {
      if Valid() {
        Invariant.CreateKeepsValid(Snapshot(), fd, name);
      }
      if clients[fd].nick == "" {
        return;
      }
      var taken := NameTaken(name);
      if taken {
        SendTo(fd, CreateRoomFail, "Nazwa pokoju jest zajeta!");
        return;
      }
      var newId := nextRoomId;
      nextRoomId := nextRoomId + 1;
      rooms := rooms[newId := NewRoom(newId, name, fd)];
      clients := clients[fd := clients[fd].(currentRoomId := newId)];
      SendTo(fd, CreateRoomOk, name);
    }

    method HandleGetRoomList(fd: int)
      modifies this`outbox
      ensures Snapshot() == OnGetRoomList(old(Snapshot()), fd).state
      ensures outbox == old(outbox) + OnGetRoomList(old(Snapshot()), fd).out
      ensures old(Valid()) ==> Valid()
    {
      var list := RoomListing();
      SendTo(fd, MsgType.RoomList, list);
    }

    method HandleJoinRoom(fd: int, name: string)
      requires fd in clients
      modifies this`clients, this`rooms, this`outbox
      ensures Snapshot() == OnJoinRoom(old(Snapshot()), fd, name).state
      ensures outbox == old(outbox) + OnJoinRoom(old(Snapshot()), fd, name).out
      ensures old(Valid()) ==> Valid()
    {
      if Valid() {
        Invariant.JoinKeepsValid(Snapshot(), fd, name);
      }
      var found := FindOpenRoom(name);
      if found.None? {
        SendTo(fd, JoinRoomFail, "Brak pokoju o takiej nazwie");
        return;
      }
      JoinAs(fd, found.value);
    }

    /** The success path of `JOIN_ROOM` into room `id`. */
    method JoinAs(fd: int, id: int)
      requires fd in clients && id in rooms
      modifies this`clients, this`rooms, this`outbox
      ensures Snapshot() == Game.JoinAs(old(Snapshot()), fd, id).state
      ensures outbox == old(outbox) + Game.JoinAs(old(Snapshot()), fd, id).out
    {
      Seat(fd, id);
      Welcome(fd, id);
    }

    method Seat(fd: int, id: int)
      requires fd in clients && id in rooms
      modifies this`clients, this`rooms
      ensures Snapshot() == Game.Seat(old(Snapshot()), fd, id)
    {
      rooms := rooms[id := rooms[id].(players := rooms[id].players + [fd])];
      clients := clients[fd := clients[fd].(currentRoomId := id)];
    }

    method Welcome(fd: int, id: int)
      requires fd in clients && id in rooms
      modifies this`clients, this`outbox
      ensures Snapshot() == Game.Welcome(old(Snapshot()), fd, id).state
      ensures outbox == old(outbox) + Game.Welcome(old(Snapshot()), fd, id).out
    {
      ghost var w := Game.Welcome(Snapshot(), fd, id);
      var players := rooms[id].players;
      var nick := clients[fd].nick;
      var list := CollectNicks(players);
      assert Snapshot() == w.state;
      SendTo(fd, JoinRoomOk, rooms[id].name + ";" + list);
      NotifyOthersOf(players, fd, nick);
      SeqAssoc(old(outbox), [w.out[0]], NotifyOthers(players, fd, NewPlayerJoined, nick));
    }

    /** The `NEW_PLAYER_JOINED` notices to every entry of `players` other than `fd`. */
    method NotifyOthersOf(players: seq<int>, fd: int, nick: string)
      modifies this`outbox
      ensures outbox == old(outbox) + NotifyOthers(players, fd, NewPlayerJoined, nick)
    {
      for i := 0 to |players|
        invariant outbox == old(outbox) + NotifyOthers(players[..i], fd, NewPlayerJoined, nick)
      {
        assert players[..i + 1][..i] == players[..i];
        if players[i] != fd {
          SendTo(players[i], NewPlayerJoined, nick);
        }
      }
      assert players[..|players|] == players;
    }

    /** The nick list of the `JOIN_ROOM` reply; reading `clients[pid]` inserts missing entries. */
    method CollectNicks(players: seq<int>) returns (list: string)
      modifies this`clients
      ensures clients == TouchAll(old(clients), players)
      ensures list == NickList(old(clients), players)
    {
      list := "";
      for i := 0 to |players|
        invariant clients == TouchAll(old(clients), players[..i])
        invariant list == NickList(old(clients), players[..i])
      {
        assert players[..i + 1][..i] == players[..i];
        if list != "" {
          list := list + ",";
        }
        clients := Touch(clients, players[i]);
        list := list + clients[players[i]].nick;
      }
      assert players[..|players|] == players;
    }

    method HandleStartGame(fd: int, now: int)
      requires fd in clients
      modifies this`clients, this`rooms, this`draws, this`answerTimeouts, this`lastTimeUpdate, this`outbox
      ensures Snapshot() == OnStartGame(old(Snapshot()), fd, now, random).state
      ensures outbox == old(outbox) + OnStartGame(old(Snapshot()), fd, now, random).out
      ensures old(Valid()) ==> Valid()
    {
      if Valid() {
        Invariant.StartKeepsValid(Snapshot(), fd, now, random);
      }
      ghost var s := Snapshot();
      var rid := clients[fd].currentRoomId;
      if rid == NoRoom || rid !in rooms {
        assert OnStartGame(s, fd, now, random) == Step(s, []);
        return;
      }
      var room := rooms[rid];
      if room.hostFd != fd {
        assert OnStartGame(s, fd, now, random) == Step(s, [Message(fd, GameStartFail, "Nie jestes hostem!")]);
        SendTo(fd, GameStartFail, "Nie jestes hostem!");
        return;
      }
      if |room.players| < 2 {
        assert OnStartGame(s, fd, now, random) == Step(s, [Message(fd, GameStartFail, "Za malo graczy!")]);
        SendTo(fd, GameStartFail, "Za malo graczy!");
        return;
      }
      BeginGame(rid, now);
    }

    /** The success path of `START_GAME` on room `rid`. */
    method BeginGame(rid: int, now: int)
      requires rid in rooms
      modifies this`clients, this`rooms, this`draws, this`answerTimeouts, this`lastTimeUpdate, this`outbox
      ensures Snapshot() == Game.BeginGame(old(Snapshot()), rid, now, random).state
      ensures outbox == old(outbox) + Game.BeginGame(old(Snapshot()), rid, now, random).out
    {
      var room := rooms[rid];
      room := room.(gameStarted := true, currentRound := 1);
      ResetAll(room.players);
      room := room.(playerAnswers := map[], playerVotes := map[]);
      rooms := rooms[rid := room];
      var letter := GetRandomLetter();
      var gameData := [letter] + ";" + IntToString(room.currentRound) + ";" + IntToString(room.maxRounds);
      BroadcastToRoom(rid, GameStarted, gameData);
      answerTimeouts := answerTimeouts[rid := now + AnswerSeconds];
      lastTimeUpdate := lastTimeUpdate[rid := now];
    }

    /** `clients[pid].score = 0` for each entry of `fds`. */
    method ResetAll(fds: seq<int>)
      modifies this`clients
      ensures clients == ResetScores(old(clients), fds)
    {
      for i := 0 to |fds|
        invariant clients == ResetScores(old(clients), fds[..i])
      {
        assert fds[..i + 1][..i] == fds[..i];
        clients := clients[fds[i] := At(clients, fds[i]).(score := 0)];
      }
      assert fds[..|fds|] == fds;
    }

    method HandleSubmitAnswers(fd: int, data: string)
      requires fd in clients
      modifies this`rooms, this`outbox
      ensures Snapshot() == OnSubmitAnswers(old(Snapshot()), fd, data).state
      ensures outbox == old(outbox) + OnSubmitAnswers(old(Snapshot()), fd, data).out
      ensures old(Valid()) ==> Valid()
    {
      if Valid() {
        Invariant.SubmitKeepsValid(Snapshot(), fd, data);
      }
      RecordAnswer(fd, data);
    }

    /** The answer is stored; the verification words go out once every player has answered. */
    method RecordAnswer(fd: int, data: string)
      requires fd in clients
      modifies this`rooms, this`outbox
      ensures Snapshot() == OnSubmitAnswers(old(Snapshot()), fd, data).state
      ensures outbox == old(outbox) + OnSubmitAnswers(old(Snapshot()), fd, data).out
    {
      ghost var s := Snapshot();
      var rid := clients[fd].currentRoomId;
      if rid == NoRoom {
        return;
      }
      var room := RoomAt(rooms, rid);
      room := room.(playerAnswers := room.playerAnswers[fd := data]);
      rooms := rooms[rid := room];
      ghost var s1 := s.(rooms := rooms);
      assert Snapshot() == s1;
      if |room.playerAnswers| == |room.players| {
        var payload := VerificationText(room.playerAnswers);
        assert OnSubmitAnswers(s, fd, data) == Step(s1, SendAll(room.players, VerificationStart, payload));
        BroadcastToRoom(rid, VerificationStart, payload);
      } else {
        assert OnSubmitAnswers(s, fd, data) == Step(s1, []);
      }
    }

    method HandleSendVote(fd: int, data: string, now: int)
      requires fd in clients
      modifies this`clients, this`rooms, this`answerTimeouts, this`lastTimeUpdate, this`nextRoundStartTimes, this`outbox
      ensures Snapshot() == OnSendVote(old(Snapshot()), fd, data, now).state
      ensures outbox == old(outbox) + OnSendVote(old(Snapshot()), fd, data, now).out
      ensures old(Valid()) ==> Valid()
    {
      if Valid() {
        Invariant.VoteKeepsValid(Snapshot(), fd, data, now);
      }
      var rid := clients[fd].currentRoomId;
      if rid == NoRoom {
        return;
      }
      var room := RoomAt(rooms, rid);
      room := room.(playerVotes := room.playerVotes[fd := data]);
      rooms := rooms[rid := room];
      if |room.playerVotes| == |room.players| {
        CalculateScores(rid, now);
      }
    }

    /** `calculateScores`: tally the vetoes and the accepted words, score every player, then end the round. */
    method CalculateScores(rid: int, now: int)
      requires rid in rooms
      modifies this`clients, this`rooms, this`answerTimeouts, this`lastTimeUpdate, this`nextRoundStartTimes, this`outbox
      ensures Snapshot() == Scores(old(Snapshot()), rid, now).state
      ensures outbox == old(outbox) + Scores(old(Snapshot()), rid, now).out
    {
      var roundSummary, totalSummary := AwardPoints(rid);
      CloseRound(rid, now, roundSummary, totalSummary);
    }

    /** The scoring loop of `calculateScores`: each player's points added and summarised. */
    method AwardPoints(rid: int) returns (roundSummary: string, totalSummary: string)
      requires rid in rooms
      modifies this`clients
      ensures var room := old(rooms[rid]);
        Award(old(clients), PointsTable(room), room.players) == Tally(clients, roundSummary, totalSummary)
    {
      var room := rooms[rid];
      ghost var r := ScoredRound(room);
      var vetos := TallyVetoes(room.playerVotes);
      var counts := TallyValid(room.playerAnswers, vetos, |room.players|, r);
      roundSummary, totalSummary := ScorePlayers(room, vetos, counts, r);
    }

    /** The loop over `room.players` itself, given the two tallies. */
    method ScorePlayers(room: Room, vetos: map<(int, string), nat>, counts: map<(int, string), nat>, ghost r: Round)
      returns (roundSummary: string, totalSummary: string)
      requires Tallied(room, vetos, counts, r)
      modifies this`clients
      ensures Award(old(clients), PointsTable(room), room.players) == Tally(clients, roundSummary, totalSummary)
    {
      roundSummary, totalSummary := "", "";
      for i := 0 to |room.players|
        invariant Award(old(clients), PointsTable(room), room.players[..i]) == Tally(clients, roundSummary, totalSummary)
      {
        assert room.players[..i + 1][..i] == room.players[..i];
        var points := PlayerPoints(room, vetos, counts, r, room.players[i]);
        roundSummary, totalSummary := AwardTo(room.players[i], points, roundSummary, totalSummary);
      }
      assert room.players[..|room.players|] == room.players;
    }

    /** The points of player `pid`'s answer string (`""` when it submitted none). */
    method PlayerPoints(room: Room, vetos: map<(int, string), nat>, counts: map<(int, string), nat>, ghost r: Round, pid: int)
      returns (points: nat)
      requires Tallied(room, vetos, counts, r)
      ensures points == PointsTable(room)(pid)
    {
      var answer := if pid in room.playerAnswers then room.playerAnswers[pid] else "";
      points := ScoreAnswer(answer, vetos, counts, |room.players|, r);
    }

    /** One player's points added to its score and to the two summaries. */
    method AwardTo(pid: int, points: nat, roundSummary: string, totalSummary: string) returns (round: string, total: string)
      modifies this`clients
      ensures Tally(clients, round, total) == AwardOne(Tally(old(clients), roundSummary, totalSummary), pid, points)
    {
      clients := Touch(clients, pid);
      round := roundSummary + clients[pid].nick + ":" + IntToString(points) + ";";
      clients := clients[pid := clients[pid].(score := clients[pid].score + points)];
      total := totalSummary + clients[pid].nick + ":" + IntToString(clients[pid].score) + ";";
    }

    /** The end of `calculateScores`, after the scoring loop. */
    method CloseRound(rid: int, now: int, roundSummary: string, totalSummary: string)
      requires rid in rooms
      modifies this`clients, this`rooms, this`answerTimeouts, this`lastTimeUpdate, this`nextRoundStartTimes, this`outbox
      ensures Snapshot() == Game.CloseRound(old(Snapshot()), rid, now, roundSummary, totalSummary).state
      ensures outbox == old(outbox) + Game.CloseRound(old(Snapshot()), rid, now, roundSummary, totalSummary).out
    {
      ghost var roundEnd := SendAll(rooms[rid].players, RoundEnd, roundSummary);
      BroadcastToRoom(rid, RoundEnd, roundSummary);
      var room := rooms[rid].(playerAnswers := map[], playerVotes := map[]);
      rooms := rooms[rid := room];
      if room.currentRound < room.maxRounds {
        nextRoundStartTimes := nextRoundStartTimes[rid := now + BreakSeconds];
      } else {
        ghost var gameEnd := SendAll(room.players, GameEnd, totalSummary);
        BroadcastToRoom(rid, GameEnd, totalSummary);
        SeqAssoc(old(outbox), roundEnd, gameEnd);
        EvictAll(room.players);
        rooms := rooms - {rid};
        answerTimeouts := answerTimeouts - {rid};
        lastTimeUpdate := lastTimeUpdate - {rid};
        nextRoundStartTimes := nextRoundStartTimes - {rid};
      }
    }

    /** `clients[pid].currentRoomId = -1` for each entry of `fds`. */
    method EvictAll(fds: seq<int>)
      modifies this`clients
      ensures clients == Evict(old(clients), fds)
    {
      for i := 0 to |fds|
        invariant clients == Evict(old(clients), fds[..i])
      {
        assert fds[..i + 1][..i] == fds[..i];
        clients := clients[fds[i] := At(clients, fds[i]).(currentRoomId := NoRoom)];
      }
      assert fds[..|fds|] == fds;
    }

    /**
     * The departure shared by `LEAVE_ROOM` and `handleDisconnect`: socket `fd`
     * (called `nick`) is taken out of room `rid`, and the others are told.
     */
    method RemoveFromRoom(fd: int, rid: int, nick: string)
      requires rid in rooms
      modifies this`clients, this`rooms, this`outbox
      ensures Snapshot() == Depart(old(Snapshot()), fd, rid, nick).state
      ensures outbox == old(outbox) + Depart(old(Snapshot()), fd, rid, nick).out
    {
      if fd == rooms[rid].hostFd {
        HostLeaves(fd, rid);
      } else {
        PlayerLeaves(fd, rid, nick);
      }
    }

    method HostLeaves(fd: int, rid: int)
      requires rid in rooms
      modifies this`clients, this`rooms, this`outbox
      ensures Snapshot() == HostDeparts(old(Snapshot()), fd, rid).state
      ensures outbox == old(outbox) + HostDeparts(old(Snapshot()), fd, rid).out
    {
      var room := rooms[rid];
      EvictNotify(Without(room.players, fd));
      rooms := rooms - {rid};
    }

    /** The host-departure loop: each remaining player is taken out of the room and sent `HOST_LEFT`. */
    method EvictNotify(players: seq<int>)
      modifies this`clients, this`outbox
      ensures clients == Evict(old(clients), players)
      ensures outbox == old(outbox) + SendAll(players, HostLeft, "")
    {
      for i := 0 to |players|
        invariant clients == Evict(old(clients), players[..i])
        invariant outbox == old(outbox) + SendAll(players[..i], HostLeft, "")
      {
        assert players[..i + 1][..i] == players[..i];
        var pid := players[i];
        clients := clients[pid := At(clients, pid).(currentRoomId := NoRoom)];
        SendTo(pid, HostLeft, "");
        SeqAssoc(old(outbox), SendAll(players[..i], HostLeft, ""), [Message(pid, HostLeft, "")]);
      }
      assert players[..|players|] == players;
    }

    method PlayerLeaves(fd: int, rid: int, nick: string)
      requires rid in rooms
      modifies this`rooms, this`outbox
      ensures Snapshot() == PlayerDeparts(old(Snapshot()), fd, rid, nick).state
      ensures outbox == old(outbox) + PlayerDeparts(old(Snapshot()), fd, rid, nick).out
    {
      var room := rooms[rid];
      var players := Without(room.players, fd);
      room := room.(players := players, playerAnswers := room.playerAnswers - {fd}, playerVotes := room.playerVotes - {fd});
      rooms := rooms[rid := room];
      SendEach(players, PlayerLeft, nick);
      if players == [] {
        rooms := rooms - {rid};
      }
    }

    method HandleLeaveRoom(fd: int)
      requires fd in clients
      modifies this`clients, this`rooms, this`outbox
      ensures Snapshot() == OnLeaveRoom(old(Snapshot()), fd).state
      ensures outbox == old(outbox) + OnLeaveRoom(old(Snapshot()), fd).out
      ensures old(Valid()) ==> Valid()
    {
      if Valid() {
        Invariant.LeaveKeepsValid(Snapshot(), fd);
      }
      var rid := clients[fd].currentRoomId;
      if rid == NoRoom || rid !in rooms {
        return;
      }
      var nick := clients[fd].nick;
      clients := clients[fd := clients[fd].(currentRoomId := NoRoom)];
      RemoveFromRoom(fd, rid, nick);
    }

    /** `processMessage`: dispatch one frame on its type byte; an unknown type is only logged. */
    method ProcessMessage(fd: int, tag: Byte, body: seq<Byte>, now: int)
      requires fd in clients
      modifies this`clients, this`rooms, this`nextRoomId, this`answerTimeouts, this`lastTimeUpdate
      modifies this`nextRoundStartTimes, this`draws, this`outbox
      ensures Snapshot() == Process(old(Snapshot()), fd, tag, body, now, random).state
      ensures outbox == old(outbox) + Process(old(Snapshot()), fd, tag, body, now, random).out
      ensures old(Valid()) ==> Valid()
    {
      if Valid() {
        Invariant.ProcessKeepsValid(Snapshot(), fd, tag, body, now, random);
      }
      var data := BytesString(body);
      match FromTag(tag) {
        case Some(Login) => HandleLogin(fd, data);
        case Some(CreateRoom) => HandleCreateRoom(fd, data);
        case Some(GetRoomList) => HandleGetRoomList(fd);
        case Some(JoinRoom) => HandleJoinRoom(fd, data);
        case Some(StartGame) => HandleStartGame(fd, now);
        case Some(SubmitAnswers) => HandleSubmitAnswers(fd, data);
        case Some(SendVote) => HandleSendVote(fd, data, now);
        case Some(LeaveRoom) => HandleLeaveRoom(fd);
        case _ =>
      }
    }

    // -------------------------------------------------------------------
    // Connections

    /** A new connection from `accept`; a negative socket is a failed accept and changes nothing. */
    method Accept(fd: int)
      modifies this`clients
      ensures Snapshot() == OnAccept(old(Snapshot()), fd)
      ensures old(Valid()) ==> Valid()
    {
      if old(Valid()) {
        Invariant.AcceptKeepsValid(old(Snapshot()), fd);
      }
      if fd >= 0 {
        clients := clients[fd := NewClient];
      }
    }

    method HandleDisconnect(fd: int)
      modifies this`clients, this`rooms, this`outbox
      ensures Snapshot() == OnDisconnect(old(Snapshot()), fd).state
      ensures outbox == old(outbox) + OnDisconnect(old(Snapshot()), fd).out
      ensures old(Valid()) ==> Valid()
    {
      if Valid() {
        Invariant.DisconnectKeepsValid(Snapshot(), fd);
      }
      clients := Touch(clients, fd);
      var rid := clients[fd].currentRoomId;
      if rid != NoRoom && rid in rooms {
        RemoveFromRoom(fd, rid, clients[fd].nick);
      }
      clients := clients - {fd};
    }

    /**
     * `handleInput` after a read of `bytes`: an empty read is a disconnect;
     * otherwise the bytes are appended to the receive buffer and every whole
     * frame at its front is taken off and dispatched, in order.
     */
    method HandleInput(fd: int, bytes: seq<Byte>, now: int)
      modifies this`clients, this`rooms, this`nextRoomId, this`answerTimeouts, this`lastTimeUpdate
      modifies this`nextRoundStartTimes, this`draws, this`outbox, this`dispatched
      ensures Snapshot() == OnInput(old(Snapshot()), fd, bytes, now, random).state
      ensures outbox == old(outbox) + OnInput(old(Snapshot()), fd, bytes, now, random).out
      ensures dispatched == old(dispatched)
        + if bytes == [] then [] else Tagged(fd, Deframe(At(old(clients), fd).incomingBuffer + bytes).0)
      ensures old(Valid()) ==> Valid()
    {
      if Valid() {
        Invariant.InputKeepsValid(Snapshot(), fd, bytes, now, random);
      }
      if bytes == [] {
        HandleDisconnect(fd);
        return;
      }
      clients := Touch(clients, fd);
      var buffer := clients[fd].incomingBuffer + bytes;
      ghost var touched := Snapshot();
      clients := clients[fd := clients[fd].(incomingBuffer := buffer)];
      assert Snapshot() == Buffered(touched, fd, buffer);
      ReceiveRebuffered(touched, fd, buffer, buffer, now, random);
      DrainFrames(fd, buffer, now);
    }

    /** The framing loop of `handleInput` over socket `fd`'s buffer, which holds `buffer`. */
    method DrainFrames(fd: int, buffer: seq<Byte>, now: int)
      requires fd in clients && clients[fd].incomingBuffer == buffer
      modifies this`clients, this`rooms, this`nextRoomId, this`answerTimeouts, this`lastTimeUpdate
      modifies this`nextRoundStartTimes, this`draws, this`outbox, this`dispatched
      ensures Snapshot() == Receive(old(Snapshot()), fd, buffer, now, random).state
      ensures outbox == old(outbox) + Receive(old(Snapshot()), fd, buffer, now, random).out
      ensures dispatched == old(dispatched) + Tagged(fd, Deframe(buffer).0)
    {
      ghost var start := Snapshot();
      assert Buffered(start, fd, buffer).clients == start.clients;
      PendingDeframe(buffer);
      TakeFrames(fd, buffer, now);
    }

    /** The loop itself: each decode of `buffer`, in order, taken off and dispatched. */
    method TakeFrames(fd: int, buffer: seq<Byte>, now: int)
      requires fd in clients
      modifies this`clients, this`rooms, this`nextRoomId, this`answerTimeouts, this`lastTimeUpdate
      modifies this`nextRoundStartTimes, this`draws, this`outbox, this`dispatched
      ensures Snapshot() == Dispatch(old(Snapshot()), fd, Pending(buffer), now, random).state
      ensures outbox == old(outbox) + Dispatch(old(Snapshot()), fd, Pending(buffer), now, random).out
      ensures dispatched == old(dispatched) + Tagged(fd, Contents(Pending(buffer)))
    {
      ghost var start := Snapshot();
      ghost var ds := Pending(buffer);
      ghost var i := 0;
      var buf := buffer;
      while true
        invariant 0 <= i <= |ds| && Pending(buf) == ds[i..]
        invariant Snapshot() == Dispatch(start, fd, ds[..i], now, random).state
        invariant outbox == old(outbox) + Dispatch(start, fd, ds[..i], now, random).out
        invariant dispatched == old(dispatched) + Tagged(fd, Contents(ds)[..i])
        decreases |buf|
      {
        var found, tag, body, rest := NextFrame(buf);
        if !found {
          break;
        }
        Advance(fd, start, ds, i, old(outbox), old(dispatched), buf, tag, body, rest, now);
        i, buf := i + 1, rest;
      }
      assert i == |ds| && ds[..i] == ds && Contents(ds)[..i] == Contents(ds);
    }

    /** One pass of the framing loop: the frame at the front of `buf`, the `i`-th decode of the buffer, dispatched. */
    method Advance(fd: int, ghost start: State, ghost ds: seq<Decoded>, ghost i: nat, ghost sent: seq<Message>,
                   ghost seen: seq<(int, Byte, seq<Byte>)>, ghost buf: seq<Byte>, tag: Byte, body: seq<Byte>, rest: seq<Byte>,
                   now: int)
      requires fd in start.clients && i <= |ds| && Pending(buf) == ds[i..]
      requires TryDecode(buf) == Some(Decoded(tag, body, rest))
      requires Snapshot() == Dispatch(start, fd, ds[..i], now, random).state
      requires outbox == sent + Dispatch(start, fd, ds[..i], now, random).out
      requires dispatched == seen + Tagged(fd, Contents(ds)[..i])
      modifies this`clients, this`rooms, this`nextRoomId, this`answerTimeouts, this`lastTimeUpdate
      modifies this`nextRoundStartTimes, this`draws, this`outbox, this`dispatched
      ensures i < |ds| && Pending(rest) == ds[i + 1..]
      ensures Snapshot() == Dispatch(start, fd, ds[..i + 1], now, random).state
      ensures outbox == sent + Dispatch(start, fd, ds[..i + 1], now, random).out
      ensures dispatched == seen + Tagged(fd, Contents(ds)[..i + 1])
    {
      PendingFront(buf, Decoded(tag, body, rest));
      Uncons(ds, i, Decoded(tag, body, rest), Pending(rest));
      TaggedSnoc(fd, Contents(ds), i);
      ghost var a := Dispatch(start, fd, ds[..i], now, random);
      ghost var p := Process(Buffered(a.state, fd, rest), fd, tag, body, now, random);
      DispatchSnoc(start, fd, ds, i, now, random);
      TakeFrame(fd, tag, body, rest, now);
      SeqAssoc(sent, a.out, p.out);
    }

    /**
     * The checks at the top of the framing loop: a whole header, then the
     * whole announced body; `found` when both are there.
     */
    method NextFrame(buf: seq<Byte>) returns (found: bool, tag: Byte, body: seq<Byte>, rest: seq<Byte>)
      ensures found <==> TryDecode(buf).Some?
      ensures found ==> TryDecode(buf) == Some(Decoded(tag, body, rest))
    {
      found, tag, body, rest := false, 0, [], buf;
      if |buf| < HeaderSize {
        return;
      }
      var len := ReadBigEndian32(buf[1..HeaderSize]);
      if |buf| < HeaderSize + len {
        return;
      }
      found, tag, body, rest := true, buf[0], buf[HeaderSize..HeaderSize + len], buf[HeaderSize + len..];
    }

    /** One whole frame taken off the front of socket `fd`'s buffer, leaving `rest`, and dispatched. */
    method TakeFrame(fd: int, tag: Byte, body: seq<Byte>, rest: seq<Byte>, now: int)
      requires fd in clients
      modifies this`clients, this`rooms, this`nextRoomId, this`answerTimeouts, this`lastTimeUpdate
      modifies this`nextRoundStartTimes, this`draws, this`outbox, this`dispatched
      ensures Snapshot() == Process(Buffered(old(Snapshot()), fd, rest), fd, tag, body, now, random).state
      ensures outbox == old(outbox) + Process(Buffered(old(Snapshot()), fd, rest), fd, tag, body, now, random).out
      ensures dispatched == old(dispatched) + [(fd, tag, body)]
    {
      clients := clients[fd := clients[fd].(incomingBuffer := rest)];
      dispatched := dispatched + [(fd, tag, body)];
      ProcessMessage(fd, tag, body, now);
    }

    // -------------------------------------------------------------------
    // The timer passes of run()

    /** One deadline of the `TIME_UP` pass. */
    method ExpireRoom(rid: int, now: int)
      modifies this`answerTimeouts, this`outbox
      ensures Snapshot() == ExpireStep(old(Snapshot()), rid, now).state
      ensures outbox == old(outbox) + ExpireStep(old(Snapshot()), rid, now).out
    {
      if rid in answerTimeouts && rid in rooms && rooms[rid].gameStarted && now > answerTimeouts[rid] {
        BroadcastToRoom(rid, TimeUp, "");
        answerTimeouts := answerTimeouts - {rid};
      }
    }

    /** `TIME_UP` to each started room whose deadline has passed; its deadline is dropped. */
    method ExpireAnswers(now: int)
      modifies this`answerTimeouts, this`outbox
      ensures Snapshot() == ExpireAll(old(Snapshot()), KeysInOrder(old(answerTimeouts).Keys), now).state
      ensures outbox == old(outbox) + ExpireAll(old(Snapshot()), KeysInOrder(old(answerTimeouts).Keys), now).out
    {
      var ids := KeysInOrder(answerTimeouts.Keys);
      ghost var start := Snapshot();
      for i := 0 to |ids|
        invariant Snapshot() == ExpireAll(start, ids[..i], now).state
        invariant outbox == old(outbox) + ExpireAll(start, ids[..i], now).out
      {
        ExpireAllSnoc(start, ids, i, now);
        ghost var a := ExpireAll(start, ids[..i], now);
        ExpireRoom(ids[i], now);
        SeqAssoc(old(outbox), a.out, ExpireStep(a.state, ids[i], now).out);
      }
      assert ids[..|ids|] == ids;
    }

    /** One room of the `TIME_LEFT` pass. */
    method AnnounceRoom(rid: int, now: int)
      modifies this`lastTimeUpdate, this`outbox
      ensures Snapshot() == AnnounceStep(old(Snapshot()), rid, now).state
      ensures outbox == old(outbox) + AnnounceStep(old(Snapshot()), rid, now).out
    {
      if rid in answerTimeouts && rid in rooms && rooms[rid].gameStarted {
        var remaining := answerTimeouts[rid] - now;
        if remaining > 0 {
          var last := TimeAt(lastTimeUpdate, rid);
          lastTimeUpdate := lastTimeUpdate[rid := last];
          if now - last >= 1 {
            BroadcastToRoom(rid, TimeLeft, IntToString(remaining));
            lastTimeUpdate := lastTimeUpdate[rid := now];
          }
        }
      }
    }

    /** `TIME_LEFT` with the seconds remaining, at most once a second per started room. */
    method AnnounceTimeLeft(now: int)
      modifies this`lastTimeUpdate, this`outbox
      ensures Snapshot() == AnnounceAll(old(Snapshot()), KeysInOrder(old(answerTimeouts).Keys), now).state
      ensures outbox == old(outbox) + AnnounceAll(old(Snapshot()), KeysInOrder(old(answerTimeouts).Keys), now).out
    {
      var ids := KeysInOrder(answerTimeouts.Keys);
      ghost var start := Snapshot();
      for i := 0 to |ids|
        invariant Snapshot() == AnnounceAll(start, ids[..i], now).state
        invariant outbox == old(outbox) + AnnounceAll(start, ids[..i], now).out
      {
        AnnounceAllSnoc(start, ids, i, now);
        ghost var a := AnnounceAll(start, ids[..i], now);
        AnnounceRoom(ids[i], now);
        SeqAssoc(old(outbox), a.out, AnnounceStep(a.state, ids[i], now).out);
      }
      assert ids[..|ids|] == ids;
    }

    /** One entry `(rid, startAt)` of the next-round pass. */
    method StartRound(rid: int, startAt: int, now: int)
      modifies this`rooms, this`draws, this`answerTimeouts, this`lastTimeUpdate, this`nextRoundStartTimes, this`outbox
      ensures Snapshot() == RoundStep(old(Snapshot()), rid, startAt, now, random).state
      ensures outbox == old(outbox) + RoundStep(old(Snapshot()), rid, startAt, now, random).out
    {
      if rid !in rooms {
        nextRoundStartTimes := nextRoundStartTimes - {rid};
        return;
      }
      if now >= startAt {
        BeginRound(rid, now);
      }
    }

    /** A due round begins: the round counter advances and `GAME_STARTED` goes out with a fresh letter. */
    method BeginRound(rid: int, now: int)
      requires rid in rooms
      modifies this`rooms, this`draws, this`answerTimeouts, this`lastTimeUpdate, this`nextRoundStartTimes, this`outbox
      ensures Snapshot() == RoundStep(old(Snapshot()), rid, now, now, random).state
      ensures outbox == old(outbox) + RoundStep(old(Snapshot()), rid, now, now, random).out
    {
      rooms := rooms[rid := rooms[rid].(currentRound := rooms[rid].currentRound + 1)];
      var letter := GetRandomLetter();
      var room := rooms[rid];
      var text := [letter] + ";" + IntToString(room.currentRound) + ";" + IntToString(room.maxRounds);
      assert text == RoundText(letter, room.currentRound, room.maxRounds);
      BroadcastToRoom(rid, GameStarted, text);
      answerTimeouts := answerTimeouts[rid := now + AnswerSeconds];
      lastTimeUpdate := lastTimeUpdate[rid := now];
      nextRoundStartTimes := nextRoundStartTimes - {rid};
    }

    /** The next-round pass: entries of vanished rooms are dropped, due rounds are started. */
    method StartDueRounds(now: int)
      modifies this`rooms, this`draws, this`answerTimeouts, this`lastTimeUpdate, this`nextRoundStartTimes, this`outbox
      ensures Snapshot() == RoundsAll(old(Snapshot()), Schedule(old(nextRoundStartTimes)), now, random).state
      ensures outbox == old(outbox) + RoundsAll(old(Snapshot()), Schedule(old(nextRoundStartTimes)), now, random).out
    {
      var entries := Schedule(nextRoundStartTimes);
      ghost var start := Snapshot();
      for i := 0 to |entries|
        invariant Snapshot() == RoundsAll(start, entries[..i], now, random).state
        invariant outbox == old(outbox) + RoundsAll(start, entries[..i], now, random).out
      {
        RoundsAllSnoc(start, entries, i, now, random);
        ghost var a := RoundsAll(start, entries[..i], now, random);
        StartRound(entries[i].0, entries[i].1, now);
        SeqAssoc(old(outbox), a.out, RoundStep(a.state, entries[i].0, entries[i].1, now, random).out);
      }
      assert entries[..|entries|] == entries;
    }

    /** The timer section of one pass of the event loop, at time `now`. */
    method Tick(now: int)
      modifies this`rooms, this`draws, this`answerTimeouts, this`lastTimeUpdate, this`nextRoundStartTimes, this`outbox
      ensures Snapshot() == Game.Tick(old(Snapshot()), now, random).state
      ensures outbox == old(outbox) + Game.Tick(old(Snapshot()), now, random).out
      ensures old(Valid()) ==> Valid()
    {
      if Valid() {
        Invariant.TickKeepsValid(Snapshot(), now, random);
      }
      ghost var s := Snapshot();
      ghost var e := ExpireAll(s, KeysInOrder(s.answerTimeouts.Keys), now);
      ExpireAnswers(now);
      ghost var a := AnnounceAll(e.state, KeysInOrder(e.state.answerTimeouts.Keys), now);
      AnnounceTimeLeft(now);
      ghost var n := RoundsAll(a.state, Schedule(a.state.nextRoundStartTimes), now, random);
      StartDueRounds(now);
      assert Game.Tick(s, now, random) == Step(n.state, e.out + a.out + n.out);
      SeqAssoc(old(outbox) + e.out, a.out, n.out);
      SeqAssoc(old(outbox), e.out, a.out);
      SeqAssoc(old(outbox), e.out + a.out, n.out);
    }
  }
}
