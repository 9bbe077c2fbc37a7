/**
 * What each event promises to the clients and to the state, stated outright
 * in terms of the state before it: who is answered and with what, which
 * entries change, and what the timer passes leave behind.
 */
module Events {
  import opened Options
  import opened Protocol
  import opened Text
  import opened Lobby
  import opened Game
  import Scoring
  import Invariant

  // ---------------------------------------------------------------------
  // The lobby

  /**
   * `LOGIN` succeeds exactly when no client, the sender included, has that
   * nick; on success only the sender's nick changes, on failure nothing does.
   */
  lemma LoginOutcome(s: State, fd: int, nick: string)
    requires fd in s.clients
    ensures var r := OnLogin(s, fd, nick);
      |r.out| == 1 && r.out[0].fd == fd &&
      (r.out[0].kind == LoginOk <==> forall k :: k in s.clients ==> s.clients[k].nick != nick)
    ensures var r := OnLogin(s, fd, nick);
      r.out[0].kind == LoginOk ==>
        && r.state == s.(clients := r.state.clients)
        && r.state.clients.Keys == s.clients.Keys
        && r.state.clients[fd] == s.clients[fd].(nick := nick)
        && forall k :: k in s.clients && k != fd ==> r.state.clients[k] == s.clients[k]
    ensures var r := OnLogin(s, fd, nick);
      r.out[0].kind != LoginOk ==> r.out[0].kind == LoginFail && r.state == s
  {
  }

  /** A valid state has no room numbered `nextRoomId` or above. */
  lemma RoomIdsBelowNext(s: State)
    requires Valid(s)
    ensures forall id :: id in s.rooms ==> 1 <= id < s.nextRoomId
  {
    forall id | id in s.rooms ensures 1 <= id < s.nextRoomId {
      assert RoomWellFormed(s.rooms[id], id, s.nextRoomId);
    }
  }

  /**
   * `CREATE_ROOM`: ignored without a nick; refused, with nothing changed, when
   * the name is taken; otherwise a fresh room numbered `nextRoomId` is created
   * with the sender as host and only player, and the sender is seated there.
   */
  lemma CreateOutcome(s: State, fd: int, name: string)
    requires fd in s.clients
    ensures s.clients[fd].nick == "" ==> OnCreateRoom(s, fd, name) == Step(s, [])
    ensures s.clients[fd].nick != "" && NameInUse(s.rooms, name) ==>
      OnCreateRoom(s, fd, name) == Step(s, [Message(fd, CreateRoomFail, "Nazwa pokoju jest zajeta!")])
    ensures s.clients[fd].nick != "" && !NameInUse(s.rooms, name) ==>
      var r := OnCreateRoom(s, fd, name);
      var id := s.nextRoomId;
      && r.out == [Message(fd, CreateRoomOk, name)]
      && r.state == s.(clients := s.clients[fd := s.clients[fd].(currentRoomId := id)],
                       rooms := s.rooms[id := Room(id, name, fd, [fd], false, map[], map[], 0, 3)],
                       nextRoomId := id + 1)
    ensures Valid(s) && s.clients[fd].nick != "" && !NameInUse(s.rooms, name) ==>
      var r := OnCreateRoom(s, fd, name);
      s.nextRoomId !in s.rooms && r.state.rooms.Keys == s.rooms.Keys + {s.nextRoomId}
  {
    if Valid(s) {
      RoomIdsBelowNext(s);
    }
  }

  /** The player list of a `JOIN_ROOM_OK` reads only the nicks. */
  lemma {:induction false} NickListSameNicks(a: map<int, Client>, b: map<int, Client>, fds: seq<int>)
    requires forall k :: k in fds ==> At(a, k).nick == At(b, k).nick
    ensures NickList(a, fds) == NickList(b, fds)
  {
    if fds != [] {
      NickListSameNicks(a, b, fds[..|fds| - 1]);
      assert fds[|fds| - 1] in fds;
    }
  }

  /**
   * `JOIN_ROOM`: refused, with nothing changed, when no room of that name is
   * waiting; otherwise the sender joins the waiting room of that name with the
   * smallest id: it is appended to the player list, is seated there, is told
   * the room name and the nicks of the whole list, and every other entry of
   * the list is told its nick.
   */
  lemma JoinOutcome(s: State, fd: int, name: string)
    requires fd in s.clients
    ensures (forall id :: id in s.rooms ==> !IsOpen(s.rooms[id], name)) ==>
      OnJoinRoom(s, fd, name) == Step(s, [Message(fd, JoinRoomFail, "Brak pokoju o takiej nazwie")])
    ensures LeastOpen(s.rooms, name).Some? ==>
      var id := LeastOpen(s.rooms, name).value;
      var r := OnJoinRoom(s, fd, name);
      var players := s.rooms[id].players + [fd];
      && r.state == s.(clients := r.state.clients, rooms := s.rooms[id := s.rooms[id].(players := players)])
      && r.state.clients.Keys == s.clients.Keys + Members(players)
      && (forall k :: k in r.state.clients ==>
            r.state.clients[k] == if k == fd then s.clients[fd].(currentRoomId := id) else At(s.clients, k))
      && r.out == [Message(fd, JoinRoomOk, name + ";" + NickList(s.clients, players))]
                  + NotifyOthers(players, fd, NewPlayerJoined, s.clients[fd].nick)
  {
    match LeastOpen(s.rooms, name)
    case None =>
    case Some(id) =>
      var t := Seat(s, fd, id);
      var players := s.rooms[id].players + [fd];
      NickListSameNicks(t.clients, s.clients, players);
      assert fd in players;
  }

  // ---------------------------------------------------------------------
  // A game

  /** The `GAME_STARTED` payload splits on `;` into the letter, the round and the number of rounds. */
  lemma RoundTextSplits(random: nat -> nat, n: nat, round: int, rounds: int)
    ensures Tokens(RoundText(Letter(random, n), round, rounds), ';')
      == [[Letter(random, n)], IntToString(round), IntToString(rounds)]
  {
    var a, b := IntToString(round), IntToString(rounds);
    var x := [Letter(random, n)] + ";";
    var ts := [[Letter(random, n)], a, b];
    Scoring.IntToStringHasNoSeparator(round);
    Scoring.IntToStringHasNoSeparator(rounds);
    assert ts[1..][1..] == [b];
    assert Join(ts[1..], ';') == a + ";" + b;
    assert Join(ts, ';') == x + (a + ";" + b);
    SeqAssoc(x, a + ";", b);
    SeqAssoc(x, a, ";");
    assert forall t :: t in ts ==> t == ts[0] || t == ts[1] || t == ts[2];
    TokensOfJoin(ts, ';');
  }

  /**
   * `START_GAME` is ignored outside a room, and refused, with nothing changed,
   * to anyone but the host and to a host alone in the room.
   */
  lemma StartRefused(s: State, fd: int, now: int, random: nat -> nat)
    requires fd in s.clients
    ensures var rid := s.clients[fd].currentRoomId;
      (rid == NoRoom || rid !in s.rooms) ==> OnStartGame(s, fd, now, random) == Step(s, [])
    ensures var rid := s.clients[fd].currentRoomId; var r := OnStartGame(s, fd, now, random);
      rid != NoRoom && rid in s.rooms && (s.rooms[rid].hostFd != fd || |s.rooms[rid].players| < 2) ==>
        r.state == s && |r.out| == 1 && r.out[0].fd == fd && r.out[0].kind == GameStartFail
  {
  }

  /**
   * A `START_GAME` the host sends with company begins round 1: the game is
   * marked started with no answers or votes, every player's score is 0 and
   * no other client changes, one letter is drawn and every player is sent
   * `letter;1;rounds` (`rounds` is 3 in a valid state), the answer deadline
   * is thirty seconds away and the last announcement is now; the next-round
   * schedule and the room counter stay.
   */
  lemma StartBegins(s: State, fd: int, now: int, random: nat -> nat)
    requires fd in s.clients
    requires var rid := s.clients[fd].currentRoomId;
      rid != NoRoom && rid in s.rooms && s.rooms[rid].hostFd == fd && |s.rooms[rid].players| >= 2
    ensures var rid := s.clients[fd].currentRoomId; var r := OnStartGame(s, fd, now, random);
      var room := s.rooms[rid].(gameStarted := true, currentRound := 1, playerAnswers := map[], playerVotes := map[]);
      && r.state == s.(clients := r.state.clients, rooms := s.rooms[rid := room], draws := s.draws + 1,
                       answerTimeouts := s.answerTimeouts[rid := now + 30], lastTimeUpdate := s.lastTimeUpdate[rid := now])
      && r.state.clients.Keys == s.clients.Keys + Members(room.players)
      && (forall k :: k in r.state.clients ==>
            r.state.clients[k] == if k in room.players then At(s.clients, k).(score := 0) else s.clients[k])
      && r.out == SendAll(room.players, GameStarted, RoundText(Letter(random, s.draws), 1, room.maxRounds))
      && Tokens(r.out[0].data, ';') == [[Letter(random, s.draws)], "1", IntToString(room.maxRounds)]
      && (Valid(s) ==> room.maxRounds == 3)
  {
    var rid := s.clients[fd].currentRoomId;
    var room := s.rooms[rid];
    ResetScoresSpec(s.clients, room.players);
    RoundTextSplits(random, s.draws, 1, room.maxRounds);
    assert IntToString(1) == "1";
    if Valid(s) {
      assert RoomWellFormed(room, rid, s.nextRoomId);
    }
  }

  /**
   * `SUBMIT_ANSWERS` from a client in a room records its answer; the
   * verification words go to every player exactly when the last answer is in.
   */
  lemma SubmitOutcome(s: State, fd: int, data: string)
    requires fd in s.clients && s.clients[fd].currentRoomId != NoRoom
    ensures var rid := s.clients[fd].currentRoomId; var r := OnSubmitAnswers(s, fd, data);
      var room := r.state.rooms[rid];
      && r.state == s.(rooms := s.rooms[rid := room])
      && room.playerAnswers == RoomAt(s.rooms, rid).playerAnswers[fd := data]
      && room.players == RoomAt(s.rooms, rid).players
      && (r.out != [] <==> |room.playerAnswers| == |room.players| && room.players != [])
      && (r.out != [] ==>
            r.out == SendAll(room.players, VerificationStart, VerificationPayload(Values(room.playerAnswers))))
  {
    var rid := s.clients[fd].currentRoomId;
    var was := RoomAt(s.rooms, rid);
    var room := was.(playerAnswers := was.playerAnswers[fd := data]);
    var r := OnSubmitAnswers(s, fd, data);
    assert r.state == s.(rooms := s.rooms[rid := room]);
    if |room.playerAnswers| == |room.players| {
      var out := SendAll(room.players, VerificationStart, VerificationPayload(Values(room.playerAnswers)));
      assert r.out == out && |out| == |room.players|;
    } else {
      assert r.out == [];
    }
  }

  /**
   * `calculateScores` on room `rid`: every client gains its round points once
   * per entry in the player list, the players are sent the round summary
   * (`nick:points;` per entry), and then either the answers and votes are
   * cleared and the next round is due in five seconds, or, after the last
   * round, the totals (`nick:score;` per entry) go out, the players are back
   * in the lobby and the room and its timers are gone.
   */
  lemma ScoresOutcome(s: State, rid: int, now: int)
    requires rid in s.rooms
    ensures var room := s.rooms[rid]; var r := Scores(s, rid, now);
      var last := room.currentRound >= room.maxRounds;
      && r.state.clients.Keys == s.clients.Keys + Members(room.players)
      && (forall k :: k in r.state.clients ==>
            r.state.clients[k].score == At(s.clients, k).score + Scoring.Count(room.players, k) * PointsOf(room, k))
      && forall k :: k in r.state.clients ==>
           r.state.clients[k] == At(s.clients, k).(
             score := r.state.clients[k].score,
             currentRoomId := if last && k in room.players then NoRoom else At(s.clients, k).currentRoomId)
    ensures var room := s.rooms[rid]; var r := Scores(s, rid, now);
      var tally := Award(s.clients, PointsTable(room), room.players);
      room.currentRound < room.maxRounds ==>
        && r.state == s.(clients := r.state.clients,
                         rooms := s.rooms[rid := room.(playerAnswers := map[], playerVotes := map[])],
                         nextRoundStartTimes := s.nextRoundStartTimes[rid := now + 5])
        && r.out == SendAll(room.players, RoundEnd, tally.roundSummary)
    ensures var room := s.rooms[rid]; var r := Scores(s, rid, now);
      var tally := Award(s.clients, PointsTable(room), room.players);
      room.currentRound >= room.maxRounds ==>
        && r.state == s.(clients := r.state.clients, rooms := s.rooms - {rid},
                         answerTimeouts := s.answerTimeouts - {rid}, lastTimeUpdate := s.lastTimeUpdate - {rid},
                         nextRoundStartTimes := s.nextRoundStartTimes - {rid})
        && r.out == SendAll(room.players, RoundEnd, tally.roundSummary) + SendAll(room.players, GameEnd, tally.totalSummary)
    ensures var room := s.rooms[rid];
      var tally := Award(s.clients, PointsTable(room), room.players);
      && tally.roundSummary == Terminated(RoundEntries(s.clients, PointsTable(room), room.players), ';')
      && tally.totalSummary == Terminated(TotalEntries(s.clients, PointsTable(room), room.players), ';')
  {
    var room := s.rooms[rid];
    var points := PointsTable(room);
    var tally := Award(s.clients, points, room.players);
    RoundSummaryIs(s.clients, points, room.players);
    TotalSummaryIs(s.clients, points, room.players);
    var t := s.(clients := tally.clients);
    var r := CloseRound(t, rid, now, tally.roundSummary, tally.totalSummary);
    assert Scores(s, rid, now) == r;
    AwardScores(s.clients, points, room.players);
    CloseRoundOutcome(t, rid, now, tally.roundSummary, tally.totalSummary);
    var last := room.currentRound >= room.maxRounds;
    forall k | k in r.state.clients
      ensures r.state.clients[k].score == At(s.clients, k).score + Scoring.Count(room.players, k) * PointsOf(room, k)
      ensures r.state.clients[k] == At(s.clients, k).(
        score := r.state.clients[k].score,
        currentRoomId := if last && k in room.players then NoRoom else At(s.clients, k).currentRoomId)
    {
      assert k in tally.clients;
      assert points(k) == PointsOf(room, k);
    }
  }

  /** A map entry written twice holds the second value. */
  lemma UpdateTwice<K, V>(m: map<K, V>, k: K, v: V, w: V)
    ensures m[k := v][k := w] == m[k := w]
  {
  }

  /** Removing a key undoes writing it. */
  lemma RemoveUpdated<K, V>(m: map<K, V>, k: K, v: V)
    ensures m[k := v] - {k} == m - {k}
  {
  }

  /**
   * `SEND_VOTE` is ignored outside a room. In a room it records the vote;
   * until the last vote is in nothing else happens, and the last vote has
   * the room scored as `ScoresOutcome` says.
   */
  lemma VoteOutcome(s: State, fd: int, data: string, now: int)
    requires fd in s.clients
    ensures s.clients[fd].currentRoomId == NoRoom ==> OnSendVote(s, fd, data, now) == Step(s, [])
    ensures var rid := s.clients[fd].currentRoomId;
      var was := RoomAt(s.rooms, rid);
      var room := was.(playerVotes := was.playerVotes[fd := data]);
      rid != NoRoom && |room.playerVotes| != |room.players| ==>
        OnSendVote(s, fd, data, now) == Step(s.(rooms := s.rooms[rid := room]), [])
    ensures var rid := s.clients[fd].currentRoomId;
      var was := RoomAt(s.rooms, rid);
      var room := was.(playerVotes := was.playerVotes[fd := data]);
      var r := OnSendVote(s, fd, data, now);
      var last := room.currentRound >= room.maxRounds;
      var tally := Award(s.clients, PointsTable(room), room.players);
      rid != NoRoom && |room.playerVotes| == |room.players| ==>
        && r.state.clients.Keys == s.clients.Keys + Members(room.players)
        && (forall k :: k in r.state.clients ==>
              r.state.clients[k].score == At(s.clients, k).score + Scoring.Count(room.players, k) * PointsOf(room, k))
        && (forall k :: k in r.state.clients ==>
              r.state.clients[k] == At(s.clients, k).(
                score := r.state.clients[k].score,
                currentRoomId := if last && k in room.players then NoRoom else At(s.clients, k).currentRoomId))
        && (!last ==>
              && r.state == s.(clients := r.state.clients,
                               rooms := s.rooms[rid := room.(playerAnswers := map[], playerVotes := map[])],
                               nextRoundStartTimes := s.nextRoundStartTimes[rid := now + 5])
              && r.out == SendAll(room.players, RoundEnd, tally.roundSummary))
        && (last ==>
              && r.state == s.(clients := r.state.clients, rooms := s.rooms - {rid},
                               answerTimeouts := s.answerTimeouts - {rid}, lastTimeUpdate := s.lastTimeUpdate - {rid},
                               nextRoundStartTimes := s.nextRoundStartTimes - {rid})
              && r.out == SendAll(room.players, RoundEnd, tally.roundSummary)
                          + SendAll(room.players, GameEnd, tally.totalSummary))
  {
    var rid := s.clients[fd].currentRoomId;
    if rid != NoRoom {
      var was := RoomAt(s.rooms, rid);
      var room := was.(playerVotes := was.playerVotes[fd := data]);
      if |room.playerVotes| == |room.players| {
        var s1 := s.(rooms := s.rooms[rid := room]);
        ScoresOutcome(s1, rid, now);
        var cleared := room.(playerAnswers := map[], playerVotes := map[]);
        UpdateTwice(s.rooms, rid, room, cleared);
        RemoveUpdated(s.rooms, rid, room);
      }
    }
  }

  /**
   * After the scores of a round that is not the last: everyone in the room is
   * sent the round summary, the answers and votes are cleared, the next
   * round is due in five seconds, and nothing else changes. After the last
   * round: the summary and then the totals go out, the room and its timers
   * are gone, its players are back in the lobby, no other client changes,
   * and no client of a valid state is left seated there.
   */
  lemma CloseRoundOutcome(s: State, rid: int, now: int, roundSummary: string, totalSummary: string)
    requires rid in s.rooms
    ensures var room := s.rooms[rid]; var r := CloseRound(s, rid, now, roundSummary, totalSummary);
      room.currentRound < room.maxRounds ==>
        && r.state == s.(rooms := s.rooms[rid := room.(playerAnswers := map[], playerVotes := map[])],
                         nextRoundStartTimes := s.nextRoundStartTimes[rid := now + 5])
        && r.out == SendAll(room.players, RoundEnd, roundSummary)
    ensures var room := s.rooms[rid]; var r := CloseRound(s, rid, now, roundSummary, totalSummary);
      room.currentRound >= room.maxRounds ==>
        && r.state == s.(clients := r.state.clients, rooms := s.rooms - {rid},
                         answerTimeouts := s.answerTimeouts - {rid}, lastTimeUpdate := s.lastTimeUpdate - {rid},
                         nextRoundStartTimes := s.nextRoundStartTimes - {rid})
        && r.state.clients.Keys == s.clients.Keys + Members(room.players)
        && (forall k :: k in r.state.clients ==>
              r.state.clients[k] == if k in room.players then At(s.clients, k).(currentRoomId := NoRoom) else s.clients[k])
        && (Valid(s) ==> forall c :: c in r.state.clients ==> r.state.clients[c].currentRoomId != rid)
        && r.out == SendAll(room.players, RoundEnd, roundSummary) + SendAll(room.players, GameEnd, totalSummary)
  {
    var room := s.rooms[rid];
    if room.currentRound >= room.maxRounds {
      EvictSpec(s.clients, room.players);
      if Valid(s) {
        assert RoomWellFormed(room, rid, s.nextRoomId);
        Invariant.EvictEmptiesRoom(s.clients, s.rooms, rid, room.players);
      }
    }
  }

  // ---------------------------------------------------------------------
  // Leaving

  /**
   * A departure from room `rid`: the socket is no longer listed, answered or
   * voted there, and no other room changes. When the host leaves, the room is
   * gone, every other player is back in the lobby and is sent `HOST_LEFT`, no
   * other client changes, and no client of a valid state stays seated there.
   * When another player leaves, the rest are sent `PLAYER_LEFT` with its
   * nick, the room is gone exactly when nobody is left, and nothing but the
   * room changes.
   */
  lemma DepartOutcome(s: State, fd: int, rid: int, nick: string)
    requires rid in s.rooms
    ensures var r := Depart(s, fd, rid, nick).state;
      && (forall id :: id != rid ==> (id in r.rooms <==> id in s.rooms))
      && (forall id :: id in s.rooms && id != rid ==> r.rooms[id] == s.rooms[id])
      && (rid in r.rooms ==> fd !in r.rooms[rid].players && fd !in r.rooms[rid].playerAnswers
                             && fd !in r.rooms[rid].playerVotes)
    ensures var room := s.rooms[rid]; var r := Depart(s, fd, rid, nick); var rest := Without(room.players, fd);
      fd == room.hostFd ==>
        && r.state == s.(clients := r.state.clients, rooms := s.rooms - {rid})
        && r.state.clients.Keys == s.clients.Keys + Members(rest)
        && (forall k :: k in r.state.clients ==>
              r.state.clients[k] == if k in rest then At(s.clients, k).(currentRoomId := NoRoom) else s.clients[k])
        && (Valid(s) && (fd in s.clients ==> s.clients[fd].currentRoomId != rid) ==>
              forall c :: c in r.state.clients ==> r.state.clients[c].currentRoomId != rid)
        && r.out == SendAll(rest, HostLeft, "")
    ensures var room := s.rooms[rid]; var r := Depart(s, fd, rid, nick); var rest := Without(room.players, fd);
      var left := room.(players := rest, playerAnswers := room.playerAnswers - {fd}, playerVotes := room.playerVotes - {fd});
      fd != room.hostFd ==>
        && r.state == s.(rooms := if rest == [] then s.rooms - {rid} else s.rooms[rid := left])
        && (rid !in r.state.rooms <==> rest == [])
        && r.out == SendAll(rest, PlayerLeft, nick)
  {
    var room := s.rooms[rid];
    var rest := Without(room.players, fd);
    if fd == room.hostFd {
      EvictSpec(s.clients, rest);
      if Valid(s) && (fd in s.clients ==> s.clients[fd].currentRoomId != rid) {
        assert RoomWellFormed(room, rid, s.nextRoomId);
        Invariant.EvictEmptiesRoom(s.clients, s.rooms, rid, rest);
      }
    }
  }

  /**
   * A disconnect forgets the client and makes the same departure from its
   * room that `LEAVE_ROOM` would, with the same messages; no other room
   * changes.
   */
  lemma DisconnectOutcome(s: State, fd: int)
    requires fd in s.clients
    ensures var d := OnDisconnect(s, fd); var l := OnLeaveRoom(s, fd);
      d.state == l.state.(clients := l.state.clients - {fd}) && d.out == l.out
    ensures var r := OnDisconnect(s, fd).state;
      && fd !in r.clients
      && (forall k :: k in r.clients ==> k in s.clients || exists id :: id in s.rooms && k in s.rooms[id].players)
      && var rid := s.clients[fd].currentRoomId;
         (rid == NoRoom || rid !in s.rooms ==> r == s.(clients := s.clients - {fd}))
         && (forall id :: id in s.rooms && id != rid ==> id in r.rooms && r.rooms[id] == s.rooms[id])
         && (rid != NoRoom && rid in r.rooms ==> fd !in r.rooms[rid].players)
  {
    var rid := s.clients[fd].currentRoomId;
    assert Touch(s.clients, fd) == s.clients;
    assert s.(clients := s.clients) == s;
    if rid != NoRoom && rid in s.rooms {
      Invariant.DepartIgnoresOwnEntry(s, fd, rid, s.clients[fd].nick, s.clients[fd].(currentRoomId := NoRoom));
      DepartOutcome(s, fd, rid, s.clients[fd].nick);
      var rest := Without(s.rooms[rid].players, fd);
      if fd == s.rooms[rid].hostFd {
        EvictSpec(s.clients, rest);
        var r := Depart(s, fd, rid, s.clients[fd].nick).state;
        forall k | k in r.clients ensures k in s.clients || exists id :: id in s.rooms && k in s.rooms[id].players {
          if k !in s.clients {
            assert k in rest && k in s.rooms[rid].players;
          }
        }
      }
    }
  }

  // ---------------------------------------------------------------------
  // The timer passes

  /**
   * One room of the `TIME_UP` pass: an expired room's deadline is dropped and
   * its players are sent `TIME_UP`; any other room is left alone, unannounced.
   */
  lemma ExpireStepOutcome(s: State, rid: int, now: int)
    ensures Expired(s, rid, now) ==>
      ExpireStep(s, rid, now) == Step(s.(answerTimeouts := s.answerTimeouts - {rid}), SendAll(s.rooms[rid].players, TimeUp, ""))
    ensures !Expired(s, rid, now) ==> ExpireStep(s, rid, now) == Step(s, [])
  {
  }

  /**
   * One room of the `TIME_LEFT` pass: a started room whose deadline is ahead
   * and whose last announcement was at least a second before is sent the
   * seconds left and its announcement time becomes `now`; a room still
   * counting down but announced more recently gets nothing and keeps its
   * time, now written out as an entry; any other room is left alone.
   */
  lemma AnnounceStepOutcome(s: State, rid: int, now: int)
    ensures Ticking(s, rid, now) && now - TimeAt(s.lastTimeUpdate, rid) >= 1 ==>
      AnnounceStep(s, rid, now) == Step(s.(lastTimeUpdate := s.lastTimeUpdate[rid := now]),
                                        SendAll(s.rooms[rid].players, TimeLeft, IntToString(s.answerTimeouts[rid] - now)))
    ensures Ticking(s, rid, now) && now - TimeAt(s.lastTimeUpdate, rid) < 1 ==>
      AnnounceStep(s, rid, now) == Step(s.(lastTimeUpdate := s.lastTimeUpdate[rid := TimeAt(s.lastTimeUpdate, rid)]), [])
    ensures !Ticking(s, rid, now) ==> AnnounceStep(s, rid, now) == Step(s, [])
  {
    if Ticking(s, rid, now) && now - TimeAt(s.lastTimeUpdate, rid) >= 1 {
      var text := IntToString(s.answerTimeouts[rid] - now);
      assert Broadcast(s.rooms, rid, TimeLeft, text) == SendAll(s.rooms[rid].players, TimeLeft, text);
    }
  }

  /**
   * The `TIME_UP` pass over a list of rooms drops a deadline exactly when its
   * room was visited and had expired, changes no kept deadline and no room,
   * and leaves none of the visited deadlines passed.
   */
  lemma {:induction false} ExpirePassClears(s: State, ids: seq<int>, now: int)
    ensures var r := ExpireAll(s, ids, now).state;
      && r.rooms == s.rooms
      && (forall k :: k in r.answerTimeouts <==> k in s.answerTimeouts && !(k in ids && Expired(s, k, now)))
      && (forall k :: k in r.answerTimeouts ==> r.answerTimeouts[k] == s.answerTimeouts[k])
      && forall j :: 0 <= j < |ids| ==> !Expired(r, ids[j], now)
  {
    if ids != [] {
      var init := ids[..|ids| - 1];
      var e := ids[|ids| - 1];
      ExpirePassClears(s, init, now);
      var a := ExpireAll(s, init, now).state;
      var r := ExpireAll(s, ids, now).state;
      assert Expired(a, e, now) <==> Expired(s, e, now) && e !in init;
      forall k ensures k in r.answerTimeouts <==> k in s.answerTimeouts && !(k in ids && Expired(s, k, now)) {
        assert k in ids <==> k in init || k == e;
      }
      forall j | 0 <= j < |ids| ensures !Expired(r, ids[j], now) {
        if j < |init| {
          assert ids[j] == init[j];
        }
      }
    }
  }

  /**
   * A client sent `TIME_UP` by the pass is listed in a started room whose
   * deadline, among those visited, had passed.
   */
  lemma {:induction false} ExpirePassTargets(s: State, ids: seq<int>, now: int, m: Message)
    requires m in ExpireAll(s, ids, now).out
    ensures m.kind == TimeUp && m.data == ""
    ensures exists j :: 0 <= j < |ids| && Expired(s, ids[j], now) && m.fd in s.rooms[ids[j]].players
  {
    var init := ids[..|ids| - 1];
    var a := ExpireAll(s, init, now);
    var last := ids[|ids| - 1];
    ExpirePassClears(s, init, now);
    if m in a.out {
      ExpirePassTargets(s, init, now, m);
      var j :| 0 <= j < |init| && Expired(s, init[j], now) && m.fd in s.rooms[init[j]].players;
      assert ids[j] == init[j];
    } else {
      assert m in ExpireStep(a.state, last, now).out;
      assert Expired(a.state, last, now);
      assert Expired(s, ids[|ids| - 1], now);
    }
  }

  /** Every player of a visited room whose deadline had passed is sent `TIME_UP` by the pass. */
  lemma {:induction false} ExpirePassReaches(s: State, ids: seq<int>, now: int, j: int, p: int)
    requires 0 <= j < |ids| && Expired(s, ids[j], now) && p in s.rooms[ids[j]].players
    ensures Message(p, TimeUp, "") in ExpireAll(s, ids, now).out
  {
    var init := ids[..|ids| - 1];
    var last := ids[|ids| - 1];
    if j < |init| {
      assert init[j] == ids[j];
      ExpirePassReaches(s, init, now, j, p);
    } else if last in init {
      var i :| 0 <= i < |init| && init[i] == last;
      ExpirePassReaches(s, init, now, i, p);
    } else {
      ExpirePassClears(s, init, now);
      var a := ExpireAll(s, init, now).state;
      assert Expired(a, last, now);
      var players := s.rooms[last].players;
      var k :| 0 <= k < |players| && players[k] == p;
      assert ExpireStep(a, last, now).out[k] == Message(p, TimeUp, "");
    }
  }

  /**
   * After the `TIME_LEFT` pass, every visited room whose deadline is still
   * ahead has had an announcement less than a second ago, and the entry of
   * every other room is as it was.
   */
  lemma {:induction false} AnnouncePassIsRecent(s: State, ids: seq<int>, now: int)
    ensures var r := AnnounceAll(s, ids, now).state;
      forall j :: 0 <= j < |ids| && Ticking(s, ids[j], now) ==>
        ids[j] in r.lastTimeUpdate && now - r.lastTimeUpdate[ids[j]] < 1
    ensures var r := AnnounceAll(s, ids, now).state;
      forall k :: !(k in ids && Ticking(s, k, now)) ==>
        (k in r.lastTimeUpdate <==> k in s.lastTimeUpdate) && TimeAt(r.lastTimeUpdate, k) == TimeAt(s.lastTimeUpdate, k)
  {
    if ids != [] {
      var init := ids[..|ids| - 1];
      AnnouncePassIsRecent(s, init, now);
      var a := AnnounceAll(s, init, now).state;
      var r := AnnounceAll(s, ids, now).state;
      forall j | 0 <= j < |ids| && Ticking(s, ids[j], now)
        ensures ids[j] in r.lastTimeUpdate && now - r.lastTimeUpdate[ids[j]] < 1
      {
        if j < |init| {
          assert ids[j] == init[j];
        }
      }
      forall k | !(k in ids && Ticking(s, k, now))
        ensures (k in r.lastTimeUpdate <==> k in s.lastTimeUpdate) && TimeAt(r.lastTimeUpdate, k) == TimeAt(s.lastTimeUpdate, k)
      {
        assert k in init ==> k in ids;
      }
    }
  }

  /**
   * A `TIME_LEFT` sent for room `e` from a state `a` that the pass left as
   * `AnnouncePassIsRecent` says after visiting `init` is for a room not
   * visited before, counting down and last announced at least a second
   * before the pass began, and carries the seconds left.
   */
  lemma AnnounceStepTarget(s: State, a: State, init: seq<int>, e: int, now: int, m: Message)
    requires a.answerTimeouts == s.answerTimeouts && a.rooms == s.rooms
    requires forall j :: 0 <= j < |init| && Ticking(s, init[j], now) ==>
      init[j] in a.lastTimeUpdate && now - a.lastTimeUpdate[init[j]] < 1
    requires forall k :: !(k in init && Ticking(s, k, now)) ==> TimeAt(a.lastTimeUpdate, k) == TimeAt(s.lastTimeUpdate, k)
    requires m in AnnounceStep(a, e, now).out
    ensures e !in init && Ticking(s, e, now) && now - TimeAt(s.lastTimeUpdate, e) >= 1
    ensures m.kind == TimeLeft && m.fd in s.rooms[e].players && m.data == IntToString(s.answerTimeouts[e] - now)
  {
    var b := AnnounceStep(a, e, now);
    AnnounceStepOutcome(a, e, now);
    assert Ticking(a, e, now) && now - TimeAt(a.lastTimeUpdate, e) >= 1;
    forall i | 0 <= i < |init| ensures init[i] != e {
      if init[i] == e {
        assert Ticking(s, init[i], now);
      }
    }
    SentToEach(s.rooms[e].players, TimeLeft, IntToString(s.answerTimeouts[e] - now), m);
  }

  /** A message of a broadcast goes to one of the listed sockets, with the broadcast's type and payload. */
  lemma SentToEach(fds: seq<int>, kind: MsgType, data: string, m: Message)
    requires m in SendAll(fds, kind, data)
    ensures m.kind == kind && m.fd in fds && m.data == data
  {
    var k :| 0 <= k < |fds| && SendAll(fds, kind, data)[k] == m;
  }

  /** `AnnounceStepTarget` for the state the pass leaves after visiting `init`. */
  lemma AnnounceLastTarget(s: State, init: seq<int>, e: int, now: int, m: Message)
    requires m in AnnounceStep(AnnounceAll(s, init, now).state, e, now).out
    ensures Ticking(s, e, now) && now - TimeAt(s.lastTimeUpdate, e) >= 1
    ensures m.kind == TimeLeft && m.fd in s.rooms[e].players && m.data == IntToString(s.answerTimeouts[e] - now)
  {
    AnnouncePassIsRecent(s, init, now);
    AnnounceStepTarget(s, AnnounceAll(s, init, now).state, init, e, now, m);
  }

  /** Every `TIME_LEFT` of the pass comes from the step of one visited room. */
  lemma {:induction false} AnnouncePassSource(s: State, ids: seq<int>, now: int, m: Message) returns (j: int)
    requires m in AnnounceAll(s, ids, now).out
    ensures 0 <= j < |ids| && m in AnnounceStep(AnnounceAll(s, ids[..j], now).state, ids[j], now).out
  {
    var init := ids[..|ids| - 1];
    if m in AnnounceAll(s, init, now).out {
      j := AnnouncePassSource(s, init, now, m);
      assert ids[..j] == init[..j] && ids[j] == init[j];
    } else {
      j := |ids| - 1;
    }
  }

  /**
   * A client sent `TIME_LEFT` by the pass is listed in a visited room whose
   * deadline is still ahead and whose last announcement was at least a second
   * before, and the message carries the seconds left.
   */
  lemma AnnouncePassTargets(s: State, ids: seq<int>, now: int, m: Message) returns (j: int, rid: int)
    requires m in AnnounceAll(s, ids, now).out
    ensures m.kind == TimeLeft
    ensures 0 <= j < |ids| && rid == ids[j]
    ensures Ticking(s, rid, now) && now - TimeAt(s.lastTimeUpdate, rid) >= 1
    ensures m.fd in s.rooms[rid].players && m.data == IntToString(s.answerTimeouts[rid] - now)
  {
    j := AnnouncePassSource(s, ids, now, m);
    rid := ids[j];
    AnnounceLastTarget(s, ids[..j], rid, now, m);
  }

  /**
   * Every player of a visited room whose deadline is still ahead and whose
   * last announcement was at least a second before is sent the seconds left.
   */
  lemma {:induction false} AnnouncePassReaches(s: State, ids: seq<int>, now: int, j: int, p: int)
    requires 0 <= j < |ids| && Ticking(s, ids[j], now) && now - TimeAt(s.lastTimeUpdate, ids[j]) >= 1
    requires p in s.rooms[ids[j]].players
    ensures Message(p, TimeLeft, IntToString(s.answerTimeouts[ids[j]] - now)) in AnnounceAll(s, ids, now).out
  {
    var init := ids[..|ids| - 1];
    var last := ids[|ids| - 1];
    var a := AnnounceAll(s, init, now);
    var b := AnnounceStep(a.state, last, now);
    assert AnnounceAll(s, ids, now).out == a.out + b.out;
    if j < |init| {
      assert init[j] == ids[j];
      AnnouncePassReaches(s, init, now, j, p);
    } else if last in init {
      var i :| 0 <= i < |init| && init[i] == last;
      AnnouncePassReaches(s, init, now, i, p);
    } else {
      AnnouncePassIsRecent(s, init, now);
      assert TimeAt(a.state.lastTimeUpdate, last) == TimeAt(s.lastTimeUpdate, last);
      AnnounceStepOutcome(a.state, last, now);
      var players := s.rooms[last].players;
      var k :| 0 <= k < |players| && players[k] == p;
      assert b.out[k] == Message(p, TimeLeft, IntToString(s.answerTimeouts[last] - now));
    }
  }

  /**
   * A due entry of the next-round pass for an existing room: the round
   * number goes up by one, a letter is drawn and every player is sent
   * `letter;round;rounds`, the answer deadline is thirty seconds away, the
   * last announcement is now, and the entry is dropped; nothing else changes.
   */
  lemma RoundStepDue(s: State, rid: int, startAt: int, now: int, random: nat -> nat)
    requires rid in s.rooms && now >= startAt
    ensures var room := s.rooms[rid]; var r := RoundStep(s, rid, startAt, now, random);
      && r.state == s.(rooms := s.rooms[rid := room.(currentRound := room.currentRound + 1)],
                       answerTimeouts := s.answerTimeouts[rid := now + 30], lastTimeUpdate := s.lastTimeUpdate[rid := now],
                       nextRoundStartTimes := s.nextRoundStartTimes - {rid}, draws := s.draws + 1)
      && r.out == SendAll(room.players, GameStarted, RoundText(Letter(random, s.draws), room.currentRound + 1, room.maxRounds))
      && (r.out != [] ==>
            Tokens(r.out[0].data, ';')
              == [[Letter(random, s.draws)], IntToString(room.currentRound + 1), IntToString(room.maxRounds)])
  {
    var room := s.rooms[rid];
    RoundTextSplits(random, s.draws, room.currentRound + 1, room.maxRounds);
  }

  /** An entry of the next-round pass that is not yet due changes nothing; one for a room that is gone is dropped silently. */
  lemma RoundStepWaits(s: State, rid: int, startAt: int, now: int, random: nat -> nat)
    ensures rid in s.rooms && now < startAt ==> RoundStep(s, rid, startAt, now, random) == Step(s, [])
    ensures rid !in s.rooms ==>
      RoundStep(s, rid, startAt, now, random) == Step(s.(nextRoundStartTimes := s.nextRoundStartTimes - {rid}), [])
  {
  }

  /** The rooms after one entry of the next-round pass: a due room moves one round on. */
  lemma RoundStepRooms(s: State, rid: int, startAt: int, now: int, random: nat -> nat)
    ensures RoundStep(s, rid, startAt, now, random).state.rooms ==
      if rid in s.rooms && now >= startAt then s.rooms[rid := s.rooms[rid].(currentRound := s.rooms[rid].currentRound + 1)]
      else s.rooms
  {
  }

  /**
   * After the next-round pass over a list of schedule entries, every entry
   * left is for a room that still exists and is not yet due, and every room
   * stays.
   */
  lemma {:induction false} RoundsPassClears(s: State, entries: seq<(int, int)>, now: int, random: nat -> nat)
    requires Invariant.DistinctIds(entries)
    requires forall j :: 0 <= j < |entries| ==>
      entries[j].0 in s.nextRoundStartTimes && entries[j].1 == s.nextRoundStartTimes[entries[j].0]
    ensures var r := RoundsAll(s, entries, now, random).state;
      && r.rooms.Keys == s.rooms.Keys
      && r.nextRoundStartTimes.Keys <= s.nextRoundStartTimes.Keys
      && (forall k :: k in r.nextRoundStartTimes ==> r.nextRoundStartTimes[k] == s.nextRoundStartTimes[k])
      && (forall k :: k in s.nextRoundStartTimes && (forall j :: 0 <= j < |entries| ==> entries[j].0 != k) ==>
            k in r.nextRoundStartTimes)
      && forall j :: 0 <= j < |entries| && entries[j].0 in r.nextRoundStartTimes ==>
           entries[j].0 in r.rooms && now < entries[j].1
  {
    if entries != [] {
      var init := entries[..|entries| - 1];
      var e := entries[|entries| - 1];
      RoundsPassClears(s, init, now, random);
      var r := RoundsAll(s, entries, now, random).state;
      forall j | 0 <= j < |entries| && entries[j].0 in r.nextRoundStartTimes
        ensures entries[j].0 in r.rooms && now < entries[j].1
      {
        if j < |init| {
          assert entries[j] == init[j] && init[j].0 != e.0;
        }
      }
    }
  }

  /**
   * The next-round pass over a list of schedule entries with distinct room
   * ids moves a room one round on exactly when its entry was due, and leaves
   * every other room as it was.
   */
  lemma {:induction false} RoundsPassRounds(s: State, entries: seq<(int, int)>, now: int, random: nat -> nat)
    requires Invariant.DistinctIds(entries)
    ensures RoundsMoved(s.rooms, RoundsAll(s, entries, now, random).state.rooms, entries, now)
  {
    if entries != [] {
      var init := entries[..|entries| - 1];
      var e := entries[|entries| - 1];
      RoundsPassRounds(s, init, now, random);
      var a := RoundsAll(s, init, now, random).state;
      var r := RoundsAll(s, entries, now, random).state;
      assert r == RoundStep(a, e.0, e.1, now, random).state;
      RoundStepRooms(a, e.0, e.1, now, random);
      forall j | 0 <= j < |entries| - 1 ensures entries[j].0 != e.0 {
        assert entries[j] == init[j];
      }
      RoomsStep(s.rooms, a.rooms, r.rooms, entries, now);
    }
  }

  /**
   * Rooms `rr` are rooms `sr` after the entries: every room of `sr` with a due
   * entry is one round on, and every room of `sr` whose entries are all not
   * yet due is as it was.
   */
  ghost predicate RoundsMoved(sr: map<int, Room>, rr: map<int, Room>, entries: seq<(int, int)>, now: int)
  {
    && (forall j :: 0 <= j < |entries| && entries[j].0 in sr && now >= entries[j].1 ==>
          entries[j].0 in rr && rr[entries[j].0] == sr[entries[j].0].(currentRound := sr[entries[j].0].currentRound + 1))
    && (forall k :: k in sr && (forall j :: 0 <= j < |entries| && entries[j].0 == k ==> now < entries[j].1) ==>
          k in rr && rr[k] == sr[k])
  }

  /** One more entry, for a room no earlier entry names, keeps `RoundsMoved`. */
  lemma RoomsStep(sr: map<int, Room>, ar: map<int, Room>, rr: map<int, Room>, entries: seq<(int, int)>, now: int)
    requires entries != []
    requires forall j :: 0 <= j < |entries| - 1 ==> entries[j].0 != entries[|entries| - 1].0
    requires RoundsMoved(sr, ar, entries[..|entries| - 1], now)
    requires var e := entries[|entries| - 1];
      rr == if e.0 in ar && now >= e.1 then ar[e.0 := ar[e.0].(currentRound := ar[e.0].currentRound + 1)] else ar
    ensures RoundsMoved(sr, rr, entries, now)
  {
    var init := entries[..|entries| - 1];
    var e := entries[|entries| - 1];
    assert forall j :: 0 <= j < |init| ==> init[j] == entries[j];
    if e.0 in sr {
      assert forall j :: 0 <= j < |init| && init[j].0 == e.0 ==> now < init[j].1;
      assert e.0 in ar && ar[e.0] == sr[e.0];
    }
    forall j | 0 <= j < |entries| && entries[j].0 in sr && now >= entries[j].1
      ensures entries[j].0 in rr && rr[entries[j].0] == sr[entries[j].0].(currentRound := sr[entries[j].0].currentRound + 1)
    {
      if j < |init| {
        assert entries[j] == init[j];
      }
    }
    forall k | k in sr && (forall j :: 0 <= j < |entries| && entries[j].0 == k ==> now < entries[j].1)
      ensures k in rr && rr[k] == sr[k]
    {
      forall j | 0 <= j < |init| && init[j].0 == k ensures now < init[j].1 {
        assert entries[j] == init[j];
      }
      if k == e.0 {
        assert entries[|entries| - 1] == e;
      }
    }
  }

  /** The next-round pass over the whole schedule leaves every entry for an existing room that is not yet due. */
  lemma SchedulePassClears(t: State, now: int, random: nat -> nat) returns (r: State)
    ensures r == RoundsAll(t, Schedule(t.nextRoundStartTimes), now, random).state
    ensures forall k :: k in r.nextRoundStartTimes ==> k in r.rooms && now < r.nextRoundStartTimes[k]
  {
    var entries := Schedule(t.nextRoundStartTimes);
    Invariant.ScheduleDistinct(t.nextRoundStartTimes);
    RoundsPassClears(t, entries, now, random);
    r := RoundsAll(t, entries, now, random).state;
    forall k | k in r.nextRoundStartTimes ensures k in r.rooms && now < r.nextRoundStartTimes[k] {
      var j := ScheduleCovers(t.nextRoundStartTimes, k);
      assert entries[j].0 == k;
    }
  }

  /** Every key of a schedule has its entry in the pass. */
  lemma ScheduleCovers(m: map<int, int>, k: int) returns (j: int)
    requires k in m
    ensures 0 <= j < |Schedule(m)| && Schedule(m)[j].0 == k
  {
    var ids := KeysInOrder(m.Keys);
    assert k in ids;
    j :| 0 <= j < |ids| && ids[j] == k;
  }

  /** The tick ends with every next-round entry for an existing room that is not yet due. */
  lemma TickLeavesNoDueRound(s: State, now: int, random: nat -> nat)
    ensures var r := Tick(s, now, random).state;
      forall k :: k in r.nextRoundStartTimes ==> k in r.rooms && now < r.nextRoundStartTimes[k]
  {
    var e := ExpireAll(s, KeysInOrder(s.answerTimeouts.Keys), now);
    var a := AnnounceAll(e.state, KeysInOrder(e.state.answerTimeouts.Keys), now);
    var n := RoundsAll(a.state, Schedule(a.state.nextRoundStartTimes), now, random);
    var r := SchedulePassClears(a.state, now, random);
    assert Tick(s, now, random).state == r;
  }
}
