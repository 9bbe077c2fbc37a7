/**
 * The consistency `Game.Valid` asks of the state (unique nicks, unique room
 * names, well-formed rooms, current rooms that exist and list their client,
 * next-round entries only for rooms with a round left) is kept by every
 * event: each handler of `processMessage`, a disconnect, a new connection, a
 * whole read, and each timer pass of the event loop.
 */
module Invariant {
  import opened Options
  import opened Protocol
  import opened Text
  import opened Lobby
  import opened Game

  // ---------------------------------------------------------------------
  // Client tables

  /**
   * Table `b` against table `a`: each client keeps its nick or has an empty
   * one, and keeps its current room or is back in the lobby; a socket new in
   * `b` reads as a blank client of `a`.
   */
  predicate SeatsKept(a: map<int, Client>, b: map<int, Client>)
  {
    forall k :: k in b ==>
      (b[k].nick == At(a, k).nick || b[k].nick == "") &&
      (b[k].currentRoomId == At(a, k).currentRoomId || b[k].currentRoomId == NoRoom)
  }

  lemma SeatsKeptConsistent(a: map<int, Client>, b: map<int, Client>, rs: map<int, Room>, n: int, p: map<int, int>)
    requires Consistent(a, rs, n, p) && SeatsKept(a, b)
    ensures Consistent(b, rs, n, p)
  {
    forall x, y | x in b && y in b && x != y && b[x].nick != "" ensures b[x].nick != b[y].nick {
      assert x in a && b[x].nick == a[x].nick;
      if y in a && b[y].nick != "" {
        assert b[y].nick == a[y].nick;
      }
    }
    forall c | c in b && b[c].currentRoomId != NoRoom
      ensures b[c].currentRoomId in rs && c in rs[b[c].currentRoomId].players
    {
      assert c in a && b[c].currentRoomId == a[c].currentRoomId;
    }
  }

  lemma SeatsKeptTrans(a: map<int, Client>, b: map<int, Client>, c: map<int, Client>)
    requires SeatsKept(a, b) && SeatsKept(b, c) && b.Keys >= a.Keys
    ensures SeatsKept(a, c)
  {
    forall k | k in c
      ensures (c[k].nick == At(a, k).nick || c[k].nick == "")
      ensures (c[k].currentRoomId == At(a, k).currentRoomId || c[k].currentRoomId == NoRoom)
    {
      if k in b {
        assert b[k].nick == At(a, k).nick || b[k].nick == "";
      }
    }
  }

  lemma TouchAllSeats(cs: map<int, Client>, fds: seq<int>)
    ensures SeatsKept(cs, TouchAll(cs, fds)) && TouchAll(cs, fds).Keys >= cs.Keys
  {
  }

  lemma EvictSeats(cs: map<int, Client>, fds: seq<int>)
    ensures SeatsKept(cs, Evict(cs, fds)) && Evict(cs, fds).Keys >= cs.Keys
  {
    EvictSpec(cs, fds);
  }

  /** Evicting the players of room `rid` leaves no client whose current room is `rid`. */
  lemma EvictEmptiesRoom(cs: map<int, Client>, rs: map<int, Room>, rid: int, fds: seq<int>)
    requires MembershipConsistent(cs, rs) && rid in rs && rid != NoRoom
    requires forall c :: c in rs[rid].players ==> c in fds || c !in cs || cs[c].currentRoomId != rid
    ensures forall c :: c in Evict(cs, fds) ==> Evict(cs, fds)[c].currentRoomId != rid
  {
    EvictSpec(cs, fds);
    forall c | c in Evict(cs, fds) && c !in fds ensures cs[c].currentRoomId != rid {
      if cs[c].currentRoomId != NoRoom {
        assert c in rs[cs[c].currentRoomId].players;
      }
    }
  }

  lemma ResetScoresSeats(cs: map<int, Client>, fds: seq<int>)
    ensures SeatsKept(cs, ResetScores(cs, fds)) && ResetScores(cs, fds).Keys >= cs.Keys
  {
    ResetScoresSpec(cs, fds);
  }

  lemma AwardSeats(cs: map<int, Client>, points: int -> nat, fds: seq<int>)
    ensures SeatsKept(cs, Award(cs, points, fds).clients) && Award(cs, points, fds).clients.Keys >= cs.Keys
  {
    AwardScores(cs, points, fds);
  }

  /** Taking a client out of the table keeps the consistency. */
  lemma DropClient(cs: map<int, Client>, fd: int, rs: map<int, Room>, n: int, p: map<int, int>)
    requires Consistent(cs, rs, n, p)
    ensures Consistent(cs - {fd}, rs, n, p)
  {
  }

  /** A change to the client table alone that keeps the seats keeps the state valid. */
  lemma ClientsOnly(s: State, cs: map<int, Client>)
    requires Valid(s) && SeatsKept(s.clients, cs)
    ensures Valid(s.(clients := cs))
  {
    SeatsKeptConsistent(s.clients, cs, s.rooms, s.nextRoomId, s.nextRoundStartTimes);
  }

  /** A client's current room is in the room table. */
  lemma CurrentRoomExists(s: State, fd: int)
    requires Valid(s) && fd in s.clients && s.clients[fd].currentRoomId != NoRoom
    ensures s.clients[fd].currentRoomId in s.rooms
  {
  }

  // ---------------------------------------------------------------------
  // The lobby

  lemma LoginKeepsValid(s: State, fd: int, nick: string)
    requires fd in s.clients && Valid(s)
    ensures Valid(OnLogin(s, fd, nick).state)
  {
    if !NickInUse(s.clients, nick) {
      var cs := s.clients[fd := s.clients[fd].(nick := nick)];
      forall x, y | x in cs && y in cs && x != y && cs[x].nick != "" ensures cs[x].nick != cs[y].nick {
        if x == fd {
          assert cs[y] == s.clients[y];
        } else if y == fd {
          assert cs[x] == s.clients[x];
        } else {
          assert cs[x] == s.clients[x] && cs[y] == s.clients[y];
        }
      }
      assert MembershipConsistent(cs, s.rooms) by {
        forall c | c in cs && cs[c].currentRoomId != NoRoom
          ensures cs[c].currentRoomId in s.rooms && c in s.rooms[cs[c].currentRoomId].players
        {
          assert cs[c].currentRoomId == s.clients[c].currentRoomId;
        }
      }
    }
  }

  lemma CreateKeepsValid(s: State, fd: int, name: string)
    requires fd in s.clients && Valid(s)
    ensures Valid(OnCreateRoom(s, fd, name).state)
  {
    if s.clients[fd].nick != "" && !NameInUse(s.rooms, name) {
      var id := s.nextRoomId;
      var rs := s.rooms[id := NewRoom(id, name, fd)];
      var cs := s.clients[fd := s.clients[fd].(currentRoomId := id)];
      assert forall r :: r in s.rooms ==> r < id by {
        forall r | r in s.rooms ensures r < id {
          assert RoomWellFormed(s.rooms[r], r, id);
        }
      }
      assert NicksUnique(cs) by {
        forall x, y | x in cs && y in cs && x != y && cs[x].nick != "" ensures cs[x].nick != cs[y].nick {
          assert cs[x].nick == s.clients[x].nick && cs[y].nick == s.clients[y].nick;
        }
      }
      assert RoomNamesUnique(rs) by {
        forall a, b | a in rs && b in rs && a != b ensures rs[a].name != rs[b].name {
          if a == id {
            assert rs[b] == s.rooms[b];
          } else if b == id {
            assert rs[a] == s.rooms[a];
          }
        }
      }
      assert RoomsWellFormed(rs, id + 1) by {
        forall r | r in rs ensures RoomWellFormed(rs[r], r, id + 1) {
          if r != id {
            assert RoomWellFormed(s.rooms[r], r, id);
          }
        }
      }
      assert MembershipConsistent(cs, rs) by {
        forall c | c in cs && cs[c].currentRoomId != NoRoom
          ensures cs[c].currentRoomId in rs && c in rs[cs[c].currentRoomId].players
        {
          if c != fd {
            var r := s.clients[c].currentRoomId;
            assert r in s.rooms && r != id;
          }
        }
      }
    }
  }

  lemma JoinKeepsValid(s: State, fd: int, name: string)
    requires fd in s.clients && Valid(s)
    ensures Valid(OnJoinRoom(s, fd, name).state)
  {
    match LeastOpen(s.rooms, name)
    case None =>
    case Some(id) =>
      var t := Seat(s, fd, id);
      SeatKeepsValid(s, fd, id);
      TouchAllSeats(t.clients, t.rooms[id].players);
      ClientsOnly(t, TouchAll(t.clients, t.rooms[id].players));
  }

  lemma SeatKeepsValid(s: State, fd: int, id: int)
    requires fd in s.clients && id in s.rooms && Valid(s)
    ensures Valid(Seat(s, fd, id))
  {
    var t := Seat(s, fd, id);
    assert NicksUnique(t.clients) by {
      forall x, y | x in t.clients && y in t.clients && x != y && t.clients[x].nick != ""
        ensures t.clients[x].nick != t.clients[y].nick
      {
        assert t.clients[x].nick == s.clients[x].nick && t.clients[y].nick == s.clients[y].nick;
      }
    }
    assert RoomNamesUnique(t.rooms) by {
      forall a, b | a in t.rooms && b in t.rooms && a != b ensures t.rooms[a].name != t.rooms[b].name {
        assert t.rooms[a].name == s.rooms[a].name && t.rooms[b].name == s.rooms[b].name;
      }
    }
    assert RoomsWellFormed(t.rooms, t.nextRoomId) by {
      forall r | r in t.rooms ensures RoomWellFormed(t.rooms[r], r, t.nextRoomId) {
        assert RoomWellFormed(s.rooms[r], r, s.nextRoomId);
        if r == id {
          assert s.rooms[r].hostFd in s.rooms[r].players;
        }
      }
    }
    assert MembershipConsistent(t.clients, t.rooms) by {
      forall c | c in t.clients && t.clients[c].currentRoomId != NoRoom
        ensures t.clients[c].currentRoomId in t.rooms && c in t.rooms[t.clients[c].currentRoomId].players
      {
        if c != fd {
          var r := s.clients[c].currentRoomId;
          assert c in s.rooms[r].players;
        }
      }
    }
    assert PendingRoundsValid(t.rooms, t.nextRoundStartTimes) by {
      forall r | r in t.rooms && r in t.nextRoundStartTimes ensures t.rooms[r].currentRound < t.rooms[r].maxRounds {
        assert s.rooms[r].currentRound < s.rooms[r].maxRounds;
      }
    }
  }

  // ---------------------------------------------------------------------
  // Rooms

  /**
   * Room `rid` replaced by one with the same id, name, host and round count,
   * whose players still hold the host and every client seated there, and
   * whose round is in range (below the last one while a next round is due).
   */
  lemma RoomReplaced(s: State, rid: int, room: Room)
    requires Valid(s) && rid in s.rooms
    requires room.id == s.rooms[rid].id && room.name == s.rooms[rid].name
    requires room.hostFd == s.rooms[rid].hostFd && room.maxRounds == s.rooms[rid].maxRounds
    requires room.hostFd in room.players
    requires forall c :: c in s.clients && s.clients[c].currentRoomId == rid ==> c in room.players
    requires 0 <= room.currentRound <= room.maxRounds
    requires rid in s.nextRoundStartTimes ==> room.currentRound < room.maxRounds
    ensures Valid(s.(rooms := s.rooms[rid := room]))
  {
    var rs := s.rooms[rid := room];
    assert RoomNamesUnique(rs) by {
      forall a, b | a in rs && b in rs && a != b ensures rs[a].name != rs[b].name {
        assert rs[a].name == s.rooms[a].name && rs[b].name == s.rooms[b].name;
      }
    }
    assert RoomsWellFormed(rs, s.nextRoomId) by {
      forall r | r in rs ensures RoomWellFormed(rs[r], r, s.nextRoomId) {
        assert RoomWellFormed(s.rooms[r], r, s.nextRoomId);
      }
    }
    assert MembershipConsistent(s.clients, rs) by {
      forall c | c in s.clients && s.clients[c].currentRoomId != NoRoom
        ensures s.clients[c].currentRoomId in rs && c in rs[s.clients[c].currentRoomId].players
      {
        assert c in s.rooms[s.clients[c].currentRoomId].players;
      }
    }
    assert PendingRoundsValid(rs, s.nextRoundStartTimes) by {
      forall r | r in rs && r in s.nextRoundStartTimes ensures rs[r].currentRound < rs[r].maxRounds {
        assert r != rid ==> s.rooms[r].currentRound < s.rooms[r].maxRounds;
      }
    }
  }

  /** Room `rid` erased once no client is seated there. */
  lemma RoomErased(s: State, rid: int)
    requires Valid(s)
    requires forall c :: c in s.clients ==> s.clients[c].currentRoomId != rid
    ensures Valid(s.(rooms := s.rooms - {rid}))
  {
    var rs := s.rooms - {rid};
    assert MembershipConsistent(s.clients, rs) by {
      forall c | c in s.clients && s.clients[c].currentRoomId != NoRoom
        ensures s.clients[c].currentRoomId in rs && c in rs[s.clients[c].currentRoomId].players
      {
        assert s.clients[c].currentRoomId != rid;
      }
    }
  }

  /** A next-round entry set for a room with a round left. */
  lemma PendingSet(s: State, rid: int, at: int)
    requires Valid(s)
    requires rid in s.rooms ==> s.rooms[rid].currentRound < s.rooms[rid].maxRounds
    ensures Valid(s.(nextRoundStartTimes := s.nextRoundStartTimes[rid := at]))
  {
    var p := s.nextRoundStartTimes[rid := at];
    assert PendingRoundsValid(s.rooms, p) by {
      forall r | r in s.rooms && r in p ensures s.rooms[r].currentRound < s.rooms[r].maxRounds {
        assert r != rid ==> r in s.nextRoundStartTimes;
      }
    }
  }

  // ---------------------------------------------------------------------
  // A game

  lemma StartKeepsValid(s: State, fd: int, now: int, random: nat -> nat)
    requires fd in s.clients && Valid(s)
    ensures Valid(OnStartGame(s, fd, now, random).state)
  {
    var rid := s.clients[fd].currentRoomId;
    if rid != NoRoom && rid in s.rooms && s.rooms[rid].hostFd == fd && |s.rooms[rid].players| >= 2 {
      BeginGameKeepsValid(s, rid, now, random);
    }
  }

  lemma BeginGameKeepsValid(s: State, rid: int, now: int, random: nat -> nat)
    requires rid in s.rooms && Valid(s)
    ensures Valid(BeginGame(s, rid, now, random).state)
  {
    var room := s.rooms[rid];
    var started := room.(gameStarted := true, currentRound := 1, playerAnswers := map[], playerVotes := map[]);
    var cs := ResetScores(s.clients, room.players);
    ResetScoresSeats(s.clients, room.players);
    ClientsOnly(s, cs);
    var s1 := s.(clients := cs);
    assert RoomWellFormed(room, rid, s.nextRoomId);
    ResetScoresSpec(s.clients, room.players);
    forall c | c in cs && c !in room.players ensures cs[c].currentRoomId != rid {
      assert cs[c] == s.clients[c];
    }
    RoomReplaced(s1, rid, started);
  }

  lemma SubmitKeepsValid(s: State, fd: int, data: string)
    requires fd in s.clients && Valid(s)
    ensures Valid(OnSubmitAnswers(s, fd, data).state)
  {
    var rid := s.clients[fd].currentRoomId;
    if rid != NoRoom {
      CurrentRoomExists(s, fd);
      var room := s.rooms[rid];
      assert RoomWellFormed(room, rid, s.nextRoomId);
      RoomReplaced(s, rid, room.(playerAnswers := room.playerAnswers[fd := data]));
    }
  }

  lemma VoteKeepsValid(s: State, fd: int, data: string, now: int)
    requires fd in s.clients && Valid(s)
    ensures Valid(OnSendVote(s, fd, data, now).state)
  {
    var rid := s.clients[fd].currentRoomId;
    if rid != NoRoom {
      CurrentRoomExists(s, fd);
      var was := s.rooms[rid];
      var room := was.(playerVotes := was.playerVotes[fd := data]);
      assert RoomWellFormed(was, rid, s.nextRoomId);
      RoomReplaced(s, rid, room);
      var s1 := s.(rooms := s.rooms[rid := room]);
      if |room.playerVotes| == |room.players| {
        ScoresKeepsValid(s1, rid, now);
      }
    }
  }

  lemma ScoresKeepsValid(s: State, rid: int, now: int)
    requires rid in s.rooms && Valid(s)
    ensures Valid(Scores(s, rid, now).state)
  {
    var room := s.rooms[rid];
    var tally := Award(s.clients, PointsTable(room), room.players);
    AwardSeats(s.clients, PointsTable(room), room.players);
    ClientsOnly(s, tally.clients);
    CloseRoundKeepsValid(s.(clients := tally.clients), rid, now, tally.roundSummary, tally.totalSummary);
  }

  lemma CloseRoundKeepsValid(s: State, rid: int, now: int, roundSummary: string, totalSummary: string)
    requires rid in s.rooms && Valid(s)
    ensures Valid(CloseRound(s, rid, now, roundSummary, totalSummary).state)
  {
    var room := s.rooms[rid];
    assert RoomWellFormed(room, rid, s.nextRoomId);
    if room.currentRound < room.maxRounds {
      var cleared := room.(playerAnswers := map[], playerVotes := map[]);
      RoomReplaced(s, rid, cleared);
      PendingSet(s.(rooms := s.rooms[rid := cleared]), rid, now + BreakSeconds);
    } else {
      var cs := Evict(s.clients, room.players);
      EvictSeats(s.clients, room.players);
      ClientsOnly(s, cs);
      EvictEmptiesRoom(s.clients, s.rooms, rid, room.players);
      RoomErased(s.(clients := cs), rid);
    }
  }

  // ---------------------------------------------------------------------
  // Leaving

  /** Socket `fd`, already out of room `rid`'s seat, leaves that room. */
  lemma DepartKeepsValid(s: State, fd: int, rid: int, nick: string)
    requires Valid(s) && rid in s.rooms
    requires fd in s.clients ==> s.clients[fd].currentRoomId != rid
    ensures Valid(Depart(s, fd, rid, nick).state)
  {
    var room := s.rooms[rid];
    var rest := Without(room.players, fd);
    assert RoomWellFormed(room, rid, s.nextRoomId);
    if fd == room.hostFd {
      var cs := Evict(s.clients, rest);
      EvictSeats(s.clients, rest);
      ClientsOnly(s, cs);
      EvictEmptiesRoom(s.clients, s.rooms, rid, rest);
      RoomErased(s.(clients := cs), rid);
    } else {
      assert room.hostFd in rest;
      var left := room.(players := rest, playerAnswers := room.playerAnswers - {fd},
                        playerVotes := room.playerVotes - {fd});
      RoomReplaced(s, rid, left);
    }
  }

  lemma LeaveKeepsValid(s: State, fd: int)
    requires fd in s.clients && Valid(s)
    ensures Valid(OnLeaveRoom(s, fd).state)
  {
    var rid := s.clients[fd].currentRoomId;
    if rid != NoRoom && rid in s.rooms {
      var cs := s.clients[fd := s.clients[fd].(currentRoomId := NoRoom)];
      assert SeatsKept(s.clients, cs);
      ClientsOnly(s, cs);
      DepartKeepsValid(s.(clients := cs), fd, rid, s.clients[fd].nick);
    }
  }

  /** A departure does not look at the departing socket's own client entry, apart from keeping it. */
  lemma DepartIgnoresOwnEntry(s: State, fd: int, rid: int, nick: string, c: Client)
    requires rid in s.rooms && fd in s.clients
    ensures var a := Depart(s, fd, rid, nick).state;
      var b := Depart(s.(clients := s.clients[fd := c]), fd, rid, nick).state;
      a.(clients := a.clients - {fd}) == b.(clients := b.clients - {fd})
  {
    if fd == s.rooms[rid].hostFd {
      EvictOwnEntry(s.clients, Without(s.rooms[rid].players, fd), fd, c);
    }
  }

  lemma EvictOwnEntry(cs: map<int, Client>, rest: seq<int>, fd: int, c: Client)
    requires fd in cs && fd !in rest
    ensures Evict(cs, rest) - {fd} == Evict(cs[fd := c], rest) - {fd}
  {
    var t := cs[fd := c];
    EvictSpec(cs, rest);
    EvictSpec(t, rest);
    var a := Evict(cs, rest) - {fd};
    var b := Evict(t, rest) - {fd};
    assert a.Keys == b.Keys;
    forall k | k in a ensures a[k] == b[k] {
      assert At(t, k) == At(cs, k);
    }
  }

  lemma DisconnectKeepsValid(s: State, fd: int)
    requires Valid(s)
    ensures Valid(OnDisconnect(s, fd).state)
  {
    var cs := Touch(s.clients, fd);
    assert SeatsKept(s.clients, cs);
    ClientsOnly(s, cs);
    var s2 := s.(clients := cs);
    var rid := cs[fd].currentRoomId;
    if rid != NoRoom && rid in s.rooms {
      var c := cs[fd].(currentRoomId := NoRoom);
      var s3 := s2.(clients := cs[fd := c]);
      assert SeatsKept(cs, s3.clients);
      ClientsOnly(s2, s3.clients);
      DepartKeepsValid(s3, fd, rid, cs[fd].nick);
      var d := Depart(s3, fd, rid, cs[fd].nick).state;
      DropClient(d.clients, fd, d.rooms, d.nextRoomId, d.nextRoundStartTimes);
      DepartIgnoresOwnEntry(s2, fd, rid, cs[fd].nick, c);
      assert s2.(clients := cs[fd := c]) == s3;
    } else {
      DropClient(cs, fd, s.rooms, s.nextRoomId, s.nextRoundStartTimes);
    }
  }

  // ---------------------------------------------------------------------
  // Receiving

  lemma AcceptKeepsValid(s: State, fd: int)
    requires Valid(s)
    ensures Valid(OnAccept(s, fd))
  {
    if fd >= 0 {
      assert SeatsKept(s.clients, s.clients[fd := NewClient]);
      ClientsOnly(s, s.clients[fd := NewClient]);
    }
  }

  lemma BufferedKeepsValid(s: State, fd: int, buf: seq<Byte>)
    requires fd in s.clients && Valid(s)
    ensures Valid(Buffered(s, fd, buf))
  {
    assert SeatsKept(s.clients, Buffered(s, fd, buf).clients);
    ClientsOnly(s, Buffered(s, fd, buf).clients);
  }

  lemma ProcessKeepsValid(s: State, fd: int, tag: Byte, body: seq<Byte>, now: int, random: nat -> nat)
    requires fd in s.clients && Valid(s)
    ensures Valid(Process(s, fd, tag, body, now, random).state)
  {
    var data := BytesString(body);
    match FromTag(tag)
    case Some(Login) => LoginKeepsValid(s, fd, data);
    case Some(CreateRoom) => CreateKeepsValid(s, fd, data);
    case Some(GetRoomList) =>
    case Some(JoinRoom) => JoinKeepsValid(s, fd, data);
    case Some(StartGame) => StartKeepsValid(s, fd, now, random);
    case Some(SubmitAnswers) => SubmitKeepsValid(s, fd, data);
    case Some(SendVote) => VoteKeepsValid(s, fd, data, now);
    case Some(LeaveRoom) => LeaveKeepsValid(s, fd);
    case _ =>
  }

  lemma {:induction false} DispatchKeepsValid(s: State, fd: int, ds: seq<Decoded>, now: int, random: nat -> nat)
    requires fd in s.clients && Valid(s)
    ensures Valid(Dispatch(s, fd, ds, now, random).state)
  {
    if ds != [] {
      DispatchKeepsValid(s, fd, ds[..|ds| - 1], now, random);
      var a := Dispatch(s, fd, ds[..|ds| - 1], now, random);
      var d := ds[|ds| - 1];
      BufferedKeepsValid(a.state, fd, d.rest);
      ProcessKeepsValid(Buffered(a.state, fd, d.rest), fd, d.tag, d.body, now, random);
    }
  }

  lemma InputKeepsValid(s: State, fd: int, bytes: seq<Byte>, now: int, random: nat -> nat)
    requires Valid(s)
    ensures Valid(OnInput(s, fd, bytes, now, random).state)
  {
    if bytes == [] {
      DisconnectKeepsValid(s, fd);
    } else {
      var cs := Touch(s.clients, fd);
      assert SeatsKept(s.clients, cs);
      ClientsOnly(s, cs);
      var t := s.(clients := cs);
      var buf := cs[fd].incomingBuffer + bytes;
      BufferedKeepsValid(t, fd, buf);
      DispatchKeepsValid(Buffered(t, fd, buf), fd, Pending(buf), now, random);
    }
  }

  // ---------------------------------------------------------------------
  // The timer passes

  /** The four parts of the state the consistency is about. */
  predicate SameTables(a: State, b: State)
  {
    a.clients == b.clients && a.rooms == b.rooms && a.nextRoomId == b.nextRoomId &&
    a.nextRoundStartTimes == b.nextRoundStartTimes
  }

  /** The `TIME_UP` pass only drops deadlines. */
  lemma {:induction false} ExpireAllKeepsTables(s: State, ids: seq<int>, now: int)
    ensures SameTables(s, ExpireAll(s, ids, now).state)
  {
    if ids != [] {
      ExpireAllKeepsTables(s, ids[..|ids| - 1], now);
    }
  }

  /** The `TIME_LEFT` pass only moves the times of the last announcements. */
  lemma {:induction false} AnnounceAllKeepsTables(s: State, ids: seq<int>, now: int)
    ensures SameTables(s, AnnounceAll(s, ids, now).state)
  {
    if ids != [] {
      AnnounceAllKeepsTables(s, ids[..|ids| - 1], now);
    }
  }

  /** One entry of the next-round pass, for a room that is gone or still has its entry. */
  lemma RoundStepKeepsValid(s: State, rid: int, startAt: int, now: int, random: nat -> nat)
    requires Valid(s) && (rid in s.rooms ==> rid in s.nextRoundStartTimes)
    ensures Valid(RoundStep(s, rid, startAt, now, random).state)
    ensures forall k :: k in s.nextRoundStartTimes && k != rid ==> k in RoundStep(s, rid, startAt, now, random).state.nextRoundStartTimes
  {
    if rid in s.rooms && now >= startAt {
      var was := s.rooms[rid];
      assert RoomWellFormed(was, rid, s.nextRoomId);
      var t := s.(nextRoundStartTimes := s.nextRoundStartTimes - {rid});
      RoomReplaced(t, rid, was.(currentRound := was.currentRound + 1));
    }
  }

  /** No room id twice among the entries. */
  predicate DistinctIds(entries: seq<(int, int)>)
  {
    forall i, j :: 0 <= i < j < |entries| ==> entries[i].0 != entries[j].0
  }

  /** The schedule lists each room once. */
  lemma ScheduleDistinct(m: map<int, int>)
    ensures DistinctIds(Schedule(m))
  {
    var entries := Schedule(m);
    forall i, j | 0 <= i < j < |entries| ensures entries[i].0 != entries[j].0 {
      assert entries[i].0 == KeysInOrder(m.Keys)[i] && entries[j].0 == KeysInOrder(m.Keys)[j];
    }
  }

  /**
   * The next-round pass over entries of the schedule, each room at most once:
   * the state stays valid, and the entries of the rooms not yet visited stay.
   */
  lemma {:induction false} RoundsAllKeepsValid(s: State, entries: seq<(int, int)>, now: int, random: nat -> nat)
    requires Valid(s) && DistinctIds(entries)
    requires forall j :: 0 <= j < |entries| ==> entries[j].0 in s.nextRoundStartTimes
    ensures Valid(RoundsAll(s, entries, now, random).state)
    ensures forall k :: k in s.nextRoundStartTimes && (forall j :: 0 <= j < |entries| ==> entries[j].0 != k) ==>
      k in RoundsAll(s, entries, now, random).state.nextRoundStartTimes
  {
    if entries != [] {
      var init := entries[..|entries| - 1];
      var e := entries[|entries| - 1];
      RoundsAllKeepsValid(s, init, now, random);
      var a := RoundsAll(s, init, now, random);
      assert forall j :: 0 <= j < |init| ==> init[j].0 != e.0;
      RoundStepKeepsValid(a.state, e.0, e.1, now, random);
    }
  }

  lemma TickKeepsValid(s: State, now: int, random: nat -> nat)
    requires Valid(s)
    ensures Valid(Tick(s, now, random).state)
  {
    var e := ExpireAll(s, KeysInOrder(s.answerTimeouts.Keys), now);
    ExpireAllKeepsTables(s, KeysInOrder(s.answerTimeouts.Keys), now);
    var a := AnnounceAll(e.state, KeysInOrder(e.state.answerTimeouts.Keys), now);
    AnnounceAllKeepsTables(e.state, KeysInOrder(e.state.answerTimeouts.Keys), now);
    var entries := Schedule(a.state.nextRoundStartTimes);
    ScheduleDistinct(a.state.nextRoundStartTimes);
    RoundsAllKeepsValid(a.state, entries, now, random);
  }
}
