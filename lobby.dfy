/**
 * The server's state as values: clients, rooms and the messages sent to
 * them, the consistency the server keeps between them, and declarative
 * definitions of what each lookup and each text the server builds must be.
 */
module Lobby {
  import opened Options
  import opened Protocol
  import opened Text
  import opened Scoring

  /** A connected client, keyed in the client table by its socket. */
  datatype Client = Client(nick: string, incomingBuffer: seq<Byte>, currentRoomId: int, score: int)

  /** The `currentRoomId` of a client that is in no room. */
  const NoRoom: int := -1

  /**
   * A fresh client: what `accept` stores, and also what `operator[]` inserts
   * for a socket that is not in the table (empty nick, no room, score 0).
   */
  const NewClient: Client := Client("", [], NoRoom, 0)

  /** The number of rounds of every game. */
  const MaxRounds: int := 3

  datatype Room = Room(
    id: int, name: string, hostFd: int, players: seq<int>, gameStarted: bool,
    playerAnswers: map<int, string>, playerVotes: map<int, string>,
    currentRound: int, maxRounds: int)

  /** What `operator[]` inserts for a room id that is not in the room table. */
  const DefaultRoom: Room := Room(0, "", 0, [], false, map[], map[], 0, MaxRounds)

  /** A room just created by its host, who is its only player. */
  function NewRoom(id: int, name: string, host: int): Room
  {
    Room(id, name, host, [host], false, map[], map[], 0, MaxRounds)
  }

  /** One message handed to `send`: the socket, the type and the payload text. */
  datatype Message = Message(fd: int, kind: MsgType, data: string)

  /** The bytes a message puts on its socket. */
  function Wire(m: Message): seq<Byte>
  {
    Frame(m.kind, StringBytes(m.data))
  }

  // ---------------------------------------------------------------------
  // std::map::operator[]

  /** The client `clients[fd]` reads. */
  function At(cs: map<int, Client>, fd: int): Client
  {
    if fd in cs then cs[fd] else NewClient
  }

  /** The client table after `clients[fd]` was evaluated. */
  function Touch(cs: map<int, Client>, fd: int): (r: map<int, Client>)
    ensures r.Keys == cs.Keys + {fd} && r[fd] == At(cs, fd)
    ensures forall k :: k in cs ==> r[k] == cs[k]
  {
    if fd in cs then cs else cs[fd := NewClient]
  }

  /** The room `rooms[id]` reads. */
  function RoomAt(rs: map<int, Room>, id: int): Room
  {
    if id in rs then rs[id] else DefaultRoom
  }

  /** A `std::map<int, time_t>` read through `operator[]`. */
  function TimeAt(m: map<int, int>, id: int): int
  {
    if id in m then m[id] else 0
  }

  /** The sockets a player list holds. */
  function Members(fds: seq<int>): set<int>
  {
    set x | x in fds
  }

  /** The client table after `clients[pid]` was evaluated for each entry of `fds`. */
  function TouchAll(cs: map<int, Client>, fds: seq<int>): (r: map<int, Client>)
    ensures r.Keys == cs.Keys + Members(fds)
    ensures forall k :: k in r ==> r[k] == At(cs, k)
  {
    if fds == [] then cs
    else
      var init := fds[..|fds| - 1];
      assert Members(fds) == Members(init) + {fds[|fds| - 1]} by {
        assert fds == init + [fds[|fds| - 1]];
      }
      Touch(TouchAll(cs, init), fds[|fds| - 1])
  }

  /** `clients[pid].currentRoomId = -1` for each entry of `fds`, in order. */
  function Evict(cs: map<int, Client>, fds: seq<int>): map<int, Client>
  {
    if fds == [] then cs
    else
      var c := Evict(cs, fds[..|fds| - 1]);
      var pid := fds[|fds| - 1];
      c[pid := At(c, pid).(currentRoomId := NoRoom)]
  }

  /** Evicting a player list takes every listed socket out of its room and changes no one else. */
  lemma {:induction false} EvictSpec(cs: map<int, Client>, fds: seq<int>)
    ensures Evict(cs, fds).Keys == cs.Keys + Members(fds)
    ensures forall k :: k in Evict(cs, fds) ==>
      Evict(cs, fds)[k] == if k in fds then At(cs, k).(currentRoomId := NoRoom) else cs[k]
  {
    if fds != [] {
      var init := fds[..|fds| - 1];
      EvictSpec(cs, init);
      assert fds == init + [fds[|fds| - 1]];
    }
  }

  /** `clients[pid].score = 0` for each entry of `fds`, in order. */
  function ResetScores(cs: map<int, Client>, fds: seq<int>): map<int, Client>
  {
    if fds == [] then cs
    else
      var c := ResetScores(cs, fds[..|fds| - 1]);
      var pid := fds[|fds| - 1];
      c[pid := At(c, pid).(score := 0)]
  }

  /** Resetting the scores of a player list zeroes every listed socket's score and changes no one else. */
  lemma {:induction false} ResetScoresSpec(cs: map<int, Client>, fds: seq<int>)
    ensures ResetScores(cs, fds).Keys == cs.Keys + Members(fds)
    ensures forall k :: k in ResetScores(cs, fds) ==>
      ResetScores(cs, fds)[k] == if k in fds then At(cs, k).(score := 0) else cs[k]
  {
    if fds != [] {
      var init := fds[..|fds| - 1];
      ResetScoresSpec(cs, init);
      assert fds == init + [fds[|fds| - 1]];
    }
  }

  /** The erase-remove idiom: every occurrence of `x` removed, the order of the rest kept. */
  function Without(xs: seq<int>, x: int): (r: seq<int>)
    ensures forall y :: y in r <==> y in xs && y != x
    ensures |r| <= |xs|
  {
    if xs == [] then []
    else
      var init := Without(xs[..|xs| - 1], x);
      var last := xs[|xs| - 1];
      assert forall y :: y in xs <==> y in xs[..|xs| - 1] || y == last by {
        assert xs == xs[..|xs| - 1] + [last];
      }
      if last == x then init else init + [last]
  }

  /** Removing `x` leaves every other socket as often as before. */
  lemma {:induction false} WithoutCount(xs: seq<int>, x: int, y: int)
    ensures Count(Without(xs, x), y) == if y == x then 0 else Count(xs, y)
  {
    if xs != [] {
      var init := xs[..|xs| - 1];
      var last := xs[|xs| - 1];
      WithoutCount(init, x, y);
      if last != x {
        var w := Without(init, x);
        assert (w + [last])[..|w + [last]| - 1] == w;
      }
    }
  }

  // ---------------------------------------------------------------------
  // The consistency the handlers keep

  /** No two clients share a non-empty nick. */
  predicate NicksUnique(cs: map<int, Client>)
  {
    forall a, b :: a in cs && b in cs && a != b && cs[a].nick != "" ==> cs[a].nick != cs[b].nick
  }

  /** No two rooms share a name. */
  predicate RoomNamesUnique(rs: map<int, Room>)
  {
    forall a, b :: a in rs && b in rs && a != b ==> rs[a].name != rs[b].name
  }

  /** A room's id is its key and was handed out, its host is among its players, its round is in range. */
  predicate RoomWellFormed(r: Room, id: int, nextRoomId: int)
  {
    && r.id == id && 1 <= id < nextRoomId
    && r.hostFd in r.players
    && r.maxRounds == MaxRounds && 0 <= r.currentRound <= r.maxRounds
  }

  predicate RoomsWellFormed(rs: map<int, Room>, nextRoomId: int)
  {
    forall id :: id in rs ==> RoomWellFormed(rs[id], id, nextRoomId)
  }

  /** A client's current room exists and lists the client among its players. */
  predicate MembershipConsistent(cs: map<int, Client>, rs: map<int, Room>)
  {
    forall c :: c in cs && cs[c].currentRoomId != NoRoom ==>
      cs[c].currentRoomId in rs && c in rs[cs[c].currentRoomId].players
  }

  /** A room waiting for its next round has a round left to play. */
  predicate PendingRoundsValid(rs: map<int, Room>, pending: map<int, int>)
  {
    forall id :: id in rs && id in pending ==> rs[id].currentRound < rs[id].maxRounds
  }

  predicate Consistent(cs: map<int, Client>, rs: map<int, Room>, nextRoomId: int, pending: map<int, int>)
  {
    && 1 <= nextRoomId
    && NicksUnique(cs) && RoomNamesUnique(rs) && RoomsWellFormed(rs, nextRoomId)
    && MembershipConsistent(cs, rs) && PendingRoundsValid(rs, pending)
  }

  // ---------------------------------------------------------------------
  // Lookups

  /** Whether some client already has this nick (the empty nick of a client that has not logged in counts). */
  predicate NickInUse(cs: map<int, Client>, nick: string)
  {
    exists k :: k in cs && cs[k].nick == nick
  }

  /** Whether some room already has this name. */
  predicate NameInUse(rs: map<int, Room>, name: string)
  {
    exists id :: id in rs && rs[id].name == name
  }

  /** A room a client may join by this name: one with that name whose game has not started. */
  predicate IsOpen(r: Room, name: string)
  {
    r.name == name && !r.gameStarted
  }

  /** The room a `JOIN_ROOM` for this name enters: the open room with that name and the smallest id. */
  function LeastOpen(rs: map<int, Room>, name: string): (r: Option<int>)
    ensures r.Some? ==> r.value in rs && IsOpen(rs[r.value], name)
    ensures r.Some? ==> forall id :: id in rs && IsOpen(rs[id], name) ==> r.value <= id
    ensures r.None? <==> forall id :: id in rs ==> !IsOpen(rs[id], name)
  {
    var ids := set id | id in rs && IsOpen(rs[id], name);
    if ids == {} then
      assert forall id :: id in rs ==> (IsOpen(rs[id], name) ==> id in ids);
      None
    else
      var m := Least(ids);
      assert m in ids;
      assert forall id :: id in rs && IsOpen(rs[id], name) ==> id in ids;
      Some(m)
  }

  /** The scan of `JOIN_ROOM` in id order stops at the least open room. */
  lemma FirstOpenIsLeast(rs: map<int, Room>, name: string, i: nat)
    requires i < |rs| && IsOpen(rs[KeysInOrder(rs.Keys)[i]], name)
    requires forall j :: 0 <= j < i ==> !IsOpen(rs[KeysInOrder(rs.Keys)[j]], name)
    ensures LeastOpen(rs, name) == Some(KeysInOrder(rs.Keys)[i])
  {
    var ids := KeysInOrder(rs.Keys);
    forall id | id in rs && IsOpen(rs[id], name) ensures ids[i] <= id {
      var j :| 0 <= j < |ids| && ids[j] == id;
      assert i <= j;
    }
  }

  /** A scan that found no open room means there is none. */
  lemma NoneOpen(rs: map<int, Room>, name: string)
    requires forall j :: 0 <= j < |rs| ==> !IsOpen(rs[KeysInOrder(rs.Keys)[j]], name)
    ensures LeastOpen(rs, name) == None
  {
    var ids := KeysInOrder(rs.Keys);
    forall id | id in rs ensures !IsOpen(rs[id], name) {
      var j :| 0 <= j < |ids| && ids[j] == id;
    }
  }

  /** With room names unique, the open room found for a name is the only room of that name. */
  lemma LeastOpenIsTheRoom(rs: map<int, Room>, name: string, id: int)
    requires RoomNamesUnique(rs)
    requires id in rs && IsOpen(rs[id], name)
    ensures LeastOpen(rs, name) == Some(id)
  {
    var r := LeastOpen(rs, name);
    assert r.Some?;
    assert rs[r.value].name == rs[id].name;
  }

  // ---------------------------------------------------------------------
  // Map iteration order

  function ValuesOf(m: map<int, string>, ids: seq<int>): (r: seq<string>)
    requires forall k :: 0 <= k < |ids| ==> ids[k] in m
    ensures |r| == |ids| && forall k :: 0 <= k < |ids| ==> r[k] == m[ids[k]]
  {
    if ids == [] then [] else ValuesOf(m, ids[..|ids| - 1]) + [m[ids[|ids| - 1]]]
  }

  /** The values of a `std::map<int, std::string>` in the order its iterators visit them. */
  function Values(m: map<int, string>): (r: seq<string>)
    ensures |r| == |m|
    ensures forall k :: 0 <= k < |r| ==> r[k] == m[KeysInOrder(m.Keys)[k]]
  {
    ValuesOf(m, KeysInOrder(m.Keys))
  }

  // ---------------------------------------------------------------------
  // Messages

  /** One message with the same type and payload to each socket, in order. */
  function SendAll(fds: seq<int>, kind: MsgType, data: string): (r: seq<Message>)
    ensures |r| == |fds| && forall k :: 0 <= k < |fds| ==> r[k] == Message(fds[k], kind, data)
  {
    if fds == [] then [] else SendAll(fds[..|fds| - 1], kind, data) + [Message(fds[|fds| - 1], kind, data)]
  }

  /** `broadcastToRoom`: one message per entry of the room's player list; nothing when there is no such room. */
  function Broadcast(rs: map<int, Room>, id: int, kind: MsgType, data: string): seq<Message>
  {
    if id in rs then SendAll(rs[id].players, kind, data) else []
  }

  /** The `NEW_PLAYER_JOINED` notices: one per player-list entry that is not the joining socket. */
  function NotifyOthers(fds: seq<int>, self: int, kind: MsgType, data: string): (r: seq<Message>)
    ensures forall m :: m in r ==> m.fd != self && m.fd in fds && m.kind == kind && m.data == data
  {
    if fds == [] then []
    else
      NotifyOthers(fds[..|fds| - 1], self, kind, data)
      + (if fds[|fds| - 1] != self then [Message(fds[|fds| - 1], kind, data)] else [])
  }

  /** Every other entry of the player list is notified, once per entry. */
  lemma {:induction false} NotifyOthersCount(fds: seq<int>, self: int, kind: MsgType, data: string, fd: int)
    ensures Count(NotifyOthers(fds, self, kind, data), Message(fd, kind, data))
      == if fd == self then 0 else Count(fds, fd)
  {
    if fds != [] {
      var init, last := fds[..|fds| - 1], fds[|fds| - 1];
      NotifyOthersCount(init, self, kind, data, fd);
      var tail := if last != self then [Message(last, kind, data)] else [];
      CountAppend(NotifyOthers(init, self, kind, data), tail, Message(fd, kind, data));
      assert tail == [] || (tail[..0] == [] && tail[0] == Message(last, kind, data));
    }
  }

  // ---------------------------------------------------------------------
  // The room list

  function StateText(r: Room): string
  {
    if r.gameStarted then "inprogress" else "waiting"
  }

  /** The fields of one room's entry in the room list. */
  function EntryFields(id: int, r: Room): seq<string>
  {
    [IntToString(id), r.name, IntToString(|r.players|), StateText(r)]
  }

  /** One room's entry in the room list: `id:name:players:state`. */
  function RoomEntry(id: int, r: Room): string
  {
    Join(EntryFields(id, r), ':')
  }

  function ListingOf(rs: map<int, Room>, ids: seq<int>): (r: seq<string>)
    requires forall k :: 0 <= k < |ids| ==> ids[k] in rs
    ensures |r| == |ids| && forall k :: 0 <= k < |ids| ==> r[k] == RoomEntry(ids[k], rs[ids[k]])
  {
    if ids == [] then [] else ListingOf(rs, ids[..|ids| - 1]) + [RoomEntry(ids[|ids| - 1], rs[ids[|ids| - 1]])]
  }

  /** The room entries in ascending id order. */
  function RoomEntries(rs: map<int, Room>): seq<string>
  {
    ListingOf(rs, KeysInOrder(rs.Keys))
  }

  /** The `ROOM_LIST` payload: every room's entry followed by `;`. */
  function RoomList(rs: map<int, Room>): string
  {
    Terminated(RoomEntries(rs), ';')
  }

  lemma JoinHasNo(ts: seq<string>, sep: char, c: char)
    requires c != sep && forall k :: 0 <= k < |ts| ==> c !in ts[k]
    ensures c !in Join(ts, sep)
    decreases |ts|
  {
    if |ts| > 1 {
      JoinHasNo(ts[1..], sep, c);
      JoinCons(ts[0], ts[1..], sep);
    }
  }

  /** An entry of a room whose name has no `;` or `:` has no `;` and splits on `:` into its fields. */
  lemma RoomEntryRoundTrip(id: int, r: Room)
    requires ';' !in r.name && ':' !in r.name
    ensures ';' !in RoomEntry(id, r)
    ensures Tokens(RoomEntry(id, r), ':') == EntryFields(id, r)
  {
    var fs := EntryFields(id, r);
    IntToStringHasNoSeparator(id);
    IntToStringHasNoSeparator(|r.players|);
    assert forall t :: t in fs ==> t == fs[0] || t == fs[1] || t == fs[2] || t == fs[3];
    JoinHasNo(fs, ':', ';');
    TokensOfJoin(fs, ':');
  }

  /**
   * Reading the room list back: when no room name contains `;` or `:`, the
   * list splits on `;` into one entry per room in ascending id order, and each
   * entry splits on `:` into id, name, player count and state.
   */
  lemma RoomListRoundTrip(rs: map<int, Room>)
    requires forall id :: id in rs ==> ';' !in rs[id].name && ':' !in rs[id].name
    ensures Tokens(RoomList(rs), ';') == RoomEntries(rs)
    ensures forall k :: 0 <= k < |RoomEntries(rs)| ==>
      var id := KeysInOrder(rs.Keys)[k];
      Tokens(RoomEntries(rs)[k], ':') == EntryFields(id, rs[id])
  {
    var ids := KeysInOrder(rs.Keys);
    var es := RoomEntries(rs);
    forall k | 0 <= k < |es|
      ensures ';' !in es[k]
      ensures Tokens(es[k], ':') == EntryFields(ids[k], rs[ids[k]])
    {
      RoomEntryRoundTrip(ids[k], rs[ids[k]]);
    }
    assert forall t :: t in es ==> ';' !in t;
    TokensOfTerminated(es, ';');
  }

  // ---------------------------------------------------------------------
  // The player list of JOIN_ROOM_OK

  /**
   * The comma-separated nicks of the given player-list entries. A separator
   * is written only once the text so far is non-empty, so empty nicks at the
   * front leave no separator behind them.
   */
  function NickList(cs: map<int, Client>, fds: seq<int>): string
  {
    if fds == [] then ""
    else
      var before := NickList(cs, fds[..|fds| - 1]);
      (if before != "" then before + "," else before) + At(cs, fds[|fds| - 1]).nick
  }

  function Nicks(cs: map<int, Client>, fds: seq<int>): (r: seq<string>)
    ensures |r| == |fds| && forall k :: 0 <= k < |fds| ==> r[k] == At(cs, fds[k]).nick
  {
    if fds == [] then [] else Nicks(cs, fds[..|fds| - 1]) + [At(cs, fds[|fds| - 1]).nick]
  }

  lemma {:induction false} NickListIsJoin(cs: map<int, Client>, fds: seq<int>)
    requires forall k :: 0 <= k < |fds| ==> At(cs, fds[k]).nick != ""
    ensures NickList(cs, fds) == Join(Nicks(cs, fds), ',')
    ensures fds != [] ==> NickList(cs, fds) != ""
  {
    if fds != [] {
      var init := fds[..|fds| - 1];
      NickListIsJoin(cs, init);
      var ns := Nicks(cs, fds);
      assert Nicks(cs, init) == ns[..|ns| - 1];
      if init != [] {
        JoinSnoc(ns[..|ns| - 1], ns[|ns| - 1], ',');
        assert ns == ns[..|ns| - 1] + [ns[|ns| - 1]];
      } else {
        assert ns == [ns[0]];
      }
    }
  }

  /**
   * When every nick is non-empty and free of commas, the player list splits on
   * `,` into exactly the nicks, in player-list order.
   */
  lemma NickListRoundTrip(cs: map<int, Client>, fds: seq<int>)
    requires forall k :: 0 <= k < |fds| ==> At(cs, fds[k]).nick != "" && ',' !in At(cs, fds[k]).nick
    ensures fds != [] ==> Tokens(NickList(cs, fds), ',') == Nicks(cs, fds)
  {
    NickListIsJoin(cs, fds);
    if fds != [] {
      TokensOfJoin(Nicks(cs, fds), ',');
    }
  }

  /** A player with an empty nick at the front of the list leaves no trace in it. */
  lemma {:induction false} NickListSkipsLeadingEmpty(cs: map<int, Client>, fds: seq<int>)
    requires fds != [] && At(cs, fds[0]).nick == ""
    ensures NickList(cs, fds) == NickList(cs, fds[1..])
  {
    if |fds| == 1 {
      assert fds[..0] == [] && fds[1..] == [];
    } else {
      var init := fds[..|fds| - 1];
      assert init[0] == fds[0] && init[1..] == fds[1..][..|fds| - 2];
      NickListSkipsLeadingEmpty(cs, init);
      assert fds[1..][|fds| - 2] == fds[|fds| - 1];
    }
  }

  // ---------------------------------------------------------------------
  // The verification payload

  /** The distinct non-empty words given for category `i`, in `std::set` order. */
  function CategoryWords(answers: seq<string>, i: nat): seq<string>
  {
    if answers == [] then []
    else
      var before := CategoryWords(answers[..|answers| - 1], i);
      var w := FieldOf(answers[|answers| - 1], i);
      if w != "" then Insert(before, w) else before
  }

  /** What each answer gives for category `i`, in the order of the answers. */
  function Column(answers: seq<string>, i: nat): (r: seq<string>)
    ensures |r| == |answers| && forall k :: 0 <= k < |answers| ==> r[k] == FieldOf(answers[k], i)
  {
    if answers == [] then [] else Column(answers[..|answers| - 1], i) + [FieldOf(answers[|answers| - 1], i)]
  }

  /** The category's word list holds each non-empty word some answer gives there, once, in order. */
  lemma {:induction false} CategoryWordsSpec(answers: seq<string>, i: nat)
    ensures StrictlySorted(CategoryWords(answers, i))
    ensures forall w :: w in CategoryWords(answers, i) <==> w != "" && w in Column(answers, i)
  {
    if answers != [] {
      var init := answers[..|answers| - 1];
      var w := FieldOf(answers[|answers| - 1], i);
      CategoryWordsSpec(init, i);
      assert Column(answers, i) == Column(init, i) + [w];
      if w != "" {
        InsertSorted(CategoryWords(init, i), w);
      }
    }
  }

  /** One section of the verification payload: the label, `:`, and the words joined by `,`. */
  function Section(answers: seq<string>, i: nat): string
    requires i < |Labels|
  {
    Labels[i] + ":" + Join(CategoryWords(answers, i), ',')
  }

  function SectionsUpTo(answers: seq<string>, n: nat): (r: seq<string>)
    requires n <= |Labels|
    ensures |r| == n && forall i :: 0 <= i < n ==> r[i] == Section(answers, i)
  {
    if n == 0 then [] else SectionsUpTo(answers, n - 1) + [Section(answers, n - 1)]
  }

  /** The `VERIFICATION_START` payload: the five sections, each followed by `;`. */
  function VerificationPayload(answers: seq<string>): string
  {
    Terminated(SectionsUpTo(answers, Categories), ';')
  }

  lemma FieldOfHasNoSemicolon(answer: string, i: nat)
    ensures ';' !in FieldOf(answer, i)
  {
    var ts := Tokens(answer, ';');
    TokensHaveNoDelimiter(answer, ';');
    if i < |Fields(answer)| {
      assert FieldOf(answer, i) == ts[i];
    }
  }

  /**
   * Reading the verification payload back: it splits on `;` into exactly the
   * five sections, in category order, whatever the answers were (a word never
   * contains `;`, since words are the `;`-separated fields of an answer).
   */
  lemma VerificationPayloadSections(answers: seq<string>)
    ensures Tokens(VerificationPayload(answers), ';') == SectionsUpTo(answers, Categories)
  {
    var ss := SectionsUpTo(answers, Categories);
    forall i | 0 <= i < |ss| ensures ';' !in ss[i] {
      var ws := CategoryWords(answers, i);
      CategoryWordsSpec(answers, i);
      forall j | 0 <= j < |ws| ensures ';' !in ws[j] {
        assert ws[j] in ws;
        var k :| 0 <= k < |answers| && Column(answers, i)[k] == ws[j];
        FieldOfHasNoSemicolon(answers[k], i);
      }
      JoinHasNo(ws, ',', ';');
      assert ';' !in Labels[i];
    }
    TokensOfTerminated(ss, ';');
  }
}
