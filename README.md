# Word-game server: a verified model

This project models the server of a multiplayer, round-based word game (the
"Państwo-Miasto" family). Players log in with a nickname. They create rooms or
join them by name. The host starts a game of three rounds. Each round draws a
letter, and every player submits one word for each of five categories. The
players then veto each other's words, and the server scores the round.

The server is a single-threaded `poll` loop. It owns a client table keyed by
socket, a room table keyed by room id, a room-id counter, and three timer
tables: answer deadlines, times of the last `TIME_LEFT` announcement, and
start times of the next round. Every message on the wire is a frame: one type
byte, a four-byte big-endian payload length, then the payload.

The model is layered as follows.

- `Options`: the `Option` type.
- `Protocol`: the message types and their tag bytes, big-endian lengths,
  `createMessage`, and the deframing loop as a decoder. Round trips are proved
  for one frame and for a whole stream of frames.
- `Text`: the library behaviour the server relies on:
  - `split` over `std::getline`, as a method proved against a declarative
    `Tokens`;
  - `std::to_string` and `std::stoi` on `int`;
  - the lexicographic order of `std::string` and the sorted insertion of
    `std::set<std::string>`;
  - the ascending key order in which a `std::map<int, _>` is iterated.
- `Scoring`: the scoring rule of `calculateScores` as pure functions. Its
  lemmas cover the 10/5/0 points of a word, the bounds and additivity of a
  round score, and a round trip of the vote format.
- `Lobby`: clients, rooms, messages and the consistency predicate. It also
  holds `std::map::operator[]` with its default insertion, the erase-remove
  idiom, and declarative definitions of every lookup and every payload the
  server builds (room list, player list, verification payload), with their
  round-trip lemmas.
- `Game`: one step function per event, from the state before to the state
  after plus the messages sent. There is one per message handler, one for a
  disconnect, one for accepting a connection, one for a whole read (the framing
  loop), and one per timer pass of `run()`.
- `Tallies`: the counting loops of `calculateScores` and the
  `VERIFICATION_START` payload, as methods. Each is proved to compute its
  `Scoring` or `Lobby` definition.
- `Server`: the `GameServer` class. It has the same tables as mutable fields
  and an `outbox` of every message handed to `send`. Each handler is a method
  that updates the fields in place, and each is proved to produce exactly the
  state and messages of its `Game` step function. Every handler, every entry
  point of the event loop (`Accept`, `HandleDisconnect`, `HandleInput`) and
  the timer section (`Tick`) also promises that a valid state stays valid.
- `Invariant`: every event keeps `Game.Valid`:
  - nicks are unique;
  - room names are unique;
  - a room's id is its key and lies below the id counter;
  - a room's host is among its players and its round is in range;
  - every client's current room exists and lists that client;
  - a next-round entry exists only for a room with a round left.
- `Events`: what each event promises, stated against the state before it.
  This covers who is answered and with what, what changes and what does not,
  and what the timer passes leave behind.

Where the code and the intended design differ, the model follows the code:

- `LOGIN` compares the nick with every client's nick, the sender's own and
  the empty nicks of clients that have not logged in included. So a login
  with an empty nick fails while any client has no nick, and re-sending one's
  own nick fails.
- Vetoes are not de-duplicated per voter. A vote string that lists an entry
  twice counts it twice (`Scoring.VetoesAddUp`).
- `JOIN_ROOM` does not check whether the sender is already in that room or in
  another one. It appends the sender to the player list again, so a player
  list can contain duplicates. The consistency predicate therefore does not
  claim that player lists are duplicate-free.
- `SUBMIT_ANSWERS` and `SEND_VOTE` read `rooms[roomId]` without checking that
  the room exists, so a missing room is default-constructed. The model does
  this too (`Lobby.RoomAt`). In a valid state it cannot happen
  (`Invariant.CurrentRoomExists`).
- `handleDisconnect` does not reset the departing client's room before the
  departure cascade; it erases the client afterwards. `Invariant.DepartIgnoresOwnEntry`
  shows that the order makes no difference to the result.

## Model

| member | source | states |
|---|---|---|
| Protocol.Tag | src/common/protocol.hpp:8-37 | every message type is sent as a tag between 1 and 25 |
| Protocol.TagsInDeclarationOrder | src/common/protocol.hpp:8-37 | there are 25 message types and the k-th declared one has tag k+1 (`LOGIN = 1`, the rest counting on) |
| Protocol.FromTag | src/common/protocol.hpp:8-37 | a byte names a message type exactly when it is between 1 and 25, and then it is that type's tag |
| Protocol.FromTagOfTag | src/common/protocol.hpp:8-37 | reading back the tag of a type gives that type |
| Protocol.ReadBigEndianOfBigEndian | src/common/protocol.hpp:50 | `ntohl` of the four bytes `htonl` wrote is the original 32-bit length |
| Protocol.BigEndianOfReadBigEndian | src/server/server.cpp:445 | any four length bytes are what `htonl` writes for the value `ntohl` reads from them |
| Protocol.FrameLayout | src/common/protocol.hpp:44-54 | a frame is header plus payload long; byte 0 is the tag, bytes 1-4 are the payload length most significant first, and the payload follows unchanged |
| Protocol.CreateMessage | src/common/protocol.hpp:44-54 | the fresh buffer `createMessage` fills holds exactly the frame of the type and payload |
| Protocol.StringBytesOfBytesString | src/server/server.cpp:181 | received bytes turned into `dataStr` and sent back out are the same bytes |
| Protocol.BytesStringOfStringBytes | src/common/protocol.hpp:52 | a string of characters below 256 survives being copied into a frame and read back |
| Protocol.TryDecode | src/server/server.cpp:443-456 | each successful pass of the framing loop leaves a strictly shorter buffer, so the loop ends |
| Protocol.DecodeConsumesOneFrame | src/server/server.cpp:442-456 | a successful pass removes exactly header, announced length and payload from the front; with a known tag, the buffer was that frame followed by the rest |
| Protocol.DecodeFrame | src/server/server.cpp:442-456 | a frame followed by any bytes decodes to its tag and payload and leaves exactly those bytes |
| Protocol.DecodeIgnoresLaterBytes | src/server/server.cpp:440-446 | bytes appended later do not change a decode that already succeeded, only its remainder |
| Protocol.NoFrameWhenDeclined | src/server/server.cpp:443-446 | when the loop stops, the buffer does not start with a complete frame |
| Protocol.Deframe | src/server/server.cpp:442-458 | what the framing loop leaves buffered never holds a complete frame at its front |
| Protocol.Pending | src/server/server.cpp:442-458 | the loop dispatches nothing exactly when the first check declines the buffer |
| Protocol.PendingDeframe | src/server/server.cpp:442-458 | the frames dispatched are the tag and body of each pass in order, and the last pass's remainder is what stays buffered |
| Protocol.DeframeFrames | src/server/server.cpp:440-458 | frames sent back to back, followed by an incomplete start, are received as exactly those frames in order, with the incomplete start left buffered |
| Text.IndexOf | src/server/server.cpp:76 | the position `getline` stops at is the first delimiter, or the end when there is none |
| Text.TokensAtDelimiter | src/server/server.cpp:76-77 | a token that ends at a delimiter is the first value pushed, and splitting resumes after the delimiter |
| Text.TokensAtEnd | src/server/server.cpp:76-78 | text with no delimiter left gives one last token, or none when it is empty |
| Text.Split | src/server/server.cpp:72-80 | `split` returns exactly the tokens of the declarative getline splitting: no token for empty input or after a trailing delimiter, and the empty tokens between delimiters kept |
| Text.TokensHaveNoDelimiter | src/server/server.cpp:72-80 | no token contains the delimiter |
| Text.TokensRebuild | src/server/server.cpp:72-80 | joining the tokens with the delimiter, plus the trailing delimiter if there was one, gives back the input |
| Text.TokensOfJoin | src/server/server.cpp:72-80 | tokens free of the delimiter, the last non-empty, are split back out of their join |
| Text.TokensOfTerminated | src/server/server.cpp:92 | a list of tokens each followed by `;` (the shape of vote and summary strings) splits back into exactly those tokens |
| Text.DigitPrefix | src/server/server.cpp:97 | `stoi` reads the longest run of leading decimal digits |
| Text.StoiOfIntToString | src/server/server.cpp:97 | `stoi` of what `to_string` writes for an `int`, followed by text that does not start with a digit, is that `int` |
| Text.StoiOfDigits | src/server/server.cpp:97 | `stoi` of a run of digits whose value fits an `int` is that value, whatever non-digit text follows |
| Text.StoiOfSignedDigits | src/server/server.cpp:97 | the same with a leading minus, down to the least `int` |
| Text.LessIrreflexive | src/server/server.cpp:318 | no string is below itself in `std::string` order |
| Text.LessTransitive | src/server/server.cpp:318 | `std::string` order is transitive |
| Text.LessTotal | src/server/server.cpp:318 | two different strings are ordered one way or the other |
| Text.LessAsymmetric | src/server/server.cpp:318 | two strings are never each below the other |
| Text.InsertSorted | src/server/server.cpp:324 | `std::set::insert` keeps the elements strictly increasing and adds exactly the new word |
| Text.SortedUnique | src/server/server.cpp:335 | a set's iteration order is determined by its elements |
| Text.AscendingMembers | src/server/server.cpp:235 | iterating a map visits every key once and nothing else |
| Text.AscendingOrder | src/server/server.cpp:235 | iterating a map visits its keys in strictly increasing order |
| Text.KeysInOrder | src/server/server.cpp:46-51 | the keys of a `std::map<int, _>` in iteration order: each key once, strictly increasing |
| Scoring.FieldOfIsToken | src/server/server.cpp:108-111 | the word scored for category i is the i-th `;` token when i < 5 and the answer has one, else empty |
| Scoring.RoundOf | src/server/server.cpp:89-103 | the veto tally counts, per category and word, every well-formed `idx:word` entry of every vote string |
| Scoring.OwnWordCounted | src/server/server.cpp:105-124 | an accepted, non-empty word an answer gives is counted at least once among the valid answers |
| Scoring.SharedWordScoresFive | src/server/server.cpp:146-151 | two submitted answers that share an accepted word in a category both score 5 for it |
| Scoring.UniqueWordScoresTen | src/server/server.cpp:146-149 | an accepted word no other submitted answer gives in that category scores 10 |
| Scoring.RejectedScoresZero | src/server/server.cpp:135-146 | an empty field or a vetoed word scores nothing |
| Scoring.WordPointsValues | src/server/server.cpp:146-151 | a category scores 0, 5 or 10 |
| Scoring.RoundPointsRange | src/server/server.cpp:133-153 | a round score is a multiple of 5 between 0 and 50 |
| Scoring.RoundPointsIsCategorySum | src/server/server.cpp:133-153 | a round score is the sum of the five category scores, missing fields counting 0 |
| Scoring.EmptyAnswerScoresZero | src/server/server.cpp:130-137 | a player who submitted nothing, or only empty fields, scores 0 |
| Scoring.IntToStringHasNoSeparator | src/server/server.cpp:155 | a number written by `to_string` contains no `;`, `:` or `,` |
| Scoring.EntryRoundTrip | src/server/server.cpp:94-99 | a `category:word` entry with a word free of `:` and `;` is read back as that entry |
| Scoring.EntryTextsRoundTrip | src/server/server.cpp:92-101 | a list of such entries is read back in order |
| Scoring.VoteRoundTrip | src/server/server.cpp:91-103 | a vote string of `category:word;` entries is read back as exactly those entries, in order, with repetitions |
| Scoring.VetoesAddUp | src/server/server.cpp:91-103 | one more vote string adds every entry it lists to the tally, repeated entries included |
| Scoring.SharedWordWithoutVetoes | src/server/server.cpp:105-151 | two players who give the same first-category word and veto nothing score 5 each for it |
| Lobby.Touch | src/server/server.cpp:263 | `clients[fd]` adds a blank client for a missing socket and changes no existing entry |
| Lobby.TouchAll | src/server/server.cpp:261-264 | reading `clients[pid]` for each player adds blank entries for the missing ones only |
| Lobby.EvictSpec | src/server/server.cpp:170-172 | sending a player list back to the lobby resets exactly the listed sockets' rooms and changes nothing else |
| Lobby.ResetScoresSpec | src/server/server.cpp:297-299 | resetting a player list's scores zeroes exactly the listed sockets' scores and changes nothing else |
| Lobby.Without | src/server/server.cpp:366 | erase-remove drops every occurrence of the socket and keeps every other one |
| Lobby.WithoutCount | src/server/server.cpp:366 | erase-remove keeps every other socket as often as before and leaves none of the removed one |
| Lobby.LeastOpen | src/server/server.cpp:246-254 | the room `JOIN_ROOM` picks is a room of that name that has not started, with the smallest id; there is none exactly when no such room exists |
| Lobby.FirstOpenIsLeast | src/server/server.cpp:248-253 | a scan in id order that stops at the first open room of the name stops at that room |
| Lobby.NoneOpen | src/server/server.cpp:246-254 | a scan that finds no open room means there is none |
| Lobby.LeastOpenIsTheRoom | src/server/server.cpp:243-254 | with unique room names, the room joined is the one room of that name |
| Lobby.Values | src/server/server.cpp:107 | a `std::map<int, std::string>` is iterated in ascending key order |
| Lobby.SendAll | src/server/server.cpp:67-69 | one message with the same type and payload per listed socket, in list order |
| Lobby.NotifyOthers | src/server/server.cpp:268-272 | every `NEW_PLAYER_JOINED` notice goes to a listed socket other than the joiner |
| Lobby.NotifyOthersCount | src/server/server.cpp:268-272 | every other socket is notified once per time it is listed, and the joiner never |
| Lobby.RoomEntryRoundTrip | src/server/server.cpp:236-237 | a room entry splits on `:` into id, name, player count and state when the name has no `:` or `;` |
| Lobby.RoomListRoundTrip | src/server/server.cpp:233-240 | the room list splits on `;` into one entry per room in ascending id order, each splitting into its four fields |
| Lobby.NickListIsJoin | src/server/server.cpp:260-264 | with non-empty nicks, the player list is the nicks joined by `,` |
| Lobby.NickListRoundTrip | src/server/server.cpp:260-264 | with non-empty nicks free of `,`, the player list splits back into the nicks in list order |
| Lobby.NickListSkipsLeadingEmpty | src/server/server.cpp:262 | an empty nick at the front of the list leaves no trace, not even a separator |
| Lobby.CategoryWordsSpec | src/server/server.cpp:318-327 | a category's word set holds each non-empty word some answer gives there, once, in string order |
| Lobby.VerificationPayloadSections | src/server/server.cpp:329-341 | the verification payload splits on `;` into exactly the five labelled sections, in category order |
| Game.Letter | src/server/server.cpp:82-84 | a drawn letter is between `A` and `Z` |
| Game.AwardAt | src/server/server.cpp:155-158 | after the scoring loop, a socket's score has grown by its points once per time it is listed, and nothing else in its entry has changed |
| Game.AwardScores | src/server/server.cpp:129-159 | the scoring loop adds each player's round points to its score and changes nothing else in the client table |
| Game.AwardOneSummaries | src/server/server.cpp:155-158 | one pass of the scoring loop appends `nick:points;` to the round summary and `nick:score;`, with the score just raised, to the total summary |
| Game.AwardedSoFar | src/server/server.cpp:155-158 | when the loop reaches an entry, that client still has its nick, and its raised score is its score before plus its points once per listing up to and including this one |
| Game.RoundSummaryIs | src/server/server.cpp:129-159 | the round summary is one `nick:points;` entry per player-list entry, in list order |
| Game.TotalSummaryIs | src/server/server.cpp:129-159 | the total summary is one `nick:score;` entry per player-list entry, in list order, each with the running score after that entry |
| Game.ScoreEntryRoundTrip | src/server/server.cpp:155-158 | a `nick:number` entry has no `;` when the nick has none, and splits on `:` into the nick and the number when the nick has no `:` |
| Game.RoundSummaryRoundTrip | src/server/server.cpp:155 | with no `;` in the listed nicks, the round summary splits on `;` into exactly its entries |
| Game.TotalSummaryRoundTrip | src/server/server.cpp:158 | with no `;` in the listed nicks, the total summary splits on `;` into exactly its entries |
| Game.OnDisconnect | src/server/server.cpp:423 | a disconnected socket is no longer in the client table |
| Game.ReceiveRebuffered | src/server/server.cpp:440-458 | the framing loop's result depends only on the bytes buffered, not on an earlier buffer |
| Game.DispatchBuffers | src/server/server.cpp:453-456 | after the loop, the reader's buffer is the remainder of its last pass, and no other buffer has changed |
| Game.ReceiveLeavesTail | src/server/server.cpp:442-458 | the loop leaves exactly the incomplete tail behind the buffer's frames, and keeps every other client and buffer |
| Game.AnnounceAll | src/server/server.cpp:525-533 | the `TIME_LEFT` pass changes neither the deadlines nor the rooms; who is sent what is stated by `Events.AnnouncePassTargets` and `Events.AnnouncePassReaches` |
| Game.Schedule | src/server/server.cpp:535-537 | the next-round pass visits every entry of the schedule once, in ascending room-id order |
| Invariant.EvictEmptiesRoom | src/server/server.cpp:170-172 | once a room's player list has been evicted, no client is left seated in that room |
| Invariant.CurrentRoomExists | src/server/server.cpp:314 | in a valid state a client's current room exists, so the default-construction branch is never reached |
| Invariant.LoginKeepsValid | src/server/server.cpp:184-200 | `LOGIN` keeps the state valid |
| Invariant.CreateKeepsValid | src/server/server.cpp:202-231 | `CREATE_ROOM` keeps the state valid |
| Invariant.JoinKeepsValid | src/server/server.cpp:243-277 | `JOIN_ROOM` keeps the state valid |
| Invariant.SeatKeepsValid | src/server/server.cpp:257-258 | seating a client in a room keeps the state valid |
| Invariant.StartKeepsValid | src/server/server.cpp:279-308 | `START_GAME` keeps the state valid |
| Invariant.BeginGameKeepsValid | src/server/server.cpp:295-306 | starting a game keeps the state valid |
| Invariant.SubmitKeepsValid | src/server/server.cpp:310-346 | `SUBMIT_ANSWERS` keeps the state valid |
| Invariant.VoteKeepsValid | src/server/server.cpp:348-359 | `SEND_VOTE` keeps the state valid |
| Invariant.ScoresKeepsValid | src/server/server.cpp:86-178 | `calculateScores` keeps the state valid |
| Invariant.CloseRoundKeepsValid | src/server/server.cpp:161-177 | ending a round or the game keeps the state valid |
| Invariant.DepartKeepsValid | src/server/server.cpp:364-383 | the departure cascade keeps the state valid |
| Invariant.LeaveKeepsValid | src/server/server.cpp:361-386 | `LEAVE_ROOM` keeps the state valid |
| Invariant.DepartIgnoresOwnEntry | src/server/server.cpp:396-423 | the departure gives the same result, apart from the departing socket's own entry, whatever that entry holds; so resetting or not resetting it first makes no difference once it is erased |
| Invariant.DisconnectKeepsValid | src/server/server.cpp:393-428 | a disconnect keeps the state valid |
| Invariant.AcceptKeepsValid | src/server/server.cpp:498-506 | a new connection keeps the state valid |
| Invariant.ProcessKeepsValid | src/server/server.cpp:180-391 | every dispatched frame, of any type byte, keeps the state valid |
| Invariant.DispatchKeepsValid | src/server/server.cpp:442-458 | any sequence of dispatched frames keeps the state valid |
| Invariant.InputKeepsValid | src/server/server.cpp:430-459 | a whole read, or a disconnect on an empty read, keeps the state valid |
| Invariant.ExpireAllKeepsTables | src/server/server.cpp:514-523 | the `TIME_UP` pass changes no client, room, counter or next-round entry |
| Invariant.AnnounceAllKeepsTables | src/server/server.cpp:525-533 | the `TIME_LEFT` pass changes no client, room, counter or next-round entry |
| Invariant.RoundStepKeepsValid | src/server/server.cpp:538-554 | one entry of the next-round pass keeps the state valid and drops no other entry |
| Invariant.RoundsAllKeepsValid | src/server/server.cpp:535-555 | the next-round pass keeps the state valid and keeps the entries it has not reached |
| Invariant.TickKeepsValid | src/server/server.cpp:514-555 | the timer section of the event loop keeps the state valid |
| Events.LoginOutcome | src/server/server.cpp:184-200 | `LOGIN` succeeds exactly when no client has the nick; on success only the sender's nick changes, on failure it is refused and nothing changes |
| Events.RoomIdsBelowNext | src/server/server.cpp:218 | in a valid state every room id is positive and below the id counter, so a new room never overwrites one |
| Events.CreateOutcome | src/server/server.cpp:202-231 | `CREATE_ROOM` is ignored without a nick and refused with nothing changed on a taken name; otherwise it creates room `nextRoomId` with the sender as host and only player, seats the sender, advances the counter and confirms with the name, and changes nothing else |
| Events.NickListSameNicks | src/server/server.cpp:260-264 | the player list depends only on the players' nicks |
| Events.JoinOutcome | src/server/server.cpp:243-277 | `JOIN_ROOM` is refused with nothing changed when no room of that name is waiting; otherwise the sender is appended to the least such room's list and seated there, a listed socket without a client entry gets a blank one, nothing else changes, the sender is sent the name and all nicks, and every other listed socket is sent its nick |
| Events.RoundTextSplits | src/server/server.cpp:303 | the `GAME_STARTED` payload splits on `;` into the letter, the round and the number of rounds |
| Events.StartRefused | src/server/server.cpp:279-293 | `START_GAME` is ignored outside a room, and refused with nothing changed to anyone but the host and to a host alone in the room |
| Events.StartBegins | src/server/server.cpp:295-306 | a host with company starts round 1: the game is marked started with no answers or votes, all players' scores are 0 and no other client changes, one letter is drawn and every player is sent `letter;1;rounds`, the deadline is 30 seconds away and the last announcement is now; the schedule and the counter stay |
| Events.SubmitOutcome | src/server/server.cpp:310-346 | the sender's answer is recorded and nothing else changes, and the verification payload goes to every player exactly when the last answer is in |
| Events.ScoresOutcome | src/server/server.cpp:86-178 | every client gains its round points once per entry in the player list and nothing else in it changes but the seat; the players are sent the round summary, one `nick:points;` per entry; then either answers and votes are cleared and the next round is 5 seconds away, or the totals go out, one `nick:score;` per entry, the players are back in the lobby and the room and its timers are gone |
| Events.VoteOutcome | src/server/server.cpp:348-359 | `SEND_VOTE` is ignored outside a room; otherwise the vote is recorded, nothing else happens until the last vote is in, and the last vote scores the round with the effect of `Events.ScoresOutcome` |
| Events.CloseRoundOutcome | src/server/server.cpp:161-177 | after a round that is not the last: the summary goes out, answers and votes are cleared, the next round is 5 seconds away, and nothing else changes; after the last: the summary and totals go out, the room and its timers are gone, its players are back in the lobby, no other client changes, and no client stays seated there |
| Events.DepartOutcome | src/server/server.cpp:364-383 | the leaver is no longer listed, answered or voted there, and no other room changes; a leaving host dissolves the room and sends every other player back to the lobby with `HOST_LEFT`, no other client changing; another player's leaving sends `PLAYER_LEFT` with its nick, only the room changes, and it goes exactly when it is empty |
| Events.DisconnectOutcome | src/server/server.cpp:393-423 | a disconnect ends in the state `LEAVE_ROOM` would leave with the client forgotten, and sends the same messages; no other room changes |
| Events.ExpireStepOutcome | src/server/server.cpp:516-521 | one room of the `TIME_UP` pass: an expired room loses its deadline and its players are sent `TIME_UP`; any other room is left alone |
| Events.ExpirePassClears | src/server/server.cpp:514-523 | the `TIME_UP` pass drops a deadline exactly when its room was visited and had expired, keeps the rooms and the other deadlines, and leaves no visited deadline passed |
| Events.ExpirePassTargets | src/server/server.cpp:514-523 | every `TIME_UP` goes to a player of a started room whose deadline had passed |
| Events.ExpirePassReaches | src/server/server.cpp:514-523 | every player of a visited started room whose deadline had passed is sent `TIME_UP` |
| Events.AnnounceStepOutcome | src/server/server.cpp:525-532 | one room of the `TIME_LEFT` pass: a started room counting down whose last announcement is a second old or more is sent the seconds left and its time becomes now; a room counting down announced more recently gets nothing and keeps its time, read with default insertion; any other room is left alone |
| Events.AnnouncePassIsRecent | src/server/server.cpp:525-533 | after the `TIME_LEFT` pass, every visited room still counting down was announced less than a second ago, and every other room's announcement time is as it was |
| Events.AnnounceStepTarget | src/server/server.cpp:525-532 | a `TIME_LEFT` sent partway through the pass is for a room not visited before, counting down and announced at least a second before, and carries the seconds left |
| Events.AnnounceLastTarget | src/server/server.cpp:525-532 | `Events.AnnounceStepTarget` for the state the pass reaches after a prefix of the rooms |
| Events.AnnouncePassSource | src/server/server.cpp:525-533 | every `TIME_LEFT` of the pass is sent by the step of one visited room |
| Events.AnnouncePassTargets | src/server/server.cpp:525-533 | every `TIME_LEFT` goes to a player of a visited room counting down whose last announcement was at least a second before, and carries that room's seconds left |
| Events.AnnouncePassReaches | src/server/server.cpp:525-533 | every player of such a room is sent `TIME_LEFT` with the seconds left |
| Events.RoundStepDue | src/server/server.cpp:544-551 | a due entry for an existing room moves the round on by one, draws a letter, sends every player `letter;round;rounds`, sets the deadline 30 seconds away and the announcement time to now, drops the entry, and changes nothing else |
| Events.RoundStepWaits | src/server/server.cpp:538-554 | an entry not yet due changes nothing; an entry for a room that is gone is dropped and nothing is sent |
| Events.RoundsPassClears | src/server/server.cpp:535-555 | after the next-round pass, each visited entry left is for a room that exists and is not yet due, the unvisited entries stay, and no room disappears |
| Events.RoundsPassRounds | src/server/server.cpp:535-555 | the next-round pass moves a room exactly one round on when its entry was due and leaves every other room as it was, as the predicate `Events.RoundsMoved` spells out |
| Events.SchedulePassClears | src/server/server.cpp:535-555 | after the pass over the whole schedule, every entry is for an existing room that is not yet due |
| Events.TickLeavesNoDueRound | src/server/server.cpp:514-555 | a pass of the event loop's timers leaves no next-round entry due or dangling |
| Tallies.ReadVeto | src/server/server.cpp:94-100 | a vote entry counts exactly when it splits on `:` into two parts whose first `stoi` accepts |
| Tallies.TallyVote | src/server/server.cpp:92-102 | one vote string's entries are added to the tally |
| Tallies.TallyVetoes | src/server/server.cpp:89-103 | the veto tally counts every well-formed entry of every vote string |
| Tallies.Accepts | src/server/server.cpp:116-118 | a word is accepted in a room of one, and otherwise when fewer than half of the players veto it |
| Tallies.TallyAnswer | src/server/server.cpp:108-123 | one answer's accepted words are added to the count of valid answers |
| Tallies.TallyValid | src/server/server.cpp:105-124 | the count, per category and word, of submitted answers giving that word accepted |
| Tallies.ScoreAnswer | src/server/server.cpp:132-153 | the points one answer earns are its round score by the scoring rule |
| Tallies.VerificationText | src/server/server.cpp:318-341 | the payload built from the category sets is the verification payload of the answers |
| Tallies.WriteSections | src/server/server.cpp:332-341 | writing the five sets section by section gives the verification payload |
| Tallies.CollectAnswer | src/server/server.cpp:320-327 | inserting one answer's fields updates each category set to include that answer |
| Tallies.WriteSection | src/server/server.cpp:333-340 | one section is the label, `:`, the words separated by `,`, and `;` |
| Server.GameServer.constructor | src/server/server.cpp:46-51 | a new server has empty tables, room ids starting at 1, and has sent nothing, and its state is valid |
| Server.GameServer.SendTo | src/server/server.cpp:58-61 | one message is handed to `send` |
| Server.GameServer.SendEach | src/server/server.cpp:67-69 | one message per listed socket, in order |
| Server.GameServer.BroadcastToRoom | src/server/server.cpp:63-70 | one message per player of the room, none for a missing room |
| Server.GameServer.GetRandomLetter | src/server/server.cpp:82-84 | the next value of the random source as a letter; one draw is used |
| Server.GameServer.NickTaken | src/server/server.cpp:185-191 | the scan finds the nick exactly when some client has it |
| Server.GameServer.NameTaken | src/server/server.cpp:206-212 | the scan finds the name exactly when some room has it |
| Server.GameServer.FindOpenRoom | src/server/server.cpp:246-254 | the scan finds the least open room of the name, or none when there is none |
| Server.GameServer.RoomListing | src/server/server.cpp:234-238 | the loop builds the room-list payload |
| Server.GameServer.EntryOf | src/server/server.cpp:236-237 | one room's `id:name:players:state` entry |
| Server.GameServer.HandleLogin | src/server/server.cpp:184-200 | the new tables and the messages sent are exactly those of `Game.OnLogin`, whose outcome `Events.LoginOutcome` states, and a valid state stays valid |
| Server.GameServer.HandleCreateRoom | src/server/server.cpp:202-231 | the new tables and the messages sent are exactly those of `Game.OnCreateRoom`, whose outcome `Events.CreateOutcome` states, and a valid state stays valid |
| Server.GameServer.HandleGetRoomList | src/server/server.cpp:233-241 | nothing changes and the sender is sent the room list of `Lobby.RoomList`, which `Lobby.RoomListRoundTrip` reads back, and a valid state stays valid |
| Server.GameServer.HandleJoinRoom | src/server/server.cpp:243-277 | the new tables and the messages sent are exactly those of `Game.OnJoinRoom`, whose outcome `Events.JoinOutcome` states, and a valid state stays valid |
| Server.GameServer.JoinAs | src/server/server.cpp:256-272 | the success path of `JOIN_ROOM` |
| Server.GameServer.Seat | src/server/server.cpp:257-258 | the sender is appended to the room and seated there |
| Server.GameServer.Welcome | src/server/server.cpp:260-272 | the reply to the joiner and the notices to the others |
| Server.GameServer.NotifyOthersOf | src/server/server.cpp:268-272 | the `NEW_PLAYER_JOINED` notices |
| Server.GameServer.CollectNicks | src/server/server.cpp:260-264 | the player list, with the entries `clients[pid]` inserts |
| Server.GameServer.HandleStartGame | src/server/server.cpp:279-308 | the new tables, the draw and the messages sent are exactly those of `Game.OnStartGame`, stated by `Events.StartRefused` and `Events.StartBegins`, and a valid state stays valid |
| Server.GameServer.BeginGame | src/server/server.cpp:295-306 | the success path of `START_GAME` |
| Server.GameServer.ResetAll | src/server/server.cpp:297-299 | the listed sockets' scores are zeroed |
| Server.GameServer.HandleSubmitAnswers | src/server/server.cpp:310-346 | the new tables and the messages sent are exactly those of `Game.OnSubmitAnswers`, whose outcome `Events.SubmitOutcome` states, and a valid state stays valid |
| Server.GameServer.RecordAnswer | src/server/server.cpp:310-346 | the body of `SUBMIT_ANSWERS`, exactly as `Game.OnSubmitAnswers` |
| Server.GameServer.HandleSendVote | src/server/server.cpp:348-359 | the new tables and the messages sent are exactly those of `Game.OnSendVote`, whose outcome `Events.VoteOutcome` states, and a valid state stays valid |
| Server.GameServer.CalculateScores | src/server/server.cpp:86-178 | the new tables and the messages sent are exactly those of `Game.Scores`: every player's score grows by its points (`Game.AwardScores`), then the round ends as `Events.CloseRoundOutcome` states |
| Server.GameServer.AwardPoints | src/server/server.cpp:89-159 | the two tallies and the scoring loop give each player the points of the scoring rule, and the two summaries |
| Server.GameServer.ScorePlayers | src/server/server.cpp:129-159 | the scoring loop over the player list |
| Server.GameServer.PlayerPoints | src/server/server.cpp:130-153 | a player's points, counting a missing answer as empty |
| Server.GameServer.AwardTo | src/server/server.cpp:155-158 | one player's points added to its score and to both summaries |
| Server.GameServer.CloseRound | src/server/server.cpp:161-177 | the end of a round or of the game, exactly as `Game.CloseRound`, whose outcome `Events.CloseRoundOutcome` states |
| Server.GameServer.EvictAll | src/server/server.cpp:170-172 | the listed sockets are sent back to the lobby |
| Server.GameServer.RemoveFromRoom | src/server/server.cpp:364-383 | the departure cascade shared by `LEAVE_ROOM` and a disconnect, exactly as `Game.Depart`, whose outcome `Events.DepartOutcome` states |
| Server.GameServer.HostLeaves | src/server/server.cpp:370-375 | the host's departure: the remaining players are sent back to the lobby and sent `HOST_LEFT`, and the room is erased |
| Server.GameServer.EvictNotify | src/server/server.cpp:371-374 | each remaining player is sent back to the lobby and sent `HOST_LEFT` |
| Server.GameServer.PlayerLeaves | src/server/server.cpp:376-383 | another player's departure: the rest are sent `PLAYER_LEFT` with its nick, and an empty room is erased |
| Server.GameServer.HandleLeaveRoom | src/server/server.cpp:361-386 | the new tables and the messages sent are exactly those of `Game.OnLeaveRoom`: the departure of `Events.DepartOutcome` from the sender's room, if it is in one, and a valid state stays valid |
| Server.GameServer.ProcessMessage | src/server/server.cpp:180-391 | each known type byte runs its handler on the payload as text; an unknown type changes nothing and sends nothing, and a valid state stays valid |
| Server.GameServer.Accept | src/server/server.cpp:498-506 | a non-negative socket gets a blank client entry (no nick, no room, score 0), replacing any old one; a failed accept changes nothing; a valid state stays valid |
| Server.GameServer.HandleDisconnect | src/server/server.cpp:393-428 | the new tables and the messages sent are exactly those of `Game.OnDisconnect` (`Events.DisconnectOutcome`), and a valid state stays valid |
| Server.GameServer.HandleInput | src/server/server.cpp:430-459 | an empty read is a disconnect; otherwise the bytes are appended to the buffer and the framing loop runs, exactly as `Game.OnInput`; no frame is dispatched outside the loop, and a valid state stays valid |
| Server.GameServer.DrainFrames | src/server/server.cpp:442-458 | the framing loop leaves the state and messages of `Game.Receive`, and dispatches exactly the frames `Protocol.Deframe` finds in the buffer, in order |
| Server.GameServer.TakeFrames | src/server/server.cpp:442-458 | the loop dispatches each decode of `Protocol.Pending` in turn, as `Game.Dispatch` |
| Server.GameServer.Advance | src/server/server.cpp:443-457 | one pass dispatches the next frame of the buffer |
| Server.GameServer.NextFrame | src/server/server.cpp:443-446 | the two checks find a frame exactly when the decoder does, and read the same frame |
| Server.GameServer.TakeFrame | src/server/server.cpp:448-457 | the frame is taken off the buffer before it is dispatched |
| Server.GameServer.ExpireRoom | src/server/server.cpp:516-522 | one deadline of the `TIME_UP` pass |
| Server.GameServer.ExpireAnswers | src/server/server.cpp:514-523 | the `TIME_UP` pass over every deadline in ascending room-id order, as `Game.ExpireAll` (`Events.ExpirePassClears`, `Events.ExpirePassTargets`, `Events.ExpirePassReaches`) |
| Server.GameServer.AnnounceRoom | src/server/server.cpp:526-532 | one room of the `TIME_LEFT` pass |
| Server.GameServer.AnnounceTimeLeft | src/server/server.cpp:525-533 | the `TIME_LEFT` pass over every deadline in ascending room-id order, as `Game.AnnounceAll` (`Events.AnnouncePassIsRecent`, `Events.AnnouncePassTargets`, `Events.AnnouncePassReaches`) |
| Server.GameServer.StartRound | src/server/server.cpp:536-554 | one entry of the next-round pass, exactly as `Game.RoundStep`, whose cases `Events.RoundStepDue` and `Events.RoundStepWaits` state |
| Server.GameServer.BeginRound | src/server/server.cpp:545-551 | a due round begins as `Events.RoundStepDue` states: one round on, a fresh letter to every player, a new deadline and announcement time |
| Server.GameServer.StartDueRounds | src/server/server.cpp:535-555 | the next-round pass over the whole schedule in ascending room-id order, as `Game.RoundsAll` (`Events.SchedulePassClears`, `Events.RoundsPassRounds`) |
| Server.GameServer.Tick | src/server/server.cpp:514-555 | the `TIME_UP`, `TIME_LEFT` and next-round passes in turn, exactly as `Game.Tick` (`Events.TickLeavesNoDueRound`), and a valid state stays valid |

## Left out

- Sockets, `poll`, `accept`, `read`, `send` and `close` are not modelled as system calls. A read is an argument of `HandleInput`, with an empty read standing for a closed peer. A connection is an argument of `Accept`. A send is an entry in `outbox`. The `poll_fds` list is not modelled.
- A partial `send` is not modelled: every frame is taken to go out whole.
- The 1024-byte cap on one `read` is not modelled: a read delivers any sequence of bytes, which covers every split of the stream.
- `time(NULL)` is a `now` argument, and one value of it is shared more widely than the source shares it. Every frame decoded from one read (`Game.OnInput`, `Game.Receive`, `Server.GameServer.HandleInput`) and all three passes of one `Tick` read the same `now`, where the source calls `time(NULL)` afresh in each handler and each pass (src/server/server.cpp:167, 305-306, 514, 549-550). A second boundary crossed between two frames of one read, or between the passes of one tick, is not modelled.
- `rand()` is the `random` function given to the constructor. `draws` counts the values used so far.
- Seeding with `srand`, the listening socket set up in the constructor, `run`'s loop itself, `main`, and the port argument are not modelled. They are process setup and I/O.
- Console logging, including the unknown-type branch of `processMessage`, is not modelled. It has no effect on state or messages.
- `Client.fd` is not a field of the model: the client table's key stands for it. The two differ only for an entry that `clients[fd]` creates by default (src/server/server.cpp:263, 431), whose `fd` field would be 0. The source reads `client.fd` only from the entry of the socket being served, and every socket in `poll_fds` was given its entry, with its own descriptor, when it was accepted, so the field is never read with that default value.
- Game.Valid: player lists are not claimed to be duplicate-free, because `JOIN_ROOM` as written can append a player twice.
- Scoring.RoundPoints: the score and point sums are unbounded integers. The source's `int` overflow is not modelled, since it needs about 43 million rounds.
- Protocol.StringBytes: characters are taken to be bytes (0-255), with no character encoding. A payload of 2^32 bytes or more has its length field truncated, as in the source.
- Text.Stoi: only the white space of the "C" locale is skipped before the sign; other locales are not modelled. The result is `None` exactly where `stoi` would throw `invalid_argument` or `out_of_range`.
- The GUI client under `src/client_gui` is not part of this model.
