# Bulls-and-cows game server: a Dafny model of its core

This project models the game logic of the Node.js server for a four-digit
number-guessing game (each answer counts exact digits as "plus" and misplaced
digits as "minus"). Players hold up to five lives ("can"). A lost life comes
back every ten minutes. The `/rewardCan` route adds a life; the source does
not show who calls it.

Players meet in rooms kept in memory by the server. A *classic* room is
created for the request mode "multiplayer". Both of its players guess one
shared target number. In an *online* room each player submits a number of
their own, and once both have submitted, a randomly chosen player is given
the first turn. Nothing in the source changes `turn` after that, and the
`guess` handler ignores online rooms.

The model covers:

- the lives arithmetic of `server.js`: `autoUpdateCan` and the cap of
  `/rewardCan`;
- the `/top-players` ranking;
- the in-memory room table of `server.js` and its handlers: `/create-room`,
  `joinRoom`, `guess`, `setNumber`, `disconnect`, and the `/rooms` listing;
- the older room table of `index.js` and its handlers: `/create-room`,
  `joinRoom`, `guess`, `leaveRoom`, `disconnect`;
- the secret generator loop of `numberGenerator.js`.

Modules:

- `Wrappers` (`wrappers.dfy`): `Option` and `Min`.
- `Random` (`random.dfy`): a `Math.random()` value is a real in [0, 1).
  `Scaled(r, n)` is `Math.floor(r * n)`, and it is proved to be below `n`.
- `Lives` (`lives.dfy`): regeneration and reward as pure functions of the
  stored fields and the clock.
- `SecretGenerator` (`secret_generator.dfy`): the generator is a method with
  a `while` loop. The loop consumes a given sequence of random draws. The
  method is proved equal to a recursive specification. Its result is proved to
  be a valid secret: four characters, all digits, no leading zero, and no digit
  repeated.
- `Leaderboard` (`leaderboard.dfy`): the collecting loop, then a stable sort
  specified by an insertion sort, then the top ten.
- `ServerRooms` (`server_rooms.dfy`): `class RoomTable` holds the `rooms`
  map and a `log` of emitted socket events. Each handler is one method that
  states the whole new table and log. Every handler keeps `Valid`:
  - player ids are unique within a room;
  - a room that has not started has at most one player;
  - passwords are never empty;
  - a classic room's target is a valid secret;
  - an online room's submission counter is consistent.
- `LegacyRooms` (`legacy_rooms.dfy`): `class LegacyRoomTable` models the
  room table of `index.js` in the same way.

Values the source takes from outside are parameters of the model:

- the clock (`now`);
- every `Math.random()` value;
- the generated room id;
- the generated target number, which must be a valid secret;
- the `plus`/`minus` result of `checkGuess`;
- the set of connected socket ids.

Behaviour of the source that the model keeps as written:

- `disconnect` deletes every room left without players, including rooms that
  nobody ever joined (`ServerRooms.UnjoinedRoomScenario`).
- After a player leaves a started room, the room stays started and never sends
  `gameStart` again (`ServerRooms.ReplacementScenario`). After a disconnect, a
  player who joins again is not announced by `gameStart` either.
- In `index.js`, `gameStart` is sent again each time a listed player of a full
  room joins again (`LegacyRooms.RejoinScenario`). Rooms there have no size
  cap.
- `setNumber` blocks a second submission only when the stored value is
  truthy. A falsy value can be overwritten, and the counter then goes up again.
  When the counter reaches two in a room with no players, the source throws a
  TypeError at `server.js:420` after it has stored the number. `SetNumber`
  reports this as `thrown`, and nothing is emitted.
- `autoUpdateCan` lowers a count above five to five. `Regenerate` therefore
  promises at least `Min(can, 5)`, not at least `can`.

## Model

| member | source | states |
|---|---|---|
| `Random.Scaled` | numberGenerator.js:12 | `Math.floor(r * n)` for a draw in [0, 1) is a natural number below `n` |
| `Lives.Gained` | server.js:67-68 | the number of whole intervals in `elapsed`, rounded down also for negative `elapsed`; positive exactly when at least one interval has passed |
| `Lives.Regenerate` | server.js:63-80 | the count never exceeds 5 and is never below the smaller of the old count and 5; a count at or above the cap becomes 5 and keeps its timestamp; less than one interval changes nothing; otherwise one life per whole interval, where below the cap the timestamp advances by whole intervals and the remainder stays under one interval, and on reaching the cap it is reset to `now` |
| `Lives.AutoUpdateCan` | server.js:51-81 | a missing `can` gives 5 lives at the given or current timestamp; a missing `lastCanUpdate` means no time has passed; the result lies between the smaller of the defaulted count and 5, and 5 |
| `Lives.RewardCan` | server.js:321-333 | at or above the cap the user is unchanged; below it one life is added and the timestamp becomes `now`; the cap is never passed |
| `Lives.RegenerateIdempotent` | server.js:63-80 | regenerating twice at the same instant equals regenerating once |
| `Lives.RegenerateCappedExample` | server.js:74-75 | 3 lives after 25 minutes give 5 lives stamped `now`, not `last` + 20 minutes |
| `Lives.RegenerateComposes` | server.js:67-80 | an update at `t1` followed by one at `t2` gives the same count as a single update at `t2`, and the same state unless the first update reached the cap from below |
| `SecretGenerator.FirstDigit` | numberGenerator.js:8 | the first digit is between 1 and 9 |
| `SecretGenerator.DrawDigit` | numberGenerator.js:12 | a later draw is a digit between 0 and 9 |
| `SecretGenerator.DigitChar` | numberGenerator.js:18 | the character written for a digit is a decimal character whose value is that digit |
| `SecretGenerator.Join` | numberGenerator.js:18 | `digits.join("")` has one character per digit, each the digit's decimal character |
| `SecretGenerator.Accept` | numberGenerator.js:13-15 | a drawn digit is appended exactly when it is not yet present, keeping the digits distinct |
| `SecretGenerator.Collect` | numberGenerator.js:11-16 | the loop stops at four digits; it only ever keeps distinct digits |
| `SecretGenerator.CollectSpec` | numberGenerator.js:11-16 | the collected digits are distinct, at most four, extend the starting digits, every new one comes from a draw, and if fewer than four were collected then every drawn digit is among them |
| `SecretGenerator.Generated` | numberGenerator.js:3-20 | the generated string, or none when the supplied draws run out before four distinct digits are found |
| `SecretGenerator.GenerateRandomNumber` | numberGenerator.js:3-20 | the loop computes `Generated`, and any string it returns is a valid secret: four digits, no leading zero, all distinct |
| `SecretGenerator.GeneratedIsSecret` | numberGenerator.js:3-20 | every generated string is a valid secret |
| `SecretGenerator.DrawsSuffice` | numberGenerator.js:11-16 | once three draws give digits that differ from each other and from the first digit, so that four distinct digits have been drawn, the loop finishes with a secret |
| `Leaderboard.Eligible` | server.js:129-147 | the collected entries are at most as many as the documents |
| `Leaderboard.WellTyped` | server.js:135-139 | a document passes the type check exactly when it is the document of some entry, i.e. has a string nickname, a numeric score and a string email |
| `Leaderboard.ToEntry` | server.js:140-145 | the pushed record keeps every field of the document: rebuilding the document from it gives the document back |
| `Leaderboard.EntryRoundTrip` | server.js:140-145 | the other direction: an entry's document passes the check and maps back to that entry |
| `Leaderboard.EligibleAppend` | server.js:133-147 | collecting keeps the snapshot order: the entries of earlier documents come first |
| `Leaderboard.EligibleSpec` | server.js:131-147 | an entry is collected exactly when some document has string nickname and email and a numeric score and maps to that entry |
| `Leaderboard.Insert` | server.js:150 | inserting into a list sorted by descending score keeps it sorted and adds exactly that entry |
| `Leaderboard.InsertStable` | server.js:150 | insertion puts the new entry after every earlier entry with the same score |
| `Leaderboard.SortByScore` | server.js:150 | the result is sorted by descending score, is a permutation of the input, and keeps entries of equal score in input order (so it is what a stable sort returns) |
| `Leaderboard.TopPlayers` | server.js:125-158 | `allPlayers` is the stable descending sort of the eligible entries; `top10` is its first ten (or all of them), and no player outside `top10` outscores one inside |
| `ServerRooms.StoredPassword` | server.js:286 | a password is stored exactly when it is given and non-empty; an empty one becomes null |
| `ServerRooms.Admits` | server.js:360-362 | a room without a stored password admits everybody; the stored password is always admitted; a truthy stored password admits only a joiner who gives exactly that password |
| `ServerRooms.AddPlayer` | server.js:365-367 | the player id is listed afterwards; an id already listed changes nothing, otherwise the entry is appended; ids stay unique |
| `ServerRooms.Joined` | server.js:365-377 | the room after an admitted join: the player is listed once, and the room is started exactly when it already was or now holds two players; nothing else changes |
| `ServerRooms.StartsGame` | server.js:376-377 | `gameStart` is scheduled exactly when the room had not started and holds two players after the join |
| `ServerRooms.StartsOnSecondPlayer` | server.js:365-377 | in a valid room the start is triggered exactly by a new, distinct second player joining an unstarted room holding one player |
| `ServerRooms.Without` | server.js:436 | the filter keeps exactly the entries from other sockets; the length drops exactly when some entry came from the socket; ids stay unique |
| `ServerRooms.WithoutEmpty` | server.js:436-442 | the filter leaves no player exactly when every player came from the closed socket |
| `ServerRooms.WithoutAppend` | server.js:436 | the filter keeps the order of the kept entries |
| `ServerRooms.Stripped` | server.js:436 | only the player list of the room changes |
| `ServerRooms.Loses` | server.js:434-438 | the player count changes exactly when some player of the room came from the closed socket |
| `ServerRooms.DisconnectedInSpec` | server.js:433-444 | after visiting some of the rooms: unvisited rooms are untouched; a visited room that remains is stripped and still has players; a visited room is gone only when all its players came from the socket |
| `ServerRooms.AfterDisconnectSpec` | server.js:433-444 | after disconnect, a room survives exactly when one of its players came from another socket, and a surviving room holds exactly its other sockets' players |
| `ServerRooms.NoticesAlong` | server.js:438-440 | the notices of a visiting order are never more than the rooms visited |
| `ServerRooms.NoticesAlongSpec` | server.js:434-440 | a `playerLeft` from the closed socket goes out exactly to the visited rooms whose player count changed, and no other event is emitted |
| `ServerRooms.NoticesOncePerRoom` | server.js:433-440 | when the loop visits each room once, no room hears the same notice twice |
| `ServerRooms.JoinedKeepsInvariant` | server.js:356-383 | an admitted join keeps the room invariant |
| `ServerRooms.StrippedKeepsInvariant` | server.js:436 | removing a socket's players keeps the room invariant |
| `ServerRooms.TableStep` | server.js:436-444 | visiting one more room strips it, and deletes it when no players are left |
| `ServerRooms.NoticesStep` | server.js:438-440 | visiting one more room appends `playerLeft` exactly when its player count changed |
| `ServerRooms.DisconnectStep` | server.js:433-445 | one run of the forEach callback extends disconnect's progress by one room: table, visiting order and notices |
| `ServerRooms.DisconnectedValid` | server.js:432-446 | disconnect's result keeps every room invariant and never un-starts a room |
| `ServerRooms.Summarize` | server.js:257-265 | a classic room is listed as "multiplayer", every other room as "online"; difficulty is "easy"; the player count; `hasPassword` holds exactly when joining without a password is refused |
| `ServerRooms.ListRooms` | server.js:255-268 | one summary for every room and nothing else |
| `ServerRooms.ListRoomsSize` | server.js:257 | the list has exactly as many rows as there are rooms |
| `ServerRooms.RoomTable.constructor` | server.js:27 | the server starts with no rooms and nothing emitted |
| `ServerRooms.RoomTable.CreateRoom` | server.js:275-306 | the generated id now maps to an empty, unstarted room of the requested mode with the stored password, replacing any room with that id; "roomCreated" goes to the requesting socket exactly when a known socket id was given |
| `ServerRooms.RoomTable.JoinRoom` | server.js:356-384 | an unknown room or a wrong password sends the matching error to the socket and changes nothing; otherwise the room becomes `Joined`, "joinedRoom" goes to the socket, and `gameStart` follows exactly when this join starts the room; a started room stays started |
| `ServerRooms.RoomTable.Admit` | server.js:365-383 | the admitted join: the room becomes `Joined`, "joinedRoom" goes to the joining socket, `gameStart` follows exactly when the join starts the room, and the invariant holds |
| `ServerRooms.RoomTable.Guess` | server.js:386-399 | only an existing classic room reacts: the guess is broadcast, and plus == 4 adds `gameOver` for the guesser and deletes the room; in every other case nothing changes |
| `ServerRooms.HasNumber` | server.js:410 | a player with no stored entry is not blocked, and a stored falsy value (modelled as "") does not block either |
| `ServerRooms.StoredNumberBlocks` | server.js:410-414 | once a number is stored, a further submission by the same player is blocked exactly when that number is truthy |
| `ServerRooms.RoomTable.SetNumber` | server.js:403-430 | unknown or classic rooms and truthy earlier submissions change nothing; otherwise the number is stored and counted; when the count reaches two, a player chosen by the draw gets the turn and `bothReady` and `turn` are sent, and with no players the handler throws with the number already stored |
| `ServerRooms.RoomTable.Disconnect` | server.js:432-446 | the new table is `AfterDisconnect`: each room loses the socket's players and is deleted when left empty; the loop visits every room once, and the rooms whose count changed are notified in visiting order; the invariant holds and started rooms stay started |
| `ServerRooms.ForEachRoom` | server.js:433-445 | the forEach over every room: the resulting table is `AfterDisconnect`, every room is visited exactly once, and the emitted events are the notices of the rooms whose count changed, in visiting order |
| `ServerRooms.SingleKeyDisconnect` | server.js:432-446 | with a single room, disconnect visits only that room and its outcome is that room's |
| `ServerRooms.FirstJoined` | server.js:356-384 | the first player to join an open online room is listed and answered with "joinedRoom"; no `gameStart` is sent |
| `ServerRooms.StartedPair` | server.js:356-384 | two players joining an online room from two sockets start it, and `gameStart` is sent once |
| `ServerRooms.SecondLeaves` | server.js:432-446 | when the second player's socket disconnects, the first player stays in the room, the room stays started, and `playerLeft` is sent once |
| `ServerRooms.SecondLeavesOutcome` | server.js:433-444 | for the started pair, closing the second socket leaves the first player alone in the room and sends one `playerLeft`, whatever order the loop visits the rooms in |
| `ServerRooms.RejoinScenario` | server.js:365-383 | a listed player joining again from another socket is not listed twice and does not restart the game |
| `ServerRooms.ReplacementScenario` | server.js:376 | after a disconnect empties one of two seats, the room stays started and a new second player gets no `gameStart` |
| `ServerRooms.UnjoinedRoomScenario` | server.js:442-444 | a room nobody joined is deleted by the disconnect of an unrelated socket |
| `LegacyRooms.AddPlayer` | index.js:62-64 | the id is listed afterwards, appended only when it was missing; ids stay unique |
| `LegacyRooms.AnnouncesStart` | index.js:62-72 | `gameStart` is sent exactly when a listed player of a two-player room joins again or a new player joins a one-player room |
| `LegacyRooms.RejoinAnnouncesAgain` | index.js:69-72 | a listed player of a two-player room joining again changes no list and triggers another `gameStart` |
| `LegacyRooms.ThirdJoinerListed` | index.js:62-72 | a third distinct player is appended, and no `gameStart` is sent |
| `LegacyRooms.LegacyRoomTable.constructor` | index.js:31 | the server starts with no rooms and nothing emitted |
| `LegacyRooms.LegacyRoomTable.CreateRoom` | index.js:39-49 | the generated id maps to an empty room with the generated secret, replacing any earlier room; nothing is emitted |
| `LegacyRooms.LegacyRoomTable.JoinRoom` | index.js:55-73 | an unknown room sends "Geçersiz oda ID" to the socket and changes nothing; otherwise the id is listed once, and `gameStart` is sent whenever the list then has two ids |
| `LegacyRooms.LegacyRoomTable.Guess` | index.js:75-88 | in any existing room the guess is broadcast, and plus == 4 adds `gameOver` and deletes the room; an unknown room changes nothing |
| `LegacyRooms.LegacyRoomTable.LeaveRoom` | index.js:90-94 | the room is told that a player left, and the table is unchanged |
| `LegacyRooms.LegacyRoomTable.Disconnect` | index.js:96-98 | nothing changes and nothing is emitted |
| `LegacyRooms.RejoinScenario` | index.js:55-73 | joining again with an id already listed in a full room sends `gameStart` a second time |

## Left out

- I/O, HTTP and socket.io plumbing are not modelled: requests, responses and
  status codes, `socket.join`/`socket.leave`, and the 100 ms `setTimeout`
  before `gameStart`. The model records emission at the moment of the
  handler. `sendEmoji` only relays a message and is not modelled.
- Firestore, Firebase authentication, `/register` and the other account
  routes are outside the game core. The user documents are passed in.
- `checkGuess` (`gameLogic.js`) is not part of this model. Its `plus`/`minus`
  are parameters.
- `generateRoomId` and every `Math.random()` call are replaced by parameters.
  The distribution is not modelled.
- `SecretGenerator.GenerateRandomNumber`: the source loops until it finds four
  distinct digits. The model consumes a finite sequence of draws and returns
  none if they run out. `DrawsSuffice` states when they are enough.
- The order of `Object.entries(rooms)` is not modelled. `ListRooms` returns a
  set. `Disconnect` is stated for whatever visiting order it chose, returned
  as a ghost `order`.
- Floating point is not modelled. Counts, scores and timestamps are integers.
  NaN, fractional scores and infinities are left out.
- `Lives.RewardCan`: it takes a numeric count. A stored user with a
  non-numeric `can`, whose result depends on its JavaScript type (absent,
  `null`, a string), is not modelled.
- `Lives.AutoUpdateCan`: a non-numeric field is an absent `Option` value.
  Which JavaScript values count as numbers is not modelled.
- Keys inherited through the prototype chain (`rooms["constructor"]`) are not
  modelled. Room lookup is plain map lookup.
- Request and event fields (`password`, `playerId`, `roomId`, `socketId`,
  `mode`, `guess`) are modelled as strings, or absent. The source applies
  `||`, `!!`, `===` and `includes` to whatever JSON value arrives; numeric,
  boolean or object payload values are not modelled. For example, a numeric
  `password` is stored as a number and then refuses the same digits sent as a
  string.
- The falsy values a client can send to `setNumber` (`""`, `0`, `null`,
  `false`, absent) are all modelled as `""`. Submitted numbers are strings.
- What happens to the process after the TypeError in `setNumber` is not
  modelled. Only the state at the throw is stated.
- Concurrency between handlers is not modelled. Each handler runs to
  completion, as on Node's event loop.
- Console logging is not modelled.
- The forEach of `disconnect` changes the room objects in place. The model
  computes the new table as a value (`ForEachRoom`) and stores it when the
  loop ends. No handler runs in between, so nothing can observe the
  difference.
