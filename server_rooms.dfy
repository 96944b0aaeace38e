/**
 * The in-memory room table of server.js (`const rooms = {}`) and the handlers
 * that change it: POST /create-room and the socket events joinRoom, guess,
 * setNumber and disconnect, plus the GET /rooms projection that reads it.
 *
 * Each handler runs to completion on Node's single thread, so each is one
 * method of `RoomTable`. What the handlers send over sockets is appended to
 * `log`. The inputs the source draws at random or computes elsewhere are
 * parameters: the room id, the `Math.random()` value that picks the first
 * player, the result of `checkGuess`, and the target number returned by
 * `generateRandomNumber`.
 */
module ServerRooms {
  import opened Wrappers
  import opened Random
  import SecretGenerator

  type RoomId = string
  type PlayerId = string
  type SocketId = string

  /** An entry of `room.players`: the client's player id and the socket it joined from. */
  datatype Participant = Participant(id: PlayerId, socketId: SocketId)

  /**
   * A room. `Classic` is the competitive mode (created for mode "multiplayer")
   * with one shared target number; `Online` is the mode where each player
   * submits a number of their own and, once both have, one of them is picked
   * to move first. Nothing changes `turn` after that.
   * `playerNumbers` holds the submitted values verbatim; "" stands for every
   * falsy value a client can send.
   */
  datatype Room =
    | Classic(players: seq<Participant>, targetNumber: string, password: Option<string>, started: bool)
    | Online(players: seq<Participant>, password: Option<string>, started: bool,
             playerNumbers: map<PlayerId, string>, readyCount: int, turn: Option<PlayerId>)

  /** The two refusals of joinRoom: "Oda yok." and "Şifre yanlış.". */
  datatype JoinError = NoSuchRoom | WrongPassword

  /** What the handlers emit, with the recipient: one socket, or everybody in a room. */
  datatype Event =
    | RoomCreated(to: SocketId, roomId: RoomId)
    | Error(to: SocketId, reason: JoinError)
    | JoinedRoom(to: SocketId, roomId: RoomId)
    | GameStart(roomId: RoomId)
    | NewGuess(roomId: RoomId, playerId: PlayerId, guess: string, plus: int, minus: int)
    | GameOver(roomId: RoomId, winnerId: PlayerId)
    | BothReady(roomId: RoomId)
    | Turn(roomId: RoomId, playerId: PlayerId)
    | PlayerLeft(roomId: RoomId, except: SocketId)

  /** The request body's `mode` that selects a classic room. */
  const MultiplayerMode: string := "multiplayer"

  /** `password || null`: an absent or empty password leaves the room open to everybody. */
  function StoredPassword(given: Option<string>): (p: Option<string>)
    ensures p.Some? <==> given.Some? && given.value != ""
    ensures p.Some? ==> p == given
  {
    if given.Some? && given.value != "" then given else None
  }

  /**
   * The password check of joinRoom: a room with a non-empty password admits
   * only a joiner who gives exactly that password.
   */
  predicate Admits(room: Room, password: Option<string>)
    ensures room.password.None? ==> Admits(room, password)
    ensures password == room.password ==> Admits(room, password)
    ensures Admits(room, password) && room.password.Some? && room.password.value != "" ==> password == room.password
  {
    room.password.None? || room.password.value == "" || password == room.password
  }

  /** `room.players.find((p) => p.id === id)` finds an entry. */
  predicate HasId(players: seq<Participant>, id: PlayerId)
  {
    exists i :: 0 <= i < |players| && players[i].id == id
  }

  ghost predicate UniqueIds(players: seq<Participant>)
  {
    forall i, j :: 0 <= i < j < |players| ==> players[i].id != players[j].id
  }

  /** `players.push(p)` unless an entry with the same id is there already. */
  function AddPlayer(players: seq<Participant>, p: Participant): (r: seq<Participant>)
    ensures HasId(r, p.id)
    ensures |players| <= |r| <= |players| + 1
    ensures r[..|players|] == players
    ensures HasId(players, p.id) ==> r == players
    ensures !HasId(players, p.id) ==> r == players + [p]
    ensures UniqueIds(players) ==> UniqueIds(r)
  {
    if HasId(players, p.id) then players
    else
      assert (players + [p])[|players|].id == p.id;
      players + [p]
  }

  /**
   * The room after joinRoom admitted `p`: `p` is listed once, and the room
   * becomes started when it holds exactly two players.
   */
  function Joined(room: Room, p: Participant): (r: Room)
    ensures r.players == AddPlayer(room.players, p)
    ensures r.started <==> room.started || |r.players| == 2
    ensures r == room.(players := r.players, started := r.started)
  {
    var players := AddPlayer(room.players, p);
    room.(players := players, started := room.started || |players| == 2)
  }

  /** The transition that schedules gameStart: a room not yet started that reaches two players. */
  predicate StartsGame(room: Room, p: Participant)
    ensures StartsGame(room, p) <==> !room.started && |AddPlayer(room.players, p)| == 2
  {
    !room.started && Joined(room, p).started
  }

  /** In a valid room the game is started by the second distinct player, and only by them. */
  lemma StartsOnSecondPlayer(room: Room, p: Participant)
    requires RoomInvariant(room)
    ensures StartsGame(room, p) <==> !room.started && |room.players| == 1 && !HasId(room.players, p.id)
  {
  }

  /** `room.players.filter((p) => p.socketId !== socketId)`. */
  function Without(players: seq<Participant>, socketId: SocketId): (r: seq<Participant>)
    ensures |r| <= |players|
    ensures forall q :: q in r <==> q in players && q.socketId != socketId
    ensures |r| == |players| <==> forall i :: 0 <= i < |players| ==> players[i].socketId != socketId
    ensures UniqueIds(players) ==> UniqueIds(r)
  {
    if players == [] then []
    else
      var rest := Without(players[1..], socketId);
      if players[0].socketId == socketId then rest
      else
        assert forall i :: 0 < i < |rest| + 1 ==> ([players[0]] + rest)[i] in players[1..];
        [players[0]] + rest
  }

  /** The filter keeps the order of the players it keeps. */
  lemma {:induction false} WithoutAppend(a: seq<Participant>, b: seq<Participant>, socketId: SocketId)
    ensures Without(a + b, socketId) == Without(a, socketId) + Without(b, socketId)
  {
    if a == [] {
      assert a + b == b;
    } else {
      var x, rest := a[0], a[1..];
      assert a == [x] + rest;
      assert a + b == [x] + (rest + b);
      WithoutAppend(rest, b, socketId);
      WithoutCons(x, rest + b, socketId);
      WithoutCons(x, rest, socketId);
      var head := if x.socketId == socketId then [] else [x];
      ParticipantsAssoc(head, Without(rest, socketId), Without(b, socketId));
    }
  }

  /** One step of the filter: the first player is kept exactly when it came from another socket. */
  lemma WithoutCons(x: Participant, r: seq<Participant>, socketId: SocketId)
    ensures Without([x] + r, socketId) == (if x.socketId == socketId then [] else [x]) + Without(r, socketId)
  {
    assert ([x] + r)[0] == x;
    assert ([x] + r)[1..] == r;
  }

  lemma ParticipantsAssoc(a: seq<Participant>, b: seq<Participant>, c: seq<Participant>)
    ensures a + (b + c) == (a + b) + c
  {
  }

  /** The filter leaves nobody exactly when every player came from the socket. */
  lemma WithoutEmpty(players: seq<Participant>, socketId: SocketId)
    ensures Without(players, socketId) == [] <==> forall i :: 0 <= i < |players| ==> players[i].socketId == socketId
  {
    var r := Without(players, socketId);
    if r != [] {
      assert r[0] in players;
    }
    if exists i :: 0 <= i < |players| && players[i].socketId != socketId {
      var i :| 0 <= i < |players| && players[i].socketId != socketId;
      assert players[i] in r;
    }
  }

  /** The room once the players of a closed socket are removed; nothing else changes. */
  function Stripped(room: Room, socketId: SocketId): (r: Room)
    ensures r.players == Without(room.players, socketId)
    ensures r == room.(players := r.players)
  {
    room.(players := Without(room.players, socketId))
  }

  /** Whether removing the socket's players changes the room's player count. */
  predicate Loses(room: Room, socketId: SocketId)
    ensures Loses(room, socketId) <==> exists i :: 0 <= i < |room.players| && room.players[i].socketId == socketId
  {
    |Without(room.players, socketId)| != |room.players|
  }

  /**
   * The specification of disconnect's loop after it has visited the rooms in
   * `done`: those are stripped and, if left empty, deleted; the others are as
   * they were.
   */
  ghost function DisconnectedIn(rooms: map<RoomId, Room>, socketId: SocketId, done: set<RoomId>): map<RoomId, Room>
  {
    map id | id in rooms && (id in done ==> Without(rooms[id].players, socketId) != [])
      :: if id in done then Stripped(rooms[id], socketId) else rooms[id]
  }

  /** The table after disconnect. */
  ghost function AfterDisconnect(rooms: map<RoomId, Room>, socketId: SocketId): map<RoomId, Room>
  {
    DisconnectedIn(rooms, socketId, rooms.Keys)
  }

  /**
   * The rooms not yet visited are untouched; a visited room is kept, stripped,
   * while it has players left, and is deleted only when all of its players
   * came from the socket.
   */
  lemma DisconnectedInSpec(rooms: map<RoomId, Room>, socketId: SocketId, done: set<RoomId>)
    ensures DisconnectedIn(rooms, socketId, done).Keys <= rooms.Keys
    ensures forall id :: id in rooms && id !in done ==>
      id in DisconnectedIn(rooms, socketId, done) && DisconnectedIn(rooms, socketId, done)[id] == rooms[id]
    ensures forall id :: id in DisconnectedIn(rooms, socketId, done) && id in done ==>
      DisconnectedIn(rooms, socketId, done)[id] == Stripped(rooms[id], socketId)
      && DisconnectedIn(rooms, socketId, done)[id].players != []
    ensures forall id :: id in rooms && id in done && id !in DisconnectedIn(rooms, socketId, done) ==>
      forall i :: 0 <= i < |rooms[id].players| ==> rooms[id].players[i].socketId == socketId
  {
  }

  /**
   * After disconnect a room survives exactly when one of its players came
   * from another socket, and it then holds just the players of other sockets.
   */
  lemma AfterDisconnectSpec(rooms: map<RoomId, Room>, socketId: SocketId)
    ensures forall id :: id in AfterDisconnect(rooms, socketId) ==>
      id in rooms && AfterDisconnect(rooms, socketId)[id] == Stripped(rooms[id], socketId)
    ensures forall id :: id in rooms ==>
      (id in AfterDisconnect(rooms, socketId) <==>
       exists i :: 0 <= i < |rooms[id].players| && rooms[id].players[i].socketId != socketId)
  {
    forall id | id in rooms {
      WithoutEmpty(rooms[id].players, socketId);
    }
  }

  /**
   * The playerLeft notices disconnect sends when it visits the rooms in the
   * order `order`: one to each room whose player count changed.
   */
  function NoticesAlong(rooms: map<RoomId, Room>, socketId: SocketId, order: seq<RoomId>): (es: seq<Event>)
    ensures |es| <= |order|
  {
    if order == [] then []
    else
      var id := order[|order| - 1];
      NoticesAlong(rooms, socketId, order[..|order| - 1]) +
        if id in rooms && Loses(rooms[id], socketId) then [PlayerLeft(id, socketId)] else []
  }

  /**
   * A notice goes out exactly to the visited rooms whose player count
   * changed, addressed from the closed socket; nothing else is emitted.
   */
  lemma {:induction false} NoticesAlongSpec(rooms: map<RoomId, Room>, socketId: SocketId, order: seq<RoomId>)
    ensures forall e :: e in NoticesAlong(rooms, socketId, order) <==>
      exists id :: id in order && id in rooms && Loses(rooms[id], socketId) && e == PlayerLeft(id, socketId)
  {
    if order != [] {
      var init, last := order[..|order| - 1], order[|order| - 1];
      assert order == init + [last];
      NoticesAlongSpec(rooms, socketId, init);
    }
  }

  ghost predicate NoRepeats(es: seq<Event>)
  {
    forall i, j :: 0 <= i < j < |es| ==> es[i] != es[j]
  }

  /** When every room is visited once, every room hears at most one notice. */
  lemma {:induction false} NoticesOncePerRoom(rooms: map<RoomId, Room>, socketId: SocketId, order: seq<RoomId>)
    requires forall i, j :: 0 <= i < j < |order| ==> order[i] != order[j]
    ensures NoRepeats(NoticesAlong(rooms, socketId, order))
  {
    if order != [] {
      var init, last := order[..|order| - 1], order[|order| - 1];
      NoticesOncePerRoom(rooms, socketId, init);
      NoticesAlongSpec(rooms, socketId, init);
      var prev := NoticesAlong(rooms, socketId, init);
      if last in rooms && Loses(rooms[last], socketId) {
        assert last !in init;
        assert PlayerLeft(last, socketId) !in prev;
        var es := prev + [PlayerLeft(last, socketId)];
        assert NoticesAlong(rooms, socketId, order) == es;
        forall i, j | 0 <= i < j < |es| ensures es[i] != es[j] {
          assert es[i] == prev[i];
          if j == |prev| {
            assert es[i] in prev;
          } else {
            assert es[j] == prev[j];
          }
        }
      } else {
        assert NoticesAlong(rooms, socketId, order) == prev;
      }
    }
  }

  /** `order` lists every key of `rooms` exactly once. */
  ghost predicate Enumerates(order: seq<RoomId>, keys: set<RoomId>)
  {
    && (forall id :: id in order <==> id in keys)
    && (forall i, j :: 0 <= i < j < |order| ==> order[i] != order[j])
  }

  /** A submitted number blocks another submission only if it is truthy. */
  predicate HasNumber(room: Room, playerId: PlayerId)
    requires room.Online?
    ensures playerId !in room.playerNumbers ==> !HasNumber(room, playerId)
    ensures HasNumber(room, playerId) ==> room.playerNumbers[playerId] != ""
  {
    playerId in room.playerNumbers && room.playerNumbers[playerId] != ""
  }

  /** Storing a number blocks the next submission exactly when the number is truthy. */
  lemma StoredNumberBlocks(room: Room, playerId: PlayerId, number: string)
    requires room.Online?
    ensures HasNumber(room.(playerNumbers := room.playerNumbers[playerId := number]), playerId) <==> number != ""
  {
  }

  /**
   * What the handlers keep true of every room: ids are unique, a room that
   * has not started has at most one player, a password is never empty,
   * a classic room's target is a valid secret, an online room has counted at
   * least as many submissions as it holds, and a turn is set only once two
   * submissions were counted.
   */
  ghost predicate RoomInvariant(room: Room)
  {
    && UniqueIds(room.players)
    && (!room.started ==> |room.players| <= 1)
    && (room.password.Some? ==> room.password.value != "")
    && (room.Classic? ==> SecretGenerator.IsSecret(room.targetNumber))
    && (room.Online? ==> |room.playerNumbers| <= room.readyCount && (room.turn.Some? ==> room.readyCount >= 2))
  }

  /** Every room of the table keeps the room invariant. */
  ghost predicate AllValid(rooms: map<RoomId, Room>)
  {
    forall id :: id in rooms ==> RoomInvariant(rooms[id])
  }

  lemma UpdateKeepsValid(rooms: map<RoomId, Room>, id: RoomId, room: Room)
    requires AllValid(rooms) && RoomInvariant(room)
    ensures AllValid(rooms[id := room])
  {
  }

  lemma UpdateKeepsStarted(rooms: map<RoomId, Room>, id: RoomId, room: Room)
    requires id in rooms && (rooms[id].started ==> room.started)
    ensures StartedKept(rooms, rooms[id := room])
  {
  }

  lemma JoinedKeepsInvariant(room: Room, p: Participant)
    requires RoomInvariant(room)
    ensures RoomInvariant(Joined(room, p))
  {
  }

  lemma StrippedKeepsInvariant(room: Room, socketId: SocketId)
    requires RoomInvariant(room)
    ensures RoomInvariant(Stripped(room, socketId))
  {
  }

  /**
   * What disconnect's loop has achieved after visiting the rooms of `order`
   * (the set `done`): the table is `DisconnectedIn` for them and the log got
   * their notices.
   */
  ghost predicate DisconnectProgress(before: map<RoomId, Room>, socketId: SocketId, done: set<RoomId>,
                                     order: seq<RoomId>, rooms: map<RoomId, Room>, log0: seq<Event>, log: seq<Event>)
  {
    && Enumerates(order, done)
    && rooms == DisconnectedIn(before, socketId, done)
    && log == log0 + NoticesAlong(before, socketId, order)
  }

  /**
   * Visiting one more room in disconnect's loop: the room is still as it
   * was, and stripping it (deleting it if it is left empty) and appending its
   * notice extends the progress by that room.
   */
  lemma DisconnectStep(before: map<RoomId, Room>, socketId: SocketId, done: set<RoomId>, order: seq<RoomId>,
                       rooms: map<RoomId, Room>, log0: seq<Event>, log: seq<Event>, id: RoomId)
    requires id in before && id !in done
    requires DisconnectProgress(before, socketId, done, order, rooms, log0, log)
    ensures id in rooms && rooms[id] == before[id]
    ensures var r := Stripped(before[id], socketId);
      DisconnectProgress(before, socketId, done + {id}, order + [id],
        if r.players == [] then rooms - {id} else rooms[id := r],
        log0, log + if Loses(before[id], socketId) then [PlayerLeft(id, socketId)] else [])
  {
    TableStep(before, socketId, done, id);
    EnumeratesStep(order, done, id);
    NoticesStep(before, socketId, order, id);
    var notice := if Loses(before[id], socketId) then [PlayerLeft(id, socketId)] else [];
    assert log + notice == log0 + (NoticesAlong(before, socketId, order) + notice);
  }

  /** One more visited room in the table: stripped, and deleted if it is left empty. */
  lemma TableStep(rooms: map<RoomId, Room>, socketId: SocketId, done: set<RoomId>, id: RoomId)
    requires id in rooms && id !in done
    ensures id in DisconnectedIn(rooms, socketId, done)
    ensures DisconnectedIn(rooms, socketId, done)[id] == rooms[id]
    ensures var r := Stripped(rooms[id], socketId);
      var m := DisconnectedIn(rooms, socketId, done);
      DisconnectedIn(rooms, socketId, done + {id}) == if r.players == [] then m - {id} else m[id := r]
  {
  }

  lemma EnumeratesStep(order: seq<RoomId>, done: set<RoomId>, id: RoomId)
    requires Enumerates(order, done) && id !in done
    ensures Enumerates(order + [id], done + {id})
  {
  }

  /** Visiting one more room appends its notice, if any. */
  lemma NoticesStep(rooms: map<RoomId, Room>, socketId: SocketId, order: seq<RoomId>, id: RoomId)
    requires id in rooms
    ensures NoticesAlong(rooms, socketId, order + [id]) ==
      NoticesAlong(rooms, socketId, order) + if Loses(rooms[id], socketId) then [PlayerLeft(id, socketId)] else []
  {
    assert (order + [id])[..|order|] == order;
  }

  lemma DisconnectedValid(rooms: map<RoomId, Room>, socketId: SocketId, done: set<RoomId>)
    requires AllValid(rooms)
    ensures AllValid(DisconnectedIn(rooms, socketId, done))
    ensures StartedKept(rooms, DisconnectedIn(rooms, socketId, done))
  {
    var m := DisconnectedIn(rooms, socketId, done);
    forall id | id in m ensures RoomInvariant(m[id]) {
      StrippedKeepsInvariant(rooms[id], socketId);
    }
  }

  /** A started room stays started for as long as it exists. */
  ghost predicate StartedKept(before: map<RoomId, Room>, after: map<RoomId, Room>)
  {
    forall id :: id in before && id in after && before[id].started ==> after[id].started
  }

  /** One row of GET /rooms. */
  datatype RoomSummary = RoomSummary(roomId: RoomId, mode: string, difficulty: string, players: nat, hasPassword: bool)

  /**
   * The projection of one room: classic rooms are listed as "multiplayer",
   * all others as "online"; rooms carry no difficulty, so it is always the
   * default "easy"; `hasPassword` says whether joining without a password is
   * refused.
   */
  function Summarize(id: RoomId, room: Room): (s: RoomSummary)
    ensures s.roomId == id
    ensures s.mode == "multiplayer" <==> room.Classic?
    ensures s.mode == "online" <==> room.Online?
    ensures s.difficulty == "easy"
    ensures s.players == |room.players|
    ensures s.hasPassword <==> !Admits(room, None)
  {
    RoomSummary(id, if room.Classic? then "multiplayer" else "online", "easy",
                |room.players|, room.password.Some? && room.password.value != "")
  }

  /** GET /rooms: one summary per room. The list's order is not modelled. */
  function ListRooms(rooms: map<RoomId, Room>): (list: set<RoomSummary>)
    ensures forall id :: id in rooms ==> Summarize(id, rooms[id]) in list
    ensures forall s :: s in list ==> s.roomId in rooms && s == Summarize(s.roomId, rooms[s.roomId])
  {
    set id | id in rooms :: Summarize(id, rooms[id])
  }

  /** GET /rooms lists every room exactly once. */
  lemma {:induction false} ListRoomsSize(rooms: map<RoomId, Room>)
    ensures |ListRooms(rooms)| == |rooms|
    decreases |rooms|
  {
    if rooms != map[] {
      var k :| k in rooms;
      var rest := rooms - {k};
      ListRoomsSize(rest);
      forall s ensures s in ListRooms(rooms) <==> s in ListRooms(rest) + {Summarize(k, rooms[k])} {
        if s in ListRooms(rooms) && s.roomId != k {
          assert s.roomId in rest;
        }
      }
      assert ListRooms(rooms) == ListRooms(rest) + {Summarize(k, rooms[k])};
      assert Summarize(k, rooms[k]) !in ListRooms(rest);
    }
  }

  /** The room-table of server.js with the log of what its handlers emitted. */
  class RoomTable {
    var rooms: map<RoomId, Room>
    var log: seq<Event>

    ghost predicate Valid()
      reads this
    {
      AllValid(rooms)
    }

    constructor ()
      ensures Valid() && rooms == map[] && log == []
    {
      rooms := map[];
      log := [];
    }

    /**
     * POST /create-room under the generated id `roomId` (an existing room
     * with that id is replaced). `socketId` is the request's optional
     * `socketId`; `connected` is the set of sockets the server knows, which
     * decides whether "roomCreated" can be sent. The target comes from
     * generateRandomNumber, whose every result meets the requires on it by
     * `SecretGenerator.GeneratedIsSecret`.
     */
    method CreateRoom(roomId: RoomId, mode: string, password: Option<string>,
                      socketId: Option<SocketId>, connected: set<SocketId>, target: string)
      requires Valid()
      requires mode == MultiplayerMode ==> SecretGenerator.IsSecret(target)
      modifies this
      ensures Valid()
      ensures rooms == old(rooms)[roomId :=
        if mode == MultiplayerMode then Classic([], target, StoredPassword(password), false)
        else Online([], StoredPassword(password), false, map[], 0, None)]
      ensures log == old(log) +
        if socketId.Some? && socketId.value != "" && socketId.value in connected
        then [RoomCreated(socketId.value, roomId)] else []
    {
      var room;
      if mode == MultiplayerMode {
        room := Classic([], target, StoredPassword(password), false);
      } else {
        room := Online([], StoredPassword(password), false, map[], 0, None);
      }
      rooms := rooms[roomId := room];
      if socketId.Some? && socketId.value != "" && socketId.value in connected {
        log := log + [RoomCreated(socketId.value, roomId)];
      }
    }

    /**
     * joinRoom from socket `socket`. An unknown room or a wrong password is
     * answered with an error to that socket alone and changes nothing.
     * Otherwise the player is listed (once), "joinedRoom" goes to the
     * socket, and gameStart is scheduled for the room exactly when this join
     * starts it.
     */
    method JoinRoom(socket: SocketId, roomId: RoomId, playerId: PlayerId, password: Option<string>)
      requires Valid()
      modifies this
      ensures Valid()
      ensures StartedKept(old(rooms), rooms)
      ensures roomId !in old(rooms) ==> rooms == old(rooms) && log == old(log) + [Error(socket, NoSuchRoom)]
      ensures roomId in old(rooms) && !Admits(old(rooms)[roomId], password) ==>
        rooms == old(rooms) && log == old(log) + [Error(socket, WrongPassword)]
      ensures roomId in old(rooms) && Admits(old(rooms)[roomId], password) ==>
        var room := old(rooms)[roomId];
        var p := Participant(playerId, socket);
        && rooms == old(rooms)[roomId := Joined(room, p)]
        && log == old(log) + [JoinedRoom(socket, roomId)] + if StartsGame(room, p) then [GameStart(roomId)] else []
    {
      if roomId !in rooms {
        log := log + [Error(socket, NoSuchRoom)];
        return;
      }
      var room := rooms[roomId];
      if !Admits(room, password) {
        log := log + [Error(socket, WrongPassword)];
        return;
      }
      Admit(roomId, Participant(playerId, socket));
    }

    /**
     * The admitted path of joinRoom: the player is listed unless their id is
     * already there, "joinedRoom" is sent back, and a room that now holds
     * two players and had not started is started and told so.
     */
    method Admit(roomId: RoomId, p: Participant)
      requires roomId in rooms && AllValid(rooms)
      modifies this
      ensures rooms == old(rooms)[roomId := Joined(old(rooms)[roomId], p)]
      ensures log == old(log) + [JoinedRoom(p.socketId, roomId)] +
        if StartsGame(old(rooms)[roomId], p) then [GameStart(roomId)] else []
      ensures AllValid(rooms) && StartedKept(old(rooms), rooms)
    {
      var room := rooms[roomId];
      var joined := Joined(room, p);
      var starts := StartsGame(room, p);
      JoinedKeepsInvariant(room, p);
      UpdateKeepsValid(rooms, roomId, joined);
      UpdateKeepsStarted(rooms, roomId, joined);
      rooms := rooms[roomId := joined];
      log := log + [JoinedRoom(p.socketId, roomId)] + if starts then [GameStart(roomId)] else [];
    }

    /**
     * guess with the `plus`/`minus` that checkGuess computed. Only a classic
     * room reacts: the guess is broadcast, and a result of four exact digits
     * ends the game for the guesser and deletes the room.
     */
    method Guess(roomId: RoomId, guess: string, playerId: PlayerId, plus: int, minus: int)
      requires Valid()
      modifies this
      ensures Valid()
      ensures roomId !in old(rooms) || old(rooms)[roomId].Online? ==> rooms == old(rooms) && log == old(log)
      ensures roomId in old(rooms) && old(rooms)[roomId].Classic? ==>
        && log == old(log) + [NewGuess(roomId, playerId, guess, plus, minus)]
                           + (if plus == 4 then [GameOver(roomId, playerId)] else [])
        && rooms == (if plus == 4 then old(rooms) - {roomId} else old(rooms))
    {
      if roomId !in rooms {
        return;
      }
      if rooms[roomId].Classic? {
        log := log + [NewGuess(roomId, playerId, guess, plus, minus)];
        if plus == 4 {
          log := log + [GameOver(roomId, playerId)];
          rooms := rooms - {roomId};
        }
      }
    }

    /**
     * setNumber. Ignored for an unknown or classic room and for a player
     * whose stored number is truthy; otherwise `number` is stored and counted.
     * When the count becomes exactly two, the `Math.random()` value `pick`
     * chooses the first player and the room is told. With no players listed
     * the source's `room.players[0].id` throws a TypeError after the number
     * was stored: `thrown` reports it, and nothing is emitted.
     */
    method SetNumber(roomId: RoomId, playerId: PlayerId, number: string, pick: Uniform) returns (thrown: bool)
      requires Valid()
      modifies this
      ensures Valid()
      ensures StartedKept(old(rooms), rooms)
      ensures roomId !in old(rooms) || old(rooms)[roomId].Classic? || HasNumber(old(rooms)[roomId], playerId) ==>
        rooms == old(rooms) && log == old(log) && !thrown
      ensures roomId in old(rooms) && old(rooms)[roomId].Online? && !HasNumber(old(rooms)[roomId], playerId) ==>
        var room := old(rooms)[roomId];
        var stored := room.(playerNumbers := room.playerNumbers[playerId := number], readyCount := room.readyCount + 1);
        && (stored.readyCount != 2 ==> rooms == old(rooms)[roomId := stored] && log == old(log) && !thrown)
        && (stored.readyCount == 2 && room.players == [] ==> rooms == old(rooms)[roomId := stored] && log == old(log) && thrown)
        && (stored.readyCount == 2 && room.players != [] ==>
              var first := room.players[Scaled(pick, |room.players|)].id;
              && HasId(room.players, first)
              && rooms == old(rooms)[roomId := stored.(turn := Some(first))]
              && log == old(log) + [BothReady(roomId), Turn(roomId, first)]
              && !thrown)
    {
      thrown := false;
      if roomId !in rooms || !rooms[roomId].Online? {
        return;
      }
      var room := rooms[roomId];
      if playerId in room.playerNumbers && room.playerNumbers[playerId] != "" {
        return;
      }
      room := room.(playerNumbers := room.playerNumbers[playerId := number]);
      room := room.(readyCount := room.readyCount + 1);
      if room.readyCount == 2 {
        if |room.players| == 0 {
          rooms := rooms[roomId := room];
          thrown := true;
          return;
        }
        var firstPlayer := room.players[Scaled(pick, |room.players|)].id;
        room := room.(turn := Some(firstPlayer));
        log := log + [BothReady(roomId), Turn(roomId, firstPlayer)];
      }
      rooms := rooms[roomId := room];
    }

    /**
     * disconnect of socket `socket`: in every room the players who joined
     * from it are removed, the others keep their order; the room hears
     * "playerLeft" if its count changed; every room left without players is
     * deleted, whether or not it had players before. No winner is declared.
     * The order of the notices follows the table's key order, which is not
     * modelled.
     */
    method Disconnect(socket: SocketId) returns (ghost order: seq<RoomId>)
      requires Valid()
      modifies this
      ensures Valid()
      ensures StartedKept(old(rooms), rooms)
      ensures rooms == AfterDisconnect(old(rooms), socket)
      ensures Enumerates(order, old(rooms).Keys)
      ensures log == old(log) + NoticesAlong(old(rooms), socket, order)
    {
      DisconnectedValid(rooms, socket, rooms.Keys);
      var after, emitted;
      after, emitted, order := ForEachRoom(rooms, log, socket);
      rooms := after;
      log := emitted;
    }
  }

  /** Moving a visited key from the pending set to the done set keeps them complementary. */
  lemma MoveToDone(keys: set<RoomId>, pending: set<RoomId>, done: set<RoomId>, id: RoomId)
    requires pending <= keys && done == keys - pending && id in pending
    ensures done + {id} == keys - (pending - {id})
  {
  }

  /**
   * The `Object.entries(rooms).forEach` of disconnect, over the table `rooms`
   * and the events `log` emitted so far: each room, in the visiting order
   * `order`, loses the players of `socket`, hears "playerLeft" if its count
   * changed, and is deleted if it has no players left.
   */
  method ForEachRoom(rooms: map<RoomId, Room>, log: seq<Event>, socket: SocketId)
    returns (after: map<RoomId, Room>, emitted: seq<Event>, ghost order: seq<RoomId>)
    ensures after == AfterDisconnect(rooms, socket)
    ensures Enumerates(order, rooms.Keys)
    ensures emitted == log + NoticesAlong(rooms, socket, order)
  {
    ghost var done: set<RoomId> := {};
    order := [];
    after := rooms;
    emitted := log;
    var pending := rooms.Keys;
    while pending != {}
      invariant pending <= rooms.Keys
      invariant done == rooms.Keys - pending
      invariant DisconnectProgress(rooms, socket, done, order, after, log, emitted)
      decreases pending
    {
      var roomId :| roomId in pending;
      DisconnectStep(rooms, socket, done, order, after, log, emitted, roomId);
      MoveToDone(rooms.Keys, pending, done, roomId);
      var room := Stripped(after[roomId], socket);
      if Loses(after[roomId], socket) {
        emitted := emitted + [PlayerLeft(roomId, socket)];
      }
      after := if room.players == [] then after - {roomId} else after[roomId := room];
      pending := pending - {roomId};
      done := done + {roomId};
      order := order + [roomId];
    }
  }

  /** A fresh table with the open online room "R", joined by A from socket s1. */
  method FirstJoined() returns (table: RoomTable)
    ensures fresh(table) && table.Valid()
    ensures table.rooms == map["R" := Online([Participant("A", "s1")], None, false, map[], 0, None)]
    ensures table.log == [JoinedRoom("s1", "R")]
  {
    var a := Participant("A", "s1");
    table := new RoomTable();
    table.CreateRoom("R", "online", None, None, {}, "");
    var empty := Online([], None, false, map[], 0, None);
    assert table.rooms == map["R" := empty];
    assert Joined(empty, a) == Online([a], None, false, map[], 0, None) && !StartsGame(empty, a);
    table.JoinRoom("s1", "R", "A", None);
  }

  /** The room of `FirstJoined`, joined by B from socket s2: the game starts. */
  method StartedPair() returns (table: RoomTable)
    ensures fresh(table) && table.Valid()
    ensures table.rooms == map["R" := Online([Participant("A", "s1"), Participant("B", "s2")], None, true, map[], 0, None)]
    ensures table.log == [JoinedRoom("s1", "R"), JoinedRoom("s2", "R"), GameStart("R")]
  {
    var a, b := Participant("A", "s1"), Participant("B", "s2");
    table := FirstJoined();
    var one := Online([a], None, false, map[], 0, None);
    var two := Online([a, b], None, true, map[], 0, None);
    assert !HasId([a], "B");
    assert Joined(one, b) == two && StartsGame(one, b);
    table.JoinRoom("s2", "R", "B", None);
    assert table.rooms == map["R" := two];
  }

  /**
   * A player who joins again, from another socket, is not listed twice and
   * does not start the game again.
   */
  method RejoinScenario() returns (events: seq<Event>, players: nat)
    ensures events == [JoinedRoom("s1", "R"), JoinedRoom("s2", "R"), GameStart("R"), JoinedRoom("s3", "R")]
    ensures players == 2
  {
    var table := StartedPair();
    assert table.rooms["R"].players[1].id == "B";
    table.JoinRoom("s3", "R", "B", None);
    events := table.log;
    players := |table.rooms["R"].players|;
  }

  /** The pair of `StartedPair` after B's socket s2 disconnects: A stays, the room stays started. */
  method SecondLeaves() returns (table: RoomTable)
    ensures fresh(table) && table.Valid()
    ensures table.rooms == map["R" := Online([Participant("A", "s1")], None, true, map[], 0, None)]
    ensures table.log == [JoinedRoom("s1", "R"), JoinedRoom("s2", "R"), GameStart("R"), PlayerLeft("R", "s2")]
  {
    table := StartedPair();
    SecondLeavesOutcome();
    ghost var order := table.Disconnect("s2");
  }

  /** What disconnect computes for the started pair when s2 closes, whatever order it picks. */
  lemma SecondLeavesOutcome()
    ensures var before := map["R" := Online([Participant("A", "s1"), Participant("B", "s2")], None, true, map[], 0, None)];
      && AfterDisconnect(before, "s2") == map["R" := Online([Participant("A", "s1")], None, true, map[], 0, None)]
      && forall order :: Enumerates(order, before.Keys) ==> NoticesAlong(before, "s2", order) == [PlayerLeft("R", "s2")]
  {
    var a, b := Participant("A", "s1"), Participant("B", "s2");
    var two := Online([a, b], None, true, map[], 0, None);
    var alone := Online([a], None, true, map[], 0, None);
    var before := map["R" := two];
    assert Without([a, b], "s2") == [a] by {
      assert Without([b], "s2") == [];
      assert [a, b][1..] == [b];
    }
    assert Stripped(two, "s2") == alone && Loses(two, "s2");
    SingleKeyDisconnect(before, "R", "s2");
  }

  /**
   * After one of two players disconnects, the room stays with the other one
   * and remains started, so a new second player never gets gameStart.
   */
  method ReplacementScenario() returns (events: seq<Event>, players: nat, started: bool)
    ensures events == [JoinedRoom("s1", "R"), JoinedRoom("s2", "R"), GameStart("R"),
                       PlayerLeft("R", "s2"), JoinedRoom("s3", "R")]
    ensures players == 2 && started
  {
    var a, c := Participant("A", "s1"), Participant("C", "s3");
    var table := SecondLeaves();
    var alone := Online([a], None, true, map[], 0, None);
    var pair := Online([a, c], None, true, map[], 0, None);
    assert !HasId([a], "C");
    assert Joined(alone, c) == pair && !StartsGame(alone, c);
    table.JoinRoom("s3", "R", "C", None);
    assert table.rooms == map["R" := pair];
    events := table.log;
    players := |table.rooms["R"].players|;
    started := table.rooms["R"].started;
  }

  /** With a single room, disconnect visits just that room. */
  lemma SingleKeyDisconnect(rooms: map<RoomId, Room>, id: RoomId, socketId: SocketId)
    requires rooms.Keys == {id}
    ensures forall order :: Enumerates(order, rooms.Keys) ==> order == [id]
    ensures Without(rooms[id].players, socketId) != [] ==>
      AfterDisconnect(rooms, socketId) == map[id := Stripped(rooms[id], socketId)]
    ensures Without(rooms[id].players, socketId) == [] ==> AfterDisconnect(rooms, socketId) == map[]
    ensures NoticesAlong(rooms, socketId, [id]) == if Loses(rooms[id], socketId) then [PlayerLeft(id, socketId)] else []
  {
    forall order | Enumerates(order, rooms.Keys) ensures order == [id] {
      assert id in order;
      assert order[0] in rooms.Keys && order[|order| - 1] in rooms.Keys;
      assert |order| == 1;
    }
    assert [id][..0] == [];
  }

  /** A room nobody has joined yet is deleted by the next disconnect of any socket. */
  method UnjoinedRoomScenario() returns (remaining: set<RoomId>)
    ensures remaining == {}
  {
    var table := new RoomTable();
    table.CreateRoom("R", "online", Some("secret"), None, {}, "");
    ghost var order := table.Disconnect("elsewhere");
    remaining := table.rooms.Keys;
  }
}
