/**
 * The older room table of index.js: rooms hold a plain list of player ids
 * and a target number, with no password, no mode and no started flag. The
 * handlers are POST /create-room and the socket events joinRoom, guess,
 * leaveRoom and disconnect. Random inputs and checkGuess's result are
 * parameters, as in `ServerRooms`.
 */
module LegacyRooms {
  import SecretGenerator

  type RoomId = string
  type PlayerId = string
  type SocketId = string

  datatype Room = Room(players: seq<PlayerId>, targetNumber: string)

  /** What index.js emits: to one socket, or to everybody in a room. */
  datatype Event =
    | InvalidRoom(to: SocketId)
    | GameStart(roomId: RoomId)
    | NewGuess(roomId: RoomId, playerId: PlayerId, guess: string, plus: int, minus: int)
    | GameOver(roomId: RoomId, winnerId: PlayerId)
    | PlayerLeft(roomId: RoomId)

  ghost predicate NoDuplicates(ids: seq<PlayerId>)
  {
    forall i, j :: 0 <= i < j < |ids| ==> ids[i] != ids[j]
  }

  /**
   * `room.players.push(playerId)` unless `room.players.includes(playerId)`:
   * the id is then listed exactly once, after the others.
   */
  function AddPlayer(players: seq<PlayerId>, playerId: PlayerId): (r: seq<PlayerId>)
    ensures playerId in r
    ensures |players| <= |r| <= |players| + 1
    ensures r[..|players|] == players
    ensures playerId in players ==> r == players
    ensures NoDuplicates(players) ==> NoDuplicates(r)
  {
    if playerId in players then players else players + [playerId]
  }

  /**
   * gameStart goes out on every join that leaves exactly two players listed,
   * also when the joiner was already one of them.
   */
  predicate AnnouncesStart(room: Room, playerId: PlayerId)
    ensures AnnouncesStart(room, playerId) <==>
      (|room.players| == 2 && playerId in room.players) || (|room.players| == 1 && playerId !in room.players)
  {
    |AddPlayer(room.players, playerId)| == 2
  }

  /** A full room announces the start again each time one of its two players joins again. */
  lemma RejoinAnnouncesAgain(room: Room, playerId: PlayerId)
    requires |room.players| == 2 && playerId in room.players
    ensures AnnouncesStart(room, playerId)
    ensures AddPlayer(room.players, playerId) == room.players
  {
  }

  /** The room is not capped: a third player is listed, and no gameStart goes out. */
  lemma ThirdJoinerListed(room: Room, playerId: PlayerId)
    requires |room.players| == 2 && playerId !in room.players
    ensures !AnnouncesStart(room, playerId)
    ensures AddPlayer(room.players, playerId) == room.players + [playerId]
  {
  }

  ghost predicate RoomInvariant(room: Room)
  {
    NoDuplicates(room.players) && SecretGenerator.IsSecret(room.targetNumber)
  }

  class LegacyRoomTable {
    var rooms: map<RoomId, Room>
    var log: seq<Event>

    ghost predicate Valid()
      reads this
    {
      forall id :: id in rooms ==> RoomInvariant(rooms[id])
    }

    constructor ()
      ensures Valid() && rooms == map[] && log == []
    {
      rooms := map[];
      log := [];
    }

    /**
     * POST /create-room: an empty room with the generated target under the
     * generated id, replacing a room that had that id. Nothing is emitted.
     * The target comes from generateRandomNumber, whose every result meets
     * the requires on it by `SecretGenerator.GeneratedIsSecret`.
     */
    method CreateRoom(roomId: RoomId, target: string)
      requires Valid()
      requires SecretGenerator.IsSecret(target)
      modifies this
      ensures Valid()
      ensures rooms == old(rooms)[roomId := Room([], target)]
      ensures log == old(log)
    {
      rooms := rooms[roomId := Room([], target)];
    }

    /**
     * joinRoom: an unknown room is reported to the socket and nothing
     * changes; otherwise the id is listed once, and gameStart goes to the
     * room whenever it then holds exactly two players.
     */
    method JoinRoom(socket: SocketId, roomId: RoomId, playerId: PlayerId)
      requires Valid()
      modifies this
      ensures Valid()
      ensures roomId !in old(rooms) ==> rooms == old(rooms) && log == old(log) + [InvalidRoom(socket)]
      ensures roomId in old(rooms) ==>
        var room := old(rooms)[roomId];
        && rooms == old(rooms)[roomId := room.(players := AddPlayer(room.players, playerId))]
        && log == old(log) + if AnnouncesStart(room, playerId) then [GameStart(roomId)] else []
    {
      if roomId !in rooms {
        log := log + [InvalidRoom(socket)];
        return;
      }
      var room := rooms[roomId];
      var players := room.players;
      if playerId !in players {
        players := players + [playerId];
      }
      assert players == AddPlayer(room.players, playerId);
      assert RoomInvariant(Room(players, room.targetNumber));
      rooms := rooms[roomId := Room(players, room.targetNumber)];
      if |players| == 2 {
        log := log + [GameStart(roomId)];
      }
    }

    /**
     * guess in any existing room: the result is broadcast, and four exact
     * digits end the game for the guesser and delete the room. A guess for
     * an unknown room is ignored.
     */
    method Guess(roomId: RoomId, guess: string, playerId: PlayerId, plus: int, minus: int)
      requires Valid()
      modifies this
      ensures Valid()
      ensures roomId !in old(rooms) ==> rooms == old(rooms) && log == old(log)
      ensures roomId in old(rooms) ==>
        && log == old(log) + [NewGuess(roomId, playerId, guess, plus, minus)]
                           + (if plus == 4 then [GameOver(roomId, playerId)] else [])
        && rooms == (if plus == 4 then old(rooms) - {roomId} else old(rooms))
    {
      if roomId !in rooms {
        return;
      }
      log := log + [NewGuess(roomId, playerId, guess, plus, minus)];
      if plus == 4 {
        log := log + [GameOver(roomId, playerId)];
        rooms := rooms - {roomId};
      }
    }

    /**
     * leaveRoom: the room, known or not, is told that a player left; the
     * player stays listed and no room is deleted.
     */
    method LeaveRoom(roomId: RoomId)
      requires Valid()
      modifies this
      ensures Valid()
      ensures rooms == old(rooms)
      ensures log == old(log) + [PlayerLeft(roomId)]
    {
      log := log + [PlayerLeft(roomId)];
    }

    /** disconnect only logs to the console: the table and the emitted events are unchanged. */
    method Disconnect(socket: SocketId)
      requires Valid()
      modifies this
      ensures Valid()
      ensures rooms == old(rooms) && log == old(log)
    {
    }
  }

  /** Joining again with an id already listed in a full room re-sends gameStart. */
  method RejoinScenario(target: string) returns (events: seq<Event>, players: nat)
    requires SecretGenerator.IsSecret(target)
    ensures events == [GameStart("R"), GameStart("R")]
    ensures players == 2
  {
    var table := new LegacyRoomTable();
    table.CreateRoom("R", target);
    table.JoinRoom("s1", "R", "A");
    assert "B" !in ["A"];
    table.JoinRoom("s2", "R", "B");
    assert "B" in ["A", "B"];
    table.JoinRoom("s3", "R", "B");
    events := table.log;
    players := |table.rooms["R"].players|;
  }
}
