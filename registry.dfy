/**
 * `games` in uno_server.js as the server keeps it: a dictionary from room id
 * to a room object that the handlers update in place. Each handler is proved
 * to leave the dictionary as the corresponding function of `Rooms` says.
 */
module Server {
  import opened Options
  import opened Seqs
  import opened Cards
  import opened Tables
  import opened Dealing
  import opened Actions
  import opened Rooms
  import opened Session

  class Registry {
    /** The room objects by id, each as the value of its fields. */
    var rooms: map<RoomId, Table>
    /** The order in which room ids were first added to `games`. */
    var order: seq<RoomId>

    function Contents(): Games
      reads this
    {
      Games(rooms, order)
    }

    /** Every room is listed once and every room is sound. */
    predicate Valid()
      reads this
    {
      GamesOk(Contents())
    }

    /** `const games = {}`. */
    constructor ()
      ensures Contents() == NoGames && Valid()
    {
      rooms, order := map[], [];
      NoGamesOk();
    }

    /**
     * `POST /join/:roomId`: resolve `null` to `freshId`, create the room if
     * there is none, and run the join on its room object. Returns the room id
     * of the reply.
     */
    method Join(roomId: RoomId, freshId: RoomId, id: PlayerId, name: string, uuid: nat -> CardId, roll: nat -> nat)
      returns (joined: RoomId)
      requires Valid()
      modifies this
      ensures Valid()
      ensures (joined, Contents()) == JoinGames(old(Contents()), roomId, freshId, id, name, Generated(uuid, roll))
    {
      var g, h := Contents(), NoGames;
      joined, h := JoinInto(g, roomId, freshId, id, name, uuid, roll);
      rooms, order := h.rooms, h.order;
      assert Contents() == h;
    }

    /** `GET /rooms`: one entry per room, in the order the rooms were created. */
    method ListRooms() returns (list: seq<RoomInfo>)
      requires Valid()
      ensures list == Listing(Contents())
    {
      list := Listed(rooms, order);
    }

    /** `GET /state/:roomId/:playerId`: nothing (the 404) for an unknown room, else the snapshot. */
    method State(roomId: RoomId, pid: PlayerId) returns (r: Option<StateView>)
      requires Valid()
      ensures r == StateOf(Contents(), roomId, pid)
    {
      if roomId !in rooms {
        return None;
      }
      r := Some(Snapshot(rooms[roomId], pid));
    }

    /**
     * `POST /action/:roomId`: nothing (the 404) for an unknown room, else the
     * action handler on its room object.
     */
    method Act(roomId: RoomId, pid: PlayerId, action: Action, roll: nat -> nat) returns (r: Option<Response>)
      requires Valid()
      modifies this
      ensures Valid()
      ensures (r, Contents()) == ActGames(old(Contents()), roomId, pid, action, roll)
    {
      if roomId !in rooms {
        return None;
      }
      var room := new GameSession.From(rooms[roomId]);
      var resp := room.Act(pid, action, roll);
      ActPut(Contents(), roomId, pid, action, roll, resp, room.View());
      r := Some(resp);
      rooms := rooms[roomId := room.View()];
    }
  }

  /**
   * The body of `POST /join/:roomId` on the dictionary of rooms: resolve
   * `null` to `freshId`, start a missing room as the empty room object, run
   * the join on that room object and store it, listing a new room last.
   */
  method JoinInto(g: Games, roomId: RoomId, freshId: RoomId, id: PlayerId, name: string, uuid: nat -> CardId, roll: nat -> nat)
    returns (joined: RoomId, h: Games)
    requires GamesOk(g)
    ensures GamesOk(h)
    ensures (joined, h) == JoinGames(g, roomId, freshId, id, name, Generated(uuid, roll))
  {
    joined := if roomId == NullRoom then freshId else roomId;
    var start := if joined in g.rooms then g.rooms[joined] else EmptyTable;
    var t := JoinRoom(start, id, name, uuid, roll);
    h := Games(g.rooms[joined := t], if joined in g.rooms then g.order else g.order + [joined]);
    GeneratedFresh(uuid, roll);
    JoinPut(g, roomId, freshId, id, name, Generated(uuid, roll), t);
  }

  /** The loop of `GET /rooms` over the room ids in creation order. */
  method Listed(rooms: map<RoomId, Table>, order: seq<RoomId>) returns (list: seq<RoomInfo>)
    requires forall i :: 0 <= i < |order| ==> order[i] in rooms
    ensures list == ListFrom(rooms, order)
  {
    list := [];
    var i := 0;
    while i < |order|
      invariant i <= |order|
      invariant list + ListFrom(rooms, order[i..]) == ListFrom(rooms, order)
    {
      assert order[i..][1..] == order[i + 1..];
      list := list + [Info(order[i], rooms[order[i]])];
      i := i + 1;
    }
  }
}
