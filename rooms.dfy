/**
 * The process-wide room table `games` of uno_server.js as a value: the rooms
 * by id together with the order in which they were created, and the four
 * handlers that reach a room through it: join/create, the room listing, the
 * per-player state and the action handler.
 */
module Rooms {
  import opened Options
  import opened Seqs
  import opened Cards
  import opened Tables
  import opened Dealing
  import opened Actions

  type RoomId = string

  /** The room id a client sends to ask for a new room. */
  const NullRoom := "null"

  /** `games`: the rooms by id, and the order in which their ids were added. */
  datatype Games = Games(rooms: map<RoomId, Table>, order: seq<RoomId>)

  const NoGames := Games(map[], [])

  /**
   * Every room is listed once, nothing else is listed, and every room is
   * sound.
   */
  predicate GamesOk(g: Games) {
    && (forall i, j :: 0 <= i < j < |g.order| ==> g.order[i] != g.order[j])
    && (forall rid :: rid in g.rooms ==> rid in g.order)
    && (forall i :: 0 <= i < |g.order| ==> g.order[i] in g.rooms)
    && (forall rid :: rid in g.rooms ==> Sound(g.rooms[rid]))
  }

  lemma NoGamesOk()
    ensures GamesOk(NoGames)
  {
  }

  /** `if (roomId === 'null') roomId = uuidv4()`, with the fresh id given. */
  function Target(roomId: RoomId, freshId: RoomId): (rid: RoomId)
    ensures roomId == NullRoom ==> rid == freshId
    ensures roomId != NullRoom ==> rid == roomId
  {
    if roomId == NullRoom then freshId else roomId
  }

  /**
   * `POST /join/:roomId`: pick the room (a fresh one for `null`), create it
   * empty when it does not exist, and admit the player into it. The reply
   * carries the room id used.
   */
  function JoinGames(g: Games, roomId: RoomId, freshId: RoomId, id: PlayerId, name: string, newDeck: seq<Card>): (r: (RoomId, Games))
    requires GamesOk(g)
    ensures r.0 == Target(roomId, freshId)
    ensures r.1.rooms.Keys == g.rooms.Keys + {r.0}
    ensures forall rid :: rid in g.rooms && rid != r.0 ==> r.1.rooms[rid] == g.rooms[rid]
  {
    var rid := Target(roomId, freshId);
    var room := if rid in g.rooms then g.rooms[rid] else EmptyTable;
    var order := if rid in g.rooms then g.order else g.order + [rid];
    (rid, Games(g.rooms[rid := Admit(room, id, name, newDeck)], order))
  }

  /** One entry of `GET /rooms`: `{ roomId, playerCount, players: names }`. */
  datatype RoomInfo = RoomInfo(roomId: RoomId, playerCount: nat, names: seq<string>)

  function Info(rid: RoomId, t: Table): RoomInfo {
    RoomInfo(rid, |t.players|, Map(t.players, (p: Player) => p.name))
  }

  /** `Object.entries(games).map(...)`, for the ids in `order`. */
  function ListFrom(rooms: map<RoomId, Table>, order: seq<RoomId>): seq<RoomInfo>
    requires forall i :: 0 <= i < |order| ==> order[i] in rooms
    decreases |order|
  {
    if order == [] then []
    else [Info(order[0], rooms[order[0]])] + ListFrom(rooms, order[1..])
  }

  /** `GET /rooms`. */
  function Listing(g: Games): seq<RoomInfo>
    requires GamesOk(g)
  {
    ListFrom(g.rooms, g.order)
  }

  /** `GET /state/:roomId/:playerId`: nothing (the 404) for an unknown room. */
  function StateOf(g: Games, roomId: RoomId, pid: PlayerId): (r: Option<StateView>)
    requires GamesOk(g)
    ensures r.None? <==> roomId !in g.rooms
  {
    if roomId in g.rooms then Some(Snapshot(g.rooms[roomId], pid)) else None
  }

  /**
   * `POST /action/:roomId`: nothing (the 404) for an unknown room, otherwise
   * the action handler on that room.
   */
  function ActGames(g: Games, roomId: RoomId, pid: PlayerId, action: Action, roll: nat -> nat): (r: (Option<Response>, Games))
    requires GamesOk(g)
  {
    if roomId !in g.rooms then (None, g)
    else
      var step := Step(g.rooms[roomId], pid, action, roll);
      (Some(step.0), g.(rooms := g.rooms[roomId := step.1]))
  }

  // ---------------------------------------------------------------------------
  // Properties

  /** `null` opens the room with the fresh id; a room that does not exist starts empty with the player seated alone. */
  lemma JoinCreates(g: Games, roomId: RoomId, freshId: RoomId, id: PlayerId, name: string, newDeck: seq<Card>)
    requires GamesOk(g) && Target(roomId, freshId) !in g.rooms
    ensures var (rid, h) := JoinGames(g, roomId, freshId, id, name, newDeck);
      && (roomId == NullRoom ==> rid == freshId)
      && h.rooms[rid] == EmptyTable.(players := [Player(id, name, false)])
      && h.order == g.order + [rid]
  {
  }

  /** Joining an existing room with a seated id changes nothing at all. */
  lemma RejoinChangesNothing(g: Games, roomId: RoomId, freshId: RoomId, id: PlayerId, name: string, newDeck: seq<Card>)
    requires GamesOk(g)
    requires Target(roomId, freshId) in g.rooms && id in IdSet(g.rooms[Target(roomId, freshId)].players)
    ensures JoinGames(g, roomId, freshId, id, name, newDeck).1 == g
  {
    var rid := Target(roomId, freshId);
    assert g.rooms[rid := g.rooms[rid]] == g.rooms;
  }

  /**
   * A newcomer who brings an existing room to two or more players deals the
   * room again: the seats keep their order with `wins` cleared and the
   * newcomer last, and (for fewer than fifteen players) every seat holds seven
   * cards with the cursor back at 0.
   */
  lemma JoinRedeals(g: Games, roomId: RoomId, freshId: RoomId, id: PlayerId, name: string, newDeck: seq<Card>)
    requires GamesOk(g) && FreshDeck(newDeck)
    requires Target(roomId, freshId) in g.rooms
    requires id !in IdSet(g.rooms[Target(roomId, freshId)].players) && |g.rooms[Target(roomId, freshId)].players| >= 1
    ensures var rid := Target(roomId, freshId);
      var t, u := g.rooms[rid], JoinGames(g, roomId, freshId, id, name, newDeck).1.rooms[rid];
      && u.players == ResetWins(t.players + [Player(id, name, false)])
      && !u.isOver
      && (|t.players| < 14 ==>
            && u.cur == 0 && |u.discard| == 1 && u.hands.Keys == IdSet(u.players)
            && forall i :: 0 <= i < |u.players| ==> |u.hands[u.players[i].id]| == HandSize)
  {
    var rid := Target(roomId, freshId);
    AdmitRedeals(g.rooms[rid], id, name, newDeck);
  }

  /** Putting a sound room under an id, listed last if the id is new, keeps the table consistent. */
  lemma PutKeepsOk(g: Games, rid: RoomId, t: Table)
    requires GamesOk(g) && Sound(t)
    ensures GamesOk(Games(g.rooms[rid := t], if rid in g.rooms then g.order else g.order + [rid]))
  {
  }

  /** Joining keeps the room table consistent and every room sound. */
  lemma JoinKeepsOk(g: Games, roomId: RoomId, freshId: RoomId, id: PlayerId, name: string, newDeck: seq<Card>)
    requires GamesOk(g) && FreshDeck(newDeck)
    ensures GamesOk(JoinGames(g, roomId, freshId, id, name, newDeck).1)
  {
    var rid := Target(roomId, freshId);
    var room := if rid in g.rooms then g.rooms[rid] else EmptyTable;
    EmptyTableSound();
    AdmitSound(room, id, name, newDeck);
    PutKeepsOk(g, rid, Admit(room, id, name, newDeck));
  }

  /** The table after a join, given what the join made of the room. */
  lemma JoinPut(g: Games, roomId: RoomId, freshId: RoomId, id: PlayerId, name: string, newDeck: seq<Card>, t: Table)
    requires GamesOk(g) && FreshDeck(newDeck)
    requires var rid := Target(roomId, freshId);
      t == Admit(if rid in g.rooms then g.rooms[rid] else EmptyTable, id, name, newDeck)
    ensures var rid := Target(roomId, freshId);
      var h := Games(g.rooms[rid := t], if rid in g.rooms then g.order else g.order + [rid]);
      JoinGames(g, roomId, freshId, id, name, newDeck) == (rid, h) && GamesOk(h)
  {
    JoinKeepsOk(g, roomId, freshId, id, name, newDeck);
  }

  /**
   * The listing has one entry per room, in creation order, with the room's
   * player count and its players' names in seating order.
   */
  lemma {:induction false} ListFromShape(rooms: map<RoomId, Table>, order: seq<RoomId>)
    requires forall i :: 0 <= i < |order| ==> order[i] in rooms
    ensures var l := ListFrom(rooms, order);
      && |l| == |order|
      && forall i :: 0 <= i < |l| ==>
           && l[i].roomId == order[i]
           && l[i].playerCount == |rooms[order[i]].players|
           && l[i].names == Map(rooms[order[i]].players, (p: Player) => p.name)
    decreases |order|
  {
    if order != [] {
      ListFromShape(rooms, order[1..]);
    }
  }

  /** Every room appears in the listing exactly once. */
  lemma ListingCoversRooms(g: Games)
    requires GamesOk(g)
    ensures forall rid :: rid in g.rooms <==> exists i :: 0 <= i < |Listing(g)| && Listing(g)[i].roomId == rid
    ensures forall i, j :: 0 <= i < j < |Listing(g)| ==> Listing(g)[i].roomId != Listing(g)[j].roomId
  {
    ListFromShape(g.rooms, g.order);
    forall rid | rid in g.rooms
      ensures exists i :: 0 <= i < |Listing(g)| && Listing(g)[i].roomId == rid
    {
      var i :| 0 <= i < |g.order| && g.order[i] == rid;
      assert Listing(g)[i].roomId == rid;
    }
  }

  /** An action on an unknown room is the 404 and changes nothing. */
  lemma ActUnknownRoom(g: Games, roomId: RoomId, pid: PlayerId, action: Action, roll: nat -> nat)
    requires GamesOk(g) && roomId !in g.rooms
    ensures ActGames(g, roomId, pid, action, roll) == (None, g)
  {
  }

  /**
   * An action touches its own room only, and a room the action handler
   * rejects is left as it was.
   */
  lemma ActTouchesOneRoom(g: Games, roomId: RoomId, pid: PlayerId, action: Action, roll: nat -> nat)
    requires GamesOk(g) && roomId in g.rooms
    ensures var (r, h) := ActGames(g, roomId, pid, action, roll);
      && h.order == g.order && h.rooms.Keys == g.rooms.Keys
      && (forall rid :: rid in g.rooms && rid != roomId ==> h.rooms[rid] == g.rooms[rid])
      && (r != Some(Ok) ==> h == g)
  {
    var step := Step(g.rooms[roomId], pid, action, roll);
    if step.0 != Ok {
      assert Rejection(g.rooms[roomId], pid, action).Some?;
      assert g.rooms[roomId := g.rooms[roomId]] == g.rooms;
    }
  }

  /** The table after an action, given what the action handler made of the room. */
  lemma ActPut(g: Games, roomId: RoomId, pid: PlayerId, action: Action, roll: nat -> nat, resp: Response, t: Table)
    requires GamesOk(g) && roomId in g.rooms
    requires (resp, t) == Step(g.rooms[roomId], pid, action, roll)
    ensures ActGames(g, roomId, pid, action, roll) == (Some(resp), g.(rooms := g.rooms[roomId := t]))
    ensures GamesOk(g.(rooms := g.rooms[roomId := t]))
  {
    StepKeepsSound(g.rooms[roomId], pid, action, roll);
    PutKeepsOk(g, roomId, t);
  }

  /** Actions keep the room table consistent and every room sound. */
  lemma ActKeepsOk(g: Games, roomId: RoomId, pid: PlayerId, action: Action, roll: nat -> nat)
    requires GamesOk(g)
    ensures GamesOk(ActGames(g, roomId, pid, action, roll).1)
  {
    if roomId in g.rooms {
      StepKeepsSound(g.rooms[roomId], pid, action, roll);
      PutKeepsOk(g, roomId, Step(g.rooms[roomId], pid, action, roll).1);
    }
  }
}
