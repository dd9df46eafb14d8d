/**
 * The state of one room (`games[roomId]` in uno_server.js) as a value:
 * players in seating order, draw pile, discard pile, hands by player id,
 * the turn cursor and the game-over flag; the reads the server makes of it
 * (`getCurrentPlayerId`, `getTopEffectiveColor`, the per-player snapshot);
 * and `Sound`, the invariant every engine operation keeps.
 */
module Tables {
  import opened Options
  import opened Seqs
  import opened Cards

  type PlayerId = string

  /** A player record `{ id, name, wins }`; a `wins` never assigned reads as false. */
  datatype Player = Player(id: PlayerId, name: string, wins: bool)

  /** The fields of a room object. */
  datatype Table = Table(
    players: seq<Player>,
    deck: seq<Card>,
    discard: seq<Card>,
    hands: map<PlayerId, seq<Card>>,
    cur: nat,
    isOver: bool)

  /** A room as the join handler creates it: nobody seated, nothing dealt. */
  const EmptyTable := Table([], [], [], map[], 0, false)

  /** No two seated players share an id. */
  predicate DistinctIds(players: seq<Player>) {
    forall i, j :: 0 <= i < j < |players| ==> players[i].id != players[j].id
  }

  /** The set of seated ids. */
  function IdSet(players: seq<Player>): set<PlayerId> {
    set p | p in players :: p.id
  }

  /** `players.findIndex(p => p.id === id)`. */
  function PlayerIndex(players: seq<Player>, id: PlayerId): (i: int)
    ensures -1 <= i < |players|
    ensures i >= 0 ==> players[i].id == id
    ensures forall j :: 0 <= j < |players| && (i < 0 || j < i) ==> players[j].id != id
    decreases |players|
  {
    if players == [] then -1
    else if players[0].id == id then 0
    else
      var k := PlayerIndex(players[1..], id);
      assert forall j :: 1 <= j < |players| ==> players[j] == players[1..][j - 1];
      if k < 0 then -1 else k + 1
  }

  /** `players.find(p => p.id === id)`. */
  function FindPlayer(players: seq<Player>, id: PlayerId): (r: Option<Player>)
    ensures r.Some? <==> id in IdSet(players)
    ensures r.Some? ==> r.value in players && r.value.id == id
  {
    var i := PlayerIndex(players, id);
    if i < 0 then
      assert forall p :: p in players ==> p.id != id;
      None
    else Some(players[i])
  }

  /** The cursor points at a seat, or rests at 0 in an empty room. */
  predicate CursorOk(t: Table) {
    if t.players == [] then t.cur == 0 else t.cur < |t.players|
  }

  /** A card coloured `wild` can only carry a wild value; a played wild card is recoloured. */
  predicate Marked(c: Card) {
    c.color == Wild ==> IsWildValue(c.value)
  }

  /**
   * What every operation of the engine keeps: distinct ids, a cursor on a
   * seat, nothing dealt before a discard pile exists and none before two
   * players sit, a hand for every player once dealt, and no card with colour
   * `wild` on the discard pile.
   */
  predicate Sound(t: Table) {
    && DistinctIds(t.players)
    && CursorOk(t)
    && (t.discard == [] ==> t.deck == [] && t.hands == map[])
    && (|t.players| < 2 ==> t.discard == [])
    && (t.discard != [] ==> t.hands.Keys == IdSet(t.players))
    && (forall c :: c in t.deck ==> Marked(c))
    && (forall pid :: pid in t.hands ==> forall c :: c in t.hands[pid] ==> Marked(c))
    && (forall c :: c in t.discard ==> c.color != Wild)
  }

  lemma EmptyTableSound()
    ensures Sound(EmptyTable)
  {
  }

  /** `getCurrentPlayerId`: no one in an empty room, else the id at the cursor. */
  function CurrentPlayerId(t: Table): (r: Option<PlayerId>)
    requires CursorOk(t)
    ensures r.None? <==> t.players == []
    ensures r.Some? ==> r.value in IdSet(t.players)
  {
    if t.players == [] then None else Some(t.players[t.cur].id)
  }

  /** The current player's id is found again at the cursor's seat and nowhere before it. */
  lemma CurrentPlayerSeat(t: Table)
    requires Sound(t) && t.players != []
    ensures PlayerIndex(t.players, CurrentPlayerId(t).value) == t.cur
  {
  }

  /** `discardPile[length - 1]`, or nothing on an empty pile. */
  function TopCard(discard: seq<Card>): (r: Option<Card>)
    ensures r.Some? <==> discard != []
    ensures r.Some? ==> r.value == discard[|discard| - 1]
  {
    if discard == [] then None else Some(Last(discard))
  }

  /**
   * `getTopEffectiveColor`: the colour of the top card, nothing on an empty
   * pile. (Its `chosenColor` branch never fires: no card ever has that field.)
   */
  function TopEffectiveColor(discard: seq<Card>): (r: Option<Color>)
    ensures r.Some? <==> discard != []
    ensures r.Some? ==> r.value == TopCard(discard).value.color
  {
    if discard == [] then None else Some(Last(discard).color)
  }

  /** On a sound table the effective top colour is one of the four real colours. */
  lemma TopColorIsReal(t: Table)
    requires Sound(t) && t.discard != []
    ensures TopEffectiveColor(t.discard).Some? && TopEffectiveColor(t.discard).value != Wild
  {
    assert Last(t.discard) in t.discard;
  }

  /** `game.hands[playerId] || []`. */
  function HandOf(t: Table, pid: PlayerId): (h: seq<Card>)
    ensures pid in t.hands ==> h == t.hands[pid]
    ensures pid !in t.hands ==> h == []
  {
    if pid in t.hands then t.hands[pid] else []
  }

  /** The body of `GET /state/:roomId/:playerId`. */
  datatype StateView = StateView(
    topCard: Option<Card>,
    currentPlayerId: Option<PlayerId>,
    currentPlayerName: string,
    hand: seq<Card>,
    players: seq<Player>,
    canPlay: bool,
    isOver: bool)

  /**
   * The snapshot a player receives: the top card, whose turn it is (the name
   * is looked up only for a non-empty id), the player's own hand, the seats,
   * whether it is this player's turn, and the game-over flag.
   */
  function Snapshot(t: Table, pid: PlayerId): (v: StateView)
    requires CursorOk(t)
    ensures v.topCard == TopCard(t.discard) && v.hand == HandOf(t, pid)
    ensures v.players == t.players && v.isOver == t.isOver
    ensures v.canPlay <==> t.players != [] && t.players[t.cur].id == pid
  {
    var current := CurrentPlayerId(t);
    var name :=
      if current.Some? && current.value != "" then
        match FindPlayer(t.players, current.value)
        case Some(p) => p.name
        case None => ""
      else "";
    StateView(TopCard(t.discard), current, name, HandOf(t, pid), t.players, current == Some(pid), t.isOver)
  }

  /** The snapshot names the player at the cursor, unless that player's id is empty. */
  lemma SnapshotNamesCurrentPlayer(t: Table, pid: PlayerId)
    requires Sound(t)
    ensures t.players == [] ==> Snapshot(t, pid).currentPlayerId.None? && Snapshot(t, pid).currentPlayerName == ""
    ensures t.players != [] ==> Snapshot(t, pid).currentPlayerId == Some(t.players[t.cur].id)
    ensures t.players != [] && t.players[t.cur].id != "" ==> Snapshot(t, pid).currentPlayerName == t.players[t.cur].name
    ensures t.players != [] && t.players[t.cur].id == "" ==> Snapshot(t, pid).currentPlayerName == ""
  {
    if t.players != [] {
      CurrentPlayerSeat(t);
    }
  }

  /** A player's snapshot does not depend on anybody else's hand. */
  lemma SnapshotHidesOtherHands(t: Table, pid: PlayerId, other: PlayerId, h: seq<Card>)
    requires CursorOk(t) && other != pid
    ensures Snapshot(t.(hands := t.hands[other := h]), pid) == Snapshot(t, pid)
  {
  }
}
