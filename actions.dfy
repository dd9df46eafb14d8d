/**
 * The body of `POST /action/:roomId` (uno_server.js) on one room: the turn
 * check, the checks on a played card, moving the card, the card effects,
 * the win flags, the cursor steps, and `DRAW_CARD` with its reshuffle.
 */
module Actions {
  import opened Options
  import opened Seqs
  import opened Cards
  import opened Tables
  import Shuffling

  /** `action` in the request body; any `type` other than the two known ones is `Other`. */
  datatype Action =
    | PlayCard(cardId: CardId, chosenColor: Option<string>)
    | DrawCard
    | Other(kind: string)

  /** The handler's replies: success, or the 403 and the three 400 rejections. */
  datatype Response =
    | Ok
    | NotYourTurn(currentPlayerId: Option<PlayerId>, currentPlayerName: string)
    | CardNotOwned
    | ColorNotChosen
    | IllegalPlay

  /** The name the 403 reply falls back to. */
  const UnknownPlayerName := "未知玩家"

  /** `hand.findIndex(card => card.id === cardId)`. */
  function CardIndex(hand: seq<Card>, cid: CardId): (i: int)
    ensures -1 <= i < |hand|
    ensures i >= 0 ==> hand[i].id == cid
    ensures forall j :: 0 <= j < |hand| && (i < 0 || j < i) ==> hand[j].id != cid
    decreases |hand|
  {
    if hand == [] then -1
    else if hand[0].id == cid then 0
    else
      var k := CardIndex(hand[1..], cid);
      assert forall j :: 1 <= j < |hand| ==> hand[j] == hand[1..][j - 1];
      if k < 0 then -1 else k + 1
  }

  /**
   * The seat after seat `i` at a table of `n`, going round: the server's
   * `(i + 1) % n` for a seat in range (`AfterIsMod`).
   */
  function After(i: nat, n: nat): (j: nat)
    requires i < n
    ensures j < n
  {
    if i + 1 < n then i + 1 else 0
  }

  lemma AfterIsMod(i: nat, n: nat)
    requires i < n
    ensures After(i, n) == (i + 1) % n
  {
    if i + 1 == n {
      assert (i + 1) % n == 0;
    }
  }

  /** The seat reached from seat `i` by `k` default advances. */
  function Advance(i: nat, n: nat, k: nat): (j: nat)
    requires i < n
    ensures j < n
  {
    if k == 0 then i else After(Advance(i, n, k - 1), n)
  }

  /** Up to a full round, `k` default advances move the cursor `k` seats on, wrapping past the last seat once. */
  lemma {:induction false} AdvanceWithin(i: nat, n: nat, k: nat)
    requires i < n && k <= n
    ensures Advance(i, n, k) == if i + k < n then i + k else i + k - n
  {
    if k > 0 {
      AdvanceWithin(i, n, k - 1);
    }
  }

  /** With no effects in play, as many default advances as there are players bring the turn back round, and no fewer do. */
  lemma AdvanceCycles(i: nat, n: nat)
    requires i < n
    ensures Advance(i, n, n) == i
    ensures forall k :: 0 < k < n ==> Advance(i, n, k) != i
  {
    AdvanceWithin(i, n, n);
    forall k | 0 < k < n
      ensures Advance(i, n, k) != i
    {
      AdvanceWithin(i, n, k);
    }
  }

  /** One step of the cursor: `(currentPlayerIndex + 1) % players.length`. */
  function Next(t: Table): (i: nat)
    requires t.cur < |t.players|
    ensures i < |t.players|
  {
    After(t.cur, |t.players|)
  }

  /** The 403 check: only the player at the cursor may act. */
  function TurnCheck(t: Table, actor: PlayerId): (r: Option<Response>)
    requires CursorOk(t)
    ensures r.None? <==> t.players != [] && t.players[t.cur].id == actor
    ensures r.Some? ==> r.value.NotYourTurn? && r.value.currentPlayerId == CurrentPlayerId(t)
  {
    var current := CurrentPlayerId(t);
    if current == Some(actor) then None
    else
      var name :=
        match current
        case None => UnknownPlayerName
        case Some(id) =>
          match FindPlayer(t.players, id)
          case Some(p) => if p.name != "" then p.name else UnknownPlayerName
          case None => UnknownPlayerName;
      Some(NotYourTurn(current, name))
  }

  /** A chosen colour the wild check lets through. */
  predicate ColorAccepted(chosen: Option<string>) {
    chosen.Some? && chosen.value in AcceptedColorNames
  }

  /**
   * The three 400 checks on `PLAY_CARD`, in order: the card must be in the
   * actor's hand; a wild card needs an accepted `chosenColor`; any other card
   * must match the effective top colour or the top value.
   */
  function PlayCheck(t: Table, actor: PlayerId, cid: CardId, chosen: Option<string>): (r: Option<Response>)
    requires Sound(t)
    ensures CardIndex(HandOf(t, actor), cid) < 0 ==> r == Some(CardNotOwned)
    ensures r.Some? ==> r.value == CardNotOwned || r.value == ColorNotChosen || r.value == IllegalPlay
  {
    var hand := HandOf(t, actor);
    var i := CardIndex(hand, cid);
    if i < 0 then Some(CardNotOwned)
    else
      var card := hand[i];
      if card.color == Wild then
        if IsWildValue(card.value) && !ColorAccepted(chosen) then Some(ColorNotChosen) else None
      else
        assert hand != [] && actor in t.hands;
        var top := Last(t.discard);
        if card.color == TopEffectiveColor(t.discard).value || card.value == top.value then None
        else Some(IllegalPlay)
  }

  /** Why the handler turns an action down, if it does. */
  function Rejection(t: Table, actor: PlayerId, action: Action): (r: Option<Response>)
    requires Sound(t)
    ensures r.Some? ==> r.value != Ok
    ensures TurnCheck(t, actor).Some? ==> r == TurnCheck(t, actor)
    ensures r.None? <==>
      TurnCheck(t, actor).None? && (action.PlayCard? ==> PlayCheck(t, actor, action.cardId, action.chosenColor).None?)
  {
    match TurnCheck(t, actor)
    case Some(r) => Some(r)
    case None =>
      match action
      case PlayCard(cid, chosen) => PlayCheck(t, actor, cid, chosen)
      case _ => None
  }

  /** A `PLAY_CARD` that passes every check. */
  predicate PlayAccepted(t: Table, actor: PlayerId, cid: CardId, chosen: Option<string>)
    requires Sound(t)
  {
    TurnCheck(t, actor).None? && PlayCheck(t, actor, cid, chosen).None?
  }

  // ---------------------------------------------------------------------------
  // Pieces of an accepted action

  /**
   * The penalty loop `for (i < k) if (deck.length > 0) hand.push(deck.pop())`:
   * the hand gains the top `min(k, |deck|)` cards, topmost first.
   */
  function Penalty(deck: seq<Card>, hand: seq<Card>, k: nat): (r: (seq<Card>, seq<Card>))
    ensures var m := if k < |deck| then k else |deck|;
      && r.0 == deck[..|deck| - m]
      && r.1 == hand + Reversed(deck[|deck| - m..])
  {
    if k == 0 then
      assert deck[..|deck|] == deck && Reversed(deck[|deck|..]) == [];
      (deck, hand)
    else
      var prev := Penalty(deck, hand, k - 1);
      if prev.0 == [] then prev
      else
        var m := if k - 1 < |deck| then k - 1 else |deck|;
        assert Last(prev.0) == deck[|deck| - m - 1];
        assert Reversed(deck[|deck| - m - 1..]) == Reversed(deck[|deck| - m..]) + [deck[|deck| - m - 1]];
        (DropLast(prev.0), prev.1 + [Last(prev.0)])
  }

  /** The number of cards a card makes the next player draw. */
  function PenaltySize(v: Value): nat {
    match v
    case Draw2 => 2
    case Draw4 => 4
    case _ => 0
  }

  /**
   * The card effects: `draw_2`/`draw_4` give the next player up to 2/4 cards
   * and move the cursor to that player; `ban` moves the cursor one seat;
   * `reverse` reverses the seats and mirrors the cursor; other values do
   * nothing.
   */
  function Effect(t: Table, v: Value): (r: Table)
    requires t.players != [] && t.cur < |t.players|
    requires v.Draw2? || v.Draw4? ==> t.players[Next(t)].id in t.hands
    ensures |r.players| == |t.players| && r.cur < |r.players|
    ensures r.discard == t.discard && r.isOver == t.isOver && r.hands.Keys == t.hands.Keys
  {
    match v
    case Draw2 | Draw4 =>
      var next := Next(t);
      var nid := t.players[next].id;
      var drawn := Penalty(t.deck, t.hands[nid], PenaltySize(v));
      t.(deck := drawn.0, hands := t.hands[nid := drawn.1], cur := next)
    case Ban => t.(cur := Next(t))
    case Reverse => t.(players := Reversed(t.players), cur := |t.players| - 1 - t.cur)
    case _ => t
  }

  /** `players.find(p => p.id === id).wins = true`. */
  function MarkWon(players: seq<Player>, id: PlayerId): (r: seq<Player>)
    ensures |r| == |players|
    ensures DistinctIds(players) ==>
      forall i :: 0 <= i < |r| ==> r[i] == players[i].(wins := players[i].wins || players[i].id == id)
  {
    var i := PlayerIndex(players, id);
    if i < 0 then players else players[i := players[i].(wins := true)]
  }

  /** The `all_won &= player.wins` fold. */
  predicate AllWon(players: seq<Player>) {
    forall i :: 0 <= i < |players| ==> players[i].wins
  }

  /** The win bookkeeping once the actor's hand is empty. */
  function RecordWin(t: Table, actor: PlayerId): Table {
    var players := MarkWon(t.players, actor);
    t.(players := players, isOver := t.isOver || AllWon(players))
  }

  /** The extra step past a finished player at the post-effect index. */
  function SkipFinished(t: Table): (r: Table)
    requires t.players != [] && t.cur < |t.players|
    ensures r == t.(cur := r.cur) && r.cur < |r.players|
    ensures r.cur != t.cur ==> t.players[t.cur].wins
    ensures t.players[t.cur].wins ==> r.cur == After(t.cur, |t.players|)
  {
    if t.players[t.cur].wins then t.(cur := Next(t)) else t
  }

  /** The colour a played card keeps: a wild card takes the chosen colour. */
  function Placed(card: Card, chosen: Option<string>): (c: Card)
    requires card.color == Wild ==> ColorAccepted(chosen)
    ensures c.id == card.id && c.value == card.value && c.color != Wild
    ensures card.color == Wild ==> NameOf(c.color) == chosen.value
    ensures card.color != Wild ==> c.color == card.color
  {
    if card.color == Wild then card.(color := ColorOfName(chosen.value).value) else card
  }

  /** Facts about a table on which `PLAY_CARD` passed its checks. */
  predicate PlayFactsHold(t: Table, actor: PlayerId, cid: CardId, chosen: Option<string>) {
    && actor in t.hands && t.discard != [] && |t.players| >= 2 && t.cur < |t.players|
    && t.players[t.cur].id == actor
    && t.players[After(t.cur, |t.players|)].id != actor
    && t.players[After(t.cur, |t.players|)].id in t.hands
    && 0 <= CardIndex(t.hands[actor], cid)
    && var card := t.hands[actor][CardIndex(t.hands[actor], cid)];
      card.color == Wild ==> IsWildValue(card.value) && ColorAccepted(chosen)
  }

  lemma PlayFacts(t: Table, actor: PlayerId, cid: CardId, chosen: Option<string>)
    requires Sound(t) && PlayAccepted(t, actor, cid, chosen)
    ensures PlayFactsHold(t, actor, cid, chosen)
  {
    var hand := HandOf(t, actor);
    var i := CardIndex(hand, cid);
    assert hand[i] in hand;
    assert t.players[Next(t)] in t.players;
  }

  /** The played card as it lands on the discard pile. */
  function PlayedCard(t: Table, actor: PlayerId, cid: CardId, chosen: Option<string>): Card
    requires PlayFactsHold(t, actor, cid, chosen)
  {
    var hand := t.hands[actor];
    Placed(hand[CardIndex(hand, cid)], chosen)
  }

  /** `splice` the card out of the hand and `push` it onto the discard pile. */
  function Moved(t: Table, actor: PlayerId, cid: CardId, chosen: Option<string>): (m: Table)
    requires PlayFactsHold(t, actor, cid, chosen)
    ensures m.players == t.players && m.cur == t.cur && m.deck == t.deck && m.isOver == t.isOver
    ensures m.hands.Keys == t.hands.Keys
  {
    var hand := t.hands[actor];
    t.(hands := t.hands[actor := RemoveAt(hand, CardIndex(hand, cid))],
       discard := t.discard + [PlayedCard(t, actor, cid, chosen)])
  }

  /** Record a win when the actor's hand has become empty. */
  function Won(t: Table, actor: PlayerId): Table {
    if HandOf(t, actor) == [] then RecordWin(t, actor) else t
  }

  /**
   * An accepted `PLAY_CARD` before the final step: move the card, apply its
   * effect, record a win if the hand is now empty, and step past a finished
   * player.
   */
  function Play(t: Table, actor: PlayerId, cid: CardId, chosen: Option<string>): (r: Table)
    requires PlayFactsHold(t, actor, cid, chosen)
    ensures |r.players| == |t.players| && r.cur < |r.players|
    ensures r.discard == t.discard + [PlayedCard(t, actor, cid, chosen)]
  {
    var effected := Effect(Moved(t, actor, cid, chosen), PlayedCard(t, actor, cid, chosen).value);
    assert effected.players != [] && effected.cur < |effected.players|;
    SkipFinished(Won(effected, actor))
  }

  /**
   * An accepted `DRAW_CARD` before the final step: draw the deck's top card;
   * with an empty deck and more than one discard, shuffle all but the top
   * discard into a new deck first; otherwise draw nothing.
   */
  function Draw(t: Table, actor: PlayerId, roll: nat -> nat): (u: Table)
    requires Sound(t) && TurnCheck(t, actor).None?
    ensures u.players == t.players && u.cur == t.cur && u.isOver == t.isOver
  {
    if t.deck != [] then
      t.(deck := DropLast(t.deck), hands := t.hands[actor := t.hands[actor] + [Last(t.deck)]])
    else if |t.discard| > 1 then
      var top := Last(t.discard);
      var deck := Shuffling.Shuffled(DropLast(t.discard), roll);
      Shuffling.ShuffledPermutes(DropLast(t.discard), roll);
      t.(deck := DropLast(deck), discard := [top], hands := t.hands[actor := t.hands[actor] + [Last(deck)]])
    else t
  }

  /** `Play`, once the facts an accepted play rests on are established. */
  function PlayFactsThen(t: Table, actor: PlayerId, cid: CardId, chosen: Option<string>): (u: Table)
    requires Sound(t) && PlayAccepted(t, actor, cid, chosen)
    ensures PlayFactsHold(t, actor, cid, chosen) && u == Play(t, actor, cid, chosen)
    ensures |u.players| == |t.players| && u.cur < |u.players|
  {
    PlayFacts(t, actor, cid, chosen);
    PlayCursor(t, actor, cid, chosen);
    Play(t, actor, cid, chosen)
  }

  /**
   * The handler: a rejection leaves the room as it was; otherwise the action
   * runs and the cursor takes one more step.
   */
  function Step(t: Table, actor: PlayerId, action: Action, roll: nat -> nat): (r: (Response, Table))
    requires Sound(t)
    ensures r.0 == Ok <==> Rejection(t, actor, action).None?
    ensures r.0 != Ok ==> r.0 == Rejection(t, actor, action).value && r.1 == t
    ensures |r.1.players| == |t.players|
  {
    match Rejection(t, actor, action)
    case Some(why) => (why, t)
    case None =>
      var acted :=
        match action
        case PlayCard(cid, chosen) => PlayFactsThen(t, actor, cid, chosen)
        case DrawCard => Draw(t, actor, roll)
        case Other(_) => t;
      (Ok, acted.(cur := Next(acted)))
  }

  // ---------------------------------------------------------------------------
  // Properties

  /** Reversing or marking a winner keeps the seated ids. */
  lemma SeatsKept(players: seq<Player>, id: PlayerId)
    requires DistinctIds(players)
    ensures IdSet(Reversed(players)) == IdSet(players) && DistinctIds(Reversed(players))
    ensures IdSet(MarkWon(players, id)) == IdSet(players) && DistinctIds(MarkWon(players, id))
  {
    var r, w := Reversed(players), MarkWon(players, id);
    forall x | x in IdSet(players) ensures x in IdSet(r) && x in IdSet(w) {
      var i :| 0 <= i < |players| && players[i].id == x;
      assert r[|players| - 1 - i] == players[i];
      assert w[i].id == x;
    }
    forall x | x in IdSet(r) ensures x in IdSet(players) {
      var i :| 0 <= i < |r| && r[i].id == x;
      assert players[|players| - 1 - i] == r[i];
    }
    forall x | x in IdSet(w) ensures x in IdSet(players) {
      var i :| 0 <= i < |w| && w[i].id == x;
      assert players[i].id == x;
    }
  }

  /**
   * The 403 reply: whoever is not at the cursor is turned away with the
   * current player's id and name (the fallback name when the room is empty
   * or that name is empty), and the room is left as it was.
   */
  lemma NotYourTurnRejected(t: Table, actor: PlayerId, action: Action, roll: nat -> nat)
    requires Sound(t) && (t.players == [] || t.players[t.cur].id != actor)
    ensures Step(t, actor, action, roll) ==
      (NotYourTurn(CurrentPlayerId(t),
        if t.players != [] && t.players[t.cur].name != "" then t.players[t.cur].name else UnknownPlayerName), t)
  {
    if t.players != [] {
      CurrentPlayerSeat(t);
    }
  }

  /**
   * `PLAY_CARD` from the current player is accepted exactly when the hand holds
   * a card with that id and the first such card is either wild with an
   * accepted colour, or matches the top card's colour or value. Each failed
   * check gives its own reply, in order, and leaves the room unchanged.
   */
  lemma PlayChecks(t: Table, actor: PlayerId, cid: CardId, chosen: Option<string>, roll: nat -> nat)
    requires Sound(t) && t.players != [] && t.players[t.cur].id == actor
    ensures var hand, r := HandOf(t, actor), Step(t, actor, PlayCard(cid, chosen), roll);
      var i := CardIndex(hand, cid);
      && ((forall c :: c in hand ==> c.id != cid) <==> r == (CardNotOwned, t))
      && (i >= 0 && hand[i].color == Wild && !ColorAccepted(chosen) <==> r == (ColorNotChosen, t))
      && (i >= 0 && hand[i].color != Wild && hand[i].color != Last(t.discard).color
            && hand[i].value != Last(t.discard).value
          <==> r == (IllegalPlay, t))
      && (r.0 == Ok <==>
            && i >= 0
            && if hand[i].color == Wild then ColorAccepted(chosen)
               else hand[i].color == Last(t.discard).color || hand[i].value == Last(t.discard).value)
  {
    var hand := HandOf(t, actor);
    var i := CardIndex(hand, cid);
    if i >= 0 {
      assert hand[i] in hand && actor in t.hands;
    } else {
      assert forall c :: c in hand ==> c.id != cid;
    }
  }

  /**
   * A turn-holder's action of an unknown type only moves the cursor on by one.
   */
  lemma OtherAdvances(t: Table, actor: PlayerId, kind: string, roll: nat -> nat)
    requires Sound(t) && t.players != [] && t.players[t.cur].id == actor
    ensures Step(t, actor, Other(kind), roll) == (Ok, t.(cur := After(t.cur, |t.players|)))
  {
  }


  /** What an effect changes: the penalised hand and the deck, the seats, the cursor. */
  lemma EffectFrame(t: Table, v: Value)
    requires t.players != [] && t.cur < |t.players|
    requires v.Draw2? || v.Draw4? ==> t.players[Next(t)].id in t.hands
    ensures var e := Effect(t, v);
      && e.discard == t.discard && e.isOver == t.isOver && e.hands.Keys == t.hands.Keys
      && e.players == (if v == Reverse then Reversed(t.players) else t.players)
      && e.cur == EffectSeat(v, t.cur, |t.players|)
      && (PenaltySize(v) == 0 ==> e.deck == t.deck && e.hands == t.hands)
      && (forall pid :: pid in t.hands && pid != t.players[Next(t)].id ==> e.hands[pid] == t.hands[pid])
  {
  }

  lemma PlayStep(t: Table, actor: PlayerId, cid: CardId, chosen: Option<string>, roll: nat -> nat)
    requires Sound(t) && PlayAccepted(t, actor, cid, chosen)
    ensures PlayFactsHold(t, actor, cid, chosen)
    ensures Step(t, actor, PlayCard(cid, chosen), roll).0 == Ok
    ensures var p := Play(t, actor, cid, chosen);
      && p.players != []
      && Step(t, actor, PlayCard(cid, chosen), roll).1 == p.(cur := Next(p))
  {
    PlayFacts(t, actor, cid, chosen);
  }

  /** What a card's effect does to the deck and to the next player's hand. */
  lemma EffectPenalty(t: Table, v: Value)
    requires t.players != [] && t.cur < |t.players|
    requires v.Draw2? || v.Draw4? ==> t.players[Next(t)].id in t.hands
    ensures var e, k := Effect(t, v), PenaltySize(v);
      var m, nid := if k < |t.deck| then k else |t.deck|, t.players[Next(t)].id;
      && e.deck == t.deck[..|t.deck| - m]
      && (k > 0 ==> e.hands[nid] == t.hands[nid] + Reversed(t.deck[|t.deck| - m..]))
  {
    if v.Draw2? || v.Draw4? {
      DrawEffect(t, v);
    } else {
      EffectFrame(t, v);
      assert t.deck[..|t.deck|] == t.deck;
    }
  }

  /** Under `draw_2`/`draw_4` the effect is the penalty loop on the next player's hand. */
  lemma DrawEffect(t: Table, v: Value)
    requires t.players != [] && t.cur < |t.players|
    requires (v.Draw2? || v.Draw4?) && t.players[Next(t)].id in t.hands
    ensures var nid := t.players[Next(t)].id;
      var drawn := Penalty(t.deck, t.hands[nid], PenaltySize(v));
      Effect(t, v).deck == drawn.0 && Effect(t, v).hands[nid] == drawn.1
  {
  }

  /** The stages after the effect touch only seats, flags and cursor. */
  lemma PlayTail(t: Table, actor: PlayerId, cid: CardId, chosen: Option<string>)
    requires PlayFactsHold(t, actor, cid, chosen)
    ensures var e := Effect(Moved(t, actor, cid, chosen), PlayedCard(t, actor, cid, chosen).value);
      var p := Play(t, actor, cid, chosen);
      p.hands == e.hands && p.deck == e.deck && p.discard == e.discard
  {
  }

  /**
   * An accepted `PLAY_CARD` takes exactly the chosen card out of the actor's
   * hand, leaving the other cards in order, and puts it on the discard pile
   * (recoloured if wild); no other hand changes except the next player's
   * under a draw penalty.
   */
  lemma PlayMovesCard(t: Table, actor: PlayerId, cid: CardId, chosen: Option<string>)
    requires PlayFactsHold(t, actor, cid, chosen)
    ensures var u, hand := Play(t, actor, cid, chosen), t.hands[actor];
      var i := CardIndex(hand, cid);
      && u.discard == t.discard + [Placed(hand[i], chosen)]
      && u.hands.Keys == t.hands.Keys
      && u.hands[actor] == RemoveAt(hand, i)
      && |u.hands[actor]| == |hand| - 1
      && forall pid :: pid in t.hands && pid != actor && (PenaltySize(hand[i].value) == 0 || pid != t.players[Next(t)].id)
           ==> u.hands[pid] == t.hands[pid]
  {
    PlayTail(t, actor, cid, chosen);
    var hand := t.hands[actor];
    var i := CardIndex(hand, cid);
    var m := Moved(t, actor, cid, chosen);
    var v := PlayedCard(t, actor, cid, chosen).value;
    assert m.hands == t.hands[actor := RemoveAt(hand, i)];
    assert m.discard == t.discard + [Placed(hand[i], chosen)];
    assert Next(m) == Next(t);
    EffectFrame(m, v);
    var e := Effect(m, v);
    assert e.hands[actor] == m.hands[actor];
  }

  /**
   * Under `draw_2` or `draw_4` the next player gains the top `min(k, |deck|)`
   * cards of the deck (k = 2 or 4), with no reshuffle; any other card leaves
   * the deck alone.
   */
  lemma PlayPenalty(t: Table, actor: PlayerId, cid: CardId, chosen: Option<string>)
    requires PlayFactsHold(t, actor, cid, chosen)
    ensures var u, hand := Play(t, actor, cid, chosen), t.hands[actor];
      var k := PenaltySize(hand[CardIndex(hand, cid)].value);
      var m := if k < |t.deck| then k else |t.deck|;
      var nid := t.players[Next(t)].id;
      && u.deck == t.deck[..|t.deck| - m]
      && (k > 0 ==> u.hands[nid] == t.hands[nid] + Reversed(t.deck[|t.deck| - m..]))
  {
    PlayTail(t, actor, cid, chosen);
    var hand := t.hands[actor];
    var m := Moved(t, actor, cid, chosen);
    var v := PlayedCard(t, actor, cid, chosen).value;
    assert v == hand[CardIndex(hand, cid)].value;
    assert m.deck == t.deck && Next(m) == Next(t) && m.hands[t.players[Next(t)].id] == t.hands[t.players[Next(t)].id];
    EffectPenalty(m, v);
  }

  /**
   * Win bookkeeping: when the played card was the actor's last, the actor is
   * marked as a winner (after a `reverse` has reordered the seats) and the
   * game is over once every seated player has won; otherwise seats and flag
   * stay as the effect left them.
   */
  lemma PlayWins(t: Table, actor: PlayerId, cid: CardId, chosen: Option<string>)
    requires PlayFactsHold(t, actor, cid, chosen)
    ensures var u, hand := Play(t, actor, cid, chosen), t.hands[actor];
      var seats := if hand[CardIndex(hand, cid)].value == Reverse then Reversed(t.players) else t.players;
      && (|hand| == 1 ==> u.players == MarkWon(seats, actor) && u.isOver == (t.isOver || AllWon(MarkWon(seats, actor))))
      && (|hand| > 1 ==> u.players == seats && u.isOver == t.isOver)
  {
    PlayTail(t, actor, cid, chosen);
    PlayMovesCard(t, actor, cid, chosen);
    EffectFrame(Moved(t, actor, cid, chosen), PlayedCard(t, actor, cid, chosen).value);
  }

  /**
   * The seat the cursor rests on after a card's effect: the next seat
   * for `draw_2`, `draw_4` and `ban`, the mirrored seat for `reverse`, the
   * same seat otherwise.
   */
  function EffectSeat(v: Value, cur: nat, n: nat): (i: nat)
    requires cur < n
    ensures i < n
  {
    if v.Draw2? || v.Draw4? || v.Ban? then After(cur, n)
    else if v == Reverse then n - 1 - cur
    else cur
  }

  /** `Won` touches only the seats and the game-over flag. */
  lemma WonFrame(e: Table, actor: PlayerId)
    ensures var w := Won(e, actor);
      && w.hands == e.hands && w.deck == e.deck && w.discard == e.discard && w.cur == e.cur
      && |w.players| == |e.players|
  {
  }

  /** `Play` is its four stages in a row. */
  lemma PlayStages(t: Table, actor: PlayerId, cid: CardId, chosen: Option<string>)
    requires PlayFactsHold(t, actor, cid, chosen)
    ensures var m := Moved(t, actor, cid, chosen);
      var e := Effect(m, PlayedCard(t, actor, cid, chosen).value);
      && e.players != [] && e.cur < |e.players|
      && Play(t, actor, cid, chosen) == SkipFinished(Won(e, actor))
  {
  }

  /** Where the effect of the played card leaves the cursor. */
  lemma EffectCursor(t: Table, actor: PlayerId, cid: CardId, chosen: Option<string>)
    requires PlayFactsHold(t, actor, cid, chosen)
    ensures var hand, m := t.hands[actor], Moved(t, actor, cid, chosen);
      var e := Effect(m, PlayedCard(t, actor, cid, chosen).value);
      && PlayedCard(t, actor, cid, chosen).value == hand[CardIndex(hand, cid)].value
      && |e.players| == |t.players|
      && e.cur == EffectSeat(hand[CardIndex(hand, cid)].value, t.cur, |t.players|)
  {
    var m := Moved(t, actor, cid, chosen);
    EffectFrame(m, PlayedCard(t, actor, cid, chosen).value);
    assert Next(m) == Next(t);
  }

  /**
   * The cursor after the effect and the win check: it rests on the seat the
   * effect chose (`EffectSeat`); if the player now at that seat has won, it
   * moves one seat further. The handler's final step then adds one more.
   */
  lemma PlayCursor(t: Table, actor: PlayerId, cid: CardId, chosen: Option<string>)
    requires PlayFactsHold(t, actor, cid, chosen)
    ensures var u, hand := Play(t, actor, cid, chosen), t.hands[actor];
      var n := |t.players|;
      var at := EffectSeat(hand[CardIndex(hand, cid)].value, t.cur, n);
      && |u.players| == n
      && u.cur == if u.players[at].wins then After(at, n) else at
  {
    var e := Effect(Moved(t, actor, cid, chosen), PlayedCard(t, actor, cid, chosen).value);
    PlayStages(t, actor, cid, chosen);
    EffectCursor(t, actor, cid, chosen);
    WonFrame(e, actor);
  }

  /**
   * The turn order after an accepted play that does not empty the hand: the
   * turn passes to the seat after the one the effect chose, or one seat
   * further if that player has already won.
   */
  lemma PlayTurnOrder(t: Table, actor: PlayerId, cid: CardId, chosen: Option<string>, roll: nat -> nat)
    requires Sound(t) && PlayAccepted(t, actor, cid, chosen)
    requires |HandOf(t, actor)| > 1
    ensures var r, hand := Step(t, actor, PlayCard(cid, chosen), roll), t.hands[actor];
      var v, n := hand[CardIndex(hand, cid)].value, |t.players|;
      var at := EffectSeat(v, t.cur, n);
      && r.0 == Ok
      && r.1.players == (if v == Reverse then Reversed(t.players) else t.players)
      && r.1.cur == if r.1.players[at].wins then After(After(at, n), n) else After(at, n)
  {
    PlayStep(t, actor, cid, chosen, roll);
    PlayWins(t, actor, cid, chosen);
    PlayCursor(t, actor, cid, chosen);
    var hand, n := t.hands[actor], |t.players|;
    var at := EffectSeat(hand[CardIndex(hand, cid)].value, t.cur, n);
    var p := Play(t, actor, cid, chosen);
    var r := Step(t, actor, PlayCard(cid, chosen), roll).1;
    assert r.players == p.players && |p.players| == n;
    assert r.cur == After(p.cur, n);
  }

  /**
   * A number or `change_color` card from a player who has not won passes
   * the turn to the next seat, whether or not that player has already won
   * (the finished-player check looks at the actor's own seat).
   */
  lemma PlainCardPassesTurn(t: Table, actor: PlayerId, cid: CardId, chosen: Option<string>, roll: nat -> nat)
    requires Sound(t) && PlayAccepted(t, actor, cid, chosen)
    requires |HandOf(t, actor)| > 1 && !t.players[t.cur].wins
    requires var hand := HandOf(t, actor); hand[CardIndex(hand, cid)].value.Number? || hand[CardIndex(hand, cid)].value == ChangeColor
    ensures Step(t, actor, PlayCard(cid, chosen), roll).1.cur == After(t.cur, |t.players|)
  {
    PlayTurnOrder(t, actor, cid, chosen, roll);
  }

  /**
   * `ban`, `draw_2` and `draw_4` pass over the next player: the turn goes
   * two seats on, or three when the next player has already won.
   */
  lemma SkipCardPassesOver(t: Table, actor: PlayerId, cid: CardId, chosen: Option<string>, roll: nat -> nat)
    requires Sound(t) && PlayAccepted(t, actor, cid, chosen)
    requires |HandOf(t, actor)| > 1
    requires var v := HandOf(t, actor)[CardIndex(HandOf(t, actor), cid)].value; v == Ban || v == Draw2 || v == Draw4
    ensures var n := |t.players|;
      var next := After(t.cur, n);
      Step(t, actor, PlayCard(cid, chosen), roll).1.cur
        == if t.players[next].wins then After(After(next, n), n) else After(next, n)
  {
    PlayTurnOrder(t, actor, cid, chosen, roll);
  }

  /**
   * After a `reverse` from a player who has not won, the turn goes to the
   * player who was seated before the actor (whether or not that player has
   * won: the finished-player check looks at the actor's mirrored seat).
   */
  lemma ReverseHandsBack(t: Table, actor: PlayerId, cid: CardId, chosen: Option<string>, roll: nat -> nat)
    requires Sound(t) && PlayAccepted(t, actor, cid, chosen)
    requires |HandOf(t, actor)| > 1 && HandOf(t, actor)[CardIndex(HandOf(t, actor), cid)].value == Reverse
    requires !t.players[t.cur].wins
    ensures var r, n := Step(t, actor, PlayCard(cid, chosen), roll).1, |t.players|;
      r.players[r.cur] == t.players[if t.cur == 0 then n - 1 else t.cur - 1]
  {
    PlayTurnOrder(t, actor, cid, chosen, roll);
    var n := |t.players|;
    assert Reversed(t.players)[n - 1 - t.cur] == t.players[t.cur];
  }

  /** A winning number card, before the final step: the actor's own seat is skipped. */
  lemma PlayWinningNumber(t: Table, actor: PlayerId, cid: CardId, chosen: Option<string>)
    requires PlayFactsHold(t, actor, cid, chosen) && DistinctIds(t.players)
    requires |t.hands[actor]| == 1 && t.hands[actor][0].value.Number?
    ensures var u := Play(t, actor, cid, chosen);
      && u.players == MarkWon(t.players, actor)
      && u.players[t.cur].wins
      && u.cur == After(t.cur, |t.players|)
  {
    PlayWins(t, actor, cid, chosen);
    PlayCursor(t, actor, cid, chosen);
  }

  /**
   * A number card that empties the actor's hand marks the actor as a winner,
   * and the finished-player check then passes over the next player as well.
   */
  lemma WinningNumberSkipsNext(t: Table, actor: PlayerId, cid: CardId, chosen: Option<string>, roll: nat -> nat)
    requires Sound(t) && PlayAccepted(t, actor, cid, chosen)
    requires |HandOf(t, actor)| == 1 && HandOf(t, actor)[0].value.Number?
    ensures var r := Step(t, actor, PlayCard(cid, chosen), roll).1;
      && r.players == MarkWon(t.players, actor)
      && r.players[t.cur].wins
      && r.cur == After(After(t.cur, |t.players|), |t.players|)
  {
    PlayStep(t, actor, cid, chosen, roll);
    PlayWinningNumber(t, actor, cid, chosen);
  }

  /**
   * `DRAW_CARD` with cards in the deck: the actor takes the deck's top card;
   * no other hand, the discard pile, the seats and the flag stay as they
   * were, and the turn passes to the next seat.
   */
  lemma DrawFromDeck(t: Table, actor: PlayerId, roll: nat -> nat)
    requires Sound(t) && t.players != [] && t.players[t.cur].id == actor && t.deck != []
    ensures var r := Step(t, actor, DrawCard, roll);
      && r.0 == Ok && actor in t.hands
      && r.1.deck + [Last(t.deck)] == t.deck
      && r.1.hands == t.hands[actor := t.hands[actor] + [Last(t.deck)]]
      && r.1.discard == t.discard && r.1.players == t.players && r.1.isOver == t.isOver
      && r.1.cur == After(t.cur, |t.players|)
  {
    assert t.players[t.cur] in t.players;
  }

  /**
   * `DRAW_CARD` on an empty deck with more than one discard: every discard
   * but the top one is shuffled into a new deck, the actor takes that deck's
   * top card, and only the top discard stays on the pile. The new deck and
   * the drawn card are together a permutation of the reshuffled discards, so
   * the new deck holds two cards fewer than the old discard pile.
   */
  lemma DrawReshuffles(t: Table, actor: PlayerId, roll: nat -> nat)
    requires Sound(t) && t.players != [] && t.players[t.cur].id == actor
    requires t.deck == [] && |t.discard| > 1
    ensures var r, pile := Step(t, actor, DrawCard, roll), DropLast(t.discard);
      && r.0 == Ok && actor in t.hands && actor in r.1.hands
      && r.1.discard == [Last(t.discard)]
      && |r.1.hands[actor]| == |t.hands[actor]| + 1
      && r.1.hands == t.hands[actor := r.1.hands[actor]]
      && r.1.hands[actor] == t.hands[actor] + [Last(r.1.hands[actor])]
      && r.1.deck + [Last(r.1.hands[actor])] == Shuffling.Shuffled(pile, roll)
      && multiset(r.1.deck) + multiset{Last(r.1.hands[actor])} == multiset(pile)
      && |r.1.deck| == |t.discard| - 2
      && r.1.players == t.players && r.1.isOver == t.isOver
      && r.1.cur == After(t.cur, |t.players|)
  {
    assert t.players[t.cur] in t.players;
    var pile := DropLast(t.discard);
    var deck := Shuffling.Shuffled(pile, roll);
    Shuffling.ShuffledPermutes(pile, roll);
    var r := Step(t, actor, DrawCard, roll).1;
    var h := t.hands[actor] + [Last(deck)];
    assert r.hands[actor] == h && Last(h) == Last(deck);
    assert multiset(r.deck + [Last(deck)]) == multiset(r.deck) + multiset{Last(deck)};
  }

  /** `DRAW_CARD` with nothing to draw or reshuffle only passes the turn. */
  lemma DrawNothing(t: Table, actor: PlayerId, roll: nat -> nat)
    requires Sound(t) && t.players != [] && t.players[t.cur].id == actor
    requires t.deck == [] && |t.discard| <= 1
    ensures Step(t, actor, DrawCard, roll) == (Ok, t.(cur := After(t.cur, |t.players|)))
  {
  }

  // ---------------------------------------------------------------------------
  // The handler keeps the invariant

  /** Moving the cursor to another seat keeps a table sound. */
  lemma CursorMoveSound(u: Table, c: nat)
    requires Sound(u) && c < |u.players|
    ensures Sound(u.(cur := c))
  {
  }

  /**
   * Hands that lose one card, gain cards from the deck, or stay as they were
   * hold only marked cards when the old ones did.
   */
  lemma HandsMarkedAfterPlay(t: Table, u: Table, actor: PlayerId, i: nat, nid: PlayerId, m: nat)
    requires Sound(t) && actor in t.hands && nid in t.hands && nid != actor
    requires i < |t.hands[actor]| && m <= |t.deck|
    requires u.hands.Keys == t.hands.Keys
    requires u.hands[actor] == RemoveAt(t.hands[actor], i)
    requires u.hands[nid] == t.hands[nid] + Reversed(t.deck[|t.deck| - m..])
    requires forall pid :: pid in t.hands && pid != actor && pid != nid ==> u.hands[pid] == t.hands[pid]
    ensures forall pid :: pid in u.hands ==> forall c :: c in u.hands[pid] ==> Marked(c)
  {
    forall pid | pid in u.hands
      ensures forall c :: c in u.hands[pid] ==> Marked(c)
    {
      if pid == actor {
        forall c | c in u.hands[pid] ensures Marked(c) {
          assert c in multiset(RemoveAt(t.hands[actor], i));
        }
      } else if pid == nid {
        forall c | c in u.hands[pid] ensures Marked(c) {
          if c !in t.hands[nid] {
            var j :| 0 <= j < m && Reversed(t.deck[|t.deck| - m..])[j] == c;
            assert t.deck[|t.deck| - 1 - j] == c;
          }
        }
      }
    }
  }

  /** After a play every hand still holds only marked cards. */
  lemma PlayHandsMarked(t: Table, actor: PlayerId, cid: CardId, chosen: Option<string>)
    requires Sound(t) && PlayFactsHold(t, actor, cid, chosen)
    ensures var u := Play(t, actor, cid, chosen);
      forall pid :: pid in u.hands ==> forall c :: c in u.hands[pid] ==> Marked(c)
  {
    var u, hand := Play(t, actor, cid, chosen), t.hands[actor];
    var i := CardIndex(hand, cid);
    var nid := t.players[Next(t)].id;
    var k := PenaltySize(hand[i].value);
    var m := if k < |t.deck| then k else |t.deck|;
    PlayMovesCard(t, actor, cid, chosen);
    PlayPenalty(t, actor, cid, chosen);
    if k == 0 {
      assert m == 0 && t.deck[|t.deck| - m..] == [];
      assert u.hands[nid] == t.hands[nid] + Reversed(t.deck[|t.deck| - m..]);
    }
    HandsMarkedAfterPlay(t, u, actor, i, nid, m);
  }

  /** The parts of `Sound` a play re-establishes, on plain tables. */
  lemma SoundAfterPlay(t: Table, u: Table, placed: Card)
    requires Sound(t) && t.discard != []
    requires |u.players| == |t.players| && u.cur < |u.players|
    requires DistinctIds(u.players) && IdSet(u.players) == IdSet(t.players)
    requires u.hands.Keys == t.hands.Keys
    requires u.discard == t.discard + [placed] && placed.color != Wild
    requires forall c :: c in u.deck ==> c in t.deck
    requires forall pid :: pid in u.hands ==> forall c :: c in u.hands[pid] ==> Marked(c)
    ensures Sound(u)
  {
  }

  /** After a play the seats are still distinct, the same ids, and the cursor on a seat. */
  lemma PlaySeatsSound(t: Table, actor: PlayerId, cid: CardId, chosen: Option<string>)
    requires PlayFactsHold(t, actor, cid, chosen) && DistinctIds(t.players)
    ensures var u := Play(t, actor, cid, chosen);
      && DistinctIds(u.players) && IdSet(u.players) == IdSet(t.players)
      && |u.players| == |t.players| && u.cur < |u.players|
  {
    PlayWins(t, actor, cid, chosen);
    PlayCursor(t, actor, cid, chosen);
    SeatsKept(t.players, actor);
    SeatsKept(Reversed(t.players), actor);
  }

  /** After a play the deck holds only cards it held before. */
  lemma PlayDeckFrom(t: Table, actor: PlayerId, cid: CardId, chosen: Option<string>)
    requires PlayFactsHold(t, actor, cid, chosen)
    ensures forall c :: c in Play(t, actor, cid, chosen).deck ==> c in t.deck
  {
    var u := Play(t, actor, cid, chosen);
    PlayPenalty(t, actor, cid, chosen);
    forall c | c in u.deck ensures c in t.deck {
      var j :| 0 <= j < |u.deck| && u.deck[j] == c;
      assert t.deck[j] == c;
    }
  }

  /** An accepted play keeps the table sound. */
  lemma PlayKeepsSound(t: Table, actor: PlayerId, cid: CardId, chosen: Option<string>)
    requires Sound(t) && PlayFactsHold(t, actor, cid, chosen)
    ensures Sound(Play(t, actor, cid, chosen))
  {
    var hand := t.hands[actor];
    PlaySeatsSound(t, actor, cid, chosen);
    PlayMovesCard(t, actor, cid, chosen);
    PlayDeckFrom(t, actor, cid, chosen);
    PlayHandsMarked(t, actor, cid, chosen);
    SoundAfterPlay(t, Play(t, actor, cid, chosen), Placed(hand[CardIndex(hand, cid)], chosen));
  }

  /** The parts of `Sound` a draw re-establishes, on plain tables. */
  lemma SoundAfterDraw(t: Table, r: Table, actor: PlayerId, drawn: Card)
    requires Sound(t) && actor in t.hands && Marked(drawn)
    requires r.players == t.players && r.cur == t.cur
    requires r.hands == t.hands[actor := t.hands[actor] + [drawn]]
    requires r.discard != [] && forall c :: c in r.discard ==> c in t.discard
    requires forall c :: c in r.deck ==> Marked(c)
    ensures Sound(r)
  {
  }

  /** A reshuffled discard pile holds no card coloured `wild`. */
  lemma ReshuffledColored(t: Table, roll: nat -> nat)
    requires Sound(t) && t.discard != []
    ensures forall c :: c in Shuffling.Shuffled(DropLast(t.discard), roll) ==> c.color != Wild
  {
    var pile := DropLast(t.discard);
    forall c | c in Shuffling.Shuffled(pile, roll) ensures c.color != Wild {
      Shuffling.ShuffledMembers(pile, roll, c);
      assert c in pile + [Last(t.discard)];
    }
  }

  /** A `DRAW_CARD` from the turn-holder keeps the table sound. */
  lemma DrawKeepsSound(t: Table, actor: PlayerId, roll: nat -> nat)
    requires Sound(t) && t.players != [] && t.players[t.cur].id == actor
    ensures Sound(Step(t, actor, DrawCard, roll).1)
  {
    var r := Step(t, actor, DrawCard, roll).1;
    var u := r.(cur := t.cur);
    if t.deck != [] {
      DrawFromDeck(t, actor, roll);
      assert Last(t.deck) in t.deck;
      assert forall c :: c in u.deck ==> c in u.deck + [Last(t.deck)];
      SoundAfterDraw(t, u, actor, Last(t.deck));
      CursorMoveSound(u, r.cur);
    } else if |t.discard| > 1 {
      DrawReshuffles(t, actor, roll);
      ReshuffledColored(t, roll);
      var drawn := Last(r.hands[actor]);
      assert forall c :: c in u.deck ==> c in u.deck + [drawn];
      assert drawn in u.deck + [drawn];
      assert Last(t.discard) in t.discard;
      SoundAfterDraw(t, u, actor, drawn);
      CursorMoveSound(u, r.cur);
    } else {
      DrawNothing(t, actor, roll);
      CursorMoveSound(t, r.cur);
    }
  }

  /** Every reply of the handler, accepted or not, leaves a sound table. */
  lemma StepKeepsSound(t: Table, actor: PlayerId, action: Action, roll: nat -> nat)
    requires Sound(t)
    ensures Sound(Step(t, actor, action, roll).1)
  {
    if Rejection(t, actor, action).None? {
      match action
      case PlayCard(cid, chosen) =>
        PlayStep(t, actor, cid, chosen, roll);
        PlayKeepsSound(t, actor, cid, chosen);
        var u := Play(t, actor, cid, chosen);
        CursorMoveSound(u, Next(u));
      case DrawCard =>
        DrawKeepsSound(t, actor, roll);
      case Other(_) =>
        CursorMoveSound(t, Next(t));
    }
  }
}
