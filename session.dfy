/**
 * One room object of `games` (uno_server.js) as the server keeps it: its
 * fields are updated in place by `initGameForRoom`, by the join handler and
 * by the action handler. Each method is proved to leave the room exactly as
 * the corresponding function of `Dealing` or `Actions` says.
 */
module Session {
  import opened Options
  import opened Seqs
  import opened Cards
  import opened Tables
  import opened Dealing
  import opened Actions
  import Shuffling

  class GameSession {
    var players: seq<Player>
    var deck: seq<Card>
    var discard: seq<Card>
    var hands: map<PlayerId, seq<Card>>
    var cur: nat
    var isOver: bool

    /** The room's fields as a value. */
    function View(): Table
      reads this
    {
      Table(players, deck, discard, hands, cur, isOver)
    }

    /** The invariant every handler keeps. */
    predicate Valid()
      reads this
    {
      Sound(View())
    }

    /** `{ players: [], deck: [], discardPile: [], currentPlayerIndex: 0, hands: {} }`. */
    constructor ()
      ensures View() == EmptyTable && Valid()
    {
      players, deck, discard, hands, cur, isOver := [], [], [], map[], 0, false;
      EmptyTableSound();
    }

    /** A room object holding the fields of `t`. */
    constructor From(t: Table)
      ensures View() == t
    {
      players, deck, discard, hands, cur, isOver := t.players, t.deck, t.discard, t.hands, t.cur, t.isOver;
    }

    /**
     * `initGameForRoom` once `generateDeck` has returned `newDeck`: clear the
     * flags, turn up the seed, reset the cursor, and deal. When the deck runs
     * out the `catch` empties the deck, the discard pile and the hands. The
     * result says whether the deal went through.
     */
    method StartWith(newDeck: seq<Card>) returns (ok: bool)
      requires DistinctIds(players)
      modifies this
      ensures (ok, View()) == Init(old(View()), newDeck)
    {
      InitCases(View(), newDeck);
      ResetWinsIds(players);
      isOver := false;
      players := ClearWins(players);
      var found, rest, top := TurnUpSeed(newDeck);
      if !found {
        deck, discard, hands := [], [], map[];
        return false;
      }
      discard, cur := [top], 0;
      var left, dealt;
      ok, left, dealt := DealFromDeck(rest, players);
      if ok {
        deck, hands := left, dealt;
      } else {
        deck, discard, hands := [], [], map[];
      }
    }

    /** `initGameForRoom`: generate and shuffle a fresh deck, then start with it. */
    method StartGame(uuid: nat -> CardId, roll: nat -> nat) returns (ok: bool)
      requires DistinctIds(players)
      modifies this
      ensures (ok, View()) == Init(old(View()), Generated(uuid, roll))
    {
      var d := GenerateDeck(uuid, roll);
      assert d == Generated(uuid, roll);
      ok := StartWith(d);
    }

    /**
     * The join handler on this room, for a player not yet seated or already
     * seated: a known id changes nothing; otherwise the player is seated
     * last, and with two or more players the game is dealt again.
     */
    method Join(id: PlayerId, name: string, uuid: nat -> CardId, roll: nat -> nat)
      requires DistinctIds(players)
      modifies this
      ensures View() == Admit(old(View()), id, name, Generated(uuid, roll))
    {
      AdmitNew(View(), id, name, Generated(uuid, roll));
      if FindPlayer(players, id).Some? {
        return;
      }
      Seat(id, name);
      if |players| >= 2 {
        var _ := StartGame(uuid, roll);
      }
    }

    /** `game.players.push({ id: playerId, name: playerName })`. */
    method Seat(id: PlayerId, name: string)
      modifies this
      ensures View() == old(View()).(players := old(players) + [Player(id, name, false)])
    {
      players := players + [Player(id, name, false)];
    }

    /**
     * `POST /action/:roomId` on this room: the 403 turn check, the three 400
     * checks on `PLAY_CARD`, then the play or the draw, and the final step of
     * the cursor. The room ends as `Step` says and stays sound.
     */
    method Act(actor: PlayerId, action: Action, roll: nat -> nat) returns (r: Response)
      requires Valid()
      modifies this
      ensures (r, View()) == Step(old(View()), actor, action, roll)
      ensures Valid()
    {
      StepKeepsSound(View(), actor, action, roll);
      var rejected := TurnCheck(View(), actor);
      if rejected.Some? {
        return rejected.value;
      }
      r := Perform(actor, action, roll);
    }

    /**
     * The `try` block of the handler, once the turn check has passed: the
     * checks on a played card, then the play or the draw, then the final step.
     */
    method Perform(actor: PlayerId, action: Action, roll: nat -> nat) returns (r: Response)
      requires Valid() && TurnCheck(View(), actor).None?
      modifies this
      ensures (r, View()) == Step(old(View()), actor, action, roll)
    {
      ghost var t0 := View();
      ghost var acted: Table;
      match action {
        case PlayCard(cid, chosen) =>
          var check := PlayCheck(View(), actor, cid, chosen);
          if check.Some? {
            return check.value;
          }
          acted := PlayFactsThen(t0, actor, cid, chosen);
          PlayCardStep(actor, cid, chosen);
        case DrawCard =>
          acted := Draw(t0, actor, roll);
          DrawStep(actor, roll);
        case Other(_) =>
          acted := t0;
      }
      assert View() == acted && Rejection(t0, actor, action).None?;
      cur := After(cur, |players|);
      r := Ok;
    }

    /**
     * An accepted `PLAY_CARD` up to the final step: move the card, apply its
     * effect, record a win on an empty hand, step past a finished player.
     */
    method PlayCardStep(actor: PlayerId, cid: CardId, chosen: Option<string>)
      requires PlayFactsHold(View(), actor, cid, chosen)
      modifies this
      ensures View() == Play(old(View()), actor, cid, chosen)
    {
      ghost var t0 := View();
      MoveCard(actor, cid, chosen);
      ghost var moved := View();
      var v := Last(discard).value;
      assert v == PlayedCard(t0, actor, cid, chosen).value;
      ApplyEffect(v);
      assert View() == Effect(moved, v);
      FinishPlay(actor);
    }

    /**
     * Steps 7 and the finished-player check: mark the actor as a winner when
     * the hand is empty (and end the game once everybody has won), then step
     * once more when the seat at the cursor has already won.
     */
    method FinishPlay(actor: PlayerId)
      requires players != [] && cur < |players| && actor in hands
      modifies this
      ensures View() == SkipFinished(Won(old(View()), actor))
    {
      if hands[actor] == [] {
        var marked, allWon := MarkWinner(players, actor);
        players := marked;
        if allWon {
          isOver := true;
        }
      }
      if players[cur].wins {
        cur := After(cur, |players|);
      }
    }

    /**
     * `hand.splice(cardIndex, 1)` and `discardPile.push(card)`; a wild card is
     * then recoloured with the chosen colour. The recolouring happens on the
     * object already on the pile, so the pile ends with the recoloured card.
     */
    method MoveCard(actor: PlayerId, cid: CardId, chosen: Option<string>)
      requires PlayFactsHold(View(), actor, cid, chosen)
      modifies this
      ensures View() == Moved(old(View()), actor, cid, chosen)
    {
      var hand := hands[actor];
      var i := CardIndex(hand, cid);
      var card := hand[i];
      hands := hands[actor := RemoveAt(hand, i)];
      if card.color == Wild {
        card := card.(color := ColorOfName(chosen.value).value);
      }
      discard := discard + [card];
    }

    /**
     * The effect chain on the played card's value: the penalty loop and the
     * cursor move for `draw_2`/`draw_4`, one step for `ban`, the reversal for
     * `reverse`.
     */
    method ApplyEffect(v: Value)
      requires players != [] && cur < |players|
      requires v.Draw2? || v.Draw4? ==> players[After(cur, |players|)].id in hands
      modifies this
      ensures View() == Effect(old(View()), v)
    {
      if v.Draw2? || v.Draw4? {
        var next := After(cur, |players|);
        var nid := players[next].id;
        var d, h := DrawPenalty(deck, hands[nid], PenaltySize(v));
        deck, hands, cur := d, hands[nid := h], next;
      } else if v.Ban? {
        cur := After(cur, |players|);
      } else if v.Reverse? {
        players := Reversed(players);
        cur := |players| - 1 - cur;
      }
    }

    /**
     * `DRAW_CARD` up to the final step: pop the deck's top card into the
     * actor's hand; with an empty deck and more than one discard, keep the
     * top discard, shuffle the rest into the deck and draw from it.
     */
    method DrawStep(actor: PlayerId, roll: nat -> nat)
      requires Sound(View()) && TurnCheck(View(), actor).None?
      modifies this
      ensures View() == Draw(old(View()), actor, roll)
    {
      if deck != [] {
        hands, deck := hands[actor := hands[actor] + [Last(deck)]], DropLast(deck);
      } else if |discard| > 1 {
        var top, rest := Last(discard), DropLast(discard);
        Shuffling.ShuffledPermutes(rest, roll);
        var shuffled := Shuffling.Shuffle(rest, roll);
        hands, deck, discard := hands[actor := hands[actor] + [Last(shuffled)]], DropLast(shuffled), [top];
      }
    }
  }

  /**
   * `for (i < k) if (deck.length > 0) hand.push(deck.pop())`, on the deck and
   * the hand.
   */
  method DrawPenalty(deck: seq<Card>, hand: seq<Card>, k: nat) returns (d: seq<Card>, h: seq<Card>)
    ensures (d, h) == Penalty(deck, hand, k)
  {
    d, h := deck, hand;
    var i := 0;
    while i < k
      invariant i <= k && (d, h) == Penalty(deck, hand, i)
    {
      if d != [] {
        h := h + [Last(d)];
        d := DropLast(d);
      }
      i := i + 1;
    }
  }

  /**
   * `players.find(p => p.id === id).wins = true` and then the `all_won`
   * fold over the seats.
   */
  method MarkWinner(players: seq<Player>, id: PlayerId) returns (marked: seq<Player>, allWon: bool)
    ensures marked == MarkWon(players, id) && allWon == AllWon(marked)
  {
    var at := PlayerIndex(players, id);
    marked := if at < 0 then players else players[at := players[at].(wins := true)];
    allWon := true;
    var i := 0;
    while i < |marked|
      invariant i <= |marked|
      invariant allWon <==> forall j :: 0 <= j < i ==> marked[j].wins
    {
      allWon := allWon && marked[i].wins;
      i := i + 1;
    }
  }

  /** The join handler run on a room object holding `start`; the room ends as `Admit` says. */
  method JoinRoom(start: Table, id: PlayerId, name: string, uuid: nat -> CardId, roll: nat -> nat) returns (t: Table)
    requires DistinctIds(start.players)
    ensures t == Admit(start, id, name, Generated(uuid, roll))
  {
    var room := new GameSession.From(start);
    room.Join(id, name, uuid, roll);
    t := room.View();
  }

  /** `game.players.forEach(p => { p.wins = false; })`. */
  method ClearWins(players: seq<Player>) returns (r: seq<Player>)
    ensures r == ResetWins(players)
  {
    r := players;
    var i := 0;
    while i < |r|
      invariant i <= |r| == |players|
      invariant forall j :: 0 <= j < i ==> r[j] == players[j].(wins := false)
      invariant forall j :: i <= j < |r| ==> r[j] == players[j]
    {
      r := r[i := r[i].(wins := false)];
      i := i + 1;
    }
  }

  /**
   * `do { if (deck.length === 0) throw …; topCard = deck.pop(); } while (wild)`:
   * pop until a card whose value is not wild; the popped wild cards are gone.
   */
  method TurnUpSeed(deck: seq<Card>) returns (found: bool, rest: seq<Card>, top: Card)
    ensures found <==> DrawSeed(deck).Some?
    ensures found ==> DrawSeed(deck) == Some((rest, top))
  {
    rest := deck;
    while rest != [] && IsWildValue(Last(rest).value)
      invariant DrawSeed(rest) == DrawSeed(deck)
      decreases |rest|
    {
      rest := DropLast(rest);
    }
    if rest == [] {
      return false, [], Card("", Red, Number(0));
    }
    found, top := true, Last(rest);
    rest := DropLast(rest);
  }

  /**
   * The dealing loop: every player in seating order gets an empty hand and
   * then seven cards popped off the deck. `ok` is false when the deck runs
   * out part-way (the `throw`).
   */
  method DealFromDeck(rest: seq<Card>, players: seq<Player>) returns (ok: bool, deck: seq<Card>, hands: map<PlayerId, seq<Card>>)
    requires DistinctIds(players)
    ensures ok <==> HandSize * |players| <= |rest|
    ensures ok ==> deck == rest[..|rest| - HandSize * |players|] && hands == Deal(rest, players, |players|)
  {
    deck, hands := rest, map[];
    var q := 0;
    while q < |players|
      invariant q <= |players| && HandSize * q <= |rest|
      invariant deck == rest[..|rest| - HandSize * q]
      invariant hands == Deal(rest, players, q)
    {
      var pid := players[q].id;
      hands := hands[pid := []];
      var k := 0;
      while k < HandSize
        invariant k <= HandSize && HandSize * q + k <= |rest|
        invariant deck == rest[..|rest| - HandSize * q - k]
        invariant pid in hands && |hands[pid]| == k
        invariant forall j :: 0 <= j < k ==> hands[pid][j] == rest[|rest| - 1 - HandSize * q - j]
        invariant hands == Deal(rest, players, q)[pid := hands[pid]]
      {
        if deck == [] {
          return false, [], map[];
        }
        hands := hands[pid := hands[pid] + [Last(deck)]];
        deck := DropLast(deck);
        k := k + 1;
      }
      assert hands[pid] == DealtHand(rest, q);
      q := q + 1;
    }
    ok := true;
  }
}
