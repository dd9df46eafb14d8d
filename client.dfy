/**
 * The player's screen in Game.tsx, as far as it decides what to send: the
 * playability test on a hand card, the turn gate of `doAction`, the hand-card
 * press, and the small state machine of the wild-colour chooser. Every
 * handler returns the new chooser state and what it triggers.
 */
module Client {
  import opened Options
  import opened Seqs
  import opened Cards
  import opened Tables
  import opened Actions

  /** `COLORS` of the colour chooser, one button each. */
  const ChooserColors: seq<string> := ["red", "blue", "green", "yellow"]

  /** The chooser's state: `wildCardToPlay` and `modalVisible`. */
  datatype Ui = Ui(wildCardToPlay: Option<CardId>, modalVisible: bool)

  /** No wild card pending and the modal closed, as on mount. */
  const Idle := Ui(None, false)

  /** What a handler triggers: an `uploadAction`, the "not your turn" alert, or nothing. */
  datatype Effect = Upload(action: Action) | TurnAlert | Silent

  /** `won` as `fetchState` sets it: the `wins` flag of this player's seat, false if there is none. */
  function HasWon(players: seq<Player>, me: PlayerId): (won: bool)
    ensures won ==> exists p :: p in players && p.id == me && p.wins
    ensures (forall p :: p in players && p.id == me ==> p.wins) && me in IdSet(players) ==> won
  {
    match FindPlayer(players, me)
    case Some(p) => p.wins
    case None => false
  }

  /** `canPlayCard`. */
  function CanPlayCard(view: StateView, won: bool, card: Card): (r: bool)
    ensures view.topCard.None? ==> r
    ensures view.topCard.Some? && won ==> !r
    ensures view.topCard.Some? && !won ==>
      (r <==> card.color == Wild || card.color == view.topCard.value.color || card.value == view.topCard.value.value)
  {
    match view.topCard
    case None => true
    case Some(top) =>
      if won then false
      else card.color == Wild || card.color == top.color || card.value == top.value
  }

  /** `playable` of a hand card: this player's turn, and `canPlayCard`. */
  predicate Playable(view: StateView, won: bool, card: Card) {
    view.canPlay && CanPlayCard(view, won, card)
  }

  /** `doAction`: the alert instead of the upload when it is not this player's turn. */
  function DoAction(view: StateView, act: Action): (e: Effect)
    ensures e.Upload? <==> view.canPlay
    ensures e.Upload? ==> e.action == act
    ensures !e.Upload? ==> e == TurnAlert
  {
    if !view.canPlay then TurnAlert else Upload(act)
  }

  /** `onWildCardPress`: remember the card and open the modal. */
  function OnWildCardPress(ui: Ui, cardId: CardId): (r: (Ui, Effect))
    ensures r.0.wildCardToPlay == Some(cardId) && r.0.modalVisible && r.1 == Silent
  {
    (Ui(Some(cardId), true), Silent)
  }

  /**
   * The `onPress` of a hand card: nothing for a card that is not playable; a
   * wild card opens the chooser; any other card is played by id alone.
   */
  function PressCard(view: StateView, won: bool, ui: Ui, card: Card): (r: (Ui, Effect))
  {
    if !Playable(view, won, card) then (ui, Silent)
    else if card.color == Wild then OnWildCardPress(ui, card.id)
    else (ui, DoAction(view, PlayCard(card.id, None)))
  }

  /**
   * `handleChooseColor`: play the pending card with the colour, if a card is
   * pending (an empty id counts as none, as JavaScript's test has it); close
   * the modal and forget the card either way.
   */
  function ChooseColor(view: StateView, ui: Ui, color: string): (r: (Ui, Effect))
    ensures r.0 == Idle
  {
    var e :=
      match ui.wildCardToPlay
      case Some(cid) => if cid != "" then DoAction(view, PlayCard(cid, Some(color))) else Silent
      case None => Silent;
    (Idle, e)
  }

  /** `handleCancelChoose`. */
  function CancelChoose(ui: Ui): (r: Ui)
    ensures r == Idle
  {
    Idle
  }

  /** The draw pile's `onPress`; the pile is disabled when it is not this player's turn. */
  function PressDraw(view: StateView): (e: Effect)
    ensures e == (if view.canPlay then Upload(DrawCard) else Silent)
  {
    if view.canPlay then DoAction(view, DrawCard) else Silent
  }

  // ---------------------------------------------------------------------------
  // The hand-card press

  /** Pressing a card that is not playable changes nothing and sends nothing. */
  lemma PressUnplayable(view: StateView, won: bool, ui: Ui, card: Card)
    requires !Playable(view, won, card)
    ensures PressCard(view, won, ui, card) == (ui, Silent)
  {
  }

  /** Pressing a playable wild card opens the chooser for it and sends nothing yet. */
  lemma PressWild(view: StateView, won: bool, ui: Ui, card: Card)
    requires Playable(view, won, card) && card.color == Wild
    ensures PressCard(view, won, ui, card) == (Ui(Some(card.id), true), Silent)
  {
  }

  /** Pressing any other playable card sends `PLAY_CARD` with its id and no colour. */
  lemma PressPlain(view: StateView, won: bool, ui: Ui, card: Card)
    requires Playable(view, won, card) && card.color != Wild
    ensures PressCard(view, won, ui, card) == (ui, Upload(PlayCard(card.id, None)))
  {
  }

  /** Whatever is pressed, nothing is uploaded when it is not this player's turn. */
  lemma NothingOffTurn(view: StateView, won: bool, ui: Ui, card: Card, color: string)
    requires !view.canPlay
    ensures !PressCard(view, won, ui, card).1.Upload?
    ensures !ChooseColor(view, ui, color).1.Upload?
    ensures !PressDraw(view).Upload?
  {
  }

  // ---------------------------------------------------------------------------
  // The colour chooser

  /** A pending card is played with the chosen colour, and the chooser closes. */
  lemma ChoosePending(view: StateView, cid: CardId, color: string)
    requires view.canPlay && cid != ""
    ensures ChooseColor(view, Ui(Some(cid), true), color) == (Idle, Upload(PlayCard(cid, Some(color))))
  {
  }

  /** With no card pending, choosing a colour only closes the chooser. */
  lemma ChooseNothingPending(view: StateView, modal: bool, color: string)
    ensures ChooseColor(view, Ui(None, modal), color) == (Idle, Silent)
  {
  }

  /** A playable wild card, pressed and then given a colour, is sent with that colour. */
  lemma WildFlow(view: StateView, won: bool, ui: Ui, card: Card, color: string)
    requires Playable(view, won, card) && card.color == Wild && card.id != ""
    ensures var (u, e) := PressCard(view, won, ui, card);
      e == Silent && ChooseColor(view, u, color) == (Idle, Upload(PlayCard(card.id, Some(color))))
  {
  }

  /** Every colour the chooser offers is one the server accepts as `chosenColor`, and no other is. */
  lemma ChooserMatchesServer(color: string)
    ensures ChooserColors == AcceptedColorNames
    ensures color in ChooserColors <==> ColorAccepted(Some(color))
  {
  }

  // ---------------------------------------------------------------------------
  // The client against the server

  /** The client's turn flag is the server's turn check. */
  lemma GateMatchesServer(t: Table, pid: PlayerId)
    requires Sound(t)
    ensures Snapshot(t, pid).canPlay <==> TurnCheck(t, pid).None?
  {
  }

  /** In a hand whose card ids are distinct, looking a card's id up finds that card. */
  lemma IndexOfOwnCard(hand: seq<Card>, k: nat)
    requires k < |hand|
    requires forall i, j :: 0 <= i < j < |hand| ==> hand[i].id != hand[j].id
    ensures CardIndex(hand, hand[k].id) == k
  {
  }

  /**
   * On the player's turn and before the player has won, a card of the hand
   * that is not wild is shown playable exactly when the server accepts
   * `PLAY_CARD` for it; a wild card is always shown playable, and the server
   * accepts it with any colour the chooser offers.
   */
  lemma ClientAgreesWithServer(t: Table, pid: PlayerId, k: nat, color: string)
    requires Sound(t)
    requires k < |HandOf(t, pid)|
    requires forall i, j :: 0 <= i < j < |HandOf(t, pid)| ==> HandOf(t, pid)[i].id != HandOf(t, pid)[j].id
    requires Snapshot(t, pid).canPlay && !HasWon(t.players, pid)
    requires color in ChooserColors
    ensures var card := HandOf(t, pid)[k];
      card.color != Wild ==>
        (Playable(Snapshot(t, pid), false, card) <==> Rejection(t, pid, PlayCard(card.id, None)).None?)
    ensures var card := HandOf(t, pid)[k];
      card.color == Wild ==>
        Playable(Snapshot(t, pid), false, card) && Rejection(t, pid, PlayCard(card.id, Some(color))).None?
  {
    var hand := HandOf(t, pid);
    var card := hand[k];
    IndexOfOwnCard(hand, k);
    GateMatchesServer(t, pid);
    assert pid in t.hands && t.hands[pid] == hand;
    assert card in t.hands[pid];
    assert t.discard != [];
    var view := Snapshot(t, pid);
    assert view.topCard == Some(Last(t.discard));
    if card.color == Wild {
      assert Marked(card);
      ChooserMatchesServer(color);
    }
  }

  /**
   * While `won` is true and a card is on the discard pile, no card is shown
   * playable, even where the server would accept it.
   */
  lemma WinnerSeesNothingPlayable(view: StateView, card: Card)
    requires view.topCard.Some?
    ensures !Playable(view, true, card)
  {
  }
}
