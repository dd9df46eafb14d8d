/**
 * `initGameForRoom` (uno_server.js) as a function of the room before it,
 * and the join handler's effect on one room: seat the newcomer, and re-deal
 * whenever at least two players sit.
 */
module Dealing {
  import opened Options
  import opened Seqs
  import opened Cards
  import opened Tables
  import Shuffling

  /** Cards dealt to each player. */
  const HandSize := 7

  /** The deck `generateDeck` returns for the given ids and random choices. */
  function Generated(uuid: nat -> CardId, roll: nat -> nat): seq<Card> {
    Shuffling.Shuffled(CanonicalDeck(uuid), roll)
  }

  /**
   * The `do … while` that turns up the first discard: pop until a card whose
   * value is neither `draw_4` nor `change_color`; the popped wild cards are
   * dropped. Nothing when the deck runs out, which is exactly when it holds
   * wild values only.
   */
  function DrawSeed(deck: seq<Card>): (r: Option<(seq<Card>, Card)>)
    ensures r.None? <==> forall k :: 0 <= k < |deck| ==> IsWildValue(deck[k].value)
    ensures r.Some? ==>
      && |r.value.0| < |deck|
      && r.value.0 == deck[..|r.value.0|]
      && r.value.1 == deck[|r.value.0|]
      && !IsWildValue(r.value.1.value)
      && forall k :: |r.value.0| < k < |deck| ==> IsWildValue(deck[k].value)
    decreases |deck|
  {
    if deck == [] then None
    else if !IsWildValue(Last(deck).value) then Some((DropLast(deck), Last(deck)))
    else DrawSeed(DropLast(deck))
  }

  /** The `wins = false` loop over the players. */
  function ResetWins(players: seq<Player>): (r: seq<Player>)
    ensures |r| == |players|
    ensures forall i :: 0 <= i < |r| ==> r[i] == players[i].(wins := false)
  {
    seq(|players|, i requires 0 <= i < |players| => players[i].(wins := false))
  }

  lemma ResetWinsIds(players: seq<Player>)
    ensures IdSet(ResetWins(players)) == IdSet(players)
    ensures DistinctIds(players) ==> DistinctIds(ResetWins(players))
  {
    var r := ResetWins(players);
    forall id | id in IdSet(players) ensures id in IdSet(r) {
      var p :| p in players && p.id == id;
      var i :| 0 <= i < |players| && players[i] == p;
      assert r[i].id == id;
    }
    forall id | id in IdSet(r) ensures id in IdSet(players) {
      var p :| p in r && p.id == id;
      var i :| 0 <= i < |r| && r[i] == p;
      assert players[i].id == id;
    }
  }

  /** The seven cards the `q`-th player pops off what the seed left. */
  function DealtHand(rest: seq<Card>, q: nat): (h: seq<Card>)
    requires HandSize * (q + 1) <= |rest|
    ensures |h| == HandSize
  {
    seq(HandSize, k requires 0 <= k < HandSize => rest[|rest| - 1 - HandSize * q - k])
  }

  /** `hands` after the first `n` players have been dealt to. */
  function Deal(rest: seq<Card>, players: seq<Player>, n: nat): map<PlayerId, seq<Card>>
    requires n <= |players| && HandSize * n <= |rest|
  {
    if n == 0 then map[] else Deal(rest, players, n - 1)[players[n - 1].id := DealtHand(rest, n - 1)]
  }

  lemma {:induction false} DealKeys(rest: seq<Card>, players: seq<Player>, n: nat)
    requires n <= |players| && HandSize * n <= |rest|
    ensures Deal(rest, players, n).Keys == IdSet(players[..n])
  {
    if n > 0 {
      DealKeys(rest, players, n - 1);
      assert players[..n] == players[..n - 1] + [players[n - 1]];
    }
  }

  lemma {:induction false} DealHands(rest: seq<Card>, players: seq<Player>, n: nat)
    requires n <= |players| && HandSize * n <= |rest| && DistinctIds(players)
    ensures forall q :: 0 <= q < n ==>
      players[q].id in Deal(rest, players, n) && Deal(rest, players, n)[players[q].id] == DealtHand(rest, q)
  {
    if n > 0 {
      DealHands(rest, players, n - 1);
      var m := Deal(rest, players, n - 1);
      forall q | 0 <= q < n
        ensures players[q].id in Deal(rest, players, n) && Deal(rest, players, n)[players[q].id] == DealtHand(rest, q)
      {
        if q < n - 1 {
          assert players[q].id != players[n - 1].id;
          assert Deal(rest, players, n)[players[q].id] == m[players[q].id];
        }
      }
    }
  }

  lemma {:induction false} DealCardsFrom(rest: seq<Card>, players: seq<Player>, n: nat)
    requires n <= |players| && HandSize * n <= |rest|
    ensures forall pid, c :: pid in Deal(rest, players, n) && c in Deal(rest, players, n)[pid] ==> c in rest
  {
    if n > 0 {
      DealCardsFrom(rest, players, n - 1);
      var h := DealtHand(rest, n - 1);
      forall c | c in h ensures c in rest {
        var k :| 0 <= k < HandSize && h[k] == c;
        assert rest[|rest| - 1 - HandSize * (n - 1) - k] == c;
      }
    }
  }

  lemma DealShape(rest: seq<Card>, players: seq<Player>, n: nat)
    requires n <= |players| && HandSize * n <= |rest| && DistinctIds(players)
    ensures Deal(rest, players, n).Keys == IdSet(players[..n])
    ensures forall q :: 0 <= q < n ==> Deal(rest, players, n)[players[q].id] == DealtHand(rest, q)
    ensures forall pid, c :: pid in Deal(rest, players, n) && c in Deal(rest, players, n)[pid] ==> c in rest
  {
    DealKeys(rest, players, n);
    DealHands(rest, players, n);
    DealCardsFrom(rest, players, n);
  }

  // ---------------------------------------------------------------------------
  // How many players a deck can serve

  /** The number of cards with a wild value. */
  function WildCount(s: seq<Card>): (n: nat)
    ensures n <= |s|
    decreases |s|
  {
    if s == [] then 0 else WildCount(DropLast(s)) + (if IsWildValue(Last(s).value) then 1 else 0)
  }

  lemma {:induction false} WildCountConcat(a: seq<Card>, b: seq<Card>)
    ensures WildCount(a + b) == WildCount(a) + WildCount(b)
    decreases |b|
  {
    if b != [] {
      var ab := a + b;
      assert DropLast(ab) == a + DropLast(b);
      assert Last(ab) == Last(b);
      WildCountConcat(a, DropLast(b));
      assert WildCount(ab) == WildCount(DropLast(ab)) + (if IsWildValue(Last(ab).value) then 1 else 0);
    } else {
      assert a + b == a;
    }
  }

  lemma {:induction false} WildCountAllWild(s: seq<Card>)
    requires forall k :: 0 <= k < |s| ==> IsWildValue(s[k].value)
    ensures WildCount(s) == |s|
    decreases |s|
  {
    if s != [] {
      WildCountAllWild(DropLast(s));
    }
  }

  /** The kinds that carry a wild value, coloured or not. */
  function WildKindsCount(m: multiset<Kind>): nat {
    m[(Wild, ChangeColor)] + m[(Wild, Draw4)]
    + m[(Red, ChangeColor)] + m[(Red, Draw4)] + m[(Blue, ChangeColor)] + m[(Blue, Draw4)]
    + m[(Green, ChangeColor)] + m[(Green, Draw4)] + m[(Yellow, ChangeColor)] + m[(Yellow, Draw4)]
  }

  lemma WildKindsCountAdd(m: multiset<Kind>, k: Kind)
    ensures WildKindsCount(m + multiset{k}) == WildKindsCount(m) + (if IsWildValue(k.1) then 1 else 0)
  {
    if IsWildValue(k.1) {
      match k.0
      case Wild =>
      case Red =>
      case Blue =>
      case Green =>
      case Yellow =>
    }
  }

  lemma {:induction false} WildCountByKinds(s: seq<Card>)
    ensures WildCount(s) == WildKindsCount(multiset(Map(s, KindOf)))
    decreases |s|
  {
    if s != [] {
      var init := DropLast(s);
      WildCountByKinds(init);
      assert Map(s, KindOf) == Map(init, KindOf) + [KindOf(Last(s))];
      assert multiset(Map(s, KindOf)) == multiset(Map(init, KindOf)) + multiset{KindOf(Last(s))};
      WildKindsCountAdd(multiset(Map(init, KindOf)), KindOf(Last(s)));
    }
  }

  /** A generated deck holds exactly eight wild-valued cards. */
  lemma GeneratedWildCount(uuid: nat -> CardId, roll: nat -> nat)
    ensures WildCount(Generated(uuid, roll)) == 8
  {
    var deck := Generated(uuid, roll);
    WildCountByKinds(deck);
    GeneratedDeckKinds(uuid, roll, (Wild, ChangeColor));
    GeneratedDeckKinds(uuid, roll, (Wild, Draw4));
    GeneratedDeckKinds(uuid, roll, (Red, ChangeColor));
    GeneratedDeckKinds(uuid, roll, (Red, Draw4));
    GeneratedDeckKinds(uuid, roll, (Blue, ChangeColor));
    GeneratedDeckKinds(uuid, roll, (Blue, Draw4));
    GeneratedDeckKinds(uuid, roll, (Green, ChangeColor));
    GeneratedDeckKinds(uuid, roll, (Green, Draw4));
    GeneratedDeckKinds(uuid, roll, (Yellow, ChangeColor));
    GeneratedDeckKinds(uuid, roll, (Yellow, Draw4));
  }

  /**
   * What is known of any deck `generateDeck` returns: 108 well-formed cards,
   * eight of them with a wild value.
   */
  predicate FreshDeck(d: seq<Card>) {
    |d| == DeckSize && WildCount(d) == 8 && forall c :: c in d ==> WellFormed(c)
  }

  lemma GeneratedFresh(uuid: nat -> CardId, roll: nat -> nat)
    ensures FreshDeck(Generated(uuid, roll))
  {
    GeneratedWildCount(uuid, roll);
    GeneratedDeckKinds(uuid, roll, (Wild, Draw4));
    Cards.GeneratedWellFormed(uuid, roll);
  }

  /**
   * On a fresh deck the seed is always found, and at most the eight wild
   * cards are dropped on the way: between 99 and 107 cards remain to deal.
   */
  lemma FreshSeed(d: seq<Card>)
    requires FreshDeck(d)
    ensures DrawSeed(d).Some?
    ensures 99 <= |DrawSeed(d).value.0| <= 107
  {
    if DrawSeed(d).None? {
      WildCountAllWild(d);
      assert false;
    }
    var rest := DrawSeed(d).value.0;
    var above := d[|rest| + 1..];
    assert d == rest + [d[|rest|]] + above;
    WildCountConcat(rest + [d[|rest|]], above);
    assert forall k :: 0 <= k < |above| ==> above[k] == d[|rest| + 1 + k];
    WildCountAllWild(above);
  }

  // ---------------------------------------------------------------------------
  // Dealing

  /**
   * `initGameForRoom`, given the deck `generateDeck` returned: reset the
   * flags, turn up a non-wild seed, reset the cursor and deal seven cards to
   * each player in seating order. The flag is false when the deck ran out
   * (the `catch`): then deck, discard pile and hands are emptied, and the
   * cursor keeps its value if the seed was never found.
   */
  function Init(t: Table, newDeck: seq<Card>): (r: (bool, Table))
    requires DistinctIds(t.players)
    ensures r.1.players == ResetWins(t.players) && !r.1.isOver
    ensures !r.0 ==> r.1.deck == [] && r.1.discard == [] && r.1.hands == map[]
  {
    var players := ResetWins(t.players);
    match DrawSeed(newDeck)
    case None => (false, Table(players, [], [], map[], t.cur, false))
    case Some(seed) =>
      var rest := seed.0;
      if |rest| < HandSize * |players| then (false, Table(players, [], [], map[], 0, false))
      else (true, Table(players, rest[..|rest| - HandSize * |players|], [seed.1], Deal(rest, players, |players|), 0, false))
  }

  /** `Init` once the seed search has ended: no seed, or a seed over `rest`. */
  lemma InitCases(t: Table, newDeck: seq<Card>)
    requires DistinctIds(t.players)
    ensures var ps, n := ResetWins(t.players), |t.players|;
      && (DrawSeed(newDeck).None? ==> Init(t, newDeck) == (false, Table(ps, [], [], map[], t.cur, false)))
      && (DrawSeed(newDeck).Some? ==>
            var rest, top := DrawSeed(newDeck).value.0, DrawSeed(newDeck).value.1;
            Init(t, newDeck) ==
              if |rest| < HandSize * n then (false, Table(ps, [], [], map[], 0, false))
              else (true, Table(ps, rest[..|rest| - HandSize * n], [top], Deal(rest, ps, n), 0, false)))
  {
  }

  /** Dealing succeeds exactly when the cards left under the seed cover seven per player. */
  lemma InitSucceeds(t: Table, newDeck: seq<Card>)
    requires DistinctIds(t.players)
    ensures Init(t, newDeck).0 <==> DrawSeed(newDeck).Some? && HandSize * |t.players| <= |DrawSeed(newDeck).value.0|
  {
  }

  /**
   * A successful deal: the discard pile is one card that is neither wild
   * value nor wild colour, each player holds exactly seven cards taken off
   * the top of the deck, the cursor is at seat 0, the game is not over and
   * nobody has won.
   */
  lemma InitDeals(t: Table, newDeck: seq<Card>)
    requires DistinctIds(t.players) && FreshDeck(newDeck)
    requires Init(t, newDeck).0
    ensures var u := Init(t, newDeck).1;
      && |u.discard| == 1 && !IsWildValue(u.discard[0].value) && u.discard[0].color != Wild
      && u.hands.Keys == IdSet(t.players)
      && (forall i :: 0 <= i < |u.players| ==> |u.hands[u.players[i].id]| == HandSize && !u.players[i].wins)
      && |u.deck| == |DrawSeed(newDeck).value.0| - HandSize * |t.players|
      && u.cur == 0
  {
    var seed := DrawSeed(newDeck).value;
    var players := ResetWins(t.players);
    ResetWinsIds(t.players);
    assert players[..|players|] == players;
    DealShape(seed.0, players, |players|);
    assert seed.1 in newDeck;
  }

  /** A failed deal leaves nothing dealt and no flag set. */
  lemma InitFails(t: Table, newDeck: seq<Card>)
    requires DistinctIds(t.players)
    requires !Init(t, newDeck).0
    ensures var u := Init(t, newDeck).1;
      && u.deck == [] && u.discard == [] && u.hands == map[] && !u.isOver
      && forall i :: 0 <= i < |u.players| ==> !u.players[i].wins
  {
  }

  /**
   * On a fresh deck dealing succeeds for up to fourteen players whatever the
   * shuffle, and always fails from sixteen on: 7 × 16 exceeds the 107 cards
   * left after the seed.
   */
  lemma InitCapacity(t: Table, newDeck: seq<Card>)
    requires DistinctIds(t.players) && FreshDeck(newDeck)
    ensures |t.players| <= 14 ==> Init(t, newDeck).0
    ensures |t.players| >= 16 ==> !Init(t, newDeck).0
  {
    FreshSeed(newDeck);
  }

  /** Every card a successful deal leaves in the deck or hands comes from the dealt deck. */
  lemma InitCardsFrom(t: Table, newDeck: seq<Card>)
    requires DistinctIds(t.players) && Init(t, newDeck).0
    ensures var u := Init(t, newDeck).1;
      && (forall c :: c in u.deck ==> c in newDeck)
      && (forall pid :: pid in u.hands ==> forall c :: c in u.hands[pid] ==> c in newDeck)
      && (forall c :: c in u.discard ==> c in newDeck)
  {
    var players := ResetWins(t.players);
    var seed := DrawSeed(newDeck).value;
    var rest := seed.0;
    var u := Init(t, newDeck).1;
    assert forall c :: c in rest ==> c in newDeck;
    DealShape(rest, players, |players|);
  }

  /** A deal for at least two players leaves a sound table. */
  lemma InitSound(t: Table, newDeck: seq<Card>)
    requires CursorOk(t) && DistinctIds(t.players) && |t.players| >= 2 && FreshDeck(newDeck)
    ensures Sound(Init(t, newDeck).1)
  {
    ResetWinsIds(t.players);
    FreshSeed(newDeck);
    if Init(t, newDeck).0 {
      InitDeals(t, newDeck);
      InitCardsFrom(t, newDeck);
    }
  }

  // ---------------------------------------------------------------------------
  // Joining

  /**
   * What `POST /join/:roomId` does to an existing room, given the deck a
   * deal would use: a known id changes nothing; a new id is seated last, and
   * once two or more sit the game is dealt again from scratch.
   */
  function Admit(t: Table, id: PlayerId, name: string, newDeck: seq<Card>): (r: Table)
    requires DistinctIds(t.players)
    ensures id in IdSet(t.players) ==> r == t
    ensures IdSet(r.players) == IdSet(t.players) + {id}
    ensures DistinctIds(r.players)
  {
    if id in IdSet(t.players) then t
    else
      var seated := t.(players := t.players + [Player(id, name, false)]);
      assert IdSet(seated.players) == IdSet(t.players) + {id};
      if |seated.players| >= 2 then
        ResetWinsIds(seated.players);
        Init(seated, newDeck).1
      else seated
  }

  /** A new id is seated last; with two or more seated the room is dealt again. */
  lemma AdmitNew(t: Table, id: PlayerId, name: string, newDeck: seq<Card>)
    requires DistinctIds(t.players)
    ensures var seated := t.(players := t.players + [Player(id, name, false)]);
      && (id in IdSet(t.players) <==> FindPlayer(t.players, id).Some?)
      && (id !in IdSet(t.players) ==> DistinctIds(seated.players))
      && (id !in IdSet(t.players) ==>
            Admit(t, id, name, newDeck) == if |seated.players| >= 2 then Init(seated, newDeck).1 else seated)
  {
    var seated := t.(players := t.players + [Player(id, name, false)]);
    if id !in IdSet(t.players) {
      assert IdSet(seated.players) == IdSet(t.players) + {id};
    }
  }

  /** Joining twice with the same id is joining once. */
  lemma AdmitIdempotent(t: Table, id: PlayerId, name: string, name2: string, newDeck: seq<Card>, newDeck2: seq<Card>)
    requires DistinctIds(t.players)
    ensures Admit(Admit(t, id, name, newDeck), id, name2, newDeck2) == Admit(t, id, name, newDeck)
  {
  }

  /**
   * A newcomer who makes two or more players triggers a newDeck deal: every
   * seat keeps its order and name with `wins` cleared, the newcomer sits
   * last, and for up to fourteen players each holds seven cards.
   */
  lemma AdmitRedeals(t: Table, id: PlayerId, name: string, newDeck: seq<Card>)
    requires DistinctIds(t.players) && id !in IdSet(t.players) && |t.players| >= 1 && FreshDeck(newDeck)
    ensures var u := Admit(t, id, name, newDeck);
      && u.players == ResetWins(t.players + [Player(id, name, false)])
      && !u.isOver
      && (|t.players| < 14 ==>
            && u.cur == 0 && |u.discard| == 1 && u.hands.Keys == IdSet(u.players)
            && forall i :: 0 <= i < |u.players| ==> |u.hands[u.players[i].id]| == HandSize)
  {
    var seated := t.(players := t.players + [Player(id, name, false)]);
    assert IdSet(seated.players) == IdSet(t.players) + {id};
    InitCapacity(seated, newDeck);
    if |t.players| < 14 {
      InitDeals(seated, newDeck);
    }
  }

  /** The first player to join is seated and nothing is dealt. */
  lemma AdmitFirst(t: Table, id: PlayerId, name: string, newDeck: seq<Card>)
    requires t.players == []
    ensures Admit(t, id, name, newDeck) == t.(players := [Player(id, name, false)])
  {
  }

  /** Joining keeps a room sound. */
  lemma AdmitSound(t: Table, id: PlayerId, name: string, newDeck: seq<Card>)
    requires Sound(t) && FreshDeck(newDeck)
    ensures Sound(Admit(t, id, name, newDeck))
  {
    if id !in IdSet(t.players) {
      var seated := t.(players := t.players + [Player(id, name, false)]);
      assert IdSet(seated.players) == IdSet(t.players) + {id};
      if |seated.players| >= 2 {
        InitSound(seated, newDeck);
      }
    }
  }
}
