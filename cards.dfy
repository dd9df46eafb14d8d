/**
 * Cards and the deck of the UNO engine (uno_server.js): the colour and value
 * tables, the names a client may send as `chosenColor`, and `generateDeck`,
 * which builds the 108 cards in a fixed order and shuffles them.
 */
module Cards {
  import opened Options
  import opened Seqs
  import Shuffling

  type CardId = string

  datatype Color = Red | Blue | Green | Yellow | Wild

  type Digit = d: nat | d <= 9

  /** A card value; the skip card is called `ban` in this code base. */
  datatype Value = Number(digit: Digit) | Ban | Reverse | Draw2 | ChangeColor | Draw4

  /** A card object `{ id, color, value }`. */
  datatype Card = Card(id: CardId, color: Color, value: Value)

  /** `COLORS`: the colour names, in the order `generateDeck` walks them. */
  const ColorNames: seq<string> := ["red", "blue", "green", "yellow"]

  /** The colour a card's `color` string stands for. */
  function ColorNamed(name: string): Color {
    if name == "red" then Red
    else if name == "blue" then Blue
    else if name == "green" then Green
    else if name == "yellow" then Yellow
    else Wild
  }

  /** `COLORS`, read as colours. */
  const Colors: seq<Color> := Map(ColorNames, ColorNamed)

  /** `VALUES`. */
  const Values: seq<Value> :=
    [Number(0), Number(1), Number(2), Number(3), Number(4), Number(5), Number(6),
     Number(7), Number(8), Number(9), Ban, Reverse, Draw2]

  /** The values of `WILD_CARDS`. */
  const WildValues: seq<Value> := [ChangeColor, Draw4]

  /** The number of cards `generateDeck` makes. */
  const DeckSize := 108

  predicate IsWildValue(v: Value) {
    v == ChangeColor || v == Draw4
  }

  /** The strings the server accepts as `chosenColor`. */
  const AcceptedColorNames: seq<string> := ["red", "blue", "green", "yellow"]

  /** The string a colour is written as. */
  function NameOf(c: Color): string {
    match c
    case Red => "red"
    case Blue => "blue"
    case Green => "green"
    case Yellow => "yellow"
    case Wild => "wild"
  }

  /** The colour a played wild card takes from the client's `chosenColor`, if that string is accepted. */
  function ColorOfName(name: string): (c: Option<Color>)
    ensures c.Some? <==> name in AcceptedColorNames
    ensures c.Some? ==> c.value != Wild && NameOf(c.value) == name
  {
    if name == "red" then Some(Red)
    else if name == "blue" then Some(Blue)
    else if name == "green" then Some(Green)
    else if name == "yellow" then Some(Yellow)
    else None
  }

  /** Naming a colour and reading the name back gives the colour, for each of the four real colours. */
  lemma ColorNameRoundTrip(c: Color)
    requires c != Wild
    ensures ColorOfName(NameOf(c)) == Some(c)
  {
  }

  // ---------------------------------------------------------------------------
  // The canonical deck, in the order generateDeck pushes it

  type Kind = (Color, Value)

  function KindOf(c: Card): Kind {
    (c.color, c.value)
  }

  function IdOf(c: Card): CardId {
    c.id
  }

  /** One iteration of the inner `VALUES.forEach`: a `0` is pushed once, every other value twice. */
  function Copies(c: Color, v: Value): seq<Kind> {
    if v == Number(0) then [(c, v)] else [(c, v), (c, v)]
  }

  /** The inner loop over the values `vs`, for the colour `c`. */
  function ColorRun(c: Color, vs: seq<Value>): seq<Kind>
    decreases |vs|
  {
    if vs == [] then [] else ColorRun(c, DropLast(vs)) + Copies(c, Last(vs))
  }

  /** The outer loop over the colours `cs`. */
  function ColorsRun(cs: seq<Color>): seq<Kind>
    decreases |cs|
  {
    if cs == [] then [] else ColorsRun(DropLast(cs)) + ColorRun(Last(cs), Values)
  }

  /** One iteration of the wild-card loop. */
  const WildKinds: seq<Kind> := [(Wild, ChangeColor), (Wild, Draw4)]

  /** The wild-card loop runs `for (let i = 0; i < 4; i++)`. */
  const WildRounds: nat := 4

  /** `rounds` iterations of the wild-card loop. */
  function WildRun(rounds: nat): seq<Kind> {
    if rounds == 0 then [] else WildRun(rounds - 1) + WildKinds
  }

  /** The kinds of the 108 pushed cards, in push order. */
  const CanonicalKinds: seq<Kind> := ColorsRun(Colors) + WildRun(WildRounds)

  /** Cards of the given kinds; the `k`-th pushed card gets the `k`-th fresh id. */
  function Label(ks: seq<Kind>, uuid: nat -> CardId): (d: seq<Card>)
    ensures |d| == |ks|
    ensures forall k :: 0 <= k < |ks| ==> d[k] == Card(uuid(k), ks[k].0, ks[k].1)
  {
    seq(|ks|, k requires 0 <= k < |ks| => Card(uuid(k), ks[k].0, ks[k].1))
  }

  /** The deck before `shuffle`. */
  function CanonicalDeck(uuid: nat -> CardId): seq<Card> {
    Label(CanonicalKinds, uuid)
  }

  /** How many cards of a kind the canonical deck holds. */
  function CanonicalCount(k: Kind): nat {
    if k.0 == Wild then (if IsWildValue(k.1) then 4 else 0)
    else if IsWildValue(k.1) then 0
    else if k.1 == Number(0) then 1
    else 2
  }

  /** A sequence with no element twice. */
  predicate Distinct<T(==)>(s: seq<T>) {
    forall i, j :: 0 <= i < j < |s| ==> s[i] != s[j]
  }

  lemma {:induction false} DistinctCount<T>(s: seq<T>, x: T)
    requires Distinct(s)
    ensures multiset(s)[x] == if x in s then 1 else 0
    decreases |s|
  {
    if s != [] {
      var init := DropLast(s);
      assert s == init + [Last(s)];
      assert Distinct(init);
      DistinctCount(init, x);
      assert multiset(s) == multiset(init) + multiset{Last(s)};
      assert x == Last(s) ==> x !in init;
    }
  }

  lemma ValuesFacts(v: Value)
    ensures Distinct(Values)
    ensures v in Values <==> !IsWildValue(v)
  {
    match v
    case Number(d) => assert Values[d] == v;
    case Ban => assert Values[10] == v;
    case Reverse => assert Values[11] == v;
    case Draw2 => assert Values[12] == v;
    case _ =>
  }

  /** `COLORS` names the four real colours, each once. */
  lemma ColorsFacts(c: Color)
    ensures Colors == [Red, Blue, Green, Yellow]
    ensures Distinct(Colors)
    ensures c in Colors <==> c != Wild
  {
    assert Colors[0] == Red && Colors[1] == Blue && Colors[2] == Green && Colors[3] == Yellow;
  }

  lemma CopiesCount(c: Color, v: Value, k: Kind)
    ensures multiset(Copies(c, v))[k] == if k == (c, v) then |Copies(c, v)| else 0
  {
  }

  lemma {:induction false} ColorRunCount(c: Color, vs: seq<Value>, k: Kind)
    requires Distinct(vs)
    ensures multiset(ColorRun(c, vs))[k] == if k.0 == c && k.1 in vs then |Copies(c, k.1)| else 0
    ensures |ColorRun(c, vs)| == 2 * |vs| - (if Number(0) in vs then 1 else 0)
    decreases |vs|
  {
    if vs != [] {
      var init, v := DropLast(vs), Last(vs);
      assert vs == init + [v];
      assert Distinct(init);
      assert v !in init;
      ColorRunCount(c, init, k);
      CopiesCount(c, v, k);
    }
  }

  lemma {:induction false} ColorRunOther(c: Color, vs: seq<Value>, k: Kind)
    requires k.0 != c
    ensures multiset(ColorRun(c, vs))[k] == 0
    decreases |vs|
  {
    if vs != [] {
      ColorRunOther(c, DropLast(vs), k);
    }
  }

  /** One colour's run holds one `0`, two of each other coloured value and no wild value. */
  lemma ColorRunValuesCount(c: Color, k: Kind)
    ensures multiset(ColorRun(c, Values))[k] ==
      if k.0 != c || IsWildValue(k.1) then 0 else if k.1 == Number(0) then 1 else 2
  {
    ValuesFacts(k.1);
    ColorRunCount(c, Values, k);
  }

  lemma ColorRunSize(c: Color)
    ensures |ColorRun(c, Values)| == 25
  {
    ValuesFacts(Number(0));
    ColorRunCount(c, Values, (c, Number(0)));
  }

  lemma {:induction false} ColorsRunCount(cs: seq<Color>, k: Kind)
    requires Distinct(cs)
    ensures multiset(ColorsRun(cs))[k] == if k.0 in cs then multiset(ColorRun(k.0, Values))[k] else 0
    ensures |ColorsRun(cs)| == 25 * |cs|
    decreases |cs|
  {
    if cs != [] {
      var init, c := DropLast(cs), Last(cs);
      assert cs == init + [c];
      assert Distinct(init);
      assert c !in init;
      ColorsRunCount(init, k);
      ColorRunSize(c);
      if k.0 != c {
        ColorRunOther(c, Values, k);
      }
    }
  }

  lemma {:induction false} WildRunCount(rounds: nat, k: Kind)
    ensures multiset(WildRun(rounds))[k] == if k.0 == Wild && IsWildValue(k.1) then rounds else 0
    ensures |WildRun(rounds)| == 2 * rounds
  {
    if rounds > 0 {
      WildRunCount(rounds - 1, k);
    }
  }

  /**
   * The canonical deck has 108 cards: per colour one `0` and two each of
   * `1`–`9`, `ban`, `reverse` and `draw_2`, and four wild `change_color` and
   * four wild `draw_4`.
   */
  lemma CanonicalComposition(k: Kind)
    ensures |CanonicalKinds| == DeckSize
    ensures multiset(CanonicalKinds)[k] == CanonicalCount(k)
  {
    var colored, wild := ColorsRun(Colors), WildRun(WildRounds);
    ColorsFacts(k.0);
    ColorsRunCount(Colors, k);
    WildRunCount(WildRounds, k);
    assert multiset(CanonicalKinds) == multiset(colored) + multiset(wild);
    if k.0 == Wild {
      assert multiset(colored)[k] == 0;
    } else {
      assert multiset(wild)[k] == 0;
      ColorRunValuesCount(k.0, k);
    }
  }

  /** A card is well formed when it is coloured `wild` exactly when its value is a wild value. */
  predicate WellFormed(c: Card) {
    c.color == Wild <==> IsWildValue(c.value)
  }

  /** Every canonical card is well formed. */
  lemma CanonicalWellFormed(uuid: nat -> CardId, i: nat)
    requires i < |CanonicalDeck(uuid)|
    ensures WellFormed(CanonicalDeck(uuid)[i])
  {
    var k := CanonicalKinds[i];
    assert k in multiset(CanonicalKinds);
    CanonicalComposition(k);
  }

  lemma LabelKinds(ks: seq<Kind>, uuid: nat -> CardId)
    ensures Map(Label(ks, uuid), KindOf) == ks
  {
  }

  lemma LabelSnoc(ks: seq<Kind>, k: Kind, uuid: nat -> CardId)
    ensures Label(ks + [k], uuid) == Label(ks, uuid) + [Card(uuid(|ks|), k.0, k.1)]
  {
  }

  lemma ColorRunStep(c: Color, vs: seq<Value>, i: nat)
    requires i < |vs|
    ensures ColorRun(c, vs[..i + 1]) == ColorRun(c, vs[..i]) + Copies(c, vs[i])
  {
    assert DropLast(vs[..i + 1]) == vs[..i];
  }

  lemma ColorsRunStep(cs: seq<Color>, i: nat)
    requires i < |cs|
    ensures ColorsRun(cs[..i + 1]) == ColorsRun(cs[..i]) + ColorRun(cs[i], Values)
  {
    assert DropLast(cs[..i + 1]) == cs[..i];
  }

  lemma ColorRunStepAfter(ks: seq<Kind>, c: Color, vs: seq<Value>, i: nat)
    requires i < |vs|
    ensures ks + ColorRun(c, vs[..i + 1]) == ks + ColorRun(c, vs[..i]) + Copies(c, vs[i])
  {
    ColorRunStep(c, vs, i);
  }

  /** The inner `VALUES.forEach` (over `vs`) for one colour, appending to the cards built so far. */
  method PushColor(built: seq<Card>, ghost ks: seq<Kind>, color: Color, vs: seq<Value>, uuid: nat -> CardId)
    returns (r: seq<Card>)
    requires built == Label(ks, uuid)
    ensures r == Label(ks + ColorRun(color, vs), uuid)
  {
    r := built;
    for vi := 0 to |vs|
      invariant r == Label(ks + ColorRun(color, vs[..vi]), uuid)
    {
      var value := vs[vi];
      ghost var before := ks + ColorRun(color, vs[..vi]);
      ColorRunStepAfter(ks, color, vs, vi);
      LabelSnoc(before, (color, value), uuid);
      r := r + [Card(uuid(|r|), color, value)];
      if value != Number(0) {
        LabelSnoc(before + [(color, value)], (color, value), uuid);
        r := r + [Card(uuid(|r|), color, value)];
        assert before + Copies(color, value) == before + [(color, value)] + [(color, value)];
      }
    }
    assert vs[..|vs|] == vs;
  }

  /** One round of the wild-card loop, appending to the cards built so far. */
  method PushWildRound(built: seq<Card>, ghost ks: seq<Kind>, uuid: nat -> CardId)
    returns (r: seq<Card>)
    requires built == Label(ks, uuid)
    ensures r == Label(ks + WildKinds, uuid)
  {
    r := built;
    for w := 0 to |WildValues|
      invariant r == Label(ks + WildKinds[..w], uuid)
    {
      LabelSnoc(ks + WildKinds[..w], (Wild, WildValues[w]), uuid);
      r := r + [Card(uuid(|r|), Wild, WildValues[w])];
      assert WildKinds[..w + 1] == WildKinds[..w] + [(Wild, WildValues[w])];
    }
    assert WildKinds[..|WildValues|] == WildKinds;
  }

  lemma WildRunSnoc(prefix: seq<Kind>, round: nat)
    ensures prefix + WildRun(round) + WildKinds == prefix + WildRun(round + 1)
  {
  }

  lemma CanonicalSize(uuid: nat -> CardId)
    ensures |CanonicalDeck(uuid)| == DeckSize
  {
    CanonicalComposition((Wild, Draw4));
  }

  /**
   * `generateDeck`: push the cards colour by colour and value by value, each
   * with a fresh id, then four rounds of the two wild cards, then shuffle.
   */
  method GenerateDeck(uuid: nat -> CardId, roll: nat -> nat) returns (deck: seq<Card>)
    ensures deck == Shuffling.Shuffled(CanonicalDeck(uuid), roll)
    ensures |deck| == DeckSize && multiset(deck) == multiset(CanonicalDeck(uuid))
  {
    var built: seq<Card> := [];
    for ci := 0 to |Colors|
      invariant built == Label(ColorsRun(Colors[..ci]), uuid)
    {
      built := PushColor(built, ColorsRun(Colors[..ci]), Colors[ci], Values, uuid);
      ColorsRunStep(Colors, ci);
    }
    assert Colors[..|Colors|] == Colors;
    for round := 0 to WildRounds
      invariant built == Label(ColorsRun(Colors) + WildRun(round), uuid)
    {
      built := PushWildRound(built, ColorsRun(Colors) + WildRun(round), uuid);
      WildRunSnoc(ColorsRun(Colors), round);
    }
    deck := Shuffling.Shuffle(built, roll);
    CanonicalSize(uuid);
  }

  /** The ids `uuid(0)`, ..., `uuid(count - 1)` handed out while building. */
  function FreshIds(count: nat, uuid: nat -> CardId): (ids: seq<CardId>)
    ensures |ids| == count
    ensures forall n :: 0 <= n < count ==> ids[n] == uuid(n)
  {
    seq(count, n requires 0 <= n < count => uuid(n))
  }

  /**
   * What `generateDeck` returns, for every choice of ids and of random
   * indices: 108 cards whose kinds are exactly the canonical counts and
   * whose ids are the 108 fresh ids, each once.
   */
  lemma GeneratedDeckKinds(uuid: nat -> CardId, roll: nat -> nat, k: Kind)
    ensures |Shuffling.Shuffled(CanonicalDeck(uuid), roll)| == DeckSize
    ensures multiset(Map(Shuffling.Shuffled(CanonicalDeck(uuid), roll), KindOf))[k] == CanonicalCount(k)
  {
    var canon := CanonicalDeck(uuid);
    Shuffling.ShuffledPermutes(canon, roll);
    Shuffling.ShuffledMap(canon, roll, KindOf);
    Shuffling.ShuffledPermutes(Map(canon, KindOf), roll);
    LabelKinds(CanonicalKinds, uuid);
    CanonicalComposition(k);
  }

  lemma LabelIds(ks: seq<Kind>, uuid: nat -> CardId)
    ensures Map(Label(ks, uuid), IdOf) == FreshIds(|ks|, uuid)
  {
  }

  lemma GeneratedDeckIds(uuid: nat -> CardId, roll: nat -> nat)
    ensures multiset(Map(Shuffling.Shuffled(CanonicalDeck(uuid), roll), IdOf)) == multiset(FreshIds(DeckSize, uuid))
  {
    var canon := CanonicalDeck(uuid);
    CanonicalComposition((Wild, Draw4));
    Shuffling.ShuffledMap(canon, roll, IdOf);
    Shuffling.ShuffledPermutes(Map(canon, IdOf), roll);
    LabelIds(CanonicalKinds, uuid);
  }

  /** Every card of a generated deck is well formed. */
  lemma GeneratedWellFormed(uuid: nat -> CardId, roll: nat -> nat)
    ensures forall c :: c in Shuffling.Shuffled(CanonicalDeck(uuid), roll) ==> WellFormed(c)
  {
    forall c | c in Shuffling.Shuffled(CanonicalDeck(uuid), roll)
      ensures WellFormed(c)
    {
      Shuffling.ShuffledMembers(CanonicalDeck(uuid), roll, c);
      var i :| 0 <= i < |CanonicalDeck(uuid)| && CanonicalDeck(uuid)[i] == c;
      CanonicalWellFormed(uuid, i);
    }
  }
}
