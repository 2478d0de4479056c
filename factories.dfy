/** Decks in fixed orders: new deck order (US and European), Euchre and Pinochle. */
module Factories {
  import opened Wrappers
  import opened Cards
  import opened Decks

  /** Raised for a new-deck-order mode other than "US" and "European". */
  datatype FactoryError = InvalidMode

  const USOrder: seq<string> := ["Hearts", "Clubs", "Diamonds", "Spades"]
  const EuropeanOrder: seq<string> := ["Spades", "Hearts", "Diamonds", "Clubs"]

  /** An order of four suit names. */
  predicate IsSuitOrder(order: seq<string>) {
    |order| == 4 && forall k :: 0 <= k < 4 ==> order[k] in SuitNames
  }

  /** The suit order the source's table gives a mode. */
  function SuitOrder(mode: string): (r: Option<seq<string>>)
    ensures r.Some? <==> mode == "US" || mode == "European"
    ensures r.Some? ==> IsSuitOrder(r.value)
  {
    if mode == "US" then Some(USOrder)
    else if mode == "European" then Some(EuropeanOrder)
    else None
  }

  /** New deck order: the first two suits of `order` Ace to King, then the
      last two King to Ace. */
  function NewDeckOrder(order: seq<string>): (r: seq<Card>)
    requires IsSuitOrder(order)
    ensures |r| == 52
    ensures forall j :: 0 <= j < 52 ==> r[j].value != 0 && SuitNames[r[j].suit] == order[j / 13]
  {
    seq(52, j requires 0 <= j < 52 =>
      if j < 26 then Card(j % 13 + 1, SuitOrdinal(order[j / 13]))
      else Card(13 - j % 13, SuitOrdinal(order[j / 13])))
  }

  /** The first two suits run Ace to King: card `value` of suit `s` sits at
      slot `13 * s + value - 1`. */
  lemma NewDeckOrderAscending(order: seq<string>, s: nat, value: nat)
    requires IsSuitOrder(order) && s < 2 && 1 <= value <= 13
    ensures NewDeckOrder(order)[13 * s + value - 1] == Card(value, SuitOrdinal(order[s]))
    ensures NewDeckOrder(order)[..13 * s + value] ==
      NewDeckOrder(order)[..13 * s + value - 1] + [Card(value, SuitOrdinal(order[s]))]
  {
    var j := 13 * s + value - 1;
    if s == 0 {
      assert j / 13 == 0 && j % 13 == value - 1;
    } else {
      assert j / 13 == 1 && j % 13 == value - 1;
    }
  }

  /** The last two suits run King to Ace: card `value` of suit `s` sits at
      slot `13 * s + 13 - value`. */
  lemma NewDeckOrderDescending(order: seq<string>, s: nat, value: nat)
    requires IsSuitOrder(order) && 2 <= s < 4 && 1 <= value <= 13
    ensures NewDeckOrder(order)[13 * s + 13 - value] == Card(value, SuitOrdinal(order[s]))
    ensures NewDeckOrder(order)[..13 * s + 14 - value] ==
      NewDeckOrder(order)[..13 * s + 13 - value] + [Card(value, SuitOrdinal(order[s]))]
  {
    var j := 13 * s + 13 - value;
    if s == 2 {
      assert j / 13 == 2 && j % 13 == 13 - value;
    } else {
      assert j / 13 == 3 && j % 13 == 13 - value;
    }
  }

  /** makeDeckInNewDeckOrder(mode) */
  method MakeDeckInNewDeckOrder(mode: string) returns (r: Result<Deck, FactoryError>)
    ensures SuitOrder(mode).None? ==> r == Err(InvalidMode)
    ensures SuitOrder(mode).Some? ==>
      IsSuitOrder(SuitOrder(mode).value) && r.Ok? && fresh(r.value) &&
      r.value.cards == NewDeckOrder(SuitOrder(mode).value)
  {
    var suitOrder := SuitOrder(mode);
    if suitOrder.None? {
      return Err(InvalidMode);
    }
    var order := suitOrder.value;
    var cards: seq<Card> := [];
    ghost var target := NewDeckOrder(order);
    for s := 0 to 2
      invariant cards == target[..13 * s]
    {
      var suit := SuitOrdinal(order[s]);
      for value := 1 to 14
        invariant cards == target[..13 * s + value - 1]
      {
        NewDeckOrderAscending(order, s, value);
        cards := cards + [Card(value, suit)];
      }
      assert 13 * s + 13 == 13 * (s + 1);
    }
    for s := 2 to 4
      invariant cards == target[..13 * s]
    {
      var suit := SuitOrdinal(order[s]);
      for value := 14 downto 1
        invariant cards == target[..13 * s + 14 - value]
      {
        NewDeckOrderDescending(order, s, value);
        cards := cards + [Card(value, suit)];
      }
      assert 13 * s + 13 == 13 * (s + 1);
    }
    assert cards == target;
    var deck := new Deck(cards);
    r := Ok(deck);
  }

  /** The US order opens with the Ace of Hearts and ends with the Ace of
      Spades; the European order opens with the Ace of Spades and ends with
      the Ace of Clubs. */
  lemma NewDeckOrderEnds()
    ensures IsSuitOrder(USOrder) && IsSuitOrder(EuropeanOrder)
    ensures |NewDeckOrder(USOrder)| == 52 && |NewDeckOrder(EuropeanOrder)| == 52
    ensures Name(NewDeckOrder(USOrder)[0]) == "Ace of Hearts"
    ensures Name(NewDeckOrder(USOrder)[51]) == "Ace of Spades"
    ensures Name(NewDeckOrder(EuropeanOrder)[0]) == "Ace of Spades"
    ensures Name(NewDeckOrder(EuropeanOrder)[51]) == "Ace of Clubs"
  {
    SuitOrdinals();
    assert NewDeckOrder(USOrder)[0] == Card(1, 1) && NewDeckOrder(USOrder)[51] == Card(1, 2);
    assert NewDeckOrder(EuropeanOrder)[0] == Card(1, 2) && NewDeckOrder(EuropeanOrder)[51] == Card(1, 0);
    assert Name(Card(1, 1)) == "Ace of Hearts" && Name(Card(1, 2)) == "Ace of Spades";
    assert Name(Card(1, 0)) == "Ace of Clubs";
  }

  /** With four different suits, new deck order holds 52 different cards and
      no Joker. */
  lemma NewDeckOrderDistinct(order: seq<string>)
    requires IsSuitOrder(order)
    requires forall a, b :: 0 <= a < b < 4 ==> order[a] != order[b]
    ensures forall i :: 0 <= i < 52 ==> NewDeckOrder(order)[i].value != 0
    ensures forall i, j :: 0 <= i < j < 52 ==> NewDeckOrder(order)[i] != NewDeckOrder(order)[j]
  {
  }

  /** The Euchre values in a suit's order: Nine to King, then the Ace. */
  function EuchreValue(k: nat): Value
    requires k < 6
  {
    if k < 5 then 9 + k else 1
  }

  /** The Euchre deck: for each suit in CHaSeD order, Nine to King and then the Ace. */
  function EuchreCards(): (r: seq<Card>)
    ensures |r| == 24
    ensures forall j :: 0 <= j < 24 ==> (r[j].value == 1 <==> j % 6 == 5)
  {
    seq(24, j requires 0 <= j < 24 => Card(EuchreValue(j % 6), j / 6))
  }

  /** The Pinochle deck: the Euchre deck's pattern with every card twice. */
  function PinochleCards(): (r: seq<Card>)
    ensures |r| == 48
    ensures forall j :: 0 <= j < 48 ==> (r[j].value == 1 <==> j % 12 >= 10)
  {
    seq(48, j requires 0 <= j < 48 => Card(EuchreValue(j % 12 / 2), j / 12))
  }

  /** makeEuchreDeck */
  method MakeEuchreDeck() returns (deck: Deck)
    ensures fresh(deck) && deck.cards == EuchreCards()
  {
    var cards: seq<Card> := [];
    ghost var target := EuchreCards();
    for suit := 0 to 4
      invariant cards == target[..6 * suit]
    {
      for value := 9 to 14
        invariant cards == target[..6 * suit + value - 9]
      {
        cards := cards + [Card(value, suit)];
      }
      cards := cards + [Card(1, suit)];
    }
    deck := new Deck(cards);
  }

  /** makePinochleDeck */
  method MakePinochleDeck() returns (deck: Deck)
    ensures fresh(deck) && deck.cards == PinochleCards()
  {
    var cards: seq<Card> := [];
    ghost var target := PinochleCards();
    for suit := 0 to 4
      invariant cards == target[..12 * suit]
    {
      for value := 9 to 14
        invariant cards == target[..12 * suit + 2 * (value - 9)]
      {
        for copy := 0 to 2
          invariant cards == target[..12 * suit + 2 * (value - 9) + copy]
        {
          cards := cards + [Card(value, suit)];
        }
      }
      for copy := 0 to 2
        invariant cards == target[..12 * suit + 10 + copy]
      {
        cards := cards + [Card(1, suit)];
      }
    }
    deck := new Deck(cards);
  }

  /** The Euchre deck has 24 different cards, none below Nine except the Aces,
      six to a suit. */
  lemma EuchreDeckFacts()
    ensures |EuchreCards()| == 24
    ensures forall i :: 0 <= i < 24 ==> EuchreCards()[i].value == 1 || 9 <= EuchreCards()[i].value <= 13
    ensures forall i, j :: 0 <= i < j < 24 ==> EuchreCards()[i] != EuchreCards()[j]
  {
  }

  /** The Pinochle deck is the Euchre deck with each card doubled in place. */
  lemma PinochleDoublesEuchre()
    ensures |PinochleCards()| == 2 * |EuchreCards()|
    ensures forall i :: 0 <= i < 24 ==>
      PinochleCards()[2 * i] == EuchreCards()[i] && PinochleCards()[2 * i + 1] == EuchreCards()[i]
  {
    forall i | 0 <= i < 24
      ensures PinochleCards()[2 * i] == EuchreCards()[i] && PinochleCards()[2 * i + 1] == EuchreCards()[i]
    {
      assert (2 * i) / 12 == i / 6 && (2 * i + 1) / 12 == i / 6;
      assert (2 * i) % 12 / 2 == i % 6 && (2 * i + 1) % 12 / 2 == i % 6;
    }
  }
}
