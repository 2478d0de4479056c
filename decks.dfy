/** A deck of cards held top (index 0) to bottom, changed in place by cuts,
    faros and deals, and a player's hand built on one. */
module Decks {
  import opened Wrappers
  import opened Cards
  import opened DeckOps

  /** Raised by indexing outside the deck. */
  datatype DeckError = IndexOutOfRange

  /** The names of the cards, in order. */
  function Names(s: seq<Card>): (r: seq<string>)
    ensures |r| == |s|
    ensures forall i :: 0 <= i < |s| ==> r[i] == Name(s[i])
  {
    if s == [] then [] else [Name(s[0])] + Names(s[1..])
  }

  /** The cards get_list_of_cards(start, stop) lists: -1 leaves that side
      open, any other bound is a Python slice bound. */
  function Selected(s: seq<Card>, start: int, stop: int): (r: seq<Card>)
    ensures start == -1 && stop == -1 ==> r == s
    ensures start == -1 && 0 <= stop <= |s| ==> r == s[..stop]
    ensures stop == -1 && 0 <= start <= |s| ==> r == s[start..]
    ensures 0 <= start <= stop <= |s| ==> r == s[start..stop]
  {
    if start == -1 && stop == -1 then s
    else if start == -1 then Prefix(s, stop)
    else if stop == -1 then Suffix(s, start)
    else Slice(s, start, stop)
  }

  /** Deck.__eq__ as the source writes it: equal lengths and equal lists of names. */
  function EqualsAsWritten(a: seq<Card>, b: seq<Card>): (r: bool)
    ensures r <==> |a| == |b| && forall i :: 0 <= i < |a| ==> Name(a[i]) == Name(b[i])
  {
    |a| == |b| && Names(a) == Names(b)
  }

  /** Without Jokers, comparing names is comparing the cards. */
  lemma EqualsAsWrittenWithoutJokers(a: seq<Card>, b: seq<Card>)
    requires forall i :: 0 <= i < |a| ==> a[i].value != 0
    requires forall i :: 0 <= i < |b| ==> b[i].value != 0
    ensures EqualsAsWritten(a, b) <==> a == b
  {
    if EqualsAsWritten(a, b) {
      forall i | 0 <= i < |a| ensures a[i] == b[i] {
        assert Names(a)[i] == Names(b)[i];
        NameDeterminesCard(a[i], b[i]);
      }
    }
  }

  /** Two one-card decks holding Jokers of different suits compare equal by
      name although their cards differ. */
  lemma JokerDecksCompareEqual()
    ensures EqualsAsWritten([Card(0, 0)], [Card(0, 1)])
    ensures [Card(0, 0)] != [Card(0, 1)]
  {
    JokersShareName();
  }

  /** The balanced faro as the source runs it: a list of n slots, each card
      written by index to the slot the formula gives, later cards overwriting
      earlier ones. */
  method FillAsWritten<T>(kind: Faro, cards: seq<T>) returns (newDeck: seq<Option<T>>)
    ensures newDeck == BalancedAsWritten(kind, cards)
  {
    var n := |cards|;
    var slots := new Option<T>[n](_ => None);
    for i := 0 to n
      invariant forall j :: 0 <= j < n ==> slots[j] == SlotAfter(kind, cards, j, i)
    {
      slots[AsWrittenTarget(kind, n, i)] := Some(cards[i]);
    }
    newDeck := slots[..];
  }

  /** The balanced faro run the same way, each card written by index to the
      slot `Target` gives it; every slot is written exactly once. */
  method FillBalanced(kind: Faro, cards: seq<Card>) returns (newDeck: seq<Card>)
    ensures newDeck == BalancedWeave(kind, cards)
  {
    var n := |cards|;
    var slots := new Card[n];
    for i := 0 to n
      invariant forall k :: 0 <= k < i ==> Target(kind, n, k) < n && slots[Target(kind, n, k)] == cards[k]
    {
      OriginTarget(kind, n, i);
      forall k | 0 <= k < i ensures Target(kind, n, k) != Target(kind, n, i) {
        OriginTarget(kind, n, k);
      }
      slots[Target(kind, n, i)] := cards[i];
    }
    forall j | 0 <= j < n ensures slots[j] == BalancedWeave(kind, cards)[j] {
      TargetOrigin(kind, n, j);
      BalancedWeaveFrom(kind, cards, j);
    }
    newDeck := slots[..];
  }

  /** Appending round `i` to a prefix of the weave that stops before round
      `i` gives a prefix that stops before round `i + 1`. */
  lemma WeaveStep<T>(first: seq<T>, second: seq<T>, i: nat, done: seq<T>)
    requires done + Weave(From(first, i), From(second, i)) == Weave(first, second)
    ensures (done + Round(first, second, i)) + Weave(From(first, i + 1), From(second, i + 1))
         == Weave(first, second)
  {
    WeaveRound(first, second, i);
    var round, rest := Round(first, second, i), Weave(From(first, i + 1), From(second, i + 1));
    assert (done + round) + rest == done + (round + rest);
  }

  /** Once the rounds cover both packets, the prefix is the whole weave. */
  lemma WeaveDone<T>(first: seq<T>, second: seq<T>, rounds: nat, done: seq<T>)
    requires |first| <= rounds && |second| <= rounds
    requires done + Weave(From(first, rounds), From(second, rounds)) == Weave(first, second)
    ensures done == Weave(first, second)
  {
    assert From(first, rounds) == [] && From(second, rounds) == [];
    assert done + Weave([], []) == done;
  }

  /** The explicit-split weave as the source runs it: for as many rounds as
      the longer packet has cards, append this round's card of `first` and
      then of `second`, skipping a packet once it is exhausted. The round's
      cards are gathered and then appended together. */
  method WeavePackets(first: seq<Card>, second: seq<Card>) returns (newDeck: seq<Card>)
    ensures newDeck == Weave(first, second)
  {
    var rounds := if |first| > |second| then |first| else |second|;
    newDeck := [];
    assert From(first, 0) == first && From(second, 0) == second;
    for i := 0 to rounds
      invariant newDeck + Weave(From(first, i), From(second, i)) == Weave(first, second)
    {
      WeaveStep(first, second, i, newDeck);
      var round: seq<Card> := [];
      if i < |first| {
        round := round + [first[i]];
      }
      if i < |second| {
        round := round + [second[i]];
      }
      assert round == Round(first, second, i);
      newDeck := newDeck + round;
    }
    WeaveDone(first, second, rounds, newDeck);
  }

  class Deck {
    /** The cards, top first. */
    var cards: seq<Card>

    constructor (playingCards: seq<Card>)
      ensures cards == playingCards
    {
      cards := playingCards;
    }

    /** get_card_at: Python indexing, negative indices counting from the bottom. */
    function GetCardAt(index: int): (r: Result<Card, DeckError>)
      reads this
      ensures r.Ok? <==> -|cards| <= index < |cards|
      ensures r.Ok? && index >= 0 ==> r.value == cards[index]
      ensures r.Ok? && index < 0 ==> r.value == cards[|cards| + index]
    {
      if 0 <= index < |cards| then Ok(cards[index])
      else if -|cards| <= index < 0 then Ok(cards[|cards| + index])
      else Err(IndexOutOfRange)
    }

    /** get_list_of_cards(start, stop): the names of the selected cards. */
    method GetListOfCards(start: int, stop: int) returns (listOfCards: seq<string>)
      ensures listOfCards == Names(Selected(cards, start, stop))
    {
      var selected := Selected(cards, start, stop);
      listOfCards := [];
      for i := 0 to |selected|
        invariant listOfCards == Names(selected[..i])
      {
        assert selected[..i + 1] == selected[..i] + [selected[i]];
        listOfCards := listOfCards + [Name(selected[i])];
      }
      assert selected[..|selected|] == selected;
    }

    /** __eq__: the same cards in the same order. */
    method Equals(other: Deck) returns (equal: bool)
      ensures equal <==> cards == other.cards
      ensures equal ==> EqualsAsWritten(cards, other.cards)
    {
      equal := |cards| == |other.cards| && cards == other.cards;
    }

    /** cut(cardsOffTop): the top cards go to the bottom; -1 means half the deck. */
    method Cut(cardsOffTop: int)
      modifies this
      ensures cards == DeckOps.Cut(old(cards), if cardsOffTop == -1 then |old(cards)| / 2 else cardsOffTop)
    {
      var k := cardsOffTop;
      if k == -1 {
        k := |cards| / 2;
      }
      cards := Suffix(cards, k) + Prefix(cards, k);
    }

    /** add_card: the card goes to the bottom. */
    method AddCard(card: Card)
      modifies this
      ensures cards == old(cards) + [card]
    {
      cards := cards + [card];
    }

    /** deal_top_card: removes and returns the top card; None on an empty deck. */
    method DealTopCard() returns (card: Option<Card>)
      modifies this
      ensures old(cards) == [] ==> card == None && cards == old(cards)
      ensures old(cards) != [] ==> card == Some(old(cards)[0]) && cards == old(cards)[1..]
    {
      if cards != [] {
        card := Some(cards[0]);
        cards := cards[1..];
      } else {
        card := None;
      }
    }

    /** bottom_deal: removes and returns the bottom card; None on an empty deck. */
    method BottomDeal() returns (card: Option<Card>)
      modifies this
      ensures old(cards) == [] ==> card == None && cards == old(cards)
      ensures old(cards) != [] ==> card == Some(old(cards)[|old(cards)| - 1]) && cards == old(cards)[..|old(cards)| - 1]
    {
      if cards != [] {
        card := Some(cards[|cards| - 1]);
        cards := cards[..|cards| - 1];
      } else {
        card := None;
      }
    }

    /** second_deal: removes and returns the second card; None with fewer than two. */
    method SecondDeal() returns (card: Option<Card>)
      modifies this
      ensures |old(cards)| < 2 ==> card == None && cards == old(cards)
      ensures |old(cards)| >= 2 ==> card == Some(old(cards)[1]) && cards == [old(cards)[0]] + old(cards)[2..]
    {
      if |cards| >= 2 {
        card := Some(cards[1]);
        cards := [cards[0]] + cards[2..];
      } else {
        card := None;
      }
    }

    /** out_faro(top, bottom): balanced when both are 0, otherwise the two
        packets woven top card first. */
    method OutFaro(numberOfCardsOnTop: int, numberOfCardsOnBottom: int)
      modifies this
      ensures cards == OutFaroResult(old(cards), numberOfCardsOnTop, numberOfCardsOnBottom)
    {
      var newDeck;
      if numberOfCardsOnBottom == 0 && numberOfCardsOnTop == 0 {
        newDeck := FillBalanced(Out, cards);
      } else {
        var sizes := PacketSizes(|cards|, numberOfCardsOnTop, numberOfCardsOnBottom);
        var topHalf := TopPacket(cards, sizes.0);
        var bottomHalf := BottomPacket(cards, sizes.1);
        newDeck := WeavePackets(topHalf, bottomHalf);
      }
      cards := newDeck;
    }

    /** in_faro(top, bottom): as out_faro, bottom card first. */
    method InFaro(numberOfCardsOnTop: int, numberOfCardsOnBottom: int)
      modifies this
      ensures cards == InFaroResult(old(cards), numberOfCardsOnTop, numberOfCardsOnBottom)
    {
      var newDeck;
      if numberOfCardsOnBottom == 0 && numberOfCardsOnTop == 0 {
        newDeck := FillBalanced(In, cards);
      } else {
        var sizes := PacketSizes(|cards|, numberOfCardsOnTop, numberOfCardsOnBottom);
        var topHalf := TopPacket(cards, sizes.0);
        var bottomHalf := BottomPacket(cards, sizes.1);
        newDeck := WeavePackets(bottomHalf, topHalf);
      }
      cards := newDeck;
    }
  }

  /** A player's hand: an initially empty deck and a label. */
  class Hand {
    const deck: Deck
    var handLabel: string

    constructor (handLabel: string)
      ensures fresh(deck) && deck.cards == [] && this.handLabel == handLabel
    {
      deck := new Deck([]);
      this.handLabel := handLabel;
    }
  }
}
