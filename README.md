# Playing cards: a verified model of decks, cuts and faro shuffles

This project is a Dafny model of the playing-card library in `playing_cards.py`
and of its one client, the Mnemonica recipe in `magic.py`. The library has
these parts:

- A **card** (`PlayingCard`) holds a value ordinal (0 is the Joker, 1 to 13 run
  Ace to King) and a suit ordinal in CHaSeD order (Clubs, Hearts, Spades,
  Diamonds). Its name is derived from the two.
- A **deck** (`Deck`) is a list of cards, top first. It is changed in place by
  cuts, out- and in-faros, adding a card and dealing from the top, the bottom
  or the second position.
- A **hand** (`Hand`) is an empty deck with a label.
- **Factories** build decks in new deck order (US or European), a Euchre deck
  and a Pinochle deck.
- `makeMnemonicaDeck` turns European new deck order into the Mnemonica stack
  with four out-faros, a reversal of the top half, a split out-faro and a cut.

The model has six modules:

- `Wrappers` holds `Option` and `Result`.
- `Cards` holds the card datatype, construction from ordinals or names, names and
  equality.
- `DeckOps` holds the sequence algebra as pure functions. It covers Python's
  slice bounds, the cut, the packet-by-packet weave, the balanced faro's index
  formula and the explicit-split faro.
- `Decks` holds `class Deck`, whose field `cards: seq<Card>` its methods
  reassign, and `class Hand`. It also holds the loops the faros run, as
  methods proved against the `DeckOps` functions.
- `Factories` holds the deck builders as nested loops proved to produce closed-form orders.
- `Magic` holds the recipe as a method on a `Deck`. Its result is proved to be
  a rearrangement of new deck order, and in fact exactly the 52-card Mnemonica
  stack, written out card by card in `MnemonicaStack`.

A deck's operations are methods with `modifies this` whose `ensures` give the
new `cards` as a function of the old. The properties are proved about those
functions: cuts and faros only rearrange, where each card goes, ends preserved,
round trips and agreement between the source's formula and the weave.

Where the source does something evidently unintended, the model keeps both
versions (see "## Findings"). The class uses the corrected one.

## Model

| member | source | states |
|---|---|---|
| Cards.IndexOf | playing_cards.py:52 | the index found holds the name and no earlier entry does (`list.index`) |
| Cards.Resolve | playing_cards.py:43-63 | an ordinal is accepted exactly when it indexes the table and is kept as is; a name exactly when it occurs, resolving to its position |
| Cards.NewCard | playing_cards.py:42-63 | construction succeeds exactly when value and suit both resolve; a bad value is reported before the suit; ordinals above 13 or above 3 are rejected; the card keeps the given ordinals, or the ordinals of the given names |
| Cards.SuitOrdinal | playing_cards.py:59-63 | the ordinal of a suit name indexes that name in the suit table |
| Cards.Name | playing_cards.py:65-68 | the name is "Joker" exactly for value 0; any other name is the value's name, then " of ", then the suit's name |
| Cards.SameCard | playing_cards.py:70-81 | two cards are equal exactly when value and suit match, and equal cards have equal names |
| Cards.ValueNamesDistinct | playing_cards.py:16-17 | the value names are all different and contain no blank |
| Cards.SuitNamesDistinct | playing_cards.py:19 | the suit names are all different and contain no blank |
| Cards.IndexOfDistinct | playing_cards.py:52 | in a table without repeats, looking up entry i gives back i |
| Cards.SuitOrdinals | playing_cards.py:19 | Clubs, Hearts, Spades and Diamonds have ordinals 0, 1, 2 and 3 |
| Cards.NamedAndOrdinalAgree | playing_cards.py:42-63 | building a card from its names and from its ordinals gives the same card |
| Cards.SplitAtOf | playing_cards.py:68 | "x of y" splits back into x and y when x has no blank |
| Cards.NameDeterminesCard | playing_cards.py:65-81 | for non-Jokers, equal names hold exactly when the cards are equal |
| Cards.JokersShareName | playing_cards.py:65-66 | Jokers of different suits are different cards with the same name |
| DeckOps.Cut | playing_cards.py:218 | a cut keeps the deck's length |
| DeckOps.CutPermutes | playing_cards.py:218 | a cut holds the same multiset of cards |
| DeckOps.CutAt | playing_cards.py:206-218 | cutting k cards within the deck rotates it: slot j receives card (j + k) mod n |
| DeckOps.CutThenCutBack | playing_cards.py:218 | cutting k and then n - k restores the deck |
| DeckOps.CutOutsideDeck | playing_cards.py:215-218 | cutting at or beyond either end changes nothing; a negative amount cuts from the bottom |
| DeckOps.Weave | playing_cards.py:297-309 | the weave holds as many cards as both packets together |
| DeckOps.WeaveFirstAt | playing_cards.py:301-309 | card i of the leading packet lands at 2i while the other packet lasts, else after its end |
| DeckOps.WeaveSecondAt | playing_cards.py:301-309 | card i of the following packet lands at 2i + 1 while the leading packet lasts, else after its end |
| DeckOps.WeaveMultiset | playing_cards.py:297-309 | the weave's multiset is the sum of the packets' multisets |
| DeckOps.WeaveRound | playing_cards.py:301-309 | one round appends the leading packet's card i, if any, then the other's card i, if any |
| DeckOps.PacketSizes | playing_cards.py:288-293 | a nonzero packet size is kept, and a size left at 0 becomes the rest of the deck |
| DeckOps.BottomPacketAsWritten | playing_cards.py:296 | the source's slice `cards[-b:]` is the last b cards for 0 < b <= n, and the whole deck for b = 0 or b >= n |
| DeckOps.BottomPacket | playing_cards.py:296 | the bottom packet of b cards is the deck's last b cards, and equals the source's slice whenever b is nonzero |
| DeckOps.ZeroBottomPacketDoublesDeck | playing_cards.py:288-296 | with every card on top, the source's bottom packet is the whole deck and the faro deals 2n cards; the empty packet leaves the deck unchanged |
| DeckOps.Half | playing_cards.py:279-286 | the balanced top packet is half the deck; on an odd deck it is the smaller half, one card short of the bottom packet |
| DeckOps.BalancedWeave | playing_cards.py:279-286 | a balanced faro keeps the deck's length |
| DeckOps.TargetOrigin | playing_cards.py:281-286 | every slot is the target of exactly the card Origin names |
| DeckOps.OriginTarget | playing_cards.py:281-286 | every card's target slot has that card as its origin |
| DeckOps.BalancedWeaveAt | playing_cards.py:281-286 | the balanced faro puts card i in slot Target(i) |
| DeckOps.BalancedWeaveFrom | playing_cards.py:281-286 | slot j of the balanced faro holds card Origin(j) |
| DeckOps.BalancedPermutes | playing_cards.py:279-286 | a balanced faro holds the same multiset of cards |
| DeckOps.OutFaroKeepsEnds | playing_cards.py:267-269 | on a deck of any length the out-faro keeps the top card on top and the bottom card at the bottom |
| DeckOps.InFaroMovesEndsInward | playing_cards.py:318-320 | the in-faro moves the top card to slot 1 on any deck of two or more cards, and on an even deck the bottom card to slot n - 2 |
| DeckOps.AsWrittenTarget | playing_cards.py:282-285 | the source's out-faro formula always gives a slot inside the deck |
| DeckOps.LastWriter | playing_cards.py:280-286 | names the last of the first k cards the loop writes to slot j; None exactly when none of them goes there |
| DeckOps.BalancedAsWritten | playing_cards.py:280-286 | the list the source's loop builds has one slot per card |
| DeckOps.TargetsAgreeWhenEven | playing_cards.py:282-285 | on an even deck the source's formula is the balanced faro's target, for both kinds |
| DeckOps.AsWrittenAgreesWhenEven | playing_cards.py:279-286 | on an even deck the source's loop fills every slot with the balanced weave's card |
| DeckOps.OddOutTargetEven | playing_cards.py:281-285 | on an odd deck the source's out-faro formula sends every card to an even slot |
| DeckOps.OddOutFaroLeavesHoles | playing_cards.py:279-286 | on an odd deck of three or more cards the source's out-faro leaves every odd slot None |
| DeckOps.OddInFaroLeavesHoles | playing_cards.py:325-332 | on an odd deck of three or more cards the source's in-faro leaves every even slot below n - 1 None |
| DeckOps.AsWrittenOutFaroKeepsEnds | playing_cards.py:279-286 | on a deck of any length the source's out-faro loop leaves the top card on top and the bottom card at the bottom |
| DeckOps.AsWrittenInFaroMovesBottomInward | playing_cards.py:325-332 | on a deck of two or more cards the source's in-faro loop puts the bottom card in slot n - 2 |
| DeckOps.ThreeCardFaros | playing_cards.py:279-286 | on [a, b, c] the source gives [a, None, c] and [None, c, b]; the balanced weave gives [a, b, c] and [b, a, c] |
| DeckOps.OutFaroResult | playing_cards.py:279-311 | with both sizes 0 the out-faro keeps the deck's length and its multiset of cards; otherwise it deals as many cards as both packets hold |
| DeckOps.InFaroResult | playing_cards.py:325-357 | with both sizes 0 the in-faro keeps the deck's length and its multiset of cards; otherwise it deals as many cards as both packets hold |
| DeckOps.SplitFaroPermutes | playing_cards.py:287-309 | with one size given inside the deck and the other left at 0, both faros only rearrange the deck |
| DeckOps.BalancedIsSplitAtHalf | playing_cards.py:279-309 | on two or more cards the balanced faro is the explicit-split faro whose top packet is `Half` of the deck |
| Decks.Names | playing_cards.py:172-187 | the list of names is as long as the cards, and entry i is card i's name |
| Decks.Selected | playing_cards.py:173-182 | -1 on both sides selects all cards; -1 on one side leaves that side open; otherwise the cards are start to stop |
| Decks.EqualsAsWritten | playing_cards.py:135-147 | the source's comparison holds exactly when the decks are equally long and agree name by name |
| Decks.EqualsAsWrittenWithoutJokers | playing_cards.py:135-147 | without Jokers, comparing the lists of names is comparing the decks |
| Decks.JokerDecksCompareEqual | playing_cards.py:135-147 | two one-card decks holding different Jokers compare equal by name |
| Decks.FillAsWritten | playing_cards.py:280-286 | the source's loop, which writes each card by index and lets later cards overwrite, builds BalancedAsWritten |
| Decks.FillBalanced | playing_cards.py:279-286 | writing each card to its Target slot builds the balanced weave |
| Decks.WeaveStep | playing_cards.py:301-309 | appending one round to the cards dealt so far leaves the weave of what remains to complete the whole weave |
| Decks.WeaveDone | playing_cards.py:301-309 | once the rounds cover both packets, the cards dealt are the whole weave |
| Decks.WeavePackets | playing_cards.py:297-309 | the round-by-round loop, which skips an exhausted packet, builds the weave |
| Decks.Deck.constructor | playing_cards.py:132-133 | the deck holds the given cards in order |
| Decks.Deck.GetCardAt | playing_cards.py:189-195 | indexing succeeds exactly for -n to n - 1, with negative indices counting from the bottom |
| Decks.Deck.GetListOfCards | playing_cards.py:163-187 | returns the names of the selected cards |
| Decks.Deck.Equals | playing_cards.py:135-147 | decks are equal exactly when they hold the same cards in the same order; equal decks also compare equal by name |
| Decks.Deck.Cut | playing_cards.py:206-218 | the new cards are the cut of the old ones at the given amount, or at half the deck for -1 |
| Decks.Deck.AddCard | playing_cards.py:220-222 | the card is appended at the bottom |
| Decks.Deck.DealTopCard | playing_cards.py:227-237 | returns and removes the top card; an empty deck gives None and stays empty |
| Decks.Deck.BottomDeal | playing_cards.py:239-250 | returns and removes the bottom card; an empty deck gives None |
| Decks.Deck.SecondDeal | playing_cards.py:252-260 | returns and removes the second card; with fewer than two cards, None and no change |
| Decks.Deck.OutFaro | playing_cards.py:262-311 | the new cards are the balanced out-faro when both sizes are 0, otherwise the two packets woven top card first |
| Decks.Deck.InFaro | playing_cards.py:313-357 | as out_faro, with the bottom packet's card first |
| Decks.Hand.constructor | playing_cards.py:367-369 | a new hand holds an empty deck and the given label |
| Factories.SuitOrder | playing_cards.py:386-391 | exactly "US" and "European" have a suit order, and each is four suit names |
| Factories.NewDeckOrder | playing_cards.py:393-399 | new deck order has 52 cards, none a Joker, and slot j holds a card of the order's suit j / 13 |
| Factories.NewDeckOrderAscending | playing_cards.py:394-396 | in the first two suits, card `value` of suit s sits at slot 13s + value - 1 |
| Factories.NewDeckOrderDescending | playing_cards.py:397-399 | in the last two suits, card `value` of suit s sits at slot 13s + 13 - value |
| Factories.MakeDeckInNewDeckOrder | playing_cards.py:378-401 | an unknown mode is an error; otherwise the loops build new deck order for the mode's suits |
| Factories.NewDeckOrderEnds | playing_cards.py:386-401 | both orders have 52 cards; US runs from the Ace of Hearts to the Ace of Spades, European from the Ace of Spades to the Ace of Clubs |
| Factories.NewDeckOrderDistinct | playing_cards.py:393-399 | with four different suits, new deck order holds 52 different cards and no Joker |
| Factories.MakeEuchreDeck | playing_cards.py:404-416 | the loops build the Euchre order: per suit, Nine to King, then the Ace |
| Factories.MakePinochleDeck | playing_cards.py:419-434 | the loops build the Pinochle order: per suit, Nine to King and then the Ace, each twice |
| Factories.EuchreCards | playing_cards.py:410-415 | the Euchre order has 24 cards, and the Ace sits exactly at the last slot of each suit's six |
| Factories.PinochleCards | playing_cards.py:426-433 | the Pinochle order has 48 cards, and the Aces sit exactly at the last two slots of each suit's twelve |
| Factories.EuchreDeckFacts | playing_cards.py:404-416 | the Euchre deck has 24 different cards, each an Ace or Nine to King |
| Factories.PinochleDoublesEuchre | playing_cards.py:419-434 | the Pinochle deck is the Euchre deck with every card doubled in place |
| Magic.OutFaros | magic.py:15-16 | repeated out-faros keep the deck's length |
| Magic.Reassemble | magic.py:17-19 | the top 26 cards reversed followed by the bottom 26 give 52 cards on a deck of 26 or more, and twice the deck on a smaller one |
| Magic.MnemonicaCards | magic.py:10-23 | the recipe's cards are 52 |
| Magic.Reverse | magic.py:18 | reversing in place leaves the array holding the reversed list |
| Magic.MakeMnemonicaDeck | magic.py:10-23 | the recipe's deck holds MnemonicaCards |
| Magic.MnemonicaIsRearrangement | magic.py:10-23 | the result has 52 cards, exactly the cards of European new deck order |
| Magic.OutFarosPermute | magic.py:15-16 | repeated out-faros only rearrange |
| Magic.OutFarosKeepEnds | magic.py:15-16 | repeated out-faros on an even deck keep the top and bottom cards |
| Magic.FourFarosKeepAces | magic.py:14-16 | after the four out-faros the Ace of Spades is on top and the Ace of Clubs at the bottom |
| Magic.ReversedPermutes | magic.py:18 | the reversal only rearranges |
| Magic.ReassembleAt | magic.py:17-19 | the reassembled deck holds the first 26 cards reversed, then the last 26 in place |
| Magic.ReassemblePermutes | magic.py:17-19 | the reassembly only rearranges a 52-card deck |
| Magic.SplitOutFaroOfEighteen | magic.py:20 | out_faro(18) on 52 cards weaves packets of 18 and 34 and gives 52 cards |
| Magic.FinalCutMovesNine | magic.py:21 | cut(9) moves the top nine cards to the bottom, in order |
| Magic.OutFarosFrom | magic.py:15-16 | after k out-faros, slot j holds the card that OutFarosOrigin traces back |
| Magic.SplitFaroAndCutFrom | magic.py:20-21 | after out_faro(18) and cut(9), slot j holds the card at the slot traced back through both |
| Magic.AfterFarosFrom | magic.py:17-21 | every card of the result is traced back to its slot after the four out-faros |
| Magic.EuropeanCardAtAgrees | playing_cards.py:393-399 | European new deck order matches the arithmetic description of its slots |
| Magic.MnemonicaFrom | magic.py:10-23 | card j of the result is the European new-deck-order card at StackOrigin(j) |
| Magic.StackAgreesAt | magic.py:12 | the traced card for every slot is the Mnemonica stack's card at that slot |
| Magic.RecipeBuildsMnemonica | magic.py:10-23 | the recipe's result is the Mnemonica stack, card for card |
| Magic.MnemonicaIsDeterministic | magic.py:10-23 | two runs of the recipe build equal decks |

## Left out

- `Deck.shuffle` is left out: it draws randomness from the host library, and nothing here may depend on it.
- `Deck.sort` is left out: it takes a caller-supplied key function and relies on Python's sort.
- `print_cards`, `main` and the `__str__` and `__repr__` methods print or format text and are left out. This includes the label format a `Hand` prints.
- `PlayingCard.__hash__` is left out: hashing has no counterpart here.
- The one-line getters of a card, and `Deck.get_cards` and `__len__`, are left out: the model reads the datatype fields, `cards` and `|cards|` directly.
- Cards.NewCard: title-casing (`str.title`) is not modelled; a name must match the table exactly.
- Cards.NewCard: negative integer ordinals are not modelled; `nat` excludes them. In Python they index from the end of the table.
- Cards.NewCard: arguments that are neither `int` nor `str` are not modelled. The source then leaves the attribute unset and raises `AttributeError` when it reads it: at playing_cards.py:65 for a bad value, or at playing_cards.py:68 for a bad suit with a nonzero value.
- Decks.Deck.Equals compares the cards, as the docstring says, not the names as the code does; EqualsAsWritten models the code.
- Decks.Deck.Equals: the comparison with an object that is not a `Deck` is not modelled; the type system excludes it.
- Decks.Deck.OutFaro and Decks.Deck.InFaro do not follow the code on odd decks or on a bottom packet of size 0: they use the corrected balanced faro and the corrected bottom packet (see "## Findings"). The code as written is modelled beside them, by `BalancedAsWritten`, `FillAsWritten` and `BottomPacketAsWritten`.
- DeckOps.InFaroMovesEndsInward: on an odd deck it states only that the top card moves to slot 1. A weave that keeps every card cannot also move the bottom card to slot n - 2 there. The source's loop does move the bottom card inward (`AsWrittenInFaroMovesBottomInward`), but only by overwriting a card and leaving other slots None.
- `Hand` inherits every deck operation. The model gives a hand a `Deck` field instead of a subclass, so those operations act on `hand.deck`.
- Arbitrary Python objects in a deck are not modelled: a deck holds only cards from the library itself.
- The docstrings promise more than the code does in two places, and the model keeps both readings:
  - the docstring of `out_faro` (playing_cards.py:267-272) promises a weave "as close as possible" on an odd deck; the code leaves None slots there and loses cards;
  - the docstring of `__eq__` (playing_cards.py:139-140) promises equality for the exact same cards in the same order; the code compares names, so decks with Jokers of different suits compare equal.

## Findings

| source | as written | input that shows it | evidently intended | confidence | as-written member | corrected member |
|---|---|---|---|---|---|---|
| playing_cards.py:279-286, 325-332 | on a deck of odd length n ≥ 3 the balanced faro's formula sends pairs of cards to one slot. The (n - 1) / 2 odd slots (out-faro) or even slots below n - 1 (in-faro) stay `None`, and as many cards are lost | out_faro() on [a, b, c] gives [a, None, c]; in_faro() gives [None, c, b] | the closest perfect weave: the smaller half on top, woven card by card, keeping every card; the out-faro then keeps both end cards | proved for the model; not executed | DeckOps.OddOutFaroLeavesHoles | DeckOps.BalancedPermutes |
| playing_cards.py:288-296, 334-342 | when the computed bottom packet size is 0, `cards[-0:]` is the whole deck rather than no cards | out_faro(n) on a deck of n cards deals 2n cards | an empty bottom packet, leaving the deck as it was | proved for the model; not executed | DeckOps.ZeroBottomPacketDoublesDeck | DeckOps.BottomPacket |
| playing_cards.py:135-147 | decks are compared by their lists of names, and every Joker is named "Joker" whatever its suit | a deck holding `PlayingCard(0, 0)` equals a deck holding `PlayingCard(0, 1)` | the same cards in the same order, as the docstring says | proved for the model; not executed | Decks.EqualsAsWritten | Decks.Deck.Equals |
