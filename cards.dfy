/** Playing cards: a value ordinal and a suit ordinal, with a name derived from both. */
module Cards {
  import opened Wrappers

  /** Value ordinals: 0 is the Joker, 1 the Ace, 11..13 Jack, Queen, King. */
  type Value = v: nat | v <= 13

  /** Suit ordinals in CHaSeD order: Clubs, Hearts, Spades, Diamonds. */
  type Suit = s: nat | s <= 3

  const ValueNames: seq<string> :=
    ["Joker", "Ace", "Two", "Three", "Four", "Five", "Six",
     "Seven", "Eight", "Nine", "Ten", "Jack", "Queen", "King"]

  const SuitNames: seq<string> := ["Clubs", "Hearts", "Spades", "Diamonds"]

  datatype Card = Card(value: Value, suit: Suit)

  /** What a caller may pass for a value or a suit: an ordinal or a name. */
  datatype Arg = Ordinal(n: nat) | Named(name: string)

  /** The two ways construction fails (both are a ValueError in the source). */
  datatype CardError = InvalidValue | InvalidSuit

  /** No entry of the table occurs twice. */
  predicate Distinct(table: seq<string>) {
    forall i, j :: 0 <= i < j < |table| ==> table[i] != table[j]
  }

  /** No name in the table contains a blank. */
  predicate OneWord(table: seq<string>) {
    forall i, k :: 0 <= i < |table| && 0 <= k < |table[i]| ==> table[i][k] != ' '
  }

  /** The position of the first occurrence of `name` (Python's `list.index`). */
  function IndexOf(table: seq<string>, name: string): (i: nat)
    requires name in table
    ensures i < |table| && table[i] == name
    ensures forall j :: 0 <= j < i ==> table[j] != name
  {
    if table[0] == name then 0 else 1 + IndexOf(table[1..], name)
  }

  /** Resolves an argument against a name table: an ordinal must index the
      table, a name must occur in it. */
  function Resolve(a: Arg, table: seq<string>): (r: Option<nat>)
    ensures r.Some? ==> r.value < |table|
    ensures a.Ordinal? ==> (r.Some? <==> a.n < |table|) && (r.Some? ==> r.value == a.n)
    ensures a.Named? ==> (r.Some? <==> a.name in table) && (r.Some? ==> table[r.value] == a.name)
  {
    match a
    case Ordinal(n) => if n < |table| then Some(n) else None
    case Named(s) => if s in table then Some(IndexOf(table, s)) else None
  }

  /** PlayingCard(value, suit): the value is checked first, then the suit. */
  function NewCard(value: Arg, suit: Arg): (r: Result<Card, CardError>)
    ensures r.Ok? <==> Resolve(value, ValueNames).Some? && Resolve(suit, SuitNames).Some?
    ensures Resolve(value, ValueNames).None? ==> r == Err(InvalidValue)
    ensures value.Ordinal? ==> (r.Ok? <==> value.n <= 13 && Resolve(suit, SuitNames).Some?)
    ensures suit.Ordinal? && Resolve(value, ValueNames).Some? ==> (r == Err(InvalidSuit) <==> suit.n > 3)
    ensures r.Ok? && value.Ordinal? ==> r.value.value == value.n
    ensures r.Ok? && suit.Ordinal? ==> r.value.suit == suit.n
    ensures r.Ok? && value.Named? ==> ValueNames[r.value.value] == value.name
    ensures r.Ok? && suit.Named? ==> SuitNames[r.value.suit] == suit.name
  {
    match Resolve(value, ValueNames)
    case None => Err(InvalidValue)
    case Some(v) =>
      match Resolve(suit, SuitNames)
      case None => Err(InvalidSuit)
      case Some(s) => Ok(Card(v, s))
  }

  /** The ordinal of an exact suit name. */
  function SuitOrdinal(name: string): (s: Suit)
    requires name in SuitNames
    ensures SuitNames[s] == name
  {
    IndexOf(SuitNames, name)
  }

  /** The card's display name: "Joker" for value 0, otherwise "<Value> of <Suit>". */
  function Name(c: Card): (r: string)
    ensures r == "Joker" <==> c.value == 0
    ensures c.value != 0 ==> |r| > |ValueNames[c.value]| + 4
    ensures c.value != 0 ==> r[..|ValueNames[c.value]| + 4] == ValueNames[c.value] + " of "
    ensures c.value != 0 ==> r[|ValueNames[c.value]| + 4..] == SuitNames[c.suit]
  {
    if c.value == 0 then "Joker" else ValueNames[c.value] + " of " + SuitNames[c.suit]
  }

  /** PlayingCard.__eq__: cards are equal when their (value, suit) pairs are. */
  function SameCard(a: Card, b: Card): (r: bool)
    ensures r <==> a == b
    ensures r ==> Name(a) == Name(b)
  {
    (a.value, a.suit) == (b.value, b.suit)
  }

  lemma ValueNamesDistinct()
    ensures Distinct(ValueNames) && OneWord(ValueNames)
  {
  }

  lemma SuitNamesDistinct()
    ensures Distinct(SuitNames) && OneWord(SuitNames)
  {
  }

  /** In a table without repeats, IndexOf inverts indexing. */
  lemma IndexOfDistinct(table: seq<string>, i: nat)
    requires Distinct(table) && i < |table|
    ensures IndexOf(table, table[i]) == i
  {
  }

  /** The ordinal of each suit name is its place in CHaSeD order. */
  lemma SuitOrdinals()
    ensures SuitOrdinal("Clubs") == 0 && SuitOrdinal("Hearts") == 1
    ensures SuitOrdinal("Spades") == 2 && SuitOrdinal("Diamonds") == 3
  {
    SuitNamesDistinct();
    IndexOfDistinct(SuitNames, 0);
    IndexOfDistinct(SuitNames, 1);
    IndexOfDistinct(SuitNames, 2);
    IndexOfDistinct(SuitNames, 3);
  }

  /** Naming a card and giving its ordinals build the same card. */
  lemma NamedAndOrdinalAgree(v: Value, s: Suit)
    ensures NewCard(Named(ValueNames[v]), Named(SuitNames[s])) == Ok(Card(v, s))
    ensures NewCard(Ordinal(v), Ordinal(s)) == Ok(Card(v, s))
  {
    ValueNamesDistinct();
    SuitNamesDistinct();
    IndexOfDistinct(ValueNames, v);
    IndexOfDistinct(SuitNames, s);
  }

  /** "x of y" splits uniquely when x has no blank. */
  lemma {:induction false} SplitAtOf(x1: string, y1: string, x2: string, y2: string)
    requires forall k :: 0 <= k < |x1| ==> x1[k] != ' '
    requires forall k :: 0 <= k < |x2| ==> x2[k] != ' '
    requires x1 + " of " + y1 == x2 + " of " + y2
    ensures x1 == x2 && y1 == y2
  {
    var w1, w2 := x1 + " of " + y1, x2 + " of " + y2;
    assert w1[|x1|] == ' ' && w2[|x2|] == ' ';
    assert |x1| == |x2|;
    assert x1 == w1[..|x1|] == w2[..|x2|] == x2;
    assert y1 == w1[|x1| + 4..] == w2[|x2| + 4..] == y2;
  }

  /** Apart from Jokers, the name determines the card. */
  lemma NameDeterminesCard(a: Card, b: Card)
    requires a.value != 0 && b.value != 0
    ensures Name(a) == Name(b) <==> a == b
  {
    if Name(a) == Name(b) {
      ValueNamesDistinct();
      SuitNamesDistinct();
      SplitAtOf(ValueNames[a.value], SuitNames[a.suit], ValueNames[b.value], SuitNames[b.suit]);
    }
  }

  /** Two Jokers of different suits are different cards with the same name. */
  lemma JokersShareName()
    ensures Card(0, 0) != Card(0, 1) && Name(Card(0, 0)) == Name(Card(0, 1))
  {
  }
}
