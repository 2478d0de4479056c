/** The Mnemonica stack, built from European new deck order by a fixed
    sequence of faros, a reversal and a cut. */
module Magic {
  import opened Wrappers
  import opened Cards
  import opened DeckOps
  import opened Decks
  import opened Factories

  /** `k` balanced out-faros in a row. */
  function OutFaros<T>(s: seq<T>, k: nat): (r: seq<T>)
    ensures |r| == |s|
  {
    if k == 0 then s else BalancedWeave(Out, OutFaros(s, k - 1))
  }

  /** The list read from its last element back to its first. */
  function Reversed<T>(s: seq<T>): seq<T> {
    seq(|s|, i requires 0 <= i < |s| => s[|s| - 1 - i])
  }

  /** The reassembly step: the first 26 cards reversed, followed by
      `cards[-26:]`. */
  function Reassemble<T>(s: seq<T>): (r: seq<T>)
    ensures |s| >= 26 ==> |r| == 52
    ensures |s| < 26 ==> |r| == 2 * |s|
  {
    Reversed(Prefix(s, 26)) + Suffix(s, -26)
  }

  /** The stack the recipe produces. */
  function MnemonicaCards(): (r: seq<Card>)
    ensures |r| == 52
  {
    NewDeckOrderEnds();
    var faroed := OutFaros(NewDeckOrder(EuropeanOrder), 4);
    SplitOutFaroOfEighteen(Reassemble(faroed));
    Cut(OutFaroResult(Reassemble(faroed), 18, 0), 9)
  }

  /** list.reverse(): swaps from both ends towards the middle. */
  method Reverse(a: array<Card>)
    modifies a
    ensures a[..] == Reversed(old(a[..]))
  {
    var lo, hi := 0, a.Length;
    while lo + 1 < hi
      invariant 0 <= lo <= hi <= a.Length && lo + hi == a.Length
      invariant forall k :: lo <= k < hi ==> a[k] == old(a[k])
      invariant forall k :: 0 <= k < lo ==> a[k] == old(a[a.Length - 1 - k])
      invariant forall k :: hi <= k < a.Length ==> a[k] == old(a[a.Length - 1 - k])
    {
      a[lo], a[hi - 1] := a[hi - 1], a[lo];
      lo, hi := lo + 1, hi - 1;
    }
  }

  /** makeMnemonicaDeck */
  method MakeMnemonicaDeck() returns (deck: Deck)
    ensures fresh(deck) && deck.cards == MnemonicaCards()
  {
    var made := MakeDeckInNewDeckOrder("European");
    deck := made.value;
    NewDeckOrderEnds();
    ghost var start := NewDeckOrder(EuropeanOrder);
    for k := 0 to 4
      invariant deck.cards == OutFaros(start, k)
    {
      deck.OutFaro(0, 0);
    }
    var topHalf := Prefix(deck.cards, 26);
    var bottomHalf := Suffix(deck.cards, -26);
    var reversed := new Card[|topHalf|](i requires 0 <= i < |topHalf| => topHalf[i]);
    assert reversed[..] == topHalf;
    Reverse(reversed);
    deck.cards := reversed[..] + bottomHalf;
    deck.OutFaro(18, 0);
    deck.Cut(9);
  }

  /** Every step keeps the length, so the stack has 52 cards, and every step
      only rearranges, so it holds exactly the cards of new deck order. */
  lemma MnemonicaIsRearrangement()
    ensures |MnemonicaCards()| == 52
    ensures multiset(MnemonicaCards()) == multiset(NewDeckOrder(EuropeanOrder))
  {
    NewDeckOrderEnds();
    var start := NewDeckOrder(EuropeanOrder);
    var faroed := OutFaros(start, 4);
    OutFarosPermute(start, 4);
    var reassembled := Reassemble(faroed);
    ReassemblePermutes(faroed);
    SplitFaroPermutes(reassembled, 18, 0);
    CutPermutes(OutFaroResult(reassembled, 18, 0), 9);
  }

  /** Repeated balanced out-faros only rearrange the cards. */
  lemma {:induction false} OutFarosPermute<T>(s: seq<T>, k: nat)
    ensures multiset(OutFaros(s, k)) == multiset(s)
  {
    if k > 0 {
      var previous := OutFaros(s, k - 1);
      calc {
        multiset(OutFaros(s, k));
        multiset(BalancedWeave(Out, previous));
        { BalancedPermutes(Out, previous); }
        multiset(previous);
        { OutFarosPermute(s, k - 1); }
        multiset(s);
      }
    }
  }

  /** Repeated balanced out-faros on an even deck keep its top and bottom cards. */
  lemma {:induction false} OutFarosKeepEnds<T>(s: seq<T>, k: nat)
    requires |s| > 0 && |s| % 2 == 0
    ensures OutFaros(s, k)[0] == s[0] && OutFaros(s, k)[|s| - 1] == s[|s| - 1]
  {
    if k > 0 {
      OutFarosKeepEnds(s, k - 1);
      OutFaroKeepsEnds(OutFaros(s, k - 1));
    }
  }

  /** The four out-faros leave the Ace of Spades on top and the Ace of Clubs
      at the bottom. */
  lemma FourFarosKeepAces()
    ensures Name(OutFaros(NewDeckOrder(EuropeanOrder), 4)[0]) == "Ace of Spades"
    ensures Name(OutFaros(NewDeckOrder(EuropeanOrder), 4)[51]) == "Ace of Clubs"
  {
    NewDeckOrderEnds();
    OutFarosKeepEnds(NewDeckOrder(EuropeanOrder), 4);
  }

  /** The reversal only rearranges. */
  lemma {:induction false} ReversedPermutes<T>(s: seq<T>)
    ensures multiset(Reversed(s)) == multiset(s)
    decreases |s|
  {
    if s != [] {
      var last := |s| - 1;
      ReversedPermutes(s[..last]);
      assert Reversed(s) == [s[last]] + Reversed(s[..last]);
      assert s == s[..last] + [s[last]];
    }
  }

  /** Reassembling a 52-card deck reverses its first 26 cards and keeps the
      last 26 in place. */
  lemma ReassembleAt<T>(s: seq<T>)
    requires |s| == 52
    ensures |Reassemble(s)| == 52
    ensures forall i :: 0 <= i < 26 ==> Reassemble(s)[i] == s[25 - i]
    ensures forall i :: 26 <= i < 52 ==> Reassemble(s)[i] == s[i]
  {
  }

  /** Reassembling a 52-card deck only rearranges it. */
  lemma ReassemblePermutes<T>(s: seq<T>)
    requires |s| == 52
    ensures multiset(Reassemble(s)) == multiset(s)
  {
    ReversedPermutes(s[..26]);
    assert s == s[..26] + s[26..];
  }

  /** out_faro(18) on 52 cards: packets of 18 and 52 - 18 = 34, woven top
      card first, giving 52 cards. */
  lemma SplitOutFaroOfEighteen<T>(s: seq<T>)
    requires |s| == 52
    ensures PacketSizes(52, 18, 0) == (18, 34)
    ensures OutFaroResult(s, 18, 0) == Weave(s[..18], s[18..])
    ensures |OutFaroResult(s, 18, 0)| == 52
  {
  }

  /** The final cut(9) moves exactly the top nine cards to the bottom, in order. */
  lemma FinalCutMovesNine<T>(s: seq<T>)
    requires |s| == 52
    ensures Cut(s, 9) == s[9..] + s[..9]
    ensures Cut(s, 9)[43..] == s[..9]
  {
  }

  /** The Mnemonica stack, top to bottom; suits in CHaSeD order
      (0 Clubs, 1 Hearts, 2 Spades, 3 Diamonds). */
  function MnemonicaStack(): seq<Card> {
    [Card(4, 0), Card(2, 1), Card(7, 3), Card(3, 0), Card(4, 1), Card(6, 3), Card(1, 2),
     Card(5, 1), Card(9, 2), Card(2, 2), Card(12, 1), Card(3, 3), Card(12, 0)] +
    [Card(8, 1), Card(6, 2), Card(5, 2), Card(9, 1), Card(13, 0), Card(2, 3), Card(11, 1),
     Card(3, 2), Card(8, 2), Card(6, 1), Card(10, 0), Card(5, 3), Card(13, 3)] +
    [Card(2, 0), Card(3, 1), Card(8, 3), Card(5, 0), Card(13, 2), Card(11, 3), Card(8, 0),
     Card(10, 2), Card(13, 1), Card(11, 0), Card(7, 2), Card(10, 1), Card(1, 3)] +
    [Card(4, 2), Card(7, 1), Card(4, 3), Card(1, 0), Card(9, 0), Card(11, 2), Card(12, 3),
     Card(7, 0), Card(12, 2), Card(10, 3), Card(6, 0), Card(1, 1), Card(9, 3)]
  }

  /** The slot of new deck order that card `j` of the recipe's result comes
      from, found by undoing the cut, the split out-faro, the reassembly and
      the four balanced out-faros in turn. */
  function StackOrigin(j: nat): nat
    requires j < 52
  {
    Origin(Out, 52, Origin(Out, 52, Origin(Out, 52, Origin(Out, 52,
      BeforeReassembly(BeforeSplitFaro(BeforeCut(j)))))))
  }

  /** The slot before the final cut(9). */
  function BeforeCut(j: nat): (k: nat)
    requires j < 52
    ensures k < 52
  {
    (j + 9) % 52
  }

  /** The slot before out_faro(18): slots below 36 alternate between the
      18-card packet and the 34-card packet; the rest hold the 34-card
      packet's remainder. */
  function BeforeSplitFaro(k: nat): (p: nat)
    requires k < 52
    ensures p < 52
  {
    if k >= 36 then k else if k % 2 == 0 then k / 2 else 18 + k / 2
  }

  /** The slot before the reassembly. */
  function BeforeReassembly(p: nat): (q: nat)
    requires p < 52
    ensures q < 52
  {
    if p < 26 then 25 - p else p
  }

  /** European new deck order by arithmetic: Spades and Hearts Ace to King,
      then Diamonds and Clubs King to Ace. */
  function EuropeanCardAt(x: nat): Card
    requires x < 52
  {
    var suit := [2, 1, 3, 0][x / 13];
    if x < 26 then Card(x % 13 + 1, suit) else Card(13 - x % 13, suit)
  }

  lemma EuropeanCardAtAgrees(x: nat)
    requires x < 52
    ensures NewDeckOrder(EuropeanOrder)[x] == EuropeanCardAt(x)
  {
    NewDeckOrderEnds();
    SuitOrdinals();
  }

  /** The slot a card at slot `j` came from, `k` balanced out-faros earlier. */
  function OutFarosOrigin(n: nat, k: nat, j: nat): (i: nat)
    requires j < n
    ensures i < n
  {
    if k == 0 then j
    else
      TargetOrigin(Out, n, j);
      OutFarosOrigin(n, k - 1, Origin(Out, n, j))
  }

  /** Four steps back through balanced out-faros. */
  lemma FourOutFarosOrigin(n: nat, j: nat)
    requires j < n
    ensures OutFarosOrigin(n, 4, j) == Origin(Out, n, Origin(Out, n, Origin(Out, n, Origin(Out, n, j))))
  {
    TargetOrigin(Out, n, j);
    var j1 := Origin(Out, n, j);
    TargetOrigin(Out, n, j1);
    var j2 := Origin(Out, n, j1);
    TargetOrigin(Out, n, j2);
    var j3 := Origin(Out, n, j2);
    TargetOrigin(Out, n, j3);
    assert OutFarosOrigin(n, 4, j) == OutFarosOrigin(n, 3, j1) == OutFarosOrigin(n, 2, j2)
      == OutFarosOrigin(n, 1, j3);
  }

  /** After `k` balanced out-faros, slot `j` holds the card that was at
      `OutFarosOrigin(|s|, k, j)`. */
  lemma {:induction false} OutFarosFrom<T>(s: seq<T>, k: nat, j: nat)
    requires j < |s|
    ensures OutFaros(s, k)[j] == s[OutFarosOrigin(|s|, k, j)]
  {
    if k > 0 {
      BalancedWeaveFrom(Out, OutFaros(s, k - 1), j);
      OutFarosFrom(s, k - 1, Origin(Out, |s|, j));
    }
  }

  /** After out_faro(18) and cut(9) of a 52-card deck, slot `j` holds the
      card that was at `BeforeSplitFaro(BeforeCut(j))`. */
  lemma SplitFaroAndCutFrom<T>(r: seq<T>, j: nat)
    requires |r| == 52 && j < 52
    ensures |Cut(OutFaroResult(r, 18, 0), 9)| == 52
    ensures Cut(OutFaroResult(r, 18, 0), 9)[j] == r[BeforeSplitFaro(BeforeCut(j))]
  {
    var w := OutFaroResult(r, 18, 0);
    SplitOutFaroOfEighteen(r);
    CutAt(w, 9, j);
    var k := BeforeCut(j);
    if k >= 36 {
      WeaveSecondAt(r[..18], r[18..], k - 18);
    } else if k % 2 == 0 {
      WeaveFirstAt(r[..18], r[18..], k / 2);
    } else {
      WeaveSecondAt(r[..18], r[18..], k / 2);
    }
  }

  /** Card `j` of the result is card `BeforeReassembly(BeforeSplitFaro(BeforeCut(j)))`
      of the deck after the four balanced out-faros. */
  lemma AfterFarosFrom(j: nat)
    requires j < 52
    ensures |MnemonicaCards()| == 52
    ensures MnemonicaCards()[j] ==
      OutFaros(NewDeckOrder(EuropeanOrder), 4)[BeforeReassembly(BeforeSplitFaro(BeforeCut(j)))]
  {
    var f4 := OutFaros(NewDeckOrder(EuropeanOrder), 4);
    ReassembleAt(f4);
    SplitFaroAndCutFrom(Reassemble(f4), j);
  }

  /** Card `j` of the result is the new-deck-order card `StackOrigin(j)`. */
  lemma MnemonicaFrom(j: nat)
    requires j < 52
    ensures |MnemonicaCards()| == 52
    ensures MnemonicaCards()[j] == EuropeanCardAt(StackOrigin(j))
  {
    NewDeckOrderEnds();
    AfterFarosFrom(j);
    var q := BeforeReassembly(BeforeSplitFaro(BeforeCut(j)));
    OutFarosFrom(NewDeckOrder(EuropeanOrder), 4, q);
    FourOutFarosOrigin(52, q);
    EuropeanCardAtAgrees(StackOrigin(j));
  }

  /* One lemma per slot of the stack: the traced origin of slot j, and the
     European new-deck-order card there, are computed from literals. */
  lemma Slot0()
    ensures EuropeanCardAt(StackOrigin(0)) == MnemonicaStack()[0]
  {
    assert StackOrigin(0) == 48;
  }

  lemma Slot1()
    ensures EuropeanCardAt(StackOrigin(1)) == MnemonicaStack()[1]
  {
    assert StackOrigin(1) == 14;
  }

  lemma Slot2()
    ensures EuropeanCardAt(StackOrigin(2)) == MnemonicaStack()[2]
  {
    assert StackOrigin(2) == 32;
  }

  lemma Slot3()
    ensures EuropeanCardAt(StackOrigin(3)) == MnemonicaStack()[3]
  {
    assert StackOrigin(3) == 49;
  }

  lemma Slot4()
    ensures EuropeanCardAt(StackOrigin(4)) == MnemonicaStack()[4]
  {
    assert StackOrigin(4) == 16;
  }

  lemma Slot5()
    ensures EuropeanCardAt(StackOrigin(5)) == MnemonicaStack()[5]
  {
    assert StackOrigin(5) == 33;
  }

  lemma Slot6()
    ensures EuropeanCardAt(StackOrigin(6)) == MnemonicaStack()[6]
  {
    assert StackOrigin(6) == 0;
  }

  lemma Slot7()
    ensures EuropeanCardAt(StackOrigin(7)) == MnemonicaStack()[7]
  {
    assert StackOrigin(7) == 17;
  }

  lemma Slot8()
    ensures EuropeanCardAt(StackOrigin(8)) == MnemonicaStack()[8]
  {
    assert StackOrigin(8) == 8;
  }

  lemma Slot9()
    ensures EuropeanCardAt(StackOrigin(9)) == MnemonicaStack()[9]
  {
    assert StackOrigin(9) == 1;
  }

  lemma Slot10()
    ensures EuropeanCardAt(StackOrigin(10)) == MnemonicaStack()[10]
  {
    assert StackOrigin(10) == 24;
  }

  lemma Slot11()
    ensures EuropeanCardAt(StackOrigin(11)) == MnemonicaStack()[11]
  {
    assert StackOrigin(11) == 36;
  }

  lemma Slot12()
    ensures EuropeanCardAt(StackOrigin(12)) == MnemonicaStack()[12]
  {
    assert StackOrigin(12) == 40;
  }

  lemma Slot13()
    ensures EuropeanCardAt(StackOrigin(13)) == MnemonicaStack()[13]
  {
    assert StackOrigin(13) == 20;
  }

  lemma Slot14()
    ensures EuropeanCardAt(StackOrigin(14)) == MnemonicaStack()[14]
  {
    assert StackOrigin(14) == 5;
  }

  lemma Slot15()
    ensures EuropeanCardAt(StackOrigin(15)) == MnemonicaStack()[15]
  {
    assert StackOrigin(15) == 4;
  }

  lemma Slot16()
    ensures EuropeanCardAt(StackOrigin(16)) == MnemonicaStack()[16]
  {
    assert StackOrigin(16) == 21;
  }

  lemma Slot17()
    ensures EuropeanCardAt(StackOrigin(17)) == MnemonicaStack()[17]
  {
    assert StackOrigin(17) == 39;
  }

  lemma Slot18()
    ensures EuropeanCardAt(StackOrigin(18)) == MnemonicaStack()[18]
  {
    assert StackOrigin(18) == 37;
  }

  lemma Slot19()
    ensures EuropeanCardAt(StackOrigin(19)) == MnemonicaStack()[19]
  {
    assert StackOrigin(19) == 23;
  }

  lemma Slot20()
    ensures EuropeanCardAt(StackOrigin(20)) == MnemonicaStack()[20]
  {
    assert StackOrigin(20) == 2;
  }

  lemma Slot21()
    ensures EuropeanCardAt(StackOrigin(21)) == MnemonicaStack()[21]
  {
    assert StackOrigin(21) == 7;
  }

  lemma Slot22()
    ensures EuropeanCardAt(StackOrigin(22)) == MnemonicaStack()[22]
  {
    assert StackOrigin(22) == 18;
  }

  lemma Slot23()
    ensures EuropeanCardAt(StackOrigin(23)) == MnemonicaStack()[23]
  {
    assert StackOrigin(23) == 42;
  }

  lemma Slot24()
    ensures EuropeanCardAt(StackOrigin(24)) == MnemonicaStack()[24]
  {
    assert StackOrigin(24) == 34;
  }

  lemma Slot25()
    ensures EuropeanCardAt(StackOrigin(25)) == MnemonicaStack()[25]
  {
    assert StackOrigin(25) == 26;
  }

  lemma Slot26()
    ensures EuropeanCardAt(StackOrigin(26)) == MnemonicaStack()[26]
  {
    assert StackOrigin(26) == 50;
  }

  lemma Slot27()
    ensures EuropeanCardAt(StackOrigin(27)) == MnemonicaStack()[27]
  {
    assert StackOrigin(27) == 15;
  }

  lemma Slot28()
    ensures EuropeanCardAt(StackOrigin(28)) == MnemonicaStack()[28]
  {
    assert StackOrigin(28) == 31;
  }

  lemma Slot29()
    ensures EuropeanCardAt(StackOrigin(29)) == MnemonicaStack()[29]
  {
    assert StackOrigin(29) == 47;
  }

  lemma Slot30()
    ensures EuropeanCardAt(StackOrigin(30)) == MnemonicaStack()[30]
  {
    assert StackOrigin(30) == 12;
  }

  lemma Slot31()
    ensures EuropeanCardAt(StackOrigin(31)) == MnemonicaStack()[31]
  {
    assert StackOrigin(31) == 28;
  }

  lemma Slot32()
    ensures EuropeanCardAt(StackOrigin(32)) == MnemonicaStack()[32]
  {
    assert StackOrigin(32) == 44;
  }

  lemma Slot33()
    ensures EuropeanCardAt(StackOrigin(33)) == MnemonicaStack()[33]
  {
    assert StackOrigin(33) == 9;
  }

  lemma Slot34()
    ensures EuropeanCardAt(StackOrigin(34)) == MnemonicaStack()[34]
  {
    assert StackOrigin(34) == 25;
  }

  lemma Slot35()
    ensures EuropeanCardAt(StackOrigin(35)) == MnemonicaStack()[35]
  {
    assert StackOrigin(35) == 41;
  }

  lemma Slot36()
    ensures EuropeanCardAt(StackOrigin(36)) == MnemonicaStack()[36]
  {
    assert StackOrigin(36) == 6;
  }

  lemma Slot37()
    ensures EuropeanCardAt(StackOrigin(37)) == MnemonicaStack()[37]
  {
    assert StackOrigin(37) == 22;
  }

  lemma Slot38()
    ensures EuropeanCardAt(StackOrigin(38)) == MnemonicaStack()[38]
  {
    assert StackOrigin(38) == 38;
  }

  lemma Slot39()
    ensures EuropeanCardAt(StackOrigin(39)) == MnemonicaStack()[39]
  {
    assert StackOrigin(39) == 3;
  }

  lemma Slot40()
    ensures EuropeanCardAt(StackOrigin(40)) == MnemonicaStack()[40]
  {
    assert StackOrigin(40) == 19;
  }

  lemma Slot41()
    ensures EuropeanCardAt(StackOrigin(41)) == MnemonicaStack()[41]
  {
    assert StackOrigin(41) == 35;
  }

  lemma Slot42()
    ensures EuropeanCardAt(StackOrigin(42)) == MnemonicaStack()[42]
  {
    assert StackOrigin(42) == 51;
  }

  lemma Slot43()
    ensures EuropeanCardAt(StackOrigin(43)) == MnemonicaStack()[43]
  {
    assert StackOrigin(43) == 43;
  }

  lemma Slot44()
    ensures EuropeanCardAt(StackOrigin(44)) == MnemonicaStack()[44]
  {
    assert StackOrigin(44) == 10;
  }

  lemma Slot45()
    ensures EuropeanCardAt(StackOrigin(45)) == MnemonicaStack()[45]
  {
    assert StackOrigin(45) == 27;
  }

  lemma Slot46()
    ensures EuropeanCardAt(StackOrigin(46)) == MnemonicaStack()[46]
  {
    assert StackOrigin(46) == 45;
  }

  lemma Slot47()
    ensures EuropeanCardAt(StackOrigin(47)) == MnemonicaStack()[47]
  {
    assert StackOrigin(47) == 11;
  }

  lemma Slot48()
    ensures EuropeanCardAt(StackOrigin(48)) == MnemonicaStack()[48]
  {
    assert StackOrigin(48) == 29;
  }

  lemma Slot49()
    ensures EuropeanCardAt(StackOrigin(49)) == MnemonicaStack()[49]
  {
    assert StackOrigin(49) == 46;
  }

  lemma Slot50()
    ensures EuropeanCardAt(StackOrigin(50)) == MnemonicaStack()[50]
  {
    assert StackOrigin(50) == 13;
  }

  lemma Slot51()
    ensures EuropeanCardAt(StackOrigin(51)) == MnemonicaStack()[51]
  {
    assert StackOrigin(51) == 30;
  }

  /** Each traced card matches the stack, checked slot by slot. */
  lemma StackAgreesAt(j: nat)
    requires j < 52
    ensures EuropeanCardAt(StackOrigin(j)) == MnemonicaStack()[j]
  {
    if j == 0 { Slot0(); }
    else if j == 1 { Slot1(); }
    else if j == 2 { Slot2(); }
    else if j == 3 { Slot3(); }
    else if j == 4 { Slot4(); }
    else if j == 5 { Slot5(); }
    else if j == 6 { Slot6(); }
    else if j == 7 { Slot7(); }
    else if j == 8 { Slot8(); }
    else if j == 9 { Slot9(); }
    else if j == 10 { Slot10(); }
    else if j == 11 { Slot11(); }
    else if j == 12 { Slot12(); }
    else if j == 13 { Slot13(); }
    else if j == 14 { Slot14(); }
    else if j == 15 { Slot15(); }
    else if j == 16 { Slot16(); }
    else if j == 17 { Slot17(); }
    else if j == 18 { Slot18(); }
    else if j == 19 { Slot19(); }
    else if j == 20 { Slot20(); }
    else if j == 21 { Slot21(); }
    else if j == 22 { Slot22(); }
    else if j == 23 { Slot23(); }
    else if j == 24 { Slot24(); }
    else if j == 25 { Slot25(); }
    else if j == 26 { Slot26(); }
    else if j == 27 { Slot27(); }
    else if j == 28 { Slot28(); }
    else if j == 29 { Slot29(); }
    else if j == 30 { Slot30(); }
    else if j == 31 { Slot31(); }
    else if j == 32 { Slot32(); }
    else if j == 33 { Slot33(); }
    else if j == 34 { Slot34(); }
    else if j == 35 { Slot35(); }
    else if j == 36 { Slot36(); }
    else if j == 37 { Slot37(); }
    else if j == 38 { Slot38(); }
    else if j == 39 { Slot39(); }
    else if j == 40 { Slot40(); }
    else if j == 41 { Slot41(); }
    else if j == 42 { Slot42(); }
    else if j == 43 { Slot43(); }
    else if j == 44 { Slot44(); }
    else if j == 45 { Slot45(); }
    else if j == 46 { Slot46(); }
    else if j == 47 { Slot47(); }
    else if j == 48 { Slot48(); }
    else if j == 49 { Slot49(); }
    else if j == 50 { Slot50(); }
    else { Slot51(); }
  }

  /** The recipe builds exactly the Mnemonica stack. */
  lemma RecipeBuildsMnemonica()
    ensures MnemonicaCards() == MnemonicaStack()
  {
    forall j | 0 <= j < 52 ensures MnemonicaCards()[j] == MnemonicaStack()[j] {
      MnemonicaFrom(j);
      StackAgreesAt(j);
    }
    MnemonicaFrom(0);
  }

  /** The recipe draws no randomness: two runs build equal decks. */
  method MnemonicaIsDeterministic() returns (equal: bool)
    ensures equal
  {
    var first := MakeMnemonicaDeck();
    var second := MakeMnemonicaDeck();
    equal := first.Equals(second);
  }
}
