/** The sequence algebra behind a deck's permutations: Python slicing, the cut,
    the card-by-card weave of two packets, and where a balanced faro sends each
    card. Everything here is a function of the card list alone. */
module DeckOps {
  import opened Wrappers

  // ---------------------------------------------------------------------------
  // Python slices
  // ---------------------------------------------------------------------------

  /** The position a Python slice bound `k` denotes in a list of length `n`:
      a negative bound counts from the end, and bounds past either end are
      clamped to it. */
  function SliceBound(k: int, n: nat): (r: nat)
    ensures r <= n
  {
    if k < 0 then (if n + k < 0 then 0 else n + k) else if k > n then n else k
  }

  /** `s[:k]` */
  function Prefix<T>(s: seq<T>, k: int): seq<T> {
    s[..SliceBound(k, |s|)]
  }

  /** `s[k:]` */
  function Suffix<T>(s: seq<T>, k: int): seq<T> {
    s[SliceBound(k, |s|)..]
  }

  /** `s[a:b]` */
  function Slice<T>(s: seq<T>, a: int, b: int): seq<T> {
    var i, j := SliceBound(a, |s|), SliceBound(b, |s|);
    if i <= j then s[i..j] else []
  }

  // ---------------------------------------------------------------------------
  // The cut
  // ---------------------------------------------------------------------------

  /** `s[k:] + s[:k]`: the top `k` cards go to the bottom. */
  function Cut<T>(s: seq<T>, k: int): (r: seq<T>)
    ensures |r| == |s|
  {
    Suffix(s, k) + Prefix(s, k)
  }

  /** A cut only rearranges the cards. */
  lemma CutPermutes<T>(s: seq<T>, k: int)
    ensures multiset(Cut(s, k)) == multiset(s)
  {
    var i := SliceBound(k, |s|);
    assert s == s[..i] + s[i..];
  }

  /** For an amount within the deck, a cut is the rotation by that amount. */
  lemma CutAt<T>(s: seq<T>, k: int, j: int)
    requires 0 <= k <= |s| && 0 <= j < |s|
    ensures Cut(s, k)[j] == s[(j + k) % |s|]
  {
    var c := Cut(s, k);
    assert c == s[k..] + s[..k];
    if j + k < |s| {
      ModBelow(j + k, |s|);
      assert c[j] == s[k..][j];
    } else {
      ModOnce(j + k, |s|);
      assert c[j] == s[..k][j - (|s| - k)];
    }
  }

  /** Cutting `k` and then `|s| - k` restores the original order. */
  lemma CutThenCutBack<T>(s: seq<T>, k: int)
    requires 0 <= k <= |s|
    ensures Cut(Cut(s, k), |s| - k) == s
  {
    var c := Cut(s, k);
    assert c == s[k..] + s[..k];
    assert c[..|s| - k] == s[k..];
    assert c[|s| - k..] == s[..k];
  }

  /** Amounts outside the deck follow Python's slices: cutting at or past
      either end changes nothing, and a negative amount counts from the bottom. */
  lemma CutOutsideDeck<T>(s: seq<T>, k: int)
    ensures (k >= |s| || k <= -|s|) ==> Cut(s, k) == s
    ensures -|s| < k < 0 ==> Cut(s, k) == Cut(s, |s| + k)
  {
  }

  // ---------------------------------------------------------------------------
  // The weave of two packets
  // ---------------------------------------------------------------------------

  /** Interleaves two packets one card at a time, `first` leading; once one
      packet is exhausted the rest of the other follows. */
  function Weave<T>(first: seq<T>, second: seq<T>): (r: seq<T>)
    ensures |r| == |first| + |second|
    decreases |first| + |second|
  {
    if first == [] then second
    else if second == [] then first
    else [first[0], second[0]] + Weave(first[1..], second[1..])
  }

  /** Where card `i` of the leading packet lands: at `2i` while the other
      packet lasts, and after its end once it is exhausted. */
  lemma {:induction false} WeaveFirstAt<T>(first: seq<T>, second: seq<T>, i: nat)
    requires i < |first|
    ensures Weave(first, second)[if i < |second| then 2 * i else |second| + i] == first[i]
    decreases i
  {
    if second == [] {
    } else if i > 0 {
      WeaveFirstAt(first[1..], second[1..], i - 1);
    }
  }

  /** Where card `i` of the following packet lands: at `2i + 1` while the
      leading packet lasts, and after its end once it is exhausted. */
  lemma {:induction false} WeaveSecondAt<T>(first: seq<T>, second: seq<T>, i: nat)
    requires i < |second|
    ensures Weave(first, second)[if i < |first| then 2 * i + 1 else |first| + i] == second[i]
    decreases i
  {
    if first == [] {
    } else if i > 0 {
      WeaveSecondAt(first[1..], second[1..], i - 1);
    }
  }

  /** The weave holds exactly the cards of both packets. */
  lemma {:induction false} WeaveMultiset<T>(first: seq<T>, second: seq<T>)
    ensures multiset(Weave(first, second)) == multiset(first) + multiset(second)
    decreases |first| + |second|
  {
    if first != [] && second != [] {
      WeaveMultiset(first[1..], second[1..]);
      assert first == [first[0]] + first[1..];
      assert second == [second[0]] + second[1..];
    }
  }

  /** The packet from round `i` on (empty once the packet is used up). */
  function From<T>(s: seq<T>, i: nat): seq<T> {
    if i <= |s| then s[i..] else []
  }

  /** Round `i` of the weave: the leading packet's card `i`, if any, then the
      following packet's card `i`, if any. */
  function Round<T>(first: seq<T>, second: seq<T>, i: nat): seq<T> {
    (if i < |first| then [first[i]] else []) + (if i < |second| then [second[i]] else [])
  }

  /** The weave from round `i` on is round `i` followed by the weave from
      round `i + 1` on. */
  lemma WeaveRound<T>(first: seq<T>, second: seq<T>, i: nat)
    ensures Weave(From(first, i), From(second, i))
         == Round(first, second, i) + Weave(From(first, i + 1), From(second, i + 1))
  {
    var f, g := From(first, i), From(second, i);
    if f != [] && g != [] {
      assert f[1..] == From(first, i + 1);
      assert g[1..] == From(second, i + 1);
    } else if f != [] {
      assert f == [first[i]] + From(first, i + 1);
    } else if g != [] {
      assert g == [second[i]] + From(second, i + 1);
    }
  }

  // ---------------------------------------------------------------------------
  // Explicit-split faros
  // ---------------------------------------------------------------------------

  /** The packet sizes of an explicit-split faro on `n` cards: a size given
      as nonzero is kept, and when one is left at 0 it is the rest of the deck. */
  function PacketSizes(n: nat, top: int, bottom: int): (r: (int, int))
    requires top != 0 || bottom != 0
    ensures top != 0 ==> r.0 == top
    ensures bottom != 0 ==> r.1 == bottom
    ensures top == 0 || bottom == 0 ==> r.0 + r.1 == n
  {
    if bottom == 0 then (top, n - top)
    else if top == 0 then (n - bottom, bottom)
    else (top, bottom)
  }

  /** The top packet `s[:t]`. */
  function TopPacket<T>(s: seq<T>, t: int): seq<T> {
    Prefix(s, t)
  }

  /** The bottom packet of `b` cards as the source slices it, `s[-b:]`. */
  function BottomPacketAsWritten<T>(s: seq<T>, b: int): (r: seq<T>)
    ensures 0 < b <= |s| ==> r == s[|s| - b..]
    ensures b == 0 || b >= |s| ==> r == s
  {
    Suffix(s, -b)
  }

  /** The bottom packet of `b` cards, empty when `b == 0`. */
  function BottomPacket<T>(s: seq<T>, b: int): (r: seq<T>)
    ensures 0 <= b <= |s| ==> r == s[|s| - b..]
    ensures b != 0 ==> r == BottomPacketAsWritten(s, b)
  {
    if b == 0 then [] else Suffix(s, -b)
  }

  /** A bottom packet left at 0 makes the as-written slice take the whole deck,
      so an out-faro with all `n` cards on top deals `2n` cards; with the empty
      bottom packet the same call leaves the deck as it was. */
  lemma ZeroBottomPacketDoublesDeck<T>(s: seq<T>)
    requires |s| > 0
    ensures PacketSizes(|s|, |s|, 0) == (|s|, 0)
    ensures BottomPacketAsWritten(s, 0) == s
    ensures |Weave(TopPacket(s, |s|), BottomPacketAsWritten(s, 0))| == 2 * |s|
    ensures Weave(TopPacket(s, |s|), BottomPacket(s, 0)) == s
  {
  }

  // ---------------------------------------------------------------------------
  // Balanced faros
  // ---------------------------------------------------------------------------

  datatype Faro = Out | In

  /** The size of the top packet of a balanced faro: half the deck, and on an
      odd deck the smaller half, so that the larger bottom packet supplies
      the bottom card. */
  function Half(n: nat): (h: nat)
    ensures h <= n - h <= h + 1
  {
    n / 2
  }

  /** The balanced faro: the deck is split at `Half` and woven top card first
      (out-faro) or bottom card first (in-faro). */
  function BalancedWeave<T>(kind: Faro, s: seq<T>): (r: seq<T>)
    ensures |r| == |s|
  {
    var h := Half(|s|);
    if kind == Out then Weave(s[..h], s[h..]) else Weave(s[h..], s[..h])
  }

  /** Where the balanced faro sends card `i` of `n`: the top packet to the
      even (out) or odd (in) slots in order, the bottom packet to the others;
      on an odd deck the bottom packet's last card takes the last slot. */
  function Target(kind: Faro, n: nat, i: nat): nat
    requires i < n
  {
    var h := Half(n);
    if kind == Out then (if i < h then 2 * i else if i < 2 * h then 2 * (i - h) + 1 else i)
    else (if i < h then 2 * i + 1 else 2 * (i - h))
  }

  /** Which card the balanced faro puts in slot `j` of `n`. */
  function Origin(kind: Faro, n: nat, j: nat): nat
    requires j < n
  {
    var h := Half(n);
    if kind == Out then (if j % 2 == 1 then h + j / 2 else if j < 2 * h then j / 2 else j)
    else (if j % 2 == 1 then j / 2 else h + j / 2)
  }

  /** Target and Origin are inverse bijections of the slots `0..n-1`. */
  lemma TargetOrigin(kind: Faro, n: nat, j: nat)
    requires j < n
    ensures Origin(kind, n, j) < n && Target(kind, n, Origin(kind, n, j)) == j
  {
  }

  lemma OriginTarget(kind: Faro, n: nat, i: nat)
    requires i < n
    ensures Target(kind, n, i) < n && Origin(kind, n, Target(kind, n, i)) == i
  {
  }

  /** The balanced faro puts card `i` in slot `Target(i)`. */
  lemma BalancedWeaveAt<T>(kind: Faro, s: seq<T>, i: nat)
    requires i < |s|
    ensures Target(kind, |s|, i) < |s| && BalancedWeave(kind, s)[Target(kind, |s|, i)] == s[i]
  {
    var n, h := |s|, Half(|s|);
    OriginTarget(kind, n, i);
    if kind == Out {
      if i < h {
        WeaveFirstAt(s[..h], s[h..], i);
      } else {
        WeaveSecondAt(s[..h], s[h..], i - h);
      }
    } else {
      if i < h {
        WeaveSecondAt(s[h..], s[..h], i);
      } else {
        WeaveFirstAt(s[h..], s[..h], i - h);
      }
    }
  }

  /** Slot `j` of the balanced faro holds card `Origin(j)`. */
  lemma BalancedWeaveFrom<T>(kind: Faro, s: seq<T>, j: nat)
    requires j < |s|
    ensures Origin(kind, |s|, j) < |s| && BalancedWeave(kind, s)[j] == s[Origin(kind, |s|, j)]
  {
    TargetOrigin(kind, |s|, j);
    BalancedWeaveAt(kind, s, Origin(kind, |s|, j));
  }

  /** A balanced faro only rearranges the cards. */
  lemma BalancedPermutes<T>(kind: Faro, s: seq<T>)
    ensures multiset(BalancedWeave(kind, s)) == multiset(s)
  {
    var h := Half(|s|);
    assert s == s[..h] + s[h..];
    if kind == Out {
      WeaveMultiset(s[..h], s[h..]);
    } else {
      WeaveMultiset(s[h..], s[..h]);
    }
  }

  /** The out-faro keeps the top card on top and the bottom card at the
      bottom, on a deck of any length. */
  lemma OutFaroKeepsEnds<T>(s: seq<T>)
    requires |s| > 0
    ensures BalancedWeave(Out, s)[0] == s[0]
    ensures BalancedWeave(Out, s)[|s| - 1] == s[|s| - 1]
  {
    BalancedWeaveAt(Out, s, 0);
    BalancedWeaveAt(Out, s, |s| - 1);
  }

  /** The in-faro moves the top card to slot 1, and on an even deck the bottom
      card to slot `n - 2`. */
  lemma InFaroMovesEndsInward<T>(s: seq<T>)
    requires |s| >= 2
    ensures BalancedWeave(In, s)[1] == s[0]
    ensures |s| % 2 == 0 ==> BalancedWeave(In, s)[|s| - 2] == s[|s| - 1]
  {
    BalancedWeaveAt(In, s, 0);
    BalancedWeaveAt(In, s, |s| - 1);
  }

  // ---------------------------------------------------------------------------
  // The balanced faro's index formula as the source writes it
  // ---------------------------------------------------------------------------

  /** The slot the source's balanced loop writes card `i` of `n` to:
      `2i`, or `(2i + 1) mod n` once `2i` reaches `n` (out-faro);
      `2i + 1`, or `2i mod n` once `2i + 1` reaches `n` (in-faro). */
  function AsWrittenTarget(kind: Faro, n: nat, i: nat): (p: nat)
    requires i < n
    ensures p < n
  {
    if kind == Out then
      (if 2 * i >= n then (2 * i + 1) % n else 2 * i)
    else
      (if 2 * i + 1 >= n then (2 * i + 1 - 1) % n else 2 * i + 1)
  }

  /** The last of the first `k` cards that the source's loop writes to slot
      `j`, or None when none of them goes there. */
  function LastWriter(kind: Faro, n: nat, j: nat, k: nat): (r: Option<nat>)
    requires k <= n
    ensures r.Some? ==> r.value < k && AsWrittenTarget(kind, n, r.value) == j
    ensures r.Some? ==> forall i :: r.value < i < k ==> AsWrittenTarget(kind, n, i) != j
    ensures r.None? <==> forall i :: 0 <= i < k ==> AsWrittenTarget(kind, n, i) != j
  {
    if k == 0 then None
    else if AsWrittenTarget(kind, n, k - 1) == j then Some(k - 1)
    else LastWriter(kind, n, j, k - 1)
  }

  /** Slot `j` after the loop has written the first `k` cards: the card last
      written there, or the initial None. */
  function SlotAfter<T>(kind: Faro, s: seq<T>, j: nat, k: nat): Option<T>
    requires k <= |s|
  {
    match LastWriter(kind, |s|, j, k)
    case None => None
    case Some(i) => Some(s[i])
  }

  /** The list the source's balanced faro builds. */
  function BalancedAsWritten<T>(kind: Faro, s: seq<T>): (r: seq<Option<T>>)
    ensures |r| == |s|
  {
    seq(|s|, j requires 0 <= j < |s| => SlotAfter(kind, s, j, |s|))
  }

  /** One subtraction reduces a number below twice the modulus. */
  lemma ModOnce(x: int, n: int)
    requires 0 < n <= x < 2 * n
    ensures x % n == x - n
  {
  }

  /** A number below the modulus is its own remainder. */
  lemma ModBelow(x: int, n: int)
    requires 0 <= x < n
    ensures x % n == x
  {
  }

  /** On an even deck the source's formula is the balanced faro's. */
  lemma TargetsAgreeWhenEven(kind: Faro, n: nat, i: nat)
    requires n % 2 == 0 && i < n
    ensures AsWrittenTarget(kind, n, i) == Target(kind, n, i)
  {
    if kind == Out && 2 * i >= n {
      ModOnce(2 * i + 1, n);
    } else if kind == In && 2 * i + 1 >= n {
      ModOnce(2 * i, n);
    }
  }

  /** On an even deck the source's balanced faro fills every slot and agrees
      with the balanced weave. */
  lemma AsWrittenAgreesWhenEven<T>(kind: Faro, s: seq<T>)
    requires |s| % 2 == 0
    ensures forall j :: 0 <= j < |s| ==> BalancedAsWritten(kind, s)[j] == Some(BalancedWeave(kind, s)[j])
  {
    var n := |s|;
    forall j | 0 <= j < n
      ensures BalancedAsWritten(kind, s)[j] == Some(BalancedWeave(kind, s)[j])
    {
      var i := Origin(kind, n, j);
      TargetOrigin(kind, n, j);
      TargetsAgreeWhenEven(kind, n, i);
      var w := LastWriter(kind, n, j, n);
      assert w.Some?;
      TargetsAgreeWhenEven(kind, n, w.value);
      OriginTarget(kind, n, w.value);
      BalancedWeaveFrom(kind, s, j);
    }
  }

  /** On an odd deck the source's out-faro formula only yields even slots. */
  lemma OddOutTargetEven(n: nat, i: nat)
    requires n % 2 == 1 && i < n
    ensures AsWrittenTarget(Out, n, i) % 2 == 0
  {
    if 2 * i >= n {
      ModOnce(2 * i + 1, n);
      assert AsWrittenTarget(Out, n, i) == 2 * i + 1 - n;
    }
  }

  /** On an odd deck the source's out-faro sends every card to an even slot,
      so each of the (n - 1) / 2 odd slots keeps its None and as many cards
      are overwritten. */
  lemma OddOutFaroLeavesHoles<T>(s: seq<T>)
    requires |s| >= 3 && |s| % 2 == 1
    ensures forall j :: 0 <= j < |s| && j % 2 == 1 ==> BalancedAsWritten(Out, s)[j] == None
  {
    var n := |s|;
    forall i | 0 <= i < n
      ensures AsWrittenTarget(Out, n, i) % 2 == 0
    {
      OddOutTargetEven(n, i);
    }
    forall j | 0 <= j < n && j % 2 == 1
      ensures LastWriter(Out, n, j, n).None?
    {
      assert forall i :: 0 <= i < n ==> AsWrittenTarget(Out, n, i) != j;
    }
  }

  /** On an odd deck the source's in-faro sends every card to an odd slot or
      to the last slot, so each of the (n - 1) / 2 even slots above keeps its
      None. */
  lemma OddInFaroLeavesHoles<T>(s: seq<T>)
    requires |s| >= 3 && |s| % 2 == 1
    ensures forall j :: 0 <= j < |s| - 1 && j % 2 == 0 ==> BalancedAsWritten(In, s)[j] == None
  {
    var n := |s|;
    forall i | 0 <= i < n
      ensures AsWrittenTarget(In, n, i) % 2 == 1 || AsWrittenTarget(In, n, i) == n - 1
    {
      if 2 * i + 1 > n {
        ModOnce(2 * i, n);
      } else if 2 * i + 1 == n {
        ModBelow(2 * i, n);
      }
    }
    forall j | 0 <= j < n - 1 && j % 2 == 0
      ensures LastWriter(In, n, j, n).None?
    {
      assert forall i :: 0 <= i < n ==> AsWrittenTarget(In, n, i) != j;
    }
  }

  /** The source's out-faro keeps the top and bottom cards on a deck of any
      length: only card 0 is written to slot 0, and the last card is the last
      one written to the last slot. */
  lemma AsWrittenOutFaroKeepsEnds<T>(s: seq<T>)
    requires |s| > 0
    ensures BalancedAsWritten(Out, s)[0] == Some(s[0])
    ensures BalancedAsWritten(Out, s)[|s| - 1] == Some(s[|s| - 1])
  {
    var n := |s|;
    forall i | 0 < i < n
      ensures AsWrittenTarget(Out, n, i) != 0
    {
      if 2 * i >= n {
        ModOnce(2 * i + 1, n);
      }
    }
    assert AsWrittenTarget(Out, n, 0) == 0;
    var w := LastWriter(Out, n, 0, n);
    assert w.Some? && w.value == 0;
    if n >= 2 {
      ModOnce(2 * (n - 1) + 1, n);
    }
    assert AsWrittenTarget(Out, n, n - 1) == n - 1;
  }

  /** The source's in-faro moves the bottom card to slot `n - 2` on a deck of
      any length: the last card is the last one written, and it goes there. */
  lemma AsWrittenInFaroMovesBottomInward<T>(s: seq<T>)
    requires |s| >= 2
    ensures BalancedAsWritten(In, s)[|s| - 2] == Some(s[|s| - 1])
  {
    var n := |s|;
    ModOnce(2 * (n - 1), n);
    assert AsWrittenTarget(In, n, n - 1) == n - 2;
  }

  /** Three cards: the source's out-faro gives [a, None, c] and its in-faro
      [None, c, b]; the balanced weave gives [a, b, c] and [b, a, c]. */
  lemma ThreeCardFaros<T>(a: T, b: T, c: T)
    ensures BalancedAsWritten(Out, [a, b, c]) == [Some(a), None, Some(c)]
    ensures BalancedAsWritten(In, [a, b, c]) == [None, Some(c), Some(b)]
    ensures BalancedWeave(Out, [a, b, c]) == [a, b, c]
    ensures BalancedWeave(In, [a, b, c]) == [b, a, c]
  {
    var s := [a, b, c];
    assert AsWrittenTarget(Out, 3, 2) == 2 && AsWrittenTarget(In, 3, 1) == 2 && AsWrittenTarget(In, 3, 2) == 1;
    assert s[..1] == [a] && s[1..] == [b, c];
    assert Weave([a], [b, c]) == [a, b] + Weave([], [c]) == [a, b, c];
    assert Weave([b, c], [a]) == [b, a] + Weave([c], []) == [b, a, c];
  }

  // ---------------------------------------------------------------------------
  // The faro operations of a deck
  // ---------------------------------------------------------------------------

  /** Deck.out_faro(top, bottom): balanced when both are 0, otherwise the
      top packet woven with the bottom packet, top card first. */
  function OutFaroResult<T>(s: seq<T>, top: int, bottom: int): (r: seq<T>)
    ensures top == 0 && bottom == 0 ==> |r| == |s| && multiset(r) == multiset(s)
    ensures top != 0 || bottom != 0 ==>
      |r| == |TopPacket(s, PacketSizes(|s|, top, bottom).0)| + |BottomPacket(s, PacketSizes(|s|, top, bottom).1)|
  {
    if bottom == 0 && top == 0 then
      BalancedPermutes(Out, s);
      BalancedWeave(Out, s)
    else
      var sizes := PacketSizes(|s|, top, bottom);
      Weave(TopPacket(s, sizes.0), BottomPacket(s, sizes.1))
  }

  /** Deck.in_faro(top, bottom): as the out-faro, bottom card first. */
  function InFaroResult<T>(s: seq<T>, top: int, bottom: int): (r: seq<T>)
    ensures top == 0 && bottom == 0 ==> |r| == |s| && multiset(r) == multiset(s)
    ensures top != 0 || bottom != 0 ==>
      |r| == |TopPacket(s, PacketSizes(|s|, top, bottom).0)| + |BottomPacket(s, PacketSizes(|s|, top, bottom).1)|
  {
    if bottom == 0 && top == 0 then
      BalancedPermutes(In, s);
      BalancedWeave(In, s)
    else
      var sizes := PacketSizes(|s|, top, bottom);
      Weave(BottomPacket(s, sizes.1), TopPacket(s, sizes.0))
  }

  /** With one packet size given within the deck and the other left at 0,
      the two packets split the deck and the faro only rearranges it. */
  lemma SplitFaroPermutes<T>(s: seq<T>, top: int, bottom: int)
    requires (bottom == 0 && 0 < top <= |s|) || (top == 0 && 0 < bottom <= |s|)
    ensures multiset(OutFaroResult(s, top, bottom)) == multiset(s)
    ensures multiset(InFaroResult(s, top, bottom)) == multiset(s)
    ensures |OutFaroResult(s, top, bottom)| == |InFaroResult(s, top, bottom)| == |s|
  {
    var sizes := PacketSizes(|s|, top, bottom);
    var t := sizes.0;
    assert 0 <= t <= |s|;
    assert TopPacket(s, t) == s[..t];
    assert BottomPacket(s, sizes.1) == s[t..];
    assert s == s[..t] + s[t..];
    WeaveMultiset(s[..t], s[t..]);
    WeaveMultiset(s[t..], s[..t]);
  }

  /** The balanced faro is the explicit-split faro whose top packet is the
      formula's top half. */
  lemma BalancedIsSplitAtHalf<T>(s: seq<T>)
    ensures |s| >= 2 ==> OutFaroResult(s, 0, 0) == OutFaroResult(s, Half(|s|), 0)
    ensures |s| >= 2 ==> InFaroResult(s, 0, 0) == InFaroResult(s, Half(|s|), 0)
  {
    var n := |s|;
    if n >= 2 {
      var h := Half(n);
      assert BottomPacket(s, n - h) == s[h..];
    }
  }
}
