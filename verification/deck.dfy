/**
 * `Deck`: an ordered list of cards whose top is index 0. Cards are drawn from
 * the top and added at the bottom; shuffling is the Fisher-Yates loop of the
 * `Shuffling` module.
 */
module Decks {
  import opened Lang
  import opened Cards
  import opened Shuffling

  /** `cards[0]` is the top of the deck, `cards[|cards| - 1]` the bottom. */
  datatype Deck = Deck(cards: seq<Card>)

  /** Suit order of the unshuffled deck. */
  const SuitNames: seq<string> := ["Hearts", "Clubs", "Diamonds", "Spades"]

  /** Rank order within a suit; a rank's value is its index plus `CardValueOffset`. */
  const RankNames: seq<string> := ["Ace", "2", "3", "4", "5", "6", "7", "8", "9", "10", "Jack", "Queen", "King"]

  const CardValueOffset: int := 1

  /** The number of ranks, and so of cards per suit. */
  const RanksPerSuit: nat := 13

  lemma RanksPerSuitCountsRanks()
    ensures |RankNames| == RanksPerSuit
  {
  }

  // ---------------------------------------------------------------------
  // Constructors
  // ---------------------------------------------------------------------

  /** The inner loop of `Deck()`: ranks `i..12` of one suit. */
  function SuitRun(suit: string, i: nat): (r: seq<Card>)
    requires i <= |RankNames|
    ensures |r| == |RankNames| - i
    ensures forall k :: 0 <= k < |r| ==> r[k] == Card(RankNames[i + k], suit, (i + k + CardValueOffset) as int32)
    decreases |RankNames| - i
  {
    if i == |RankNames| then []
    else [Card(RankNames[i], suit, (i + CardValueOffset) as int32)] + SuitRun(suit, i + 1)
  }

  /** The outer loop of `Deck()`: suits `s..3`, thirteen cards each. */
  function SuitsFrom(s: nat): (r: seq<Card>)
    requires s <= |SuitNames|
    ensures |r| == RanksPerSuit * (|SuitNames| - s)
    decreases |SuitNames| - s
  {
    if s == |SuitNames| then [] else SuitRun(SuitNames[s], 0) + SuitsFrom(s + 1)
  }

  lemma {:induction false} SuitsFromIndex(from: nat, s: nat, n: nat)
    requires from <= s < |SuitNames| && n < |RankNames|
    ensures SuitsFrom(from)[RanksPerSuit * (s - from) + n] == Card(RankNames[n], SuitNames[s], (n + CardValueOffset) as int32)
    decreases s - from
  {
    if s == from {
      SuitsFromHead(from, n);
    } else {
      var later := s - (from + 1);
      assert RanksPerSuit * (s - from) == RanksPerSuit + RanksPerSuit * later;
      assert RanksPerSuit * later + n < RanksPerSuit * (|SuitNames| - (from + 1)) by {
        assert later + 1 <= |SuitNames| - (from + 1);
        assert RanksPerSuit * (later + 1) <= RanksPerSuit * (|SuitNames| - (from + 1));
      }
      SuitsFromIndex(from + 1, s, n);
      SuitsFromTail(from, RanksPerSuit * later + n);
    }
  }

  /** The first thirteen cards from suit `from` on are that suit's run. */
  lemma SuitsFromHead(from: nat, n: nat)
    requires from < |SuitNames| && n < |RankNames|
    ensures SuitsFrom(from)[n] == Card(RankNames[n], SuitNames[from], (n + CardValueOffset) as int32)
  {
    var head := SuitRun(SuitNames[from], 0);
    assert SuitsFrom(from)[n] == head[n];
  }

  /** Past the first thirteen cards come the suits after `from`. */
  lemma SuitsFromTail(from: nat, i: nat)
    requires from < |SuitNames| && i < RanksPerSuit * (|SuitNames| - (from + 1))
    ensures SuitsFrom(from)[RanksPerSuit + i] == SuitsFrom(from + 1)[i]
  {
    SuitsFromUnfold(from);
    IndexPastPrefix(SuitRun(SuitNames[from], 0), SuitsFrom(from + 1), i);
  }

  /** One pass of the outer loop: a suit's run, then the later suits. */
  lemma SuitsFromUnfold(from: nat)
    requires from < |SuitNames|
    ensures SuitsFrom(from) == SuitRun(SuitNames[from], 0) + SuitsFrom(from + 1)
  {
  }

  /** Indexing past the first part of a concatenation reads the second part. */
  lemma IndexPastPrefix<T>(a: seq<T>, b: seq<T>, i: nat)
    requires i < |b|
    ensures (a + b)[|a| + i] == b[i]
  {
  }

  /** `new Deck()`: 52 cards. */
  function StandardDeck(): (d: Deck)
    ensures |d.cards| == 52
  {
    Deck(SuitsFrom(0))
  }

  lemma StandardDeckCard(k: nat)
    requires k < 52
    ensures StandardDeck().cards[k] == Card(RankNames[k % RanksPerSuit], SuitNames[k / RanksPerSuit], (k % RanksPerSuit + CardValueOffset) as int32)
  {
    var s, n := k / RanksPerSuit, k % RanksPerSuit;
    assert k == RanksPerSuit * s + n;
    SuitsFromIndex(0, s, n);
  }

  /**
   * The unshuffled order: Hearts, Clubs, Diamonds, Spades, and within each
   * suit Ace to King valued 1 to 13.
   */
  lemma StandardDeckOrder()
    ensures forall k :: 0 <= k < 52 ==> StandardDeck().cards[k] == Card(RankNames[k % RanksPerSuit], SuitNames[k / RanksPerSuit], (k % RanksPerSuit + CardValueOffset) as int32)
  {
    forall k | 0 <= k < 52
      ensures StandardDeck().cards[k] == Card(RankNames[k % RanksPerSuit], SuitNames[k / RanksPerSuit], (k % RanksPerSuit + CardValueOffset) as int32)
    {
      StandardDeckCard(k);
    }
  }

  lemma NamesHaveNoPadding()
    ensures forall n :: 0 <= n < |RankNames| ==> |RankNames[n]| > 0 && !IsTrimmable(RankNames[n][0]) && !IsTrimmable(RankNames[n][|RankNames[n]| - 1])
    ensures forall s :: 0 <= s < |SuitNames| ==> |SuitNames[s]| > 0 && !IsTrimmable(SuitNames[s][0]) && !IsTrimmable(SuitNames[s][|SuitNames[s]| - 1])
  {
  }

  lemma TrimKeepsWord(w: string)
    requires |w| > 0 && !IsTrimmable(w[0]) && !IsTrimmable(w[|w| - 1])
    ensures Trim(w) == w
  {
    assert LeadingBlanks(w) == 0;
    assert TrailingBlanks(w) == 0;
  }

  /** Every card of the standard deck is one the `Card` constructor accepts as given. */
  lemma StandardDeckWellFormed()
    ensures forall k :: 0 <= k < 52 ==> WellFormed(StandardDeck().cards[k])
  {
    NamesHaveNoPadding();
    forall k | 0 <= k < 52
      ensures WellFormed(StandardDeck().cards[k])
    {
      StandardDeckCard(k);
      TrimKeepsWord(RankNames[k % RanksPerSuit]);
      TrimKeepsWord(SuitNames[k / RanksPerSuit]);
    }
  }

  lemma SuitNamesDistinct()
    ensures forall i, j :: 0 <= i < j < |SuitNames| ==> SuitNames[i] != SuitNames[j]
  {
    forall i, j | 0 <= i < j < |SuitNames|
      ensures SuitNames[i][0] != SuitNames[j][0]
    {
    }
  }

  /** Two different positions of the standard deck hold different cards. */
  lemma StandardDeckCardsDiffer(a: nat, b: nat)
    requires a < b < 52
    ensures StandardDeck().cards[a] != StandardDeck().cards[b]
  {
    StandardDeckCard(a);
    StandardDeckCard(b);
    if a / RanksPerSuit == b / RanksPerSuit {
      assert a % RanksPerSuit != b % RanksPerSuit;
    } else {
      SuitNamesDistinct();
      assert SuitNames[a / RanksPerSuit] != SuitNames[b / RanksPerSuit];
    }
  }

  /** The standard deck holds 52 different cards. */
  lemma StandardDeckDistinct()
    ensures Distinct(StandardDeck().cards)
  {
    forall a, b | 0 <= a < b < 52
      ensures StandardDeck().cards[a] != StandardDeck().cards[b]
    {
      StandardDeckCardsDiffer(a, b);
    }
  }

  /** The loop of `Deck(Card[])` and `reshuffle`: each non-null entry goes through `addCard`. */
  function AddEach(d: Deck, a: seq<Option<Card>>): (r: Deck)
    ensures r.cards == d.cards + NonNull(a)
    decreases |a|
  {
    if |a| == 0 then d
    else
      var next := if a[0].Some? then AddCard(d, a[0]).value else d;
      AddEachStep(d, a);
      AddEach(next, a[1..])
  }

  /** One pass of the loop: the first entry, if non-null, joins the bottom. */
  lemma AddEachStep(d: Deck, a: seq<Option<Card>>)
    requires |a| > 0
    ensures var next := if a[0].Some? then AddCard(d, a[0]).value else d;
      next.cards + NonNull(a[1..]) == d.cards + NonNull(a)
  {
    var rest := NonNull(a[1..]);
    if a[0].Some? {
      assert NonNull(a) == [a[0].value] + rest;
      assert d.cards + [a[0].value] + rest == d.cards + ([a[0].value] + rest);
    } else {
      assert NonNull(a) == rest;
    }
  }

  /**
   * `new Deck(Card[])`: a null array throws `IllegalArgumentException`;
   * otherwise the non-null entries are added in order and then shuffled.
   */
  function NewDeck(cardArray: Option<seq<Option<Card>>>, rand: nat -> nat): (r: Result<Deck>)
    requires IsSwapOracle(rand)
    ensures cardArray.None? <==> r.Err?
    ensures cardArray.None? ==> r.error == IllegalArgumentException("Card array cannot be null")
    ensures r.Ok? ==> multiset(r.value.cards) == multiset(NonNull(cardArray.value))
  {
    if cardArray.None? then Err(IllegalArgumentException("Card array cannot be null"))
    else Ok(Deck(Shuffle(AddEach(Deck([]), cardArray.value).cards, rand)))
  }

  // ---------------------------------------------------------------------
  // Operations
  // ---------------------------------------------------------------------

  /** `size()`: the number of cards in the deck. */
  function Size(d: Deck): (n: nat)
    ensures n == 0 <==> Draw(d).1.None?
  {
    |d.cards|
  }

  /**
   * `draw()`: removes and returns the top card, or returns null and leaves
   * an empty deck as it is.
   */
  function Draw(d: Deck): (r: (Deck, Option<Card>))
    ensures d.cards == [] ==> r == (d, None)
    ensures d.cards != [] ==> r.1 == Some(d.cards[0]) && r.0.cards == d.cards[1..]
    ensures r.1.Some? ==> d.cards == [r.1.value] + r.0.cards
  {
    if d.cards == [] then (d, None) else (Deck(d.cards[1..]), Some(d.cards[0]))
  }

  /**
   * `addCard(card)`: a null card throws `NullPointerException`; otherwise the
   * card goes to the bottom.
   */
  function AddCard(d: Deck, card: Option<Card>): (r: Result<Deck>)
    ensures card.None? <==> r.Err?
    ensures card.None? ==> r.error == NullPointerException("Cannot add null card to deck")
    ensures card.Some? ==> r.value.cards == d.cards + [card.value]
  {
    if card.None? then Err(NullPointerException("Cannot add null card to deck"))
    else Ok(Deck(d.cards + [card.value]))
  }

  /** `shuffle()` with the swap indices supplied by `rand`. */
  function ShuffleDeck(d: Deck, rand: nat -> nat): (r: Deck)
    requires IsSwapOracle(rand)
    ensures |r.cards| == |d.cards|
    ensures multiset(r.cards) == multiset(d.cards)
    ensures |d.cards| <= 1 ==> r == d
  {
    Deck(Shuffle(d.cards, rand))
  }

  /**
   * `reshuffle(Card[])`: a null array throws `NullPointerException`;
   * otherwise the non-null entries are added at the bottom and the whole
   * deck is shuffled.
   */
  function Reshuffle(d: Deck, cardArray: Option<seq<Option<Card>>>, rand: nat -> nat): (r: Result<Deck>)
    requires IsSwapOracle(rand)
    ensures cardArray.None? <==> r.Err?
    ensures cardArray.None? ==> r.error == NullPointerException("Card array cannot be null")
    ensures r.Ok? ==> multiset(r.value.cards) == multiset(d.cards) + multiset(NonNull(cardArray.value))
  {
    if cardArray.None? then Err(NullPointerException("Card array cannot be null"))
    else Ok(ShuffleDeck(AddEach(d, cardArray.value), rand))
  }

  // ---------------------------------------------------------------------
  // Laws
  // ---------------------------------------------------------------------

  /** `n` successive draws: the cards (or nulls) returned, and the deck left. */
  function DrawMany(d: Deck, n: nat): (Deck, seq<Option<Card>>)
    decreases n
  {
    if n == 0 then (d, [])
    else
      var (d', c) := Draw(d);
      var (d'', cs) := DrawMany(d', n - 1);
      (d'', [c] + cs)
  }

  /** Drawing `n` times, with `n` at most the deck's size, returns the top `n` cards in order and leaves the rest. */
  lemma {:induction false} DrawManyTakesTop(d: Deck, n: nat)
    requires n <= |d.cards|
    ensures DrawMany(d, n).1 == Lift(d.cards[..n])
    ensures DrawMany(d, n).0.cards == d.cards[n..]
    decreases n
  {
    if n > 0 {
      var d' := Draw(d).0;
      DrawManyTakesTop(d', n - 1);
      LiftPrefix(d.cards, n);
    }
  }

  /** Drawing from an empty deck returns only nulls and leaves it empty. */
  lemma {:induction false} DrawManyFromEmpty(d: Deck, n: nat)
    requires d.cards == []
    ensures DrawMany(d, n).0 == d
    ensures |DrawMany(d, n).1| == n
    ensures forall i :: 0 <= i < n ==> DrawMany(d, n).1[i] == None
    decreases n
  {
    if n > 0 {
      DrawManyFromEmpty(d, n - 1);
    }
  }

  /**
   * Drawing as many times as the deck has cards deals the whole deck from
   * top to bottom, after which the next draw returns null.
   */
  lemma DrawAllInOrder(d: Deck)
    ensures DrawMany(d, |d.cards|).1 == Lift(d.cards)
    ensures DrawMany(d, |d.cards|).0.cards == []
    ensures Draw(DrawMany(d, |d.cards|).0) == (Deck([]), None)
  {
    DrawManyTakesTop(d, |d.cards|);
    assert d.cards[..|d.cards|] == d.cards;
  }

  /**
   * First in, first out: adding at the bottom does not change which card a
   * non-empty deck gives up next, and an empty deck gives back the card just added.
   */
  lemma DrawAfterAdd(d: Deck, c: Card)
    ensures var d' := AddCard(d, Some(c)).value;
      Draw(d') == if d.cards == [] then (Deck([]), Some(c)) else (Deck(Draw(d).0.cards + [c]), Draw(d).1)
  {
    var d' := AddCard(d, Some(c)).value;
    if d.cards != [] {
      assert d'.cards[1..] == d.cards[1..] + [c];
    }
  }

  /** Drawing a card and adding it back moves the top card to the bottom. */
  lemma AddAfterDraw(d: Deck)
    requires d.cards != []
    ensures AddCard(Draw(d).0, Draw(d).1).value.cards == d.cards[1..] + [d.cards[0]]
    ensures multiset(AddCard(Draw(d).0, Draw(d).1).value.cards) == multiset(d.cards)
  {
    assert d.cards == [d.cards[0]] + d.cards[1..];
  }
}
