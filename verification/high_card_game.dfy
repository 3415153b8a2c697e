/**
 * The round engine of the high-card game: choosing a player's highest card,
 * comparing two cards and awarding the point, putting the played cards back
 * into the deck, and dealing alternately from the deck.
 */
module HighCardGame {
  import opened Lang
  import opened Cards
  import opened Shuffling
  import Decks
  import Players

  // ---------------------------------------------------------------------
  // getHighestCard
  // ---------------------------------------------------------------------

  /**
   * Among the first `n` cards of `hand`, the one at `k` has the largest
   * value, and every card before it has a strictly smaller one.
   */
  predicate IsFirstHighestUpTo(hand: seq<Card>, k: nat, n: nat)
    requires n <= |hand|
  {
    && k < n
    && (forall j :: 0 <= j < n ==> hand[j].value <= hand[k].value)
    && (forall j :: 0 <= j < k ==> hand[j].value < hand[k].value)
  }

  /** `hand[k]` is the earliest card of maximal value in `hand`. */
  predicate IsFirstHighest(hand: seq<Card>, k: nat) {
    IsFirstHighestUpTo(hand, k, |hand|)
  }

  /** At most one position is the earliest of maximal value. */
  lemma FirstHighestUnique(hand: seq<Card>, k1: nat, k2: nat)
    requires IsFirstHighest(hand, k1) && IsFirstHighest(hand, k2)
    ensures k1 == k2
  {
    assert hand[k1].value == hand[k2].value;
  }

  /**
   * The scan of `getHighestCard` from position `i` on, where `k` holds the
   * best card so far: the best is replaced only by a strictly larger value.
   */
  function HighestFrom(hand: seq<Card>, k: nat, i: nat): (r: nat)
    requires 0 < i <= |hand|
    requires IsFirstHighestUpTo(hand, k, i)
    ensures IsFirstHighest(hand, r)
    decreases |hand| - i
  {
    if i == |hand| then k
    else HighestFrom(hand, if hand[i].value > hand[k].value then i else k, i + 1)
  }

  /** The exception Java raises when `getHighestCard` reads `hand[0]` of an empty hand. */
  const EmptyHandError := ArrayIndexOutOfBoundsException("Index 0 out of bounds for length 0")

  /**
   * `getHighestCard(p)`: an empty hand raises the array-index exception;
   * otherwise the result is the earliest card of maximal value in the
   * top-to-bottom order of `getHand`.
   */
  function HighestCard(p: Players.Player): (r: Result<Card>)
    ensures r.Err? <==> p.hand == []
    ensures r.Err? ==> r.error == EmptyHandError
    ensures r.Ok? ==> exists k: nat :: IsFirstHighest(Players.GetHand(p), k) && r.value == Players.GetHand(p)[k]
  {
    var hand := Players.GetHand(p);
    if |hand| == 0 then Err(EmptyHandError)
    else Ok(hand[HighestFrom(hand, 0, 1)])
  }

  /** The card played is one the player holds. */
  lemma HighestCardHeld(p: Players.Player)
    requires p.hand != []
    ensures HighestCard(p).value in p.hand
  {
    Players.GetHandSameCards(p);
  }

  /** No card in the hand has a larger value than the card played. */
  lemma HighestCardIsMaximal(p: Players.Player)
    requires p.hand != []
    ensures forall c :: c in p.hand ==> c.value <= HighestCard(p).value.value
  {
    var hand := Players.GetHand(p);
    var k := HighestFrom(hand, 0, 1);
    assert HighestCard(p).value == hand[k];
    Players.GetHandSameCards(p);
    forall c | c in p.hand
      ensures c.value <= hand[k].value
    {
      assert c in hand;
      var j :| 0 <= j < |hand| && hand[j] == c;
    }
  }

  /** The imperative loop of `getHighestCard` over `getHand()`, index by index from the first card. */
  method HighestCardLoop(p: Players.Player) returns (r: Result<Card>)
    ensures r == HighestCard(p)
  {
    var hand := Players.GetHand(p);
    if |hand| == 0 {
      return Err(EmptyHandError);
    }
    var highest := hand[0];
    ghost var k := 0;
    var i := 0;
    while i < |hand|
      invariant 0 <= i <= |hand|
      invariant k < |hand| && highest == hand[k]
      invariant i == 0 ==> k == 0
      invariant 0 < i ==> IsFirstHighestUpTo(hand, k, i)
      decreases |hand| - i
    {
      var c := hand[i];
      if c.value > highest.value {
        highest := c;
        k := i;
      }
      i := i + 1;
    }
    FirstHighestUnique(hand, k, HighestFrom(hand, 0, 1));
    r := Ok(highest);
  }

  // ---------------------------------------------------------------------
  // One round: compare, score, return the cards
  // ---------------------------------------------------------------------

  datatype Outcome = PlayerOneWins | PlayerTwoWins | Tie

  /** The comparison in the round loop of `main`: the strictly greater value wins; equal values tie. */
  function Compare(v1: int, v2: int): (o: Outcome)
    ensures o == PlayerOneWins <==> v1 > v2
    ensures o == PlayerTwoWins <==> v2 > v1
    ensures o == Tie <==> v1 == v2
  {
    if v1 > v2 then PlayerOneWins
    else if v2 > v1 then PlayerTwoWins
    else Tie
  }

  /** Swapping the two players swaps the outcome. */
  lemma CompareSwapped(v1: int, v2: int)
    ensures Compare(v2, v1) == match Compare(v1, v2)
      case PlayerOneWins => PlayerTwoWins
      case PlayerTwoWins => PlayerOneWins
      case Tie => Tie
  {
  }

  /** The two point counters of `main`. */
  datatype Score = Score(p1: nat, p2: nat)

  /** A round's point goes to its winner; a tie gives none. */
  function Award(s: Score, o: Outcome): (r: Score)
    ensures r.p1 == s.p1 + (if o == PlayerOneWins then 1 else 0)
    ensures r.p2 == s.p2 + (if o == PlayerTwoWins then 1 else 0)
    ensures r.p1 + r.p2 == s.p1 + s.p2 + (if o == Tie then 0 else 1)
  {
    match o
    case PlayerOneWins => s.(p1 := s.p1 + 1)
    case PlayerTwoWins => s.(p2 := s.p2 + 1)
    case Tie => s
  }

  /** The state `main` carries between rounds. */
  datatype Table = Table(p1: Players.Player, p2: Players.Player, deck: Decks.Deck, score: Score)

  /** Every card on the table, in both hands and in the deck, as a bag. */
  function Holdings(t: Table): multiset<Card> {
    multiset(t.p1.hand) + multiset(t.p2.hand) + multiset(t.deck.cards)
  }

  /** The number of cards on the table. */
  function CardCount(t: Table): nat {
    |t.p1.hand| + |t.p2.hand| + |t.deck.cards|
  }

  /**
   * One pass of the round loop of `main`: both players show their highest card (the first player's
   * is chosen first, so an empty first hand raises before the second is
   * looked at), the strictly greater value earns its owner one point, and
   * both cards go back to the bottom of the deck, the first player's first.
   */
  function PlayRound(t: Table): (r: Result<Table>)
    ensures r.Ok? <==> t.p1.hand != [] && t.p2.hand != []
    ensures r.Err? ==> r.error == EmptyHandError
    ensures r.Ok? ==>
      var h1 := HighestCard(t.p1).value;
      var h2 := HighestCard(t.p2).value;
      && r.value.deck.cards == t.deck.cards + [h1] + [h2]
      && r.value.p1 == t.p1.(hand := RemoveFirst(t.p1.hand, h1))
      && r.value.p2 == t.p2.(hand := RemoveFirst(t.p2.hand, h2))
      && r.value.score.p1 == t.score.p1 + (if h1.value > h2.value then 1 else 0)
      && r.value.score.p2 == t.score.p2 + (if h2.value > h1.value then 1 else 0)
  {
    var c1 := HighestCard(t.p1);
    if c1.Err? then Err(c1.error)
    else
      var c2 := HighestCard(t.p2);
      if c2.Err? then Err(c2.error)
      else
        var h1, h2 := c1.value, c2.value;
        HighestCardHeld(t.p1);
        HighestCardHeld(t.p2);
        var score := Award(t.score, Compare(h1.value as int, h2.value as int));
        var (p1', deck1, _) := Players.ReturnCard(t.p1, Some(h1), Some(t.deck)).value;
        var (p2', deck2, _) := Players.ReturnCard(t.p2, Some(h2), Some(deck1)).value;
        Ok(Table(p1', p2', deck2, score))
  }

  /**
   * A round takes one card from each hand and adds two to the deck: no
   * card is created or lost, and the players keep their names and ages.
   */
  lemma PlayRoundConserves(t: Table)
    requires t.p1.hand != [] && t.p2.hand != []
    ensures var r := PlayRound(t).value;
      && |r.p1.hand| == |t.p1.hand| - 1 && |r.p2.hand| == |t.p2.hand| - 1
      && |r.deck.cards| == |t.deck.cards| + 2
      && CardCount(r) == CardCount(t)
      && Holdings(r) == Holdings(t)
      && r.score.p1 + r.score.p2 <= t.score.p1 + t.score.p2 + 1
  {
    var h1 := HighestCard(t.p1).value;
    var h2 := HighestCard(t.p2).value;
    HighestCardHeld(t.p1);
    HighestCardHeld(t.p2);
    RoundBags(t.p1.hand, t.p2.hand, t.deck.cards, h1, h2);
  }

  /** Two held cards moved from two hands to the end of a deck: the bag of all cards is unchanged. */
  lemma RoundBags(hand1: seq<Card>, hand2: seq<Card>, deck: seq<Card>, c1: Card, c2: Card)
    requires c1 in hand1 && c2 in hand2
    ensures multiset(RemoveFirst(hand1, c1)) + multiset(RemoveFirst(hand2, c2)) + multiset(deck + [c1] + [c2])
      == multiset(hand1) + multiset(hand2) + multiset(deck)
  {
    RemoveFirstMultiset(hand1, c1);
    RemoveFirstMultiset(hand2, c2);
    assert multiset(deck + [c1] + [c2]) == multiset(deck) + multiset{c1} + multiset{c2};
  }

  /**
   * `n` rounds in a row, stopping at the first exception. While both hands
   * hold at least `n` cards, all `n` rounds succeed: each hand gives up `n`
   * cards, the deck gains `2 * n`, no card is created or lost, and at most
   * `n` points are handed out.
   */
  function PlayRounds(t: Table, n: nat): (r: Result<Table>)
    ensures |t.p1.hand| >= n && |t.p2.hand| >= n ==> r.Ok?
    ensures r.Ok? ==>
      && |r.value.p1.hand| == |t.p1.hand| - n
      && |r.value.p2.hand| == |t.p2.hand| - n
      && |r.value.deck.cards| == |t.deck.cards| + 2 * n
      && Holdings(r.value) == Holdings(t)
      && r.value.score.p1 + r.value.score.p2 <= t.score.p1 + t.score.p2 + n
    ensures r.Err? ==> r.error == EmptyHandError
    decreases n
  {
    if n == 0 then Ok(t)
    else
      var next := PlayRound(t);
      if next.Err? then next
      else
        PlayRoundConserves(t);
        PlayRounds(next.value, n - 1)
  }

  // ---------------------------------------------------------------------
  // Dealing
  // ---------------------------------------------------------------------

  /**
   * One pass of the dealing loop of `main`: the first player draws,
   * then the second. A draw from an empty deck adds nothing.
   */
  function DealStep(t: Table): (r: Table)
    ensures CardCount(r) == CardCount(t)
    ensures r.score == t.score
    ensures 2 <= |t.deck.cards| ==>
      && r.p1 == t.p1.(hand := t.p1.hand + [t.deck.cards[0]])
      && r.p2 == t.p2.(hand := t.p2.hand + [t.deck.cards[1]])
      && r.deck.cards == t.deck.cards[2..]
    ensures |t.deck.cards| == 1 ==>
      && r.p1 == t.p1.(hand := t.p1.hand + [t.deck.cards[0]])
      && r.p2 == t.p2
      && r.deck.cards == []
    ensures t.deck.cards == [] ==> r == t
  {
    var (p1', d1) := Players.Draw(t.p1, Some(t.deck)).value;
    var (p2', d2) := Players.Draw(t.p2, Some(d1)).value;
    Table(p1', p2', d2, t.score)
  }

  /** One pass of the dealing loop only moves cards from the deck to the hands. */
  lemma DealStepConserves(t: Table)
    ensures Holdings(DealStep(t)) == Holdings(t)
  {
    var (p1', d1) := Players.Draw(t.p1, Some(t.deck)).value;
    var (p2', d2) := Players.Draw(t.p2, Some(d1)).value;
    Players.DrawConserves(t.p1, t.deck);
    Players.DrawConserves(t.p2, d1);
    ShiftThrough(multiset(t.p1.hand), multiset(t.p2.hand), multiset(t.deck.cards),
      multiset(p1'.hand), multiset(p2'.hand), multiset(d1.cards), multiset(d2.cards));
  }

  /** `n` passes of the dealing loop of `main`. */
  function Deal(t: Table, n: nat): (r: Table)
    ensures CardCount(r) == CardCount(t)
    ensures r.score == t.score
    decreases n
  {
    if n == 0 then t else Deal(DealStep(t), n - 1)
  }

  /** Dealing only moves cards from the deck to the hands: none is created or lost. */
  lemma {:induction false} DealConserves(t: Table, n: nat)
    ensures Holdings(Deal(t, n)) == Holdings(t)
    decreases n
  {
    if n > 0 {
      var next := DealStep(t);
      DealStepConserves(t);
      DealConserves(next, n - 1);
      assert Deal(t, n) == Deal(next, n - 1);
    }
  }

  /** Two moves in a row between three bags keep their total. */
  lemma ShiftThrough(a: multiset<Card>, b: multiset<Card>, c: multiset<Card>,
                     a': multiset<Card>, b': multiset<Card>, c': multiset<Card>, c'': multiset<Card>)
    requires a' + c' == a + c
    requires b' + c'' == b + c'
    ensures a' + b' + c'' == a + b + c
  {
    forall x
      ensures (a' + b' + c'')[x] == (a + b + c)[x]
    {
      assert (a' + c')[x] == (a + c)[x];
      assert (b' + c'')[x] == (b + c')[x];
    }
  }

  /**
   * What `n` deals from the top of `d` give the first player (`which == 0`)
   * or the second (`which == 1`): the cards at positions `which`,
   * `which + 2`, `which + 4`, ...
   */
  function Share(d: seq<Card>, which: nat, n: nat): (r: seq<Card>)
    requires which <= 1 && 2 * n <= |d|
    ensures |r| == n
    decreases n
  {
    if n == 0 then [] else [d[which]] + Share(d[2..], which, n - 1)
  }

  /** The `i`-th card of a share is the card at position `2 * i + which` of the deck. */
  lemma {:induction false} ShareAt(d: seq<Card>, which: nat, n: nat)
    requires which <= 1 && 2 * n <= |d|
    ensures forall i :: 0 <= i < n ==> Share(d, which, n)[i] == d[2 * i + which]
    decreases n
  {
    if n > 0 {
      ShareAt(d[2..], which, n - 1);
      var rest := Share(d[2..], which, n - 1);
      forall i | 1 <= i < n
        ensures Share(d, which, n)[i] == d[2 * i + which]
      {
        assert Share(d, which, n)[i] == rest[i - 1];
      }
    }
  }

  /** A hand that takes the next card of its share and then the rest holds the whole share. */
  lemma ShareAfter(h: seq<Card>, d: seq<Card>, which: nat, n: nat)
    requires which <= 1 && 0 < n && 2 * n <= |d|
    ensures h + [d[which]] + Share(d[2..], which, n - 1) == h + Share(d, which, n)
  {
    assert h + [d[which]] + Share(d[2..], which, n - 1) == h + ([d[which]] + Share(d[2..], which, n - 1));
  }

  /** One deal when the deck holds at least two cards. */
  lemma DealOnce(t: Table, n: nat)
    requires 0 < n && 2 <= |t.deck.cards|
    ensures var t' := DealStep(t);
      && Deal(t, n) == Deal(t', n - 1)
      && t'.p1.hand == t.p1.hand + [t.deck.cards[0]]
      && t'.p2.hand == t.p2.hand + [t.deck.cards[1]]
      && t'.deck.cards == t.deck.cards[2..]
  {
  }

  /** `n` deals leave the deck without its first `2 * n` cards. */
  lemma {:induction false} DealLeavesRest(t: Table, n: nat)
    requires 2 * n <= |t.deck.cards|
    ensures Deal(t, n).deck.cards == t.deck.cards[2 * n..]
    decreases n
  {
    if n > 0 {
      var d := t.deck.cards;
      DealOnce(t, n);
      DealLeavesRest(DealStep(t), n - 1);
      assert d[2..][2 * (n - 1)..] == d[2 * n..];
    }
  }

  /** `n` deals put the first player's share on top of the first hand. */
  lemma {:induction false} DealFirstShare(t: Table, n: nat)
    requires 2 * n <= |t.deck.cards|
    ensures Deal(t, n).p1.hand == t.p1.hand + Share(t.deck.cards, 0, n)
    decreases n
  {
    if n > 0 {
      var d := t.deck.cards;
      DealOnce(t, n);
      DealFirstShare(DealStep(t), n - 1);
      ShareAfter(t.p1.hand, d, 0, n);
    }
  }

  /** `n` deals put the second player's share on top of the second hand. */
  lemma {:induction false} DealSecondShare(t: Table, n: nat)
    requires 2 * n <= |t.deck.cards|
    ensures Deal(t, n).p2.hand == t.p2.hand + Share(t.deck.cards, 1, n)
    decreases n
  {
    if n > 0 {
      var d := t.deck.cards;
      DealOnce(t, n);
      DealSecondShare(DealStep(t), n - 1);
      ShareAfter(t.p2.hand, d, 1, n);
    }
  }

  /**
   * When the deck holds at least `2 * n` cards, dealing `n` times hands
   * the cards at even positions to the first player and those at odd
   * positions to the second, each arriving on top of the hand, and leaves
   * the rest of the deck in order.
   */
  lemma DealTakesFromTop(t: Table, n: nat)
    requires 2 * n <= |t.deck.cards|
    ensures var r := Deal(t, n);
      && r.deck.cards == t.deck.cards[2 * n..]
      && r.p1.hand == t.p1.hand + Share(t.deck.cards, 0, n)
      && r.p2.hand == t.p2.hand + Share(t.deck.cards, 1, n)
  {
    DealLeavesRest(t, n);
    DealFirstShare(t, n);
    DealSecondShare(t, n);
  }

  // ---------------------------------------------------------------------
  // The game of `main`
  // ---------------------------------------------------------------------

  /**
   * The start of `main` once the deck is built and shuffled: two players, no points
   * yet, and five deals each.
   */
  function SetUp(p1: Players.Player, p2: Players.Player, deck: Decks.Deck): (r: Table)
    ensures r.score == Score(0, 0)
    ensures CardCount(r) == |p1.hand| + |p2.hand| + |deck.cards|
  {
    Deal(Table(p1, p2, deck, Score(0, 0)), 5)
  }

  /**
   * The flow of `main` from any deck of at least `2 * n` cards: after `n`
   * deals each player holds `n` cards, and the `n` rounds that follow
   * succeed, empty both hands and put every card back into the deck, with
   * at most `n` points awarded.
   */
  lemma {:induction false} DealThenPlay(t0: Table, n: nat)
    requires t0.p1.hand == [] && t0.p2.hand == [] && t0.score == Score(0, 0)
    requires 2 * n <= |t0.deck.cards|
    ensures var t := Deal(t0, n);
      && |t.p1.hand| == n && |t.p2.hand| == n && |t.deck.cards| == |t0.deck.cards| - 2 * n
      && Holdings(t) == multiset(t0.deck.cards)
    ensures var r := PlayRounds(Deal(t0, n), n);
      && r.Ok?
      && r.value.p1.hand == [] && r.value.p2.hand == []
      && multiset(r.value.deck.cards) == multiset(t0.deck.cards)
      && |r.value.deck.cards| == |t0.deck.cards|
      && r.value.score.p1 + r.value.score.p2 <= n
  {
    DealTakesFromTop(t0, n);
    DealConserves(t0, n);
    var t := Deal(t0, n);
    assert Holdings(t0) == multiset(t0.deck.cards);
    var r := PlayRounds(t, n).value;
    assert |r.p1.hand| == 0 && |r.p2.hand| == 0;
    assert Holdings(r) == multiset(r.deck.cards);
  }

  /**
   * Dealing in `main` from a 52-card deck, such as the shuffled standard
   * deck: each player holds five cards and 42 stay in the deck.
   */
  lemma GameDealsFive(p1: Players.Player, p2: Players.Player, deck: Decks.Deck)
    requires p1.hand == [] && p2.hand == []
    requires |deck.cards| == 52
    ensures var t := SetUp(p1, p2, deck);
      |t.p1.hand| == 5 && |t.p2.hand| == 5 && |t.deck.cards| == 42
  {
    DealThenPlay(Table(p1, p2, deck, Score(0, 0)), 5);
  }

  /**
   * The game of `main` from a 52-card deck: after the five rounds both
   * hands are empty, the deck holds again exactly the cards it started
   * with, and at most five points have been awarded.
   */
  lemma GameConservesTheDeck(p1: Players.Player, p2: Players.Player, deck: Decks.Deck)
    requires p1.hand == [] && p2.hand == []
    requires |deck.cards| == 52
    ensures var r := PlayRounds(SetUp(p1, p2, deck), 5);
      && r.Ok?
      && r.value.p1.hand == [] && r.value.p2.hand == []
      && multiset(r.value.deck.cards) == multiset(deck.cards)
      && |r.value.deck.cards| == 52
      && r.value.score.p1 + r.value.score.p2 <= 5
  {
    DealThenPlay(Table(p1, p2, deck, Score(0, 0)), 5);
  }

  /**
   * For every order the shuffle can leave the standard deck in, the game
   * ends with all 52 cards of the standard deck back in the deck.
   */
  lemma GameReturnsTheStandardDeck(p1: Players.Player, p2: Players.Player, deck: Decks.Deck)
    requires p1.hand == [] && p2.hand == []
    requires multiset(deck.cards) == multiset(Decks.StandardDeck().cards)
    ensures var r := PlayRounds(SetUp(p1, p2, deck), 5);
      r.Ok? && multiset(r.value.deck.cards) == multiset(Decks.StandardDeck().cards)
  {
    assert |deck.cards| == |multiset(deck.cards)| == 52;
    GameConservesTheDeck(p1, p2, deck);
  }
}
