/**
 * `Player`: a validated name and age with a hand of cards. The hand is kept
 * in the order Java's list stores it, whose LAST element is the top card;
 * `GetHand` presents it top first.
 */
module Players {
  import opened Lang
  import opened Cards
  import Decks
  import DiscardPiles

  /** `hand[|hand| - 1]` is the top of the hand. */
  datatype Player = Player(name: string, age: int32, hand: seq<Card>)

  /** The loop of `Player(String, int, Card[])`: entries from last to first, nulls skipped. */
  function StoreBackwards(a: seq<Option<Card>>): (r: seq<Card>)
    ensures r == Reverse(NonNull(a))
    decreases |a|
  {
    if |a| == 0 then []
    else
      var n := |a|;
      var last := if a[n - 1].Some? then [a[n - 1].value] else [];
      assert a == a[..n - 1] + [a[n - 1]];
      NonNullAppend(a[..n - 1], [a[n - 1]]);
      assert NonNull([a[n - 1]]) == last;
      ReverseAppend(NonNull(a[..n - 1]), last);
      last + StoreBackwards(a[..n - 1])
  }

  /**
   * `new Player(name, age, startingHand)`: throws `IllegalArgumentException`
   * for a null name, a blank name, a negative age and a null hand, checked
   * in that order. The name is stored trimmed.
   */
  function NewPlayer(name: Option<string>, age: int32, startingHand: Option<seq<Option<Card>>>): (r: Result<Player>)
    ensures r.Ok? <==> name.Some? && !IsBlank(name.value) && age >= 0 && startingHand.Some?
    ensures name.None? ==> r == Err(IllegalArgumentException("Player name cannot be null"))
    ensures name.Some? && IsBlank(name.value) ==> r == Err(IllegalArgumentException("Player name cannot be empty"))
    ensures name.Some? && !IsBlank(name.value) && age < 0 ==> r == Err(IllegalArgumentException("Player age cannot be negative"))
    ensures name.Some? && !IsBlank(name.value) && age >= 0 && startingHand.None? ==> r == Err(IllegalArgumentException("Starting hand cannot be null"))
    ensures r.Ok? ==> r.value.name == Trim(name.value) && r.value.name != [] && r.value.age == age
    ensures r.Ok? ==> r.value.hand == Reverse(NonNull(startingHand.value))
  {
    if name.None? then Err(IllegalArgumentException("Player name cannot be null"))
    else if
      TrimEmptyIffBlank(name.value);
      Trim(name.value) == []
    then Err(IllegalArgumentException("Player name cannot be empty"))
    else if age < 0 then Err(IllegalArgumentException("Player age cannot be negative"))
    else if startingHand.None? then Err(IllegalArgumentException("Starting hand cannot be null"))
    else Ok(Player(Trim(name.value), age, StoreBackwards(startingHand.value)))
  }

  /** `new Player(name, age)`: the same checks, minus the hand, and an empty hand. */
  function NewPlayerEmptyHand(name: Option<string>, age: int32): (r: Result<Player>)
    ensures r.Ok? <==> name.Some? && !IsBlank(name.value) && age >= 0
    ensures r.Ok? ==> r.value.name == Trim(name.value) && r.value.age == age && r.value.hand == []
  {
    if name.None? then Err(IllegalArgumentException("Player name cannot be null"))
    else if
      TrimEmptyIffBlank(name.value);
      Trim(name.value) == []
    then Err(IllegalArgumentException("Player name cannot be empty"))
    else if age < 0 then Err(IllegalArgumentException("Player age cannot be negative"))
    else Ok(Player(Trim(name.value), age, []))
  }

  /** The two-argument constructor is the three-argument one with an empty array. */
  lemma ConstructorsAgree(name: Option<string>, age: int32)
    ensures NewPlayerEmptyHand(name, age) == NewPlayer(name, age, Some([]))
  {
  }

  /** `size()`: the number of cards in the hand. */
  function Size(p: Player): (n: nat)
    ensures n == |GetHand(p)|
  {
    |p.hand|
  }

  /** `getHand()`: the hand, top card first. */
  function GetHand(p: Player): (r: seq<Card>)
    ensures r == Reverse(p.hand)
  {
    seq(|p.hand|, i requires 0 <= i < |p.hand| => p.hand[|p.hand| - 1 - i])
  }

  /** `getHand` holds the same cards as the hand, only in the other order. */
  lemma GetHandSameCards(p: Player)
    ensures forall c :: c in GetHand(p) <==> c in p.hand
  {
    ReverseMultiset(p.hand);
    forall c
      ensures c in GetHand(p) <==> c in p.hand
    {
      assert c in GetHand(p) <==> c in multiset(GetHand(p));
      assert c in p.hand <==> c in multiset(p.hand);
    }
  }

  /**
   * The hand a player is built with reads back, top first, as the given
   * array without its nulls, in the array's order.
   */
  lemma NewPlayerHandRoundTrip(name: string, age: int32, a: seq<Option<Card>>)
    requires NewPlayer(Some(name), age, Some(a)).Ok?
    ensures GetHand(NewPlayer(Some(name), age, Some(a)).value) == NonNull(a)
  {
    ReverseReverse(NonNull(a));
  }

  /** All cards a player holds, as a bag. */
  function HandBag(p: Player): multiset<Card> {
    multiset(p.hand)
  }

  /**
   * `draw(deck)`: a null deck throws `IllegalArgumentException`. Otherwise the
   * deck's top card becomes the top of the hand; an empty deck changes nothing.
   */
  function Draw(p: Player, deck: Option<Decks.Deck>): (r: Result<(Player, Decks.Deck)>)
    ensures deck.None? <==> r.Err?
    ensures deck.None? ==> r.error == IllegalArgumentException("Deck cannot be null")
    ensures deck.Some? && deck.value.cards == [] ==> r.value == (p, deck.value)
    ensures deck.Some? && deck.value.cards != [] ==>
      r.value == (p.(hand := p.hand + [deck.value.cards[0]]), Decks.Deck(deck.value.cards[1..]))
  {
    if deck.None? then Err(IllegalArgumentException("Deck cannot be null"))
    else
      var (rest, pulled) := Decks.Draw(deck.value);
      if pulled.Some? then Ok((p.(hand := p.hand + [pulled.value]), rest))
      else Ok((p, rest))
  }

  /**
   * Drawing from a non-empty deck puts its top card on top of the hand, as
   * `getHand` shows it: the hand grows by one and the deck shrinks by one.
   */
  lemma DrawPutsOnTop(p: Player, d: Decks.Deck)
    requires d.cards != []
    ensures var (p', d') := Draw(p, Some(d)).value;
      && GetHand(p') == [d.cards[0]] + GetHand(p)
      && |p'.hand| == |p.hand| + 1
      && |d'.cards| == |d.cards| - 1
  {
    ReverseAppend(p.hand, [d.cards[0]]);
  }

  /** A draw moves a card from the deck to the hand: none is created or lost. */
  lemma DrawConserves(p: Player, d: Decks.Deck)
    ensures var (p', d') := Draw(p, Some(d)).value;
      HandBag(p') + multiset(d'.cards) == HandBag(p) + multiset(d.cards)
  {
    if d.cards != [] {
      assert d.cards == [d.cards[0]] + d.cards[1..];
    }
  }

  /**
   * `discardCard(card, pile)`: a null card, then a null pile, throws
   * `IllegalArgumentException`. If an equal card is in the hand, one such
   * card moves to the end of the pile and the result is true; otherwise
   * the result is false and nothing changes.
   */
  function DiscardCard(p: Player, card: Option<Card>, pile: Option<DiscardPiles.DiscardPile>): (r: Result<(Player, DiscardPiles.DiscardPile, bool)>)
    ensures r.Err? <==> card.None? || pile.None?
    ensures card.None? ==> r.error == IllegalArgumentException("Card cannot be null")
    ensures card.Some? && pile.None? ==> r.error == IllegalArgumentException("Discard pile cannot be null")
    ensures r.Ok? ==> (r.value.2 <==> card.value in p.hand)
    ensures r.Ok? && !r.value.2 ==> r.value == (p, pile.value, false)
    ensures r.Ok? && r.value.2 ==>
      && r.value.0.hand == RemoveFirst(p.hand, card.value)
      && r.value.1.cards == pile.value.cards + [card.value]
      && |r.value.0.hand| == |p.hand| - 1
    ensures r.Ok? ==> r.value.0.name == p.name && r.value.0.age == p.age
    ensures r.Ok? ==> |r.value.0.hand| + |r.value.1.cards| == |p.hand| + |pile.value.cards|
  {
    if card.None? then Err(IllegalArgumentException("Card cannot be null"))
    else if pile.None? then Err(IllegalArgumentException("Discard pile cannot be null"))
    else if card.value in p.hand then
      var pile' := DiscardPiles.AddCard(pile.value, card).value;
      Ok((p.(hand := RemoveFirst(p.hand, card.value)), pile', true))
    else
      Ok((p, pile.value, false))
  }

  /** `discardCard` moves at most one card from the hand to the discard pile: none is created or lost. */
  lemma DiscardCardConserves(p: Player, c: Card, pile: DiscardPiles.DiscardPile)
    ensures var (p', pile', _) := DiscardCard(p, Some(c), Some(pile)).value;
      HandBag(p') + multiset(pile'.cards) == HandBag(p) + multiset(pile.cards)
  {
    if c in p.hand {
      RemoveFirstMultiset(p.hand, c);
    }
  }

  /**
   * `returnCard(card, deck)`: the contract of `discardCard` with the card
   * going to the bottom of a deck.
   */
  function ReturnCard(p: Player, card: Option<Card>, deck: Option<Decks.Deck>): (r: Result<(Player, Decks.Deck, bool)>)
    ensures r.Err? <==> card.None? || deck.None?
    ensures card.None? ==> r.error == IllegalArgumentException("Card cannot be null")
    ensures card.Some? && deck.None? ==> r.error == IllegalArgumentException("Deck cannot be null")
    ensures r.Ok? ==> (r.value.2 <==> card.value in p.hand)
    ensures r.Ok? && !r.value.2 ==> r.value == (p, deck.value, false)
    ensures r.Ok? && r.value.2 ==>
      && r.value.0.hand == RemoveFirst(p.hand, card.value)
      && r.value.1.cards == deck.value.cards + [card.value]
      && |r.value.0.hand| == |p.hand| - 1
    ensures r.Ok? ==> r.value.0.name == p.name && r.value.0.age == p.age
    ensures r.Ok? ==> |r.value.0.hand| + |r.value.1.cards| == |p.hand| + |deck.value.cards|
  {
    if card.None? then Err(IllegalArgumentException("Card cannot be null"))
    else if deck.None? then Err(IllegalArgumentException("Deck cannot be null"))
    else if card.value in p.hand then
      var deck' := Decks.AddCard(deck.value, card).value;
      Ok((p.(hand := RemoveFirst(p.hand, card.value)), deck', true))
    else
      Ok((p, deck.value, false))
  }

  /** `returnCard` moves at most one card from the hand to the deck: none is created or lost. */
  lemma ReturnCardConserves(p: Player, c: Card, deck: Decks.Deck)
    ensures var (p', deck', _) := ReturnCard(p, Some(c), Some(deck)).value;
      HandBag(p') + multiset(deck'.cards) == HandBag(p) + multiset(deck.cards)
  {
    if c in p.hand {
      RemoveFirstMultiset(p.hand, c);
    }
  }

  /** Drawing a card and returning it puts it at the bottom of the deck and restores the hand. */
  lemma DrawThenReturn(p: Player, d: Decks.Deck)
    requires d.cards != []
    ensures var (p', d') := Draw(p, Some(d)).value;
      var r := ReturnCard(p', Some(d.cards[0]), Some(d'));
      && r.Ok? && r.value.2
      && HandBag(r.value.0) == HandBag(p)
      && r.value.1.cards == d.cards[1..] + [d.cards[0]]
  {
    var (p', d') := Draw(p, Some(d)).value;
    var c := d.cards[0];
    assert p'.hand == p.hand + [c];
    assert c in p'.hand by {
      assert p'.hand[|p.hand|] == c;
    }
    RemoveFirstMultiset(p'.hand, c);
    CancelOne(multiset(RemoveFirst(p'.hand, c)), multiset(p.hand), c);
  }

  // ---------------------------------------------------------------------
  // toString
  // ---------------------------------------------------------------------

  /** The loop of `toString()`: ", " and a card, from the last stored card to the first. */
  function StoredEntries(hand: seq<Card>): string
    decreases |hand|
  {
    if |hand| == 0 then ""
    else ", " + Cards.ToString(hand[|hand| - 1]) + StoredEntries(hand[..|hand| - 1])
  }

  /** `toString()`: name, ", ", age, then the entries, then ".". */
  function ToString(p: Player): (s: string)
    ensures |s| > |p.name|
    ensures s[|s| - 1] == '.'
  {
    p.name + ", " + IntToString(p.age as int) + StoredEntries(p.hand) + "."
  }

  /** ", " and a card for each card of `cards`, first to last. */
  function Entries(cards: seq<Card>): string
    decreases |cards|
  {
    if |cards| == 0 then "" else ", " + Cards.ToString(cards[0]) + Entries(cards[1..])
  }

  lemma {:induction false} StoredEntriesReversed(hand: seq<Card>)
    ensures StoredEntries(hand) == Entries(Reverse(hand))
    decreases |hand|
  {
    if |hand| > 0 {
      var n := |hand|;
      StoredEntriesReversed(hand[..n - 1]);
      assert Reverse(hand)[1..] == Reverse(hand[..n - 1]);
    }
  }

  /** The rendering lists the hand from top to bottom, as `getHand` does. */
  lemma ToStringTopToBottom(p: Player)
    ensures ToString(p) == p.name + ", " + IntToString(p.age as int) + Entries(GetHand(p)) + "."
  {
    StoredEntriesReversed(p.hand);
  }

  /** A player with no cards renders as name and age only. */
  lemma ToStringEmptyHand(name: string, age: int32)
    ensures ToString(Player(name, age, [])) == name + ", " + IntToString(age as int) + "."
  {
  }
}
