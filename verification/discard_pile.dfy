/**
 * `DiscardPile`: cards in insertion order. Cards are appended, removed by
 * value (first equal card wins) or drained all at once.
 */
module DiscardPiles {
  import opened Lang
  import opened Cards

  /** `cards[0]` is the card added first. */
  datatype DiscardPile = DiscardPile(cards: seq<Card>)

  /** `new DiscardPile()`. */
  function EmptyPile(): (p: DiscardPile)
    ensures |p.cards| == 0
  {
    DiscardPile([])
  }

  /** `getCards()`: the pile in insertion order. */
  function GetCards(p: DiscardPile): (r: seq<Card>)
    ensures |r| == Size(p)
  {
    p.cards
  }

  /** `size()`: the number of cards in the pile; zero exactly for a pile equal to a new one. */
  function Size(p: DiscardPile): (n: nat)
    ensures n == 0 <==> p == EmptyPile()
  {
    |p.cards|
  }

  /** The loop of `DiscardPile(Card[])`: each non-null entry goes through `addCard`, in order. */
  function AddEach(p: DiscardPile, a: seq<Option<Card>>): (r: DiscardPile)
    ensures GetCards(r) == GetCards(p) + NonNull(a)
    decreases |a|
  {
    if |a| == 0 then p
    else
      var next := if a[0].Some? then AddCard(p, a[0]).value else p;
      AddEachStep(p, a);
      AddEach(next, a[1..])
  }

  /** One pass of the loop: the first entry, if non-null, joins the end. */
  lemma AddEachStep(p: DiscardPile, a: seq<Option<Card>>)
    requires |a| > 0
    ensures var next := if a[0].Some? then AddCard(p, a[0]).value else p;
      next.cards + NonNull(a[1..]) == p.cards + NonNull(a)
  {
    var rest := NonNull(a[1..]);
    if a[0].Some? {
      assert NonNull(a) == [a[0].value] + rest;
      assert p.cards + [a[0].value] + rest == p.cards + ([a[0].value] + rest);
    } else {
      assert NonNull(a) == rest;
    }
  }

  /**
   * `new DiscardPile(Card[])`: a null array throws `IllegalArgumentException`;
   * otherwise the pile holds the non-null entries in their original order.
   */
  function NewPile(cards: Option<seq<Option<Card>>>): (r: Result<DiscardPile>)
    ensures cards.None? <==> r.Err?
    ensures cards.None? ==> r.error == IllegalArgumentException("Card array cannot be null")
    ensures r.Ok? ==> GetCards(r.value) == NonNull(cards.value)
  {
    if cards.None? then Err(IllegalArgumentException("Card array cannot be null"))
    else Ok(AddEach(EmptyPile(), cards.value))
  }

  /**
   * `addCard(card)`: a null card throws `IllegalArgumentException`; otherwise
   * it goes on the end.
   */
  function AddCard(p: DiscardPile, card: Option<Card>): (r: Result<DiscardPile>)
    ensures card.None? <==> r.Err?
    ensures card.None? ==> r.error == IllegalArgumentException("Cannot add null card to discard pile")
    ensures card.Some? ==> r.value.cards == p.cards + [card.value]
  {
    if card.None? then Err(IllegalArgumentException("Cannot add null card to discard pile"))
    else Ok(DiscardPile(p.cards + [card.value]))
  }

  /** The scan of `removeCard` from position `i` on, using `Card.equals`. */
  function RemoveFrom(cards: seq<Card>, card: Card, i: nat): (r: (seq<Card>, Option<Card>))
    requires i <= |cards|
    requires card !in cards[..i]
    ensures card !in cards ==> r == (cards, None)
    ensures card in cards ==>
      var j := FirstIndexOf(cards, card);
      r == (cards[..j] + cards[j + 1..], Some(cards[j]))
    decreases |cards| - i
  {
    if i == |cards| then
      assert cards[..i] == cards;
      (cards, None)
    else if Equals(cards[i], Some(card)) then
      assert FirstIndexOf(cards, card) == i;
      (cards[..i] + cards[i + 1..], Some(cards[i]))
    else
      assert cards[..i + 1] == cards[..i] + [cards[i]];
      RemoveFrom(cards, card, i + 1)
  }

  /**
   * `removeCard(card)`: a null card throws `IllegalArgumentException`.
   * Otherwise the first card equal to it is taken out and returned, the
   * others keeping their order; when none is equal, null is returned and
   * the pile is unchanged.
   */
  function RemoveCard(p: DiscardPile, card: Option<Card>): (r: Result<(DiscardPile, Option<Card>)>)
    ensures card.None? <==> r.Err?
    ensures card.None? ==> r.error == IllegalArgumentException("Cannot remove null card from discard pile")
    ensures card.Some? && card.value !in p.cards ==> r == Ok((p, None))
    ensures card.Some? && card.value in p.cards ==>
      var j := FirstIndexOf(p.cards, card.value);
      && r.value.1 == card
      && r.value.0.cards == p.cards[..j] + p.cards[j + 1..]
  {
    if card.None? then Err(IllegalArgumentException("Cannot remove null card from discard pile"))
    else
      var (rest, removed) := RemoveFrom(p.cards, card.value, 0);
      Ok((DiscardPile(rest), removed))
  }

  /** A successful removal takes exactly one copy of the card out of the pile's bag. */
  lemma RemoveCardConserves(p: DiscardPile, c: Card)
    requires c in p.cards
    ensures multiset(RemoveCard(p, Some(c)).value.0.cards) + multiset{c} == multiset(p.cards)
  {
    RemoveFirstMultiset(p.cards, c);
  }

  /**
   * Adding a card and then removing an equal one hands back that card and
   * restores the pile's contents as a bag; when no equal card was there
   * before, it restores the pile exactly.
   */
  lemma AddThenRemove(p: DiscardPile, c: Card)
    ensures var r := RemoveCard(AddCard(p, Some(c)).value, Some(c));
      && r.Ok? && r.value.1 == Some(c)
      && multiset(r.value.0.cards) == multiset(p.cards)
      && |r.value.0.cards| == |p.cards|
      && (c !in p.cards ==> r.value.0 == p)
  {
    var q := AddCard(p, Some(c)).value;
    assert c in q.cards by {
      assert q.cards[|p.cards|] == c;
    }
    var r := RemoveCard(q, Some(c));
    RemoveCardConserves(q, c);
    CancelOne(multiset(r.value.0.cards), multiset(p.cards), c);
    if c !in p.cards {
      assert FirstIndexOf(q.cards, c) == |p.cards|;
      assert q.cards[..|p.cards|] == p.cards;
    }
  }

  /** Removing a card that is not there leaves the pile and its size alone. */
  lemma RemoveAbsent(p: DiscardPile, c: Card)
    requires c !in p.cards
    ensures RemoveCard(p, Some(c)) == Ok((p, None))
  {
  }

  /**
   * `removeAll()`: returns everything in insertion order (an empty array for
   * an empty pile) and leaves the pile empty.
   */
  function RemoveAll(p: DiscardPile): (r: (DiscardPile, seq<Card>))
    ensures r.0.cards == []
    ensures r.1 == GetCards(p)
  {
    if p.cards == [] then (p, []) else (DiscardPile([]), GetCards(p))
  }

  /** Draining a pile and building a new one from what came out recreates it. */
  lemma RemoveAllThenRebuild(p: DiscardPile)
    ensures NewPile(Some(Lift(RemoveAll(p).1))) == Ok(p)
  {
    NonNullLift(p.cards);
  }

  // ---------------------------------------------------------------------
  // toString
  // ---------------------------------------------------------------------

  /** Each card's text, followed by ", " or, after the last card, by ".". */
  function Listing(cards: seq<Card>): string
    decreases |cards|
  {
    if |cards| == 0 then ""
    else if |cards| == 1 then Cards.ToString(cards[0]) + "."
    else Cards.ToString(cards[0]) + ", " + Listing(cards[1..])
  }

  /** `toString()`: the empty string for an empty pile, else the listing. */
  function ToString(p: DiscardPile): (s: string)
    ensures s == "" <==> p.cards == []
    ensures s != "" ==> s[|s| - 1] == '.'
  {
    ListingShape(p.cards);
    if p.cards == [] then "" else Listing(p.cards)
  }

  lemma {:induction false} ListingShape(cards: seq<Card>)
    ensures Listing(cards) == "" <==> cards == []
    ensures cards != [] ==> |Listing(cards)| > |Cards.ToString(cards[0])|
    ensures cards != [] ==> Listing(cards)[|Listing(cards)| - 1] == '.'
    ensures cards != [] ==> Listing(cards)[..|Cards.ToString(cards[0])|] == Cards.ToString(cards[0])
    decreases |cards|
  {
    if |cards| > 1 {
      ListingShape(cards[1..]);
    }
  }

  /** Adding a card turns the closing "." into ", " and closes with the new card. */
  lemma {:induction false} ListingAppend(cards: seq<Card>, c: Card)
    requires cards != []
    ensures var l := Listing(cards);
      |l| > 0 && Listing(cards + [c]) == l[..|l| - 1] + ", " + Cards.ToString(c) + "."
    decreases |cards|
  {
    ListingShape(cards);
    if |cards| > 1 {
      assert (cards + [c])[1..] == cards[1..] + [c];
      ListingAppend(cards[1..], c);
    }
  }

  /** A pile that received `a` and then `b` renders as both cards, comma-separated, with a closing period. */
  lemma ToStringTwoCards(a: Card, b: Card)
    ensures ToString(AddCard(AddCard(EmptyPile(), Some(a)).value, Some(b)).value)
      == Cards.ToString(a) + ", " + Cards.ToString(b) + "."
  {
    var p := AddCard(AddCard(EmptyPile(), Some(a)).value, Some(b)).value;
    assert p.cards == [a, b];
    assert [a, b][1..] == [b];
    assert Listing([b]) == Cards.ToString(b) + ".";
  }

  /** Jack of Spades added to an empty pile, then 3 of Hearts, renders as both, comma-separated, with a closing period. */
  lemma ToStringExample()
    ensures var jack := Card("Jack", "Spades", 11);
      var three := Card("3", "Hearts", 3);
      ToString(AddCard(AddCard(EmptyPile(), Some(jack)).value, Some(three)).value) == "Jack of Spades, 3 of Hearts."
  {
    var jack := Card("Jack", "Spades", 11);
    var three := Card("3", "Hearts", 3);
    ToStringTwoCards(jack, three);
    assert Cards.ToString(jack) + ", " == "Jack of Spades, ";
    assert Cards.ToString(three) + "." == "3 of Hearts.";
  }

  /** The `StringBuilder` loop of `toString()`: each card, then ", " or, after the last, ".". */
  method ToStringLoop(p: DiscardPile) returns (s: string)
    ensures s == ToString(p)
  {
    if p.cards == [] {
      return "";
    }
    var n := |p.cards|;
    s := "";
    var i := 0;
    while i < n
      invariant 0 <= i <= n
      invariant s + Listing(p.cards[i..]) == Listing(p.cards)
      decreases n - i
    {
      assert p.cards[i..][1..] == p.cards[i + 1..];
      s := s + Cards.ToString(p.cards[i]);
      if i < n - 1 {
        s := s + ", ";
      } else {
        s := s + ".";
      }
      i := i + 1;
    }
  }
}
