/**
 * `Card`: an immutable (name, suit, value) triple whose constructor
 * validates and trims its arguments and whose `equals` is structural.
 */
module Cards {
  import opened Lang

  /** A card; `value` is the number the game compares (Ace = 1 .. King = 13). */
  datatype Card = Card(name: string, suit: string, value: int32)

  /** The cards the constructor can produce: trimmed, non-empty strings and a non-negative value. */
  predicate WellFormed(c: Card) {
    && c.name != [] && Trim(c.name) == c.name
    && c.suit != [] && Trim(c.suit) == c.suit
    && c.value >= 0
  }

  /**
   * `new Card(name, suit, value)`. A null string throws `NullPointerException`,
   * a blank one `IllegalArgumentException`; the name is checked before the
   * suit, and both before the value.
   */
  function NewCard(name: Option<string>, suit: Option<string>, value: int32): (r: Result<Card>)
    ensures r.Ok? <==> name.Some? && !IsBlank(name.value) && suit.Some? && !IsBlank(suit.value) && value >= 0
    ensures r.Ok? ==> WellFormed(r.value)
    ensures r.Ok? ==> r.value.name == Trim(name.value) && r.value.suit == Trim(suit.value) && r.value.value == value
    ensures name.None? ==> r == Err(NullPointerException("Card name cannot be null"))
    ensures name.Some? && IsBlank(name.value) ==> r == Err(IllegalArgumentException("Card name cannot be empty"))
    ensures name.Some? && !IsBlank(name.value) && suit.None? ==> r == Err(NullPointerException("Card suit cannot be null"))
    ensures name.Some? && !IsBlank(name.value) && suit.Some? && IsBlank(suit.value) ==> r == Err(IllegalArgumentException("Card suit cannot be empty"))
    ensures name.Some? && !IsBlank(name.value) && suit.Some? && !IsBlank(suit.value) && value < 0 ==> r == Err(IllegalArgumentException("Card value cannot be negative"))
  {
    if name.None? then Err(NullPointerException("Card name cannot be null"))
    else if
      TrimEmptyIffBlank(name.value);
      Trim(name.value) == []
    then Err(IllegalArgumentException("Card name cannot be empty"))
    else if suit.None? then Err(NullPointerException("Card suit cannot be null"))
    else if
      TrimEmptyIffBlank(suit.value);
      Trim(suit.value) == []
    then Err(IllegalArgumentException("Card suit cannot be empty"))
    else if value < 0 then Err(IllegalArgumentException("Card value cannot be negative"))
    else
      TrimIdempotent(name.value);
      TrimIdempotent(suit.value);
      Ok(Card(Trim(name.value), Trim(suit.value), value))
  }

  /**
   * The well-formed cards are exactly the cards that rebuild themselves:
   * passing a card's own fields back to the constructor returns that card.
   */
  lemma NewCardRebuilds(c: Card)
    ensures NewCard(Some(c.name), Some(c.suit), c.value) == Ok(c) <==> WellFormed(c)
  {
    TrimEmptyIffBlank(c.name);
    TrimEmptyIffBlank(c.suit);
  }

  /** Surrounding whitespace does not change the card that is built. */
  lemma NewCardIgnoresPadding(name: string, suit: string, value: int32)
    ensures NewCard(Some(name), Some(suit), value) == NewCard(Some(Trim(name)), Some(Trim(suit)), value)
  {
    BlankIffTrimmedBlank(name);
    BlankIffTrimmedBlank(suit);
    var r1 := NewCard(Some(name), Some(suit), value);
    var r2 := NewCard(Some(Trim(name)), Some(Trim(suit)), value);
    if !IsBlank(name) && !IsBlank(suit) && value >= 0 {
      TrimIdempotent(name);
      TrimIdempotent(suit);
      assert r1.value == r2.value;
    }
  }

  lemma BlankIffTrimmedBlank(s: string)
    ensures IsBlank(Trim(s)) <==> IsBlank(s)
  {
    TrimEmptyIffBlank(s);
    TrimEmptyIffBlank(Trim(s));
    TrimIdempotent(s);
  }

  /** `toString`: the name, then " of ", then the suit. */
  function ToString(c: Card): (s: string)
    ensures |s| == |c.name| + 4 + |c.suit|
  {
    c.name + " of " + c.suit
  }

  /** The rendering splits back into the name, " of " and the suit. */
  lemma ToStringParts(c: Card)
    ensures var s := ToString(c);
      && s[..|c.name|] == c.name
      && s[|c.name|..|c.name| + 4] == " of "
      && s[|c.name| + 4..] == c.suit
  {
  }

  /** The Queen of Diamonds renders as "Queen of Diamonds". */
  lemma ToStringQueenOfDiamonds()
    ensures ToString(Card("Queen", "Diamonds", 12)) == "Queen of Diamonds"
  {
  }

  /**
   * `equals(Object)`: false against null, otherwise a field-by-field
   * comparison. It agrees with equality of the triples.
   */
  function Equals(c: Card, obj: Option<Card>): (b: bool)
    ensures b <==> obj == Some(c)
  {
    match obj
    case None => false
    case Some(other) => c.name == other.name && c.suit == other.suit && c.value == other.value
  }

  /** `equals` is reflexive, symmetric and transitive on non-null cards. */
  lemma EqualsIsEquivalence(a: Card, b: Card, c: Card)
    ensures Equals(a, Some(a))
    ensures Equals(a, Some(b)) <==> Equals(b, Some(a))
    ensures Equals(a, Some(b)) && Equals(b, Some(c)) ==> Equals(a, Some(c))
  {
  }
}
