# High-card game: card-movement core in Dafny

This project models the card classes of a small Java "high card" game and
proves properties about them:

- `Card`: a validated, trimmed (name, suit, value) triple with structural `equals`.
- `Deck`: cards drawn from the top and added at the bottom, with a Fisher-Yates `shuffle`.
- `DiscardPile`: append, remove-first-equal, drain-all, and a comma/period rendering.
- `Player`: a validated name and age plus a hand that is stored in reverse.
- The round engine of `HighCardGame`:
  - `getHighestCard`;
  - the compare-and-score rule;
  - putting the played cards back into the deck;
  - the alternating deal.

Modelling choices:

- A Java `null` is `Option.None`.
- A thrown exception is `Result.Err` carrying the exception kind and its message. Where the source throws explicitly, the message is the source's own text. The one exception the JVM raises by itself, the array-index error of `getHighestCard` on an empty hand, carries the JDK 11+ wording.
- A mutating method is a pure function that returns the new state of every object it touches. On a throw, no new state is returned, so nothing changes.
- `int` fields are the `int32` newtype. Only comparisons are done on them, so no wrap-around arises.
- `Math.random()` in `shuffle` becomes an oracle `rand: nat -> nat`. Its answer for step `i` is the swap index, anywhere in `[0, i]` (`IsSwapOracle`).
- The player's hand is kept in Java storage order: the last element is the top card. `getHand` reads it top first.
- `size()` of each container is the length of its sequence (`Decks.Size`, `DiscardPiles.Size`, `Players.Size`).
- The getters are the datatype fields.

Modules, one per file:

| module | file | role |
|---|---|---|
| `Lang` | `lang.dfy` | Java platform pieces: `null`, exceptions, `int`, `String.trim`, `Integer.toString`, `ArrayList.remove(Object)` |
| `Shuffling` | `shuffle.dfy` | the swap loop of `Deck.shuffle`, as a function of the oracle and as the in-place loop |
| `Cards` | `card.dfy` | `Card` |
| `Decks` | `deck.dfy` | `Deck` |
| `DiscardPiles` | `discard_pile.dfy` | `DiscardPile` |
| `Players` | `player.dfy` | `Player` |
| `HighCardGame` | `high_card_game.dfy` | `getHighestCard`, the round, the deal, and the flow of `main` |

Where the code and its doc comments disagree, the model follows the code:

- `Deck.addCard` (Deck.java:92-104): the comment says a null card adds nothing. The code throws `NullPointerException`, and `Decks.AddCard` throws.

A null array is rejected with `NullPointerException` by `Deck.reshuffle`, but with `IllegalArgumentException` by the array constructor of `Deck`. Both are kept as written.

## Model

| member | source | states |
|---|---|---|
| Lang.Trim | src/main/java/Card.java:35-36 | `trim` drops only characters at or below U+0020, and only from the two ends; a non-empty result begins and ends with a kept character |
| Lang.TrimEmptyIffBlank | src/main/java/Card.java:26-31 | `trim().isEmpty()` holds exactly when every character is at or below U+0020 |
| Lang.TrimIdempotent | src/main/java/Card.java:35-36 | trimming an already trimmed string changes nothing |
| Lang.NonNullMembers | src/main/java/Deck.java:30-34 | skipping null entries keeps exactly the values the array holds |
| Lang.NonNullAppend | src/main/java/Deck.java:116-120 | skipping nulls in two arrays one after the other equals skipping them in their concatenation |
| Lang.NonNullLift | src/main/java/DiscardPile.java:97-104 | an array without nulls loses nothing when nulls are skipped |
| Lang.Reverse | src/main/java/Player.java:95-101 | position `i` of the reversed list holds position `n - 1 - i` of the original |
| Lang.ReverseReverse | src/main/java/Player.java:43-48 | reversing twice gives back the original order |
| Lang.ReverseAppend | src/main/java/Player.java:95-101 | the reverse of a concatenation is the reversed second part followed by the reversed first, so a card appended at the stored end shows first |
| Lang.ReverseMultiset | src/main/java/Player.java:95-101 | reversing keeps every card and its count |
| Lang.FirstIndexOf | src/main/java/Player.java:146-147 | the position found holds the card, and no earlier position does |
| Lang.RemoveFirst | src/main/java/Player.java:146-147 | `remove(Object)` cuts out exactly the first equal element, or changes nothing when none is equal |
| Lang.RemoveFirstMultiset | src/main/java/Player.java:146-148 | removing a present card takes exactly one copy of it out of the bag |
| Lang.IntToString | src/main/java/Player.java:186 | the rendering of an `int` is never empty and reads back as its value: decimal digits with no leading zero (a lone "0" for zero), with a leading "-" before the digits of a negative number |
| Lang.NonNull | src/main/java/Deck.java:30-34 | the null-skipping loop keeps no more entries than the array has |
| Lang.NatToString | src/main/java/Player.java:186 | the rendering of an `int` is decimal digits with no leading zero |
| Lang.NatToStringValue | src/main/java/Player.java:186 | the digits rendered denote the number rendered |
| Shuffling.SwapDown | src/main/java/Deck.java:84-89 | the loop from position `i` down to 1 keeps the length |
| Shuffling.SwapInPlace | src/main/java/Deck.java:86-88 | the three assignments through `temp` leave the array holding the swap of its old contents |
| Shuffling.Swap | src/main/java/Deck.java:86-88 | the three assignments exchange positions `i` and `j` and leave every other position alone |
| Shuffling.SwapMultiset | src/main/java/Deck.java:86-88 | a swap keeps every card and its count |
| Shuffling.SwapDownMultiset | src/main/java/Deck.java:84-89 | the loop steps from `i` down to 1 keep every card and its count |
| Shuffling.Shuffle | src/main/java/Deck.java:83-90 | for every admissible oracle the shuffle keeps the size and the bag, and lists of size 0 or 1 are untouched |
| Shuffling.ShuffleLoop | src/main/java/Deck.java:83-90 | the in-place swap loop over an array computes `Shuffle` and keeps the bag |
| Shuffling.SwapDownKeepsSuffix | src/main/java/Deck.java:84-89 | the steps for positions up to `i` never touch the positions after `i` |
| Shuffling.ShuffleLastStep | src/main/java/Deck.java:84-89 | after the first step the last position is final, and the rest is shuffled as a shorter list |
| Shuffling.SwapDownOracleAgreement | src/main/java/Deck.java:84-85 | only the random answers for positions 1 to `i` influence the outcome |
| Shuffling.ShuffleReachesEveryOrder | src/main/java/Deck.java:83-90 | every rearrangement of the cards is produced by some admissible sequence of random indices |
| Shuffling.ShuffleChoicesAreDetermined | src/main/java/Deck.java:83-90 | on distinct cards, two index sequences giving the same order agree at every step, so index sequences and orders correspond one to one |
| Shuffling.SwapDistinct | src/main/java/Deck.java:86-88 | a swap keeps the cards pairwise different |
| Cards.NewCard | src/main/java/Card.java:23-38 | a null name, a blank name, a null suit, a blank suit and a negative value are rejected, in that order and with the source's exception kinds and messages; otherwise the card holds the trimmed name and suit and the given value |
| Cards.NewCardRebuilds | src/main/java/Card.java:23-62 | passing a card's getters back to the constructor returns that card exactly when it is well formed |
| Cards.NewCardIgnoresPadding | src/main/java/Card.java:26-36 | surrounding whitespace on the name or suit changes neither the outcome nor the card |
| Cards.ToString | src/main/java/Card.java:70-72 | the rendering is as long as the name, the four characters of " of " and the suit together |
| Cards.ToStringParts | src/main/java/Card.java:70-72 | the rendering splits back into the name, then " of ", then the suit |
| Cards.ToStringQueenOfDiamonds | src/test/java/CardGameTest.java:77-79 | the Queen of Diamonds renders as "Queen of Diamonds" |
| Cards.Equals | src/main/java/Card.java:82-93 | `equals` is false against null and otherwise holds exactly when name, suit and value all match |
| Cards.EqualsIsEquivalence | src/main/java/Card.java:82-93 | `equals` is reflexive, symmetric and transitive |
| Decks.SuitRun | src/main/java/Deck.java:50-52 | the inner loop yields the ranks from `i` to King of one suit, valued rank index plus one |
| Decks.SuitsFrom | src/main/java/Deck.java:49-53 | the outer loop yields thirteen cards per remaining suit |
| Decks.SuitsFromIndex | src/main/java/Deck.java:46-53 | card `n` of suit `s` is at position `13 * s + n` |
| Decks.Size | src/main/java/Deck.java:61-63 | the size is zero exactly when `draw` returns null |
| Decks.StandardDeck | src/main/java/Deck.java:44-54 | the default constructor builds 52 cards |
| Decks.StandardDeckCard | src/main/java/Deck.java:44-54 | position `k` holds rank `k % 13` of suit `k / 13`, valued `k % 13 + 1` |
| Decks.StandardDeckOrder | src/main/java/Deck.java:39-54 | the whole deck runs Hearts, Clubs, Diamonds, Spades, each from Ace to King |
| Decks.StandardDeckWellFormed | src/main/java/Deck.java:51 | every card the default constructor builds passes the `Card` constructor's checks unchanged |
| Decks.StandardDeckDistinct | src/main/java/Deck.java:44-54 | the 52 cards are pairwise different |
| Decks.AddEach | src/main/java/Deck.java:116-120 | the loop over an array appends its non-null entries at the bottom, in order |
| Decks.NewDeck | src/main/java/Deck.java:26-37 | a null array is rejected; otherwise the deck is a rearrangement of the array's non-null entries |
| Decks.Draw | src/main/java/Deck.java:72-77 | an empty deck returns null and stays the same; otherwise the top card is returned and the deck becomes the rest |
| Decks.AddCard | src/main/java/Deck.java:99-104 | a null card throws `NullPointerException`; otherwise the card goes to the bottom |
| Decks.ShuffleDeck | src/main/java/Deck.java:83-90 | shuffling keeps the deck's size and bag, and leaves decks of size 0 or 1 alone |
| Decks.Reshuffle | src/main/java/Deck.java:113-122 | a null array is rejected; otherwise the new bag is the old one plus the array's non-null entries |
| Decks.DrawManyTakesTop | src/main/java/Deck.java:72-77 | `n` draws from a deck of at least `n` cards return its top `n` cards in order and leave the rest |
| Decks.DrawManyFromEmpty | src/main/java/Deck.java:72-75 | draws from an empty deck return only nulls and leave it empty |
| Decks.DrawAllInOrder | src/main/java/Deck.java:65-77 | drawing as often as the deck has cards returns the whole deck top to bottom, and the next draw returns null |
| Decks.DrawAfterAdd | src/main/java/Deck.java:72-104 | adding at the bottom does not change what a non-empty deck gives up next, and an empty deck gives back the card just added |
| Decks.AddAfterDraw | src/main/java/Deck.java:72-104 | drawing and adding back moves the top card to the bottom and keeps the bag |
| DiscardPiles.Size | src/main/java/DiscardPile.java:55-57 | the size is zero exactly when the pile equals a newly built one |
| DiscardPiles.GetCards | src/main/java/DiscardPile.java:45-48 | `getCards` returns `size()` cards |
| DiscardPiles.EmptyPile | src/main/java/DiscardPile.java:36-38 | the no-argument constructor makes an empty pile |
| DiscardPiles.AddEach | src/main/java/DiscardPile.java:26-30 | the constructor's loop appends the non-null entries in order |
| DiscardPiles.NewPile | src/main/java/DiscardPile.java:22-31 | a null array is rejected; otherwise `getCards` returns the non-null entries in their original order |
| DiscardPiles.AddCard | src/main/java/DiscardPile.java:65-69 | a null card throws `IllegalArgumentException`; otherwise the card goes on the end |
| DiscardPiles.RemoveFrom | src/main/java/DiscardPile.java:83-88 | the scan from position `i` removes and returns the first equal card, or returns null with the pile unchanged |
| DiscardPiles.RemoveCard | src/main/java/DiscardPile.java:79-89 | a null card throws; otherwise the first equal card is removed and returned with the others in order, or null is returned and nothing changes |
| DiscardPiles.RemoveCardConserves | src/main/java/DiscardPile.java:79-89 | a successful removal takes exactly one copy of the card out of the pile's bag |
| DiscardPiles.AddThenRemove | src/main/java/DiscardPile.java:65-89 | adding a card and removing an equal one returns that card and restores the bag and the size, and, when no equal card was there before, restores the pile itself |
| DiscardPiles.RemoveAbsent | src/main/java/DiscardPile.java:83-88 | removing a card that is not there returns null and changes nothing |
| DiscardPiles.RemoveAll | src/main/java/DiscardPile.java:97-104 | draining returns the contents in insertion order, empty for an empty pile, and leaves the pile empty |
| DiscardPiles.RemoveAllThenRebuild | src/main/java/DiscardPile.java:22-104 | building a pile from what was drained recreates the pile |
| DiscardPiles.ToString | src/main/java/DiscardPile.java:113-128 | the rendering is empty exactly for an empty pile; otherwise it ends with "." |
| DiscardPiles.ListingShape | src/main/java/DiscardPile.java:117-127 | the listing is empty exactly when there are no cards, and otherwise starts with the first card and ends with "." |
| DiscardPiles.ListingAppend | src/main/java/DiscardPile.java:119-125 | adding a card turns the closing "." into ", " and closes with the new card and "." |
| DiscardPiles.ToStringTwoCards | src/main/java/DiscardPile.java:113-128 | a pile that received two cards renders as the first card, ", ", the second card and "." |
| DiscardPiles.ToStringExample | src/test/java/CardGameTest.java:191-209 | Jack of Spades added, then 3 of Hearts, renders as "Jack of Spades, 3 of Hearts." |
| DiscardPiles.ToStringLoop | src/main/java/DiscardPile.java:113-128 | the `StringBuilder` loop produces the rendering |
| Players.StoreBackwards | src/main/java/Player.java:43-48 | the constructor's loop stores the non-null entries in reverse order |
| Players.NewPlayer | src/main/java/Player.java:28-49 | a null name, a blank name, a negative age and a null hand are rejected, in that order and with the source's messages; otherwise the name is trimmed and the stored hand is the non-null entries reversed |
| Players.NewPlayerEmptyHand | src/main/java/Player.java:59-69 | the same checks without the hand; an accepted player has a trimmed name and an empty hand |
| Players.ConstructorsAgree | src/main/java/Player.java:28-69 | the two-argument constructor behaves as the three-argument one given an empty array |
| Players.Size | src/main/java/Player.java:108-110 | the size is the length of the array `getHand` returns |
| Players.GetHand | src/main/java/Player.java:95-101 | `getHand` is the stored hand reversed |
| Players.GetHandSameCards | src/main/java/Player.java:95-101 | `getHand` shows exactly the cards the player holds |
| Players.NewPlayerHandRoundTrip | src/main/java/Player.java:28-101 | the hand a player is built with reads back through `getHand` as the given array without its nulls, in the array's order |
| Players.Draw | src/main/java/Player.java:120-128 | a null deck throws; an empty deck changes nothing; otherwise the deck's top card joins the hand and the deck loses it |
| Players.DrawPutsOnTop | src/main/java/Player.java:120-128 | a drawn card becomes the first card `getHand` shows; the hand grows by one and the deck shrinks by one |
| Players.DrawConserves | src/main/java/Player.java:120-128 | hand and deck together keep every card and its count across a draw |
| Players.DiscardCard | src/main/java/Player.java:140-152 | a null card, then a null pile, throws; the result is true exactly when the hand holds an equal card, in which case its first occurrence moves to the end of the pile; otherwise nothing changes; hand plus pile keep their total size |
| Players.DiscardCardConserves | src/main/java/Player.java:140-152 | hand and pile together keep every card and its count |
| Players.ReturnCard | src/main/java/Player.java:164-175 | the contract of `discardCard`, with the card going to the bottom of the deck |
| Players.ReturnCardConserves | src/main/java/Player.java:164-175 | hand and deck together keep every card and its count |
| Players.DrawThenReturn | src/main/java/Player.java:120-175 | drawing a card and returning it restores the hand's bag and moves the card to the bottom of the deck |
| Players.StoredEntriesReversed | src/main/java/Player.java:187-189 | the loop from the last stored card to the first lists the cards of `getHand` in order |
| Players.ToString | src/main/java/Player.java:185-191 | the rendering is longer than the name and ends with "." |
| Players.ToStringTopToBottom | src/main/java/Player.java:185-191 | the rendering is name, ", ", age, then ", " and each card from top to bottom, then "." |
| Players.ToStringEmptyHand | src/main/java/Player.java:185-191 | a player with no cards renders as name, ", ", age, "." |
| HighCardGame.FirstHighestUnique | src/main/java/HighCardGame.java:125-129 | at most one position holds the earliest card of maximal value |
| HighCardGame.HighestFrom | src/main/java/HighCardGame.java:125-129 | the scan, replacing the best card only on a strictly larger value, ends on the earliest card of maximal value |
| HighCardGame.HighestCard | src/main/java/HighCardGame.java:121-131 | an empty hand raises the array-index exception; otherwise the result is the earliest card of maximal value in `getHand` order |
| HighCardGame.HighestCardHeld | src/main/java/HighCardGame.java:121-131 | the card played is one the player holds |
| HighCardGame.HighestCardIsMaximal | src/main/java/HighCardGame.java:121-131 | no card in the hand has a larger value than the card played |
| HighCardGame.HighestCardLoop | src/main/java/HighCardGame.java:121-131 | the source's loop over `getHand` computes `HighestCard` |
| HighCardGame.Compare | src/main/java/HighCardGame.java:86-94 | the first player wins exactly on a strictly greater value, the second exactly on a strictly smaller one, and equal values tie |
| HighCardGame.CompareSwapped | src/main/java/HighCardGame.java:86-94 | exchanging the two cards exchanges the winner and keeps a tie |
| HighCardGame.Award | src/main/java/HighCardGame.java:86-94 | the first player's counter gains one point exactly when the first player wins, the second's exactly when the second wins, and a tie adds none |
| HighCardGame.PlayRound | src/main/java/HighCardGame.java:79-97 | the round fails exactly when a hand is empty; otherwise each highest card leaves its hand and both go to the bottom of the deck, first player's first, and each side scores one point exactly when its card is strictly greater |
| HighCardGame.PlayRoundConserves | src/main/java/HighCardGame.java:79-97 | a round takes one card from each hand, adds two to the deck, keeps every card and its count, and awards at most one point |
| HighCardGame.PlayRounds | src/main/java/HighCardGame.java:78-98 | `n` rounds succeed while both hands hold `n` cards; each hand gives up `n` cards, the deck gains `2 * n`, the bag of all cards is kept, and at most `n` points are awarded |
| HighCardGame.DealStep | src/main/java/HighCardGame.java:45-46 | one pass moves the deck's first card to the first hand and its second card to the second hand; with one card left only the first player receives it, and an empty deck changes nothing |
| HighCardGame.DealStepConserves | src/main/java/HighCardGame.java:45-46 | one pass keeps every card on the table and its count |
| HighCardGame.Deal | src/main/java/HighCardGame.java:44-47 | dealing keeps the number of cards on the table and the score |
| HighCardGame.DealConserves | src/main/java/HighCardGame.java:44-47 | dealing keeps every card on the table and its count |
| HighCardGame.ShareAt | src/main/java/HighCardGame.java:44-47 | the `i`-th card of a share is the deck's card at `2 * i` for the first player and at `2 * i + 1` for the second |
| HighCardGame.DealLeavesRest | src/main/java/HighCardGame.java:44-47 | `n` deals leave the deck without its first `2 * n` cards, the rest in order |
| HighCardGame.DealFirstShare | src/main/java/HighCardGame.java:44-47 | `n` deals put the first player's share on top of the first hand |
| HighCardGame.DealSecondShare | src/main/java/HighCardGame.java:44-47 | `n` deals put the second player's share on top of the second hand |
| HighCardGame.DealTakesFromTop | src/main/java/HighCardGame.java:44-47 | dealing from a deck of at least `2 * n` cards hands out the even positions to the first player and the odd ones to the second, and leaves the rest in order |
| HighCardGame.DealThenPlay | src/main/java/HighCardGame.java:37-98 | from empty hands and any deck of at least `2 * n` cards, `n` deals give each player `n` cards, keep the bag, and the `n` rounds that follow succeed, empty both hands, put every card back into the deck and award at most `n` points |
| HighCardGame.SetUp | src/main/java/HighCardGame.java:37-47 | the game starts with no points, and the deal keeps the number of cards on the table |
| HighCardGame.GameDealsFive | src/main/java/HighCardGame.java:37-47 | from empty hands and a deck of 52 cards, dealing leaves five cards in each hand and 42 in the deck |
| HighCardGame.GameConservesTheDeck | src/main/java/HighCardGame.java:37-98 | from empty hands and any deck of 52 cards, the five rounds after the deal succeed, empty both hands, return all 52 cards to the deck with their counts, and award at most five points |
| HighCardGame.GameReturnsTheStandardDeck | src/main/java/HighCardGame.java:37-98 | when the deck is any rearrangement of the standard deck, the game succeeds and ends with the deck holding exactly the standard deck's cards |

## Left out

- `HighCardGame.main`'s console work is not modelled: the `Scanner` input, the printing, the banner and the announcement of the winner (HighCardGame.java:23-35, 50-75, 100-112). The players enter the model as values, and the points as the `Score` they would print.
- The floating-point index computation of `Math.random()` in `shuffle` (Deck.java:85) is not modelled. The oracle may return any index in `[0, i]`, so uniformity and the statistical "shuffle changes the order" test are out of scope.
- `Deck.toString` is not modelled. It is the library formatting of `ArrayList.toString`.
- The reflection tests for constructor existence and private fields are not modelled, because they check Java declarations rather than behaviour.
- Java object identity is not modelled. `Card.equals` starts with a reference check, but equal field values give the same answer, so identity is invisible.
- HighCardGame.GameReturnsTheStandardDeck: the deck is any rearrangement of the standard deck rather than the result of `shuffle` itself. `Decks.ShuffleDeck` guarantees that rearrangement, and `Shuffling.ShuffleReachesEveryOrder` shows every rearrangement can occur.
- HighCardGame.HighestCard: the `ArrayIndexOutOfBoundsException` message is the JDK 11+ text; the source supplies none, and older JDKs word it differently.
- HighCardGame.Award: the point counters are unbounded naturals rather than `int`. At most five points are ever awarded, so the two agree.
- Lang.NonNull: its own contract only bounds the length. Membership is stated by `Lang.NonNullMembers`.
- Lang.IntToString renders a negative number with a leading "-". No negative `int` reaches a rendering here, because a player's age is never negative.
