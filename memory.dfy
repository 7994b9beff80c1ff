/**
 * The Memory card matcher: building a shuffled deck of sixteen cards, the
 * two-card flip, lock and match state machine, the deferred step that turns
 * a mismatched pair face down again, and the best-score rule.
 *
 * Card objects are updated in place; copying the array of cards copies the
 * references only, so a card list here is a sequence of Card references.
 */
module Memory {
  import opened Wrappers

  const EMOJIS: seq<string> :=
    ["\U{1F34E}", "\U{1F34C}", "\U{1F349}", "\U{1F347}", "\U{1F353}", "\U{1F352}", "\U{1F351}", "\U{1F95D}"]

  /** The unshuffled deck: every emoji twice. */
  const PAIRS: seq<string> := EMOJIS + EMOJIS

  const DECK_SIZE: int := 16

  class Card {
    const id: int
    const emoji: string
    var flipped: bool
    var matched: bool

    constructor(id: int, emoji: string)
      ensures this.id == id && this.emoji == emoji && !flipped && !matched
    {
      this.id := id;
      this.emoji := emoji;
      flipped := false;
      matched := false;
    }
  }

  /**
   * A pending un-flip timer: the card list it captured and the ids of the
   * two mismatched cards it will turn face down.
   */
  datatype Timer = Timer(deck: seq<Card>, first: int, second: int)

  /** Ids are the positions 0 to 15. */
  predicate Numbered(deck: seq<Card>) {
    |deck| == DECK_SIZE && forall i :: 0 <= i < |deck| ==> deck[i].id == i
  }

  predicate TimerOk(t: Timer) {
    Numbered(t.deck) && 0 <= t.first < DECK_SIZE && 0 <= t.second < DECK_SIZE
  }

  predicate AllMatched(deck: seq<Card>)
    reads deck
  {
    forall i :: 0 <= i < |deck| ==> deck[i].matched
  }

  /**
   * The best-score rule on finishing in the given number of moves: a missing
   * best (or 0, which the page treats as none) is replaced, and otherwise
   * only a strictly smaller count replaces it.
   */
  function NewBest(best: Option<int>, score: int): (r: Option<int>)
    ensures r.Some?
    ensures r == best || r == Some(score)
    ensures r == Some(score) <==> best == None || best == Some(0) || score <= best.value
    ensures best.Some? && best.value != 0 ==> r.value <= best.value
  {
    if best == None || best == Some(0) || score < best.value then Some(score) else best
  }

  /** No emoji is listed twice. */
  lemma EmojisDistinct()
    ensures forall i, j :: 0 <= i < j < |EMOJIS| ==> EMOJIS[i] != EMOJIS[j]
  {
    forall i, j | 0 <= i < j < |EMOJIS|
      ensures EMOJIS[i] != EMOJIS[j]
    {
      assert EMOJIS[i][0] != EMOJIS[j][0];
    }
  }

  /** In a list without repetitions every element occurs once. */
  lemma {:induction false} DistinctOnce(s: seq<string>, e: string)
    requires forall i, j :: 0 <= i < j < |s| ==> s[i] != s[j]
    ensures multiset(s)[e] == if e in s then 1 else 0
  {
    if s != [] {
      var init := s[..|s| - 1];
      assert s == init + [s[|s| - 1]];
      DistinctOnce(init, e);
      assert s[|s| - 1] !in init;
    }
  }

  /** How often e occurs in PAIRS. */
  lemma PairsCount(e: string)
    ensures multiset(PAIRS)[e] == if e in EMOJIS then 2 else 0
  {
    EmojisDistinct();
    DistinctOnce(EMOJIS, e);
  }

  /** A shuffle of PAIRS has sixteen cards. */
  lemma ShuffleSize(order: seq<string>)
    requires multiset(order) == multiset(PAIRS)
    ensures |order| == DECK_SIZE
  {
    assert |order| == |multiset(order)| == |multiset(PAIRS)| == |PAIRS|;
  }

  /** A shuffle of PAIRS has sixteen cards and every emoji exactly twice. */
  lemma ShuffleHasPairs(order: seq<string>)
    requires multiset(order) == multiset(PAIRS)
    ensures |order| == DECK_SIZE
    ensures forall e :: e in EMOJIS ==> multiset(order)[e] == 2
    ensures forall i :: 0 <= i < |order| ==> order[i] in EMOJIS
  {
    ShuffleSize(order);
    forall e | e in EMOJIS
      ensures multiset(order)[e] == 2
    {
      PairsCount(e);
    }
    forall i | 0 <= i < |order|
      ensures order[i] in EMOJIS
    {
      assert order[i] in multiset(order);
      PairsCount(order[i]);
    }
  }

  /** The Memory page's state; timers holds the pending un-flip callbacks in firing order. */
  class Game {
    var cards: seq<Card>
    var flippedCards: seq<int>
    var moves: int
    var bestScore: Option<int>
    var isLocked: bool
    var timers: seq<Timer>

    /**
     * At most two cards are turned up at a time, a single turned-up card is
     * face up and unmatched, two turned-up cards lock the board, and a
     * locked board has its un-flip timer for those two cards pending.
     */
    ghost predicate Valid()
      reads this, cards
    {
      && Numbered(cards)
      && TimersOk()
      && |flippedCards| <= 2
      && (forall k :: 0 <= k < |flippedCards| ==> 0 <= flippedCards[k] < DECK_SIZE)
      && (isLocked <==> |flippedCards| == 2)
      && (|flippedCards| == 1 ==> cards[flippedCards[0]].flipped && !cards[flippedCards[0]].matched)
      && (isLocked ==> |timers| >= 1 && timers[|timers| - 1] == Timer(cards, flippedCards[0], flippedCards[1]))
      && moves >= 0
    }

    /** Every pending timer holds a full numbered deck and two positions in it. */
    ghost predicate TimersOk()
      reads this
    {
      forall k :: 0 <= k < |timers| ==> TimerOk(timers[k])
    }

    /** The first render: a new game, and the stored best score if there is one. */
    constructor(order: seq<string>, storedBest: Option<int>)
      requires multiset(order) == multiset(PAIRS)
      ensures Valid() && |cards| == |order|
      ensures forall i :: 0 <= i < |cards| ==>
        cards[i].emoji == order[i] && !cards[i].flipped && !cards[i].matched
      ensures flippedCards == [] && moves == 0 && !isLocked && bestScore == storedBest && timers == []
    {
      cards := [];
      flippedCards := [];
      moves := 0;
      bestScore := storedBest;
      isLocked := false;
      timers := [];
      new;
      StartNewGame(order);
    }

    /**
     * startNewGame: sixteen new face-down, unmatched cards in the shuffled
     * order (order is any permutation of PAIRS), numbered by position; no
     * card turned up, no moves, unlocked. Pending timers are not cancelled.
     */
    method StartNewGame(order: seq<string>)
      requires multiset(order) == multiset(PAIRS) && TimersOk()
      modifies this
      ensures Valid() && |cards| == |order|
      ensures forall i :: 0 <= i < |cards| ==>
        fresh(cards[i]) && cards[i].emoji == order[i] && !cards[i].flipped && !cards[i].matched
      ensures flippedCards == [] && moves == 0 && !isLocked
      ensures bestScore == old(bestScore) && timers == old(timers)
    {
      ShuffleSize(order);
      var shuffled: seq<Card> := [];
      for i := 0 to |order|
        invariant |shuffled| == i && bestScore == old(bestScore) && timers == old(timers)
        invariant forall j :: 0 <= j < i ==>
          fresh(shuffled[j]) && shuffled[j].id == j && shuffled[j].emoji == order[j]
          && !shuffled[j].flipped && !shuffled[j].matched
      {
        var c := new Card(i, order[i]);
        shuffled := shuffled + [c];
      }
      cards := shuffled;
      flippedCards := [];
      moves := 0;
      isLocked := false;
    }

    /**
     * handleCardClick: ignored while locked and on a card that is face up or
     * matched. Otherwise the card turns face up and its index joins the
     * turned-up list; the second card counts one move and locks the board.
     * A pair with equal emojis is matched at once and the board unlocks (and
     * a finished deck updates the best score); an unequal pair stays up and
     * its un-flip timer is scheduled.
     */
    method HandleCardClick(index: int)
      requires Valid() && 0 <= index < |cards|
      modifies this, cards
      ensures Valid()
      ensures cards == old(cards)
      ensures old(isLocked || cards[index].flipped || cards[index].matched) ==>
        && flippedCards == old(flippedCards) && moves == old(moves) && isLocked == old(isLocked)
        && bestScore == old(bestScore) && timers == old(timers)
        && forall i :: 0 <= i < |cards| ==>
             cards[i].flipped == old(cards[i].flipped) && cards[i].matched == old(cards[i].matched)
      ensures !old(isLocked || cards[index].flipped || cards[index].matched) && |old(flippedCards)| == 0 ==>
        && flippedCards == [index] && moves == old(moves) && !isLocked
        && bestScore == old(bestScore) && timers == old(timers)
        && cards[index].flipped && !cards[index].matched
        && forall i :: 0 <= i < |cards| && i != index ==>
             cards[i].flipped == old(cards[i].flipped) && cards[i].matched == old(cards[i].matched)
      ensures !old(isLocked || cards[index].flipped || cards[index].matched) && |old(flippedCards)| == 1 ==>
        var first := old(flippedCards[0]);
        && first != index && moves == old(moves) + 1
        && cards[index].flipped
        && (forall i :: 0 <= i < |cards| && i != index && i != first ==>
             cards[i].flipped == old(cards[i].flipped) && cards[i].matched == old(cards[i].matched))
        && (cards[first].emoji == cards[index].emoji ==>
             && cards[first].matched && cards[index].matched && cards[first].flipped
             && flippedCards == [] && !isLocked && timers == old(timers)
             && bestScore == if AllMatched(cards) then NewBest(old(bestScore), old(moves) + 1) else old(bestScore))
        && (cards[first].emoji != cards[index].emoji ==>
             && cards[first].flipped && !cards[first].matched && !cards[index].matched
             && flippedCards == [first, index] && isLocked && bestScore == old(bestScore)
             && timers == old(timers) + [Timer(cards, first, index)])
    {
      if isLocked {
        return;
      }
      var clicked := cards[index];
      if clicked.flipped || clicked.matched {
        return;
      }
      var newCards := cards;
      newCards[index].flipped := true;
      var newFlipped := flippedCards + [index];
      cards := newCards;
      flippedCards := newFlipped;
      if |newFlipped| == 2 {
        ComparePair();
      }
    }

    /**
     * The second card of a pair has just been turned up: count the move and
     * lock, then either match both cards and unlock (updating the best score
     * when the deck is finished) or schedule the un-flip timer.
     */
    method ComparePair()
      requires Numbered(cards) && TimersOk() && moves >= 0 && |flippedCards| == 2
      requires 0 <= flippedCards[0] < DECK_SIZE && 0 <= flippedCards[1] < DECK_SIZE
      requires flippedCards[0] != flippedCards[1]
      requires cards[flippedCards[0]].flipped && !cards[flippedCards[0]].matched
      requires cards[flippedCards[1]].flipped && !cards[flippedCards[1]].matched
      modifies this, cards
      ensures Valid() && cards == old(cards) && moves == old(moves) + 1
      ensures forall i :: 0 <= i < |cards| ==> cards[i].flipped == old(cards[i].flipped)
      ensures var a, b := old(flippedCards[0]), old(flippedCards[1]);
        && (forall i :: 0 <= i < |cards| && i != a && i != b ==> cards[i].matched == old(cards[i].matched))
        && (cards[a].emoji == cards[b].emoji ==>
             && cards[a].matched && cards[b].matched
             && flippedCards == [] && !isLocked && timers == old(timers)
             && bestScore == if AllMatched(cards) then NewBest(old(bestScore), old(moves) + 1) else old(bestScore))
        && (cards[a].emoji != cards[b].emoji ==>
             && !cards[a].matched && !cards[b].matched
             && flippedCards == old(flippedCards) && isLocked && bestScore == old(bestScore)
             && timers == old(timers) + [Timer(cards, a, b)])
    {
      isLocked := true;
      var movesBefore := moves;
      moves := moves + 1;
      var first, second := cards[flippedCards[0]], cards[flippedCards[1]];
      assert first.id == flippedCards[0] && second.id == flippedCards[1];
      if first.emoji == second.emoji {
        MarkMatched(cards, first.id, second.id);
        flippedCards := [];
        isLocked := false;
        if AllMatched(cards) {
          if bestScore == None || bestScore == Some(0) || movesBefore + 1 < bestScore.value {
            bestScore := Some(movesBefore + 1);
          }
        }
      } else {
        assert TimerOk(Timer(cards, first.id, second.id));
        timers := timers + [Timer(cards, first.id, second.id)];
      }
    }

    /** Marks the cards with ids a and b as matched and touches no other flag. */
    static method MarkMatched(deck: seq<Card>, a: int, b: int)
      requires Numbered(deck) && 0 <= a < DECK_SIZE && 0 <= b < DECK_SIZE
      modifies deck[a], deck[b]
      ensures deck[a].matched && deck[b].matched
      ensures forall i :: 0 <= i < |deck| ==> deck[i].flipped == old(deck[i].flipped)
      ensures forall i :: 0 <= i < |deck| && i != a && i != b ==> deck[i].matched == old(deck[i].matched)
    {
      deck[a].matched := true;
      deck[b].matched := true;
    }

    /**
     * The un-flip timer firing: the oldest pending timer turns its two cards
     * face down, shows the card list it captured, clears the turned-up list
     * and unlocks. No card's matched flag changes.
     */
    method ResolveMismatch()
      requires Valid() && |timers| > 0
      modifies this, timers[0].deck
      ensures Valid()
      ensures var t := old(timers[0]);
        && cards == t.deck && timers == old(timers[1..])
        && !cards[t.first].flipped && !cards[t.second].flipped
        && (forall i :: 0 <= i < |cards| && i != t.first && i != t.second ==> cards[i].flipped == old(t.deck[i].flipped))
        && (forall i :: 0 <= i < |cards| ==> cards[i].matched == old(t.deck[i].matched))
      ensures flippedCards == [] && !isLocked && moves == old(moves) && bestScore == old(bestScore)
    {
      var t := timers[0];
      timers := timers[1..];
      t.deck[t.first].flipped := false;
      t.deck[t.second].flipped := false;
      cards := t.deck;
      flippedCards := [];
      isLocked := false;
    }
  }
}
