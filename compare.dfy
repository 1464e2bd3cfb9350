/**
 * `PokerHand#<=>`: hands are ordered by the `rank` of their category
 * and, within a category, by their `best_hand` compared card by card on
 * rank value alone.
 */
module Ordering {
  import opened Cards
  import opened HandViews
  import opened Classification
  import opened HandTypes

  /**
   * `best_hand` of the category module the hand is extended with, each
   * category in its corrected form: every hand is judged on exactly
   * `cards_needed` cards.
   */
  function BestHand(h: Hand): (r: seq<Card>)
    requires ValidHand(h)
    ensures |r| == CardsNeeded(|h|)
  {
    match Classify(h)
    case StraightFlush => StraightFlushBest(h)
    case FourOfAKind =>
      FourOfAKindBestLength(h);
      FourOfAKindBest(h)
    case FullHouse => FullHouseBest(h)
    case Flush => FlushBest(h)
    case Straight => StraightBest(h)
    case ThreeOfAKind =>
      ClassifyIsStrongest(h, FourOfAKind);
      ThreeOfAKindBest(h)
    case TwoPair => TwoPairBest(h)
    case Pair => PairBest(h)
    case HighCard => HighCardBest(h)
  }

  /**
   * `PokerHand#<=>`: the stronger category wins; hands of one category
   * compare by `best_hand`, the first card of unequal value deciding.
   */
  function CompareHands(a: Hand, b: Hand): (c: int)
    requires ValidHand(a) && ValidHand(b)
    ensures c == -1 || c == 0 || c == 1
    ensures Strength(Classify(a)) > Strength(Classify(b)) ==> c == 1
    ensures Strength(Classify(a)) < Strength(Classify(b)) ==> c == -1
  {
    if Strength(Classify(a)) == Strength(Classify(b)) then
      CompareCardSeqs(BestHand(a), BestHand(b))
    else
      CompareInts(Strength(Classify(a)), Strength(Classify(b)))
  }

  /** Two hands tie exactly when they share a category and their best hands agree rank by rank. */
  lemma CompareHandsZero(a: Hand, b: Hand)
    requires ValidHand(a) && ValidHand(b)
    ensures CompareHands(a, b) == 0 <==> Classify(a) == Classify(b) && SameRanks(BestHand(a), BestHand(b))
  {
    StrengthInjective(Classify(a), Classify(b));
    CompareCardSeqsZero(BestHand(a), BestHand(b));
  }

  /** Every hand ties with itself. */
  lemma CompareHandsReflexive(a: Hand)
    requires ValidHand(a)
    ensures CompareHands(a, a) == 0
  {
    CompareHandsZero(a, a);
  }

  /** Swapping the hands negates the comparison. */
  lemma CompareHandsAntisymmetric(a: Hand, b: Hand)
    requires ValidHand(a) && ValidHand(b)
    ensures CompareHands(b, a) == -CompareHands(a, b)
  {
    CompareCardSeqsAntisymmetric(BestHand(a), BestHand(b));
  }

  /** The order `<=>` gives is transitive. */
  lemma CompareHandsTransitive(a: Hand, b: Hand, c: Hand)
    requires ValidHand(a) && ValidHand(b) && ValidHand(c)
    requires CompareHands(a, b) < 0 && CompareHands(b, c) < 0
    ensures CompareHands(a, c) < 0
  {
    if Strength(Classify(a)) == Strength(Classify(b)) == Strength(Classify(c)) {
      CompareCardSeqsTransitive(BestHand(a), BestHand(b), BestHand(c));
    }
  }

  /** Ties are transitive too, so `<=>` orders hands by a total preorder. */
  lemma CompareHandsTieTransitive(a: Hand, b: Hand, c: Hand)
    requires ValidHand(a) && ValidHand(b) && ValidHand(c)
    requires CompareHands(a, b) == 0 && CompareHands(b, c) == 0
    ensures CompareHands(a, c) == 0
  {
    CompareHandsZero(a, b);
    CompareHandsZero(b, c);
    CompareHandsZero(a, c);
  }
}
