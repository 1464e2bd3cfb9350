# Poker hand evaluator

A model of a Ruby poker hand evaluator. It takes a hand of two to seven cards from a standard deck, with no wild cards. Classification puts the hand in one of nine categories, from straight flush down to high card. Each category supplies a numeric `rank` and a `best_hand`: the cards that break ties between hands of that category. Two hands are ordered by category first and then by `best_hand`, compared card by card on rank value alone. With fewer than five cards, a "straight" or a "flush" means one of `cards_needed = min(size, 5)` cards.

The Dafny modules follow the three Ruby files:

- `Cards` (cards.dfy) models `Card` from cards.rb. It covers the rank table and values 2..14, `rank_index`, `<=>` and `==`, the 52-card deck, and two-character parsing.
- `Seqs` (seqs.dfy) holds the Ruby array operations the evaluator relies on:
  - sorting by a key;
  - `uniq` by a key;
  - `flatten`;
  - the arithmetic of `each_cons` windows over consecutive rank indices.
- `HandViews` (views.dfy) models the views that poker_hand.rb memoizes:
  - `cards_sorted_ace_high`;
  - `cards_by_rank`, whose groups are ordered by count and then by rank;
  - `cards_by_suit`, whose groups are in first-appearance order;
  - `cards_needed`.
- `Classification` (classify.dfy) holds:
  - the nine predicates of poker_hand.rb;
  - the run test shared by `straight?` and `straight_flush?`;
  - the `Category` datatype, which stands in for the `extend` of a category module;
  - the numeric `rank` of each category (`Strength`);
  - `set_type_of_hand` as the pure function `Classify`.
- `HandTypes` (hand_types.dfy) holds the `best_hand` of every category module. Where the code differs from the evidently intended behaviour, the module defines two versions:
  - an as-written version;
  - a corrected version, used by the rest of the model.
- `Ordering` (compare.dfy) holds `best_hand` dispatched on the category, and `PokerHand#<=>` as a pure function.
- `PokerHands` (poker_hand.dfy) models the `PokerHand` object as a class. Its state is:
  - `@cards`, which `cards_sorted_ace_high` sorts in place;
  - the three memos set with `||=`;
  - the category.

  The class methods model the following:
  - `initialize` and `set_type_of_hand`;
  - every predicate;
  - the memoized views;
  - each category's `best_hand`;
  - `<=>`.

  Each method is proved against the pure functions of the other modules. The in-place updates are modelled too:
  - `sort!` on a memoized suit group (in `straight_flush?` and in `Flush#best_hand`);
  - the append into the memoized quads in `FourOfAKind#best_hand`, shown to make that method answer differently on a second call.

A valid hand (`ValidHand`) has two to seven cards with no card twice. The code assumes this of its callers but never checks it, so it is a precondition here.

## Model

| member | source | states |
|---|---|---|
| Cards.Value | cards.rb:6-10 | every rank is valued between 2 and 14 |
| Cards.ValueFollowsRankTable | cards.rb:6-10 | the rank at position i of `RANKS` is valued i + 2, so values rise strictly along the table |
| Cards.RankIndex | cards.rb:51-53 | `rank_index` is a position of `RANKS`, 0..12 |
| Cards.RankIndexInverse | cards.rb:51-53 | `RANKS[rank_index(r)] == r` for every rank |
| Cards.ValueInjective | cards.rb:10 | two ranks share a value exactly when they are the same rank |
| Cards.CompareCards | cards.rb:20-22 | `Card#<=>` is -1, 0 or 1. It is negative exactly when the left card's value is lower and zero exactly when the ranks agree, so the suit never matters |
| Cards.SameCard | cards.rb:28-30 | `Card#==` holds exactly when rank and suit both agree |
| Cards.CardComparisonFixtures | cards_test.rb:6-14 | Jack beats Eight; the Three of clubs ties the Three of hearts without equalling it; King loses to Ace; a Jack of clubs equals a Jack of clubs |
| Cards.CompareCardSeqsZero | poker_hand.rb:139 | `Array#<=>` over cards is zero exactly when the arrays have the same length and the same rank at every position |
| Cards.CompareCardSeqsAntisymmetric | poker_hand.rb:139 | swapping the arrays negates the comparison |
| Cards.CompareCardSeqsTransitive | poker_hand.rb:139 | the comparison of card arrays is transitive |
| Cards.LeadingCardDecides | poker_hand.rb:139 | arrays whose first cards differ in rank are ordered by the values of those cards |
| Cards.CreateDeck | cards.rb:41-49 | the deck has 52 cards. Position i holds rank i mod 13 of suit i div 13 (suits outer, ranks inner). No card appears twice and every card appears |
| Cards.RankOfChar | cards.rb:65-81 | the rank table knows exactly the characters 2-9, T, J, Q, K, A |
| Cards.SuitOfChar | cards.rb:83-90 | the suit table knows exactly C, D, H, S, and none of them yields spades |
| Cards.FromStr | cards.rb:36-39 | the rank is present exactly when the first character is in the rank table, and the suit exactly when the second is in the suit table. Nothing is rejected and spades never result |
| Cards.FromStrMisreadsSpades | cards.rb:83-90 | parsing a card's two-character token gives back its rank. It gives back its suit for clubs, diamonds and hearts, and `:suits` for spades |
| Cards.ParseCard | cards.rb:36-39 | with the corrected suit table, parsing succeeds exactly on two valid characters |
| Cards.ParseCardRoundTrip | cards.rb:36-39 | with the corrected table every one of the 52 tokens parses back to its card |
| Seqs.SortDescBy | poker_hand.rb:173 | sorting gives a permutation of its input in descending key order |
| Seqs.UniqBy | poker_hand.rb:91 | `uniq` by a key keeps one element per key: no key twice, only elements of the input, and every key of the input |
| Seqs.UniqByKeepsFirsts | poker_hand.rb:91 | `uniq` by a key gives exactly the elements whose key no earlier element has, in input order |
| Seqs.UniqBySorted | poker_hand.rb:91 | `uniq` by rank of cards sorted by value gives values in strictly descending order |
| Seqs.WindowRunIff | poker_hand.rb:96-98 | over strictly decreasing rank indices, some `each_cons(k)` window spans exactly k - 1 exactly when k consecutive indices are all present |
| Seqs.FirstWindowIsHighest | poker_hand.rb:96-98 | the first window that spans k - 1 holds consecutive indices and tops the highest run present |
| HandViews.CardsNeeded | poker_hand.rb:201-203 | `cards_needed` is the size or 5, whichever is smaller, so it lies in 2..5 for a valid hand |
| HandViews.SortedAceHigh | poker_hand.rb:172-174 | the sorted cards are a permutation of the hand in descending order of value |
| HandViews.DistinctRanks | poker_hand.rb:181 | the keys of `group_by(&:rank)`: no rank twice, exactly the ranks in the hand |
| HandViews.RankGroupOrder | poker_hand.rb:180-187 | the ranks of `cards_by_rank` appear once each, are exactly the ranks present, and are ordered by count descending and then by value descending |
| HandViews.CardsByRank | poker_hand.rb:180-187 | group i holds the cards of the i-th rank in that order and is never empty |
| HandViews.FlattenCardsByRank | poker_hand.rb:180-187 | flattening the rank groups gives a permutation of the hand |
| HandViews.GroupDominates | poker_hand.rb:180-187 | no rank outside the first i groups has more cards than group i, nor as many with a higher value |
| HandViews.OfRankMembers | poker_hand.rb:181 | a rank group holds exactly the cards of the hand with that rank |
| HandViews.OfSuitMembers | poker_hand.rb:194 | a suit group holds exactly the cards of the hand with that suit |
| HandViews.CountAtMostFour | poker_hand.rb:6-7 | a hand from one deck holds at most four cards of a rank |
| HandViews.CardsBySuit | poker_hand.rb:193-195 | the groups correspond one to one to the suits present: group i holds exactly the hand's cards of the i-th suit, and every suit in the hand has a group |
| HandViews.FlushGroup | poker_hand.rb:49 | a suit group reaching `cards_needed` is found exactly when some suit reaches it, and it is that suit's cards |
| HandViews.FlushGroupUnique | poker_hand.rb:49 | `find` over `cards_by_suit` yields the group of any suit that reaches `cards_needed`, so at most one suit can |
| HandViews.RestOfGroups | hand_types.rb:29 | the groups after the first i, flattened, hold exactly the cards whose rank is not among the first i ranks |
| Classification.StrengthFollowsClassificationOrder | hand_types.rb:3-96 | the category `rank`s strictly decrease along the order in which `set_type_of_hand` tests the categories |
| Classification.StrengthInjective | hand_types.rb:3-96 | no two categories share a `rank` |
| Classification.Classify | poker_hand.rb:22-34 | the category chosen has its predicate holding (high card unconditionally) |
| Classification.ClassifyIsStrongest | poker_hand.rb:22-34 | no category stronger than the one chosen has its predicate holding |
| Classification.FourOfAKindQIff | poker_hand.rb:66-68 | `four_of_a_kind?` holds exactly when some rank has four cards |
| Classification.FullHouseQIff | poker_hand.rb:73-78 | `full_house?` holds exactly when the hand has five or more cards, one rank with three or more and another with two or more |
| Classification.FlushQIff | poker_hand.rb:83-85 | `flush?` holds exactly when some suit has `cards_needed` cards |
| Classification.FlushGroupIffFlushQ | poker_hand.rb:49 | `find` reaches a suit group exactly when `flush?` holds |
| Classification.HasRunIff | poker_hand.rb:93-98 | the run test on distinct ranks, highest first, holds exactly when the hand holds the ace-low run or k consecutive ranks |
| Classification.StraightQIff | poker_hand.rb:90-99 | `straight?` holds exactly when the hand holds a run of `cards_needed` ranks, ace-low included |
| Classification.StraightFlushQIff | poker_hand.rb:48-61 | `straight_flush?` holds exactly when some suit reaches `cards_needed` and that suit alone holds a run of `cards_needed` |
| Classification.UniqSortedRanksDecrease | poker_hand.rb:91 | the distinct ranks of the sorted cards have strictly decreasing rank indices |
| Classification.ThreeOfAKindQIff | poker_hand.rb:105-107 | `three_of_a_kind?` holds exactly when some rank has three or more cards |
| Classification.TwoPairQIff | poker_hand.rb:113-116 | `two_pair?` holds exactly when two different ranks each have two or more cards |
| Classification.PairQIff | poker_hand.rb:122-124 | `pair?` holds exactly when some rank has two or more cards |
| Classification.HighCardQIff | poker_hand.rb:129-131 | `high_card?` holds exactly when no rank has two cards |
| Classification.HighCardQIsNoPair | poker_hand.rb:122-131 | `high_card?` is the negation of `pair?` |
| Classification.FirstGroupIsLargest | poker_hand.rb:180-187 | the first rank group is at least as large as every rank's count |
| Classification.FirstGroupReaches | poker_hand.rb:180-187 | the first group has n or more cards exactly when some rank has n or more |
| Classification.SecondGroupIsLargestOfRest | poker_hand.rb:180-187 | the second group is at least as large as every rank other than the first |
| Classification.PocketPairCrashes | poker_hand.rb:113-116 | as written, `two_pair?` is reached with no second rank group (and raises) exactly on a two-card pocket pair |
| Classification.ClassifyPocketPair | poker_hand.rb:113-124 | with the missing group read as no pair, a pocket pair is classified as a pair |
| HandTypes.FirstWindowFrom | hand_types.rb:12-16 | `find` over `each_cons` returns the first window spanning k - 1 rank indices, or none when no window does |
| HandTypes.FirstWindowIffWindowRun | hand_types.rb:12-16 | a window is found exactly when the window test of the run check holds |
| HandTypes.AceLowShape | poker_hand.rb:162-165 | when the ranks hold a run but no window spans one, the first card is an ace and the last k - 1 cards are the ranks k down to two (five down to two when k = 5) |
| HandTypes.BestRunIsHighest | hand_types.rb:12-16 | when the hand holds a run other than the ace-low one, the window found is a run and its top is the highest run top in the hand |
| HandTypes.BestRunIsAceLow | hand_types.rb:14 | when the only run is ace-low, the fallback gives the ace-low run |
| HandTypes.StraightBest | hand_types.rb:58-65 | the corrected straight best hand has `cards_needed` cards |
| HandTypes.StraightBestIsHighestRun | hand_types.rb:58-65 | the straight returned consists of the hand's cards and is a run of `cards_needed` ranks with the highest top the hand holds. With no run other than the wheel it is the ace-low run |
| HandTypes.StraightAsWrittenRaisesOnAceLow | hand_types.rb:62 | as written, `Straight#best_hand` fails exactly when the hand's only straight is ace-low; otherwise it agrees with the corrected one |
| HandTypes.WheelRaises | hand_types.rb:58-65 | A-2-3-4-5 offsuit is a straight on which the as-written method fails and the corrected one gives the ace-low run |
| HandTypes.StraightFlushBest | hand_types.rb:5-17 | the corrected straight flush best hand has `cards_needed` cards |
| HandTypes.StraightFlushBestIsHighestRun | hand_types.rb:5-17 | the straight flush returned is cards of the flush suit forming that suit's highest run. With no run other than the wheel it is the ace-low run |
| HandTypes.AceLowAsWrittenLength | poker_hand.rb:162-165 | as written, `ace_low_straight` drops `size - cards_needed + 1` distinct ranks, so it returns fewer than `cards_needed` cards when ranks repeat |
| HandTypes.SteelWheelWithPairIsShort | poker_hand.rb:162-165 | the hearts wheel plus the five of diamonds is a straight flush whose as-written best hand has 4 cards and whose corrected best hand has 5 |
| HandTypes.FlushBest | hand_types.rb:46-52 | the flush best hand has `cards_needed` cards |
| HandTypes.FlushBestIsTopOfSuit | hand_types.rb:46-52 | the flush returned is the `cards_needed` highest cards of the flush suit in strictly descending order. No card of that suit left out beats the lowest card kept |
| HandTypes.FourOfAKindBestShape | hand_types.rb:23-30 | the corrected best hand is the four quads followed, when there are other cards, by one card of another rank with the highest value among them |
| HandTypes.FourOfAKindBestLength | hand_types.rb:23-30 | a four of a kind has `cards_needed` cards in its corrected best hand |
| HandTypes.QuadsInGivenOrder | hand_types.rb:24 | as written, quad kings with a two kicker, given two first, lose to quad twos with an ace, given ace first; corrected, the kings win |
| HandTypes.QuadsHand | poker_hand.rb:66-68 | five distinct cards with four of one rank are a four of a kind whose best hand leads with that rank |
| HandTypes.FullHouseBest | hand_types.rb:36-40 | the corrected full house best hand has exactly five cards |
| HandTypes.FullHouseBestShape | hand_types.rb:36-40 | the corrected best hand is three cards of the trips rank, then two of the pair rank. The trips rank beats every other rank by count then value, and the pair rank beats every remaining rank |
| HandTypes.FullHouseOfFive | poker_hand.rb:73-78 | five cards with three of one rank and two of another are a full house whose best hand leads with the trips |
| HandTypes.FullHouseInGivenOrder | hand_types.rb:37 | as written, kings full of twos given twos first loses to threes full of aces; corrected, the kings win |
| HandTypes.FullHouseAsWrittenTakesTwoTrips | hand_types.rb:39 | as written, a hand of more than five cards holding two trips gives a six-card best hand |
| HandTypes.FindGroupOfCount | hand_types.rb:72 | `find` of a group of exactly n cards returns a group of n cards, or none when no group has n |
| HandTypes.WithoutRankMembers | hand_types.rb:73 | `reject` by rank keeps exactly the cards of other ranks |
| HandTypes.TripsComeFirst | hand_types.rb:72 | for three of a kind without quads, the group found by `find` is the first rank group, of three cards |
| HandTypes.ThreeOfAKindBestShape | hand_types.rb:71-74 | the corrected best hand is the three trips cards, then kickers of other ranks from the hand in descending value. The trips rank is the highest triple, and no card left out beats the lowest kicker |
| HandTypes.ThreeOfAKindAsWrittenExtraKicker | hand_types.rb:73 | the as-written result has four elements: the three trips cards of the corrected hand, then one nested array of `cards_needed - 2` kickers (or all that remain). Flattened, it equals the corrected hand up to five cards; from six cards it has six cards, the first five being the corrected hand |
| HandTypes.ThreeOfAKindSecondCallFindsNoTrips | hand_types.rb:72-73 | after one call the memo still holds one entry per rank, the trips entry has grown to four elements, and no entry has three, so a second `find {\|c\| c.count == 3}` yields nil |
| HandTypes.OtherGroupsBelowThree | poker_hand.rb:180-186 | in a three of a kind that is no full house, every rank group after the first has fewer than three cards |
| HandTypes.TwoPairBestShape | hand_types.rb:80-84 | the best hand is the higher pair, then the lower pair, with the two pair ranks beating every other paired rank; it has `cards_needed` cards |
| HandTypes.TwoPairKicker | hand_types.rb:80-84 | the fifth card is a card of the hand outside both pairs with the highest value among such cards |
| HandTypes.PairBestShape | hand_types.rb:90-92 | the corrected best hand is the pair, then kickers of the hand in strictly descending value; no other rank is paired |
| HandTypes.PairLeftOutIsLower | hand_types.rb:90-92 | no card left out of the pair's best hand beats its lowest kicker |
| HandTypes.PairAsWrittenOneShort | hand_types.rb:91 | as written the range stops one card short: `cards_needed - 1` cards, a prefix of the corrected hand |
| HandTypes.HighCardBestIsTop | hand_types.rb:98-100 | the corrected best hand is cards of the hand in strictly descending value, and no card left out beats the lowest kept |
| HandTypes.HighCardAsWrittenExtraCard | hand_types.rb:99 | as written the inclusive range takes one card more: equal to the corrected hand up to five cards, six cards from six on |
| HandTypes.MaxByValue | hand_types.rb:29 | `max` of non-empty cards is one of them with the highest value |
| Ordering.BestHand | hand_types.rb:5-100 | every category's corrected best hand has exactly `cards_needed` cards |
| Ordering.CompareHands | poker_hand.rb:137-143 | `<=>` is -1, 0 or 1; the stronger category always wins |
| Ordering.CompareHandsZero | poker_hand.rb:137-143 | two hands tie exactly when they share a category and their best hands agree rank by rank |
| Ordering.CompareHandsReflexive | poker_hand.rb:137-143 | every hand ties with itself |
| Ordering.CompareHandsAntisymmetric | poker_hand.rb:137-143 | swapping the hands negates the result |
| Ordering.CompareHandsTransitive | poker_hand.rb:137-143 | the order on hands is transitive |
| Ordering.CompareHandsTieTransitive | poker_hand.rb:137-143 | ties are transitive |
| PokerHands.SortAscending | hand_types.rb:50 | `sort!` on a group gives a permutation of it in ascending value |
| PokerHands.ReverseOfTail | hand_types.rb:50-51 | the last k cards of the ascending order, reversed, are the first k of the descending order |
| PokerHands.SortedDistinctUnique | hand_types.rb:50 | two orderings of the same cards, each strictly descending in value, are the same, so the order of a suit group before sorting does not matter |
| PokerHands.MemoFlushGroup | poker_hand.rb:49 | on the memoized suit groups, however reordered, `find` reaches a group exactly when the hand has a flush group, and that group sorts to the sorted flush group |
| PokerHands.StraightFlushOnMemoNone | poker_hand.rb:49-51 | when no memoized group reaches `cards_needed` there is no straight flush |
| PokerHands.StraightFlushOnMemo | poker_hand.rb:49-61 | the found group, sorted ascending, is the flush group sorted ascending; putting it back keeps the memo a reordering of the suit groups, and its ranks, reversed, hold a run exactly when the hand is a straight flush |
| PokerHands.FlushOnMemo | hand_types.rb:46-52 | on a flush, the found group sorted ascending, last `cards_needed` cards reversed, is the flush best hand; it is the flush group sorted ascending, and the memo with it put back holds it and stays a reordering of the suit groups |
| PokerHands.FlushFromMemo | hand_types.rb:46-52 | the `find`, `sort!` and slice of `Flush#best_hand` yield the flush best hand and a memo that is still a reordering of the suit groups and holds the flush group sorted ascending |
| PokerHands.ReorderSuitGroup | poker_hand.rb:53 | replacing one memoized suit group by a permutation of it keeps the memo a reordering of the suit groups |
| PokerHands.SuitGroupSizes | poker_hand.rb:84 | the memoized suit groups have the sizes of the suit groups |
| PokerHands.ClassifyAfterFlush | poker_hand.rb:28-32 | once the first four tests fail, the category is the first of straight, three of a kind, two pair, pair, high card whose test holds |
| PokerHands.TripsAndKickers | hand_types.rb:71-74 | for three of a kind a group of three is found, there are enough other-rank kickers, and the best hand is the trips then those kickers |
| PokerHands.QuadsAndKicker | hand_types.rb:26-29 | for four of a kind of more than five cards, the best hand is the first rank group of four plus the highest card of the other groups |
| PokerHands.CompareHandsSameStrength | poker_hand.rb:138-139 | hands of equal `rank` compare by their best hands |
| PokerHands.PokerHand.constructor | poker_hand.rb:14-18 | the new hand is classified and keeps the caller's cards unsorted when its category is settled before `straight?` |
| PokerHands.PokerHand.SetTypeOfHand | poker_hand.rb:22-34 | afterwards the hand is classified: its category is `Classify` of the cards and every memo set is the view of the cards it names. When the category is decided before `straight?`, `@cards` is left unsorted |
| PokerHands.PokerHand.TypeBeforeSort | poker_hand.rb:23-27 | the four tests before `straight?` settle the hand exactly when its category is one of those four, and then it is classified; `@cards` stays unsorted |
| PokerHands.PokerHand.TypeAfterSort | poker_hand.rb:28-32 | when none of the first four holds, the remaining tests classify the hand; `@cards` is sorted by then |
| PokerHands.PokerHand.Settle | poker_hand.rb:24-32 | `extend` sets the category the tests found and leaves every memo as it was, so the memos still hold the views of the cards given |
| PokerHands.PokerHand.TypeOfRankGroups | poker_hand.rb:29-32 | three of a kind, two pair, pair and high card are read off the rank groups in that order |
| PokerHands.PokerHand.CardsSortedAceHigh | poker_hand.rb:172-174 | the first call sorts `@cards` itself and memoizes that array; every call returns the sorted cards |
| PokerHands.PokerHand.CardsByRankView | poker_hand.rb:180-187 | the rank groups are taken once and then returned from the memo |
| PokerHands.PokerHand.CardsBySuitView | poker_hand.rb:193-195 | the suit groups are taken once; a later call returns the memo as reordered since |
| PokerHands.PokerHand.IsStraightFlush | poker_hand.rb:48-61 | the method answers `straight_flush?` of the cards |
| PokerHands.PokerHand.SortFlushGroup | poker_hand.rb:49-53 | with no suit group large enough the hand has no flush group and no straight flush; otherwise the result is the flush group sorted ascending, it now sits in the memo, and its reversed ranks decide the straight flush |
| PokerHands.PokerHand.IsFourOfAKind | poker_hand.rb:66-68 | the method answers `four_of_a_kind?` of the cards |
| PokerHands.PokerHand.IsFullHouse | poker_hand.rb:73-78 | the method answers `full_house?` of the cards |
| PokerHands.PokerHand.IsFlush | poker_hand.rb:83-85 | the method answers `flush?` of the cards |
| PokerHands.PokerHand.IsStraight | poker_hand.rb:90-99 | the method answers `straight?` of the cards, sorting them on first use |
| PokerHands.PokerHand.IsThreeOfAKind | poker_hand.rb:105-107 | the method answers `three_of_a_kind?` of the cards |
| PokerHands.PokerHand.IsTwoPair | poker_hand.rb:113-116 | the method answers `two_pair?` of the cards, with a missing second group read as no pair |
| PokerHands.PokerHand.IsPair | poker_hand.rb:122-124 | the method answers `pair?` of the cards |
| PokerHands.PokerHand.IsHighCard | poker_hand.rb:129-131 | the method answers `high_card?` of the cards |
| PokerHands.PokerHand.BestHand | hand_types.rb:5-100 | `best_hand` of the category the hand was extended with equals the corrected best hand of its cards, and the hand stays classified |
| PokerHands.PokerHand.BestStraightFlush | hand_types.rb:5-17 | the method gives the corrected straight flush best hand |
| PokerHands.PokerHand.BestFourOfAKind | hand_types.rb:23-30 | the method gives the corrected four of a kind best hand, on a copy of the quads |
| PokerHands.PokerHand.BestFullHouse | hand_types.rb:36-40 | the method gives the corrected full house best hand |
| PokerHands.PokerHand.BestFlush | hand_types.rb:46-52 | the method gives the flush best hand, and afterwards the memo holds the flush group sorted ascending |
| PokerHands.PokerHand.BestStraight | hand_types.rb:58-65 | the method gives the corrected straight best hand |
| PokerHands.PokerHand.BestThreeOfAKind | hand_types.rb:71-74 | the method gives the corrected three of a kind best hand |
| PokerHands.PokerHand.BestTwoPair | hand_types.rb:80-84 | the method gives the two pair best hand |
| PokerHands.PokerHand.BestPair | hand_types.rb:90-92 | the method gives the corrected pair best hand |
| PokerHands.PokerHand.BestHighCard | hand_types.rb:98-100 | the method gives the corrected high card best hand |
| PokerHands.PokerHand.FourOfAKindBestInPlace | hand_types.rb:23-30 | as written: up to five cards it returns `@cards`; beyond, it appends the highest other card to the memoized quads and returns that grown group |
| PokerHands.PokerHand.Compare | poker_hand.rb:137-143 | `<=>` on two hand objects, possibly the same object, equals `CompareHands` of their cards |
| PokerHands.QuadsGrowOnRepeat | hand_types.rb:29 | as written, asking a four of a kind of more than five cards twice gives five cards and then six: the first answer with one more kicker |
| PokerHands.AskQuadsTwice | hand_types.rb:29 | two as-written calls return the quads plus one kicker, then the same plus another copy of it |

## Left out

- `to_s` of a card and of a hand (cards.rb:24-26, poker_hand.rb:133-135) are display strings and are not modelled.
- The randomised hand generators and assertions of poker_hand_test.rb rely on randomness and are not modelled. Only the fixed fixtures of cards_test.rb are stated (`Cards.CardComparisonFixtures`).
- `Card.ranks` and `Card.suits` (cards.rb:55-61) only return the constant tables `Cards.Ranks` and `Cards.Suits`.
- Ruby's `sort!` is not stable, and `Card#<=>` ignores suit, so the order among cards of one rank after sorting is not determined by the source. The model sorts with a fixed insertion sort. Every claim about sorted cards is stated over rank values, except the flush and high-card claims, where ranks are distinct.
- `@cards` is held as a sequence owned by the object. The caller's own array is sorted along with it in Ruby; that aliasing is not modelled.
- The `extend` of a category module at run time is modelled as a `Category` value held by the object and a `match` on it.
- Input validation: the code never checks that a hand has two to seven cards with none twice; `ValidHand` is a precondition throughout.
- Classification and `best_hand` for a straight flush never look at `cards_by_rank`. For every other category `cards_by_rank` is taken before `straight?` sorts `@cards`. The class records this, so the case where the rank groups are built from already sorted cards never arises and is not modelled.
- `ThreeOfAKind#best_hand` appends into the memoized trips group (hand_types.rb:73), so a second call finds no group of three and raises `NoMethodError` on `nil.first`. The model states that the second `find` yields nil (`HandTypes.ThreeOfAKindSecondCallFindsNoTrips`) but not the exception itself. The memo after the first call is modelled as a value (`HandTypes.TripsMemoAfterFirstCall`), not as an update in place of the object's rank-group memo, whose groups hold only cards. `PokerHands.PokerHand.BestThreeOfAKind` works on a copy and leaves the memo unchanged.
- HandTypes.TwoPairBest: on a four-card hand the source appends `nil` (the last element of an empty array) as a fifth element. The model returns the four pair cards. Two such four-card hands with equal pairs compare equal in both (`nil <=> nil` is 0). A four-card two pair against a five-card one with the same pairs raises in Ruby (`ArgumentError` one way, `NoMethodError` the other), where the model orders the shorter hand first by the prefix rule.
- Classification.Classify, and so `Ordering.CompareHands` and `PokerHands.PokerHand.Compare`, build on the corrected `two_pair?` (`Classification.TwoPairQ`): a two-card pocket pair classifies as a pair where the source raises `NoMethodError` (see Findings, poker_hand.rb:115).
- PokerHands.PokerHand.BestHand and the other `Best*` methods give the corrected best hands. The as-written ones are the `*AsWritten` functions of `HandTypes` and `PokerHands.PokerHand.FourOfAKindBestInPlace`, each tied to the corrected one by a lemma.

## Findings

| source | as written | input that shows it | evidently intended | confidence | as-written member | corrected member |
|---|---|---|---|---|---|---|
| cards.rb:88 | the suit table maps 'S' to `:suits` | "AS" parses to an ace of `:suits` | 'S' maps to `:spades`; the corrected `Cards.ParseCard` also rejects a string whose length is not two or whose characters are unknown, where `from_str` ignores extra characters and leaves unknown ones as nil fields | not executed | Cards.FromStrMisreadsSpades | Cards.ParseCardRoundTrip |
| poker_hand.rb:115 | `two_pair?` reads the count of a second rank group that a pocket pair does not have | a two-card pocket pair, e.g. two kings: `nil.count` raises | a missing group counts as no pair, so the hand is a pair | not executed | Classification.PocketPairCrashes | Classification.ClassifyPocketPair |
| poker_hand.rb:164 | `ace_low_straight` ignores its `sorted_cards:` argument and reads the distinct ranks of the whole hand, not the suit's own cards (poker_hand.rb:163); it then drops `@size - cards_needed + 1` of them, counting repeated ranks | A-2-3-4-5 of hearts plus the five of diamonds gives 4 cards | read the suit's own cards, not the whole hand's; drop all but the `cards_needed - 1` lowest distinct ranks, then append the ace | not executed | HandTypes.SteelWheelWithPairIsShort | HandTypes.StraightFlushBestIsHighestRun |
| hand_types.rb:62 | `find` is given the array of the ace-low straight as its ifnone argument, which it calls | the wheel A-2-3-4-5 offsuit raises instead of returning | return the ace-low straight when no window is a run | not executed | HandTypes.StraightAsWrittenRaisesOnAceLow | HandTypes.StraightBestIsHighestRun |
| hand_types.rb:24 | a four of a kind of five or fewer cards returns the cards in the order given | 2♣ K♣ K♦ K♥ K♠ loses to A♣ 2♣ 2♦ 2♥ 2♠ | quads first, then the kicker | not executed | HandTypes.QuadsInGivenOrder | HandTypes.FourOfAKindBestShape |
| hand_types.rb:37 | a full house of five cards returns the cards in the order given | 2♣ 2♦ K♣ K♦ K♥ loses to 3♣ 3♦ 3♥ A♣ A♦ | trips first, then the pair | not executed | HandTypes.FullHouseInGivenOrder | HandTypes.FullHouseBestShape |
| hand_types.rb:39 | with more than five cards the first two rank groups are taken whole | two trips among six or seven cards give six cards | three of the first group and two of the second | not executed | HandTypes.FullHouseAsWrittenTakesTwoTrips | HandTypes.FullHouseBestShape |
| hand_types.rb:73 | the kicker array is appended as one nested element, and the range takes `cards_needed - 2` kickers | any three of a kind of six or seven cards gives four elements, the last a nested array of `cards_needed - 2` kickers (six cards once flattened) | the trips then `cards_needed - 3` kickers, flat | not executed | HandTypes.ThreeOfAKindAsWrittenExtraKicker | HandTypes.ThreeOfAKindBestShape |
| hand_types.rb:91 | the inclusive range `0..(cards_needed - 2)` takes `cards_needed - 1` cards | any pair of five or more cards gives four cards, dropping the last kicker | `cards_needed` cards | not executed | HandTypes.PairAsWrittenOneShort | HandTypes.PairBestShape |
| hand_types.rb:99 | the inclusive range `0..cards_needed` takes `cards_needed + 1` cards | any high-card hand of six or seven cards gives six cards | `cards_needed` cards | not executed | HandTypes.HighCardAsWrittenExtraCard | HandTypes.HighCardBestIsTop |
| hand_types.rb:72-73 | `cards <<` appends the kicker array into the memoized trips group | any three of a kind asked twice (e.g. `h <=> h`): the second `find` yields nil and `nil.first` raises | build the result on a copy | not executed | HandTypes.ThreeOfAKindSecondCallFindsNoTrips | PokerHands.PokerHand.BestThreeOfAKind |
| hand_types.rb:29 | `quads <<` appends the kicker into the memoized first rank group | asking a seven-card four of a kind twice gives five cards, then six | build the result on a copy | not executed | PokerHands.QuadsGrowOnRepeat | PokerHands.PokerHand.BestFourOfAKind |
