/**
 * `PokerHand` of poker_hand.rb as an object: the caller's array of cards,
 * which `cards_sorted_ace_high` sorts in place; the three views
 * memoized with `||=`, whose suit groups `sort!` reorders in place; and
 * the category module `set_type_of_hand` extends the hand with.
 */
module PokerHands {
  import opened Wrappers
  import opened Cards
  import opened Seqs
  import opened HandViews
  import opened Classification
  import opened HandTypes
  import opened Ordering

  // ---- In-place reordering of a suit group ----

  /** Ruby's `reverse`. */
  function Reverse<T>(s: seq<T>): (r: seq<T>)
    ensures |r| == |s|
    ensures forall i :: 0 <= i < |s| ==> r[i] == s[|s| - 1 - i]
  {
    if |s| == 0 then [] else Reverse(s[1..]) + [s[0]]
  }

  lemma {:induction false} ReverseMultiset<T>(s: seq<T>)
    ensures multiset(Reverse(s)) == multiset(s)
  {
    if |s| > 0 {
      ReverseMultiset(s[1..]);
      assert s == [s[0]] + s[1..];
    }
  }

  /** Ruby's `sort!` on an array of cards: ascending by value. */
  function SortAscending(g: Hand): (r: Hand)
    ensures multiset(r) == multiset(g) && |r| == |g|
    ensures forall i, j :: 0 <= i < j < |r| ==> Value(r[i].rank) <= Value(r[j].rank)
  {
    ReverseMultiset(SortedAceHigh(g));
    Reverse(SortedAceHigh(g))
  }

  /** Taking the last `k` cards of the ascending order and reversing them gives the `k` highest, highest first. */
  lemma {:induction false} ReverseOfTail(s: Hand, rev: Hand, k: int)
    requires rev == Reverse(s) && 0 <= k <= |s|
    ensures |rev| == |s| && Reverse(rev[|rev| - k..]) == s[..k]
  {
    var tail := rev[|rev| - k..];
    var t := Reverse(tail);
    forall i | 0 <= i < k
      ensures t[i] == s[i]
    {
      assert t[i] == tail[k - 1 - i] == rev[|rev| - 1 - i];
    }
  }

  /** Mapping ranks over the ascending order and reversing gives the ranks of the descending order. */
  lemma ReversedRanks(s: Hand)
    ensures Reverse(RanksOf(Reverse(s))) == RanksOf(s)
  {
  }

  /**
   * Two orderings of the same cards, each by descending value with no
   * rank repeated, are the same sequence.
   */
  lemma {:induction false} SortedDistinctUnique(a: Hand, b: Hand)
    requires multiset(a) == multiset(b)
    requires forall i, j :: 0 <= i < j < |a| ==> Value(a[i].rank) > Value(a[j].rank)
    requires forall i, j :: 0 <= i < j < |b| ==> Value(b[i].rank) > Value(b[j].rank)
    ensures a == b
  {
    if |a| == 0 {
      assert |b| == |multiset(b)| == 0;
    } else {
      assert |b| == |multiset(b)| == |a|;
      assert a[0] in multiset(b) && b[0] in multiset(a);
      var p :| 0 <= p < |b| && b[p] == a[0];
      var q :| 0 <= q < |a| && a[q] == b[0];
      assert p == 0;
      assert b[0] == a[0];
      assert a == [a[0]] + a[1..] && b == [b[0]] + b[1..];
      assert multiset(a[1..]) == multiset(a) - multiset{a[0]};
      assert multiset(b[1..]) == multiset(b) - multiset{b[0]};
      SortedDistinctUnique(a[1..], b[1..]);
    }
  }

  /**
   * Sorting any reordering of one suit's cards gives the sorted suit:
   * within a suit no rank repeats, so the order by value is unique.
   */
  lemma SortedSuitUnique(h: Hand, s: Suit, p: Hand)
    requires NoDuplicates(h)
    requires multiset(p) == multiset(OfSuit(h, s))
    ensures SortedAceHigh(p) == SortedAceHigh(OfSuit(h, s))
  {
    var g := OfSuit(h, s);
    var a := SortedAceHigh(g);
    var b := SortedAceHigh(p);
    SuitGroupRanksDistinct(h, s);
    OfSuitNoDuplicates(h, s);
    PermutationNoDuplicates(b, g);
    OfSuitMembers(h, s);
    forall i, j | 0 <= i < j < |b| ensures Value(b[i].rank) > Value(b[j].rank) {
      assert b[i] in multiset(g) && b[j] in multiset(g);
      ValueInjective(b[i].rank, b[j].rank);
    }
    forall i, j | 0 <= i < j < |a| ensures Value(a[i].rank) > Value(a[j].rank) {
      ValueInjective(a[i].rank, a[j].rank);
    }
    SortedDistinctUnique(a, b);
  }

  // ---- The memoized suit groups ----

  /** `find {|c| c.count >= k}` over the suit groups, as the position of the group found, which is then sorted in place. */
  function FindIndexOfSize(gs: seq<Hand>, k: int, from: nat): (r: Option<nat>)
    requires from <= |gs|
    ensures r.Some? ==> from <= r.value < |gs| && |gs[r.value]| >= k
    ensures r.Some? ==> forall i :: from <= i < r.value ==> |gs[i]| < k
    ensures r.None? ==> forall i :: from <= i < |gs| ==> |gs[i]| < k
    decreases |gs| - from
  {
    if from == |gs| then None
    else if |gs[from]| >= k then Some(from)
    else FindIndexOfSize(gs, k, from + 1)
  }

  /** The groups of `cards_by_suit` of `h`, each possibly reordered in place. */
  ghost predicate SuitGroupsOf(v: seq<Hand>, h: Hand)
  {
    |v| == |CardsBySuit(h)| && forall i :: 0 <= i < |v| ==> multiset(v[i]) == multiset(CardsBySuit(h)[i])
  }

  /**
   * On the memoized suit groups `find` reaches a group exactly when the
   * hand has a flush group, and sorting that group gives the sorted flush
   * group, however it was reordered before.
   */
  lemma MemoFlushGroup(h: Hand, v: seq<Hand>)
    requires ValidHand(h) && SuitGroupsOf(v, h)
    ensures FindIndexOfSize(v, CardsNeeded(|h|), 0).Some? <==> FlushGroup(h).Some?
    ensures FindIndexOfSize(v, CardsNeeded(|h|), 0).Some? ==>
      var g := v[FindIndexOfSize(v, CardsNeeded(|h|), 0).value];
      && multiset(g) == multiset(FlushGroup(h).value)
      && SortedAceHigh(g) == SortedAceHigh(FlushGroup(h).value)
      && SortedAceHigh(SortAscending(g)) == SortedAceHigh(FlushGroup(h).value)
  {
    var k := CardsNeeded(|h|);
    var ss := DistinctSuits(h);
    var gs := CardsBySuit(h);
    var found := FindIndexOfSize(v, k, 0);
    forall i | 0 <= i < |v| ensures |v[i]| == |gs[i]| {
      assert |v[i]| == |multiset(v[i])| == |multiset(gs[i])| == |gs[i]|;
    }
    if found.Some? {
      var i := found.value;
      assert |OfSuit(h, ss[i])| >= k;
      assert FlushGroup(h) == Some(gs[i]);
      SortedSuitUnique(h, ss[i], v[i]);
      SortedSuitUnique(h, ss[i], SortAscending(v[i]));
    }
  }

  // ---- The hand object ----

  /** The categories `set_type_of_hand` settles before `straight?` sorts `@cards`. */
  predicate SettledBeforeSort(c: Category)
  {
    c == StraightFlush || c == FourOfAKind || c == FullHouse || c == Flush
  }

  /**
   * The memo fields of a hand made from `input` hold its views: `@cards`
   * is `input` until sorted, and then the memoized sorted array.
   */
  ghost predicate MemosAgree(input: Hand, size: int, cards: Hand, sortedMemo: Option<Hand>,
                             byRankMemo: Option<seq<Hand>>, bySuitMemo: Option<seq<Hand>>)
  {
    && ValidHand(input) && size == |input|
    && (sortedMemo.None? ==> cards == input)
    && (sortedMemo.Some? ==> cards == sortedMemo.value == SortedAceHigh(input))
    && (byRankMemo.Some? ==> byRankMemo.value == CardsByRank(input))
    && (bySuitMemo.Some? ==> SuitGroupsOf(bySuitMemo.value, input))
  }

  class PokerHand {
    /** `@cards`: the caller's array, which `cards_sorted_ace_high` sorts in place. */
    var cards: Hand
    /** `@size`. */
    const size: int
    /** `@cards_sorted_ace_high`: `None` until first asked for, then the very array `@cards` became. */
    var sortedMemo: Option<Hand>
    /** `@cards_by_rank.values`: `None` until first asked for. */
    var byRankMemo: Option<seq<Hand>>
    /** `@cards_by_suit.values`: `None` until first asked for; `sort!` reorders its groups in place. */
    var bySuitMemo: Option<seq<Hand>>
    /** The category module the hand is extended with. */
    var category: Category
    /** The cards the hand was made from. */
    ghost const input: Hand

    /** The memo fields hold the views of the cards given. The category is not read, so setting it keeps this. */
    ghost predicate Valid()
      reads this`cards, this`sortedMemo, this`byRankMemo, this`bySuitMemo
    {
      MemosAgree(input, size, cards, sortedMemo, byRankMemo, bySuitMemo)
    }

    /**
     * A hand whose type is set: the state `initialize` leaves. The rank
     * groups were taken, before any sort, unless the hand is a straight
     * flush, which never asks for them.
     */
    ghost predicate Classified()
      reads this
    {
      && Valid()
      && category == Classify(input)
      && (category != StraightFlush ==> byRankMemo.Some?)
      && bySuitMemo.Some?
    }

    /** `initialize`: keeps the array and its size, then sets the type of the hand. */
    constructor (h: Hand)
      requires ValidHand(h)
      ensures Classified() && input == h
      ensures category == Classify(h)
      ensures SettledBeforeSort(category) ==> cards == h
      ensures category != StraightFlush ==> byRankMemo == Some(CardsByRank(h))
    {
      cards := h;
      size := |h|;
      input := h;
      sortedMemo := None;
      byRankMemo := None;
      bySuitMemo := None;
      category := HighCard;
      new;
      SetTypeOfHand();
    }

    /**
     * `set_type_of_hand`: tests the predicates strongest first and takes
     * the first that holds. Only `straight?` and the tests after it see
     * `@cards` sorted.
     */
    method SetTypeOfHand()
      requires Valid() && sortedMemo.None? && byRankMemo.None? && bySuitMemo.None?
      modifies this
      ensures Classified()
      ensures SettledBeforeSort(category) ==> sortedMemo.None?
    {
      var settled := TypeBeforeSort();
      if !settled {
        TypeAfterSort();
      }
    }

    /**
     * The tests before `straight?`: straight flush, four of a kind, full
     * house, flush. The first that holds sets the category; none of them
     * sorts `@cards`.
     */
    method TypeBeforeSort() returns (settled: bool)
      requires Valid() && sortedMemo.None? && byRankMemo.None? && bySuitMemo.None?
      modifies this`byRankMemo, this`bySuitMemo, this`category
      ensures Valid() && bySuitMemo.Some?
      ensures settled <==> SettledBeforeSort(Classify(input))
      ensures settled ==> Classified()
      ensures !settled ==> byRankMemo.Some?
    {
      var b := IsStraightFlush();
      if b {
        Settle(StraightFlush);
        return true;
      }
      b := IsFourOfAKind();
      if b {
        Settle(FourOfAKind);
        return true;
      }
      b := IsFullHouse();
      if b {
        Settle(FullHouse);
        return true;
      }
      b := IsFlush();
      if b {
        Settle(Flush);
        return true;
      }
      settled := false;
    }

    /** The tests from `straight?` on, which sorts `@cards` in place; the first that holds sets the category. */
    method TypeAfterSort()
      requires Valid() && byRankMemo.Some? && bySuitMemo.Some?
      requires !SettledBeforeSort(Classify(input))
      modifies this`cards, this`sortedMemo, this`byRankMemo, this`category
      ensures Classified() && sortedMemo.Some?
    {
      ClassifyAfterFlush(input);
      var b := IsStraight();
      if b {
        Settle(Straight);
        return;
      }
      var c := TypeOfRankGroups();
      Settle(c);
    }

    /** `self.extend`: the hand takes the category its tests found. */
    method Settle(c: Category)
      requires Valid()
      modifies this`category
      ensures Valid() && category == c
    {
      category := c;
    }

    /** The tests after `straight?`, each read off the rank groups, strongest first. */
    method TypeOfRankGroups() returns (c: Category)
      requires Valid() && byRankMemo.Some?
      modifies this`byRankMemo
      ensures Valid() && byRankMemo.Some?
      ensures c == (if ThreeOfAKindQ(input) then ThreeOfAKind
                    else if TwoPairQ(input) then TwoPair
                    else if PairQ(input) then Pair
                    else HighCard)
    {
      var b := IsThreeOfAKind();
      if b {
        return ThreeOfAKind;
      }
      b := IsTwoPair();
      if b {
        return TwoPair;
      }
      b := IsPair();
      c := if b then Pair else HighCard;
    }

    // ---- The memoized views ----

    /** `cards_sorted_ace_high`: on first use sorts `@cards` itself, highest first, and remembers that array. */
    method CardsSortedAceHigh() returns (s: Hand)
      requires Valid()
      modifies this`cards, this`sortedMemo
      ensures Valid() && (old(Classified()) ==> Classified())
      ensures s == SortedAceHigh(input) && sortedMemo == Some(s) && cards == s
    {
      if sortedMemo.None? {
        cards := SortedAceHigh(cards);
        sortedMemo := Some(cards);
      }
      s := sortedMemo.value;
    }

    /** `cards_by_rank`: the rank groups of `@cards`, taken once. */
    method CardsByRankView() returns (gs: seq<Hand>)
      requires Valid()
      requires byRankMemo.Some? || sortedMemo.None?
      modifies this`byRankMemo
      ensures Valid()
      ensures gs == CardsByRank(input) && byRankMemo == Some(gs)
    {
      if byRankMemo.None? {
        byRankMemo := Some(CardsByRank(cards));
      }
      gs := byRankMemo.value;
    }

    /** `cards_by_suit`: the suit groups of `@cards`, taken once; later calls see any reordering `sort!` made. */
    method CardsBySuitView() returns (gs: seq<Hand>)
      requires Valid()
      requires bySuitMemo.Some? || sortedMemo.None?
      modifies this`bySuitMemo
      ensures Valid()
      ensures SuitGroupsOf(gs, input) && bySuitMemo == Some(gs)
      ensures old(bySuitMemo).Some? ==> gs == old(bySuitMemo).value
    {
      if bySuitMemo.None? {
        bySuitMemo := Some(CardsBySuit(cards));
      }
      gs := bySuitMemo.value;
    }

    // ---- The predicates ----

    /**
     * `straight_flush?`: finds the suit group that reaches `cards_needed`,
     * sorts it in place with `sort!`, and tests its ranks, highest first,
     * for a run.
     */
    method IsStraightFlush() returns (b: bool)
      requires Valid()
      requires bySuitMemo.Some? || sortedMemo.None?
      modifies this`bySuitMemo
      ensures Valid() && bySuitMemo.Some?
      ensures b == StraightFlushQ(input)
    {
      var ascending := SortFlushGroup();
      if ascending.None? {
        return false;
      }
      b := HasRun(Reverse(RanksOf(ascending.value)), CardsNeeded(size));
    }

    /**
     * The `find` and `sort!` of `straight_flush?`: the first suit group
     * with enough cards, sorted ascending inside the memo.
     */
    method SortFlushGroup() returns (ascending: Option<Hand>)
      requires Valid()
      requires bySuitMemo.Some? || sortedMemo.None?
      modifies this`bySuitMemo
      ensures Valid() && bySuitMemo.Some?
      ensures ascending.None? ==> FlushGroup(input).None? && !StraightFlushQ(input)
      ensures ascending.Some? ==>
        && FlushGroup(input).Some?
        && ascending.value == SortAscending(FlushGroup(input).value)
        && ascending.value in bySuitMemo.value
      ensures ascending.Some? ==>
        HasRun(Reverse(RanksOf(ascending.value)), CardsNeeded(size)) == StraightFlushQ(input)
    {
      var gs := CardsBySuitView();
      var found := FindIndexOfSize(gs, CardsNeeded(size), 0);
      if found.None? {
        MemoFlushGroup(input, gs);
        StraightFlushOnMemoNone(input, gs);
        return None;
      }
      var i := found.value;
      var sorted := SortAscending(gs[i]);
      StraightFlushOnMemo(input, gs, i, sorted);
      StoreSuitGroups(gs[i := sorted]);
      assert bySuitMemo.value[i] == sorted;
      ascending := Some(sorted);
    }

    /** Replaces the memoized suit groups by a reordering of them. */
    method StoreSuitGroups(v: seq<Hand>)
      requires Valid() && SuitGroupsOf(v, input)
      modifies this`bySuitMemo
      ensures Valid() && bySuitMemo == Some(v)
      ensures old(Classified()) ==> Classified()
    {
      bySuitMemo := Some(v);
    }

    /** `four_of_a_kind?`: the first rank group has exactly four cards. */
    method IsFourOfAKind() returns (b: bool)
      requires Valid()
      requires byRankMemo.Some? || sortedMemo.None?
      modifies this`byRankMemo
      ensures Valid() && byRankMemo.Some?
      ensures b == FourOfAKindQ(input)
    {
      var gs := CardsByRankView();
      GroupsNonEmpty(input);
      b := |gs[0]| == 4;
    }

    /** `full_house?`: false under five cards; else a first group of three or more and a second of two or more. */
    method IsFullHouse() returns (b: bool)
      requires Valid()
      requires byRankMemo.Some? || sortedMemo.None?
      modifies this`byRankMemo
      ensures Valid() && byRankMemo.Some?
      ensures b == FullHouseQ(input)
    {
      var gs := CardsByRankView();
      if size < 5 {
        b := false;
        return;
      }
      TwoGroupsInFiveCards(input);
      b := |gs[0]| >= 3 && |gs[1]| >= 2;
    }

    /** `flush?`: some suit group reaches `cards_needed`. */
    method IsFlush() returns (b: bool)
      requires Valid()
      requires bySuitMemo.Some? || sortedMemo.None?
      modifies this`bySuitMemo
      ensures Valid() && bySuitMemo.Some?
      ensures b == FlushQ(input)
    {
      var gs := CardsBySuitView();
      var k := CardsNeeded(size);
      b := exists i :: 0 <= i < |gs| && |gs[i]| >= k;
      SuitGroupSizes(gs, input);
    }

    /** `straight?`: the distinct ranks of the sorted cards, highest first, hold a run. */
    method IsStraight() returns (b: bool)
      requires Valid()
      modifies this`cards, this`sortedMemo
      ensures Valid() && sortedMemo.Some?
      ensures b == StraightQ(input)
    {
      var s := CardsSortedAceHigh();
      b := HasRun(RanksOf(UniqBy(s, RankOf)), CardsNeeded(size));
    }

    /** `three_of_a_kind?`: the first rank group has three or more cards. */
    method IsThreeOfAKind() returns (b: bool)
      requires Valid()
      requires byRankMemo.Some? || sortedMemo.None?
      modifies this`byRankMemo
      ensures Valid() && byRankMemo.Some?
      ensures b == ThreeOfAKindQ(input)
    {
      var gs := CardsByRankView();
      GroupsNonEmpty(input);
      b := |gs[0]| >= 3;
    }

    /** `two_pair?`, with a missing second group read as no pair. */
    method IsTwoPair() returns (b: bool)
      requires Valid()
      requires byRankMemo.Some? || sortedMemo.None?
      modifies this`byRankMemo
      ensures Valid() && byRankMemo.Some?
      ensures b == TwoPairQ(input)
    {
      var gs := CardsByRankView();
      GroupsNonEmpty(input);
      b := |gs[0]| >= 2 && |gs| >= 2 && |gs[1]| >= 2;
    }

    /** `pair?`: the first rank group has two or more cards. */
    method IsPair() returns (b: bool)
      requires Valid()
      requires byRankMemo.Some? || sortedMemo.None?
      modifies this`byRankMemo
      ensures Valid() && byRankMemo.Some?
      ensures b == PairQ(input)
    {
      var gs := CardsByRankView();
      GroupsNonEmpty(input);
      b := |gs[0]| >= 2;
    }

    /** `high_card?`: there are as many rank groups as cards. */
    method IsHighCard() returns (b: bool)
      requires Valid()
      requires byRankMemo.Some? || sortedMemo.None?
      modifies this`byRankMemo
      ensures Valid() && byRankMemo.Some?
      ensures b == HighCardQ(input)
    {
      var gs := CardsByRankView();
      b := |gs| == size;
    }

    // ---- best_hand of each category module ----

    /**
     * `best_hand` of the module the hand was extended with, each in its
     * corrected form, read off the memoized views; only the flush sorts
     * anything in place.
     */
    method BestHand() returns (r: seq<Card>)
      requires Classified()
      modifies this`cards, this`sortedMemo, this`bySuitMemo
      ensures Classified()
      ensures r == Ordering.BestHand(input)
    {
      match category
      case StraightFlush => r := BestStraightFlush();
      case FourOfAKind => r := BestFourOfAKind();
      case FullHouse => r := BestFullHouse();
      case Flush => r := BestFlush();
      case Straight => r := BestStraight();
      case ThreeOfAKind => r := BestThreeOfAKind();
      case TwoPair => r := BestTwoPair();
      case Pair => r := BestPair();
      case HighCard => r := BestHighCard();
    }

    /** `StraightFlush#best_hand`: the best run of the suit group that reaches `cards_needed`, sorted on a copy. */
    method BestStraightFlush() returns (r: seq<Card>)
      requires Classified() && category == StraightFlush
      ensures r == StraightFlushBest(input)
    {
      var gs := bySuitMemo.value;
      var k := CardsNeeded(size);
      MemoFlushGroup(input, gs);
      FlushGroupRanks(input);
      var found := FindIndexOfSize(gs, k, 0);
      assert found.Some?;
      r := BestRun(SortedAceHigh(gs[found.value]), k);
    }

    /** `FourOfAKind#best_hand` without the early return, and on a copy of the quads. */
    method BestFourOfAKind() returns (r: seq<Card>)
      requires Classified() && category == FourOfAKind
      ensures r == FourOfAKindBest(input)
    {
      var gs := byRankMemo.value;
      RestAfterFirst(input);
      var rest := Flatten(gs[1..]);
      r := if |rest| == 0 then gs[0] else gs[0] + [MaxByValue(rest)];
    }

    /** `FullHouse#best_hand` without the early return: three of the first rank group, two of the second. */
    method BestFullHouse() returns (r: seq<Card>)
      requires Classified() && category == FullHouse
      ensures r == FullHouseBest(input)
    {
      var gs := byRankMemo.value;
      TwoGroupsInFiveCards(input);
      r := gs[0][..3] + gs[1][..2];
    }

    /**
     * `Flush#best_hand`: `sort!` sorts the memoized suit group in place,
     * ascending; its last `cards_needed` cards, reversed, are the hand.
     */
    method BestFlush() returns (r: seq<Card>)
      requires Classified() && category == Flush
      modifies this`bySuitMemo
      ensures Classified()
      ensures r == FlushBest(input)
      ensures FlushGroup(input).Some? && SortAscending(FlushGroup(input).value) in bySuitMemo.value
    {
      var sorted;
      r, sorted := FlushFromMemo(input, size, bySuitMemo.value);
      StoreSuitGroups(sorted);
    }

    /** `Straight#best_hand`: the best run among the sorted cards, one per rank. */
    method BestStraight() returns (r: seq<Card>)
      requires Classified() && category == Straight
      modifies this`cards, this`sortedMemo
      ensures Classified()
      ensures r == StraightBest(input)
    {
      var s := CardsSortedAceHigh();
      UniqSortedRanks(input);
      UniqSortedRanksDecrease(input);
      r := BestRun(UniqBy(s, RankOf), CardsNeeded(size));
    }

    /** `ThreeOfAKind#best_hand` with `cards_needed - 3` kickers, appended flat to a copy of the trips. */
    method BestThreeOfAKind() returns (r: seq<Card>)
      requires Classified() && category == ThreeOfAKind
      modifies this`cards, this`sortedMemo
      ensures Classified()
      ensures r == ThreeOfAKindBest(input)
    {
      var gs := byRankMemo.value;
      TripsAndKickers(input);
      var trips := FindGroupOfCount(gs, 3).value;
      var s := CardsSortedAceHigh();
      var kickers := WithoutRank(s, trips[0].rank);
      r := trips + kickers[..CardsNeeded(size) - 3];
    }

    /** `TwoPair#best_hand`: the two pairs, then the highest of the remaining cards. */
    method BestTwoPair() returns (r: seq<Card>)
      requires Classified() && category == TwoPair
      ensures r == TwoPairBest(input)
    {
      var gs := byRankMemo.value;
      TwoPairPrefix(input);
      var f := Flatten(gs);
      r := if |f| == 4 then f[..4] else f[..4] + [MaxByValue(f[4..])];
    }

    /** `Pair#best_hand` keeping `cards_needed` cards of the flattened rank groups. */
    method BestPair() returns (r: seq<Card>)
      requires Classified() && category == Pair
      ensures r == PairBest(input)
    {
      var gs := byRankMemo.value;
      FlattenCardsByRank(input);
      r := Flatten(gs)[..CardsNeeded(size)];
    }

    /** `HighCard#best_hand` keeping `cards_needed` of the sorted cards. */
    method BestHighCard() returns (r: seq<Card>)
      requires Classified() && category == HighCard
      modifies this`cards, this`sortedMemo
      ensures Classified()
      ensures r == HighCardBest(input)
    {
      var s := CardsSortedAceHigh();
      r := s[..CardsNeeded(size)];
    }

    /**
     * `FourOfAKind#best_hand` as written: up to five cards it returns
     * `@cards`; otherwise `<<` appends the highest other card to the
     * memoized quads group itself, so the memo grows with every call.
     */
    method FourOfAKindBestInPlace() returns (r: seq<Card>)
      requires byRankMemo.Some? && |byRankMemo.value| > 0
      requires |cards| > 5 ==> |Flatten(byRankMemo.value[1..])| > 0
      modifies this`byRankMemo
      ensures |cards| <= 5 ==> r == cards && byRankMemo == old(byRankMemo)
      ensures |cards| > 5 ==>
        && r == old(byRankMemo.value[0]) + [MaxByValue(Flatten(old(byRankMemo.value[1..])))]
        && byRankMemo == Some(old(byRankMemo.value)[0 := r])
    {
      if |cards| <= 5 {
        return cards;
      }
      var gs := byRankMemo.value;
      r := gs[0] + [MaxByValue(Flatten(gs[1..]))];
      byRankMemo := Some(gs[0 := r]);
    }

    /**
     * `PokerHand#<=>`: the category's `rank` first, then the two
     * `best_hand`s card by card. The other hand may be this one.
     */
    method Compare(other: PokerHand) returns (c: int)
      requires Classified() && other.Classified()
      modifies this`cards, this`sortedMemo, this`bySuitMemo
      modifies other`cards, other`sortedMemo, other`bySuitMemo
      ensures Classified() && other.Classified()
      ensures c == CompareHands(input, other.input)
    {
      if Strength(category) != Strength(other.category) {
        return CompareInts(Strength(category), Strength(other.category));
      }
      CompareHandsSameStrength(input, other.input);
      if other == this {
        var mine := BestHand();
        var theirs := BestHand();
        c := CompareCardSeqs(mine, theirs);
      } else {
        var mine := BestHand();
        var theirs := other.BestHand();
        c := CompareCardSeqs(mine, theirs);
      }
    }
  }

  /**
   * As written, a four of a kind of more than five cards asked twice for
   * its best hand answers with five cards and then six: the first call
   * appended its kicker to the memoized quads, and the second appends
   * another.
   */
  method QuadsGrowOnRepeat(h: Hand) returns (first: seq<Card>, second: seq<Card>)
    requires ValidHand(h) && Classify(h) == FourOfAKind && |h| > 5
    ensures first == FourOfAKindBest(h) && |first| == 5
    ensures |second| == 6 && second[..5] == first
  {
    QuadsAndKicker(h);
    var hand := new PokerHand(h);
    first, second := AskQuadsTwice(hand, CardsByRank(h));
  }

  /** Two calls of the as-written `FourOfAKind#best_hand` on a hand of more than five cards. */
  method AskQuadsTwice(hand: PokerHand, ghost gs: seq<Hand>) returns (first: seq<Card>, second: seq<Card>)
    requires hand.byRankMemo == Some(gs) && |hand.cards| > 5
    requires |gs| > 0 && |Flatten(gs[1..])| > 0
    modifies hand`byRankMemo
    ensures first == gs[0] + [MaxByValue(Flatten(gs[1..]))]
    ensures second == first + [MaxByValue(Flatten(gs[1..]))]
  {
    first := hand.FourOfAKindBestInPlace();
    assert hand.byRankMemo.value[1..] == gs[1..];
    second := hand.FourOfAKindBestInPlace();
  }

  /** A four of a kind of more than five cards: the quads, then other cards to take a kicker from. */
  lemma QuadsAndKicker(h: Hand)
    requires ValidHand(h) && Classify(h) == FourOfAKind && |h| > 5
    ensures |CardsByRank(h)| > 0 && |CardsByRank(h)[0]| == 4
    ensures |Flatten(CardsByRank(h)[1..])| > 0
    ensures FourOfAKindBest(h) == CardsByRank(h)[0] + [MaxByValue(Flatten(CardsByRank(h)[1..]))]
  {
    FourOfAKindBestLength(h);
    RestAfterFirst(h);
  }

  /**
   * `straight_flush?` on the memoized suit groups: when no group reaches
   * `cards_needed` there is no straight flush; otherwise sorting that
   * group in place keeps the memo a reordering of the suit groups, and
   * its ranks, read highest first, hold a run exactly when the hand is a
   * straight flush.
   */
  lemma StraightFlushOnMemoNone(h: Hand, gs: seq<Hand>)
    requires ValidHand(h) && SuitGroupsOf(gs, h)
    requires FindIndexOfSize(gs, CardsNeeded(|h|), 0).None?
    ensures !StraightFlushQ(h)
  {
    MemoFlushGroup(h, gs);
  }

  lemma StraightFlushOnMemo(h: Hand, gs: seq<Hand>, i: nat, ascending: Hand)
    requires ValidHand(h) && SuitGroupsOf(gs, h)
    requires FindIndexOfSize(gs, CardsNeeded(|h|), 0) == Some(i)
    requires i < |gs| && ascending == SortAscending(gs[i])
    ensures SuitGroupsOf(gs[i := ascending], h)
    ensures FlushGroup(h).Some? && ascending == SortAscending(FlushGroup(h).value)
    ensures HasRun(Reverse(RanksOf(ascending)), CardsNeeded(|h|)) == StraightFlushQ(h)
  {
    MemoFlushGroup(h, gs);
    ReorderSuitGroup(gs, h, i, ascending);
    ReversedRanks(SortedAceHigh(gs[i]));
    assert Reverse(RanksOf(ascending)) == RanksOf(SortedAceHigh(FlushGroup(h).value));
  }

  /**
   * The `find`, `sort!` and `last(...).reverse` of `Flush#best_hand` on the
   * memoized suit groups: the best hand, and the memo with the flush group
   * now ascending.
   */
  method FlushFromMemo(ghost h: Hand, size: nat, gs: seq<Hand>) returns (r: Hand, sorted: seq<Hand>)
    requires ValidHand(h) && size == |h| && SuitGroupsOf(gs, h) && FlushQ(h)
    ensures r == FlushBest(h) && SuitGroupsOf(sorted, h)
    ensures FlushGroup(h).Some? && SortAscending(FlushGroup(h).value) in sorted
  {
    var k := CardsNeeded(size);
    FlushOnMemoFound(h, gs);
    var found := FindIndexOfSize(gs, k, 0);
    var i := found.value;
    var ascending := SortAscending(gs[i]);
    FlushOnMemo(h, gs, i, ascending);
    r := Reverse(ascending[|ascending| - k..]);
    sorted := gs[i := ascending];
  }

  lemma FlushOnMemoFound(h: Hand, gs: seq<Hand>)
    requires ValidHand(h) && SuitGroupsOf(gs, h) && FlushQ(h)
    ensures FindIndexOfSize(gs, CardsNeeded(|h|), 0).Some?
  {
    MemoFlushGroup(h, gs);
    FlushGroupIffFlushQ(h);
  }

  /**
   * Sorting the flush group of the memo ascending and reversing its last
   * `cards_needed` cards gives the flush's best hand.
   */
  lemma FlushOnMemo(h: Hand, gs: seq<Hand>, i: nat, ascending: Hand)
    requires ValidHand(h) && SuitGroupsOf(gs, h) && FlushQ(h)
    requires FindIndexOfSize(gs, CardsNeeded(|h|), 0) == Some(i)
    requires i < |gs| && ascending == SortAscending(gs[i])
    ensures SuitGroupsOf(gs[i := ascending], h)
    ensures CardsNeeded(|h|) <= |ascending|
    ensures Reverse(ascending[|ascending| - CardsNeeded(|h|)..]) == FlushBest(h)
    ensures FlushGroup(h).Some? && ascending == SortAscending(FlushGroup(h).value)
    ensures ascending in gs[i := ascending]
  {
    MemoFlushGroup(h, gs);
    FlushGroupIffFlushQ(h);
    assert gs[i := ascending][i] == ascending;
    ReorderSuitGroup(gs, h, i, ascending);
    assert ascending == SortAscending(FlushGroup(h).value);
    AscendingTailIsFlushBest(h, FlushGroup(h).value, ascending);
  }

  lemma AscendingTailIsFlushBest(h: Hand, f: Hand, ascending: Hand)
    requires 2 <= |h| <= 7 && FlushQ(h) && FlushGroup(h) == Some(f)
    requires ascending == SortAscending(f)
    ensures CardsNeeded(|h|) <= |ascending|
    ensures Reverse(ascending[|ascending| - CardsNeeded(|h|)..]) == FlushBest(h)
  {
    FlushBestOfGroup(h);
    AscendingTail(f, ascending, CardsNeeded(|h|), FlushBest(h));
  }

  /** The last `k` cards of the ascending order, reversed, are the first `k` of the descending order. */
  lemma AscendingTail(f: Hand, ascending: Hand, k: int, best: seq<Card>)
    requires ascending == SortAscending(f) && 0 <= k <= |f| && best == SortedAceHigh(f)[..k]
    ensures k <= |ascending| && Reverse(ascending[|ascending| - k..]) == best
  {
    ReverseOfTail(SortedAceHigh(f), ascending, k);
  }

  lemma CompareHandsSameStrength(a: Hand, b: Hand)
    requires ValidHand(a) && ValidHand(b) && Strength(Classify(a)) == Strength(Classify(b))
    ensures CompareHands(a, b) == CompareCardSeqs(Ordering.BestHand(a), Ordering.BestHand(b))
  {
  }

  /** The trips found among the rank groups, and enough kickers among the sorted cards of other ranks. */
  lemma TripsAndKickers(h: Hand)
    requires ValidHand(h) && Classify(h) == ThreeOfAKind
    ensures FindGroupOfCount(CardsByRank(h), 3).Some?
    ensures var trips := FindGroupOfCount(CardsByRank(h), 3).value;
      && |trips| == 3
      && CardsNeeded(|h|) - 3 <= |WithoutRank(SortedAceHigh(h), trips[0].rank)|
      && ThreeOfAKindBest(h) == trips + WithoutRank(SortedAceHigh(h), trips[0].rank)[..CardsNeeded(|h|) - 3]
  {
    ClassifyIsStrongest(h, FourOfAKind);
    TripsComeFirst(h);
  }

  /** Past the flush, the category is the first of the remaining tests that holds. */
  lemma ClassifyAfterFlush(h: Hand)
    requires ValidHand(h)
    requires !SettledBeforeSort(Classify(h))
    ensures StraightQ(h) ==> Classify(h) == Straight
    ensures !StraightQ(h) && ThreeOfAKindQ(h) ==> Classify(h) == ThreeOfAKind
    ensures !StraightQ(h) && !ThreeOfAKindQ(h) && TwoPairQ(h) ==> Classify(h) == TwoPair
    ensures !StraightQ(h) && !ThreeOfAKindQ(h) && !TwoPairQ(h) ==> Classify(h) == (if PairQ(h) then Pair else HighCard)
  {
  }

  /** Reordering one memoized suit group keeps the memo a reordering of the suit groups. */
  lemma ReorderSuitGroup(gs: seq<Hand>, h: Hand, i: int, a: Hand)
    requires SuitGroupsOf(gs, h) && 0 <= i < |gs| && multiset(a) == multiset(gs[i])
    ensures SuitGroupsOf(gs[i := a], h)
  {
    var u := gs[i := a];
    forall j | 0 <= j < |u| ensures multiset(u[j]) == multiset(CardsBySuit(h)[j]) {
      if j != i {
        assert u[j] == gs[j];
      }
    }
  }

  /** The memoized suit groups have the sizes of the hand's suit groups. */
  lemma SuitGroupSizes(gs: seq<Hand>, h: Hand)
    requires SuitGroupsOf(gs, h)
    ensures forall i :: 0 <= i < |gs| ==> |gs[i]| == |CardsBySuit(h)[i]|
  {
    forall i | 0 <= i < |gs| ensures |gs[i]| == |CardsBySuit(h)[i]| {
      assert |gs[i]| == |multiset(gs[i])| == |multiset(CardsBySuit(h)[i])|;
    }
  }
}
