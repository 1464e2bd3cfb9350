/**
 * Category detection of poker_hand.rb: the nine predicates, tested
 * strongest first, and the numeric `rank` each category module of
 * hand_types.rb gives the hand.
 */
module Classification {
  import opened Wrappers
  import opened Cards
  import opened Seqs
  import opened HandViews

  // ---- Runs of ranks ----

  function Indices(rs: seq<Rank>): (ix: seq<int>)
    ensures |ix| == |rs|
    ensures forall i :: 0 <= i < |rs| ==> ix[i] == RankIndex(rs[i])
  {
    seq(|rs|, i requires 0 <= i < |rs| => RankIndex(rs[i]))
  }

  /**
   * The ace-low test: the ranks include the ace and every one of the
   * `k - 1` lowest ranks of `RANKS`.
   */
  predicate AceLowRun(rs: seq<Rank>, k: int)
    requires 1 <= k <= 5
  {
    Ace in rs && forall i :: 0 <= i < k - 1 ==> Ranks[i] in rs
  }

  /** The window test on rank indices: some `k` neighbours span exactly `k - 1`. */
  predicate WindowRunRanks(rs: seq<Rank>, k: int)
    requires 1 <= k <= 5
  {
    WindowRun(Indices(rs), k)
  }

  /** The run test shared by `straight?` and `straight_flush?`. */
  predicate HasRun(rs: seq<Rank>, k: int)
    requires 1 <= k <= 5
  {
    AceLowRun(rs, k) || WindowRunRanks(rs, k)
  }

  // ---- The predicates ----

  /**
   * `straight_flush?`: the ranks of the suit group that reaches
   * `cards_needed`, highest first, hold a run; false when no suit does.
   */
  predicate StraightFlushQ(h: Hand)
    requires 2 <= |h| <= 7
  {
    match FlushGroup(h)
    case None => false
    case Some(g) => HasRun(RanksOf(SortedAceHigh(g)), CardsNeeded(|h|))
  }

  /** `four_of_a_kind?`: the first rank group has exactly four cards. */
  predicate FourOfAKindQ(h: Hand)
    requires |h| > 0
  {
    GroupsNonEmpty(h);
    |CardsByRank(h)[0]| == 4
  }

  /** `full_house?`: five or more cards, a first group of three or more and a second of two or more. */
  predicate FullHouseQ(h: Hand)
    requires ValidHand(h)
  {
    if |h| < 5 then false
    else
      TwoGroupsInFiveCards(h);
      var gs := CardsByRank(h);
      |gs[0]| >= 3 && |gs[1]| >= 2
  }

  /** `flush?`: some suit group reaches `cards_needed`. */
  predicate FlushQ(h: Hand)
    requires 2 <= |h| <= 7
  {
    var gs := CardsBySuit(h);
    exists i :: 0 <= i < |gs| && |gs[i]| >= CardsNeeded(|h|)
  }

  /** `straight?`: the distinct ranks of the hand, highest first, hold a run. */
  predicate StraightQ(h: Hand)
    requires 2 <= |h| <= 7
  {
    HasRun(RanksOf(UniqBy(SortedAceHigh(h), RankOf)), CardsNeeded(|h|))
  }

  /** `three_of_a_kind?`: the first rank group has three or more cards. */
  predicate ThreeOfAKindQ(h: Hand)
    requires |h| > 0
  {
    GroupsNonEmpty(h);
    |CardsByRank(h)[0]| >= 3
  }

  /**
   * `two_pair?` as written: when the first group is a pair or more it
   * reads the second group's count, and with no second group (`nil`)
   * that raises; None stands for the raise.
   */
  function TwoPairQAsWritten(h: Hand): (r: Option<bool>)
    requires |h| > 0
  {
    GroupsNonEmpty(h);
    var gs := CardsByRank(h);
    if |gs[0]| < 2 then Some(false)
    else if |gs| < 2 then None
    else Some(|gs[1]| >= 2)
  }

  /** `two_pair?` with a missing second group read as no pair. */
  predicate TwoPairQ(h: Hand)
    requires |h| > 0
  {
    GroupsNonEmpty(h);
    var gs := CardsByRank(h);
    |gs[0]| >= 2 && |gs| >= 2 && |gs[1]| >= 2
  }

  /** `pair?`: the first rank group has two or more cards. */
  predicate PairQ(h: Hand)
    requires |h| > 0
  {
    GroupsNonEmpty(h);
    |CardsByRank(h)[0]| >= 2
  }

  /** `high_card?`: there are as many rank groups as cards. */
  predicate HighCardQ(h: Hand)
  {
    |CardsByRank(h)| == |h|
  }

  // ---- Categories ----

  /** The category modules of hand_types.rb; the hand is extended with exactly one. */
  datatype Category = StraightFlush | FourOfAKind | FullHouse | Flush | Straight | ThreeOfAKind | TwoPair | Pair | HighCard

  /** The order in which `set_type_of_hand` tests the categories. */
  const ClassificationOrder: seq<Category> :=
    [StraightFlush, FourOfAKind, FullHouse, Flush, Straight, ThreeOfAKind, TwoPair, Pair, HighCard]

  /** The `rank` of each category module. */
  function Strength(c: Category): (n: int)
    ensures -8 <= n <= 0
  {
    match c
    case StraightFlush => 0
    case FourOfAKind => -1
    case FullHouse => -2
    case Flush => -3
    case Straight => -4
    case ThreeOfAKind => -5
    case TwoPair => -6
    case Pair => -7
    case HighCard => -8
  }

  /** Strengths strictly decrease along the classification order, so they tell categories apart. */
  lemma StrengthFollowsClassificationOrder(i: int, j: int)
    requires 0 <= i < j < |ClassificationOrder|
    ensures Strength(ClassificationOrder[i]) > Strength(ClassificationOrder[j])
  {
  }

  lemma StrengthInjective(c: Category, d: Category)
    ensures Strength(c) == Strength(d) <==> c == d
  {
  }

  /** Whether the predicate `set_type_of_hand` tests for category `c` holds; the last branch is unconditional. */
  predicate Holds(h: Hand, c: Category)
    requires ValidHand(h)
  {
    match c
    case StraightFlush => StraightFlushQ(h)
    case FourOfAKind => FourOfAKindQ(h)
    case FullHouse => FullHouseQ(h)
    case Flush => FlushQ(h)
    case Straight => StraightQ(h)
    case ThreeOfAKind => ThreeOfAKindQ(h)
    case TwoPair => TwoPairQ(h)
    case Pair => PairQ(h)
    case HighCard => true
  }

  /**
   * `set_type_of_hand`: the first category, strongest first, whose
   * predicate holds.
   */
  function Classify(h: Hand): (c: Category)
    requires ValidHand(h)
    ensures Holds(h, c)
  {
    if StraightFlushQ(h) then StraightFlush
    else if FourOfAKindQ(h) then FourOfAKind
    else if FullHouseQ(h) then FullHouse
    else if FlushQ(h) then Flush
    else if StraightQ(h) then Straight
    else if ThreeOfAKindQ(h) then ThreeOfAKind
    else if TwoPairQ(h) then TwoPair
    else if PairQ(h) then Pair
    else HighCard
  }

  /** The category chosen is the strongest one whose predicate holds. */
  lemma ClassifyIsStrongest(h: Hand, d: Category)
    requires ValidHand(h)
    requires Strength(d) > Strength(Classify(h))
    ensures !Holds(h, d)
  {
    var c := Classify(h);
    if StraightFlushQ(h) {
      // no category is stronger than a straight flush
    } else if FourOfAKindQ(h) {
      assert c == FourOfAKind;
    } else if FullHouseQ(h) {
      assert c == FullHouse;
    } else if FlushQ(h) {
      assert c == Flush;
    } else if StraightQ(h) {
      assert c == Straight;
    } else if ThreeOfAKindQ(h) {
      assert c == ThreeOfAKind;
    } else if TwoPairQ(h) {
      assert c == TwoPair;
    } else if PairQ(h) {
      assert c == Pair;
    }
  }

  // ---- The rank-count predicates against counting definitions ----

  /** The first rank group is at least as large as the group of any rank. */
  lemma FirstGroupIsLargest(h: Hand, r: Rank)
    requires |h| > 0
    ensures |CardsByRank(h)| > 0
    ensures Count(h, r) <= |CardsByRank(h)[0]|
  {
    GroupsNonEmpty(h);
    GroupDominates(h, 0, r);
  }

  /** The first rank group reaches `n` cards exactly when some rank does. */
  lemma FirstGroupReaches(h: Hand, n: int)
    requires |h| > 0
    ensures |CardsByRank(h)| > 0
    ensures |CardsByRank(h)[0]| >= n <==> exists r :: Count(h, r) >= n
  {
    GroupsNonEmpty(h);
    var r0 := RankGroupOrder(h)[0];
    if |CardsByRank(h)[0]| >= n {
      assert Count(h, r0) >= n;
    }
    forall r | Count(h, r) >= n ensures |CardsByRank(h)[0]| >= n {
      FirstGroupIsLargest(h, r);
    }
  }

  lemma PairQIff(h: Hand)
    requires |h| > 0
    ensures PairQ(h) <==> exists r :: Count(h, r) >= 2
  {
    FirstGroupReaches(h, 2);
  }

  lemma ThreeOfAKindQIff(h: Hand)
    requires |h| > 0
    ensures ThreeOfAKindQ(h) <==> exists r :: Count(h, r) >= 3
  {
    FirstGroupReaches(h, 3);
  }

  /** With no card repeated a rank has at most four cards, so `== 4` finds any four of a kind. */
  lemma FourOfAKindQIff(h: Hand)
    requires ValidHand(h)
    ensures FourOfAKindQ(h) <==> exists r :: Count(h, r) == 4
  {
    FirstGroupReaches(h, 4);
    var r0 := RankGroupOrder(h)[0];
    CountAtMostFour(h, r0);
  }

  /**
   * A rank other than the first group's is matched by the second group:
   * it exists and is no smaller.
   */
  lemma SecondGroupIsLargestOfRest(h: Hand, r: Rank)
    requires |h| > 0
    requires Count(h, r) > 0
    requires r != RankGroupOrder(h)[0]
    ensures |CardsByRank(h)| >= 2
    ensures Count(h, r) <= |CardsByRank(h)[1]|
  {
    SecondGroupExists(h, r);
    GroupDominates(h, 1, r);
  }

  lemma TwoPairQIff(h: Hand)
    requires |h| > 0
    ensures TwoPairQ(h) <==>
      exists r1, r2 :: r1 != r2 && Count(h, r1) >= 2 && Count(h, r2) >= 2
  {
    GroupsNonEmpty(h);
    var ks := RankGroupOrder(h);
    if TwoPairQ(h) {
      assert ks[0] != ks[1] && Count(h, ks[0]) >= 2 && Count(h, ks[1]) >= 2;
    }
    forall r1, r2 | r1 != r2 && Count(h, r1) >= 2 && Count(h, r2) >= 2 ensures TwoPairQ(h) {
      FirstGroupIsLargest(h, r1);
      var r := if r1 != ks[0] then r1 else r2;
      SecondGroupIsLargestOfRest(h, r);
    }
  }

  lemma FullHouseQIff(h: Hand)
    requires ValidHand(h)
    ensures FullHouseQ(h) <==>
      |h| >= 5 && exists r1, r2 :: r1 != r2 && Count(h, r1) >= 3 && Count(h, r2) >= 2
  {
    var ks := RankGroupOrder(h);
    if FullHouseQ(h) {
      TwoGroupsInFiveCards(h);
      assert ks[0] != ks[1] && Count(h, ks[0]) >= 3 && Count(h, ks[1]) >= 2;
    }
    forall r1, r2 | |h| >= 5 && r1 != r2 && Count(h, r1) >= 3 && Count(h, r2) >= 2
      ensures FullHouseQ(h)
    {
      FirstGroupIsLargest(h, r1);
      if r1 == ks[0] {
        SecondGroupIsLargestOfRest(h, r2);
      } else {
        SecondGroupIsLargestOfRest(h, r1);
      }
    }
  }

  /** `high_card?` holds exactly when no rank has two cards. */
  lemma HighCardQIff(h: Hand)
    ensures HighCardQ(h) <==> forall r :: Count(h, r) <= 1
  {
    var gs := CardsByRank(h);
    var ks := RankGroupOrder(h);
    FlattenCardsByRank(h);
    FlattenSizes(gs);
    if HighCardQ(h) {
      forall r ensures Count(h, r) <= 1 {
        if Count(h, r) > 0 {
          var i :| 0 <= i < |ks| && ks[i] == r;
          assert |gs[i]| == 1;
        }
      }
    }
    if forall r :: Count(h, r) <= 1 {
      forall i | 0 <= i < |gs| ensures |gs[i]| == 1 {
        assert Count(h, ks[i]) <= 1;
      }
    }
  }

  /** `high_card?` is the negation of `pair?`, so the last branch is taken only when nothing else holds. */
  lemma HighCardQIsNoPair(h: Hand)
    requires |h| > 0
    ensures HighCardQ(h) <==> !PairQ(h)
  {
    HighCardQIff(h);
    PairQIff(h);
  }

  // ---- Suits ----

  lemma FlushQIff(h: Hand)
    requires 2 <= |h| <= 7
    ensures FlushQ(h) <==> exists s :: |OfSuit(h, s)| >= CardsNeeded(|h|)
  {
    var gs := CardsBySuit(h);
    var ss := DistinctSuits(h);
    if FlushQ(h) {
      var i :| 0 <= i < |gs| && |gs[i]| >= CardsNeeded(|h|);
      assert |OfSuit(h, ss[i])| >= CardsNeeded(|h|);
    }
    forall s | |OfSuit(h, s)| >= CardsNeeded(|h|) ensures FlushQ(h) {
      SuitReachingIsFlush(h, s);
    }
  }

  lemma SuitReachingIsFlush(h: Hand, s: Suit)
    requires 2 <= |h| <= 7 && |OfSuit(h, s)| >= CardsNeeded(|h|)
    ensures FlushQ(h)
  {
    var gs := CardsBySuit(h);
    var ss := DistinctSuits(h);
    assert s in ss;
    var i :| 0 <= i < |ss| && ss[i] == s;
    assert |gs[i]| >= CardsNeeded(|h|);
  }

  /** `flush?` and the flush group of `straight_flush?` agree. */
  lemma FlushGroupIffFlushQ(h: Hand)
    requires 2 <= |h| <= 7
    ensures FlushGroup(h).Some? <==> FlushQ(h)
  {
    FlushQIff(h);
  }

  // ---- Straights ----

  /** The hand holds a card of the rank at index `v` of `RANKS`. */
  ghost predicate HoldsRankIndex(h: Hand, v: int)
  {
    0 <= v < |Ranks| && Count(h, Ranks[v]) > 0
  }

  /** The hand holds the ace and the `k - 1` lowest ranks: an ace-low run of `k`. */
  ghost predicate AceLowIn(h: Hand, k: int)
  {
    Count(h, Ace) > 0 && forall v :: 0 <= v < k - 1 ==> HoldsRankIndex(h, v)
  }

  /** The hand holds the `k` consecutive ranks whose highest has index `t`. */
  ghost predicate RunIn(h: Hand, t: int, k: int)
  {
    forall v :: t - k < v <= t ==> HoldsRankIndex(h, v)
  }

  /** A `k`-card straight by rank alone, the ace counting high or low. */
  ghost predicate ContainsRun(h: Hand, k: int)
  {
    AceLowIn(h, k) || exists t :: RunIn(h, t, k)
  }

  lemma CountPositive(h: Hand, r: Rank)
    ensures Count(h, r) > 0 <==> exists c :: c in h && c.rank == r
  {
    OfRankMembers(h, r);
    if Count(h, r) > 0 {
      assert OfRank(h, r)[0] in OfRank(h, r);
    }
  }

  lemma IndicesMembers(rs: seq<Rank>, v: int)
    ensures v in Indices(rs) <==> 0 <= v < |Ranks| && Ranks[v] in rs
  {
    var ix := Indices(rs);
    if 0 <= v < |Ranks| && Ranks[v] in rs {
      var i :| 0 <= i < |rs| && rs[i] == Ranks[v];
      ValueFollowsRankTable(v, v);
      assert ix[i] == v;
    }
  }

  /**
   * The run test on a rank sequence that is strictly descending and
   * holds exactly the ranks of `h` is the straight of `h` by rank.
   */
  lemma HasRunIff(h: Hand, rs: seq<Rank>, k: int)
    requires 1 <= k <= 5
    requires forall r :: r in rs <==> Count(h, r) > 0
    requires StrictlyDecreasing(Indices(rs))
    ensures HasRun(rs, k) <==> ContainsRun(h, k)
  {
    var a := Indices(rs);
    assert AceLowRun(rs, k) <==> AceLowIn(h, k) by {
      forall v | 0 <= v < k - 1 ensures Ranks[v] in rs <==> HoldsRankIndex(h, v) {
      }
    }
    WindowRunIff(a, k);
    forall t ensures RunTopAt(a, t, k) <==> RunIn(h, t, k) {
      forall v ensures v in a <==> HoldsRankIndex(h, v) {
        IndicesMembers(rs, v);
      }
    }
    assert WindowRunRanks(rs, k) <==> exists t :: RunIn(h, t, k) by {
      if WindowRunRanks(rs, k) {
        var t :| RunTopAt(a, t, k);
        assert RunIn(h, t, k);
      }
      if exists t :: RunIn(h, t, k) {
        var t :| RunIn(h, t, k);
        assert RunTopAt(a, t, k);
      }
    }
  }

  /** Sorted by value with no rank repeated, the rank indices strictly decrease. */
  lemma DistinctRanksStrictlyDecrease(s: Hand)
    requires forall i, j :: 0 <= i < j < |s| ==> Value(s[i].rank) >= Value(s[j].rank)
    requires forall i, j :: 0 <= i < j < |s| ==> s[i].rank != s[j].rank
    ensures StrictlyDecreasing(Indices(RanksOf(s)))
  {
    var a := Indices(RanksOf(s));
    forall i, j | 0 <= i < j < |a| ensures a[i] > a[j] {
      ValueInjective(s[i].rank, s[j].rank);
    }
  }

  /** The ranks of a reordering of `h` are those of `h`. */
  lemma PermutedRanks(h: Hand, s: Hand, r: Rank)
    requires multiset(s) == multiset(h)
    ensures r in RanksOf(s) <==> Count(h, r) > 0
  {
    CountPositive(h, r);
    if r in RanksOf(s) {
      var i :| 0 <= i < |s| && RanksOf(s)[i] == r;
      assert s[i] in multiset(h);
    }
    if Count(h, r) > 0 {
      var c :| c in h && c.rank == r;
      assert c in multiset(s);
      var i :| 0 <= i < |s| && s[i] == c;
      assert RanksOf(s)[i] == r;
    }
    if r in RanksOf(s) {
      var i :| 0 <= i < |s| && RanksOf(s)[i] == r;
      assert s[i] in s && RankOf(s[i]) == r;
    }
  }

  /** The distinct ranks `straight?` reads are those of the hand... */
  lemma UniqSortedRanks(h: Hand)
    ensures forall r :: r in RanksOf(UniqBy(SortedAceHigh(h), RankOf)) <==> Count(h, r) > 0
  {
    var sorted := SortedAceHigh(h);
    var u := UniqBy(sorted, RankOf);
    forall r ensures r in RanksOf(u) <==> Count(h, r) > 0 {
      PermutedRanks(h, sorted, r);
      RanksOfKeys(u, r);
      RanksOfKeys(sorted, r);
    }
  }

  lemma RanksOfKeys(s: Hand, r: Rank)
    ensures r in RanksOf(s) <==> r in KeysOf(s, RankOf)
  {
    if r in KeysOf(s, RankOf) {
      var c :| c in s && RankOf(c) == r;
      var i :| 0 <= i < |s| && s[i] == c;
      assert RanksOf(s)[i] == r;
    }
    if r in RanksOf(s) {
      var i :| 0 <= i < |s| && RanksOf(s)[i] == r;
      assert s[i] in s && RankOf(s[i]) == r;
    }
  }

  /** ...and strictly descending. */
  lemma UniqSortedRanksDecrease(h: Hand)
    ensures StrictlyDecreasing(Indices(RanksOf(UniqBy(SortedAceHigh(h), RankOf))))
  {
    var sorted := SortedAceHigh(h);
    forall x, y | x in sorted && y in sorted && RankOf(x) != RankOf(y) ensures ValueOf(x) != ValueOf(y) {
      ValueInjective(x.rank, y.rank);
    }
    UniqBySorted(sorted, RankOf, ValueOf);
    DistinctRanksStrictlyDecrease(UniqBy(sorted, RankOf));
  }

  /** `straight?` holds exactly when the ranks of the hand hold a `cards_needed` run. */
  lemma StraightQIff(h: Hand)
    requires 2 <= |h| <= 7
    ensures StraightQ(h) <==> ContainsRun(h, CardsNeeded(|h|))
  {
    UniqSortedRanks(h);
    UniqSortedRanksDecrease(h);
    HasRunIff(h, RanksOf(UniqBy(SortedAceHigh(h), RankOf)), CardsNeeded(|h|));
  }

  /** Within one suit of a hand with no card twice, no rank repeats. */
  lemma SuitGroupRanksDistinct(h: Hand, s: Suit)
    requires NoDuplicates(h)
    ensures forall i, j :: 0 <= i < j < |SortedAceHigh(OfSuit(h, s))| ==>
      SortedAceHigh(OfSuit(h, s))[i].rank != SortedAceHigh(OfSuit(h, s))[j].rank
  {
    var g := SortedAceHigh(OfSuit(h, s));
    OfSuitNoDuplicates(h, s);
    PermutationNoDuplicates(g, OfSuit(h, s));
    OfSuitMembers(h, s);
    forall i, j | 0 <= i < j < |g| ensures g[i].rank != g[j].rank {
      assert g[i] in multiset(OfSuit(h, s)) && g[j] in multiset(OfSuit(h, s));
    }
  }

  /** The ranks `straight_flush?` reads from a suit are those of the suit's cards, strictly descending. */
  lemma SuitSortedRanks(h: Hand, s: Suit)
    requires NoDuplicates(h)
    ensures forall r :: r in RanksOf(SortedAceHigh(OfSuit(h, s))) <==> Count(OfSuit(h, s), r) > 0
    ensures StrictlyDecreasing(Indices(RanksOf(SortedAceHigh(OfSuit(h, s)))))
  {
    var g := OfSuit(h, s);
    var sorted := SortedAceHigh(g);
    forall r ensures r in RanksOf(sorted) <==> Count(g, r) > 0 {
      PermutedRanks(g, sorted, r);
    }
    SuitGroupRanksDistinct(h, s);
    DistinctRanksStrictlyDecrease(sorted);
  }

  /** The group `straight_flush?` tests is the suit that reaches `cards_needed`. */
  lemma FlushGroupSuit(h: Hand) returns (s: Suit)
    requires 2 <= |h| <= 7
    requires FlushGroup(h).Some?
    ensures FlushGroup(h) == Some(OfSuit(h, s))
    ensures |OfSuit(h, s)| >= CardsNeeded(|h|)
  {
    s :| |OfSuit(h, s)| >= CardsNeeded(|h|);
  }

  /**
   * `straight_flush?` holds exactly when some suit reaches
   * `cards_needed` and its cards hold a `cards_needed` run.
   */
  lemma StraightFlushQIff(h: Hand)
    requires ValidHand(h)
    ensures StraightFlushQ(h) <==>
      exists s :: |OfSuit(h, s)| >= CardsNeeded(|h|) && ContainsRun(OfSuit(h, s), CardsNeeded(|h|))
  {
    if FlushGroup(h).Some? {
      var s := FlushGroupSuit(h);
      SuitSortedRanks(h, s);
      var g := OfSuit(h, s);
      HasRunIff(g, RanksOf(SortedAceHigh(g)), CardsNeeded(|h|));
    }
  }

  // ---- The pocket pair reaches the crash in `two_pair?` ----

  /** Only ranks of the hand's cards have cards in the hand. */
  lemma OnlyRankPresent(h: Hand, r: Rank, r': Rank)
    requires forall c :: c in h ==> c.rank == r
    requires r' != r
    ensures Count(h, r') == 0
  {
    CountPositive(h, r');
  }

  /** One rank group exactly when every card has one rank. */
  lemma SingleGroupIff(h: Hand)
    requires |h| > 0
    ensures |CardsByRank(h)| > 0
    ensures |CardsByRank(h)| == 1 <==> forall c :: c in h ==> c.rank == h[0].rank
  {
    GroupsNonEmpty(h);
    var ks := RankGroupOrder(h);
    var gs := CardsByRank(h);
    if |gs| == 1 {
      forall c | c in h ensures c.rank == ks[0] {
        OfRankMembers(h, c.rank);
        assert c in OfRank(h, c.rank);
        assert c.rank in ks;
      }
    }
    if forall c :: c in h ==> c.rank == h[0].rank {
      if |gs| >= 2 {
        OnlyRankPresent(h, h[0].rank, if ks[0] != h[0].rank then ks[0] else ks[1]);
        assert false;
      }
    }
  }

  /** Two cards of one rank in a hand with no card twice lie in different suits. */
  lemma PocketPairNoFlush(h: Hand)
    requires ValidHand(h) && |h| == 2 && h[0].rank == h[1].rank
    ensures !FlushQ(h) && FlushGroup(h).None?
  {
    FlushQIff(h);
    forall s ensures |OfSuit(h, s)| < 2 {
      assert OfSuit(h, s) == OfSuit(h[..1], s) + OfSuit(h[1..], s) by {
        assert h[1..][1..] == [];
        assert h[..1][1..] == [];
      }
    }
  }

  lemma PocketPairNoRun(h: Hand)
    requires |h| == 2 && h[0].rank == h[1].rank
    ensures !ContainsRun(h, 2)
  {
    var r := h[0].rank;
    assert forall c :: c in h ==> c.rank == r;
    if AceLowIn(h, 2) {
      assert HoldsRankIndex(h, 0);
      OnlyRankPresent(h, r, if r != Ace then Ace else Two);
    }
    forall t ensures !RunIn(h, t, 2) {
      if RunIn(h, t, 2) {
        assert HoldsRankIndex(h, t) && HoldsRankIndex(h, t - 1);
        ValueFollowsRankTable(t - 1, t);
        OnlyRankPresent(h, r, if Ranks[t] != r then Ranks[t] else Ranks[t - 1]);
      }
    }
  }

  /**
   * As written, `two_pair?` raises for a hand with a pair and no second
   * rank group; the tests before it let exactly the two-card pair through.
   */
  lemma PocketPairCrashes(h: Hand)
    requires ValidHand(h)
    ensures (!StraightFlushQ(h) && !FourOfAKindQ(h) && !FullHouseQ(h) && !FlushQ(h) &&
             !StraightQ(h) && !ThreeOfAKindQ(h) && TwoPairQAsWritten(h) == None)
        <==> (|h| == 2 && h[0].rank == h[1].rank)
  {
    SingleGroupIff(h);
    var gs := CardsByRank(h);
    FlattenCardsByRank(h);
    if TwoPairQAsWritten(h) == None {
      assert Flatten(gs) == gs[0] + Flatten(gs[1..]);
      CountAtMostFour(h, RankGroupOrder(h)[0]);
      if |h| >= 2 {
        assert h[1] in h;
      }
    }
    if |h| == 2 && h[0].rank == h[1].rank {
      assert forall c :: c in h ==> c.rank == h[0].rank;
      assert Flatten(gs) == gs[0] + Flatten(gs[1..]);
      PocketPairNoFlush(h);
      PocketPairNoRun(h);
      StraightQIff(h);
    }
  }

  /** With the missing second group read as no pair, a two-card pair is classified as a pair. */
  lemma ClassifyPocketPair(h: Hand)
    requires ValidHand(h) && |h| == 2 && h[0].rank == h[1].rank
    ensures Classify(h) == Pair
  {
    PocketPairCrashes(h);
    SingleGroupIff(h);
  }
}
