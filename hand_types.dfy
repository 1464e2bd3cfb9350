/**
 * The `best_hand` of each category module of hand_types.rb: the cards
 * a hand of that category is compared on.
 */
module HandTypes {
  import opened Wrappers
  import opened Cards
  import opened Seqs
  import opened HandViews
  import opened Classification

  // ---- Runs among sorted cards ----

  /** The `k` cards from position `i` span exactly `k - 1` rank indices. */
  predicate SpansRun(cs: seq<Card>, k: int, i: int)
    requires k >= 1 && 0 <= i && i + k <= |cs|
  {
    RankIndex(cs[i].rank) - RankIndex(cs[i + k - 1].rank) == k - 1
  }

  /** `each_cons(k).find`: the position of the first window, from `i` on, that spans a run. */
  function FirstWindowFrom(cs: seq<Card>, k: int, i: nat): (r: Option<nat>)
    requires k >= 1
    ensures r.Some? ==> i <= r.value && r.value + k <= |cs| && SpansRun(cs, k, r.value)
    ensures r.Some? ==> forall j :: i <= j < r.value ==> !SpansRun(cs, k, j)
    ensures r.None? ==> forall j :: i <= j && j + k <= |cs| ==> !SpansRun(cs, k, j)
    decreases |cs| - i
  {
    if i + k > |cs| then None
    else if SpansRun(cs, k, i) then Some(i)
    else FirstWindowFrom(cs, k, i + 1)
  }

  /** The window search finds a window exactly when the run test on rank indices does. */
  lemma FirstWindowIffWindowRun(cs: seq<Card>, k: int)
    requires 1 <= k <= 5
    ensures FirstWindowFrom(cs, k, 0).Some? <==> WindowRunRanks(RanksOf(cs), k)
  {
    if FirstWindowFrom(cs, k, 0).Some? {
      FoundWindowIsRun(cs, k);
    }
    if WindowRunRanks(RanksOf(cs), k) {
      RunWindowIsFound(cs, k);
    }
  }

  lemma RunWindowIsFound(cs: seq<Card>, k: int)
    requires 1 <= k <= 5 && WindowRunRanks(RanksOf(cs), k)
    ensures FirstWindowFrom(cs, k, 0).Some?
  {
    var a := Indices(RanksOf(cs));
    var i :| 0 <= i && i + k <= |a| && WindowSpans(a, k, i);
    WindowSpansRun(cs, k, i);
  }

  lemma FoundWindowIsRun(cs: seq<Card>, k: int)
    requires 1 <= k <= 5 && FirstWindowFrom(cs, k, 0).Some?
    ensures WindowRunRanks(RanksOf(cs), k)
  {
    var j := FirstWindowFrom(cs, k, 0).value;
    WindowSpansRun(cs, k, j);
    var a := Indices(RanksOf(cs));
    assert WindowSpans(a, k, j);
  }

  /** A window spans a run of cards exactly when it spans one of rank indices. */
  lemma WindowSpansRun(cs: seq<Card>, k: int, i: int)
    requires 1 <= k <= 5 && 0 <= i && i + k <= |cs|
    ensures var a := Indices(RanksOf(cs));
      SpansRun(cs, k, i) <==> a[i] - a[i + k - 1] == k - 1
  {
  }

  /**
   * `ace_low_straight` on its `sorted_cards` argument: the `k - 1`
   * lowest cards followed by the first (the ace).
   */
  function AceLowStraight(cs: seq<Card>, k: int): (r: seq<Card>)
    requires 2 <= k && k - 1 < |cs|
    ensures |r| == k
  {
    cs[|cs| - (k - 1)..] + [cs[0]]
  }

  /**
   * When a strictly descending card sequence holds a run but no window
   * spans one, the run is ace-low: the ace comes first and the lowest
   * `k - 1` ranks come last.
   */
  lemma AceLowShape(cs: seq<Card>, k: int)
    requires 2 <= k <= 5
    requires StrictlyDecreasing(Indices(RanksOf(cs)))
    requires HasRun(RanksOf(cs), k)
    requires FirstWindowFrom(cs, k, 0).None?
    ensures k - 1 < |cs| && cs[0].rank == Ace
    ensures forall i :: |cs| - (k - 1) <= i < |cs| ==> RankIndex(cs[i].rank) == |cs| - 1 - i
  {
    var rs := RanksOf(cs);
    var a := Indices(rs);
    FirstWindowIffWindowRun(cs, k);
    assert AceLowRun(rs, k);
    forall v | -1 < v <= k - 2 ensures v in a {
      IndicesMembers(rs, v);
    }
    assert RunTopAt(a, k - 2, k - 1);
    LowestRunIsSuffix(a, 0, k - 1, 0);
    forall i | |cs| - (k - 1) <= i < |cs| ensures RankIndex(cs[i].rank) == |cs| - 1 - i {
      AceLowSuffixAt(cs, k, i);
    }
    IndicesMembers(rs, 12);
    var p :| 0 <= p < |a| && a[p] == 12;
    assert a[0] >= a[p];
    assert a[|cs| - (k - 1)] == k - 2;
    assert RankIndex(cs[0].rank) == 12;
    RankIndexInverse(cs[0].rank);
  }

  /** One card of the lowest `k - 1` ranks, placed by its rank index. */
  lemma AceLowSuffixAt(cs: seq<Card>, k: int, i: int)
    requires 2 <= k <= 5
    requires StrictlyDecreasing(Indices(RanksOf(cs)))
    requires RunTopAt(Indices(RanksOf(cs)), k - 2, k - 1)
    requires 0 <= i && |cs| - (k - 1) <= i < |cs|
    ensures RankIndex(cs[i].rank) == |cs| - 1 - i
  {
    var a := Indices(RanksOf(cs));
    assert forall j :: 0 <= j < |a| ==> a[j] >= 0;
    LowestRunIsSuffix(a, 0, k - 1, i - (|cs| - (k - 1)));
    assert a[i] == RankIndex(RanksOf(cs)[i]);
  }

  /**
   * The straight `best_hand` returns from a strictly descending card
   * sequence: the first window that spans a run, else the ace-low run.
   */
  function BestRun(cs: seq<Card>, k: int): (r: seq<Card>)
    requires 2 <= k <= 5
    requires StrictlyDecreasing(Indices(RanksOf(cs)))
    requires HasRun(RanksOf(cs), k)
    ensures |r| == k
  {
    var w := FirstWindowFrom(cs, k, 0);
    if w.Some? then cs[w.value..w.value + k]
    else
      AceLowShape(cs, k);
      AceLowStraight(cs, k)
  }

  /** The cards hold the `k` consecutive ranks with indices `t`, `t - 1`, ..., in that order. */
  ghost predicate IsRunFrom(r: seq<Card>, t: int, k: int)
  {
    |r| == k && forall i :: 0 <= i < k ==> RankIndex(r[i].rank) == t - i
  }

  /** The cards hold the ranks `k - 1` down to two, then the ace. */
  ghost predicate IsAceLowRun(r: seq<Card>, k: int)
  {
    |r| == k && k >= 1 && r[k - 1].rank == Ace &&
    forall i :: 0 <= i < k - 1 ==> RankIndex(r[i].rank) == k - 2 - i
  }

  lemma RunInIff(h: Hand, rs: seq<Rank>, t: int, k: int)
    requires forall r :: r in rs <==> Count(h, r) > 0
    ensures RunTopAt(Indices(rs), t, k) <==> RunIn(h, t, k)
  {
    forall v ensures v in Indices(rs) <==> HoldsRankIndex(h, v) {
      IndicesMembers(rs, v);
    }
  }

  /** The first window of a strictly descending card sequence that holds a run. */
  lemma FirstWindowExists(h: Hand, cs: seq<Card>, k: int, t0: int) returns (j: nat)
    requires 2 <= k <= 5
    requires forall r :: r in RanksOf(cs) <==> Count(h, r) > 0
    requires StrictlyDecreasing(Indices(RanksOf(cs)))
    requires RunIn(h, t0, k)
    ensures FirstWindowFrom(cs, k, 0) == Some(j)
  {
    var rs := RanksOf(cs);
    RunInIff(h, rs, t0, k);
    RunIsWindow(Indices(rs), k, t0);
    FirstWindowIffWindowRun(cs, k);
    j := FirstWindowFrom(cs, k, 0).value;
  }

  /** The first window that spans a run is the hand's run with the highest top. */
  lemma FirstWindowIsHighestRun(h: Hand, cs: seq<Card>, k: int, j: nat)
    requires 2 <= k <= 5
    requires forall r :: r in RanksOf(cs) <==> Count(h, r) > 0
    requires StrictlyDecreasing(Indices(RanksOf(cs)))
    requires FirstWindowFrom(cs, k, 0) == Some(j)
    ensures j + k <= |cs|
    ensures RunIn(h, RankIndex(cs[j].rank), k)
    ensures forall i :: j <= i < j + k ==> RankIndex(cs[i].rank) == RankIndex(cs[j].rank) - (i - j)
    ensures forall t :: RunIn(h, t, k) ==> t <= RankIndex(cs[j].rank)
  {
    var rs := RanksOf(cs);
    var a := Indices(rs);
    forall i | 0 <= i < j ensures !WindowSpans(a, k, i) {
      WindowSpansRun(cs, k, i);
    }
    WindowSpansRun(cs, k, j);
    FirstWindowIsHighest(a, k, j);
    RunInIff(h, rs, a[j], k);
    forall t | RunIn(h, t, k) ensures t <= a[j] {
      RunInIff(h, rs, t, k);
    }
  }

  lemma BestRunIsWindow(cs: seq<Card>, k: int, j: nat)
    requires 2 <= k <= 5
    requires StrictlyDecreasing(Indices(RanksOf(cs)))
    requires HasRun(RanksOf(cs), k)
    requires FirstWindowFrom(cs, k, 0) == Some(j)
    ensures BestRun(cs, k) == cs[j..j + k]
  {
    var r := BestRun(cs, k);
    assert r == cs[j..j + k];
  }

  /**
   * When the hand holds a run other than the ace-low one, the window
   * found is the run with the highest top.
   */
  lemma BestRunIsHighest(h: Hand, cs: seq<Card>, k: int, t0: int)
    requires 2 <= k <= 5
    requires forall r :: r in RanksOf(cs) <==> Count(h, r) > 0
    requires StrictlyDecreasing(Indices(RanksOf(cs)))
    requires HasRun(RanksOf(cs), k)
    requires RunIn(h, t0, k)
    ensures RunIn(h, RankIndex(BestRun(cs, k)[0].rank), k)
    ensures IsRunFrom(BestRun(cs, k), RankIndex(BestRun(cs, k)[0].rank), k)
    ensures forall t :: RunIn(h, t, k) ==> t <= RankIndex(BestRun(cs, k)[0].rank)
  {
    var j := FirstWindowExists(h, cs, k, t0);
    FirstWindowIsHighestRun(h, cs, k, j);
    BestRunIsWindow(cs, k, j);
    WindowIsRunFrom(cs, k, j);
  }

  lemma WindowIsRunFrom(cs: seq<Card>, k: int, j: nat)
    requires 0 < k && j + k <= |cs|
    requires forall i :: j <= i < j + k ==> RankIndex(cs[i].rank) == RankIndex(cs[j].rank) - (i - j)
    ensures IsRunFrom(cs[j..j + k], RankIndex(cs[j].rank), k)
  {
    var r := cs[j..j + k];
    forall i | 0 <= i < k ensures RankIndex(r[i].rank) == RankIndex(cs[j].rank) - i {
      assert r[i] == cs[j + i];
    }
  }

  /** When the hand holds no run other than the wheel, the ace-low run is returned. */
  lemma BestRunIsAceLow(h: Hand, cs: seq<Card>, k: int)
    requires 2 <= k <= 5
    requires forall r :: r in RanksOf(cs) <==> Count(h, r) > 0
    requires StrictlyDecreasing(Indices(RanksOf(cs)))
    requires HasRun(RanksOf(cs), k)
    requires forall t :: !RunIn(h, t, k)
    ensures IsAceLowRun(BestRun(cs, k), k)
  {
    var rs := RanksOf(cs);
    var a := Indices(rs);
    FirstWindowIffWindowRun(cs, k);
    if WindowRunRanks(rs, k) {
      WindowRunIff(a, k);
      var t :| RunTopAt(a, t, k);
      RunInIff(h, rs, t, k);
    }
    AceLowShape(cs, k);
    var r := BestRun(cs, k);
    forall i | 0 <= i < k - 1 ensures RankIndex(r[i].rank) == k - 2 - i {
      assert r[i] == cs[|cs| - (k - 1) + i];
    }
  }

  lemma BestRunMembers(cs: seq<Card>, k: int)
    requires 2 <= k <= 5
    requires StrictlyDecreasing(Indices(RanksOf(cs)))
    requires HasRun(RanksOf(cs), k)
    ensures forall c :: c in BestRun(cs, k) ==> c in cs
  {
  }

  /** The rank index of the first card: the top of a straight. */
  function Top(r: seq<Card>): int
    requires |r| > 0
  {
    RankIndex(r[0].rank)
  }

  // ---- Straight ----

  /**
   * `Straight#best_hand` with the ace-low fallback applied: the first
   * window of the distinct ranks, highest first, that spans a run, else
   * the ace-low run.
   */
  function StraightBest(h: Hand): (r: seq<Card>)
    requires 2 <= |h| <= 7 && StraightQ(h)
    ensures |r| == CardsNeeded(|h|)
  {
    UniqSortedRanks(h);
    UniqSortedRanksDecrease(h);
    BestRun(UniqBy(SortedAceHigh(h), RankOf), CardsNeeded(|h|))
  }

  /**
   * The straight returned is the hand's highest run of `cards_needed`
   * ranks, highest first, or the ace-low run (ace last) when that is
   * the only one.
   */
  lemma StraightBestIsHighestRun(h: Hand)
    requires 2 <= |h| <= 7 && StraightQ(h)
    ensures forall c :: c in StraightBest(h) ==> c in h
    ensures forall t :: RunIn(h, t, CardsNeeded(|h|)) ==>
      && RunIn(h, Top(StraightBest(h)), CardsNeeded(|h|))
      && IsRunFrom(StraightBest(h), Top(StraightBest(h)), CardsNeeded(|h|))
      && t <= Top(StraightBest(h))
    ensures (forall t :: !RunIn(h, t, CardsNeeded(|h|))) ==> IsAceLowRun(StraightBest(h), CardsNeeded(|h|))
  {
    var k := CardsNeeded(|h|);
    var sorted := SortedAceHigh(h);
    var u := UniqBy(sorted, RankOf);
    UniqSortedRanks(h);
    UniqSortedRanksDecrease(h);
    BestRunMembers(u, k);
    forall c | c in StraightBest(h) ensures c in h {
      assert c in sorted;
      assert c in multiset(h);
    }
    forall t | RunIn(h, t, k)
      ensures RunIn(h, Top(StraightBest(h)), k) && IsRunFrom(StraightBest(h), Top(StraightBest(h)), k)
      ensures t <= Top(StraightBest(h))
    {
      BestRunIsHighest(h, u, k, t);
    }
    if forall t :: !RunIn(h, t, k) {
      BestRunIsAceLow(h, u, k);
    }
  }

  /**
   * `Straight#best_hand` as written: `find` is given the array
   * `ace_low_straight` returns, not a callable, so when no window spans
   * a run it raises; None stands for the raise.
   */
  function StraightBestAsWritten(h: Hand): (r: Option<seq<Card>>)
    requires 2 <= |h| <= 7
  {
    var u := UniqBy(SortedAceHigh(h), RankOf);
    var k := CardsNeeded(|h|);
    match FirstWindowFrom(u, k, 0)
    case Some(j) => Some(u[j..j + k])
    case None => None
  }

  /** As written, `Straight#best_hand` raises exactly on the straights that are only ace-low. */
  lemma StraightAsWrittenRaisesOnAceLow(h: Hand)
    requires 2 <= |h| <= 7 && StraightQ(h)
    ensures StraightBestAsWritten(h).None? <==> forall t :: !RunIn(h, t, CardsNeeded(|h|))
    ensures StraightBestAsWritten(h).Some? ==> StraightBestAsWritten(h).value == StraightBest(h)
  {
    var k := CardsNeeded(|h|);
    var u := UniqBy(SortedAceHigh(h), RankOf);
    var rs := RanksOf(u);
    UniqSortedRanks(h);
    UniqSortedRanksDecrease(h);
    FirstWindowIffWindowRun(u, k);
    WindowRunIff(Indices(rs), k);
    if exists t :: RunIn(h, t, k) {
      var t :| RunIn(h, t, k);
      RunInIff(h, rs, t, k);
    }
    if WindowRunRanks(rs, k) {
      var t :| RunTopAt(Indices(rs), t, k);
      RunInIff(h, rs, t, k);
    }
  }

  /** The ranks of a hand of ace, two, three, four and five, one card each. */
  lemma WheelRanks(h: Hand)
    requires h == [Card(Ace, Clubs), Card(Two, Diamonds), Card(Three, Hearts), Card(Four, Spades), Card(Five, Clubs)]
    ensures ContainsRun(h, 5)
    ensures forall t :: !RunIn(h, t, 5)
  {
    forall v | 0 <= v < 4 ensures HoldsRankIndex(h, v) {
      CountPositive(h, Ranks[v]);
      assert h[v + 1].rank == Ranks[v];
    }
    CountPositive(h, Ace);
    assert h[0].rank == Ace;
    CountPositive(h, Six);
    CountPositive(h, Ten);
    forall t ensures !RunIn(h, t, 5) {
      if t < 4 {
        assert !HoldsRankIndex(h, t - 4);
      } else if t <= 8 {
        assert !HoldsRankIndex(h, 4);
      } else if t <= 12 {
        assert !HoldsRankIndex(h, 8);
      } else {
        assert !HoldsRankIndex(h, t);
      }
    }
  }

  /** The five-high straight (the wheel) makes the as-written `Straight#best_hand` raise. */
  lemma WheelRaises()
    ensures var h := [Card(Ace, Clubs), Card(Two, Diamonds), Card(Three, Hearts), Card(Four, Spades), Card(Five, Clubs)];
      StraightQ(h) && StraightBestAsWritten(h).None? && IsAceLowRun(StraightBest(h), 5)
  {
    var h := [Card(Ace, Clubs), Card(Two, Diamonds), Card(Three, Hearts), Card(Four, Spades), Card(Five, Clubs)];
    WheelRanks(h);
    StraightQIff(h);
    StraightAsWrittenRaisesOnAceLow(h);
    StraightBestIsHighestRun(h);
  }

  // ---- Straight flush ----

  /** The cards of the flush group, sorted, rank it as `straight_flush?` does. */
  lemma FlushGroupRanks(h: Hand)
    requires ValidHand(h) && FlushGroup(h).Some?
    ensures forall r :: r in RanksOf(SortedAceHigh(FlushGroup(h).value)) <==> Count(FlushGroup(h).value, r) > 0
    ensures StrictlyDecreasing(Indices(RanksOf(SortedAceHigh(FlushGroup(h).value))))
  {
    var s := FlushGroupSuit(h);
    SuitSortedRanks(h, s);
  }

  /**
   * `StraightFlush#best_hand` with the ace-low fallback read from its
   * `sorted_cards` argument, the sorted suit: the first window that
   * spans a run, else the ace-low run of that suit.
   */
  function StraightFlushBest(h: Hand): (r: seq<Card>)
    requires ValidHand(h) && StraightFlushQ(h)
    ensures |r| == CardsNeeded(|h|)
  {
    FlushGroupRanks(h);
    BestRun(SortedAceHigh(FlushGroup(h).value), CardsNeeded(|h|))
  }

  /**
   * The straight flush returned lies in the suit that reaches
   * `cards_needed` and is that suit's highest run, or its ace-low run
   * when that is the only one.
   */
  lemma StraightFlushBestIsHighestRun(h: Hand, s: Suit)
    requires ValidHand(h) && StraightFlushQ(h)
    requires |OfSuit(h, s)| >= CardsNeeded(|h|)
    ensures forall c :: c in StraightFlushBest(h) ==> c in h && c.suit == s
    ensures forall t :: RunIn(OfSuit(h, s), t, CardsNeeded(|h|)) ==>
      && RunIn(OfSuit(h, s), Top(StraightFlushBest(h)), CardsNeeded(|h|))
      && IsRunFrom(StraightFlushBest(h), Top(StraightFlushBest(h)), CardsNeeded(|h|))
      && t <= Top(StraightFlushBest(h))
    ensures (forall t :: !RunIn(OfSuit(h, s), t, CardsNeeded(|h|))) ==>
      IsAceLowRun(StraightFlushBest(h), CardsNeeded(|h|))
  {
    var k := CardsNeeded(|h|);
    var g := OfSuit(h, s);
    assert FlushGroup(h) == Some(g);
    var cs := SortedAceHigh(g);
    FlushGroupRanks(h);
    BestRunMembers(cs, k);
    OfSuitMembers(h, s);
    forall c | c in StraightFlushBest(h) ensures c in h && c.suit == s {
      assert c in cs;
      assert c in multiset(g);
    }
    forall t | RunIn(g, t, k)
      ensures RunIn(g, Top(StraightFlushBest(h)), k) && IsRunFrom(StraightFlushBest(h), Top(StraightFlushBest(h)), k)
      ensures t <= Top(StraightFlushBest(h))
    {
      BestRunIsHighest(g, cs, k, t);
    }
    if forall t :: !RunIn(g, t, k) {
      BestRunIsAceLow(g, cs, k);
    }
  }

  lemma UniqByNonEmpty<T, K>(s: seq<T>, key: T -> K)
    requires |s| > 0
    ensures |UniqBy(s, key)| > 0
  {
    assert key(s[0]) in KeysOf(s, key);
  }

  /**
   * `ace_low_straight` as written: it ignores its argument, takes the
   * whole hand's distinct ranks and drops `@size - cards_needed + 1` of
   * them, the count that fits only a hand with no rank repeated.
   */
  function AceLowStraightAsWritten(h: Hand): (r: seq<Card>)
    requires 2 <= |h| <= 7
  {
    var u := UniqBy(SortedAceHigh(h), RankOf);
    var n := |h| - CardsNeeded(|h|) + 1;
    UniqByNonEmpty(SortedAceHigh(h), RankOf);
    (if n <= |u| then u[n..] else []) + [u[0]]
  }

  /** `StraightFlush#best_hand` as written, with the ace-low fallback above. */
  function StraightFlushBestAsWritten(h: Hand): (r: seq<Card>)
    requires 2 <= |h| <= 7 && FlushGroup(h).Some?
  {
    var cs := SortedAceHigh(FlushGroup(h).value);
    var k := CardsNeeded(|h|);
    match FirstWindowFrom(cs, k, 0)
    case Some(j) => cs[j..j + k]
    case None => AceLowStraightAsWritten(h)
  }

  /** The keys of a reordering are the same. */
  lemma PermutedKeys<K>(a: Hand, b: Hand, key: Card -> K)
    requires multiset(a) == multiset(b)
    ensures KeysOf(a, key) == KeysOf(b, key)
  {
    forall x | x in KeysOf(a, key) ensures x in KeysOf(b, key) {
      var c :| c in a && key(c) == x;
      assert c in multiset(b);
    }
    forall x | x in KeysOf(b, key) ensures x in KeysOf(a, key) {
      var c :| c in b && key(c) == x;
      assert c in multiset(a);
    }
  }

  /**
   * The as-written ace-low run is short by one card for every card
   * whose rank repeats an earlier one.
   */
  lemma AceLowAsWrittenLength(h: Hand)
    requires 2 <= |h| <= 7
    requires |h| - CardsNeeded(|h|) + 1 <= |KeysOf(h, RankOf)|
    ensures |AceLowStraightAsWritten(h)| == CardsNeeded(|h|) - (|h| - |KeysOf(h, RankOf)|)
  {
    var sorted := SortedAceHigh(h);
    var u := UniqBy(sorted, RankOf);
    DistinctKeysCount(u, RankOf);
    PermutedKeys(sorted, h, RankOf);
  }

  /** The six-card hand of the lemma below: its hearts and its ranks. */
  lemma SteelWheelWithPairViews(h: Hand)
    requires h == [Card(Ace, Hearts), Card(Two, Hearts), Card(Three, Hearts), Card(Four, Hearts),
                   Card(Five, Hearts), Card(Five, Diamonds)]
    ensures OfSuit(h, Hearts) == h[..5]
    ensures KeysOf(h, RankOf) == {Ace, Two, Three, Four, Five}
    ensures |KeysOf(h, RankOf)| == 5
  {
    SteelWheelHearts(h);
    SteelWheelRanks(h);
  }

  lemma SteelWheelHearts(h: Hand)
    requires h == [Card(Ace, Hearts), Card(Two, Hearts), Card(Three, Hearts), Card(Four, Hearts),
                   Card(Five, Hearts), Card(Five, Diamonds)]
    ensures OfSuit(h, Hearts) == h[..5]
  {
    assert OfSuit(h[5..], Hearts) == [] by { assert h[5..][1..] == []; }
    assert OfSuit(h[4..], Hearts) == [h[4]] by { assert h[4..][1..] == h[5..]; }
    assert OfSuit(h[3..], Hearts) == [h[3], h[4]] by { assert h[3..][1..] == h[4..]; }
    assert OfSuit(h[2..], Hearts) == [h[2], h[3], h[4]] by { assert h[2..][1..] == h[3..]; }
    assert OfSuit(h[1..], Hearts) == [h[1], h[2], h[3], h[4]] by { assert h[1..][1..] == h[2..]; }
  }

  lemma SteelWheelRanks(h: Hand)
    requires h == [Card(Ace, Hearts), Card(Two, Hearts), Card(Three, Hearts), Card(Four, Hearts),
                   Card(Five, Hearts), Card(Five, Diamonds)]
    ensures KeysOf(h, RankOf) == {Ace, Two, Three, Four, Five}
    ensures |KeysOf(h, RankOf)| == 5
  {
    forall r | r in {Ace, Two, Three, Four, Five} ensures r in KeysOf(h, RankOf) {
      var i := if r == Ace then 0 else if r == Two then 1 else if r == Three then 2 else if r == Four then 3 else 4;
      assert h[i] in h && RankOf(h[i]) == r;
    }
  }

  /** The hand is valid and its hearts are the flush group. */
  lemma SteelWheelFlushGroup(h: Hand)
    requires h == [Card(Ace, Hearts), Card(Two, Hearts), Card(Three, Hearts), Card(Four, Hearts),
                   Card(Five, Hearts), Card(Five, Diamonds)]
    ensures ValidHand(h)
    ensures FlushGroup(h) == Some(h[..5])
  {
    SteelWheelWithPairViews(h);
  }

  /** With no window in the suit, the fallback is taken. */
  lemma SteelWheelTakesFallback(h: Hand, g: Hand)
    requires ValidHand(h) && 2 <= |h| <= 7 && CardsNeeded(|h|) == 5
    requires FlushGroup(h) == Some(g) && g == OfSuit(h, Hearts)
    requires ContainsRun(g, 5) && forall t :: !RunIn(g, t, 5)
    ensures StraightFlushQ(h)
    ensures FirstWindowFrom(SortedAceHigh(g), 5, 0).None?
  {
    SuitSortedRanks(h, Hearts);
    var cs := SortedAceHigh(g);
    HasRunIff(g, RanksOf(cs), 5);
    FirstWindowIffWindowRun(cs, 5);
    WindowRunIff(Indices(RanksOf(cs)), 5);
    if WindowRunRanks(RanksOf(cs), 5) {
      var t :| RunTopAt(Indices(RanksOf(cs)), t, 5);
      RunInIff(g, RanksOf(cs), t, 5);
    }
  }

  /**
   * A six-card hand holding the ace-to-five straight flush in hearts and
   * a second five: the as-written result has four cards, the corrected
   * one five.
   */
  lemma SteelWheelWithPairIsShort(h: Hand)
    requires h == [Card(Ace, Hearts), Card(Two, Hearts), Card(Three, Hearts), Card(Four, Hearts),
                   Card(Five, Hearts), Card(Five, Diamonds)]
    ensures ValidHand(h) && StraightFlushQ(h)
    ensures |StraightFlushBestAsWritten(h)| == 4
    ensures |StraightFlushBest(h)| == 5
  {
    SteelWheelWithPairViews(h);
    SteelWheelFlushGroup(h);
    WheelOfOneSuit(h[..5]);
    SteelWheelTakesFallback(h, h[..5]);
    AceLowAsWrittenLength(h);
  }

  /** The ace-to-five straight in one suit. */
  lemma WheelOfOneSuit(g: Hand)
    requires g == [Card(Ace, Hearts), Card(Two, Hearts), Card(Three, Hearts), Card(Four, Hearts), Card(Five, Hearts)]
    ensures ContainsRun(g, 5)
    ensures forall t :: !RunIn(g, t, 5)
  {
    forall v | 0 <= v < 4 ensures HoldsRankIndex(g, v) {
      CountPositive(g, Ranks[v]);
      assert g[v + 1].rank == Ranks[v];
    }
    CountPositive(g, Ace);
    assert g[0].rank == Ace;
    CountPositive(g, Six);
    CountPositive(g, Ten);
    forall t ensures !RunIn(g, t, 5) {
      if t < 4 {
        assert !HoldsRankIndex(g, t - 4);
      } else if t <= 8 {
        assert !HoldsRankIndex(g, 4);
      } else if t <= 12 {
        assert !HoldsRankIndex(g, 8);
      } else {
        assert !HoldsRankIndex(g, t);
      }
    }
  }

  // ---- Helpers for the grouped categories ----

  /** The count of a rank in five cards, position by position. */
  lemma CountOfFive(h: Hand, r: Rank)
    requires |h| == 5
    ensures Count(h, r) ==
      (if h[0].rank == r then 1 else 0) + (if h[1].rank == r then 1 else 0) + (if h[2].rank == r then 1 else 0) +
      (if h[3].rank == r then 1 else 0) + (if h[4].rank == r then 1 else 0)
  {
    CountCons(h, r);
    CountCons(h[1..], r);
    assert h[1..][1..] == h[2..];
    CountCons(h[2..], r);
    assert h[2..][1..] == h[3..];
    CountCons(h[3..], r);
    assert h[3..][1..] == h[4..];
    CountCons(h[4..], r);
    assert h[4..][1..] == [];
  }

  lemma CountCons(h: Hand, r: Rank)
    requires |h| > 0
    ensures Count(h, r) == (if h[0].rank == r then 1 else 0) + Count(h[1..], r)
  {
  }

  function Min(a: int, b: int): int
  {
    if a <= b then a else b
  }

  /** `max` over cards: a card of the highest value. */
  function MaxByValue(cs: seq<Card>): (m: Card)
    requires |cs| > 0
    ensures m in cs
    ensures forall c :: c in cs ==> Value(c.rank) <= Value(m.rank)
  {
    if |cs| == 1 then cs[0]
    else
      var rest := MaxByValue(cs[1..]);
      assert forall c :: c in cs ==> c == cs[0] || c in cs[1..];
      if Value(cs[0].rank) >= Value(rest.rank) then cs[0] else rest
  }

  /** A card of a value-sorted sequence that is not among its first `n` is worth no more than the `n`-th. */
  lemma SortedPrefixIsTop(s: seq<Card>, n: int, c: Card)
    requires forall i, j :: 0 <= i < j < |s| ==> Value(s[i].rank) >= Value(s[j].rank)
    requires 0 < n <= |s| && c in s && c !in s[..n]
    ensures Value(c.rank) <= Value(s[n - 1].rank)
  {
    var j :| 0 <= j < |s| && s[j] == c;
    assert j >= n;
  }

  // ---- Flush ----

  lemma FlushGroupSize(h: Hand)
    requires 2 <= |h| <= 7 && FlushGroup(h).Some?
    ensures |FlushGroup(h).value| >= CardsNeeded(|h|)
  {
    var s := FlushGroupSuit(h);
  }

  /** `Flush#best_hand`: the `cards_needed` highest cards of the flush suit, highest first. */
  function FlushBest(h: Hand): (r: seq<Card>)
    requires 2 <= |h| <= 7 && FlushQ(h)
    ensures |r| == CardsNeeded(|h|)
  {
    FlushGroupIffFlushQ(h);
    FlushGroupSize(h);
    SortedAceHigh(FlushGroup(h).value)[..CardsNeeded(|h|)]
  }

  /** The flush's best hand is read off the group of the suit that reaches `cards_needed`. */
  lemma FlushBestOfGroup(h: Hand)
    requires 2 <= |h| <= 7 && FlushQ(h)
    ensures FlushGroup(h).Some? && CardsNeeded(|h|) <= |FlushGroup(h).value|
    ensures FlushBest(h) == SortedAceHigh(FlushGroup(h).value)[..CardsNeeded(|h|)]
  {
    FlushGroupIffFlushQ(h);
    FlushGroupSize(h);
  }

  /**
   * The flush returned is the `cards_needed` highest cards of the suit that
   * reaches `cards_needed`: cards of that suit, strictly descending, and no
   * card of that suit left out beats any card kept.
   */
  lemma FlushBestIsTopOfSuit(h: Hand, s: Suit)
    requires ValidHand(h) && FlushQ(h) && |OfSuit(h, s)| >= CardsNeeded(|h|)
    ensures FlushBest(h) == SortedAceHigh(OfSuit(h, s))[..CardsNeeded(|h|)]
    ensures var best := SortedAceHigh(OfSuit(h, s))[..CardsNeeded(|h|)];
      && (forall c :: c in best ==> c in OfSuit(h, s))
      && (forall i, j :: 0 <= i < j < |best| ==> Value(best[i].rank) > Value(best[j].rank))
      && (forall c :: c in OfSuit(h, s) && c !in best ==> Value(c.rank) < Value(best[|best| - 1].rank))
  {
    SuitTopFacts(h, s, CardsNeeded(|h|));
  }

  /** The `k` highest cards of one suit, when the hand holds no card twice. */
  lemma SuitTopFacts(h: Hand, s: Suit, k: int)
    requires NoDuplicates(h) && 0 < k <= |OfSuit(h, s)|
    ensures var best := SortedAceHigh(OfSuit(h, s))[..k];
      && (forall c :: c in best ==> c in OfSuit(h, s))
      && (forall i, j :: 0 <= i < j < |best| ==> Value(best[i].rank) > Value(best[j].rank))
      && (forall c :: c in OfSuit(h, s) && c !in best ==> Value(c.rank) < Value(best[|best| - 1].rank))
  {
    SuitGroupRanksDistinct(h, s);
    SortedPrefixFacts(OfSuit(h, s), k, SortedAceHigh(OfSuit(h, s))[..k]);
  }

  /** The first `k` of the value-sorted cards of `g`, when no rank of `g` repeats. */
  lemma SortedPrefixFacts(g: Hand, k: int, best: seq<Card>)
    requires forall i, j :: 0 <= i < j < |SortedAceHigh(g)| ==> SortedAceHigh(g)[i].rank != SortedAceHigh(g)[j].rank
    requires 0 < k <= |g| && best == SortedAceHigh(g)[..k]
    ensures forall c :: c in best ==> c in g
    ensures forall i, j :: 0 <= i < j < |best| ==> Value(best[i].rank) > Value(best[j].rank)
    ensures forall c :: c in g && c !in best ==> Value(c.rank) < Value(best[|best| - 1].rank)
  {
    var sorted := SortedAceHigh(g);
    forall c | c in best ensures c in g {
      assert c in multiset(g);
    }
    forall i, j | 0 <= i < j < k ensures Value(best[i].rank) > Value(best[j].rank) {
      ValueInjective(sorted[i].rank, sorted[j].rank);
    }
    forall c | c in g && c !in best ensures Value(c.rank) < Value(best[k - 1].rank) {
      assert c in multiset(sorted);
      var j :| 0 <= j < |sorted| && sorted[j] == c;
      assert j >= k;
      ValueInjective(sorted[j].rank, sorted[k - 1].rank);
    }
  }

  // ---- Four of a kind ----

  /** The four cards of a four of a kind form the first rank group. */
  lemma QuadsComeFirst(h: Hand, q: Rank)
    requires ValidHand(h) && Count(h, q) == 4
    ensures |CardsByRank(h)| > 0 && RankGroupOrder(h)[0] == q
  {
    FirstGroupIsLargest(h, q);
    var k0 := RankGroupOrder(h)[0];
    CountAtMostFour(h, k0);
    if k0 != q {
      TwoRanksFit(h, q, k0);
    }
  }

  /** The cards after the first rank group: those of every other rank. */
  lemma RestAfterFirst(h: Hand)
    requires |h| > 0
    ensures |CardsByRank(h)| > 0
    ensures Flatten(CardsByRank(h)) == CardsByRank(h)[0] + Flatten(CardsByRank(h)[1..])
    ensures |Flatten(CardsByRank(h)[1..])| == |h| - |CardsByRank(h)[0]|
    ensures forall c :: c in Flatten(CardsByRank(h)[1..]) <==> c in h && c.rank != RankGroupOrder(h)[0]
  {
    GroupsNonEmpty(h);
    var gs := CardsByRank(h);
    FlattenCardsByRank(h);
    forall c ensures c in Flatten(gs[1..]) <==> c in h && c.rank != RankGroupOrder(h)[0] {
      RestOfGroups(h, 1, c);
    }
  }

  /**
   * `FourOfAKind#best_hand` with its early return dropped: the four
   * cards, then the highest card of the other ranks when there is one.
   */
  function FourOfAKindBest(h: Hand): (r: seq<Card>)
    requires |h| > 0
  {
    RestAfterFirst(h);
    var gs := CardsByRank(h);
    var rest := Flatten(gs[1..]);
    if |rest| == 0 then gs[0] else gs[0] + [MaxByValue(rest)]
  }

  /** `FourOfAKind#best_hand` as written: five cards or fewer are returned as given. */
  function FourOfAKindBestAsWritten(h: Hand): (r: seq<Card>)
    requires |h| > 0
  {
    if |h| > 5 then FourOfAKindBest(h) else h
  }

  /**
   * The four of a kind returned is the four cards of rank `q` followed,
   * when the hand has more cards, by a highest card of another rank.
   */
  lemma FourOfAKindBestShape(h: Hand, q: Rank)
    requires ValidHand(h) && Count(h, q) == 4
    ensures |FourOfAKindBest(h)| == Min(|h|, 5)
    ensures FourOfAKindBest(h)[..4] == OfRank(h, q)
    ensures |h| > 4 ==> FourOfAKindBest(h)[4] in h && FourOfAKindBest(h)[4].rank != q
    ensures |h| > 4 ==> forall c :: c in h && c.rank != q ==> Value(c.rank) <= Value(FourOfAKindBest(h)[4].rank)
  {
    QuadsComeFirst(h, q);
    RestAfterFirst(h);
  }

  /** A four of a kind gives back `cards_needed` cards. */
  lemma FourOfAKindBestLength(h: Hand)
    requires ValidHand(h) && FourOfAKindQ(h)
    ensures |FourOfAKindBest(h)| == CardsNeeded(|h|)
  {
    FourOfAKindQIff(h);
    var q :| Count(h, q) == 4;
    FourOfAKindBestShape(h, q);
  }

  /**
   * Quad kings with a two, given two first, against quad twos with an
   * ace, given ace first: as written the kings lose, as intended they win.
   */
  lemma QuadsInGivenOrder(h1: Hand, h2: Hand)
    requires h1 == [Card(Two, Clubs), Card(King, Clubs), Card(King, Diamonds), Card(King, Hearts), Card(King, Spades)]
    requires h2 == [Card(Ace, Clubs), Card(Two, Clubs), Card(Two, Diamonds), Card(Two, Hearts), Card(Two, Spades)]
    ensures ValidHand(h1) && FourOfAKindQ(h1) && ValidHand(h2) && FourOfAKindQ(h2)
    ensures CompareCardSeqs(FourOfAKindBestAsWritten(h1), FourOfAKindBestAsWritten(h2)) == -1
    ensures CompareCardSeqs(FourOfAKindBest(h1), FourOfAKindBest(h2)) == 1
  {
    QuadKings(h1);
    QuadTwos(h2);
  }

  lemma QuadKings(h: Hand)
    requires h == [Card(Two, Clubs), Card(King, Clubs), Card(King, Diamonds), Card(King, Hearts), Card(King, Spades)]
    ensures ValidHand(h) && FourOfAKindQ(h)
    ensures FourOfAKindBest(h)[0].rank == King && FourOfAKindBestAsWritten(h)[0] == Card(Two, Clubs)
  {
    assert forall i :: 1 <= i < 5 ==> h[i].rank == King;
    assert forall i, j :: 0 <= i < j < 5 ==> h[i] != h[j];
    QuadsHand(h, King, 0);
  }

  lemma QuadTwos(h: Hand)
    requires h == [Card(Ace, Clubs), Card(Two, Clubs), Card(Two, Diamonds), Card(Two, Hearts), Card(Two, Spades)]
    ensures ValidHand(h) && FourOfAKindQ(h)
    ensures FourOfAKindBest(h)[0].rank == Two && FourOfAKindBestAsWritten(h)[0] == Card(Ace, Clubs)
  {
    assert forall i :: 1 <= i < 5 ==> h[i].rank == Two;
    assert forall i, j :: 0 <= i < j < 5 ==> h[i] != h[j];
    QuadsHand(h, Two, 0);
  }

  /** Five distinct cards, four of rank `q` and the one at `p` of another rank. */
  lemma QuadsHand(h: Hand, q: Rank, p: int)
    requires |h| == 5 && 0 <= p < 5
    requires forall i, j :: 0 <= i < j < 5 ==> h[i] != h[j]
    requires forall i :: 0 <= i < 5 && i != p ==> h[i].rank == q
    requires h[p].rank != q
    ensures ValidHand(h) && FourOfAKindQ(h)
    ensures FourOfAKindBest(h)[0].rank == q
  {
    CountOfFive(h, q);
    FourOfAKindQIff(h);
    FourOfAKindBestShape(h, q);
    assert FourOfAKindBest(h)[0] == FourOfAKindBest(h)[..4][0];
    OfRankMembers(h, q);
    assert OfRank(h, q)[0] in OfRank(h, q);
  }

  // ---- Full house ----

  /**
   * `FullHouse#best_hand` with its early return dropped: three cards of
   * the first rank group and two of the second.
   */
  function FullHouseBest(h: Hand): (r: seq<Card>)
    requires ValidHand(h) && FullHouseQ(h)
    ensures |r| == 5
  {
    TwoGroupsInFiveCards(h);
    var gs := CardsByRank(h);
    gs[0][..3] + gs[1][..2]
  }

  /** `FullHouse#best_hand` as written: five cards or fewer as given, otherwise the first two groups whole. */
  function FullHouseBestAsWritten(h: Hand): (r: seq<Card>)
    requires ValidHand(h) && FullHouseQ(h)
  {
    TwoGroupsInFiveCards(h);
    var gs := CardsByRank(h);
    if |h| > 5 then gs[0] + gs[1] else h
  }

  /**
   * The full house returned is three cards of the rank with the most
   * cards (the higher on a tie) and two of the rank that comes next by
   * the same order.
   */
  lemma FullHouseBestShape(h: Hand) returns (t: Rank, p: Rank)
    requires ValidHand(h) && FullHouseQ(h)
    ensures t != p && Count(h, t) >= 3 && Count(h, p) >= 2
    ensures FullHouseBest(h)[..3] == OfRank(h, t)[..3]
    ensures FullHouseBest(h)[3..] == OfRank(h, p)[..2]
    ensures forall r :: r != t ==> Count(h, r) < Count(h, t) || (Count(h, r) == Count(h, t) && Value(r) < Value(t))
    ensures forall r :: r != t && r != p ==>
      Count(h, r) < Count(h, p) || (Count(h, r) == Count(h, p) && Value(r) < Value(p))
  {
    TwoGroupsInFiveCards(h);
    var ks := RankGroupOrder(h);
    t, p := ks[0], ks[1];
    forall r | r != t
      ensures Count(h, r) < Count(h, t) || (Count(h, r) == Count(h, t) && Value(r) < Value(t))
    {
      GroupDominates(h, 0, r);
      ValueInjective(r, t);
    }
    forall r | r != t && r != p
      ensures Count(h, r) < Count(h, p) || (Count(h, r) == Count(h, p) && Value(r) < Value(p))
    {
      GroupDominates(h, 1, r);
      ValueInjective(r, p);
    }
  }

  /**
   * Three kings over a pair of twos, given twos first, against three
   * threes over a pair of aces, given threes first: as written the kings
   * lose, as intended they win.
   */
  lemma FullHouseInGivenOrder(h1: Hand, h2: Hand)
    requires h1 == [Card(Two, Clubs), Card(Two, Diamonds), Card(King, Clubs), Card(King, Diamonds), Card(King, Hearts)]
    requires h2 == [Card(Three, Clubs), Card(Three, Diamonds), Card(Three, Hearts), Card(Ace, Clubs), Card(Ace, Diamonds)]
    ensures ValidHand(h1) && FullHouseQ(h1) && ValidHand(h2) && FullHouseQ(h2)
    ensures CompareCardSeqs(FullHouseBestAsWritten(h1), FullHouseBestAsWritten(h2)) == -1
    ensures CompareCardSeqs(FullHouseBest(h1), FullHouseBest(h2)) == 1
  {
    KingsOverTwos(h1);
    ThreesOverAces(h2);
    FullHouseLeadsDecide(h1, h2);
  }

  /** Two full houses whose given order leads with a two and a three, and whose best hands lead with a king and a three. */
  lemma FullHouseLeadsDecide(h1: Hand, h2: Hand)
    requires ValidHand(h1) && FullHouseQ(h1) && ValidHand(h2) && FullHouseQ(h2)
    requires |FullHouseBestAsWritten(h1)| == 5 && FullHouseBestAsWritten(h1)[0].rank == Two
    requires |FullHouseBestAsWritten(h2)| == 5 && FullHouseBestAsWritten(h2)[0].rank == Three
    requires FullHouseBest(h1)[0].rank == King && FullHouseBest(h2)[0].rank == Three
    ensures CompareCardSeqs(FullHouseBestAsWritten(h1), FullHouseBestAsWritten(h2)) == -1
    ensures CompareCardSeqs(FullHouseBest(h1), FullHouseBest(h2)) == 1
  {
    LeadingCardDecides(FullHouseBestAsWritten(h1), FullHouseBestAsWritten(h2));
    LeadingCardDecides(FullHouseBest(h1), FullHouseBest(h2));
  }

  lemma KingsOverTwos(h: Hand)
    requires h == [Card(Two, Clubs), Card(Two, Diamonds), Card(King, Clubs), Card(King, Diamonds), Card(King, Hearts)]
    ensures ValidHand(h) && FullHouseQ(h)
    ensures FullHouseBest(h)[0].rank == King && FullHouseBestAsWritten(h)[0] == Card(Two, Clubs)
    ensures |FullHouseBestAsWritten(h)| == 5
  {
    KingsOverTwosCounts(h);
    FullHouseOfFive(h, King, Two);
  }

  lemma KingsOverTwosCounts(h: Hand)
    requires h == [Card(Two, Clubs), Card(Two, Diamonds), Card(King, Clubs), Card(King, Diamonds), Card(King, Hearts)]
    ensures ValidHand(h) && Count(h, King) == 3 && Count(h, Two) == 2
  {
    assert forall i, j :: 0 <= i < j < 5 ==> h[i] != h[j];
    CountOfFive(h, King);
    CountOfFive(h, Two);
  }

  lemma ThreesOverAces(h: Hand)
    requires h == [Card(Three, Clubs), Card(Three, Diamonds), Card(Three, Hearts), Card(Ace, Clubs), Card(Ace, Diamonds)]
    ensures ValidHand(h) && FullHouseQ(h)
    ensures FullHouseBest(h)[0].rank == Three && FullHouseBestAsWritten(h)[0] == Card(Three, Clubs)
    ensures |FullHouseBestAsWritten(h)| == 5
  {
    ThreesOverAcesCounts(h);
    FullHouseOfFive(h, Three, Ace);
  }

  lemma ThreesOverAcesCounts(h: Hand)
    requires h == [Card(Three, Clubs), Card(Three, Diamonds), Card(Three, Hearts), Card(Ace, Clubs), Card(Ace, Diamonds)]
    ensures ValidHand(h) && Count(h, Three) == 3 && Count(h, Ace) == 2
  {
    assert forall i, j :: 0 <= i < j < 5 ==> h[i] != h[j];
    CountOfFive(h, Three);
    CountOfFive(h, Ace);
  }

  /** Five cards, three of rank `t` and two of rank `p`: a full house led by `t`. */
  lemma FullHouseOfFive(h: Hand, t: Rank, p: Rank)
    requires ValidHand(h) && |h| == 5
    requires t != p && Count(h, t) == 3 && Count(h, p) == 2
    ensures FullHouseQ(h)
    ensures FullHouseBest(h)[0].rank == t
  {
    FullHouseOfCounts(h, t, p);
    var b := FullHouseBest(h);
    FullHouseOfFiveTrips(h, t);
    assert b[0] == b[..3][0] == OfRank(h, t)[0];
  }

  lemma FullHouseOfCounts(h: Hand, t: Rank, p: Rank)
    requires ValidHand(h) && |h| >= 5
    requires t != p && Count(h, t) >= 3 && Count(h, p) >= 2
    ensures FullHouseQ(h)
  {
    FullHouseQIff(h);
  }

  lemma FullHouseOfFiveTrips(h: Hand, t: Rank)
    requires ValidHand(h) && |h| == 5 && FullHouseQ(h) && Count(h, t) == 3
    ensures FullHouseBest(h)[..3] == OfRank(h, t)[..3]
  {
    var t', p' := FullHouseBestShape(h);
    if t' != t {
      TwoRanksFit(h, t, t');
    }
  }

  /**
   * With two ranks of three cards in six or seven, the two first groups
   * taken whole make six cards.
   */
  lemma FullHouseAsWrittenTakesTwoTrips(h: Hand, t1: Rank, t2: Rank)
    requires ValidHand(h) && |h| > 5 && !FourOfAKindQ(h)
    requires t1 != t2 && Count(h, t1) == 3 && Count(h, t2) == 3
    ensures FullHouseQ(h)
    ensures |FullHouseBestAsWritten(h)| == 6
  {
    TwoGroupsInFiveCards(h);
    var gs := CardsByRank(h);
    var ks := RankGroupOrder(h);
    FirstGroupIsLargest(h, t1);
    CountAtMostFour(h, ks[0]);
    assert |gs[0]| == 3;
    var t := if t1 != ks[0] then t1 else t2;
    SecondGroupIsLargestOfRest(h, t);
    GroupDominates(h, 0, ks[1]);
    assert |gs[1]| == 3;
  }

  // ---- Three of a kind ----

  /** `find { |c| c.count == n }` over the rank groups: the first group of exactly `n` cards. */
  function FindGroupOfCount(gs: seq<Hand>, n: int): (r: Option<Hand>)
    ensures r.Some? ==> |r.value| == n && r.value in gs
    ensures r.None? ==> forall i :: 0 <= i < |gs| ==> |gs[i]| != n
  {
    if |gs| == 0 then None
    else if |gs[0]| == n then Some(gs[0])
    else
      var r := FindGroupOfCount(gs[1..], n);
      assert forall i :: 1 <= i < |gs| ==> gs[i] == gs[1..][i - 1];
      r
  }

  /** `reject { |card| card.rank == t }`: the cards of other ranks, in order. */
  function WithoutRank(cs: seq<Card>, t: Rank): (r: seq<Card>)
    ensures |r| == |cs| - Count(cs, t)
  {
    if |cs| == 0 then [] else (if cs[0].rank == t then [] else [cs[0]]) + WithoutRank(cs[1..], t)
  }

  lemma {:induction false} WithoutRankMembers(cs: seq<Card>, t: Rank, c: Card)
    ensures c in WithoutRank(cs, t) <==> c in cs && c.rank != t
  {
    if |cs| > 0 {
      WithoutRankMembers(cs[1..], t, c);
      assert c in cs <==> c == cs[0] || c in cs[1..];
    }
  }

  /** Rejecting keeps a value-sorted sequence sorted. */
  lemma {:induction false} WithoutRankSorted(cs: seq<Card>, t: Rank)
    requires forall i, j :: 0 <= i < j < |cs| ==> Value(cs[i].rank) >= Value(cs[j].rank)
    ensures forall i, j :: 0 <= i < j < |WithoutRank(cs, t)| ==>
      Value(WithoutRank(cs, t)[i].rank) >= Value(WithoutRank(cs, t)[j].rank)
  {
    if |cs| > 0 {
      var rest := WithoutRank(cs[1..], t);
      WithoutRankSorted(cs[1..], t);
      forall i | 0 <= i < |rest| ensures Value(cs[0].rank) >= Value(rest[i].rank) {
        WithoutRankMembers(cs[1..], t, rest[i]);
        var j :| 0 <= j < |cs[1..]| && cs[1..][j] == rest[i];
        assert cs[j + 1] == rest[i];
      }
    }
  }

  /** In a three of a kind that is not four of a kind the first rank group is the trips. */
  lemma TripsComeFirst(h: Hand)
    requires ValidHand(h) && ThreeOfAKindQ(h) && !FourOfAKindQ(h)
    ensures |CardsByRank(h)| > 0 && |CardsByRank(h)[0]| == 3
    ensures FindGroupOfCount(CardsByRank(h), 3) == Some(CardsByRank(h)[0])
    ensures CardsByRank(h)[0][0].rank == RankGroupOrder(h)[0]
    ensures Count(SortedAceHigh(h), RankGroupOrder(h)[0]) == 3
  {
    GroupsNonEmpty(h);
    CountAtMostFour(h, RankGroupOrder(h)[0]);
    CountPermutation(SortedAceHigh(h), h, RankGroupOrder(h)[0]);
  }

  /**
   * `ThreeOfAKind#best_hand` with `cards_needed - 3` kickers: the trips,
   * then the highest cards of the other ranks.
   */
  function ThreeOfAKindBest(h: Hand): (r: seq<Card>)
    requires ValidHand(h) && ThreeOfAKindQ(h) && !FourOfAKindQ(h)
    ensures |r| == CardsNeeded(|h|)
  {
    TripsComeFirst(h);
    var trips := FindGroupOfCount(CardsByRank(h), 3).value;
    var kickers := WithoutRank(SortedAceHigh(h), trips[0].rank);
    trips + kickers[..CardsNeeded(|h|) - 3]
  }

  /** An element of a Ruby array that `<<` has appended to: a card, or a whole array of cards. */
  datatype Item = CardItem(card: Card) | ArrayItem(cards: seq<Card>)

  function CardItems(cs: seq<Card>): (r: seq<Item>)
    ensures |r| == |cs|
    ensures forall i :: 0 <= i < |cs| ==> r[i] == CardItem(cs[i])
  {
    if |cs| == 0 then [] else [CardItem(cs[0])] + CardItems(cs[1..])
  }

  /** Ruby's `flatten` of an array of cards and arrays of cards. */
  function FlattenItems(r: seq<Item>): seq<Card>
  {
    if |r| == 0 then []
    else (match r[0] case CardItem(c) => [c] case ArrayItem(cs) => cs) + FlattenItems(r[1..])
  }

  /**
   * `ThreeOfAKind#best_hand` as written: `<<` appends the kicker array as
   * one element after the three trips cards, and the inclusive range
   * `[0..(cards_needed - 3)]` takes `cards_needed - 2` kickers when there
   * are that many.
   */
  function ThreeOfAKindBestAsWritten(h: Hand): (r: seq<Item>)
    requires ValidHand(h) && ThreeOfAKindQ(h) && !FourOfAKindQ(h)
    ensures |r| == 4
  {
    TripsComeFirst(h);
    var trips := FindGroupOfCount(CardsByRank(h), 3).value;
    var kickers := WithoutRank(SortedAceHigh(h), trips[0].rank);
    CardItems(trips) + [ArrayItem(kickers[..Min(CardsNeeded(|h|) - 2, |kickers|)])]
  }

  /**
   * The memoized rank groups once `ThreeOfAKind#best_hand` has run: the
   * trips group holds its three cards and then the appended kicker array.
   */
  function TripsMemoAfterFirstCall(h: Hand): seq<seq<Item>>
    requires ValidHand(h) && ThreeOfAKindQ(h) && !FourOfAKindQ(h)
  {
    TripsComeFirst(h);
    var gs := CardsByRank(h);
    [ThreeOfAKindBestAsWritten(h)] + GroupItems(gs[1..])
  }

  /** Each rank group as an array of card elements. */
  function GroupItems(gs: seq<Hand>): (m: seq<seq<Item>>)
    ensures |m| == |gs|
    ensures forall i :: 0 <= i < |gs| ==> m[i] == CardItems(gs[i])
  {
    if |gs| == 0 then [] else [CardItems(gs[0])] + GroupItems(gs[1..])
  }

  /**
   * After the first call the memo still has one entry per rank, but the
   * trips entry has grown to four elements. Asked a second time, `find
   * {|c| c.count == 3}` meets no group of three (no other rank has three
   * cards either), so it yields nil and `cards.first.rank` raises.
   */
  lemma ThreeOfAKindSecondCallFindsNoTrips(h: Hand)
    requires ValidHand(h) && ThreeOfAKindQ(h) && !FourOfAKindQ(h) && !FullHouseQ(h)
    ensures |TripsMemoAfterFirstCall(h)| == |CardsByRank(h)| > 0
    ensures |TripsMemoAfterFirstCall(h)[0]| == 4
    ensures forall i :: 0 <= i < |TripsMemoAfterFirstCall(h)| ==> |TripsMemoAfterFirstCall(h)[i]| != 3
  {
    OtherGroupsBelowThree(h);
    TripsComeFirst(h);
    var m := TripsMemoAfterFirstCall(h);
    var gs := CardsByRank(h);
    assert m == [ThreeOfAKindBestAsWritten(h)] + GroupItems(gs[1..]);
    forall i | 0 <= i < |m| ensures |m[i]| != 3 {
      if i > 0 {
        assert m[i] == m[1..][i - 1] == CardItems(gs[1..][i - 1]);
        assert gs[1..][i - 1] == gs[i];
      }
    }
  }

  /** In a three of a kind that is no full house, no rank other than the trips has three cards. */
  lemma OtherGroupsBelowThree(h: Hand)
    requires ValidHand(h) && ThreeOfAKindQ(h) && !FourOfAKindQ(h) && !FullHouseQ(h)
    ensures forall i :: 1 <= i < |CardsByRank(h)| ==> |CardsByRank(h)[i]| < 3
  {
    TripsComeFirst(h);
    var gs := CardsByRank(h);
    var ks := RankGroupOrder(h);
    if |gs| > 1 {
      if |h| >= 5 {
        TwoGroupsInFiveCards(h);
      } else {
        TwoRanksFit(h, ks[0], ks[1]);
      }
      assert |gs[1]| < 2;
      forall i | 1 <= i < |gs| ensures |gs[i]| < 3 {
        assert i == 1 || Count(h, ks[1]) >= Count(h, ks[i]);
      }
    }
  }

  /**
   * The three of a kind returned is the three cards of the rank with the
   * most cards, then cards of other ranks by descending value, none of
   * the cards left out worth more than the last one kept.
   */
  lemma ThreeOfAKindBestShape(h: Hand) returns (t: Rank)
    requires ValidHand(h) && ThreeOfAKindQ(h) && !FourOfAKindQ(h)
    ensures Count(h, t) == 3 && ThreeOfAKindBest(h)[..3] == OfRank(h, t)
    ensures forall r :: r != t ==> Count(h, r) < 3 || (Count(h, r) == 3 && Value(r) < Value(t))
    ensures forall i :: 3 <= i < |ThreeOfAKindBest(h)| ==> ThreeOfAKindBest(h)[i] in h && ThreeOfAKindBest(h)[i].rank != t
    ensures forall i, j :: 3 <= i < j < |ThreeOfAKindBest(h)| ==>
      Value(ThreeOfAKindBest(h)[i].rank) >= Value(ThreeOfAKindBest(h)[j].rank)
    ensures |ThreeOfAKindBest(h)| > 3 ==> forall c :: c in h && c.rank != t && c !in ThreeOfAKindBest(h) ==>
      Value(c.rank) <= Value(ThreeOfAKindBest(h)[|ThreeOfAKindBest(h)| - 1].rank)
  {
    TripsComeFirst(h);
    t := RankGroupOrder(h)[0];
    TripsBestParts(h, t);
    TripsDominate(h, t);
    KickerFacts(h, t, WithoutRank(SortedAceHigh(h), t), ThreeOfAKindBest(h), 3);
  }

  /** The three of a kind returned: the trips of the first rank group, then the highest cards of the other ranks. */
  lemma TripsBestParts(h: Hand, t: Rank)
    requires ValidHand(h) && ThreeOfAKindQ(h) && !FourOfAKindQ(h)
    requires |CardsByRank(h)| > 0 && t == RankGroupOrder(h)[0]
    ensures Count(h, t) == 3
    ensures ThreeOfAKindBest(h)[..3] == OfRank(h, t)
    ensures |ThreeOfAKindBest(h)| - 3 <= |WithoutRank(SortedAceHigh(h), t)|
    ensures ThreeOfAKindBest(h)[3..] == WithoutRank(SortedAceHigh(h), t)[..|ThreeOfAKindBest(h)| - 3]
  {
    TripsComeFirst(h);
    var r := ThreeOfAKindBest(h);
    var kickers := WithoutRank(SortedAceHigh(h), t);
    assert r[..3] == OfRank(h, t) && r[3..] == kickers[..|r| - 3];
  }

  /** No other rank has more cards than the first rank group's, nor as many with a higher value. */
  lemma TripsDominate(h: Hand, t: Rank)
    requires ValidHand(h) && |h| > 0 && |CardsByRank(h)| > 0 && t == RankGroupOrder(h)[0] && Count(h, t) == 3
    ensures forall r :: r != t ==> Count(h, r) < 3 || (Count(h, r) == 3 && Value(r) < Value(t))
  {
    forall q | q != t ensures Count(h, q) < 3 || (Count(h, q) == 3 && Value(q) < Value(t)) {
      GroupDominates(h, 0, q);
      ValueInjective(q, t);
    }
  }

  /** Cards from position `m` on taken from the front of the value-sorted cards of ranks other than `t`. */
  lemma KickerFacts(h: Hand, t: Rank, kickers: seq<Card>, r: seq<Card>, m: int)
    requires kickers == WithoutRank(SortedAceHigh(h), t)
    requires 0 <= m <= |r| && |r| - m <= |kickers| && r[m..] == kickers[..|r| - m]
    ensures forall i :: m <= i < |r| ==> r[i] in h && r[i].rank != t
    ensures forall i, j :: m <= i < j < |r| ==> Value(r[i].rank) >= Value(r[j].rank)
    ensures |r| > m ==> forall c :: c in h && c.rank != t && c !in r ==> Value(c.rank) <= Value(r[|r| - 1].rank)
  {
    KickersInHand(h, t, kickers, r, m);
    KickersDescend(h, t, kickers, r, m);
    if |r| > m {
      KickersTop(h, t, kickers, r, m);
    }
  }

  lemma KickersInHand(h: Hand, t: Rank, kickers: seq<Card>, r: seq<Card>, m: int)
    requires kickers == WithoutRank(SortedAceHigh(h), t)
    requires 0 <= m <= |r| && |r| - m <= |kickers| && r[m..] == kickers[..|r| - m]
    ensures forall i :: m <= i < |r| ==> r[i] in h && r[i].rank != t
  {
    var sorted := SortedAceHigh(h);
    forall i | m <= i < |r| ensures r[i] in h && r[i].rank != t {
      assert r[i] == kickers[i - m];
      WithoutRankMembers(sorted, t, r[i]);
      assert r[i] in multiset(h);
    }
  }

  lemma KickersDescend(h: Hand, t: Rank, kickers: seq<Card>, r: seq<Card>, m: int)
    requires kickers == WithoutRank(SortedAceHigh(h), t)
    requires 0 <= m <= |r| && |r| - m <= |kickers| && r[m..] == kickers[..|r| - m]
    ensures forall i, j :: m <= i < j < |r| ==> Value(r[i].rank) >= Value(r[j].rank)
  {
    WithoutRankSorted(SortedAceHigh(h), t);
    forall i, j | m <= i < j < |r| ensures Value(r[i].rank) >= Value(r[j].rank) {
      assert r[i] == kickers[i - m] && r[j] == kickers[j - m];
    }
  }

  lemma KickersTop(h: Hand, t: Rank, kickers: seq<Card>, r: seq<Card>, m: int)
    requires kickers == WithoutRank(SortedAceHigh(h), t)
    requires 0 <= m < |r| && |r| - m <= |kickers| && r[m..] == kickers[..|r| - m]
    ensures forall c :: c in h && c.rank != t && c !in r ==> Value(c.rank) <= Value(r[|r| - 1].rank)
  {
    var sorted := SortedAceHigh(h);
    var n := |r| - m;
    WithoutRankSorted(sorted, t);
    forall c | c in h && c.rank != t && c !in r ensures Value(c.rank) <= Value(r[|r| - 1].rank) {
      assert c in multiset(sorted);
      WithoutRankMembers(sorted, t, c);
      assert c !in kickers[..n];
      SortedPrefixIsTop(kickers, n, c);
      assert r[|r| - 1] == kickers[n - 1];
    }
  }

  /**
   * The extra kicker: the three of a kind as written has four elements,
   * the trips cards and then one array of kickers. Flattened, it agrees
   * with the intended hand up to five cards; from six cards on the array
   * holds three kickers, one more than the intended hand, which it
   * extends.
   */
  lemma ThreeOfAKindAsWrittenExtraKicker(h: Hand)
    requires ValidHand(h) && ThreeOfAKindQ(h) && !FourOfAKindQ(h)
    ensures var r := ThreeOfAKindBestAsWritten(h);
      && |r| == 4 && r[3].ArrayItem?
      && (forall i :: 0 <= i < 3 ==> r[i] == CardItem(ThreeOfAKindBest(h)[i]))
      && |r[3].cards| == Min(CardsNeeded(|h|) - 2, |h| - 3)
    ensures |h| <= 5 ==> FlattenItems(ThreeOfAKindBestAsWritten(h)) == ThreeOfAKindBest(h)
    ensures |h| >= 6 ==>
      (|FlattenItems(ThreeOfAKindBestAsWritten(h))| == 6 && FlattenItems(ThreeOfAKindBestAsWritten(h))[..5] == ThreeOfAKindBest(h))
  {
    TripsComeFirst(h);
    var trips := FindGroupOfCount(CardsByRank(h), 3).value;
    var kickers := WithoutRank(SortedAceHigh(h), trips[0].rank);
    var r := ThreeOfAKindBestAsWritten(h);
    var taken := kickers[..Min(CardsNeeded(|h|) - 2, |kickers|)];
    assert r == CardItems(trips) + [ArrayItem(taken)];
    FlattenTrips(trips, taken);
    assert ThreeOfAKindBest(h) == trips + kickers[..CardsNeeded(|h|) - 3];
  }

  lemma FlattenTrips(trips: seq<Card>, taken: seq<Card>)
    ensures FlattenItems(CardItems(trips) + [ArrayItem(taken)]) == trips + taken
  {
    FlattenCardItems(trips, [ArrayItem(taken)]);
    assert [ArrayItem(taken)][1..] == [];
  }

  /** Cards appended one by one flatten back to themselves. */
  lemma {:induction false} FlattenCardItems(cs: seq<Card>, rest: seq<Item>)
    ensures FlattenItems(CardItems(cs) + rest) == cs + FlattenItems(rest)
  {
    if |cs| > 0 {
      var r := CardItems(cs) + rest;
      assert r[0] == CardItem(cs[0]) && r[1..] == CardItems(cs[1..]) + rest;
      assert FlattenItems(r) == [cs[0]] + FlattenItems(r[1..]);
      FlattenCardItems(cs[1..], rest);
      assert cs == [cs[0]] + cs[1..];
    } else {
      assert CardItems(cs) + rest == rest;
    }
  }

  // ---- Two pair ----

  /** With two pairs the flattened rank groups open with the first two groups. */
  lemma TwoPairPrefix(h: Hand)
    requires |h| > 0 && TwoPairQ(h)
    ensures |CardsByRank(h)| >= 2
    ensures Flatten(CardsByRank(h)) == CardsByRank(h)[0] + CardsByRank(h)[1] + Flatten(CardsByRank(h)[2..])
    ensures |Flatten(CardsByRank(h))| == |h| >= 4
  {
    var gs := CardsByRank(h);
    assert gs[1..][1..] == gs[2..];
    FlattenCardsByRank(h);
  }

  /**
   * `TwoPair#best_hand`: the first four cards of the flattened rank
   * groups, then the highest of the cards after them when there are any.
   */
  function TwoPairBest(h: Hand): (r: seq<Card>)
    requires |h| > 0 && TwoPairQ(h)
    ensures |r| == Min(|h|, 5)
  {
    TwoPairPrefix(h);
    var f := Flatten(CardsByRank(h));
    if |f| == 4 then f[..4] else f[..4] + [MaxByValue(f[4..])]
  }

  /** In a two pair that is not three of a kind the first two groups are pairs, the higher first. */
  lemma TwoPairGroups(h: Hand)
    requires ValidHand(h) && TwoPairQ(h) && !ThreeOfAKindQ(h)
    ensures |CardsByRank(h)| >= 2 && |CardsByRank(h)[0]| == 2 && |CardsByRank(h)[1]| == 2
    ensures Value(RankGroupOrder(h)[0]) > Value(RankGroupOrder(h)[1])
    ensures forall q :: q != RankGroupOrder(h)[0] && q != RankGroupOrder(h)[1] ==>
      Count(h, q) < 2 || Value(q) < Value(RankGroupOrder(h)[1])
  {
    var ks := RankGroupOrder(h);
    GroupDominates(h, 0, ks[1]);
    forall q | q != ks[0] && q != ks[1] ensures Count(h, q) < 2 || Value(q) < Value(ks[1]) {
      GroupDominates(h, 1, q);
      ValueInjective(q, ks[1]);
    }
  }

  /**
   * The two pair returned is the pair of the highest paired rank, the
   * pair of the next, and the highest card of any other rank.
   */
  lemma TwoPairBestShape(h: Hand) returns (p1: Rank, p2: Rank)
    requires ValidHand(h) && TwoPairQ(h) && !ThreeOfAKindQ(h)
    ensures p1 != p2 && Count(h, p1) == 2 && Count(h, p2) == 2 && Value(p1) > Value(p2)
    ensures forall q :: q != p1 && q != p2 ==> Count(h, q) < 2 || Value(q) < Value(p2)
    ensures |TwoPairBest(h)| == CardsNeeded(|h|)
    ensures TwoPairBest(h)[..2] == OfRank(h, p1) && TwoPairBest(h)[2..4] == OfRank(h, p2)
    ensures |RankGroupOrder(h)| >= 2 && p1 == RankGroupOrder(h)[0] && p2 == RankGroupOrder(h)[1]
  {
    TwoPairGroups(h);
    TwoPairBestSplit(h);
    var ks := RankGroupOrder(h);
    var gs := CardsByRank(h);
    p1, p2 := ks[0], ks[1];
    ConcatParts(gs[0], gs[1], if |h| == 4 then [] else [MaxByValue(Flatten(gs[2..]))]);
  }

  lemma ConcatParts<T>(a: seq<T>, b: seq<T>, c: seq<T>)
    ensures (a + b + c)[..|a|] == a
    ensures (a + b + c)[|a|..|a| + |b|] == b
    ensures (a + b + c)[|a| + |b|..] == c
  {
  }

  /** Under the two pairs the flattened groups split into the pairs and the rest. */
  lemma TwoPairBestSplit(h: Hand)
    requires ValidHand(h) && TwoPairQ(h) && !ThreeOfAKindQ(h)
    ensures |CardsByRank(h)| >= 2 && |Flatten(CardsByRank(h)[2..])| == |h| - 4
    ensures TwoPairBest(h) == CardsByRank(h)[0] + CardsByRank(h)[1] +
      (if |h| == 4 then [] else [MaxByValue(Flatten(CardsByRank(h)[2..]))])
  {
    TwoPairGroups(h);
    TwoPairPrefix(h);
    var gs := CardsByRank(h);
    ConcatParts(gs[0], gs[1], Flatten(gs[2..]));
  }

  /**
   * The fifth card of a two pair is a card of neither pair's rank (the
   * first two rank groups), and none of those is worth more.
   */
  lemma TwoPairKicker(h: Hand)
    requires ValidHand(h) && TwoPairQ(h) && !ThreeOfAKindQ(h) && |h| > 4
    ensures |RankGroupOrder(h)| >= 2
    ensures TwoPairBest(h)[4] in h && TwoPairBest(h)[4].rank != RankGroupOrder(h)[0] && TwoPairBest(h)[4].rank != RankGroupOrder(h)[1]
    ensures forall c :: c in h && c.rank != RankGroupOrder(h)[0] && c.rank != RankGroupOrder(h)[1] ==>
      Value(c.rank) <= Value(TwoPairBest(h)[4].rank)
  {
    TwoPairFifthCard(h);
    var rest := Flatten(CardsByRank(h)[2..]);
    RestAfterPairs(h, rest, MaxByValue(rest));
  }

  /** The fifth card of a two pair is the highest card after the two pairs. */
  lemma TwoPairFifthCard(h: Hand)
    requires ValidHand(h) && TwoPairQ(h) && !ThreeOfAKindQ(h) && |h| > 4
    ensures |CardsByRank(h)| >= 2 && |Flatten(CardsByRank(h)[2..])| > 0
    ensures TwoPairBest(h)[4] == MaxByValue(Flatten(CardsByRank(h)[2..]))
  {
    TwoPairGroups(h);
    TwoPairBestSplit(h);
    var gs := CardsByRank(h);
    assert TwoPairBest(h) == (gs[0] + gs[1]) + [MaxByValue(Flatten(gs[2..]))];
  }

  /** The cards after the two pairs are the cards of the other ranks. */
  lemma RestAfterPairs(h: Hand, rest: seq<Card>, m: Card)
    requires |CardsByRank(h)| >= 2 && rest == Flatten(CardsByRank(h)[2..])
    requires m in rest && forall c :: c in rest ==> Value(c.rank) <= Value(m.rank)
    ensures m in h && m.rank != RankGroupOrder(h)[0] && m.rank != RankGroupOrder(h)[1]
    ensures forall c :: c in h && c.rank != RankGroupOrder(h)[0] && c.rank != RankGroupOrder(h)[1] ==>
      Value(c.rank) <= Value(m.rank)
  {
    forall c | c in h && c.rank != RankGroupOrder(h)[0] && c.rank != RankGroupOrder(h)[1] ensures c in rest {
      RestOfTwoGroups(h, c);
    }
    RestOfTwoGroups(h, m);
  }

  lemma RestOfTwoGroups(h: Hand, c: Card)
    requires |CardsByRank(h)| >= 2
    ensures c in Flatten(CardsByRank(h)[2..]) <==> c in h && c.rank != RankGroupOrder(h)[0] && c.rank != RankGroupOrder(h)[1]
  {
    RestOfGroups(h, 2, c);
    FirstTwoMembers(RankGroupOrder(h), c.rank);
  }

  lemma FirstTwoMembers(ks: seq<Rank>, x: Rank)
    requires |ks| >= 2
    ensures x in ks[..2] <==> x == ks[0] || x == ks[1]
  {
    assert ks[..2] == [ks[0], ks[1]];
  }

  // ---- Pair ----

  /** `Pair#best_hand` with `cards_needed` cards: the flattened rank groups, cut to `cards_needed`. */
  function PairBest(h: Hand): (r: seq<Card>)
    requires 2 <= |h| <= 7
    ensures |r| == CardsNeeded(|h|)
  {
    FlattenCardsByRank(h);
    Flatten(CardsByRank(h))[..CardsNeeded(|h|)]
  }

  /** `Pair#best_hand` as written: the inclusive range `[0..(cards_needed - 2)]` keeps one card fewer. */
  function PairBestAsWritten(h: Hand): (r: seq<Card>)
    requires 2 <= |h| <= 7
  {
    FlattenCardsByRank(h);
    Flatten(CardsByRank(h))[..CardsNeeded(|h|) - 1]
  }

  /** As written the pair comes back one card short: the intended hand without its last card. */
  lemma PairAsWrittenOneShort(h: Hand)
    requires 2 <= |h| <= 7
    ensures |PairBestAsWritten(h)| == CardsNeeded(|h|) - 1
    ensures PairBestAsWritten(h) == PairBest(h)[..CardsNeeded(|h|) - 1]
  {
    FlattenCardsByRank(h);
  }

  /** The rank groups of a hand with one pair: a pair first, single cards after it. */
  predicate OnePairShape(h: Hand)
  {
    |CardsByRank(h)| > 0 && |CardsByRank(h)[0]| == 2 &&
    forall i :: 1 <= i < |CardsByRank(h)| ==> |CardsByRank(h)[i]| == 1
  }

  /** In a pair that is not two pair or three of a kind every group after the first is one card. */
  lemma PairGroups(h: Hand)
    requires ValidHand(h) && PairQ(h) && !TwoPairQ(h) && !ThreeOfAKindQ(h)
    ensures OnePairShape(h)
    ensures forall q :: q != RankGroupOrder(h)[0] ==> Count(h, q) <= 1
  {
    GroupsNonEmpty(h);
    var ks := RankGroupOrder(h);
    TwoPairQIff(h);
    forall q | q != ks[0] ensures Count(h, q) <= 1 {
      assert Count(h, ks[0]) >= 2;
    }
    forall i | 1 <= i < |CardsByRank(h)| ensures |CardsByRank(h)[i]| == 1 {
      assert Count(h, ks[i]) <= 1;
    }
  }

  /** The pair hand cut into the pair and the single cards after it, one per later group. */
  lemma PairSplit(h: Hand)
    requires 2 <= |h| <= 7 && OnePairShape(h)
    ensures PairBest(h)[..2] == CardsByRank(h)[0]
    ensures |PairBest(h)| - 1 <= |CardsByRank(h)|
    ensures forall i :: 1 <= i < |PairBest(h)| - 1 ==> PairBest(h)[i + 1] == CardsByRank(h)[i][0]
  {
    FlattenLength(h);
    PairSplitAt(PairBest(h), CardsByRank(h));
  }

  lemma FlattenLength(h: Hand)
    ensures |Flatten(CardsByRank(h))| == |h|
  {
    FlattenCardsByRank(h);
  }

  lemma PairSplitAt(r: seq<Card>, gs: seq<Hand>)
    requires |gs| > 0 && |gs[0]| == 2 && forall i :: 1 <= i < |gs| ==> |gs[i]| == 1
    requires 2 <= |r| <= |Flatten(gs)| && r == Flatten(gs)[..|r|]
    ensures r[..2] == gs[0]
    ensures |r| - 1 <= |gs|
    ensures forall i :: 1 <= i < |r| - 1 ==> r[i + 1] == gs[i][0]
  {
    var rest := Flatten(gs[1..]);
    FlattenSingletons(gs[1..]);
    assert Flatten(gs) == gs[0] + rest;
    forall i | 1 <= i < |r| - 1 ensures r[i + 1] == gs[i][0] {
      assert r[i + 1] == rest[i - 1] == gs[1..][i - 1][0];
    }
  }

  /**
   * The pair returned is the two cards of the paired rank, then cards of
   * other ranks by strictly descending value.
   */
  lemma PairBestShape(h: Hand) returns (p: Rank)
    requires ValidHand(h) && PairQ(h) && !TwoPairQ(h) && !ThreeOfAKindQ(h)
    ensures Count(h, p) == 2 && PairBest(h)[..2] == OfRank(h, p)
    ensures forall q :: q != p ==> Count(h, q) <= 1
    ensures forall i :: 2 <= i < |PairBest(h)| ==> PairBest(h)[i] in h && PairBest(h)[i].rank != p
    ensures forall i, j :: 2 <= i < j < |PairBest(h)| ==> Value(PairBest(h)[i].rank) > Value(PairBest(h)[j].rank)
    ensures |RankGroupOrder(h)| > 0 && p == RankGroupOrder(h)[0]
  {
    PairGroups(h);
    p := RankGroupOrder(h)[0];
    PairKickers(h);
  }

  lemma PairKickers(h: Hand)
    requires 2 <= |h| <= 7 && OnePairShape(h)
    ensures forall i :: 2 <= i < |PairBest(h)| ==> PairBest(h)[i] in h && PairBest(h)[i].rank != RankGroupOrder(h)[0]
    ensures forall i, j :: 2 <= i < j < |PairBest(h)| ==> Value(PairBest(h)[i].rank) > Value(PairBest(h)[j].rank)
  {
    PairSplit(h);
    var ks := RankGroupOrder(h);
    var gs := CardsByRank(h);
    var r := PairBest(h);
    forall i | 2 <= i < |r| ensures r[i] in h && r[i].rank == ks[i - 1] {
      OfRankMembers(h, ks[i - 1]);
      assert r[(i - 1) + 1] == gs[i - 1][0];
      assert r[i] in gs[i - 1];
    }
  }

  /** No card of another rank than the pair's left out of the pair hand is worth as much as the last card kept. */
  lemma PairLeftOutIsLower(h: Hand)
    requires ValidHand(h) && PairQ(h) && !TwoPairQ(h) && !ThreeOfAKindQ(h)
    ensures |RankGroupOrder(h)| > 0
    ensures |PairBest(h)| > 2 ==> forall c :: c in h && c.rank != RankGroupOrder(h)[0] && c !in PairBest(h) ==>
      Value(c.rank) < Value(PairBest(h)[|PairBest(h)| - 1].rank)
  {
    PairGroups(h);
    PairLeftOut(h);
  }

  lemma PairLeftOut(h: Hand)
    requires 2 <= |h| <= 7 && OnePairShape(h)
    ensures |PairBest(h)| > 2 ==> forall c :: c in h && c.rank != RankGroupOrder(h)[0] && c !in PairBest(h) ==>
      Value(c.rank) < Value(PairBest(h)[|PairBest(h)| - 1].rank)
  {
    var r := PairBest(h);
    if |r| > 2 {
      forall c | c in h && c.rank != RankGroupOrder(h)[0] && c !in r ensures Value(c.rank) < Value(r[|r| - 1].rank) {
        PairLeftOutCard(h, c);
      }
    }
  }

  lemma PairLeftOutCard(h: Hand, c: Card)
    requires 2 <= |h| <= 7 && OnePairShape(h) && |PairBest(h)| > 2
    requires c in h && c.rank != RankGroupOrder(h)[0] && c !in PairBest(h)
    ensures Value(c.rank) < Value(PairBest(h)[|PairBest(h)| - 1].rank)
  {
    PairSplit(h);
    var ks := RankGroupOrder(h);
    var gs := CardsByRank(h);
    var r := PairBest(h);
    var j := SingleGroupOf(h, c);
    assert j + 1 >= |r|;
    OfRankMembers(h, ks[|r| - 2]);
    assert r[|r| - 1] in gs[|r| - 2];
  }

  /** In a pair hand a card of another rank than the pair's is the single card of its group. */
  lemma SingleGroupOf(h: Hand, c: Card) returns (j: int)
    requires OnePairShape(h)
    requires c in h && c.rank != RankGroupOrder(h)[0]
    ensures 1 <= j < |CardsByRank(h)| && RankGroupOrder(h)[j] == c.rank && CardsByRank(h)[j][0] == c
  {
    var ks := RankGroupOrder(h);
    OfRankMembers(h, c.rank);
    assert c in OfRank(h, c.rank);
    assert Count(h, c.rank) > 0;
    assert c.rank in ks;
    j :| 0 <= j < |ks| && ks[j] == c.rank;
    OnlyCard(CardsByRank(h)[j], c);
  }

  lemma OnlyCard(g: Hand, c: Card)
    requires |g| == 1 && c in g
    ensures g[0] == c
  {
  }

  // ---- High card ----

  /** `HighCard#best_hand` with `cards_needed` cards: the highest cards of the hand, highest first. */
  function HighCardBest(h: Hand): (r: seq<Card>)
    requires 2 <= |h| <= 7
    ensures |r| == CardsNeeded(|h|)
  {
    SortedAceHigh(h)[..CardsNeeded(|h|)]
  }

  /**
   * `HighCard#best_hand` as written: the inclusive range `[0..cards_needed]`
   * keeps one card more than `cards_needed` whenever the hand has one more.
   */
  function HighCardBestAsWritten(h: Hand): (r: seq<Card>)
    requires 2 <= |h| <= 7
  {
    SortedAceHigh(h)[..Min(CardsNeeded(|h|) + 1, |h|)]
  }

  /** As written a hand of six or seven cards is judged on its six highest cards; up to five cards nothing changes. */
  lemma HighCardAsWrittenExtraCard(h: Hand)
    requires 2 <= |h| <= 7
    ensures |h| <= 5 ==> HighCardBestAsWritten(h) == HighCardBest(h)
    ensures |h| >= 6 ==> |HighCardBestAsWritten(h)| == 6 && HighCardBestAsWritten(h)[..5] == HighCardBest(h)
  {
  }

  /**
   * The high-card hand holds cards of the hand, strictly descending, and
   * no card left out is worth as much as the last card kept.
   */
  lemma HighCardBestIsTop(h: Hand)
    requires ValidHand(h) && HighCardQ(h)
    ensures forall c :: c in HighCardBest(h) ==> c in h
    ensures forall i, j :: 0 <= i < j < |HighCardBest(h)| ==> Value(HighCardBest(h)[i].rank) > Value(HighCardBest(h)[j].rank)
    ensures forall c :: c in h && c !in HighCardBest(h) ==>
      Value(c.rank) < Value(HighCardBest(h)[|HighCardBest(h)| - 1].rank)
  {
    HighCardQIff(h);
    UnpairedBestIsTop(h);
  }

  lemma UnpairedBestIsTop(h: Hand)
    requires 2 <= |h| <= 7 && forall r :: Count(h, r) <= 1
    ensures forall c :: c in HighCardBest(h) ==> c in h
    ensures forall i, j :: 0 <= i < j < |HighCardBest(h)| ==> Value(HighCardBest(h)[i].rank) > Value(HighCardBest(h)[j].rank)
    ensures forall c :: c in h && c !in HighCardBest(h) ==>
      Value(c.rank) < Value(HighCardBest(h)[|HighCardBest(h)| - 1].rank)
  {
    UnpairedRanksDistinct(h, SortedAceHigh(h));
    SortedPrefixFacts(h, CardsNeeded(|h|), HighCardBest(h));
  }

  /** Without a repeated rank, the value-sorted cards hold no rank twice. */
  lemma UnpairedRanksDistinct(h: Hand, sorted: Hand)
    requires multiset(sorted) == multiset(h)
    requires forall r :: Count(h, r) <= 1
    ensures forall i, j :: 0 <= i < j < |sorted| ==> sorted[i].rank != sorted[j].rank
  {
    forall i, j | 0 <= i < j < |sorted| ensures sorted[i].rank != sorted[j].rank {
      if sorted[i].rank == sorted[j].rank {
        CountTwoPositions(sorted, i, j);
        CountPermutation(sorted, h, sorted[i].rank);
      }
    }
  }

  /** Two positions of the same rank make that rank count at least twice. */
  lemma {:induction false} CountTwoPositions(s: Hand, i: int, j: int)
    requires 0 <= i < j < |s| && s[i].rank == s[j].rank
    ensures Count(s, s[i].rank) >= 2
  {
    CountCons(s, s[i].rank);
    if i > 0 {
      CountTwoPositions(s[1..], i - 1, j - 1);
    } else {
      CountPositive(s[1..], s[i].rank);
      assert s[1..][j - 1] == s[j];
    }
  }
}
