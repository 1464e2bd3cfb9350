/**
 * The derived views of a hand that poker_hand.rb memoizes: the cards
 * sorted ace high, the cards grouped by rank (largest group first, then
 * highest rank), the cards grouped by suit, and `cards_needed`.
 */
module HandViews {
  import opened Wrappers
  import opened Cards
  import opened Seqs

  type Hand = seq<Card>

  ghost predicate NoDuplicates(h: Hand)
  {
    forall i, j :: 0 <= i < j < |h| ==> h[i] != h[j]
  }

  /** What the evaluator assumes of its callers: two to seven cards, no card twice. */
  ghost predicate ValidHand(h: Hand)
  {
    2 <= |h| <= 7 && NoDuplicates(h)
  }

  /** `cards_needed`: `[@size, 5].min`, the cards a straight, flush or group must reach. */
  function CardsNeeded(size: int): (n: int)
    ensures n <= size && n <= 5
    ensures n == size || n == 5
    ensures 2 <= size <= 7 ==> 2 <= n <= 5
  {
    if size < 5 then size else 5
  }

  function ValueOf(c: Card): int { Value(c.rank) }
  function RankOf(c: Card): Rank { c.rank }
  function SuitOf(c: Card): Suit { c.suit }

  function Values(cs: seq<Card>): (vs: seq<int>)
    ensures |vs| == |cs|
    ensures forall i :: 0 <= i < |cs| ==> vs[i] == Value(cs[i].rank)
  {
    seq(|cs|, i requires 0 <= i < |cs| => Value(cs[i].rank))
  }

  function RanksOf(cs: seq<Card>): (rs: seq<Rank>)
    ensures |rs| == |cs|
    ensures forall i :: 0 <= i < |cs| ==> rs[i] == cs[i].rank
  {
    seq(|cs|, i requires 0 <= i < |cs| => cs[i].rank)
  }

  /** `cards_sorted_ace_high`: `@cards.sort!.reverse!`, the cards by descending value. */
  function SortedAceHigh(h: Hand): (r: Hand)
    ensures multiset(r) == multiset(h) && |r| == |h|
    ensures forall i, j :: 0 <= i < j < |r| ==> Value(r[i].rank) >= Value(r[j].rank)
  {
    var r := SortDescBy(h, ValueOf);
    assert forall i, j :: 0 <= i < j < |r| ==> ValueOf(r[i]) >= ValueOf(r[j]);
    r
  }

  /** The cards of `h` of rank `r`, in hand order. */
  function OfRank(h: Hand, r: Rank): (g: Hand)
    ensures |g| <= |h|
    ensures forall i :: 0 <= i < |g| ==> g[i].rank == r
  {
    if |h| == 0 then []
    else (if h[0].rank == r then [h[0]] else []) + OfRank(h[1..], r)
  }

  lemma {:induction false} OfRankMembers(h: Hand, r: Rank)
    ensures forall c :: c in OfRank(h, r) <==> c in h && c.rank == r
  {
    if |h| > 0 {
      OfRankMembers(h[1..], r);
      assert forall c :: c in h <==> c == h[0] || c in h[1..];
    }
  }

  /** How many cards of `h` have rank `r`. */
  function Count(h: Hand, r: Rank): nat
  {
    |OfRank(h, r)|
  }

  /** The cards of `h` of suit `s`, in hand order. */
  function OfSuit(h: Hand, s: Suit): (g: Hand)
    ensures |g| <= |h|
    ensures forall i :: 0 <= i < |g| ==> g[i].suit == s
  {
    if |h| == 0 then []
    else (if h[0].suit == s then [h[0]] else []) + OfSuit(h[1..], s)
  }

  lemma {:induction false} OfSuitMembers(h: Hand, s: Suit)
    ensures forall c :: c in OfSuit(h, s) <==> c in h && c.suit == s
  {
    if |h| > 0 {
      OfSuitMembers(h[1..], s);
      assert forall c :: c in h <==> c == h[0] || c in h[1..];
    }
  }

  /** The cards of `h` whose rank is in `rs`, in hand order. */
  function OfRanks(h: Hand, rs: set<Rank>): (g: Hand)
  {
    if |h| == 0 then []
    else (if h[0].rank in rs then [h[0]] else []) + OfRanks(h[1..], rs)
  }

  /** The ranks of `h` in order of first appearance: the keys of `group_by(&:rank)`. */
  function DistinctRanks(h: Hand): (rs: seq<Rank>)
    ensures forall i, j :: 0 <= i < j < |rs| ==> rs[i] != rs[j]
    ensures forall r :: r in rs <==> Count(h, r) > 0
  {
    UniqRanksCover(h);
    RanksOf(UniqBy(h, RankOf))
  }

  lemma UniqRanksCover(h: Hand)
    ensures forall r :: r in RanksOf(UniqBy(h, RankOf)) <==> Count(h, r) > 0
  {
    var u := UniqBy(h, RankOf);
    var rs := RanksOf(u);
    forall r ensures r in rs <==> Count(h, r) > 0 {
      OfRankMembers(h, r);
      if r in rs {
        var i :| 0 <= i < |rs| && rs[i] == r;
        assert u[i] in u;
        assert u[i] in OfRank(h, r);
      }
      if Count(h, r) > 0 {
        var c := OfRank(h, r)[0];
        assert c in OfRank(h, r);
        assert RankOf(c) == r;
        assert r in KeysOf(h, RankOf);
        assert r in KeysOf(u, RankOf);
        var d :| d in u && RankOf(d) == r;
        var i :| 0 <= i < |u| && u[i] == d;
        assert rs[i] == r;
      }
    }
  }

  /**
   * The comparator of `cards_by_rank` (larger group first, then higher
   * rank) as one integer: values lie in 2..14, below 16.
   */
  function GroupKey(h: Hand, r: Rank): int
  {
    Count(h, r) * 16 + Value(r)
  }

  lemma GroupKeyOrder(h: Hand, r1: Rank, r2: Rank)
    ensures GroupKey(h, r1) >= GroupKey(h, r2) <==>
              Count(h, r1) > Count(h, r2) || (Count(h, r1) == Count(h, r2) && Value(r1) >= Value(r2))
  {
  }

  /** The key `cards_by_rank` sorts on, as a function of the rank. */
  function GroupKeyOf(h: Hand): Rank -> int
  {
    (r: Rank) => GroupKey(h, r)
  }

  /** The keys of `cards_by_rank`: every rank of the hand once, by group size and then rank, both descending. */
  function RankGroupOrder(h: Hand): (ks: seq<Rank>)
    ensures forall i, j :: 0 <= i < j < |ks| ==> ks[i] != ks[j]
    ensures forall r :: r in ks <==> Count(h, r) > 0
    ensures forall i, j :: 0 <= i < j < |ks| ==>
              Count(h, ks[i]) > Count(h, ks[j]) ||
              (Count(h, ks[i]) == Count(h, ks[j]) && Value(ks[i]) > Value(ks[j]))
  {
    RankGroupOrderSorted(h);
    SortDescBy(DistinctRanks(h), GroupKeyOf(h))
  }

  lemma RankGroupOrderSorted(h: Hand)
    ensures var ks := SortDescBy(DistinctRanks(h), GroupKeyOf(h));
      && (forall i, j :: 0 <= i < j < |ks| ==> ks[i] != ks[j])
      && (forall r :: r in ks <==> Count(h, r) > 0)
      && (forall i, j :: 0 <= i < j < |ks| ==>
            Count(h, ks[i]) > Count(h, ks[j]) ||
            (Count(h, ks[i]) == Count(h, ks[j]) && Value(ks[i]) > Value(ks[j])))
  {
    var d := DistinctRanks(h);
    var ks := SortDescBy(d, GroupKeyOf(h));
    SortedRanksDistinct(d, ks);
    forall r ensures r in ks <==> r in d {
      assert r in ks <==> r in multiset(ks);
    }
    SortedRanksOrdered(h, d, ks);
  }

  lemma SortedRanksDistinct(d: seq<Rank>, ks: seq<Rank>)
    requires forall a, b :: 0 <= a < b < |d| ==> d[a] != d[b]
    requires multiset(ks) == multiset(d)
    ensures forall i, j :: 0 <= i < j < |ks| ==> ks[i] != ks[j]
  {
    forall i, j | 0 <= i < j < |ks| ensures ks[i] != ks[j] {
      DistinctPermutation(d, ks, i, j);
    }
  }

  lemma SortedRanksOrdered(h: Hand, d: seq<Rank>, ks: seq<Rank>)
    requires forall i, j :: 0 <= i < j < |ks| ==> ks[i] != ks[j]
    requires SortedDescBy(ks, GroupKeyOf(h))
    ensures forall i, j :: 0 <= i < j < |ks| ==>
              Count(h, ks[i]) > Count(h, ks[j]) ||
              (Count(h, ks[i]) == Count(h, ks[j]) && Value(ks[i]) > Value(ks[j]))
  {
    forall i, j | 0 <= i < j < |ks|
      ensures Count(h, ks[i]) > Count(h, ks[j]) ||
              (Count(h, ks[i]) == Count(h, ks[j]) && Value(ks[i]) > Value(ks[j]))
    {
      assert GroupKeyOf(h)(ks[i]) >= GroupKeyOf(h)(ks[j]);
      GroupKeyOrder(h, ks[i], ks[j]);
    }
  }

  /** A permutation of a sequence without repeats has no repeats. */
  lemma DistinctPermutation<T>(d: seq<T>, p: seq<T>, i: int, j: int)
    requires forall a, b :: 0 <= a < b < |d| ==> d[a] != d[b]
    requires multiset(p) == multiset(d)
    requires 0 <= i < j < |p|
    ensures p[i] != p[j]
  {
    if p[i] == p[j] {
      assert multiset(p)[p[i]] >= 2 by {
        assert p == p[..i] + [p[i]] + p[i + 1..j] + [p[j]] + p[j + 1..];
      }
      MultiplicityAtMostOne(d, p[i]);
    }
  }

  lemma {:induction false} MultiplicityAtMostOne<T>(d: seq<T>, x: T)
    requires forall a, b :: 0 <= a < b < |d| ==> d[a] != d[b]
    ensures multiset(d)[x] <= 1
  {
    if |d| > 0 {
      var init := d[..|d| - 1];
      assert d == init + [d[|d| - 1]];
      MultiplicityAtMostOne(init, x);
      if d[|d| - 1] == x {
        assert x !in init;
      }
    }
  }

  function Groups(h: Hand, ks: seq<Rank>): (gs: seq<Hand>)
    ensures |gs| == |ks|
    ensures forall i :: 0 <= i < |ks| ==> gs[i] == OfRank(h, ks[i])
  {
    seq(|ks|, i requires 0 <= i < |ks| => OfRank(h, ks[i]))
  }

  /**
   * `cards_by_rank.values`: the cards grouped by rank, larger groups first
   * and, among groups of one size, higher ranks first.
   */
  function CardsByRank(h: Hand): (gs: seq<Hand>)
    ensures |gs| == |RankGroupOrder(h)|
    ensures forall i :: 0 <= i < |gs| ==> gs[i] == OfRank(h, RankGroupOrder(h)[i]) && |gs[i]| > 0
  {
    var ks := RankGroupOrder(h);
    assert forall i :: 0 <= i < |ks| ==> ks[i] in ks;
    Groups(h, ks)
  }

  // ---- Counting lemmas ----

  lemma {:induction false} OfRanksSplit(h: Hand, rs: set<Rank>, r: Rank)
    requires r !in rs
    ensures multiset(OfRanks(h, rs + {r})) == multiset(OfRanks(h, rs)) + multiset(OfRank(h, r))
  {
    if |h| > 0 {
      OfRanksSplit(h[1..], rs, r);
      var x := h[0];
      var both := multiset(OfRanks(h[1..], rs + {r}));
      var left := multiset(OfRanks(h[1..], rs));
      var right := multiset(OfRank(h[1..], r));
      if x.rank == r {
        assert x.rank in rs + {r} && x.rank !in rs;
        assert multiset(OfRanks(h, rs + {r})) == multiset{x} + both;
        assert multiset(OfRanks(h, rs)) == left;
        assert multiset(OfRank(h, r)) == multiset{x} + right;
      } else if x.rank in rs {
        assert x.rank in rs + {r};
        assert multiset(OfRanks(h, rs + {r})) == multiset{x} + both;
        assert multiset(OfRanks(h, rs)) == multiset{x} + left;
        assert multiset(OfRank(h, r)) == right;
      } else {
        assert x.rank !in rs + {r};
        assert multiset(OfRanks(h, rs + {r})) == both;
        assert multiset(OfRanks(h, rs)) == left;
        assert multiset(OfRank(h, r)) == right;
      }
    }
  }

  lemma {:induction false} OfRanksAll(h: Hand, rs: set<Rank>)
    requires forall c :: c in h ==> c.rank in rs
    ensures OfRanks(h, rs) == h
  {
    if |h| > 0 {
      assert h[0] in h;
      OfRanksAll(h[1..], rs);
      assert h == [h[0]] + h[1..];
    }
  }

  lemma {:induction false} FlattenGroups(h: Hand, ks: seq<Rank>)
    requires forall i, j :: 0 <= i < j < |ks| ==> ks[i] != ks[j]
    ensures multiset(Flatten(Groups(h, ks))) == multiset(OfRanks(h, RankSet(ks)))
  {
    if |ks| == 0 {
      assert RankSet(ks) == {};
      OfRanksNone(h);
    } else {
      var init := ks[..|ks| - 1];
      var last := ks[|ks| - 1];
      FlattenGroups(h, init);
      GroupsSnoc(h, ks);
      FlattenAppend(Groups(h, init), OfRank(h, last));
      RankSetSnoc(ks);
      OfRanksSplit(h, RankSet(init), last);
    }
  }

  ghost function RankSet(ks: seq<Rank>): set<Rank>
  {
    set r | r in ks
  }

  lemma GroupsSnoc(h: Hand, ks: seq<Rank>)
    requires |ks| > 0
    ensures Groups(h, ks) == Groups(h, ks[..|ks| - 1]) + [OfRank(h, ks[|ks| - 1])]
  {
  }

  lemma RankSetSnoc(ks: seq<Rank>)
    requires |ks| > 0
    requires forall i, j :: 0 <= i < j < |ks| ==> ks[i] != ks[j]
    ensures RankSet(ks) == RankSet(ks[..|ks| - 1]) + {ks[|ks| - 1]}
    ensures ks[|ks| - 1] !in RankSet(ks[..|ks| - 1])
  {
    assert ks == ks[..|ks| - 1] + [ks[|ks| - 1]];
  }

  lemma {:induction false} OfRanksNone(h: Hand)
    ensures OfRanks(h, {}) == []
  {
    if |h| > 0 {
      OfRanksNone(h[1..]);
    }
  }

  /** Flattening `cards_by_rank` gives back the hand's cards, rearranged. */
  lemma FlattenCardsByRank(h: Hand)
    ensures multiset(Flatten(CardsByRank(h))) == multiset(h)
    ensures |Flatten(CardsByRank(h))| == |h|
  {
    var ks := RankGroupOrder(h);
    FlattenGroups(h, ks);
    forall c | c in h ensures c.rank in RankSet(ks) {
      OfRankMembers(h, c.rank);
      assert c in OfRank(h, c.rank);
      assert Count(h, c.rank) > 0;
      assert c.rank in ks;
    }
    OfRanksAll(h, RankSet(ks));
    var f := Flatten(CardsByRank(h));
    assert CardsByRank(h) == Groups(h, ks);
    assert |f| == |multiset(f)| == |multiset(h)| == |h|;
  }

  lemma {:induction false} CountAppend(a: Hand, b: Hand, r: Rank)
    ensures Count(a + b, r) == Count(a, r) + Count(b, r)
  {
    if |a| > 0 {
      assert (a + b)[1..] == a[1..] + b;
      CountAppend(a[1..], b, r);
    } else {
      assert a + b == b;
    }
  }

  /** Reordering the cards leaves every rank's count unchanged. */
  lemma {:induction false} CountPermutation(a: Hand, b: Hand, r: Rank)
    requires multiset(a) == multiset(b)
    ensures Count(a, r) == Count(b, r)
    decreases |a|
  {
    if |a| == 0 {
      assert |b| == |multiset(b)| == 0;
    } else {
      assert a[0] in multiset(b);
      var j :| 0 <= j < |b| && b[j] == a[0];
      RemoveAt(b, j, r);
      assert a == [a[0]] + a[1..];
      assert multiset(a[1..]) == multiset(a) - multiset{a[0]};
      CountPermutation(a[1..], b[..j] + b[j + 1..], r);
    }
  }

  /** Taking out the card at position `j`. */
  lemma RemoveAt(b: Hand, j: int, r: Rank)
    requires 0 <= j < |b|
    ensures multiset(b[..j] + b[j + 1..]) == multiset(b) - multiset{b[j]}
    ensures Count(b, r) == (if b[j].rank == r then 1 else 0) + Count(b[..j] + b[j + 1..], r)
  {
    assert b == b[..j] + ([b[j]] + b[j + 1..]);
    CountAppend(b[..j], [b[j]] + b[j + 1..], r);
    CountAppend(b[..j], b[j + 1..], r);
    assert ([b[j]] + b[j + 1..])[1..] == b[j + 1..];
  }

  /** A rank group never holds more than four cards: no card occurs twice and there are four suits. */
  lemma CountAtMostFour(h: Hand, r: Rank)
    requires NoDuplicates(h)
    ensures Count(h, r) <= 4
  {
    var g := OfRank(h, r);
    OfRankNoDuplicates(h, r);
    var all := {Card(r, Clubs), Card(r, Diamonds), Card(r, Hearts), Card(r, Spades)};
    assert (set c | c in g) <= all by {
      OfRankMembers(h, r);
      forall c | c in g ensures c in all {
        assert c == Card(r, c.suit);
        match c.suit
        case Clubs =>
        case Diamonds =>
        case Hearts =>
        case Spades =>
      }
    }
    DistinctCardinality(g);
    SubsetCardinality((set c | c in g), all);
  }

  lemma {:induction false} OfRankNoDuplicates(h: Hand, r: Rank)
    requires NoDuplicates(h)
    ensures NoDuplicates(OfRank(h, r))
  {
    if |h| > 0 {
      OfRankNoDuplicates(h[1..], r);
      if h[0].rank == r {
        assert h[0] !in h[1..];
        OfRankMembers(h[1..], r);
        assert OfRank(h, r) == [h[0]] + OfRank(h[1..], r);
      }
    }
  }

  lemma {:induction false} OfSuitNoDuplicates(h: Hand, s: Suit)
    requires NoDuplicates(h)
    ensures NoDuplicates(OfSuit(h, s))
  {
    if |h| > 0 {
      OfSuitNoDuplicates(h[1..], s);
      if h[0].suit == s {
        assert h[0] !in h[1..];
        OfSuitMembers(h[1..], s);
        assert OfSuit(h, s) == [h[0]] + OfSuit(h[1..], s);
      }
    }
  }

  /** Reordering a hand cannot repeat a card. */
  lemma PermutationNoDuplicates(a: Hand, b: Hand)
    requires multiset(a) == multiset(b)
    requires NoDuplicates(b)
    ensures NoDuplicates(a)
  {
    forall i, j | 0 <= i < j < |a| ensures a[i] != a[j] {
      MultiplicityAtMostOne(b, a[i]);
      assert a == a[..j] + a[j..];
      assert a[i] in a[..j] && a[j] in a[j..];
      assert multiset(a)[a[j]] == multiset(a[..j])[a[j]] + multiset(a[j..])[a[j]];
    }
  }

  lemma {:induction false} DistinctCardinality(s: seq<Card>)
    requires NoDuplicates(s)
    ensures |set c | c in s| == |s|
  {
    if |s| > 0 {
      var init := s[..|s| - 1];
      assert s == init + [s[|s| - 1]];
      DistinctCardinality(init);
      assert (set c | c in s) == (set c | c in init) + {s[|s| - 1]};
    }
  }

  lemma SubsetCardinality(a: set<Card>, b: set<Card>)
    requires a <= b
    ensures |a| <= |b|
  {
    assert b == a + (b - a);
  }

  /** Two different suits together hold no more cards than the hand. */
  lemma {:induction false} TwoSuitsFit(h: Hand, s1: Suit, s2: Suit)
    requires s1 != s2
    ensures |OfSuit(h, s1)| + |OfSuit(h, s2)| <= |h|
  {
    if |h| > 0 {
      TwoSuitsFit(h[1..], s1, s2);
    }
  }

  // ---- Grouping by suit ----

  /** The suits of the hand in order of first appearance: the keys of `group_by(&:suit)`. */
  function DistinctSuits(h: Hand): (ss: seq<Suit>)
    ensures forall i, j :: 0 <= i < j < |ss| ==> ss[i] != ss[j]
    ensures forall s :: s in ss <==> |OfSuit(h, s)| > 0
  {
    UniqSuitsCover(h);
    SuitsOf(UniqBy(h, SuitOf))
  }

  function SuitsOf(cs: seq<Card>): (ss: seq<Suit>)
    ensures |ss| == |cs|
    ensures forall i :: 0 <= i < |cs| ==> ss[i] == cs[i].suit
  {
    seq(|cs|, i requires 0 <= i < |cs| => cs[i].suit)
  }

  lemma UniqSuitsCover(h: Hand)
    ensures forall s :: s in SuitsOf(UniqBy(h, SuitOf)) <==> |OfSuit(h, s)| > 0
  {
    var u := UniqBy(h, SuitOf);
    var ss := SuitsOf(u);
    forall s ensures s in ss <==> |OfSuit(h, s)| > 0 {
      OfSuitMembers(h, s);
      if s in ss {
        var i :| 0 <= i < |ss| && ss[i] == s;
        assert u[i] in u;
        assert u[i] in OfSuit(h, s);
      }
      if |OfSuit(h, s)| > 0 {
        var c := OfSuit(h, s)[0];
        assert c in OfSuit(h, s);
        assert SuitOf(c) == s;
        assert s in KeysOf(h, SuitOf);
        assert s in KeysOf(u, SuitOf);
        var d :| d in u && SuitOf(d) == s;
        var i :| 0 <= i < |u| && u[i] == d;
        assert ss[i] == s;
      }
    }
  }

  function SuitGroups(h: Hand, ss: seq<Suit>): (gs: seq<Hand>)
    ensures |gs| == |ss|
    ensures forall i :: 0 <= i < |ss| ==> gs[i] == OfSuit(h, ss[i])
  {
    seq(|ss|, i requires 0 <= i < |ss| => OfSuit(h, ss[i]))
  }

  /** `cards_by_suit.values`: the cards grouped by suit, suits in order of first appearance. */
  function CardsBySuit(h: Hand): (gs: seq<Hand>)
    ensures |gs| == |DistinctSuits(h)|
    ensures forall i :: 0 <= i < |gs| ==> gs[i] == OfSuit(h, DistinctSuits(h)[i])
  {
    SuitGroups(h, DistinctSuits(h))
  }

  /** Ruby's `find {|c| c.count >= k}` over a list of groups. */
  function FindGroupOfSize(gs: seq<Hand>, k: int): (r: Option<Hand>)
    ensures r.Some? <==> exists i :: 0 <= i < |gs| && |gs[i]| >= k
    ensures r.Some? ==> r.value in gs && |r.value| >= k
  {
    if |gs| == 0 then None
    else if |gs[0]| >= k then Some(gs[0])
    else
      assert forall i :: 1 <= i < |gs| ==> gs[i] == gs[1..][i - 1];
      FindGroupOfSize(gs[1..], k)
  }

  /**
   * `cards_by_suit.values.find {|c| c.count >= cards_needed}`: the suit
   * group that reaches `cards_needed`, which is the only one that can.
   */
  function FlushGroup(h: Hand): (r: Option<Hand>)
    requires 2 <= |h| <= 7
    ensures r.Some? <==> exists s :: |OfSuit(h, s)| >= CardsNeeded(|h|)
    ensures forall s :: |OfSuit(h, s)| >= CardsNeeded(|h|) ==> r == Some(OfSuit(h, s))
  {
    FlushGroupUnique(h);
    FindGroupOfSize(CardsBySuit(h), CardsNeeded(|h|))
  }

  lemma FlushGroupUnique(h: Hand)
    requires 2 <= |h| <= 7
    ensures var r := FindGroupOfSize(CardsBySuit(h), CardsNeeded(|h|));
      && (r.Some? <==> exists s :: |OfSuit(h, s)| >= CardsNeeded(|h|))
      && (forall s :: |OfSuit(h, s)| >= CardsNeeded(|h|) ==> r == Some(OfSuit(h, s)))
  {
    var k := CardsNeeded(|h|);
    var ss := DistinctSuits(h);
    var gs := CardsBySuit(h);
    var r := FindGroupOfSize(gs, k);
    forall s | |OfSuit(h, s)| >= k ensures r == Some(OfSuit(h, s)) {
      assert s in ss;
      var j :| 0 <= j < |ss| && ss[j] == s;
      assert gs[j] == OfSuit(h, s);
      var i :| 0 <= i < |gs| && gs[i] == r.value;
      if ss[i] != s {
        TwoSuitsFit(h, s, ss[i]);
      }
    }
    if r.Some? {
      var i :| 0 <= i < |gs| && gs[i] == r.value;
      assert |OfSuit(h, ss[i])| >= k;
    }
  }

  // ---- What the order of `cards_by_rank` tells ----

  /** A non-empty hand has at least one rank group. */
  lemma GroupsNonEmpty(h: Hand)
    requires |h| > 0
    ensures |CardsByRank(h)| > 0
  {
    OfRankMembers(h, h[0].rank);
    assert h[0] in OfRank(h, h[0].rank);
    assert h[0].rank in RankGroupOrder(h);
  }

  /**
   * The group at position `i` is at least as large as the group of any
   * rank that does not come before it.
   */
  lemma GroupDominates(h: Hand, i: int, r: Rank)
    requires 0 <= i < |RankGroupOrder(h)|
    requires forall j :: 0 <= j < i ==> RankGroupOrder(h)[j] != r
    ensures Count(h, r) <= Count(h, RankGroupOrder(h)[i])
    ensures Count(h, r) == Count(h, RankGroupOrder(h)[i]) ==> Value(r) <= Value(RankGroupOrder(h)[i])
  {
    var ks := RankGroupOrder(h);
    if Count(h, r) == 0 {
      assert ks[i] in ks;
    } else {
      assert r in ks;
      var p :| 0 <= p < |ks| && ks[p] == r;
      assert p >= i;
      if p > i {
        assert Count(h, ks[i]) > Count(h, ks[p]) || (Count(h, ks[i]) == Count(h, ks[p]) && Value(ks[i]) > Value(ks[p]));
      }
    }
  }

  /** A rank other than the first group's, with cards in the hand, makes a second group. */
  lemma SecondGroupExists(h: Hand, r: Rank)
    requires |h| > 0
    requires Count(h, r) > 0
    ensures |CardsByRank(h)| > 0
    ensures r != RankGroupOrder(h)[0] ==> |CardsByRank(h)| >= 2
  {
    GroupsNonEmpty(h);
    assert r in RankGroupOrder(h);
  }

  /** All groups non-empty: the flattening is at least as long as the group list, equally long iff every group is a single card. */
  lemma {:induction false} FlattenSizes(gs: seq<Hand>)
    requires forall i :: 0 <= i < |gs| ==> |gs[i]| > 0
    ensures |Flatten(gs)| >= |gs|
    ensures |Flatten(gs)| == |gs| <==> forall i :: 0 <= i < |gs| ==> |gs[i]| == 1
  {
    if |gs| > 0 {
      FlattenSizes(gs[1..]);
      assert forall i :: 1 <= i < |gs| ==> gs[i] == gs[1..][i - 1];
    }
  }

  /** In a valid hand of five or more cards there are at least two rank groups. */
  lemma TwoGroupsInFiveCards(h: Hand)
    requires ValidHand(h) && |h| >= 5
    ensures |CardsByRank(h)| >= 2
  {
    GroupsNonEmpty(h);
    var r := RankGroupOrder(h)[0];
    CountAtMostFour(h, r);
    if |CardsByRank(h)| == 1 {
      forall c | c in h ensures c.rank == r {
        OfRankMembers(h, c.rank);
        assert c in OfRank(h, c.rank);
        assert c.rank in RankGroupOrder(h);
      }
      OfRankAll(h, r);
      assert false;
    }
  }

  lemma {:induction false} OfRankAll(h: Hand, r: Rank)
    requires forall c :: c in h ==> c.rank == r
    ensures OfRank(h, r) == h
  {
    if |h| > 0 {
      assert h[0] in h;
      OfRankAll(h[1..], r);
      assert h == [h[0]] + h[1..];
    }
  }

  lemma {:induction false} TwoRanksFit(h: Hand, r1: Rank, r2: Rank)
    requires r1 != r2
    ensures Count(h, r1) + Count(h, r2) <= |h|
  {
    if |h| > 0 {
      TwoRanksFit(h[1..], r1, r2);
    }
  }

  lemma {:induction false} FlattenSplit<T>(gs: seq<seq<T>>, i: int)
    requires 0 <= i <= |gs|
    ensures Flatten(gs) == Flatten(gs[..i]) + Flatten(gs[i..])
  {
    if i > 0 {
      FlattenSplit(gs[1..], i - 1);
      assert gs[1..][..i - 1] == gs[..i][1..];
      assert gs[1..][i - 1..] == gs[i..];
    } else {
      assert gs[i..] == gs;
    }
  }

  lemma {:induction false} FlattenMembers<T>(gs: seq<seq<T>>, x: T)
    ensures x in Flatten(gs) <==> exists j :: 0 <= j < |gs| && x in gs[j]
  {
    if |gs| > 0 {
      FlattenMembers(gs[1..], x);
      if x in Flatten(gs[1..]) {
        var j :| 0 <= j < |gs[1..]| && x in gs[1..][j];
        assert x in gs[j + 1];
      }
      if exists j :: 0 <= j < |gs| && x in gs[j] {
        var j :| 0 <= j < |gs| && x in gs[j];
        if j > 0 {
          assert x in gs[1..][j - 1];
        }
      }
    }
  }

  /** The groups from position `i` on hold exactly the cards whose rank is not grouped before `i`. */
  lemma RestOfGroups(h: Hand, i: int, c: Card)
    requires 0 <= i <= |CardsByRank(h)|
    ensures c in Flatten(CardsByRank(h)[i..]) <==> c in h && c.rank !in RankGroupOrder(h)[..i]
  {
    FlattenMembers(CardsByRank(h)[i..], c);
    if c in Flatten(CardsByRank(h)[i..]) {
      RestOfGroupsInHand(h, i, c);
    }
    if c in h && c.rank !in RankGroupOrder(h)[..i] {
      var j := RestOfGroupsCover(h, i, c);
      assert CardsByRank(h)[i..][j - i] == CardsByRank(h)[j];
    }
  }

  lemma RestOfGroupsInHand(h: Hand, i: int, c: Card)
    requires 0 <= i <= |CardsByRank(h)|
    requires exists j :: 0 <= j < |CardsByRank(h)[i..]| && c in CardsByRank(h)[i..][j]
    ensures c in h && c.rank !in RankGroupOrder(h)[..i]
  {
    var gs := CardsByRank(h);
    var ks := RankGroupOrder(h);
    var j :| 0 <= j < |gs[i..]| && c in gs[i..][j];
    OfRankMembers(h, ks[i + j]);
    assert c in gs[i + j];
    assert c.rank == ks[i + j];
  }

  lemma RestOfGroupsCover(h: Hand, i: int, c: Card) returns (j: int)
    requires 0 <= i <= |CardsByRank(h)|
    requires c in h && c.rank !in RankGroupOrder(h)[..i]
    ensures i <= j < |CardsByRank(h)| && c in CardsByRank(h)[j]
  {
    var ks := RankGroupOrder(h);
    OfRankMembers(h, c.rank);
    assert c in OfRank(h, c.rank);
    assert Count(h, c.rank) > 0;
    j :| 0 <= j < |ks| && ks[j] == c.rank;
    assert j >= i;
  }

  /** Groups of one card each flatten to their cards in order. */
  lemma {:induction false} FlattenSingletons<T>(gs: seq<seq<T>>)
    requires forall i :: 0 <= i < |gs| ==> |gs[i]| == 1
    ensures |Flatten(gs)| == |gs|
    ensures forall i :: 0 <= i < |gs| ==> Flatten(gs)[i] == gs[i][0]
  {
    if |gs| > 0 {
      FlattenSingletons(gs[1..]);
      assert gs[0] == [gs[0][0]];
    }
  }
}
