/**
 * The playing-card value type of cards.rb: thirteen ranks valued 2..14,
 * four suits, a card compared by rank value only, the 52-card deck and
 * two-character card notation.
 */
module Cards {
  import opened Wrappers

  datatype Rank = Two | Three | Four | Five | Six | Seven | Eight | Nine | Ten | Jack | Queen | King | Ace
  datatype Suit = Clubs | Diamonds | Hearts | Spades
  datatype Card = Card(rank: Rank, suit: Suit)

  /** `RANKS`, weakest first. */
  const Ranks: seq<Rank> := [Two, Three, Four, Five, Six, Seven, Eight, Nine, Ten, Jack, Queen, King, Ace]
  /** `SUITS`. */
  const Suits: seq<Suit> := [Clubs, Diamonds, Hearts, Spades]

  /** `RANK_VALUES`: the ranks of `RANKS` zipped with 2..14. */
  function Value(r: Rank): (v: int)
    ensures 2 <= v <= 14
  {
    match r
    case Two => 2
    case Three => 3
    case Four => 4
    case Five => 5
    case Six => 6
    case Seven => 7
    case Eight => 8
    case Nine => 9
    case Ten => 10
    case Jack => 11
    case Queen => 12
    case King => 13
    case Ace => 14
  }

  /** The value of the rank at position `i` of `RANKS` is `i + 2`, so values rise strictly along the table. */
  lemma ValueFollowsRankTable(i: int, j: int)
    requires 0 <= i < |Ranks| && 0 <= j < |Ranks|
    ensures Value(Ranks[i]) == i + 2
    ensures i < j ==> Value(Ranks[i]) < Value(Ranks[j])
  {
  }

  /** `Card.rank_index`: the position of a rank in `RANKS`. */
  function RankIndex(r: Rank): (i: int)
    ensures 0 <= i < |Ranks|
  {
    Value(r) - 2
  }

  /** A rank sits in `RANKS` at its rank index. */
  lemma RankIndexInverse(r: Rank)
    ensures Ranks[RankIndex(r)] == r
  {
  }

  /** No two ranks share a value. */
  lemma ValueInjective(r1: Rank, r2: Rank)
    ensures Value(r1) == Value(r2) <==> r1 == r2
  {
    RankIndexInverse(r1);
    RankIndexInverse(r2);
  }

  /** Ruby's `<=>` on integers. */
  function CompareInts(x: int, y: int): (c: int)
    ensures c == -1 || c == 0 || c == 1
    ensures c < 0 <==> x < y
    ensures c == 0 <==> x == y
  {
    if x < y then -1 else if x == y then 0 else 1
  }

  /** `Card#<=>`: compares rank values only, the suit never breaks a tie. */
  function CompareCards(a: Card, b: Card): (c: int)
    ensures c == -1 || c == 0 || c == 1
    ensures c < 0 <==> Value(a.rank) < Value(b.rank)
    ensures c == 0 <==> a.rank == b.rank
  {
    CompareInts(Value(a.rank) - Value(b.rank), 0)
  }

  /** `Card#==`: both rank and suit agree. */
  predicate SameCard(a: Card, b: Card): (r: bool)
    ensures r <==> a == b
  {
    a.rank == b.rank && a.suit == b.suit
  }

  /** Both cards have the same rank at every position: what `Array#<=>` over cards cannot tell apart. */
  ghost predicate SameRanks(a: seq<Card>, b: seq<Card>)
  {
    |a| == |b| && forall i :: 0 <= i < |a| ==> a[i].rank == b[i].rank
  }

  /**
   * `Array#<=>` over cards: the first position whose cards compare
   * unequal decides; when one array is a prefix of the other, the
   * shorter is smaller.
   */
  function CompareCardSeqs(a: seq<Card>, b: seq<Card>): (c: int)
    ensures c == -1 || c == 0 || c == 1
  {
    if |a| == 0 || |b| == 0 then CompareInts(|a|, |b|)
    else if CompareCards(a[0], b[0]) != 0 then CompareCards(a[0], b[0])
    else CompareCardSeqs(a[1..], b[1..])
  }

  /** Card arrays whose first cards differ in rank are ordered by those cards. */
  lemma LeadingCardDecides(a: seq<Card>, b: seq<Card>)
    requires |a| > 0 && |b| > 0 && a[0].rank != b[0].rank
    ensures CompareCardSeqs(a, b) == if Value(a[0].rank) < Value(b[0].rank) then -1 else 1
  {
  }

  /** Two card arrays compare equal exactly when their ranks agree position by position. */
  lemma {:induction false} CompareCardSeqsZero(a: seq<Card>, b: seq<Card>)
    ensures CompareCardSeqs(a, b) == 0 <==> SameRanks(a, b)
  {
    if |a| > 0 && |b| > 0 && a[0].rank == b[0].rank {
      CompareCardSeqsZero(a[1..], b[1..]);
      if SameRanks(a[1..], b[1..]) {
        forall i | 0 <= i < |a| ensures a[i].rank == b[i].rank {
          if i > 0 {
            assert a[1..][i - 1] == a[i] && b[1..][i - 1] == b[i];
          }
        }
      }
    } else if |a| > 0 && |b| > 0 {
      assert !SameRanks(a, b) by { assert a[0].rank != b[0].rank; }
    }
  }

  lemma {:induction false} CompareCardSeqsAntisymmetric(a: seq<Card>, b: seq<Card>)
    ensures CompareCardSeqs(b, a) == -CompareCardSeqs(a, b)
  {
    if |a| > 0 && |b| > 0 && a[0].rank == b[0].rank {
      CompareCardSeqsAntisymmetric(a[1..], b[1..]);
    }
  }

  lemma {:induction false} CompareCardSeqsTransitive(a: seq<Card>, b: seq<Card>, c: seq<Card>)
    requires CompareCardSeqs(a, b) < 0 && CompareCardSeqs(b, c) < 0
    ensures CompareCardSeqs(a, c) < 0
  {
    if |a| > 0 && |b| > 0 && |c| > 0 && a[0].rank == b[0].rank && b[0].rank == c[0].rank {
      CompareCardSeqsTransitive(a[1..], b[1..], c[1..]);
    }
  }

  /** The fixtures of the card tests: Jack beats Eight, two Threes tie without being the same card, King loses to Ace. */
  lemma CardComparisonFixtures()
    ensures CompareCards(Card(Jack, Spades), Card(Eight, Diamonds)) == 1
    ensures CompareCards(Card(Three, Clubs), Card(Three, Hearts)) == 0
    ensures !SameCard(Card(Three, Clubs), Card(Three, Hearts))
    ensures CompareCards(Card(King, Clubs), Card(Ace, Clubs)) == -1
    ensures SameCard(Card(Jack, Clubs), Card(Jack, Clubs))
  {
  }

  /** `Card.create_deck`: suits in the outer loop, ranks in the inner loop. */
  method CreateDeck() returns (deck: seq<Card>)
    ensures |deck| == |Suits| * |Ranks|
    ensures forall i :: 0 <= i < |deck| ==> deck[i] == Card(Ranks[i % 13], Suits[i / 13])
    ensures forall i, j :: 0 <= i < j < |deck| ==> deck[i] != deck[j]
    ensures forall c: Card :: c in deck
  {
    deck := [];
    var s := 0;
    while s < |Suits|
      invariant 0 <= s <= |Suits|
      invariant |deck| == 13 * s
      invariant forall i :: 0 <= i < |deck| ==> deck[i] == Card(Ranks[i % 13], Suits[i / 13])
    {
      var r := 0;
      while r < |Ranks|
        invariant 0 <= r <= |Ranks|
        invariant |deck| == 13 * s + r
        invariant forall i :: 0 <= i < |deck| ==> deck[i] == Card(Ranks[i % 13], Suits[i / 13])
      {
        deck := deck + [Card(Ranks[r], Suits[s])];
        r := r + 1;
      }
      s := s + 1;
    }
    forall i | 0 <= i < |deck| ensures DeckPosition(deck[i]) == i {
      DeckPositionOfIndex(i);
    }
    forall c: Card ensures c in deck {
      var k := DeckPosition(c);
      assert k % 13 == RankIndex(c.rank) && k / 13 == SuitIndex(c.suit);
      assert deck[k] == c;
    }
  }

  /** Where a card lands in the deck built by `CreateDeck`. */
  function DeckPosition(c: Card): int
  {
    13 * SuitIndex(c.suit) + RankIndex(c.rank)
  }

  lemma DeckPositionOfIndex(i: int)
    requires 0 <= i < 52
    ensures DeckPosition(Card(Ranks[i % 13], Suits[i / 13])) == i
  {
    assert RankIndex(Ranks[i % 13]) == i % 13;
    assert SuitIndex(Suits[i / 13]) == i / 13;
  }

  /** The position of a suit in `SUITS`. */
  function SuitIndex(s: Suit): (i: int)
    ensures 0 <= i < |Suits| && Suits[i] == s
  {
    match s
    case Clubs => 0
    case Diamonds => 1
    case Hearts => 2
    case Spades => 3
  }

  // ---- Two-character notation (`Card.from_str`) ----

  /** `rank_strings`. */
  function RankOfChar(ch: char): (r: Option<Rank>)
    ensures r.Some? <==> ch in "23456789TJQKA"
  {
    match ch
    case '2' => Some(Two)
    case '3' => Some(Three)
    case '4' => Some(Four)
    case '5' => Some(Five)
    case '6' => Some(Six)
    case '7' => Some(Seven)
    case '8' => Some(Eight)
    case '9' => Some(Nine)
    case 'T' => Some(Ten)
    case 'J' => Some(Jack)
    case 'Q' => Some(Queen)
    case 'K' => Some(King)
    case 'A' => Some(Ace)
    case _ => None
  }

  /**
   * A value of the suit table: one of the four suits, or the symbol
   * `:suits`, which the table gives for 'S' and which names no suit.
   */
  datatype SuitSymbol = SuitName(suit: Suit) | SuitsSymbol

  /** `suit_strings`, as written: 'S' maps to `:suits`. */
  function SuitOfChar(ch: char): (s: Option<SuitSymbol>)
    ensures s.Some? <==> ch in "CDHS"
    ensures s != Some(SuitName(Spades))
  {
    match ch
    case 'C' => Some(SuitName(Clubs))
    case 'D' => Some(SuitName(Diamonds))
    case 'H' => Some(SuitName(Hearts))
    case 'S' => Some(SuitsSymbol)
    case _ => None
  }

  /** The card `Card.from_str` builds: each field is `nil` (None) when its character is missing or unknown. */
  datatype ParsedCard = ParsedCard(rank: Option<Rank>, suit: Option<SuitSymbol>)

  /**
   * `Card.from_str`: the first character through the rank table, the
   * second through the suit table; characters after the second are ignored
   * and nothing is ever rejected.
   */
  function FromStr(s: string): (p: ParsedCard)
    ensures p.rank.Some? <==> |s| >= 1 && s[0] in "23456789TJQKA"
    ensures p.suit.Some? <==> |s| >= 2 && s[1] in "CDHS"
    ensures p.suit != Some(SuitName(Spades))
  {
    ParsedCard(if |s| >= 1 then RankOfChar(s[0]) else None,
               if |s| >= 2 then SuitOfChar(s[1]) else None)
  }

  /** The character of a rank in the notation. */
  function RankChar(r: Rank): char
  {
    match r
    case Two => '2'
    case Three => '3'
    case Four => '4'
    case Five => '5'
    case Six => '6'
    case Seven => '7'
    case Eight => '8'
    case Nine => '9'
    case Ten => 'T'
    case Jack => 'J'
    case Queen => 'Q'
    case King => 'K'
    case Ace => 'A'
  }

  /** The character of a suit in the notation. */
  function SuitChar(s: Suit): char
  {
    match s
    case Clubs => 'C'
    case Diamonds => 'D'
    case Hearts => 'H'
    case Spades => 'S'
  }

  /** The two-character token of a card, e.g. "AS" for the ace of spades. */
  function Token(c: Card): (t: string)
    ensures |t| == 2
  {
    [RankChar(c.rank), SuitChar(c.suit)]
  }

  /** As written, parsing a token gives back its rank always, and its suit for every suit except spades. */
  lemma FromStrMisreadsSpades(c: Card)
    ensures FromStr(Token(c)).rank == Some(c.rank)
    ensures FromStr(Token(c)).suit == Some(SuitName(c.suit)) <==> c.suit != Spades
    ensures c.suit == Spades ==> FromStr(Token(c)).suit == Some(SuitsSymbol)
  {
  }

  /** The suit table with 'S' mapped to spades. */
  function SuitOfCharIntended(ch: char): (s: Option<Suit>)
    ensures s.Some? <==> ch in "CDHS"
  {
    match ch
    case 'C' => Some(Clubs)
    case 'D' => Some(Diamonds)
    case 'H' => Some(Hearts)
    case 'S' => Some(Spades)
    case _ => None
  }

  /** Card notation parsing with the suit table corrected and unknown characters rejected. */
  function ParseCard(s: string): (r: Option<Card>)
    ensures r.Some? <==> |s| == 2 && s[0] in "23456789TJQKA" && s[1] in "CDHS"
  {
    if |s| == 2 && RankOfChar(s[0]).Some? && SuitOfCharIntended(s[1]).Some? then
      Some(Card(RankOfChar(s[0]).value, SuitOfCharIntended(s[1]).value))
    else
      None
  }

  /** With the corrected table every one of the 52 tokens parses back to its card. */
  lemma ParseCardRoundTrip(c: Card)
    ensures ParseCard(Token(c)) == Some(c)
  {
  }
}
