/** The blackjack objects of project/game/src/objects.py: cards and their
    point values, the 52-card deck, and a player's hand with its bet, flags,
    cards, possible scores and action history. */
module Objects {
  import opened Wrappers

  /** A card name: `Num(n)` is the name `str(n)` of a numbered card, the
      others are "J", "Q", "K" and "A". */
  datatype Name = Num(n: int) | Jack | Queen | King | Ace

  /** A card is a suit and a name; its scores depend on the name only. */
  datatype Card = Card(suit: string, name: Name)

  /** The hand states of `HandStates`. */
  datatype HandState = Default | Win | Lose | Blackjack | DrawnGame

  /** `set_scores`: 10, J, Q and K score 10, an ace scores 1 or 11, any other
      card the number on it. */
  function CardScores(name: Name): (s: set<int>)
    ensures name == Ace <==> s == {1, 11}
    ensures name.Num? ==> s == {name.n}
    ensures name in {Jack, Queen, King} ==> s == {10}
    ensures |s| == 1 || s == {1, 11}
  {
    match name
    case Num(n) => if n == 10 then {10} else {n}
    case Jack => {10}
    case Queen => {10}
    case King => {10}
    case Ace => {1, 11}
  }

  // -----------------------------------------------------------------------
  // The deck
  // -----------------------------------------------------------------------

  const Suits: seq<string> := ["Spades", "Hearts", "Diamonds", "Clubs"]

  /** `list(range(2, 11)) + ["J", "Q", "K", "A"]`. */
  const Names: seq<Name> :=
    [Num(2), Num(3), Num(4), Num(5), Num(6), Num(7), Num(8), Num(9), Num(10), Jack, Queen, King, Ace]

  /** The names a deck card can carry. */
  predicate DeckName(name: Name)
  {
    name in Names
  }

  /** The cards of `Deck.__init__` before shuffling: `product(suits, names)`,
      suits varying slowest. */
  function FreshCards(): (cards: seq<Card>)
    ensures |cards| == |Suits| * |Names|
    ensures forall i :: 0 <= i < |cards| ==> cards[i] == Card(Suits[i / |Names|], Names[i % |Names|])
  {
    seq(|Suits| * |Names|, i requires 0 <= i < |Suits| * |Names| => Card(Suits[i / |Names|], Names[i % |Names|]))
  }

  lemma DistinctSuitsAndNames()
    ensures forall i, j :: 0 <= i < j < |Suits| ==> Suits[i] != Suits[j]
    ensures forall i, j :: 0 <= i < j < |Names| ==> Names[i] != Names[j]
  {
    assert Suits[0][0] == 'S' && Suits[1][0] == 'H' && Suits[2][0] == 'D' && Suits[3][0] == 'C';
  }

  /** A fresh deck holds 52 cards: each of the 4 suits with each of the 13
      names, exactly once. */
  lemma FreshDeckIsFull()
    ensures |FreshCards()| == 52
    ensures forall s, n :: s in Suits && n in Names ==> Card(s, n) in FreshCards()
    ensures forall c :: c in FreshCards() ==> c.suit in Suits && DeckName(c.name)
    ensures forall i, j :: 0 <= i < j < |FreshCards()| ==> FreshCards()[i] != FreshCards()[j]
  {
    var cards := FreshCards();
    DistinctSuitsAndNames();
    forall s, n | s in Suits && n in Names ensures Card(s, n) in cards {
      var a :| 0 <= a < |Suits| && Suits[a] == s;
      var b :| 0 <= b < |Names| && Names[b] == n;
      var i := a * 13 + b;
      assert i / 13 == a && i % 13 == b;
      assert cards[i] == Card(s, n);
    }
    forall i, j | 0 <= i < j < |cards| ensures cards[i] != cards[j] {
      if i / 13 == j / 13 {
        assert i % 13 != j % 13;
      }
    }
  }

  /** The deck; its cards are a list whose order `shuffle` picks at random. */
  class Deck {
    var cards: seq<Card>

    /** `Deck.__init__` without the shuffle. */
    constructor ()
      ensures cards == FreshCards()
    {
      cards := FreshCards();
    }

    /** `pull`: remove and return the first card; an empty deck raises
        IndexError and stays empty. */
    method Pull() returns (r: Result<Card>)
      modifies this
      ensures old(cards) == [] ==> r == Err(IndexError) && cards == []
      ensures old(cards) != [] ==> r == Ok(old(cards)[0]) && cards == old(cards)[1..]
      ensures r.Ok? ==> [r.value] + cards == old(cards)
    {
      if cards == [] {
        return Err(IndexError);
      }
      r := Ok(cards[0]);
      cards := cards[1..];
    }
  }

  // -----------------------------------------------------------------------
  // The hand
  // -----------------------------------------------------------------------

  /** `{a + b | a in xs, b in ys}`. */
  ghost function SumSet(xs: set<int>, ys: set<int>): set<int>
  {
    set x, y | x in xs && y in ys :: x + y
  }

  /** The possible scores of a list of cards, starting from {0} and adding
      each card's scores in turn. */
  ghost function HandScores(cards: seq<Card>): set<int>
  {
    if cards == [] then {0} else SumSet(HandScores(cards[..|cards| - 1]), CardScores(cards[|cards| - 1].name))
  }

  lemma SumSetStep(xs: set<int>, done: set<int>, s: int)
    ensures SumSet(xs, done + {s}) == SumSet(xs, done) + set x | x in xs :: x + s
  {
  }

  /** Every possible score is the sum of one choice of score per card. */
  lemma SumSetMembers(xs: set<int>, ys: set<int>, z: int)
    ensures z in SumSet(xs, ys) <==> exists x, y :: x in xs && y in ys && z == x + y
  {
    if exists x, y :: x in xs && y in ys && z == x + y {
      var x, y :| x in xs && y in ys && z == x + y;
      assert x + y in SumSet(xs, ys);
    }
  }

  predicate TenValued(name: Name)
  {
    name in {Num(10), Jack, Queen, King}
  }

  /** A deck card other than the ace has a single score from 2 to 10, and
      that score is 10 exactly for the ten-valued names. */
  lemma DeckCardScores(name: Name)
    requires DeckName(name) && name != Ace
    ensures exists v :: 2 <= v <= 10 && CardScores(name) == {v} && (v == 10 <==> TenValued(name))
  {
    var v := if name.Num? then name.n else 10;
    assert CardScores(name) == {v};
  }

  /** Two deck cards can make 21 only as an ace with a ten-valued card. */
  lemma TwoCardTwentyOne(c1: Card, c2: Card)
    requires DeckName(c1.name) && DeckName(c2.name)
    ensures 21 in HandScores([c1, c2]) <==>
      (c1.name == Ace && TenValued(c2.name)) || (c2.name == Ace && TenValued(c1.name))
  {
    TwoCardScores(c1, c2);
    var s1, s2 := CardScores(c1.name), CardScores(c2.name);
    if c1.name == Ace && c2.name == Ace {
      SumSetPairs(1, 11, 1, 11);
    } else if c1.name == Ace {
      DeckCardScores(c2.name);
      var v :| 2 <= v <= 10 && s2 == {v} && (v == 10 <==> TenValued(c2.name));
      SumSetPairs(1, 11, v, v);
    } else if c2.name == Ace {
      DeckCardScores(c1.name);
      var v :| 2 <= v <= 10 && s1 == {v} && (v == 10 <==> TenValued(c1.name));
      SumSetPairs(v, v, 1, 11);
    } else {
      DeckCardScores(c1.name);
      DeckCardScores(c2.name);
      var v :| 2 <= v <= 10 && s1 == {v};
      var w :| 2 <= w <= 10 && s2 == {w};
      SumSetPairs(v, v, w, w);
    }
  }

  lemma TwoCardScores(c1: Card, c2: Card)
    ensures HandScores([c1, c2]) == SumSet(CardScores(c1.name), CardScores(c2.name))
  {
    var s1 := CardScores(c1.name);
    assert [c1, c2][..1] == [c1];
    assert [c1][..0] == [];
    assert HandScores([c1]) == SumSet({0}, s1);
    SumSetZero(s1);
    assert HandScores([c1, c2]) == SumSet(HandScores([c1]), CardScores(c2.name));
  }

  lemma SumSetPairs(a: int, b: int, c: int, d: int)
    ensures SumSet({a, b}, {c, d}) == {a + c, a + d, b + c, b + d}
  {
    var r := SumSet({a, b}, {c, d});
    assert a + c in r && a + d in r && b + c in r && b + d in r;
  }

  lemma SumSetZero(s: set<int>)
    ensures SumSet({0}, s) == s
  {
    forall y | y in s ensures y in SumSet({0}, s) {
      assert y == 0 + y;
    }
  }

  /** A player's hand. The descriptor `Cards` keeps each hand's cards,
      scores and history in a dictionary keyed by the hand; they are fields
      of the hand here. */
  class Hand {
    var bet: int
    var inPlaying: bool
    var doubleBet: bool
    var tripledBet: bool
    var state: HandState
    var cards: seq<Card>
    var scores: set<int>
    var history: seq<string>

    /** The scores are those of the cards held. */
    ghost predicate Valid()
      reads this
    {
      scores == HandScores(cards)
    }

    /** A hand as `Hand.__init__` and the descriptor's defaults leave it. */
    ghost predicate IsNew()
      reads this
    {
      && bet == 0 && inPlaying && !doubleBet && !tripledBet && state == Default
      && cards == [] && scores == {0} && history == []
    }

    constructor ()
      ensures IsNew() && Valid()
    {
      bet := 0;
      inPlaying := true;
      doubleBet := false;
      tripledBet := false;
      state := Default;
      cards := [];
      scores := {0};
      history := [];
    }

    /** `game_over`: the bet is reset and the hand leaves the game. */
    method GameOver()
      modifies this
      ensures bet == 0 && !inPlaying
      ensures doubleBet == old(doubleBet) && tripledBet == old(tripledBet) && state == old(state)
      ensures cards == old(cards) && scores == old(scores) && history == old(history)
    {
      bet := 0;
      inPlaying := false;
    }

    /** `double_down`. */
    method DoubleDown()
      modifies this
      ensures bet == 2 * old(bet) && doubleBet
      ensures history == old(history) + ["double down"]
      ensures inPlaying == old(inPlaying) && tripledBet == old(tripledBet) && state == old(state)
      ensures cards == old(cards) && scores == old(scores)
    {
      bet := bet * 2;
      doubleBet := true;
      history := history + ["double down"];
    }

    /** `tripling_bet`: add half the bet, rounded down. */
    method TriplingBet()
      modifies this
      ensures bet == TripledBet(old(bet)) && tripledBet
      ensures history == old(history) + ["tripling bet"]
      ensures inPlaying == old(inPlaying) && doubleBet == old(doubleBet) && state == old(state)
      ensures cards == old(cards) && scores == old(scores)
    {
      bet := bet + bet / 2;
      tripledBet := true;
      history := history + ["tripling bet"];
    }

    /** `add_card`: append the card, recompute the scores, log the action. */
    method AddCard(card: Card)
      modifies this
      ensures cards == old(cards) + [card]
      ensures scores == SumSet(old(scores), CardScores(card.name))
      ensures history == old(history) + ["add card"]
      ensures bet == old(bet) && inPlaying == old(inPlaying) && doubleBet == old(doubleBet)
      ensures tripledBet == old(tripledBet) && state == old(state)
      ensures old(Valid()) ==> Valid()
    {
      cards := cards + [card];
      CalculateScore(card);
      history := history + ["add card"];
      assert cards[..|cards| - 1] == old(cards);
    }

    /** `calculate_score`: for each score of the card, add it to every old
        score; the union is the new score set. */
    method CalculateScore(card: Card)
      modifies this
      ensures scores == SumSet(old(scores), CardScores(card.name))
      ensures bet == old(bet) && inPlaying == old(inPlaying) && doubleBet == old(doubleBet)
      ensures tripledBet == old(tripledBet) && state == old(state)
      ensures cards == old(cards) && history == old(history)
    {
      var cardScores := CardScores(card.name);
      var newScores: set<int> := {};
      var rest := cardScores;
      while rest != {}
        invariant rest <= cardScores
        invariant newScores == SumSet(scores, cardScores - rest)
        modifies {}
        decreases |rest|
      {
        var s :| s in rest;
        SumSetStep(scores, cardScores - rest, s);
        assert cardScores - (rest - {s}) == (cardScores - rest) + {s};
        newScores := newScores + set x | x in scores :: x + s;
        rest := rest - {s};
      }
      assert cardScores - rest == cardScores;
      scores := newScores;
    }

    /** `check_blackjack`: two cards whose scores, when up to date, include
        21. */
    function CheckBlackjack(): (b: bool)
      reads this
      ensures b ==> |cards| == 2
      ensures Valid() ==> (b <==> |cards| == 2 && 21 in HandScores(cards))
    {
      21 in scores && |cards| == 2
    }

    /** `get_card`: Python list indexing, negative indices from the end. */
    function GetCard(idCard: int): (r: Result<Card>)
      reads this
      ensures r.Ok? <==> -|cards| <= idCard < |cards|
      ensures r.Err? ==> r.error == IndexError
      ensures r.Ok? ==> r.value == cards[if idCard >= 0 then idCard else |cards| + idCard]
    {
      match PyIndex(|cards|, idCard)
      case None => Err(IndexError)
      case Some(i) => Ok(cards[i])
    }
  }

  /** The bet after `tripling_bet`: `bet + bet // 2`. */
  function TripledBet(bet: int): int
  {
    bet + bet / 2
  }

  /** Doubling and then tripling a bet gives exactly three times it, for a
      bet of either sign. */
  lemma DoubleThenTripleIsThreefold(bet: int)
    ensures TripledBet(2 * bet) == 3 * bet
  {
  }

  /** On a hand of two deck cards whose scores are up to date, blackjack
      means an ace with a ten-valued card. */
  lemma BlackjackIsAceAndTen(h: Hand)
    requires h.Valid() && |h.cards| == 2
    requires DeckName(h.cards[0].name) && DeckName(h.cards[1].name)
    ensures h.CheckBlackjack() <==>
      (h.cards[0].name == Ace && TenValued(h.cards[1].name)) || (h.cards[1].name == Ace && TenValued(h.cards[0].name))
  {
    assert h.cards == [h.cards[0], h.cards[1]];
    TwoCardTwentyOne(h.cards[0], h.cards[1]);
  }
}
