/** The blackjack decision tables of project/game/src/strategies.py. The
    hand's score is an input: the scoring rule the strategies call is not
    part of this model. */
module Strategies {
  import opened Wrappers
  import opened Objects

  datatype Action = Pass | Take | Split | Double | Tripling | Surrender

  /** The strategy classes; `Base` is `Strategy` itself. */
  datatype Strategy = Base | Basic | Optimal1 | Aggressive | Optimal2

  /** The class attribute `first_bet`, overridden by `Aggressive.__init__`. */
  function FirstBet(s: Strategy): (b: int)
    ensures b > 0
    ensures b == 20 <==> s == Aggressive
    ensures s != Aggressive ==> b == 10
  {
    if s == Aggressive then 20 else 10
  }

  /** The attribute `even_money`, set by `Basic.__init__` only. */
  function EvenMoney(s: Strategy): (e: bool)
    ensures e <==> s == Basic
  {
    s == Basic
  }

  /** A dealer card in {"2", "3", "4", "5", "6"}. */
  predicate LowCard(d: Name)
  {
    d in {Num(2), Num(3), Num(4), Num(5), Num(6)}
  }

  /** A pair of equal names: the only hands `check_split` answers for. */
  predicate IsPair(cards: seq<Card>)
  {
    |cards| == 2 && cards[0].name == cards[1].name
  }

  /** The dealer cards a pair of nines stands against: a 7, a ten-valued
      card or an ace, the cards worth 7, 10 and 11. */
  predicate NinesStandAgainst(d: Name)
  {
    d == Num(7) || TenValued(d) || d == Ace
  }

  /** `check_split` as written: a pair of nines stands against the names
      "7", "10" and "11". */
  function CheckSplitAsWritten(cards: seq<Card>, dealer: Name): (r: Option<Action>)
    ensures !IsPair(cards) ==> r == None
    ensures IsPair(cards) && cards[0].name in {Ace, Num(8)} ==> r == if dealer == Ace then Some(Take) else Some(Split)
    ensures IsPair(cards) && cards[0].name == Num(5) ==> r == Some(Double)
    ensures IsPair(cards) && cards[0].name == Num(4) ==> r == if LowCard(dealer) then Some(Split) else None
    ensures IsPair(cards) && cards[0].name == Num(6) ==> r == if LowCard(dealer) then Some(Split) else Some(Take)
    ensures IsPair(cards) && cards[0].name in {Num(2), Num(3), Num(7)} ==>
      r == if LowCard(dealer) || dealer == Num(7) then Some(Split) else Some(Take)
    ensures IsPair(cards) && cards[0].name !in {Ace, Num(2), Num(3), Num(4), Num(5), Num(6), Num(7), Num(8), Num(9)} ==>
      r == None
    ensures IsPair(cards) && cards[0].name == Num(9) && DeckName(dealer) ==> (r == Some(Pass) <==> dealer in {Num(7), Num(10)})
    ensures IsPair(cards) && cards[0].name == Num(9) ==> r.Some? && r.value in {Pass, Split}
    ensures r.Some? ==> r.value in {Split, Take, Double, Pass}
  {
    if |cards| != 2 || cards[1].name != cards[0].name then None
    else match cards[0].name
      case Ace => if dealer != Ace then Some(Split) else Some(Take)
      case Num(8) => if dealer != Ace then Some(Split) else Some(Take)
      case Num(5) => Some(Double)
      case Num(4) => if LowCard(dealer) then Some(Split) else None
      case Num(9) => if dealer in {Num(7), Num(10), Num(11)} then Some(Pass) else Some(Split)
      case Num(6) => if LowCard(dealer) then Some(Split) else Some(Take)
      case Num(2) => if LowCard(dealer) || dealer == Num(7) then Some(Split) else Some(Take)
      case Num(3) => if LowCard(dealer) || dealer == Num(7) then Some(Split) else Some(Take)
      case Num(7) => if LowCard(dealer) || dealer == Num(7) then Some(Split) else Some(Take)
      case _ => None
  }

  /** `check_split` with the nines rule corrected to stand against the cards
      worth 7, 10 and 11; every other rule as written. */
  function CheckSplit(cards: seq<Card>, dealer: Name): (r: Option<Action>)
    ensures !IsPair(cards) ==> r == None
    ensures IsPair(cards) && cards[0].name in {Ace, Num(8)} ==> r == if dealer == Ace then Some(Take) else Some(Split)
    ensures IsPair(cards) && cards[0].name == Num(5) ==> r == Some(Double)
    ensures IsPair(cards) && cards[0].name == Num(4) ==> r == if LowCard(dealer) then Some(Split) else None
    ensures IsPair(cards) && cards[0].name == Num(6) ==> r == if LowCard(dealer) then Some(Split) else Some(Take)
    ensures IsPair(cards) && cards[0].name in {Num(2), Num(3), Num(7)} ==>
      r == if LowCard(dealer) || dealer == Num(7) then Some(Split) else Some(Take)
    ensures IsPair(cards) && cards[0].name !in {Ace, Num(2), Num(3), Num(4), Num(5), Num(6), Num(7), Num(8), Num(9)} ==>
      r == None
    ensures IsPair(cards) && cards[0].name == Num(9) ==> r == if NinesStandAgainst(dealer) then Some(Pass) else Some(Split)
    ensures r.Some? ==> r.value in {Split, Take, Double, Pass}
  {
    if IsPair(cards) && cards[0].name == Num(9) then
      if NinesStandAgainst(dealer) then Some(Pass) else Some(Split)
    else
      CheckSplitAsWritten(cards, dealer)
  }

  /** `check_double`. */
  function CheckDouble(score: int, dealer: Name): (r: Option<Action>)
    ensures r.Some? <==> 9 <= score <= 11
    ensures r.Some? ==> r.value in {Double, Take}
    ensures score == 9 ==> r == if LowCard(dealer) then Some(Double) else Some(Take)
    ensures score == 10 ==> r == if TenValued(dealer) then Some(Double) else Some(Take)
    ensures score == 11 ==> r == if dealer != Ace then Some(Double) else Some(Take)
    ensures dealer == Ace && r.Some? ==> r == Some(Take)
  {
    if score == 9 then
      if LowCard(dealer) then Some(Double) else Some(Take)
    else if score == 10 || score == 11 then
      if dealer != Ace && (score == 11 || TenValued(dealer)) then Some(Double) else Some(Take)
    else
      None
  }

  /** `check_soft_hands`: the score passed in excludes the ace's extra 10. */
  function CheckSoftHands(score: int, dealer: Name): (r: Option<Action>)
    ensures r.Some? <==> 3 <= score <= 11
    ensures 9 <= score <= 11 ==> r == Some(Pass)
    ensures 3 <= score <= 7 ==> r == if LowCard(dealer) then Some(Double) else Some(Take)
    ensures score == 8 ==> r == if dealer in {Num(9), Num(10), Jack, Queen, King, Ace} then Some(Take) else Some(Pass)
  {
    if 3 <= score <= 7 then
      if LowCard(dealer) then Some(Double) else Some(Take)
    else if score == 8 then
      if dealer in {Num(9), Num(10), Jack, Queen, King, Ace} then Some(Take) else Some(Pass)
    else if 9 <= score <= 11 then
      Some(Pass)
    else
      None
  }

  /** `check_steady_hands`. */
  function CheckSteadyHands(score: int, dealer: Name): (r: Option<Action>)
    ensures 17 <= score <= 21 ==> r == Some(Pass)
    ensures 12 <= score <= 16 ==> r == if LowCard(dealer) then Some(Pass) else Some(Take)
    ensures 4 <= score <= 8 ==> r == Some(Take)
    ensures r.None? <==> score < 4 || 9 <= score <= 11 || score > 21
  {
    if 4 <= score <= 8 then Some(Take)
    else if 12 <= score <= 16 then
      if LowCard(dealer) then Some(Pass) else Some(Take)
    else if 17 <= score <= 21 then Some(Pass)
    else None
  }

  /** `play` of each strategy, as written. `score` is the hand's score,
      `cards` its cards and `doubled` its `double_bet` flag; `dealer` names
      the dealer's open card. Only `Strategy.play` itself raises, with
      NotImplementedError. `Basic` takes a card exactly below 17 and passes
      otherwise; `Aggressive` doubles up to 6, passes above 19, triples an
      already doubled bet on 9 to 11 and takes a card otherwise; the
      optimal strategies never triple nor surrender. */
  function Play(s: Strategy, score: int, cards: seq<Card>, doubled: bool, dealer: Name): (r: Result<Action>)
    ensures r.Err? <==> s == Base
    ensures s == Base ==> r == Err(NotImplementedError)
    ensures s == Basic ==> r == Ok(Take) || r == Ok(Pass)
    ensures s == Basic ==> (r == Ok(Take) <==> score < 17)
    ensures s == Aggressive && score <= 6 ==> r == Ok(Double)
    ensures s == Aggressive && score > 19 ==> r == Ok(Pass)
    ensures s == Aggressive && 6 < score ==> (r == Ok(Tripling) <==> doubled && 9 <= score <= 11)
    ensures s == Aggressive && 6 < score <= 19 && !(doubled && 9 <= score <= 11) ==> r == Ok(Take)
    ensures s in {Optimal1, Optimal2} ==> r.Ok? && r.value !in {Tripling, Surrender}
  {
    match s
    case Base => Err(NotImplementedError)
    case Basic => Ok(if score < 17 then Take else Pass)
    case Optimal1 => Ok(PlayOptimal1(score, cards, doubled, dealer))
    case Aggressive =>
      Ok(if score <= 6 then Double
         else if CheckDouble(score, dealer).Some? && doubled then Tripling
         else if score > 19 then Pass
         else Take)
    case Optimal2 => Ok(PlayOptimal2(score, cards, dealer))
  }

  /** `Optimal1.play` once the split table has given its answer `split`.
      A split answer wins. Otherwise the hand is doubled, taken or passed:
      it passes above 21, and from 17 to 21 unless it is a two-card hand
      with an ace, which the soft-hand table decides (an ace with a 6
      doubles against a low dealer card); an 11 not yet doubled doubles
      against anything but an ace. */
  function Optimal1Decision(split: Option<Action>, score: int, cards: seq<Card>, doubled: bool, dealer: Name): (a: Action)
    ensures split.Some? ==> a == split.value
    ensures split.None? ==> a in {Take, Pass, Double}
    ensures split.None? && score > 21 ==> a == Pass
    ensures split.None? && 17 <= score <= 21 && (|cards| != 2 || forall c :: c in cards ==> c.name != Ace) ==> a == Pass
    ensures split.None? && |cards| == 2 && cards[0].name == Ace && cards[1].name == Num(6) && score == 17 && LowCard(dealer) ==>
      a == Double
    ensures split.None? && score == 11 && !doubled && dealer != Ace ==> a == Double
  {
    var double := CheckDouble(score, dealer);
    var soft := CheckSoftHands(score - 10, dealer);
    var steady := CheckSteadyHands(score, dealer);
    if split.Some? then split.value
    else if double.Some? && !doubled then double.value
    else if (exists i :: 0 <= i < |cards| && cards[i].name == Ace) && |cards| == 2 && soft.Some? then soft.value
    else if steady.Some? then steady.value
    else if score >= 17 then Pass
    else Take
  }

  /** `Optimal2.play` once the split table has given its answer `split`.
      A split answer wins; otherwise it doubles exactly on 10 or 11 against
      a dealer card worth less than 10, takes any other score up to 16 and
      passes from 17. */
  function Optimal2Decision(split: Option<Action>, score: int, dealer: Name): (a: Action)
    ensures split.Some? ==> a == split.value
    ensures split.None? ==> (a == Double <==> (score == 10 || score == 11) && !TenValued(dealer) && dealer != Ace)
    ensures split.None? && score >= 17 ==> a == Pass
    ensures split.None? && score <= 16 && !(score == 10 || score == 11) ==> a == Take
  {
    if split.Some? then split.value
    else if !(TenValued(dealer) || dealer == Ace) && (score == 10 || score == 11) then Double
    else if score <= 16 then Take
    else Pass
  }

  /** `Optimal1.play` as written: a pair of nines splits against an ace, J,
      Q or K and stands against a 7 or a 10; a hand that is not a pair is
      decided by the rules after the split table. */
  function PlayOptimal1(score: int, cards: seq<Card>, doubled: bool, dealer: Name): (a: Action)
    ensures IsPair(cards) && cards[0].name == Num(9) && dealer in {Ace, Jack, Queen, King} ==> a == Split
    ensures IsPair(cards) && cards[0].name == Num(9) && dealer in {Num(7), Num(10)} ==> a == Pass
    ensures !IsPair(cards) ==> a == Optimal1Decision(None, score, cards, doubled, dealer)
  {
    Optimal1Decision(CheckSplitAsWritten(cards, dealer), score, cards, doubled, dealer)
  }

  /** `Optimal2.play` as written, with the same pair-of-nines answers. */
  function PlayOptimal2(score: int, cards: seq<Card>, dealer: Name): (a: Action)
    ensures IsPair(cards) && cards[0].name == Num(9) && dealer in {Ace, Jack, Queen, King} ==> a == Split
    ensures IsPair(cards) && cards[0].name == Num(9) && dealer in {Num(7), Num(10)} ==> a == Pass
    ensures !IsPair(cards) ==> a == Optimal2Decision(None, score, dealer)
  {
    Optimal2Decision(CheckSplitAsWritten(cards, dealer), score, dealer)
  }

  /** `Optimal1.play` with the corrected nines rule: a pair of nines stands
      exactly against a 7, a ten-valued card or an ace, and splits
      otherwise. */
  function PlayOptimal1Corrected(score: int, cards: seq<Card>, doubled: bool, dealer: Name): (a: Action)
    ensures IsPair(cards) && cards[0].name == Num(9) ==> a in {Pass, Split} && (a == Pass <==> NinesStandAgainst(dealer))
  {
    Optimal1Decision(CheckSplit(cards, dealer), score, cards, doubled, dealer)
  }

  /** `Optimal2.play` with the corrected nines rule. */
  function PlayOptimal2Corrected(score: int, cards: seq<Card>, dealer: Name): (a: Action)
    ensures IsPair(cards) && cards[0].name == Num(9) ==> a in {Pass, Split} && (a == Pass <==> NinesStandAgainst(dealer))
  {
    Optimal2Decision(CheckSplit(cards, dealer), score, dealer)
  }

  // -----------------------------------------------------------------------
  // The pair-of-nines rule
  // -----------------------------------------------------------------------

  /** No deck card is named "11", so as written a pair of nines splits
      against an ace and against J, Q and K, while it stands against a 10. */
  lemma NinesAsWrittenSplitAgainstAce(s1: string, s2: string)
    ensures !DeckName(Num(11))
    ensures CheckSplitAsWritten([Card(s1, Num(9)), Card(s2, Num(9))], Ace) == Some(Split)
    ensures CheckSplitAsWritten([Card(s1, Num(9)), Card(s2, Num(9))], King) == Some(Split)
    ensures CheckSplitAsWritten([Card(s1, Num(9)), Card(s2, Num(9))], Num(10)) == Some(Pass)
  {
  }

  /** The corrected rule treats every card worth 10 alike and stands on an
      ace; it agrees with the code as written on every hand that is not a
      pair of nines, and on a pair of nines against any card not worth 10 or
      11. */
  lemma CorrectedSplitAgrees(cards: seq<Card>, dealer: Name)
    ensures !(IsPair(cards) && cards[0].name == Num(9)) ==> CheckSplit(cards, dealer) == CheckSplitAsWritten(cards, dealer)
    ensures IsPair(cards) && cards[0].name == Num(9) && DeckName(dealer) && !TenValued(dealer) && dealer != Ace ==>
      CheckSplit(cards, dealer) == CheckSplitAsWritten(cards, dealer)
    ensures IsPair(cards) && cards[0].name == Num(9) && (TenValued(dealer) || dealer == Ace) ==>
      CheckSplit(cards, dealer) == Some(Pass)
  {
  }

  /** With the corrected nines rule both optimal strategies play exactly as
      written on every hand except a pair of nines against a ten-valued card
      or an ace, where they stand. */
  lemma CorrectedPlayAgrees(score: int, cards: seq<Card>, doubled: bool, dealer: Name)
    ensures !(IsPair(cards) && cards[0].name == Num(9) && (TenValued(dealer) || dealer == Ace)) && DeckName(dealer) ==>
      PlayOptimal1Corrected(score, cards, doubled, dealer) == PlayOptimal1(score, cards, doubled, dealer) &&
      PlayOptimal2Corrected(score, cards, dealer) == PlayOptimal2(score, cards, dealer)
    ensures IsPair(cards) && cards[0].name == Num(9) && (TenValued(dealer) || dealer == Ace) ==>
      PlayOptimal1Corrected(score, cards, doubled, dealer) == Pass &&
      PlayOptimal2Corrected(score, cards, dealer) == Pass
  {
    CorrectedSplitAgrees(cards, dealer);
  }

  // -----------------------------------------------------------------------
  // The missing `get_score`
  // -----------------------------------------------------------------------

  /** `play` on a hand as written: the base class raises NotImplementedError
      before it reads the hand, and every other `play` first calls
      `player_hand.get_score()`, which `Hand` does not define (it defines
      `get_scores`), so the call raises AttributeError. */
  function PlayOnHandAsWritten(s: Strategy): (r: Result<Action>)
    ensures r.Err?
    ensures r.error == AttributeError <==> s != Base
    ensures r.error == NotImplementedError <==> s == Base
  {
    if s == Base then Err(NotImplementedError) else Err(AttributeError)
  }

  /** As written no strategy answers on a hand, while with the hand's score
      given every strategy but the base class does. */
  lemma GetScoreMissingRaises(s: Strategy, score: int, cards: seq<Card>, doubled: bool, dealer: Name)
    requires s != Base
    ensures PlayOnHandAsWritten(s) == Err(AttributeError)
    ensures Play(s, score, cards, doubled, dealer).Ok?
  {
  }
}
