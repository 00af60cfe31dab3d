/** The table of project/game/src/desk.py: the players, the hands each of
    them holds, and the bookkeeping of bets, splits and rounds. The dealer
    and its decks are not part of this model: a card the dealer deals is a
    parameter. */
module Desk {
  import opened Wrappers
  import opened Objects
  import opened Strategies

  /** `Player` of project/game/src/persons.py: a strategy and a chip count. */
  class Player {
    var strategy: Strategy
    var chips: int

    constructor (strategy: Strategy, chips: int)
      ensures this.strategy == strategy && this.chips == chips
    {
      this.strategy := strategy;
      this.chips := chips;
    }

    /** `Player()` with its defaults: the basic strategy and 100 chips. */
    constructor Default()
      ensures strategy == Basic && chips == 100
    {
      strategy := Basic;
      chips := 100;
    }
  }

  /** `Dealer.__init__` takes exactly one argument, `num_decks`; a call with
      any other number of arguments raises TypeError. */
  function DealerInit(args: seq<int>): (r: Result<int>)
    ensures r.Ok? <==> |args| == 1
    ensures r.Ok? ==> r.value == args[0]
    ensures r.Err? ==> r.error == TypeError
  {
    if |args| == 1 then Ok(args[0]) else Err(TypeError)
  }

  /** `Desk.__init__` calls `Dealer()` with no argument, so as written every
      table construction raises TypeError before the hands are set up. */
  lemma DeskInitAsWrittenRaises()
    ensures DealerInit([]) == Err(TypeError)
  {
  }

  class Table {
    var players: seq<Player>
    var hands: map<Player, seq<Hand>>

    /** No player sits at the table twice. */
    ghost predicate DistinctPlayers()
      reads this
    {
      forall i, j :: 0 <= i < j < |players| ==> players[i] != players[j]
    }

    /** The players that hold a first hand. */
    ghost predicate HasFirstHand(p: Player)
      reads this
    {
      p in hands && |hands[p]| > 0
    }

    /** No two players share their first hand. */
    ghost predicate DistinctFirstHands()
      reads this
    {
      forall p, q :: p in players && q in players && p != q && HasFirstHand(p) && HasFirstHand(q) ==>
        hands[p][0] != hands[q][0]
    }

    /** The player's first hand, if they hold one. */
    ghost function FirstHandOf(p: Player): set<Hand>
      reads this
    {
      if HasFirstHand(p) then {hands[p][0]} else {}
    }

    ghost function FirstHands(): set<Hand>
      reads this
    {
      set p | p in players && HasFirstHand(p) :: hands[p][0]
    }

    /** How far `place_first_bets` gets: the index of the first player
        without a first hand, or the number of players. */
    ghost function Reach(): (k: nat)
      reads this
      ensures k <= |players|
      ensures forall i :: 0 <= i < k ==> HasFirstHand(players[i])
      ensures k < |players| ==> !HasFirstHand(players[k])
    {
      ReachFrom(0)
    }

    ghost function ReachFrom(i: nat): (k: nat)
      reads this
      requires i <= |players|
      ensures i <= k <= |players|
      ensures forall j :: i <= j < k ==> HasFirstHand(players[j])
      ensures k < |players| ==> !HasFirstHand(players[k])
      decreases |players| - i
    {
      if i == |players| || !HasFirstHand(players[i]) then i else ReachFrom(i + 1)
    }

    /** `Desk.__init__` without the dealer: no hands yet. */
    constructor (players: seq<Player>)
      ensures this.players == players && hands == map[]
    {
      this.players := players;
      hands := map[];
    }

    /** `dealer_give_card`: the dealt card goes to the target hand. */
    method DealerGiveCard(target: Hand, card: Card)
      modifies target
      ensures target.cards == old(target.cards) + [card]
      ensures target.scores == SumSet(old(target.scores), CardScores(card.name))
      ensures target.history == old(target.history) + ["add card"]
      ensures target.bet == old(target.bet) && target.inPlaying == old(target.inPlaying)
      ensures target.doubleBet == old(target.doubleBet) && target.tripledBet == old(target.tripledBet)
      ensures target.state == old(target.state)
      ensures old(target.Valid()) ==> target.Valid()
    {
      target.AddCard(card);
    }

    /** `place_first_bets`: each player in turn pays their strategy's first
        bet and that bet is set on their first hand; whether they can afford
        it is asked and ignored. A player without hands raises KeyError, one
        with an empty hand list IndexError, after that player has paid; the
        players after them keep their chips and their bets. */
    method PlaceFirstBets() returns (r: Outcome)
      requires DistinctPlayers() && DistinctFirstHands()
      modifies (set p | p in players)`chips, FirstHands()`bet
      ensures r == Success <==> Reach() == |players|
      ensures r.Fail? ==> r.error == if players[Reach()] in hands then IndexError else KeyError
      ensures forall i :: 0 <= i < |players| ==>
        players[i].chips == old(players[i].chips) - (if i <= Reach() then FirstBet(players[i].strategy) else 0)
      ensures forall i :: 0 <= i < Reach() ==> hands[players[i]][0].bet == FirstBet(players[i].strategy)
      ensures forall i :: Reach() < i < |players| && HasFirstHand(players[i]) ==>
        hands[players[i]][0].bet == old(hands[players[i]][0].bet)
    {
      ghost var paid: set<Player> := {};
      var i := 0;
      while i < |players|
        invariant 0 <= i <= |players|
        invariant forall j :: 0 <= j < |players| ==> (players[j] in paid <==> j < i)
        invariant forall p :: p in paid ==> p in players && HasFirstHand(p) && hands[p][0].bet == FirstBet(p.strategy)
        invariant forall p :: p in players ==> p.chips == old(p.chips) - (if p in paid then FirstBet(p.strategy) else 0)
        invariant forall p :: p in players && p !in paid && HasFirstHand(p) ==> hands[p][0].bet == old(hands[p][0].bet)
      {
        var player := players[i];
        var outcome := PayFirstBet(i);
        if outcome.Fail? {
          ReachIs(i);
          return outcome;
        }
        paid := paid + {player};
        i := i + 1;
      }
      ReachIs(i);
      return Success;
    }

    /** The first player without a first hand, after players who all hold
        one, is where `Reach` stops. */
    lemma ReachIs(i: nat)
      requires i <= |players|
      requires forall j :: 0 <= j < i ==> HasFirstHand(players[j])
      requires i < |players| ==> !HasFirstHand(players[i])
      ensures Reach() == i
    {
    }

    /** One turn of `place_first_bets`: the player at index `i` pays their
        first bet, and the bet is set on their first hand if they hold one. */
    method PayFirstBet(i: nat) returns (r: Outcome)
      requires i < |players|
      modifies {players[i]}`chips, FirstHandOf(players[i])`bet
      ensures players[i].chips == old(players[i].chips) - FirstBet(players[i].strategy)
      ensures r == Success <==> HasFirstHand(players[i])
      ensures r.Fail? ==> r.error == if players[i] in hands then IndexError else KeyError
      ensures r == Success ==> hands[players[i]][0].bet == FirstBet(players[i].strategy)
      ensures DistinctFirstHands() ==> forall p :: p in players && p != players[i] && HasFirstHand(p) ==>
        hands[p][0].bet == old(hands[p][0].bet)
    {
      var player := players[i];
      var bet := FirstBet(player.strategy);
      var _ := CheckBet(i, bet);
      player.chips := player.chips - bet;
      if player !in hands {
        return Fail(KeyError);
      }
      if hands[player] == [] {
        return Fail(IndexError);
      }
      hands[player][0].bet := bet;
      return Success;
    }

    /** `split`: the hand at `idHand` (Python indexing) is replaced by a new
        hand with its first card and the dealt card `d1`, and a new hand with
        its second card and the dealt card `d2` is appended; both carry the
        old bet. A missing player raises KeyError, a bad index or a hand with
        fewer than two cards IndexError, and then nothing changes. */
    method Split(player: Player, idHand: int, d1: Card, d2: Card) returns (r: Outcome)
      modifies this
      ensures players == old(players)
      ensures r.Fail? ==> hands == old(hands)
      ensures player !in old(hands) ==> r == Fail(KeyError)
      ensures player in old(hands) ==> match PyIndex(|old(hands[player])|, idHand)
        case None => r == Fail(IndexError)
        case Some(i) =>
          (r == Success <==> |old(hands[player][i].cards)| >= 2) &&
          (r.Fail? ==> r.error == IndexError)
      ensures r == Success ==> player in old(hands) && SplitDone(old(hands), hands, player, idHand)
      ensures r == Success ==>
        var i := PyIndex(|old(hands[player])|, idHand).value;
        && SplitHand(hands[player][i], old(hands[player][i].bet), old(hands[player][i].cards[0]), d1)
        && SplitHand(hands[player][|hands[player]| - 1], old(hands[player][i].bet), old(hands[player][i].cards[1]), d2)
        && fresh(hands[player][i]) && fresh(hands[player][|hands[player]| - 1])
        && hands[player][i] != hands[player][|hands[player]| - 1]
    {
      if player !in hands {
        return Fail(KeyError);
      }
      var index := PyIndex(|hands[player]|, idHand);
      if index.None? {
        return Fail(IndexError);
      }
      var i := index.value;
      var hand := hands[player][i];
      var bet := hand.bet;
      var first := hand.GetCard(0);
      if first.Err? {
        return Fail(first.error);
      }
      var second := hand.GetCard(1);
      if second.Err? {
        return Fail(second.error);
      }
      var split1 := NewSplitHand(bet, first.value, d1);
      var split2 := NewSplitHand(bet, second.value, d2);
      hands := hands[player := hands[player][i := split1] + [split2]];
      return Success;
    }

    /** One of the two hands `split` builds: a new hand with the `["split"]`
        history and the given bet, receiving the kept card and then the card
        the dealer deals. */
    method NewSplitHand(bet: int, kept: Card, dealt: Card) returns (h: Hand)
      ensures fresh(h) && SplitHand(h, bet, kept, dealt)
    {
      h := new Hand();
      h.history := ["split"];
      h.bet := bet;
      h.AddCard(kept);
      DealerGiveCard(h, dealt);
    }

    /** `check_bet`: whether the player at `idPlayer` (Python indexing) has
        at least `bet` chips; a bad index raises IndexError. */
    function CheckBet(idPlayer: int, bet: int): (r: Result<bool>)
      reads this, set p | p in players
      ensures r.Err? <==> !(-|players| <= idPlayer < |players|)
      ensures r.Err? ==> r.error == IndexError
      ensures r.Ok? ==> (r.value == false <==> bet > players[PyIndex(|players|, idPlayer).value].chips)
    {
      match PyIndex(|players|, idPlayer)
      case None => Err(IndexError)
      case Some(i) => Ok(!(bet > players[i].chips))
    }

    /** `next`: every player gets a single fresh hand; the hands of anyone
        else are kept. */
    method Next()
      modifies this`hands
      ensures hands.Keys == old(hands).Keys + set p | p in players
      ensures forall p :: p in players ==> |hands[p]| == 1 && fresh(hands[p][0]) && hands[p][0].IsNew()
      ensures forall p :: p in old(hands) && p !in players ==> hands[p] == old(hands[p])
      ensures DistinctFirstHands()
    {
      ghost var done: set<Player> := {};
      var i := 0;
      while i < |players|
        invariant 0 <= i <= |players|
        invariant done == set j | 0 <= j < i :: players[j]
        invariant hands.Keys == old(hands).Keys + done
        invariant forall p :: p in done ==> |hands[p]| == 1 && fresh(hands[p][0]) && hands[p][0].IsNew()
        invariant forall p :: p in old(hands) && p !in done ==> hands[p] == old(hands[p])
        invariant forall p, q :: p in done && q in done && p != q ==> hands[p][0] != hands[q][0]
      {
        GiveFreshHand(players[i]);
        done := done + {players[i]};
        i := i + 1;
      }
      assert done == set p | p in players;
    }

    /** One turn of `next`: the player gets a single fresh hand. */
    method GiveFreshHand(p: Player)
      modifies this`hands
      ensures p in hands && hands == old(hands)[p := hands[p]]
      ensures |hands[p]| == 1 && fresh(hands[p][0]) && hands[p][0].IsNew()
    {
      var h := new Hand();
      hands := hands[p := [h]];
    }
  }

  /** A hand made by `split`: the `["split"]` history, the old bet, and the
      kept card followed by the dealt one. */
  ghost predicate SplitHand(h: Hand, bet: int, kept: Card, dealt: Card)
    reads h
  {
    && h.bet == bet && h.cards == [kept, dealt]
    && h.history == ["split", "add card", "add card"]
    && h.scores == SumSet(SumSet({0}, CardScores(kept.name)), CardScores(dealt.name))
    && h.inPlaying && !h.doubleBet && !h.tripledBet && h.state == Default
  }

  /** The hand lists after a successful `split` of the player's hand
      `idHand`: the player holds one hand more, every slot but `idHand` and
      the new last one is kept, and no other player's hands change. */
  ghost predicate SplitDone(before: map<Player, seq<Hand>>, after: map<Player, seq<Hand>>, player: Player, idHand: int)
  {
    && player in before && player in after
    && PyIndex(|before[player]|, idHand).Some?
    && after.Keys == before.Keys
    && (forall p :: p in before && p != player ==> after[p] == before[p])
    && |after[player]| == |before[player]| + 1
    && (forall j :: 0 <= j < |before[player]| && j != PyIndex(|before[player]|, idHand).value ==>
          after[player][j] == before[player][j])
  }
}
