/**
 * The game session of the canonical version: the phase machine
 * menu -> setup -> round -> reveal -> animate / pick_row -> leaderboard,
 * the table it owns, and the input events that move it.
 */
module Session {
  import opened Cards
  import opened Config
  import opened Text
  import opened Pieces
  import opened Rules
  import opened Screen

  /** The phase tag of the session. */
  datatype Phase = Menu | Setup | Round | Reveal | Animate | PickRow | Leaderboard

  /** A player's current state as a value. */
  function SeatOf(p: Player): Seat
    reads p
  {
    Seat(p.name, p.isHuman, p.hand, p.penaltyPoints, p.alive)
  }

  /** The players' current states, seat by seat. */
  function SeatsOf(ps: seq<Player>): seq<Seat>
    reads ps
  {
    seq(|ps|, i reads ps requires 0 <= i < |ps| => SeatOf(ps[i]))
  }

  /** The rows' current cards, row by row. */
  function CardsOf(rs: seq<Row>): seq<seq<Card>>
    reads rs
  {
    seq(|rs|, j reads rs requires 0 <= j < |rs| => rs[j].cards)
  }

  /** No object appears twice. */
  predicate Distinct<T(==)>(s: seq<T>)
  {
    forall i, j :: 0 <= i < j < |s| ==> s[i] != s[j]
  }

  /** A prefix of a prefix is a prefix. */
  lemma TakeTake<T>(s: seq<T>, n: nat, m: nat)
    requires m <= n <= |s|
    ensures s[..n][..m] == s[..m]
  {
  }

  /**
   * The commitments from position `n0` on come from the first `k` of the ascending seats `alive`,
   * one per seat, in seat order.
   */
  ghost predicate NewInSeatOrder(cs: seq<Commit>, n0: nat, alive: seq<nat>, k: nat)
  {
    && (forall m :: n0 <= m < |cs| ==> 0 < k <= |alive| && cs[m].player <= alive[k - 1])
    && (forall a, b :: n0 <= a < b < |cs| ==> cs[a].player < cs[b].player)
  }

  /** Passing over seat `alive[k]`, with or without a commitment from it, keeps the new commitments in seat order. */
  lemma SeatOrderStep(cs: seq<Commit>, n0: nat, alive: seq<nat>, k: nat, added: seq<Commit>)
    requires k < |alive| && n0 <= |cs|
    requires forall a, b :: 0 <= a < b < |alive| ==> alive[a] < alive[b]
    requires NewInSeatOrder(cs, n0, alive, k)
    requires added == [] || added == [Commit(alive[k], added[0].card)]
    ensures NewInSeatOrder(cs + added, n0, alive, k + 1)
  {
  }

  /** `for c in penalty_cards: player.penalty_points += c.penalty`. */
  method ChargePenalties(p: Player, cards: seq<Card>)
    modifies p
    ensures p.penaltyPoints == old(p.penaltyPoints) + PenaltySum(cards)
    ensures p.hand == old(p.hand) && p.alive == old(p.alive)
  {
    var k := 0;
    while k < |cards|
      invariant 0 <= k <= |cards|
      invariant p.penaltyPoints == old(p.penaltyPoints) + PenaltySum(cards[..k])
      invariant p.hand == old(p.hand) && p.alive == old(p.alive)
    {
      assert cards[..k + 1][..k] == cards[..k];
      p.penaltyPoints := p.penaltyPoints + cards[k].penalty;
      k := k + 1;
    }
    assert cards[..k] == cards;
  }

  /** A take-over on the objects: the row becomes `[card]`, its old cards' penalties are charged, the card leaves the hand. */
  method TakeRowWith(row: Row, player: Player, card: Card)
    modifies row, player
    ensures row.cards == [card]
    ensures player.hand == RemoveFirst(old(player.hand), card)
    ensures player.penaltyPoints == old(player.penaltyPoints) + PenaltySum(old(row.cards))
    ensures player.alive == old(player.alive)
  {
    var penaltyCards := row.ResetWithCard(card);
    player.RemoveCardFromHand(card);
    ChargePenalties(player, penaltyCards);
  }

  /** An ordinary placement on the objects: the card goes on the end of the row and leaves the hand. */
  method AppendTo(row: Row, player: Player, card: Card)
    modifies row, player
    ensures row.cards == old(row.cards) + [card]
    ensures player.hand == RemoveFirst(old(player.hand), card)
    ensures player.penaltyPoints == old(player.penaltyPoints) && player.alive == old(player.alive)
  {
    row.AddCard(card);
    player.RemoveCardFromHand(card);
  }

  /** `[Row() for _ in range(4)]`: four new, distinct, empty rows. */
  method NewRows() returns (rs: seq<Row>)
    ensures |rs| == NumRows
    ensures forall j :: 0 <= j < |rs| ==> fresh(rs[j]) && rs[j].cards == []
    ensures forall i, j :: 0 <= i < j < |rs| ==> rs[i] != rs[j]
  {
    rs := [];
    while |rs| < NumRows
      invariant |rs| <= NumRows
      invariant forall j :: 0 <= j < |rs| ==> fresh(rs[j]) && rs[j].cards == []
      invariant forall i, j :: 0 <= i < j < |rs| ==> rs[i] != rs[j]
    {
      var r := new Row();
      rs := rs + [r];
    }
  }

  class Game {
    var players: seq<Player>
    var rows: seq<Row>
    var deck: seq<Card>
    var state: Phase
    var selectedCard: Option<Card>
    /** The seat index of `selected_player`. */
    var selectedPlayer: Option<nat>
    var leaderboard: seq<(string, int)>
    /** `player_cards_placed`, in insertion order, with seat indices for players. */
    var placed: seq<Commit>
    var numBots: int
    var activePlayers: int
    var revealTimer: int
    /** The animations' placements; their screen positions are not modelled. */
    var animationCards: seq<Placement>
    var pendingPlacements: seq<Placement>

    /** The players as values. */
    function Seats(): seq<Seat>
      reads this`players, players
    {
      SeatsOf(players)
    }

    /** The rows' cards as values. */
    function RowCards(): seq<seq<Card>>
      reads this`rows, rows
    {
      CardsOf(rows)
    }

    /** The table as a value. */
    function View(): Board
      reads this`players, this`rows, players, rows
    {
      Board(RowCards(), Seats())
    }

    /** Four distinct rows and at most ten distinct players. */
    ghost predicate Table()
      reads this`rows, this`players
    {
      && |rows| == NumRows
      && Distinct(rows)
      && Distinct(players)
      && |players| <= 10
    }

    /** Every plan entry names one of the rows and one of the players. */
    ghost predicate Fits(plan: seq<Placement>)
      reads this`rows, this`players
    {
      forall m :: 0 <= m < |plan| ==> plan[m].row < |rows| && plan[m].player < |players|
    }

    /** The human sits first, commitments and plans name existing seats, at most one commitment per seat. */
    ghost predicate Shape()
      reads this`numBots, this`players, this`placed, this`pendingPlacements, this`animationCards, this`rows
    {
      && 0 <= numBots <= 9
      && (forall i :: 0 <= i < |players| ==> (players[i].isHuman <==> i == 0))
      && (forall k :: 0 <= k < |placed| ==> placed[k].player < |players|)
      && CommitsDistinct(placed)
      && Fits(pendingPlacements) && Fits(animationCards)
    }

    /** What each phase guarantees. */
    ghost predicate Phased()
      reads this`state, this`players, this`placed, this`pendingPlacements, this`animationCards
      reads this`numBots, this`selectedCard, this`selectedPlayer, players
    {
      && (state == Menu || state == Setup ==>
            players == [] && placed == [] && pendingPlacements == [] && animationCards == [])
      && (state != Menu && state != Setup ==> |players| == numBots + 1)
      && (state == PickRow ==> selectedCard.Some? && selectedPlayer.Some? && selectedPlayer.value < |players|)
      && (state == Round || state == Reveal ==>
            forall k :: 0 <= k < |placed| ==> placed[k].player < |players| && players[placed[k].player].alive)
    }

    ghost predicate Valid()
      reads this`state, this`players, this`placed, this`pendingPlacements, this`animationCards, this`rows
      reads this`numBots, this`selectedCard, this`selectedPlayer, players
    {
      Table() && Shape() && Phased()
    }

    /** `Game()`: the menu, no players, four empty rows, nothing committed. */
    constructor ()
      ensures Valid() && state == Menu
      ensures players == [] && deck == [] && leaderboard == [] && placed == []
      ensures forall j :: 0 <= j < |rows| ==> rows[j].cards == []
      ensures numBots == 0 && revealTimer == 0 && selectedCard == None && selectedPlayer == None
    {
      var rs := NewRows();
      players := [];
      rows := rs;
      deck := [];
      state := Menu;
      selectedCard := None;
      selectedPlayer := None;
      leaderboard := [];
      placed := [];
      numBots := 0;
      activePlayers := 0;
      revealTimer := 0;
      animationCards := [];
      pendingPlacements := [];
    }

    /** `all_players_placed`: as many commitments as alive players. */
    predicate AllPlayersPlaced()
      reads this, players
    {
      |placed| == AliveCount(Seats())
    }

    /** Every alive player has a commitment. */
    ghost predicate EveryoneCommitted()
      reads this`players, this`placed, players
    {
      forall i :: 0 <= i < |players| && players[i].alive ==> Committed(placed, i)
    }

    /** With commitments only from alive players, one each, the count test means everyone alive has committed. */
    lemma PlacedIffEveryoneCommitted()
      requires forall k :: 0 <= k < |placed| ==> placed[k].player < |players| && players[placed[k].player].alive
      requires CommitsDistinct(placed)
      ensures AllPlayersPlaced() <==> EveryoneCommitted()
    {
      var ss := Seats();
      forall k | 0 <= k < |placed| ensures placed[k].player < |ss| && ss[placed[k].player].alive {
        assert ss[placed[k].player] == SeatOf(players[placed[k].player]);
      }
      CompleteIffEveryAliveCommitted(ss, placed);
      forall i | 0 <= i < |players| ensures ss[i].alive == players[i].alive {
        assert ss[i] == SeatOf(players[i]);
      }
    }

    /** `generate_deck`: the values 1..110 in order, each penalty drawn from the weighted table. */
    method GenerateDeck()
      modifies this`deck
      ensures IsOrderedDeck(deck)
      ensures forall i :: 0 <= i < |deck| ==> deck[i].penalty in PenaltyDistribution()
    {
      PenaltyDistributionRange();
      PenaltyDistributionLength();
      var distribution := PenaltyDistribution();
      deck := [];
      var v := 1;
      while v <= MaxCardValue
        invariant 1 <= v <= MaxCardValue + 1
        invariant |distribution| == 21
        invariant |deck| == v - 1
        invariant forall i :: 0 <= i < |deck| ==>
          deck[i].value == i + 1 && deck[i].penalty in distribution && 1 <= deck[i].penalty <= 6
      {
        ghost var some := distribution[0];
        assert some in distribution;
        var penalty: int :| penalty in distribution;
        deck := deck + [Card(v, penalty)];
        v := v + 1;
      }
    }

    /** `shuffle_deck`: some rearrangement of the deck. */
    method ShuffleDeck()
      modifies this`deck
      ensures multiset(deck) == multiset(old(deck))
    {
      ghost var same := deck;
      assert multiset(same) == multiset(deck);
      var shuffled :| multiset(shuffled) == multiset(deck);
      deck := shuffled;
    }

    /** `setup_players`: "Player 1" (human), then `numBots` bots "Bot 1" .. "Bot n", all new. */
    method SetupPlayers()
      requires 0 <= numBots
      modifies this`players, this`activePlayers
      ensures Seats() == FreshSeats(numBots)
      ensures forall i :: 0 <= i < |players| ==> fresh(players[i])
      ensures forall i, j :: 0 <= i < j < |players| ==> players[i] != players[j]
      ensures activePlayers == |players| == numBots + 1
    {
      var human := new Player("Player 1", true);
      players := [human];
      var i := 0;
      while i < numBots
        invariant 0 <= i <= numBots
        invariant |players| == i + 1
        invariant forall k :: 0 <= k < |players| ==> fresh(players[k]) && SeatOf(players[k]) == FreshSeats(numBots)[k]
        invariant forall a, b :: 0 <= a < b < |players| ==> players[a] != players[b]
      {
        var bot := new Player("Bot " + DecimalString(i + 1), false);
        players := players + [bot];
        i := i + 1;
      }
      activePlayers := |players|;
      assert Seats() == FreshSeats(numBots);
    }

    /** `[self.deck.pop() for _ in range(count)]`. */
    method PopCards(count: nat) returns (popped: seq<Card>)
      requires count <= |deck|
      modifies this`deck
      ensures popped == Popped(old(deck), count)
      ensures deck == old(deck)[..|old(deck)| - count]
    {
      popped := [];
      var k := 0;
      while k < count
        invariant 0 <= k <= count
        invariant deck == old(deck)[..|old(deck)| - k]
        invariant popped == Popped(old(deck), k)
      {
        popped := popped + [deck[|deck| - 1]];
        deck := deck[..|deck| - 1];
        k := k + 1;
      }
    }

    /** The dealing loop of `start_new_play`: each alive player in turn gets ten cards popped off the deck. */
    method DealFromDeck()
      requires Table()
      requires |deck| >= CardsPerPlayer * AliveCount(Seats())
      modifies this`deck, players
      ensures players == old(players)
      ensures Seats() == DealHands(old(Seats()), old(deck)).0
      ensures deck == DealHands(old(Seats()), old(deck)).1
    {
      ghost var s0 := Seats();
      ghost var d0 := deck;
      assert s0[..0] == [];
      assert Seats() == PartlyDealt(s0, d0, 0);
      var i := 0;
      while i < |players|
        invariant 0 <= i <= |players|
        invariant Distinct(players)
        invariant Served(s0, d0, i)
      {
        DealNext(s0, d0, i);
        i := i + 1;
      }
      assert s0[..i] == s0;
      assert PartlyDealt(s0, d0, i) == DealHands(s0, d0).0;
    }

    /**
     * The dealing loop has served the seats before `i`: with `s0` the players as they were and
     * `d0` the deck it started from, those seats hold their dealt hands, the others are as they
     * were, and the deck lost ten cards per alive seat served.
     */
    ghost predicate Served(s0: seq<Seat>, d0: seq<Card>, i: nat)
      reads this`players, players, this`deck
    {
      && i <= |players| == |s0|
      && |d0| >= CardsPerPlayer * AliveCount(s0)
      && AliveCount(s0[..i]) <= AliveCount(s0)
      && deck == d0[..|d0| - CardsPerPlayer * AliveCount(s0[..i])]
      && Seats() == PartlyDealt(s0, d0, i)
    }

    /** One pass of the dealing loop: player `i`, if alive, gets ten cards popped off the deck. */
    method DealNext(ghost s0: seq<Seat>, ghost d0: seq<Card>, i: nat)
      requires i < |players| && Distinct(players)
      requires Served(s0, d0, i)
      modifies this`deck, players[i]
      ensures Served(s0, d0, i + 1)
    {
      AliveCountPrefix(s0, i);
      DealtSeatKeeps(s0, d0, i);
      DealtSeat(s0, d0, i);
      PartlyDealtStep(s0, d0, i);
      ghost var before := Seats();
      var p := players[i];
      assert SeatOf(p) == before[i] == s0[i];
      if p.alive {
        TakeTake(d0, |deck|, |deck| - CardsPerPlayer);
        var hand := PopCards(CardsPerPlayer);
        p.hand := hand;
      }
      assert SeatOf(p) == DealHands(s0, d0).0[i];
      OneSeatChanged(before, i);
    }

    /** Only player `i` changed since the players' seats were `before`: the seats differ only there. */
    lemma OneSeatChanged(before: seq<Seat>, i: nat)
      requires i < |players| == |before| && Distinct(players)
      requires forall j :: 0 <= j < |players| && j != i ==> SeatOf(players[j]) == before[j]
      ensures Seats() == before[i := SeatOf(players[i])]
    {
    }

    /** The row loop of `start_new_play`: four new rows, each given one card popped off the deck. */
    method LayRows()
      requires |deck| >= NumRows
      modifies this`rows, this`deck
      ensures |rows| == NumRows
      ensures forall j :: 0 <= j < |rows| ==> fresh(rows[j])
      ensures Distinct(rows)
      ensures forall j :: 0 <= j < NumRows ==> rows[j].cards == [old(deck)[|old(deck)| - 1 - j]]
      ensures deck == old(deck)[..|old(deck)| - NumRows]
    {
      var newRows := NewRows();
      rows := newRows;
      var j := 0;
      while j < NumRows
        invariant 0 <= j <= NumRows
        invariant rows == newRows
        invariant deck == old(deck)[..|old(deck)| - j]
        invariant forall m :: 0 <= m < j ==> rows[m].cards == [old(deck)[|old(deck)| - 1 - m]]
        invariant forall m :: j <= m < NumRows ==> rows[m].cards == []
      {
        rows[j].AddCard(deck[|deck| - 1]);
        deck := deck[..|deck| - 1];
        j := j + 1;
      }
    }

    /**
     * The table is `NewPlay(s0, src)`: when `d0` was too small for the alive players, `src` is a
     * freshly shuffled deck, otherwise `src` is `d0` itself.
     */
    ghost predicate Redealt(s0: seq<Seat>, d0: seq<Card>, src: seq<Card>)
      reads this, players, rows
    {
      var need := CardsPerPlayer * AliveCount(s0) + NumRows;
      && (|d0| < need ==> IsShuffledDeck(src))
      && (|d0| >= need ==> src == d0)
      && |src| >= need
      && Seats() == NewPlay(s0, src).seats
      && RowCards() == NewPlay(s0, src).rows
      && deck == NewPlay(s0, src).deck
    }

    /**
     * `start_new_play`: regenerate and shuffle the deck if it holds fewer than ten cards per alive
     * player plus four, deal, lay four one-card rows, clear the commitments, enter "round".
     */
    method StartNewPlay() returns (ghost source: seq<Card>)
      requires Table()
      modifies this`deck, this`rows, this`state, this`placed, players
      ensures Table() && state == Round && placed == []
      ensures Redealt(old(Seats()), old(deck), source)
    {
      ghost var s0, d0 := Seats(), deck;
      RefillDeck();
      source := deck;
      assert Seats() == s0;
      DealNewPlay();
      state := Round;
      placed := [];
    }

    /** The deck check of `start_new_play`: too few cards for the alive players and the rows means a new shuffled deck. */
    method RefillDeck()
      requires Table()
      modifies this`deck
      ensures var need := CardsPerPlayer * AliveCount(Seats()) + NumRows;
        && (|old(deck)| < need ==> IsShuffledDeck(deck))
        && (|old(deck)| >= need ==> deck == old(deck))
        && |deck| >= need
    {
      ghost var s0 := Seats();
      AliveCountAtMost(s0);
      if |deck| < CardsPerPlayer * AliveCount(Seats()) + NumRows {
        GenerateDeck();
        ghost var ordered := deck;
        ShuffleDeck();
        ShuffledOrderedDeck(deck, ordered);
      }
      assert Seats() == s0;
    }

    /** The dealing of `start_new_play`: the hands, then the four one-card rows, all popped off the deck. */
    method DealNewPlay()
      requires Table()
      requires |deck| >= CardsPerPlayer * AliveCount(Seats()) + NumRows
      modifies this`deck, this`rows, players
      ensures Table()
      ensures Seats() == NewPlay(old(Seats()), old(deck)).seats
      ensures RowCards() == NewPlay(old(Seats()), old(deck)).rows
      ensures deck == NewPlay(old(Seats()), old(deck)).deck
    {
      NewPlayLays(Seats(), deck);
      DealFromDeck();
      LayRows();
    }

    /** `handle_card_placement_prep`: enter "reveal" with the timer at zero. */
    method HandleCardPlacementPrep()
      requires Valid() && state == Round
      modifies this`state, this`revealTimer
      ensures Valid()
      ensures state == Reveal && revealTimer == 0
    {
      state := Reveal;
      revealTimer := 0;
    }

    /**
     * What `handle_card_placement_final` leaves behind for the commitments in card order `order`,
     * judged against the table as it stands.
     */
    ghost predicate Resolved(order: seq<Commit>)
      reads this, players, rows
    {
      ResolvedOn(RowCards(), Seats(), order)
    }

    /**
     * The recorded plan follows `order` against the rows `rs` and seats `ss`; either a human's
     * unplaceable card paused it (phase "pick_row", that card and player selected, no animation)
     * or it covers every commitment and is being animated.
     */
    ghost predicate ResolvedOn(rs: seq<seq<Card>>, ss: seq<Seat>, order: seq<Commit>)
      reads this`pendingPlacements, this`animationCards, this`state, this`selectedCard, this`selectedPlayer
    {
      && PlanFollows(rs, ss, order, pendingPlacements)
      && (state == PickRow || state == Animate)
      && (state == PickRow ==>
            && |pendingPlacements| < |order|
            && PausesAt(rs, ss, order, |pendingPlacements|)
            && selectedCard == Some(order[|pendingPlacements|].card)
            && selectedPlayer == Some(order[|pendingPlacements|].player)
            && animationCards == [])
      && (state == Animate ==> |pendingPlacements| == |order| && animationCards == pendingPlacements)
    }

    /**
     * `handle_card_placement_final`: go through the commitments in card order against the rows as
     * they stand (no row changes here), recording the closest row, a random row to take over for a
     * bot, or pausing for a human; animate the plan unless it paused.
     */
    method HandleCardPlacementFinal()
      requires Valid() && state == Reveal
      modifies this`animationCards, this`pendingPlacements, this`state, this`selectedCard, this`selectedPlayer
      ensures Valid()
      ensures Resolved(SortByValue(placed))
      ensures state == Animate ==> selectedCard == old(selectedCard) && selectedPlayer == old(selectedPlayer)
    {
      var order := SortByValue(placed);
      OrderSeats(order);
      var rows0 := RowCards();
      ghost var seats0 := Seats();
      SeatsHold();
      PlaceInOrder(order, rows0, seats0);
      assert RowCards() == rows0 && Seats() == seats0;
      PlannedValid();
    }

    /** The commitments in card order name existing seats, as the commitments themselves do. */
    lemma OrderSeats(order: seq<Commit>)
      requires order == SortByValue(placed)
      requires forall k :: 0 <= k < |placed| ==> placed[k].player < |players|
      ensures |order| == |placed|
      ensures forall k :: 0 <= k < |order| ==> order[k].player < |players|
    {
      SortByValueSorts(placed);
      forall k | 0 <= k < |order| ensures order[k].player < |players| {
        assert order[k] in multiset(placed);
        var idx :| 0 <= idx < |placed| && placed[idx] == order[k];
      }
    }

    /**
     * The body of `handle_card_placement_final` once the commitments are in card order: clear both
     * lists, record one plan entry per commitment against the rows' cards `rows0` and the seats
     * `seats0` (the table as it stands: nothing here changes a row or a player), stop at a human's
     * card that no row can take, and otherwise animate.
     */
    method PlaceInOrder(order: seq<Commit>, rows0: seq<seq<Card>>, ghost seats0: seq<Seat>)
      requires Table()
      requires |rows0| == |rows| && |seats0| == |players|
      requires forall k :: 0 <= k < |players| ==> seats0[k].isHuman == players[k].isHuman
      requires forall k :: 0 <= k < |order| ==> order[k].player < |players|
      modifies this`animationCards, this`pendingPlacements, this`state, this`selectedCard, this`selectedPlayer
      ensures ResolvedOn(rows0, seats0, order)
      ensures Fits(pendingPlacements) && Fits(animationCards)
      ensures state == Animate ==> selectedCard == old(selectedCard) && selectedPlayer == old(selectedPlayer)
    {
      animationCards := [];
      pendingPlacements := [];
      var i := 0;
      while i < |order|
        invariant 0 <= i <= |order|
        invariant |pendingPlacements| == i
        invariant PlanFollows(rows0, seats0, order, pendingPlacements)
        invariant Fits(pendingPlacements)
        invariant animationCards == []
        invariant selectedCard == old(selectedCard) && selectedPlayer == old(selectedPlayer)
      {
        var c := order[i];
        var target := BestRow(rows0, c.card.value);
        if target.None? {
          if players[c.player].isHuman {
            state := PickRow;
            selectedCard := Some(c.card);
            selectedPlayer := Some(c.player);
            return;
          }
          var chosen: nat :| chosen < |rows|;
          pendingPlacements := pendingPlacements + [Placement(c.player, c.card, chosen, true)];
        } else {
          pendingPlacements := pendingPlacements + [Placement(c.player, c.card, target.value, false)];
        }
        i := i + 1;
      }
      StartAnimation();
    }

    /** The invariant holds once a plan is made: it is animated, or paused with a card and player selected. */
    lemma PlannedValid()
      requires Table() && 0 <= numBots <= 9 && |players| == numBots + 1
      requires forall i :: 0 <= i < |players| ==> (players[i].isHuman <==> i == 0)
      requires forall k :: 0 <= k < |placed| ==> placed[k].player < |players|
      requires CommitsDistinct(placed) && Fits(pendingPlacements) && Fits(animationCards)
      requires state == Animate || (state == PickRow && selectedCard.Some? && selectedPlayer.Some? && selectedPlayer.value < |players|)
      ensures Valid()
    {
    }

    /** `start_animation`: one animation per pending placement, in plan order; enter "animate". */
    method StartAnimation()
      modifies this`animationCards, this`state
      ensures animationCards == pendingPlacements && state == Animate
    {
      animationCards := [];
      var i := 0;
      while i < |pendingPlacements|
        invariant 0 <= i <= |pendingPlacements|
        invariant animationCards == pendingPlacements[..i]
      {
        animationCards := animationCards + [pendingPlacements[i]];
        i := i + 1;
      }
      state := Animate;
    }

    /** One placement of `finish_placements`, in place on the row and player objects. */
    method ApplyEntry(e: Placement)
      requires Table() && e.row < |rows| && e.player < |players|
      modifies rows[e.row], players[e.player]
      ensures View() == ApplyPlacement(old(View()), e)
    {
      ghost var after := ApplyPlacement(View(), e);
      SeatsHold();
      if e.takeRow {
        TakeRowWith(rows[e.row], players[e.player], e.card);
      } else {
        AppendTo(rows[e.row], players[e.player], e.card);
      }
      assert RowCards() == after.rows;
      HoldSeats(after.seats);
    }

    /** `finish_placements`: apply the animated placements in order, then drop both lists. */
    method FinishPlacements()
      requires Table() && Fits(animationCards)
      modifies this`animationCards, this`pendingPlacements, rows, players
      ensures View() == ApplyPlan(old(View()), old(animationCards))
      ensures animationCards == [] && pendingPlacements == []
    {
      ghost var b0 := View();
      var plan := animationCards;
      var m := 0;
      while m < |plan|
        invariant 0 <= m <= |plan|
        invariant InRange(b0, plan)
        invariant View() == ApplyPlan(b0, plan[..m])
      {
        ApplyNext(b0, plan, m);
        m := m + 1;
      }
      assert plan[..m] == plan;
      animationCards := [];
      pendingPlacements := [];
    }

    /** One pass of the loop of `finish_placements`: entry `m` of the plan applied to the table. */
    method ApplyNext(ghost b0: Board, plan: seq<Placement>, m: nat)
      requires Table() && m < |plan| && InRange(b0, plan)
      requires View() == ApplyPlan(b0, plan[..m])
      modifies rows, players
      ensures View() == ApplyPlan(b0, plan[..m + 1])
    {
      assert plan[..m + 1][..m] == plan[..m];
      ApplyEntry(plan[m]);
    }

    /** The elimination loop of `end_round`: out above the threshold, appended to the leaderboard in seat order. */
    method EliminatePlayers()
      requires Table()
      modifies this`leaderboard, players
      ensures Seats() == Eliminate(old(Seats()))
      ensures leaderboard == old(leaderboard) + Eliminated(old(Seats()))
    {
      ghost var s0 := Seats();
      ghost var lb0 := leaderboard;
      SeatsHold();
      var i := 0;
      while i < |players|
        invariant 0 <= i <= |players|
        invariant Distinct(players)
        invariant Screened(s0, lb0, i)
      {
        ScreenNext(s0, lb0, i);
        i := i + 1;
      }
      ScreenedAll(s0, lb0, i);
      HoldSeats(Eliminate(s0));
    }

    /**
     * The elimination loop has looked at the seats before `i`: with `s0` the players as they were
     * and `lb0` the leaderboard before, those seats are out if over the threshold, the leaderboard
     * lists them, and nothing else about a player has changed.
     */
    ghost predicate Screened(s0: seq<Seat>, lb0: seq<(string, int)>, i: nat)
      reads this`players, players, this`leaderboard
    {
      && i <= |players| == |s0|
      && leaderboard == lb0 + Eliminated(s0[..i])
      && (forall j :: 0 <= j < |players| ==>
            && players[j].name == s0[j].name && players[j].isHuman == s0[j].isHuman
            && players[j].hand == s0[j].hand && players[j].penaltyPoints == s0[j].points)
      && (forall j :: 0 <= j < i ==> players[j].alive == Knockout(s0[j]).alive)
      && (forall j :: i <= j < |players| ==> players[j].alive == s0[j].alive)
    }

    /** One pass of the elimination loop: player `i` is out if alive and over the threshold. */
    method ScreenNext(ghost s0: seq<Seat>, ghost lb0: seq<(string, int)>, i: nat)
      requires i < |players| && Distinct(players)
      requires Screened(s0, lb0, i)
      modifies this`leaderboard, players[i]
      ensures Screened(s0, lb0, i + 1)
    {
      var p := players[i];
      assert s0[..i + 1][..i] == s0[..i];
      if p.alive && p.penaltyPoints > MaxPenaltyPoints {
        p.alive := false;
        leaderboard := leaderboard + [(p.name, p.penaltyPoints)];
      }
    }

    /** Once every seat is looked at, the players are the eliminated seats. */
    lemma ScreenedAll(s0: seq<Seat>, lb0: seq<(string, int)>, i: nat)
      requires i == |players| && Screened(s0, lb0, i)
      ensures Hold(Eliminate(s0)) && leaderboard == lb0 + Eliminated(s0)
    {
      assert s0[..i] == s0;
    }

    /** The players agree with `target` seat by seat, field by field. */
    ghost predicate Hold(target: seq<Seat>)
      reads this`players, players
    {
      && |players| == |target|
      && forall j :: 0 <= j < |players| ==>
           && players[j].name == target[j].name && players[j].isHuman == target[j].isHuman
           && players[j].hand == target[j].hand && players[j].penaltyPoints == target[j].points
           && players[j].alive == target[j].alive
    }

    /** The players agree with their own values. */
    lemma SeatsHold()
      ensures Hold(Seats())
    {
      forall j | 0 <= j < |players| ensures Seats()[j] == SeatOf(players[j]) {
      }
    }

    /** Players that agree with `target` field by field are `target`. */
    lemma HoldSeats(target: seq<Seat>)
      requires Hold(target)
      ensures Seats() == target
    {
      forall j | 0 <= j < |players| ensures Seats()[j] == target[j] {
        var t := target[j];
        assert Seats()[j] == SeatOf(players[j]) == Seat(t.name, t.isHuman, t.hand, t.points, t.alive);
      }
    }

    /**
     * Where `end_round` leaves the session, given the seats `s0` and rows `r0` it started from:
     * eliminations recorded, then game over, a redeal, or the next trick of the same play.
     */
    ghost predicate RoundEnded(s0: seq<Seat>, r0: seq<seq<Card>>, d0: seq<Card>, lb0: seq<(string, int)>,
                               placed0: seq<Commit>, src: seq<Card>)
      reads this, players, rows
    {
      && leaderboard == lb0 + Eliminated(s0)
      && Concluded(Eliminate(s0), r0, d0, placed0, src)
    }

    /** After the eliminations left the seats `s1`: game over, a redeal, or the next trick of the same play. */
    ghost predicate Concluded(s1: seq<Seat>, r0: seq<seq<Card>>, d0: seq<Card>, placed0: seq<Commit>, src: seq<Card>)
      reads this, players, rows
    {
      match RoundEndOutcome(s1)
      case GameOver =>
        state == Leaderboard && Seats() == s1 && RowCards() == r0 && deck == d0 && placed == placed0
      case NextTrick =>
        state == Round && Seats() == s1 && RowCards() == r0 && deck == d0 && placed == []
      case Redeal =>
        state == Round && placed == [] && Redealt(s1, d0, src)
    }

    /** `end_round`. */
    method EndRound() returns (ghost source: seq<Card>)
      requires Table() && Shape() && |players| == numBots + 1
      modifies this`leaderboard, this`state, this`placed, this`deck, this`rows, players
      ensures Valid()
      ensures RoundEnded(old(Seats()), old(RowCards()), old(deck), old(leaderboard), old(placed), source)
    {
      EliminatePlayers();
      source := ConcludeRound();
    }

    /** The rest of `end_round`, once the eliminations are done. */
    method ConcludeRound() returns (ghost source: seq<Card>)
      requires Table() && Shape() && |players| == numBots + 1
      modifies this`state, this`placed, this`deck, this`rows, players
      ensures Valid()
      ensures Concluded(old(Seats()), old(RowCards()), old(deck), old(placed), source)
    {
      source := [];
      var aliveCount := AliveCount(Seats());
      if aliveCount == 1 {
        state := Leaderboard;
        return;
      }
      var stillHaveCards := HumanHoldsCard(Seats());
      if !stillHaveCards {
        source := Redeal();
      } else {
        placed := [];
        state := Round;
      }
    }

    /** The redeal branch of `end_round`: more than one or no player is left, and no alive human holds a card. */
    method Redeal() returns (ghost source: seq<Card>)
      requires Table() && Shape() && |players| == numBots + 1
      requires AliveCount(Seats()) != 1 && !HumanHoldsCard(Seats())
      modifies this`state, this`placed, this`deck, this`rows, players
      ensures Valid()
      ensures Concluded(old(Seats()), old(RowCards()), old(deck), old(placed), source)
    {
      source := StartNewPlay();
    }

    /** `pick_row_for_player`: the selected player takes the clicked row with the selected card, then the round ends. */
    method PickRowForPlayer(r: nat) returns (ghost taken: Board, ghost source: seq<Card>)
      requires Valid() && state == PickRow && r < |rows|
      modifies this`selectedCard, this`selectedPlayer, this`leaderboard, this`state, this`placed, this`deck, this`rows
      modifies rows, players
      ensures Valid()
      ensures taken == ApplyPlacement(old(View()), Placement(old(selectedPlayer).value, old(selectedCard).value, r, true))
      ensures selectedCard == None && selectedPlayer == None
      ensures RoundEnded(taken.seats, taken.rows, old(deck), old(leaderboard), old(placed), source)
    {
      taken := TakeSelectedRow(r);
      source := EndRound();
    }

    /** The first half of `pick_row_for_player`: the take-over by the selected player, and the selection cleared. */
    method TakeSelectedRow(r: nat) returns (ghost taken: Board)
      requires Valid() && state == PickRow && r < |rows|
      modifies this`selectedCard, this`selectedPlayer, rows, players
      ensures Table() && Shape() && |players| == numBots + 1
      ensures taken == ApplyPlacement(old(View()), Placement(old(selectedPlayer).value, old(selectedCard).value, r, true))
      ensures View() == taken
      ensures selectedCard == None && selectedPlayer == None
    {
      ApplyEntry(Placement(selectedPlayer.value, selectedCard.value, r, true));
      selectedCard := None;
      selectedPlayer := None;
      taken := View();
    }
    // ----- The per-tick `update`, phase by phase

    /** A commitment added by the bots' loop: an alive bot's card from its own hand. */
    ghost predicate BotCommit(c: Commit)
      reads this`players, players
    {
      c.player < |players| && players[c.player].alive && !players[c.player].isHuman
      && c.card in players[c.player].hand
    }

    /**
     * The "round" branch of `update`, its loop: every alive bot that has not committed yet commits
     * the card `choose_card` picks, in seat order; a bot with an empty hand commits nothing.
     */
    method BotsCommit()
      requires Valid() && state == Round
      modifies this`placed
      ensures Valid()
      ensures |old(placed)| <= |placed| && placed[..|old(placed)|] == old(placed)
      ensures forall k :: |old(placed)| <= k < |placed| ==> BotCommit(placed[k])
      ensures forall a, b :: |old(placed)| <= a < b < |placed| ==> placed[a].player < placed[b].player
      ensures forall i :: 0 <= i < |players| && players[i].alive && !players[i].isHuman && players[i].hand != [] ==>
        Committed(placed, i)
    {
      ghost var placed0 := placed;
      var alive := AliveIndices(Seats());
      assert forall m :: 0 <= m < |alive| ==> alive[m] in alive;
      var k := 0;
      while k < |alive|
        invariant Polled(placed0, alive, k)
        invariant NewInSeatOrder(placed, |placed0|, alive, k)
      {
        ghost var before := placed;
        ghost var added := PollBot(placed0, alive, k);
        SeatOrderStep(before, |placed0|, alive, k, added);
        k := k + 1;
      }
      forall i | 0 <= i < |players| && players[i].alive && !players[i].isHuman && players[i].hand != []
        ensures Committed(placed, i)
      {
        assert Seats()[i].alive;
        assert i in alive;
        var m :| 0 <= m < |alive| && alive[m] == i;
      }
    }

    /**
     * The bots' loop has gone through the first `k` of the alive seats `alive`, starting from the
     * commitments `placed0`: those are kept, each new one is a bot's, at most one per seat, in
     * seat order and from a seat already seen, and each bot seen so far with a card in hand has
     * committed.
     */
    ghost predicate Polled(placed0: seq<Commit>, alive: seq<nat>, k: nat)
      reads this`placed, this`players, players
    {
      && k <= |alive|
      && (forall m :: 0 <= m < |alive| ==> alive[m] < |players| && players[alive[m]].alive)
      && |placed0| <= |placed| && placed[..|placed0|] == placed0
      && (forall m :: |placed0| <= m < |placed| ==> BotCommit(placed[m]))
      && (forall m :: 0 <= m < |placed| ==> placed[m].player < |players| && players[placed[m].player].alive)
      && CommitsDistinct(placed)
      && (forall m :: 0 <= m < k ==>
            players[alive[m]].isHuman || players[alive[m]].hand == [] || Committed(placed, alive[m]))
    }

    /** One pass of the bots' loop: the `k`-th alive seat commits if it is a bot that has not yet and holds a card. */
    method PollBot(ghost placed0: seq<Commit>, alive: seq<nat>, k: nat) returns (ghost added: seq<Commit>)
      requires k < |alive| && Polled(placed0, alive, k)
      modifies this`placed
      ensures Polled(placed0, alive, k + 1)
      ensures placed == old(placed) + added
      ensures added == [] || added == [Commit(alive[k], added[0].card)]
    {
      added := [];
      var i := alive[k];
      var p := players[i];
      if !Committed(placed, i) && !p.isHuman {
        var chosen := p.ChooseCard();
        if chosen.Some? {
          ghost var before := placed;
          placed := placed + [Commit(i, chosen.value)];
          added := [Commit(i, chosen.value)];
          assert placed[|placed| - 1].player == i;
          assert forall m :: 0 <= m < |before| ==> placed[m] == before[m];
          assert forall x :: Committed(before, x) ==> Committed(placed, x);
        }
      }
    }

    /** The "round" branch of `update`: the bots commit, and once everyone alive has, the reveal starts. */
    method RoundTick()
      requires Valid() && state == Round
      modifies this`placed, this`state, this`revealTimer
      ensures Valid()
      ensures |old(placed)| <= |placed| && placed[..|old(placed)|] == old(placed)
      ensures forall k :: |old(placed)| <= k < |placed| ==> BotCommit(placed[k])
      ensures forall a, b :: |old(placed)| <= a < b < |placed| ==> placed[a].player < placed[b].player
      ensures forall i :: 0 <= i < |players| && players[i].alive && !players[i].isHuman && players[i].hand != [] ==>
        Committed(placed, i)
      ensures state == Reveal <==> EveryoneCommitted()
      ensures state == Round || state == Reveal
      ensures state == Reveal ==> revealTimer == 0
      ensures state == Round ==> revealTimer == old(revealTimer)
    {
      BotsCommit();
      PlacedIffEveryoneCommitted();
      if AllPlayersPlaced() {
        HandleCardPlacementPrep();
      }
    }

    /** The "reveal" branch of `update`: count the tick, and resolve the placements once the delay has passed. */
    method RevealTick()
      requires Valid() && state == Reveal
      modifies this`revealTimer, this`animationCards, this`pendingPlacements, this`state, this`selectedCard, this`selectedPlayer
      ensures Valid()
      ensures revealTimer == old(revealTimer) + 1
      ensures revealTimer <= RevealDelay ==>
        && state == Reveal && pendingPlacements == old(pendingPlacements) && animationCards == old(animationCards)
        && selectedCard == old(selectedCard) && selectedPlayer == old(selectedPlayer)
      ensures revealTimer > RevealDelay ==> Resolved(SortByValue(placed))
      ensures revealTimer > RevealDelay && state == Animate ==>
        selectedCard == old(selectedCard) && selectedPlayer == old(selectedPlayer)
    {
      revealTimer := revealTimer + 1;
      if revealTimer > RevealDelay {
        HandleCardPlacementFinal();
      }
    }

    /** The "setup" branch of `update`: a new shuffled deck, the players of a new game, the first play dealt. */
    method SetUp() returns (ghost source: seq<Card>)
      requires Valid() && state == Setup
      modifies this`deck, this`players, this`activePlayers, this`rows, this`state, this`placed
      ensures Valid() && state == Round && placed == []
      ensures activePlayers == numBots + 1
      ensures IsShuffledDeck(source)
      ensures Redealt(FreshSeats(numBots), source, source)
    {
      NewGame();
      source := StartNewPlay();
    }

    /** The first half of the "setup" branch: the deck generated and shuffled, the players created. */
    method NewGame()
      requires Valid() && state == Setup
      modifies this`deck, this`players, this`activePlayers
      ensures Table() && Shape() && |players| == numBots + 1 && activePlayers == numBots + 1
      ensures IsShuffledDeck(deck) && Seats() == FreshSeats(numBots)
      ensures forall i :: 0 <= i < |players| ==> fresh(players[i])
      ensures CardsPerPlayer * AliveCount(Seats()) + NumRows <= |deck|
    {
      GenerateDeck();
      ghost var ordered := deck;
      ShuffleDeck();
      ShuffledOrderedDeck(deck, ordered);
      SetupPlayers();
      AliveCountAtMost(Seats());
      FreshShape();
    }

    /** The players of a new game: the human first, at most ten seats. */
    lemma FreshShape()
      requires 0 <= numBots <= 9 && Seats() == FreshSeats(numBots)
      ensures |players| == numBots + 1 <= 10
      ensures forall i :: 0 <= i < |players| ==> (players[i].isHuman <==> i == 0)
    {
      SeatsHold();
    }

    /**
     * The "animate" branch of `update`: `allDone` says whether every animation reached its end on
     * this tick; then the placements are applied and the round ends, otherwise nothing changes.
     */
    method AnimateStep(allDone: bool) returns (ghost played: Board, ghost source: seq<Card>)
      requires Valid() && state == Animate
      modifies this`animationCards, this`pendingPlacements, this`leaderboard, this`state, this`placed, this`deck, this`rows
      modifies rows, players
      ensures Valid()
      ensures !allDone ==> state == Animate && View() == old(View()) && animationCards == old(animationCards)
      ensures !allDone ==>
        && deck == old(deck) && leaderboard == old(leaderboard) && placed == old(placed)
        && pendingPlacements == old(pendingPlacements) && rows == old(rows)
      ensures allDone ==> played == ApplyPlan(old(View()), old(animationCards))
      ensures allDone ==> animationCards == [] && pendingPlacements == []
      ensures allDone ==> RoundEnded(played.seats, played.rows, old(deck), old(leaderboard), old(placed), source)
    {
      played := View();
      source := [];
      if allDone {
        FinishPlacements();
        played := View();
        source := EndRound();
      }
    }

    /** `update`: one tick of the phase machine; "menu", "pick_row" and "leaderboard" wait for input. */
    method Update(animationsDone: bool)
      requires Valid()
      modifies this`placed, this`state, this`revealTimer, this`animationCards, this`pendingPlacements
      modifies this`selectedCard, this`selectedPlayer, this`deck, this`players, this`activePlayers, this`rows
      modifies this`leaderboard, rows, players
      ensures Valid()
      ensures old(state) in {Menu, PickRow, Leaderboard} ==>
        && state == old(state) && placed == old(placed) && View() == old(View()) && deck == old(deck)
        && revealTimer == old(revealTimer) && animationCards == old(animationCards)
        && pendingPlacements == old(pendingPlacements) && selectedCard == old(selectedCard)
        && selectedPlayer == old(selectedPlayer) && players == old(players)
        && activePlayers == old(activePlayers) && rows == old(rows) && leaderboard == old(leaderboard)
      ensures old(state) == Round ==> state in {Round, Reveal}
      ensures old(state) == Reveal ==> state in {Reveal, PickRow, Animate}
      ensures old(state) == Setup ==> state == Round
      ensures old(state) == Animate ==> state in {Animate, Round, Leaderboard}
    {
      match state
      case Round => RoundTick();
      case Reveal => RevealTick();
      case Setup => var _ := SetUp();
      case Animate => var _, _ := AnimateStep(animationsDone);
      case _ =>
    }

    // ----- Input events

    /** A left click in "round" that commits a card: the human is alive, uncommitted, and clicked one of its cards. */
    ghost predicate CardClick(px: int, py: int)
      reads this`state, this`players, this`placed, players
    {
      state == Round && |players| > 0 && players[0].alive && !Committed(placed, 0)
      && HandCardAt(px, py, |players[0].hand|).Some?
    }

    /**
     * A left click in "round": the human commits the first hand card under the cursor, and the
     * reveal starts if that completes the commitments; any other click changes nothing.
     */
    method ClickCard(px: int, py: int)
      requires Valid()
      modifies this`placed, this`state, this`revealTimer
      ensures Valid()
      ensures old(CardClick(px, py)) ==>
        && placed == old(placed) + [Commit(0, players[0].hand[HandCardAt(px, py, |players[0].hand|).value])]
        && (state == Reveal <==> EveryoneCommitted())
        && (state == Reveal ==> revealTimer == 0)
        && (state != Reveal ==> state == Round && revealTimer == old(revealTimer))
      ensures !old(CardClick(px, py)) ==>
        placed == old(placed) && state == old(state) && revealTimer == old(revealTimer)
    {
      if state == Round {
        var human := players[0];
        if human.alive && !Committed(placed, 0) {
          var slot := HandCardUnder(px, py, |human.hand|);
          if slot.Some? {
            CommitHumanCard(human.hand[slot.value]);
          }
        }
      }
    }

    /** The human's commitment from a click, and the reveal if everyone alive has now committed. */
    method CommitHumanCard(card: Card)
      requires Valid() && state == Round && players[0].alive && !Committed(placed, 0)
      modifies this`placed, this`state, this`revealTimer
      ensures Valid()
      ensures placed == old(placed) + [Commit(0, card)]
      ensures state == Reveal <==> EveryoneCommitted()
      ensures state == Reveal ==> revealTimer == 0
      ensures state != Reveal ==> state == Round && revealTimer == old(revealTimer)
    {
      placed := placed + [Commit(0, card)];
      assert forall k :: 0 <= k < |placed| - 1 ==> placed[k] == old(placed)[k];
      assert Valid();
      PlacedIffEveryoneCommitted();
      if AllPlayersPlaced() {
        HandleCardPlacementPrep();
      }
    }

    /**
     * A left click in "pick_row": the first row under the cursor is taken by the selected player
     * and the round ends; any other click changes nothing.
     */
    method ClickRow(px: int, py: int) returns (ghost picked: Option<nat>, ghost taken: Board, ghost source: seq<Card>)
      requires Valid()
      modifies this`selectedCard, this`selectedPlayer, this`leaderboard, this`state, this`placed, this`deck, this`rows
      modifies rows, players
      ensures Valid()
      ensures picked == if old(state) == PickRow then RowAt(px, py, NumRows) else None
      ensures picked.None? ==>
        && state == old(state) && View() == old(View()) && placed == old(placed) && leaderboard == old(leaderboard)
        && deck == old(deck) && selectedCard == old(selectedCard) && selectedPlayer == old(selectedPlayer)
        && rows == old(rows)
      ensures picked.Some? ==>
        && taken == ApplyPlacement(old(View()), Placement(old(selectedPlayer).value, old(selectedCard).value, picked.value, true))
        && selectedCard == None && selectedPlayer == None
        && RoundEnded(taken.seats, taken.rows, old(deck), old(leaderboard), old(placed), source)
    {
      picked, taken, source := None, View(), [];
      if state == PickRow {
        var slot := RowUnder(px, py, |rows|);
        picked := slot;
        if slot.Some? {
          taken, source := PickRowForPlayer(slot.value);
        }
      }
    }

    /** A key press in "menu": a digit 1..9 is the number of bots, and setup begins; any other key changes nothing. */
    method KeyDown(key: string)
      requires Valid()
      modifies this`numBots, this`state
      ensures Valid()
      ensures var accepted := old(state) == Menu && IsDigits(key) && 1 <= DecimalValue(key) <= 9;
        && (accepted ==> numBots == DecimalValue(key) && state == Setup)
        && (!accepted ==> numBots == old(numBots) && state == old(state))
    {
      if state == Menu {
        if IsDigits(key) {
          var num := DecimalValue(key);
          if 1 <= num <= 9 {
            numBots := num;
            state := Setup;
          }
        }
      }
    }
  }
}
