/** The two mutable pieces of the table: a row of cards and a player. */
module Pieces {
  import opened Cards

  /** An ordered pile of cards on the table. */
  class Row {
    var cards: seq<Card>

    constructor ()
      ensures cards == []
    {
      cards := [];
    }

    /** `add_card`: the card goes on the end. */
    method AddCard(card: Card)
      modifies this
      ensures cards == old(cards) + [card]
      ensures LastCardValue() == Some(card.value)
    {
      cards := cards + [card];
    }

    /** `reset_with_card`: the row becomes `[card]` and its previous cards are handed back. */
    method ResetWithCard(card: Card) returns (oldCards: seq<Card>)
      modifies this
      ensures oldCards == old(cards)
      ensures cards == [card]
    {
      oldCards := cards;
      cards := [card];
    }

    /** `last_card_value`: the value of the final card, None for an empty row. */
    function LastCardValue(): (r: Option<int>)
      reads this
      ensures r.None? <==> cards == []
      ensures r.Some? ==> r.value == cards[|cards| - 1].value
    {
      LastValue(cards)
    }
  }

  /** A seat at the table: a human or a bot with a hand and a penalty total. */
  class Player {
    const name: string
    const isHuman: bool
    var hand: seq<Card>
    var penaltyPoints: int
    var alive: bool

    constructor (name: string, isHuman: bool)
      ensures this.name == name && this.isHuman == isHuman
      ensures hand == [] && penaltyPoints == 0 && alive
    {
      this.name := name;
      this.isHuman := isHuman;
      hand := [];
      penaltyPoints := 0;
      alive := true;
    }

    /** `choose_card`: a human never chooses here; a bot picks some card of its hand, if it has one. */
    method ChooseCard() returns (c: Option<Card>)
      ensures c.None? <==> isHuman || hand == []
      ensures c.Some? ==> c.value in hand
    {
      if !isHuman && hand != [] {
        assert hand[0] in hand;
        var card :| card in hand;
        c := Some(card);
      } else {
        c := None;
      }
    }

    /** `remove_card_from_hand`: drop the first copy of `card`; a card not in the hand is ignored. */
    method RemoveCardFromHand(card: Card)
      modifies this
      ensures hand == RemoveFirst(old(hand), card)
      ensures card in old(hand) ==> |hand| == |old(hand)| - 1
      ensures card in old(hand) ==> multiset(hand) == multiset(old(hand)) - multiset{card}
      ensures card !in old(hand) ==> hand == old(hand)
      ensures penaltyPoints == old(penaltyPoints) && alive == old(alive)
    {
      RemoveFirstCount(hand, card);
      if card in hand {
        hand := RemoveFirst(hand, card);
      }
    }
  }
}
