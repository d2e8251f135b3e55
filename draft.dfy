/**
 * The first dealing routine of the game: numbered cards 1..110 with weighted penalty points, a
 * human player followed by bots, hands of ten popped off a shuffled number list, four one-card
 * rows, a click test on the human's hand and a bot's random move.
 */
module Draft {
  import Cards
  import Config
  import Text

  /** Card numbers run from 1 to this. */
  const NumCards: int := 110
  /** Cards dealt to every player. */
  const HandSize: nat := 10
  /** Rows laid out after dealing. */
  const RowCount: nat := 4
  const CardWidth: int := 50
  const CardHeight: int := 70

  /** A numbered card; its points are drawn once, when it is made. */
  datatype Card = Card(number: int, points: int)

  /** `Card(number)`: the points are one of 1..6, drawn with weights 6, 5, 4, 3, 2, 1. */
  method NewCard(number: int) returns (c: Card)
    ensures c.number == number
    ensures c.points in Config.PenaltyDistribution() && 1 <= c.points <= 6
  {
    Config.PenaltyDistributionLength();
    Config.PenaltyDistributionRange();
    var weighted := Config.PenaltyDistribution();
    ghost var some := weighted[0];
    assert some in weighted;
    var points: int :| points in weighted;
    c := Card(number, points);
  }

  /** `cards.pop(i)` leaves this: every card but the one at `i`, in order. */
  function PopAt(s: seq<Card>, i: nat): (r: seq<Card>)
    requires i < |s|
    ensures |r| == |s| - 1
    ensures multiset(r) + multiset{s[i]} == multiset(s)
    ensures forall k :: 0 <= k < i ==> r[k] == s[k]
    ensures forall k :: i <= k < |r| ==> r[k] == s[k + 1]
  {
    assert s == s[..i] + [s[i]] + s[i + 1..];
    s[..i] + s[i + 1..]
  }

  /** The point lies on hand card `i`: a closed box 50 wide and 70 high, card `i` starting at 50 + 60 i. */
  predicate OnCard(i: int, x: int, y: int)
  {
    var cardX := 50 + i * (CardWidth + 10);
    cardX <= x <= cardX + CardWidth && 50 <= y <= 50 + CardHeight
  }

  /** The first of `n` hand cards whose box holds the point. */
  function CardAt(x: int, y: int, n: nat): Cards.Option<nat>
  {
    Cards.FirstHit(i => OnCard(i, x, y), n)
  }

  /**
   * The boxes sit 60 pixels apart and are 50 wide (both edges inside), so they never overlap:
   * the card under a point is read off its coordinates, and a point in a 9-pixel gap hits nothing.
   */
  lemma CardAtArithmetic(x: int, y: int, n: nat)
    ensures CardAt(x, y, n) ==
      if 50 <= y <= 120 && 50 <= x && (x - 50) % 60 <= 50 && (x - 50) / 60 < n
      then Cards.Some((x - 50) / 60) else Cards.None
  {
    var q := (x - 50) / 60;
    var r := CardAt(x, y, n);
    forall i | OnCard(i, x, y) ensures i == q && (x - 50) % 60 <= 50 {
    }
    var hit := i => OnCard(i, x, y);
    assert r == Cards.FirstHit(hit, n);
    assert r.Some? ==> OnCard(r.value, x, y);
    if 50 <= y <= 120 && 50 <= x && (x - 50) % 60 <= 50 && q < n {
      assert hit(q);
    }
  }

  /** A seat of the first routine: the human, or a bot when `isBot`. */
  class Player {
    const name: string
    const isBot: bool
    var cards: seq<Card>
    var pointStack: int

    constructor (name: string, isBot: bool)
      ensures this.name == name && this.isBot == isBot
      ensures cards == [] && pointStack == 0
    {
      this.name := name;
      this.isBot := isBot;
      cards := [];
      pointStack := 0;
    }

    /**
     * `select_card`: the first hand card whose box holds the click is popped off the hand and
     * returned; a click on no card returns None and leaves the hand alone.
     */
    method SelectCard(x: int, y: int) returns (c: Cards.Option<Card>)
      modifies this
      ensures var slot := CardAt(x, y, |old(cards)|);
        && (slot.None? ==> c.None? && cards == old(cards))
        && (slot.Some? ==> c == Cards.Some(old(cards)[slot.value]) && cards == PopAt(old(cards), slot.value))
      ensures pointStack == old(pointStack)
    {
      var i := 0;
      while i < |cards|
        invariant 0 <= i <= |cards|
        invariant cards == old(cards) && pointStack == old(pointStack)
        invariant CardAt(x, y, i).None?
      {
        if OnCard(i, x, y) {
          CardAtArithmetic(x, y, |cards|);
          c := Cards.Some(cards[i]);
          cards := PopAt(cards, i);
          return;
        }
        i := i + 1;
      }
      c := Cards.None;
    }

    /** `Bot.make_move`: some card of the hand, at a random position, is popped off and played. */
    method MakeMove() returns (c: Card, ghost i: nat)
      requires isBot && cards != []
      modifies this
      ensures i < |old(cards)| && c == old(cards)[i] && cards == PopAt(old(cards), i)
      ensures pointStack == old(pointStack)
    {
      var k :| 0 <= k < |cards|;
      i := k;
      c := cards[k];
      cards := PopAt(cards, k);
    }
  }

  /** `list(range(1, NUM_CARDS + 1))`. */
  function Numbers(): (r: seq<int>)
    ensures |r| == NumCards && forall i :: 0 <= i < |r| ==> r[i] == i + 1
  {
    seq(NumCards, i => i + 1)
  }

  /** A shuffle of the numbers: 110 of them, each of 1..110, no two alike. */
  ghost predicate IsNumberShuffle(order: seq<int>)
  {
    && |order| == NumCards
    && Cards.DistinctBy(order, Cards.Id)
    && forall i :: 0 <= i < |order| ==> 1 <= order[i] <= NumCards
  }

  /** Any rearrangement of the numbers is such a shuffle. */
  lemma RearrangedNumbers(order: seq<int>)
    requires multiset(order) == multiset(Numbers())
    ensures IsNumberShuffle(order)
  {
    var ns := Numbers();
    assert |order| == |multiset(order)| == |multiset(ns)| == |ns|;
    assert Cards.DistinctBy(ns, Cards.Id) by {
      forall i, j | 0 <= i < j < |ns| ensures Cards.Id(ns[i]) != Cards.Id(ns[j]) { }
    }
    Cards.PermutationKeepsDistinct(order, ns, Cards.Id);
    forall i | 0 <= i < |order| ensures 1 <= order[i] <= NumCards {
      assert order[i] in multiset(ns);
      var p :| 0 <= p < |ns| && ns[p] == order[i];
    }
  }

  /** How many players `setup_game(numPlayers)` seats: the human always, plus `numPlayers - 1` bots. */
  function SeatCount(numPlayers: int): nat
  {
    if numPlayers < 1 then 1 else numPlayers
  }

  /** `"Bot " + str(k)`. */
  function BotName(k: nat): string
  {
    "Bot " + Text.DecimalString(k)
  }

  /** The seats of `setup_game`: "Human Player", then the bots "Bot 1", "Bot 2", ..., all with empty hands. */
  method NewPlayers(numPlayers: int) returns (players: seq<Player>)
    ensures |players| == SeatCount(numPlayers)
    ensures players[0].name == "Human Player" && !players[0].isBot
    ensures forall k :: 1 <= k < |players| ==> players[k].name == BotName(k) && players[k].isBot
    ensures forall k :: 0 <= k < |players| ==> fresh(players[k]) && players[k].cards == [] && players[k].pointStack == 0
    ensures forall a, b :: 0 <= a < b < |players| ==> players[a] != players[b]
  {
    var human := new Player("Human Player", false);
    players := [human];
    var i := 0;
    while i < numPlayers - 1
      invariant 0 <= i <= SeatCount(numPlayers) - 1
      invariant |players| == i + 1
      invariant players[0].name == "Human Player" && !players[0].isBot
      invariant forall k :: 1 <= k < |players| ==> players[k].name == BotName(k) && players[k].isBot
      invariant forall k :: 0 <= k < |players| ==> fresh(players[k]) && players[k].cards == [] && players[k].pointStack == 0
      invariant forall a, b :: 0 <= a < b < |players| ==> players[a] != players[b]
    {
      var bot := new Player(BotName(i + 1), true);
      players := players + [bot];
      i := i + 1;
    }
  }

  /** The numbers on a list of cards, in order. */
  function NumbersOf(cards: seq<Card>): (r: seq<int>)
    ensures |r| == |cards| && forall i :: 0 <= i < |r| ==> r[i] == cards[i].number
  {
    seq(|cards|, i requires 0 <= i < |cards| => cards[i].number)
  }

  /** The first `count` numbers `pop()` takes off `numbers`, in the order they come off. */
  function PoppedOff(numbers: seq<int>, count: nat): (r: seq<int>)
    requires count <= |numbers|
    ensures |r| == count && forall m :: 0 <= m < count ==> r[m] == numbers[|numbers| - 1 - m]
  {
    seq(count, m requires 0 <= m < count => numbers[|numbers| - 1 - m])
  }

  /** The numbers of player `k`'s hand after `setup_game` on the shuffled list `order`. */
  function Hand(order: seq<int>, k: nat): (r: seq<int>)
    requires HandSize * (k + 1) <= |order|
    ensures |r| == HandSize && forall m :: 0 <= m < HandSize ==> r[m] == order[|order| - 1 - (HandSize * k + m)]
  {
    PoppedOff(order[..|order| - HandSize * k], HandSize)
  }

  /** The number of row `j` after `setup_game` seats `n` players on the shuffled list `order`. */
  function RowNumber(order: seq<int>, n: nat, j: nat): int
    requires HandSize * n + j < |order|
  {
    order[|order| - 1 - (HandSize * n + j)]
  }

  /** The inner dealing loop: the empty hand of `player` gets the next ten numbers popped off the list, as new cards. */
  method DealTen(player: Player, numbers: seq<int>) returns (rest: seq<int>)
    requires |numbers| >= HandSize && player.cards == []
    modifies player
    ensures rest == numbers[..|numbers| - HandSize]
    ensures NumbersOf(player.cards) == PoppedOff(numbers, HandSize)
    ensures forall c :: c in player.cards ==> 1 <= c.points <= 6
    ensures player.pointStack == old(player.pointStack)
  {
    rest := numbers;
    var m := 0;
    while m < HandSize
      invariant 0 <= m <= HandSize
      invariant rest == numbers[..|numbers| - m]
      invariant NumbersOf(player.cards) == PoppedOff(numbers, m)
      invariant forall c :: c in player.cards ==> 1 <= c.points <= 6
      invariant player.pointStack == old(player.pointStack)
    {
      var number := rest[|rest| - 1];
      rest := rest[..|rest| - 1];
      var card := NewCard(number);
      ghost var before := player.cards;
      player.cards := player.cards + [card];
      assert NumbersOf(player.cards) == NumbersOf(before) + [number];
      assert PoppedOff(numbers, m + 1) == PoppedOff(numbers, m) + [number];
      m := m + 1;
    }
  }

  /**
   * The dealing loop of `setup_game` has served the players before `k`: each holds its ten cards,
   * popped in turn off the shuffled list `order`, and the list lost ten numbers per served player.
   */
  ghost predicate HandsDealt(players: seq<Player>, order: seq<int>, numbers: seq<int>, k: nat)
    reads players
  {
    && k <= |players| && HandSize * k <= |order|
    && numbers == order[..|order| - HandSize * k]
    && (forall t :: 0 <= t < k ==>
          HandSize * (t + 1) <= |order| && NumbersOf(players[t].cards) == Hand(order, t) &&
          forall c :: c in players[t].cards ==> 1 <= c.points <= 6)
    && (forall t :: k <= t < |players| ==> players[t].cards == [])
  }

  /** One pass of the dealing loop: player `k` gets the next ten numbers. */
  method DealPlayer(players: seq<Player>, ghost order: seq<int>, numbers: seq<int>, k: nat) returns (rest: seq<int>)
    requires k < |players| && HandsDealt(players, order, numbers, k)
    requires HandSize * (k + 1) <= |order|
    requires forall a, b :: 0 <= a < b < |players| ==> players[a] != players[b]
    modifies players[k]
    ensures HandsDealt(players, order, rest, k + 1)
    ensures players[k].pointStack == old(players[k].pointStack)
  {
    rest := DealTen(players[k], numbers);
    assert PoppedOff(numbers, HandSize) == Hand(order, k);
  }

  /**
   * `setup_game`: shuffle the numbers 1..110, seat the human and `numPlayers - 1` bots, pop ten
   * numbers per player off the end of the list into their hands, then one number for each of the
   * four rows. `order` is the list as the shuffle left it. With more than ten players the list
   * runs dry, so at most ten are allowed.
   */
  method SetupGame(numPlayers: int) returns (players: seq<Player>, rows: seq<seq<Card>>, ghost order: seq<int>)
    requires numPlayers <= 10
    ensures IsNumberShuffle(order)
    ensures |players| == SeatCount(numPlayers)
    ensures players[0].name == "Human Player" && !players[0].isBot
    ensures forall k :: 1 <= k < |players| ==> players[k].name == BotName(k) && players[k].isBot
    ensures forall k :: 0 <= k < |players| ==> fresh(players[k]) && players[k].pointStack == 0
    ensures forall a, b :: 0 <= a < b < |players| ==> players[a] != players[b]
    ensures forall k :: 0 <= k < |players| ==>
      NumbersOf(players[k].cards) == Hand(order, k) && forall c :: c in players[k].cards ==> 1 <= c.points <= 6
    ensures |rows| == RowCount
    ensures forall j :: 0 <= j < RowCount ==>
      |rows[j]| == 1 && rows[j][0].number == RowNumber(order, |players|, j) && 1 <= rows[j][0].points <= 6
  {
    var numbers := Numbers();
    var shuffled :| multiset(shuffled) == multiset(numbers);
    numbers := shuffled;
    RearrangedNumbers(numbers);
    order := numbers;
    players := NewPlayers(numPlayers);
    var k := 0;
    while k < |players|
      invariant 0 <= k <= |players|
      invariant HandsDealt(players, order, numbers, k)
      invariant forall t :: 0 <= t < |players| ==> fresh(players[t]) && players[t].pointStack == 0
    {
      numbers := DealPlayer(players, order, numbers, k);
      k := k + 1;
    }
    rows := LayDraftRows(numbers);
    assert forall j :: 0 <= j < RowCount ==> numbers[|numbers| - 1 - j] == RowNumber(order, |players|, j);
  }

  /** `[[Card(numbers.pop())] for _ in range(4)]`: four one-card rows off the end of the list. */
  method LayDraftRows(numbers: seq<int>) returns (rows: seq<seq<Card>>)
    requires |numbers| >= RowCount
    ensures |rows| == RowCount
    ensures forall j :: 0 <= j < RowCount ==>
      |rows[j]| == 1 && rows[j][0].number == numbers[|numbers| - 1 - j] && 1 <= rows[j][0].points <= 6
  {
    rows := [];
    var rest := numbers;
    var j := 0;
    while j < RowCount
      invariant 0 <= j <= RowCount
      invariant |rows| == j && rest == numbers[..|numbers| - j]
      invariant forall t :: 0 <= t < j ==>
        |rows[t]| == 1 && rows[t][0].number == numbers[|numbers| - 1 - t] && 1 <= rows[t][0].points <= 6
    {
      var card := NewCard(rest[|rest| - 1]);
      rest := rest[..|rest| - 1];
      rows := rows + [[card]];
      j := j + 1;
    }
  }

  /** Two positions of a shuffle hold different numbers. */
  lemma ShuffleDistinctAt(order: seq<int>, x: nat, y: nat)
    requires IsNumberShuffle(order) && x < |order| && y < |order| && x != y
    ensures order[x] != order[y]
  {
    if x < y {
      assert Cards.Id(order[x]) != Cards.Id(order[y]);
    } else {
      assert Cards.Id(order[y]) != Cards.Id(order[x]);
    }
  }

  /**
   * What `setup_game` deals to `n` players off a shuffle: every hand card and every row card
   * carries a number of 1..110, and no number is dealt twice, within a hand, across hands or
   * between a hand and a row.
   */
  lemma DealtNumbersDistinct(order: seq<int>, n: nat)
    requires IsNumberShuffle(order) && n <= 10
    ensures forall k, m :: 0 <= k < n && 0 <= m < HandSize ==> 1 <= Hand(order, k)[m] <= NumCards
    ensures forall j :: 0 <= j < RowCount ==> 1 <= RowNumber(order, n, j) <= NumCards
    ensures forall a, b, i, j :: 0 <= a < n && 0 <= b < n && 0 <= i < HandSize && 0 <= j < HandSize && (a != b || i != j) ==>
      Hand(order, a)[i] != Hand(order, b)[j]
    ensures forall k, m, j :: 0 <= k < n && 0 <= m < HandSize && 0 <= j < RowCount ==> Hand(order, k)[m] != RowNumber(order, n, j)
    ensures forall i, j :: 0 <= i < j < RowCount ==> RowNumber(order, n, i) != RowNumber(order, n, j)
  {
    forall a, b, i, j | 0 <= a < n && 0 <= b < n && 0 <= i < HandSize && 0 <= j < HandSize && (a != b || i != j)
      ensures Hand(order, a)[i] != Hand(order, b)[j]
    {
      if a < b {
        assert HandSize * a + i < HandSize * b;
      } else if b < a {
        assert HandSize * b + j < HandSize * a;
      }
      ShuffleDistinctAt(order, NumCards - 1 - (HandSize * a + i), NumCards - 1 - (HandSize * b + j));
    }
    forall k, m, j | 0 <= k < n && 0 <= m < HandSize && 0 <= j < RowCount
      ensures Hand(order, k)[m] != RowNumber(order, n, j)
    {
      assert HandSize * k + m < HandSize * n;
      ShuffleDistinctAt(order, NumCards - 1 - (HandSize * k + m), NumCards - 1 - (HandSize * n + j));
    }
    forall i, j | 0 <= i < j < RowCount ensures RowNumber(order, n, i) != RowNumber(order, n, j) {
      ShuffleDistinctAt(order, NumCards - 1 - (HandSize * n + i), NumCards - 1 - (HandSize * n + j));
    }
  }
}
