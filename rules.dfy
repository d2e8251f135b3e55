/**
 * The rules of one turn on plain values: which row a card goes to, the order the committed
 * cards are played in, what the resolution loop records, what applying a placement plan does
 * to rows, hands and points, and who is eliminated at the end of a round.
 */
module Rules {
  import opened Cards
  import opened Config
  import opened Text

  /** A player as a value: name, kind, hand, penalty points and whether still in the game. */
  datatype Seat = Seat(name: string, isHuman: bool, hand: seq<Card>, points: int, alive: bool)

  /** The table as a value: the rows' cards and the seats, indexed as in the game. */
  datatype Board = Board(rows: seq<seq<Card>>, seats: seq<Seat>)

  /** One entry of the commitment map: the committing player (by seat index) and the card. */
  datatype Commit = Commit(player: nat, card: Card)

  /** A plan entry: `card` of `player` goes to row `row`, taking the whole row over if `takeRow`. */
  datatype Placement = Placement(player: nat, card: Card, row: nat, takeRow: bool)

  // ----- Choosing a row

  /** A row can take a card of value `v`: it has a last card and `v` is greater. */
  predicate Eligible(row: seq<Card>, v: int)
  {
    row != [] && v > row[|row| - 1].value
  }

  /** How far `v` lies above the row's last card. */
  function Gap(row: seq<Card>, v: int): int
    requires row != []
  {
    v - row[|row| - 1].value
  }

  /**
   * `can_place_card_in_rows` on a snapshot of the rows: None when no row can take the card,
   * otherwise the eligible row with the smallest gap, the earliest one among equal gaps.
   */
  function BestRow(rows: seq<seq<Card>>, v: int): (r: Option<nat>)
    ensures r.None? <==> forall j :: 0 <= j < |rows| ==> !Eligible(rows[j], v)
    ensures r.Some? ==> r.value < |rows| && Eligible(rows[r.value], v)
    ensures r.Some? ==> forall j :: 0 <= j < |rows| && Eligible(rows[j], v) ==>
              Gap(rows[r.value], v) < Gap(rows[j], v) ||
              (Gap(rows[r.value], v) == Gap(rows[j], v) && r.value <= j)
    decreases |rows|
  {
    if rows == [] then None
    else
      var k := |rows| - 1;
      var prev := BestRow(rows[..k], v);
      assert forall j :: 0 <= j < k ==> rows[..k][j] == rows[j];
      if !Eligible(rows[k], v) then prev
      else if prev.None? || Gap(rows[k], v) < Gap(rows[prev.value], v) then Some(k)
      else prev
  }

  // ----- Ordering the commitments

  /** The card values along `s` never decrease. */
  predicate SortedByValue(s: seq<Commit>)
  {
    forall i, j :: 0 <= i <= j < |s| ==> s[i].card.value <= s[j].card.value
  }

  /** Insert `c` before the first entry whose card is not lower. */
  function InsertByValue(c: Commit, s: seq<Commit>): seq<Commit>
  {
    if s == [] || c.card.value <= s[0].card.value then [c] + s
    else [s[0]] + InsertByValue(c, s[1..])
  }

  /** `sorted(items, key=card value)`: a stable insertion sort of the commitments. */
  function SortByValue(cs: seq<Commit>): seq<Commit>
  {
    if cs == [] then [] else InsertByValue(cs[0], SortByValue(cs[1..]))
  }

  lemma {:induction false} InsertByValueCount(c: Commit, s: seq<Commit>)
    ensures multiset(InsertByValue(c, s)) == multiset(s) + multiset{c}
    ensures |InsertByValue(c, s)| == |s| + 1
  {
    if s != [] && c.card.value > s[0].card.value {
      InsertByValueCount(c, s[1..]);
      assert s == [s[0]] + s[1..];
    }
  }

  lemma {:induction false} InsertByValueBound(c: Commit, s: seq<Commit>, lo: int)
    requires lo <= c.card.value
    requires forall k :: 0 <= k < |s| ==> lo <= s[k].card.value
    ensures forall k :: 0 <= k < |InsertByValue(c, s)| ==> lo <= InsertByValue(c, s)[k].card.value
  {
    if s != [] && c.card.value > s[0].card.value {
      InsertByValueBound(c, s[1..], lo);
    }
  }

  lemma {:induction false} InsertByValueSorts(c: Commit, s: seq<Commit>)
    requires SortedByValue(s)
    ensures SortedByValue(InsertByValue(c, s))
  {
    if s != [] && c.card.value > s[0].card.value {
      var tail := s[1..];
      InsertByValueSorts(c, tail);
      InsertByValueBound(c, tail, s[0].card.value);
      var ins := InsertByValue(c, tail);
      var r := [s[0]] + ins;
      assert r == InsertByValue(c, s);
      forall i, j | 0 <= i <= j < |r| ensures r[i].card.value <= r[j].card.value {
        if i > 0 {
          assert r[i] == ins[i - 1] && r[j] == ins[j - 1];
        } else if j > 0 {
          assert r[j] == ins[j - 1];
        }
      }
    } else if s != [] {
      var r := [c] + s;
      forall i, j | 0 <= i <= j < |r| ensures r[i].card.value <= r[j].card.value {
        if i > 0 {
          assert r[i] == s[i - 1] && r[j] == s[j - 1];
        } else if j > 0 {
          assert r[j] == s[j - 1];
        }
      }
    }
  }

  /** The sorted commitments are in non-decreasing card order and are the same commitments. */
  lemma {:induction false} SortByValueSorts(cs: seq<Commit>)
    ensures SortedByValue(SortByValue(cs))
    ensures multiset(SortByValue(cs)) == multiset(cs)
    ensures |SortByValue(cs)| == |cs|
  {
    if cs != [] {
      SortByValueSorts(cs[1..]);
      InsertByValueSorts(cs[0], SortByValue(cs[1..]));
      InsertByValueCount(cs[0], SortByValue(cs[1..]));
      assert cs == [cs[0]] + cs[1..];
    }
  }

  // ----- What the resolution loop records

  /**
   * Entry `e` is what the loop records for commitment `c` against the row snapshot `rows`:
   * the closest row when one fits, otherwise (for a bot only) a take-over of some row.
   */
  predicate Follows(rows: seq<seq<Card>>, seats: seq<Seat>, c: Commit, e: Placement)
  {
    && e.player == c.player && e.card == c.card
    && match BestRow(rows, c.card.value)
       case Some(r) => e.row == r && !e.takeRow
       case None => c.player < |seats| && !seats[c.player].isHuman && e.takeRow && e.row < |rows|
  }

  /** `plan` is what the loop has recorded for the first |plan| commitments of `order`. */
  predicate PlanFollows(rows: seq<seq<Card>>, seats: seq<Seat>, order: seq<Commit>, plan: seq<Placement>)
  {
    |plan| <= |order| && forall m :: 0 <= m < |plan| ==> Follows(rows, seats, order[m], plan[m])
  }

  /** Commitment `m` stops the loop: a human's card that no row can take. */
  predicate PausesAt(rows: seq<seq<Card>>, seats: seq<Seat>, order: seq<Commit>, m: nat)
  {
    m < |order| && order[m].player < |seats| && seats[order[m].player].isHuman &&
    BestRow(rows, order[m].card.value).None?
  }

  /** A recorded plan lists the commitments in non-decreasing card order. */
  lemma PlanInCardOrder(rows: seq<seq<Card>>, seats: seq<Seat>, cs: seq<Commit>, plan: seq<Placement>)
    requires PlanFollows(rows, seats, SortByValue(cs), plan)
    ensures forall i, j :: 0 <= i <= j < |plan| ==> plan[i].card.value <= plan[j].card.value
    ensures forall i :: 0 <= i < |plan| ==> Commit(plan[i].player, plan[i].card) in cs
  {
    SortByValueSorts(cs);
    var order := SortByValue(cs);
    forall i | 0 <= i < |plan| ensures Commit(plan[i].player, plan[i].card) in cs {
      assert order[i] in multiset(cs);
    }
    forall i, j | 0 <= i <= j < |plan| ensures plan[i].card.value <= plan[j].card.value {
      assert plan[i].card == order[i].card && plan[j].card == order[j].card;
    }
  }

  /** A plan entry takes a row over exactly when no row can take its card; otherwise it goes on the closest row. */
  lemma TakeoverExactlyWhenNothingFits(rows: seq<seq<Card>>, seats: seq<Seat>, c: Commit, e: Placement)
    requires Follows(rows, seats, c, e)
    ensures e.takeRow <==> forall j :: 0 <= j < |rows| ==> !Eligible(rows[j], c.card.value)
    ensures !e.takeRow ==> e.row < |rows| && Eligible(rows[e.row], e.card.value)
    ensures e.row < |rows|
  {
  }

  /** The value of a commitment's card, as a function value for `DistinctBy`. */
  function CommitValue(c: Commit): int { c.card.value }

  /**
   * A plan recorded from commitments whose card values are distinct (as the deck's are) plays
   * strictly increasing cards, and every card it appends can go on its row in the snapshot.
   */
  lemma PlanMeetsRowConditions(rows: seq<seq<Card>>, seats: seq<Seat>, cs: seq<Commit>, plan: seq<Placement>)
    requires PlanFollows(rows, seats, SortByValue(cs), plan)
    requires DistinctBy(cs, CommitValue)
    ensures forall m, m' :: 0 <= m < m' < |plan| ==> plan[m].card.value < plan[m'].card.value
    ensures forall m :: 0 <= m < |plan| && !plan[m].takeRow ==>
      plan[m].row < |rows| && Eligible(rows[plan[m].row], plan[m].card.value)
  {
    PlanInCardOrder(rows, seats, cs, plan);
    SortByValueSorts(cs);
    var order := SortByValue(cs);
    PermutationKeepsDistinct(order, cs, CommitValue);
    forall m, m' | 0 <= m < m' < |plan| ensures plan[m].card.value < plan[m'].card.value {
      assert plan[m].card == order[m].card && plan[m'].card == order[m'].card;
      assert CommitValue(order[m]) != CommitValue(order[m']);
    }
    forall m | 0 <= m < |plan| && !plan[m].takeRow
      ensures plan[m].row < |rows| && Eligible(rows[plan[m].row], plan[m].card.value)
    {
      TakeoverExactlyWhenNothingFits(rows, seats, order[m], plan[m]);
    }
  }

  // ----- Applying a plan

  /** Every entry of `plan` names a row and a seat of `b`. */
  predicate InRange(b: Board, plan: seq<Placement>)
  {
    forall m :: 0 <= m < |plan| ==> plan[m].row < |b.rows| && plan[m].player < |b.seats|
  }

  /**
   * One step of `finish_placements`: a take-over replaces the row by `[card]` and charges the
   * old row's penalties; otherwise the card is appended. Either way the card leaves the hand.
   */
  function ApplyPlacement(b: Board, e: Placement): (r: Board)
    requires e.row < |b.rows| && e.player < |b.seats|
    ensures |r.rows| == |b.rows| && |r.seats| == |b.seats|
  {
    var s := b.seats[e.player];
    if e.takeRow then
      Board(b.rows[e.row := [e.card]],
            b.seats[e.player := s.(hand := RemoveFirst(s.hand, e.card),
                                   points := s.points + PenaltySum(b.rows[e.row]))])
    else
      Board(b.rows[e.row := b.rows[e.row] + [e.card]],
            b.seats[e.player := s.(hand := RemoveFirst(s.hand, e.card))])
  }

  /** The plan's entries applied one after another, in plan order. */
  function ApplyPlan(b: Board, plan: seq<Placement>): (r: Board)
    requires InRange(b, plan)
    ensures |r.rows| == |b.rows| && |r.seats| == |b.seats|
    decreases |plan|
  {
    if plan == [] then b
    else
      var n := |plan| - 1;
      ApplyPlacement(ApplyPlan(b, plan[..n]), plan[n])
  }

  /** Applying a plan never changes a seat's name, kind or alive flag. */
  lemma {:induction false} ApplyPlanKeepsSeats(b: Board, plan: seq<Placement>)
    requires InRange(b, plan)
    ensures forall i :: 0 <= i < |b.seats| ==>
      ApplyPlan(b, plan).seats[i].name == b.seats[i].name &&
      ApplyPlan(b, plan).seats[i].isHuman == b.seats[i].isHuman &&
      ApplyPlan(b, plan).seats[i].alive == b.seats[i].alive
    decreases |plan|
  {
    if plan != [] {
      ApplyPlanKeepsSeats(b, plan[..|plan| - 1]);
    }
  }

  /** All penalties of all rows lie in 1..6. */
  ghost predicate RowPenaltiesInRange(rows: seq<seq<Card>>)
  {
    forall j, k :: 0 <= j < |rows| && 0 <= k < |rows[j]| ==> 1 <= rows[j][k].penalty <= 6
  }

  /**
   * With penalties in 1..6, a plan never lowers anyone's points, a seat with no take-over
   * entry keeps its points, and the rows keep penalties in 1..6.
   */
  lemma {:induction false} ApplyPlanPoints(b: Board, plan: seq<Placement>)
    requires InRange(b, plan)
    requires RowPenaltiesInRange(b.rows)
    requires forall m :: 0 <= m < |plan| ==> 1 <= plan[m].card.penalty <= 6
    ensures RowPenaltiesInRange(ApplyPlan(b, plan).rows)
    ensures forall i :: 0 <= i < |b.seats| ==> ApplyPlan(b, plan).seats[i].points >= b.seats[i].points
    ensures forall i :: 0 <= i < |b.seats| && (forall m :: 0 <= m < |plan| && plan[m].player == i ==> !plan[m].takeRow) ==>
      ApplyPlan(b, plan).seats[i].points == b.seats[i].points
    decreases |plan|
  {
    if plan != [] {
      var n := |plan| - 1;
      var prefix := plan[..n];
      ApplyPlanPoints(b, prefix);
      var mid := ApplyPlan(b, prefix);
      var e := plan[n];
      PenaltySumBounds(mid.rows[e.row]);
      var r := ApplyPlacement(mid, e);
      assert r == ApplyPlan(b, plan);
      forall j, k | 0 <= j < |r.rows| && 0 <= k < |r.rows[j]| ensures 1 <= r.rows[j][k].penalty <= 6 {
        if j == e.row && !e.takeRow {
          assert r.rows[j] == mid.rows[j] + [e.card];
        }
      }
    }
  }

  /** When no two entries belong to the same player, each player loses exactly the card of its own entry. */
  lemma {:induction false} ApplyPlanHands(b: Board, plan: seq<Placement>)
    requires InRange(b, plan)
    requires forall m, m' :: 0 <= m < m' < |plan| ==> plan[m].player != plan[m'].player
    ensures forall m :: 0 <= m < |plan| ==>
      ApplyPlan(b, plan).seats[plan[m].player].hand == RemoveFirst(b.seats[plan[m].player].hand, plan[m].card)
    ensures forall i :: 0 <= i < |b.seats| && (forall m :: 0 <= m < |plan| ==> plan[m].player != i) ==>
      ApplyPlan(b, plan).seats[i].hand == b.seats[i].hand
    decreases |plan|
  {
    if plan != [] {
      var n := |plan| - 1;
      var prefix := plan[..n];
      ApplyPlanHands(b, prefix);
      assert forall m :: 0 <= m < n ==> prefix[m] == plan[m];
    }
  }

  /** The card values along a row strictly increase. */
  predicate Ascending(row: seq<Card>)
  {
    forall i, j :: 0 <= i < j < |row| ==> row[i].value < row[j].value
  }

  /**
   * Row monotonicity: if every row is non-empty and ascending, the plan's cards strictly increase,
   * and each appended card fits its row in the snapshot, every row is still non-empty and ascending
   * afterwards; its last card is the snapshot's last card or no higher than the plan's last card.
   */
  lemma {:induction false} ApplyPlanKeepsRowsAscending(b: Board, plan: seq<Placement>)
    requires InRange(b, plan)
    requires forall j :: 0 <= j < |b.rows| ==> b.rows[j] != [] && Ascending(b.rows[j])
    requires forall m, m' :: 0 <= m < m' < |plan| ==> plan[m].card.value < plan[m'].card.value
    requires forall m :: 0 <= m < |plan| && !plan[m].takeRow ==> Eligible(b.rows[plan[m].row], plan[m].card.value)
    ensures forall j :: 0 <= j < |b.rows| ==>
      var row := ApplyPlan(b, plan).rows[j];
      && row != [] && Ascending(row)
      && (row[|row| - 1] == b.rows[j][|b.rows[j]| - 1] ||
          (plan != [] && row[|row| - 1].value <= plan[|plan| - 1].card.value))
    decreases |plan|
  {
    if plan != [] {
      var n := |plan| - 1;
      var prefix := plan[..n];
      ApplyPlanKeepsRowsAscending(b, prefix);
      var mid := ApplyPlan(b, prefix);
      var e := plan[n];
      assert n > 0 ==> prefix[n - 1] == plan[n - 1];
      var r := ApplyPlacement(mid, e);
      assert r == ApplyPlan(b, plan);
      forall j | 0 <= j < |b.rows|
        ensures var row := r.rows[j];
          && row != [] && Ascending(row)
          && (row[|row| - 1] == b.rows[j][|b.rows[j]| - 1] || row[|row| - 1].value <= e.card.value)
      {
        var old_ := mid.rows[j];
        if j == e.row && !e.takeRow {
          var last := old_[|old_| - 1];
          assert last.value < e.card.value by {
            if last != b.rows[j][|b.rows[j]| - 1] {
              assert n > 0 && last.value <= plan[n - 1].card.value;
            }
          }
          assert r.rows[j] == old_ + [e.card];
          AppendKeepsAscending(old_, e.card);
        } else if j != e.row {
          assert r.rows[j] == old_;
          if old_[|old_| - 1] != b.rows[j][|b.rows[j]| - 1] {
            assert n > 0 && old_[|old_| - 1].value <= plan[n - 1].card.value;
          }
        }
      }
    }
  }

  /** A card above a row's last card keeps the row ascending. */
  lemma AppendKeepsAscending(row: seq<Card>, c: Card)
    requires row != [] && Ascending(row) && row[|row| - 1].value < c.value
    ensures Ascending(row + [c])
  {
    var r := row + [c];
    forall i, k | 0 <= i < k < |r| ensures r[i].value < r[k].value {
      if k < |row| {
        assert r[i] == row[i] && r[k] == row[k];
      } else {
        assert r[i] == row[i];
        if i < |row| - 1 { assert row[i].value < row[|row| - 1].value; }
      }
    }
  }

  /** Every row holds a card and its values strictly increase: the shape rows keep during a play. */
  predicate RowsInOrder(rows: seq<seq<Card>>)
  {
    forall j :: 0 <= j < |rows| ==> rows[j] != [] && Ascending(rows[j])
  }

  /**
   * Row monotonicity over a turn: applying the plan recorded, against rows in order, from
   * commitments with distinct card values leaves every row non-empty and ascending.
   */
  lemma ResolvedPlanKeepsRowsInOrder(b: Board, cs: seq<Commit>, plan: seq<Placement>)
    requires InRange(b, plan)
    requires PlanFollows(b.rows, b.seats, SortByValue(cs), plan)
    requires DistinctBy(cs, CommitValue)
    requires RowsInOrder(b.rows)
    ensures RowsInOrder(ApplyPlan(b, plan).rows)
  {
    PlanMeetsRowConditions(b.rows, b.seats, cs, plan);
    ApplyPlanKeepsRowsAscending(b, plan);
  }

  /** A take-over, as `pick_row_for_player` makes it, leaves the rows in order: the taken row is `[card]`. */
  lemma TakeoverKeepsRowsInOrder(b: Board, e: Placement)
    requires e.row < |b.rows| && e.player < |b.seats| && e.takeRow
    requires RowsInOrder(b.rows)
    ensures RowsInOrder(ApplyPlacement(b, e).rows)
  {
  }

  /** The cards seat `i` collects over `plan`: each row it takes over, as it stood then, in plan order. */
  function Collected(b: Board, plan: seq<Placement>, i: nat): seq<Card>
    requires InRange(b, plan)
    decreases |plan|
  {
    if plan == [] then []
    else
      var n := |plan| - 1;
      var e := plan[n];
      Collected(b, plan[..n], i) + (if e.takeRow && e.player == i then ApplyPlan(b, plan[..n]).rows[e.row] else [])
  }

  /** A seat's points rise by exactly the penalties of all the cards it collects over the plan. */
  lemma {:induction false} ApplyPlanCharges(b: Board, plan: seq<Placement>, i: nat)
    requires InRange(b, plan) && i < |b.seats|
    ensures ApplyPlan(b, plan).seats[i].points == b.seats[i].points + PenaltySum(Collected(b, plan, i))
    decreases |plan|
  {
    if plan != [] {
      var n := |plan| - 1;
      ApplyPlanCharges(b, plan[..n], i);
      var mid := ApplyPlan(b, plan[..n]);
      var e := plan[n];
      var got := if e.takeRow && e.player == i then mid.rows[e.row] else [];
      PenaltySumAppend(Collected(b, plan[..n], i), got);
    }
  }

  // ----- End of a round

  /** A seat after the elimination test: out once its points exceed the threshold. */
  function Knockout(s: Seat): Seat
  {
    s.(alive := s.alive && s.points <= MaxPenaltyPoints)
  }

  /** Every seat after the elimination test of `end_round`. */
  function Eliminate(seats: seq<Seat>): seq<Seat>
  {
    seq(|seats|, i requires 0 <= i < |seats| => Knockout(seats[i]))
  }

  /** What `end_round` appends to the leaderboard: (name, points) of each alive seat over the threshold, in seat order. */
  function Eliminated(seats: seq<Seat>): seq<(string, int)>
  {
    if seats == [] then []
    else
      var s := seats[|seats| - 1];
      Eliminated(seats[..|seats| - 1]) +
      (if s.alive && s.points > MaxPenaltyPoints then [(s.name, s.points)] else [])
  }

  /** The number of alive seats. */
  function AliveCount(seats: seq<Seat>): nat
  {
    if seats == [] then 0
    else AliveCount(seats[..|seats| - 1]) + (if seats[|seats| - 1].alive then 1 else 0)
  }

  /** Some alive human still holds a card: the only thing the redeal test looks at. */
  predicate HumanHoldsCard(seats: seq<Seat>)
  {
    exists i :: 0 <= i < |seats| && seats[i].alive && seats[i].isHuman && |seats[i].hand| > 0
  }

  /** The three ways a round can end. */
  datatype RoundEnd = GameOver | Redeal | NextTrick

  /** The branch `end_round` takes once eliminations are done. */
  function RoundEndOutcome(seats: seq<Seat>): RoundEnd
  {
    if AliveCount(seats) == 1 then GameOver
    else if !HumanHoldsCard(seats) then Redeal
    else NextTrick
  }

  /** Each seat over the threshold is listed once, with its points; nobody else is listed. */
  lemma {:induction false} EliminatedExactly(seats: seq<Seat>, name: string, pts: int)
    ensures (name, pts) in Eliminated(seats) <==>
      exists i :: 0 <= i < |seats| && seats[i].alive && seats[i].points > MaxPenaltyPoints &&
                  seats[i].name == name && seats[i].points == pts
    decreases |seats|
  {
    if seats != [] {
      var n := |seats| - 1;
      EliminatedExactly(seats[..n], name, pts);
      assert forall i :: 0 <= i < n ==> seats[..n][i] == seats[i];
    }
  }

  /** Survivors plus newly eliminated seats make up the seats that were alive. */
  lemma {:induction false} EliminationCounts(seats: seq<Seat>)
    ensures AliveCount(Eliminate(seats)) + |Eliminated(seats)| == AliveCount(seats)
    decreases |seats|
  {
    if seats != [] {
      var n := |seats| - 1;
      EliminationCounts(seats[..n]);
      assert Eliminate(seats)[..n] == Eliminate(seats[..n]);
    }
  }

  /** A second elimination test with unchanged points eliminates nobody and lists nobody. */
  lemma {:induction false} EliminateIdempotent(seats: seq<Seat>)
    ensures Eliminate(Eliminate(seats)) == Eliminate(seats)
    ensures Eliminated(Eliminate(seats)) == []
    decreases |seats|
  {
    if seats != [] {
      var n := |seats| - 1;
      EliminateIdempotent(seats[..n]);
      assert Eliminate(seats)[..n] == Eliminate(seats[..n]);
    }
  }

  /** After the elimination test every alive seat is within the threshold. */
  lemma SurvivorsWithinThreshold(seats: seq<Seat>)
    ensures forall i :: 0 <= i < |seats| && Eliminate(seats)[i].alive ==> Eliminate(seats)[i].points <= MaxPenaltyPoints
    ensures forall i :: 0 <= i < |seats| ==> Eliminate(seats)[i].points == seats[i].points
  {
  }

  /** The alive seats, as a set of indices. */
  ghost function AliveSet(seats: seq<Seat>): set<nat>
  {
    set i: nat | i < |seats| && seats[i].alive
  }

  lemma {:induction false} AliveSetSize(seats: seq<Seat>)
    ensures |AliveSet(seats)| == AliveCount(seats)
    decreases |seats|
  {
    if seats != [] {
      var n := |seats| - 1;
      AliveSetSize(seats[..n]);
      var prev := AliveSet(seats[..n]);
      if seats[n].alive {
        assert AliveSet(seats) == prev + {n};
      } else {
        assert AliveSet(seats) == prev;
      }
    }
  }

  /** Player `i` has an entry among the commitments. */
  predicate Committed(cs: seq<Commit>, i: nat)
  {
    exists k :: 0 <= k < |cs| && cs[k].player == i
  }

  /** No player holds two entries (the commitment map is keyed by player). */
  predicate CommitsDistinct(cs: seq<Commit>)
  {
    forall a, b :: 0 <= a < b < |cs| ==> cs[a].player != cs[b].player
  }

  ghost function CommitSet(cs: seq<Commit>): set<nat>
  {
    set k | 0 <= k < |cs| :: cs[k].player
  }

  lemma {:induction false} CommitSetSize(cs: seq<Commit>)
    requires CommitsDistinct(cs)
    ensures |CommitSet(cs)| == |cs|
    decreases |cs|
  {
    if cs != [] {
      var n := |cs| - 1;
      CommitSetSize(cs[..n]);
      assert CommitSet(cs) == CommitSet(cs[..n]) + {cs[n].player};
      assert cs[n].player !in CommitSet(cs[..n]);
    }
  }

  /**
   * `all_players_placed` compares counts only; with one entry per player and only alive
   * committers, the count matches exactly when every alive player has committed.
   */
  lemma CompleteIffEveryAliveCommitted(seats: seq<Seat>, cs: seq<Commit>)
    requires forall k :: 0 <= k < |cs| ==> cs[k].player < |seats| && seats[cs[k].player].alive
    requires CommitsDistinct(cs)
    ensures |cs| == AliveCount(seats) <==> forall i :: 0 <= i < |seats| && seats[i].alive ==> Committed(cs, i)
  {
    if |cs| == AliveCount(seats) {
      FullCountCoversAlive(seats, cs);
    }
    if forall i :: 0 <= i < |seats| && seats[i].alive ==> Committed(cs, i) {
      CoveringAliveIsFullCount(seats, cs);
    }
  }

  /** The committers are alive seats. */
  lemma CommittersAlive(seats: seq<Seat>, cs: seq<Commit>)
    requires forall k :: 0 <= k < |cs| ==> cs[k].player < |seats| && seats[cs[k].player].alive
    requires CommitsDistinct(cs)
    ensures CommitSet(cs) <= AliveSet(seats)
    ensures |CommitSet(cs)| == |cs| && |AliveSet(seats)| == AliveCount(seats)
  {
    AliveSetSize(seats);
    CommitSetSize(cs);
  }

  /** As many commitments as alive seats: every alive seat has committed. */
  lemma FullCountCoversAlive(seats: seq<Seat>, cs: seq<Commit>)
    requires forall k :: 0 <= k < |cs| ==> cs[k].player < |seats| && seats[cs[k].player].alive
    requires CommitsDistinct(cs)
    requires |cs| == AliveCount(seats)
    ensures forall i :: 0 <= i < |seats| && seats[i].alive ==> Committed(cs, i)
  {
    CommittersAlive(seats, cs);
    var A, C := AliveSet(seats), CommitSet(cs);
    assert |A - C| == |A| - |C| == 0;
    assert A - C == {};
    forall i | 0 <= i < |seats| && seats[i].alive ensures Committed(cs, i) {
      assert i in A;
      assert i in C;
    }
  }

  /** Every alive seat has committed: there are as many commitments as alive seats. */
  lemma CoveringAliveIsFullCount(seats: seq<Seat>, cs: seq<Commit>)
    requires forall k :: 0 <= k < |cs| ==> cs[k].player < |seats| && seats[cs[k].player].alive
    requires CommitsDistinct(cs)
    requires forall i :: 0 <= i < |seats| && seats[i].alive ==> Committed(cs, i)
    ensures |cs| == AliveCount(seats)
  {
    CommittersAlive(seats, cs);
    var A, C := AliveSet(seats), CommitSet(cs);
    forall i | i in A ensures i in C {
      var k :| 0 <= k < |cs| && cs[k].player == i;
    }
    assert A == C;
  }

  // ----- Counting and listing the alive seats

  lemma {:induction false} AliveCountAtMost(seats: seq<Seat>)
    ensures AliveCount(seats) <= |seats|
    decreases |seats|
  {
    if seats != [] {
      AliveCountAtMost(seats[..|seats| - 1]);
    }
  }

  /** Counting the seats before `i` and then seat `i` never overshoots the full count. */
  lemma {:induction false} AliveCountPrefix(seats: seq<Seat>, i: nat)
    requires i < |seats|
    ensures AliveCount(seats[..i + 1]) == AliveCount(seats[..i]) + (if seats[i].alive then 1 else 0)
    ensures AliveCount(seats[..i + 1]) <= AliveCount(seats)
    decreases |seats| - i
  {
    assert seats[..i + 1][..i] == seats[..i];
    if i + 1 < |seats| {
      AliveCountPrefix(seats, i + 1);
    } else {
      assert seats[..i + 1] == seats;
    }
  }

  /** The count looks at the alive flags only. */
  lemma {:induction false} AliveCountSameFlags(a: seq<Seat>, b: seq<Seat>)
    requires |a| == |b|
    requires forall i :: 0 <= i < |a| ==> a[i].alive == b[i].alive
    ensures AliveCount(a) == AliveCount(b)
    decreases |a|
  {
    if a != [] {
      AliveCountSameFlags(a[..|a| - 1], b[..|b| - 1]);
    }
  }

  /** `get_alive_players` as seat indices: the alive seats, in seat order. */
  function AliveIndices(seats: seq<Seat>): (r: seq<nat>)
    ensures |r| == AliveCount(seats)
    ensures forall i: nat :: i in r <==> i < |seats| && seats[i].alive
    ensures forall a, b :: 0 <= a < b < |r| ==> r[a] < r[b]
    decreases |seats|
  {
    if seats == [] then []
    else
      var n := |seats| - 1;
      var prev := AliveIndices(seats[..n]);
      AliveIndicesStep(seats, prev);
      prev + (if seats[n].alive then [n] else [])
  }

  /** The alive indices of all seats but the last, extended by the last one if it is alive. */
  lemma AliveIndicesStep(seats: seq<Seat>, prev: seq<nat>)
    requires seats != []
    requires |prev| == AliveCount(seats[..|seats| - 1])
    requires forall i: nat :: i in prev <==> i < |seats| - 1 && seats[..|seats| - 1][i].alive
    requires forall a, b :: 0 <= a < b < |prev| ==> prev[a] < prev[b]
    ensures var n := |seats| - 1;
      var r := prev + (if seats[n].alive then [n] else []);
      && |r| == AliveCount(seats)
      && (forall i: nat :: i in r <==> i < |seats| && seats[i].alive)
      && (forall a, b :: 0 <= a < b < |r| ==> r[a] < r[b])
  {
    var n := |seats| - 1;
    forall i: nat ensures i in prev <==> i < n && seats[i].alive {
      if i < n {
        assert seats[..n][i] == seats[i];
      }
    }
    forall a | 0 <= a < |prev| ensures prev[a] < n {
      assert prev[a] in prev;
    }
  }

  // ----- Dealing a new play

  /** The cards `count` pops take off the end of `deck`, in the order they come off. */
  function Popped(deck: seq<Card>, count: nat): seq<Card>
    requires count <= |deck|
  {
    seq(count, k requires 0 <= k < count => deck[|deck| - 1 - k])
  }

  /** The popped cards are exactly the last `count` cards of the deck. */
  lemma {:induction false} PoppedIsTail(deck: seq<Card>, count: nat)
    requires count <= |deck|
    ensures multiset(Popped(deck, count)) == multiset(deck[|deck| - count..])
    decreases count
  {
    if count > 0 {
      PoppedIsTail(deck, count - 1);
      var n := |deck|;
      assert Popped(deck, count) == Popped(deck, count - 1) + [deck[n - count]];
      assert deck[n - count..] == [deck[n - count]] + deck[n - count + 1..];
    }
  }

  /** Each alive seat in turn gets the next ten cards popped off the deck; the rest of the deck is returned. */
  function DealHands(seats: seq<Seat>, deck: seq<Card>): (r: (seq<Seat>, seq<Card>))
    requires |deck| >= CardsPerPlayer * AliveCount(seats)
    ensures |r.0| == |seats|
    ensures |r.1| == |deck| - CardsPerPlayer * AliveCount(seats) && r.1 == deck[..|r.1|]
    decreases |seats|
  {
    if seats == [] then ([], deck)
    else
      var n := |seats| - 1;
      var prev := DealHands(seats[..n], deck);
      var s := seats[n];
      if s.alive then
        (prev.0 + [s.(hand := Popped(prev.1, CardsPerPlayer))], prev.1[..|prev.1| - CardsPerPlayer])
      else
        (prev.0 + [s], prev.1)
  }

  /** The cards the alive seats hold, seat after seat. */
  function HeldCards(seats: seq<Seat>): seq<Card>
  {
    if seats == [] then []
    else
      var s := seats[|seats| - 1];
      HeldCards(seats[..|seats| - 1]) + (if s.alive then s.hand else [])
  }

  /** The cards of all rows, row after row. */
  function RowsCards(rows: seq<seq<Card>>): seq<Card>
  {
    if rows == [] then [] else RowsCards(rows[..|rows| - 1]) + rows[|rows| - 1]
  }

  /** A table freshly dealt by `start_new_play`. */
  datatype Deal = Deal(seats: seq<Seat>, rows: seq<seq<Card>>, deck: seq<Card>)

  /** `start_new_play` after the deck check: deal the hands, then one card per row, all popped off the deck. */
  function NewPlay(seats: seq<Seat>, deck: seq<Card>): (d: Deal)
    requires |deck| >= CardsPerPlayer * AliveCount(seats) + NumRows
    ensures |d.seats| == |seats| && |d.rows| == NumRows
    ensures |d.deck| == |deck| - CardsPerPlayer * AliveCount(seats) - NumRows
  {
    var (dealt, rest) := DealHands(seats, deck);
    var top := Popped(rest, NumRows);
    Deal(dealt, seq(NumRows, j requires 0 <= j < NumRows => [top[j]]), rest[..|rest| - NumRows])
  }

  /** A new play keeps the dealt seats and lays the four cards left on top, one per row. */
  lemma NewPlayLays(seats: seq<Seat>, deck: seq<Card>)
    requires |deck| >= CardsPerPlayer * AliveCount(seats) + NumRows
    ensures var rest := DealHands(seats, deck).1;
      var d := NewPlay(seats, deck);
      && d.seats == DealHands(seats, deck).0
      && (forall j :: 0 <= j < NumRows ==> d.rows[j] == [rest[|rest| - 1 - j]])
      && d.deck == rest[..|rest| - NumRows]
  {
  }

  lemma AliveCountPrefixes(seats: seq<Seat>)
    ensures forall i :: 0 <= i < |seats| ==>
      AliveCount(seats[..i]) + (if seats[i].alive then 1 else 0) <= AliveCount(seats)
  {
    forall i | 0 <= i < |seats|
      ensures AliveCount(seats[..i]) + (if seats[i].alive then 1 else 0) <= AliveCount(seats)
    {
      AliveCountPrefix(seats, i);
    }
  }

  /** The seats once dealing has reached seat `i`: those before it dealt to, the others as they were. */
  ghost function PartlyDealt(seats: seq<Seat>, deck: seq<Card>, i: nat): seq<Seat>
    requires |deck| >= CardsPerPlayer * AliveCount(seats)
  {
    seq(|seats|, j requires 0 <= j < |seats| => if j < i then DealHands(seats, deck).0[j] else seats[j])
  }

  /** Dealing to seat `i` turns that one seat into its dealt form. */
  lemma PartlyDealtStep(seats: seq<Seat>, deck: seq<Card>, i: nat)
    requires |deck| >= CardsPerPlayer * AliveCount(seats) && i < |seats|
    ensures PartlyDealt(seats, deck, i + 1) == PartlyDealt(seats, deck, i)[i := DealHands(seats, deck).0[i]]
  {
  }

  /** Seat `i` after dealing keeps its name, kind, points and alive flag. */
  lemma {:induction false} DealtSeatKeeps(seats: seq<Seat>, deck: seq<Card>, i: nat)
    requires |deck| >= CardsPerPlayer * AliveCount(seats)
    requires i < |seats|
    ensures var t := DealHands(seats, deck).0[i];
      && t.name == seats[i].name && t.isHuman == seats[i].isHuman
      && t.points == seats[i].points && t.alive == seats[i].alive
    decreases |seats|
  {
    var n := |seats| - 1;
    var front := seats[..n];
    if i < n {
      assert front[i] == seats[i];
      DealtSeatKeeps(front, deck, i);
    }
  }

  /** Seat `i` after dealing: if alive, the ten cards on top when its turn came, otherwise its old hand. */
  lemma {:induction false} DealtSeat(seats: seq<Seat>, deck: seq<Card>, i: nat)
    requires |deck| >= CardsPerPlayer * AliveCount(seats)
    requires i < |seats|
    requires AliveCount(seats[..i]) + (if seats[i].alive then 1 else 0) <= AliveCount(seats)
    ensures var t := DealHands(seats, deck).0[i];
      && (seats[i].alive ==>
            t.hand == Popped(deck[..|deck| - CardsPerPlayer * AliveCount(seats[..i])], CardsPerPlayer))
      && (!seats[i].alive ==> t.hand == seats[i].hand)
    decreases |seats|
  {
    var n := |seats| - 1;
    var front := seats[..n];
    assert seats[..n] == front;
    if i < n {
      assert front[i] == seats[i] && front[..i] == seats[..i];
      AliveCountPrefix(front, i);
      DealtSeat(front, deck, i);
    }
  }

  /** Dealing changes hands only: every seat keeps its name, kind, points and alive flag. */
  lemma DealHandsKeepsSeatData(seats: seq<Seat>, deck: seq<Card>)
    requires |deck| >= CardsPerPlayer * AliveCount(seats)
    ensures forall i :: 0 <= i < |seats| ==>
      var t := DealHands(seats, deck).0[i];
      t.name == seats[i].name && t.isHuman == seats[i].isHuman && t.points == seats[i].points && t.alive == seats[i].alive
  {
    forall i | 0 <= i < |seats| {
      DealtSeatKeeps(seats, deck, i);
    }
  }

  lemma {:induction false} DealHandsKeepsCards(seats: seq<Seat>, deck: seq<Card>)
    requires |deck| >= CardsPerPlayer * AliveCount(seats)
    ensures multiset(deck) == multiset(HeldCards(DealHands(seats, deck).0)) + multiset(DealHands(seats, deck).1)
    decreases |seats|
  {
    if seats != [] {
      DealHandsKeepsCards(seats[..|seats| - 1], deck);
      DealOneKeepsCards(seats, deck);
    }
  }

  /** Dealing to the last seat moves cards from the deck to its hand and never makes or loses one. */
  lemma DealOneKeepsCards(seats: seq<Seat>, deck: seq<Card>)
    requires seats != [] && |deck| >= CardsPerPlayer * AliveCount(seats)
    ensures var prev := DealHands(seats[..|seats| - 1], deck);
      var r := DealHands(seats, deck);
      multiset(HeldCards(r.0)) + multiset(r.1) == multiset(HeldCards(prev.0)) + multiset(prev.1)
  {
    var n := |seats| - 1;
    var prev := DealHands(seats[..n], deck);
    var r := DealHands(seats, deck);
    var s := seats[n];
    if s.alive {
      DealHandsLast(seats, deck);
      var rest := prev.1;
      var hand := Popped(rest, CardsPerPlayer);
      var held := HeldCards(prev.0);
      var left := rest[..|rest| - CardsPerPlayer];
      HeldCardsSnoc(prev.0, s.(hand := hand));
      assert HeldCards(r.0) == held + hand;
      assert r.1 == left;
      PoppedSplits(rest, CardsPerPlayer);
      MultisetRegroup(held, hand, left, rest);
    } else {
      DealHandsLast(seats, deck);
      HeldCardsSnoc(prev.0, s);
    }
  }

  /** Cards moved from a pile `d` onto `h`: the two piles together hold what they held before. */
  lemma MultisetRegroup(h: seq<Card>, p: seq<Card>, r: seq<Card>, d: seq<Card>)
    requires multiset(d) == multiset(r) + multiset(p)
    ensures multiset(h + p) + multiset(r) == multiset(h) + multiset(d)
  {
  }

  /** Dealing to the last seat: if alive it gets the top ten cards of what is left, otherwise nothing moves. */
  lemma DealHandsLast(seats: seq<Seat>, deck: seq<Card>)
    requires seats != [] && |deck| >= CardsPerPlayer * AliveCount(seats)
    ensures var s := seats[|seats| - 1];
      var prev := DealHands(seats[..|seats| - 1], deck);
      && (s.alive ==>
            DealHands(seats, deck) ==
            (prev.0 + [s.(hand := Popped(prev.1, CardsPerPlayer))], prev.1[..|prev.1| - CardsPerPlayer]))
      && (!s.alive ==> DealHands(seats, deck) == (prev.0 + [s], prev.1))
  {
  }

  /** One more seat adds its hand to the held cards if it is alive. */
  lemma HeldCardsSnoc(seats: seq<Seat>, s: Seat)
    ensures s.alive ==> HeldCards(seats + [s]) == HeldCards(seats) + s.hand
    ensures !s.alive ==> HeldCards(seats + [s]) == HeldCards(seats)
  {
    assert (seats + [s])[..|seats|] == seats;
    assert HeldCards(seats) + [] == HeldCards(seats);
  }

  /** Popping `count` cards splits the deck into what is left and what was popped. */
  lemma PoppedSplits(deck: seq<Card>, count: nat)
    requires count <= |deck|
    ensures multiset(deck) == multiset(deck[..|deck| - count]) + multiset(Popped(deck, count))
  {
    PoppedIsTail(deck, count);
    assert deck == deck[..|deck| - count] + deck[|deck| - count..];
  }

  /**
   * The hands of `start_new_play`: every alive seat holds the next ten cards off the deck's tail,
   * dead seats keep their hands, and nothing else about a seat changes.
   */
  lemma NewPlayDealsHands(seats: seq<Seat>, deck: seq<Card>)
    requires |deck| >= CardsPerPlayer * AliveCount(seats) + NumRows
    ensures forall i :: 0 <= i < |seats| ==>
      AliveCount(seats[..i]) + (if seats[i].alive then 1 else 0) <= AliveCount(seats)
    ensures forall i :: 0 <= i < |seats| ==>
      var t := NewPlay(seats, deck).seats[i];
      && t.name == seats[i].name && t.isHuman == seats[i].isHuman
      && t.points == seats[i].points && t.alive == seats[i].alive
      && (seats[i].alive ==>
            |t.hand| == CardsPerPlayer &&
            t.hand == Popped(deck[..|deck| - CardsPerPlayer * AliveCount(seats[..i])], CardsPerPlayer))
      && (!seats[i].alive ==> t.hand == seats[i].hand)
  {
    AliveCountPrefixes(seats);
    var dealt := DealHands(seats, deck).0;
    assert NewPlay(seats, deck).seats == dealt;
    forall i | 0 <= i < |seats|
      ensures var t := dealt[i];
        && t.name == seats[i].name && t.isHuman == seats[i].isHuman
        && t.points == seats[i].points && t.alive == seats[i].alive
        && (seats[i].alive ==>
              |t.hand| == CardsPerPlayer &&
              t.hand == Popped(deck[..|deck| - CardsPerPlayer * AliveCount(seats[..i])], CardsPerPlayer))
        && (!seats[i].alive ==> t.hand == seats[i].hand)
    {
      DealtSeatKeeps(seats, deck, i);
      DealtSeat(seats, deck, i);
    }
  }

  /**
   * The rows of `start_new_play`: once the hands are dealt, each of the four rows gets the next
   * card off the deck's tail, and the deck shrinks by ten per alive seat plus four.
   */
  lemma NewPlayDealsRows(seats: seq<Seat>, deck: seq<Card>)
    requires |deck| >= CardsPerPlayer * AliveCount(seats) + NumRows
    ensures forall j :: 0 <= j < NumRows ==>
      NewPlay(seats, deck).rows[j] == [deck[|deck| - 1 - CardsPerPlayer * AliveCount(seats) - j]]
    ensures NewPlay(seats, deck).deck == deck[..|deck| - CardsPerPlayer * AliveCount(seats) - NumRows]
  {
    var rest := DealHands(seats, deck).1;
    var L := |rest|;
    assert rest == deck[..L];
    var top := Popped(rest, NumRows);
    assert NewPlay(seats, deck).rows == seq(NumRows, j requires 0 <= j < NumRows => [top[j]]);
    assert NewPlay(seats, deck).deck == rest[..L - NumRows];
  }

  /** A new play starts with the rows in order: each holds the one card laid on it. */
  lemma NewPlayRowsInOrder(seats: seq<Seat>, deck: seq<Card>)
    requires |deck| >= CardsPerPlayer * AliveCount(seats) + NumRows
    ensures RowsInOrder(NewPlay(seats, deck).rows)
  {
    NewPlayDealsRows(seats, deck);
  }

  /** Dealing moves cards and never makes or loses one: hands, rows and the remaining deck hold exactly the old deck. */
  lemma NewPlayKeepsCards(seats: seq<Seat>, deck: seq<Card>)
    requires |deck| >= CardsPerPlayer * AliveCount(seats) + NumRows
    ensures var d := NewPlay(seats, deck);
      multiset(HeldCards(d.seats) + RowsCards(d.rows) + d.deck) == multiset(deck)
  {
    DealHandsKeepsCards(seats, deck);
    NewPlayLaysRest(seats, deck);
    var r := DealHands(seats, deck);
    var d := NewPlay(seats, deck);
    ThreeWaySplit(HeldCards(d.seats), RowsCards(d.rows), d.deck, r.1, deck);
  }

  /** Cards `h` plus a lot `rest` that splits into `rs` and `ds` hold, regrouped, what `h` and `rest` hold. */
  lemma ThreeWaySplit(h: seq<Card>, rs: seq<Card>, ds: seq<Card>, rest: seq<Card>, all: seq<Card>)
    requires multiset(rs + ds) == multiset(rest)
    requires multiset(h) + multiset(rest) == multiset(all)
    ensures multiset(h + rs + ds) == multiset(all)
  {
    assert h + rs + ds == h + (rs + ds);
  }

  /** The hands of a new play are the dealt ones; its rows and remaining deck hold what dealing the hands left. */
  lemma NewPlayLaysRest(seats: seq<Seat>, deck: seq<Card>)
    requires |deck| >= CardsPerPlayer * AliveCount(seats) + NumRows
    ensures var d := NewPlay(seats, deck);
      && d.seats == DealHands(seats, deck).0
      && multiset(RowsCards(d.rows) + d.deck) == multiset(DealHands(seats, deck).1)
  {
    var rest := DealHands(seats, deck).1;
    var L := |rest|;
    var top := Popped(rest, NumRows);
    var d := NewPlay(seats, deck);
    assert d == Deal(DealHands(seats, deck).0, seq(NumRows, j requires 0 <= j < NumRows => [top[j]]), rest[..L - NumRows]);
    PoppedIsTail(rest, NumRows);
    SingletonRows(top);
    assert RowsCards(d.rows) == top;
    assert rest == d.deck + rest[L - NumRows..];
  }

  /** Rows of one card each hold, together, exactly those cards. */
  lemma {:induction false} SingletonRows(top: seq<Card>)
    ensures RowsCards(seq(|top|, j requires 0 <= j < |top| => [top[j]])) == top
    decreases |top|
  {
    if top != [] {
      var n := |top| - 1;
      var rows := seq(|top|, j requires 0 <= j < |top| => [top[j]]);
      SingletonRows(top[..n]);
      assert rows[..n] == seq(n, j requires 0 <= j < n => [top[..n][j]]);
      assert top == top[..n] + [top[n]];
    }
  }

  /** Dealt from a deck of distinct values, no value appears twice among the hands, the rows and the remaining deck. */
  lemma NewPlayDistinct(seats: seq<Seat>, deck: seq<Card>)
    requires |deck| >= CardsPerPlayer * AliveCount(seats) + NumRows
    requires DistinctBy(deck, ValueOf)
    ensures var d := NewPlay(seats, deck);
      DistinctBy(HeldCards(d.seats) + RowsCards(d.rows) + d.deck, ValueOf)
  {
    NewPlayKeepsCards(seats, deck);
    var d := NewPlay(seats, deck);
    PermutationKeepsDistinct(HeldCards(d.seats) + RowsCards(d.rows) + d.deck, deck, ValueOf);
  }

  /** The seats `setup_players` creates: "Player 1" (human) and then "Bot 1" .. "Bot n". */
  function FreshSeats(numBots: nat): seq<Seat>
  {
    seq(numBots + 1, i requires 0 <= i <= numBots =>
      if i == 0 then Seat("Player 1", true, [], 0, true)
      else Seat("Bot " + DecimalString(i), false, [], 0, true))
  }

  /** Every seat of a new game has its own name. */
  lemma FreshSeatNamesDistinct(numBots: nat)
    ensures forall i, j :: 0 <= i < j <= numBots ==> FreshSeats(numBots)[i].name != FreshSeats(numBots)[j].name
  {
    var s := FreshSeats(numBots);
    forall i, j | 0 <= i < j <= numBots ensures s[i].name != s[j].name {
      var dj := DecimalString(j);
      DecimalRoundTrip(j);
      assert s[j].name == "Bot " + dj;
      if i == 0 {
        assert s[j].name[0] == 'B' && s[i].name[0] == 'P';
      } else {
        var di := DecimalString(i);
        DecimalRoundTrip(i);
        assert s[i].name == "Bot " + di;
        assert di != dj;
        assert s[i].name[4..] == di && s[j].name[4..] == dj;
      }
    }
  }

  // ----- The redeal test of `end_round`: it reads only human hands and needs exactly one survivor to end

  /** With no alive human, every round end that is not the last one redeals, whatever the bots still hold. */
  lemma RedealIgnoresBots(seats: seq<Seat>)
    ensures RoundEndOutcome(seats) == Redeal <==>
      AliveCount(seats) != 1 &&
      forall i :: 0 <= i < |seats| && seats[i].alive && seats[i].isHuman ==> seats[i].hand == []
  {
  }

  /** If the last players are eliminated together, nobody is alive and the game redeals instead of ending. */
  lemma NoSurvivorsRedeal(seats: seq<Seat>)
    requires AliveCount(seats) == 0
    ensures RoundEndOutcome(seats) == Redeal
  {
  }
}
