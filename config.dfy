/** The rule constants and the weighted penalty table of the game configuration. */
module Config {

  /** A player whose points exceed this is eliminated. */
  const MaxPenaltyPoints: int := 60
  /** Cards dealt to every alive player at the start of a play. */
  const CardsPerPlayer: nat := 10
  /** Number of rows on the table. */
  const NumRows: nat := 4
  /** Ticks the revealed cards stay face down before they are resolved. */
  const RevealDelay: int := 60

  /** Weight of penalty 1, 2, ..., 6: higher penalties are rarer. */
  const PenaltyWeights: seq<int> := [6, 5, 4, 3, 2, 1]
  /** The penalties themselves, `range(1, 7)`. */
  const PenaltyValues: seq<int> := [1, 2, 3, 4, 5, 6]

  /** `[v] * w`: `w` copies of `v`, none when `w` is not positive. */
  function Repeat(v: int, w: int): seq<int>
    decreases w
  {
    if w <= 0 then [] else Repeat(v, w - 1) + [v]
  }

  /** `w` when positive, else 0: how many copies `[v] * w` holds. */
  function Copies(w: int): nat { if w <= 0 then 0 else w }

  /** Sum of the copy counts of `ws`. */
  function WeightSum(ws: seq<int>): nat
  {
    if ws == [] then 0 else WeightSum(ws[..|ws| - 1]) + Copies(ws[|ws| - 1])
  }

  /** Zipping `vs` with `ws` (the shorter one decides) and extending by `[v] * w` for each pair. */
  function Expand(vs: seq<int>, ws: seq<int>): seq<int>
    decreases |vs|
  {
    var n := if |vs| < |ws| then |vs| else |ws|;
    if n == 0 then [] else Expand(vs[..n - 1], ws[..n - 1]) + Repeat(vs[n - 1], ws[n - 1])
  }

  /** The distribution penalties are drawn from. */
  function PenaltyDistribution(): seq<int>
  {
    Expand(PenaltyValues, PenaltyWeights)
  }

  /** `get_penalty_distribution`: one pass over the zipped values and weights. */
  method GetPenaltyDistribution() returns (distribution: seq<int>)
    ensures distribution == PenaltyDistribution()
  {
    distribution := [];
    var i := 0;
    while i < |PenaltyValues|
      invariant 0 <= i <= |PenaltyValues|
      invariant distribution == Expand(PenaltyValues[..i], PenaltyWeights[..i])
    {
      assert PenaltyValues[..i + 1][..i] == PenaltyValues[..i];
      assert PenaltyWeights[..i + 1][..i] == PenaltyWeights[..i];
      distribution := distribution + Repeat(PenaltyValues[i], PenaltyWeights[i]);
      i := i + 1;
    }
    assert PenaltyValues[..i] == PenaltyValues;
    assert PenaltyWeights[..i] == PenaltyWeights;
  }

  lemma {:induction false} RepeatCount(v: int, w: int, x: int)
    ensures |Repeat(v, w)| == Copies(w)
    ensures x == v ==> multiset(Repeat(v, w))[x] == Copies(w)
    ensures x != v ==> multiset(Repeat(v, w))[x] == 0
    ensures forall k :: 0 <= k < |Repeat(v, w)| ==> Repeat(v, w)[k] == v
    decreases w
  {
    if w > 0 {
      RepeatCount(v, w - 1, x);
      var r := Repeat(v, w - 1);
      assert Repeat(v, w) == r + [v];
      assert multiset(r + [v]) == multiset(r) + multiset{v};
      forall k | 0 <= k < |r| + 1 ensures (r + [v])[k] == v {
        if k < |r| {
          assert (r + [v])[k] == r[k];
        }
      }
    }
  }

  /** The expanded list is as long as the weights add up to. */
  lemma {:induction false} ExpandLength(vs: seq<int>, ws: seq<int>)
    requires |vs| == |ws|
    ensures |Expand(vs, ws)| == WeightSum(ws)
    decreases |vs|
  {
    var n := |vs|;
    if n > 0 {
      ExpandLength(vs[..n - 1], ws[..n - 1]);
      RepeatCount(vs[n - 1], ws[n - 1], vs[n - 1]);
    }
  }

  /** Every element of the expanded list is one of the values, paired with a positive weight. */
  lemma {:induction false} ExpandMembers(vs: seq<int>, ws: seq<int>, x: int)
    requires |vs| == |ws|
    ensures x in Expand(vs, ws) ==> exists k :: 0 <= k < |vs| && vs[k] == x && ws[k] > 0
    decreases |vs|
  {
    var n := |vs|;
    if n > 0 {
      var e, rep := Expand(vs[..n - 1], ws[..n - 1]), Repeat(vs[n - 1], ws[n - 1]);
      ExpandMembers(vs[..n - 1], ws[..n - 1], x);
      RepeatCount(vs[n - 1], ws[n - 1], x);
      if x in e {
        var k :| 0 <= k < n - 1 && vs[..n - 1][k] == x && ws[..n - 1][k] > 0;
        assert vs[k] == x && ws[k] > 0;
      } else if x in rep {
        assert multiset(rep)[x] > 0;
        assert vs[n - 1] == x && ws[n - 1] > 0;
      }
    }
  }

  /** A value that is not among `vs` never occurs in the expanded list. */
  lemma {:induction false} ExpandCountMissing(vs: seq<int>, ws: seq<int>, x: int)
    requires |vs| == |ws| && x !in vs
    ensures multiset(Expand(vs, ws))[x] == 0
    decreases |vs|
  {
    var n := |vs|;
    if n > 0 {
      var e, rep := Expand(vs[..n - 1], ws[..n - 1]), Repeat(vs[n - 1], ws[n - 1]);
      assert x !in vs[..n - 1];
      ExpandCountMissing(vs[..n - 1], ws[..n - 1], x);
      RepeatCount(vs[n - 1], ws[n - 1], x);
      assert Expand(vs, ws) == e + rep;
      assert multiset(e + rep) == multiset(e) + multiset(rep);
    }
  }

  /** When no other position holds value `vs[k]`, it occurs exactly `Copies(ws[k])` times. */
  lemma {:induction false} ExpandCountAt(vs: seq<int>, ws: seq<int>, k: nat)
    requires |vs| == |ws| && k < |vs|
    requires forall j :: 0 <= j < |vs| && j != k ==> vs[j] != vs[k]
    ensures multiset(Expand(vs, ws))[vs[k]] == Copies(ws[k])
    decreases |vs|
  {
    var n := |vs|;
    var x := vs[k];
    var fv, fw := vs[..n - 1], ws[..n - 1];
    var e, rep := Expand(fv, fw), Repeat(vs[n - 1], ws[n - 1]);
    assert Expand(vs, ws) == e + rep;
    assert multiset(e + rep) == multiset(e) + multiset(rep);
    RepeatCount(vs[n - 1], ws[n - 1], x);
    if k == n - 1 {
      assert x !in fv by {
        forall i | 0 <= i < n - 1 ensures fv[i] != x {
          assert fv[i] == vs[i];
        }
      }
      ExpandCountMissing(fv, fw, x);
    } else {
      assert vs[k] != vs[n - 1];
      assert fv[k] == x && fw[k] == ws[k];
      forall j | 0 <= j < n - 1 && j != k ensures fv[j] != fv[k] {
        assert fv[j] == vs[j];
      }
      ExpandCountAt(fv, fw, k);
    }
  }

  /** Strictly increasing values give a non-decreasing expanded list. */
  lemma {:induction false} ExpandSorted(vs: seq<int>, ws: seq<int>)
    requires |vs| == |ws|
    requires forall i, j :: 0 <= i < j < |vs| ==> vs[i] < vs[j]
    ensures forall i, j :: 0 <= i <= j < |Expand(vs, ws)| ==> Expand(vs, ws)[i] <= Expand(vs, ws)[j]
    decreases |vs|
  {
    var n := |vs|;
    if n > 0 {
      var e, rep := Expand(vs[..n - 1], ws[..n - 1]), Repeat(vs[n - 1], ws[n - 1]);
      ExpandSorted(vs[..n - 1], ws[..n - 1]);
      RepeatCount(vs[n - 1], ws[n - 1], vs[n - 1]);
      forall i | 0 <= i < |e| ensures e[i] < vs[n - 1] {
        ExpandMembers(vs[..n - 1], ws[..n - 1], e[i]);
      }
      var all := e + rep;
      assert Expand(vs, ws) == all;
      forall i, j | 0 <= i <= j < |all| ensures all[i] <= all[j] {
        if j < |e| {
          assert all[i] == e[i] && all[j] == e[j];
        } else if i < |e| {
          assert all[i] == e[i] && all[j] == rep[j - |e|];
        } else {
          assert all[i] == rep[i - |e|] && all[j] == rep[j - |e|];
        }
      }
    }
  }

  /** The penalty table holds 21 entries: the sum of the weights. */
  lemma PenaltyDistributionLength()
    ensures |PenaltyDistribution()| == WeightSum(PenaltyWeights) == 21
  {
    ExpandLength(PenaltyValues, PenaltyWeights);
    var w := PenaltyWeights;
    assert WeightSum(w[..0]) == 0;
    assert w[..1][..0] == w[..0];
    assert WeightSum(w[..1]) == 6;
    assert w[..2][..1] == w[..1];
    assert WeightSum(w[..2]) == 11;
    assert w[..3][..2] == w[..2];
    assert WeightSum(w[..3]) == 15;
    assert w[..4][..3] == w[..3];
    assert WeightSum(w[..4]) == 18;
    assert w[..5][..4] == w[..4];
    assert WeightSum(w[..5]) == 20;
    assert w[..6][..5] == w[..5];
    assert WeightSum(w[..6]) == 21;
    assert w[..6] == w;
  }

  /** Penalty v (1..6) occurs exactly PenaltyWeights[v-1] times. */
  lemma PenaltyDistributionCounts()
    ensures forall v :: 1 <= v <= 6 ==> multiset(PenaltyDistribution())[v] == PenaltyWeights[v - 1]
  {
    var vs, ws := PenaltyValues, PenaltyWeights;
    assert forall i :: 0 <= i < |vs| ==> vs[i] == i + 1 && ws[i] == 6 - i;
    forall v | 1 <= v <= 6 ensures multiset(Expand(vs, ws))[v] == ws[v - 1] {
      ExpandCountAt(vs, ws, v - 1);
      assert vs[v - 1] == v && Copies(ws[v - 1]) == ws[v - 1];
    }
  }

  /** Every penalty in the table lies in 1..6. */
  lemma PenaltyDistributionRange()
    ensures forall x :: x in PenaltyDistribution() ==> 1 <= x <= 6
  {
    forall x | x in PenaltyDistribution() ensures 1 <= x <= 6 {
      ExpandMembers(PenaltyValues, PenaltyWeights, x);
    }
  }

  /** The table lists all 1s, then all 2s, and so on up to 6. */
  lemma PenaltyDistributionSorted()
    ensures forall i, j :: 0 <= i <= j < |PenaltyDistribution()| ==> PenaltyDistribution()[i] <= PenaltyDistribution()[j]
  {
    ExpandSorted(PenaltyValues, PenaltyWeights);
  }

  /** Because the weights strictly decrease, penalty v is drawn more often than v + 1. */
  lemma HigherPenaltiesRarer(v: int)
    requires 1 <= v < 6
    ensures multiset(PenaltyDistribution())[v] > multiset(PenaltyDistribution())[v + 1]
  {
    PenaltyDistributionCounts();
    assert PenaltyWeights[v - 1] == 7 - v && PenaltyWeights[v] == 6 - v;
  }
}
