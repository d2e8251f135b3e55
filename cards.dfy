/** Cards and decks: the immutable values every other part of the game moves around. */
module Cards {

  datatype Option<T> = None | Some(value: T)

  /** A card: its face value and the penalty it costs whoever collects it. */
  datatype Card = Card(value: int, penalty: int)

  /** The highest face value: a deck holds the values 1..MaxCardValue. */
  const MaxCardValue: nat := 110

  /** The face value of a card, as a function value for `DistinctBy`. */
  function ValueOf(c: Card): int { c.value }

  /** The identity on integers, for `DistinctBy` over plain numbers. */
  function Id(x: int): int { x }

  /** The summed penalty of `cards`: what a player pays for taking them over. */
  function PenaltySum(cards: seq<Card>): int
  {
    if cards == [] then 0 else PenaltySum(cards[..|cards| - 1]) + cards[|cards| - 1].penalty
  }

  /** The penalty of cards collected in two lots is the sum of the two lots' penalties. */
  lemma {:induction false} PenaltySumAppend(a: seq<Card>, b: seq<Card>)
    ensures PenaltySum(a + b) == PenaltySum(a) + PenaltySum(b)
    decreases |b|
  {
    if b != [] {
      var n := |b| - 1;
      var ab := a + b;
      assert ab[..|ab| - 1] == a + b[..n];
      assert ab[|ab| - 1] == b[n];
      PenaltySumAppend(a, b[..n]);
      calc {
        PenaltySum(ab);
        PenaltySum(ab[..|ab| - 1]) + ab[|ab| - 1].penalty;
        PenaltySum(a + b[..n]) + b[n].penalty;
        PenaltySum(a) + PenaltySum(b[..n]) + b[n].penalty;
        PenaltySum(a) + PenaltySum(b);
      }
    } else {
      assert a + b == a;
    }
  }

  /** With penalties in 1..6, taking `cards` costs between one and six points per card. */
  lemma {:induction false} PenaltySumBounds(cards: seq<Card>)
    requires forall i :: 0 <= i < |cards| ==> 1 <= cards[i].penalty <= 6
    ensures |cards| <= PenaltySum(cards) <= 6 * |cards|
  {
    if cards != [] {
      PenaltySumBounds(cards[..|cards| - 1]);
    }
  }

  /** The value of the last card, or None when there is no card (a row's `last_card_value`). */
  function LastValue(cards: seq<Card>): (r: Option<int>)
    ensures r.None? <==> cards == []
    ensures r.Some? ==> r.value == cards[|cards| - 1].value
  {
    if cards == [] then None else Some(cards[|cards| - 1].value)
  }

  /** `cards.remove(c)` guarded by `c in cards`: the first occurrence goes, a missing card is ignored. */
  function RemoveFirst<T(==)>(s: seq<T>, c: T): seq<T>
  {
    if s == [] then []
    else if s[0] == c then s[1..]
    else [s[0]] + RemoveFirst(s[1..], c)
  }

  /** The position of the first occurrence of `c` in `s`. */
  function FirstIndex<T(==)>(s: seq<T>, c: T): (i: nat)
    requires c in s
    ensures i < |s| && s[i] == c && c !in s[..i]
  {
    if s[0] == c then 0
    else
      var j := FirstIndex(s[1..], c);
      assert s[..j + 1] == [s[0]] + s[1..][..j];
      j + 1
  }

  /** RemoveFirst cuts out exactly the first occurrence, so the other elements keep their order. */
  lemma RemoveFirstCutsFirst<T>(s: seq<T>, c: T)
    requires c in s
    ensures RemoveFirst(s, c) == s[..FirstIndex(s, c)] + s[FirstIndex(s, c) + 1..]
  {
    RemoveFirstAt(s, c, FirstIndex(s, c));
  }

  /** With position `i` the first holding `c`, RemoveFirst cuts out position `i`. */
  lemma {:induction false} RemoveFirstAt<T>(s: seq<T>, c: T, i: nat)
    requires i < |s| && s[i] == c
    requires forall k :: 0 <= k < i ==> s[k] != c
    ensures RemoveFirst(s, c) == s[..i] + s[i + 1..]
    decreases i
  {
    if i > 0 {
      var t := s[1..];
      assert s[0] != c;
      assert t[i - 1] == c;
      assert forall k :: 0 <= k < i - 1 ==> t[k] == s[k + 1];
      RemoveFirstAt(t, c, i - 1);
      assert s[..i] == [s[0]] + t[..i - 1];
      assert s[i + 1..] == t[i..];
    }
  }

  /** Removing a present card shortens the sequence by one and takes one copy out of its multiset. */
  lemma {:induction false} RemoveFirstCount<T>(s: seq<T>, c: T)
    ensures c in s ==> |RemoveFirst(s, c)| == |s| - 1
    ensures c in s ==> multiset(RemoveFirst(s, c)) == multiset(s) - multiset{c}
    ensures c !in s ==> RemoveFirst(s, c) == s
    decreases |s|
  {
    if s != [] {
      var t := s[1..];
      assert s == [s[0]] + t;
      assert multiset(s) == multiset{s[0]} + multiset(t);
      if s[0] != c {
        RemoveFirstCount(t, c);
        assert c in s <==> c in t;
      }
    }
  }

  /** The first of the positions 0..n-1 that `hit` accepts: a click tested against boxes in order. */
  function FirstHit(hit: int -> bool, n: nat): (r: Option<nat>)
    ensures r.Some? ==> r.value < n && hit(r.value) && forall j :: 0 <= j < r.value ==> !hit(j)
    ensures r.None? <==> forall j :: 0 <= j < n ==> !hit(j)
    decreases n
  {
    if n == 0 then None
    else
      var p := FirstHit(hit, n - 1);
      if p.Some? then p else if hit(n - 1) then Some(n - 1) else None
  }

  /** No two positions of `s` carry the same key. */
  ghost predicate DistinctBy<T>(s: seq<T>, key: T -> int)
  {
    forall i, j :: 0 <= i < j < |s| ==> key(s[i]) != key(s[j])
  }

  lemma {:induction false} DistinctByAtMostOnce<T>(s: seq<T>, key: T -> int, x: T)
    requires DistinctBy(s, key)
    ensures multiset(s)[x] <= 1
  {
    if s != [] {
      var n := |s| - 1;
      assert s == s[..n] + [s[n]];
      DistinctByAtMostOnce(s[..n], key, x);
      forall j | 0 <= j < n ensures s[..n][j] != s[n] {
        assert key(s[j]) != key(s[n]);
      }
      assert s[n] !in s[..n];
    }
  }

  lemma TwoPositionsTwice<T>(s: seq<T>, i: int, j: int)
    requires 0 <= i < j < |s|
    ensures s[i] == s[j] ==> multiset(s)[s[i]] >= 2
  {
    assert s == s[..i] + [s[i]] + s[i + 1..j] + [s[j]] + s[j + 1..];
  }

  /** A rearrangement of a sequence whose keys are distinct has distinct keys. */
  lemma PermutationKeepsDistinct<T>(a: seq<T>, b: seq<T>, key: T -> int)
    requires multiset(a) == multiset(b)
    requires DistinctBy(b, key)
    ensures DistinctBy(a, key)
  {
    forall i, j | 0 <= i < j < |a| ensures key(a[i]) != key(a[j]) {
      TwoPositionsTwice(a, i, j);
      DistinctByAtMostOnce(b, key, a[i]);
      assert a[i] != a[j];
      assert a[i] in multiset(b) && a[j] in multiset(b);
      var p :| 0 <= p < |b| && b[p] == a[i];
      var q :| 0 <= q < |b| && b[q] == a[j];
      assert p != q;
      if p < q { assert key(b[p]) != key(b[q]); } else { assert key(b[q]) != key(b[p]); }
    }
  }

  /** A freshly generated deck: value i+1 at position i, every penalty in 1..6. */
  ghost predicate IsOrderedDeck(d: seq<Card>)
  {
    |d| == MaxCardValue &&
    forall i :: 0 <= i < |d| ==> d[i].value == i + 1 && 1 <= d[i].penalty <= 6
  }

  /** A shuffled deck: 110 cards, values in 1..110 and pairwise distinct, penalties in 1..6. */
  ghost predicate IsShuffledDeck(d: seq<Card>)
  {
    && |d| == MaxCardValue
    && DistinctBy(d, ValueOf)
    && forall i :: 0 <= i < |d| ==> 1 <= d[i].value <= MaxCardValue && 1 <= d[i].penalty <= 6
  }

  /** Any permutation of a freshly generated deck is a shuffled deck. */
  lemma ShuffledOrderedDeck(a: seq<Card>, b: seq<Card>)
    requires IsOrderedDeck(b)
    requires multiset(a) == multiset(b)
    ensures IsShuffledDeck(a)
  {
    assert |a| == |multiset(a)| == |multiset(b)| == |b|;
    assert DistinctBy(b, ValueOf) by {
      forall i, j | 0 <= i < j < |b| ensures ValueOf(b[i]) != ValueOf(b[j]) { }
    }
    PermutationKeepsDistinct(a, b, ValueOf);
    forall i | 0 <= i < |a| ensures 1 <= a[i].value <= MaxCardValue && 1 <= a[i].penalty <= 6 {
      assert a[i] in multiset(b);
      var p :| 0 <= p < |b| && b[p] == a[i];
    }
  }
}
