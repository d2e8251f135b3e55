/** Where the clicks land: the boxes of the hand cards and of the rows on the 1200 x 800 screen. */
module Screen {
  import opened Cards

  const Width: int := 1200
  const Height: int := 800
  const CardWidth: int := 70
  const CardHeight: int := 100

  /** `pygame.Rect(x, y, w, h).collidepoint(px, py)`: the left and top edges are inside, the right and bottom ones are not. */
  predicate Collide(x: int, y: int, w: int, h: int, px: int, py: int)
  {
    x <= px < x + w && y <= py < y + h
  }

  /** The point lies on the human's hand card `i`, drawn along the bottom edge. */
  predicate OnHandCard(i: int, px: int, py: int)
  {
    Collide(50 + i * (CardWidth + 5), Height - CardHeight - 50, CardWidth, CardHeight, px, py)
  }

  /** The point lies on row `i`, drawn as a tall box across the middle of the screen. */
  predicate OnRow(i: int, px: int, py: int)
  {
    Collide(Width / 2 - 2 * (CardWidth + 20) + i * (CardWidth + 100), Height / 2 - 2 * (CardHeight + 10),
            CardWidth + 40, CardHeight + 150, px, py)
  }

  /** The first of `n` hand cards under the point, as the click loop finds it. */
  function HandCardAt(px: int, py: int, n: nat): Option<nat>
  {
    FirstHit(i => OnHandCard(i, px, py), n)
  }

  /** The first of `n` rows under the point, as the click loop finds it. */
  function RowAt(px: int, py: int, n: nat): Option<nat>
  {
    FirstHit(i => OnRow(i, px, py), n)
  }

  /**
   * The hand cards sit 75 pixels apart and are 70 wide, so they never overlap: the card under a
   * point is read off its coordinates, and a point in a 5-pixel gap hits nothing.
   */
  lemma HandCardAtArithmetic(px: int, py: int, n: nat)
    ensures HandCardAt(px, py, n) ==
      if 650 <= py < 750 && 50 <= px && (px - 50) % 75 < 70 && (px - 50) / 75 < n
      then Some((px - 50) / 75) else None
  {
    var q := (px - 50) / 75;
    var r := HandCardAt(px, py, n);
    forall i | OnHandCard(i, px, py) ensures i == q && (px - 50) % 75 < 70 {
    }
    var hit := i => OnHandCard(i, px, py);
    assert r == FirstHit(hit, n);
    assert r.Some? ==> OnHandCard(r.value, px, py);
    if 650 <= py < 750 && 50 <= px && (px - 50) % 75 < 70 && q < n {
      assert hit(q);
    }
  }

  /** The rows sit 170 pixels apart and are 110 wide: the row under a point is read off its coordinates. */
  lemma RowAtArithmetic(px: int, py: int, n: nat)
    ensures RowAt(px, py, n) ==
      if 180 <= py < 430 && 420 <= px && (px - 420) % 170 < 110 && (px - 420) / 170 < n
      then Some((px - 420) / 170) else None
  {
    var q := (px - 420) / 170;
    var r := RowAt(px, py, n);
    forall i | OnRow(i, px, py) ensures i == q && (px - 420) % 170 < 110 {
    }
    var hit := i => OnRow(i, px, py);
    assert r == FirstHit(hit, n);
    assert r.Some? ==> OnRow(r.value, px, py);
    if 180 <= py < 430 && 420 <= px && (px - 420) % 170 < 110 && q < n {
      assert hit(q);
    }
  }

  /** The click loop over the hand cards: the first card box that holds the point, if any. */
  method HandCardUnder(px: int, py: int, n: nat) returns (slot: Option<nat>)
    ensures slot == HandCardAt(px, py, n)
    ensures slot.Some? ==> slot.value < n && OnHandCard(slot.value, px, py)
  {
    var i := 0;
    while i < n
      invariant 0 <= i <= n
      invariant HandCardAt(px, py, i).None?
    {
      if OnHandCard(i, px, py) {
        HandCardAtArithmetic(px, py, n);
        return Some(i);
      }
      i := i + 1;
    }
    return None;
  }

  /** The click loop over the rows: the first row box that holds the point, if any. */
  method RowUnder(px: int, py: int, n: nat) returns (slot: Option<nat>)
    ensures slot == RowAt(px, py, n)
    ensures slot.Some? ==> slot.value < n && OnRow(slot.value, px, py)
  {
    var i := 0;
    while i < n
      invariant 0 <= i <= n
      invariant RowAt(px, py, i).None?
    {
      if OnRow(i, px, py) {
        RowAtArithmetic(px, py, n);
        return Some(i);
      }
      i := i + 1;
    }
    return None;
  }
}
