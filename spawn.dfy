/** What the spawn search of `spawn_block` (GameLoop_NEW.c, GameLoop.c)
    computes, as values: which x positions of a row are tried and in which
    order, the first collision-free one, and the block that results. */
module Spawn {
  import opened Config
  import opened Blocks
  import opened Board

  /** `GRID_WIDTH / 2 - 2`: the position that centres a 4-wide mask. */
  const PREFERRED_X: int := GRID_WIDTH / 2 - 2

  /** A position the search may try: the whole 4-wide mask inside the walls. */
  predicate XAllowed(x: int) {
    0 <= x <= GRID_WIDTH - 4
  }

  /** The block `b` placed with its mask origin at (x, y). */
  function At(b: Block, x: int, y: int): Block {
    b.(x := x, y := y)
  }

  /** Position `x` of row `y` is inside the walls and `b` does not collide
      there. */
  predicate FreeAt(g: Cells, b: Block, x: int, y: int)
    requires IsBoard(g) && IsShape(b.shape)
  {
    XAllowed(x) && !Collides(g, At(b, x, y))
  }

  /** The offset at which the search reaches `x`: its distance from the
      centre. */
  function Dist(x: int): nat {
    if x < PREFERRED_X then PREFERRED_X - x else x - PREFERRED_X
  }

  /** `x` is tried before `z`: it is nearer the centre, or as near and to the
      left (for each offset the left position comes first). */
  predicate Before(x: int, z: int) {
    Dist(x) < Dist(z) || (Dist(x) == Dist(z) && x < z)
  }

  /** The search of row `y` from offset `k` on, as the loop of spawn_block
      performs it: offset 0 checks the centre (with no bounds test); offset
      `k > 0` checks `PREFERRED_X - k`, then `PREFERRED_X + k`, each only
      when inside the walls; the loop stops after offset `GRID_WIDTH`. The
      result is the x found, if any. */
  function RowSearch(g: Cells, b: Block, y: int, k: nat): Option<int>
    requires IsBoard(g) && IsShape(b.shape)
    decreases GRID_WIDTH + 1 - k
  {
    if k > GRID_WIDTH then None
    else if k == 0 then
      if !Collides(g, At(b, PREFERRED_X, y)) then Some(PREFERRED_X) else RowSearch(g, b, y, 1)
    else if FreeAt(g, b, PREFERRED_X - k, y) then Some(PREFERRED_X - k)
    else if FreeAt(g, b, PREFERRED_X + k, y) then Some(PREFERRED_X + k)
    else RowSearch(g, b, y, k + 1)
  }

  /** The positions at offset `k` from the centre: the centre itself for
      offset 0, otherwise the one to its left and the one to its right. */
  lemma DistCases(x: int, k: nat)
    requires Dist(x) == k
    ensures k == 0 ==> x == PREFERRED_X
    ensures k > 0 ==> x == PREFERRED_X - k || x == PREFERRED_X + k
  {
  }

  /** Nothing at least `k` from the centre is tried before the first
      position of offset `k`: the centre, or the left one. */
  lemma FirstOfOffset(v: int, k: nat)
    requires Dist(v) == k && (k == 0 || v == PREFERRED_X - k)
    ensures forall x :: Dist(x) >= k ==> !Before(x, v)
  {
    forall x | Dist(x) >= k && Dist(x) == k
      ensures x >= v
    {
      DistCases(x, k);
    }
  }

  /** Only the left position of offset `k` is tried before the right one,
      among the positions at least `k` from the centre. */
  lemma SecondOfOffset(k: nat)
    requires k > 0
    ensures forall x :: Dist(x) >= k && Before(x, PREFERRED_X + k) ==> x == PREFERRED_X - k
  {
    forall x | Dist(x) >= k && Before(x, PREFERRED_X + k)
      ensures x == PREFERRED_X - k
    {
      DistCases(x, k);
    }
  }

  /** The search passes offset `k` without a result exactly when every
      allowed position of that offset collides. */
  lemma OffsetCollides(g: Cells, b: Block, y: int, k: nat)
    requires IsBoard(g) && IsShape(b.shape)
    requires k == 0 ==> Collides(g, At(b, PREFERRED_X, y))
    requires k > 0 ==> !FreeAt(g, b, PREFERRED_X - k, y) && !FreeAt(g, b, PREFERRED_X + k, y)
    ensures forall x :: XAllowed(x) && Dist(x) == k ==> Collides(g, At(b, x, y))
  {
    forall x | XAllowed(x) && Dist(x) == k
      ensures Collides(g, At(b, x, y))
    {
      DistCases(x, k);
    }
  }

  /** What the search from offset `k` finds: a free position at least `k`
      from the centre, before which every allowed position at least `k` from
      the centre collides. */
  lemma {:induction false} RowSearchFound(g: Cells, b: Block, y: int, k: nat)
    requires IsBoard(g) && IsShape(b.shape)
    ensures var r := RowSearch(g, b, y, k);
      r.Some? ==>
        && FreeAt(g, b, r.value, y) && Dist(r.value) >= k
        && forall x :: XAllowed(x) && Dist(x) >= k && Before(x, r.value) ==> Collides(g, At(b, x, y))
    decreases GRID_WIDTH + 1 - k
  {
    if k <= GRID_WIDTH {
      if k == 0 && !Collides(g, At(b, PREFERRED_X, y)) {
        FirstOfOffset(PREFERRED_X, 0);
      } else if k > 0 && FreeAt(g, b, PREFERRED_X - k, y) {
        FirstOfOffset(PREFERRED_X - k, k);
      } else if k > 0 && FreeAt(g, b, PREFERRED_X + k, y) {
        SecondOfOffset(k);
      } else {
        var r := RowSearch(g, b, y, k + 1);
        assert RowSearch(g, b, y, k) == r;
        RowSearchFound(g, b, y, k + 1);
        if r.Some? {
          OffsetCollides(g, b, y, k);
          assert Dist(r.value) > k;
        }
      }
    }
  }

  /** The search from offset `k` finds nothing exactly when every allowed
      position at least `k` from the centre collides. */
  lemma {:induction false} RowSearchNone(g: Cells, b: Block, y: int, k: nat)
    requires IsBoard(g) && IsShape(b.shape)
    ensures RowSearch(g, b, y, k).None? <==>
      forall x :: XAllowed(x) && Dist(x) >= k ==> Collides(g, At(b, x, y))
    decreases GRID_WIDTH + 1 - k
  {
    if k <= GRID_WIDTH {
      RowSearchNone(g, b, y, k + 1);
      if RowSearch(g, b, y, k).None? {
        OffsetCollides(g, b, y, k);
      } else {
        RowSearchFound(g, b, y, k);
      }
    }
  }

  /** Both halves of what the search from offset `k` computes. */
  lemma RowSearchSpec(g: Cells, b: Block, y: int, k: nat)
    requires IsBoard(g) && IsShape(b.shape)
    ensures var r := RowSearch(g, b, y, k);
      && (r.Some? ==>
        && FreeAt(g, b, r.value, y) && Dist(r.value) >= k
        && forall x :: XAllowed(x) && Dist(x) >= k && Before(x, r.value) ==> Collides(g, At(b, x, y)))
      && (r.None? <==> forall x :: XAllowed(x) && Dist(x) >= k ==> Collides(g, At(b, x, y)))
  {
    RowSearchFound(g, b, y, k);
    RowSearchNone(g, b, y, k);
  }

  /** The search depends on the block's mask and colour only, not on where it
      was before the search moved it. */
  lemma {:induction false} RowSearchIgnoresAnchor(g: Cells, a: Block, b: Block, y: int, k: nat)
    requires IsBoard(g) && IsShape(a.shape) && a.shape == b.shape && a.color == b.color
    ensures RowSearch(g, a, y, k) == RowSearch(g, b, y, k)
    decreases GRID_WIDTH + 1 - k
  {
    if k <= GRID_WIDTH {
      RowSearchIgnoresAnchor(g, a, b, y, k + 1);
      assert At(a, PREFERRED_X - k, y) == At(b, PREFERRED_X - k, y);
      assert At(a, PREFERRED_X + k, y) == At(b, PREFERRED_X + k, y);
    }
  }

  /** The outcome of `spawn_block` for type `t` on board `g`: rotation 0 of
      the type at the position the search of row 0 finds, else at the one the
      search of row -1 finds, else nothing (game over). */
  function SpawnResult(g: Cells, t: int): Option<Block>
    requires IsBoard(g) && IsBlockType(t)
  {
    var b := TableEntry(t, 0);
    match RowSearch(g, b, 0, 0)
    case Some(x) => Some(At(b, x, 0))
    case None =>
      match RowSearch(g, b, -1, 0)
      case Some(x) => Some(At(b, x, -1))
      case None => None
  }

  /** A spawned block is rotation 0 of its type, coloured with the type,
      placed inside the walls on row 0 or -1, and does not collide; every
      position tried before it collides, row 0 being searched in full before
      row -1. Nothing is spawned exactly when no position of either row is
      free. */
  lemma SpawnResultSpec(g: Cells, t: int)
    requires IsBoard(g) && IsBlockType(t)
    ensures var r, b := SpawnResult(g, t), TableEntry(t, 0);
      && (r.Some? ==>
        && r.value.shape == b.shape && r.value.color == t
        && XAllowed(r.value.x) && (r.value.y == 0 || r.value.y == -1)
        && !Collides(g, r.value)
        && forall x :: XAllowed(x) && Before(x, r.value.x) ==> Collides(g, At(b, x, r.value.y)))
      && (r.Some? && r.value.y == -1 ==>
        forall x :: XAllowed(x) ==> Collides(g, At(b, x, 0)))
      && (r.None? <==>
        forall x, y :: XAllowed(x) && (y == 0 || y == -1) ==> Collides(g, At(b, x, y)))
  {
    var b := TableEntry(t, 0);
    RowSearchSpec(g, b, 0, 0);
    RowSearchSpec(g, b, -1, 0);
  }

  /** On the empty board every type spawns at the centre of row 0. */
  lemma SpawnOnEmptyBoard(t: int)
    requires IsBlockType(t)
    ensures SpawnResult(EmptyBoard(), t) == Some(At(TableEntry(t, 0), PREFERRED_X, 0))
  {
    EmptyBoardNoCollision(At(TableEntry(t, 0), PREFERRED_X, 0));
  }
}
