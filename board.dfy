/** The playing field as a value (Grid.c): `GRID_HEIGHT` rows of `GRID_WIDTH`
    `uint8_t` cells, row 0 at the top; 0 is empty, `color + 1` is a locked cell
    of that colour. This module defines what the grid operations compute; the
    class in module Grid performs them in place on an array and is proved to
    agree with these functions. */
module Board {
  import opened Config
  import opened Blocks

  type Cells = seq<seq<int>>

  predicate IsBoard(g: Cells) {
    |g| == GRID_HEIGHT &&
    forall y :: 0 <= y < GRID_HEIGHT ==>
      |g[y]| == GRID_WIDTH && forall x :: 0 <= x < GRID_WIDTH ==> 0 <= g[y][x] < U8
  }

  predicate InBounds(y: int, x: int) {
    0 <= y < GRID_HEIGHT && 0 <= x < GRID_WIDTH
  }

  /** Every cell holds at most `bound` (used with `NUM_BLOCKS`: a colour index + 1). */
  ghost predicate CellsAtMost(g: Cells, bound: int)
    requires IsBoard(g)
  {
    forall y, x :: InBounds(y, x) ==> g[y][x] <= bound
  }

  function Zeros(n: nat): (z: seq<int>)
    ensures |z| == n && forall i :: 0 <= i < n ==> z[i] == 0
  {
    seq(n, _ => 0)
  }

  /** The board after grid_init. */
  function EmptyBoard(): (g: Cells)
    ensures IsBoard(g)
    ensures forall y, x :: InBounds(y, x) ==> g[y][x] == 0
  {
    seq(GRID_HEIGHT, _ => Zeros(GRID_WIDTH))
  }

  // ---------------------------------------------------------------------------
  // Collision

  /** Mask cell (r, c) of `b` is occupied and lands on the floor or below it,
      outside the side walls, or on a locked cell of a visible row. A cell above
      the top row (negative board row) inside the walls is spawn overhang and
      never collides. */
  predicate CellCollides(g: Cells, b: Block, r: int, c: int)
    requires IsBoard(g) && IsShape(b.shape) && 0 <= r < 4 && 0 <= c < 4
  {
    var gx := b.x + c;
    var gy := b.y + r;
    b.shape[r][c] &&
    (gy >= GRID_HEIGHT || gx < 0 || gx >= GRID_WIDTH || (gy >= 0 && g[gy][gx] != 0))
  }

  /** grid_check_collision: some occupied mask cell collides. */
  predicate Collides(g: Cells, b: Block)
    requires IsBoard(g) && IsShape(b.shape)
  {
    exists r, c :: 0 <= r < 4 && 0 <= c < 4 && CellCollides(g, b, r, c)
  }

  /** Empty mask cells never matter: two blocks at the same anchor whose masks
      agree on the occupied cells collide alike. */
  lemma CollidesOnlyThroughOccupied(g: Cells, a: Block, b: Block)
    requires IsBoard(g) && IsShape(a.shape) && IsShape(b.shape)
    requires a.x == b.x && a.y == b.y
    requires forall r, c :: 0 <= r < 4 && 0 <= c < 4 ==> a.shape[r][c] == b.shape[r][c]
    ensures Collides(g, a) <==> Collides(g, b)
  {
    if Collides(g, a) {
      var r, c :| 0 <= r < 4 && 0 <= c < 4 && CellCollides(g, a, r, c);
      assert CellCollides(g, b, r, c);
    }
    if Collides(g, b) {
      var r, c :| 0 <= r < 4 && 0 <= c < 4 && CellCollides(g, b, r, c);
      assert CellCollides(g, a, r, c);
    }
  }

  /** A block whose 4x4 frame lies inside the board never collides with an
      empty board: every piece fits at the spawn row of a fresh game. */
  lemma EmptyBoardNoCollision(b: Block)
    requires IsShape(b.shape)
    requires 0 <= b.x <= GRID_WIDTH - 4 && 0 <= b.y <= GRID_HEIGHT - 4
    ensures !Collides(EmptyBoard(), b)
  {
    forall r, c | 0 <= r < 4 && 0 <= c < 4
      ensures !CellCollides(EmptyBoard(), b, r, c)
    {
      assert EmptyBoard()[b.y + r][b.x + c] == 0;
    }
  }

  /** A visible occupied cell whose board cell is non-empty makes the block
      collide, even when the rest of the block hangs above the board. */
  lemma OccupiedCellCollides(g: Cells, b: Block, r: int, c: int)
    requires IsBoard(g) && IsShape(b.shape) && 0 <= r < 4 && 0 <= c < 4
    requires b.shape[r][c] && InBounds(b.y + r, b.x + c) && g[b.y + r][b.x + c] != 0
    ensures Collides(g, b)
  {
    assert CellCollides(g, b, r, c);
  }

  // ---------------------------------------------------------------------------
  // Fixing a landed block

  /** Board cell (y, x) lies under an occupied cell of the block's mask. */
  predicate Covers(b: Block, y: int, x: int)
    requires IsShape(b.shape)
  {
    b.y <= y < b.y + 4 && b.x <= x < b.x + 4 && b.shape[y - b.y][x - b.x]
  }

  /** The cell value grid_fix_block stores: `color + 1` in `uint8_t`. */
  function FixValue(b: Block): int {
    (b.color + 1) % U8
  }

  /** The cell writes of grid_fix_block: every visible cell under an occupied
      mask cell gets `color + 1`; mask cells outside the board are dropped. */
  function Fixed(g: Cells, b: Block): (f: Cells)
    requires IsBoard(g) && IsShape(b.shape)
    ensures IsBoard(f)
  {
    seq(GRID_HEIGHT, y requires 0 <= y < GRID_HEIGHT =>
      seq(GRID_WIDTH, x requires 0 <= x < GRID_WIDTH =>
        if Covers(b, y, x) then FixValue(b) else g[y][x]))
  }

  /** Fixing never empties a cell and marks every visible cell of the block
      (for any colour below 255, whose `color + 1` does not wrap to 0). */
  lemma FixedMarksBlock(g: Cells, b: Block)
    requires IsBoard(g) && IsShape(b.shape) && 0 <= b.color < U8 - 1
    ensures forall y, x :: InBounds(y, x) && g[y][x] != 0 ==> Fixed(g, b)[y][x] != 0
    ensures forall y, x :: InBounds(y, x) && Covers(b, y, x) ==> Fixed(g, b)[y][x] == b.color + 1
    ensures forall y, x :: InBounds(y, x) && !Covers(b, y, x) ==> Fixed(g, b)[y][x] == g[y][x]
  {
  }

  /** Once fixed, a block with a visible cell collides with the board at its
      own position: it can no longer be the falling piece. */
  lemma FixedBlockCollides(g: Cells, b: Block, r: int, c: int)
    requires IsBoard(g) && IsShape(b.shape) && 0 <= b.color < U8 - 1
    requires 0 <= r < 4 && 0 <= c < 4 && b.shape[r][c] && InBounds(b.y + r, b.x + c)
    ensures Collides(Fixed(g, b), b)
  {
    assert Covers(b, b.y + r, b.x + c);
    OccupiedCellCollides(Fixed(g, b), b, r, c);
  }

  /** Fixing a block whose `color + 1` is within `bound` keeps every cell
      within `bound`. */
  lemma FixedBounded(g: Cells, b: Block, bound: int)
    requires IsBoard(g) && IsShape(b.shape) && CellsAtMost(g, bound)
    requires 0 <= b.color && b.color + 1 <= bound < U8
    ensures CellsAtMost(Fixed(g, b), bound)
  {
  }

  /** On a board whose cells are at most `NUM_BLOCKS`, every locked cell
      holds the colour identifier of a block type plus one. */
  lemma LockedColoursInRange(g: Cells)
    requires IsBoard(g) && CellsAtMost(g, NUM_BLOCKS)
    ensures forall y, x :: InBounds(y, x) && g[y][x] != 0 ==> IsBlockType(g[y][x] - 1)
  {
  }

  // ---------------------------------------------------------------------------
  // Full rows

  predicate IsFullRow(g: Cells, y: int)
    requires IsBoard(g) && 0 <= y < GRID_HEIGHT
  {
    forall x :: 0 <= x < GRID_WIDTH ==> g[y][x] != 0
  }

  /** The full rows among rows 0 .. n-1, top to bottom: what the first pass of
      grid_clear_full_rows collects into `remove_rows`. */
  function FullRowsBelow(g: Cells, n: int): (rows: seq<int>)
    requires IsBoard(g) && 0 <= n <= GRID_HEIGHT
    ensures |rows| <= n
  {
    if n == 0 then []
    else FullRowsBelow(g, n - 1) + (if IsFullRow(g, n - 1) then [n - 1] else [])
  }

  function FullRows(g: Cells): seq<int>
    requires IsBoard(g)
  {
    FullRowsBelow(g, GRID_HEIGHT)
  }

  /** A row is collected iff it is full; rows are collected in increasing order. */
  lemma {:induction false} FullRowsBelowSpec(g: Cells, n: int)
    requires IsBoard(g) && 0 <= n <= GRID_HEIGHT
    ensures forall y :: y in FullRowsBelow(g, n) <==> 0 <= y < n && IsFullRow(g, y)
    ensures forall i, j :: 0 <= i < j < |FullRowsBelow(g, n)| ==> FullRowsBelow(g, n)[i] < FullRowsBelow(g, n)[j]
  {
    if n > 0 {
      FullRowsBelowSpec(g, n - 1);
      var prev := FullRowsBelow(g, n - 1);
      forall i | 0 <= i < |prev|
        ensures prev[i] < n - 1
      {
        assert prev[i] in prev;
      }
    }
  }

  lemma FullRowsSpec(g: Cells)
    requires IsBoard(g)
    ensures forall y :: y in FullRows(g) <==> 0 <= y < GRID_HEIGHT && IsFullRow(g, y)
    ensures forall i, j :: 0 <= i < j < |FullRows(g)| ==> FullRows(g)[i] < FullRows(g)[j]
    ensures |FullRows(g)| <= GRID_HEIGHT
  {
    FullRowsBelowSpec(g, GRID_HEIGHT);
  }

  // ---------------------------------------------------------------------------
  // Clearing: zero the full rows, then pack every column downward

  /** Step 1 of the removal: every listed row becomes empty. */
  function ZeroRows(g: Cells, rows: seq<int>): (z: Cells)
    requires IsBoard(g)
    ensures IsBoard(z)
    ensures forall y, x :: InBounds(y, x) ==> z[y][x] == if y in rows then 0 else g[y][x]
  {
    seq(GRID_HEIGHT, y requires 0 <= y < GRID_HEIGHT =>
      if y in rows then Zeros(GRID_WIDTH) else g[y])
  }

  /** Column x, top to bottom. */
  function Column(g: Cells, x: int): (col: seq<int>)
    requires IsBoard(g) && 0 <= x < GRID_WIDTH
    ensures |col| == GRID_HEIGHT && forall y :: 0 <= y < GRID_HEIGHT ==> col[y] == g[y][x]
  {
    seq(GRID_HEIGHT, y requires 0 <= y < GRID_HEIGHT => g[y][x])
  }

  /** The non-zero values of a sequence, in their order. */
  function NonZero(s: seq<int>): (t: seq<int>)
    ensures |t| <= |s|
  {
    if s == [] then []
    else (if s[0] != 0 then [s[0]] else []) + NonZero(s[1..])
  }

  /** A column packed against the bottom: its non-zero values in order, zeros above. */
  function Packed(col: seq<int>): (p: seq<int>)
    ensures |p| == |col|
  {
    Zeros(|col| - |NonZero(col)|) + NonZero(col)
  }

  predicate ByteValues(s: seq<int>) {
    forall i :: 0 <= i < |s| ==> 0 <= s[i] < U8
  }

  lemma PackedByteValues()
    ensures forall col {:trigger Packed(col)} :: ByteValues(col) ==> ByteValues(Packed(col))
  {
    forall col | ByteValues(col)
      ensures ByteValues(Packed(col))
    {
      NonZeroValues(col);
    }
  }

  /** Step 2 of the removal: gravity applied to every column independently. */
  function Compacted(g: Cells): (c: Cells)
    requires IsBoard(g)
    ensures IsBoard(c)
  {
    PackedByteValues();
    seq(GRID_HEIGHT, y requires 0 <= y < GRID_HEIGHT =>
      seq(GRID_WIDTH, x requires 0 <= x < GRID_WIDTH => Packed(Column(g, x))[y]))
  }

  /** The board grid_clear_full_rows leaves: unchanged when no row is full,
      otherwise the full rows zeroed and every column packed. */
  function ClearedBoard(g: Cells): (c: Cells)
    requires IsBoard(g)
    ensures IsBoard(c)
  {
    if |FullRows(g)| == 0 then g else Compacted(ZeroRows(g, FullRows(g)))
  }

  /** The values of column x in the rows below n that are not full, top to bottom. */
  function KeptColumn(g: Cells, x: int, n: int): seq<int>
    requires IsBoard(g) && 0 <= x < GRID_WIDTH && 0 <= n <= GRID_HEIGHT
  {
    if n == 0 then []
    else KeptColumn(g, x, n - 1) + (if IsFullRow(g, n - 1) then [] else [g[n - 1][x]])
  }

  lemma {:induction false} NonZeroConcat(a: seq<int>, b: seq<int>)
    ensures NonZero(a + b) == NonZero(a) + NonZero(b)
  {
    if a == [] {
      assert a + b == b;
    } else {
      assert (a + b)[0] == a[0];
      assert (a + b)[1..] == a[1..] + b;
      NonZeroConcat(a[1..], b);
    }
  }

  lemma {:induction false} NonZeroValues(s: seq<int>)
    ensures forall i :: 0 <= i < |NonZero(s)| ==> NonZero(s)[i] != 0 && NonZero(s)[i] in s
  {
    if s != [] {
      NonZeroValues(s[1..]);
    }
  }

  lemma {:induction false} NonZeroOfZeros(n: nat)
    ensures NonZero(Zeros(n)) == []
  {
    if n > 0 {
      assert Zeros(n)[1..] == Zeros(n - 1);
      NonZeroOfZeros(n - 1);
    }
  }

  lemma {:induction false} NonZeroIdempotent(s: seq<int>)
    ensures NonZero(NonZero(s)) == NonZero(s)
  {
    if s != [] {
      NonZeroIdempotent(s[1..]);
      var h := if s[0] != 0 then [s[0]] else [];
      NonZeroConcat(h, NonZero(s[1..]));
      if s[0] != 0 {
        assert NonZero(h) == [s[0]] by {
          assert h[1..] == [];
        }
      }
    }
  }

  /** Packing keeps the non-zero values of the column and their order. */
  lemma PackedNonZero(col: seq<int>)
    ensures NonZero(Packed(col)) == NonZero(col)
  {
    NonZeroConcat(Zeros(|col| - |NonZero(col)|), NonZero(col));
    NonZeroOfZeros(|col| - |NonZero(col)|);
    NonZeroIdempotent(col);
  }

  lemma CompactedColumn(g: Cells, x: int)
    requires IsBoard(g) && 0 <= x < GRID_WIDTH
    ensures Column(Compacted(g), x) == Packed(Column(g, x))
  {
  }

  lemma {:induction false} ZeroedColumnPrefix(g: Cells, x: int, n: int)
    requires IsBoard(g) && 0 <= x < GRID_WIDTH && 0 <= n <= GRID_HEIGHT
    ensures NonZero(Column(ZeroRows(g, FullRows(g)), x)[..n]) == NonZero(KeptColumn(g, x, n))
  {
    if n > 0 {
      var z := ZeroRows(g, FullRows(g));
      var col := Column(z, x);
      ZeroedColumnPrefix(g, x, n - 1);
      assert col[..n] == col[..n - 1] + [z[n - 1][x]];
      NonZeroConcat(col[..n - 1], [z[n - 1][x]]);
      var kept := if IsFullRow(g, n - 1) then [] else [g[n - 1][x]];
      NonZeroConcat(KeptColumn(g, x, n - 1), kept);
      FullRowsSpec(g);
      if IsFullRow(g, n - 1) {
        assert z[n - 1][x] == 0;
        assert NonZero([z[n - 1][x]]) == [] by {
          assert [z[n - 1][x]][1..] == [];
        }
      } else {
        assert z[n - 1][x] == g[n - 1][x];
      }
    }
  }

  lemma {:induction false} ColumnCountPrefix(g: Cells, x: int, n: int)
    requires IsBoard(g) && 0 <= x < GRID_WIDTH && 0 <= n <= GRID_HEIGHT
    ensures |NonZero(Column(g, x)[..n])| == |NonZero(KeptColumn(g, x, n))| + |FullRowsBelow(g, n)|
  {
    if n > 0 {
      var col := Column(g, x);
      ColumnCountPrefix(g, x, n - 1);
      assert col[..n] == col[..n - 1] + [g[n - 1][x]];
      NonZeroConcat(col[..n - 1], [g[n - 1][x]]);
      var kept := if IsFullRow(g, n - 1) then [] else [g[n - 1][x]];
      NonZeroConcat(KeptColumn(g, x, n - 1), kept);
      assert [g[n - 1][x]][1..] == [];
    }
  }

  /** After clearing, each column holds exactly the non-zero values of the rows
      that were not full, in their top-to-bottom order, packed against the
      bottom row with zeros above. Without full rows the board is unchanged. */
  lemma ClearedColumn(g: Cells, x: int)
    requires IsBoard(g) && 0 <= x < GRID_WIDTH
    ensures |FullRows(g)| == 0 ==> ClearedBoard(g) == g
    ensures |FullRows(g)| > 0 ==>
      var kept := NonZero(KeptColumn(g, x, GRID_HEIGHT));
      |kept| <= GRID_HEIGHT &&
      Column(ClearedBoard(g), x) == Zeros(GRID_HEIGHT - |kept|) + kept
  {
    if |FullRows(g)| > 0 {
      var z := ZeroRows(g, FullRows(g));
      CompactedColumn(z, x);
      ZeroedColumnPrefix(g, x, GRID_HEIGHT);
      assert Column(z, x)[..GRID_HEIGHT] == Column(z, x);
    }
  }

  /** Clearing removes exactly one occupied cell per cleared row from every column. */
  lemma ClearedColumnCount(g: Cells, x: int)
    requires IsBoard(g) && 0 <= x < GRID_WIDTH
    ensures |NonZero(Column(ClearedBoard(g), x))| == |NonZero(Column(g, x))| - |FullRows(g)|
  {
    if |FullRows(g)| > 0 {
      var z := ZeroRows(g, FullRows(g));
      CompactedColumn(z, x);
      PackedNonZero(Column(z, x));
      ZeroedColumnPrefix(g, x, GRID_HEIGHT);
      ColumnCountPrefix(g, x, GRID_HEIGHT);
      assert Column(z, x)[..GRID_HEIGHT] == Column(z, x);
      assert Column(g, x)[..GRID_HEIGHT] == Column(g, x);
    }
  }

  /** Clearing only moves existing values and writes zeros: a bound on the cell
      values (such as "every cell is empty or a colour index + 1") is kept. */
  lemma ClearedBoardBounded(g: Cells, bound: int)
    requires IsBoard(g) && CellsAtMost(g, bound) && bound >= 0
    ensures IsBoard(ClearedBoard(g)) && CellsAtMost(ClearedBoard(g), bound)
  {
    if |FullRows(g)| > 0 {
      var z := ZeroRows(g, FullRows(g));
      var c := Compacted(z);
      CompactedColumn(z, 0);
      forall y, x | InBounds(y, x)
        ensures c[y][x] <= bound
      {
        var col := Column(z, x);
        var k := |col| - |NonZero(col)|;
        if y >= k {
          NonZeroValues(col);
          assert c[y][x] == NonZero(col)[y - k];
          assert c[y][x] in col;
        }
      }
    }
  }

  lemma {:induction false} KeptColumnHas(g: Cells, x: int, n: int, y: int)
    requires IsBoard(g) && 0 <= x < GRID_WIDTH && 0 <= y < n <= GRID_HEIGHT && !IsFullRow(g, y)
    ensures g[y][x] in KeptColumn(g, x, n)
  {
    if y < n - 1 {
      KeptColumnHas(g, x, n - 1, y);
    }
  }

  lemma {:induction false} NonZeroHas(s: seq<int>, v: int)
    requires v in s && v != 0
    ensures v in NonZero(s)
  {
    if s[0] != v {
      NonZeroHas(s[1..], v);
    }
  }

  /** Column x has a locked cell in a row that is not full. */
  predicate KeepsCell(g: Cells, x: int)
    requires IsBoard(g) && 0 <= x < GRID_WIDTH
  {
    exists y :: 0 <= y < GRID_HEIGHT && !IsFullRow(g, y) && g[y][x] != 0
  }

  /** A column with a locked cell in a row that stays has a locked cell at
      the bottom after the clear. */
  lemma ClearedBottomCell(g: Cells, x: int, y: int)
    requires IsBoard(g) && |FullRows(g)| > 0 && 0 <= x < GRID_WIDTH
    requires 0 <= y < GRID_HEIGHT && !IsFullRow(g, y) && g[y][x] != 0
    ensures ClearedBoard(g)[GRID_HEIGHT - 1][x] != 0
  {
    var col := KeptColumn(g, x, GRID_HEIGHT);
    KeptColumnHas(g, x, GRID_HEIGHT, y);
    NonZeroHas(col, g[y][x]);
    NonZeroValues(col);
    ClearedColumn(g, x);
    var kept := NonZero(col);
    var cleared := Column(ClearedBoard(g), x);
    assert cleared == Zeros(GRID_HEIGHT - |kept|) + kept;
    assert cleared[GRID_HEIGHT - 1] == kept[|kept| - 1];
  }

  /** Gravity works per column, so clearing can build a new full row that
      the same call does not clear: when some row is full and every column
      has a locked cell in a row that is not full, the bottom row is full
      afterwards. */
  lemma ClearedBottomRowFull(g: Cells)
    requires IsBoard(g) && |FullRows(g)| > 0
    requires forall x :: 0 <= x < GRID_WIDTH ==> KeepsCell(g, x)
    ensures IsFullRow(ClearedBoard(g), GRID_HEIGHT - 1)
  {
    var bottom := ClearedBoard(g)[GRID_HEIGHT - 1];
    forall x | 0 <= x < GRID_WIDTH
      ensures bottom[x] != 0
    {
      assert KeepsCell(g, x);
      var y :| 0 <= y < GRID_HEIGHT && !IsFullRow(g, y) && g[y][x] != 0;
      ClearedBottomCell(g, x, y);
    }
  }

  /** A board that shows it: the bottom row full, the row above it filled on
      the left half, the row above that on the right half. Clearing removes
      the bottom row, the two half rows drop into it, and it is full again. */
  lemma ClearCanLeaveFullRow()
    ensures exists g :: IsBoard(g) && |FullRows(g)| > 0 && IsFullRow(ClearedBoard(g), GRID_HEIGHT - 1)
  {
    var full := seq(GRID_WIDTH, _ => 1);
    var left := seq(GRID_WIDTH, x => if x < 8 then 1 else 0);
    var right := seq(GRID_WIDTH, x => if x < 8 then 0 else 1);
    var g := seq(GRID_HEIGHT, y =>
      if y == GRID_HEIGHT - 1 then full
      else if y == GRID_HEIGHT - 2 then left
      else if y == GRID_HEIGHT - 3 then right
      else Zeros(GRID_WIDTH));
    forall y | 0 <= y < GRID_HEIGHT
      ensures |g[y]| == GRID_WIDTH && forall x :: 0 <= x < GRID_WIDTH ==> 0 <= g[y][x] < U8
    {
      if y == GRID_HEIGHT - 1 {
        assert g[y] == full;
      } else if y == GRID_HEIGHT - 2 {
        assert g[y] == left;
      } else if y == GRID_HEIGHT - 3 {
        assert g[y] == right;
      } else {
        assert g[y] == Zeros(GRID_WIDTH);
      }
    }
    FullRowsSpec(g);
    assert IsFullRow(g, GRID_HEIGHT - 1);
    assert GRID_HEIGHT - 1 in FullRows(g);
    assert !IsFullRow(g, GRID_HEIGHT - 2) by {
      assert g[GRID_HEIGHT - 2][GRID_WIDTH - 1] == 0;
    }
    assert !IsFullRow(g, GRID_HEIGHT - 3) by {
      assert g[GRID_HEIGHT - 3][0] == 0;
    }
    forall x | 0 <= x < GRID_WIDTH
      ensures KeepsCell(g, x)
    {
      if x < 8 {
        assert g[GRID_HEIGHT - 2][x] != 0;
      } else {
        assert g[GRID_HEIGHT - 3][x] != 0;
      }
    }
    ClearedBottomRowFull(g);
  }
}
