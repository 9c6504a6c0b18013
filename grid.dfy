/** The grid engine (Grid.c): the module-level `uint8_t grid[GRID_HEIGHT][GRID_WIDTH]`
    and the operations that read and update it in place. Each operation is
    proved to agree with the value-level definitions of module Board. */
module Grid {
  import opened Config
  import opened Blocks
  import opened Board
  import Score
  import Speed

  /** Unfolding `NonZero` one element in from the front of a suffix. */
  lemma NonZeroSuffix(s: seq<int>, i: int)
    requires 0 <= i < |s|
    ensures NonZero(s[i..]) == (if s[i] != 0 then [s[i]] else []) + NonZero(s[i + 1..])
  {
    assert s[i..][1..] == s[i + 1..];
  }

  /** One step of the downward scan when the scanned cell is occupied: its
      value goes to the write row and, when that is another row, its own row
      becomes empty. */
  lemma MoveStep(col: seq<int>, y: int, w: int, moved: seq<int>)
    requires 0 <= y <= w < |col|
    ensures var c := col[..y + 1] + Zeros(w - y) + moved;
      (if w != y then c[w := col[y]][y := 0] else c[w := col[y]]) ==
      col[..y] + Zeros(w - y) + ([col[y]] + moved)
  {
    var c := col[..y + 1] + Zeros(w - y) + moved;
    var d := if w != y then c[w := col[y]][y := 0] else c[w := col[y]];
    var e := col[..y] + Zeros(w - y) + ([col[y]] + moved);
    assert |d| == |e|;
    forall i | 0 <= i < |d|
      ensures d[i] == e[i]
    {
      if i < y {
      } else if i == y {
      } else if i < w {
      } else if i == w {
      } else {
        assert d[i] == moved[i - w - 1];
      }
    }
  }

  /** One step of the downward scan when the scanned cell is empty. */
  lemma KeepStep(col: seq<int>, y: int, w: int)
    requires 0 <= y <= w < |col| && col[y] == 0
    ensures col[..y + 1] + Zeros(w - y) == col[..y] + Zeros(w - y + 1)
  {
    var a := col[..y + 1] + Zeros(w - y);
    var b := col[..y] + Zeros(w - y + 1);
    assert |a| == |b|;
    forall i | 0 <= i < |a|
      ensures a[i] == b[i]
    {
    }
  }

  class Grid {
    const cells: array2<int>
    /** The board the array holds. */
    ghost var board: Cells

    ghost predicate Valid()
      reads this, cells
    {
      && cells.Length0 == GRID_HEIGHT && cells.Length1 == GRID_WIDTH
      && IsBoard(board)
      && forall y, x :: InBounds(y, x) ==> cells[y, x] == board[y][x]
    }

    /** The static definition `grid[..] = {0}`. */
    constructor ()
      ensures Valid() && fresh(cells)
      ensures board == EmptyBoard()
    {
      cells := new int[GRID_HEIGHT, GRID_WIDTH]((y, x) => 0);
      board := EmptyBoard();
    }

    /** grid_init: every cell becomes empty. */
    method Init()
      requires Valid()
      modifies this, cells
      ensures Valid()
      ensures board == EmptyBoard()
    {
      for y := 0 to GRID_HEIGHT
        modifies cells
        invariant forall y', x :: 0 <= y' < y && 0 <= x < GRID_WIDTH ==> cells[y', x] == 0
      {
        for x := 0 to GRID_WIDTH
          modifies cells
          invariant forall y', x' :: 0 <= y' < y && 0 <= x' < GRID_WIDTH ==> cells[y', x'] == 0
          invariant forall x' :: 0 <= x' < x ==> cells[y, x'] == 0
        {
          cells[y, x] := 0;
        }
      }
      board := EmptyBoard();
    }

    /** grid_check_collision: scans the mask row by row and returns at the first
        occupied cell below the floor, outside the walls, or on a locked cell;
        cells above the top row are skipped. Reads the grid only. */
    method CheckCollision(block: Block) returns (collides: bool)
      requires Valid() && IsShape(block.shape)
      ensures collides == Collides(board, block)
    {
      for row := 0 to 4
        invariant forall r, c :: 0 <= r < row && 0 <= c < 4 ==> !CellCollides(board, block, r, c)
      {
        for col := 0 to 4
          invariant forall r, c :: 0 <= r < row && 0 <= c < 4 ==> !CellCollides(board, block, r, c)
          invariant forall c :: 0 <= c < col ==> !CellCollides(board, block, row, c)
        {
          if !block.shape[row][col] {
            continue;
          }
          var gx := block.x + col;
          var gy := block.y + row;
          if gy >= GRID_HEIGHT {
            assert CellCollides(board, block, row, col);
            return true;
          }
          if gx < 0 || gx >= GRID_WIDTH {
            assert CellCollides(board, block, row, col);
            return true;
          }
          if gy < 0 {
            continue;
          }
          if cells[gy, gx] != 0 {
            assert CellCollides(board, block, row, col);
            return true;
          }
        }
      }
      return false;
    }

    /** The cell writes of grid_fix_block: each occupied mask cell that lands
        inside the board gets `color + 1` (as a `uint8_t`); the others are
        dropped. */
    method WriteBlock(block: Block)
      requires Valid() && IsShape(block.shape)
      modifies this, cells
      ensures Valid()
      ensures board == Fixed(old(board), block)
    {
      var value := (block.color + 1) % U8;
      for row := 0 to 4
        modifies cells
        invariant forall y, x :: InBounds(y, x) ==>
          cells[y, x] == if Covers(block, y, x) && y - block.y < row then value else board[y][x]
      {
        for col := 0 to 4
          modifies cells
          invariant forall y, x :: InBounds(y, x) ==>
            cells[y, x] ==
              if Covers(block, y, x) && (y - block.y < row || (y - block.y == row && x - block.x < col))
              then value else board[y][x]
        {
          if block.shape[row][col] {
            var gx := block.x + col;
            var gy := block.y + row;
            if gx >= 0 && gx < GRID_WIDTH && gy >= 0 && gy < GRID_HEIGHT {
              cells[gy, gx] := value;
            }
          }
        }
      }
      board := Fixed(board, block);
    }

    /** The detection pass of grid_clear_full_rows: every row, top to bottom,
        whose cells are all non-zero is appended to `removeRows`. */
    method FindFullRows() returns (removeRows: array<int>, removeCount: int)
      requires Valid()
      ensures fresh(removeRows) && removeRows.Length == GRID_HEIGHT
      ensures 0 <= removeCount <= GRID_HEIGHT
      ensures removeRows[..removeCount] == FullRows(board)
    {
      removeRows := new int[GRID_HEIGHT];
      removeCount := 0;
      for y := 0 to GRID_HEIGHT
        modifies removeRows
        invariant 0 <= removeCount <= y
        invariant removeRows[..removeCount] == FullRowsBelow(board, y)
      {
        var full := true;
        var x := 0;
        while x < GRID_WIDTH
          invariant 0 <= x <= GRID_WIDTH
          invariant full && forall x' :: 0 <= x' < x ==> board[y][x'] != 0
        {
          if cells[y, x] == 0 {
            full := false;
            break;
          }
          x := x + 1;
        }
        assert full <==> IsFullRow(board, y);
        if full {
          removeRows[removeCount] := y;
          removeCount := removeCount + 1;
        }
      }
    }

    /** Step 1 of the removal: every listed row becomes empty. */
    method ZeroListedRows(removeRows: array<int>, removeCount: int)
      requires Valid()
      requires 0 <= removeCount <= removeRows.Length
      requires forall i :: 0 <= i < removeCount ==> 0 <= removeRows[i] < GRID_HEIGHT
      modifies this, cells
      ensures Valid()
      ensures board == ZeroRows(old(board), removeRows[..removeCount])
    {
      ghost var rows := removeRows[..removeCount];
      for r := 0 to removeCount
        modifies cells
        invariant forall y, x :: InBounds(y, x) ==> cells[y, x] == if y in rows[..r] then 0 else board[y][x]
      {
        var y := removeRows[r];
        assert rows[..r + 1] == rows[..r] + [y];
        for x := 0 to GRID_WIDTH
          modifies cells
          invariant forall y', x' :: InBounds(y', x') ==>
            cells[y', x'] == if y' in rows[..r] || (y' == y && x' < x) then 0 else board[y'][x']
        {
          cells[y, x] := 0;
        }
      }
      assert rows[..removeCount] == rows;
      board := ZeroRows(board, rows);
    }

    /** The cell of column `x` in row `y` moves down to row `w`; row `y`
        is emptied when it is another row. */
    method MoveCell(x: int, y: int, w: int)
      requires cells.Length0 == GRID_HEIGHT && cells.Length1 == GRID_WIDTH && 0 <= x < GRID_WIDTH
      requires 0 <= y <= w < GRID_HEIGHT
      modifies cells
      ensures cells[w, x] == old(cells[y, x])
      ensures w != y ==> cells[y, x] == 0
      ensures forall k, x' :: InBounds(k, x') && (x' != x || (k != y && k != w)) ==> cells[k, x'] == old(cells[k, x'])
    {
      cells[w, x] := cells[y, x];
      if w != y {
        cells[y, x] := 0;
      }
    }

    /** One row of the downward scan of column `x`: an occupied cell moves to
        the write row (its own row emptied when that is another row) and the
        write row goes up; an empty cell is skipped. */
    method ScanStep(x: int, y: int, writeY: int, ghost col: seq<int>, ghost c: seq<int>, ghost moved: seq<int>)
      returns (writeY': int, ghost c': seq<int>, ghost moved': seq<int>)
      requires cells.Length0 == GRID_HEIGHT && cells.Length1 == GRID_WIDTH && 0 <= x < GRID_WIDTH
      requires 0 <= y <= writeY < GRID_HEIGHT && |col| == GRID_HEIGHT
      requires |c| == GRID_HEIGHT && forall k :: 0 <= k < GRID_HEIGHT ==> cells[k, x] == c[k]
      requires moved == NonZero(col[y + 1..])
      requires c == col[..y + 1] + Zeros(writeY - y) + moved
      modifies cells
      ensures y - 1 <= writeY' <= writeY
      ensures |c'| == GRID_HEIGHT && forall k :: 0 <= k < GRID_HEIGHT ==> cells[k, x] == c'[k]
      ensures moved' == NonZero(col[y..])
      ensures c' == col[..y] + Zeros(writeY' - y + 1) + moved'
      ensures forall k, x' :: InBounds(k, x') && x' != x ==> cells[k, x'] == old(cells[k, x'])
    {
      NonZeroSuffix(col, y);
      assert c[y] == col[y];
      if cells[y, x] != 0 {
        writeY', c', moved' := MoveOccupied(x, y, writeY, col, c, moved);
      } else {
        KeepStep(col, y, writeY);
        writeY', c', moved' := writeY, c, moved;
      }
    }

    /** The occupied case of `ScanStep`: the value goes down to the write row. */
    method MoveOccupied(x: int, y: int, writeY: int, ghost col: seq<int>, ghost c: seq<int>, ghost moved: seq<int>)
      returns (writeY': int, ghost c': seq<int>, ghost moved': seq<int>)
      requires cells.Length0 == GRID_HEIGHT && cells.Length1 == GRID_WIDTH && 0 <= x < GRID_WIDTH
      requires 0 <= y <= writeY < GRID_HEIGHT && |col| == GRID_HEIGHT && col[y] != 0
      requires |c| == GRID_HEIGHT && forall k :: 0 <= k < GRID_HEIGHT ==> cells[k, x] == c[k]
      requires c == col[..y + 1] + Zeros(writeY - y) + moved
      modifies cells
      ensures writeY' == writeY - 1 && moved' == [col[y]] + moved
      ensures |c'| == GRID_HEIGHT && forall k :: 0 <= k < GRID_HEIGHT ==> cells[k, x] == c'[k]
      ensures c' == col[..y] + Zeros(writeY' - y + 1) + moved'
      ensures forall k, x' :: InBounds(k, x') && x' != x ==> cells[k, x'] == old(cells[k, x'])
    {
      assert c[y] == col[y];
      MoveStep(col, y, writeY, moved);
      MoveCell(x, y, writeY);
      c' := c[writeY := col[y]];
      if writeY != y {
        c' := c'[y := 0];
      }
      moved' := [col[y]] + moved;
      writeY' := writeY - 1;
    }

    /** Step 2 of grid_clear_full_rows for one column (the `write_y` loop):
        every non-zero cell, scanned bottom-up, moves down to `write_y`; the
        cells left above are zeroed. The column ends as `Packed(col)`. */
    method PackColumn(x: int, ghost col: seq<int>)
      requires cells.Length0 == GRID_HEIGHT && cells.Length1 == GRID_WIDTH && 0 <= x < GRID_WIDTH
      requires |col| == GRID_HEIGHT && forall y :: 0 <= y < GRID_HEIGHT ==> cells[y, x] == col[y]
      modifies cells
      ensures forall y :: 0 <= y < GRID_HEIGHT ==> cells[y, x] == Packed(col)[y]
      ensures forall y, x' :: InBounds(y, x') && x' != x ==> cells[y, x'] == old(cells[y, x'])
    {
      var writeY := GRID_HEIGHT - 1;
      var y := GRID_HEIGHT - 1;
      // `c` is the column as it stands; `moved` the values already moved down.
      ghost var c := col;
      ghost var moved: seq<int> := [];
      assert col[..GRID_HEIGHT] == col;
      while y >= 0
        invariant -1 <= y <= writeY < GRID_HEIGHT
        invariant |c| == GRID_HEIGHT && forall k :: 0 <= k < GRID_HEIGHT ==> cells[k, x] == c[k]
        invariant moved == NonZero(col[y + 1..])
        invariant c == col[..y + 1] + Zeros(writeY - y) + moved
        invariant forall k, x' :: InBounds(k, x') && x' != x ==> cells[k, x'] == old(cells[k, x'])
      {
        writeY, c, moved := ScanStep(x, y, writeY, col, c, moved);
        y := y - 1;
      }
      assert col[..0] == [] && col[0..] == col;
      assert c == Packed(col);
      y := writeY;
      while y >= 0
        invariant -1 <= y <= writeY
        invariant forall k :: 0 <= k < GRID_HEIGHT ==> cells[k, x] == c[k]
        invariant forall k, x' :: InBounds(k, x') && x' != x ==> cells[k, x'] == old(cells[k, x'])
      {
        cells[y, x] := 0;
        y := y - 1;
      }
    }

    /** Step 2 of the removal: gravity, column by column. */
    method CompactColumns()
      requires Valid()
      modifies this, cells
      ensures Valid()
      ensures board == Compacted(old(board))
    {
      for x := 0 to GRID_WIDTH
        modifies cells
        invariant forall y, x' :: InBounds(y, x') ==>
          cells[y, x'] == if x' < x then Packed(Column(board, x'))[y] else board[y][x']
      {
        PackColumn(x, Column(board, x));
      }
      board := Compacted(board);
    }

    /** The grid half of grid_clear_full_rows: collects every full row in one
        top-to-bottom pass and, unless there is none, zeroes those rows and
        packs each column downward. Returns the number of rows removed. */
    method RemoveFullRows() returns (removeCount: int)
      requires Valid()
      modifies this, cells
      ensures Valid()
      ensures removeCount == |FullRows(old(board))|
      ensures board == ClearedBoard(old(board))
    {
      var removeRows;
      removeRows, removeCount := FindFullRows();
      if removeCount == 0 {
        return;
      }
      ghost var rows := removeRows[..removeCount];
      FullRowsSpec(board);
      assert forall i :: 0 <= i < removeCount ==> removeRows[i] == rows[i] && rows[i] in rows;
      ZeroListedRows(removeRows, removeCount);
      CompactColumns();
    }

    /** grid_clear_full_rows: removes the full rows; when there were any, adds
        their number to the score and hands the score's cumulative line count
        to the speed manager. */
    method ClearFullRows(score: Score.ScoreManager, speed: Speed.SpeedManager)
      requires Valid() && score.Valid() && speed.Valid()
      modifies this, cells, score, speed
      ensures Valid() && score.Valid() && speed.Valid()
      ensures board == ClearedBoard(old(board))
      ensures Credited(|FullRows(old(board))|, old(CountersOf(score, speed)), CountersOf(score, speed))
      ensures score.highscore == old(score.highscore)
    {
      var removeCount := RemoveFullRows();
      if removeCount == 0 {
        return;
      }
      CreditLines(removeCount, score, speed);
    }

    /** grid_fix_block: writes the landed block into the grid, then clears the
        full rows. */
    method FixBlock(block: Block, score: Score.ScoreManager, speed: Speed.SpeedManager)
      requires Valid() && IsShape(block.shape) && score.Valid() && speed.Valid()
      modifies this, cells, score, speed
      ensures Valid() && score.Valid() && speed.Valid()
      ensures board == ClearedBoard(Fixed(old(board), block))
      ensures Credited(|FullRows(Fixed(old(board), block))|, old(CountersOf(score, speed)), CountersOf(score, speed))
      ensures score.highscore == old(score.highscore)
    {
      WriteBlock(block);
      ClearFullRows(score, speed);
    }
  }

  /** The end of grid_clear_full_rows when rows were removed: the score is
      credited and the speed manager takes the new line total. */
  method CreditLines(n: int, score: Score.ScoreManager, speed: Speed.SpeedManager)
    requires 0 < n <= GRID_HEIGHT && score.Valid() && speed.Valid()
    modifies score, speed
    ensures score.Valid() && speed.Valid()
    ensures Credited(n, old(CountersOf(score, speed)), CountersOf(score, speed))
    ensures score.highscore == old(score.highscore)
  {
    ghost var total0 := score.totalLinesCleared;
    score.AddLines(n);
    assert score.totalLinesCleared == ToU32(total0 + n);
    speed.UpdateScore(score.GetTotalLinesCleared());
  }

  /** The counters that clearing rows updates: the score and the line total
      of the score manager, the line total and the fall interval of the speed
      manager. */
  datatype Counters = Counters(score: int, total: int, speedTotal: int, interval: int)

  ghost function CountersOf(score: Score.ScoreManager, speed: Speed.SpeedManager): Counters
    reads score, speed
  {
    Counters(score.score, score.totalLinesCleared, speed.totalLinesCleared, speed.currentFallInterval)
  }

  /** What clearing `n` rows does to the counters: nothing when `n` is 0;
      otherwise the score gains the bonus for `n` rows, the line total grows
      by `n` (as a `uint32_t`) and the speed manager takes over that total
      and its interval. */
  predicate Credited(n: int, before: Counters, after: Counters) {
    && (n == 0 ==> after == before)
    && (n != 0 ==>
      && after.score == before.score + Score.LineBonus(n)
      && after.total == ToU32(before.total + n)
      && after.speedTotal == after.total
      && after.interval == Speed.IntervalFor(after.total))
  }
}
