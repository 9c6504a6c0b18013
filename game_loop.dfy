/** The game task (GameLoop_NEW.c, and GameLoop.c, the earlier version of the
    same loop with the same spawn, input, fall and render code): the falling
    block, spawning and game over, one pass of the main loop, and the
    renderer's memory of the pixels it drew for the block. The random block
    type and the millisecond clock are parameters of each pass. */
module GameLoop {
  import opened Config
  import opened Blocks
  import opened Board
  import opened Spawn
  import opened Render
  import Grid
  import Score
  import Speed
  import Controls

  /** Capacity of `prev_dynamic_pos`: one entry per board cell. */
  const SHADOW_CAPACITY: int := GRID_WIDTH * GRID_HEIGHT

  /** A trial move: the moved block is taken only if it does not collide. */
  function Commit(g: Cells, b: Block, moved: Block): (r: Block)
    requires IsBoard(g) && IsShape(moved.shape)
  {
    if Collides(g, moved) then b else moved
  }

  /** The four buttons of the running state and the move each asks for. */
  datatype Move = Left | Right | Turn | Down

  function ButtonOf(m: Move): int {
    match m
    case Left => Controls.BTN_LEFT
    case Right => Controls.BTN_RIGHT
    case Turn => Controls.BTN_ROTATE
    case Down => Controls.BTN_FASTER
  }

  /** The block moved one column left or right, turned a quarter, or one row
      down. */
  function Moved(b: Block, m: Move): Block
    requires IsShape(b.shape)
  {
    match m
    case Left => b.(x := b.x - 1)
    case Right => b.(x := b.x + 1)
    case Turn => b.(shape := Rotated(b.shape))
    case Down => b.(y := b.y + 1)
  }

  /** One button of the input part of a running pass: when it was accepted,
      the move is tried (an O block is never turned) and kept only if it does
      not collide. */
  function Step(g: Cells, b: Block, m: Move, pressed: bool): (r: Block)
    requires IsBoard(g) && IsShape(b.shape)
    ensures IsShape(r.shape) && r.color == b.color
    ensures !Collides(g, b) ==> !Collides(g, r)
    ensures r == b || (r == Moved(b, m) && pressed && !Collides(g, r))
    ensures m == Turn && b.color == BLOCK_O ==> r == b
  {
    if pressed && (m != Turn || b.color != BLOCK_O) then Commit(g, b, Moved(b, m)) else b
  }

  /** The input part of a running pass: left, right, rotate and faster, in
      that order, each tried from the block the previous one left. The flags
      say which buttons were accepted. */
  function AfterInput(g: Cells, b: Block, left: bool, right: bool, rotate: bool, faster: bool): (r: Block)
    requires IsBoard(g) && IsShape(b.shape)
    ensures IsShape(r.shape) && r.color == b.color
    ensures !Collides(g, b) ==> !Collides(g, r)
    ensures b.color == BLOCK_O || !rotate ==> r.shape == b.shape
    ensures b.x - 1 <= r.x <= b.x + 1 && b.y <= r.y <= b.y + 1
    ensures !faster ==> r.y == b.y
  {
    var b1 := Step(g, b, Left, left);
    var b2 := Step(g, b1, Right, right);
    var b3 := Step(g, b2, Turn, rotate);
    Step(g, b3, Down, faster)
  }

  /** A free block stays where it is when no button is accepted, and a left
      press followed by a right press on a free board puts it back. */
  lemma InputNeutral(g: Cells, b: Block)
    requires IsBoard(g) && IsShape(b.shape)
    requires !Collides(g, b) && !Collides(g, b.(x := b.x - 1))
    ensures AfterInput(g, b, false, false, false, false) == b
    ensures AfterInput(g, b, true, true, false, false) == b
  {
  }

  /** Timers compare the wrapped `uint32_t` difference with the interval. */
  predicate Due(now: int, last: int, interval: int)
    requires IsU32(now) && IsU32(last)
  {
    SubU32(now, last) >= interval
  }

  /** The block the input part of a running pass leaves: each button is
      judged against the polling table `t` as it stood before the pass (a
      poll only moves its own button's timestamp). */
  function InputOf(g: Cells, b: Block, levels: Controls.Levels, now: int, t: seq<int>): (r: Block)
    requires IsBoard(g) && IsShape(b.shape) && Controls.IsTable(t, |t|) && |t| > Controls.BTN_FASTER && IsU32(now)
    ensures IsShape(r.shape) && r.color == b.color
    ensures !Collides(g, b) ==> !Collides(g, r)
  {
    AfterInput(g, b,
      Controls.Pressed(levels, Controls.BTN_LEFT, now, t),
      Controls.Pressed(levels, Controls.BTN_RIGHT, now, t),
      Controls.Pressed(levels, Controls.BTN_ROTATE, now, t),
      Controls.Pressed(levels, Controls.BTN_FASTER, now, t))
  }

  class Game {
    const grid: Grid.Grid
    const score: Score.ScoreManager
    const speed: Speed.SpeedManager
    const controls: Controls.Controls
    /** `current_block`. */
    var current: Block
    /** `game_over_flag`, set by handle_game_over. */
    var gameOverFlag: bool
    /** `game_running`: false in the wait state. */
    var running: bool
    /** `prev_dynamic_pos[0 .. prev_dynamic_count)`: the (y, x) cells drawn for
        the block by the last render. */
    const prevDynamicPos: array<(int, int)>
    var prevDynamicCount: int
    /** `last_fall_time`, `last_render_time`: `uint32_t` milliseconds. */
    var lastFallTime: int
    var lastRenderTime: int

    ghost predicate Valid()
      reads this, grid, grid.cells, score, speed, controls,
        controls.pollTimes, controls.eventTimes, controls.waitTimes, prevDynamicPos
    {
      && grid.Valid() && score.Valid() && speed.Valid() && controls.Valid()
      && IsBlock(current) && current.color < NUM_BLOCKS
      && CellsAtMost(grid.board, NUM_BLOCKS)
      && prevDynamicPos.Length == SHADOW_CAPACITY
      && 0 <= prevDynamicCount <= SHADOW_CAPACITY
      && InBoundsAll(prevDynamicPos[..prevDynamicCount])
      && IsU32(lastFallTime) && IsU32(lastRenderTime)
    }

    /** The shadow list of the renderer. */
    ghost function Shadow(): seq<(int, int)>
      reads this, prevDynamicPos
      requires 0 <= prevDynamicCount <= prevDynamicPos.Length
    {
      prevDynamicPos[..prevDynamicCount]
    }

    /** The game's safety invariant: while a game runs and is not over, the
        falling block overlaps neither a wall, the floor nor a locked cell. */
    ghost predicate Playing()
      reads this, grid
      requires IsBoard(grid.board) && IsShape(current.shape)
    {
      running && !gameOverFlag ==> !Collides(grid.board, current)
    }

    /** The state after spawn_block for type `t` on the current board, from
        a state with block `prev`, flag `prevOver` and highscore `prevHigh`:
        the block found by the search, all else unchanged; or, when there is
        none, the old block with the game over and the highscore raised to
        the score. */
    ghost predicate Spawned(t: int, prev: Block, prevOver: bool, prevHigh: int)
      reads this, grid, score
      requires IsBoard(grid.board) && IsBlockType(t)
    {
      match SpawnResult(grid.board, t)
      case Some(b) => current == b && gameOverFlag == prevOver && score.highscore == prevHigh
      case None =>
        current == prev && gameOverFlag && score.highscore == Score.RaisedHighscore(prevHigh, score.score)
    }

    /** The state at boot: the module statics are zero (an all-empty block at
        the origin, no shadow, timers 0), the grid is empty, the speed manager
        holds its static default and the score its stored highscore.
        `gpioCount` sizes the button tables; `nvsHandle` and
        `storedHighscore` are what opening the storage gave. */
    constructor (gpioCount: int, nvsHandle: int, storedHighscore: int)
      requires gpioCount > Controls.BTN_FASTER && IsU32(storedHighscore)
      ensures Valid() && !running && !gameOverFlag && prevDynamicCount == 0
      ensures grid.board == EmptyBoard() && score.highscore == storedHighscore
    {
      grid := new Grid.Grid();
      score := new Score.ScoreManager(nvsHandle, storedHighscore);
      speed := new Speed.SpeedManager();
      controls := new Controls.Controls(gpioCount);
      var empty := seq(4, _ => seq(4, _ => false));
      current := Block(empty, 0, 0, 0);
      gameOverFlag := false;
      running := false;
      prevDynamicPos := new (int, int)[SHADOW_CAPACITY]((_) => (0, 0));
      prevDynamicCount := 0;
      lastFallTime := 0;
      lastRenderTime := 0;
    }

    // -------------------------------------------------------------------------
    // Spawning and game over

    /** The positions `preferred - offset` and `preferred + offset` of one
        offset of the spawn search (the `else` branch of its loop), skipping
        those that put the mask outside the walls, until one does not
        collide. `last` is the candidate as these tries leave it. */
    method TryOffset(cand: Block, y: int, offset: int) returns (found: bool, bestX: int, last: Block)
      requires grid.Valid() && IsShape(cand.shape) && offset > 0
      ensures last.shape == cand.shape && last.color == cand.color && (last == cand || last.y == y)
      ensures var l, r := PREFERRED_X - offset, PREFERRED_X + offset;
        && (found <==> FreeAt(grid.board, cand, l, y) || FreeAt(grid.board, cand, r, y))
        && (found ==> bestX == if FreeAt(grid.board, cand, l, y) then l else r)
    {
      var preferred := GRID_WIDTH / 2 - 2;
      var positions := [preferred - offset, preferred + offset];
      found := false;
      bestX := preferred;
      last := cand;
      for i := 0 to 2
        invariant last.shape == cand.shape && last.color == cand.color && (last == cand || last.y == y)
        invariant !found
        invariant forall j :: 0 <= j < i ==> !FreeAt(grid.board, cand, positions[j], y)
      {
        var tx := positions[i];
        if tx < 0 || tx > GRID_WIDTH - 4 {
          assert !XAllowed(tx);
          continue;
        }
        last := last.(x := tx, y := y);
        var collides := grid.CheckCollision(last);
        assert last == At(cand, tx, y);
        if !collides {
          assert FreeAt(grid.board, cand, tx, y);
          assert i == 1 ==> !FreeAt(grid.board, cand, positions[0], y);
          bestX := tx;
          found := true;
          return;
        }
      }
      assert !FreeAt(grid.board, cand, positions[0], y) && !FreeAt(grid.board, cand, positions[1], y);
    }

    /** The offset-0 branch of the spawn search: the candidate is moved to
        the preferred x on row `y` and checked. */
    method TryCentre(cand: Block, y: int) returns (collides: bool, last: Block)
      requires grid.Valid() && IsShape(cand.shape)
      ensures last == At(cand, PREFERRED_X, y)
      ensures collides == Collides(grid.board, last)
    {
      var preferred := GRID_WIDTH / 2 - 2;
      last := cand.(x := preferred, y := y);
      collides := grid.CheckCollision(last);
    }

    /** One row of the spawn search: the preferred x first, then the
        positions of offsets 1 to `GRID_WIDTH`, until a position does not
        collide. `last` is the candidate as the search leaves it. */
    method SearchRow(candidate: Block, y: int) returns (found: bool, bestX: int, last: Block)
      requires grid.Valid() && IsShape(candidate.shape)
      ensures last.shape == candidate.shape && last.color == candidate.color && last.y == y
      ensures RowSearch(grid.board, candidate, y, 0) == if found then Some(bestX) else None
    {
      var preferred := GRID_WIDTH / 2 - 2;
      found := false;
      bestX := preferred;
      last := candidate;
      ghost var g := grid.board;
      var offset := 0;
      while offset <= GRID_WIDTH && !found
        invariant 0 <= offset <= GRID_WIDTH + 1
        invariant last.shape == candidate.shape && last.color == candidate.color && (offset > 0 || found ==> last.y == y)
        invariant RowSearch(g, candidate, y, 0) == if found then Some(bestX) else RowSearch(g, candidate, y, offset)
      {
        if offset == 0 {
          var collides;
          collides, last := TryCentre(last, y);
          assert last == At(candidate, preferred, y);
          if !collides {
            bestX := preferred;
            found := true;
            break;
          }
        } else {
          var f, tx, l := TryOffset(last, y, offset);
          assert At(last, preferred - offset, y) == At(candidate, preferred - offset, y);
          assert At(last, preferred + offset, y) == At(candidate, preferred + offset, y);
          last := l;
          if f {
            bestX := tx;
            found := true;
          }
        }
        offset := offset + 1;
      }
    }

    /** handle_game_over: the highscore is updated (and saved), then the flag
        is raised; the display and the blinking are left out. A save is
        attempted (`saveAttempted`) exactly when the score beats the stored
        highscore and the storage handle is open. */
    method HandleGameOver() returns (saveAttempted: bool)
      requires Valid()
      modifies this`gameOverFlag, score`highscore
      ensures Valid() && gameOverFlag
      ensures score.highscore == Score.RaisedHighscore(old(score.highscore), score.score)
      ensures saveAttempted <==> ToU32(score.score) > old(score.highscore) && score.nvsHandle != 0
    {
      saveAttempted := score.UpdateHighscore();
      gameOverFlag := true;
    }

    /** spawn_block with `blockType` as the random draw: searches row 0, then
        row -1; places rotation 0 of the type at the first free position, or,
        when there is none, ends the game and leaves the block as it was. */
    method SpawnBlock(blockType: int)
      requires Valid() && IsBlockType(blockType)
      modifies this`current, this`gameOverFlag, score`highscore
      ensures Valid()
      ensures Spawned(blockType, old(current), old(gameOverFlag), old(score.highscore))
    {
      var candidate := TableEntry(blockType, 0);
      var found, bestX, last := SearchRow(candidate, 0);
      if !found {
        RowSearchIgnoresAnchor(grid.board, last, candidate, -1, 0);
        found, bestX, last := SearchRow(last, -1);
      }
      if !found {
        var saved := HandleGameOver();
        return;
      }
      var placed := TableEntry(blockType, 0).(x := bestX, y := if last.y < 0 then -1 else 0);
      current := AssignBlockColor(placed, blockType);
    }

    /** reset_game_state: empty grid, zero score, first speed level; the
        highscore survives. */
    method ResetGameState()
      requires Valid()
      modifies grid, grid.cells, score`score, score`totalLinesCleared, speed
      ensures Valid()
      ensures grid.board == EmptyBoard()
      ensures score.score == 0 && score.totalLinesCleared == 0
      ensures speed.totalLinesCleared == 0 && speed.currentFallInterval == Speed.SPEED_LEVELS[0].fallIntervalMs
    {
      grid.Init();
      score.Init();
      speed.Reset();
    }

    /** Start of a game, the same in all three places the loop starts one:
        reset, spawn, running, both timers at `now`. On the empty board the
        first block always fits, at the centre of row 0. */
    method NewGame(blockType: int, now: int)
      requires Valid() && IsBlockType(blockType) && IsU32(now)
      modifies this`current, this`gameOverFlag, this`running, this`lastFallTime, this`lastRenderTime,
        grid, grid.cells, score, speed
      ensures Valid() && Playing() && running
      ensures gameOverFlag == old(gameOverFlag)
      ensures grid.board == EmptyBoard() && score.score == 0 && score.totalLinesCleared == 0
      ensures score.highscore == old(score.highscore)
      ensures speed.totalLinesCleared == 0 && speed.currentFallInterval == Speed.SPEED_LEVELS[0].fallIntervalMs
      ensures current == At(TableEntry(blockType, 0), PREFERRED_X, 0)
      ensures lastFallTime == now && lastRenderTime == now
    {
      ResetGameState();
      SpawnOnEmptyBoard(blockType);
      SpawnResultSpec(grid.board, blockType);
      SpawnBlock(blockType);
      running := true;
      lastFallTime := now;
      lastRenderTime := lastFallTime;
    }

    /** The start of game_loop_task: the speed manager is initialised, the
        game state reset, and the loop starts in the wait state with both
        timers at 0. */
    method TaskStart()
      requires Valid()
      modifies this`running, this`lastFallTime, this`lastRenderTime,
        grid, grid.cells, score`score, score`totalLinesCleared, speed
      ensures Valid() && !running
      ensures grid.board == EmptyBoard() && score.score == 0 && score.totalLinesCleared == 0
      ensures speed.totalLinesCleared == 0 && speed.currentFallInterval == 400
      ensures lastFallTime == 0 && lastRenderTime == 0
    {
      speed.Init();
      ResetGameState();
      running := false;
      lastFallTime := 0;
      lastRenderTime := 0;
    }

    /** The emergency reset, once all four buttons have been held: the game
        state is reset and the loop goes back to the wait state (the LED
        clear and the restart sequence are left out). */
    method EmergencyReset()
      requires Valid()
      modifies this`running, grid, grid.cells, score`score, score`totalLinesCleared, speed
      ensures Valid() && !running
      ensures grid.board == EmptyBoard() && score.score == 0 && score.totalLinesCleared == 0
      ensures score.highscore == old(score.highscore)
      ensures speed.totalLinesCleared == 0 && speed.currentFallInterval == 400
    {
      ResetGameState();
      running := false;
    }

    /** The game-over branch of the loop: the flag is consumed and the loop
        leaves the running state; the board, the score and the block stay as
        they were until the next game starts. */
    method LeaveGameOver()
      requires Valid() && gameOverFlag
      modifies this`gameOverFlag, this`running
      ensures Valid() && !gameOverFlag && !running
    {
      gameOverFlag := false;
      running := false;
    }

    // -------------------------------------------------------------------------
    // The running state

    /** `tmp = current_block; <move tmp>; if (!grid_check_collision(&tmp))
        current_block = tmp;` */
    method TryMove(moved: Block)
      requires grid.Valid() && IsShape(moved.shape)
      modifies this`current
      ensures current == Commit(grid.board, old(current), moved)
    {
      var collides := grid.CheckCollision(moved);
      if !collides {
        current := moved;
      }
    }

    /** The input handling of a running pass: each button is polled once, in
        the order left, right, rotate, faster; the rotate button is polled even
        for the O block, which then does not turn. */
    method HandleInput(levels: Controls.Levels, now: int)
      requires Valid() && IsU32(now)
      modifies this`current, controls.pollTimes
      ensures Valid()
      ensures current == AfterInput(grid.board, old(current),
        Controls.Pressed(levels, Controls.BTN_LEFT, now, old(controls.pollTimes[..])),
        Controls.Pressed(levels, Controls.BTN_RIGHT, now, old(controls.pollTimes[..])),
        Controls.Pressed(levels, Controls.BTN_ROTATE, now, old(controls.pollTimes[..])),
        Controls.Pressed(levels, Controls.BTN_FASTER, now, old(controls.pollTimes[..])))
      ensures controls.pollTimes[..] == Controls.Polled(old(controls.pollTimes[..]), levels, now)
    {
      ghost var t0 := controls.pollTimes[..];
      PollAndMove(levels, Left, now);
      ghost var t1 := controls.pollTimes[..];
      assert t1[Controls.BTN_RIGHT] == t0[Controls.BTN_RIGHT];
      PollAndMove(levels, Right, now);
      ghost var t2 := controls.pollTimes[..];
      assert t2[Controls.BTN_ROTATE] == t0[Controls.BTN_ROTATE];
      PollAndMove(levels, Turn, now);
      ghost var t3 := controls.pollTimes[..];
      assert t3[Controls.BTN_FASTER] == t0[Controls.BTN_FASTER];
      PollAndMove(levels, Down, now);
    }

    /** One button of the input handling: it is polled, and when the press
        is reported the move is tried (for the rotate button only when the
        block is not the O block). */
    method PollAndMove(levels: Controls.Levels, m: Move, now: int)
      requires Valid() && IsU32(now)
      modifies this`current, controls.pollTimes
      ensures Valid()
      ensures var t := old(controls.pollTimes[..]);
        && current == Step(grid.board, old(current), m, Controls.Pressed(levels, ButtonOf(m), now, t))
        && controls.pollTimes[..] == Controls.PollOne(t, levels, ButtonOf(m), now)
    {
      var pressed := controls.CheckButtonPressed(ButtonOf(m), Controls.LevelOf(levels, ButtonOf(m)), now);
      if pressed && (m != Turn || current.color != BLOCK_O) {
        var moved: Block;
        if m == Turn {
          moved := RotateBlock90(current);
        } else {
          moved := Moved(current, m);
        }
        TryMove(moved);
      }
    }

    /** The automatic fall once its interval is due: one row down if that is
        free; otherwise the block is locked into the grid (clearing full rows
        and crediting them) and the next block is spawned. */
    method Fall(nextType: int)
      requires Valid() && IsBlockType(nextType)
      modifies this`current, this`gameOverFlag, grid, grid.cells, score, speed
      ensures Valid()
      ensures !gameOverFlag ==> !Collides(grid.board, current)
      ensures var down := old(current).(y := old(current).y + 1);
        !Collides(old(grid.board), down) ==>
          && current == down && grid.board == old(grid.board) && gameOverFlag == old(gameOverFlag)
          && Grid.CountersOf(score, speed) == old(Grid.CountersOf(score, speed)) && score.highscore == old(score.highscore)
      ensures var down := old(current).(y := old(current).y + 1);
        Collides(old(grid.board), down) ==>
          && grid.board == ClearedBoard(Fixed(old(grid.board), old(current)))
          && Grid.Credited(|FullRows(Fixed(old(grid.board), old(current)))|,
        old(Grid.CountersOf(score, speed)), Grid.CountersOf(score, speed))
          && Spawned(nextType, old(current), old(gameOverFlag), old(score.highscore))
    {
      var down := current.(y := current.y + 1);
      var collides := grid.CheckCollision(down);
      if !collides {
        current := down;
      } else {
        assert Grid.CountersOf(score, speed) == old(Grid.CountersOf(score, speed));
        LockAndSpawn(nextType);
      }
    }

    /** The `else` branch of the fall: the block is locked into the grid (full
        rows cleared and credited) and the next one is spawned. */
    method LockAndSpawn(nextType: int)
      requires Valid() && IsBlockType(nextType)
      modifies this`current, this`gameOverFlag, grid, grid.cells, score, speed
      ensures Valid()
      ensures !gameOverFlag ==> !Collides(grid.board, current)
      ensures grid.board == ClearedBoard(Fixed(old(grid.board), old(current)))
      ensures Grid.Credited(|FullRows(Fixed(old(grid.board), old(current)))|,
        old(Grid.CountersOf(score, speed)), Grid.CountersOf(score, speed))
      ensures Spawned(nextType, old(current), old(gameOverFlag), old(score.highscore))
    {
      ghost var g0 := grid.board;
      grid.FixBlock(current, score, speed);
      FixedBounded(g0, current, NUM_BLOCKS);
      ClearedBoardBounded(Fixed(g0, current), NUM_BLOCKS);
      label fixed:
      SpawnBlock(nextType);
      SpawnResultSpec(grid.board, nextType);
      assert Grid.CountersOf(score, speed) == old@fixed(Grid.CountersOf(score, speed));
    }

    /** The first step of render_grid: every remembered pixel is set back to
        what the grid holds there, and the list is emptied. */
    method RestoreShadow() returns (writes: seq<Write>)
      requires grid.Valid() && prevDynamicPos.Length == SHADOW_CAPACITY
      requires 0 <= prevDynamicCount <= SHADOW_CAPACITY && InBoundsAll(Shadow())
      modifies this`prevDynamicCount
      ensures writes == RestoreWrites(grid.board, old(Shadow())) && prevDynamicCount == 0
    {
      ghost var shadow := Shadow();
      writes := [];
      for i := 0 to prevDynamicCount
        invariant writes == RestoreWrites(grid.board, shadow[..i])
      {
        var ry, rx := prevDynamicPos[i].0, prevDynamicPos[i].1;
        assert (ry, rx) == shadow[i];
        if grid.cells[ry, rx] > 0 {
          writes := writes + [Write(ry, rx, grid.cells[ry, rx] - 1)];
        } else {
          writes := writes + [Write(ry, rx, OFF)];
        }
        assert shadow[..i + 1] == shadow[..i] + [shadow[i]];
      }
      assert shadow[..prevDynamicCount] == shadow;
      prevDynamicCount := 0;
    }

    /** One mask cell of the second step of render_grid: when it is occupied
        and lands on the board it is drawn and, while the list has room,
        remembered. */
    method DrawCell(row: int, col: int, writes: seq<Write>) returns (writes': seq<Write>)
      requires IsShape(current.shape) && prevDynamicPos.Length == SHADOW_CAPACITY
      requires 0 <= row < 4 && 0 <= col < 4
      requires 0 <= prevDynamicCount <= 4 * row + col
      requires prevDynamicPos[..prevDynamicCount] == DrawnCells(current, 4 * row + col)
      requires writes == ToWrites(DrawnCells(current, 4 * row + col), current.color)
      modifies this`prevDynamicCount, prevDynamicPos
      ensures 0 <= prevDynamicCount <= 4 * row + col + 1
      ensures prevDynamicPos[..prevDynamicCount] == DrawnCells(current, 4 * row + col + 1)
      ensures writes' == ToWrites(DrawnCells(current, 4 * row + col + 1), current.color)
    {
      MaskNumbering(row, col);
      DrawnCellsStep(current, 4 * row + col);
      writes' := writes;
      if current.shape[row][col] {
        var gx := current.x + col;
        var gy := current.y + row;
        if gx >= 0 && gx < GRID_WIDTH && gy >= 0 && gy < GRID_HEIGHT {
          writes' := writes' + [Write(gy, gx, current.color)];
          if prevDynamicCount < SHADOW_CAPACITY {
            Remember(gy, gx);
          }
        }
      }
    }

    /** Appends cell (y, x) to the renderer's list of drawn cells. */
    method Remember(y: int, x: int)
      requires prevDynamicPos.Length == SHADOW_CAPACITY && 0 <= prevDynamicCount < SHADOW_CAPACITY
      modifies this`prevDynamicCount, prevDynamicPos
      ensures prevDynamicCount == old(prevDynamicCount) + 1
      ensures prevDynamicPos[..prevDynamicCount] == old(prevDynamicPos[..prevDynamicCount]) + [(y, x)]
    {
      prevDynamicPos[prevDynamicCount] := (y, x);
      prevDynamicCount := prevDynamicCount + 1;
    }

    /** The second step of render_grid: the block's occupied mask cells that
        land on the board are drawn in its colour, row by row, and remembered
        while the list has room (it always has: a block has 16 mask cells). */
    method DrawCurrent() returns (writes: seq<Write>)
      requires IsShape(current.shape) && prevDynamicPos.Length == SHADOW_CAPACITY && prevDynamicCount == 0
      modifies this`prevDynamicCount, prevDynamicPos
      ensures writes == DrawWrites(current)
      ensures 0 <= prevDynamicCount <= SHADOW_CAPACITY && Shadow() == VisibleCells(current)
    {
      writes := [];
      for row := 0 to 4
        invariant 0 <= prevDynamicCount <= 4 * row
        invariant prevDynamicPos[..prevDynamicCount] == DrawnCells(current, 4 * row)
        invariant writes == ToWrites(DrawnCells(current, 4 * row), current.color)
      {
        writes := DrawRow(row, writes);
      }
    }

    /** One row of the mask, left to right. */
    method DrawRow(row: int, writes: seq<Write>) returns (writes': seq<Write>)
      requires IsShape(current.shape) && prevDynamicPos.Length == SHADOW_CAPACITY && 0 <= row < 4
      requires 0 <= prevDynamicCount <= 4 * row
      requires prevDynamicPos[..prevDynamicCount] == DrawnCells(current, 4 * row)
      requires writes == ToWrites(DrawnCells(current, 4 * row), current.color)
      modifies this`prevDynamicCount, prevDynamicPos
      ensures 0 <= prevDynamicCount <= 4 * row + 4
      ensures prevDynamicPos[..prevDynamicCount] == DrawnCells(current, 4 * row + 4)
      ensures writes' == ToWrites(DrawnCells(current, 4 * row + 4), current.color)
    {
      writes' := writes;
      for col := 0 to 4
        invariant 0 <= prevDynamicCount <= 4 * row + col
        invariant prevDynamicPos[..prevDynamicCount] == DrawnCells(current, 4 * row + col)
        invariant writes' == ToWrites(DrawnCells(current, 4 * row + col), current.color)
      {
        writes' := DrawCell(row, col, writes');
      }
    }

    /** render_grid: the restore writes, then the draw writes; afterwards the
        remembered cells are exactly the block's visible cells. */
    method Render() returns (writes: seq<Write>)
      requires Valid()
      modifies this`prevDynamicCount, prevDynamicPos
      ensures Valid()
      ensures writes == RestoreWrites(grid.board, old(Shadow())) + DrawWrites(current)
      ensures Shadow() == VisibleCells(current)
    {
      writes := RestoreShadow();
      var drawn := DrawCurrent();
      writes := writes + drawn;
    }

    /** The automatic fall of a running pass: when the fall interval (read
        before the fall) has elapsed since `lastFallTime`, the fall timer
        restarts at `now` and the block falls, is locked or is replaced by a
        spawned block of type `nextType`; otherwise nothing changes. A block
        that collided with nothing before still collides with nothing after,
        unless the game is over. */
    method FallIfDue(now: int, nextType: int)
      requires Valid() && !gameOverFlag && IsU32(now) && IsBlockType(nextType)
      modifies this`current, this`gameOverFlag, this`lastFallTime, grid, grid.cells, score, speed
      ensures Valid()
      ensures old(!Collides(grid.board, current)) && !gameOverFlag ==> !Collides(grid.board, current)
      ensures var down := old(current).(y := old(current).y + 1);
        var fall := Due(now, old(lastFallTime), old(speed.currentFallInterval));
        && lastFallTime == (if fall then now else old(lastFallTime))
        && (!fall || !Collides(old(grid.board), down) ==>
          && current == (if fall then down else old(current))
          && grid.board == old(grid.board) && !gameOverFlag && score.highscore == old(score.highscore)
          && Grid.CountersOf(score, speed) == old(Grid.CountersOf(score, speed)))
        && (fall && Collides(old(grid.board), down) ==>
          && grid.board == ClearedBoard(Fixed(old(grid.board), old(current)))
          && Grid.Credited(|FullRows(Fixed(old(grid.board), old(current)))|,
            old(Grid.CountersOf(score, speed)), Grid.CountersOf(score, speed))
          && Spawned(nextType, old(current), false, old(score.highscore)))
    {
      var fallInterval := speed.GetFallInterval();
      if SubU32(now, lastFallTime) >= fallInterval {
        lastFallTime := now;
        Fall(nextType);
      }
    }

    /** The input and fall part of a running pass of game_loop_task: the four
        buttons are polled, at the clock reading `pollNow` of
        check_button_pressed, and their moves tried on the block, then the
        automatic fall runs on the block the input left (`b1`), timed by the
        loop's own reading `now`. */
    method InputAndFall(levels: Controls.Levels, pollNow: int, now: int, nextType: int)
      requires Valid() && !gameOverFlag && IsU32(pollNow) && IsU32(now) && IsBlockType(nextType)
      modifies this`current, this`gameOverFlag, this`lastFallTime, grid, grid.cells, score, speed, controls.pollTimes
      ensures Valid()
      ensures old(!Collides(grid.board, current)) && !gameOverFlag ==> !Collides(grid.board, current)
      ensures controls.pollTimes[..] == Controls.Polled(old(controls.pollTimes[..]), levels, pollNow)
      ensures var b1 := InputOf(old(grid.board), old(current), levels, pollNow, old(controls.pollTimes[..]));
        var down := b1.(y := b1.y + 1);
        var fall := Due(now, old(lastFallTime), old(speed.currentFallInterval));
        && lastFallTime == (if fall then now else old(lastFallTime))
        && (!fall || !Collides(old(grid.board), down) ==>
          && current == (if fall then down else b1)
          && grid.board == old(grid.board) && !gameOverFlag && score.highscore == old(score.highscore)
          && Grid.CountersOf(score, speed) == old(Grid.CountersOf(score, speed)))
        && (fall && Collides(old(grid.board), down) ==>
          && grid.board == ClearedBoard(Fixed(old(grid.board), b1))
          && Grid.Credited(|FullRows(Fixed(old(grid.board), b1))|,
            old(Grid.CountersOf(score, speed)), Grid.CountersOf(score, speed))
          && Spawned(nextType, b1, false, old(score.highscore)))
    {
      ghost var g0, t0 := grid.board, controls.pollTimes[..];
      ghost var b1 := InputOf(g0, current, levels, pollNow, t0);
      HandleInput(levels, pollNow);
      assert current == b1 && grid.board == g0;
      FallIfDue(now, nextType);
    }

    /** One pass of game_loop_task in the running state: input (polled at
        `pollNow`) and fall, then, when the render interval has elapsed, the render timer
        restarts at `now` and the matrix is redrawn (`rendered`, with the
        pixel `writes`); otherwise nothing is drawn and the renderer's list
        is untouched. */
    method RunningTick(levels: Controls.Levels, pollNow: int, now: int, nextType: int) returns (rendered: bool, writes: seq<Write>)
      requires Valid() && running && !gameOverFlag && IsU32(pollNow) && IsU32(now) && IsBlockType(nextType)
      modifies this`current, this`gameOverFlag, this`lastFallTime, this`lastRenderTime,
        this`prevDynamicCount, prevDynamicPos, grid, grid.cells, score, speed, controls.pollTimes
      ensures Valid()
      ensures old(!Collides(grid.board, current)) && !gameOverFlag ==> !Collides(grid.board, current)
      ensures controls.pollTimes[..] == Controls.Polled(old(controls.pollTimes[..]), levels, pollNow)
      ensures var b1 := InputOf(old(grid.board), old(current), levels, pollNow, old(controls.pollTimes[..]));
        var down := b1.(y := b1.y + 1);
        var fall := Due(now, old(lastFallTime), old(speed.currentFallInterval));
        && lastFallTime == (if fall then now else old(lastFallTime))
        && (!fall || !Collides(old(grid.board), down) ==>
          && current == (if fall then down else b1)
          && grid.board == old(grid.board) && !gameOverFlag && score.highscore == old(score.highscore)
          && Grid.CountersOf(score, speed) == old(Grid.CountersOf(score, speed)))
        && (fall && Collides(old(grid.board), down) ==>
          && grid.board == ClearedBoard(Fixed(old(grid.board), b1))
          && Grid.Credited(|FullRows(Fixed(old(grid.board), b1))|,
            old(Grid.CountersOf(score, speed)), Grid.CountersOf(score, speed))
          && Spawned(nextType, b1, false, old(score.highscore)))
      ensures var due := Due(now, old(lastRenderTime), RENDER_INTERVAL_MS);
        && rendered == due && lastRenderTime == (if due then now else old(lastRenderTime))
        && (due ==>
          writes == RestoreWrites(grid.board, old(Shadow())) + DrawWrites(current) && Shadow() == VisibleCells(current))
        && (!due ==>
          writes == [] && prevDynamicCount == old(prevDynamicCount) && prevDynamicPos[..] == old(prevDynamicPos[..]))
    {
      InputAndFall(levels, pollNow, now, nextType);
      rendered := false;
      writes := [];
      if SubU32(now, lastRenderTime) >= RENDER_INTERVAL_MS {
        lastRenderTime := now;
        writes := Render();
        rendered := true;
      }
    }
  }

  /** Mask cell `k` of the drawing loop adds one cell and one write exactly
      when it is occupied and on the board. */
  lemma DrawnCellsStep(b: Block, k: int)
    requires IsShape(b.shape) && 0 <= k < 16
    ensures var added := if Draws(b, k) then [(b.y + k / 4, b.x + k % 4)] else [];
      && DrawnCells(b, k + 1) == DrawnCells(b, k) + added
      && ToWrites(DrawnCells(b, k + 1), b.color) ==
        ToWrites(DrawnCells(b, k), b.color) + (if Draws(b, k) then [Write(b.y + k / 4, b.x + k % 4, b.color)] else [])
  {
    var added := if Draws(b, k) then [(b.y + k / 4, b.x + k % 4)] else [];
    ToWritesConcat(DrawnCells(b, k), added, b.color);
  }

  /** Row-major numbering of the 4x4 mask. */
  lemma MaskNumbering(row: int, col: int)
    requires 0 <= row < 4 && 0 <= col < 4
    ensures (4 * row + col) / 4 == row && (4 * row + col) % 4 == col
  {
  }

  /** Writing two lists of cells is writing the first, then the second. */
  lemma ToWritesConcat(a: seq<(int, int)>, c: seq<(int, int)>, shade: int)
    ensures ToWrites(a + c, shade) == ToWrites(a, shade) + ToWrites(c, shade)
  {
    var l, r := ToWrites(a + c, shade), ToWrites(a, shade) + ToWrites(c, shade);
    assert |l| == |r|;
    forall i | 0 <= i < |l|
      ensures l[i] == r[i]
    {
      if i < |a| {
        assert (a + c)[i] == a[i];
      } else {
        assert (a + c)[i] == c[i - |a|];
      }
    }
  }
}
