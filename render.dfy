/** What `render_grid` (GameLoop_NEW.c, GameLoop.c) does to the LED matrix, as
    values. The renderer never clears the strip: it sets back the pixels it
    drew for the falling block last time to what the board holds there, then
    draws the block again and remembers where. A pixel is modelled by the
    colour index it shows (`OFF` for dark); the RGB palette, the brightness
    scaling and the LED numbering are left to the LED driver. */
module Render {
  import opened Config
  import opened Blocks
  import opened Board

  /** A dark pixel. */
  const OFF: int := -1

  /** One `led_strip_set_pixel` call: board cell (y, x) is set to `shade`. */
  datatype Write = Write(y: int, x: int, shade: int)

  /** The picture on the matrix: one shade per board cell, row 0 at the top. */
  type Frame = seq<seq<int>>

  predicate IsFrame(f: Frame) {
    |f| == GRID_HEIGHT && forall y :: 0 <= y < GRID_HEIGHT ==> |f[y]| == GRID_WIDTH
  }

  predicate InBoundsAll(cells: seq<(int, int)>) {
    forall i :: 0 <= i < |cells| ==> InBounds(cells[i].0, cells[i].1)
  }

  /** What a locked cell shows: colour index `value - 1`, or dark when empty. */
  function Shade(g: Cells, y: int, x: int): int
    requires IsBoard(g) && InBounds(y, x)
  {
    if g[y][x] > 0 then g[y][x] - 1 else OFF
  }

  /** Mask cell `k` (row-major: row `k / 4`, column `k % 4`) is occupied and
      lands on the board. */
  predicate Draws(b: Block, k: int)
    requires IsShape(b.shape) && 0 <= k < 16
  {
    b.shape[k / 4][k % 4] && InBounds(b.y + k / 4, b.x + k % 4)
  }

  /** The board cells drawn for mask cells `0 .. k - 1`, in drawing order. */
  function DrawnCells(b: Block, k: int): (cells: seq<(int, int)>)
    requires IsShape(b.shape) && 0 <= k <= 16
    ensures |cells| <= k
    ensures InBoundsAll(cells)
  {
    if k == 0 then []
    else DrawnCells(b, k - 1) + (if Draws(b, k - 1) then [(b.y + (k - 1) / 4, b.x + (k - 1) % 4)] else [])
  }

  /** The board cells the block is drawn on, row by row, left to right. */
  function VisibleCells(b: Block): (cells: seq<(int, int)>)
    requires IsShape(b.shape)
    ensures |cells| <= 16 && InBoundsAll(cells)
  {
    DrawnCells(b, 16)
  }

  /** The mask index of board cell (y, x) relative to the block's anchor. */
  function MaskIndex(b: Block, y: int, x: int): int {
    (y - b.y) * 4 + (x - b.x)
  }

  /** Mask cell `k` sits at row `k / 4`, column `k % 4` of the 4x4 frame. */
  lemma MaskCell(b: Block, k: int, y: int, x: int)
    requires IsShape(b.shape) && 0 <= k < 16
    ensures Covers(b, y, x) && MaskIndex(b, y, x) == k <==>
      (y, x) == (b.y + k / 4, b.x + k % 4) && b.shape[k / 4][k % 4]
  {
    if b.y <= y < b.y + 4 && b.x <= x < b.x + 4 && MaskIndex(b, y, x) == k {
      var r, c := y - b.y, x - b.x;
      assert k == r * 4 + c;
      assert k / 4 == r && k % 4 == c;
    }
  }

  /** A cell is drawn for the first `k` mask cells exactly when it is on the
      board, under an occupied mask cell, and that mask cell comes before `k`. */
  lemma {:induction false} DrawnCellsComplete(b: Block, k: int)
    requires IsShape(b.shape) && 0 <= k <= 16
    ensures forall y, x :: (y, x) in DrawnCells(b, k) <==>
      InBounds(y, x) && Covers(b, y, x) && MaskIndex(b, y, x) < k
  {
    if k > 0 {
      DrawnCellsComplete(b, k - 1);
      forall y, x
        ensures (y, x) in DrawnCells(b, k) <==>
          InBounds(y, x) && Covers(b, y, x) && MaskIndex(b, y, x) < k
      {
        MaskCell(b, k - 1, y, x);
      }
    }
  }

  /** The block is drawn on exactly the board cells it covers. */
  lemma VisibleCellsExact(b: Block)
    requires IsShape(b.shape)
    ensures forall y, x :: (y, x) in VisibleCells(b) <==> InBounds(y, x) && Covers(b, y, x)
  {
    DrawnCellsComplete(b, 16);
  }

  /** The first loop of render_grid: every remembered cell is set back to
      what the board holds there. */
  function RestoreWrites(g: Cells, shadow: seq<(int, int)>): (w: seq<Write>)
    requires IsBoard(g) && InBoundsAll(shadow)
  {
    seq(|shadow|, i requires 0 <= i < |shadow| => Write(shadow[i].0, shadow[i].1, Shade(g, shadow[i].0, shadow[i].1)))
  }

  /** Writes of one shade to a list of cells, in order. */
  function ToWrites(cells: seq<(int, int)>, shade: int): (w: seq<Write>)
    ensures |w| == |cells|
  {
    seq(|cells|, i requires 0 <= i < |cells| => Write(cells[i].0, cells[i].1, shade))
  }

  /** The second loop of render_grid: the block's visible cells in its colour. */
  function DrawWrites(b: Block): (w: seq<Write>)
    requires IsShape(b.shape)
  {
    ToWrites(VisibleCells(b), b.color)
  }

  predicate WritesInBounds(w: seq<Write>) {
    forall i :: 0 <= i < |w| ==> InBounds(w[i].y, w[i].x)
  }

  /** The picture after a sequence of pixel writes, applied in order. */
  function Apply(f: Frame, w: seq<Write>): (f': Frame)
    requires IsFrame(f) && WritesInBounds(w)
    ensures IsFrame(f')
  {
    if w == [] then f
    else
      var last := w[|w| - 1];
      var g := Apply(f, w[..|w| - 1]);
      g[last.y := g[last.y][last.x := last.shade]]
  }

  /** A pixel that every write to it sets to `s` shows `s` afterwards if it
      was written at all, and is untouched otherwise. */
  lemma {:induction false} ApplyUniform(f: Frame, w: seq<Write>, y: int, x: int, s: int)
    requires IsFrame(f) && WritesInBounds(w) && InBounds(y, x)
    requires forall i :: 0 <= i < |w| && w[i].y == y && w[i].x == x ==> w[i].shade == s
    ensures Apply(f, w)[y][x] == if exists i :: 0 <= i < |w| && w[i].y == y && w[i].x == x then s else f[y][x]
  {
    if w != [] {
      var front := w[..|w| - 1];
      ApplyUniform(f, front, y, x, s);
      if exists i :: 0 <= i < |front| && front[i].y == y && front[i].x == x {
        var i :| 0 <= i < |front| && front[i].y == y && front[i].x == x;
        assert w[i] == front[i];
      }
      if exists i :: 0 <= i < |w| && w[i].y == y && w[i].x == x {
        var i :| 0 <= i < |w| && w[i].y == y && w[i].x == x;
        if i < |w| - 1 {
          assert front[i] == w[i];
        }
      }
    }
  }

  /** Writing `a` then `b` is writing `a + b`. */
  lemma {:induction false} ApplyConcat(f: Frame, a: seq<Write>, b: seq<Write>)
    requires IsFrame(f) && WritesInBounds(a) && WritesInBounds(b)
    ensures WritesInBounds(a + b)
    ensures Apply(f, a + b) == Apply(Apply(f, a), b)
  {
    if b == [] {
      assert a + b == a;
    } else {
      assert (a + b)[..|a + b| - 1] == a + b[..|b| - 1];
      ApplyConcat(f, a, b[..|b| - 1]);
    }
  }

  /** The render is as good as a full redraw: if the picture already showed
      the board on every cell that is not remembered from the last frame, then
      after the restore writes and the draw writes it shows the block on the
      cells it covers and the board everywhere else, so that the picture again
      shows the board outside the newly remembered cells. */
  lemma RenderRedraws(f: Frame, g: Cells, shadow: seq<(int, int)>, b: Block)
    requires IsFrame(f) && IsBoard(g) && InBoundsAll(shadow) && IsShape(b.shape)
    requires forall y, x :: InBounds(y, x) && (y, x) !in shadow ==> f[y][x] == Shade(g, y, x)
    ensures WritesInBounds(RestoreWrites(g, shadow)) && WritesInBounds(DrawWrites(b))
    ensures var f' := Apply(Apply(f, RestoreWrites(g, shadow)), DrawWrites(b));
      forall y, x :: InBounds(y, x) ==>
        f'[y][x] == if Covers(b, y, x) then b.color else Shade(g, y, x)
  {
    var restore, draw := RestoreWrites(g, shadow), DrawWrites(b);
    var cells := VisibleCells(b);
    VisibleCellsExact(b);
    var f1 := Apply(f, restore);
    forall y, x | InBounds(y, x)
      ensures Apply(f1, draw)[y][x] == if Covers(b, y, x) then b.color else Shade(g, y, x)
    {
      ApplyUniform(f, restore, y, x, Shade(g, y, x));
      ApplyUniform(f1, draw, y, x, b.color);
      if Covers(b, y, x) {
        var i :| 0 <= i < |cells| && cells[i] == (y, x);
        assert draw[i].y == y && draw[i].x == x;
      } else if (y, x) in shadow {
        var i :| 0 <= i < |shadow| && shadow[i] == (y, x);
        assert restore[i].y == y && restore[i].x == x;
      }
    }
  }
}
