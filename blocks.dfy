/** The piece catalogue (Blocks.c, Blocks.h): a tetromino is a 4x4 occupancy
    mask anchored at the board position of its top-left corner, with a colour
    index. The C struct is copied by value throughout the game loop, so it is a
    datatype here; `RotateBlock90` returns the block the C function leaves
    behind in place. */
module Blocks {
  import opened Config

  /** `shape[row][col]`; the firmware stores 1 for an occupied cell, 0 for empty. */
  type Shape = seq<seq<bool>>

  datatype Block = Block(shape: Shape, x: int, y: int, color: int)

  predicate IsShape(s: Shape) {
    |s| == 4 && forall r :: 0 <= r < 4 ==> |s[r]| == 4
  }

  /** A block the firmware can hold: a 4x4 mask and a `uint8_t` colour. */
  predicate IsBlock(b: Block) {
    IsShape(b.shape) && 0 <= b.color < U8
  }

  function Bit(v: bool): nat { if v then 1 else 0 }

  function RowCount(row: seq<bool>): nat
    requires |row| == 4
  {
    Bit(row[0]) + Bit(row[1]) + Bit(row[2]) + Bit(row[3])
  }

  /** Number of occupied cells of a mask. */
  function CellCount(s: Shape): nat
    requires IsShape(s)
  {
    RowCount(s[0]) + RowCount(s[1]) + RowCount(s[2]) + RowCount(s[3])
  }

  /** The quarter turn of the 4x4 frame that `rotate_block_90` performs:
      cell (r, c) of the result is cell (3 - c, r) of the input. */
  function Rotated(s: Shape): (t: Shape)
    requires IsShape(s)
    ensures IsShape(t)
  {
    seq(4, r requires 0 <= r < 4 => seq(4, c requires 0 <= c < 4 => s[3 - c][r]))
  }

  /** rotate_block_90: fills a temporary 4x4 array with `temp[x][3-y] = shape[y][x]`
      and copies it back into the shape; position and colour are untouched. */
  method RotateBlock90(block: Block) returns (rotated: Block)
    requires IsShape(block.shape)
    ensures IsShape(rotated.shape)
    ensures forall r, c :: 0 <= r < 4 && 0 <= c < 4 ==> rotated.shape[r][c] == block.shape[3 - c][r]
    ensures rotated == block.(shape := Rotated(block.shape))
  {
    var temp := new bool[4, 4];
    for y := 0 to 4
      invariant forall r, c :: 0 <= r < 4 && 3 - y < c < 4 ==> temp[r, c] == block.shape[3 - c][r]
    {
      for x := 0 to 4
        invariant forall r, c :: 0 <= r < 4 && 3 - y < c < 4 ==> temp[r, c] == block.shape[3 - c][r]
        invariant forall r :: 0 <= r < x ==> temp[r, 3 - y] == block.shape[y][r]
      {
        temp[x, 3 - y] := block.shape[y][x];
      }
    }
    var shape: Shape := [];
    for y := 0 to 4
      invariant |shape| == y
      invariant forall r :: 0 <= r < y ==> |shape[r]| == 4
      invariant forall r, c :: 0 <= r < y && 0 <= c < 4 ==> shape[r][c] == temp[r, c]
    {
      var row: seq<bool> := [];
      for x := 0 to 4
        invariant |row| == x
        invariant forall c :: 0 <= c < x ==> row[c] == temp[y, c]
      {
        row := row + [temp[y, x]];
      }
      shape := shape + [row];
    }
    forall r | 0 <= r < 4
      ensures shape[r] == Rotated(block.shape)[r]
    {
    }
    rotated := block.(shape := shape);
  }

  /** A quarter turn moves no cell in or out of the mask. */
  lemma RotatedPreservesCount(s: Shape)
    requires IsShape(s)
    ensures CellCount(Rotated(s)) == CellCount(s)
  {
  }

  /** Two quarter turns are the half turn (r, c) -> (3 - r, 3 - c). */
  lemma RotatedTwice(s: Shape)
    requires IsShape(s)
    ensures forall r, c :: 0 <= r < 4 && 0 <= c < 4 ==> Rotated(Rotated(s))[r][c] == s[3 - r][3 - c]
  {
  }

  /** Four quarter turns give back the original mask. */
  lemma RotatedFourTimes(s: Shape)
    requires IsShape(s)
    ensures Rotated(Rotated(Rotated(Rotated(s)))) == s
  {
    var h := Rotated(Rotated(s));
    RotatedTwice(s);
    RotatedTwice(h);
    var t := Rotated(Rotated(h));
    forall r | 0 <= r < 4
      ensures t[r] == s[r]
    {
      assert forall c :: 0 <= c < 4 ==> t[r][c] == h[3 - r][3 - c] == s[r][c];
    }
  }

  /** assign_block_color: the colour becomes the block type, truncated to `uint8_t`. */
  function AssignBlockColor(block: Block, blockType: int): (b: Block)
    ensures b.shape == block.shape && b.x == block.x && b.y == block.y
    ensures 0 <= blockType < U8 ==> b.color == blockType
  {
    block.(color := blockType % U8)
  }

  // ---------------------------------------------------------------------------
  // The constant table: 7 types (I, J, L, O, S, T, Z) x 4 rotations.

  function Row(a: int, b: int, c: int, d: int): seq<bool> {
    [a == 1, b == 1, c == 1, d == 1]
  }

  function Entry(r0: seq<bool>, r1: seq<bool>, r2: seq<bool>, r3: seq<bool>, color: int): Block {
    Block([r0, r1, r2, r3], 0, 0, color)
  }

  const BLOCK_O: int := 3

  const I_ENTRIES: seq<Block> := [
    Entry(Row(0,0,0,0), Row(1,1,1,1), Row(0,0,0,0), Row(0,0,0,0), 0),
    Entry(Row(0,0,1,0), Row(0,0,1,0), Row(0,0,1,0), Row(0,0,1,0), 0),
    Entry(Row(0,0,0,0), Row(0,0,0,0), Row(1,1,1,1), Row(0,0,0,0), 0),
    Entry(Row(0,1,0,0), Row(0,1,0,0), Row(0,1,0,0), Row(0,1,0,0), 0)]
  const J_ENTRIES: seq<Block> := [
    Entry(Row(1,0,0,0), Row(1,1,1,0), Row(0,0,0,0), Row(0,0,0,0), 1),
    Entry(Row(0,1,1,0), Row(0,1,0,0), Row(0,1,0,0), Row(0,0,0,0), 1),
    Entry(Row(0,0,0,0), Row(1,1,1,0), Row(0,0,1,0), Row(0,0,0,0), 1),
    Entry(Row(0,1,0,0), Row(0,1,0,0), Row(1,1,0,0), Row(0,0,0,0), 1)]
  const L_ENTRIES: seq<Block> := [
    Entry(Row(0,0,1,0), Row(1,1,1,0), Row(0,0,0,0), Row(0,0,0,0), 2),
    Entry(Row(0,1,0,0), Row(0,1,0,0), Row(0,1,1,0), Row(0,0,0,0), 2),
    Entry(Row(0,0,0,0), Row(1,1,1,0), Row(1,0,0,0), Row(0,0,0,0), 2),
    Entry(Row(1,1,0,0), Row(0,1,0,0), Row(0,1,0,0), Row(0,0,0,0), 2)]
  const O_ENTRIES: seq<Block> := [
    Entry(Row(0,1,1,0), Row(0,1,1,0), Row(0,0,0,0), Row(0,0,0,0), 3),
    Entry(Row(0,1,1,0), Row(0,1,1,0), Row(0,0,0,0), Row(0,0,0,0), 3),
    Entry(Row(0,1,1,0), Row(0,1,1,0), Row(0,0,0,0), Row(0,0,0,0), 3),
    Entry(Row(0,1,1,0), Row(0,1,1,0), Row(0,0,0,0), Row(0,0,0,0), 3)]
  const S_ENTRIES: seq<Block> := [
    Entry(Row(0,1,1,0), Row(1,1,0,0), Row(0,0,0,0), Row(0,0,0,0), 4),
    Entry(Row(0,1,0,0), Row(0,1,1,0), Row(0,0,1,0), Row(0,0,0,0), 4),
    Entry(Row(0,0,0,0), Row(0,1,1,0), Row(1,1,0,0), Row(0,0,0,0), 4),
    Entry(Row(1,0,0,0), Row(1,1,0,0), Row(0,1,0,0), Row(0,0,0,0), 4)]
  const T_ENTRIES: seq<Block> := [
    Entry(Row(0,1,0,0), Row(1,1,1,0), Row(0,0,0,0), Row(0,0,0,0), 5),
    Entry(Row(0,1,0,0), Row(0,1,1,0), Row(0,1,0,0), Row(0,0,0,0), 5),
    Entry(Row(0,0,0,0), Row(1,1,1,0), Row(0,1,0,0), Row(0,0,0,0), 5),
    Entry(Row(0,1,0,0), Row(1,1,0,0), Row(0,1,0,0), Row(0,0,0,0), 5)]
  const Z_ENTRIES: seq<Block> := [
    Entry(Row(1,1,0,0), Row(0,1,1,0), Row(0,0,0,0), Row(0,0,0,0), 6),
    Entry(Row(0,0,1,0), Row(0,1,1,0), Row(0,1,0,0), Row(0,0,0,0), 6),
    Entry(Row(0,0,0,0), Row(1,1,0,0), Row(0,1,1,0), Row(0,0,0,0), 6),
    Entry(Row(0,1,0,0), Row(1,1,0,0), Row(1,0,0,0), Row(0,0,0,0), 6)]

  const BLOCKS: seq<seq<Block>> :=
    [I_ENTRIES, J_ENTRIES, L_ENTRIES, O_ENTRIES, S_ENTRIES, T_ENTRIES, Z_ENTRIES]

  predicate IsBlockType(t: int) { 0 <= t < NUM_BLOCKS }

  /** `blocks[t][k]`, the table lookup. */
  function TableEntry(t: int, k: int): (b: Block)
    requires IsBlockType(t) && 0 <= k < 4
    ensures IsBlock(b) && b.x == 0 && b.y == 0 && b.color == t
    ensures CellCount(b.shape) == 4
  {
    TableShapesWellFormed();
    BLOCKS[t][k]
  }

  predicate EntryWellFormed(b: Block, t: int) {
    IsBlock(b) && CellCount(b.shape) == 4 && b.x == 0 && b.y == 0 && b.color == t
  }

  // One lemma per piece type keeps each proof obligation small.

  lemma IEntriesWellFormed()
    ensures forall k :: 0 <= k < 4 ==> EntryWellFormed(I_ENTRIES[k], 0)
  {
    assert EntryWellFormed(I_ENTRIES[0], 0);
    assert EntryWellFormed(I_ENTRIES[1], 0);
    assert EntryWellFormed(I_ENTRIES[2], 0);
    assert EntryWellFormed(I_ENTRIES[3], 0);
  }

  lemma JEntriesWellFormed()
    ensures forall k :: 0 <= k < 4 ==> EntryWellFormed(J_ENTRIES[k], 1)
  {
    assert EntryWellFormed(J_ENTRIES[0], 1);
    assert EntryWellFormed(J_ENTRIES[1], 1);
    assert EntryWellFormed(J_ENTRIES[2], 1);
    assert EntryWellFormed(J_ENTRIES[3], 1);
  }

  lemma LEntriesWellFormed()
    ensures forall k :: 0 <= k < 4 ==> EntryWellFormed(L_ENTRIES[k], 2)
  {
    assert EntryWellFormed(L_ENTRIES[0], 2);
    assert EntryWellFormed(L_ENTRIES[1], 2);
    assert EntryWellFormed(L_ENTRIES[2], 2);
    assert EntryWellFormed(L_ENTRIES[3], 2);
  }

  lemma OEntriesWellFormed()
    ensures forall k :: 0 <= k < 4 ==> EntryWellFormed(O_ENTRIES[k], 3)
  {
    assert EntryWellFormed(O_ENTRIES[0], 3);
    assert EntryWellFormed(O_ENTRIES[1], 3);
    assert EntryWellFormed(O_ENTRIES[2], 3);
    assert EntryWellFormed(O_ENTRIES[3], 3);
  }

  lemma SEntriesWellFormed()
    ensures forall k :: 0 <= k < 4 ==> EntryWellFormed(S_ENTRIES[k], 4)
  {
    assert EntryWellFormed(S_ENTRIES[0], 4);
    assert EntryWellFormed(S_ENTRIES[1], 4);
    assert EntryWellFormed(S_ENTRIES[2], 4);
    assert EntryWellFormed(S_ENTRIES[3], 4);
  }

  lemma TEntriesWellFormed()
    ensures forall k :: 0 <= k < 4 ==> EntryWellFormed(T_ENTRIES[k], 5)
  {
    assert EntryWellFormed(T_ENTRIES[0], 5);
    assert EntryWellFormed(T_ENTRIES[1], 5);
    assert EntryWellFormed(T_ENTRIES[2], 5);
    assert EntryWellFormed(T_ENTRIES[3], 5);
  }

  lemma ZEntriesWellFormed()
    ensures forall k :: 0 <= k < 4 ==> EntryWellFormed(Z_ENTRIES[k], 6)
  {
    assert EntryWellFormed(Z_ENTRIES[0], 6);
    assert EntryWellFormed(Z_ENTRIES[1], 6);
    assert EntryWellFormed(Z_ENTRIES[2], 6);
    assert EntryWellFormed(Z_ENTRIES[3], 6);
  }

  /** The four rotations of type `t` are tetrominoes of colour `t` anchored at (0, 0). */
  lemma TypeWellFormed(t: int)
    requires IsBlockType(t)
    ensures |BLOCKS[t]| == 4 && forall k :: 0 <= k < 4 ==> EntryWellFormed(BLOCKS[t][k], t)
  {
    if t == 0 {
      IEntriesWellFormed();
    } else if t == 1 {
      JEntriesWellFormed();
    } else if t == 2 {
      LEntriesWellFormed();
    } else if t == 3 {
      OEntriesWellFormed();
    } else if t == 4 {
      SEntriesWellFormed();
    } else if t == 5 {
      TEntriesWellFormed();
    } else {
      ZEntriesWellFormed();
    }
  }

  /** Every table entry is a tetromino: four occupied cells, anchored at (0, 0),
      coloured with its own type index. */
  lemma TableShapesWellFormed()
    ensures |BLOCKS| == NUM_BLOCKS
    ensures forall t, k :: 0 <= t < NUM_BLOCKS && 0 <= k < 4 ==>
      |BLOCKS[t]| == 4 && EntryWellFormed(BLOCKS[t][k], t)
  {
    forall t | 0 <= t < NUM_BLOCKS
      ensures |BLOCKS[t]| == 4 && forall k :: 0 <= k < 4 ==> EntryWellFormed(BLOCKS[t][k], t)
    {
      TypeWellFormed(t);
    }
  }

  /** The four O-block entries are the same square. */
  lemma OBlockEntriesIdentical()
    ensures forall k :: 0 <= k < 4 ==> TableEntry(BLOCK_O, k) == TableEntry(BLOCK_O, 0)
  {
  }

  /** A quarter turn of the 4x4 frame moves the O square one column right and
      one row down (from columns 1-2 to 2-3, rows 0-1 to 1-2): the reason the
      game loop never rotates an O block. */
  lemma RotatingOMovesIt()
    ensures Rotated(TableEntry(BLOCK_O, 0).shape) != TableEntry(BLOCK_O, 0).shape
    ensures Rotated(TableEntry(BLOCK_O, 0).shape)[2][3] && !TableEntry(BLOCK_O, 0).shape[2][3]
  {
    var s := TableEntry(BLOCK_O, 0).shape;
    assert Rotated(s)[2][3] == s[0][2];
    assert Rotated(s)[2] != s[2];
  }

  /** The table's rotations 1-3 are not quarter turns of rotation 0: for the J
      block, `rotate_block_90` of entry 0 differs from entry 1 at cell (0, 3). */
  lemma TableRotationsNotQuarterTurns()
    ensures Rotated(TableEntry(1, 0).shape) != TableEntry(1, 1).shape
  {
    var s := TableEntry(1, 0).shape;
    assert Rotated(s)[0][3] == s[0][0];
    assert Rotated(s)[0] != TableEntry(1, 1).shape[0];
  }
}
