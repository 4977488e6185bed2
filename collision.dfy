/** The field as a value, collision between a shape and the field, and the
    specifications of locking, line clearing and dropping. */
module Collision {
  import opened Block
  import opened Positions

  /** The field: rows of cell colours, indexed `[y][x]`. */
  type Grid = seq<seq<Color>>

  function Height(g: Grid): nat
  {
    |g|
  }

  function Width(g: Grid): nat
  {
    if |g| == 0 then 0 else |g[0]|
  }

  /** A well-formed field: rectangular, at least 3 rows and 2 columns, so that
      the row range `1..H-2` and the column range `2..W-2` are well formed. */
  predicate IsField(g: Grid)
  {
    |g| >= 3 && |g[0]| >= 2 && forall y :: 0 <= y < |g| ==> |g[y]| == |g[0]|
  }

  /** Shape cell `[y][x]` at `pos` is non-NONE, maps inside the field, and
      the field cell under it is non-NONE. */
  predicate Hit(g: Grid, pos: Position, block: Shape, y: int, x: int)
    requires IsField(g)
  {
    0 <= y < 4 && 0 <= x < 4 &&
    y + pos.y < Height(g) && x + pos.x < Width(g) &&
    block[y][x] != NONE && g[y + pos.y][x + pos.x] != NONE
  }

  /** `block` at `pos` overlaps a non-NONE field cell; shape cells mapped
      outside the field are skipped. */
  predicate Collides(g: Grid, pos: Position, block: Shape)
    requires IsField(g)
  {
    exists y, x :: 0 <= y < 4 && 0 <= x < 4 && Hit(g, pos, block, y, x)
  }

  /** `is_collision`: scan the 16 shape cells, skipping those outside the
      field, and stop at the first overlap. */
  method IsCollision(field: Grid, pos: Position, block: Shape) returns (hit: bool)
    requires IsField(field)
    ensures hit == Collides(field, pos, block)
  {
    ghost var g := field;
    for y := 0 to 4
      invariant forall y', x' :: 0 <= y' < y && 0 <= x' < 4 ==> !Hit(g, pos, block, y', x')
    {
      for x := 0 to 4
        invariant forall y', x' :: 0 <= y' < y && 0 <= x' < 4 ==> !Hit(g, pos, block, y', x')
        invariant forall x' :: 0 <= x' < x ==> !Hit(g, pos, block, y, x')
      {
        if y + pos.y >= |field| || x + pos.x >= |field[0]| {
          continue;
        }
        if block[y][x] != NONE && field[y + pos.y][x + pos.x] != NONE {
          assert Hit(g, pos, block, y, x);
          return true;
        }
      }
    }
    return false;
  }

  /** A shape cell that maps outside the field never decides a collision:
      whatever colour it holds, the answer is the same. */
  lemma OutsideCellIgnored(g: Grid, pos: Position, block: Shape, y: nat, x: nat, c: Color)
    requires IsField(g) && y < 4 && x < 4
    requires y + pos.y >= Height(g) || x + pos.x >= Width(g)
    ensures Collides(g, pos, block) == Collides(g, pos, WithCell(block, y, x, c))
  {
    var other := WithCell(block, y, x, c);
    if Collides(g, pos, block) {
      var y', x' :| 0 <= y' < 4 && 0 <= x' < 4 && Hit(g, pos, block, y', x');
      assert Hit(g, pos, other, y', x');
    }
    if Collides(g, pos, other) {
      var y', x' :| 0 <= y' < 4 && 0 <= x' < 4 && Hit(g, pos, other, y', x');
      assert Hit(g, pos, block, y', x');
    }
  }

  // ---------------------------------------------------------------- locking

  /** Every non-NONE cell of `block` at `pos` lies inside the field. */
  predicate Inside(g: Grid, pos: Position, block: Shape)
    requires IsField(g)
  {
    forall y, x :: 0 <= y < 4 && 0 <= x < 4 && block[y][x] != NONE ==>
      y + pos.y < Height(g) && x + pos.x < Width(g)
  }

  /** Field cell `(y, x)` lies under a non-NONE cell of `block` at `pos`. */
  predicate Covers(pos: Position, block: Shape, y: int, x: int)
  {
    pos.y <= y < pos.y + 4 && pos.x <= x < pos.x + 4 && block[y - pos.y][x - pos.x] != NONE
  }

  /** The field after writing every non-NONE cell of `block` at `pos`. */
  function Locked(g: Grid, pos: Position, block: Shape): (r: Grid)
    requires IsField(g)
    ensures IsField(r) && Height(r) == Height(g) && Width(r) == Width(g)
  {
    seq(|g|, y requires 0 <= y < |g| =>
      seq(|g[y]|, x requires 0 <= x < |g[y]| =>
        if Covers(pos, block, y, x) then block[y - pos.y][x - pos.x] else g[y][x]))
  }

  /** Locking keeps every occupied field cell occupied, and a locked piece
      that has a cell inside the field collides at the position it was locked at. */
  lemma LockedPieceOccupiesItsCells(g: Grid, pos: Position, block: Shape)
    requires IsField(g)
    ensures forall y, x :: 0 <= y < Height(g) && 0 <= x < Width(g) && g[y][x] != NONE ==>
      Locked(g, pos, block)[y][x] != NONE
    ensures (exists y, x :: 0 <= y < 4 && 0 <= x < 4 && block[y][x] != NONE &&
              y + pos.y < Height(g) && x + pos.x < Width(g))
      ==> Collides(Locked(g, pos, block), pos, block)
  {
    var r := Locked(g, pos, block);
    if exists y, x :: 0 <= y < 4 && 0 <= x < 4 && block[y][x] != NONE &&
         y + pos.y < Height(g) && x + pos.x < Width(g)
    {
      var y, x :| 0 <= y < 4 && 0 <= x < 4 && block[y][x] != NONE &&
         y + pos.y < Height(g) && x + pos.x < Width(g);
      assert Covers(pos, block, y + pos.y, x + pos.x);
      assert Hit(r, pos, block, y, x);
    }
  }

  // ---------------------------------------------------------- line clearing

  /** Every scanned column (`2..W-2`) of row `y` is non-NONE. */
  predicate RowFull(g: Grid, y: nat)
    requires IsField(g) && y < Height(g)
  {
    forall x :: 2 <= x < Width(g) - 2 ==> g[y][x] != NONE
  }

  /** Rows `2..=y` each take the row above them; rows 0, 1 and those below `y` stay. */
  function ShiftDown(g: Grid, y: nat): (r: Grid)
    requires IsField(g) && y < Height(g)
    ensures IsField(r) && Height(r) == Height(g) && Width(r) == Width(g)
  {
    seq(|g|, r requires 0 <= r < |g| => if 2 <= r <= y then g[r - 1] else g[r])
  }

  /** A grid whose rows are those of `ShiftDown(g, y)` is that grid. */
  lemma ShiftedRows(h: Grid, g: Grid, y: nat)
    requires IsField(g) && y < Height(g) && |h| == |g|
    requires forall r :: 0 <= r < |g| ==> h[r] == if 1 < r <= y then g[r - 1] else g[r]
    ensures h == ShiftDown(g, y)
  {
    assert forall r :: 0 <= r < |g| ==> h[r] == ShiftDown(g, y)[r];
  }

  /** Number of full rows among the scanned rows `y..H-3`. */
  function CountFull(g: Grid, y: nat): nat
    requires IsField(g)
    decreases Height(g) - y
  {
    if y >= Height(g) - 2 then 0
    else (if RowFull(g, y) then 1 else 0) + CountFull(g, y + 1)
  }

  /** `CountFull` only looks at the rows it scans. */
  lemma {:induction false} CountFullReadsScannedRows(g: Grid, h: Grid, y: nat)
    requires IsField(g) && IsField(h) && Height(g) == Height(h) && Width(g) == Width(h)
    requires forall k :: y <= k < Height(g) - 2 ==> g[k] == h[k]
    ensures CountFull(g, y) == CountFull(h, y)
    decreases Height(g) - y
  {
    if y < Height(g) - 2 {
      CountFullReadsScannedRows(g, h, y + 1);
    }
  }

  /** The scan of `erase_line` from row `y` on: a full row is counted and the
      rows above it shift down one, then the scan goes on at the next row.
      Returns the new field and the number of rows counted. */
  function EraseScan(g: Grid, y: nat): (r: (Grid, nat))
    requires IsField(g) && 1 <= y <= Height(g) - 2
    ensures IsField(r.0) && Height(r.0) == Height(g) && Width(r.0) == Width(g)
    ensures r.1 == CountFull(g, y)
    decreases Height(g) - y
  {
    if y == Height(g) - 2 then (g, 0)
    else if RowFull(g, y) then
      var shifted := ShiftDown(g, y);
      CountFullReadsScannedRows(g, shifted, y + 1);
      var rest := EraseScan(shifted, y + 1);
      (rest.0, rest.1 + 1)
    else
      EraseScan(g, y + 1)
  }

  /** The scan never touches rows 0 and 1 (the top wall row and the row that
      is only ever copied down) nor the two bottom rows, counts at most one
      row per scanned row, and leaves a field with no full row unchanged. */
  lemma {:induction false} EraseScanFrame(g: Grid, y: nat)
    requires IsField(g) && 1 <= y <= Height(g) - 2
    ensures var r := EraseScan(g, y);
      r.1 <= Height(g) - 2 - y &&
      r.0[0] == g[0] && r.0[1] == g[1] &&
      r.0[Height(g) - 2] == g[Height(g) - 2] && r.0[Height(g) - 1] == g[Height(g) - 1] &&
      (r.1 == 0 ==> r.0 == g)
    decreases Height(g) - y
  {
    if y < Height(g) - 2 {
      if RowFull(g, y) {
        EraseScanFrame(ShiftDown(g, y), y + 1);
      } else {
        EraseScanFrame(g, y + 1);
      }
    }
  }

  /** Only rows inside the scan range are ever counted: a field with no full
      scanned row is returned unchanged with count 0. */
  lemma NoFullRowNoChange(g: Grid)
    requires IsField(g)
    requires forall k :: 1 <= k < Height(g) - 2 ==> !RowFull(g, k)
    ensures EraseScan(g, 1) == (g, 0)
  {
    NoFullRowCountsZero(g, 1);
    EraseScanFrame(g, 1);
  }

  lemma {:induction false} NoFullRowCountsZero(g: Grid, y: nat)
    requires IsField(g)
    requires forall k :: y <= k < Height(g) - 2 ==> !RowFull(g, k)
    ensures CountFull(g, y) == 0
    decreases Height(g) - y
  {
    if y < Height(g) - 2 {
      NoFullRowCountsZero(g, y + 1);
    }
  }

  /** Rows `y0..y-1` that are not full are passed over without any change. */
  lemma {:induction false} SkipFreeRows(g: Grid, y0: nat, y: nat)
    requires IsField(g) && 1 <= y0 <= y <= Height(g) - 2
    requires forall k :: y0 <= k < y ==> !RowFull(g, k)
    ensures EraseScan(g, y0) == EraseScan(g, y)
    decreases y - y0
  {
    if y0 < y {
      SkipFreeRows(g, y0 + 1, y);
    }
  }

  /** A single full row `y` is cleared: the rows above it move down one and
      the count is 1. */
  lemma SingleFullRow(g: Grid, y: nat)
    requires IsField(g) && 1 <= y < Height(g) - 2 && RowFull(g, y)
    requires forall k :: 1 <= k < Height(g) - 2 && k != y ==> !RowFull(g, k)
    ensures EraseScan(g, 1) == (ShiftDown(g, y), 1)
  {
    var s := ShiftDown(g, y);
    SkipFreeRows(g, 1, y);
    forall k | y + 1 <= k < Height(s) - 2
      ensures !RowFull(s, k)
    {
      assert s[k] == g[k] && !RowFull(g, k);
    }
    NoFullRowCountsZero(s, y + 1);
    EraseScanFrame(s, y + 1);
  }

  /** A full row 1 is counted by every scan but never cleared, since the shift
      only writes rows `2..=y`: it stays full and is counted again next time. */
  lemma FullRowOneStays(g: Grid)
    requires IsField(g) && Height(g) > 3 && RowFull(g, 1)
    ensures EraseScan(g, 1).1 >= 1
    ensures EraseScan(g, 1).0[1] == g[1] && RowFull(EraseScan(g, 1).0, 1)
  {
    EraseScanFrame(g, 1);
    var r := EraseScan(g, 1);
    assert forall x :: 2 <= x < Width(g) - 2 ==> r.0[1][x] == g[1][x];
  }

  // --------------------------------------------------------------- dropping

  /** Some position straight below `pos` collides, so a downward scan stops. */
  ghost predicate Lands(g: Grid, pos: Position, block: Shape)
    requires IsField(g)
  {
    exists k :: pos.y < k && Collides(g, Position(pos.x, k), block)
  }

  /** A colliding position has its row above the bottom of the field. */
  lemma CollisionIsAboveBottom(g: Grid, pos: Position, block: Shape)
    requires IsField(g) && Collides(g, pos, block)
    ensures pos.y < Height(g)
  {
  }

  /** While the scan goes on, the piece stays above the bottom row and still lands. */
  lemma LandsBelow(g: Grid, pos: Position, block: Shape)
    requires IsField(g) && Lands(g, pos, block)
    ensures pos.y + 1 < Height(g)
    ensures !Collides(g, Position(pos.x, pos.y + 1), block) ==> Lands(g, Position(pos.x, pos.y + 1), block)
  {
    var k :| pos.y < k && Collides(g, Position(pos.x, k), block);
    CollisionIsAboveBottom(g, Position(pos.x, k), block);
    if !Collides(g, Position(pos.x, pos.y + 1), block) {
      assert pos.y + 1 < k;
    }
  }

  /** The lowest position reached by moving `pos` down one row at a time
      while the next row down does not collide. */
  ghost function DropTarget(g: Grid, pos: Position, block: Shape): (r: Position)
    requires IsField(g) && Lands(g, pos, block)
    ensures r.x == pos.x && pos.y <= r.y
    ensures Collides(g, Position(r.x, r.y + 1), block)
    decreases Height(g) - pos.y
  {
    LandsBelow(g, pos, block);
    var below := Position(pos.x, pos.y + 1);
    if Collides(g, below, block) then pos else DropTarget(g, below, block)
  }

  /** Every row passed on the way down is free: the drop target is the
      first position above a collision. */
  lemma {:induction false} DropPassesOnlyFreeRows(g: Grid, pos: Position, block: Shape)
    requires IsField(g) && Lands(g, pos, block)
    ensures forall k :: pos.y < k <= DropTarget(g, pos, block).y ==> !Collides(g, Position(pos.x, k), block)
    decreases Height(g) - pos.y
  {
    var below := Position(pos.x, pos.y + 1);
    LandsBelow(g, pos, block);
    if !Collides(g, below, block) {
      DropPassesOnlyFreeRows(g, below, block);
    }
  }

  /** A piece that starts free is still free where it comes to rest. */
  lemma DropTargetIsFree(g: Grid, pos: Position, block: Shape)
    requires IsField(g) && Lands(g, pos, block) && !Collides(g, pos, block)
    ensures !Collides(g, DropTarget(g, pos, block), block)
  {
    var t := DropTarget(g, pos, block);
    if t.y > pos.y {
      DropPassesOnlyFreeRows(g, pos, block);
      assert t == Position(pos.x, t.y);
    }
  }

  /** `pos` lands and falls to `target`: the loop invariant of both drops. */
  ghost predicate DropsTo(g: Grid, pos: Position, block: Shape, target: Position)
  {
    IsField(g) && Lands(g, pos, block) && DropTarget(g, pos, block) == target
  }

  /** One step of the drop loop: when the next row is free, the position one
      row down still lands and falls to the same target. */
  lemma DropAdvance(g: Grid, pos: Position, block: Shape, target: Position)
    requires DropsTo(g, pos, block, target) && !Collides(g, Position(pos.x, pos.y + 1), block)
    ensures pos.y + 1 < Height(g)
    ensures DropsTo(g, Position(pos.x, pos.y + 1), block, target)
  {
    LandsBelow(g, pos, block);
  }

  /** The drop loop stops at its target: when the next row collides, the
      current position is the drop target. */
  lemma DropArrive(g: Grid, pos: Position, block: Shape, target: Position)
    requires DropsTo(g, pos, block, target) && Collides(g, Position(pos.x, pos.y + 1), block)
    ensures pos == target
  {
    LandsBelow(g, pos, block);
  }

  /** The loop invariant of `erase_line`: `count` rows were counted so far and
      scanning `g` from row `y` on finishes the scan of `start` from row 1. */
  ghost predicate ErasedSoFar(start: Grid, g: Grid, y: nat, count: nat)
  {
    IsField(start) && IsField(g) && Height(g) == Height(start) && Width(g) == Width(start) &&
    1 <= y <= Height(g) - 2 &&
    var rest := EraseScan(g, y); (rest.0, count + rest.1) == EraseScan(start, 1)
  }

  /** One row of the `erase_line` scan keeps the invariant: a full row is
      counted and shifted away, any other row is passed over. */
  lemma EraseAdvance(start: Grid, g: Grid, y: nat, count: nat)
    requires ErasedSoFar(start, g, y, count) && y < Height(g) - 2
    ensures RowFull(g, y) ==> ErasedSoFar(start, ShiftDown(g, y), y + 1, count + 1)
    ensures !RowFull(g, y) ==> ErasedSoFar(start, g, y + 1, count)
  {
  }

  /** When the scan has reached row `H-2` the invariant gives the result. */
  lemma EraseDone(start: Grid, g: Grid, count: nat)
    requires IsField(g) && ErasedSoFar(start, g, Height(g) - 2, count)
    ensures (g, count) == EraseScan(start, 1)
  {
  }

  /** Every cell of the row is non-NONE. */
  predicate RowOccupied(row: seq<Color>)
  {
    forall c :: 0 <= c < |row| ==> row[c] != NONE
  }

  /** A floor whose cells are all occupied stops every piece that has a cell
      above it: if the piece has a non-NONE cell in a column inside the field
      and that cell is above the last row, the downward scan ends. */
  lemma FloorStopsPiece(g: Grid, pos: Position, block: Shape, y: nat, x: nat)
    requires IsField(g)
    requires RowOccupied(g[Height(g) - 1])
    requires y < 4 && x < 4 && block[y][x] != NONE
    requires x + pos.x < Width(g) && y + pos.y < Height(g) - 1
    ensures Lands(g, pos, block)
  {
    var k := Height(g) - 1 - y;
    assert Hit(g, Position(pos.x, k), block, y, x);
  }
}
