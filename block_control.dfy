/** The active-piece controller: locking, line clearing, moving, rotating,
    dropping and the landing sequence. */
module BlockControl {
  import opened Wrappers
  import opened Block
  import opened Rotation
  import opened Positions
  import opened Collision
  import opened Kick
  import opened GameState
  import opened GameControl

  /** Two grids with the same shape and the same cells are equal. */
  lemma GridExt(a: Grid, b: Grid)
    requires |a| == |b|
    requires forall r :: 0 <= r < |a| ==> |a[r]| == |b[r]|
    requires forall r, c :: 0 <= r < |a| && 0 <= c < |a[r]| ==> a[r][c] == b[r][c]
    ensures a == b
  {
    forall r | 0 <= r < |a|
      ensures a[r] == b[r]
    {
      assert forall c :: 0 <= c < |a[r]| ==> a[r][c] == b[r][c];
    }
  }

  /** `fix_block`: write every non-NONE cell of the active shape into the
      field at the active position; nothing else changes. */
  method FixBlock(game: Game)
    requires game.Valid() && Inside(game.field[..], game.pos, game.block)
    modifies game.field
    ensures game.Valid()
    ensures game.State() == old(game.State()).(field := Locked(old(game.field[..]), game.pos, game.block))
  {
    ghost var before := game.field[..];
    var field, pos, block := game.field, game.pos, game.block;
    for y := 0 to 4
      invariant forall r :: 0 <= r < |before| ==> |field[r]| == |before[r]|
      invariant forall r, c :: 0 <= r < |before| && 0 <= c < |before[r]| ==>
        field[r][c] == if Covers(pos, block, r, c) && r - pos.y < y
                       then block[r - pos.y][c - pos.x] else before[r][c]
    {
      for x := 0 to 4
        invariant forall r :: 0 <= r < |before| ==> |field[r]| == |before[r]|
        invariant forall r, c :: 0 <= r < |before| && 0 <= c < |before[r]| ==>
          field[r][c] == if Covers(pos, block, r, c) && (r - pos.y < y || (r - pos.y == y && c - pos.x < x))
                         then block[r - pos.y][c - pos.x] else before[r][c]
      {
        if block[y][x] != NONE {
          field[y + pos.y] := field[y + pos.y][x + pos.x := block[y][x]];
        }
      }
    }
    GridExt(field[..], Locked(before, pos, block));
  }

  /** `erase_line`: scan rows `1..H-2` top to bottom; a row whose columns
      `2..W-2` are all non-NONE is counted and rows `2..=y` take the row
      above them. Returns the number of rows counted. */
  method EraseLine(field: array<seq<Color>>) returns (count: nat)
    requires IsField(field[..])
    modifies field
    ensures (field[..], count) == EraseScan(old(field[..]), 1)
  {
    ghost var start := field[..];
    ghost var cur := start;
    var height, width := field.Length, |field[0]|;
    count := 0;
    for y := 1 to height - 2
      invariant field[..] == cur
      invariant ErasedSoFar(start, cur, y, count)
    {
      EraseAdvance(start, cur, y, count);
      var row := field[y];
      var canErase := true;
      var x := 2;
      while x < width - 2
        invariant 2 <= x
        invariant canErase
        invariant forall x' :: 2 <= x' < x && x' < width - 2 ==> row[x'] != NONE
        decreases width - 2 - x
      {
        if row[x] == NONE {
          canErase := false;
          break;
        }
        x := x + 1;
      }
      assert canErase == RowFull(cur, y);
      if canErase {
        count := count + 1;
        ShiftRows(field, y);
        cur := ShiftDown(cur, y);
      }
    }
    EraseDone(start, cur, count);
  }

  /** The inner loop of `erase_line` for a full row `y`: from `y` up to row 2,
      each row takes a copy of the row above it. */
  method ShiftRows(field: array<seq<Color>>, y: nat)
    requires IsField(field[..]) && 1 <= y < field.Length
    modifies field
    ensures field[..] == ShiftDown(old(field[..]), y)
  {
    ghost var before := field[..];
    var y2 := y;
    while y2 >= 2
      invariant 1 <= y2 <= y
      invariant forall r {:trigger field[r]} :: 0 <= r < field.Length ==>
        field[r] == if y2 < r <= y then before[r - 1] else before[r]
    {
      field[y2] := field[y2 - 1];
      y2 := y2 - 1;
    }
    ShiftedRows(field[..], before, y);
  }

  /** `move_block`: go to `newPos` when the active shape fits there; otherwise
      nothing changes. */
  method MoveBlock(game: Game, newPos: Position)
    requires game.Valid()
    modifies game
    ensures game.Valid()
    ensures game.State() ==
      if Collides(game.field[..], newPos, game.block) then old(game.State())
      else old(game.State()).(pos := newPos)
  {
    var hit := IsCollision(game.field[..], newPos, game.block);
    if !hit {
      game.pos := newPos;
    }
  }

  /** The state after trying to replace the active shape by `shape`: keep the
      position when the shape fits there, else take the first free kick
      candidate, else change nothing. */
  function Rotated(v: View, shape: Shape): (w: View)
    requires IsField(v.field)
    ensures w.field == v.field && w.hold == v.hold && w.holded == v.holded
    ensures w.score == v.score && w.line == v.line
    ensures w == v || (w.block == shape && !Collides(v.field, w.pos, shape) &&
                       (w.pos == v.pos || w.pos in Candidates(v.pos)))
    ensures w.pos != v.pos ==> Collides(v.field, v.pos, shape)
    ensures w.block != shape ==>
      Collides(v.field, v.pos, shape) && forall c :: c in Candidates(v.pos) ==> Collides(v.field, c, shape)
  {
    if !Collides(v.field, v.pos, shape) then v.(block := shape)
    else match FirstFree(v.field, Candidates(v.pos), shape)
      case Ok(p) => v.(pos := p, block := shape)
      case Err => v
  }

  /** `rotate_right`: turn the active shape clockwise, with kick fallback. */
  method RotateRight(game: Game)
    requires game.Valid()
    modifies game
    ensures game.Valid()
    ensures game.State() == Rotated(old(game.State()), RotatedRight(old(game.block)))
  {
    var newShape := EMPTY_SHAPE;
    for y := 0 to 4
      invariant forall y', x' :: 0 <= y' < y && 0 <= x' < 4 ==> newShape[y'][x'] == game.block[3 - x'][y']
    {
      for x := 0 to 4
        invariant forall y', x' :: 0 <= y' < y && 0 <= x' < 4 ==> newShape[y'][x'] == game.block[3 - x'][y']
        invariant forall x' :: 0 <= x' < x ==> newShape[y][x'] == game.block[3 - x'][y]
      {
        newShape := WithCell(newShape, y, x, game.block[3 - x][y]);
      }
    }
    ShapeExt(newShape, RotatedRight(game.block));
    Commit(game, newShape);
  }

  /** `rotate_left`: turn the active shape counter-clockwise, with kick fallback. */
  method RotateLeft(game: Game)
    requires game.Valid()
    modifies game
    ensures game.Valid()
    ensures game.State() == Rotated(old(game.State()), RotatedLeft(old(game.block)))
  {
    var newShape := EMPTY_SHAPE;
    for y := 0 to 4
      invariant forall y', x' :: 0 <= y' < y && 0 <= x' < 4 ==> newShape[3 - x'][y'] == game.block[y'][x']
    {
      for x := 0 to 4
        invariant forall y', x' :: 0 <= y' < y && 0 <= x' < 4 ==> newShape[3 - x'][y'] == game.block[y'][x']
        invariant forall x' :: 0 <= x' < x ==> newShape[3 - x'][y] == game.block[y][x']
      {
        newShape := WithCell(newShape, 3 - x, y, game.block[y][x]);
      }
    }
    ShapeExt(newShape, RotatedLeft(game.block));
    Commit(game, newShape);
  }

  /** The common tail of both rotations: keep the position if `newShape`
      fits there, else try the kick candidates. */
  method Commit(game: Game, newShape: Shape)
    requires game.Valid()
    modifies game
    ensures game.Valid()
    ensures game.State() == Rotated(old(game.State()), newShape)
  {
    var hit := IsCollision(game.field[..], game.pos, newShape);
    if !hit {
      game.block := newShape;
    } else {
      var kicked := SuperRotation(game.field[..], game.pos, newShape);
      if kicked.Ok? {
        game.pos := kicked.value;
        game.block := newShape;
      }
    }
  }

  /** `ghost_pos`: the resting position of the active shape, found by moving
      a copy of the position down while the next row does not collide. */
  method GhostPos(field: Grid, pos: Position, block: Shape) returns (ghostPos: Position)
    requires IsField(field) && Lands(field, pos, block)
    ensures ghostPos == DropTarget(field, pos, block)
  {
    ghost var target := DropTarget(field, pos, block);
    ghostPos := pos;
    var hit := IsCollision(field, Position(ghostPos.x, ghostPos.y + 1), block);
    while !hit
      invariant DropsTo(field, ghostPos, block, target)
      invariant hit == Collides(field, Position(ghostPos.x, ghostPos.y + 1), block)
      decreases |field| - ghostPos.y
    {
      DropAdvance(field, ghostPos, block, target);
      ghostPos := ghostPos.(y := ghostPos.y + 1);
      hit := IsCollision(field, Position(ghostPos.x, ghostPos.y + 1), block);
    }
    DropArrive(field, ghostPos, block, target);
  }

  /** `hard_drop`: move the active piece down one row at a time while the
      next row does not collide; it ends where `ghost_pos` would put it. */
  method HardDrop(game: Game)
    requires game.Valid() && Lands(game.field[..], game.pos, game.block)
    modifies game
    ensures game.Valid()
    ensures game.State() == old(game.State()).(pos := DropTarget(old(game.field[..]), old(game.pos), old(game.block)))
  {
    var field, block, pos := game.field[..], game.block, game.pos;
    ghost var before := game.State();
    ghost var target := DropTarget(field, pos, block);
    var hit := IsCollision(field, Position(pos.x, pos.y + 1), block);
    while !hit
      invariant DropsTo(field, pos, block, target)
      invariant hit == Collides(field, Position(pos.x, pos.y + 1), block)
      invariant game.pos == pos
      modifies game`pos
      decreases |field| - pos.y
    {
      DropAdvance(field, pos, block, target);
      pos := pos.(y := pos.y + 1);
      game.pos := pos;
      hit := IsCollision(field, Position(pos.x, pos.y + 1), block);
    }
    DropArrive(field, pos, block, target);
    assert game.State() == before.(pos := target);
    MoveBlock(game, pos);
  }

  /** `landing`: lock the piece, clear full rows, add the score for the number
      of rows cleared and the rows themselves, then spawn `kind`. The hold
      flag is reset only when the spawn succeeds; `Err` is game over. */
  method Landing(game: Game, kind: BlockKind) returns (r: Result<()>)
    requires game.Valid() && Inside(game.field[..], game.pos, game.block)
    requires CountFull(Locked(game.field[..], game.pos, game.block), 1) < |SCORE_TABLE|
    modifies game, game.field
    ensures game.Valid()
    ensures var cleared := EraseScan(Locked(old(game.field[..]), old(game.pos), old(game.block)), 1);
      game.State() == old(game.State()).(
        field := cleared.0,
        score := old(game.score) + SCORE_TABLE[cleared.1],
        line := old(game.line) + cleared.1,
        pos := Init(),
        block := BaseShape(kind),
        holded := if r.Ok? then false else old(game.holded))
    ensures r.Err? <==> Collides(game.field[..], Init(), BaseShape(kind))
  {
    FixBlock(game);
    var line := EraseLine(game.field);
    game.score := game.score + SCORE_TABLE[line];
    game.line := game.line + line;
    r := SpawnBlock(game, kind);
    if r.Err? {
      return;
    }
    game.holded := false;
  }
}
