/** Piece positions and the spawn coordinate. */
module Positions {

  /** Anchor of a shape's 4x4 box in field coordinates (two `usize`s). */
  datatype Position = Position(x: nat, y: nat)

  /** The spawn coordinate (`Position::init`). */
  function Init(): Position
  {
    Position(5, 0)
  }

  /** `n.checked_sub(1).unwrap_or(n)`: one less, but never below 0. */
  function SaturatingPred(n: nat): nat
  {
    if n >= 1 then n - 1 else n
  }

  /** The four kick candidates in the order they are tried: up, right, down, left. */
  function Candidates(pos: Position): seq<Position>
  {
    [ Position(pos.x, SaturatingPred(pos.y)),
      Position(pos.x + 1, pos.y),
      Position(pos.x, pos.y + 1),
      Position(SaturatingPred(pos.x), pos.y) ]
  }

  /** Every candidate is at most one cell from `pos` along one axis, in the
      order up, right, down, left; the up and left candidates stay at `pos`
      when that coordinate is already 0. */
  lemma CandidatesAreNeighbours(pos: Position)
    ensures |Candidates(pos)| == 4
    ensures forall c :: c in Candidates(pos) ==>
      (c.x == pos.x && pos.y - 1 <= c.y <= pos.y + 1) ||
      (c.y == pos.y && pos.x - 1 <= c.x <= pos.x + 1)
    ensures Candidates(pos)[0].x == pos.x && Candidates(pos)[0].y <= pos.y
    ensures Candidates(pos)[1].x == pos.x + 1
    ensures Candidates(pos)[2].y == pos.y + 1
    ensures Candidates(pos)[3].y == pos.y && Candidates(pos)[3].x <= pos.x
    ensures pos.y == 0 <==> Candidates(pos)[0] == pos
    ensures pos.x == 0 <==> Candidates(pos)[3] == pos
  {
  }
}

/** Kick resolution: the fallback placement tried when a rotated shape collides. */
module Kick {
  import opened Wrappers
  import opened Block
  import opened Positions
  import opened Collision

  /** The first candidate at which `block` does not collide with `g`. */
  function FirstFree(g: Grid, cands: seq<Position>, block: Shape): (r: Result<Position>)
    requires IsField(g)
    ensures r.Ok? ==> (exists i :: 0 <= i < |cands| && cands[i] == r.value &&
                        !Collides(g, cands[i], block) &&
                        forall j :: 0 <= j < i ==> Collides(g, cands[j], block))
    ensures r.Err? <==> forall i :: 0 <= i < |cands| ==> Collides(g, cands[i], block)
    decreases |cands|
  {
    if cands == [] then Err
    else if !Collides(g, cands[0], block) then Ok(cands[0])
    else
      var rest := FirstFree(g, cands[1..], block);
      assert rest.Ok? ==> (exists i :: 1 <= i < |cands| && cands[i] == rest.value &&
                             !Collides(g, cands[i], block) &&
                             forall j :: 0 <= j < i ==> Collides(g, cands[j], block))
      by {
        if rest.Ok? {
          var i :| 0 <= i < |cands| - 1 && cands[1..][i] == rest.value &&
            !Collides(g, cands[1..][i], block) &&
            forall j :: 0 <= j < i ==> Collides(g, cands[1..][j], block);
          assert forall j :: 1 <= j < i + 1 ==> cands[j] == cands[1..][j - 1];
        }
      }
      assert rest.Err? ==> forall i :: 1 <= i < |cands| ==> Collides(g, cands[i], block) by {
        if rest.Err? {
          assert forall i :: 1 <= i < |cands| ==> cands[i] == cands[1..][i - 1];
        }
      }
      rest
  }

  /** `super_rotation`: try the four neighbours of `pos` in order and return
      the first one where `block` fits, or `Err` when all four collide. */
  method SuperRotation(field: Grid, pos: Position, block: Shape) returns (r: Result<Position>)
    requires IsField(field)
    ensures r == FirstFree(field, Candidates(pos), block)
  {
    var diffPos := Candidates(pos);
    for i := 0 to 4
      invariant forall j :: 0 <= j < i ==> Collides(field, diffPos[j], block)
    {
      var hit := IsCollision(field, diffPos[i], block);
      if !hit {
        return Ok(diffPos[i]);
      }
    }
    return Err;
  }
}
