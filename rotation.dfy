/** The 90-degree matrix transforms applied to a shape by the two rotations. */
module Rotation {
  import opened Block

  /** Clockwise turn: `new[y][x] = old[3 - x][y]`. */
  function RotatedRight(s: Shape): Shape
  {
    seq(4, y requires 0 <= y < 4 => seq(4, x requires 0 <= x < 4 => s[3 - x][y]))
  }

  /** Counter-clockwise turn, the assignment `new[3 - x][y] = old[y][x]`
      read at cell `[r][c]`: `new[r][c] = old[c][3 - r]`. */
  function RotatedLeft(s: Shape): Shape
  {
    seq(4, r requires 0 <= r < 4 => seq(4, c requires 0 <= c < 4 => s[c][3 - r]))
  }

  /** A left turn undoes a right turn and a right turn undoes a left turn. */
  lemma TurnsAreInverse(s: Shape)
    ensures RotatedLeft(RotatedRight(s)) == s
    ensures RotatedRight(RotatedLeft(s)) == s
  {
    ShapeExt(RotatedLeft(RotatedRight(s)), s);
    ShapeExt(RotatedRight(RotatedLeft(s)), s);
  }

  /** Four right turns give back the original shape. */
  lemma FourRightTurnsAreIdentity(s: Shape)
    ensures RotatedRight(RotatedRight(RotatedRight(RotatedRight(s)))) == s
  {
    var half := RotatedRight(RotatedRight(s));
    assert forall y, x :: 0 <= y < 4 && 0 <= x < 4 ==> half[y][x] == s[3 - y][3 - x];
    ShapeExt(RotatedRight(RotatedRight(half)), s);
  }

  /** Both turns keep the number of occupied cells. */
  lemma TurnsKeepCellCount(s: Shape)
    ensures CellCount(RotatedRight(s)) == CellCount(s)
    ensures CellCount(RotatedLeft(s)) == CellCount(s)
  {
  }
}
