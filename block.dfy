/** The block catalog: cell colours, the seven piece kinds and their base shapes. */
module Block {

  /** A cell colour (`BlockColor`, a `usize` in the game). */
  type Color = nat

  const NONE: Color := 0
  const WALL: Color := 1
  const GHOST: Color := 2
  const COLOR_I: Color := 3
  const COLOR_O: Color := 4
  const COLOR_S: Color := 5
  const COLOR_Z: Color := 6
  const COLOR_J: Color := 7
  const COLOR_L: Color := 8
  const COLOR_T: Color := 9

  /** Number of entries of the colour-to-glyph table used by the renderer. */
  const COLOR_TABLE_LENGTH: nat := 10

  /** The seven tetromino kinds, in declaration order. */
  datatype BlockKind = I | O | S | Z | J | L | T {

    /** The kind's discriminant (`kind as usize`), an index into `BLOCKS`. */
    function Index(): (k: nat)
      ensures k < 7
    {
      match this
      case I => 0
      case O => 1
      case S => 2
      case Z => 3
      case J => 4
      case L => 5
      case T => 6
    }

    /** The colour constant of the kind. */
    function Color(): (c: Color)
      ensures c == Index() + 3
    {
      match this
      case I => COLOR_I
      case O => COLOR_O
      case S => COLOR_S
      case Z => COLOR_Z
      case J => COLOR_J
      case L => COLOR_L
      case T => COLOR_T
    }
  }

  predicate Is4x4(s: seq<seq<Color>>)
  {
    |s| == 4 && forall y :: 0 <= y < 4 ==> |s[y]| == 4
  }

  /** A piece shape: a 4x4 matrix of colours, indexed `[y][x]`. */
  type Shape = s: seq<seq<Color>> | Is4x4(s)
    witness [[0, 0, 0, 0], [0, 0, 0, 0], [0, 0, 0, 0], [0, 0, 0, 0]]

  /** `s` with cell `[y][x]` set to `c`. */
  function WithCell(s: Shape, y: nat, x: nat, c: Color): (r: Shape)
    requires y < 4 && x < 4
    ensures r[y][x] == c
    ensures forall y', x' :: 0 <= y' < 4 && 0 <= x' < 4 && (y' != y || x' != x) ==> r[y'][x'] == s[y'][x']
  {
    var row: seq<Color> := s[y][x := c];
    s[y := row]
  }

  /** The all-NONE shape (`Default::default()`). */
  const EMPTY_SHAPE: Shape := [[0, 0, 0, 0], [0, 0, 0, 0], [0, 0, 0, 0], [0, 0, 0, 0]]

  /** The base shape of every kind, indexed by `BlockKind.Index()`. */
  const BLOCKS: seq<Shape> := [
    // I
    [[0, 0, 0, 0], [0, 0, 0, 0], [COLOR_I, COLOR_I, COLOR_I, COLOR_I], [0, 0, 0, 0]],
    // O
    [[0, 0, 0, 0], [0, COLOR_O, COLOR_O, 0], [0, COLOR_O, COLOR_O, 0], [0, 0, 0, 0]],
    // S
    [[0, 0, 0, 0], [0, COLOR_S, COLOR_S, 0], [COLOR_S, COLOR_S, 0, 0], [0, 0, 0, 0]],
    // Z
    [[0, 0, 0, 0], [COLOR_Z, COLOR_Z, 0, 0], [0, COLOR_Z, COLOR_Z, 0], [0, 0, 0, 0]],
    // J
    [[0, 0, 0, 0], [COLOR_J, 0, 0, 0], [COLOR_J, COLOR_J, COLOR_J, 0], [0, 0, 0, 0]],
    // L
    [[0, 0, 0, 0], [0, 0, COLOR_L, 0], [COLOR_L, COLOR_L, COLOR_L, 0], [0, 0, 0, 0]],
    // T
    [[0, 0, 0, 0], [0, COLOR_T, 0, 0], [COLOR_T, COLOR_T, COLOR_T, 0], [0, 0, 0, 0]]
  ]

  /** The base shape of a kind (`BLOCKS[kind as usize]`). */
  function BaseShape(kind: BlockKind): Shape
  {
    BLOCKS[kind.Index()]
  }

  function Filled(c: Color): nat
  {
    if c == NONE then 0 else 1
  }

  function RowCount(row: seq<Color>): nat
    requires |row| == 4
  {
    Filled(row[0]) + Filled(row[1]) + Filled(row[2]) + Filled(row[3])
  }

  /** Number of non-NONE cells of a shape. */
  function CellCount(s: Shape): nat
  {
    RowCount(s[0]) + RowCount(s[1]) + RowCount(s[2]) + RowCount(s[3])
  }

  /** Two shapes that agree on every cell are equal. */
  lemma ShapeExt(a: Shape, b: Shape)
    requires forall y, x :: 0 <= y < 4 && 0 <= x < 4 ==> a[y][x] == b[y][x]
    ensures a == b
  {
    forall y | 0 <= y < 4
      ensures a[y] == b[y]
    {
      assert forall x :: 0 <= x < 4 ==> a[y][x] == b[y][x];
    }
  }

  /** The colour constants are pairwise distinct: the three special colours
      come first and every kind has its own colour after them. */
  lemma ColorsDistinct()
    ensures NONE != WALL && NONE != GHOST && WALL != GHOST
    ensures forall k: BlockKind :: GHOST < k.Color() < COLOR_TABLE_LENGTH
    ensures forall k1: BlockKind, k2: BlockKind :: k1 != k2 ==> k1.Color() != k2.Color()
  {
    forall k1: BlockKind, k2: BlockKind | k1 != k2
      ensures k1.Color() != k2.Color()
    {
      IndexInjective(k1, k2);
    }
  }

  lemma IndexInjective(k1: BlockKind, k2: BlockKind)
    requires k1 != k2
    ensures k1.Index() != k2.Index()
  {
    match k1
    case I => case O => case S => case Z => case J => case L => case T =>
  }

  /** Every base shape has exactly four cells, all of its kind's colour, every
      cell is a valid index of the colour table, and rows 0 and 3 are empty. */
  lemma BaseShapeWellFormed(kind: BlockKind)
    ensures |BLOCKS| == 7
    ensures CellCount(BaseShape(kind)) == 4
    ensures forall y, x :: 0 <= y < 4 && 0 <= x < 4 ==>
      BaseShape(kind)[y][x] == NONE || BaseShape(kind)[y][x] == kind.Color()
    ensures forall y, x :: 0 <= y < 4 && 0 <= x < 4 ==> BaseShape(kind)[y][x] < COLOR_TABLE_LENGTH
    ensures forall x :: 0 <= x < 4 ==> BaseShape(kind)[0][x] == NONE && BaseShape(kind)[3][x] == NONE
  {
    match kind
    case I => case O => case S => case Z => case J => case L => case T =>
  }
}
