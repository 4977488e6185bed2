/** The game record, the score table and the record's initial value. */
module GameState {
  import opened Wrappers
  import opened Block
  import opened Positions
  import opened Collision

  /** Points for clearing 0, 1, 2, 3 or 4 lines at once. */
  const SCORE_TABLE: seq<nat> := [0, 1, 5, 25, 100]

  /** Number of upcoming pieces shown to the player. */
  const NEXT_LENGTH: nat := 3

  /** The score table is defined for 0 to 4 lines exactly and pays strictly
      more for every additional line. */
  lemma ScoreTableIncreasing()
    ensures |SCORE_TABLE| == 5
    ensures SCORE_TABLE[0] == 0 && SCORE_TABLE[4] == 100
    ensures forall i, j :: 0 <= i < j < |SCORE_TABLE| ==> SCORE_TABLE[i] < SCORE_TABLE[j]
  {
  }

  /** A snapshot of every field of a `Game`, the field as a value. */
  datatype View = View(
    field: Grid,
    pos: Position,
    block: Shape,
    hold: Option<Shape>,
    holded: bool,
    score: nat,
    line: nat)

  /** The game: the field, the active piece, the hold slot and the counters. */
  class Game {
    const field: array<seq<Color>>
    var pos: Position
    var block: Shape
    var hold: Option<Shape>
    var holded: bool
    var score: nat
    var line: nat

    ghost predicate Valid()
      reads this, field
    {
      IsField(field[..])
    }

    ghost function State(): View
      reads this, field
    {
      View(field[..], pos, block, hold, holded, score, line)
    }

    /** The record as first built: a copy of the template field, the spawn
        position, the base shape of `kind`, an empty hold and zero counters. */
    constructor (template: Grid, kind: BlockKind)
      requires IsField(template)
      ensures Valid() && fresh(field)
      ensures State() == View(template, Init(), BaseShape(kind), None, false, 0, 0)
    {
      field := new seq<Color>[|template|](i requires 0 <= i < |template| => template[i]);
      pos := Init();
      block := BaseShape(kind);
      hold := None;
      holded := false;
      score := 0;
      line := 0;
      new;
      assert field[..] == template;
    }
  }
}
