/** Spawning a new piece, the hold mechanic and starting a game. */
module GameControl {
  import opened Wrappers
  import opened Block
  import opened Positions
  import opened Collision
  import opened GameState

  /** `spawn_block`: put the base shape of `kind` at the spawn position;
      `Err` (game over) exactly when it collides with the field there. */
  method SpawnBlock(game: Game, kind: BlockKind) returns (r: Result<()>)
    requires game.Valid()
    modifies game
    ensures game.Valid()
    ensures game.State() == old(game.State()).(pos := Init(), block := BaseShape(kind))
    ensures r.Err? <==> Collides(game.field[..], Init(), BaseShape(kind))
  {
    game.pos := Init();
    game.block := BaseShape(kind);
    var hit := IsCollision(game.field[..], game.pos, game.block);
    if hit {
      return Err;
    } else {
      return Ok(());
    }
  }

  /** The state after a hold: nothing changes when the hold was already used
      for this piece; otherwise the active shape goes to the hold slot, the
      active shape becomes the previously held one (or a freshly spawned
      `kind`), the position goes back to the spawn point and the flag is set. */
  function Held(v: View, kind: BlockKind): (w: View)
    ensures w.field == v.field && w.score == v.score && w.line == v.line
    ensures w.holded
    ensures v.holded ==> w == v
    ensures !v.holded ==> w.hold == Some(v.block) && w.pos == Init()
    ensures !v.holded ==> w.block == (if v.hold.Some? then v.hold.value else BaseShape(kind))
  {
    if v.holded then v
    else match v.hold
      case Some(h) => v.(block := h, hold := Some(v.block), pos := Init(), holded := true)
      case None => v.(hold := Some(v.block), pos := Init(), block := BaseShape(kind), holded := true)
  }

  /** A second hold before the next landing changes nothing. */
  lemma HoldOncePerPiece(v: View, kind1: BlockKind, kind2: BlockKind)
    ensures Held(Held(v, kind1), kind2) == Held(v, kind1)
  {
  }

  /** `hold`: bank the active piece, swapping it with the held one when there
      is one (without a collision check), or spawning `kind` otherwise. */
  method Hold(game: Game, kind: BlockKind)
    requires game.Valid()
    modifies game
    ensures game.Valid()
    ensures game.State() == Held(old(game.State()), kind)
  {
    if game.holded {
      return;
    }
    if game.hold.Some? {
      var h := game.hold.value;
      h, game.block := game.block, h;
      game.hold := Some(h);
      game.pos := Init();
    } else {
      game.hold := Some(game.block);
      var _ := SpawnBlock(game, kind);
    }
    game.holded := true;
  }

  /** `Game::new`: build the record from the template field with the piece
      `first`, then spawn `kind`, ignoring whether the spawn collides. */
  method NewGame(template: Grid, first: BlockKind, kind: BlockKind) returns (game: Game)
    requires IsField(template)
    ensures fresh(game) && fresh(game.field) && game.Valid()
    ensures game.State() == View(template, Init(), BaseShape(kind), None, false, 0, 0)
  {
    game := new Game(template, first);
    var _ := SpawnBlock(game, kind);
  }
}
