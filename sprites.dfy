/** Sprites and the game mechanics (classes Sprite, Ghost and Player and
    `check_collision` of part2_classes.py). A move commits only onto a space,
    a dot or the exit; the collision test runs before the arrival effects; the
    player eats dots and leaves through the exit; a ghost changes nothing.
    Where the source posts an EXIT event, the model returns the reason. */
module Sprites {
  import opened Positions
  import opened TileGrids

  /** Which subclass of Sprite an object is. */
  datatype Role = PlayerRole | GhostRole

  /** What one move attempt ends in. `Lost` and `Won` stand for the EXIT
      event the source posts, after a collision and on the exit tile. */
  datatype Outcome = Blocked | Moved | Won | Lost

  /** The tiles `Sprite.move` lets a sprite enter: space, dot and exit. */
  predicate Walkable(c: char) {
    c == ' ' || c == '.' || c == 'x'
  }

  /** A sprite may enter `p`: it lies on the grid and holds a walkable tile. */
  predicate CanEnter(rows: seq<seq<char>>, p: Position) {
    InGrid(rows, p) && Walkable(rows[p.y][p.x])
  }

  /** Both grids have the same rows, each of the same length. */
  predicate SameShape(a: seq<seq<char>>, b: seq<seq<char>>) {
    |a| == |b| && forall y :: 0 <= y < |a| ==> |a[y]| == |b[y]|
  }

  datatype Arrival = Arrival(rows: seq<seq<char>>, exit: bool)

  /** `arrives_on_new_tile`: the effect of arriving on `p`. A player eats a
      dot or reaches the exit; the base class, and so a ghost, does nothing. */
  function Arrive(role: Role, rows: seq<seq<char>>, p: Position): (a: Arrival)
    requires InGrid(rows, p)
    ensures SameShape(a.rows, rows)
    ensures forall q :: InGrid(rows, q) && q != p ==> a.rows[q.y][q.x] == rows[q.y][q.x]
    ensures a.rows[p.y][p.x] == if role == PlayerRole && rows[p.y][p.x] == '.' then ' ' else rows[p.y][p.x]
    ensures a.exit <==> role == PlayerRole && rows[p.y][p.x] == 'x'
  {
    match role
    case GhostRole => Arrival(rows, false)
    case PlayerRole =>
      var tile := rows[p.y][p.x];
      if tile == '.' then Arrival(rows[p.y := rows[p.y][p.x := ' ']], false)
      else Arrival(rows, tile == 'x')
  }

  /** The state after one move attempt. */
  datatype MoveResult = MoveResult(rows: seq<seq<char>>, pos: Position, outcome: Outcome)

  /** `Sprite.move` as a function of the grid, the mover's role and position,
      the other sprite's position and the direction. */
  function Step(rows: seq<seq<char>>, role: Role, pos: Position, rival: Position, d: Position): (r: MoveResult)
    ensures r.outcome == Blocked <==> !CanEnter(rows, Shift(pos, d))
    ensures r.outcome == Blocked ==> r.rows == rows && r.pos == pos
    ensures r.outcome != Blocked ==> r.pos == Shift(pos, d)
    ensures SameShape(r.rows, rows)
  {
    var next := Shift(pos, d);
    if !CanEnter(rows, next) then MoveResult(rows, pos, Blocked)
    else
      var caught := next == rival;
      var arrival := Arrive(role, rows, next);
      MoveResult(arrival.rows, next, if caught then Lost else if arrival.exit then Won else Moved)
  }

  /** A move ends the game exactly when the mover lands on the other sprite or
      the player lands on the exit, and a collision wins over the exit. */
  lemma StepOutcome(rows: seq<seq<char>>, role: Role, pos: Position, rival: Position, d: Position)
    requires CanEnter(rows, Shift(pos, d))
    ensures var r := Step(rows, role, pos, rival, d);
      && (r.outcome == Lost <==> Shift(pos, d) == rival)
      && (r.outcome == Won <==> Shift(pos, d) != rival && role == PlayerRole && rows[r.pos.y][r.pos.x] == 'x')
  {
  }

  /** A ghost never changes the grid and never wins. */
  lemma GhostLeavesGridAlone(rows: seq<seq<char>>, pos: Position, player: Position, d: Position)
    ensures Step(rows, GhostRole, pos, player, d).rows == rows
    ensures Step(rows, GhostRole, pos, player, d).outcome != Won
  {
  }

  /** The player changes at most the cell it moves onto, and only a dot,
      which becomes a space. */
  lemma PlayerEatsOnlyTheDotItLandsOn(rows: seq<seq<char>>, pos: Position, ghostPos: Position, d: Position, q: Position)
    requires InGrid(rows, q)
    ensures var r := Step(rows, PlayerRole, pos, ghostPos, d);
      r.rows[q.y][q.x] == if q == r.pos && r.outcome != Blocked && rows[q.y][q.x] == '.' then ' ' else rows[q.y][q.x]
  {
  }

  /** A dot is eaten once: stepping onto the same cell again, from anywhere,
      leaves the grid as it is. */
  lemma {:induction false} DotEatenOnce(rows: seq<seq<char>>, pos: Position, ghostPos: Position, d: Position,
                                        pos2: Position, ghostPos2: Position, d2: Position)
    requires CanEnter(rows, Shift(pos, d)) && rows[Shift(pos, d).y][Shift(pos, d).x] == '.'
    requires Shift(pos2, d2) == Shift(pos, d)
    ensures var first := Step(rows, PlayerRole, pos, ghostPos, d);
      var second := Step(first.rows, PlayerRole, pos2, ghostPos2, d2);
      && first.rows[first.pos.y][first.pos.x] == ' '
      && second.outcome != Blocked && second.outcome != Won
      && second.rows == first.rows
  {
    var first := Step(rows, PlayerRole, pos, ghostPos, d);
    var p := Shift(pos, d);
    assert first.rows == rows[p.y := rows[p.y][p.x := ' ']];
    assert first.rows[p.y][p.x] == ' ';
    assert CanEnter(first.rows, p);
  }

  /** The player stepping onto the exit where the ghost stands loses. */
  lemma CaughtOnTheExit(rows: seq<seq<char>>, pos: Position, d: Position)
    requires CanEnter(rows, Shift(pos, d)) && rows[Shift(pos, d).y][Shift(pos, d).x] == 'x'
    ensures Step(rows, PlayerRole, pos, Shift(pos, d), d).outcome == Lost
  {
  }

  /** A walk through a small level: the player at (1, 1) bumps into the wall
      on its left, eats the dot on its right, then steps onto the exit. */
  lemma WalkToTheExit()
    ensures var rows := ["#####", "#*.x#", "#####"];
      var first := Step(rows, PlayerRole, Position(1, 1), Position(1, 0), Left);
      var second := Step(first.rows, PlayerRole, first.pos, Position(1, 0), Right);
      var third := Step(second.rows, PlayerRole, second.pos, Position(1, 0), Right);
      && first.outcome == Blocked && first.pos == Position(1, 1)
      && second.outcome == Moved && second.rows == ["#####", "#* x#", "#####"]
      && third.outcome == Won && third.pos == Position(3, 1) && third.rows == second.rows
  {
    var rows := ["#####", "#*.x#", "#####"];
    assert rows[1][0] == '#';
    assert rows[1][2] == '.';
    var second := Step(rows, PlayerRole, Position(1, 1), Position(1, 0), Right);
    assert second.rows == rows[1 := rows[1][2 := ' ']];
    assert rows[1][2 := ' '] == "#* x#";
    assert second.rows[1][3] == 'x';
  }

  /** A sprite on the board: its glyph, its subclass and its position. */
  class Sprite {
    const tile: char
    const role: Role
    var pos: Position

    /** `Sprite(tile, startpos)`, as a Player or a Ghost. */
    constructor (tile: char, role: Role, startpos: Position)
      ensures this.tile == tile && this.role == role && pos == startpos
    {
      this.tile := tile;
      this.role := role;
      pos := startpos;
    }

    /** `arrives_on_new_tile`: a player eats the dot under it or reports the
        exit; a ghost does nothing. */
    method ArrivesOnNewTile(level: TileGrid) returns (exit: bool)
      requires level.Contains(pos)
      modifies level
      ensures Arrival(level.rows, exit) == Arrive(role, old(level.rows), pos)
    {
      exit := false;
      if role == PlayerRole {
        var tile := level.Get(pos);
        if tile == '.' {
          level.Set(pos, ' ');
        } else if tile == 'x' {
          exit := true;
        }
      }
    }

    /** `move`: steps in `direction` when the target tile is walkable, then
        runs the collision check against `rival` and the arrival effects, in
        that order. A target off the grid counts as blocked. */
    method Move(level: TileGrid, direction: Position, rival: Sprite) returns (outcome: Outcome)
      requires rival != this
      modifies this, level
      ensures MoveResult(level.rows, pos, outcome) == Step(old(level.rows), role, old(pos), rival.pos, direction)
    {
      var next := Shift(pos, direction);
      if level.Contains(next) && Walkable(level.Get(next)) {
        pos := next;
        var caught := pos == rival.pos;
        var exit := ArrivesOnNewTile(level);
        outcome := if caught then Lost else if exit then Won else Moved;
      } else {
        outcome := Blocked;
      }
    }

    /** `Ghost.random_move`: tries the one direction `Compass[pick]` chosen
        for it and does not retry when that direction is blocked. */
    method RandomMove(maze: TileGrid, player: Sprite, pick: nat) returns (outcome: Outcome)
      requires role == GhostRole && player != this && pick < |Compass|
      modifies this, maze
      ensures MoveResult(maze.rows, pos, outcome) == Step(old(maze.rows), role, old(pos), player.pos, Compass[pick])
      ensures maze.rows == old(maze.rows)
    {
      var direction := Compass[pick];
      outcome := Move(maze, direction, player);
    }

    /** `Player.handle_key`: an arrow key moves the player, any other key does
        nothing. */
    method HandleKey(level: TileGrid, key: int, pursuer: Sprite) returns (outcome: Option<Outcome>)
      requires role == PlayerRole && pursuer != this
      modifies this, level
      ensures KeyDirection(key).None? ==> outcome.None? && pos == old(pos) && level.rows == old(level.rows)
      ensures KeyDirection(key).Some? ==>
                && outcome.Some?
                && MoveResult(level.rows, pos, outcome.value) == Step(old(level.rows), role, old(pos), pursuer.pos, KeyDirection(key).value)
    {
      var direction := KeyDirection(key);
      if direction.Some? {
        var o := Move(level, direction.value, pursuer);
        outcome := Some(o);
      } else {
        outcome := None;
      }
    }
  }
}
