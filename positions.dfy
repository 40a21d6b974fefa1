/** Tile coordinates and the four moves of the game (the constants block of
    part2_classes.py). */
module Positions {

  datatype Option<+T> = None | Some(value: T)

  /** A tile coordinate: x grows to the right, y grows downwards; no bounds. */
  datatype Position = Position(x: int, y: int)

  const Left := Position(-1, 0)
  const Right := Position(1, 0)
  const Up := Position(0, -1)
  const Down := Position(0, 1)

  /** The pygame key codes of the four arrow keys and the move each one stands for. */
  const Directions: map<int, Position> := map[276 := Left, 275 := Right, 273 := Up, 274 := Down]

  /** The list a ghost draws its move from. */
  const Compass: seq<Position> := [Left, Right, Up, Down]

  /** One step along an axis: no diagonal and no standing still. */
  predicate IsUnitMove(d: Position) {
    (d.x == 0 && (d.y == 1 || d.y == -1)) || (d.y == 0 && (d.x == 1 || d.x == -1))
  }

  /** The position reached from `p` by the move `d`. */
  function Shift(p: Position, d: Position): Position {
    Position(p.x + d.x, p.y + d.y)
  }

  /** `p` comes strictly before `q` when the grid is read row by row, left to right. */
  predicate Before(p: Position, q: Position) {
    p.y < q.y || (p.y == q.y && p.x < q.x)
  }

  /** `DIRECTIONS.get(key)`: the move of an arrow key, or nothing for any other key. */
  function KeyDirection(key: int): (r: Option<Position>)
    ensures r.Some? <==> key == 273 || key == 274 || key == 275 || key == 276
    ensures r.Some? ==> IsUnitMove(r.value) && r.value in Compass
    ensures key == 276 ==> r == Some(Left)
    ensures key == 275 ==> r == Some(Right)
    ensures key == 273 ==> r == Some(Up)
    ensures key == 274 ==> r == Some(Down)
  {
    if key in Directions then Some(Directions[key]) else None
  }
}
