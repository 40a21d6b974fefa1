# Maze Run: maze generation, tile grid and movement rules

This project is a Dafny model of the game logic in
`maze_run/organizing_code/part2_classes.py`. In the game, a player walks
through a randomly generated maze and eats dots. The player must reach the
exit `x` before the ghost catches them.

The model has five modules:

- `Positions`: tile coordinates, the four unit moves, and the `DIRECTIONS`
  map from arrow-key codes to moves.
- `MazeGenerator`: the `MazeGenerator` class.
  - It makes every interior cell a candidate.
  - It visits the candidates one at a time, in an order chosen freely (this
    models `random.choice`).
  - It keeps a cell as a dot when fewer than 5 of its 8 neighbours are already
    dots.
  - It renders the dots as text: `.` for a dot, `#` for a wall, and a newline
    after each row.
  - `GenerateDotPositions` and `CreateGridString` are loops proved against the
    specification functions `KeptDots` and `GridString`.
- `TileGrids`: the `TileGrid` class.
  - It holds the rows of characters that `strip().split("\n")` produces.
  - It supports indexing by `[y][x]`, a single-cell update, row-major
    iteration, and `find_tile`.
- `Sprites`: `Sprite.move`, the player's and the ghost's arrival effects,
  `Ghost.random_move`, `Player.handle_key`, and `check_collision`.
  - `Step` is the pure specification of one move.
  - The class `Sprite` updates its `pos` field and the level grid in place, as
    the source does.
  - The `EXIT` event that the source posts becomes a returned `Outcome`:
    `Lost` after a collision, `Won` on the exit tile.
- `MainGame`: `create_random_maze`.
  - It proves that parsing the generator's text gives back its rows cell for
    cell.
  - It proves that stamping the exit changes only cell (xsize-2, ysize-2).

## Model

| member | source | states |
|---|---|---|
| `Positions.KeyDirection` | maze_run/organizing_code/part2_classes.py:46-49 | The four arrow keys 276, 275, 273 and 274 map to LEFT, RIGHT, UP and DOWN. Each of these is a unit step along one axis. Every other key maps to nothing. |
| `MazeGenerator.Column` | maze_run/organizing_code/part2_classes.py:101 | The inner comprehension over `y` yields exactly the positions of column `x` with `lo <= y < hi`, each once. |
| `MazeGenerator.Columns` | maze_run/organizing_code/part2_classes.py:101 | The nested comprehension yields exactly the positions with `lo <= x < hi` and `1 <= y < ysize-1`, without repeats. |
| `MazeGenerator.AllDotPositions` | maze_run/organizing_code/part2_classes.py:99-101 | `get_all_dot_positions` yields a position iff it is interior (1 <= x <= xsize-2 and 1 <= y <= ysize-2). Each one appears exactly once, so no border cell is a candidate. |
| `MazeGenerator.NeighborsAreAdjacent` | maze_run/organizing_code/part2_classes.py:103-110 | `get_neighbors` lists 8 distinct cells. A cell is listed iff it differs from `pos` and differs by at most 1 in each coordinate. |
| `MazeGenerator.NeighborsFormRing` | maze_run/organizing_code/part2_classes.py:103-110 | As a set, the neighbour list is the ring of 8 cells around `pos`. The ring is defined independently of `get_neighbors`. |
| `MazeGenerator.DotCount` | maze_run/organizing_code/part2_classes.py:119-120 | `free.count(True)` is at most the number of neighbours. |
| `MazeGenerator.DotCountIsCardinality` | maze_run/organizing_code/part2_classes.py:119-120 | For a list without repeats, the count of `True` flags equals the number of dots among the listed cells. |
| `MazeGenerator.NeighborDotsInRing` | maze_run/organizing_code/part2_classes.py:118-120 | The count the generator compares with 5 equals the number of dots in the ring of 8 cells around the candidate. The ring is defined independently of `get_neighbors`. |
| `MazeGenerator.RemoveFirst` | maze_run/organizing_code/part2_classes.py:122 | `positions.remove(pos)` removes the first occurrence of `pos` and keeps the others in order. The length drops by one and the multiset loses `pos` once. All other elements stay. |
| `MazeGenerator.RemoveFirstCutsFirst` | maze_run/organizing_code/part2_classes.py:122 | When `v` first occurs at index `i` (no earlier element equals `v`), `remove` returns `s[..i] + s[i+1..]`: only that occurrence goes, and the others keep their order. |
| `MazeGenerator.RemoveFirstDistinct` | maze_run/organizing_code/part2_classes.py:122 | In a list without repeats, the removed value is gone afterwards, and the list still has no repeats. |
| `MazeGenerator.Visit` | maze_run/organizing_code/part2_classes.py:118-121 | One visit adds the candidate iff the density test admits it, and leaves every other cell's membership as it was. |
| `MazeGenerator.KeptDots` | maze_run/organizing_code/part2_classes.py:113-123 | The dots produced by a given visit order are all visited cells. |
| `MazeGenerator.KeptDotsAppend` | maze_run/organizing_code/part2_classes.py:116-122 | Visiting one more candidate applies one `Visit` to the dots kept so far. |
| `MazeGenerator.VisitLast` | maze_run/organizing_code/part2_classes.py:118-121 | When the last visited cell is new, it is a dot iff fewer than 5 of its neighbours were dots before its visit. Every earlier cell keeps its membership. |
| `MazeGenerator.KeptWhenVisited` | maze_run/organizing_code/part2_classes.py:116-122 | A visited cell ends up a dot iff the neighbour count was below 5 at its own visit, so later visits never remove a dot. |
| `MazeGenerator.DensityRule` | maze_run/organizing_code/part2_classes.py:118-121 | The k-th visited cell is a dot iff fewer than 5 of the 8 cells around it were dots after the first k visits. |
| `MazeGenerator.VisitStep` | maze_run/organizing_code/part2_classes.py:116-122 | One iteration keeps the loop invariant. The visited cells and the remaining candidates still split the interior between them, without repeats. |
| `MazeGenerator.GenerateDotPositions` | maze_run/organizing_code/part2_classes.py:112-123 | The loop visits every interior cell exactly once, so it runs exactly as many times as there are candidates. The dots are those the density rule keeps for that visit order. Every dot is interior. |
| `MazeGenerator.RowString` | maze_run/organizing_code/part2_classes.py:94-95 | A row has `xsize` characters. The character at `x` is `.` iff (x, y) is a dot, and `#` otherwise. |
| `MazeGenerator.GridStringLength` | maze_run/organizing_code/part2_classes.py:91-97 | The rendered text has ysize * (xsize + 1) characters. |
| `MazeGenerator.GridStringLayout` | maze_run/organizing_code/part2_classes.py:91-97 | The character at offset y * (xsize + 1) + x is a newline when x = xsize. Otherwise it is `.` iff (x, y) is a dot, and `#` if not. |
| `MazeGenerator.CreateGridString` | maze_run/organizing_code/part2_classes.py:90-97 | The nested loops build exactly the rendered text `GridString`. |
| `MazeGenerator.CreateMaze` | maze_run/organizing_code/part2_classes.py:125-130 | `create_maze` returns the rendering of the dots kept for some visit order. That order covers every interior cell exactly once. The text has size.y lines of size.x characters plus a newline each. |
| `TileGrids.TrimStart` | maze_run/organizing_code/part2_classes.py:141 | The result is a suffix of the input. Only white space was dropped, and the result does not start with white space. |
| `TileGrids.TrimEnd` | maze_run/organizing_code/part2_classes.py:141 | The result is a prefix of the input. Only white space was dropped, and the result does not end with white space. |
| `TileGrids.Strip` | maze_run/organizing_code/part2_classes.py:141 | `strip()` is the input with only its leading and trailing white space removed: a slice `s[i..j]` with white space only before `i` and after `j`. The result neither starts nor ends with white space. |
| `TileGrids.SplitLines` | maze_run/organizing_code/part2_classes.py:141 | `split("\n")` yields at least one piece, and no piece contains a newline. |
| `TileGrids.JoinSplitLines` | maze_run/organizing_code/part2_classes.py:141 | Joining the pieces of `split("\n")` with newlines gives back the text. |
| `TileGrids.SplitSingleLine` | maze_run/organizing_code/part2_classes.py:141 | A text without newlines splits into itself alone. |
| `TileGrids.SplitLinesLastLine` | maze_run/organizing_code/part2_classes.py:141 | A newline followed by a text without newlines adds that text as the last piece. |
| `TileGrids.SplitJoinLines` | maze_run/organizing_code/part2_classes.py:141 | Splitting the newline-join of lines that contain no newline gives back the lines. |
| `TileGrids.ParseGrid` | maze_run/organizing_code/part2_classes.py:139-141 | `parse_grid` yields at least one row, and no row contains a newline. Joining the rows gives back the stripped input, so nothing is lost. |
| `TileGrids.RowTiles` | maze_run/organizing_code/part2_classes.py:164-166 | The inner loop of `__iter__` yields exactly the pairs (Position(x, y), row[x]), one per character. |
| `TileGrids.GridTiles` | maze_run/organizing_code/part2_classes.py:161-166 | The first n rows yield exactly the pairs (p, rows[p.y][p.x]) of the cells in those rows. |
| `TileGrids.Tiles` | maze_run/organizing_code/part2_classes.py:161-166 | `__iter__` yields a pair (p, c) iff p is a cell of the grid and c is its character. |
| `TileGrids.RowTilesInOrder` | maze_run/organizing_code/part2_classes.py:164-166 | Within a row, x increases strictly. |
| `TileGrids.TilesInRowMajorOrder` | maze_run/organizing_code/part2_classes.py:161-166 | `__iter__` yields positions in strictly increasing row-major order: y is the outer loop, x the inner one. |
| `TileGrids.TilesVisitEachCellOnce` | maze_run/organizing_code/part2_classes.py:161-166 | `__iter__` never yields the same cell twice. |
| `TileGrids.TileGrid.constructor` | maze_run/organizing_code/part2_classes.py:136-137 | The new grid holds the parsed rows, and there is at least one row. |
| `TileGrids.TileGrid.XSize` | maze_run/organizing_code/part2_classes.py:147-149 | `xsize` is the width of the first row: x is a column of row 0 iff 0 <= x < xsize. |
| `TileGrids.TileGrid.YSize` | maze_run/organizing_code/part2_classes.py:151-153 | `ysize` is the number of rows: it is at least the row count, empty rows included, every row index below `ysize` is a row, and every non-empty row below `ysize` is on the grid. |
| `TileGrids.TileGrid.Get` | maze_run/organizing_code/part2_classes.py:155-156 | `grid[pos]` is the character that iteration pairs with `pos`. |
| `TileGrids.TileGrid.Set` | maze_run/organizing_code/part2_classes.py:158-159 | `grid[pos] = v` makes `grid[pos]` return `v`. Every other cell keeps its character, and the number and lengths of the rows stay the same. |
| `TileGrids.TileGrid.FindTile` | maze_run/organizing_code/part2_classes.py:168-172 | `find_tile(q)` returns a cell holding `q`, and no cell before it in row-major order holds `q`. It returns None iff no cell holds `q`. |
| `Sprites.Arrive` | maze_run/organizing_code/part2_classes.py:218-223 | A player arriving on `.` turns exactly that cell into a space. A player arriving on `x` signals the exit. Every other arrival, including every ghost arrival, leaves the grid unchanged. |
| `Sprites.Step` | maze_run/organizing_code/part2_classes.py:191-198 | A move is blocked iff the target is off the grid or is not a space, a dot or the exit. A blocked move changes neither the position nor the grid. Otherwise the position becomes `pos + direction`, and the grid keeps its shape. |
| `Sprites.StepOutcome` | maze_run/organizing_code/part2_classes.py:195-198 | A move that commits ends the game as lost iff the mover lands on the other sprite. It ends as won iff the player lands on the exit and is not caught. The collision takes precedence. |
| `Sprites.GhostLeavesGridAlone` | maze_run/organizing_code/part2_classes.py:200-201 | A ghost's move never changes the grid and never wins. |
| `Sprites.PlayerEatsOnlyTheDotItLandsOn` | maze_run/organizing_code/part2_classes.py:218-221 | A player's move changes at most the cell it lands on, and only when that cell was a dot, which becomes a space. |
| `Sprites.DotEatenOnce` | maze_run/organizing_code/part2_classes.py:219-221 | After the player eats a dot, stepping onto that cell again commits, does not win, and leaves the grid unchanged. |
| `Sprites.CaughtOnTheExit` | maze_run/organizing_code/part2_classes.py:262-265 | A player who steps onto the exit where the ghost stands loses. |
| `Sprites.WalkToTheExit` | maze_run/organizing_code/part2_classes.py:191-223 | In a concrete level, the player is blocked by a wall, eats a dot, and then wins on the exit. |
| `Sprites.Sprite.constructor` | maze_run/organizing_code/part2_classes.py:187-189 | A new sprite has the given glyph and starts at the given position. |
| `Sprites.Sprite.ArrivesOnNewTile` | maze_run/organizing_code/part2_classes.py:218-223 | The grid update and the exit signal are exactly those of `Arrive`. |
| `Sprites.Sprite.Move` | maze_run/organizing_code/part2_classes.py:191-198 | The new position, the new grid and the outcome are exactly those of `Step` for the old state. |
| `Sprites.Sprite.RandomMove` | maze_run/organizing_code/part2_classes.py:211-213 | The ghost makes one attempt, in the one direction drawn from LEFT, RIGHT, UP and DOWN, with no retry. The grid is unchanged. |
| `Sprites.Sprite.HandleKey` | maze_run/organizing_code/part2_classes.py:225-229 | An arrow key moves the player as `Step` says. Any other key changes nothing. |
| `MainGame.GridStringIsJoinedRows` | maze_run/organizing_code/part2_classes.py:91-97 | The generator's text is its rows joined by newlines, plus one final newline. |
| `MainGame.RenderedRowsHaveNoNewline` | maze_run/organizing_code/part2_classes.py:95 | Every character of a rendered row is `.` or `#`, so no row holds a newline. |
| `MainGame.StripFinalNewline` | maze_run/organizing_code/part2_classes.py:141 | `strip()` of a text that starts and ends with a non-space character, followed by a newline, removes only that newline. |
| `MainGame.ParseRenderedMaze` | maze_run/organizing_code/part2_classes.py:288-289 | Parsing the generator's text yields exactly its ysize rows of xsize characters, cell for cell. |
| `MainGame.BorderIsWall` | maze_run/organizing_code/part2_classes.py:95 | For any visit order, every non-interior cell is rendered as `#`. |
| `MainGame.RandomMazeLayout` | maze_run/organizing_code/part2_classes.py:287-291 | The level has size.x columns and size.y rows. Cell (size.x-2, size.y-2) is `x`, and no other cell is. Every other cell is `.` or `#` as rendered. |
| `MainGame.RandomMazeBorder` | maze_run/organizing_code/part2_classes.py:287-291 | For any visit order, every border cell of the level other than the exit is `#`. |
| `MainGame.CreateRandomMaze` | maze_run/organizing_code/part2_classes.py:287-291 | The new grid holds exactly the parsed text of a freshly generated maze, with `x` stamped at (size.x-2, size.y-2). Its `xsize` is size.x and its `ysize` is size.y. The dots are those the density rule keeps for some visit order, and that order covers every interior cell exactly once. |

## Left out

- Rendering is not modelled: `get_tile_rect`, `draw_grid`, `Sprite.draw`, `draw` and `create_display`. It is pygame drawing. A sprite's glyph is kept but never used.
- File and JSON input is not modelled (`load_tiles`, `load_level`). Levels are parsed from an in-memory string.
- The event loop, the timers and key repeat are not modelled. They are scheduling in pygame. Each handler is modelled as one call.
- The `argparse` entry point is not modelled.
- `random.choice` is not modelled as a random number generator.
  - In `GenerateDotPositions` the choice is an arbitrary one among the remaining candidates, and the ghost out-parameter `order` records it.
  - In `RandomMove` the caller passes the index `pick` of the direction.
- Sprites.Sprite.Move: a target outside the grid counts as blocked. Python would wrap a negative index or raise `IndexError`.
- Sprites.Step: a target outside the grid counts as blocked, as in `Move`.
- TileGrids.TileGrid.Get: requires the position to lie on the grid. Python wraps negative indices and raises `IndexError` beyond the end.
- TileGrids.TileGrid.Set: requires the position to lie on the grid, for the same reason as `Get`.
- `exit_game` posts the same `EXIT` event for a collision and for the exit tile. The model returns `Lost` or `Won` instead. When both happen in one move, the source posts two events; the model reports `Lost`, the one posted first.
- `handle_key` and `check_collision` read the global `maze`, `player` and `ghost`. The model passes the grid and the other sprite explicitly.
- The code checks no sizes, row lengths or bounds, so the model has no error results. A maze smaller than 3 by 3 has no dots.
- A move that eats a dot returns `Moved`, with the dot replaced by a space in the grid.
- The collision check runs before the arrival effects, and only after a move that commits.
- `create_random_maze` requires both sizes to be at least 2. Smaller sizes give a negative exit index, which Python would wrap to the other end of the row or column, or reject with IndexError.
- Each tile is a Unicode `char`. `str.strip` uses Python's set of white-space characters. Other Unicode behaviour of Python strings is not modelled.
