/** Building a random level (`create_random_maze` of part2_classes.py): the
    generated text is parsed into a TileGrid and the exit `x` is stamped at
    (xsize - 2, ysize - 2). */
module MainGame {
  import opened Positions
  import opened MazeGenerator
  import opened TileGrids

  /** The rows of the rendered maze, one string of xsize characters per row. */
  function RenderedRows(dots: set<Position>, xsize: int, ysize: nat): seq<seq<char>> {
    seq(ysize, y => RowString(dots, y, xsize))
  }

  /** The rendered text is the rows joined by newlines, plus a final newline. */
  lemma {:induction false} GridStringIsJoinedRows(dots: set<Position>, xsize: int, ysize: nat)
    requires ysize >= 1
    ensures GridString(dots, xsize, ysize) == JoinLines(RenderedRows(dots, xsize, ysize)) + "\n"
  {
    var rows := RenderedRows(dots, xsize, ysize);
    if ysize > 1 {
      GridStringIsJoinedRows(dots, xsize, ysize - 1);
      assert rows[..ysize - 1] == RenderedRows(dots, xsize, ysize - 1);
    }
  }

  /** A rendered row holds only `#` and `.`, never a newline. */
  lemma RenderedRowsHaveNoNewline(dots: set<Position>, xsize: int, ysize: nat)
    ensures forall y :: 0 <= y < ysize ==> '\n' !in RenderedRows(dots, xsize, ysize)[y]
    ensures forall y, x :: 0 <= y < ysize && 0 <= x < |RenderedRows(dots, xsize, ysize)[y]| ==>
              RenderedRows(dots, xsize, ysize)[y][x] in {'.', '#'}
  {
    forall y | 0 <= y < ysize
      ensures forall x :: 0 <= x < |RowString(dots, y, xsize)| ==> RowString(dots, y, xsize)[x] in {'.', '#'}
      ensures '\n' !in RowString(dots, y, xsize)
    {
      var row := RowString(dots, y, xsize);
      forall x | 0 <= x < |row| ensures row[x] in {'.', '#'} {
        assert row[x] == Cell(dots, x, y);
      }
    }
  }

  /** Joined lines start with the first character of the first line. */
  lemma {:induction false} JoinLinesStart(lines: seq<string>)
    requires |lines| >= 1 && lines[0] != []
    ensures JoinLines(lines) != [] && JoinLines(lines)[0] == lines[0][0]
  {
    if |lines| > 1 {
      JoinLinesStart(lines[..|lines| - 1]);
    }
  }

  /** Joined lines end with the last character of the last line. */
  lemma JoinLinesEnd(lines: seq<string>)
    requires |lines| >= 1 && lines[|lines| - 1] != []
    ensures var s, last := JoinLines(lines), lines[|lines| - 1];
      s != [] && s[|s| - 1] == last[|last| - 1]
  {
  }

  /** `strip()` of a text that starts and ends with no white space, plus a
      final newline, removes just that newline. */
  lemma StripFinalNewline(s: string)
    requires s != [] && !IsSpace(s[0]) && !IsSpace(s[|s| - 1])
    ensures Strip(s + "\n") == s
  {
    var text := s + "\n";
    assert TrimStart(text) == text by {
      assert text[0] == s[0];
    }
    assert text[..|text| - 1] == s;
    assert TrimEnd(s) == s;
  }

  /** Parsing the generator's text gives back its rows cell for cell: the text
      starts and ends with `#` or `.` before the final newline, so `strip()`
      removes only that newline. */
  lemma ParseRenderedMaze(dots: set<Position>, xsize: int, ysize: int)
    requires xsize >= 1 && ysize >= 1
    ensures ParseGrid(GridString(dots, xsize, ysize)) == RenderedRows(dots, xsize, ysize)
  {
    var rows := RenderedRows(dots, xsize, ysize);
    GridStringIsJoinedRows(dots, xsize, ysize);
    JoinLinesStart(rows);
    JoinLinesEnd(rows);
    var joined := JoinLines(rows);
    assert joined[0] == rows[0][0] == Cell(dots, 0, 0);
    assert joined[|joined| - 1] == rows[ysize - 1][xsize - 1] == Cell(dots, xsize - 1, ysize - 1);
    StripFinalNewline(joined);
    RenderedRowsHaveNoNewline(dots, xsize, ysize);
    SplitJoinLines(rows);
  }

  /** Whatever order the candidates are visited in, every border cell of the
      rendered maze is a wall. */
  lemma BorderIsWall(order: seq<Position>, xsize: int, ysize: int, p: Position)
    requires IsVisitOrder(order, xsize, ysize) && !IsInterior(p, xsize, ysize)
    ensures Cell(KeptDots(order), p.x, p.y) == '#'
  {
  }

  /** Where `create_random_maze` puts the exit. */
  function ExitPosition(size: Position): Position {
    Position(size.x - 2, size.y - 2)
  }

  /** The rows `create_random_maze` ends with: the rendered maze with the
      exit stamped in. */
  function RandomMazeRows(dots: set<Position>, size: Position): seq<seq<char>>
    requires size.x >= 2 && size.y >= 2
  {
    var rows, e := RenderedRows(dots, size.x, size.y), ExitPosition(size);
    rows[e.y := rows[e.y][e.x := 'x']]
  }

  /** The level has size.x columns and size.y rows. The exit cell holds `x`
      and is the only one that does; every other cell is as rendered. */
  lemma RandomMazeLayout(dots: set<Position>, size: Position)
    requires size.x >= 2 && size.y >= 2
    ensures var rows := RandomMazeRows(dots, size);
      && |rows| == size.y && |rows[0]| == size.x
      && (forall p :: InGrid(rows, p) <==> 0 <= p.x < size.x && 0 <= p.y < size.y)
      && (forall p :: InGrid(rows, p) ==>
            rows[p.y][p.x] == if p == ExitPosition(size) then 'x' else Cell(dots, p.x, p.y))
      && (forall p :: InGrid(rows, p) ==> (rows[p.y][p.x] == 'x' <==> p == ExitPosition(size)))
  {
    var rows := RandomMazeRows(dots, size);
    forall p | InGrid(rows, p)
      ensures rows[p.y][p.x] == if p == ExitPosition(size) then 'x' else Cell(dots, p.x, p.y)
    {
      if p != ExitPosition(size) {
        assert rows[p.y][p.x] == RowString(dots, p.y, size.x)[p.x];
      }
    }
  }

  /** Whatever order the candidates are visited in, every border cell of the
      level except the exit is a wall. */
  lemma RandomMazeBorder(order: seq<Position>, size: Position)
    requires size.x >= 2 && size.y >= 2 && IsVisitOrder(order, size.x, size.y)
    ensures var rows := RandomMazeRows(KeptDots(order), size);
      forall p :: InGrid(rows, p) && !IsInterior(p, size.x, size.y) && p != ExitPosition(size) ==>
        rows[p.y][p.x] == '#'
  {
    RandomMazeLayout(KeptDots(order), size);
  }

  /** `create_random_maze`: parses a freshly generated maze and stamps the
      exit at (size.x - 2, size.y - 2). */
  method CreateRandomMaze(size: Position) returns (maze: TileGrid, ghost order: seq<Position>)
    requires size.x >= 2 && size.y >= 2
    ensures fresh(maze) && maze.Valid()
    ensures IsVisitOrder(order, size.x, size.y)
    ensures maze.rows == RandomMazeRows(KeptDots(order), size)
    ensures maze.XSize() == size.x && maze.YSize() == size.y
  {
    var data;
    data, order := CreateMaze(size);
    ParseRenderedMaze(KeptDots(order), size.x, size.y);
    maze := new TileGrid(data);
    maze.Set(ExitPosition(size), 'x');
    RandomMazeLayout(KeptDots(order), size);
  }
}
