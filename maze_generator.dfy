/** The maze generator (class MazeGenerator of part2_classes.py): every interior
    cell is visited once in random order and kept as a dot when fewer than five
    of its eight neighbours are dots already; the dots are then rendered as
    text, one line per row, `.` for a dot and `#` for a wall. */
module MazeGenerator {
  import opened Positions

  /** Neither on the outer border nor outside the xsize by ysize rectangle. */
  predicate IsInterior(p: Position, xsize: int, ysize: int) {
    1 <= p.x <= xsize - 2 && 1 <= p.y <= ysize - 2
  }

  predicate Distinct<T(==)>(s: seq<T>) {
    forall i, j :: 0 <= i < j < |s| ==> s[i] != s[j]
  }

  lemma DistinctConcat<T>(a: seq<T>, b: seq<T>)
    requires Distinct(a) && Distinct(b)
    requires forall v :: v in a ==> v !in b
    ensures Distinct(a + b)
  {
    forall i, j | 0 <= i < j < |a + b|
      ensures (a + b)[i] != (a + b)[j]
    {
      if i < |a| && |a| <= j {
        assert (a + b)[i] in a && (a + b)[j] == b[j - |a|];
      }
    }
  }

  /** `[Position(x, y) for y in range(lo, hi)]`. */
  function Column(x: int, lo: int, hi: int): (r: seq<Position>)
    ensures forall p :: p in r <==> p.x == x && lo <= p.y < hi
    ensures Distinct(r)
    decreases hi - lo
  {
    if lo >= hi then [] else [Position(x, lo)] + Column(x, lo + 1, hi)
  }

  /** `[Position(x, y) for x in range(lo, hi) for y in range(1, ysize - 1)]`. */
  function Columns(lo: int, hi: int, ysize: int): (r: seq<Position>)
    ensures forall p :: p in r <==> lo <= p.x < hi && 1 <= p.y < ysize - 1
    ensures Distinct(r)
    decreases hi - lo
  {
    if lo >= hi then []
    else
      var column, rest := Column(lo, 1, ysize - 1), Columns(lo + 1, hi, ysize);
      DistinctConcat(column, rest);
      column + rest
  }

  /** `get_all_dot_positions`: the candidates of the generator, every interior
      cell exactly once. */
  function AllDotPositions(xsize: int, ysize: int): (r: seq<Position>)
    ensures forall p :: p in r <==> IsInterior(p, xsize, ysize)
    ensures Distinct(r)
  {
    Columns(1, xsize - 1, ysize)
  }

  /** `get_neighbors`: the eight cells around `p`, orthogonal ones first. */
  function Neighbors(p: Position): seq<Position> {
    [ Position(p.x, p.y - 1), Position(p.x, p.y + 1),
      Position(p.x - 1, p.y), Position(p.x + 1, p.y),
      Position(p.x - 1, p.y - 1), Position(p.x + 1, p.y - 1),
      Position(p.x - 1, p.y + 1), Position(p.x + 1, p.y + 1) ]
  }

  /** The neighbours are eight distinct cells: exactly those that differ from
      `p` by at most one in each coordinate, `p` itself excluded. */
  lemma NeighborsAreAdjacent(p: Position)
    ensures |Neighbors(p)| == 8 && Distinct(Neighbors(p))
    ensures forall q :: q in Neighbors(p) <==> q != p && -1 <= q.x - p.x <= 1 && -1 <= q.y - p.y <= 1
  {
  }

  /** The set of the eight cells around `p`, written independently of `Neighbors`. */
  function Ring(p: Position): set<Position> {
    set x: int, y: int | p.x - 1 <= x <= p.x + 1 && p.y - 1 <= y <= p.y + 1 && (x != p.x || y != p.y) :: Position(x, y)
  }

  function Elements<T>(s: seq<T>): set<T> {
    set v | v in s
  }

  /** `free.count(True)` for `free = [nb in dots for nb in ns]`. */
  function DotCount(ns: seq<Position>, dots: set<Position>): (r: nat)
    ensures r <= |ns|
  {
    if ns == [] then 0 else (if ns[0] in dots then 1 else 0) + DotCount(ns[1..], dots)
  }

  /** Counting the flags of a list without repeats counts the dots among its cells. */
  lemma {:induction false} DotCountIsCardinality(ns: seq<Position>, dots: set<Position>)
    requires Distinct(ns)
    ensures DotCount(ns, dots) == |Elements(ns) * dots|
  {
    if ns != [] {
      var head, rest := ns[0], ns[1..];
      DistinctTail(ns);
      DotCountIsCardinality(rest, dots);
      var here, there := Elements(ns) * dots, Elements(rest) * dots;
      ElementsCons(ns);
      assert head !in there;
      if head in dots {
        assert here == there + {head};
      } else {
        assert here == there;
      }
    }
  }

  lemma ElementsCons<T>(s: seq<T>)
    requires s != []
    ensures Elements(s) == {s[0]} + Elements(s[1..])
  {
    assert s == [s[0]] + s[1..];
  }

  /** The count the generator compares with 5 is the number of dots among the
      eight cells surrounding the candidate. */
  lemma NeighborDotsInRing(p: Position, dots: set<Position>)
    ensures DotCount(Neighbors(p), dots) == |Ring(p) * dots|
  {
    NeighborsAreAdjacent(p);
    NeighborsFormRing(p);
    DotCountIsCardinality(Neighbors(p), dots);
  }

  /** The neighbour list, as a set, is the ring. */
  lemma NeighborsFormRing(p: Position)
    ensures Elements(Neighbors(p)) == Ring(p)
  {
    NeighborsAreAdjacent(p);
    RingMembers(p);
    forall q ensures q in Elements(Neighbors(p)) <==> q in Ring(p) {
      assert q in Elements(Neighbors(p)) <==> q in Neighbors(p);
    }
  }

  /** The ring holds exactly the cells adjacent to `p`, diagonals included. */
  lemma RingMembers(p: Position)
    ensures forall q :: q in Ring(p) <==> q != p && -1 <= q.x - p.x <= 1 && -1 <= q.y - p.y <= 1
  {
    forall q | q != p && -1 <= q.x - p.x <= 1 && -1 <= q.y - p.y <= 1 ensures q in Ring(p) {
      assert q == Position(q.x, q.y);
    }
  }

  lemma DistinctTail<T>(s: seq<T>)
    requires Distinct(s) && s != []
    ensures Distinct(s[1..]) && s[0] !in s[1..]
  {
    forall i, j | 0 <= i < j < |s| - 1 ensures s[1..][i] != s[1..][j] {
      assert s[1..][i] == s[i + 1] && s[1..][j] == s[j + 1];
    }
    forall i | 0 <= i < |s| - 1 ensures s[1..][i] != s[0] {
      assert s[1..][i] == s[i + 1];
    }
  }

  /** `positions.remove(v)`: drops the first occurrence of `v`, keeping the
      order of the others (`RemoveFirstCutsFirst`). */
  function RemoveFirst<T(==)>(s: seq<T>, v: T): (r: seq<T>)
    requires v in s
    ensures |r| == |s| - 1
    ensures multiset(r) == multiset(s) - multiset{v}
    ensures forall u :: u in r ==> u in s
    ensures forall u :: u in s && u != v ==> u in r
  {
    if s[0] == v then
      assert s == [v] + s[1..];
      s[1..]
    else
      assert s == [s[0]] + s[1..];
      [s[0]] + RemoveFirst(s[1..], v)
  }

  /** `remove` cuts out the first occurrence of `v`, at index `i`, and keeps
      the order of the rest. */
  lemma {:induction false} RemoveFirstCutsFirst<T>(s: seq<T>, v: T, i: int)
    requires 0 <= i < |s| && s[i] == v && forall k :: 0 <= k < i ==> s[k] != v
    ensures RemoveFirst(s, v) == s[..i] + s[i + 1..]
  {
    if i == 0 {
      RemoveFirstAtHead(s, v);
    } else {
      var t := s[1..];
      assert t[i - 1] == v && t[i - 1] in t;
      forall k | 0 <= k < i - 1 ensures t[k] != v {
        assert t[k] == s[k + 1];
      }
      RemoveFirstCutsFirst(t, v, i - 1);
      RemoveFirstPastHead(s, v);
      SpliceAfterHead(s, i);
    }
  }

  lemma SpliceAfterHead<T>(s: seq<T>, i: int)
    requires 0 < i < |s|
    ensures [s[0]] + (s[1..][..i - 1] + s[1..][i..]) == s[..i] + s[i + 1..]
  {
    var t, head := s[1..], [s[0]];
    assert head + (t[..i - 1] + t[i..]) == (head + t[..i - 1]) + t[i..];
    assert head + t[..i - 1] == s[..i];
    assert t[i..] == s[i + 1..];
  }

  lemma RemoveFirstAtHead<T>(s: seq<T>, v: T)
    requires s != [] && s[0] == v
    ensures RemoveFirst(s, v) == s[..0] + s[1..]
  {
    assert s[0] in s;
    assert s[..0] + s[1..] == s[1..];
  }

  lemma RemoveFirstPastHead<T>(s: seq<T>, v: T)
    requires s != [] && s[0] != v && v in s[1..]
    ensures RemoveFirst(s, v) == [s[0]] + RemoveFirst(s[1..], v)
  {
    assert s == [s[0]] + s[1..];
    assert v in s;
  }

  /** Removing from a list without repeats removes the only copy. */
  lemma {:induction false} RemoveFirstDistinct<T>(s: seq<T>, v: T)
    requires v in s && Distinct(s)
    ensures Distinct(RemoveFirst(s, v)) && v !in RemoveFirst(s, v)
  {
    DistinctTail(s);
    if s[0] != v {
      RemoveFirstDistinct(s[1..], v);
      DistinctConcat([s[0]], RemoveFirst(s[1..], v));
    }
  }

  /** The generator's test `free.count(True) < 5`: fewer than 5 of the
      neighbours of `p` are dots. */
  predicate Admits(p: Position, dots: set<Position>) {
    DotCount(Neighbors(p), dots) < 5
  }

  /** One visit of the generator's loop: `p` joins the dots when admitted. */
  function Visit(dots: set<Position>, p: Position): (r: set<Position>)
    ensures p in r <==> p in dots || Admits(p, dots)
    ensures forall q :: q != p ==> (q in r <==> q in dots)
  {
    if Admits(p, dots) then dots + {p} else dots
  }

  /** The dots that remain chosen after the candidates have been visited in
      `order`: a candidate joins when fewer than 5 of its 8 neighbours are
      dots at that moment. */
  function KeptDots(order: seq<Position>): (dots: set<Position>)
    ensures forall p :: p in dots ==> p in order
  {
    if order == [] then {}
    else
      var init := order[..|order| - 1];
      var before, p := KeptDots(init), order[|order| - 1];
      assert order == init + [p];
      Visit(before, p)
  }

  lemma KeptDotsAppend(order: seq<Position>, p: Position)
    ensures KeptDots(order + [p]) == Visit(KeptDots(order), p)
  {
    assert (order + [p])[..|order|] == order;
  }

  /** `order` visits every candidate of an xsize by ysize maze exactly once. */
  ghost predicate IsVisitOrder(order: seq<Position>, xsize: int, ysize: int) {
    Distinct(order) && forall p :: p in order <==> IsInterior(p, xsize, ysize)
  }

  /** The density rule: a visited cell is a dot exactly when fewer than 5 of
      its 8 neighbours were dots when it was visited. */
  lemma {:induction false} DensityRule(order: seq<Position>, k: int)
    requires Distinct(order) && 0 <= k < |order|
    ensures order[k] in KeptDots(order) <==> |Ring(order[k]) * KeptDots(order[..k])| < 5
  {
    KeptWhenVisited(order, k);
    NeighborDotsInRing(order[k], KeptDots(order[..k]));
  }

  /** A visited cell is kept exactly when the generator's count of dotted
      neighbours was below 5 at its visit: later visits never remove it. */
  lemma {:induction false} KeptWhenVisited(order: seq<Position>, k: int)
    requires Distinct(order) && 0 <= k < |order|
    ensures order[k] in KeptDots(order) <==> Admits(order[k], KeptDots(order[..k]))
  {
    var n := |order| - 1;
    var init := order[..n];
    DistinctInit(order);
    VisitLast(order);
    if k < n {
      KeptWhenVisited(init, k);
      assert init[..k] == order[..k];
      assert init[k] == order[k];
    } else {
      assert init == order[..k];
    }
  }

  /** Visiting the last cell of `order`, new to the visits before it, decides
      that cell by the density rule and leaves every other cell as it was. */
  lemma VisitLast(order: seq<Position>)
    requires order != [] && order[|order| - 1] !in order[..|order| - 1]
    ensures var init, p := order[..|order| - 1], order[|order| - 1];
      && (p in KeptDots(order) <==> Admits(p, KeptDots(init)))
      && forall q :: q in init ==> (q in KeptDots(order) <==> q in KeptDots(init))
  {
    var init, p := order[..|order| - 1], order[|order| - 1];
    assert KeptDots(order) == Visit(KeptDots(init), p);
    assert p !in KeptDots(init);
  }

  lemma DistinctInit<T>(s: seq<T>)
    requires Distinct(s) && s != []
    ensures Distinct(s[..|s| - 1]) && s[|s| - 1] !in s[..|s| - 1]
  {
  }

  /** The loop state of the generator: the candidates still to visit and the
      ones visited so far split the interior between them. */
  ghost predicate Partition(order: seq<Position>, positions: seq<Position>, xsize: int, ysize: int) {
    && Distinct(order) && Distinct(positions)
    && (forall p :: p in order ==> p !in positions)
    && (forall p :: p in order || p in positions <==> IsInterior(p, xsize, ysize))
    && |order| + |positions| == |AllDotPositions(xsize, ysize)|
  }

  lemma VisitStep(order: seq<Position>, positions: seq<Position>, pos: Position, xsize: int, ysize: int)
    requires Partition(order, positions, xsize, ysize) && pos in positions
    ensures Partition(order + [pos], RemoveFirst(positions, pos), xsize, ysize)
  {
    var rest := RemoveFirst(positions, pos);
    RemoveFirstDistinct(positions, pos);
    DistinctConcat(order, [pos]);
    assert forall p :: p in order + [pos] <==> p in order || p == pos;
  }

  /** `generate_dot_positions`, with `random.choice` left as a free choice
      among the remaining candidates; `order` records the choices made. */
  method GenerateDotPositions(xsize: int, ysize: int) returns (dots: set<Position>, ghost order: seq<Position>)
    ensures IsVisitOrder(order, xsize, ysize) && |order| == |AllDotPositions(xsize, ysize)|
    ensures dots == KeptDots(order)
    ensures forall p :: p in dots ==> IsInterior(p, xsize, ysize)
  {
    var positions := AllDotPositions(xsize, ysize);
    dots := {};
    order := [];
    while positions != []
      invariant Partition(order, positions, xsize, ysize)
      invariant dots == KeptDots(order)
      decreases |positions|
    {
      assert positions[0] in positions;
      var pos :| pos in positions;
      var neighbors := Neighbors(pos);
      if DotCount(neighbors, dots) < 5 {
        dots := dots + {pos};
      }
      VisitStep(order, positions, pos, xsize, ysize);
      KeptDotsAppend(order, pos);
      positions := RemoveFirst(positions, pos);
      order := order + [pos];
    }
  }

  /** The character `create_grid_string` writes for cell (x, y). */
  function Cell(dots: set<Position>, x: int, y: int): char {
    if Position(x, y) in dots then '.' else '#'
  }

  /** The first `n` characters of row `y` of the rendered maze. */
  function RowString(dots: set<Position>, y: int, n: int): (r: string)
    ensures |r| == if n <= 0 then 0 else n
    ensures forall x :: 0 <= x < |r| ==> r[x] == Cell(dots, x, y)
    decreases n
  {
    if n <= 0 then "" else RowString(dots, y, n - 1) + [Cell(dots, n - 1, y)]
  }

  /** The first `n` lines of the rendered maze, each ended by a newline. */
  function GridString(dots: set<Position>, xsize: int, n: int): string
    decreases n
  {
    if n <= 0 then "" else GridString(dots, xsize, n - 1) + RowString(dots, n - 1, xsize) + "\n"
  }

  /** The text layout: ysize lines of xsize characters plus a newline, with
      `.` at (x, y) exactly when (x, y) is a dot and `#` otherwise. */
  lemma {:induction false} GridStringLayout(dots: set<Position>, xsize: nat, ysize: nat, x: int, y: int)
    requires 0 <= y < ysize && 0 <= x <= xsize
    ensures |GridString(dots, xsize, ysize)| == ysize * (xsize + 1)
    ensures GridString(dots, xsize, ysize)[y * (xsize + 1) + x] == if x == xsize then '\n' else Cell(dots, x, y)
  {
    var w := xsize + 1;
    var prefix, line := GridString(dots, xsize, ysize - 1), RowString(dots, ysize - 1, xsize) + "\n";
    GridStringLength(dots, xsize, ysize);
    GridStringLength(dots, xsize, ysize - 1);
    assert GridString(dots, xsize, ysize) == prefix + line;
    if y < ysize - 1 {
      GridStringLayout(dots, xsize, ysize - 1, x, y);
      OffsetInRow(y, ysize - 1, w, x);
    } else {
      assert y * w + x - |prefix| == x;
    }
  }

  /** Offset `x` of row `a` comes before the start of row `b > a`. */
  lemma OffsetInRow(a: nat, b: nat, w: nat, x: nat)
    requires a < b && x < w
    ensures a * w + x < b * w
  {
    MulMonotone(a + 1, b, w);
  }

  lemma MulMonotone(a: nat, b: nat, c: nat)
    requires a <= b
    ensures a * c <= b * c
  {
  }

  lemma {:induction false} GridStringLength(dots: set<Position>, xsize: nat, ysize: nat)
    ensures |GridString(dots, xsize, ysize)| == ysize * (xsize + 1)
  {
    if ysize > 0 {
      GridStringLength(dots, xsize, ysize - 1);
    }
  }

  /** `GridStringLength`, stated for a text known to be the rendering of a
      maze of the given size. */
  lemma RenderedLength(maze: string, dots: set<Position>, size: Position)
    requires maze == GridString(dots, size.x, size.y)
    ensures size.x >= 0 && size.y >= 0 ==> |maze| == size.y * (size.x + 1)
  {
    if size.x >= 0 && size.y >= 0 {
      GridStringLength(dots, size.x, size.y);
    }
  }

  /** `create_grid_string`: renders the dots row by row. */
  method CreateGridString(dots: set<Position>, xsize: int, ysize: int) returns (grid: string)
    ensures grid == GridString(dots, xsize, ysize)
  {
    grid := "";
    var y := 0;
    while y < ysize
      invariant 0 <= y <= if ysize < 0 then 0 else ysize
      invariant grid == GridString(dots, xsize, y)
    {
      var x := 0;
      while x < xsize
        invariant 0 <= x <= if xsize < 0 then 0 else xsize
        invariant grid == GridString(dots, xsize, y) + RowString(dots, y, x)
      {
        grid := grid + (if Position(x, y) in dots then "." else "#");
        x := x + 1;
      }
      grid := grid + "\n";
      y := y + 1;
    }
  }

  /** `create_maze`: a freshly generated maze as text, together with the
      visit order the random choices produced. */
  method CreateMaze(size: Position) returns (maze: string, ghost order: seq<Position>)
    ensures IsVisitOrder(order, size.x, size.y)
    ensures maze == GridString(KeptDots(order), size.x, size.y)
    ensures size.x >= 0 && size.y >= 0 ==> |maze| == size.y * (size.x + 1)
  {
    var dots;
    dots, order := GenerateDotPositions(size.x, size.y);
    maze := CreateGridString(dots, size.x, size.y);
    RenderedLength(maze, dots, size);
  }
}
