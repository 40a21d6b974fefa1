/** The tile grid (class TileGrid of part2_classes.py): a level parsed from
    text into rows of characters, indexed by position as `[y][x]`, iterated
    row by row, and searched for the first tile with a given character. */
module TileGrids {
  import opened Positions

  /** Python's `str.isspace` for one character. */
  predicate IsSpace(c: char) {
    || c == ' ' || c == '\t' || c == '\n' || c == '\r' || c == '\U{0B}' || c == '\U{0C}'
    || ('\U{1C}' <= c <= '\U{1F}') || c == '\U{85}' || c == '\U{A0}' || c == '\U{1680}'
    || ('\U{2000}' <= c <= '\U{200A}') || c == '\U{2028}' || c == '\U{2029}'
    || c == '\U{202F}' || c == '\U{205F}' || c == '\U{3000}'
  }

  /** Drops the leading white space. */
  function TrimStart(s: string): (r: string)
    ensures |r| <= |s| && r == s[|s| - |r|..]
    ensures forall i :: 0 <= i < |s| - |r| ==> IsSpace(s[i])
    ensures r != [] ==> !IsSpace(r[0])
  {
    if s != [] && IsSpace(s[0]) then
      var r := TrimStart(s[1..]);
      assert s[1..][|s| - 1 - |r|..] == s[|s| - |r|..];
      SpacesBefore(s, |s| - |r|);
      r
    else s
  }

  /** White space at the head of `s` and over `s[1..i]` is white space over `s[..i]`. */
  lemma SpacesBefore(s: string, i: int)
    requires 0 < i <= |s| && IsSpace(s[0])
    requires forall k :: 0 <= k < i - 1 ==> IsSpace(s[1..][k])
    ensures forall k :: 0 <= k < i ==> IsSpace(s[k])
  {
    forall k | 1 <= k < i ensures IsSpace(s[k]) {
      assert s[k] == s[1..][k - 1];
    }
  }

  /** Drops the trailing white space. */
  function TrimEnd(s: string): (r: string)
    ensures |r| <= |s| && r == s[..|r|]
    ensures forall i :: |r| <= i < |s| ==> IsSpace(s[i])
    ensures r != [] ==> !IsSpace(r[|r| - 1])
  {
    if s != [] && IsSpace(s[|s| - 1]) then TrimEnd(s[..|s| - 1]) else s
  }

  /** `str.strip()`. */
  function Strip(s: string): (r: string)
    ensures |r| <= |s|
    ensures r != [] ==> !IsSpace(r[0]) && !IsSpace(r[|r| - 1])
    ensures exists i, j ::
              && 0 <= i <= j <= |s| && r == s[i..j]
              && (forall k :: 0 <= k < i ==> IsSpace(s[k]))
              && (forall k :: j <= k < |s| ==> IsSpace(s[k]))
  {
    var t := TrimStart(s);
    var r := TrimEnd(t);
    TrimmedSlice(s, t, r);
    r
  }

  /** A prefix of a suffix of `s`, cut off at white space only, is a slice
      of `s` with white space only before and after it. */
  lemma TrimmedSlice(s: string, t: string, r: string)
    requires |t| <= |s| && t == s[|s| - |t|..]
    requires forall k :: 0 <= k < |s| - |t| ==> IsSpace(s[k])
    requires |r| <= |t| && r == t[..|r|]
    requires forall k :: |r| <= k < |t| ==> IsSpace(t[k])
    ensures exists i, j ::
              && 0 <= i <= j <= |s| && r == s[i..j]
              && (forall k :: 0 <= k < i ==> IsSpace(s[k]))
              && (forall k :: j <= k < |s| ==> IsSpace(s[k]))
  {
    var i := |s| - |t|;
    var j := i + |r|;
    assert r == s[i..j];
    forall k | j <= k < |s| ensures IsSpace(s[k]) {
      assert s[k] == t[k - i];
    }
  }

  /** `str.split("\n")`: the pieces between newline characters. */
  function SplitLines(s: string): (r: seq<string>)
    ensures |r| >= 1
    ensures forall i :: 0 <= i < |r| ==> '\n' !in r[i]
  {
    if s == [] then [""]
    else
      var rest := SplitLines(s[1..]);
      if s[0] == '\n' then [""] + rest
      else [[s[0]] + rest[0]] + rest[1..]
  }

  /** `"\n".join(lines)`. */
  function JoinLines(lines: seq<string>): string
    requires |lines| >= 1
  {
    if |lines| == 1 then lines[0] else JoinLines(lines[..|lines| - 1]) + "\n" + lines[|lines| - 1]
  }

  /** Splitting at newlines loses nothing: joining the pieces gives the text back. */
  lemma {:induction false} JoinSplitLines(s: string)
    ensures JoinLines(SplitLines(s)) == s
  {
    if s != [] {
      var rest := SplitLines(s[1..]);
      JoinSplitLines(s[1..]);
      var r := SplitLines(s);
      if s[0] == '\n' {
        assert r == [""] + rest;
        JoinFirst(r);
        assert r[1..] == rest;
      } else {
        assert r == [[s[0]] + rest[0]] + rest[1..];
        if |rest| == 1 {
          assert s == [s[0]] + s[1..];
        } else {
          JoinFirst(r);
          JoinFirst(rest);
          assert r[1..] == rest[1..];
        }
      }
    }
  }

  /** Joining from the front: the first line, a newline, then the others. */
  lemma {:induction false} JoinFirst(lines: seq<string>)
    requires |lines| >= 2
    ensures JoinLines(lines) == lines[0] + "\n" + JoinLines(lines[1..])
    decreases |lines|
  {
    var n := |lines| - 1;
    if n > 1 {
      JoinFirst(lines[..n]);
      assert lines[..n][1..] == lines[1..][..n - 1];
      assert lines[..n][0] == lines[0];
    }
  }

  /** A piece without newlines is one line. */
  lemma {:induction false} SplitSingleLine(s: string)
    requires '\n' !in s
    ensures SplitLines(s) == [s]
  {
    if s != [] {
      assert s[0] in s;
      assert '\n' !in s[1..];
      SplitSingleLine(s[1..]);
      assert s == [s[0]] + s[1..];
    }
  }

  /** A newline followed by a piece without newlines adds that piece as the last line. */
  lemma {:induction false} SplitLinesLastLine(a: string, b: string)
    requires '\n' !in b
    ensures SplitLines(a + "\n" + b) == SplitLines(a) + [b]
  {
    if a == [] {
      SplitSingleLine(b);
      assert (a + "\n" + b)[1..] == b;
    } else {
      SplitLinesLastLine(a[1..], b);
      assert (a + "\n" + b)[0] == a[0] && (a + "\n" + b)[1..] == a[1..] + "\n" + b;
    }
  }

  /** Joining lines without newlines and splitting again gives the lines back. */
  lemma {:induction false} SplitJoinLines(lines: seq<string>)
    requires |lines| >= 1
    requires forall i :: 0 <= i < |lines| ==> '\n' !in lines[i]
    ensures SplitLines(JoinLines(lines)) == lines
  {
    var n := |lines| - 1;
    if n == 0 {
      SplitSingleLine(lines[0]);
    } else {
      SplitJoinLines(lines[..n]);
      SplitLinesLastLine(JoinLines(lines[..n]), lines[n]);
      assert lines[..n] + [lines[n]] == lines;
    }
  }

  /** `TileGrid.parse_grid`: the rows of the stripped text. Python's
      `list(row)` turns a row into a list of its characters, which is the row
      itself here. */
  function ParseGrid(data: string): (rows: seq<seq<char>>)
    ensures |rows| >= 1
    ensures forall y :: 0 <= y < |rows| ==> '\n' !in rows[y]
    ensures JoinLines(rows) == Strip(data)
  {
    JoinSplitLines(Strip(data));
    SplitLines(Strip(data))
  }

  /** `rows[p.y][p.x]` exists, with no Python negative-index wrap-around. */
  predicate InGrid(rows: seq<seq<char>>, p: Position) {
    0 <= p.y < |rows| && 0 <= p.x < |rows[p.y]|
  }

  /** The pairs `__iter__` yields for the first `n` characters of row `y`. */
  function RowTiles(row: seq<char>, y: int, n: nat): (r: seq<(Position, char)>)
    requires n <= |row|
    ensures |r| == n
    ensures forall p, c :: (p, c) in r <==> p.y == y && 0 <= p.x < n && c == row[p.x]
  {
    if n == 0 then [] else RowTiles(row, y, n - 1) + [(Position(n - 1, y), row[n - 1])]
  }

  /** The pairs `__iter__` yields for the first `n` rows. */
  function GridTiles(rows: seq<seq<char>>, n: nat): (r: seq<(Position, char)>)
    requires n <= |rows|
    ensures forall p, c :: (p, c) in r <==> p.y < n && InGrid(rows, p) && c == rows[p.y][p.x]
  {
    if n == 0 then [] else GridTiles(rows, n - 1) + RowTiles(rows[n - 1], n - 1, |rows[n - 1]|)
  }

  /** `__iter__`: every (position, character) pair of the grid. */
  function Tiles(rows: seq<seq<char>>): (r: seq<(Position, char)>)
    ensures forall p, c :: (p, c) in r <==> InGrid(rows, p) && c == rows[p.y][p.x]
  {
    GridTiles(rows, |rows|)
  }

  /** Every pair comes strictly before the pairs after it, reading row by row. */
  ghost predicate InRowMajorOrder(r: seq<(Position, char)>) {
    forall i, j :: 0 <= i < j < |r| ==> Before(r[i].0, r[j].0)
  }

  /** A row's pairs come left to right. */
  lemma {:induction false} RowTilesInOrder(row: seq<char>, y: int, n: nat)
    requires n <= |row|
    ensures InRowMajorOrder(RowTiles(row, y, n))
  {
    if n > 0 {
      RowTilesInOrder(row, y, n - 1);
      var r, init := RowTiles(row, y, n), RowTiles(row, y, n - 1);
      forall i, j | 0 <= i < j < |r| ensures Before(r[i].0, r[j].0) {
        if j < n - 1 {
          assert r[i] == init[i] && r[j] == init[j];
          assert Before(init[i].0, init[j].0);
        } else {
          assert r[j] == (Position(n - 1, y), row[n - 1]);
          assert r[i] == init[i] && (r[i].0, r[i].1) in init;
          assert r[i].0.y == y && r[i].0.x < n - 1;
        }
      }
    }
  }

  /** `__iter__` runs in row-major order (y outer, x inner). Since the order is
      strict, it yields every cell exactly once. */
  lemma {:induction false} TilesInRowMajorOrder(rows: seq<seq<char>>, n: nat)
    requires n <= |rows|
    ensures InRowMajorOrder(GridTiles(rows, n))
  {
    if n > 0 {
      TilesInRowMajorOrder(rows, n - 1);
      var init, last := GridTiles(rows, n - 1), RowTiles(rows[n - 1], n - 1, |rows[n - 1]|);
      RowTilesInOrder(rows[n - 1], n - 1, |rows[n - 1]|);
      var r := init + last;
      forall i, j | 0 <= i < j < |r| ensures Before(r[i].0, r[j].0) {
        if j < |init| {
          assert r[i] == init[i] && r[j] == init[j];
        } else if |init| <= i {
          assert r[i] == last[i - |init|] && r[j] == last[j - |init|];
        } else {
          assert r[i] == init[i] && (r[i].0, r[i].1) in init;
          assert r[j] == last[j - |init|] && (r[j].0, r[j].1) in last;
          assert r[i].0.y < n - 1 && r[j].0.y == n - 1;
        }
      }
    }
  }

  /** `__iter__` yields each cell of the grid exactly once. */
  lemma TilesVisitEachCellOnce(rows: seq<seq<char>>)
    ensures forall i, j :: 0 <= i < j < |Tiles(rows)| ==> Tiles(rows)[i].0 != Tiles(rows)[j].0
  {
    TilesInRowMajorOrder(rows, |rows|);
  }

  class TileGrid {
    /** `_grid`: one list of characters per row. */
    var rows: seq<seq<char>>

    /** Parsing always produces at least one row, so `xsize` can read row 0. */
    ghost predicate Valid()
      reads this
    {
      |rows| >= 1
    }

    /** `TileGrid(data)`. */
    constructor (data: string)
      ensures Valid() && rows == ParseGrid(data)
    {
      rows := ParseGrid(data);
    }

    /** `xsize`: the length of the first row. */
    function XSize(): (n: nat)
      reads this
      requires Valid()
      ensures forall x :: 0 <= x < n <==> Contains(Position(x, 0))
    {
      |rows[0]|
    }

    /** `ysize`: the number of rows. */
    function YSize(): (n: nat)
      reads this
      ensures forall p :: Contains(p) ==> p.y < n
      ensures forall y :: 0 <= y < n ==> y < |rows| && (rows[y] != [] ==> Contains(Position(0, y)))
      ensures |rows| <= n
    {
      |rows|
    }

    predicate Contains(pos: Position)
      reads this
    {
      InGrid(rows, pos)
    }

    /** `__getitem__`: the character at `pos`, the one iteration yields with it. */
    function Get(pos: Position): (c: char)
      reads this
      requires Contains(pos)
      ensures (pos, c) in Tiles(rows)
    {
      rows[pos.y][pos.x]
    }

    /** `__setitem__`: writes one cell and leaves all others and the shape alone. */
    method Set(pos: Position, value: char)
      requires Contains(pos)
      modifies this
      ensures rows == old(rows)[pos.y := old(rows)[pos.y][pos.x := value]]
      ensures |rows| == old(|rows|) && forall y :: 0 <= y < |rows| ==> |rows[y]| == old(|rows[y]|)
      ensures Contains(pos) && Get(pos) == value
      ensures forall q :: Contains(q) && q != pos ==> Get(q) == old(rows[q.y][q.x])
    {
      rows := rows[pos.y := rows[pos.y][pos.x := value]];
    }

    /** `find_tile`: the first position, in the order `__iter__` visits them,
        whose character is `query`, or None when there is none. */
    method FindTile(query: char := '*') returns (found: Option<Position>)
      ensures found.Some? ==> Contains(found.value) && Get(found.value) == query
      ensures found.Some? ==> forall q :: Contains(q) && Before(q, found.value) ==> Get(q) != query
      ensures found.None? <==> forall q :: Contains(q) ==> Get(q) != query
    {
      var y := 0;
      while y < |rows|
        invariant 0 <= y <= |rows|
        invariant forall q :: Contains(q) && q.y < y ==> Get(q) != query
      {
        var x := 0;
        while x < |rows[y]|
          invariant 0 <= x <= |rows[y]|
          invariant forall q :: Contains(q) && Before(q, Position(x, y)) ==> Get(q) != query
        {
          if rows[y][x] == query {
            return Some(Position(x, y));
          }
          x := x + 1;
        }
        y := y + 1;
      }
      return None;
    }
  }
}
