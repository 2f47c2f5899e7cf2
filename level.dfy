/** The obstacle table of a level: the cells marked `#` in a text grid,
    line y and character x giving the cell (y, x). */
module Levels {
  import opened Grid

  /** The obstacles of line `y`, left to right. */
  function LineCells(y: int, line: string): (r: seq<Cell>)
    ensures forall i :: 0 <= i < |r| ==> r[i].0 == y && 0 <= r[i].1 < |line|
    decreases |line|
  {
    if line == [] then []
    else
      var x := |line| - 1;
      LineCells(y, line[..x]) + (if line[x] == '#' then [(y, x)] else [])
  }

  /** The obstacles of all lines, top to bottom. */
  function Scan(lines: seq<string>): (r: seq<Cell>)
    ensures forall i :: 0 <= i < |r| ==> 0 <= r[i].0 < |lines|
    decreases |lines|
  {
    if lines == [] then []
    else
      var y := |lines| - 1;
      Scan(lines[..y]) + LineCells(y, lines[y])
  }

  /** Every entry names a character position of the text. */
  predicate WithinText(r: seq<Cell>, lines: seq<string>) {
    forall i :: 0 <= i < |r| ==> 0 <= r[i].0 < |lines| && 0 <= r[i].1 < |lines[r[i].0]|
  }

  lemma {:induction false} ScanBounds(lines: seq<string>)
    ensures WithinText(Scan(lines), lines)
    decreases |lines|
  {
    if lines != [] {
      var y := |lines| - 1;
      ScanBounds(lines[..y]);
      var earlier, row := Scan(lines[..y]), LineCells(y, lines[y]);
      var r := earlier + row;
      forall i | 0 <= i < |r|
        ensures 0 <= r[i].0 < |lines| && 0 <= r[i].1 < |lines[r[i].0]|
      {
        if i < |earlier| {
          assert r[i] == earlier[i];
          assert lines[..y][earlier[i].0] == lines[earlier[i].0];
        } else {
          assert r[i] == row[i - |earlier|];
        }
      }
    }
  }

  /** The number of `#` characters in all lines. */
  function HashCount(lines: seq<string>): nat
    decreases |lines|
  {
    if lines == [] then 0
    else HashCount(lines[..|lines| - 1]) + multiset(lines[|lines| - 1])['#']
  }

  /** Row-major order: an earlier row, or the same row and an earlier column. */
  predicate Before(a: Cell, b: Cell) {
    a.0 < b.0 || (a.0 == b.0 && a.1 < b.1)
  }

  /** Every entry comes before every later one in row-major order. */
  predicate RowMajor(r: seq<Cell>) {
    forall i, j :: 0 <= i < j < |r| ==> Before(r[i], r[j])
  }

  lemma {:induction false} LineMembership(y: int, line: string, c: Cell)
    ensures c in LineCells(y, line) <==> c.0 == y && 0 <= c.1 < |line| && line[c.1] == '#'
    decreases |line|
  {
    if line != [] {
      var x := |line| - 1;
      LineMembership(y, line[..x], c);
      if 0 <= c.1 < x {
        assert line[..x][c.1] == line[c.1];
      }
    }
  }

  /** A cell is in the table exactly when its character is `#`. */
  lemma {:induction false} ScanMembership(lines: seq<string>, c: Cell)
    ensures c in Scan(lines) <==>
            0 <= c.0 < |lines| && 0 <= c.1 < |lines[c.0]| && lines[c.0][c.1] == '#'
    decreases |lines|
  {
    if lines != [] {
      var y := |lines| - 1;
      ScanMembership(lines[..y], c);
      LineMembership(y, lines[y], c);
      assert Scan(lines) == Scan(lines[..y]) + LineCells(y, lines[y]);
      assert c in Scan(lines) <==> c in Scan(lines[..y]) || c in LineCells(y, lines[y]);
      if 0 <= c.0 < y {
        assert lines[..y][c.0] == lines[c.0];
      }
    }
  }

  lemma {:induction false} LineCount(y: int, line: string)
    ensures |LineCells(y, line)| == multiset(line)['#']
    decreases |line|
  {
    if line != [] {
      var x := |line| - 1;
      LineCount(y, line[..x]);
      assert line == line[..x] + [line[x]];
      assert multiset(line) == multiset(line[..x]) + multiset{line[x]};
    }
  }

  /** The table has one entry per `#` character. */
  lemma {:induction false} ScanCount(lines: seq<string>)
    ensures |Scan(lines)| == HashCount(lines)
    decreases |lines|
  {
    if lines != [] {
      var y := |lines| - 1;
      ScanCount(lines[..y]);
      LineCount(y, lines[y]);
    }
  }

  lemma {:induction false} LineOrdered(y: int, line: string)
    ensures RowMajor(LineCells(y, line))
    decreases |line|
  {
    if line != [] {
      var x := |line| - 1;
      LineOrdered(y, line[..x]);
      var earlier := LineCells(y, line[..x]);
      var r := LineCells(y, line);
      assert r == earlier + (if line[x] == '#' then [(y, x)] else []);
      forall i, j | 0 <= i < j < |r| ensures Before(r[i], r[j]) {
        if j < |earlier| {
          assert r[i] == earlier[i] && r[j] == earlier[j];
          assert Before(earlier[i], earlier[j]);
        } else {
          assert r[i] == earlier[i] && earlier[i].0 == y && earlier[i].1 < x;
          assert r[j] == (y, x);
        }
      }
    }
  }

  /** The table lists the obstacles in row-major order, so none twice. */
  lemma {:induction false} ScanOrdered(lines: seq<string>)
    ensures RowMajor(Scan(lines))
    decreases |lines|
  {
    if lines != [] {
      var y := |lines| - 1;
      ScanOrdered(lines[..y]);
      ScanBounds(lines[..y]);
      LineOrdered(y, lines[y]);
      var earlier, row := Scan(lines[..y]), LineCells(y, lines[y]);
      var r := earlier + row;
      forall i, j | 0 <= i < j < |r| ensures Before(r[i], r[j]) {
        if j < |earlier| {
          assert r[i] == earlier[i] && r[j] == earlier[j];
          assert Before(earlier[i], earlier[j]);
        } else if i >= |earlier| {
          assert r[i] == row[i - |earlier|] && r[j] == row[j - |earlier|];
          assert Before(row[i - |earlier|], row[j - |earlier|]);
        } else {
          assert r[i] == earlier[i] && earlier[i].0 < |lines[..y]|;
          assert r[j] == row[j - |earlier|] && r[j].0 == y;
        }
      }
    }
  }

  class Level {
    const width: int
    const height: int
    const cellSize: int
    var obstacles: seq<Cell>

    constructor (width: int, height: int, cellSize: int)
      ensures this.width == width && this.height == height && this.cellSize == cellSize
      ensures obstacles == []
    {
      this.width := width;
      this.height := height;
      this.cellSize := cellSize;
      obstacles := [];
    }

    /** Appends the cells of the `#` characters of `lines`, keeping what is
        already in the table. */
    method GenerateObstacles(lines: seq<string>)
      modifies this
      ensures obstacles == old(obstacles) + Scan(lines)
    {
      for y := 0 to |lines|
        invariant obstacles == old(obstacles) + Scan(lines[..y])
      {
        var line := lines[y];
        ghost var done := obstacles;
        for x := 0 to |line|
          invariant obstacles == done + LineCells(y, line[..x])
        {
          assert line[..x + 1][..x] == line[..x];
          assert LineCells(y, line[..x + 1])
              == LineCells(y, line[..x]) + (if line[x] == '#' then [(y, x)] else []);
          if line[x] == '#' {
            var obstaclePosition := (y, x);
            obstacles := obstacles + [obstaclePosition];
          }
        }
        assert line[..|line|] == line;
        assert lines[..y + 1][..y] == lines[..y];
        assert Scan(lines[..y + 1]) == Scan(lines[..y]) + LineCells(y, line);
      }
      assert lines[..|lines|] == lines;
    }

    function IsObstacle(position: Cell): (b: bool)
      reads this
      ensures b <==> exists i :: 0 <= i < |obstacles| && obstacles[i] == position
    {
      position in obstacles
    }
  }

  /** After loading `lines` into an empty table, a cell is an obstacle
      exactly when its character is `#`. */
  lemma ObstacleIffHash(level: Level, lines: seq<string>, c: Cell)
    requires level.obstacles == Scan(lines)
    ensures level.IsObstacle(c) <==>
            0 <= c.0 < |lines| && 0 <= c.1 < |lines[c.0]| && lines[c.0][c.1] == '#'
  {
    ScanMembership(lines, c);
  }
}
