/**
  The maze generator of main.rb: a `height` by `width` grid of booleans
  (`true` is a wall) carved by iterative depth-first backtracking.

  The random choice of `Array#sample` is an oracle `pick`: at the `k`-th
  push the carver takes `neighbors[pick(k) % |neighbors|]`, so every property
  below holds for every sequence of choices.
 */
module Generator {
  import opened Coords
  import opened Text
  import opened Carve

  const WallGlyph: char := '\U{2588}'
  const PassageGlyph: char := ' '

  /** One row of the text form: the wall glyph for `true`, a space for `false`. */
  function RenderRow(row: seq<bool>): (line: string)
    ensures |line| == |row|
    ensures forall x :: 0 <= x < |row| ==> line[x] == (if row[x] then WallGlyph else PassageGlyph)
  {
    seq(|row|, x requires 0 <= x < |row| => if row[x] then WallGlyph else PassageGlyph)
  }

  /** The rendered rows of a grid, one line per row. */
  function Lines(rows: seq<seq<bool>>): (lines: seq<string>)
    ensures |lines| == |rows|
    ensures forall y :: 0 <= y < |rows| ==> lines[y] == RenderRow(rows[y])
  {
    seq(|rows|, y requires 0 <= y < |rows| => RenderRow(rows[y]))
  }

  /** The text form of a grid: its rendered rows joined by newlines. */
  function Show(rows: seq<seq<bool>>): string {
    Join(Lines(rows), '\n')
  }

  /** Splitting the text form at newlines gives back the rendered rows, unless
      the last row is empty (Ruby's split then drops it). */
  lemma ShowLines(rows: seq<seq<bool>>)
    requires rows == [] || |rows[|rows| - 1]| >= 1
    ensures Split(Show(rows), '\n') == Lines(rows)
  {
    var lines := Lines(rows);
    forall i | 0 <= i < |lines| ensures '\n' !in lines[i] {
      assert forall x :: 0 <= x < |lines[i]| ==> lines[i][x] != '\n';
    }
    SplitJoin(lines, '\n');
  }

  /** A `width` by `height` grid of walls only. */
  function Walls(width: nat, height: nat): (g: seq<seq<bool>>)
    ensures IsGrid(g, width, height)
    ensures forall y, x :: 0 <= y < height && 0 <= x < width ==> g[y][x]
  {
    seq(height, y => seq(width, x => true))
  }

  class MazeGenerator {
    const width: nat
    const height: nat
    /** `maze[y, x]` is the cell in row `y`, column `x`; `true` is a wall. */
    var maze: array2<bool>

    ghost predicate Valid()
      reads this
    {
      maze.Length0 == height && maze.Length1 == width
    }

    /** A new grid with every cell a wall. */
    constructor (width: nat, height: nat)
      ensures this.width == width && this.height == height
      ensures Valid() && fresh(maze) && Cells() == Walls(width, height)
    {
      this.width := width;
      this.height := height;
      maze := new bool[height, width]((y, x) => true);
      new;
      GridExt(Cells(), Walls(width, height), width, height);
    }

    /** Replaces the grid by a fresh one of the same size, all walls. */
    method Reset()
      requires Valid()
      modifies this
      ensures Valid() && fresh(maze) && Cells() == Walls(width, height)
    {
      maze := new bool[height, width]((y, x) => true);
      GridExt(Cells(), Walls(width, height), width, height);
    }

    /** The grid as a value, row by row. */
    function Cells(): (rows: seq<seq<bool>>)
      reads this, maze
      requires Valid()
      ensures |rows| == height
      ensures forall y :: 0 <= y < height ==> |rows[y]| == width
      ensures forall y, x :: 0 <= y < height && 0 <= x < width ==> rows[y][x] == maze[y, x]
    {
      var a := maze;
      seq(a.Length0, (y: int) requires 0 <= y < a.Length0 reads a =>
        seq(a.Length1, (x: int) requires 0 <= x < a.Length1 reads a => a[y, x]))
    }

    /** The walls two steps away from `(x, y)` inside the grid, in the order -x, +x, -y, +y. */
    function Neighbors(x: int, y: int): (r: seq<Coord>)
      reads this, maze
      requires Valid() && InBounds(Coord(x, y), width, height)
      ensures |r| <= 4
      ensures forall q :: q in r <==> InBounds(q, width, height) && Adjacent2(Coord(x, y), q) && Cells()[q.y][q.x]
      ensures RankSorted(x, y, r)
    {
      OpenNeighborsAreWalls(Cells(), width, height, x, y);
      OpenNeighborsOrdered(Cells(), width, height, x, y);
      OpenNeighbors(Cells(), width, height, x, y)
    }

    /** Clears the cell halfway between `(x1, y1)` and `(x2, y2)` and nothing else. */
    method RemoveWall(x1: int, y1: int, x2: int, y2: int)
      requires Valid()
      requires InBounds(Between(Coord(x1, y1), Coord(x2, y2)), width, height)
      modifies maze
      ensures !maze[(y1 + y2) / 2, (x1 + x2) / 2]
      ensures forall y, x :: 0 <= y < height && 0 <= x < width && Coord(x, y) != Between(Coord(x1, y1), Coord(x2, y2)) ==>
        maze[y, x] == old(maze[y, x])
      ensures Cells() == Clear(old(Cells()), Between(Coord(x1, y1), Coord(x2, y2)))
    {
      maze[(y1 + y2) / 2, (x1 + x2) / 2] := false;
      GridExt(Cells(), Clear(old(Cells()), Between(Coord(x1, y1), Coord(x2, y2))), width, height);
    }

    /** The assignment of line 16: the cell `p` becomes a passage, nothing else changes. */
    method ClearCell(p: Coord)
      requires Valid() && InBounds(p, width, height)
      modifies maze
      ensures Cells() == Clear(old(Cells()), p)
    {
      maze[p.y, p.x] := false;
      GridExt(Cells(), Clear(old(Cells()), p), width, height);
    }

    /** The text form: split at newlines it gives back one rendered line per row. */
    method ToString() returns (s: string)
      requires Valid()
      ensures s == Show(Cells())
      ensures width >= 1 ==> Split(s, '\n') == Lines(Cells())
    {
      var rows := Cells();
      s := Show(rows);
      if width >= 1 {
        ShowLines(rows);
      }
    }

    /**
      Carves the maze from the room `(0, 0)`. The ghost results describe the
      carve: `visited` are the rooms the carver stood on, `carved` the wall
      slots it cleared, and `order`/`parent` list the rooms in visiting order
      with the room each was entered from.
     */
    method Generate(pick: nat -> nat)
      returns (ghost visited: set<Coord>, ghost carved: set<Coord>, ghost order: seq<Coord>, ghost parent: seq<int>)
      requires Valid() && width >= 1 && height >= 1
      modifies maze
      // the carve is a tree of rooms and slots rooted at (0, 0); exactly its cells
      // were cleared, and every visited room is left with no wall two steps away
      ensures IsCarve(width, height, old(Cells()), Cells(), visited, carved, order, parent)
    {
      ghost var init := Cells();
      ghost var g := init;
      var stack := [Coord(0, 0)];
      var step: nat := 0;
      visited, carved, order, parent := {Coord(0, 0)}, {}, [Coord(0, 0)], [0];
      Start(width, height, init);
      while stack != []
        invariant Cells() == g
        invariant CarveInv(width, height, init, g, stack, visited, carved, order, parent)
        decreases Grid(width, height) - visited, |stack|
      {
        var current := stack[|stack| - 1];
        TopFacts(width, height, init, g, stack, visited, carved, order, parent);
        ClearCell(current);
        var neighbors := Neighbors(current.x, current.y);
        if neighbors == [] {
          PopStep(width, height, init, g, stack, visited, carved, order, parent);
          stack := stack[..|stack| - 1];
          g := Clear(g, current);
        } else {
          var next := neighbors[pick(step) % |neighbors|];
          step := step + 1;
          assert next in neighbors;
          ghost var j :| 0 <= j < |order| && order[j] == current;
          PushStep(width, height, init, g, stack, visited, carved, order, parent, next, j);
          RemoveWall(current.x, current.y, next.x, next.y);
          InGrid(next, width, height);
          g := Clear(Clear(g, current), Between(current, next));
          visited := visited + {next};
          carved := carved + {Between(current, next)};
          order := order + [next];
          parent := parent + [j];
          stack := stack + [next];
        }
      }
      Finish(width, height, init, g, visited, carved, order, parent);
    }
  }
}
