/**
  The grid post-processing of the maze window in main.rb: the generator's
  text form is decoded back into a grid of cells, the cells equal to `false`
  are collected, and a start and a destination are sampled among them and
  marked `'S'` and `'D'`.

  Decoding turns the wall glyph into `false` and keeps every other character
  as a one-character string, so the "free spaces" collected afterwards are
  the generator's walls, not its passages. The model keeps this as written.
 */
module Window {
  import opened Coords
  import opened Text
  import opened Carve
  import opened Generator

  datatype Option<T> = None | Some(value: T)

  /** A cell of the window's grid: Ruby's `false`, or a one-character string
      (`' '`, `'S'`, `'D'`, or any other character). */
  datatype Cell = False | Space | S | D | Char(c: char)

  /** How `generate_maze` ends: both points marked, or the `nil` that
      `random_points` returns for the start (line 119 then fails before any
      write) or for the destination (line 122 fails after `'S'` was written). */
  datatype Outcome = Marked(start: Coord, destination: Coord) | StartIsNil | DestinationIsNil(start: Coord)

  const WindowWidth: int := 800
  const WindowHeight: int := 600
  const ControlBarWidth: int := 200
  /** The maze is drawn with 10-pixel cells left of the control bar. */
  const MazeColumns: int := (WindowWidth - ControlBarWidth) / 10
  const MazeRows: int := WindowHeight / 10

  /** Line 113 on one character: the wall glyph becomes `false`, anything else stays. */
  function DecodeChar(c: char): Cell {
    if c == WallGlyph then False
    else if c == ' ' then Space
    else if c == 'S' then S
    else if c == 'D' then D
    else Char(c)
  }

  function DecodeLine(line: string): seq<Cell> {
    seq(|line|, x requires 0 <= x < |line| => DecodeChar(line[x]))
  }

  /** Line 113: split the text at newlines and decode every character. */
  function Decode(text: string): seq<seq<Cell>> {
    var lines := Split(text, '\n');
    seq(|lines|, y requires 0 <= y < |lines| => DecodeLine(lines[y]))
  }

  /** The window grid that decoding yields for a generator grid: `false` on the
      generator's walls, `' '` on its passages. */
  function Inverted(rows: seq<seq<bool>>): (cells: seq<seq<Cell>>)
    ensures |cells| == |rows|
    ensures forall y :: 0 <= y < |rows| ==> |cells[y]| == |rows[y]|
    ensures forall y, x :: 0 <= y < |rows| && 0 <= x < |rows[y]| ==>
      (cells[y][x] == False <==> rows[y][x]) && (cells[y][x] == Space <==> !rows[y][x])
  {
    seq(|rows|, y requires 0 <= y < |rows| =>
      seq(|rows[y]|, x requires 0 <= x < |rows[y]| => if rows[y][x] then False else Space))
  }

  /** Decoding the text form of a generator grid gives the inverted grid, of the
      same dimensions. */
  lemma DecodeText(text: string, rows: seq<seq<bool>>, width: int, height: int)
    requires IsGrid(rows, width, height)
    requires Split(text, '\n') == Lines(rows)
    ensures Decode(text) == Inverted(rows)
  {
    var lines := Split(text, '\n');
    var a, b := Decode(text), Inverted(rows);
    forall y | 0 <= y < height ensures a[y] == b[y] {
      forall x | 0 <= x < width ensures a[y][x] == b[y][x] {
        assert lines[y] == RenderRow(rows[y]);
      }
    }
  }

  /** `grid` with the cell at `p` replaced by `c` (the assignments of lines 119 and 122). */
  function SetCell(grid: seq<seq<Cell>>, p: Coord, c: Cell): (r: seq<seq<Cell>>)
    requires 0 <= p.y < |grid| && 0 <= p.x < |grid[p.y]|
    ensures |r| == |grid| && forall y :: 0 <= y < |grid| ==> |r[y]| == |grid[y]|
    ensures r[p.y][p.x] == c
    ensures forall y, x :: 0 <= y < |grid| && 0 <= x < |grid[y]| && Coord(x, y) != p ==> r[y][x] == grid[y][x]
  {
    grid[p.y := grid[p.y][p.x := c]]
  }

  /** The positions of `grid` holding `c`. */
  ghost function Positions(grid: seq<seq<Cell>>, c: Cell): set<Coord> {
    set y, x | 0 <= y < |grid| && 0 <= x < |grid[y]| && grid[y][x] == c :: Coord(x, y)
  }

  /** A cell sampled from `s` by the choice `pick`: `nil` for an empty list. */
  function Sample<T>(s: seq<T>, pick: nat): (r: Option<T>)
    ensures r.None? <==> |s| == 0
    ensures r.Some? ==> r.value in s
  {
    if |s| == 0 then None else Some(s[pick % |s|])
  }

  /** Ruby's `Array#delete`: every element equal to `v` removed. */
  function Without(s: seq<Coord>, v: Coord): (r: seq<Coord>)
    ensures |r| <= |s|
    ensures forall u :: u in r <==> u in s && u != v
    decreases |s|
  {
    if |s| == 0 then []
    else (if s[0] == v then [] else [s[0]]) + Without(s[1..], v)
  }

  /** Line 135-140: a start sampled from `free`, removed, and a destination
      sampled from what is left. */
  method RandomPoints(free: seq<Coord>, startPick: nat, destPick: nat)
    returns (start: Option<Coord>, destination: Option<Coord>)
    ensures start.None? <==> |free| == 0
    ensures start.Some? ==> start.value in free
    ensures destination.Some? ==> start.Some? && destination.value in free && destination.value != start.value
    ensures destination.None? <==> forall q :: q in free ==> start == Some(q)
  {
    start := Sample(free, startPick);
    var rest := if start.Some? then Without(free, start.value) else free;
    destination := Sample(rest, destPick);
  }

  /** `p` comes before `q` in row-major order (row first, then column). */
  predicate RowMajorBefore(p: Coord, q: Coord) {
    p.y < q.y || (p.y == q.y && p.x < q.x)
  }

  /** The cell at `q` exists and is `false`. */
  ghost predicate IsFree(grid: seq<seq<Cell>>, q: Coord) {
    0 <= q.y < |grid| && 0 <= q.x < |grid[q.y]| && grid[q.y][q.x] == False
  }

  /** The free cells of an inverted grid are the generator's walls. */
  lemma FreeAreWalls(rows: seq<seq<bool>>, width: int, height: int)
    requires IsGrid(rows, width, height)
    ensures forall q :: IsFree(Inverted(rows), q) <==> InBounds(q, width, height) && rows[q.y][q.x]
  {
  }

  /** The points named by an outcome lie inside a `width` by `height` grid. */
  ghost predicate PointsInside(outcome: Outcome, width: int, height: int) {
    match outcome
    case StartIsNil => true
    case DestinationIsNil(start) => InBounds(start, width, height)
    case Marked(start, destination) => InBounds(start, width, height) && InBounds(destination, width, height)
  }

  /** Lines 119 and 122 as far as `generate_maze` gets: nothing written when the
      start is `nil`, only `'S'` when the destination is `nil`, else both. */
  function Marking(grid: seq<seq<Cell>>, width: int, height: int, outcome: Outcome): seq<seq<Cell>>
    requires |grid| == height && forall y :: 0 <= y < height ==> |grid[y]| == width
    requires PointsInside(outcome, width, height)
  {
    match outcome
    case StartIsNil => grid
    case DestinationIsNil(start) => SetCell(grid, start, S)
    case Marked(start, destination) => SetCell(SetCell(grid, start, S), destination, D)
  }

  /** In the inverted grid, marking leaves `'S'` exactly at the start and `'D'`
      exactly at the destination, when they were found and differ, and every
      other cell as decoded. */
  lemma MarkingPositions(rows: seq<seq<bool>>, width: int, height: int, outcome: Outcome)
    requires IsGrid(rows, width, height) && PointsInside(outcome, width, height)
    requires outcome.Marked? ==> outcome.start != outcome.destination
    ensures Positions(Marking(Inverted(rows), width, height, outcome), S) ==
      if outcome.StartIsNil? then {} else {outcome.start}
    ensures Positions(Marking(Inverted(rows), width, height, outcome), D) ==
      if outcome.Marked? then {outcome.destination} else {}
    ensures forall y, x ::
      (0 <= y < height && 0 <= x < width &&
       (outcome.StartIsNil? || Coord(x, y) != outcome.start) &&
       (!outcome.Marked? || Coord(x, y) != outcome.destination)) ==>
        Marking(Inverted(rows), width, height, outcome)[y][x] == Inverted(rows)[y][x]
  {
    var marked := Marking(Inverted(rows), width, height, outcome);
    if !outcome.StartIsNil? {
      assert outcome.start == Coord(outcome.start.x, outcome.start.y);
      assert outcome.start in Positions(marked, S);
    }
    if outcome.Marked? {
      assert outcome.destination == Coord(outcome.destination.x, outcome.destination.y);
      assert outcome.destination in Positions(marked, D);
    }
  }

  /** What `generate_maze` leaves behind for the generator grid `cells`: a
      finished maze; `free` its walls in row-major order; the outcome telling
      whether none, one or two different free cells were found; and `grid` the
      decoded grid with the points found marked. */
  ghost predicate Prepared(cells: seq<seq<bool>>, grid: seq<seq<Cell>>, free: seq<Coord>, outcome: Outcome,
                           width: int, height: int)
  {
    Complete(cells, width, height) &&
    (forall q :: q in free <==> InBounds(q, width, height) && cells[q.y][q.x]) &&
    (forall i, j :: 0 <= i < j < |free| ==> RowMajorBefore(free[i], free[j])) &&
    (outcome.StartIsNil? <==> |free| == 0) &&
    (outcome.DestinationIsNil? <==> |free| == 1) &&
    (!outcome.StartIsNil? ==> outcome.start in free) &&
    (outcome.Marked? ==> outcome.destination in free && outcome.destination != outcome.start) &&
    PointsInside(outcome, width, height) &&
    grid == Marking(Inverted(cells), width, height, outcome)
  }

  /** The steps of `generate_maze` put together: decoding, the free cells, the
      sampled points and the marks establish `Prepared`. */
  lemma Prepare(cells: seq<seq<bool>>, decoded: seq<seq<Cell>>, free: seq<Coord>,
                start: Option<Coord>, destination: Option<Coord>, outcome: Outcome, grid: seq<seq<Cell>>,
                width: int, height: int)
    requires Complete(cells, width, height) && decoded == Inverted(cells)
    requires forall q :: q in free <==> IsFree(decoded, q)
    requires forall i, j :: 0 <= i < j < |free| ==> RowMajorBefore(free[i], free[j])
    requires start.None? <==> |free| == 0
    requires start.Some? ==> start.value in free
    requires destination.Some? ==> start.Some? && destination.value in free && destination.value != start.value
    requires destination.None? <==> forall q :: q in free ==> start == Some(q)
    requires outcome.StartIsNil? <==> start.None?
    requires outcome.DestinationIsNil? <==> start.Some? && destination.None?
    requires !outcome.StartIsNil? ==> start == Some(outcome.start)
    requires outcome.Marked? ==> destination == Some(outcome.destination)
    requires PointsInside(outcome, width, height)
    requires grid == Marking(decoded, width, height, outcome)
    ensures Prepared(cells, grid, free, outcome, width, height)
  {
    FreeAreWalls(cells, width, height);
    if |free| >= 2 {
      assert free[0] != free[1];
    }
  }

  /** Two pillars are walls of a finished maze, hence free, so a maze with room
      for two pillars always gets both points. */
  lemma BothPointsFound(cells: seq<seq<bool>>, grid: seq<seq<Cell>>, free: seq<Coord>, outcome: Outcome,
                        width: int, height: int)
    requires Prepared(cells, grid, free, outcome, width, height)
    requires (width >= 4 && height >= 2) || (width >= 2 && height >= 4)
    ensures outcome.Marked?
  {
    var p, q := Coord(1, 1), if width >= 4 then Coord(3, 1) else Coord(1, 3);
    assert p in free && q in free;
  }

  class MazeWindow {
    const generator: MazeGenerator
    /** The decoded maze, `maze[y][x]` in row `y`, column `x`. */
    var maze: seq<seq<Cell>>

    ghost predicate Valid()
      reads this, generator
    {
      generator.Valid() && generator.width >= 1 && generator.height >= 1
    }

    /** Line 60-65: a 60 by 60 generator, then a first maze with its two points marked. */
    constructor (pick: nat -> nat, startPick: nat, destPick: nat)
      ensures Valid() && generator.width == MazeColumns && generator.height == MazeRows
      ensures |maze| == MazeRows && forall y :: 0 <= y < MazeRows ==> |maze[y]| == MazeColumns
      ensures exists start, destination ::
        start != destination && Positions(maze, S) == {start} && Positions(maze, D) == {destination}
      // both points are free cells, and every other cell is the decoded generator grid
      ensures exists cells: seq<seq<bool>>, free: seq<Coord>, outcome: Outcome ::
        outcome.Marked? && Prepared(cells, maze, free, outcome, MazeColumns, MazeRows) &&
        forall y, x :: 0 <= y < MazeRows && 0 <= x < MazeColumns ==> generator.maze[y, x] == cells[y][x]
      // the generator grid is a finished carve from all walls: a tree, with exactly its rooms and slots cleared
      ensures exists cells: seq<seq<bool>>, visited: set<Coord>, carved: set<Coord>, order: seq<Coord>, parent: seq<int> ::
        IsCarve(MazeColumns, MazeRows, Walls(MazeColumns, MazeRows), cells, visited, carved, order, parent) &&
        forall y, x :: 0 <= y < MazeRows && 0 <= x < MazeColumns ==> generator.maze[y, x] == cells[y][x]
    {
      generator := new MazeGenerator(MazeColumns, MazeRows);
      new;
      var outcome, free, cells, visited, carved, order, parent := GenerateMaze(pick, startPick, destPick);
      BothPointsFound(cells, maze, free, outcome, MazeColumns, MazeRows);
      MarkingPositions(cells, MazeColumns, MazeRows, outcome);
    }

    /** Line 125-133: the positions of the `false` cells, row by row, each row left to right. */
    method FindFreeSpaces() returns (free: seq<Coord>)
      ensures forall q :: q in free <==> IsFree(maze, q)
      ensures forall i, j :: 0 <= i < j < |free| ==> RowMajorBefore(free[i], free[j])
    {
      free := [];
      var y := 0;
      while y < |maze|
        invariant 0 <= y <= |maze|
        invariant forall q :: q in free <==> IsFree(maze, q) && q.y < y
        invariant forall i, j :: 0 <= i < j < |free| ==> RowMajorBefore(free[i], free[j])
        invariant forall i :: 0 <= i < |free| ==> free[i].y < y
      {
        var x := 0;
        while x < |maze[y]|
          invariant 0 <= x <= |maze[y]|
          invariant forall q :: q in free <==> IsFree(maze, q) && (q.y < y || (q.y == y && q.x < x))
          invariant forall i, j :: 0 <= i < j < |free| ==> RowMajorBefore(free[i], free[j])
          invariant forall i :: 0 <= i < |free| ==> RowMajorBefore(free[i], Coord(x, y))
        {
          if maze[y][x] == False {
            free := free + [Coord(x, y)];
          }
          x := x + 1;
        }
        y := y + 1;
      }
    }

    /** Line 111-113: a fresh carve, rendered as text. `cells` is the carved grid,
        and `visited`, `carved`, `order`, `parent` describe the carve as in `Generate`. */
    method Regenerate(pick: nat -> nat)
      returns (text: string, ghost cells: seq<seq<bool>>,
               ghost visited: set<Coord>, ghost carved: set<Coord>, ghost order: seq<Coord>, ghost parent: seq<int>)
      requires Valid()
      modifies generator
      ensures Valid()
      ensures IsCarve(generator.width, generator.height, Walls(generator.width, generator.height), cells,
                      visited, carved, order, parent)
      ensures forall y, x :: 0 <= y < generator.height && 0 <= x < generator.width ==> generator.maze[y, x] == cells[y][x]
      ensures Split(text, '\n') == Lines(cells)
    {
      generator.Reset();
      visited, carved, order, parent := generator.Generate(pick);
      cells := generator.Cells();
      text := generator.ToString();
    }

    /** Line 119 and 122: `'S'` written at the start unless it is `nil`, then `'D'`
        at the destination unless it is `nil`; `marked` is the maze afterwards. */
    method MarkPoints(start: Option<Coord>, destination: Option<Coord>, ghost width: int, ghost height: int)
      returns (outcome: Outcome, marked: seq<seq<Cell>>)
      requires |maze| == height && forall y :: 0 <= y < height ==> |maze[y]| == width
      requires start.Some? ==> InBounds(start.value, width, height)
      requires destination.Some? ==> InBounds(destination.value, width, height)
      ensures outcome.StartIsNil? <==> start.None?
      ensures outcome.DestinationIsNil? <==> start.Some? && destination.None?
      ensures !outcome.StartIsNil? ==> start == Some(outcome.start)
      ensures outcome.Marked? ==> destination == Some(outcome.destination)
      ensures PointsInside(outcome, width, height)
      ensures marked == Marking(maze, width, height, outcome)
    {
      if start.None? {
        outcome, marked := StartIsNil, maze;
      } else if destination.None? {
        outcome, marked := DestinationIsNil(start.value), SetCell(maze, start.value, S);
      } else {
        outcome := Marked(start.value, destination.value);
        marked := SetCell(SetCell(maze, start.value, S), destination.value, D);
      }
    }

    /**
      Line 110-123: a fresh maze, decoded; the free spaces collected; a start
      and a destination sampled and marked. `free` is what line 115 computes:
      the generator's walls in row-major order.
     */
    method GenerateMaze(pick: nat -> nat, startPick: nat, destPick: nat)
      returns (outcome: Outcome, free: seq<Coord>, ghost cells: seq<seq<bool>>,
               ghost visited: set<Coord>, ghost carved: set<Coord>, ghost order: seq<Coord>, ghost parent: seq<int>)
      requires Valid()
      modifies this, generator
      ensures Valid()
      // the generator grid is a finished carve from all walls, as `Generate` describes it
      ensures IsCarve(generator.width, generator.height, Walls(generator.width, generator.height), cells,
                      visited, carved, order, parent)
      ensures Prepared(cells, maze, free, outcome, generator.width, generator.height)
      ensures forall y, x :: 0 <= y < generator.height && 0 <= x < generator.width ==> generator.maze[y, x] == cells[y][x]
    {
      var text;
      text, cells, visited, carved, order, parent := Regenerate(pick);
      CarveComplete(generator.width, generator.height, Walls(generator.width, generator.height), cells,
                    visited, carved, order, parent);
      outcome, free := Place(text, startPick, destPick, cells, generator.width, generator.height);
    }

    /** Line 113-122: the text decoded into `maze`, the free spaces collected, and
        the sampled points marked. */
    method Place(text: string, startPick: nat, destPick: nat, ghost cells: seq<seq<bool>>, ghost width: int, ghost height: int)
      returns (outcome: Outcome, free: seq<Coord>)
      requires Complete(cells, width, height) && Split(text, '\n') == Lines(cells)
      modifies this
      ensures Prepared(cells, maze, free, outcome, width, height)
    {
      DecodeText(text, cells, width, height);
      maze := Decode(text);
      ghost var decoded := maze;
      free := FindFreeSpaces();
      FreeAreWalls(cells, width, height);
      var start, destination := RandomPoints(free, startPick, destPick);
      var marked;
      outcome, marked := MarkPoints(start, destination, width, height);
      maze := marked;
      Prepare(cells, decoded, free, start, destination, outcome, maze, width, height);
    }
  }
}
