/**
  Grid coordinates and the geometry of a recursive-backtracking maze.

  The carver only ever stands on "rooms": cells whose column and row are both
  even. Between two rooms two steps apart lies a "wall slot", a cell with
  exactly one odd coordinate; cells with both coordinates odd are "pillars"
  and are never touched.
 */
module Coords {

  /** A cell position: `x` is the column, `y` the row (the source's `[x, y]` pairs). */
  datatype Coord = Coord(x: int, y: int)

  predicate InBounds(p: Coord, width: int, height: int) {
    0 <= p.x < width && 0 <= p.y < height
  }

  /** A cell the carver may stand on: both coordinates even. */
  predicate IsRoom(p: Coord, width: int, height: int) {
    InBounds(p, width, height) && p.x % 2 == 0 && p.y % 2 == 0
  }

  /** A cell between two rooms: exactly one coordinate odd. */
  predicate IsWallSlot(p: Coord, width: int, height: int) {
    InBounds(p, width, height) && (p.x % 2 == 0) != (p.y % 2 == 0)
  }

  /** A cell with both coordinates odd. */
  predicate IsPillar(p: Coord, width: int, height: int) {
    InBounds(p, width, height) && p.x % 2 == 1 && p.y % 2 == 1
  }

  /** `q` lies exactly two cells away from `p` along one axis. */
  predicate Adjacent2(p: Coord, q: Coord) {
    (q.y == p.y && (q.x == p.x - 2 || q.x == p.x + 2)) ||
    (q.x == p.x && (q.y == p.y - 2 || q.y == p.y + 2))
  }

  /** The cell halfway between `p` and `q`, with floor division as Ruby's `/` does
      (for the divisor 2 it agrees with Dafny's Euclidean division). */
  function Between(p: Coord, q: Coord): Coord {
    Coord((p.x + q.x) / 2, (p.y + q.y) / 2)
  }

  /** The two rooms a wall slot separates, along its odd axis. */
  function SlotEnds(m: Coord): (Coord, Coord) {
    if m.x % 2 != 0 then (Coord(m.x - 1, m.y), Coord(m.x + 1, m.y))
    else (Coord(m.x, m.y - 1), Coord(m.x, m.y + 1))
  }

  /** Every cell of a `width` by `height` grid. */
  ghost function Grid(width: int, height: int): set<Coord> {
    set x, y | 0 <= x < width && 0 <= y < height :: Coord(x, y)
  }

  lemma InGrid(p: Coord, width: int, height: int)
    requires InBounds(p, width, height)
    ensures p in Grid(width, height)
  {
    assert p == Coord(p.x, p.y);
  }

  /** The cell between two neighbouring rooms is a wall slot, and that slot
      separates exactly those two rooms. */
  lemma BetweenRooms(p: Coord, q: Coord, width: int, height: int)
    requires IsRoom(p, width, height) && IsRoom(q, width, height) && Adjacent2(p, q)
    ensures IsWallSlot(Between(p, q), width, height)
    ensures SlotEnds(Between(p, q)) == (p, q) || SlotEnds(Between(p, q)) == (q, p)
  {
  }

  /** A set of cells that holds the origin and is closed under two-step moves
      onto rooms reaches rooms along the top row. */
  lemma {:induction false} TopRowReached(s: set<Coord>, width: int, height: int, x: int)
    requires Coord(0, 0) in s
    requires forall p, q :: p in s && IsRoom(q, width, height) && Adjacent2(p, q) ==> q in s
    requires IsRoom(Coord(x, 0), width, height)
    ensures Coord(x, 0) in s
    decreases x
  {
    if x > 0 {
      assert IsRoom(Coord(x - 2, 0), width, height);
      TopRowReached(s, width, height, x - 2);
      assert Adjacent2(Coord(x - 2, 0), Coord(x, 0));
    }
  }

  lemma {:induction false} RoomReached(s: set<Coord>, width: int, height: int, x: int, y: int)
    requires Coord(0, 0) in s
    requires forall p, q :: p in s && IsRoom(q, width, height) && Adjacent2(p, q) ==> q in s
    requires IsRoom(Coord(x, y), width, height)
    ensures Coord(x, y) in s
    decreases y
  {
    if y == 0 {
      TopRowReached(s, width, height, x);
    } else {
      assert IsRoom(Coord(x, y - 2), width, height);
      RoomReached(s, width, height, x, y - 2);
      assert Adjacent2(Coord(x, y - 2), Coord(x, y));
    }
  }

  /** A set that holds the origin and is closed under two-step moves onto rooms
      holds every room of the grid. */
  lemma RoomsCovered(s: set<Coord>, width: int, height: int)
    requires Coord(0, 0) in s
    requires forall p, q :: p in s && IsRoom(q, width, height) && Adjacent2(p, q) ==> q in s
    ensures forall q :: IsRoom(q, width, height) ==> q in s
  {
    forall q | IsRoom(q, width, height) ensures q in s {
      RoomReached(s, width, height, q.x, q.y);
    }
  }

  /** Consecutive cells of `path` are two apart and the cell between them is carved. */
  ghost predicate IsCarvedPath(path: seq<Coord>, carved: set<Coord>) {
    forall i :: 0 <= i < |path| - 1 ==>
      Adjacent2(path[i], path[i + 1]) && Between(path[i], path[i + 1]) in carved
  }

  /** `order` lists cells in the order they were reached; each one after the first
      was reached from an earlier cell `order[parent[k]]` through a carved slot. */
  ghost predicate IsSpanningOrder(order: seq<Coord>, parent: seq<int>, carved: set<Coord>) {
    |order| >= 1 && |parent| == |order| &&
    forall k :: 0 < k < |order| ==>
      0 <= parent[k] < k &&
      Adjacent2(order[parent[k]], order[k]) && Between(order[parent[k]], order[k]) in carved
  }

  /** A carved path from the first cell of a spanning order to its `k`-th cell. */
  ghost function PathTo(order: seq<Coord>, parent: seq<int>, carved: set<Coord>, k: int): (path: seq<Coord>)
    requires IsSpanningOrder(order, parent, carved) && 0 <= k < |order|
    ensures |path| >= 1 && path[0] == order[0] && path[|path| - 1] == order[k]
    ensures IsCarvedPath(path, carved)
    ensures forall i :: 0 <= i < |path| ==> path[i] in order
    decreases k
  {
    if k == 0 then [order[0]]
    else
      var prefix := PathTo(order, parent, carved, parent[k]);
      prefix + [order[k]]
  }
}
