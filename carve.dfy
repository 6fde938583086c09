/**
  The invariant of the backtracking carve, stated over grid values.

  A grid value `g` holds `height` rows of `width` wall flags (`true` is a
  wall). The carve starts from a grid `init` and keeps a stack of rooms; it
  also records, as proof state, the rooms it has `visited`, the wall slots it
  has `carved`, and the rooms in visiting `order` with the `parent` index of
  each. The two lemmas PopStep and PushStep show that one step of the loop in
  main.rb:14-27 keeps the invariant.
 */
module Carve {
  import opened Coords

  ghost predicate IsGrid(g: seq<seq<bool>>, width: int, height: int) {
    |g| == height && forall y :: 0 <= y < |g| ==> |g[y]| == width
  }

  /** `g` with the cell `p` set to `false`. */
  function Clear(g: seq<seq<bool>>, p: Coord): (r: seq<seq<bool>>)
    requires 0 <= p.y < |g| && 0 <= p.x < |g[p.y]|
    ensures |r| == |g| && forall y :: 0 <= y < |g| ==> |r[y]| == |g[y]|
    ensures !r[p.y][p.x]
    ensures forall y, x :: 0 <= y < |g| && 0 <= x < |g[y]| && Coord(x, y) != p ==> r[y][x] == g[y][x]
  {
    g[p.y := g[p.y][p.x := false]]
  }

  /** Position of a two-step neighbour of `(x, y)` in the enumeration order -x, +x, -y, +y. */
  function Rank(x: int, y: int, q: Coord): int {
    if q == Coord(x - 2, y) then 0
    else if q == Coord(x + 2, y) then 1
    else if q == Coord(x, y - 2) then 2
    else 3
  }

  /** The cells in `r` come in strictly increasing enumeration order. */
  ghost predicate RankSorted(x: int, y: int, r: seq<Coord>) {
    forall i, j :: 0 <= i < j < |r| ==> Rank(x, y, r[i]) < Rank(x, y, r[j])
  }

  /** Two sorted runs whose ranks are separated by `k` concatenate to a sorted run. */
  lemma RankedConcat(x: int, y: int, a: seq<Coord>, b: seq<Coord>, k: int)
    requires RankSorted(x, y, a) && RankSorted(x, y, b)
    requires forall p :: p in a ==> Rank(x, y, p) < k
    requires forall q :: q in b ==> k <= Rank(x, y, q)
    ensures RankSorted(x, y, a + b)
  {
    forall i, j | 0 <= i < j < |a + b| ensures Rank(x, y, (a + b)[i]) < Rank(x, y, (a + b)[j]) {
      if j < |a| {
      } else if i < |a| {
        assert (a + b)[i] in a && (a + b)[j] in b;
      }
    }
  }

  /** The walls of `g` two steps away from `(x, y)` inside the grid, probing
      -x, +x, -y, +y in that order. */
  function OpenNeighbors(g: seq<seq<bool>>, width: int, height: int, x: int, y: int): seq<Coord>
    requires IsGrid(g, width, height) && InBounds(Coord(x, y), width, height)
  {
    (if x >= 2 && g[y][x - 2] then [Coord(x - 2, y)] else []) +
    (if x <= width - 3 && g[y][x + 2] then [Coord(x + 2, y)] else []) +
    (if y >= 2 && g[y - 2][x] then [Coord(x, y - 2)] else []) +
    (if y <= height - 3 && g[y + 2][x] then [Coord(x, y + 2)] else [])
  }

  /** The neighbours found are exactly the walls two steps away inside the grid. */
  lemma OpenNeighborsAreWalls(g: seq<seq<bool>>, width: int, height: int, x: int, y: int)
    requires IsGrid(g, width, height) && InBounds(Coord(x, y), width, height)
    ensures |OpenNeighbors(g, width, height, x, y)| <= 4
    ensures forall q :: q in OpenNeighbors(g, width, height, x, y) <==>
      InBounds(q, width, height) && Adjacent2(Coord(x, y), q) && g[q.y][q.x]
  {
  }

  /** The neighbours come in the probing order -x, +x, -y, +y. */
  lemma OpenNeighborsOrdered(g: seq<seq<bool>>, width: int, height: int, x: int, y: int)
    requires IsGrid(g, width, height) && InBounds(Coord(x, y), width, height)
    ensures RankSorted(x, y, OpenNeighbors(g, width, height, x, y))
  {
    var west := if x >= 2 && g[y][x - 2] then [Coord(x - 2, y)] else [];
    var east := if x <= width - 3 && g[y][x + 2] then [Coord(x + 2, y)] else [];
    var north := if y >= 2 && g[y - 2][x] then [Coord(x, y - 2)] else [];
    var south := if y <= height - 3 && g[y + 2][x] then [Coord(x, y + 2)] else [];
    assert forall q :: q in east ==> Rank(x, y, q) == 1;
    assert forall q :: q in north ==> Rank(x, y, q) == 2;
    assert forall q :: q in south ==> Rank(x, y, q) == 3;
    RankedConcat(x, y, west, east, 1);
    RankedConcat(x, y, west + east, north, 2);
    RankedConcat(x, y, west + east + north, south, 3);
  }

  /** Two grids that agree cell by cell are equal. */
  lemma GridExt(a: seq<seq<bool>>, b: seq<seq<bool>>, width: int, height: int)
    requires IsGrid(a, width, height) && IsGrid(b, width, height)
    requires forall y, x :: 0 <= y < height && 0 <= x < width ==> a[y][x] == b[y][x]
    ensures a == b
  {
    forall y | 0 <= y < height ensures a[y] == b[y] {
      assert forall x :: 0 <= x < width ==> a[y][x] == b[y][x];
    }
  }

  /** A two-step move from a room inside the grid lands on a room. */
  lemma StepKeepsRoom(p: Coord, q: Coord, width: int, height: int)
    requires IsRoom(p, width, height) && InBounds(q, width, height) && Adjacent2(p, q)
    ensures IsRoom(q, width, height)
  {
  }

  /** What the carve has done, independent of the grid: rooms and slots form a
      tree rooted at the origin, listed in visiting order. */
  ghost predicate TreeShaped(width: int, height: int, visited: set<Coord>, carved: set<Coord>,
                             order: seq<Coord>, parent: seq<int>)
  {
    (forall p :: p in visited ==> IsRoom(p, width, height)) &&
    Coord(0, 0) in visited &&
    (forall m :: m in carved ==>
      IsWallSlot(m, width, height) && SlotEnds(m).0 in visited && SlotEnds(m).1 in visited) &&
    |carved| + 1 == |visited| &&
    IsSpanningOrder(order, parent, carved) && order[0] == Coord(0, 0) &&
    (forall k :: 0 <= k < |order| ==> order[k] in visited) &&
    (forall p :: p in visited ==> p in order)
  }

  /** How `g` relates to `init`: cells only ever lose their wall, the visited rooms
      (except possibly `top`, not yet cleared) and the carved slots are clear, and
      every other cell is as it was. */
  ghost predicate ClearedSoFar(width: int, height: int, init: seq<seq<bool>>, g: seq<seq<bool>>,
                               visited: set<Coord>, carved: set<Coord>, stack: seq<Coord>)
    requires IsGrid(init, width, height) && IsGrid(g, width, height)
  {
    (forall p :: p in visited && InBounds(p, width, height) && (stack == [] || p != stack[|stack| - 1]) ==>
      !g[p.y][p.x]) &&
    (forall m :: m in carved && InBounds(m, width, height) ==> !g[m.y][m.x]) &&
    (forall y, x :: 0 <= y < height && 0 <= x < width && g[y][x] ==> init[y][x]) &&
    (forall y, x :: 0 <= y < height && 0 <= x < width && Coord(x, y) !in visited && Coord(x, y) !in carved ==>
      g[y][x] == init[y][x])
  }

  /** Every stack entry was visited, and every visited room no longer on the
      stack has no wall two steps away. */
  ghost predicate StackClosed(width: int, height: int, g: seq<seq<bool>>, visited: set<Coord>, stack: seq<Coord>)
    requires IsGrid(g, width, height)
  {
    (forall i :: 0 <= i < |stack| ==> stack[i] in visited) &&
    (forall p, q :: p in visited && p !in stack && InBounds(q, width, height) && Adjacent2(p, q) ==> !g[q.y][q.x])
  }

  ghost predicate CarveInv(width: int, height: int, init: seq<seq<bool>>, g: seq<seq<bool>>, stack: seq<Coord>,
                           visited: set<Coord>, carved: set<Coord>, order: seq<Coord>, parent: seq<int>)
  {
    IsGrid(init, width, height) && IsGrid(g, width, height) &&
    TreeShaped(width, height, visited, carved, order, parent) &&
    ClearedSoFar(width, height, init, g, visited, carved, stack) &&
    StackClosed(width, height, g, visited, stack)
  }

  /** The state before the first step: the origin alone on the stack. */
  lemma Start(width: int, height: int, init: seq<seq<bool>>)
    requires width >= 1 && height >= 1 && IsGrid(init, width, height)
    ensures CarveInv(width, height, init, init, [Coord(0, 0)], {Coord(0, 0)}, {}, [Coord(0, 0)], [0])
  {
  }

  /** Line 16 then 21: the top room is cleared and, having no wall two steps
      away, popped; this keeps the invariant. */
  lemma PopStep(width: int, height: int, init: seq<seq<bool>>, g: seq<seq<bool>>, stack: seq<Coord>,
                visited: set<Coord>, carved: set<Coord>, order: seq<Coord>, parent: seq<int>)
    requires stack != [] && InBounds(stack[|stack| - 1], width, height) && IsGrid(g, width, height)
    requires forall q :: InBounds(q, width, height) && Adjacent2(stack[|stack| - 1], q) ==>
      !Clear(g, stack[|stack| - 1])[q.y][q.x]
    ensures CarveInv(width, height, init, g, stack, visited, carved, order, parent) ==>
      CarveInv(width, height, init, Clear(g, stack[|stack| - 1]), stack[..|stack| - 1],
               visited, carved, order, parent)
  {
    if CarveInv(width, height, init, g, stack, visited, carved, order, parent) {
      PopKeeps(width, height, init, g, stack, visited, carved, order, parent);
    }
  }

  lemma PopKeeps(width: int, height: int, init: seq<seq<bool>>, g: seq<seq<bool>>, stack: seq<Coord>,
                 visited: set<Coord>, carved: set<Coord>, order: seq<Coord>, parent: seq<int>)
    requires CarveInv(width, height, init, g, stack, visited, carved, order, parent)
    requires stack != []
    requires forall q :: InBounds(q, width, height) && Adjacent2(stack[|stack| - 1], q) ==>
      !Clear(g, stack[|stack| - 1])[q.y][q.x]
    ensures CarveInv(width, height, init, Clear(g, stack[|stack| - 1]), stack[..|stack| - 1],
                     visited, carved, order, parent)
  {
    var current := stack[|stack| - 1];
    var g1 := Clear(g, current);
    var rest := stack[..|stack| - 1];
    assert current in visited;
    assert stack == rest + [current];
    assert StackClosed(width, height, g1, visited, rest);
  }

  /** The room pushed at line 25 is a fresh room, and the slot cleared at line 40
      is a fresh wall slot between it and the current room. */
  lemma PushedIsFresh(width: int, height: int, init: seq<seq<bool>>, g: seq<seq<bool>>, stack: seq<Coord>,
                      visited: set<Coord>, carved: set<Coord>, order: seq<Coord>, parent: seq<int>, next: Coord)
    requires CarveInv(width, height, init, g, stack, visited, carved, order, parent)
    requires stack != []
    requires InBounds(next, width, height) && Adjacent2(stack[|stack| - 1], next)
    requires Clear(g, stack[|stack| - 1])[next.y][next.x]
    ensures IsRoom(next, width, height) && next !in visited
    ensures IsWallSlot(Between(stack[|stack| - 1], next), width, height)
    ensures SlotEnds(Between(stack[|stack| - 1], next)) == (stack[|stack| - 1], next) ||
            SlotEnds(Between(stack[|stack| - 1], next)) == (next, stack[|stack| - 1])
    ensures Between(stack[|stack| - 1], next) !in carved && Between(stack[|stack| - 1], next) !in visited
  {
    var current := stack[|stack| - 1];
    assert current in visited;
    StepKeepsRoom(current, next, width, height);
    assert forall p :: p in visited ==> !Clear(g, current)[p.y][p.x];
    assert next !in visited;
    BetweenRooms(current, next, width, height);
    var slot := Between(current, next);
    assert slot !in carved;
  }

  /** Clearing the current room and the slot beside it keeps the grid in step with the carve. */
  lemma PushKeepsCleared(width: int, height: int, init: seq<seq<bool>>, g: seq<seq<bool>>, stack: seq<Coord>,
                         visited: set<Coord>, carved: set<Coord>, next: Coord, slot: Coord)
    requires IsGrid(init, width, height) && IsGrid(g, width, height)
    requires ClearedSoFar(width, height, init, g, visited, carved, stack)
    requires stack != [] && stack[|stack| - 1] in visited
    requires InBounds(stack[|stack| - 1], width, height) && InBounds(slot, width, height)
    ensures ClearedSoFar(width, height, init, Clear(Clear(g, stack[|stack| - 1]), slot),
                         visited + {next}, carved + {slot}, stack + [next])
  {
  }

  /** The pushed room is on the stack, so rooms off the stack are those that were off it before. */
  lemma PushKeepsClosed(width: int, height: int, g: seq<seq<bool>>, stack: seq<Coord>,
                        visited: set<Coord>, next: Coord, slot: Coord)
    requires IsGrid(g, width, height)
    requires StackClosed(width, height, g, visited, stack)
    requires stack != [] && InBounds(stack[|stack| - 1], width, height) && InBounds(slot, width, height)
    ensures StackClosed(width, height, Clear(Clear(g, stack[|stack| - 1]), slot), visited + {next}, stack + [next])
  {
    var g2 := Clear(Clear(g, stack[|stack| - 1]), slot);
    var visited', stack' := visited + {next}, stack + [next];
    forall p, q | p in visited' && p !in stack' && InBounds(q, width, height) && Adjacent2(p, q)
      ensures !g2[q.y][q.x]
    {
      assert p in visited && p !in stack;
    }
  }

  /** Adding the pushed room and the cleared slot keeps the carve a tree. */
  lemma PushKeepsTree(width: int, height: int, visited: set<Coord>, carved: set<Coord>,
                      order: seq<Coord>, parent: seq<int>, current: Coord, next: Coord, j: int)
    requires TreeShaped(width, height, visited, carved, order, parent)
    requires current in visited && IsRoom(next, width, height) && next !in visited && Adjacent2(current, next)
    requires IsWallSlot(Between(current, next), width, height) && Between(current, next) !in carved
    requires SlotEnds(Between(current, next)) == (current, next) || SlotEnds(Between(current, next)) == (next, current)
    requires 0 <= j < |order| && order[j] == current
    ensures TreeShaped(width, height, visited + {next}, carved + {Between(current, next)},
                       order + [next], parent + [j])
  {
    var carved' := carved + {Between(current, next)};
    var order', parent' := order + [next], parent + [j];
    forall k | 0 < k < |order'|
      ensures 0 <= parent'[k] < k && Adjacent2(order'[parent'[k]], order'[k])
        && Between(order'[parent'[k]], order'[k]) in carved'
    {
      if k < |order| {
        assert order'[k] == order[k] && parent'[k] == parent[k] && order'[parent[k]] == order[parent[k]];
      }
    }
  }

  /** Line 16 then 24-25: the top room is cleared, the slot towards a walled
      room two steps away is cleared, and that room is pushed. It is a room not
      visited before, which is the measure the loop decreases. */
  lemma PushStep(width: int, height: int, init: seq<seq<bool>>, g: seq<seq<bool>>, stack: seq<Coord>,
                 visited: set<Coord>, carved: set<Coord>, order: seq<Coord>, parent: seq<int>,
                 next: Coord, j: int)
    requires stack != [] && IsRoom(stack[|stack| - 1], width, height) && IsGrid(g, width, height)
    requires InBounds(next, width, height) && Adjacent2(stack[|stack| - 1], next)
    requires Clear(g, stack[|stack| - 1])[next.y][next.x]
    requires 0 <= j < |order| && order[j] == stack[|stack| - 1]
    ensures IsRoom(next, width, height)
    ensures InBounds(Between(stack[|stack| - 1], next), width, height)
    ensures CarveInv(width, height, init, g, stack, visited, carved, order, parent) ==>
      next !in visited &&
      CarveInv(width, height, init,
               Clear(Clear(g, stack[|stack| - 1]), Between(stack[|stack| - 1], next)),
               stack + [next], visited + {next}, carved + {Between(stack[|stack| - 1], next)},
               order + [next], parent + [j])
  {
    StepKeepsRoom(stack[|stack| - 1], next, width, height);
    BetweenRooms(stack[|stack| - 1], next, width, height);
    if CarveInv(width, height, init, g, stack, visited, carved, order, parent) {
      PushKeeps(width, height, init, g, stack, visited, carved, order, parent, next, j);
    }
  }

  lemma PushKeeps(width: int, height: int, init: seq<seq<bool>>, g: seq<seq<bool>>, stack: seq<Coord>,
                  visited: set<Coord>, carved: set<Coord>, order: seq<Coord>, parent: seq<int>,
                  next: Coord, j: int)
    requires CarveInv(width, height, init, g, stack, visited, carved, order, parent)
    requires stack != []
    requires InBounds(next, width, height) && Adjacent2(stack[|stack| - 1], next)
    requires Clear(g, stack[|stack| - 1])[next.y][next.x]
    requires 0 <= j < |order| && order[j] == stack[|stack| - 1]
    ensures next !in visited
    ensures CarveInv(width, height, init,
                     Clear(Clear(g, stack[|stack| - 1]), Between(stack[|stack| - 1], next)),
                     stack + [next], visited + {next}, carved + {Between(stack[|stack| - 1], next)},
                     order + [next], parent + [j])
  {
    var current := stack[|stack| - 1];
    assert current in visited;
    PushedIsFresh(width, height, init, g, stack, visited, carved, order, parent, next);
    var slot := Between(current, next);
    PushKeepsTree(width, height, visited, carved, order, parent, current, next, j);
    PushKeepsCleared(width, height, init, g, stack, visited, carved, next, slot);
    PushKeepsClosed(width, height, g, stack, visited, next, slot);
  }

  /** What the invariant gives at the top of each step: both grids have the
      right size, and the top of the stack is a room listed in `order`. */
  lemma TopFacts(width: int, height: int, init: seq<seq<bool>>, g: seq<seq<bool>>, stack: seq<Coord>,
                 visited: set<Coord>, carved: set<Coord>, order: seq<Coord>, parent: seq<int>)
    ensures CarveInv(width, height, init, g, stack, visited, carved, order, parent) ==>
      IsGrid(init, width, height) && IsGrid(g, width, height)
    ensures CarveInv(width, height, init, g, stack, visited, carved, order, parent) && stack != [] ==>
      IsRoom(stack[|stack| - 1], width, height) && stack[|stack| - 1] in order
  {
    if CarveInv(width, height, init, g, stack, visited, carved, order, parent) && stack != [] {
      assert stack[|stack| - 1] in visited;
    }
  }

  /** A finished carve from `init` to `g`: the rooms and slots cleared form a
      tree rooted at the origin, exactly the visited rooms and the carved slots
      lost their wall, and no visited room has a wall two steps away. */
  ghost predicate IsCarve(width: int, height: int, init: seq<seq<bool>>, g: seq<seq<bool>>,
                          visited: set<Coord>, carved: set<Coord>, order: seq<Coord>, parent: seq<int>)
  {
    IsGrid(init, width, height) && IsGrid(g, width, height) &&
    TreeShaped(width, height, visited, carved, order, parent) &&
    (forall y, x :: 0 <= y < height && 0 <= x < width ==>
      (g[y][x] <==> init[y][x] && Coord(x, y) !in visited && Coord(x, y) !in carved)) &&
    (forall p, q :: p in visited && InBounds(q, width, height) && Adjacent2(p, q) ==> !g[q.y][q.x])
  }

  /** Once the stack is empty the carve is finished. */
  lemma Finish(width: int, height: int, init: seq<seq<bool>>, g: seq<seq<bool>>,
               visited: set<Coord>, carved: set<Coord>, order: seq<Coord>, parent: seq<int>)
    ensures CarveInv(width, height, init, g, [], visited, carved, order, parent) ==>
      IsCarve(width, height, init, g, visited, carved, order, parent)
  {
  }

  /** A carve never touches a pillar. */
  lemma PillarsKept(width: int, height: int, init: seq<seq<bool>>, g: seq<seq<bool>>,
                    visited: set<Coord>, carved: set<Coord>, order: seq<Coord>, parent: seq<int>)
    requires IsCarve(width, height, init, g, visited, carved, order, parent)
    ensures forall y, x :: 0 <= y < height && 0 <= x < width && x % 2 == 1 && y % 2 == 1 ==>
      g[y][x] == init[y][x]
  {
    forall y, x | 0 <= y < height && 0 <= x < width && x % 2 == 1 && y % 2 == 1
      ensures g[y][x] == init[y][x]
    {
      assert Coord(x, y) !in visited && Coord(x, y) !in carved;
    }
  }

  /** A carve from an all-wall grid visits every room and clears it. */
  lemma AllRoomsVisited(width: int, height: int, init: seq<seq<bool>>, g: seq<seq<bool>>,
                        visited: set<Coord>, carved: set<Coord>, order: seq<Coord>, parent: seq<int>)
    requires IsCarve(width, height, init, g, visited, carved, order, parent)
    requires forall y, x :: 0 <= y < height && 0 <= x < width ==> init[y][x]
    ensures forall q :: IsRoom(q, width, height) <==> q in visited
    ensures forall y, x :: 0 <= y < height && 0 <= x < width && x % 2 == 0 && y % 2 == 0 ==> !g[y][x]
  {
    forall p, q | p in visited && IsRoom(q, width, height) && Adjacent2(p, q) ensures q in visited {
      assert !g[q.y][q.x];
      assert q !in carved;
    }
    RoomsCovered(visited, width, height);
    forall y, x | 0 <= y < height && 0 <= x < width && x % 2 == 0 && y % 2 == 0 ensures !g[y][x] {
      assert IsRoom(Coord(x, y), width, height);
    }
  }

  /** Every visited room is reached from the origin along cleared cells: a path
      of rooms, each two steps from the last, with the cleared slot between them. */
  lemma Connected(width: int, height: int, init: seq<seq<bool>>, g: seq<seq<bool>>,
                  visited: set<Coord>, carved: set<Coord>, order: seq<Coord>, parent: seq<int>, p: Coord)
    returns (path: seq<Coord>)
    requires IsCarve(width, height, init, g, visited, carved, order, parent)
    requires p in visited
    ensures |path| >= 1 && path[0] == Coord(0, 0) && path[|path| - 1] == p
    ensures forall i :: 0 <= i < |path| ==> InBounds(path[i], width, height) && !g[path[i].y][path[i].x]
    ensures forall i :: 0 <= i < |path| - 1 ==>
      Adjacent2(path[i], path[i + 1]) && InBounds(Between(path[i], path[i + 1]), width, height) &&
      !g[Between(path[i], path[i + 1]).y][Between(path[i], path[i + 1]).x]
  {
    var k :| 0 <= k < |order| && order[k] == p;
    path := PathTo(order, parent, carved, k);
    forall i | 0 <= i < |path| ensures InBounds(path[i], width, height) && !g[path[i].y][path[i].x] {
      assert path[i] in visited;
    }
    forall i | 0 <= i < |path| - 1
      ensures InBounds(Between(path[i], path[i + 1]), width, height) &&
        !g[Between(path[i], path[i + 1]).y][Between(path[i], path[i + 1]).x]
    {
      assert Between(path[i], path[i + 1]) in carved;
    }
  }

  /** A finished maze: every room is a passage and every pillar a wall. */
  ghost predicate Complete(g: seq<seq<bool>>, width: int, height: int) {
    IsGrid(g, width, height) &&
    forall y, x :: 0 <= y < height && 0 <= x < width ==>
      (x % 2 == 0 && y % 2 == 0 ==> !g[y][x]) && (x % 2 == 1 && y % 2 == 1 ==> g[y][x])
  }

  /** A carve from an all-wall grid leaves a finished maze. */
  lemma CarveComplete(width: int, height: int, init: seq<seq<bool>>, g: seq<seq<bool>>,
                      visited: set<Coord>, carved: set<Coord>, order: seq<Coord>, parent: seq<int>)
    requires IsCarve(width, height, init, g, visited, carved, order, parent)
    requires forall y, x :: 0 <= y < height && 0 <= x < width ==> init[y][x]
    ensures Complete(g, width, height)
  {
    AllRoomsVisited(width, height, init, g, visited, carved, order, parent);
    PillarsKept(width, height, init, g, visited, carved, order, parent);
  }
}
