# Maze generator: a Dafny model

This project models the maze logic of `main.rb`, a small Ruby/Gosu program.
It has two parts.

- **`MazeGenerator`** keeps a `height` by `width` grid of booleans, where
  `true` is a wall. It carves a maze by depth-first "recursive backtracking"
  with an explicit stack. At each step it clears the cell on top of the stack
  and lists the still-walled cells two steps away, in the order -x, +x, -y, +y.
  If there are none it pops; otherwise it picks one, clears the wall between
  the two cells and pushes the new cell. `to_s` renders the grid as text, and
  `reset` refills it with walls.
- **`MazeWindow`** (as far as `generate_maze`, `find_free_spaces` and
  `random_points` go) splits that text back into a grid of cells. It collects
  the cells equal to `false`, samples a start and a destination among them, and
  writes `'S'` and `'D'` there.

The decoding maps the wall glyph to `false` and keeps every other character.
So the "free spaces" are the generator's *walls*, and the two points land on
walls. The model keeps this as written.

Module layout, following the program:

- `Coords`: coordinates, rooms (even/even cells), wall slots, pillars
  (odd/odd cells) and carved paths.
- `Text`: Ruby's `join` and `split` on a one-character separator.
- `Carve`: the neighbour list as a function of the grid, and the invariant of
  the carving loop with the lemmas that keep it.
- `Generator`: the class `MazeGenerator`, with the grid as an `array2<bool>`
  and the carving loop as a `while` loop with its invariant.
- `Window`: the cell datatype, decoding, sampling, and the class `MazeWindow`
  with its grid field and the methods of `generate_maze`.

Randomness (`Array#sample`) is modelled as parameters. The carver takes
`neighbors[pick(k) % |neighbors|]` at its `k`-th push, and `random_points`
takes element `startPick % n` and then `destPick % m`. Every property holds
for every choice.

`generate_maze` can fail. When `random_points` returns `nil` for the start
(no free cell), line 119 raises before it writes anything. When it returns
`nil` for the destination (exactly one free cell), `'S'` has already been
written and line 122 raises. The model returns these cases as an `Outcome`
value, and `Marking` shows what was written in each case. Both cases occur:
a 1 by 1 grid has no free cell and a 2 by 1 grid has one. The window's 60 by
60 grid always gets both points (`Window.BothPointsFound`).

## Model

| member | source | states |
|---|---|---|
| Coords.BetweenRooms | main.rb:39-41 | the midpoint of two neighbouring rooms is a wall slot (exactly one odd coordinate), and the slot separates exactly those two rooms |
| Coords.RoomsCovered | main.rb:30-37 | a set that holds the origin and is closed under two-step moves onto rooms holds every room of the grid |
| Coords.PathTo | main.rb:23-25 | in a spanning order in which each room was entered from an earlier one through a carved slot, there is a carved path from the first room to every listed room |
| Text.Fields | main.rb:113 | splitting yields at least one field, and no field holds the separator |
| Text.DropTrailingEmpty | main.rb:113 | the result is a prefix of the fields, every field dropped is empty, and the last field kept, if any, is non-empty (Ruby's dropping of trailing empty fields) |
| Text.Join | main.rb:44 | `join`; characterised by `Text.FieldsJoin` and `Text.SplitJoin`: cutting the joined lines at the separator gives the lines back |
| Text.Split | main.rb:113 | `split("\n")`; characterised by `Text.SplitJoin`: it undoes `join` when no line holds the separator and the last line is non-empty |
| Text.JoinFields | main.rb:44 | joining the fields of a string with the separator gives the string back |
| Text.FieldsJoin | main.rb:44 | the fields of the joined lines are the lines, when no line holds the separator |
| Text.SplitJoin | main.rb:113 | Ruby's `split` undoes `join` when no line holds the separator and the last line is non-empty |
| Carve.Clear | main.rb:16 | clearing a cell sets that cell to `false`, keeps the dimensions and leaves every other cell unchanged |
| Carve.OpenNeighbors | main.rb:30-37 | the guarded list build of `get_neighbors` on a grid value; characterised by `Carve.OpenNeighborsAreWalls` (membership, at most 4) and `Carve.OpenNeighborsOrdered` (order -x, +x, -y, +y) |
| Carve.OpenNeighborsAreWalls | main.rb:30-37 | the neighbour list has at most 4 entries, and `q` is in it exactly when `q` is in bounds, two steps from `(x, y)` along one axis, and still a wall |
| Carve.OpenNeighborsOrdered | main.rb:30-37 | the neighbour list is ordered -x, +x, -y, +y |
| Carve.Start | main.rb:12 | the initial state (origin alone on the stack, nothing carved) satisfies the carving invariant |
| Carve.TopFacts | main.rb:15 | under the invariant the top of the stack is a visited room, so line 16 writes an even/even cell |
| Carve.PopStep | main.rb:20-21 | popping a room with no walled neighbour (after clearing it) keeps the invariant |
| Carve.PushStep | main.rb:22-25 | a walled neighbour of the top is a room not yet visited; its midpoint is in bounds; clearing the top and the midpoint and pushing the neighbour keeps the invariant (the tree grows by one room and one slot) |
| Carve.Finish | main.rb:14 | once the stack is empty the carve is finished: rooms and slots form a tree, exactly the visited rooms and carved slots were cleared, and no visited room has a wall two steps away |
| Carve.PillarsKept | main.rb:14-27 | a finished carve never changes an odd/odd cell |
| Carve.AllRoomsVisited | main.rb:18-21 | a finished carve from an all-wall grid visits exactly the rooms and clears every even/even cell |
| Carve.Connected | main.rb:23-25 | every visited room is reached from `(0, 0)` by a path of rooms two steps apart, with the cleared slot between consecutive rooms |
| Carve.CarveComplete | main.rb:11-28 | a finished carve from an all-wall grid leaves every room cleared and every pillar a wall |
| Generator.RenderRow | main.rb:44 | a rendered row has one character per cell: the wall glyph for `true`, a space for `false` |
| Generator.Lines | main.rb:43-45 | one rendered line per row |
| Generator.Show | main.rb:43-45 | the `to_s` expression on a grid value; characterised by `Generator.ShowLines`: its newline split is one rendered line per row |
| Generator.ShowLines | main.rb:43-45 | splitting the text form at newlines gives back the rendered rows, unless the last row is empty |
| Generator.Walls | main.rb:48 | a `width` by `height` grid of walls only |
| Generator.MazeGenerator.constructor | main.rb:5-9 | the grid has `height` rows of `width` cells, all walls |
| Generator.MazeGenerator.Reset | main.rb:47-49 | the grid is replaced by a fresh one of the same size, all walls |
| Generator.MazeGenerator.Cells | main.rb:8 | the grid as a value: `height` rows of `width` cells, cell `[y][x]` being `maze[y, x]` |
| Generator.MazeGenerator.Neighbors | main.rb:30-37 | at most 4 coordinates, ordered -x, +x, -y, +y; `q` is listed exactly when it is in bounds, two steps away along one axis, and currently a wall |
| Generator.MazeGenerator.RemoveWall | main.rb:39-41 | only the midpoint `((x1+x2)/2, (y1+y2)/2)` becomes `false`; every other cell is unchanged |
| Generator.MazeGenerator.ClearCell | main.rb:16 | only cell `p` becomes `false` |
| Generator.MazeGenerator.ToString | main.rb:43-45 | the text is the rendered rows joined by newlines, and split at newlines it gives `height` lines, line `y` being row `y` rendered |
| Generator.MazeGenerator.Generate | main.rb:11-28 | the loop terminates. The carve is a tree of rooms and slots rooted at `(0, 0)` with one slot fewer than rooms. A cell lost its wall exactly when it was visited or carved (so no cell gains a wall), and no visited room has a wall two steps away |
| Window.DecodeChar | main.rb:113 | the block `c == '█' ? false : c` on one character; characterised, on text forms, by `Window.DecodeText` |
| Window.DecodeLine | main.rb:113 | `row.chars.map` of that block; characterised by `Window.DecodeText` |
| Window.Decode | main.rb:113 | `split("\n").map` of the row decoding; characterised by `Window.DecodeText`: on the text form of a generator grid it gives the inverted grid |
| Window.Inverted | main.rb:113 | the decoded grid keeps the dimensions; a cell is `false` exactly where the generator has a wall and `' '` exactly where it has a passage |
| Window.DecodeText | main.rb:113 | decoding the text form of a generator grid gives the inverted grid |
| Window.SetCell | main.rb:119-122 | the written cell holds the new value; dimensions and every other cell are unchanged |
| Window.Sample | main.rb:136-138 | `nil` exactly for an empty list, otherwise a member of the list |
| Window.Without | main.rb:137 | `delete` removes exactly the elements equal to `v` and keeps all others |
| Window.RandomPoints | main.rb:135-140 | the start is `nil` exactly when there is no free cell, else a free cell; the destination is `nil` exactly when every free cell is the start, else a free cell other than the start |
| Window.FreeAreWalls | main.rb:125-133 | the `false` cells of the decoded grid are exactly the generator's walls |
| Window.Marking | main.rb:119-122 | the writes of lines 119 and 122 as far as each outcome gets; characterised by `Window.MarkingPositions` |
| Window.MarkingPositions | main.rb:118-122 | after marking, `'S'` is exactly at the start if one was found and `'D'` exactly at the destination if one was found; every other cell is as decoded |
| Window.Prepare | main.rb:110-123 | the steps of `generate_maze` together establish `Prepared` |
| Window.BothPointsFound | main.rb:115-122 | on a finished maze with room for two pillars both points are found, so neither `nil` failure occurs |
| Window.MazeWindow.constructor | main.rb:60-65 | a 60 by 60 generator, and a grid of 60 rows of 60 cells with exactly one `'S'` and exactly one `'D'`, at different cells; both points were found, are free cells of the generator's finished maze, and every other cell is the decoded generator grid (`Prepared` with a `Marked` outcome); the generator grid is a finished carve from all walls (`IsCarve`: a tree of rooms and slots rooted at `(0, 0)`, exactly the visited rooms and carved slots cleared) |
| Window.MazeWindow.FindFreeSpaces | main.rb:125-133 | exactly the positions of the `false` cells, in strictly row-major order (so without duplicates) |
| Window.MazeWindow.Regenerate | main.rb:111-113 | after reset and generate the generator grid `cells` is a carve from all walls with everything `Generate` states about it (`IsCarve`: a rooted tree of rooms and slots, exactly the visited rooms and carved slots cleared, no visited room with a wall two steps away), and its text splits into the rendered rows |
| Window.MazeWindow.Place | main.rb:113-122 | the text of a finished maze decoded, its free cells collected, the points sampled and marked: `Prepared` |
| Window.MazeWindow.MarkPoints | main.rb:118-122 | the outcome records which points were `nil`, and the grid is marked accordingly (`Marking`) |
| Window.MazeWindow.GenerateMaze | main.rb:110-123 | the generator grid is a carve from all walls as `Generate` states it (`IsCarve`), hence a finished maze; the free cells are its walls in row-major order; the outcome is `nil`-start, `nil`-destination or marked exactly when 0, 1 or at least 2 cells are free; the points are free and different; the grid is the decoded grid with those points marked |

## Left out

- Everything Gosu: the window, caption, cursor, button handling, hit-testing, drawing and colours (main.rb:1, 52-108, 143). This is user-interface glue over a library that is not part of this model. The only thing from it the model keeps is the grid size computed from the window constants.
- The random number generator behind `Array#sample`. The choice is a parameter, so the model says nothing about the distribution.
- Ruby's behaviour outside the guarded paths: negative indices, assignment past the end of an array, and a grid with no rows. `Generate` requires `width >= 1` and `height >= 1`, and so does `MazeWindow.Valid`.
- The raise at lines 119 and 122 when a point is `nil`. The model returns it as the `Outcome` value instead of modelling an exception.
- Generator.MazeGenerator.ToString: states the split form only for `width >= 1`. For `width == 0` every line is empty, and Ruby's `split` drops them all.
- Window.RandomPoints: Ruby's `delete` removes the start from the caller's `free_spaces` array in place. The model computes the shortened list as a value, because `generate_maze` never reads `free_spaces` again.
- Window.Without: the contract states which elements remain, not that their order is kept; `generate_maze` only samples from the result, and that sample depends on the order only through the oracle.
- The literal glyph `'█'` (U+2588) is kept, but nothing depends on it beyond its differing from `' '`, `'\n'`, `'S'` and `'D'`.
