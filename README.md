# Grid snake game — a Dafny model

This project models the snake game logic of `include/snake.hpp`. A `Snake` has three parts:

- a body, which is a list of grid positions with the head first;
- a current `Direction`;
- a fixed `grid_width` × `grid_height` board.

`setDirection` changes the heading but refuses a direct reversal. `update` moves the snake one cell:

- it computes the new head from the heading;
- it fails (returns `false`, nothing changes) if the new head leaves `[0, grid_width) × [0, grid_height)`;
- it also fails if the new head lands on any current segment;
- otherwise it puts the new head in front and drops the tail.

Everything is in `snake.dfy`, module `SnakeGame`:

- `Position` keeps the source's three coordinates. `SamePlace` is the source's `operator==`, which compares only `x` and `y`. Every collision and distinctness test uses it.
- The coordinates are single-precision floats in the source. They are modelled as exact `real`s. They are only ever halved, incremented and decremented, so nothing is rounded below 2^23 cells per axis (see "## Left out"). An odd grid size puts the snake on half-integer cells. The model keeps that.
- `Advance` is the pure specification of one tick. It gives back `Moved(newBody)`, `HitWall` or `HitSelf`. The class method `Snake.Update` keeps the source's segment scan as a loop. Its postcondition ties the returned flag and the new body to `Advance`.
- The lemmas about `Advance` are the invariants the game keeps: length, distinct cells, staying on the board, and the body staying a chain of neighbouring cells.
- The guard of `setDirection` compares the requested heading with the current heading, not with the direction of the last move. A successful tick leaves the neck one step behind the head, opposite to the heading (`AdvanceLeavesNeckBehind`), and the starting body has its neck opposite to RIGHT (`InitialBodyShape`). So, as long as every earlier tick succeeded, one call between ticks can never reverse the snake (`AcceptedTurnAvoidsNeck`). A rejected tick leaves the body where it was while the heading may have changed; the game treats that tick as the end of the game. Two calls between ticks can, and then the next tick runs the head into its own neck (`DoubleTurnReverses`). With three segments, the segment behind the head is the only one the head can ever hit (`ThreeSegmentsOnlyHitNeck`).

## Model

| member | source | states |
|---|---|---|
| SnakeGame.SamePlace | include/snake.hpp:11-14 | two positions are the same place exactly when they are equal once `z` is disregarded |
| SnakeGame.InBounds | include/snake.hpp:81-82 | the negated out-of-bounds test holds exactly when `0 <= x < grid_width` and `0 <= y < grid_height` |
| SnakeGame.Occupied | include/snake.hpp:88-94 | the front-to-back scan that stops at the first segment on the new head's cell finds one exactly when some segment, the tail included, is on that cell |
| SnakeGame.Advance | include/snake.hpp:63-98 | one tick: it is a wall hit exactly when the new head is off the board; a successful tick keeps the length, puts a neighbour of the old head in front, and that new head is on none of the old cells |
| SnakeGame.Opposite | include/snake.hpp:50-53 | the heading that reverses `d` is never `d` itself |
| SnakeGame.Accepts | include/snake.hpp:50-53 | the four-way guard of `setDirection` holds exactly when the requested heading is not the opposite of the current one |
| SnakeGame.NextHead | include/snake.hpp:63-78 | the new head is one unit from the old head along exactly one axis, on the side the heading names (UP y+1, DOWN y-1, LEFT x-1, RIGHT x+1); `z` is carried over |
| SnakeGame.StepBack | include/snake.hpp:63-78 | a step followed by a step in the opposite direction returns to the starting position |
| SnakeGame.NextHeadInjective | include/snake.hpp:63-78 | two headings lead to the same cell (x/y equality) if and only if they are the same heading |
| SnakeGame.InitialBody | include/snake.hpp:42-44 | the starting body has 3 segments: head at `(w/2, h/2)`, then `(w/2-1, h/2)` and `(w/2-2, h/2)`, using exact halves for odd sizes |
| SnakeGame.InitialBodyShape | include/snake.hpp:42-45 | the starting segments are pairwise distinct and form a chain, and the second segment lies one step behind the head, opposite to the initial heading RIGHT |
| SnakeGame.InitialBodyInBounds | include/snake.hpp:42-44 | the starting body lies on the board if and only if the board is at least 4 wide and at least 1 high |
| SnakeGame.AdvanceSucceedsIff | include/snake.hpp:81-94 | a tick succeeds exactly when the new head is inside `[0,w)×[0,h)` and on no current segment; it is rejected as a wall hit exactly when the head is off the board |
| SnakeGame.AdvanceShifts | include/snake.hpp:96-100 | after a successful tick the length is unchanged, the new head is the old head stepped in the heading, an in-bounds neighbour of the old head, every old segment but the tail moves back one place, and the new head is on none of the old cells, the vacated tail included |
| SnakeGame.AdvancePreservesDistinct | include/snake.hpp:88-98 | if the segments are pairwise distinct before a successful tick, they are afterwards |
| SnakeGame.AdvancePreservesInBounds | include/snake.hpp:81-98 | if every segment is on the board before a successful tick, every segment is afterwards |
| SnakeGame.AdvancePreservesConnected | include/snake.hpp:63-98 | if each segment neighbours the one before it before a successful tick, the same holds afterwards |
| SnakeGame.ThreeSegmentsOnlyHitNeck | include/snake.hpp:88-94 | for a distinct chain of three segments, a self-collision can only be with the segment right behind the head |
| SnakeGame.AdvanceLeavesNeckBehind | include/snake.hpp:96-98 | after a successful tick in direction `d` (body of two or more segments), the segment behind the new head is one step from it in the direction opposite to `d`, which is the premise of `AcceptedTurnAvoidsNeck` for the next tick |
| SnakeGame.AcceptedTurnAvoidsNeck | include/snake.hpp:47-78 | if the segment behind the head lies opposite to the last heading, a heading the guard accepts against that heading never leads onto that segment |
| SnakeGame.DoubleTurnReverses | include/snake.hpp:47-94 | whatever the last heading `d`, some heading is accepted after `d` and the reversal of `d` is accepted after that one; with the neck one step behind the head and on the board, a tick in the reversed direction hits the snake itself |
| SnakeGame.Snake.constructor | include/snake.hpp:39-46 | stores the board size, sets the starting body and sets the heading to RIGHT |
| SnakeGame.Snake.SetDirection | include/snake.hpp:47-57 | adopts the requested heading unless it is the opposite of the current one, so the new heading is never the reversal of the old |
| SnakeGame.Snake.Update | include/snake.hpp:58-101 | returns true exactly when the tick succeeds. On failure the body is unchanged. On success the body is the new head followed by the old body without its tail. Heading and board size are untouched, the length is kept, and a distinct, on-board body stays distinct and on the board |

## Left out

- Single-precision float rounding is not modelled. Coordinates are exact reals. For an even board size the source's coordinates are whole numbers, which a float holds exactly up to 2^24, so the model differs only beyond 2^24 cells along that axis. For an odd board size the snake sits on half-integer cells, which a float holds exactly only below 2^23, so the model differs beyond 2^23 cells along that axis: there a step can round to a whole number, and the source's equality and bounds tests can then answer differently from the model's `NextHead` and `Advance`.
- `SnakeAttri` and its `corner` list are not modelled. They are rendering data, and no game logic reads them.
- The terrain, camera, texture, window and rendering code of the repository is not part of this model. It is floating-point numerics, OpenGL and library calls, and none of it uses the snake.
- SnakeGame.Snake.Update requires a non-empty body. The source reads `body[0]` without a check. Its constructor makes three segments and `update` keeps the length, so the body is never empty unless an outside caller empties the public `body` field.
