# Snake game state machine in Dafny

This project models the game-state logic of `SnakeGame`, a grid snake game
whose `play_action(action)` is driven once per tick by a player or a
reinforcement-learning agent. The model keeps the value types of
`constants.py` (`Point` with its `__eq__`, the four-member `Direction`
enum) and the state-changing core of `game.py`: `reset`, `_place_food`,
`_move`, `is_collision` and the game-state half of `play_action`.

Layout:

- `constants.dfy`, module `Constants`: `Point`; `Object`, the operand of
  `Point.__eq__`, which is either a Point or anything else; `PointEquals`;
  `Contains`, Python's list `in` built on `PointEquals`; `Direction`.
- `game.dfy`, module `Game`:
  - actions: `Action`, `Encode` and `Decode`;
  - headings: the cycle RIGHT, DOWN, LEFT, UP and `Rotate`;
  - head movement: `Step`;
  - the board: `Grid`, its cells and the randint draws that make them,
    the start layout, and a pigeonhole argument for when a free cell exists;
  - the class `SnakeGame`, with the fields `w`, `h`, `blockSize`, `snake`,
    `head`, `direction`, `food`, `score`, `actionTimeout`, `round` and
    `paused`, and the methods `Reset`, `PlaceFood`, `Move` and
    `PlayAction`, plus the function `IsCollision`.

`SnakeGame.Valid()` is the invariant of a round in play:
- the body has at least three distinct, block-aligned segments;
- each segment is one block from the next;
- the head is first and the second segment lies right behind it;
- the food is on a board cell that is off the body;
- score and timeout are non-negative.

`Reset` establishes `Valid()`. `PlayAction` preserves it on every tick that
does not end the game.

Some behaviours differ from what one might expect; the model follows the
code:
- eating adds 1 to `score` while the reward is 10;
- `action_timeout` is zeroed only by `reset`, never on eating;
- a paused `play_action` returns `None`, not a tuple;
- any action vector other than `[1, 0, 0]` and `[0, 1, 0]` is a left turn.
The stall test compares the timeout with 50 times the length after the new
head was pushed. The collision test also runs before the tail is popped,
so moving into the current tail cell ends the game.

## Model

| member | source | states |
|---|---|---|
| `Constants.PointEquals` | constants.py:9-12 | `Point.__eq__` holds exactly when the other object is a Point with the same x and the same y; a non-Point is never equal |
| `Constants.PointEqualsIsEquivalence` | constants.py:12 | point equality is reflexive, symmetric and transitive |
| `Constants.ContainsIsMembership` | game.py:134 | Python's `in` over a list of Points, which compares with `__eq__` element by element, is exactly sequence membership |
| `Constants.Direction.Value` | constants.py:15-19 | each enum value lies in 1..4 |
| `Constants.DirectionHasFourMembers` | constants.py:15-19 | `Direction` has exactly the four members RIGHT, LEFT, UP and DOWN; they are pairwise distinct and their values tell them apart |
| `Game.Encode` | game.py:179 | an action is a one-hot vector of length 3 |
| `Game.Decode` | game.py:189-196 | `[1,0,0]` is straight and `[0,1,0]` is a right turn; every other vector, and only those, is a left turn |
| `Game.DecodeEncode` | game.py:179-196 | decoding the one-hot encoding of an action gives the action back |
| `Game.CycleIndex` | game.py:180-186 | `directions.index` gives the position of the heading in the cycle RIGHT, DOWN, LEFT, UP |
| `Game.Opposite` | game.py:180-185 | the reverse heading is two steps round the cycle |
| `Game.Rotate` | game.py:188-196 | the heading is unchanged exactly when the action is straight, and a move never reverses the heading |
| `Game.TurnsAreInverse` | game.py:191-196 | a right turn followed by a left turn, or a left turn followed by a right turn, restores the heading |
| `Game.FourTurnsRestore` | game.py:180-196 | four turns the same way restore the heading; two turns the same way reverse it |
| `Game.Step` | game.py:198-210 | the new head is one block from the old along one axis; a horizontal heading keeps y, a vertical one keeps x |
| `Game.TurnRightIsClockwise` | game.py:189-208 | a right turn maps the unit step `(dx, dy)` to `(-dy, dx)` and a left turn to `(dy, -dx)`; from RIGHT a right turn heads DOWN, clockwise on a screen whose y grows downwards |
| `Game.StepInverse` | game.py:198-210 | one block in a heading followed by one block in the opposite heading returns to the start |
| `Game.StepInjective` | game.py:201-208 | with a positive block size, distinct headings give distinct new heads |
| `Game.NeverIntoNeck` | game.py:186-210 | whatever the action, the new head is never the cell directly behind the old head (used by `PlayAction` to show an unpaused tick from a valid state never lands on the second segment) |
| `Game.StepPreservesAlignment` | game.py:198-210 | a head whose coordinates are multiples of the block size keeps that property after a move |
| `Game.Grid.DrawIsCell` | game.py:64-66 | every pair of randint draws gives a point that is a multiple of the block size on both axes and lies in `[0, w-bs] x [0, h-bs]` |
| `Game.Grid.CellIsDraw` | game.py:64-66 | every such cell is produced by a pair of draws within the randint ranges |
| `Game.Grid.FreeCellWhenRoom` | game.py:58-66 | a body with fewer entries than the board has cells leaves a free cell, so the rejection loop has something to find |
| `Game.Grid.StartHead` | game.py:45-46 | the start head is block-aligned and is the block that holds the board's centre (`x <= w/2 < x + bs`, likewise for y) |
| `Game.Grid.StartHeadSingleDivision` | game.py:45-46 | `w / 2 // bs * bs` equals `w // (2*bs) * bs`, and likewise for `h` |
| `Game.Grid.StartSnake` | game.py:47-51 | the start body has three segments, the head first, each one block left of the one before |
| `Game.Grid.StartSnakeIsWellFormed` | game.py:47-51 | the start body is duplicate-free, block-aligned and connected |
| `Game.SnakeGame.constructor` | game.py:19-40 | the new game is in round 1, not paused, in the start layout and satisfies the invariant |
| `Game.SnakeGame.Reset` | game.py:42-56 | the start layout is set up: head at the centre, two segments to its left, heading RIGHT, score and timeout 0, food on a free cell, round one more than before, invariant established |
| `Game.SnakeGame.PlaceFood` | game.py:58-66 | the new food is a block-aligned, in-bounds cell not on the body; only `food` changes |
| `Game.SnakeGame.IsCollision` | game.py:126-137 | true exactly when the point (the head when none is given) is outside `[0, w-bs] x [0, h-bs]` or equals a body segment after the first; it reads the state and changes nothing |
| `Game.SnakeGame.Move` | game.py:178-210 | the heading becomes the rotated heading and the head moves one block in it |
| `Game.SnakeGame.PlayAction` | game.py:92-124 | paused: returns None and changes nothing. Otherwise the timeout goes up by 1 and the head moves. If the new head is out of bounds or on the old body, or the timeout exceeds 50 times the grown length, the game is over: the result is (-10, True, score), the score is unchanged and the head stays pushed on the body. On food: score + 1, result (10, False, score), the body grows by one and the food moves to a free cell. Otherwise: result (0, False, score) and the body is the new head followed by the old body minus its last segment. A tick that does not end the game preserves the invariant, and from a valid state the new head is never the old second segment |

## Left out

- Pygame setup and drawing (game.py:7-15, game.py:23-25, `draw` at game.py:139-176): rendering and calls into a foreign library.
- Event handling in `play_action` (game.py:69-90): quitting, keyboard polling, frame-rate changes and the pause toggle are input-device I/O. `paused` is a field the caller sets.
- The `draw` and `clock.tick` calls inside `play_action` (game.py:94-95, game.py:120-121) and the `framerate` field: timing and rendering side effects.
- `modify_fps` (game.py:213-220) and `main` (game.py:223-230): a console input loop on a second thread and an endless driver loop.
- `Game.SnakeGame.PlaceFood`: `random.randint` is not modelled. The draws are a nondeterministic choice among the pairs that end the loop. The number of attempts and the uniform distribution are not captured. The Python loop has no bound, so the method requires a free cell to exist; `Game.Grid.FreeCellWhenRoom` gives a sufficient condition.
- `Game.SnakeGame.PlayAction` requires a free cell for the new food only on a tick that eats. Python would loop forever there on a full board.
- `Point` coordinates are integers. `reset` computes the head with float division (`w / 2`), which gives the same integral values for the sizes the game uses; floating point itself is not modelled.
- `np.array_equal` is replaced by equality of integer sequences, and the model accepts integer sequences only. In `game.py`, numeric or bool arrays whose values equal `[1, 0, 0]` or `[0, 1, 0]` (such as `[1.0, 0.0, 0.0]` or `[True, False, False]`) behave like the integer vectors; arrays of another shape are never equal to them, so they turn left.
- `Game.SnakeGame.constructor` takes `w`, `h` and `blockSize` explicitly, without the defaults of `__init__` (1280, 720 and 32); its `fps` parameter only sets the left-out `framerate` and is not modelled.
- `Game.SnakeGame.constructor` and `Game.SnakeGame.Reset` require a free cell for the first food, which excludes a board smaller than one block in either direction. On such a board `randint` raises ValueError in `_place_food` (game.py:64-65), so `__init__` fails; the model does not represent that exception.
- `blockSize` is a positive integer. A zero block size makes `reset` divide by zero, and negative sizes are not handled.
- The `Colors` constants (constants.py:22-28) are display-only.
