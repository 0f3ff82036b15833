/**
 * The game-state logic of the snake game (game.py, class SnakeGame):
 * turning and moving the head, the collision test, food placement, reset
 * and the per-tick update of play_action. Drawing, event polling and the
 * frame clock are not part of this model.
 */
module Game {
  import opened Constants

  datatype Option<T> = None | Some(value: T)

  /** What an unpaused play_action returns: (reward, game_over, score). */
  datatype Outcome = Outcome(reward: int, gameOver: bool, score: int)

  /** Reward for a tick that ends the game. */
  const DeathReward: int := -10
  /** Reward for a tick that eats the food. */
  const FoodReward: int := 10
  /** Reward for any other tick. */
  const MoveReward: int := 0
  /** The stall cutoff allows this many ticks per body segment. */
  const StallFactor: int := 50

  /** The block size: `reset` divides by it, so it is positive. */
  type Positive = n: int | n > 0 witness 1

  // ---------------------------------------------------------------------
  // Actions
  // ---------------------------------------------------------------------

  /** The three moves an agent can ask for. */
  datatype Action = Straight | TurnRight | TurnLeft

  /** The one-hot vector `[straight, right, left]` an agent passes in. */
  function Encode(a: Action): (v: seq<int>)
    ensures |v| == 3 && v[0] + v[1] + v[2] == 1
    ensures forall k :: 0 <= k < |v| ==> v[k] == 0 || v[k] == 1
  {
    match a
    case Straight => [1, 0, 0]
    case TurnRight => [0, 1, 0]
    case TurnLeft => [0, 0, 1]
  }

  /**
   * How `_move` reads an action vector: exactly `[1, 0, 0]` goes straight,
   * exactly `[0, 1, 0]` turns right, and every other vector turns left.
   */
  function Decode(action: seq<int>): (a: Action)
    ensures a != TurnLeft ==> action == Encode(a)
    ensures a == TurnLeft <==> action != Encode(Straight) && action != Encode(TurnRight)
  {
    if action == [1, 0, 0] then Straight
    else if action == [0, 1, 0] then TurnRight
    else TurnLeft
  }

  /** Decoding the encoding of an action gives that action back. */
  lemma DecodeEncode(a: Action)
    ensures Decode(Encode(a)) == a
  {
  }

  // ---------------------------------------------------------------------
  // Headings
  // ---------------------------------------------------------------------

  /** The clockwise cycle `_move` turns over. */
  const Cycle: seq<Direction> := [Right, Down, Left, Up]

  /** `directions.index(d)`: the position of `d` in the cycle. */
  function CycleIndex(d: Direction): (i: nat)
    ensures i < |Cycle| && Cycle[i] == d
  {
    match d
    case Right => 0
    case Down => 1
    case Left => 2
    case Up => 3
  }

  /** The heading pointing the other way. */
  function Opposite(d: Direction): (r: Direction)
    ensures r == Cycle[(CycleIndex(d) + 2) % 4]
  {
    match d
    case Right => Left
    case Left => Right
    case Up => Down
    case Down => Up
  }

  /**
   * The heading after `a`: straight keeps the index, a right turn moves one
   * step forward in the cycle and a left turn one step back (modulo 4).
   * A move is therefore never a reversal.
   */
  function Rotate(d: Direction, a: Action): (r: Direction)
    ensures r == d <==> a == Straight
    ensures r != Opposite(d)
  {
    var i: int := CycleIndex(d);
    match a
    case Straight => Cycle[i]
    case TurnRight => Cycle[(i + 1) % 4]
    case TurnLeft => Cycle[(i - 1) % 4]
  }

  /** A right turn and a left turn undo each other. */
  lemma TurnsAreInverse(d: Direction)
    ensures Rotate(Rotate(d, TurnRight), TurnLeft) == d
    ensures Rotate(Rotate(d, TurnLeft), TurnRight) == d
  {
  }

  /** Four turns the same way bring the heading back; two make it reverse. */
  lemma FourTurnsRestore(d: Direction, a: Action)
    ensures Rotate(Rotate(Rotate(Rotate(d, a), a), a), a) == d
    ensures a != Straight ==> Rotate(Rotate(d, a), a) == Opposite(d)
  {
  }

  // ---------------------------------------------------------------------
  // Moving the head
  // ---------------------------------------------------------------------

  /** `q` is one block away from `p` along exactly one axis. */
  predicate Neighbours(p: Point, q: Point, bs: int)
  {
    (q.y == p.y && (q.x == p.x + bs || q.x == p.x - bs)) ||
    (q.x == p.x && (q.y == p.y + bs || q.y == p.y - bs))
  }

  /**
   * The head offset of `_move`: RIGHT adds the block size to x, LEFT
   * subtracts it, DOWN adds it to y and UP subtracts it.
   */
  function Step(p: Point, d: Direction, bs: int): (q: Point)
    ensures Neighbours(p, q, bs)
    ensures d == Right || d == Left ==> q.y == p.y
    ensures d == Up || d == Down ==> q.x == p.x
  {
    match d
    case Right => Point(p.x + bs, p.y)
    case Left => Point(p.x - bs, p.y)
    case Down => Point(p.x, p.y + bs)
    case Up => Point(p.x, p.y - bs)
  }

  /**
   * With y growing downwards, a right turn is clockwise on screen: it maps
   * the unit step `(dx, dy)` to `(-dy, dx)`, and a left turn maps it to
   * `(dy, -dx)`.
   */
  lemma TurnRightIsClockwise(d: Direction)
    ensures var v := Step(Point(0, 0), d, 1);
      Step(Point(0, 0), Rotate(d, TurnRight), 1) == Point(-v.y, v.x) &&
      Step(Point(0, 0), Rotate(d, TurnLeft), 1) == Point(v.y, -v.x)
    ensures Rotate(Right, TurnRight) == Down
  {
  }

  /** Stepping back the opposite way returns to the start. */
  lemma StepInverse(p: Point, d: Direction, bs: int)
    ensures Step(Step(p, d, bs), Opposite(d), bs) == p
  {
  }

  /** Distinct headings lead to distinct cells. */
  lemma StepInjective(p: Point, d: Direction, e: Direction, bs: Positive)
    ensures Step(p, d, bs) == Step(p, e, bs) <==> d == e
  {
  }

  /**
   * Whatever the action, the head never moves onto the cell behind it
   * (where the second segment lies in a valid game).
   */
  lemma NeverIntoNeck(p: Point, d: Direction, a: Action, bs: Positive)
    ensures Step(p, Rotate(d, a), bs) != Step(p, Opposite(d), bs)
  {
    StepInjective(p, Rotate(d, a), Opposite(d), bs);
  }

  // ---------------------------------------------------------------------
  // The board
  // ---------------------------------------------------------------------

  // Integer facts about multiples of the block size.

  lemma MulMonotone(i: int, j: int, bs: Positive)
    requires i <= j
    ensures i * bs <= j * bs
  {
    assert j * bs - i * bs == (j - i) * bs;
  }

  lemma MulDistinct(i: int, j: int, bs: Positive)
    requires i != j
    ensures i * bs != j * bs
  {
    if i < j {
      MulMonotone(i + 1, j, bs);
    } else {
      MulMonotone(j + 1, i, bs);
    }
  }

  lemma SmallMultiple(k: int, bs: Positive)
    requires -(bs as int) < k * bs < bs
    ensures k == 0
  {
    if k > 0 {
      MulMonotone(1, k, bs);
      assert false;
    } else if k < 0 {
      MulMonotone(k, -1, bs);
      assert false;
    }
  }

  /** Quotient and remainder are the only pair with `n == q * bs + r` and `0 <= r < bs`. */
  lemma DivModUnique(n: int, bs: Positive, q: int, r: int)
    requires n == q * bs + r && 0 <= r < bs
    ensures n / bs == q && n % bs == r
  {
    var q', r' := n / bs, n % bs;
    assert n == q' * bs + r';
    assert (q - q') * bs == r' - r;
    SmallMultiple(q - q', bs);
  }

  lemma DivMonotone(a: int, b: int, bs: Positive)
    requires a <= b
    ensures a / bs <= b / bs
  {
    if a / bs > b / bs {
      MulMonotone(b / bs + 1, a / bs, bs);
      assert false;
    }
  }

  /** Halving and then dividing by `bs`, both flooring, is dividing by `2 * bs`. */
  lemma HalveThenDivide(n: int, bs: Positive)
    ensures n / 2 / bs == n / (2 * bs)
  {
    var a, r := n / 2, n % 2;
    var b, s := a / bs, a % bs;
    assert n == b * (2 * bs) + (2 * s + r);
    DivModUnique(n, 2 * bs, b, 2 * s + r);
  }

  /** Any multiple of the block size is aligned. */
  lemma MultipleIsAligned(i: int, bs: Positive)
    ensures (i * bs) % bs == 0 && (i * bs) / bs == i
  {
    DivModUnique(i * bs, bs, i, 0);
  }

  /** Adding a multiple of the block size keeps the remainder. */
  lemma ShiftKeepsAlignment(n: int, i: int, bs: Positive)
    requires n % bs == 0
    ensures (n + i * bs) % bs == 0
  {
    var q := n / bs;
    assert n + i * bs == (q + i) * bs;
    DivModUnique(n + i * bs, bs, q + i, 0);
  }

  /** A `w` by `h` board of square blocks of side `blockSize`. */
  datatype Grid = Grid(w: int, h: int, blockSize: Positive)
  {
    /** The bounds test of `is_collision`. */
    predicate Outside(p: Point)
    {
      p.x > w - blockSize || p.x < 0 || p.y > h - blockSize || p.y < 0
    }

    /** Both coordinates are multiples of the block size. */
    predicate Aligned(p: Point)
    {
      p.x % blockSize == 0 && p.y % blockSize == 0
    }

    /** A block of the board: aligned and inside the bounds. */
    predicate Cell(p: Point)
    {
      Aligned(p) && !Outside(p)
    }

    /** How many values `randint(0, (w - block_size) // block_size)` can return. */
    function Columns(): int
    {
      (w - blockSize) / blockSize + 1
    }

    /** How many values `randint(0, (h - block_size) // block_size)` can return. */
    function Rows(): int
    {
      (h - blockSize) / blockSize + 1
    }

    /** The food position `_place_food` builds from the draws `i` and `j`. */
    function Draw(i: int, j: int): Point
    {
      Point(i * blockSize, j * blockSize)
    }

    /** Every pair of randint draws gives a cell of the board. */
    lemma DrawIsCell(i: int, j: int)
      requires 0 <= i < Columns() && 0 <= j < Rows()
      ensures Cell(Draw(i, j))
    {
      MultipleIsAligned(i, blockSize);
      MultipleIsAligned(j, blockSize);
      MulMonotone(i, (w - blockSize) / blockSize, blockSize);
      MulMonotone(j, (h - blockSize) / blockSize, blockSize);
      MulMonotone(0, i, blockSize);
      MulMonotone(0, j, blockSize);
    }

    /** Every cell of the board is produced by some pair of draws. */
    lemma CellIsDraw(c: Point)
      requires Cell(c)
      ensures 0 <= c.x / blockSize < Columns() && 0 <= c.y / blockSize < Rows()
      ensures Draw(c.x / blockSize, c.y / blockSize) == c
    {
      DivMonotone(c.x, w - blockSize, blockSize);
      DivMonotone(c.y, h - blockSize, blockSize);
      DivMonotone(0, c.x, blockSize);
      DivMonotone(0, c.y, blockSize);
    }

    /** Some cell of the board is not in `body`. */
    ghost predicate HasFreeCell(body: seq<Point>)
    {
      exists c :: Cell(c) && c !in body
    }

    /** Draw number `k` in row-major order over all Columns() x Rows() pairs. */
    function CellAt(k: nat): Point
      requires Columns() > 0
    {
      Draw(k % Columns(), k / Columns())
    }

    /** All cells of the board, one per pair of draws. */
    function Cells(): (cs: seq<Point>)
      requires Columns() > 0 && Rows() > 0
      ensures |cs| == Columns() * Rows()
      ensures forall k :: 0 <= k < |cs| ==> cs[k] == CellAt(k)
    {
      seq(Columns() * Rows(), k requires 0 <= k => CellAt(k))
    }

    lemma CellsAreCells(k: nat)
      requires Columns() > 0 && Rows() > 0 && k < Columns() * Rows()
      ensures Cell(CellAt(k))
    {
      var c := Columns();
      var n := Rows();
      assert c * n - 1 == (n - 1) * c + (c - 1);
      DivModUnique(c * n - 1, c, n - 1, c - 1);
      DivMonotone(k, c * n - 1, c);
      DrawIsCell(k % c, k / c);
    }

    lemma CellsAreDistinct(k: nat, l: nat)
      requires Columns() > 0 && k < l
      ensures CellAt(k) != CellAt(l)
    {
      var c := Columns();
      if k % c != l % c {
        MulDistinct(k % c, l % c, blockSize);
      } else {
        assert k == (k / c) * c + k % c && l == (l / c) * c + l % c;
        assert k / c != l / c;
        MulDistinct(k / c, l / c, blockSize);
      }
    }

    /**
     * A body with fewer entries than the board has cells leaves a cell
     * free, so rejection sampling has something to find.
     */
    lemma FreeCellWhenRoom(body: seq<Point>)
      requires Columns() > 0 && Rows() > 0
      requires |body| < Columns() * Rows()
      ensures HasFreeCell(body)
    {
      var cs := Cells();
      forall i, j | 0 <= i < j < |cs| ensures cs[i] != cs[j] {
        CellsAreDistinct(i, j);
      }
      Pigeonhole(cs, body);
      var k :| 0 <= k < |cs| && cs[k] !in body;
      CellsAreCells(k);
    }

    /** The start position of the head: the block holding the board's centre. */
    function StartHead(): (p: Point)
      ensures Aligned(p)
      ensures p.x <= w / 2 < p.x + blockSize
      ensures p.y <= h / 2 < p.y + blockSize
    {
      MultipleIsAligned(w / 2 / blockSize, blockSize);
      MultipleIsAligned(h / 2 / blockSize, blockSize);
      Point(w / 2 / blockSize * blockSize, h / 2 / blockSize * blockSize)
    }

    /**
     * `w / 2 // block_size * block_size` floors twice; one floor division
     * by twice the block size gives the same coordinate.
     */
    lemma StartHeadSingleDivision()
      ensures StartHead() == Point(w / (2 * blockSize) * blockSize, h / (2 * blockSize) * blockSize)
    {
      HalveThenDivide(w, blockSize);
      HalveThenDivide(h, blockSize);
    }

    /** The start layout: the head and two blocks trailing to its left. */
    function StartSnake(): (s: seq<Point>)
      ensures |s| == 3 && s[0] == StartHead()
      ensures forall i :: 0 < i < 3 ==> s[i] == Step(s[i - 1], Left, blockSize)
    {
      var p := StartHead();
      [p, Point(p.x - blockSize, p.y), Point(p.x - 2 * blockSize, p.y)]
    }

    /**
     * The start layout is a well-formed body: three distinct aligned
     * segments, each one block to the left of the one before.
     */
    lemma StartSnakeIsWellFormed()
      ensures var s := StartSnake();
        NoDuplicates(s) &&
        (forall i :: 0 <= i < |s| ==> Aligned(s[i])) &&
        (forall i :: 0 <= i < |s| - 1 ==> Neighbours(s[i], s[i + 1], blockSize))
    {
      var p := StartHead();
      ShiftKeepsAlignment(p.x, -1, blockSize);
      ShiftKeepsAlignment(p.x, -2, blockSize);
    }
  }

  /** No point occurs twice. */
  predicate NoDuplicates(s: seq<Point>)
  {
    forall i, j :: 0 <= i < j < |s| ==> s[i] != s[j]
  }

  /** More distinct points than `ys` has entries: one of them is not in `ys`. */
  lemma {:induction false} Pigeonhole(xs: seq<Point>, ys: seq<Point>)
    requires NoDuplicates(xs)
    requires |ys| < |xs|
    ensures exists k :: 0 <= k < |xs| && xs[k] !in ys
  {
    if xs[0] in ys {
      var m :| 0 <= m < |ys| && ys[m] == xs[0];
      var rest := ys[..m] + ys[m + 1..];
      Pigeonhole(xs[1..], rest);
      var k :| 0 <= k < |xs[1..]| && xs[1..][k] !in rest;
      assert xs[k + 1] != xs[0];
      forall n | 0 <= n < |ys|
        ensures ys[n] != xs[k + 1]
      {
        if n < m {
          assert rest[n] == ys[n];
        } else if n > m {
          assert rest[n - 1] == ys[n];
        }
      }
    } else {
      assert xs[0] !in ys;
    }
  }

  // ---------------------------------------------------------------------
  // The game state
  // ---------------------------------------------------------------------

  /** The state machine of SnakeGame, without display, clock and frame rate. */
  class SnakeGame {
    const w: int
    const h: int
    const blockSize: Positive
    /** The body, head first; play_action uses it as a deque. */
    var snake: seq<Point>
    var head: Point
    var direction: Direction
    var food: Point
    var score: int
    var actionTimeout: int
    var round: int
    var paused: bool

    /** The board the game is played on. */
    function Board(): Grid
    {
      Grid(w, h, blockSize)
    }

    /**
     * What holds between ticks while the round is being played: the head
     * leads a body of at least three distinct, block-aligned segments, each
     * one block from the next, the second right behind the head; the food is
     * on a free cell of the board; score and timeout are non-negative.
     */
    ghost predicate Valid()
      reads this
    {
      |snake| >= 3 && snake[0] == head &&
      snake[1] == Step(head, Opposite(direction), blockSize) &&
      (forall i :: 0 <= i < |snake| ==> Board().Aligned(snake[i])) &&
      (forall i :: 0 <= i < |snake| - 1 ==> Neighbours(snake[i], snake[i + 1], blockSize)) &&
      NoDuplicates(snake) &&
      Board().Cell(food) && food !in snake &&
      score >= 0 && actionTimeout >= 0
    }

    /** `__init__` followed by its call of `reset`. */
    constructor (w: int, h: int, blockSize: Positive)
      requires Grid(w, h, blockSize).HasFreeCell(Grid(w, h, blockSize).StartSnake())
      ensures this.w == w && this.h == h && this.blockSize == blockSize
      ensures round == 1 && !paused
      ensures direction == Right && snake == Board().StartSnake() && head == snake[0]
      ensures score == 0 && actionTimeout == 0
      ensures Valid()
    {
      this.w := w;
      this.h := h;
      this.blockSize := blockSize;
      round := 0;
      paused := false;
      new;
      Reset();
    }

    /**
     * `reset`: the start layout, a fresh food, a zero score and timeout,
     * and the next round number.
     */
    method Reset()
      requires Board().HasFreeCell(Board().StartSnake())
      modifies this
      ensures direction == Right && head == Board().StartHead()
      ensures snake == [head, Point(head.x - blockSize, head.y), Point(head.x - 2 * blockSize, head.y)]
      ensures score == 0 && actionTimeout == 0
      ensures round == old(round) + 1 && paused == old(paused)
      ensures Board().Cell(food) && food !in snake
      ensures Valid()
    {
      direction := Right;
      head := Board().StartHead();
      snake := [head, Point(head.x - blockSize, head.y), Point(head.x - 2 * blockSize, head.y)];
      score := 0;
      Board().StartSnakeIsWellFormed();
      PlaceFood();
      actionTimeout := 0;
      round := round + 1;
    }

    /**
     * `_place_food`: the draws that end the rejection loop are exactly the
     * pairs whose point is off the body, so the loop's result is modelled as
     * one such pair chosen nondeterministically. Only the food changes.
     */
    method PlaceFood()
      requires snake != []
      requires Board().HasFreeCell(snake)
      modifies this`food
      ensures Board().Cell(food) && food !in snake
    {
      var g := Board();
      var free :| g.Cell(free) && free !in snake;
      g.CellIsDraw(free);
      var i, j :| 0 <= i < g.Columns() && 0 <= j < g.Rows() && g.Draw(i, j) !in snake;
      g.DrawIsCell(i, j);
      food := g.Draw(i, j);
    }

    /**
     * `is_collision(point)`: the point (the head when none is given) lies
     * outside the board or on a body segment other than the first.
     */
    function IsCollision(point: Option<Point>): (r: bool)
      reads this
      ensures var p := if point.Some? then point.value else head;
        r <==> Board().Outside(p) || exists i :: 1 <= i < |snake| && snake[i] == p
    {
      var p := if point == None then head else point.value;
      var rest := if snake == [] then [] else snake[1..];
      ContainsIsMembership(rest, p);
      Board().Outside(p) || Contains(rest, p)
    }

    /**
     * `_move`: turn as the action says, then advance the head one block in
     * the new heading.
     */
    method Move(action: seq<int>)
      modifies this`direction, this`head
      ensures direction == Rotate(old(direction), Decode(action))
      ensures head == Step(old(head), direction, blockSize)
    {
      var idx: int := CycleIndex(direction);
      var newDir: Direction;
      if action == [1, 0, 0] {
        newDir := Cycle[idx];
      } else if action == [0, 1, 0] {
        newDir := Cycle[(idx + 1) % 4];
      } else {
        newDir := Cycle[(idx - 1) % 4];
      }
      direction := newDir;
      var x, y := head.x, head.y;
      if direction == Right {
        x := x + blockSize;
      } else if direction == Left {
        x := x - blockSize;
      } else if direction == Down {
        y := y + blockSize;
      } else if direction == Up {
        y := y - blockSize;
      }
      head := Point(x, y);
    }

    /** The head `_move` would produce for `action`. */
    function NextHead(action: seq<int>): Point
      reads this
    {
      Step(head, Rotate(direction, Decode(action)), blockSize)
    }

    /** An unpaused tick with `action` reaches the branch that eats the food. */
    predicate WouldEat(action: seq<int>)
      reads this
    {
      var next := NextHead(action);
      !paused && !Board().Outside(next) && next !in snake &&
      actionTimeout + 1 <= StallFactor * (|snake| + 1) && next == food
    }

    /**
     * The game-state part of `play_action`. Paused: nothing changes and
     * there is no result. Otherwise the timeout goes up by one, the head
     * moves and is pushed on the front of the body; the game is over if the
     * new head collides or the timeout exceeds 50 times the grown length;
     * else eating the food adds one to the score and keeps the extra
     * segment, and any other move drops the last segment.
     */
    method PlayAction(action: seq<int>) returns (r: Option<Outcome>)
      requires WouldEat(action) ==> Board().HasFreeCell([food] + snake)
      modifies this
      ensures paused == old(paused) && round == old(round)
      ensures old(paused) ==> r == None && unchanged(this)
      ensures !old(paused) ==> r.Some? && actionTimeout == old(actionTimeout) + 1
      ensures !old(paused) ==> direction == Rotate(old(direction), Decode(action))
      ensures !old(paused) ==> head == Step(old(head), direction, blockSize)
      ensures r.Some? ==> (r.value.gameOver <==>
        Board().Outside(head) || head in old(snake) ||
        actionTimeout > StallFactor * (|old(snake)| + 1))
      ensures r.Some? && r.value.gameOver ==>
        r.value == Outcome(DeathReward, true, old(score)) &&
        snake == [head] + old(snake) && score == old(score) && food == old(food)
      ensures r.Some? && !r.value.gameOver && head == old(food) ==>
        r.value == Outcome(FoodReward, false, score) && score == old(score) + 1 &&
        snake == [head] + old(snake) && Board().Cell(food) && food !in snake
      ensures r.Some? && !r.value.gameOver && head != old(food) ==>
        r.value == Outcome(MoveReward, false, old(score)) && score == old(score) &&
        snake == ([head] + old(snake))[..|old(snake)|] && food == old(food)
      ensures old(Valid()) && r.Some? && !r.value.gameOver ==> Valid()
      ensures old(Valid()) && r.Some? ==> head != old(snake)[1]
    {
      if paused {
        return None;
      }
      ghost var wasValid := Valid();
      ghost var oldSnake := snake;
      ghost var oldHead := head;
      ghost var oldDirection := direction;
      actionTimeout := actionTimeout + 1;
      Move(action);
      NeverIntoNeck(oldHead, oldDirection, Decode(action), blockSize);
      snake := [head] + snake;
      assert snake[1..] == oldSnake;
      var reward := MoveReward;
      var gameOver := false;
      if IsCollision(None) || actionTimeout > StallFactor * |snake| {
        gameOver := true;
        reward := DeathReward;
        return Some(Outcome(reward, gameOver, score));
      }
      if PointEquals(head, PointObject(food)) {
        score := score + 1;
        reward := FoodReward;
        PlaceFood();
      } else {
        snake := snake[..|snake| - 1];
      }
      r := Some(Outcome(reward, gameOver, score));
      if wasValid {
        StepInverse(oldHead, direction, blockSize);
        StepPreservesAlignment(Board(), oldHead, direction);
      }
    }
  }

  /** A move keeps a block-aligned point block-aligned. */
  lemma StepPreservesAlignment(g: Grid, p: Point, d: Direction)
    requires g.Aligned(p)
    ensures g.Aligned(Step(p, d, g.blockSize))
  {
    ShiftKeepsAlignment(p.x, 1, g.blockSize);
    ShiftKeepsAlignment(p.x, -1, g.blockSize);
    ShiftKeepsAlignment(p.y, 1, g.blockSize);
    ShiftKeepsAlignment(p.y, -1, g.blockSize);
  }
}
