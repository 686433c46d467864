/** The curses variant of the game: the same rules written as one loop over
    local variables. `Session` holds those locals; its constructor is the
    set-up before the loop and `Step` is one pass of the loop body with the
    drawing calls removed. `Tick` is the specification of a pass. */
module SnakeAscii {
  import opened Geometry
  import opened Food
  import SnakeGame

  const HEIGHT := 20
  const WIDTH := 40

  /** A value returned by `getch`. The four curses arrow-key constants are
      kept abstract; every other value is a plain code (-1 when no key is
      pending, 65 to 68 for the last byte of an escape-sequence arrow,
      113 for `q`). The curses arrow codes 258 to 261 are always written
      as the four abstract keys, so `Code(258)` to `Code(261)` never stand
      for a `getch` result. */
  datatype Key = KeyUp | KeyDown | KeyLeft | KeyRight | Code(code: int)

  /** The code of `q`. */
  const QuitCode := 113

  predicate IsUpKey(key: Key) { key == KeyUp || key == Code(65) }
  predicate IsDownKey(key: Key) { key == KeyDown || key == Code(66) }
  predicate IsLeftKey(key: Key) { key == KeyLeft || key == Code(68) }
  predicate IsRightKey(key: Key) { key == KeyRight || key == Code(67) }

  predicate IsArrow(key: Key) {
    IsUpKey(key) || IsDownKey(key) || IsLeftKey(key) || IsRightKey(key)
  }

  function ArrowDirection(key: Key): Vec
    requires IsArrow(key)
  {
    if IsUpKey(key) then Up else if IsDownKey(key) then Down else if IsLeftKey(key) then Left else Right
  }

  /** How the loop ends a pass: it goes on, the player quit, or the game is over. */
  datatype Outcome = Running | Quit | Over

  /** The local variables of the game loop. */
  datatype Locals = Locals(snake: seq<Cell>, direction: Vec, food: Cell, score: nat)

  datatype TickResult = TickResult(outcome: Outcome, locals: Locals)

  /** The set-up: a three-cell snake from the middle of the board to the
      right, moving left, score 0, and food at the first draw, which is not
      checked against the snake. */
  function Initial(firstDraw: Cell): Locals {
    Locals(seq(3, i => Cell(HEIGHT / 2, WIDTH / 2 + i)), Left, firstDraw, 0)
  }

  /** The direction after one key: an arrow key turns unless the current
      direction is its exact opposite; any other key changes nothing. */
  function Steered(direction: Vec, key: Key): Vec {
    if IsUpKey(key) then (if direction != Down then Up else direction)
    else if IsDownKey(key) then (if direction != Up then Down else direction)
    else if IsLeftKey(key) then (if direction != Right then Left else direction)
    else if IsRightKey(key) then (if direction != Left then Right else direction)
    else direction
  }

  predicate IsQuit(key: Key) {
    !IsArrow(key) && key == Code(QuitCode)
  }

  /** The cell the head moves to after the key is read. */
  function NextHead(l: Locals, key: Key): Cell
    requires |l.snake| >= 1
  {
    Advance(l.snake[0], Steered(l.direction, key))
  }

  /** The collision test of the loop: the head is on the snake or on a border line. */
  predicate Fatal(snake: seq<Cell>, head: Cell) {
    head in snake || OnBorderLine(head, HEIGHT, WIDTH)
  }

  predicate Eats(l: Locals, key: Key)
    requires |l.snake| >= 1
  {
    !IsQuit(key) && !Fatal(l.snake, NextHead(l, key)) && NextHead(l, key) == l.food
  }

  predicate DrawsSuffice(l: Locals, key: Key, draws: seq<Cell>)
    requires |l.snake| >= 1
  {
    Eats(l, key) ==> HasFreeDraw(draws, [NextHead(l, key)] + l.snake)
  }

  /** The move once the collision test has passed: the head goes in
      front, then the food is eaten or the tail is popped. */
  function Move(l: Locals, d: Vec, draws: seq<Cell>): Locals
    requires |l.snake| >= 1
    requires Advance(l.snake[0], d) == l.food ==> HasFreeDraw(draws, [Advance(l.snake[0], d)] + l.snake)
  {
    var head := Advance(l.snake[0], d);
    if head == l.food then Locals([head] + l.snake, d, FirstFree(draws, [head] + l.snake), l.score + 1)
    else Locals([head] + l.snake[..|l.snake| - 1], d, l.food, l.score)
  }

  /** One pass of the loop body. */
  function Tick(l: Locals, key: Key, draws: seq<Cell>): TickResult
    requires |l.snake| >= 1 && DrawsSuffice(l, key, draws)
  {
    if IsQuit(key) then TickResult(Quit, l)
    else
      var direction := Steered(l.direction, key);
      if Fatal(l.snake, NextHead(l, key)) then TickResult(Over, l.(direction := direction))
      else TickResult(Running, Move(l, direction, draws))
  }

  /** The loop invariant: the snake is distinct and interior, its length
      is three plus the score, the food is interior, and the direction is
      one of the four unit vectors. */
  predicate Inv(l: Locals) {
    |l.snake| == l.score + 3 &&
    Distinct(l.snake) && AllInterior(l.snake, HEIGHT, WIDTH) &&
    Interior(l.food, HEIGHT, WIDTH) && IsUnit(l.direction)
  }

  /** The set-up establishes the invariant. */
  lemma InitialInv(firstDraw: Cell)
    requires Interior(firstDraw, HEIGHT, WIDTH)
    ensures Inv(Initial(firstDraw))
    ensures Initial(firstDraw).snake == [Cell(10, 20), Cell(10, 21), Cell(10, 22)]
  {
  }

  /** The first food is not checked against the snake: an interior draw
      may land on it. */
  lemma InitialFoodMayBeOnSnake()
    ensures exists d :: Interior(d, HEIGHT, WIDTH) && d in Initial(d).snake
  {
    var d := Cell(10, 21);
    assert Initial(d).snake[1] == d;
  }

  /** Arrow keys apply the same reversal guard as `change_direction` of the
      class-based variant; other keys leave the direction alone. */
  lemma SteeredIsSteer(direction: Vec, key: Key)
    requires IsUnit(direction)
    ensures IsArrow(key) ==> Steered(direction, key) == SnakeGame.Steer(direction, ArrowDirection(key))
    ensures !IsArrow(key) ==> Steered(direction, key) == direction
    ensures IsUnit(Steered(direction, key))
  {
  }

  /** What a pass does, case by case: `q` stops before any movement; a
      collision keeps snake, food and score; otherwise the new head goes in
      front and the tail is dropped unless the head is on the food, which
      adds one point and redraws the food off the snake. */
  lemma TickCases(l: Locals, key: Key, draws: seq<Cell>)
    requires |l.snake| >= 1 && DrawsSuffice(l, key, draws)
    requires AllInterior(draws, HEIGHT, WIDTH)
    ensures var t := Tick(l, key, draws);
      (t.outcome == Quit <==> IsQuit(key)) &&
      (IsQuit(key) ==> t.locals == l) &&
      (t.outcome == Over <==> !IsQuit(key) && Fatal(l.snake, NextHead(l, key))) &&
      (t.outcome == Over ==> t.locals == l.(direction := Steered(l.direction, key))) &&
      (t.outcome == Running ==>
        t.locals.direction == Steered(l.direction, key) &&
        t.locals.snake[0] == NextHead(l, key) &&
        (NextHead(l, key) == l.food ==>
          t.locals.snake[1..] == l.snake && t.locals.score == l.score + 1 &&
          t.locals.food !in t.locals.snake && Interior(t.locals.food, HEIGHT, WIDTH)) &&
        (NextHead(l, key) != l.food ==>
          t.locals.snake[1..] == l.snake[..|l.snake| - 1] &&
          t.locals.score == l.score && t.locals.food == l.food))
  {
    var t := Tick(l, key, draws);
    if t.outcome == Running {
      var head := NextHead(l, key);
      if head == l.food {
        assert t.locals.snake == [head] + l.snake;
      } else {
        assert t.locals.snake == [head] + l.snake[..|l.snake| - 1];
      }
    }
  }

  /** Every pass keeps the loop invariant. */
  lemma TickKeepsInv(l: Locals, key: Key, draws: seq<Cell>)
    requires |l.snake| >= 1 && DrawsSuffice(l, key, draws)
    requires AllInterior(draws, HEIGHT, WIDTH)
    requires Inv(l)
    ensures Inv(Tick(l, key, draws).locals)
  {
    SteeredIsSteer(l.direction, key);
    if !IsQuit(key) && !Fatal(l.snake, NextHead(l, key)) {
      MoveKeepsInv(l, Steered(l.direction, key), draws);
    }
  }

  /** A move in a unit direction that passed the collision test keeps the
      invariant. */
  lemma MoveKeepsInv(l: Locals, d: Vec, draws: seq<Cell>)
    requires Inv(l) && IsUnit(d) && AllInterior(draws, HEIGHT, WIDTH)
    requires !Fatal(l.snake, Advance(l.snake[0], d))
    requires Advance(l.snake[0], d) == l.food ==> HasFreeDraw(draws, [Advance(l.snake[0], d)] + l.snake)
    ensures Inv(Move(l, d, draws))
  {
    var head := Advance(l.snake[0], d);
    BorderTestsAgree(l.snake[0], d, HEIGHT, WIDTH);
    WallIsNotInterior(head, HEIGHT, WIDTH);
    PrependKeeps(head, l.snake, HEIGHT, WIDTH);
    if head != l.food {
      DropLastKeeps(l.snake, HEIGHT, WIDTH);
      PrependKeeps(head, l.snake[..|l.snake| - 1], HEIGHT, WIDTH);
    }
  }

  /** The two variants play the same game: from a head inside the border
      and a unit direction, as the invariant guarantees, a pass that does not quit ends the game exactly when an
      `update` of the class-based variant (with the same direction change)
      does, and leaves the same snake, food and score. */
  lemma AgreesWithSnakeGame(l: Locals, key: Key, draws: seq<Cell>)
    requires |l.snake| >= 1 && DrawsSuffice(l, key, draws)
    requires Interior(l.snake[0], HEIGHT, WIDTH) && IsUnit(l.direction) && !IsQuit(key)
    ensures var s := SnakeGame.State(l.snake, Steered(l.direction, key), l.food, l.score, false);
      SnakeGame.DrawsSuffice(HEIGHT, WIDTH, s, draws) &&
      var g := SnakeGame.Tick(HEIGHT, WIDTH, s, draws);
      var t := Tick(l, key, draws);
      (g.gameOver <==> t.outcome == Over) &&
      g.snake == t.locals.snake && g.food == t.locals.food && g.score == t.locals.score &&
      g.direction == t.locals.direction
  {
    var d := Steered(l.direction, key);
    assert IsUnit(d) by {
      SteeredIsSteer(l.direction, key);
    }
    var t := Tick(l, key, draws);
    assert NextHead(l, key) == Advance(l.snake[0], d);
    assert t == if Fatal(l.snake, Advance(l.snake[0], d)) then TickResult(Over, l.(direction := d))
                else TickResult(Running, Move(l, d, draws));
    MoveAgrees(l, d, draws);
  }

  /** The agreement for one direction: the curses collision test fails
      exactly when `update` ends the game, and otherwise the curses move and
      `update` leave the same snake, food and score. */
  lemma MoveAgrees(l: Locals, d: Vec, draws: seq<Cell>)
    requires |l.snake| >= 1 && Interior(l.snake[0], HEIGHT, WIDTH) && IsUnit(d)
    requires var head := Advance(l.snake[0], d);
      !Fatal(l.snake, head) && head == l.food ==> HasFreeDraw(draws, [head] + l.snake)
    ensures var s := SnakeGame.State(l.snake, d, l.food, l.score, false);
      SnakeGame.DrawsSuffice(HEIGHT, WIDTH, s, draws) &&
      var g := SnakeGame.Tick(HEIGHT, WIDTH, s, draws);
      (g.gameOver <==> Fatal(l.snake, Advance(l.snake[0], d))) &&
      (!g.gameOver ==> g == SnakeGame.State(Move(l, d, draws).snake, d, Move(l, d, draws).food, Move(l, d, draws).score, false))
  {
    BorderTestsAgree(l.snake[0], d, HEIGHT, WIDTH);
  }

  /** The loop's local variables, updated in place by each pass. */
  class Session {
    var snake: seq<Cell>
    var direction: Vec
    var food: Cell
    var score: nat

    function Abs(): Locals
      reads this
    {
      Locals(snake, direction, food, score)
    }

    /** The lines before the loop. */
    constructor (firstDraw: Cell)
      requires Interior(firstDraw, HEIGHT, WIDTH)
      ensures Abs() == Initial(firstDraw)
      ensures Inv(Abs())
    {
      snake := seq(3, i => Cell(HEIGHT / 2, WIDTH / 2 + i));
      direction := Left;
      food := firstDraw;
      score := 0;
      InitialInv(firstDraw);
    }

    /** The key handling at the top of the loop body: arrow keys turn
        unless the snake would reverse, `q` asks to leave the loop. */
    method ReadKey(key: Key) returns (quit: bool)
      modifies this`direction
      ensures quit == IsQuit(key)
      ensures direction == Steered(old(direction), key)
    {
      quit := false;
      if key == KeyUp || key == Code(65) {
        if direction != Down {
          direction := Up;
        }
      } else if key == KeyDown || key == Code(66) {
        if direction != Up {
          direction := Down;
        }
      } else if key == KeyLeft || key == Code(68) {
        if direction != Right {
          direction := Left;
        }
      } else if key == KeyRight || key == Code(67) {
        if direction != Left {
          direction := Right;
        }
      } else if key == Code(QuitCode) {
        quit := true;
      }
    }

    /** One pass of the loop body after the drawing: read a key, turn,
        test for a collision, move, and eat. */
    method Step(key: Key, draws: seq<Cell>) returns (outcome: Outcome)
      requires |snake| >= 1 && AllInterior(draws, HEIGHT, WIDTH)
      requires DrawsSuffice(Abs(), key, draws)
      modifies this
      ensures |snake| >= 1
      ensures Tick(old(Abs()), key, draws) == TickResult(outcome, Abs())
      ensures old(Inv(Abs())) ==> Inv(Abs())
    {
      ghost var before := Abs();
      if Inv(before) {
        TickKeepsInv(before, key, draws);
      }
      var quit := ReadKey(key);
      if quit {
        return Quit;
      }
      var newHead := Cell(snake[0].row + direction.dr, snake[0].col + direction.dc);
      if newHead in snake || newHead.row == 0 || newHead.row == HEIGHT - 1 ||
         newHead.col == 0 || newHead.col == WIDTH - 1 {
        return Over;
      }
      snake := [newHead] + snake;
      if newHead == food {
        score := score + 1;
        food := Sample(HEIGHT, WIDTH, snake, draws);
      } else {
        snake := snake[..|snake| - 1];
      }
      outcome := Running;
    }
  }
}
