/** The class-based variant of the game: a `Snake` object whose `update`
    advances the game by one tick, with `change_direction`, food placement
    and the board grid that `render` builds. The object is `Game`; the
    value `State` and the function `Tick` are its specification. */
module SnakeGame {
  import opened Geometry
  import opened Food

  datatype Option<T> = None | Some(value: T)

  /** Everything one tick may change. */
  datatype State = State(snake: seq<Cell>, direction: Vec, food: Cell, score: nat, gameOver: bool)

  /** The cell the head moves to on the next tick. */
  function NextHead(s: State): Cell
    requires |s.snake| >= 1
  {
    Advance(s.snake[0], s.direction)
  }

  /** The next tick is a successful move onto the food. */
  predicate Eats(height: int, width: int, s: State)
    requires |s.snake| >= 1
  {
    !s.gameOver && !HitsWall(NextHead(s), height, width) &&
    NextHead(s) !in s.snake && NextHead(s) == s.food
  }

  /** The draws let the food loop stop whenever the next tick needs it to. */
  predicate DrawsSuffice(height: int, width: int, s: State, draws: seq<Cell>)
    requires |s.snake| >= 1
  {
    Eats(height, width, s) ==> HasFreeDraw(draws, [NextHead(s)] + s.snake)
  }

  /** One call of `update`: the terminal guard, the wall check, the self
      check, then either growth onto the food or a move that drops the tail. */
  function Tick(height: int, width: int, s: State, draws: seq<Cell>): State
    requires |s.snake| >= 1 && DrawsSuffice(height, width, s, draws)
  {
    if s.gameOver then s
    else
      var head := NextHead(s);
      if HitsWall(head, height, width) then s.(gameOver := true)
      else if head in s.snake then s.(gameOver := true)
      else if head == s.food then
        s.(snake := [head] + s.snake, score := s.score + 1, food := FirstFree(draws, [head] + s.snake))
      else
        s.(snake := [head] + s.snake[..|s.snake| - 1])
  }

  /** The game invariant: the snake is distinct and interior, the food is
      interior and off the snake, and each point of score is one extra segment. */
  predicate Inv(height: int, width: int, s: State) {
    |s.snake| == s.score + 1 &&
    Distinct(s.snake) && AllInterior(s.snake, height, width) &&
    Interior(s.food, height, width) && s.food !in s.snake
  }

  /** The start cell, at the middle of the board. */
  function StartCell(height: int, width: int): Cell {
    Cell(height / 2, width / 2)
  }

  lemma StartCellInterior(height: int, width: int)
    requires height >= 3 && width >= 3
    ensures Interior(StartCell(height, width), height, width)
  {
  }

  /** On a 3 x 3 board the start cell is the only interior cell, so no
      stream of interior draws lets `__init__` place the first food. */
  lemma NoFoodOnThreeByThree(draws: seq<Cell>)
    requires AllInterior(draws, 3, 3)
    ensures !HasFreeDraw(draws, [StartCell(3, 3)])
  {
  }

  /** Once over, a tick changes nothing, so the game stays over. */
  lemma TickWhenOver(height: int, width: int, s: State, draws: seq<Cell>)
    requires |s.snake| >= 1 && DrawsSuffice(height, width, s, draws)
    requires s.gameOver
    ensures Tick(height, width, s, draws) == s
  {
  }

  /** No tick sets the flag back to false. */
  lemma TickKeepsOver(height: int, width: int, s: State, draws: seq<Cell>)
    requires |s.snake| >= 1 && DrawsSuffice(height, width, s, draws)
    ensures s.gameOver ==> Tick(height, width, s, draws).gameOver
  {
  }

  /** A head on or past the border, or on any current segment (the tail
      about to be vacated included), ends the game and changes nothing else. */
  lemma TickCollision(height: int, width: int, s: State, draws: seq<Cell>)
    requires |s.snake| >= 1 && DrawsSuffice(height, width, s, draws)
    requires !s.gameOver
    requires HitsWall(NextHead(s), height, width) || NextHead(s) in s.snake
    ensures Tick(height, width, s, draws) == s.(gameOver := true)
  {
  }

  /** A move onto the food grows the snake by its new head, adds exactly one
      point, and puts the new food on a free interior cell. */
  lemma TickEats(height: int, width: int, s: State, draws: seq<Cell>)
    requires |s.snake| >= 1 && DrawsSuffice(height, width, s, draws)
    requires AllInterior(draws, height, width)
    requires Eats(height, width, s)
    ensures var r := Tick(height, width, s, draws);
      !r.gameOver && r.snake[0] == NextHead(s) && r.snake[1..] == s.snake &&
      |r.snake| == |s.snake| + 1 && r.score == s.score + 1 && r.direction == s.direction &&
      r.food !in r.snake && Interior(r.food, height, width)
  {
    var r := Tick(height, width, s, draws);
    assert r.snake == [NextHead(s)] + s.snake;
  }

  /** Any other successful move keeps the length: the head is new and the
      last cell is gone; food and score stay. */
  lemma TickMoves(height: int, width: int, s: State, draws: seq<Cell>)
    requires |s.snake| >= 1 && DrawsSuffice(height, width, s, draws)
    requires !s.gameOver && !HitsWall(NextHead(s), height, width)
    requires NextHead(s) !in s.snake && NextHead(s) != s.food
    ensures var r := Tick(height, width, s, draws);
      !r.gameOver && r.snake[0] == NextHead(s) && r.snake[1..] == s.snake[..|s.snake| - 1] &&
      |r.snake| == |s.snake| && r.score == s.score && r.food == s.food && r.direction == s.direction
  {
    var r := Tick(height, width, s, draws);
    assert r.snake == [NextHead(s)] + s.snake[..|s.snake| - 1];
  }

  /** Every tick keeps the game invariant, whatever the direction. */
  lemma TickKeepsInv(height: int, width: int, s: State, draws: seq<Cell>)
    requires |s.snake| >= 1 && DrawsSuffice(height, width, s, draws)
    requires AllInterior(draws, height, width)
    requires Inv(height, width, s)
    ensures Inv(height, width, Tick(height, width, s, draws))
  {
    if !s.gameOver {
      var head := NextHead(s);
      if !HitsWall(head, height, width) && head !in s.snake {
        WallIsNotInterior(head, height, width);
        PrependKeeps(head, s.snake, height, width);
        if head == s.food {
          TickEats(height, width, s, draws);
        } else {
          DropLastKeeps(s.snake, height, width);
          PrependKeeps(head, s.snake[..|s.snake| - 1], height, width);
        }
      }
    }
  }

  /** A one-cell snake on row 10 of the default 40 x 20 board, moving
      right, with the food at (5, 5). */
  function RowTen(col: int): State {
    State([Cell(10, col)], Right, Cell(5, 5), 0, false)
  }

  /** On the default board, five ticks from the start with the food out of
      the way move the head from (10, 20) to (10, 25), one column a tick,
      and change neither length nor score. */
  lemma FiveTicksRight()
    ensures State([StartCell(20, 40)], Right, Cell(5, 5), 0, false) == RowTen(20)
    ensures forall col :: 20 <= col < 25 ==>
      DrawsSuffice(20, 40, RowTen(col), []) && Tick(20, 40, RowTen(col), []) == RowTen(col + 1)
  {
    forall col | 20 <= col < 25
      ensures DrawsSuffice(20, 40, RowTen(col), []) && Tick(20, 40, RowTen(col), []) == RowTen(col + 1)
    {
      var s := RowTen(col);
      assert NextHead(s) == Cell(10, col + 1);
      assert [Cell(10, col + 1)] + s.snake[..0] == [Cell(10, col + 1)];
    }
  }

  /** `change_direction`: an exact reversal of the current direction is
      ignored; any other request takes effect at once. */
  function Steer(current: Vec, requested: Vec): (r: Vec)
    ensures IsReversal(requested, current) ==> r == current
    ensures !IsReversal(requested, current) ==> r == requested
    ensures IsUnit(current) ==> !IsReversal(r, current)
  {
    if IsReversal(requested, current) then current else requested
  }

  /** The `direction_map` of `run_game`: W, S, A, D to up, down, left, right. */
  const DirectionMap: map<char, Vec> := map['W' := Up, 'S' := Down, 'A' := Left, 'D' := Right]

  /** The quit key of `run_game`. */
  const QuitKey := 'Q'

  /** The direction change one polled key causes: mapped keys go through
      `Steer`, everything else (and no key) leaves the state alone. */
  function AfterKey(s: State, key: Option<char>): State {
    if key.Some? && key.value in DirectionMap then s.(direction := Steer(s.direction, DirectionMap[key.value]))
    else s
  }

  /** A polled key keeps the direction a unit vector and changes nothing
      but the direction. */
  lemma AfterKeyKeepsUnit(s: State, key: Option<char>)
    requires IsUnit(s.direction)
    ensures IsUnit(AfterKey(s, key).direction)
    ensures AfterKey(s, key).(direction := s.direction) == s
  {
  }

  /** No polled key reverses a unit direction. */
  lemma AfterKeyNeverReverses(s: State, key: Option<char>)
    requires IsUnit(s.direction)
    ensures !IsReversal(AfterKey(s, key).direction, s.direction)
  {
  }

  /** The glyph of a border cell, with the corners drawn after the edges
      and the side columns after the top and bottom rows. */
  function FrameGlyph(height: int, width: int, r: int, c: int): char {
    if r == 0 && c == 0 then '┌'
    else if r == 0 && c == width - 1 then '┐'
    else if r == height - 1 && c == 0 then '└'
    else if r == height - 1 && c == width - 1 then '┘'
    else if c == 0 || c == width - 1 then '│'
    else if r == 0 || r == height - 1 then '─'
    else ' '
  }

  /** What `render` puts in cell (r, c): food drawn last, then the head,
      then the body, over the frame. */
  function Glyph(height: int, width: int, s: State, r: int, c: int): char
    requires |s.snake| >= 1
  {
    if Cell(r, c) == s.food then '★'
    else if Cell(r, c) == s.snake[0] then '●'
    else if Cell(r, c) in s.snake then '○'
    else FrameGlyph(height, width, r, c)
  }

  /** On a state that keeps the invariant the board shows exactly the
      state: an intact frame, one head, the body, the food, blanks elsewhere. */
  lemma BoardShowsState(height: int, width: int, s: State, r: int, c: int)
    requires height >= 3 && width >= 3 && Inv(height, width, s)
    requires 0 <= r < height && 0 <= c < width
    ensures !Interior(Cell(r, c), height, width) ==>
      Glyph(height, width, s, r, c) == FrameGlyph(height, width, r, c) &&
      Glyph(height, width, s, r, c) in {'┌', '┐', '└', '┘', '│', '─'}
    ensures Glyph(height, width, s, r, c) == '●' <==> Cell(r, c) == s.snake[0]
    ensures Glyph(height, width, s, r, c) == '○' <==> Cell(r, c) in s.snake[1..]
    ensures Glyph(height, width, s, r, c) == '★' <==> Cell(r, c) == s.food
    ensures Glyph(height, width, s, r, c) == ' ' <==>
      Interior(Cell(r, c), height, width) && Cell(r, c) != s.food && Cell(r, c) !in s.snake
  {
    var x := Cell(r, c);
    if x in s.snake {
      var i :| 0 <= i < |s.snake| && s.snake[i] == x;
      assert Interior(x, height, width);
      if i > 0 {
        assert x != s.snake[0];
        assert x == s.snake[1..][i - 1];
      }
    }
    if x in s.snake[1..] {
      var i :| 0 <= i < |s.snake[1..]| && s.snake[1..][i] == x;
      assert x == s.snake[i + 1];
    }
  }

  /** The border part of `render`: top and bottom rows, then the side
      columns, then the four corners, over a board of blanks. */
  method DrawFrame(board: array2<char>)
    requires board.Length0 >= 3 && board.Length1 >= 3
    requires forall r, c :: 0 <= r < board.Length0 && 0 <= c < board.Length1 ==> board[r, c] == ' '
    modifies board
    ensures forall r, c :: 0 <= r < board.Length0 && 0 <= c < board.Length1 ==>
      board[r, c] == FrameGlyph(board.Length0, board.Length1, r, c)
  {
    var height, width := board.Length0, board.Length1;
    for i := 0 to width
      invariant forall r, c :: 0 <= r < height && 0 <= c < width ==>
        board[r, c] == (if (r == 0 || r == height - 1) && c < i then '─' else ' ')
    {
      board[0, i] := '─';
      board[height - 1, i] := '─';
    }
    for i := 0 to height
      invariant forall r, c :: 0 <= r < height && 0 <= c < width ==>
        board[r, c] == (if (c == 0 || c == width - 1) && r < i then '│'
                        else if r == 0 || r == height - 1 then '─' else ' ')
    {
      board[i, 0] := '│';
      board[i, width - 1] := '│';
    }
    board[0, 0] := '┌';
    board[0, width - 1] := '┐';
    board[height - 1, 0] := '└';
    board[height - 1, width - 1] := '┘';
  }

  /** The game object. Board size is fixed at construction. */
  class Game {
    const width: int
    const height: int
    var snake: seq<Cell>
    var direction: Vec
    var food: Cell
    var score: nat
    var gameOver: bool

    function Abs(): State
      reads this
    {
      State(snake, direction, food, score, gameOver)
    }

    /** What every method relies on: a board with an interior and a snake with a head. */
    ghost predicate Valid()
      reads this
    {
      height >= 3 && width >= 3 && |snake| >= 1
    }

    ghost predicate GameInv()
      reads this
    {
      Valid() && Inv(height, width, Abs())
    }

    /** `__init__`: a one-cell snake in the middle moving right, food from
        the draws, score 0. */
    constructor (width: int, height: int, draws: seq<Cell>)
      requires width >= 3 && height >= 3
      requires AllInterior(draws, height, width)
      requires HasFreeDraw(draws, [StartCell(height, width)])
      ensures this.width == width && this.height == height
      ensures snake == [StartCell(height, width)] && direction == Right
      ensures food == FirstFree(draws, snake) && score == 0 && !gameOver
      ensures GameInv()
    {
      this.width := width;
      this.height := height;
      var start := [StartCell(height, width)];
      StartCellInterior(height, width);
      var first := Sample(height, width, start, draws);
      snake := start;
      direction := Right;
      food := first;
      score := 0;
      gameOver := false;
    }

    /** `update`: one tick. */
    method Update(draws: seq<Cell>)
      requires Valid() && AllInterior(draws, height, width)
      requires DrawsSuffice(height, width, Abs(), draws)
      modifies this
      ensures Valid()
      ensures Abs() == Tick(height, width, old(Abs()), draws)
      ensures old(GameInv()) ==> GameInv()
    {
      ghost var before := Abs();
      if gameOver {
        return;
      }
      var head := snake[0];
      var newHead := Cell(head.row + direction.dr, head.col + direction.dc);
      if newHead.row <= 0 || newHead.row >= height - 1 || newHead.col <= 0 || newHead.col >= width - 1 {
        gameOver := true;
        return;
      }
      if newHead in snake {
        gameOver := true;
        return;
      }
      snake := [newHead] + snake;
      if newHead == food {
        score := score + 1;
        food := Sample(height, width, snake, draws);
      } else {
        snake := snake[..|snake| - 1];
      }
      if Inv(height, width, before) {
        TickKeepsInv(height, width, before, draws);
      }
    }

    /** `change_direction`. */
    method ChangeDirection(newDirection: Vec)
      modifies this`direction
      ensures direction == Steer(old(direction), newDirection)
    {
      if newDirection.dr + direction.dr == 0 && newDirection.dc + direction.dc == 0 {
        return;
      }
      direction := newDirection;
    }

    /** One pass of the `run_game` loop: the quit key stops before any
        update; a mapped key may change direction; then one tick. */
    method Turn(key: Option<char>, draws: seq<Cell>) returns (quit: bool)
      requires Valid() && AllInterior(draws, height, width)
      requires key != Some(QuitKey) ==> DrawsSuffice(height, width, AfterKey(Abs(), key), draws)
      modifies this
      ensures Valid()
      ensures quit == (key == Some(QuitKey))
      ensures quit ==> Abs() == old(Abs())
      ensures !quit ==> Abs() == Tick(height, width, AfterKey(old(Abs()), key), draws)
      ensures old(GameInv()) ==> GameInv()
    {
      if key == Some(QuitKey) {
        return true;
      }
      if key.Some? && key.value in DirectionMap {
        ChangeDirection(DirectionMap[key.value]);
      }
      Update(draws);
      quit := false;
    }

    /** The board-building part of `render`: a height x width grid of
        blanks, the frame, the snake (head first), then the food. */
    method Render() returns (board: array2<char>)
      requires GameInv()
      ensures fresh(board) && board.Length0 == height && board.Length1 == width
      ensures forall r, c :: 0 <= r < height && 0 <= c < width ==>
        board[r, c] == Glyph(height, width, Abs(), r, c)
    {
      board := new char[height, width]((r, c) => ' ');
      DrawFrame(board);
      for i := 0 to |snake|
        invariant forall r, c :: 0 <= r < height && 0 <= c < width ==>
          board[r, c] == (if i > 0 && Cell(r, c) == snake[0] then '●'
                          else if Cell(r, c) in snake[..i] then '○'
                          else FrameGlyph(height, width, r, c))
      {
        var segment := snake[i];
        assert Interior(segment, height, width);
        if i == 0 {
          board[segment.row, segment.col] := '●';
        } else {
          board[segment.row, segment.col] := '○';
        }
        assert snake[..i + 1] == snake[..i] + [segment];
      }
      assert snake[..|snake|] == snake;
      board[food.row, food.col] := '★';
    }
  }
}
