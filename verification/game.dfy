/**
  The game state and the three per-step operations of the snake game: moving the snake
  (script.js:219-229), the collision verdict (script.js:231-243) and the high-score update
  (script.js:245-251).
 */
module Game {
  import opened Wrappers
  import opened Grid
  import opened Input
  import Food

  /** The module-level variables of the game that the loop reads and writes. */
  datatype GameState = GameState(
    snake: seq<Cell>,   // head at index 0
    food: Cell,
    heading: Heading,   // (dx, dy)
    score: nat,
    highScore: nat,
    gameOver: bool,
    moveCounter: nat,
    moveThreshold: int,
    accelerating: bool)

  /** The cell one step from `c` along `h`. */
  function Advance(c: Cell, h: Heading): Cell {
    (c.0 + h.0, c.1 + h.1)
  }

  /** The cell the head enters on the next move. */
  function NextHead(s: GameState): Cell
    requires |s.snake| > 0
  {
    Advance(s.snake[0], s.heading)
  }

  /** The next move lands the head on the food. */
  predicate Eats(s: GameState)
    requires |s.snake| > 0
  {
    NextHead(s) == s.food
  }

  /**
    moveSnake: the new head is pushed on the front; on the food the score grows by one and new
    food is placed off the lengthened snake, otherwise the tail is dropped. None only when the
    supplied draws all land on the snake.
   */
  function MoveSnake(b: Board, s: GameState, draws: seq<Draw>): (r: Option<GameState>)
    requires |s.snake| > 0
    requires AllValid(draws)
    ensures r.Some? ==> |r.value.snake| == |s.snake| + (if Eats(s) then 1 else 0)
    ensures r.Some? ==> r.value.snake[0] == Advance(s.snake[0], s.heading)
    ensures r.Some? ==> forall i :: 1 <= i < |r.value.snake| ==> r.value.snake[i] == s.snake[i - 1]
    ensures r.Some? ==> r.value.score == s.score + (if Eats(s) then 1 else 0)
    ensures r.Some? && !Eats(s) ==> r.value.food == s.food
    ensures r.Some? && Eats(s) ==> r.value.food !in r.value.snake
    ensures r.Some? && Eats(s) && b.cols > 0 && b.rows > 0 ==> InBoard(b, r.value.food)
    ensures r.Some? ==> r.value == s.(snake := r.value.snake, food := r.value.food, score := r.value.score)
    ensures r.None? <==> Eats(s) && Food.CreateFood(b, [NextHead(s)] + s.snake, draws).None?
  {
    var head := NextHead(s);
    var grown := [head] + s.snake;
    if head == s.food then
      match Food.CreateFood(b, grown, draws)
      case None => None
      case Some(f) => Some(s.(snake := grown, score := s.score + 1, food := f))
    else
      Some(s.(snake := grown[..|grown| - 1]))
  }

  /** The food an eating move places is the cell createFood picks on the lengthened snake from the same draws. */
  lemma MoveSnakeFood(b: Board, s: GameState, draws: seq<Draw>)
    requires |s.snake| > 0 && AllValid(draws) && Eats(s)
    requires MoveSnake(b, s, draws).Some?
    ensures Food.CreateFood(b, [NextHead(s)] + s.snake, draws) == Some(MoveSnake(b, s, draws).value.food)
  {
  }

  /** The scan of the body from index i on: does some segment at index i or later equal `head`? */
  function HitsFrom(snake: seq<Cell>, head: Cell, i: nat): (hit: bool)
    requires i <= |snake|
    ensures hit <==> exists j :: i <= j < |snake| && snake[j] == head
    decreases |snake| - i
  {
    if i == |snake| then false
    else if snake[i] == head then true
    else HitsFrom(snake, head, i + 1)
  }

  /**
    checkCollision: the game is over once the head leaves [0, tileCount) on either axis or meets
    a segment at index 1 or later; the check never clears gameOver and touches nothing else.
   */
  function CheckCollision(b: Board, s: GameState): (r: GameState)
    requires |s.snake| > 0
    ensures r.gameOver <==> s.gameOver || !InTiles(b, s.snake[0]) || s.snake[0] in s.snake[1..]
    ensures r == s.(gameOver := r.gameOver)
  {
    var head := s.snake[0];
    var outside := head.0 < 0 || head.0 >= b.cols || head.1 < 0 || head.1 >= b.cols;
    if outside || HitsFrom(s.snake, head, 1) then s.(gameOver := true) else s
  }

  /** updateScore: the high score becomes the larger of itself and the score; nothing else changes. */
  function UpdateScore(s: GameState): (r: GameState)
    ensures r.highScore >= s.highScore && r.highScore >= s.score
    ensures r.highScore == s.highScore || r.highScore == s.score
    ensures r == s.(highScore := r.highScore)
  {
    if s.score > s.highScore then s.(highScore := s.score) else s
  }

  /** No cell appears twice in the snake. */
  predicate Distinct(snake: seq<Cell>) {
    forall i, j :: 0 <= i < j < |snake| ==> snake[i] != snake[j]
  }

  /**
    The tail is dropped before the collision check, so a head entering the cell the tail has just
    left does not end the game.
   */
  lemma EnteringVacatedTailIsSafe(b: Board, s: GameState, draws: seq<Draw>)
    requires |s.snake| > 0 && Distinct(s.snake)
    requires AllValid(draws)
    requires NextHead(s) == s.snake[|s.snake| - 1] && !Eats(s)
    requires InTiles(b, NextHead(s))
    ensures MoveSnake(b, s, draws).Some?
    ensures CheckCollision(b, MoveSnake(b, s, draws).value).gameOver == s.gameOver
  {
  }
}
