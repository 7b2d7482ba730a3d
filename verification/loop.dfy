/**
  The frame loop and lifecycle of the snake game: one gameLoop frame (script.js:119-135), the
  difficulty threshold (script.js:63-70), game start (script.js:88-117) and the acceleration
  key handlers (script.js:72-86). One call of Frame is one requestAnimationFrame callback.
 */
module Loop {
  import opened Wrappers
  import opened Grid
  import opened Input
  import opened Game
  import Food

  /**
    The move test of a frame: counter >= threshold, or counter >= threshold / 2 while accelerating,
    where the division is the exact (real) one of JavaScript numbers.
   */
  function MoveDue(counter: int, threshold: int, accelerating: bool): (due: bool)
    ensures due <==> counter as real >= (if accelerating then threshold as real / 2.0 else threshold as real)
    ensures due <==> counter >= Period(threshold, accelerating)
  {
    if accelerating then 2 * counter >= threshold else counter >= threshold
  }

  /** The frames per move: the threshold, or half of it rounded up while accelerating. */
  function Period(threshold: int, accelerating: bool): int {
    if accelerating then (threshold + 1) / 2 else threshold
  }

  /** A lower threshold moves no later, and acceleration never delays a move when the threshold is not negative. */
  lemma MoveDueMonotone(counter: int, t1: int, t2: int, accelerating: bool)
    requires t1 <= t2
    ensures MoveDue(counter, t2, accelerating) ==> MoveDue(counter, t1, accelerating)
    ensures t1 >= 0 && MoveDue(counter, t1, false) ==> MoveDue(counter, t1, true)
  {
  }

  /** setDifficulty: the frames per move become 7 - difficulty; nothing else in the state changes. */
  function SetDifficulty(s: GameState, difficulty: int): (r: GameState)
    ensures r.moveThreshold + difficulty == 7
    ensures r == s.(moveThreshold := r.moveThreshold)
  {
    s.(moveThreshold := 7 - difficulty)
  }

  /** The three selectable levels give 6, 5 and 4 frames per move, and a harder level moves no later. */
  lemma DifficultyLevels(s: GameState, counter: int, accelerating: bool)
    ensures SetDifficulty(s, 1).moveThreshold == 6
    ensures SetDifficulty(s, 2).moveThreshold == 5
    ensures SetDifficulty(s, 3).moveThreshold == 4
    ensures forall d1, d2 :: d1 <= d2 && MoveDue(counter, SetDifficulty(s, d1).moveThreshold, accelerating)
              ==> MoveDue(counter, SetDifficulty(s, d2).moveThreshold, accelerating)
  {
    forall d1, d2 | d1 <= d2 && MoveDue(counter, SetDifficulty(s, d1).moveThreshold, accelerating)
      ensures MoveDue(counter, SetDifficulty(s, d2).moveThreshold, accelerating)
    {
      MoveDueMonotone(counter, 7 - d2, 7 - d1, accelerating);
    }
  }

  /** startAcceleration: a w/a/s/d key press sets the flag; any other key leaves the state alone. */
  function StartAcceleration(s: GameState, k: Key): (r: GameState)
    ensures r.accelerating <==> s.accelerating || IsAccelerationKey(k)
    ensures r == s.(accelerating := r.accelerating)
  {
    if IsAccelerationKey(k) then s.(accelerating := true) else s
  }

  /** stopAcceleration: a w/a/s/d key release clears the flag; any other key leaves the state alone. */
  function StopAcceleration(s: GameState, k: Key): (r: GameState)
    ensures r.accelerating <==> s.accelerating && !IsAccelerationKey(k)
    ensures r == s.(accelerating := r.accelerating)
  {
    if IsAccelerationKey(k) then s.(accelerating := false) else s
  }

  /**
    Releasing a w/a/s/d key clears the flag its press set; the arrow keys and every other key
    neither set nor clear it.
   */
  lemma AccelerationKeys(s: GameState, k: Key)
    ensures IsAccelerationKey(k) ==>
              StartAcceleration(s, k).accelerating && !StopAcceleration(StartAcceleration(s, k), k).accelerating
    ensures !IsAccelerationKey(k) ==> StartAcceleration(s, k) == s && StopAcceleration(s, k) == s
  {
  }

  /** A key press runs changeDirection and then startAcceleration, in the order they are registered. */
  function KeyDown(s: GameState, k: Key): (r: GameState)
    ensures r.heading == ChangeDirection(k, s.heading)
    ensures r.heading == s.heading || (IsUnit(r.heading) && r.heading != Negate(s.heading))
    ensures r.accelerating <==> s.accelerating || IsAccelerationKey(k)
    ensures r == s.(heading := r.heading, accelerating := r.accelerating)
  {
    StartAcceleration(s.(heading := ChangeDirection(k, s.heading)), k)
  }

  /**
    gameLoop: a frame of a finished game does nothing; otherwise the counter is incremented, the
    snake moves and the counter resets when the move test passes, and the collision check and the
    high-score update follow. None only when a move eats and the draws all land on the snake.
   */
  function Frame(b: Board, s: GameState, draws: seq<Draw>): (r: Option<GameState>)
    requires |s.snake| > 0
    requires AllValid(draws)
    ensures s.gameOver ==> r == Some(s)
    ensures r.Some? ==> |r.value.snake| > 0
    ensures !s.gameOver && !MoveDue(s.moveCounter + 1, s.moveThreshold, s.accelerating) ==>
              r.Some? && r.value.snake == s.snake && r.value.food == s.food && r.value.score == s.score
              && r.value.moveCounter == s.moveCounter + 1
    ensures !s.gameOver && MoveDue(s.moveCounter + 1, s.moveThreshold, s.accelerating) && r.Some? ==>
              && r.value.moveCounter == 0
              && r.value.snake[0] == NextHead(s)
              && |r.value.snake| == |s.snake| + (if Eats(s) then 1 else 0)
              && r.value.score == s.score + (if Eats(s) then 1 else 0)
              && r.value.snake[1..] == (if Eats(s) then s.snake else s.snake[..|s.snake| - 1])
              && (!Eats(s) ==> r.value.food == s.food)
              && (Eats(s) ==> r.value.food !in r.value.snake)
    ensures r.None? ==> !s.gameOver && MoveDue(s.moveCounter + 1, s.moveThreshold, s.accelerating) && Eats(s)
    ensures r.Some? && !s.gameOver ==>
              (r.value.gameOver <==> !InTiles(b, r.value.snake[0]) || r.value.snake[0] in r.value.snake[1..])
    ensures r.Some? ==> r.value.highScore >= s.highScore
    ensures r.Some? && !s.gameOver ==> r.value.highScore >= r.value.score
    ensures r.Some? && !s.gameOver ==>
              r.value.highScore == (if r.value.score > s.highScore then r.value.score else s.highScore)
    ensures r.Some? ==>
              && r.value.heading == s.heading
              && r.value.accelerating == s.accelerating
              && r.value.moveThreshold == s.moveThreshold
  {
    if s.gameOver then Some(s)
    else
      var counted := s.(moveCounter := s.moveCounter + 1);
      if MoveDue(counted.moveCounter, counted.moveThreshold, counted.accelerating) then
        match MoveSnake(b, counted.(moveCounter := 0), draws)
        case None => None
        case Some(moved) => Some(UpdateScore(CheckCollision(b, moved)))
      else
        Some(UpdateScore(CheckCollision(b, counted)))
  }

  /** Once the game is over, any run of later frames leaves the whole state unchanged. */
  lemma {:induction false} OverIsFinal(b: Board, s: GameState, frames: seq<seq<Draw>>)
    requires |s.snake| > 0 && s.gameOver
    requires AllFramesValid(frames)
    ensures Frames(b, s, frames) == Some(s)
    decreases |frames|
  {
    if |frames| > 0 {
      OverIsFinal(b, s, frames[1..]);
    }
  }

  /** The snake startGame lays out: three cells in a row at a quarter of the width, head rightmost. */
  function InitialSnake(b: Board): seq<Cell> {
    [(b.cols / 4, b.rows / 2), (b.cols / 4 - 1, b.rows / 2), (b.cols / 4 - 2, b.rows / 2)]
  }

  /**
    startGame: a fresh snake heading right, food off the snake, score, counter and flags reset,
    the threshold taken from the difficulty, the high score carried over.
   */
  function StartGame(b: Board, highScore: nat, difficulty: int, draws: seq<Draw>): (r: Option<GameState>)
    requires AllValid(draws)
    ensures r.Some? ==>
              && |r.value.snake| == 3
              && r.value.snake[0] == (b.cols / 4, b.rows / 2)
              && r.value.snake[0] == Advance(r.value.snake[1], r.value.heading)
              && r.value.snake[1] == Advance(r.value.snake[2], r.value.heading)
              && r.value.heading == (1, 0)
              && r.value.score == 0 && r.value.moveCounter == 0
              && !r.value.accelerating && !r.value.gameOver
              && r.value.moveThreshold == 7 - difficulty
              && r.value.highScore == highScore
              && r.value.food !in r.value.snake
    ensures r.Some? ==> r.value.snake == InitialSnake(b) && Food.CreateFood(b, InitialSnake(b), draws) == Some(r.value.food)
    ensures r.None? <==> forall i :: 0 <= i < |draws| ==> SampleCell(b, draws[i]) in InitialSnake(b)
  {
    var snake := InitialSnake(b);
    match Food.CreateFood(b, snake, draws)
    case None => None
    case Some(f) =>
      Some(SetDifficulty(GameState(snake, f, (1, 0), 0, highScore, false, 0, 5, false), difficulty))
  }

  /** What every reachable state satisfies; a running snake also lies inside the collision bounds and never overlaps itself. */
  predicate Invariant(b: Board, s: GameState) {
    && |s.snake| > 0
    && s.food !in s.snake
    && InBoard(b, s.food)
    && ValidHeading(s.heading)
    && s.highScore >= s.score
    && (!s.gameOver ==> Distinct(s.snake) && forall i :: 0 <= i < |s.snake| ==> InTiles(b, s.snake[i]))
  }

  /** On a board at least eight columns wide, and wider than half its height, a new game starts in a state satisfying the invariant. */
  lemma StartGameEstablishesInvariant(b: Board, highScore: nat, difficulty: int, draws: seq<Draw>)
    requires AllValid(draws)
    requires b.cols >= 8 && b.rows >= 1 && b.rows / 2 < b.cols
    ensures StartGame(b, highScore, difficulty, draws).Some? ==>
              && Invariant(b, StartGame(b, highScore, difficulty, draws).value)
              && InTiles(b, NextHead(StartGame(b, highScore, difficulty, draws).value))
  {
    var r := StartGame(b, highScore, difficulty, draws);
    if r.Some? {
      var f := Food.CreateFood(b, InitialSnake(b), draws);
      assert r.value.food == f.value;
    }
  }

  /** Moving without collision keeps the snake free of repeated cells. */
  lemma MoveKeepsDistinct(b: Board, s: GameState, m: GameState)
    requires |s.snake| > 0 && Distinct(s.snake)
    requires |m.snake| > 0 && |m.snake| <= |s.snake| + 1
    requires forall i :: 1 <= i < |m.snake| ==> m.snake[i] == s.snake[i - 1]
    requires m.snake[0] !in m.snake[1..]
    ensures Distinct(m.snake)
  {
    forall i, j | 0 <= i < j < |m.snake|
      ensures m.snake[i] != m.snake[j]
    {
      if i == 0 {
        assert m.snake[j] == m.snake[1..][j - 1];
      } else {
        assert m.snake[i] == s.snake[i - 1] && m.snake[j] == s.snake[j - 1];
      }
    }
  }

  /** Every frame keeps the invariant: food stays off the snake, and a running snake stays inside the collision bounds and free of repeats. */
  lemma FramePreservesInvariant(b: Board, s: GameState, draws: seq<Draw>)
    requires Invariant(b, s)
    requires AllValid(draws)
    requires Frame(b, s, draws).Some?
    ensures Invariant(b, Frame(b, s, draws).value)
  {
  }

  /**
    Re-running the collision check and the high-score update on the state a frame left behind
    changes nothing, before or after a key press; this is all the separate redraw timer does
    to the state.
   */
  lemma RecheckChangesNothing(b: Board, s: GameState, draws: seq<Draw>, k: Key)
    requires Invariant(b, s)
    requires AllValid(draws)
    requires Frame(b, s, draws).Some?
    ensures UpdateScore(CheckCollision(b, Frame(b, s, draws).value)) == Frame(b, s, draws).value
    ensures UpdateScore(CheckCollision(b, KeyDown(Frame(b, s, draws).value, k))) == KeyDown(Frame(b, s, draws).value, k)
  {
    var r := Frame(b, s, draws).value;
    if !s.gameOver {
      assert r.gameOver <==> !InTiles(b, r.snake[0]) || r.snake[0] in r.snake[1..];
    }
  }

  /** Every frame's draws are valid random results. */
  predicate AllFramesValid(frames: seq<seq<Draw>>) {
    forall k :: 0 <= k < |frames| ==> AllValid(frames[k])
  }

  /** The frames run in sequence, each with its own draws; None once a frame's draws run out. */
  function Frames(b: Board, s: GameState, frames: seq<seq<Draw>>): (r: Option<GameState>)
    requires |s.snake| > 0
    requires AllFramesValid(frames)
    ensures r.Some? ==> |r.value.snake| > 0
    decreases |frames|
  {
    if |frames| == 0 then Some(s)
    else
      match Frame(b, s, frames[0])
      case None => None
      case Some(next) => Frames(b, next, frames[1..])
  }

  /** Running one more frame after a run continues from the state that run reached. */
  lemma {:induction false} FramesThenFrame(b: Board, s: GameState, prefix: seq<seq<Draw>>, draws: seq<Draw>)
    requires |s.snake| > 0
    requires AllFramesValid(prefix)
    requires AllValid(draws)
    ensures AllFramesValid(prefix + [draws])
    ensures Frames(b, s, prefix + [draws]) ==
              match Frames(b, s, prefix)
              case None => None
              case Some(m) => Frame(b, m, draws)
    decreases |prefix|
  {
    var all := prefix + [draws];
    assert AllFramesValid(all) by {
      forall k | 0 <= k < |all|
        ensures AllValid(all[k])
      {
        if k < |prefix| {
          assert all[k] == prefix[k];
        }
      }
    }
    if |prefix| == 0 {
      assert all == [draws];
      assert all[1..] == [];
    } else {
      assert all[0] == prefix[0];
      assert all[1..] == prefix[1..] + [draws];
      match Frame(b, s, prefix[0])
      case None =>
      case Some(next) =>
        FramesThenFrame(b, next, prefix[1..], draws);
    }
  }

  /** Extending a run that reached `r` by the next frame reaches that frame's result. */
  lemma RunOneMore(b: Board, s: GameState, frames: seq<seq<Draw>>, done: nat, r: GameState)
    requires |s.snake| > 0 && |r.snake| > 0
    requires AllFramesValid(frames)
    requires done < |frames|
    requires Frames(b, s, frames[..done]) == Some(r)
    ensures Frames(b, s, frames[..done + 1]) == Frame(b, r, frames[done])
  {
    var prefix := frames[..done];
    assert prefix + [frames[done]] == frames[..done + 1];
    FramesThenFrame(b, s, prefix, frames[done]);
  }

  /**
    A running frame whose move eats fails exactly when createFood finds no free draw on the
    lengthened snake, and otherwise the food is the cell createFood picks.
   */
  lemma FrameEats(b: Board, s: GameState, draws: seq<Draw>)
    requires |s.snake| > 0 && AllValid(draws) && !s.gameOver
    requires MoveDue(s.moveCounter + 1, s.moveThreshold, s.accelerating) && Eats(s)
    ensures Frame(b, s, draws).None? <==> Food.CreateFood(b, [NextHead(s)] + s.snake, draws).None?
    ensures Frame(b, s, draws).Some? ==>
              Food.CreateFood(b, [NextHead(s)] + s.snake, draws) == Some(Frame(b, s, draws).value.food)
  {
  }

  /** A frame of a running game whose move test fails only increments the counter. */
  lemma IdleFrame(b: Board, s: GameState, draws: seq<Draw>)
    requires Invariant(b, s) && !s.gameOver
    requires AllValid(draws)
    requires !MoveDue(s.moveCounter + 1, s.moveThreshold, s.accelerating)
    ensures Frame(b, s, draws) == Some(s.(moveCounter := s.moveCounter + 1))
  {
    var counted := s.(moveCounter := s.moveCounter + 1);
    forall i | 1 <= i < |s.snake|
      ensures s.snake[i] != s.snake[0]
    {
    }
    assert s.snake[0] !in s.snake[1..];
    assert CheckCollision(b, counted) == counted;
  }

  /**
    Without key presses, a running snake moves on exactly the frame at which the counter reaches
    the period: every earlier frame leaves it in place, and that frame advances the head one step
    along the heading and resets the counter.
   */
  lemma {:induction false} MovesWhenPeriodElapses(b: Board, s: GameState, frames: seq<seq<Draw>>)
    requires Invariant(b, s) && !s.gameOver
    requires AllFramesValid(frames)
    requires s.moveCounter < Period(s.moveThreshold, s.accelerating)
    requires |frames| == Period(s.moveThreshold, s.accelerating) - s.moveCounter
    ensures Frames(b, s, frames[..|frames| - 1]) == Some(s.(moveCounter := Period(s.moveThreshold, s.accelerating) - 1))
    ensures Frames(b, s, frames).Some? ==>
              && Frames(b, s, frames).value.moveCounter == 0
              && Frames(b, s, frames).value.snake[0] == NextHead(s)
              && Frames(b, s, frames).value.score == s.score + (if Eats(s) then 1 else 0)
    decreases |frames|
  {
    var p := Period(s.moveThreshold, s.accelerating);
    if |frames| == 1 {
      assert frames[..0] == [];
      assert frames[1..] == [];
    } else {
      IdleFrame(b, s, frames[0]);
      var next := s.(moveCounter := s.moveCounter + 1);
      assert Invariant(b, next);
      MovesWhenPeriodElapses(b, next, frames[1..]);
      assert frames[..|frames| - 1][1..] == frames[1..][..|frames[1..]| - 1];
      assert frames[..|frames| - 1][0] == frames[0];
    }
  }

  /** A key press keeps the invariant: it changes only the heading and the acceleration flag. */
  lemma KeyDownPreservesInvariant(b: Board, s: GameState, k: Key)
    requires Invariant(b, s)
    ensures Invariant(b, KeyDown(s, k))
  {
    ChangeDirectionKeepsValidHeading(k, s.heading);
  }

  /**
    Runs the loop over the supplied frames, one list of draws per frame, stopping early only when
    a frame's draws run out; the invariant holds throughout, the high score never drops and a
    finished game never changes.
   */
  method Run(b: Board, s: GameState, frames: seq<seq<Draw>>) returns (r: GameState, done: nat)
    requires Invariant(b, s)
    requires AllFramesValid(frames)
    ensures done <= |frames|
    ensures Invariant(b, r)
    ensures r.highScore >= s.highScore
    ensures s.gameOver ==> r == s
    ensures done < |frames| ==> Frame(b, r, frames[done]).None?
    ensures Frames(b, s, frames[..done]) == Some(r)
  {
    r := s;
    done := 0;
    while done < |frames|
      invariant done <= |frames|
      invariant |s.snake| > 0 && Invariant(b, r)
      invariant r.highScore >= s.highScore
      invariant Frames(b, s, frames[..done]) == Some(r)
    {
      var next := Frame(b, r, frames[done]);
      if next.None? {
        break;
      }
      FramePreservesInvariant(b, r, frames[done]);
      RunOneMore(b, s, frames, done, r);
      r := next.value;
      done := done + 1;
    }
    if s.gameOver {
      OverIsFinal(b, s, frames[..done]);
    }
  }

  /** From the right-moving start of a game, eating the food at (6, 5) grows the snake forward and scores a point. */
  lemma EatScenario()
    ensures
      var s := GameState([(5, 5), (4, 5), (3, 5)], (6, 5), (1, 0), 0, 0, false, 0, 5, false);
      MoveSnake(Board(20, 20), s, [(0.5, 0.5)])
        == Some(s.(snake := [(6, 5), (5, 5), (4, 5), (3, 5)], score := 1, food := (10, 10)))
  {
    var s := GameState([(5, 5), (4, 5), (3, 5)], (6, 5), (1, 0), 0, 0, false, 0, 5, false);
    assert NextHead(s) == (6, 5);
    assert [NextHead(s)] + s.snake == [(6, 5), (5, 5), (4, 5), (3, 5)];
    assert SampleCell(Board(20, 20), (0.5, 0.5)) == (10, 10);
    assert Food.CreateFood(Board(20, 20), [(6, 5), (5, 5), (4, 5), (3, 5)], [(0.5, 0.5)]) == Some((10, 10));
  }

  /** Heading left from column 0 moves the head to column -1 and ends the game. */
  lemma LeftWallScenario()
    ensures
      var s := GameState([(0, 5), (1, 5), (2, 5)], (9, 9), (-1, 0), 0, 0, false, 0, 5, false);
      var m := MoveSnake(Board(20, 20), s, []);
      m.Some? && m.value.snake[0] == (-1, 5) && CheckCollision(Board(20, 20), m.value).gameOver
  {
  }

  /**
    Pressing w and then a before the snake moves turns a right-moving snake around, and the next
    move runs the head into its own neck.
   */
  lemma NeckReversalScenario()
    ensures
      var s := GameState([(5, 5), (4, 5), (3, 5)], (9, 9), (1, 0), 0, 0, false, 0, 5, false);
      var turned := KeyDown(KeyDown(s, KeyW), KeyA);
      var m := MoveSnake(Board(20, 20), turned, []);
      turned.heading == Negate(s.heading) && m.Some? && CheckCollision(Board(20, 20), m.value).gameOver
  {
  }
}
