/** The game object itself: the fields that the game updates in place and
    its operations, each proved against the rules of module GameRules. */
module Snake {
  import opened Grid
  import opened GameRules

  class SnakeGame {
    var snake: seq<Cell>        // the body, head first (a double-ended queue)
    var currentDirection: Direction
    var nextDirection: Direction // the buffered input, applied on the next tick
    var foodPosition: Cell
    var score: int
    var highScore: int
    var gameOver: bool
    var paused: bool

    /** The fields as one value of the rules' game type. */
    function State(): Game
      reads this
    {
      Game(snake, currentDirection, nextDirection, foodPosition, score, highScore, gameOver, paused)
    }

    predicate Valid()
      reads this
    {
      Invariant(State())
    }

    /** A new game; `savedHighScore` is the value read back from the
        high-score store (zero when there is none). */
    constructor (savedHighScore: int)
      ensures Valid()
      ensures snake == StartBody && currentDirection == Right && nextDirection == Right
      ensures score == 0 && highScore == savedHighScore && !gameOver && !paused
    {
      gameOver, paused := false, false;
      score, highScore := 0, 0;
      snake := [];
      currentDirection, nextDirection := Right, Right;
      foodPosition := Cell(0, 0);
      new;
      InitializeSnake();
      currentDirection := Right;
      nextDirection := Right;
      GenerateFood();
      highScore := savedHighScore;
    }

    /** Lays out the start body, one segment per iteration, from the board
        centre leftwards. */
    method InitializeSnake()
      modifies this`snake
      ensures snake == StartBody
    {
      snake := [];
      var startX := GridWidth / 2;
      var startY := GridHeight / 2;
      for i := 0 to 3
        invariant |snake| == i
        invariant forall k :: 0 <= k < i ==> snake[k] == Cell(startX - k, startY)
      {
        snake := snake + [Cell(startX - i, startY)];
      }
    }

    /** Puts the food on a free board cell. The game draws random cells
        until one is off the body; here any free cell may be chosen. */
    method GenerateFood()
      requires Distinct(snake) && |snake| < CellCount
      modifies this`foodPosition
      ensures FreeFor(foodPosition, snake)
    {
      FreeCellExists(snake);
      var cell :| InGrid(cell) && cell !in snake;
      foodPosition := cell;
    }

    /** Whether a cell is one of the body's segments. */
    method IsSnakePosition(position: Cell) returns (occupied: bool)
      ensures occupied <==> position in snake
    {
      for i := 0 to |snake|
        invariant position !in snake[..i]
      {
        if snake[i] == position {
          return true;
        }
      }
      return false;
    }

    /** One movement tick: the work done each time the move timer fires. */
    method Tick()
      requires Valid()
      requires EatsFood(State()) ==> |snake| + 1 < CellCount
      modifies this
      ensures Valid()
      ensures State() == Ticked(old(State()), foodPosition)
    {
      if gameOver || paused {
        return;
      }
      ghost var before := State();
      currentDirection := nextDirection;
      var newHead := Wrap(Step(snake[0], currentDirection));

      var i := 0;
      while i < |snake|
        invariant 0 <= i <= |snake|
        invariant forall k :: 0 <= k < i ==> snake[k] != newHead
      {
        if snake[i] == newHead {
          gameOver := true;
          if score > highScore {
            highScore := score;
          }
          TickKeepsInvariant(before, foodPosition);
          return;
        }
        i := i + 1;
      }

      snake := [newHead] + snake;
      if newHead == foodPosition {
        score := score + 1;
        GenerateFood();
        if score > highScore {
          highScore := score;
        }
      } else {
        snake := snake[..|snake| - 1];
      }
      TickKeepsInvariant(before, foodPosition);
    }

    /** A fresh round; the high score is kept. */
    method ResetGame()
      modifies this
      ensures Valid()
      ensures snake == StartBody && FreeFor(foodPosition, snake)
      ensures State() == Restarted(old(State()), foodPosition)
    {
      gameOver := false;
      paused := false;
      score := 0;
      InitializeSnake();
      currentDirection := Right;
      nextDirection := Right;
      GenerateFood();
    }

    /** One key press. */
    method OnKey(key: Key)
      requires Valid()
      modifies this
      ensures Valid()
      ensures old(gameOver) && key == R ==> FreeFor(foodPosition, StartBody)
      ensures State() == Keyed(old(State()), key, foodPosition)
    {
      if gameOver {
        if key == R {
          ResetGame();
        }
        return;
      }
      if key == Space {
        paused := !paused;
        return;
      }
      if !paused {
        if key == ArrowUp && currentDirection != Down {
          nextDirection := Up;
        } else if key == ArrowDown && currentDirection != Up {
          nextDirection := Down;
        } else if key == ArrowLeft && currentDirection != Right {
          nextDirection := Left;
        } else if key == ArrowRight && currentDirection != Left {
          nextDirection := Right;
        }
      }
    }
  }
}
