/** The rules of the snake game as values: the game state, what one movement
    tick does to it, what a key press does to it and what a restart does.
    The food cell chosen at random by the game is a parameter here
    (`newFood`); it is used only where the game places new food. */
module GameRules {
  import opened Grid

  /** The abstract keys the game reacts to; every other key is `Other`. */
  datatype Key = ArrowUp | ArrowDown | ArrowLeft | ArrowRight | Space | R | Other

  /** Snapshot of the game: the body (head first), the direction in force and
      the buffered one, the food cell, the scores and the two flags. */
  datatype Game = Game(
    snake: seq<Cell>,
    current: Direction,
    next: Direction,
    food: Cell,
    score: int,
    highScore: int,
    gameOver: bool,
    paused: bool)

  /** Three horizontal cells from the board centre (GridWidth / 2,
      GridHeight / 2) leftwards, head first. */
  const StartBody: seq<Cell> := [Cell(15, 10), Cell(14, 10), Cell(13, 10)]

  /** What holds of every reachable game: a non-empty body of distinct
      on-board cells, food on a free on-board cell, a non-negative score,
      and a buffered direction that never reverses the current one. */
  predicate Invariant(g: Game) {
    1 <= |g.snake| && AllInGrid(g.snake) && Distinct(g.snake) &&
    InGrid(g.food) && g.food !in g.snake &&
    0 <= g.score &&
    g.next != Opposite(g.current)
  }

  /** A food cell the game may pick: on the board and off the given body. */
  predicate FreeFor(f: Cell, body: seq<Cell>) {
    InGrid(f) && f !in body
  }

  // ---------------------------------------------------------------------
  // One movement tick
  // ---------------------------------------------------------------------

  /** Ticks do nothing while the game is over or paused. */
  predicate Halted(g: Game) {
    g.gameOver || g.paused
  }

  /** Where the head goes on the next tick: one step in the buffered
      direction, then the edge correction. */
  function NextHead(g: Game): (h: Cell)
    requires 1 <= |g.snake|
    ensures InGrid(h)
    ensures InGrid(g.snake[0]) ==> h != g.snake[0] && h == Cell(Step(g.snake[0], g.next).x % GridWidth, Step(g.snake[0], g.next).y % GridHeight)
  {
    Wrap(Step(g.snake[0], g.next))
  }

  /** The next head meets the body; every segment counts, the tail too,
      although the tail would have moved away on this tick. */
  predicate HitsBody(g: Game)
    requires 1 <= |g.snake|
  {
    !Halted(g) && NextHead(g) in g.snake
  }

  predicate EatsFood(g: Game)
    requires 1 <= |g.snake|
  {
    !Halted(g) && NextHead(g) !in g.snake && NextHead(g) == g.food
  }

  /** The high score after a score has been reached. */
  function Best(score: int, highScore: int): (b: int)
    ensures b >= score && b >= highScore && (b == score || b == highScore)
  {
    if score > highScore then score else highScore
  }

  /** The state after one movement tick, `newFood` being the cell the game
      picks when the snake eats. */
  function Ticked(g: Game, newFood: Cell): (r: Game)
    requires 1 <= |g.snake|
    ensures |r.snake| == |g.snake| + (if EatsFood(g) then 1 else 0)
    ensures r.score == g.score + (if EatsFood(g) then 1 else 0)
    ensures r.highScore >= g.highScore
    ensures g.score <= g.highScore ==> r.score <= r.highScore
    ensures r.food == (if EatsFood(g) then newFood else g.food)
    ensures r.gameOver <==> g.gameOver || HitsBody(g)
    ensures HitsBody(g) || EatsFood(g) ==> r.highScore == Best(r.score, g.highScore)
    ensures !HitsBody(g) && !EatsFood(g) ==> r.highScore == g.highScore
    ensures r.paused == g.paused && r.next == g.next
  {
    if g.gameOver || g.paused then g
    else
      var head := Wrap(Step(g.snake[0], g.next));
      if head in g.snake then
        g.(current := g.next, gameOver := true, highScore := Best(g.score, g.highScore))
      else if head == g.food then
        g.(current := g.next, snake := [head] + g.snake, score := g.score + 1,
           food := newFood, highScore := Best(g.score + 1, g.highScore))
      else
        g.(current := g.next, snake := [head] + g.snake[..|g.snake| - 1])
  }

  /** While over or paused a tick changes nothing at all. */
  lemma HaltedTickIsIdle(g: Game, newFood: Cell)
    requires 1 <= |g.snake| && Halted(g)
    ensures Ticked(g, newFood) == g
  {
  }

  /** A collision ends the game and keeps body and food; the high score
      rises to the score only when the score beats it. */
  lemma CollisionEndsGame(g: Game, newFood: Cell)
    requires 1 <= |g.snake| && HitsBody(g)
    ensures var r := Ticked(g, newFood);
      r.gameOver && r.snake == g.snake && r.food == g.food && r.score == g.score &&
      r.highScore == (if g.score > g.highScore then g.score else g.highScore) &&
      r.current == g.next && r.next == g.next && r.paused == g.paused
  {
  }

  /** Moving onto the cell the tail occupies ends the game, even though the
      tail would have left it on the same tick. */
  lemma TailCellIsFatal(g: Game, newFood: Cell)
    requires 1 <= |g.snake| && !Halted(g)
    requires NextHead(g) == g.snake[|g.snake| - 1]
    ensures Ticked(g, newFood).gameOver
    ensures Ticked(g, newFood).snake == g.snake
  {
  }

  /** A tick without collision puts the corrected head in front; the rest
      of the body is kept whole when the food is eaten and loses its tail
      otherwise. */
  lemma MoveShiftsBody(g: Game, newFood: Cell)
    requires 1 <= |g.snake| && !Halted(g) && !HitsBody(g)
    ensures var r := Ticked(g, newFood);
      r.snake[0] == NextHead(g) && !r.gameOver &&
      r.current == g.next && r.next == g.next &&
      r.snake[1..] == (if EatsFood(g) then g.snake else g.snake[..|g.snake| - 1])
  {
  }

  /** Eating scores one point, grows the body by one and lifts the high
      score to the new score exactly when the new score beats it. */
  lemma EatingScores(g: Game, newFood: Cell)
    requires 1 <= |g.snake| && EatsFood(g)
    ensures var r := Ticked(g, newFood);
      r.score == g.score + 1 && |r.snake| == |g.snake| + 1 &&
      r.highScore == Best(g.score + 1, g.highScore) &&
      r.snake[|r.snake| - 1] == g.snake[|g.snake| - 1]
  {
  }

  /** Every tick keeps the invariant, provided the new food (when the snake
      eats) is free for the grown body. */
  lemma TickKeepsInvariant(g: Game, newFood: Cell)
    requires Invariant(g)
    requires EatsFood(g) ==> FreeFor(newFood, [NextHead(g)] + g.snake)
    ensures Invariant(Ticked(g, newFood))
  {
  }

  // ---------------------------------------------------------------------
  // Restart
  // ---------------------------------------------------------------------

  /** A fresh round: the start body heading right, score zero, both flags
      cleared, new food; the high score is kept. */
  function Restarted(g: Game, newFood: Cell): (r: Game)
    requires FreeFor(newFood, StartBody)
    ensures Invariant(r)
    ensures r.highScore == g.highScore && r.score == 0
  {
    Game(StartBody, Right, Right, newFood, 0, g.highScore, false, false)
  }

  // ---------------------------------------------------------------------
  // Key presses
  // ---------------------------------------------------------------------

  predicate IsArrow(k: Key) {
    k == ArrowUp || k == ArrowDown || k == ArrowLeft || k == ArrowRight
  }

  /** The direction an arrow key asks for. */
  function KeyDirection(k: Key): (d: Direction)
    requires IsArrow(k)
  {
    match k
    case ArrowUp => Up
    case ArrowDown => Down
    case ArrowLeft => Left
    case ArrowRight => Right
  }

  /** The state after one key press; `newFood` is used only by a restart. */
  function Keyed(g: Game, k: Key, newFood: Cell): (r: Game)
    requires g.gameOver && k == R ==> FreeFor(newFood, StartBody)
    ensures r.highScore == g.highScore
    ensures !(g.gameOver && k == R) ==>
      r.snake == g.snake && r.food == g.food && r.score == g.score &&
      r.current == g.current && r.gameOver == g.gameOver
    ensures r.next != g.next ==>
      (g.gameOver && k == R) || (!g.gameOver && !g.paused && IsArrow(k) && r.next != Opposite(g.current))
    ensures k != Space && !(g.gameOver && k == R) ==> r.paused == g.paused
  {
    if g.gameOver then
      (if k == R then Restarted(g, newFood) else g)
    else if k == Space then
      g.(paused := !g.paused)
    else if g.paused || !IsArrow(k) then
      g
    else if KeyDirection(k) != Opposite(g.current) then
      g.(next := KeyDirection(k))
    else
      g
  }

  /** While the game is over every key but R is ignored, and R restarts. */
  lemma GameOverHonoursOnlyRestart(g: Game, k: Key, newFood: Cell)
    requires g.gameOver
    requires k == R ==> FreeFor(newFood, StartBody)
    ensures k != R ==> Keyed(g, k, newFood) == g
    ensures k == R ==> Keyed(g, k, newFood) == Restarted(g, newFood) && !Keyed(g, k, newFood).gameOver
  {
  }

  /** Space flips the pause flag, and only that, exactly when the game is
      not over. */
  lemma SpaceTogglesPause(g: Game, newFood: Cell)
    ensures Keyed(g, Space, newFood) == if g.gameOver then g else g.(paused := !g.paused)
  {
  }

  /** An arrow key sets the buffered direction to its own when the game is
      running and the key does not reverse the current direction, and
      otherwise leaves it as it was; nothing else changes. */
  lemma ArrowBuffersDirection(g: Game, k: Key, newFood: Cell)
    requires IsArrow(k)
    ensures var r := Keyed(g, k, newFood);
      r == g.(next := r.next) &&
      r.next == (if !g.gameOver && !g.paused && KeyDirection(k) != Opposite(g.current)
                 then KeyDirection(k) else g.next)
  {
  }

  /** While the game runs, R and every key the game does not know change
      nothing. */
  lemma UnlistedKeysIgnored(g: Game, k: Key, newFood: Cell)
    requires !g.gameOver && k != Space && !IsArrow(k)
    ensures Keyed(g, k, newFood) == g
  {
  }

  /** Every key press keeps the invariant; in particular the buffered
      direction never becomes the reverse of the current one. */
  lemma KeyKeepsInvariant(g: Game, k: Key, newFood: Cell)
    requires Invariant(g)
    requires g.gameOver && k == R ==> FreeFor(newFood, StartBody)
    ensures Invariant(Keyed(g, k, newFood))
    ensures Keyed(g, k, newFood).next != Opposite(Keyed(g, k, newFood).current)
  {
  }

  // ---------------------------------------------------------------------
  // Scenarios
  // ---------------------------------------------------------------------

  /** From a restart with food at (20, 10), five ticks to the right bring the
      head onto the food: the body grows to four cells and the score is 1. */
  lemma FirstMealAfterFiveTicks(g: Game, food: Cell)
    ensures var s0 := Restarted(g, Cell(20, 10));
      var s5 := Ticked(Ticked(Ticked(Ticked(Ticked(s0, food), food), food), food), food);
      s5.snake[0] == Cell(20, 10) && |s5.snake| == 4 && s5.score == 1 && s5.food == food &&
      !s5.gameOver
  {
    var s0 := Restarted(g, Cell(20, 10));
    var s1 := Ticked(s0, food);
    assert s1.snake == [Cell(16, 10), Cell(15, 10), Cell(14, 10)];
    var s2 := Ticked(s1, food);
    assert s2.snake == [Cell(17, 10), Cell(16, 10), Cell(15, 10)];
    var s3 := Ticked(s2, food);
    assert s3.snake == [Cell(18, 10), Cell(17, 10), Cell(16, 10)];
    var s4 := Ticked(s3, food);
    assert s4.snake == [Cell(19, 10), Cell(18, 10), Cell(17, 10)];
  }

  /** A head on the left border moving left reappears in the last column and
      the game goes on. */
  lemma LeftBorderWraps(g: Game, newFood: Cell)
    requires g.snake == [Cell(0, 10), Cell(1, 10), Cell(2, 10)]
    requires g.next == Left && !Halted(g) && g.food != Cell(29, 10)
    ensures Ticked(g, newFood).snake == [Cell(29, 10), Cell(0, 10), Cell(1, 10)]
    ensures !Ticked(g, newFood).gameOver
  {
  }
}
