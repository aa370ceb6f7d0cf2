/** The autoplay game: the page's module-level state (snake, food,
    velocity, score, flags and timers) as one object, with the per-tick and
    lifecycle operations that update it. */
module SnakeGame {
  import opened Grid
  import opened Pathfinder

  /** Segments of a new snake. */
  const InitialLength: nat := 5

  /** The five-cell starting line along the top edge, head first. */
  function InitialSnake(): (s: seq<Cell>)
    ensures |s| == InitialLength && Contiguous(s) && Distinct(s)
    ensures s[0] == Cell(4 * UnitSize, 0) && s[|s| - 1] == Cell(0, 0)
    ensures forall c :: c in s ==> c.y == 0 && 0 <= c.x <= 4 * UnitSize
  {
    [Cell(UnitSize * 4, 0), Cell(UnitSize * 3, 0), Cell(UnitSize * 2, 0), Cell(UnitSize, 0), Cell(0, 0)]
  }

  /** A velocity moves exactly one unit along exactly one axis. */
  predicate IsUnitStep(dx: int, dy: int) {
    Adjacent(Cell(0, 0), Cell(dx, dy))
  }

  /** The head has left the board or landed on another segment. */
  predicate Collided(s: seq<Cell>, width: int, height: int)
    requires |s| > 0
  {
    !InBounds(s[0], width, height) || exists i :: 1 <= i < |s| && s[i] == s[0]
  }

  lemma InitialSnakeIsSafe(width: int, height: int)
    requires width > 4 * UnitSize && height > 0
    ensures !Collided(InitialSnake(), width, height)
  {
  }

  /** Pushing an adjacent head keeps the body a chain of unit steps, with
      or without the tail. */
  lemma AdvanceKeepsContiguous(body: seq<Cell>, head: Cell)
    requires |body| > 0 && Contiguous(body) && Adjacent(body[0], head)
    ensures Contiguous([head] + body)
    ensures Contiguous(([head] + body)[..|body|])
  {
  }

  /** A route found from the head to food lying off the body has a first
      step, and that step is on the board and off the body. */
  lemma RouteStepIsSafe(route: seq<Cell>, body: seq<Cell>, food: Cell, width: int, height: int)
    requires |body| > 0 && food !in body
    requires IsRoute(route, body[0], food, body, width, height)
    ensures |route| > 1 && InBounds(route[1], width, height) && route[1] !in body
    ensures Adjacent(body[0], route[1])
  {
  }

  /** A head pushed onto the board at a cell the body does not occupy has
      not collided, with or without the tail. */
  lemma HeadOffBodyIsSafe(body: seq<Cell>, head: Cell, width: int, height: int)
    requires |body| > 0 && InBounds(head, width, height) && head !in body
    ensures !Collided([head] + body, width, height)
    ensures !Collided(([head] + body)[..|body|], width, height)
  {
    var grown := [head] + body;
    forall i | 1 <= i < |grown| ensures grown[i] != head {
      assert grown[i] == body[i - 1];
    }
  }

  function Max(a: int, b: int): int {
    if a < b then b else a
  }

  /** A value randomFood(0, size - UnitSize) can return: the draw is
      rounded to a whole number of units, so it is a multiple of UnitSize
      from 0 to size - UnitSize. */
  predicate IsDrawnCoordinate(v: int, size: int) {
    v % UnitSize == 0 && 0 <= v <= size - UnitSize
  }

  /** A cell createFood can draw: both coordinates come from randomFood. */
  predicate IsFoodCell(c: Cell, width: int, height: int) {
    IsDrawnCoordinate(c.x, width) && IsDrawnCoordinate(c.y, height)
  }

  /** Every draw of the random source is a cell createFood can draw. */
  predicate AreFoodDraws(draws: seq<Cell>, width: int, height: int) {
    forall d :: d in draws ==> IsFoodCell(d, width, height)
  }

  /** The cells createFood can draw are on the board; on a board whose
      sides are whole numbers of cells they are exactly the board's
      cells. */
  lemma FoodCellsAreBoardCells(c: Cell, width: int, height: int)
    ensures IsFoodCell(c, width, height) ==> InBounds(c, width, height)
    ensures width % UnitSize == 0 && height % UnitSize == 0 ==>
              (IsFoodCell(c, width, height) <==> c in Lattice(Cell(0, 0), width, height))
  {
  }

  /** Some draw of the random source lands off the snake: the sampling loop
      of createFood then stops. */
  predicate HasFreeDraw(draws: seq<Cell>, snake: seq<Cell>) {
    exists i :: 0 <= i < |draws| && draws[i] !in snake
  }

  /** The position of the first draw that lands off the snake. */
  function FirstFreeIndex(draws: seq<Cell>, snake: seq<Cell>): (i: nat)
    requires HasFreeDraw(draws, snake)
    ensures i < |draws| && draws[i] !in snake
    ensures forall j :: 0 <= j < i ==> draws[j] in snake
  {
    if draws[0] !in snake then 0
    else
      assert HasFreeDraw(draws[1..], snake) by {
        var k :| 0 <= k < |draws| && draws[k] !in snake;
        assert draws[1..][k - 1] == draws[k];
      }
      1 + FirstFreeIndex(draws[1..], snake)
  }

  class Game {
    /** gameWidth and gameHeight, taken from the canvas. */
    const width: int
    const height: int
    /** Head first. */
    var snake: seq<Cell>
    /** (foodX, foodY) */
    var food: Cell
    var xVelocity: int
    var yVelocity: int
    var score: int
    var highScore: int
    var sessionScores: seq<int>
    var running: bool
    var paused: bool
    /** The repeating tick timer (setInterval(nextTick, ...)) is armed. */
    var ticking: bool
    /** The one-shot restart timer (setTimeout(resetGame, 300)) is armed. */
    var restartPending: bool

    /** The object invariant, kept by every handler and timer callback:
        one segment per food eaten beyond the starting five, the body is a
        chain of unit steps, the velocity is a unit step, the high score
        bounds this life's and every finished life's score, and the food is
        a board cell randomFood can return, off the snake. */
    ghost predicate Valid()
      reads this
    {
      && |snake| == InitialLength + score
      && 0 <= score <= highScore
      && (forall s :: s in sessionScores ==> 0 <= s <= highScore)
      && Contiguous(snake)
      && IsUnitStep(xVelocity, yVelocity)
      && food !in snake
      && IsFoodCell(food, width, height)
    }

    /** Page load: the initial values of the module-level variables, then
        gameStart(). The stored high score is read as a number. */
    constructor (width: int, height: int, storedHighScore: nat, draws: seq<Cell>)
      requires width > 0 && height > 0 && width % UnitSize == 0 && height % UnitSize == 0
      requires HasFreeDraw(draws, InitialSnake()) && AreFoodDraws(draws, width, height)
      ensures Valid()
      ensures this.width == width && this.height == height
      ensures snake == InitialSnake() && xVelocity == UnitSize && yVelocity == 0
      ensures score == 0 && highScore == storedHighScore && sessionScores == []
      ensures running && !paused && ticking && !restartPending
      ensures food == draws[FirstFreeIndex(draws, InitialSnake())]
    {
      this.width, this.height := width, height;
      running, paused := false, false;
      xVelocity, yVelocity := UnitSize, 0;
      score, highScore, sessionScores := 0, storedHighScore, [];
      snake := InitialSnake();
      food := Cell(0, 0);
      ticking, restartPending := false, false;
      new;
      GameStart(draws);
    }

    /** gameStart: mark the game running and unpaused, place food, and arm
        the tick timer. */
    method GameStart(draws: seq<Cell>)
      requires HasFreeDraw(draws, snake) && AreFoodDraws(draws, width, height)
      modifies this`running, this`paused, this`food, this`ticking
      ensures running && !paused && ticking
      ensures food == draws[FirstFreeIndex(draws, snake)] && food !in snake
    {
      running := true;
      paused := false;
      CreateFood(draws);
      ticking := true;
    }

    /** createFood: take draws of the random source in order until one is
        off the snake. */
    method CreateFood(draws: seq<Cell>)
      requires HasFreeDraw(draws, snake) && AreFoodDraws(draws, width, height)
      modifies this`food
      ensures food == draws[FirstFreeIndex(draws, snake)]
      ensures food !in snake
    {
      ghost var k := FirstFreeIndex(draws, snake);
      var valid := false;
      var i := 0;
      while !valid
        invariant i <= k + 1
        invariant valid <==> i == k + 1
        invariant valid ==> food == draws[k]
        decreases k + 1 - i
      {
        food := draws[i];
        i := i + 1;
        valid := food !in snake;
      }
    }

    /** moveSnake: steer along the search's route when it has a first
        step, else keep the old velocity; push the new head; then either eat
        (score + 1, new food) or drop the tail; then update the high score.
        The route the search returned is given back for the contract. The
        two halves are the methods Steer and Advance below. */
    method MoveSnake(draws: seq<Cell>) returns (route: seq<Cell>)
      requires Valid()
      requires HasFreeDraw(draws, [food] + snake) && AreFoodDraws(draws, width, height)
      modifies this`snake, this`food, this`xVelocity, this`yVelocity, this`score, this`highScore
      ensures Valid()
      ensures route != [] ==> IsRoute(route, old(snake)[0], old(food), old(snake), width, height)
      ensures route != [] <==> Reachable(old(snake)[0], old(food), old(snake), width, height)
      ensures |route| > 1 ==> xVelocity == route[1].x - old(snake)[0].x && yVelocity == route[1].y - old(snake)[0].y
      ensures |route| <= 1 ==> xVelocity == old(xVelocity) && yVelocity == old(yVelocity)
      ensures snake[0] == Cell(old(snake)[0].x + xVelocity, old(snake)[0].y + yVelocity)
      ensures snake[0] == old(food) ==>
                && snake == [old(food)] + old(snake) && score == old(score) + 1
                && food == draws[FirstFreeIndex(draws, snake)]
      ensures snake[0] != old(food) ==>
                && snake == [snake[0]] + old(snake)[..|old(snake)| - 1]
                && score == old(score) && food == old(food)
      ensures highScore == Max(old(highScore), score)
      // a step along a found route never hits a wall or the body
      ensures Reachable(old(snake)[0], old(food), old(snake), width, height) ==> !Collided(snake, width, height)
    {
      route := Steer();
      Advance(draws);
    }

    /** The first half of moveSnake: search for a route from the head to
        the food and, when it has a first step, steer onto that step. */
    method Steer() returns (route: seq<Cell>)
      requires Valid()
      modifies this`xVelocity, this`yVelocity
      ensures Valid()
      ensures route != [] ==> IsRoute(route, snake[0], food, snake, width, height)
      ensures route != [] <==> Reachable(snake[0], food, snake, width, height)
      ensures |route| > 1 ==> xVelocity == route[1].x - snake[0].x && yVelocity == route[1].y - snake[0].y
      ensures |route| <= 1 ==> xVelocity == old(xVelocity) && yVelocity == old(yVelocity)
      // a found route always has a first step, onto a free board cell
      ensures route != [] ==> |route| > 1 && InBounds(route[1], width, height) && route[1] !in snake
    {
      ghost var iterations;
      route, iterations := FindPath(snake[0], food, snake, width, height);
      if route != [] {
        RouteStepIsSafe(route, snake, food, width, height);
      }
      if |route| > 1 {
        var nextMove := route[1];
        xVelocity, yVelocity := nextMove.x - snake[0].x, nextMove.y - snake[0].y;
      }
    }

    /** The second half of moveSnake: push a head one velocity step ahead,
        then either eat (score + 1, new food) or drop the tail, then update
        the high score. */
    method Advance(draws: seq<Cell>)
      requires Valid()
      requires HasFreeDraw(draws, [food] + snake) && AreFoodDraws(draws, width, height)
      modifies this`snake, this`food, this`score, this`highScore
      ensures Valid()
      ensures snake[0] == Cell(old(snake)[0].x + xVelocity, old(snake)[0].y + yVelocity)
      ensures snake[0] == old(food) ==>
                && snake == [old(food)] + old(snake) && score == old(score) + 1
                && food == draws[FirstFreeIndex(draws, snake)]
      ensures snake[0] != old(food) ==>
                && snake == [snake[0]] + old(snake)[..|old(snake)| - 1]
                && score == old(score) && food == old(food)
      ensures highScore == Max(old(highScore), score)
      // a head moved onto a free board cell has not collided
      ensures InBounds(snake[0], width, height) && snake[0] !in old(snake) ==> !Collided(snake, width, height)
    {
      var head := Cell(snake[0].x + xVelocity, snake[0].y + yVelocity);
      ghost var body := snake;
      AdvanceKeepsContiguous(body, head);
      if InBounds(head, width, height) && head !in body {
        HeadOffBodyIsSafe(body, head, width, height);
      }
      snake := [head] + snake;
      if head == food {
        score := score + 1;
        CreateFood(draws);
      } else {
        snake := snake[..|snake| - 1];
      }
      assert snake[0] == head;
      UpdateHighScore();
    }

    /** updateHighScore: raise the high score to the score when it is
        higher. */
    method UpdateHighScore()
      modifies this`highScore
      ensures highScore == Max(old(highScore), score)
    {
      if score > highScore {
        highScore := score;
      }
    }

    /** checkGameOver: clear running when the head is off the board or on
        another segment; never set it. */
    method CheckGameOver()
      requires Valid()
      modifies this`running
      ensures Valid()
      ensures running == (old(running) && !Collided(snake, width, height))
    {
      var body := snake;
      var head := body[0];
      if head.x < 0 {
        running := false;
      } else if head.x >= width {
        running := false;
      } else if head.y < 0 {
        running := false;
      } else if head.y >= height {
        running := false;
      }
      for i := 1 to |body|
        invariant running == (old(running) && InBounds(head, width, height)
                              && forall j :: 1 <= j < i ==> body[j] != head)
      {
        if body[i] == head {
          running := false;
        }
      }
    }

    /** displayGameOver, less its drawing: settle on game over and arm the
        restart timer when autoplay is ticked. */
    method DisplayGameOver(autoplay: bool)
      requires Valid()
      modifies this`running, this`restartPending
      ensures Valid()
      ensures !running
      ensures restartPending == (old(restartPending) || autoplay)
    {
      running := false;
      if autoplay {
        restartPending := true;
      }
    }

    /** nextTick: while running and not paused, move and check for a
        collision; while paused, do nothing; once stopped, disarm the tick
        timer and go to game over. The route of the move, if one was made,
        is given back for the contract. */
    method Tick(autoplay: bool, draws: seq<Cell>) returns (route: seq<Cell>)
      requires Valid()
      requires HasFreeDraw(draws, [food] + snake) && AreFoodDraws(draws, width, height)
      modifies this
      ensures Valid()
      ensures running ==> old(running)
      ensures old(running) && old(paused) ==> unchanged(this)
      ensures !(old(running) && !old(paused)) ==> route == []
      // a move: the new state is the one moveSnake promises
      ensures old(running) && !old(paused) ==>
                && (route != [] ==> IsRoute(route, old(snake)[0], old(food), old(snake), width, height))
                && (route != [] <==> Reachable(old(snake)[0], old(food), old(snake), width, height))
                && (|route| > 1 ==> xVelocity == route[1].x - old(snake)[0].x
                                    && yVelocity == route[1].y - old(snake)[0].y)
                && (|route| <= 1 ==> xVelocity == old(xVelocity) && yVelocity == old(yVelocity))
                && snake[0] == Cell(old(snake)[0].x + xVelocity, old(snake)[0].y + yVelocity)
                && (snake[0] == old(food) ==>
                      && snake == [old(food)] + old(snake) && score == old(score) + 1
                      && food == draws[FirstFreeIndex(draws, snake)])
                && (snake[0] != old(food) ==>
                      && snake == [snake[0]] + old(snake)[..|old(snake)| - 1]
                      && score == old(score) && food == old(food))
      // ... followed by checkGameOver
      ensures old(running) && !old(paused) ==>
                && running == !Collided(snake, width, height)
                && highScore == Max(old(highScore), score)
                && paused == old(paused) && ticking == old(ticking)
                && restartPending == old(restartPending) && sessionScores == old(sessionScores)
      // the autopilot survives every tick on which the food is reachable
      ensures old(running) && !old(paused) && Reachable(old(snake)[0], old(food), old(snake), width, height) ==>
                running
      ensures !old(running) ==>
                && !running && !ticking && restartPending == (old(restartPending) || autoplay)
                && snake == old(snake) && food == old(food) && score == old(score)
                && xVelocity == old(xVelocity) && yVelocity == old(yVelocity)
                && highScore == old(highScore) && sessionScores == old(sessionScores)
                && paused == old(paused)
    {
      route := [];
      if running {
        if !paused {
          route := MoveSnake(draws);
          CheckGameOver();
        }
      } else {
        ticking := false;
        DisplayGameOver(autoplay);
      }
    }

    /** togglePause: flip paused; disarm the tick timer when pausing and
        re-arm it when resuming. */
    method TogglePause()
      requires Valid()
      modifies this`paused, this`ticking
      ensures Valid()
      ensures paused == !old(paused)
      ensures ticking == !paused
    {
      paused := !paused;
      if paused {
        ticking := false;
      } else {
        ticking := true;
      }
    }

    /** Pausing and resuming (or resuming and pausing) restores the pause
        flag, and the timer too whenever it matched the flag before. */
    method TogglePauseTwice()
      requires Valid()
      modifies this`paused, this`ticking
      ensures Valid()
      ensures paused == old(paused)
      ensures old(ticking) == !old(paused) ==> ticking == old(ticking)
    {
      TogglePause();
      TogglePause();
    }

    /** The bookkeeping part of updateAvgScore: record this life's score. */
    method UpdateAvgScore()
      requires Valid()
      modifies this`sessionScores
      ensures Valid()
      ensures sessionScores == old(sessionScores) + [score]
    {
      sessionScores := sessionScores + [score];
    }

    /** resetGame, run when the restart timer fires: record the finished
        life, reset score, velocity and snake, and start again. Only the
        high score and the list of finished scores carry over. */
    method ResetGame(draws: seq<Cell>)
      requires Valid()
      requires HasFreeDraw(draws, InitialSnake()) && AreFoodDraws(draws, width, height)
      modifies this`restartPending, this`sessionScores, this`score, this`xVelocity, this`yVelocity,
               this`snake, this`running, this`paused, this`food, this`ticking
      ensures Valid()
      ensures sessionScores == old(sessionScores) + [old(score)]
      ensures score == 0 && highScore == old(highScore)
      ensures snake == InitialSnake() && xVelocity == UnitSize && yVelocity == 0
      ensures running && !paused && ticking && !restartPending
      ensures food == draws[FirstFreeIndex(draws, InitialSnake())]
    {
      restartPending := false;
      UpdateAvgScore();
      score, xVelocity, yVelocity, snake := 0, UnitSize, 0, InitialSnake();
      GameStart(draws);
    }
  }
}
