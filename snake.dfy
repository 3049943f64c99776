/**
 The state machine of the snake game: the tick that moves, grows or kills
 the snake, the arrow-key direction rule, the start / pause / reset / game
 over transitions, and food placement by rejection sampling.
 */
module Snake {
  import opened Grid

  /** Where the snake's single segment starts, and restarts after a reset. */
  const StartCell := Cell(10, 10)

  /** Points for one piece of food. */
  const FoodPoints := 10

  /** The keys the game listens to; every other key is `OtherKey`. */
  datatype Key = ArrowUp | ArrowDown | ArrowLeft | ArrowRight | OtherKey

  /** How a tick ends. */
  datatype Tick = HitWall | HitSelf | Crawl | Eat

  predicate IsArrow(key: Key)
  {
    key != OtherKey
  }

  /** The unit step an arrow key asks for; y grows downwards. */
  function Vector(key: Key): (int, int)
    requires IsArrow(key)
  {
    match key
    case ArrowUp => (0, -1)
    case ArrowDown => (0, 1)
    case ArrowLeft => (-1, 0)
    case ArrowRight => (1, 0)
  }

  /** `(dx, dy)` is one of the four unit steps. */
  predicate IsHeading(dx: int, dy: int)
  {
    (dx == 0 && (dy == 1 || dy == -1)) || (dy == 0 && (dx == 1 || dx == -1))
  }

  /**
   The direction after `key` is pressed while the game runs. Each arrow
   is refused only by a test on one coordinate, which for a unit heading is
   the same as refusing the exact reverse of the current heading.
   */
  function Turn(key: Key, dx: int, dy: int): (r: (int, int))
    ensures !IsArrow(key) ==> r == (dx, dy)
    ensures IsArrow(key) && IsHeading(dx, dy) ==>
      r == if Vector(key) == (-dx, -dy) then (dx, dy) else Vector(key)
    ensures IsArrow(key) && dx == 0 && dy == 0 ==> r == Vector(key)
    ensures IsHeading(dx, dy) ==> IsHeading(r.0, r.1) && r != (-dx, -dy)
  {
    match key
    case ArrowUp => if dy != 1 then (0, -1) else (dx, dy)
    case ArrowDown => if dy != -1 then (0, 1) else (dx, dy)
    case ArrowLeft => if dx != 1 then (-1, 0) else (dx, dy)
    case ArrowRight => if dx != -1 then (1, 0) else (dx, dy)
    case OtherKey => (dx, dy)
  }

  /** The cell one step from `c` in direction `(dx, dy)`. */
  function Ahead(c: Cell, dx: int, dy: int): Cell
  {
    Cell(c.x + dx, c.y + dy)
  }

  /**
   Which of the four ends a tick takes, checked in the order the game checks
   them: the wall first, then every segment (the tail included, although a
   plain move would vacate it), then the food.
   */
  function Classify(snake: seq<Cell>, food: Cell, dx: int, dy: int, n: int): (t: Tick)
    requires |snake| > 0
    ensures t == HitWall <==> !InGrid(Ahead(snake[0], dx, dy), n)
    ensures t == HitSelf <==> InGrid(Ahead(snake[0], dx, dy), n) && Ahead(snake[0], dx, dy) in snake
    ensures t == Eat <==>
      InGrid(Ahead(snake[0], dx, dy), n) && Ahead(snake[0], dx, dy) !in snake && Ahead(snake[0], dx, dy) == food
    ensures InGrid(Ahead(snake[0], dx, dy), n) && Ahead(snake[0], dx, dy) == snake[|snake| - 1] ==> t == HitSelf
  {
    var head := Ahead(snake[0], dx, dy);
    if !InGrid(head, n) then HitWall
    else if head in snake then HitSelf
    else if head == food then Eat
    else Crawl
  }

  /** The high score after a game that ended with `score`. */
  function Best(high: int, score: int): (r: int)
    ensures r >= high && r >= score
    ensures r == high || r == score
  {
    if score > high then score else high
  }

  /** A live snake: at least one segment, all on the board, none twice. */
  predicate Body(s: seq<Cell>, n: int)
  {
    |s| > 0 && Distinct(s) && AllInGrid(s, n)
  }

  /**
   A tick that neither hits the wall nor the snake leaves a live snake
   live, whether it grows (eating) or drops its tail (crawling).
   */
  lemma LiveTickKeepsBody(s: seq<Cell>, food: Cell, dx: int, dy: int, n: int)
    requires Body(s, n)
    requires Classify(s, food, dx, dy, n) in {Crawl, Eat}
    ensures Body([Ahead(s[0], dx, dy)] + s, n)
    ensures Body([Ahead(s[0], dx, dy)] + s[..|s| - 1], n)
  {
  }

  /** The arrow key whose vector is the unit heading `(dx, dy)`. */
  function KeyFor(dx: int, dy: int): (key: Key)
    requires IsHeading(dx, dy)
    ensures IsArrow(key) && Vector(key) == (dx, dy)
  {
    if dx == 1 then ArrowRight
    else if dx == -1 then ArrowLeft
    else if dy == 1 then ArrowDown
    else ArrowUp
  }

  /**
   The reversal test compares a key with the current direction, not with the
   step the snake last took. Two keys pressed between ticks, first a side
   turn and then the reverse of the old heading, are both accepted, so the
   next tick heads straight back.
   */
  lemma QuickTurnReverses(dx: int, dy: int)
    requires IsHeading(dx, dy)
    ensures
      var side := Turn(if dx == 0 then ArrowLeft else ArrowUp, dx, dy);
      Turn(KeyFor(-dx, -dy), side.0, side.1) == (-dx, -dy)
  {
  }

  /** Heading straight back runs the head into the neck: a self hit. */
  lemma BackIntoNeck(s: seq<Cell>, food: Cell, dx: int, dy: int, n: int)
    requires Body(s, n) && |s| >= 2
    requires s[1] == Ahead(s[0], dx, dy)
    ensures Classify(s, food, dx, dy, n) == HitSelf
  {
  }

  /** Some cell in the stream of random draws is not on `s`. */
  predicate SomeDrawFree(draws: seq<Cell>, s: seq<Cell>)
  {
    exists i :: 0 <= i < |draws| && draws[i] !in s
  }

  /** The index of the draw that rejection sampling keeps: the first one off `s`. */
  function FirstFree(draws: seq<Cell>, s: seq<Cell>): (k: nat)
    requires SomeDrawFree(draws, s)
    ensures k < |draws| && draws[k] !in s
    ensures forall j :: 0 <= j < k ==> draws[j] in s
  {
    if draws[0] !in s then 0
    else
      assert SomeDrawFree(draws[1..], s) by {
        var i :| 0 <= i < |draws| && draws[i] !in s;
        assert draws[1..][i - 1] == draws[i];
      }
      1 + FirstFree(draws[1..], s)
  }

  /**
   When a snake of distinct cells covers the whole board, every on-board
   draw lands on the snake, so rejection sampling never stops.
   */
  lemma {:induction false} FullGridRejectsEveryDraw(s: seq<Cell>, n: nat, draws: seq<Cell>)
    requires Distinct(s) && AllInGrid(s, n) && |s| == n * n
    requires AllInGrid(draws, n)
    ensures !SomeDrawFree(draws, s)
  {
    RoomIffFreeCell(s, n);
    if SomeDrawFree(draws, s) {
      var i :| 0 <= i < |draws| && draws[i] !in s;
      assert Free(draws[i], s, n);
    }
  }

  /**
   The game object. `tileCount` is the number of cells along each side of
   the board; `draws` arguments stand for the cells the random source
   yields, one per attempt to place food.
   */
  class SnakeGame {
    const tileCount: nat
    var snake: seq<Cell>
    var food: Cell
    var dx: int
    var dy: int
    var score: int
    var highScore: int
    var gameRunning: bool
    var gamePaused: bool

    ghost predicate Valid()
      reads this
    {
      && InGrid(StartCell, tileCount)
      && Body(snake, tileCount)
      && Free(food, snake, tileCount)
      && score == FoodPoints * (|snake| - 1)
      && (gamePaused ==> gameRunning)
      && (gameRunning ==> IsHeading(dx, dy))
      && (IsHeading(dx, dy) || (dx == 0 && dy == 0))
    }

    constructor (tileCount: nat, storedHighScore: int, draws: seq<Cell>)
      requires InGrid(StartCell, tileCount)
      requires AllInGrid(draws, tileCount) && SomeDrawFree(draws, [StartCell])
      ensures Valid()
      ensures this.tileCount == tileCount && snake == [StartCell]
      ensures food == draws[FirstFree(draws, [StartCell])]
      ensures dx == 0 && dy == 0 && score == 0 && highScore == storedHighScore
      ensures !gameRunning && !gamePaused
    {
      this.tileCount := tileCount;
      snake := [StartCell];
      dx, dy := 0, 0;
      score := 0;
      highScore := storedHighScore;
      gameRunning, gamePaused := false, false;
      new;
      GenerateFood(draws);
    }

    /** The scan over the segments: is `c` one of them? */
    method Occupies(c: Cell) returns (hit: bool)
      ensures hit <==> c in snake
    {
      var i := 0;
      while i < |snake|
        invariant 0 <= i <= |snake|
        invariant c !in snake[..i]
      {
        if snake[i] == c {
          return true;
        }
        i := i + 1;
      }
      return false;
    }

    /**
     Draws cells until one is off the snake; a draw on the snake is thrown
     away and the next one tried.
     */
    method GenerateFood(draws: seq<Cell>)
      requires SomeDrawFree(draws, snake)
      modifies this`food
      ensures food == draws[FirstFree(draws, snake)]
      decreases |draws|
    {
      food := draws[0];
      var taken := Occupies(food);
      if taken {
        GenerateFood(draws[1..]);
        return;
      }
    }

    method StartGame()
      requires Valid()
      modifies this`gameRunning, this`gamePaused, this`dx, this`dy
      ensures Valid()
      ensures old(gameRunning) ==> gamePaused == old(gamePaused) && dx == old(dx) && dy == old(dy)
      ensures gameRunning
      ensures !old(gameRunning) ==> !gamePaused && dx == 1 && dy == 0
    {
      if !gameRunning {
        gameRunning := true;
        gamePaused := false;
        dx := 1;
        dy := 0;
      }
    }

    method TogglePause()
      requires Valid()
      modifies this`gamePaused
      ensures Valid()
      ensures gamePaused == if gameRunning then !old(gamePaused) else old(gamePaused)
    {
      if gameRunning {
        gamePaused := !gamePaused;
      }
    }

    method ResetGame(draws: seq<Cell>)
      requires Valid()
      requires AllInGrid(draws, tileCount) && SomeDrawFree(draws, [StartCell])
      modifies this`snake, this`food, this`dx, this`dy, this`score, this`gameRunning, this`gamePaused
      ensures Valid()
      ensures snake == [StartCell] && dx == 0 && dy == 0 && score == 0
      ensures !gameRunning && !gamePaused
      ensures food == draws[FirstFree(draws, [StartCell])]
    {
      snake := [StartCell];
      dx := 0;
      dy := 0;
      score := 0;
      gameRunning := false;
      gamePaused := false;
      GenerateFood(draws);
    }

    method GameOver()
      requires Valid()
      modifies this`gameRunning, this`gamePaused, this`highScore
      ensures Valid()
      ensures !gameRunning && !gamePaused
      ensures highScore == Best(old(highScore), score)
    {
      gameRunning := false;
      gamePaused := false;
      if score > highScore {
        highScore := score;
      }
    }

    /**
     One tick: wall check, then self check against every segment (the tail
     included), then move the head in, and either eat or drop the tail.
     */
    method Update(draws: seq<Cell>)
      requires Valid() && gameRunning && !gamePaused
      requires AllInGrid(draws, tileCount)
      requires Classify(snake, food, dx, dy, tileCount) == Eat ==>
        SomeDrawFree(draws, [Ahead(snake[0], dx, dy)] + snake)
      modifies this`snake, this`food, this`score, this`highScore, this`gameRunning, this`gamePaused
      ensures Valid()
      ensures
        var head := Ahead(old(snake)[0], dx, dy);
        match Classify(old(snake), old(food), dx, dy, tileCount)
        case HitWall | HitSelf =>
          && snake == old(snake) && food == old(food) && score == old(score)
          && !gameRunning && !gamePaused && highScore == Best(old(highScore), score)
        case Crawl =>
          && snake == [head] + old(snake)[..|old(snake)| - 1]
          && food == old(food) && score == old(score)
          && gameRunning && !gamePaused && highScore == old(highScore)
        case Eat =>
          && snake == [head] + old(snake)
          && food == draws[FirstFree(draws, snake)] && score == old(score) + FoodPoints
          && gameRunning && !gamePaused && highScore == old(highScore)
    {
      var head := Cell(snake[0].x + dx, snake[0].y + dy);
      if head.x < 0 || head.x >= tileCount || head.y < 0 || head.y >= tileCount {
        GameOver();
        return;
      }
      var hit := Occupies(head);
      if hit {
        GameOver();
        return;
      }
      LiveTickKeepsBody(snake, food, dx, dy, tileCount);
      snake := [head] + snake;
      if head == food {
        score := score + FoodPoints;
        GenerateFood(draws);
      } else {
        snake := snake[..|snake| - 1];
      }
    }

    /**
     The keydown handler: an arrow key starts an idle game first; then, if
     the game runs and is not paused, the key steers.
     */
    method KeyDown(key: Key)
      requires Valid()
      modifies this`gameRunning, this`gamePaused, this`dx, this`dy
      ensures Valid()
      ensures gameRunning == (old(gameRunning) || IsArrow(key))
      ensures gamePaused == old(gamePaused)
      ensures (dx, dy) ==
        if !old(gameRunning) then
          (if IsArrow(key) then Turn(key, 1, 0) else (old(dx), old(dy)))
        else if old(gamePaused) then (old(dx), old(dy))
        else Turn(key, old(dx), old(dy))
    {
      if !gameRunning && IsArrow(key) {
        StartGame();
      }
      if !gameRunning || gamePaused {
        return;
      }
      var d := Turn(key, dx, dy);
      dx, dy := d.0, d.1;
    }
  }
}

/** What callers can derive from the game's contracts alone. */
module SnakeScenarios {
  import opened Grid
  import opened Snake

  method Scenarios()
  {
    // Eating: the head moves onto the food, the snake grows and scores.
    assert [Cell(11, 10)][0] !in [StartCell];
    var g := new SnakeGame(20, 50, [Cell(11, 10)]);
    assert g.food == Cell(11, 10);
    g.StartGame();
    assert Classify(g.snake, g.food, g.dx, g.dy, g.tileCount) == Eat;
    assert SomeDrawFree([Cell(3, 3)], [Cell(11, 10), Cell(10, 10)]) by {
      assert [Cell(3, 3)][0] !in [Cell(11, 10), Cell(10, 10)];
    }
    g.Update([Cell(3, 3)]);
    assert g.snake == [Cell(11, 10), Cell(10, 10)] && g.score == 10 && g.food == Cell(3, 3);

    // Left is the reverse of right and is refused; up is taken.
    g.KeyDown(ArrowLeft);
    assert g.dx == 1 && g.dy == 0;
    g.KeyDown(ArrowUp);
    assert g.dx == 0 && g.dy == -1;

    // Pausing and resuming; keys are ignored while paused.
    g.TogglePause();
    assert g.gamePaused;
    g.KeyDown(ArrowLeft);
    assert g.dx == 0 && g.dy == -1;
    g.TogglePause();
    assert !g.gamePaused && g.gameRunning;

    // Up and then Left before the next tick: both are accepted, and the
    // snake that last stepped right now heads back into its neck.
    g.KeyDown(ArrowLeft);
    assert g.dx == -1 && g.dy == 0;
    assert Classify(g.snake, g.food, g.dx, g.dy, g.tileCount) == HitSelf;

    // Game over keeps the larger of the scores as the high score.
    g.GameOver();
    assert !g.gameRunning && g.highScore == 50;

    // A second reset leaves the same fields as the first.
    assert [Cell(1, 1)][0] !in [StartCell];
    g.ResetGame([Cell(1, 1)]);
    var once := (g.snake, g.dx, g.dy, g.score, g.highScore, g.gameRunning, g.gamePaused);
    assert [Cell(2, 2)][0] !in [StartCell];
    g.ResetGame([Cell(2, 2)]);
    assert (g.snake, g.dx, g.dy, g.score, g.highScore, g.gameRunning, g.gamePaused) == once;

    // An arrow key starts an idle game; the start heading is right, so Left is refused.
    g.KeyDown(ArrowLeft);
    assert g.gameRunning && g.dx == 1 && g.dy == 0;

    // Wall: a one-cell snake in the corner heading left.
    assert Classify([Cell(0, 0)], Cell(5, 5), -1, 0, 20) == HitWall;
    // Neck: heading back into the second segment is a self hit.
    assert Classify([Cell(5, 5), Cell(4, 5)], Cell(9, 9), -1, 0, 20) == HitSelf;
  }
}
