/**
  The Snake game of snake.js on its 20 by 20 grid: the direction keys, the timer tick that
  moves the snake one cell (ending the game on a wall or on the snake itself, growing on
  food), the food placement by rejection sampling, and the high score.

  `State` and `Step` / `KeyPressed` are the value-level specification; class `SnakeGame` holds
  the globals of snake.js as fields and its methods are proved against those functions. The
  random draws of `spawnFood` are a parameter: the sequence of cells the random generator
  would produce.
 */
module Snake {

  import opened Wrappers

  const GridCols := 20
  const GridRows := 20

  datatype Dir = Up | Down | Left | Right

  datatype Cell = Cell(x: int, y: int)

  function Opposite(d: Dir): Dir
  {
    match d
    case Up => Down
    case Down => Up
    case Left => Right
    case Right => Left
  }

  /** The cell one step from `c` in direction `d`; `y` grows downwards. */
  function Advance(c: Cell, d: Dir): Cell
  {
    match d
    case Up => c.(y := c.y - 1)
    case Down => c.(y := c.y + 1)
    case Left => c.(x := c.x - 1)
    case Right => c.(x := c.x + 1)
  }

  predicate InGrid(c: Cell)
  {
    0 <= c.x < GridCols && 0 <= c.y < GridRows
  }

  /** Cells sharing a side. */
  predicate Touching(a: Cell, b: Cell)
  {
    (a.x == b.x && (a.y == b.y + 1 || a.y + 1 == b.y)) || (a.y == b.y && (a.x == b.x + 1 || a.x + 1 == b.x))
  }

  /** Each segment touches the next one. */
  ghost predicate Connected(body: seq<Cell>)
  {
    forall i :: 0 <= i < |body| - 1 ==> Touching(body[i], body[i + 1])
  }

  /** The globals of snake.js; `body[0]` is the head. */
  datatype State = State(body: seq<Cell>, food: Cell, dir: Dir, next: Dir,
                         score: int, high: int, over: bool, speed: int)

  /**
    What holds between events: a non-empty snake of distinct connected segments inside the
    grid, food on a free cell of the grid, a queued direction that does not reverse the current
    one, an even speed of at least 50 milliseconds, a score that is a non-negative multiple of
    10, and once the game is over a high score at least the score.
   */
  ghost predicate SnakeOk(s: State)
  {
    && |s.body| >= 1
    && (forall i :: 0 <= i < |s.body| ==> InGrid(s.body[i]))
    && Distinct(s.body) && Connected(s.body)
    && InGrid(s.food) && s.food !in s.body
    && s.next != Opposite(s.dir)
    && s.speed >= 50 && s.speed % 2 == 0
    && s.score >= 0 && s.score % 10 == 0
    && (s.over ==> s.high >= s.score)
  }

  /** `snakeKeyHandler`: a direction key is queued unless it reverses the current direction; a finished game ignores keys. */
  function KeyPressed(s: State, key: Dir): State
  {
    if s.over then s
    else if s.dir != Opposite(key) then s.(next := key)
    else s
  }

  /** `gameOverSnake`: the game ends and the high score becomes the larger of it and the score. */
  function Ended(s: State): State
  {
    s.(over := true, high := if s.score > s.high then s.score else s.high)
  }

  /** Some draw is a cell off the snake. */
  ghost predicate HasFree(draws: seq<Cell>, body: seq<Cell>, from: int)
  {
    exists k :: 0 <= from <= k < |draws| && draws[k] !in body
  }

  /** `spawnFood`: the first of the draws from index `from` on that is off the snake. */
  function FirstFree(draws: seq<Cell>, body: seq<Cell>, from: int): (f: Cell)
    requires HasFree(draws, body, from)
    ensures f !in body
    ensures exists k :: from <= k < |draws| && f == draws[k] && forall m :: from <= m < k ==> draws[m] in body
    decreases |draws| - from
  {
    if draws[from] !in body then draws[from]
    else
      assert HasFree(draws, body, from + 1) by {
        var k :| 0 <= from <= k < |draws| && draws[k] !in body;
        assert k != from;
      }
      FirstFree(draws, body, from + 1)
  }

  /** The head moves onto the food: the tick will grow the snake and place new food. */
  predicate WillEat(s: State)
  {
    !s.over && |s.body| >= 1 &&
    var head := Advance(s.body[0], s.next);
    InGrid(head) && head !in s.body && head == s.food
  }

  /** The speed after one piece of food: two milliseconds less while above 50. */
  function SpeedUp(speed: int): int
  {
    if speed > 50 then speed - 2 else speed
  }

  /**
    `snakeGameLoop`: nothing once the game is over. Otherwise the queued direction becomes
    the current one and the head moves one cell; leaving the grid or meeting any segment, even
    the tail, ends the game with the snake as it was; on food the snake grows, the score
    rises by 10, new food is placed and the speed rises; otherwise the tail follows.
   */
  function Step(s: State, draws: seq<Cell>): State
    requires |s.body| >= 1
    requires WillEat(s) ==> HasFree(draws, [s.food] + s.body, 0)
  {
    if s.over then s
    else
      var t := s.(dir := s.next);
      var head := Advance(s.body[0], t.dir);
      if !InGrid(head) || head in s.body then Ended(t)
      else if head == s.food then
        t.(body := [head] + s.body, score := s.score + 10,
           food := FirstFree(draws, [head] + s.body, 0), speed := SpeedUp(s.speed))
      else t.(body := [head] + s.body[..|s.body| - 1])
  }

  /** The state `initSnake` sets up, with the stored high score and the speed left by earlier games. */
  function Initial(high: int, speed: int, draws: seq<Cell>): State
    requires HasFree(draws, InitialBody(), 0)
  {
    State(InitialBody(), FirstFree(draws, InitialBody(), 0), Right, Right, 0, high, false, speed)
  }

  function InitialBody(): seq<Cell>
  {
    [Cell(5, 10), Cell(4, 10), Cell(3, 10)]
  }

  /** A direction is never its own reverse, and reversing twice gives it back. */
  lemma OppositeFacts(d: Dir)
    ensures Opposite(d) != d && Opposite(Opposite(d)) == d
  {
  }

  /**
    A key never queues the reverse of the current direction: the queued direction is either
    the one before or the key, and then the key does not reverse the snake. The invariant is
    kept.
   */
  lemma KeyOk(s: State, key: Dir)
    requires SnakeOk(s)
    ensures var r := KeyPressed(s, key);
      && SnakeOk(r)
      && r.body == s.body && r.dir == s.dir && r.over == s.over
      && (r.next == s.next || (r.next == key && key != Opposite(s.dir) && !s.over))
  {
  }

  /** A tick keeps the invariant: the new head is a free cell of the grid next to the old head. */
  lemma StepOk(s: State, draws: seq<Cell>)
    requires SnakeOk(s)
    requires forall k :: 0 <= k < |draws| ==> InGrid(draws[k])
    requires WillEat(s) ==> HasFree(draws, [s.food] + s.body, 0)
    ensures SnakeOk(Step(s, draws))
  {
    if !s.over {
      var head := Advance(s.body[0], s.next);
      OppositeFacts(s.next);
      if InGrid(head) && head !in s.body {
        assert Touching(head, s.body[0]);
        if head == s.food {
          Grown(s.body, head);
          var f := FirstFree(draws, [head] + s.body, 0);
        } else {
          Grown(s.body, head);
          Shifted([head] + s.body);
        }
      }
    }
  }

  /** A free cell of the grid next to the head, put in front, keeps the snake good. */
  lemma Grown(body: seq<Cell>, head: Cell)
    requires |body| >= 1 && Distinct(body) && Connected(body) && (forall i :: 0 <= i < |body| ==> InGrid(body[i]))
    requires InGrid(head) && head !in body && Touching(head, body[0])
    ensures var b := [head] + body;
      Distinct(b) && Connected(b) && (forall i :: 0 <= i < |b| ==> InGrid(b[i]))
  {
    var b := [head] + body;
    forall i, j | 0 <= i < j < |b|
      ensures b[i] != b[j]
    {
      if i > 0 {
        assert b[i] == body[i - 1] && b[j] == body[j - 1];
      } else {
        assert b[j] in body;
      }
    }
    forall i | 0 <= i < |b| - 1
      ensures Touching(b[i], b[i + 1])
    {
      if i > 0 {
        assert b[i] == body[i - 1] && b[i + 1] == body[i];
      }
    }
  }

  /** Dropping the tail keeps the snake good. */
  lemma Shifted(b: seq<Cell>)
    requires |b| >= 2 && Distinct(b) && Connected(b) && (forall i :: 0 <= i < |b| ==> InGrid(b[i]))
    ensures var c := b[..|b| - 1];
      Distinct(c) && Connected(c) && (forall i :: 0 <= i < |c| ==> InGrid(c[i]))
  {
  }

  /**
    A tick that does not end the game moves the head exactly one cell in the queued direction
    and the body follows it: on food the whole old snake stays behind the head, the length and
    the score grow by one and by 10 and the speed rises; otherwise the tail is dropped and the
    length and score stay.
   */
  lemma StepMoves(s: State, draws: seq<Cell>)
    requires SnakeOk(s) && !s.over
    requires WillEat(s) ==> HasFree(draws, [s.food] + s.body, 0)
    ensures var r := Step(s, draws);
      !r.over ==>
        && r.dir == s.next
        && r.body[0] == Advance(s.body[0], s.next) && Touching(r.body[0], s.body[0])
        && (r.body[0] == s.food ==>
              r.body[1..] == s.body && |r.body| == |s.body| + 1 && r.score == s.score + 10
              && r.speed == SpeedUp(s.speed) && r.food !in r.body)
        && (r.body[0] != s.food ==>
              r.body[1..] == s.body[..|s.body| - 1] && |r.body| == |s.body|
              && r.score == s.score && r.speed == s.speed && r.food == s.food)
  {
    var r := Step(s, draws);
    if !r.over {
      var head := Advance(s.body[0], s.next);
      assert r.body[0] == head;
      assert r.body[1..] == s.body || r.body[1..] == s.body[..|s.body| - 1];
    }
  }

  /**
    A head leaving the grid or landing on any segment, even the tail, ends the game with
    the snake unchanged and the high score the larger of the old high score and the score.
   */
  lemma StepEnds(s: State, draws: seq<Cell>)
    requires |s.body| >= 1 && !s.over
    requires WillEat(s) ==> HasFree(draws, [s.food] + s.body, 0)
    ensures var head := Advance(s.body[0], s.next); var r := Step(s, draws);
      (!InGrid(head) || head in s.body) <==> r.over
    ensures var r := Step(s, draws);
      r.over ==> (r.body == s.body && r.score == s.score && r.food == s.food
                  && r.high == (if s.score > s.high then s.score else s.high))
  {
  }

  /** Once the game is over, ticks and keys change nothing. */
  lemma OverStays(s: State, draws: seq<Cell>, key: Dir)
    requires |s.body| >= 1 && s.over
    ensures Step(s, draws) == s && KeyPressed(s, key) == s
  {
  }

  /** The speed after `n` pieces of food from a start of `speed`. */
  function SpeedAfter(speed: int, n: nat): int
  {
    if n == 0 then speed else SpeedUp(SpeedAfter(speed, n - 1))
  }

  /** From the initial 150 the speed falls by 2 per piece of food and stops at 50. */
  lemma {:induction false} SpeedFloor(n: nat)
    ensures SpeedAfter(150, n) == if 150 - 2 * n > 50 then 150 - 2 * n else 50
  {
    if n > 0 {
      SpeedFloor(n - 1);
    }
  }

  /** The game starts good: three segments in a row at the left middle, heading right. */
  lemma InitialOk(high: int, speed: int, draws: seq<Cell>)
    requires speed >= 50 && speed % 2 == 0
    requires forall k :: 0 <= k < |draws| ==> InGrid(draws[k])
    requires HasFree(draws, InitialBody(), 0)
    ensures SnakeOk(Initial(high, speed, draws))
  {
    var f := FirstFree(draws, InitialBody(), 0);
  }

  /** The `for (let segment of snake)` scan: does some segment sit on cell `c`? */
  method OnBody(body: seq<Cell>, c: Cell) returns (hit: bool)
    ensures hit <==> c in body
  {
    for i := 0 to |body|
      invariant c !in body[..i]
    {
      if body[i] == c {
        return true;
      }
      assert body[..i + 1] == body[..i] + [body[i]];
    }
    assert body[..|body|] == body;
    return false;
  }

  /** The rejection loop of `spawnFood`: draws are taken in turn until one is off the snake. */
  method PickFood(draws: seq<Cell>, body: seq<Cell>) returns (food: Cell)
    requires HasFree(draws, body, 0)
    ensures food == FirstFree(draws, body, 0)
  {
    var i := 0;
    var valid := false;
    food := draws[0];
    while !valid
      invariant 0 <= i <= |draws|
      invariant !valid ==> HasFree(draws, body, i) && FirstFree(draws, body, 0) == FirstFree(draws, body, i)
      invariant valid ==> food == FirstFree(draws, body, 0)
      decreases |draws| - i, !valid
    {
      food := draws[i];
      var taken := OnBody(body, food);
      valid := !taken;
      if taken {
        SkipTaken(draws, body, i);
      }
      i := i + 1;
    }
  }

  /** A draw on the snake is skipped. */
  lemma SkipTaken(draws: seq<Cell>, body: seq<Cell>, i: int)
    requires HasFree(draws, body, i) && 0 <= i < |draws| && draws[i] in body
    ensures HasFree(draws, body, i + 1) && FirstFree(draws, body, i) == FirstFree(draws, body, i + 1)
  {
    var k :| 0 <= i <= k < |draws| && draws[k] !in body;
    assert k != i;
  }

  /** The globals of snake.js. */
  class SnakeGame {
    var snake: seq<Cell>
    var food: Cell
    var direction: Dir
    var nextDirection: Dir
    var score: int
    var highScore: int
    var gameOver: bool
    var speed: int

    ghost function View(): State
      reads this
    {
      State(snake, food, direction, nextDirection, score, highScore, gameOver, speed)
    }

    ghost predicate Valid()
      reads this
    {
      SnakeOk(View())
    }

    /** The state set up by `initSnake`: the stored high score, the speed left by earlier games, and food placed from `draws`. */
    constructor(storedHigh: int, lastSpeed: int, draws: seq<Cell>)
      requires lastSpeed >= 50 && lastSpeed % 2 == 0
      requires forall k :: 0 <= k < |draws| ==> InGrid(draws[k])
      requires HasFree(draws, InitialBody(), 0)
      ensures Valid() && View() == Initial(storedHigh, lastSpeed, draws)
    {
      var f := PickFood(draws, InitialBody());
      highScore := storedHigh;
      snake := [Cell(5, 10), Cell(4, 10), Cell(3, 10)];
      direction := Right;
      nextDirection := Right;
      score := 0;
      gameOver := false;
      speed := lastSpeed;
      food := f;
      new;
      InitialOk(storedHigh, lastSpeed, draws);
    }

    /** `snakeKeyHandler` for an arrow key. */
    method KeyPress(key: Dir)
      requires Valid()
      modifies this
      ensures Valid() && View() == KeyPressed(old(View()), key)
    {
      KeyOk(View(), key);
      if gameOver {
        return;
      }
      if direction != Opposite(key) {
        nextDirection := key;
      }
    }

    /** `gameOverSnake`. */
    method GameOver()
      modifies this
      ensures View() == Ended(old(View()))
    {
      gameOver := true;
      if score > highScore {
        highScore := score;
      }
    }

    /** `snakeGameLoop`: one tick of the timer, with `draws` the cells `spawnFood` would draw. */
    method Tick(draws: seq<Cell>)
      requires Valid()
      requires forall k :: 0 <= k < |draws| ==> InGrid(draws[k])
      requires WillEat(View()) ==> HasFree(draws, [food] + snake, 0)
      modifies this
      ensures Valid() && View() == Step(old(View()), draws)
    {
      ghost var s := View();
      StepOk(s, draws);
      if !gameOver {
        direction := nextDirection;
        var head := Advance(snake[0], direction);
        if head.x < 0 || head.x >= GridCols || head.y < 0 || head.y >= GridRows {
          GameOver();
        } else {
          var hit := OnBody(snake, head);
          if hit {
            GameOver();
          } else {
            snake := [head] + snake;
            if head == food {
              score := score + 10;
              food := PickFood(draws, snake);
              if speed > 50 {
                speed := speed - 2;
              }
            } else {
              snake := snake[..|snake| - 1];
            }
          }
        }
      }
      assert View() == Step(s, draws);
    }
  }
}
