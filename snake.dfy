/**
 * The Snake tick engine: the step of the interval callback (move the head,
 * test for a crash before committing, grow on food), the direction guard
 * of the key handler, and the start and restart buttons.
 */
module Snake {
  import opened Wrappers

  const GRID_SIZE: int := 20

  datatype Pos = Pos(x: int, y: int)

  datatype Direction = Up | Down | Left | Right

  /** The keys the handler looks at (after lower-casing); every other key is Other. */
  datatype Key = W | S | A | D | Other

  /** What one tick does to the body: a crash leaves it as it was. */
  datatype Outcome = Crashed | Advanced(body: seq<Pos>, ate: bool)

  predicate InBounds(p: Pos) {
    0 <= p.x < GRID_SIZE && 0 <= p.y < GRID_SIZE
  }

  function Opposite(d: Direction): Direction {
    match d
    case Up => Down
    case Down => Up
    case Left => Right
    case Right => Left
  }

  /** The head moved by one cell in direction d (y grows downwards). */
  function Shift(p: Pos, d: Direction): (q: Pos)
    ensures (q.x - p.x) * (q.x - p.x) + (q.y - p.y) * (q.y - p.y) == 1
    ensures d == Up ==> q == Pos(p.x, p.y - 1)
    ensures d == Down ==> q == Pos(p.x, p.y + 1)
    ensures d == Left ==> q == Pos(p.x - 1, p.y)
    ensures d == Right ==> q == Pos(p.x + 1, p.y)
  {
    match d
    case Up => p.(y := p.y - 1)
    case Down => p.(y := p.y + 1)
    case Left => p.(x := p.x - 1)
    case Right => p.(x := p.x + 1)
  }

  /** Moving back the opposite way undoes a move. */
  lemma ShiftOpposite(p: Pos, d: Direction)
    ensures Shift(Shift(p, d), Opposite(d)) == p
    ensures Shift(p, d) != p
  {
  }

  /** The direction a key sets: a key is ignored when it names the reverse of the current direction. */
  function Turn(d: Direction, k: Key): (nd: Direction)
    ensures nd != Opposite(d)
    ensures nd == d || k != Other
  {
    match k
    case W => if d != Down then Up else d
    case S => if d != Up then Down else d
    case A => if d != Right then Left else d
    case D => if d != Left then Right else d
    case Other => d
  }

  /** The key naming each direction. */
  function KeyFor(d: Direction): Key {
    match d
    case Up => W
    case Down => S
    case Left => A
    case Right => D
  }

  /** A key obeys the guard: it sets its direction unless that is the reverse of the current one. */
  lemma TurnKey(d: Direction, nd: Direction)
    ensures Turn(d, KeyFor(nd)) == if nd == Opposite(d) then d else nd
  {
  }

  /** Pairwise distinct segments. */
  ghost predicate Distinct(s: seq<Pos>) {
    forall i, j :: 0 <= i < j < |s| ==> s[i] != s[j]
  }

  /** A body the game can reach: non-empty, inside the grid, no segment twice. */
  ghost predicate ValidBody(s: seq<Pos>) {
    |s| >= 1 && (forall i :: 0 <= i < |s| ==> InBounds(s[i])) && Distinct(s)
  }

  /**
   * One tick of the interval callback: the new head is the old head moved
   * in direction d; leaving the grid or running into any current segment
   * (the tail included) is a crash; otherwise the head is put in front and,
   * unless it lands on the food, the last segment is dropped.
   */
  function Step(body: seq<Pos>, d: Direction, food: Pos): (o: Outcome)
    requires |body| >= 1
    ensures o == Crashed <==> !InBounds(Shift(body[0], d)) || Shift(body[0], d) in body
    ensures o.Advanced? ==> o.ate == (Shift(body[0], d) == food)
    ensures o.Advanced? ==> |o.body| == |body| + (if o.ate then 1 else 0)
    ensures o.Advanced? ==> o.body[0] == Shift(body[0], d)
    ensures o.Advanced? ==> o.body[1..] == if o.ate then body else body[..|body| - 1]
  {
    var head := Shift(body[0], d);
    if !InBounds(head) || head in body then Crashed
    else if head == food then Advanced([head] + body, true)
    else Advanced([head] + body[..|body| - 1], false)
  }

  /** A committed step keeps the body inside the grid and free of repeated segments. */
  lemma StepKeepsValid(body: seq<Pos>, d: Direction, food: Pos)
    requires ValidBody(body)
    ensures Step(body, d, food).Advanced? ==> ValidBody(Step(body, d, food).body)
  {
    var o := Step(body, d, food);
    if o.Advanced? {
      var b := o.body;
      var rest := b[1..];
      assert forall i :: 0 <= i < |rest| ==> rest[i] in body;
      forall i, j | 0 <= i < j < |b|
        ensures b[i] != b[j]
      {
        if i == 0 {
          assert b[j] == rest[j - 1];
        } else {
          assert b[i] == body[i - 1] && b[j] == body[j - 1];
        }
      }
    }
  }

  /**
   * The guard only compares a key with the direction in force: two keys
   * before the next tick can turn the snake around, and a snake of two or
   * more segments then runs into its own neck.
   */
  lemma TwoKeysReverse(body: seq<Pos>, d: Direction, food: Pos)
    requires |body| >= 2 && body[1] == Shift(body[0], Opposite(d))
    ensures exists k1, k2 :: Turn(Turn(d, k1), k2) == Opposite(d) && Step(body, Turn(Turn(d, k1), k2), food) == Crashed
  {
    var k1 := if d == Up || d == Down then A else W;
    var k2 := KeyFor(Opposite(d));
    assert Turn(Turn(d, k1), k2) == Opposite(d);
    assert Shift(body[0], Opposite(d)) in body;
  }

  /** The Snake page's state. */
  class Game {
    var snake: seq<Pos>
    var food: Pos
    var direction: Direction
    var isGameOver: bool
    var isGameStarted: bool
    var score: int
    var highScore: int

    /** The body is valid, the food is on the grid, and every point scored grew the snake by one. */
    ghost predicate Valid()
      reads this
    {
      ValidBody(snake) && InBounds(food) && score == |snake| - 1
    }

    /** The first render; storedHigh is the saved high score, if any. */
    constructor(storedHigh: Option<int>)
      ensures Valid()
      ensures snake == [Pos(8, 8)] && food == Pos(12, 8) && direction == Right
      ensures !isGameOver && !isGameStarted && score == 0
      ensures highScore == match storedHigh case None => 0 case Some(h) => h
    {
      snake := [Pos(8, 8)];
      food := Pos(12, 8);
      direction := Right;
      isGameOver := false;
      isGameStarted := false;
      score := 0;
      highScore := match storedHigh case None => 0 case Some(h) => h;
    }

    /** handleKey: ignored before the start and after a crash; otherwise the guarded turn. */
    method HandleKey(k: Key)
      modifies this
      ensures direction == if old(isGameOver || !isGameStarted) then old(direction) else Turn(old(direction), k)
      ensures snake == old(snake) && food == old(food) && score == old(score) && highScore == old(highScore)
      ensures isGameOver == old(isGameOver) && isGameStarted == old(isGameStarted)
    {
      if isGameOver || !isGameStarted {
        return;
      }
      var d := direction;
      if k == W && d != Down { direction := Up; }
      if k == S && d != Up { direction := Down; }
      if k == A && d != Right { direction := Left; }
      if k == D && d != Left { direction := Right; }
    }

    /**
     * One firing of the interval; newFood is the random cell (each
     * coordinate drawn uniformly from 0 to GRID_SIZE - 1) used when the
     * snake eats. The interval only runs while the game is started and not over.
     */
    method Tick(newFood: Pos)
      requires Valid() && InBounds(newFood)
      modifies this
      ensures Valid()
      ensures direction == old(direction) && isGameStarted == old(isGameStarted) && highScore == old(highScore)
      ensures old(isGameOver || !isGameStarted) ==>
        snake == old(snake) && food == old(food) && score == old(score) && isGameOver == old(isGameOver)
      ensures !old(isGameOver || !isGameStarted) && Step(old(snake), old(direction), old(food)) == Crashed ==>
        snake == old(snake) && food == old(food) && score == old(score) && isGameOver
      ensures !old(isGameOver || !isGameStarted) && Step(old(snake), old(direction), old(food)).Advanced? ==>
        var o := Step(old(snake), old(direction), old(food));
        && snake == o.body && !isGameOver
        && score == old(score) + (if o.ate then 1 else 0)
        && food == (if o.ate then newFood else old(food))
    {
      if isGameOver || !isGameStarted {
        return;
      }
      StepKeepsValid(snake, direction, food);
      ghost var o := Step(snake, direction, food);
      var head := snake[0];
      if direction == Up { head := head.(y := head.y - 1); }
      if direction == Down { head := head.(y := head.y + 1); }
      if direction == Left { head := head.(x := head.x - 1); }
      if direction == Right { head := head.(x := head.x + 1); }
      assert head == Shift(snake[0], direction);
      if head.x < 0 || head.y < 0 || head.x >= GRID_SIZE || head.y >= GRID_SIZE || head in snake {
        isGameOver := true;
        return;
      }
      var newSnake := [head] + snake;
      if head == food {
        score := score + 1;
        food := newFood;
      } else {
        newSnake := newSnake[..|newSnake| - 1];
      }
      assert newSnake == o.body && ValidBody(newSnake);
      snake := newSnake;
    }

    /** startGame: only sets the started flag. */
    method StartGame()
      modifies this
      ensures isGameStarted
      ensures snake == old(snake) && food == old(food) && direction == old(direction)
      ensures isGameOver == old(isGameOver) && score == old(score) && highScore == old(highScore)
    {
      isGameStarted := true;
    }

    /** restart: the initial snake, food and direction, score 0, and the game running. */
    method Restart()
      modifies this
      ensures Valid()
      ensures snake == [Pos(8, 8)] && food == Pos(12, 8) && direction == Right
      ensures score == 0 && !isGameOver && isGameStarted && highScore == old(highScore)
    {
      snake := [Pos(8, 8)];
      food := Pos(12, 8);
      direction := Right;
      score := 0;
      isGameOver := false;
      isGameStarted := true;
    }
  }
}
