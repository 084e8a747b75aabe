/**
 The game state machine of the `useGame` hook: the state record, the difficulty
 table, the collision check, food placement, the per-tick transition, the arrow-key
 gate, reset and difficulty change. Every transition is a whole-record update.
 */
module Game {
  import opened Grid

  datatype Option<T> = None | Some(value: T)

  datatype Difficulty = Easy | Medium | Hard

  /** The record the hook keeps in React state; `snake` is head-first. */
  datatype GameState = GameState(
    snake: seq<Cell>,
    food: Cell,
    direction: Direction,
    isGameOver: bool,
    score: int,
    difficulty: Difficulty)

  /** Points awarded for each food eaten. */
  const FoodScore: int := 10

  // ---------------------------------------------------------------------------
  // Difficulty table

  /** Position of a difficulty on the easy-to-hard scale. */
  function Level(d: Difficulty): nat {
    match d
    case Easy => 0
    case Medium => 1
    case Hard => 2
  }

  /** Milliseconds between two ticks at difficulty `d`. */
  function TickInterval(d: Difficulty): (ms: nat)
    ensures d == Easy ==> ms == 200
    ensures d == Medium ==> ms == 150
    ensures d == Hard ==> ms == 100
  {
    match d
    case Easy => 200
    case Medium => 150
    case Hard => 100
  }

  /** A harder level never ticks more slowly, and distinct levels tick at distinct rates. */
  lemma HarderIsNeverSlower(d1: Difficulty, d2: Difficulty)
    ensures Level(d1) <= Level(d2) ==> TickInterval(d2) <= TickInterval(d1)
    ensures d1 != d2 ==> TickInterval(d1) != TickInterval(d2)
  {
  }

  // ---------------------------------------------------------------------------
  // Initial state, reset and difficulty change

  /** The start-of-game record: a one-cell snake in the middle heading right, food elsewhere on the board, live, at MEDIUM. */
  function InitialState(): (s: GameState)
    ensures s.snake == [Cell(10, 10)] && s.food == Cell(5, 5) && s.direction == Right
    ensures !s.isGameOver && s.score == 0 && s.difficulty == Medium
    ensures InBounds(s.food) && s.food !in s.snake
  {
    GameState([Cell(10, 10)], Cell(5, 5), Right, false, 0, Medium)
  }

  /** Back to the start-of-game record, keeping the chosen difficulty. */
  function ResetGame(s: GameState): (t: GameState)
    ensures t == InitialState().(difficulty := s.difficulty)
  {
    GameState([Cell(10, 10)], Cell(5, 5), Right, false, 0, s.difficulty)
  }

  /** Unconditional: the game-over gating lives in the buttons, not here. */
  function ChangeDifficulty(s: GameState, d: Difficulty): (t: GameState)
    ensures t.difficulty == d
  {
    s.(difficulty := d)
  }

  lemma ResetIsIdempotent(s: GameState)
    ensures ResetGame(ResetGame(s)) == ResetGame(s)
    ensures !ResetGame(s).isGameOver && ResetGame(s).score == 0
  {
  }

  /** Only `difficulty` changes, the last change wins, and a change survives a reset. */
  lemma ChangeDifficultyOnlyTouchesDifficulty(s: GameState, d1: Difficulty, d2: Difficulty)
    ensures ChangeDifficulty(s, d1).(difficulty := s.difficulty) == s
    ensures ChangeDifficulty(ChangeDifficulty(s, d1), d2) == ChangeDifficulty(s, d2)
    ensures ResetGame(ChangeDifficulty(s, d1)) == ChangeDifficulty(ResetGame(s), d1)
  {
  }

  // ---------------------------------------------------------------------------
  // Occupancy and collision

  /** The `some` scan: does any segment equal `c`? */
  function Occupies(segments: seq<Cell>, c: Cell): (r: bool)
    ensures r <==> c in segments
  {
    if |segments| == 0 then false
    else segments[0] == c || Occupies(segments[1..], c)
  }

  /**
   The wall check, then the self check against every segment after the current
   head (the head cell is about to be vacated, so it never blocks).
   */
  function Collides(head: Cell, snake: seq<Cell>): (c: bool)
    ensures c <==> !InBounds(head) || exists i :: 1 <= i < |snake| && snake[i] == head
  {
    if head.x < 0 || head.x >= GridCount || head.y < 0 || head.y >= GridCount then
      true
    else
      Occupies(if |snake| == 0 then [] else snake[1..], head)
  }

  /** With a one-cell snake only the walls can be hit. */
  lemma SingleCellHitsOnlyWalls(head: Cell, c: Cell)
    ensures Collides(head, [c]) <==> !InBounds(head)
  {
  }

  // ---------------------------------------------------------------------------
  // Food placement

  /** Every random draw is a cell of the grid, as `floor(random() * GridCount)` per axis gives. */
  predicate DrawsInBounds(draws: seq<Cell>) {
    forall j :: 0 <= j < |draws| ==> InBounds(draws[j])
  }

  /** Some draw in the stream misses the snake, so the retry loop stops. */
  predicate HasFreeDraw(snake: seq<Cell>, draws: seq<Cell>) {
    exists j :: 0 <= j < |draws| && !Occupies(snake, draws[j])
  }

  /** The first draw of the stream that the snake does not occupy. */
  function FirstFree(snake: seq<Cell>, draws: seq<Cell>): (c: Cell)
    requires HasFreeDraw(snake, draws)
    ensures c in draws && c !in snake
    decreases |draws|
  {
    if !Occupies(snake, draws[0]) then draws[0]
    else
      assert HasFreeDraw(snake, draws[1..]) by {
        var j :| 0 <= j < |draws| && !Occupies(snake, draws[j]);
        assert j != 0 && draws[1..][j - 1] == draws[j];
      }
      FirstFree(snake, draws[1..])
  }

  /**
   The rejection-sampling loop of `generateFood`: draw a cell, retry while the
   snake occupies it. `draws` stands for the successive random cells; `used`
   says how many were consumed.
   */
  method GenerateFood(snake: seq<Cell>, draws: seq<Cell>) returns (food: Cell, used: nat)
    requires DrawsInBounds(draws)
    requires HasFreeDraw(snake, draws)
    ensures InBounds(food) && food !in snake
    ensures 1 <= used <= |draws| && food == draws[used - 1]
    ensures forall j :: 0 <= j < used - 1 ==> draws[j] in snake
    ensures food == FirstFree(snake, draws)
  {
    food, used := draws[0], 1;
    while Occupies(snake, food)
      invariant 1 <= used <= |draws| && food == draws[used - 1]
      invariant forall j :: 0 <= j < used - 1 ==> draws[j] in snake
      invariant HasFreeDraw(snake, draws[used - 1..])
      invariant FirstFree(snake, draws) == FirstFree(snake, draws[used - 1..])
      decreases |draws| - used
    {
      var rest := draws[used - 1..];
      assert rest[1..] == draws[used..];
      food, used := draws[used], used + 1;
    }
  }

  // ---------------------------------------------------------------------------
  // One tick

  /** The cell the head moves to on the next tick. */
  function NextHead(s: GameState): Cell
    requires |s.snake| >= 1
  {
    Step(s.snake[0], s.direction)
  }

  /** The snake with the next head put in front and nothing removed. */
  function Grown(s: GameState): seq<Cell>
    requires |s.snake| >= 1
  {
    [NextHead(s)] + s.snake
  }

  /** The next tick moves the head onto the food. */
  predicate Eats(s: GameState)
    requires |s.snake| >= 1
  {
    !s.isGameOver && !Collides(NextHead(s), s.snake) && NextHead(s) == s.food
  }

  /**
   The state update of `moveSnake`. `newFood` is the cell `generateFood` returns
   on this tick; it is used only when the snake eats.
   */
  function Tick(s: GameState, newFood: Cell): (t: GameState)
    requires |s.snake| >= 1
    ensures |t.snake| >= 1
    ensures t.direction == s.direction && t.difficulty == s.difficulty
  {
    if s.isGameOver then s
    else
      var head := NextHead(s);
      if Collides(head, s.snake) then s.(isGameOver := true)
      else
        var newSnake := Grown(s);
        if head == s.food then
          s.(snake := newSnake, score := s.score + FoodScore, food := newFood)
        else
          s.(snake := newSnake[..|newSnake| - 1])
  }

  /** A finished game ignores ticks. */
  lemma TickAfterGameOver(s: GameState, newFood: Cell)
    requires |s.snake| >= 1 && s.isGameOver
    ensures Tick(s, newFood) == s
  {
  }

  /** A colliding tick only raises the game-over flag. */
  lemma TickOnCollision(s: GameState, newFood: Cell)
    requires |s.snake| >= 1 && !s.isGameOver && Collides(NextHead(s), s.snake)
    ensures Tick(s, newFood) == s.(isGameOver := true)
  {
  }

  /** Eating: the whole old body follows the new head, the score gains 10, the food is replaced. */
  lemma TickOnFood(s: GameState, newFood: Cell)
    requires |s.snake| >= 1 && Eats(s)
    ensures var t := Tick(s, newFood);
      && |t.snake| == |s.snake| + 1
      && t.snake[0] == Step(s.snake[0], s.direction)
      && t.snake[1..] == s.snake
      && t.score == s.score + 10
      && t.food == newFood
      && !t.isGameOver
  {
  }

  /** Plain move: the head advances, the tail cell is dropped, score and food stay. */
  lemma TickOnMove(s: GameState, newFood: Cell)
    requires |s.snake| >= 1 && !s.isGameOver && !Collides(NextHead(s), s.snake) && !Eats(s)
    ensures var t := Tick(s, newFood);
      && |t.snake| == |s.snake|
      && t.snake[0] == Step(s.snake[0], s.direction)
      && t.snake[1..] == s.snake[..|s.snake| - 1]
      && t.score == s.score
      && t.food == s.food
      && !t.isGameOver
  {
  }

  /** Every tick adds 0 or 1 segment and exactly 10 points per segment added; food only changes on eating. */
  lemma TickGrowthMatchesScore(s: GameState, newFood: Cell)
    requires |s.snake| >= 1
    ensures var t := Tick(s, newFood);
      && |s.snake| <= |t.snake| <= |s.snake| + 1
      && t.score - s.score == 10 * (|t.snake| - |s.snake|)
      && (t.food != s.food ==> Eats(s))
      && (s.isGameOver ==> t.isGameOver)
  {
  }

  /** When the snake does not eat, the food argument plays no part. */
  lemma TickIgnoresFoodUnlessEating(s: GameState, f1: Cell, f2: Cell)
    requires |s.snake| >= 1 && !Eats(s)
    ensures Tick(s, f1) == Tick(s, f2)
  {
  }

  /**
   The updater as the hook runs it: copy the snake, move a copy of the head,
   check for a collision, put the head in front, then either grow and draw new
   food (against the snake as it was before the move) or drop the tail.
   */
  method MoveSnake(s: GameState, draws: seq<Cell>) returns (t: GameState)
    requires |s.snake| >= 1
    requires Eats(s) ==> DrawsInBounds(draws) && HasFreeDraw(s.snake, draws)
    ensures t == Tick(s, if Eats(s) then FirstFree(s.snake, draws) else s.food)
  {
    if s.isGameOver {
      return s;
    }
    var newSnake := s.snake;
    var head := newSnake[0];
    match s.direction {
      case Up => head := head.(y := head.y - 1);
      case Down => head := head.(y := head.y + 1);
      case Left => head := head.(x := head.x - 1);
      case Right => head := head.(x := head.x + 1);
    }
    if Collides(head, s.snake) {
      return s.(isGameOver := true);
    }
    newSnake := [head] + newSnake;
    if head == s.food {
      var food, _ := GenerateFood(s.snake, draws);
      return s.(snake := newSnake, score := s.score + FoodScore, food := food);
    }
    newSnake := newSnake[..|newSnake| - 1];
    t := s.(snake := newSnake);
  }

  // ---------------------------------------------------------------------------
  // Arrow keys

  /** The heading an arrow key asks for; any other key asks for nothing. */
  function ArrowDirection(key: string): (r: Option<Direction>)
    ensures r.Some? <==> key in {"ArrowUp", "ArrowDown", "ArrowLeft", "ArrowRight"}
  {
    if key == "ArrowUp" then Some(Up)
    else if key == "ArrowDown" then Some(Down)
    else if key == "ArrowLeft" then Some(Left)
    else if key == "ArrowRight" then Some(Right)
    else None
  }

  /** The key name that asks for heading `d`. */
  function ArrowKey(d: Direction): (key: string)
    ensures ArrowDirection(key) == Some(d)
  {
    match d
    case Up => "ArrowUp"
    case Down => "ArrowDown"
    case Left => "ArrowLeft"
    case Right => "ArrowRight"
  }

  /** The keydown handler: ignored after game over, refuses a 180-degree turn. */
  function HandleKeyPress(s: GameState, key: string): (t: GameState)
    ensures t == s.(direction := t.direction)
    ensures t.direction != Opposite(s.direction)
  {
    if s.isGameOver then s
    else if key == "ArrowUp" then (if s.direction != Down then s.(direction := Up) else s)
    else if key == "ArrowDown" then (if s.direction != Up then s.(direction := Down) else s)
    else if key == "ArrowLeft" then (if s.direction != Right then s.(direction := Left) else s)
    else if key == "ArrowRight" then (if s.direction != Left then s.(direction := Right) else s)
    else s
  }

  /**
   The gate in one rule: the heading becomes the pressed arrow's exactly when the
   game is live, the key is an arrow and it does not point straight back.
   */
  lemma HandleKeyPressGate(s: GameState, key: string)
    ensures var ask := ArrowDirection(key);
      HandleKeyPress(s, key) ==
        if !s.isGameOver && ask.Some? && ask.value != Opposite(s.direction)
        then s.(direction := ask.value)
        else s
  {
  }

  /**
   Each key is checked only against the heading of the moment, so two accepted
   keys between ticks can turn the snake around: a two-cell snake heading right
   that gets ArrowUp then ArrowLeft runs into its own neck on the next tick.
   */
  lemma TwoKeysMayReverse()
    ensures var s := GameState([Cell(10, 10), Cell(9, 10)], Cell(5, 5), Right, false, 10, Medium);
      var t := HandleKeyPress(HandleKeyPress(s, "ArrowUp"), "ArrowLeft");
      && t.direction == Opposite(s.direction)
      && Tick(t, Cell(0, 0)).isGameOver
  {
  }
}
