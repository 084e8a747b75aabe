/**
 Invariants of reachable game states and the proofs that every transition keeps
 them, together with the food-placement discrepancy of the tick and its repair.
 */
module SnakeInvariants {
  import opened Grid
  import opened Game

  predicate AllInBounds(cells: seq<Cell>) {
    forall i :: 0 <= i < |cells| ==> InBounds(cells[i])
  }

  /** No two segments share a cell. */
  predicate Distinct(cells: seq<Cell>) {
    forall i, j :: 0 <= i < j < |cells| ==> cells[i] != cells[j]
  }

  /** Each segment shares an edge with the next one. */
  predicate Contiguous(cells: seq<Cell>) {
    forall i :: 0 <= i < |cells| - 1 ==> Adjacent(cells[i], cells[i + 1])
  }

  /** The shape of the snake and the score, which every tick keeps whatever food it is handed. */
  predicate WellFormed(s: GameState) {
    && |s.snake| >= 1
    && AllInBounds(s.snake)
    && Distinct(s.snake)
    && Contiguous(s.snake)
    && s.score == FoodScore * (|s.snake| - 1)
  }

  /** A well-formed state whose food is on the board and off the snake. */
  predicate Valid(s: GameState) {
    && WellFormed(s)
    && InBounds(s.food)
    && s.food !in s.snake
  }

  lemma InitialIsValid()
    ensures Valid(InitialState())
    ensures !InitialState().isGameOver && InitialState().difficulty == Medium
  {
  }

  /** Reset yields a valid state from any state at all. */
  lemma ResetIsValid(s: GameState)
    ensures Valid(ResetGame(s))
  {
  }

  lemma ChangeDifficultyKeepsValid(s: GameState, d: Difficulty)
    requires Valid(s)
    ensures Valid(ChangeDifficulty(s, d))
    ensures ChangeDifficulty(s, d).isGameOver == s.isGameOver
  {
  }

  lemma HandleKeyPressKeepsValid(s: GameState, key: string)
    requires Valid(s)
    ensures Valid(HandleKeyPress(s, key))
  {
  }

  /** Once over, a game stays over under ticks, keys and difficulty changes; only a reset reopens it. */
  lemma GameOverIsSticky(s: GameState, newFood: Cell, key: string, d: Difficulty)
    requires |s.snake| >= 1 && s.isGameOver
    ensures Tick(s, newFood) == s
    ensures HandleKeyPress(s, key) == s
    ensures ChangeDifficulty(s, d).isGameOver
    ensures !ResetGame(s).isGameOver
  {
  }

  /** The grown snake of a non-colliding tick is on the board, without repeats and contiguous. */
  lemma GrownIsWellShaped(s: GameState)
    requires WellFormed(s) && !Collides(NextHead(s), s.snake)
    ensures AllInBounds(Grown(s)) && Distinct(Grown(s)) && Contiguous(Grown(s))
  {
  }

  /** Dropping the last segment keeps a sequence on the board, repeat-free and contiguous. */
  lemma DropLastIsWellShaped(cells: seq<Cell>)
    requires |cells| >= 1 && AllInBounds(cells) && Distinct(cells) && Contiguous(cells)
    ensures var c := cells[..|cells| - 1]; AllInBounds(c) && Distinct(c) && Contiguous(c)
  {
  }

  /** Every tick keeps the snake well formed, whatever cell the food generator returns. */
  lemma TickKeepsWellFormed(s: GameState, newFood: Cell)
    requires WellFormed(s)
    ensures WellFormed(Tick(s, newFood))
  {
    if !s.isGameOver && !Collides(NextHead(s), s.snake) {
      GrownIsWellShaped(s);
      var g := Grown(s);
      if NextHead(s) != s.food {
        DropLastIsWellShaped(g);
      }
    }
  }

  /**
   Every tick keeps the whole invariant, food included, provided the food drawn
   when the snake eats avoids the GROWN snake.
   */
  lemma TickKeepsValid(s: GameState, newFood: Cell)
    requires Valid(s)
    requires Eats(s) ==> InBounds(newFood) && newFood !in Grown(s)
    ensures Valid(Tick(s, newFood))
  {
    TickKeepsWellFormed(s, newFood);
  }

  /**
   As written, the new food only avoids the snake from before the move: a
   one-cell snake at (10,10) heading right onto food at (11,10), with the first
   draw (11,10), eats and then gets its new food under its own head.
   This state is not reachable from `InitialState()`, whose food stays at (5,5)
   until the first meal; `FoodLandsOnHeadInPlay` is the reachable case.
   */
  lemma FoodMayLandOnHead()
    ensures var s := GameState([Cell(10, 10)], Cell(11, 10), Right, false, 0, Medium);
      var draws := [Cell(11, 10)];
      && Valid(s) && Eats(s) && DrawsInBounds(draws) && HasFreeDraw(s.snake, draws)
      && var t := Tick(s, FirstFree(s.snake, draws));
         !Valid(t) && t.food == t.snake[0]
  {
    var s := GameState([Cell(10, 10)], Cell(11, 10), Right, false, 0, Medium);
    var draws := [Cell(11, 10)];
    assert !Occupies(s.snake, draws[0]);
    var t := Tick(s, FirstFree(s.snake, draws));
    assert t.snake[0] == Cell(11, 10);
  }

  /**
   What placement as written does guarantee: the new food is on the board and
   off every segment except the new head.
   */
  lemma AsWrittenFoodAvoidsBody(s: GameState, draws: seq<Cell>)
    requires Valid(s) && Eats(s) && DrawsInBounds(draws) && HasFreeDraw(s.snake, draws)
    ensures var t := Tick(s, FirstFree(s.snake, draws));
      InBounds(t.food) && t.food !in t.snake[1..]
  {
    var t := Tick(s, FirstFree(s.snake, draws));
    assert t.snake[1..] == s.snake;
  }

  /**
   The corrected updater: grow or move as before, but draw the new food against
   the snake as it is after the move. It maps valid states to valid states.
   */
  method MoveSnakeCorrected(s: GameState, draws: seq<Cell>) returns (t: GameState)
    requires |s.snake| >= 1
    requires Eats(s) ==> DrawsInBounds(draws) && HasFreeDraw(Grown(s), draws)
    ensures t == TimerTick(Corrected, s, draws)
    ensures Valid(s) ==> Valid(t)
  {
    if Eats(s) {
      var food, _ := GenerateFood(Grown(s), draws);
      t := Tick(s, food);
      if Valid(s) {
        TickKeepsValid(s, food);
      }
    } else {
      t := Tick(s, s.food);
      if Valid(s) {
        TickKeepsValid(s, s.food);
      }
    }
  }

  // ---------------------------------------------------------------------------
  // Whole games

  /** Which snake the food generator avoids: the one before the move (as written) or the grown one. */
  datatype Placement = AsWritten | Corrected

  /** The cells a new food must avoid under placement `p`. */
  function Avoided(p: Placement, s: GameState): seq<Cell>
    requires |s.snake| >= 1
  {
    match p
    case AsWritten => s.snake
    case Corrected => Grown(s)
  }

  /** The tick with the food drawn, when the snake eats, as the first draw off `Avoided(p, s)`. */
  function TimerTick(p: Placement, s: GameState, draws: seq<Cell>): (t: GameState)
    requires |s.snake| >= 1
    requires Eats(s) ==> HasFreeDraw(Avoided(p, s), draws)
    ensures Eats(s) ==> t.snake == Grown(s) && t.food in draws && t.food !in Avoided(p, s)
    ensures !Eats(s) ==> t.food == s.food && |t.snake| == |s.snake|
  {
    Tick(s, if Eats(s) then FirstFree(Avoided(p, s), draws) else s.food)
  }

  /** What can happen to the state: a timer firing, a key press, the restart button, a difficulty button. */
  datatype Event =
    | TimerFired(draws: seq<Cell>)
    | KeyDown(key: string)
    | Restart
    | PickDifficulty(d: Difficulty)

  /** The event can be applied: a tick that eats finds a free cell among its draws. */
  predicate Admissible(p: Placement, s: GameState, e: Event) {
    e.TimerFired? ==>
      |s.snake| >= 1 && (Eats(s) ==> DrawsInBounds(e.draws) && HasFreeDraw(Avoided(p, s), e.draws))
  }

  function Apply(p: Placement, s: GameState, e: Event): (t: GameState)
    requires Admissible(p, s, e)
    ensures t.difficulty == (if e.PickDifficulty? then e.d else s.difficulty)
    ensures e.KeyDown? ==> t == s.(direction := t.direction)
    ensures e.PickDifficulty? ==> t == s.(difficulty := e.d)
    ensures e.Restart? ==> t == InitialState().(difficulty := s.difficulty)
    ensures e.TimerFired? ==> t.direction == s.direction && (s.isGameOver ==> t == s)
  {
    match e
    case TimerFired(draws) => TimerTick(p, s, draws)
    case KeyDown(key) => HandleKeyPress(s, key)
    case Restart => ResetGame(s)
    case PickDifficulty(d) => ChangeDifficulty(s, d)
  }

  /** Every event of the run is admissible in the state it meets. */
  predicate AdmissibleRun(p: Placement, s: GameState, events: seq<Event>)
    decreases |events|
  {
    |events| == 0 || (Admissible(p, s, events[0]) && AdmissibleRun(p, Apply(p, s, events[0]), events[1..]))
  }

  function Play(p: Placement, s: GameState, events: seq<Event>): (t: GameState)
    requires AdmissibleRun(p, s, events)
    ensures (forall i :: 0 <= i < |events| ==> !events[i].PickDifficulty?) ==> t.difficulty == s.difficulty
    ensures s.isGameOver && (forall i :: 0 <= i < |events| ==> !events[i].Restart?) ==> t.isGameOver
    decreases |events|
  {
    if |events| == 0 then s else Play(p, Apply(p, s, events[0]), events[1..])
  }

  /** The as-written timer event is exactly what `MoveSnake` computes. */
  lemma AsWrittenTimerIsMoveSnake(s: GameState, draws: seq<Cell>)
    requires Admissible(AsWritten, s, TimerFired(draws))
    ensures Apply(AsWritten, s, TimerFired(draws)) ==
      Tick(s, if Eats(s) then FirstFree(s.snake, draws) else s.food)
  {
  }

  /** Under either placement, each event keeps the snake well formed and the food on the board. */
  lemma ApplyKeepsWellFormed(p: Placement, s: GameState, e: Event)
    requires WellFormed(s) && InBounds(s.food) && Admissible(p, s, e)
    ensures WellFormed(Apply(p, s, e)) && InBounds(Apply(p, s, e).food)
  {
    match e
    case TimerFired(draws) =>
      var f := if Eats(s) then FirstFree(Avoided(p, s), draws) else s.food;
      TickKeepsWellFormed(s, f);
    case KeyDown(key) =>
    case Restart =>
    case PickDifficulty(d) =>
  }

  /** Under either placement, every admissible run keeps the snake well formed and the food on the board. */
  lemma {:induction false} PlayKeepsWellFormed(p: Placement, s: GameState, events: seq<Event>)
    requires WellFormed(s) && InBounds(s.food) && AdmissibleRun(p, s, events)
    ensures WellFormed(Play(p, s, events)) && InBounds(Play(p, s, events).food)
    decreases |events|
  {
    if |events| > 0 {
      ApplyKeepsWellFormed(p, s, events[0]);
      PlayKeepsWellFormed(p, Apply(p, s, events[0]), events[1..]);
    }
  }

  /** Under the corrected placement, each event keeps the whole invariant, food off the snake included. */
  lemma ApplyKeepsValid(s: GameState, e: Event)
    requires Valid(s) && Admissible(Corrected, s, e)
    ensures Valid(Apply(Corrected, s, e))
  {
    match e
    case TimerFired(draws) =>
      if Eats(s) {
        TickKeepsValid(s, FirstFree(Grown(s), draws));
      } else {
        TickKeepsValid(s, s.food);
      }
    case KeyDown(key) =>
    case Restart =>
    case PickDifficulty(d) =>
  }

  /** Under the corrected placement, every admissible run from a valid state ends in a valid state. */
  lemma {:induction false} PlayKeepsValid(s: GameState, events: seq<Event>)
    requires Valid(s) && AdmissibleRun(Corrected, s, events)
    ensures Valid(Play(Corrected, s, events))
    decreases |events|
  {
    if |events| > 0 {
      ApplyKeepsValid(s, events[0]);
      PlayKeepsValid(Apply(Corrected, s, events[0]), events[1..]);
    }
  }

  /** Under the corrected placement, every state reachable from the start of the game is valid. */
  lemma ReachableStatesAreValid(events: seq<Event>)
    requires AdmissibleRun(Corrected, InitialState(), events)
    ensures Valid(Play(Corrected, InitialState(), events))
  {
    PlayKeepsValid(InitialState(), events);
  }

  /** `n` timer events whose draws are never needed, followed by `rest`. */
  function TicksThen(n: nat, rest: seq<Event>): seq<Event> {
    if n == 0 then rest else [TimerFired([])] + TicksThen(n - 1, rest)
  }

  /** A game from the initial record: up five cells, left four, then onto the food, whose replacement is drawn at (5,5). */
  function HeadOnFoodRun(): seq<Event> {
    [KeyDown("ArrowUp")] + TicksThen(5, LeftLeg())
  }

  /** The second half of `HeadOnFoodRun`, from (10,5): turn left, four ticks along row 5, then the tick that eats. */
  function LeftLeg(): seq<Event> {
    [KeyDown("ArrowLeft")] + TicksThen(4, [TimerFired([Cell(5, 5)])])
  }

  /** A run is admissible and played one event at a time, first event first. */
  lemma PlayFirst(p: Placement, s: GameState, e: Event, rest: seq<Event>)
    requires Admissible(p, s, e) && AdmissibleRun(p, Apply(p, s, e), rest)
    ensures AdmissibleRun(p, s, [e] + rest)
    ensures Play(p, s, [e] + rest) == Play(p, Apply(p, s, e), rest)
  {
    assert ([e] + rest)[0] == e;
    assert ([e] + rest)[1..] == rest;
  }

  /** A live one-cell snake at `c` heading `d`, before it has eaten the food at (5,5). */
  function Alone(c: Cell, d: Direction): GameState {
    GameState([c], Cell(5, 5), d, false, 0, Medium)
  }

  /** An accepted arrow key can precede any run playable from the turned state. */
  lemma TurnFirst(s: GameState, d: Direction, rest: seq<Event>, last: GameState)
    requires !s.isGameOver && d != Opposite(s.direction)
    requires AdmissibleRun(AsWritten, s.(direction := d), rest)
    requires Play(AsWritten, s.(direction := d), rest) == last
    ensures AdmissibleRun(AsWritten, s, [KeyDown(ArrowKey(d))] + rest)
    ensures Play(AsWritten, s, [KeyDown(ArrowKey(d))] + rest) == last
  {
    HandleKeyPressGate(s, ArrowKey(d));
    PlayFirst(AsWritten, s, KeyDown(ArrowKey(d)), rest);
  }

  /** A tick that moves the lone cell onto a free board cell other than the food can precede any run playable from there. */
  lemma MoveFirst(c: Cell, d: Direction, rest: seq<Event>, last: GameState)
    requires InBounds(Step(c, d)) && Step(c, d) != Cell(5, 5)
    requires AdmissibleRun(AsWritten, Alone(Step(c, d), d), rest)
    requires Play(AsWritten, Alone(Step(c, d), d), rest) == last
    ensures AdmissibleRun(AsWritten, Alone(c, d), [TimerFired([])] + rest)
    ensures Play(AsWritten, Alone(c, d), [TimerFired([])] + rest) == last
  {
    var s := Alone(c, d);
    assert NextHead(s) == Step(c, d);
    assert !Collides(Step(c, d), s.snake);
    assert Apply(AsWritten, s, TimerFired([])) == Alone(Step(c, d), d);
    PlayFirst(AsWritten, s, TimerFired([]), rest);
  }

  /** The last tick of `HeadOnFoodRun`: the lone cell at (6,5) eats at (5,5) and draws (5,5) again. */
  lemma EatsAndRedraws()
    ensures var eat := TimerFired([Cell(5, 5)]);
      AdmissibleRun(AsWritten, Alone(Cell(6, 5), Left), [eat]) &&
      Play(AsWritten, Alone(Cell(6, 5), Left), [eat]) ==
        GameState([Cell(5, 5), Cell(6, 5)], Cell(5, 5), Left, false, 10, Medium)
  {
    var s := Alone(Cell(6, 5), Left);
    var draws := [Cell(5, 5)];
    assert NextHead(s) == Cell(5, 5) && Eats(s);
    assert !Occupies(s.snake, draws[0]);
    assert HasFreeDraw(s.snake, draws);
    assert FirstFree(s.snake, draws) == Cell(5, 5);
    PlayFirst(AsWritten, s, TimerFired(draws), []);
    assert [TimerFired(draws)] + [] == [TimerFired(draws)];
  }

  /** From (10,5) heading up, `LeftLeg` is playable and ends with the snake on the food and the food redrawn under it. */
  lemma LeftLegEndsOnFood()
    ensures AdmissibleRun(AsWritten, Alone(Cell(10, 5), Up), LeftLeg())
    ensures Play(AsWritten, Alone(Cell(10, 5), Up), LeftLeg()) ==
      GameState([Cell(5, 5), Cell(6, 5)], Cell(5, 5), Left, false, 10, Medium)
  {
    var last := GameState([Cell(5, 5), Cell(6, 5)], Cell(5, 5), Left, false, 10, Medium);
    var tick := TimerFired([]);
    EatsAndRedraws();
    var r4 := [TimerFired([Cell(5, 5)])];
    MoveFirst(Cell(7, 5), Left, r4, last);
    var r3 := [tick] + r4;
    MoveFirst(Cell(8, 5), Left, r3, last);
    var r2 := [tick] + r3;
    MoveFirst(Cell(9, 5), Left, r2, last);
    var r1 := [tick] + r2;
    MoveFirst(Cell(10, 5), Left, r1, last);
    var r0 := [tick] + r1;
    assert r0 == TicksThen(4, r4);
    TurnFirst(Alone(Cell(10, 5), Up), Left, r0, last);
    assert ArrowKey(Left) == "ArrowLeft";
    assert [KeyDown(ArrowKey(Left))] + r0 == LeftLeg();
  }

  /** From (10,10) heading up, five ticks up column 10 followed by `LeftLeg` are playable and end the same way. */
  lemma UpLegThenLeftLeg()
    ensures AdmissibleRun(AsWritten, Alone(Cell(10, 10), Up), TicksThen(5, LeftLeg()))
    ensures Play(AsWritten, Alone(Cell(10, 10), Up), TicksThen(5, LeftLeg())) ==
      GameState([Cell(5, 5), Cell(6, 5)], Cell(5, 5), Left, false, 10, Medium)
  {
    var last := GameState([Cell(5, 5), Cell(6, 5)], Cell(5, 5), Left, false, 10, Medium);
    var tick := TimerFired([]);
    LeftLegEndsOnFood();
    var r5 := LeftLeg();
    MoveFirst(Cell(10, 6), Up, r5, last);
    var r4 := [tick] + r5;
    MoveFirst(Cell(10, 7), Up, r4, last);
    var r3 := [tick] + r4;
    MoveFirst(Cell(10, 8), Up, r3, last);
    var r2 := [tick] + r3;
    MoveFirst(Cell(10, 9), Up, r2, last);
    var r1 := [tick] + r2;
    MoveFirst(Cell(10, 10), Up, r1, last);
    assert [tick] + r1 == TicksThen(5, r5);
  }

  /** Food under the head breaks validity. */
  lemma FoodUnderHeadIsInvalid(t: GameState)
    requires |t.snake| >= 1 && t.food == t.snake[0]
    ensures !Valid(t)
  {
    assert t.food in t.snake;
  }

  /** ArrowUp, accepted in the initial record, can precede any run playable from (10,10) heading up. */
  lemma InitialTurnsUp(rest: seq<Event>, last: GameState)
    requires AdmissibleRun(AsWritten, Alone(Cell(10, 10), Up), rest)
    requires Play(AsWritten, Alone(Cell(10, 10), Up), rest) == last
    ensures AdmissibleRun(AsWritten, InitialState(), [KeyDown("ArrowUp")] + rest)
    ensures Play(AsWritten, InitialState(), [KeyDown("ArrowUp")] + rest) == last
  {
    assert InitialState().(direction := Up) == Alone(Cell(10, 10), Up);
    assert ArrowKey(Up) == "ArrowUp";
    TurnFirst(InitialState(), Up, rest, last);
  }

  /**
   The food-on-head state is reachable as written: after `HeadOnFoodRun` from the
   initial record the snake has just eaten at (5,5) and its new food is (5,5) again.
   */
  lemma FoodLandsOnHeadInPlay()
    ensures AdmissibleRun(AsWritten, InitialState(), HeadOnFoodRun())
    ensures Play(AsWritten, InitialState(), HeadOnFoodRun()) ==
      GameState([Cell(5, 5), Cell(6, 5)], Cell(5, 5), Left, false, 10, Medium)
    ensures var t := Play(AsWritten, InitialState(), HeadOnFoodRun());
      t.food == t.snake[0] && !Valid(t)
  {
    var last := GameState([Cell(5, 5), Cell(6, 5)], Cell(5, 5), Left, false, 10, Medium);
    UpLegThenLeftLeg();
    InitialTurnsUp(TicksThen(5, LeftLeg()), last);
    FoodUnderHeadIsInvalid(last);
  }

  /** As written, every state reachable from the start has a well-formed snake and on-board food. */
  lemma AsWrittenReachableStatesAreWellFormed(events: seq<Event>)
    requires AdmissibleRun(AsWritten, InitialState(), events)
    ensures WellFormed(Play(AsWritten, InitialState(), events))
    ensures InBounds(Play(AsWritten, InitialState(), events).food)
  {
    PlayKeepsWellFormed(AsWritten, InitialState(), events);
  }
}
