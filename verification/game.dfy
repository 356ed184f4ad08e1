/** One tick of the main loop as far as game state goes: key handling, the
    direction commit, then the move. */
module Game {
  import opened Wrappers
  import opened Grid
  import opened Apples
  import opened Input
  import opened Snakes

  /** Start of the game: the apple is placed by one draw, before and without
      looking at the snake, then the snake is constructed. */
  function Start(s: Sample): (w: World)
    requires ValidSample(s)
    ensures Inv(w)
    ensures w.snake.positions == [Center] && w.snake.direction == Right
  {
    World(Snakes.Init(), RandomizePosition(s))
  }

  /** The initial apple may sit on the snake's start cell. */
  lemma StartMayOverlap()
    ensures Start(Sample(GridWidth / 2, GridHeight / 2)).apple in Start(Sample(GridWidth / 2, GridHeight / 2)).snake.positions
  {
  }

  /** Key handling followed by the direction commit: the snake turns to the
      last accepted key of the batch, else to an earlier pending direction,
      else keeps its direction. */
  function Steer(w: World, keys: seq<Key>): (r: World)
    ensures r.snake.direction ==
      if LastAccepted(w.snake.direction, keys).Some? then LastAccepted(w.snake.direction, keys).value
      else if w.snake.pending.Some? then w.snake.pending.value
      else w.snake.direction
    ensures r.snake.pending.None?
    ensures r.snake.positions == w.snake.positions && r.snake.length == w.snake.length
    ensures r.snake.last == w.snake.last && r.apple == w.apple
  {
    var s := w.snake;
    var pending := HandleKeys(s.direction, s.pending, keys);
    HandleKeysLastWins(s.direction, s.pending, keys);
    World(UpdateDirection(s.(pending := pending)), w.apple)
  }

  /** One tick: handle the keys, commit the direction, move. The tick keeps
      the invariant: body length equals target length, distinct reachable
      cells, apple on the board, nothing pending. */
  function Tick(w: World, keys: seq<Key>, pick: Cell): (r: World)
    requires RelocationOk(Steer(w, keys), pick)
    ensures Inv(w) ==> Inv(r)
    ensures r.snake.direction == Steer(w, keys).snake.direction && r.snake.pending.None?
    ensures Collides(Steer(w, keys).snake) ==>
      r.snake.positions == [Center] && r.snake.length == 1 && r.apple == w.apple
    ensures !Collides(Steer(w, keys).snake) ==>
      |r.snake.positions| > 0 && r.snake.positions[0] == NextHead(w.snake.positions[0], r.snake.direction)
    ensures Eats(Steer(w, keys)) ==> r.snake.length == w.snake.length + 1 && r.apple == pick
  {
    Move(Steer(w, keys), pick)
  }

  /** Between ticks nothing is pending, so a tick never turns the snake
      straight back, and a second commit in the same tick changes nothing. */
  lemma SteerNeverReverses(w: World, keys: seq<Key>)
    requires Inv(w)
    ensures Steer(w, keys).snake.direction != w.snake.direction.Opposite()
    ensures UpdateDirection(Steer(w, keys).snake) == Steer(w, keys).snake
  {
    LastAcceptedNotReverse(w.snake.direction, keys);
  }

  /** The target length grows exactly on the ticks where the apple is eaten
      and stays put exactly on plain moves; a one-cell snake never collides,
      since the step always leaves the head's cell. */
  lemma GrowsExactlyWhenEating(w: World, pick: Cell)
    requires Inv(w) && RelocationOk(w, pick)
    ensures Move(w, pick).snake.length == w.snake.length + 1 <==> Eats(w)
    ensures Move(w, pick).snake.length == w.snake.length <==> !Collides(w.snake) && !Eats(w)
    ensures w.snake.length == 1 ==> !Collides(w.snake)
  {
  }

  /** A cell found by the apple's rejection loop against the grown body is a
      valid relocation for the move. */
  lemma RelocateFeedsMove(w: World, draws: seq<Sample>, pick: Cell)
    requires AllValid(draws) && |w.snake.positions| > 0
    requires Relocate([Candidate(w.snake)] + w.snake.positions, draws) == Some(pick)
    ensures RelocationOk(w, pick)
  {
  }

  /** A one-cell snake at (300, 220) heading right steps to (320, 220). */
  lemma ScenarioPlainStep()
    ensures var w := World(Snake([Cell(300, 220)], 1, Right, None, None), Cell(0, 0));
      Move(w, Cell(0, 0)) == World(Snake([Cell(320, 220)], 1, Right, None, Some(Cell(300, 220))), Cell(0, 0))
  {
  }

  /** Stepping onto the apple at (320, 220) gives a two-cell body. */
  lemma ScenarioEat()
    ensures var w := World(Snake([Cell(300, 220)], 1, Right, None, None), Cell(320, 220));
      Move(w, Cell(40, 40)) == World(Snake([Cell(320, 220), Cell(300, 220)], 2, Right, None, None), Cell(40, 40))
  {
  }

  /** A three-cell snake heading left into its own neck resets. */
  lemma ScenarioNeckCollision()
    ensures var w := World(Snake([Cell(100, 100), Cell(80, 100), Cell(60, 100)], 3, Left, None, None), Cell(0, 0));
      Move(w, Cell(0, 0)) == World(Snake([Center], 1, Left, None, None), Cell(0, 0))
  {
  }

  /** A four-cell snake curled in a square steps onto its tail cell and resets. */
  lemma ScenarioTailCollision()
    ensures var w := World(Snake([Cell(20, 0), Cell(20, 20), Cell(0, 20), Cell(0, 0)], 4, Left, None, None), Cell(100, 100));
      Move(w, Cell(0, 0)) == World(Snake([Center], 1, Left, None, None), Cell(100, 100))
  {
  }

  /** Heading right from (620, 100) lands on (0, 100); heading left from
      (0, 100) lands on (640, 100). */
  lemma ScenarioEdges()
    ensures Move(World(Snake([Cell(620, 100)], 1, Right, None, None), Cell(0, 0)), Cell(0, 0)).snake.positions == [Cell(0, 100)]
    ensures Move(World(Snake([Cell(0, 100)], 1, Left, None, None), Cell(0, 0)), Cell(0, 0)).snake.positions == [Cell(640, 100)]
  {
  }
}
