/** The snake and the per-tick state update: committing the pending
    direction, the move with its self-collision reset, plain step and growth. */
module Snakes {
  import opened Wrappers
  import opened Grid

  /** `positions` lists the body head first; `length` is the target length;
      `pending` is the direction chosen by input for the next tick; `last` is
      the cell vacated by the latest plain move, kept for erasing. */
  datatype Snake = Snake(
    positions: seq<Cell>,
    length: int,
    direction: Direction,
    pending: Option<Direction>,
    last: Option<Cell>)

  /** The snake together with the apple it can eat; `move` updates both. */
  datatype World = World(snake: Snake, apple: Cell)

  predicate NoDuplicates(cells: seq<Cell>) {
    forall i, j :: 0 <= i < j < |cells| ==> cells[i] != cells[j]
  }

  /** A freshly constructed snake: one cell in the centre, heading right,
      nothing pending and nothing to erase. */
  function Init(): (s: Snake)
    ensures |s.positions| == s.length == 1
    ensures s.positions[0] == Center && OnBoard(Center)
    ensures s.direction == Right && s.pending.None? && s.last.None?
  {
    Snake([Center], 1, Right, None, None)
  }

  /** Re-running the constructor on an existing snake: body and length go
      back to the start, while the direction, the pending direction and the
      vacated cell stay as they were. */
  function Reset(s: Snake): (r: Snake)
    ensures r.positions == Init().positions && r.length == Init().length
    ensures r.direction == s.direction && r.pending == s.pending && r.last == s.last
  {
    s.(positions := [Center], length := 1)
  }

  /** Commit the pending direction, if any, and clear it. */
  function UpdateDirection(s: Snake): (r: Snake)
    ensures r.pending.None?
    ensures s.pending.Some? ==> r.direction == s.pending.value
    ensures s.pending.None? ==> r == s
    ensures r.positions == s.positions && r.length == s.length && r.last == s.last
  {
    match s.pending
    case Some(d) => s.(direction := d, pending := None)
    case None => s
  }

  /** The cell the head moves to this tick. */
  function Candidate(s: Snake): Cell
    requires |s.positions| > 0
  {
    NextHead(s.positions[0], s.direction)
  }

  /** The candidate lies on the body, the tail cell included. */
  predicate Collides(s: Snake)
    requires |s.positions| > 0
  {
    Candidate(s) in s.positions
  }

  /** The candidate misses the body and lands on the apple. */
  predicate Eats(w: World)
    requires |w.snake.positions| > 0
  {
    !Collides(w.snake) && Candidate(w.snake) == w.apple
  }

  /** What the apple's new cell must satisfy if the snake eats this tick:
      a board cell outside the grown body. */
  predicate RelocationOk(w: World, pick: Cell) {
    |w.snake.positions| > 0 &&
    (Eats(w) ==> OnBoard(pick) && pick != Candidate(w.snake) && pick !in w.snake.positions)
  }

  /** One call of `move`: `pick` is the cell the apple's rejection loop ends on. */
  function Move(w: World, pick: Cell): (r: World)
    requires RelocationOk(w, pick)
    // self-collision: reset, nothing else changes
    ensures Collides(w.snake) ==> r == World(Reset(w.snake), w.apple)
    // every other outcome puts the candidate in front of the old body, in order
    ensures !Collides(w.snake) ==>
      && |r.snake.positions| > 0
      && r.snake.positions[0] == Candidate(w.snake)
      && |r.snake.positions| <= |w.snake.positions| + 1
      && (forall i :: 1 <= i < |r.snake.positions| ==> r.snake.positions[i] == w.snake.positions[i - 1])
      && r.snake.direction == w.snake.direction && r.snake.pending == w.snake.pending
    // plain move: the tail cell is dropped and remembered, the size is kept
    ensures !Collides(w.snake) && !Eats(w) ==>
      && |r.snake.positions| == |w.snake.positions|
      && r.snake.last == Some(w.snake.positions[|w.snake.positions| - 1])
      && r.snake.length == w.snake.length && r.apple == w.apple
    // growth: nothing is dropped, the target grows by one, the apple moves off the body
    ensures Eats(w) ==>
      && |r.snake.positions| == |w.snake.positions| + 1
      && r.snake.length == w.snake.length + 1
      && r.snake.last == w.snake.last
      && r.apple == pick && OnBoard(r.apple) && r.apple !in r.snake.positions
  {
    var s := w.snake;
    var head := Candidate(s);
    if head in s.positions then
      World(Reset(s), w.apple)
    else
      var grown := [head] + s.positions;
      if head != w.apple then
        World(s.(positions := grown[..|grown| - 1], last := Some(grown[|grown| - 1])), w.apple)
      else
        World(s.(positions := grown, length := s.length + 1), pick)
  }

  /** The state every tick boundary keeps: the body is as long as the target
      length, never empty, free of repeats, made of reachable cells, the
      apple is on the board and nothing is pending. */
  predicate Inv(w: World) {
    var s := w.snake;
    && |s.positions| == s.length
    && s.length >= 1
    && NoDuplicates(s.positions)
    && (forall i :: 0 <= i < |s.positions| ==> Reachable(s.positions[i]))
    && (s.last.Some? ==> Reachable(s.last.value))
    && s.pending.None?
    && OnBoard(w.apple)
  }

  /** The move keeps the body's length equal to the target length, keeps the
      body free of repeats and within the reachable cells. */
  lemma MovePreservesInv(w: World, pick: Cell)
    requires Inv(w) && RelocationOk(w, pick)
    ensures Inv(Move(w, pick))
  {
  }

  /** Following directly behind the tail is a collision: the tail cell has
      not been vacated yet when the candidate is tested. */
  lemma FollowingTailResets(w: World, pick: Cell)
    requires RelocationOk(w, pick)
    requires Candidate(w.snake) == w.snake.positions[|w.snake.positions| - 1]
    ensures Move(w, pick).snake.positions == [Center] && Move(w, pick).snake.length == 1
    ensures Move(w, pick).apple == w.apple
  {
  }
}
