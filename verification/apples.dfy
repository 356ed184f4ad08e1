/** The apple's random placement: one draw of `randomize_position`, and the
    rejection loop that repeats draws until one misses the snake's body. */
module Apples {
  import opened Wrappers
  import opened Grid

  /** The two results of `randint(0, GRID_WIDTH - 1)` and
      `randint(0, GRID_HEIGHT - 1)` behind one draw. */
  datatype Sample = Sample(col: int, row: int)

  predicate ValidSample(s: Sample) {
    0 <= s.col <= GridWidth - 1 && 0 <= s.row <= GridHeight - 1
  }

  predicate AllValid(draws: seq<Sample>) {
    forall i :: 0 <= i < |draws| ==> ValidSample(draws[i])
  }

  /** One draw: the sampled column and row scaled to pixels. */
  function RandomizePosition(s: Sample): (c: Cell)
    requires ValidSample(s)
    ensures OnBoard(c)
    ensures c.x / GridSize == s.col && c.y / GridSize == s.row
  {
    Cell(s.col * GridSize, s.row * GridSize)
  }

  /** Every board cell is produced by exactly one draw. */
  lemma RandomizeCoversBoard(c: Cell)
    requires OnBoard(c)
    ensures exists s :: ValidSample(s) && RandomizePosition(s) == c
    ensures forall s :: ValidSample(s) && RandomizePosition(s) == c ==> s == Sample(c.x / GridSize, c.y / GridSize)
  {
    var s := Sample(c.x / GridSize, c.y / GridSize);
    assert RandomizePosition(s) == c;
  }

  /** The rejection loop over a finite prefix of its random draws: the first
      drawn cell not in `occupied`, or `None` when every draw was occupied
      (the loop would still be running). */
  function Relocate(occupied: seq<Cell>, draws: seq<Sample>): (r: Option<Cell>)
    requires AllValid(draws)
    ensures r.Some? ==> OnBoard(r.value) && r.value !in occupied
    ensures r.Some? ==> exists i :: 0 <= i < |draws| && RandomizePosition(draws[i]) == r.value
    ensures r.None? <==> forall i :: 0 <= i < |draws| ==> RandomizePosition(draws[i]) in occupied
    decreases |draws|
  {
    if |draws| == 0 then None
    else
      var c := RandomizePosition(draws[0]);
      if c !in occupied then Some(c) else Relocate(occupied, draws[1..])
  }

  /** The draws before the accepted one all hit the body: the loop stops at
      the first free draw, not at a later one. */
  lemma {:induction false} RelocateTakesFirstFree(occupied: seq<Cell>, draws: seq<Sample>, i: int)
    requires AllValid(draws)
    requires 0 <= i < |draws| && RandomizePosition(draws[i]) !in occupied
    requires forall j :: 0 <= j < i ==> RandomizePosition(draws[j]) in occupied
    ensures Relocate(occupied, draws) == Some(RandomizePosition(draws[i]))
    decreases i
  {
    if i > 0 {
      var rest := draws[1..];
      assert forall j :: 0 <= j < i - 1 ==> rest[j] == draws[j + 1];
      RelocateTakesFirstFree(occupied, rest, i - 1);
    }
  }

  /** With a single free cell left on the board, any draw sequence that stops
      stops on that cell. */
  lemma RelocateOnNearlyFullBoard(occupied: seq<Cell>, draws: seq<Sample>, free: Cell)
    requires AllValid(draws)
    requires OnBoard(free) && free !in occupied
    requires forall c :: OnBoard(c) && c != free ==> c in occupied
    ensures Relocate(occupied, draws).Some? ==> Relocate(occupied, draws) == Some(free)
    ensures (exists i :: 0 <= i < |draws| && RandomizePosition(draws[i]) == free) ==> Relocate(occupied, draws) == Some(free)
  {
  }
}
