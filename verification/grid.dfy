/** Board geometry of the snake game: the pixel constants, cells, the four
    directions and the one-step move of the head with its edge handling. */
module Grid {

  const ScreenWidth: int := 640
  const ScreenHeight: int := 480
  const GridSize: int := 20
  /** Number of columns (32) and rows (24) of the board. */
  const GridWidth: int := ScreenWidth / GridSize
  const GridHeight: int := ScreenHeight / GridSize

  /** A cell addressed by the pixel coordinates of its top-left corner. */
  datatype Cell = Cell(x: int, y: int)

  /** The start cell of every game object: the middle of the board, (320, 240). */
  const Center: Cell := Cell(GridWidth / 2 * GridSize, GridHeight / 2 * GridSize)

  /** The four unit vectors UP (0,-1), DOWN (0,1), LEFT (-1,0), RIGHT (1,0). */
  datatype Direction = Up | Down | Left | Right {

    function Dx(): int {
      match this
      case Left => -1
      case Right => 1
      case _ => 0
    }

    function Dy(): int {
      match this
      case Up => -1
      case Down => 1
      case _ => 0
    }

    /** The direction whose vector is the negation of this one. */
    function Opposite(): (o: Direction)
      ensures o.Dx() == -Dx() && o.Dy() == -Dy()
      ensures o != this
    {
      match this
      case Up => Down
      case Down => Up
      case Left => Right
      case Right => Left
    }
  }

  predicate Aligned(c: Cell) {
    c.x % GridSize == 0 && c.y % GridSize == 0
  }

  /** One of the 32 x 24 cells that are drawn inside the window. */
  predicate OnBoard(c: Cell) {
    Aligned(c) && 0 <= c.x < ScreenWidth && 0 <= c.y < ScreenHeight
  }

  /** The cells a head can ever occupy: the board plus the column x = 640
      and the row y = 480 just outside it, which the edge handling of the
      move produces when the head leaves through the left or top edge. */
  predicate Reachable(c: Cell) {
    Aligned(c) && 0 <= c.x <= ScreenWidth && 0 <= c.y <= ScreenHeight
  }

  /** Edge handling of one coordinate: a value at or past `limit` becomes 0,
      a negative value becomes `limit` itself, any other value is kept. */
  function WrapAxis(v: int, limit: int): (r: int)
    requires limit > 0
    ensures 0 <= r <= limit
    ensures r == limit <==> v < 0
    ensures v >= limit ==> r == 0
    ensures 0 <= v < limit ==> r == v
  {
    if v < 0 || v >= limit then (if v >= limit then 0 else limit) else v
  }

  /** The textbook torus step, used only as a reference for the edge handling. */
  function TorusStep(head: Cell, d: Direction): Cell {
    Cell((head.x + d.Dx() * GridSize) % ScreenWidth,
         (head.y + d.Dy() * GridSize) % ScreenHeight)
  }

  /** True when the step leaves the board through its left or top edge. */
  predicate LeavesLeftOrTop(head: Cell, d: Direction) {
    (d == Left && head.x == 0) || (d == Up && head.y == 0)
  }

  /** True when the step continues outward from the off-board column x = 640
      or row y = 480. */
  predicate LeavesOffBoardLine(head: Cell, d: Direction) {
    (d == Right && head.x == ScreenWidth) || (d == Down && head.y == ScreenHeight)
  }

  /** The candidate head: the old head moved one cell along `d`, each axis
      passed through the edge handling with limits 640 and 480. */
  function NextHead(head: Cell, d: Direction): (r: Cell)
    ensures Reachable(head) ==> Reachable(r) && r != head
    ensures Reachable(head) && !LeavesLeftOrTop(head, d) && !LeavesOffBoardLine(head, d) ==> r == TorusStep(head, d)
    ensures d.Dx() == 0 && 0 <= head.x < ScreenWidth ==> r.x == head.x
    ensures d.Dy() == 0 && 0 <= head.y < ScreenHeight ==> r.y == head.y
  {
    Cell(WrapAxis(head.x + d.Dx() * GridSize, ScreenWidth),
         WrapAxis(head.y + d.Dy() * GridSize, ScreenHeight))
  }

  /** From every reachable cell, the move agrees with the torus except when
      the head leaves through the left or top edge, or continues outward from
      the off-board column or row. */
  lemma NextHeadAgreesWithTorus(head: Cell, d: Direction)
    requires Reachable(head)
    ensures NextHead(head, d) == TorusStep(head, d) <==> !LeavesLeftOrTop(head, d) && !LeavesOffBoardLine(head, d)
  {
  }

  /** Leaving through the left or top edge lands one cell past the opposite
      edge, outside the board, instead of on the last column or row. */
  lemma LeftOrTopExitLeavesBoard(head: Cell, d: Direction)
    requires Reachable(head) && LeavesLeftOrTop(head, d)
    ensures !OnBoard(NextHead(head, d))
    ensures d == Left ==> NextHead(head, d) == Cell(ScreenWidth, if head.y == ScreenHeight then 0 else head.y)
    ensures d == Up ==> NextHead(head, d) == Cell(if head.x == ScreenWidth then 0 else head.x, ScreenHeight)
    ensures TorusStep(head, d) == (if d == Left then NextHead(head, d).(x := ScreenWidth - GridSize) else NextHead(head, d).(y := ScreenHeight - GridSize))
  {
  }

  /** Continuing outward from the off-board column (row) lands on coordinate
      0, one cell short of where the torus would put it. */
  lemma OffBoardLineExitWrapsToZero(head: Cell, d: Direction)
    requires Reachable(head) && LeavesOffBoardLine(head, d)
    ensures d == Right ==> NextHead(head, d).x == 0 && TorusStep(head, d).x == GridSize
    ensures d == Down ==> NextHead(head, d).y == 0 && TorusStep(head, d).y == GridSize
  {
  }

  /** The corner (640, 480) is never entered: a step moves one axis, and a
      coordinate already on the off-board line is reset to 0 by the other. */
  lemma CornerNeverEntered(head: Cell, d: Direction)
    requires Reachable(head)
    ensures NextHead(head, d) != Cell(ScreenWidth, ScreenHeight)
  {
  }

  /** A head on the off-board column x = 640 (or row y = 480) that turns to
      move along that column (row) is sent to coordinate 0 on the same step. */
  lemma OffBoardLineJumpsToZero(head: Cell, d: Direction)
    requires Reachable(head)
    ensures head.x == ScreenWidth && d.Dx() == 0 ==> NextHead(head, d).x == 0
    ensures head.y == ScreenHeight && d.Dy() == 0 ==> NextHead(head, d).y == 0
  {
  }

  /** Leaving through the right or bottom edge re-enters at coordinate 0. */
  lemma RightOrBottomExitWrapsToZero(head: Cell, d: Direction)
    requires OnBoard(head)
    ensures d == Right && head.x == ScreenWidth - GridSize ==> NextHead(head, d) == Cell(0, head.y)
    ensures d == Down && head.y == ScreenHeight - GridSize ==> NextHead(head, d) == Cell(head.x, 0)
  {
  }
}
