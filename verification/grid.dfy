/**
 * Playfield geometry of the snake game: window and cell sizes, pixel
 * positions, the four directions, the edge wrap-around, a one-cell move and
 * the overlap test between two cell-sized squares.
 *
 * Positions are whole pixels. Every position the game produces is a multiple
 * of the cell size, so integer pixels are exact.
 */
module Grid {

  const WinWidth: int := 420
  const WinHeight: int := 660
  /** Side of one cell, in pixels. */
  const Scl: int := 15
  /** Height of the score band across the top of the window. */
  const HudHeight: int := 30
  /** Largest x and y a cell may start at and still be inside the window. */
  const MaxX: int := WinWidth - Scl
  const MaxY: int := WinHeight - Scl

  /** Declared in the order up, right, down, left, as the source numbers them. */
  datatype Dir = Up | Right | Down | Left

  datatype Pos = Pos(x: int, y: int)

  /** A column and a row drawn at random, to be scaled by Scl. */
  datatype Cell = Cell(col: int, row: int)

  function Abs(n: int): nat {
    if n < 0 then -n else n
  }

  function Opposite(d: Dir): (r: Dir)
    ensures r != d
  {
    match d
    case Up => Down
    case Down => Up
    case Right => Left
    case Left => Right
  }

  /** The position is the corner of a grid cell. */
  predicate OnGrid(p: Pos) {
    p.x % Scl == 0 && p.y % Scl == 0
  }

  /** The cell lies inside the window and below the score band. */
  predicate InPlayfield(p: Pos) {
    0 <= p.x <= MaxX && HudHeight <= p.y <= MaxY
  }

  /** The cell lies at most one cell beyond the playfield on any side. */
  predicate NearPlayfield(p: Pos) {
    -Scl <= p.x <= WinWidth && HudHeight - Scl <= p.y <= WinHeight
  }

  /** Range of the draws GetRandomValue(0, winWidth/scl - 1) and GetRandomValue(2, winHeight/scl - 1). */
  predicate SpawnCell(c: Cell) {
    0 <= c.col <= WinWidth / Scl - 1 && 2 <= c.row <= WinHeight / Scl - 1
  }

  /** Range of the draws made when an uneaten fruit times out: the upper bounds are one larger. */
  predicate TimeoutCell(c: Cell) {
    0 <= c.col <= WinWidth / Scl && 2 <= c.row <= WinHeight / Scl
  }

  /** The pixel position of a drawn cell. */
  function CellPos(c: Cell): (p: Pos)
    ensures OnGrid(p)
    ensures SpawnCell(c) ==> InPlayfield(p)
    ensures TimeoutCell(c) ==> NearPlayfield(p)
  {
    Pos(c.col * Scl, c.row * Scl)
  }

  /** The timeout range reaches one cell past the right and bottom edges. */
  lemma TimeoutCellMayLeavePlayfield()
    ensures exists c :: TimeoutCell(c) && !InPlayfield(CellPos(c))
  {
    var c := Cell(WinWidth / Scl, 2);
    assert CellPos(c).x == WinWidth;
    assert TimeoutCell(c) && !InPlayfield(CellPos(c));
  }

  /**
   * Edge wrap-around of the head: a cell past the right edge comes back at
   * the left edge and vice versa; a cell past the bottom edge comes back just
   * below the score band, and one that entered the band comes back at the bottom.
   */
  function Wrap(p: Pos): (r: Pos)
    ensures InPlayfield(r)
    ensures InPlayfield(p) ==> r == p
    ensures 0 <= p.x <= MaxX ==> r.x == p.x
    ensures HudHeight <= p.y <= MaxY ==> r.y == p.y
    ensures OnGrid(p) ==> OnGrid(r)
  {
    var x := if p.x > MaxX then 0 else if p.x < 0 then MaxX else p.x;
    var y := if p.y > MaxY then HudHeight else if p.y < HudHeight then MaxY else p.y;
    Pos(x, y)
  }

  /** A cell one step past an edge wraps to the opposite edge, on the same row or column. */
  lemma WrapReturnsAtOppositeEdge(p: Pos)
    requires InPlayfield(p)
    ensures p.x == MaxX ==> Wrap(Moved(p, Right)) == Pos(0, p.y)
    ensures p.x == 0 ==> Wrap(Moved(p, Left)) == Pos(MaxX, p.y)
    ensures p.y == MaxY ==> Wrap(Moved(p, Down)) == Pos(p.x, HudHeight)
    ensures p.y == HudHeight ==> Wrap(Moved(p, Up)) == Pos(p.x, MaxY)
  {
  }

  /** The position one cell further in direction d (up is towards smaller y). */
  function Moved(p: Pos, d: Dir): (r: Pos)
    ensures Abs(r.x - p.x) + Abs(r.y - p.y) == Scl
    ensures OnGrid(p) ==> OnGrid(r)
    ensures InPlayfield(p) ==> NearPlayfield(r)
  {
    match d
    case Up => Pos(p.x, p.y - Scl)
    case Down => Pos(p.x, p.y + Scl)
    case Right => Pos(p.x + Scl, p.y)
    case Left => Pos(p.x - Scl, p.y)
  }

  /** A move in the opposite direction undoes a move. */
  lemma MovedBack(p: Pos, d: Dir)
    ensures Moved(Moved(p, d), Opposite(d)) == p
  {
  }

  /**
   * Two Scl x Scl squares with corners a and b overlap: strictly, so squares
   * that only share an edge do not.
   */
  predicate Overlap(a: Pos, b: Pos) {
    a.x < b.x + Scl && a.x + Scl > b.x && a.y < b.y + Scl && a.y + Scl > b.y
  }

  lemma SameCoordinate(u: int, v: int)
    requires u % Scl == 0 && v % Scl == 0
    requires u < v + Scl && v < u + Scl
    ensures u == v
  {
  }

  /** For grid-aligned squares, overlapping is the same as being at the same position. */
  lemma OverlapIsSameCell(a: Pos, b: Pos)
    requires OnGrid(a) && OnGrid(b)
    ensures Overlap(a, b) <==> a == b
  {
    if Overlap(a, b) {
      SameCoordinate(a.x, b.x);
      SameCoordinate(a.y, b.y);
    }
  }
}
