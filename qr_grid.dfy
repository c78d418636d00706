/**
 * The integer part of `generateQRCode`: a 29×29 grid whose three 7×7 corner
 * squares (top-left, top-right, bottom-left) are drawn as finder patterns,
 * scanned row by row to collect the dark modules. The fill of every other
 * cell comes from `Math.sin` and is a parameter here.
 */
module QrGrid {

  const QrSize: int := 29
  const FinderSize: int := 7

  /** `isFinderPattern`. */
  predicate InFinder(x: int, y: int)
  {
    (x < FinderSize && y < FinderSize) ||
    (x >= QrSize - FinderSize && y < FinderSize) ||
    (x < FinderSize && y >= QrSize - FinderSize)
  }

  /** `fx` from `x` (and `fy` from `y`): the coordinate inside its corner square. */
  function Local(v: int): int
  {
    if v < FinderSize then v else if v >= QrSize - FinderSize then v - QrSize + FinderSize else v
  }

  /** The `isDark` expression of a finder cell: its border, or its central 3×3 block. */
  predicate FinderDark(x: int, y: int)
  {
    var fx, fy := Local(x), Local(y);
    fx == 0 || fx == 6 || fy == 0 || fy == 6 || (fx >= 2 && fx <= 4 && fy >= 2 && fy <= 4)
  }

  /**
   * Whether the module at `(x, y)` is drawn. `fill(i)` stands for
   * `random(i) > 0.5`, which the source evaluates at `i = x * qrSize + y`.
   */
  predicate IsDark(x: int, y: int, fill: int -> bool)
  {
    if InFinder(x, y) then FinderDark(x, y) else fill(x * QrSize + y)
  }

  function Abs(v: int): nat
  {
    if v < 0 then -v else v
  }

  /** Chebyshev distance between two cells. */
  function Distance(x0: int, y0: int, x1: int, y1: int): nat
  {
    var dx, dy := Abs(x1 - x0), Abs(y1 - y0);
    if dx >= dy then dx else dy
  }

  /**
   * Reference picture of one finder pattern centred at `(cx, cy)`: the cells
   * at distance 3 (the outer ring) or at most 1 (the centre) are dark, those
   * at distance 2 (the light ring) are not.
   */
  predicate PatternAt(cx: int, cy: int, x: int, y: int)
  {
    Distance(cx, cy, x, y) <= 3 && Distance(cx, cy, x, y) != 2
  }

  predicate InSquareAt(cx: int, cy: int, x: int, y: int)
  {
    Distance(cx, cy, x, y) <= 3
  }

  /** The finder squares are the three 7×7 squares centred at (3, 3), (25, 3) and (3, 25). */
  lemma InFinderSquares(x: int, y: int)
    requires 0 <= x < QrSize && 0 <= y < QrSize
    ensures InFinder(x, y) <==> InSquareAt(3, 3, x, y) || InSquareAt(25, 3, x, y) || InSquareAt(3, 25, x, y)
  {
  }

  /**
   * Inside the grid, a finder cell is dark exactly where one of the three
   * reference patterns is.
   */
  lemma FinderDarkPattern(x: int, y: int)
    requires 0 <= x < QrSize && 0 <= y < QrSize
    ensures InFinder(x, y) && FinderDark(x, y) <==>
      PatternAt(3, 3, x, y) || PatternAt(25, 3, x, y) || PatternAt(3, 25, x, y)
  {
  }

  /** A grid position. The source scales it by `size / qrSize` pixels. */
  datatype Cell = Cell(x: int, y: int)

  predicate InGrid(c: Cell)
  {
    0 <= c.x < QrSize && 0 <= c.y < QrSize
  }

  /** Row-major position: the order in which the loops visit cells. */
  function Rank(c: Cell): int
  {
    c.y * QrSize + c.x
  }

  predicate Ascending(cells: seq<Cell>)
  {
    forall i, j :: 0 <= i < j < |cells| ==> Rank(cells[i]) < Rank(cells[j])
  }

  /**
   * The `modules` array the nested loops push: every dark cell of the grid
   * and nothing else, each once, in row-major order.
   */
  method DarkModules(fill: int -> bool) returns (modules: seq<Cell>)
    ensures forall c :: c in modules <==> InGrid(c) && IsDark(c.x, c.y, fill)
    ensures Ascending(modules)
  {
    modules := [];
    var y := 0;
    while y < QrSize
      invariant 0 <= y <= QrSize
      invariant forall c :: c in modules <==> InGrid(c) && c.y < y && IsDark(c.x, c.y, fill)
      invariant Ascending(modules)
      invariant forall i :: 0 <= i < |modules| ==> Rank(modules[i]) < y * QrSize
    {
      var x := 0;
      while x < QrSize
        invariant 0 <= x <= QrSize
        invariant forall c :: c in modules <==>
          InGrid(c) && (c.y < y || (c.y == y && c.x < x)) && IsDark(c.x, c.y, fill)
        invariant Ascending(modules)
        invariant forall i :: 0 <= i < |modules| ==> Rank(modules[i]) < y * QrSize + x
      {
        if IsDark(x, y, fill) {
          modules := modules + [Cell(x, y)];
        }
        x := x + 1;
      }
      y := y + 1;
    }
  }
}
