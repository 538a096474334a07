/** The 9x9 Sudoku board: its constants, positions, cells, units (rows,
    columns and 3x3 boxes) and the predicates the solver is specified by.
    A board is a value here; the board the solver changes in place is a
    `SudokuSolver.Puzzle` object holding one of these values. */
module Board {

  const GridSize := 9
  const SubgridSize := 3
  const EmptyCell := 0

  datatype Option<T> = None | Some(value: T)

  /** A (row, col) pair; the solver's positions have both in [0, GridSize). */
  datatype Pos = Pos(row: int, col: int)

  /** A board as a list of rows; `EmptyCell` marks an empty cell. */
  type Grid = seq<seq<int>>

  predicate InGrid(p: Pos) {
    0 <= p.row < GridSize && 0 <= p.col < GridSize
  }

  /** GridSize rows of GridSize cells each. The solver demands nothing more. */
  predicate IsShape(g: Grid) {
    |g| == GridSize && forall i :: 0 <= i < |g| ==> |g[i]| == GridSize
  }

  function At(g: Grid, p: Pos): int
    requires IsShape(g) && InGrid(p)
  {
    g[p.row][p.col]
  }

  /** The board `g` with the cell at `p` set to `v`, all else as before. */
  function Place(g: Grid, p: Pos, v: int): (h: Grid)
    requires IsShape(g) && InGrid(p)
    ensures IsShape(h)
    ensures At(h, p) == v
    ensures forall q {:trigger At(h, q)} :: InGrid(q) && q != p ==> At(h, q) == At(g, q)
  {
    g[p.row := g[p.row][p.col := v]]
  }

  /** Row-major order: `p` is scanned before `q`. */
  predicate Before(p: Pos, q: Pos) {
    p.row < q.row || (p.row == q.row && p.col < q.col)
  }

  /** The index of the 3x3 box holding `p` (floor division, as both are non-negative). */
  function BoxOf(p: Pos): Pos {
    Pos(p.row / SubgridSize, p.col / SubgridSize)
  }

  /** `q` lies in the 3x3 square whose top-left cell is `corner`. */
  predicate InSquare(q: Pos, corner: Pos) {
    corner.row <= q.row < corner.row + SubgridSize && corner.col <= q.col < corner.col + SubgridSize
  }

  /** The top-left cell of the box holding `p`: the box is the 3x3 square from there. */
  function BoxCorner(p: Pos): (c: Pos)
    requires InGrid(p)
    ensures InGrid(c) && c.row + SubgridSize <= GridSize && c.col + SubgridSize <= GridSize
    ensures InSquare(p, c)
  {
    Pos(BoxOf(p).row * SubgridSize, BoxOf(p).col * SubgridSize)
  }

  /** The cells of the box holding `p` are exactly the cells of the 3x3
      square from its corner. */
  lemma BoxIsSquare(p: Pos)
    requires InGrid(p)
    ensures forall q {:trigger BoxOf(q)} {:trigger InSquare(q, BoxCorner(p))} :: InGrid(q) ==> (BoxOf(q) == BoxOf(p) <==> InSquare(q, BoxCorner(p)))
  {
  }

  /** `p` and `q` share a row, a column or a box. */
  predicate SameUnit(p: Pos, q: Pos) {
    p.row == q.row || p.col == q.col || BoxOf(p) == BoxOf(q)
  }

  /** `num` may go at `pos`: no cell sharing a unit with `pos` holds it. */
  ghost predicate Allowed(g: Grid, num: int, pos: Pos)
    requires IsShape(g)
  {
    forall q {:trigger At(g, q)} :: InGrid(q) && SameUnit(q, pos) ==> At(g, q) != num
  }

  ghost predicate IsComplete(g: Grid)
    requires IsShape(g)
  {
    forall p {:trigger At(g, p)} :: InGrid(p) ==> At(g, p) != EmptyCell
  }

  /** No filled cell shares a unit with another cell holding the same value. */
  ghost predicate Consistent(g: Grid)
    requires IsShape(g)
  {
    forall p, q {:trigger At(g, p), At(g, q)} :: InGrid(p) && InGrid(q) && p != q && SameUnit(p, q) && At(g, p) != EmptyCell ==>
      At(g, p) != At(g, q)
  }

  /** `s` keeps every filled cell of `g`. */
  ghost predicate Extends(s: Grid, g: Grid)
    requires IsShape(s) && IsShape(g)
  {
    forall p {:trigger At(s, p)} {:trigger At(g, p)} :: InGrid(p) && At(g, p) != EmptyCell ==> At(s, p) == At(g, p)
  }

  /** `s` keeps every filled cell of `g` and holds a digit 1..9 in every cell `g` leaves empty. */
  ghost predicate Completes(s: Grid, g: Grid)
    requires IsShape(g)
  {
    IsShape(s) && Extends(s, g) &&
    forall p {:trigger At(s, p)} {:trigger At(g, p)} :: InGrid(p) && At(g, p) == EmptyCell ==> 1 <= At(s, p) <= GridSize
  }

  /** A solution of the puzzle `g`: a consistent completion. */
  ghost predicate IsSolutionOf(s: Grid, g: Grid)
    requires IsShape(g)
  {
    Completes(s, g) && Consistent(s)
  }

  /** Every cell of `g` that `s` fills in differs from the cells sharing a unit with it.
      This is what the search guarantees even when the given cells clash. */
  ghost predicate PlacedConsistent(s: Grid, g: Grid)
    requires IsShape(s) && IsShape(g)
  {
    forall p, q {:trigger SameUnit(p, q)} :: InGrid(p) && InGrid(q) && p != q && SameUnit(p, q) && At(g, p) == EmptyCell ==>
      At(s, p) != At(s, q)
  }

  /** Every position of the grid. */
  ghost function AllCells(): set<Pos> {
    set r, c | 0 <= r < GridSize && 0 <= c < GridSize :: Pos(r, c)
  }

  /** The empty cells of the board. */
  ghost function EmptyCells(g: Grid): set<Pos>
    requires IsShape(g)
  {
    set q | q in AllCells() && At(g, q) == EmptyCell
  }

  /** The number of empty cells of the board. */
  ghost function EmptyCount(g: Grid): nat
    requires IsShape(g)
  {
    |EmptyCells(g)|
  }

  /** Filling an empty cell leaves exactly one empty cell fewer. */
  lemma PlaceDecreasesEmptyCount(g: Grid, p: Pos, v: int)
    requires IsShape(g) && InGrid(p) && At(g, p) == EmptyCell && v != EmptyCell
    ensures EmptyCount(Place(g, p, v)) == EmptyCount(g) - 1
  {
    assert Pos(p.row, p.col) in AllCells();
    assert EmptyCells(Place(g, p, v)) == EmptyCells(g) - {p};
  }

  /** Two boards with the same cells are the same board. */
  lemma SameCells(a: Grid, b: Grid)
    requires IsShape(a) && IsShape(b)
    requires forall p {:trigger At(a, p)} {:trigger At(b, p)} :: InGrid(p) ==> At(a, p) == At(b, p)
    ensures a == b
  {
    forall i | 0 <= i < GridSize
      ensures a[i] == b[i]
    {
      forall j | 0 <= j < GridSize
        ensures a[i][j] == b[i][j]
      {
        assert At(a, Pos(i, j)) == At(b, Pos(i, j));
      }
    }
  }

  /** Resetting a cell that was empty undoes the write. */
  lemma PlaceUndo(g: Grid, pos: Pos, v: int)
    requires IsShape(g) && InGrid(pos) && At(g, pos) == EmptyCell
    ensures Place(Place(g, pos, v), pos, EmptyCell) == g
  {
    SameCells(Place(Place(g, pos, v), pos, EmptyCell), g);
  }

  /** Completing the board with one more cell filled by a digit completes the board. */
  lemma CompletesAfterPlace(s: Grid, g: Grid, pos: Pos, v: int)
    requires IsShape(g) && InGrid(pos) && At(g, pos) == EmptyCell && 1 <= v <= GridSize
    requires Completes(s, Place(g, pos, v))
    ensures Completes(s, g)
  {
  }
}
