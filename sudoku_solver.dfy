/** The backtracking solver: `FindEmpty` and `IsValid` read a board,
    `Search` is the depth-first search as a function of the board, and
    `Solve` runs that search in place on a `Puzzle`, writing a digit
    into the first empty cell, recursing, and resetting the cell when the
    branch fails. */
module SudokuSolver {
  import opened Board

  /** The first empty cell at or after (i, j) in row-major order. */
  function ScanFrom(g: Grid, i: int, j: int): (r: Option<Pos>)
    requires IsShape(g) && 0 <= i <= GridSize && 0 <= j <= GridSize
    ensures r.Some? ==> InGrid(r.value) && At(g, r.value) == EmptyCell && !Before(r.value, Pos(i, j))
    decreases GridSize - i, GridSize - j
  {
    if i == GridSize then None
    else if j == GridSize then ScanFrom(g, i + 1, 0)
    else if g[i][j] == EmptyCell then Some(Pos(i, j))
    else ScanFrom(g, i, j + 1)
  }

  /** The first empty cell in row-major order, or None when the board is full. */
  function FindEmpty(g: Grid): (r: Option<Pos>)
    requires IsShape(g)
    ensures r.Some? ==> InGrid(r.value) && At(g, r.value) == EmptyCell
  {
    ScanFrom(g, 0, 0)
  }

  /** `ScanFrom` finds the first empty cell at or after (i, j): every cell
      scanned before the one it returns is filled, and it returns None only
      when every cell from (i, j) on is filled. */
  lemma {:induction false} ScanFromFirst(g: Grid, i: int, j: int)
    requires IsShape(g) && 0 <= i <= GridSize && 0 <= j <= GridSize
    ensures ScanFrom(g, i, j).Some? ==>
      forall q {:trigger At(g, q)} :: InGrid(q) && !Before(q, Pos(i, j)) && Before(q, ScanFrom(g, i, j).value) ==> At(g, q) != EmptyCell
    ensures ScanFrom(g, i, j).None? <==> forall q {:trigger At(g, q)} :: InGrid(q) && !Before(q, Pos(i, j)) ==> At(g, q) != EmptyCell
    decreases GridSize - i, GridSize - j
  {
    if i == GridSize {
    } else if j == GridSize {
      ScanFromFirst(g, i + 1, 0);
    } else if g[i][j] == EmptyCell {
      assert At(g, Pos(i, j)) == EmptyCell;
    } else {
      ScanFromFirst(g, i, j + 1);
      assert At(g, Pos(i, j)) != EmptyCell;
    }
  }

  /** `pos` is the first empty cell of `g` in row-major order. */
  ghost predicate IsFirstEmpty(g: Grid, pos: Pos)
    requires IsShape(g)
  {
    InGrid(pos) && At(g, pos) == EmptyCell &&
    forall q {:trigger At(g, q)} :: InGrid(q) && Before(q, pos) ==> At(g, q) != EmptyCell
  }

  /** `FindEmpty` returns the first empty cell in row-major order, and
      None exactly when the board is complete. */
  lemma FindEmptyFirst(g: Grid)
    requires IsShape(g)
    ensures FindEmpty(g).Some? ==> IsFirstEmpty(g, FindEmpty(g).value)
    ensures FindEmpty(g).None? <==> IsComplete(g)
  {
    ScanFromFirst(g, 0, 0);
  }

  /** The first empty cell of the board in row-major order, or None when the
      board is complete: what `FindEmpty` computes, stated without the scan.
      Its properties are those of `FirstEmptyIs`, kept out of the function's
      own contract so that they are in scope only where a proof asks for them. */
  ghost function FirstEmpty(g: Grid): Option<Pos>
    requires IsShape(g)
  {
    if IsComplete(g) then None
    else
      FindEmptyFirst(g);
      var pos :| IsFirstEmpty(g, pos);
      Some(pos)
  }

  lemma FirstEmptyIs(g: Grid)
    requires IsShape(g)
    ensures FirstEmpty(g).Some? ==> IsFirstEmpty(g, FirstEmpty(g).value)
    ensures FirstEmpty(g).None? <==> IsComplete(g)
  {
  }

  /** A board has at most one first empty cell. */
  lemma FirstEmptyUnique(g: Grid, p: Pos, q: Pos)
    requires IsShape(g) && IsFirstEmpty(g, p) && IsFirstEmpty(g, q)
    ensures p == q
  {
    assert !Before(p, q) && !Before(q, p);
  }

  /** The scan finds exactly the first empty cell. */
  lemma FindEmptyIsFirstEmpty(g: Grid)
    requires IsShape(g)
    ensures FindEmpty(g) == FirstEmpty(g)
  {
    FindEmptyFirst(g);
    FirstEmptyIs(g);
    if FindEmpty(g).Some? {
      FirstEmptyUnique(g, FindEmpty(g).value, FirstEmpty(g).value);
    }
  }

  /** The cells of column `c`, top to bottom. */
  function Column(g: Grid, c: int): (col: seq<int>)
    requires IsShape(g) && 0 <= c < GridSize
    ensures |col| == GridSize && forall i :: 0 <= i < GridSize ==> col[i] == g[i][c]
  {
    seq(GridSize, i requires 0 <= i < GridSize => g[i][c])
  }

  /** The box scan from cell (i, j) on, row-major within the 3x3 box whose
      top-left cell is `corner`: no cell there other than `pos` holds `num`. */
  function BoxScan(g: Grid, num: int, pos: Pos, corner: Pos, i: int, j: int): (r: bool)
    requires IsShape(g) && InGrid(corner) && corner.row + SubgridSize <= GridSize && corner.col + SubgridSize <= GridSize
    requires corner.row <= i <= corner.row + SubgridSize && corner.col <= j <= corner.col + SubgridSize
    decreases corner.row + SubgridSize - i, corner.col + SubgridSize - j
  {
    if i == corner.row + SubgridSize then true
    else if j == corner.col + SubgridSize then BoxScan(g, num, pos, corner, i + 1, corner.col)
    else if g[i][j] == num && Pos(i, j) != pos then false
    else BoxScan(g, num, pos, corner, i, j + 1)
  }

  /** `BoxScan` from (i, j) holds exactly when no cell of the square from
      (i, j) on, other than `pos`, holds `num`. */
  lemma {:induction false} BoxScanNoOther(g: Grid, num: int, pos: Pos, corner: Pos, i: int, j: int)
    requires IsShape(g) && InGrid(corner) && corner.row + SubgridSize <= GridSize && corner.col + SubgridSize <= GridSize
    requires corner.row <= i <= corner.row + SubgridSize && corner.col <= j <= corner.col + SubgridSize
    ensures BoxScan(g, num, pos, corner, i, j) <==>
      forall q {:trigger At(g, q)} :: InGrid(q) && InSquare(q, corner) && q != pos && !Before(q, Pos(i, j)) ==> At(g, q) != num
    decreases corner.row + SubgridSize - i, corner.col + SubgridSize - j
  {
    if i == corner.row + SubgridSize {
    } else if j == corner.col + SubgridSize {
      BoxScanNoOther(g, num, pos, corner, i + 1, corner.col);
    } else if g[i][j] == num && Pos(i, j) != pos {
      assert At(g, Pos(i, j)) == num;
    } else {
      BoxScanNoOther(g, num, pos, corner, i, j + 1);
    }
  }

  /** May `num` go at `pos`? Not if it is anywhere in the row or the column
      of `pos`, nor in a cell of its box other than `pos`. */
  function IsValid(g: Grid, num: int, pos: Pos): (r: bool)
    requires IsShape(g) && InGrid(pos)
    ensures r ==> At(g, pos) != num
  {
    if num in g[pos.row] || num in Column(g, pos.col) then false
    else
      var corner := BoxCorner(pos);
      BoxScan(g, num, pos, corner, corner.row, corner.col)
  }

  /** `IsValid` holds exactly when `num` is in no cell of the row of `pos`,
      in no cell of its column, and in no cell of its 3x3 box other than `pos`. */
  lemma IsValidIff(g: Grid, num: int, pos: Pos)
    requires IsShape(g) && InGrid(pos)
    ensures IsValid(g, num, pos) <==>
      && (forall c :: 0 <= c < GridSize ==> g[pos.row][c] != num)
      && (forall i :: 0 <= i < GridSize ==> g[i][pos.col] != num)
      && (forall q {:trigger At(g, q)} :: InGrid(q) && BoxOf(q) == BoxOf(pos) && q != pos ==> At(g, q) != num)
  {
    var corner := BoxCorner(pos);
    BoxIsSquare(pos);
    BoxScanNoOther(g, num, pos, corner, corner.row, corner.col);
  }

  /** The box scan skips `pos` itself, but that never matters: `pos` is in
      its own row, so the row check has already rejected `num` there. */
  lemma IsValidAllowed(g: Grid, num: int, pos: Pos)
    requires IsShape(g) && InGrid(pos)
    ensures IsValid(g, num, pos) == Allowed(g, num, pos)
  {
    IsValidIff(g, num, pos);
    if IsValid(g, num, pos) {
      forall q | InGrid(q) && SameUnit(q, pos)
        ensures At(g, q) != num
      {
        if q.row != pos.row && q.col != pos.col {
          assert BoxOf(q) == BoxOf(pos);
        }
      }
    } else if Allowed(g, num, pos) {
      forall c | 0 <= c < GridSize
        ensures g[pos.row][c] != num
      {
        assert At(g, Pos(pos.row, c)) != num;
      }
      forall i | 0 <= i < GridSize
        ensures g[i][pos.col] != num
      {
        assert At(g, Pos(i, pos.col)) != num;
      }
    }
  }

  /** The search as a function of the board: fill the first empty cell with
      the first digit 1..9 that is `Allowed` there (what `IsValid` checks, by
      `IsValidAllowed`) and whose board the search
      completes; None when no digit does. */
  ghost function Search(g: Grid): (r: Option<Grid>)
    requires IsShape(g)
    decreases EmptyCount(g), GridSize + 1
  {
    FirstEmptyIs(g);
    match FirstEmpty(g)
    case None => Some(g)
    case Some(pos) => TryDigits(g, pos, 1)
  }

  /** The loop over the digits num..9 at the empty cell `pos`. */
  ghost function TryDigits(g: Grid, pos: Pos, num: int): (r: Option<Grid>)
    requires IsShape(g) && InGrid(pos) && At(g, pos) == EmptyCell && 1 <= num <= GridSize + 1
    decreases EmptyCount(g), GridSize + 1 - num
  {
    if num > GridSize then None
    else if Allowed(g, num, pos) then
      PlaceDecreasesEmptyCount(g, pos, num);
      match Search(Place(g, pos, num))
      case Some(s) => Some(s)
      case None => TryDigits(g, pos, num + 1)
    else TryDigits(g, pos, num + 1)
  }

  /** One turn of the digit loop. */
  lemma TryDigitsStep(g: Grid, pos: Pos, num: int)
    requires IsShape(g) && InGrid(pos) && At(g, pos) == EmptyCell && 1 <= num <= GridSize
    ensures TryDigits(g, pos, num) ==
      if Allowed(g, num, pos) && Search(Place(g, pos, num)).Some? then Search(Place(g, pos, num)) else TryDigits(g, pos, num + 1)
    ensures EmptyCount(Place(g, pos, num)) < EmptyCount(g)
  {
    PlaceDecreasesEmptyCount(g, pos, num);
  }

  /** One turn of the loop in `Solve`, as it tests the digit with `IsValid`:
      the write it makes shrinks the empty cells and its reset undoes it. */
  lemma SolveStep(g: Grid, pos: Pos, num: int)
    requires IsShape(g) && InGrid(pos) && At(g, pos) == EmptyCell && 1 <= num <= GridSize
    ensures TryDigits(g, pos, num) ==
      if IsValid(g, num, pos) && Search(Place(g, pos, num)).Some? then Search(Place(g, pos, num)) else TryDigits(g, pos, num + 1)
    ensures EmptyCount(Place(g, pos, num)) < EmptyCount(g)
    ensures Place(Place(g, pos, num), pos, EmptyCell) == g
  {
    TryDigitsStep(g, pos, num);
    IsValidAllowed(g, num, pos);
    PlaceUndo(g, pos, num);
  }

  /** The search at the first empty cell, or the board itself when there is none. */
  lemma SearchFirstEmpty(g: Grid)
    requires IsShape(g)
    ensures FirstEmpty(g).None? <==> IsComplete(g)
    ensures FirstEmpty(g).None? ==> Search(g) == Some(g)
    ensures FirstEmpty(g).Some? ==> IsFirstEmpty(g, FirstEmpty(g).value)
    ensures FirstEmpty(g).Some? ==> Search(g) == TryDigits(g, FirstEmpty(g).value, 1)
  {
    FirstEmptyIs(g);
  }

  /** The start of `Solve`: a full board is its own result; otherwise the
      search runs the digit loop at the cell `FindEmpty` returns. */
  lemma SolveStart(g: Grid)
    requires IsShape(g)
    ensures FindEmpty(g).None? ==> Search(g) == Some(g)
    ensures FindEmpty(g).Some? ==> Search(g) == TryDigits(g, FindEmpty(g).value, 1)
  {
    FindEmptyIsFirstEmpty(g);
    SearchFirstEmpty(g);
  }

  /** Past digit 9 the digit loop has failed. */
  lemma TryDigitsExhausted(g: Grid, pos: Pos)
    requires IsShape(g) && InGrid(pos) && At(g, pos) == EmptyCell
    ensures TryDigits(g, pos, GridSize + 1) == None
  {
  }

  /** Whatever the search returns completes the board it started from:
      every filled cell kept, every empty cell given a digit 1..9. */
  lemma {:induction false} SearchCompletes(g: Grid)
    requires IsShape(g)
    ensures Search(g).Some? ==> Completes(Search(g).value, g)
    decreases EmptyCount(g), GridSize + 1
  {
    SearchFirstEmpty(g);
    match FirstEmpty(g)
    case None =>
    case Some(pos) => TryDigitsCompletes(g, pos, 1);
  }

  lemma {:induction false} TryDigitsCompletes(g: Grid, pos: Pos, num: int)
    requires IsShape(g) && InGrid(pos) && At(g, pos) == EmptyCell && 1 <= num <= GridSize + 1
    ensures TryDigits(g, pos, num).Some? ==> Completes(TryDigits(g, pos, num).value, g)
    decreases EmptyCount(g), GridSize + 1 - num
  {
    if num <= GridSize {
      TryDigitsStep(g, pos, num);
      if Allowed(g, num, pos) && Search(Place(g, pos, num)).Some? {
        SearchCompletes(Place(g, pos, num));
        CompletesAfterPlace(Search(Place(g, pos, num)).value, g, pos, num);
      } else {
        TryDigitsCompletes(g, pos, num + 1);
      }
    }
  }

  /** A complete board is its own search result: the solver succeeds and
      leaves it unchanged. */
  lemma SearchCompleteBoard(g: Grid)
    requires IsShape(g) && IsComplete(g)
    ensures Search(g) == Some(g)
  {
    SearchFirstEmpty(g);
  }

  /** The caller's board: a 9x9 list of rows that the solver changes in
      place, so the caller sees the solution (or the unchanged board). */
  class Puzzle {
    var cells: Grid

    constructor (g: Grid)
      requires IsShape(g)
      ensures cells == g
    {
      cells := g;
    }

    /** Writes `v` into the cell at `pos`. */
    method Set(pos: Pos, v: int)
      requires IsShape(cells) && InGrid(pos)
      modifies this
      ensures cells == Place(old(cells), pos, v)
    {
      cells := Place(cells, pos, v);
    }
  }

  /** Solves the board in place. On success the board holds the grid the
      search finds; on failure it is exactly as it was on entry. */
  method Solve(board: Puzzle) returns (ok: bool)
    requires IsShape(board.cells)
    modifies board
    ensures ok == Search(old(board.cells)).Some?
    ensures ok ==> board.cells == Search(old(board.cells)).value
    ensures !ok ==> board.cells == old(board.cells)
    decreases EmptyCount(board.cells)
  {
    SolveStart(board.cells);
    var empty := FindEmpty(board.cells);
    if empty.None? {
      return true;
    }
    var pos := empty.value;
    ghost var g := board.cells;
    for num := 1 to GridSize + 1
      invariant board.cells == g
      invariant TryDigits(g, pos, num) == Search(g)
    {
      SolveStep(g, pos, num);
      if IsValid(board.cells, num, pos) {
        board.Set(pos, num);
        ok := Solve(board);
        if ok {
          return true;
        }
        board.Set(pos, EmptyCell);
      }
    }
    TryDigitsExhausted(g, pos);
    return false;
  }
}
