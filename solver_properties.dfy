/** What the search guarantees about the board it returns: soundness (the
    placed digits clash with nothing, and a consistent puzzle comes back
    solved), completeness (it fails only when no such completion exists)
    and that it returns the least such completion in row-major order. */
module SolverProperties {
  import opened Board
  import opened SudokuSolver

  /** A completion whose placed digits clash with nothing. */
  ghost predicate Admissible(s: Grid, g: Grid)
    requires IsShape(g)
  {
    Completes(s, g) && PlacedConsistent(s, g)
  }

  /** Filling the empty cell `pos` with a digit that is allowed there keeps
      every admissible completion of the new board admissible for the old. */
  lemma AdmissibleAfterPlace(s: Grid, g: Grid, pos: Pos, num: int)
    requires IsShape(g) && InGrid(pos) && At(g, pos) == EmptyCell && 1 <= num <= GridSize
    requires Allowed(g, num, pos)
    requires Admissible(s, Place(g, pos, num))
    ensures Admissible(s, g)
  {
    CompletesAfterPlace(s, g, pos, num);
    assert At(s, pos) == num;
    forall p, q | InGrid(p) && InGrid(q) && p != q && SameUnit(p, q) && At(g, p) == EmptyCell
      ensures At(s, p) != At(s, q)
    {
      if p == pos {
        if At(g, q) != EmptyCell {
          assert At(Place(g, pos, num), q) == At(g, q);
          assert SameUnit(q, pos);
        } else {
          assert At(Place(g, pos, num), q) == EmptyCell;
          assert SameUnit(q, p);
        }
      } else {
        assert At(Place(g, pos, num), p) == EmptyCell;
      }
    }
  }

  /** Conversely, an admissible completion of the board puts at its first
      empty cell a digit that is allowed there, and stays admissible once that
      digit is written. */
  lemma AdmissibleDigit(s: Grid, g: Grid, pos: Pos)
    requires IsShape(g) && InGrid(pos) && At(g, pos) == EmptyCell
    requires Admissible(s, g)
    ensures 1 <= At(s, pos) <= GridSize
    ensures Allowed(g, At(s, pos), pos)
    ensures Admissible(s, Place(g, pos, At(s, pos)))
  {
    var d := At(s, pos);
    forall q | InGrid(q) && SameUnit(q, pos)
      ensures At(g, q) != d
    {
      if q != pos && At(g, q) != EmptyCell {
        assert At(s, q) == At(g, q);
        assert SameUnit(pos, q);
      }
    }
    var h := Place(g, pos, d);
    forall p | InGrid(p) && At(h, p) != EmptyCell
      ensures At(s, p) == At(h, p)
    {
    }
  }

  /** Every board the search returns is an admissible completion: filled
      cells kept, each empty cell given a digit 1..9 that differs from every
      other cell of its row, column and box. */
  lemma {:induction false} SearchAdmissible(g: Grid)
    requires IsShape(g)
    ensures Search(g).Some? ==> Admissible(Search(g).value, g)
    decreases EmptyCount(g), GridSize + 1
  {
    SearchFirstEmpty(g);
    match FirstEmpty(g)
    case None =>
    case Some(pos) => TryDigitsAdmissible(g, pos, 1);
  }

  lemma {:induction false} TryDigitsAdmissible(g: Grid, pos: Pos, num: int)
    requires IsShape(g) && InGrid(pos) && At(g, pos) == EmptyCell && 1 <= num <= GridSize + 1
    ensures TryDigits(g, pos, num).Some? ==> Admissible(TryDigits(g, pos, num).value, g)
    decreases EmptyCount(g), GridSize + 1 - num
  {
    if num <= GridSize {
      TryDigitsStep(g, pos, num);
      if Allowed(g, num, pos) && Search(Place(g, pos, num)).Some? {
        SearchAdmissible(Place(g, pos, num));
        AdmissibleAfterPlace(Search(Place(g, pos, num)).value, g, pos, num);
      } else {
        TryDigitsAdmissible(g, pos, num + 1);
      }
    }
  }

  /** `a` and `b` hold the same values in every cell before `p` in row-major order. */
  ghost predicate AgreeBefore(a: Grid, b: Grid, p: Pos)
    requires IsShape(a) && IsShape(b)
  {
    forall q {:trigger At(a, q)} {:trigger At(b, q)} :: InGrid(q) && Before(q, p) ==> At(a, q) == At(b, q)
  }

  /** `a` comes no later than `b` in the order the search tries boards: equal,
      or smaller at the first cell in row-major order where they differ. */
  ghost predicate LexLeq(a: Grid, b: Grid) {
    IsShape(a) && IsShape(b) &&
    (a == b || exists p {:trigger AgreeBefore(a, b, p)} :: InGrid(p) && AgreeBefore(a, b, p) && At(a, p) < At(b, p))
  }

  /** The search returns a board whenever an admissible completion exists,
      and the board it returns is the least admissible completion in
      row-major order with digits compared as numbers. */
  lemma {:induction false} SearchLeast(g: Grid, s: Grid)
    requires IsShape(g) && Admissible(s, g)
    ensures Search(g).Some? && LexLeq(Search(g).value, s)
    decreases EmptyCount(g), GridSize + 1
  {
    SearchFirstEmpty(g);
    match FirstEmpty(g)
    case None =>
      assert s == g by {
        SameCells(s, g);
      }
    case Some(pos) =>
      AdmissibleDigit(s, g, pos);
      TryDigitsLeast(g, pos, 1, s);
  }

  /** A completion that writes a smaller digit than `s` at the first empty
      cell comes before `s`: all cells before it are given, so both agree there. */
  lemma SmallerDigitFirst(g: Grid, pos: Pos, num: int, r: Grid, s: Grid)
    requires IsShape(g) && IsFirstEmpty(g, pos) && Admissible(s, g)
    requires 1 <= num < At(s, pos) && Completes(r, Place(g, pos, num))
    ensures LexLeq(r, s)
  {
    forall q | InGrid(q) && Before(q, pos)
      ensures At(r, q) == At(s, q)
    {
      assert At(Place(g, pos, num), q) == At(g, q);
    }
    assert AgreeBefore(r, s, pos);
  }

  lemma {:induction false} TryDigitsLeast(g: Grid, pos: Pos, num: int, s: Grid)
    requires IsShape(g) && IsFirstEmpty(g, pos) && Admissible(s, g)
    requires 1 <= num <= At(s, pos) <= GridSize
    ensures TryDigits(g, pos, num).Some? && LexLeq(TryDigits(g, pos, num).value, s)
    decreases EmptyCount(g), GridSize + 1 - num
  {
    TryDigitsStep(g, pos, num);
    var h := Place(g, pos, num);
    if num == At(s, pos) {
      AdmissibleDigit(s, g, pos);
      SearchLeast(h, s);
      assert TryDigits(g, pos, num) == Search(h);
    } else if Allowed(g, num, pos) && Search(h).Some? {
      SearchCompletes(h);
      SmallerDigitFirst(g, pos, num, Search(h).value, s);
      assert TryDigits(g, pos, num) == Search(h);
    } else {
      TryDigitsLeast(g, pos, num + 1, s);
      assert TryDigits(g, pos, num) == TryDigits(g, pos, num + 1);
    }
  }

  /** The search finds a board whenever an admissible completion exists. */
  lemma SearchFindsAdmissible(g: Grid, s: Grid)
    requires IsShape(g) && Admissible(s, g)
    ensures Search(g).Some?
  {
    SearchLeast(g, s);
  }

  /** The solver reports success exactly when the puzzle has an admissible
      completion, whether or not its given cells agree with each other. */
  lemma SearchSucceedsIff(g: Grid)
    requires IsShape(g)
    ensures Search(g).Some? <==> exists s {:trigger Admissible(s, g)} :: Admissible(s, g)
  {
    if Search(g).Some? {
      SearchAdmissible(g);
    }
    if s :| Admissible(s, g) {
      SearchFindsAdmissible(g, s);
    }
  }

  /** A solution (consistent completion) is admissible. */
  lemma SolutionIsAdmissible(s: Grid, g: Grid)
    requires IsShape(g) && IsSolutionOf(s, g)
    ensures Admissible(s, g)
  {
    forall p, q | InGrid(p) && InGrid(q) && p != q && SameUnit(p, q) && At(g, p) == EmptyCell
      ensures At(s, p) != At(s, q)
    {
      assert At(s, p) != EmptyCell;
    }
  }

  /** On a consistent puzzle an admissible completion is a solution. */
  lemma AdmissibleIsSolution(s: Grid, g: Grid)
    requires IsShape(g) && Consistent(g) && Admissible(s, g)
    ensures IsSolutionOf(s, g)
  {
    forall p, q | InGrid(p) && InGrid(q) && p != q && SameUnit(p, q) && At(s, p) != EmptyCell
      ensures At(s, p) != At(s, q)
    {
      if At(g, p) == EmptyCell {
      } else if At(g, q) == EmptyCell {
        assert SameUnit(q, p);
      } else {
        assert At(s, p) == At(g, p) && At(s, q) == At(g, q);
      }
    }
  }

  /** Soundness: a consistent puzzle comes back solved. */
  lemma SearchSound(g: Grid)
    requires IsShape(g) && Consistent(g)
    ensures Search(g).Some? ==> IsSolutionOf(Search(g).value, g)
  {
    if Search(g).Some? {
      SearchAdmissible(g);
      AdmissibleIsSolution(Search(g).value, g);
    }
  }

  /** On a consistent puzzle whose given cells hold digits 1..9 (or are
      empty), a returned board is a solved Sudoku: a consistent completion
      that holds a digit 1..9 in every cell. */
  lemma SearchSolvesSudoku(g: Grid)
    requires IsShape(g) && Consistent(g)
    requires forall p {:trigger At(g, p)} :: InGrid(p) ==> 0 <= At(g, p) <= GridSize
    ensures Search(g).Some? ==> IsSolutionOf(Search(g).value, g)
    ensures Search(g).Some? ==> forall p {:trigger At(Search(g).value, p)} :: InGrid(p) ==> 1 <= At(Search(g).value, p) <= GridSize
  {
    if Search(g).Some? {
      SearchSound(g);
      var s := Search(g).value;
      forall p | InGrid(p)
        ensures 1 <= At(s, p) <= GridSize
      {
        if At(g, p) != EmptyCell {
          assert At(s, p) == At(g, p);
        }
      }
    }
  }

  /** Completeness: the search reports failure only when the puzzle has no
      solution. */
  lemma SearchComplete(g: Grid, s: Grid)
    requires IsShape(g) && IsSolutionOf(s, g)
    ensures Search(g).Some?
  {
    SolutionIsAdmissible(s, g);
    SearchFindsAdmissible(g, s);
  }

  /** On a consistent puzzle the solver succeeds exactly when a solution exists. */
  lemma ConsistentSearchSucceedsIff(g: Grid)
    requires IsShape(g) && Consistent(g)
    ensures Search(g).Some? <==> exists s {:trigger IsSolutionOf(s, g)} :: IsSolutionOf(s, g)
  {
    if Search(g).Some? {
      SearchSound(g);
    }
    if s :| IsSolutionOf(s, g) {
      SearchComplete(g, s);
    }
  }
}
