/** Concrete boards and what the search does with them: the empty board,
    a full board whose given cells clash, a board with one forced cell, and
    a board with two 7s in its first row. */
module SampleBoards {
  import opened Board
  import opened SudokuSolver
  import opened SolverProperties

  /** The board with every cell set to `v`. */
  function Filled(v: int): (g: Grid)
    ensures IsShape(g)
    ensures forall p {:trigger At(g, p)} :: InGrid(p) ==> At(g, p) == v
  {
    seq(GridSize, i => seq(GridSize, j => v))
  }

  /** The digit at row `r`, column `c` of `Banded()`: the first row is
      1..9 and row r is it shifted left by 3 * (r % 3) + r / 3 places. */
  function BandedDigit(r: int, c: int): int {
    (3 * (r % 3) + r / 3 + c) % 9 + 1
  }

  /** A solved board whose first row is 1..9. */
  function Banded(): (g: Grid)
    ensures IsShape(g)
    ensures forall p {:trigger At(g, p)} :: InGrid(p) ==> At(g, p) == BandedDigit(p.row, p.col)
  {
    seq(GridSize, i => seq(GridSize, j => BandedDigit(i, j)))
  }

  /** Two numbers less than 9 apart and not equal leave different remainders. */
  lemma ModNine(x: int, y: int)
    requires 0 <= x && 0 <= y && x != y && x - 9 < y < x + 9
    ensures x % 9 != y % 9
  {
  }

  /** Two different cells of one row, column or box get different digits. */
  lemma BandedDigitsDiffer(p: Pos, q: Pos)
    requires InGrid(p) && InGrid(q) && p != q && SameUnit(p, q)
    ensures BandedDigit(p.row, p.col) != BandedDigit(q.row, q.col)
  {
    var a, b, c := p.row % 3, p.row / 3, p.col;
    var a', b', c' := q.row % 3, q.row / 3, q.col;
    assert p.row == 3 * b + a && q.row == 3 * b' + a';
    if p.row != q.row && p.col != q.col {
      assert b == b' && c / 3 == c' / 3;
    }
    ModNine(3 * a + b + c, 3 * a' + b' + c');
  }

  lemma BandedSolvesEmpty()
    ensures IsSolutionOf(Banded(), Filled(EmptyCell))
  {
    var b := Banded();
    forall p, q | InGrid(p) && InGrid(q) && p != q && SameUnit(p, q) && At(b, p) != EmptyCell
      ensures At(b, p) != At(b, q)
    {
      BandedDigitsDiffer(p, q);
    }
  }

  /** Where `r` agrees with `w` on the first row up to the cell `p` of that
      row, the digit `r` places at `p` differs from the digits 1..k held by
      the first k cells, so it is greater than k. */
  lemma {:induction false} FirstRowPrefix(r: Grid, g: Grid, w: Grid, p: Pos, k: int)
    requires IsShape(g) && Admissible(r, g) && IsShape(w) && InGrid(p) && p.row == 0 && AgreeBefore(r, w, p)
    requires forall c :: 0 <= c < GridSize ==> g[0][c] == EmptyCell && w[0][c] == c + 1
    requires 0 <= k <= p.col
    ensures At(r, p) > k
  {
    assert At(g, p) == EmptyCell;
    if k > 0 {
      FirstRowPrefix(r, g, w, p, k - 1);
      assert At(w, Pos(0, k - 1)) == k;
      assert At(r, Pos(0, k - 1)) == k;
      assert SameUnit(p, Pos(0, k - 1));
    }
  }

  /** When the first row of the puzzle is empty and some admissible
      completion has 1, 2, ..., 9 there, the search puts 1, 2, ..., 9 there:
      a smaller digit at the first cell where they differ would repeat one of
      the digits before it in the row. */
  lemma LeastFirstRow(g: Grid, w: Grid)
    requires IsShape(g) && Admissible(w, g)
    requires forall c :: 0 <= c < GridSize ==> g[0][c] == EmptyCell && w[0][c] == c + 1
    ensures Search(g).Some? && Admissible(Search(g).value, g)
    ensures forall c :: 0 <= c < GridSize ==> Search(g).value[0][c] == c + 1
  {
    SearchLeast(g, w);
    SearchAdmissible(g);
    var r := Search(g).value;
    if r != w {
      var p :| InGrid(p) && AgreeBefore(r, w, p) && At(r, p) < At(w, p);
      if p.row == 0 {
        FirstRowPrefix(r, g, w, p, p.col);
        assert false;
      }
      forall c | 0 <= c < GridSize
        ensures r[0][c] == c + 1
      {
        assert At(r, Pos(0, c)) == At(w, Pos(0, c));
      }
    }
  }

  /** On the empty board the solver succeeds and fills the first row with
      1, 2, ..., 9 in order. */
  lemma EmptyBoardFirstRow(g: Grid)
    requires g == Filled(EmptyCell)
    ensures Search(g).Some? && IsSolutionOf(Search(g).value, g)
    ensures forall c :: 0 <= c < GridSize ==> Search(g).value[0][c] == c + 1
  {
    BandedSolvesEmpty();
    SolutionIsAdmissible(Banded(), g);
    forall c | 0 <= c < GridSize
      ensures g[0][c] == EmptyCell && Banded()[0][c] == c + 1
    {
      assert At(Banded(), Pos(0, c)) == c + 1;
      assert At(g, Pos(0, c)) == EmptyCell;
    }
    LeastFirstRow(g, Banded());
    assert Consistent(g);
    AdmissibleIsSolution(Search(g).value, g);
  }

  /** The solver does not check the given cells against each other: a full
      board of 1s is accepted as it is. */
  lemma FullClashingBoardAccepted()
    ensures !Consistent(Filled(1))
    ensures Search(Filled(1)) == Some(Filled(1))
  {
    var g := Filled(1);
    assert At(g, Pos(0, 0)) == At(g, Pos(0, 1));
    SearchCompleteBoard(g);
  }

  /** A board whose only empty cell admits exactly one digit comes back with
      that digit written there and nothing else changed. */
  lemma ForcedLastCell(g: Grid, pos: Pos, d: int)
    requires IsShape(g) && InGrid(pos) && At(g, pos) == EmptyCell
    requires forall q {:trigger At(g, q)} :: InGrid(q) && q != pos ==> At(g, q) != EmptyCell
    requires 1 <= d <= GridSize && IsValid(g, d, pos)
    requires forall e :: 1 <= e <= GridSize && e != d ==> !IsValid(g, e, pos)
    ensures Search(g) == Some(Place(g, pos, d))
  {
    var h := Place(g, pos, d);
    IsValidAllowed(g, d, pos);
    forall p, q | InGrid(p) && InGrid(q) && p != q && SameUnit(p, q) && At(g, p) == EmptyCell
      ensures At(h, p) != At(h, q)
    {
      assert p == pos;
      assert SameUnit(q, pos);
    }
    assert Admissible(h, g);
    SearchFindsAdmissible(g, h);
    SearchAdmissible(g);
    var r := Search(g).value;
    AdmissibleDigit(r, g, pos);
    IsValidAllowed(g, At(r, pos), pos);
    SameCells(r, h);
  }

  /** Distinct values drawn from a finite set number at most its size. */
  lemma {:induction false} Pigeonhole(xs: seq<int>, allowed: set<int>)
    requires forall i :: 0 <= i < |xs| ==> xs[i] in allowed
    requires forall i, j :: 0 <= i < j < |xs| ==> xs[i] != xs[j]
    ensures |xs| <= |allowed|
  {
    if xs != [] {
      var last := xs[|xs| - 1];
      Pigeonhole(xs[..|xs| - 1], allowed - {last});
    }
  }

  /** The board with a 7 at (0, 0) and at (0, 5) and every other cell empty. */
  function TwoSevens(): (g: Grid)
    ensures IsShape(g)
    ensures forall p {:trigger At(g, p)} :: InGrid(p) ==> At(g, p) == if p == Pos(0, 0) || p == Pos(0, 5) then 7 else EmptyCell
  {
    Place(Place(Filled(EmptyCell), Pos(0, 0), 7), Pos(0, 5), 7)
  }

  /** In an admissible completion of `TwoSevens()` every row below the first
      holds a 7: its nine cells are all placed, so they hold nine different
      digits. */
  lemma RowHasSeven(s: Grid, g: Grid, i: int) returns (c: int)
    requires g == TwoSevens() && Admissible(s, g) && 1 <= i < GridSize
    ensures 0 <= c < GridSize && s[i][c] == 7
  {
    if forall c :: 0 <= c < GridSize ==> s[i][c] != 7 {
      forall j | 0 <= j < GridSize
        ensures s[i][j] in {1, 2, 3, 4, 5, 6, 8, 9}
      {
        assert At(g, Pos(i, j)) == EmptyCell;
        assert 1 <= At(s, Pos(i, j)) <= GridSize;
      }
      forall j, k | 0 <= j < k < GridSize
        ensures s[i][j] != s[i][k]
      {
        assert At(g, Pos(i, j)) == EmptyCell;
        assert SameUnit(Pos(i, j), Pos(i, k));
      }
      Pigeonhole(s[i], {1, 2, 3, 4, 5, 6, 8, 9});
    }
    c :| 0 <= c < GridSize && s[i][c] == 7;
  }

  /** The column of a 7 in each of the rows 1..n. */
  lemma SevenColumns(s: Grid, g: Grid, n: int) returns (cols: seq<int>)
    requires g == TwoSevens() && Admissible(s, g) && 0 <= n < GridSize
    ensures |cols| == n
    ensures forall k :: 0 <= k < n ==> 0 <= cols[k] < GridSize && s[k + 1][cols[k]] == 7
  {
    if n == 0 {
      cols := [];
    } else {
      var front := SevenColumns(s, g, n - 1);
      var c := RowHasSeven(s, g, n);
      cols := front + [c];
    }
  }

  /** `TwoSevens()` has no admissible completion: the 7s of rows 1..8 avoid
      columns 0 and 5, which already hold a 7, and avoid each other's
      columns, but eight rows cannot fit in seven columns. */
  lemma TwoSevensNotAdmissible(s: Grid, g: Grid)
    requires g == TwoSevens()
    ensures !Admissible(s, g)
  {
    if Admissible(s, g) {
      var cols := SevenColumns(s, g, GridSize - 1);
      forall k | 0 <= k < |cols|
        ensures cols[k] in {1, 2, 3, 4, 6, 7, 8}
      {
        var q := Pos(k + 1, cols[k]);
        assert At(s, q) == 7 && At(g, q) == EmptyCell;
        assert At(s, Pos(0, 0)) == 7 && At(s, Pos(0, 5)) == 7;
        assert SameUnit(q, Pos(0, cols[k]));
      }
      forall j, k | 0 <= j < k < |cols|
        ensures cols[j] != cols[k]
      {
        var p := Pos(j + 1, cols[j]);
        assert At(s, p) == 7 && At(g, p) == EmptyCell;
        assert SameUnit(p, Pos(k + 1, cols[j]));
        assert At(s, Pos(k + 1, cols[k])) == 7;
      }
      Pigeonhole(cols, {1, 2, 3, 4, 6, 7, 8});
    }
  }

  /** The search fails on `TwoSevens()` even though the clash between the two
      given 7s is never checked directly, so `Solve` returns false and leaves
      the board as it was. */
  lemma TwoSevensUnsolvable(g: Grid)
    requires g == TwoSevens()
    ensures Search(g).None?
  {
    SearchAdmissible(g);
    if Search(g).Some? {
      TwoSevensNotAdmissible(Search(g).value, g);
    }
  }
}
