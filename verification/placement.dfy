/** The placement validator: may a digit go in a cell, judged by direct scans of the
    cell's row, column and 3×3 box (sudoku.component.ts, isPlacementValid). */
module Placement {
  import opened Board

  /** Cells (r1, c1) and (r2, c2) share a row, a column or a box. */
  predicate Peers(r1: int, c1: int, r2: int, c2: int) {
    r1 == r2 || c1 == c2 || SameBox(r1, c1, r2, c2)
  }

  /** Some cell other than (row, col) in the row, column or box of (row, col) holds n. */
  ghost predicate Conflicts(b: Grid, row: int, col: int, n: int)
    requires Shaped(b)
  {
    exists r, c :: InRange(r, c) && (r != row || c != col) && Peers(row, col, r, c) && b[r][c] == n
  }

  /** Scans the row, then the column, then the box of (row, col) for another cell holding
      num, returning false at the first one found. The cell itself is skipped in all three
      scans, so a digit already in it is re-validated against the others only. */
  method IsPlacementValid(b: Grid, row: int, col: int, num: int) returns (valid: bool)
    requires Shaped(b) && InRange(row, col)
    ensures valid <==> !Conflicts(b, row, col, num)
  {
    var i := 0;
    while i < 9
      invariant 0 <= i <= 9
      invariant forall k :: 0 <= k < i && k != col ==> b[row][k] != num
    {
      if b[row][i] == num && i != col {
        assert Peers(row, col, row, i);
        return false;
      }
      i := i + 1;
    }

    i := 0;
    while i < 9
      invariant 0 <= i <= 9
      invariant forall k :: 0 <= k < i && k != row ==> b[k][col] != num
    {
      if b[i][col] == num && i != row {
        assert Peers(row, col, i, col);
        return false;
      }
      i := i + 1;
    }

    var boxRowStart := row - row % 3;
    var boxColStart := col - col % 3;
    var r := 0;
    while r < 3
      invariant 0 <= r <= 3
      invariant forall r', c' ::
        && InRange(r', c') && (r' != row || c' != col)
        && boxRowStart <= r' < boxRowStart + r && boxColStart <= c' < boxColStart + 3
        ==> b[r'][c'] != num
    {
      var c := 0;
      while c < 3
        invariant 0 <= c <= 3
        invariant forall r', c' ::
          && InRange(r', c') && (r' != row || c' != col)
          && ((boxRowStart <= r' < boxRowStart + r && boxColStart <= c' < boxColStart + 3) ||
              (r' == boxRowStart + r && boxColStart <= c' < boxColStart + c))
          ==> b[r'][c'] != num
      {
        if boxRowStart + r == row && boxColStart + c == col {
          c := c + 1;
          continue;
        }
        if b[boxRowStart + r][boxColStart + c] == num {
          assert Peers(row, col, boxRowStart + r, boxColStart + c);
          return false;
        }
        c := c + 1;
      }
      r := r + 1;
    }

    forall r', c' | InRange(r', c') && (r' != row || c' != col) && Peers(row, col, r', c')
      ensures b[r'][c'] != num
    {
      if r' != row && c' != col {
        assert boxRowStart <= r' < boxRowStart + 3 && boxColStart <= c' < boxColStart + 3;
      }
    }
    return true;
  }

  /** A board has no conflicts exactly when every filled cell passes the validator
      with its own digit. */
  lemma NoConflictsIffAllPlacementsValid(b: Grid)
    requires Shaped(b)
    ensures NoConflicts(b) <==>
            forall r, c :: InRange(r, c) && b[r][c] != 0 ==> !Conflicts(b, r, c, b[r][c])
  {
    if NoConflicts(b) {
      forall r, c, r2, c2 |
        && InRange(r, c) && b[r][c] != 0 && InRange(r2, c2)
        && (r2 != r || c2 != c) && Peers(r, c, r2, c2)
        ensures b[r2][c2] != b[r][c]
      {
        var u := if r == r2 then Row(r) else if c == c2 then Col(c) else Box(BoxIndex(r, c));
        CellOfUnit(u, r, c);
        CellOfUnit(u, r2, c2);
        assert UnitVal(b, u, IndexIn(u, r, c)) != UnitVal(b, u, IndexIn(u, r2, c2));
      }
    }
    if forall r, c :: InRange(r, c) && b[r][c] != 0 ==> !Conflicts(b, r, c, b[r][c]) {
      forall u, i, j | ValidUnit(u) && 0 <= i < 9 && 0 <= j < 9 && i != j && UnitVal(b, u, i) != 0
        ensures UnitVal(b, u, i) != UnitVal(b, u, j)
      {
        UnitPeers(u, i, j);
        var ri, ci := CellRow(u, i), CellCol(u, i);
        assert !Conflicts(b, ri, ci, b[ri][ci]);
        assert Peers(ri, ci, CellRow(u, j), CellCol(u, j));
      }
    }
  }

  /** In a board that can be completed, the solution's digit for an empty cell passes the validator. */
  lemma CompletionPlacementValid(s: Grid, b: Grid, row: int, col: int)
    requires Completes(s, b) && InRange(row, col) && b[row][col] == 0
    ensures !Conflicts(b, row, col, s[row][col])
  {
    forall r, c | InRange(r, c) && (r != row || c != col) && Peers(row, col, r, c)
      ensures b[r][c] != s[row][col]
    {
      SolvedPeersDiffer(s, row, col, r, c);
    }
  }

  /** Filling an empty cell with a digit the validator accepts keeps a board free of conflicts. */
  lemma ValidPlacementKeepsNoConflicts(b: Grid, row: int, col: int, v: int)
    requires NoConflicts(b) && InRange(row, col) && b[row][col] == 0 && v != 0
    requires !Conflicts(b, row, col, v)
    ensures NoConflicts(Place(b, row, col, v))
  {
    forall u | ValidUnit(u) && Contains(u, row, col) ensures v !in Digits(b, u) {
      if v in Digits(b, u) {
        var i :| 0 <= i < 9 && UnitVal(b, u, i) != 0 && UnitVal(b, u, i) == v;
        CellOfUnit(u, row, col);
        UnitPeers(u, i, IndexIn(u, row, col));
        assert Peers(row, col, CellRow(u, i), CellCol(u, i));
      }
    }
    assert Contains(Row(row), row, col) && Contains(Col(col), row, col);
    NoConflictsPlace(b, row, col, v);
  }

  /** The validator never looks at the cell itself, so what that cell holds does not matter. */
  lemma ConflictsIgnoreOwnCell(b: Grid, row: int, col: int, n: int, v: int)
    requires Shaped(b) && InRange(row, col)
    ensures Conflicts(Place(b, row, col, v), row, col, n) <==> Conflicts(b, row, col, n)
  {
    var b' := Place(b, row, col, v);
    if Conflicts(b, row, col, n) {
      var r, c :| InRange(r, c) && (r != row || c != col) && Peers(row, col, r, c) && b[r][c] == n;
      assert b'[r][c] == n;
    }
    if Conflicts(b', row, col, n) {
      var r, c :| InRange(r, c) && (r != row || c != col) && Peers(row, col, r, c) && b'[r][c] == n;
      assert b[r][c] == n;
    }
  }
}
