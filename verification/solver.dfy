/** The set-accelerated backtracking solver (sudoku.component.ts, solve, solveWithSets,
    getCandidates): per-row, per-column and per-box digit sets are built from the board,
    then cells are visited in row-major order and every empty cell tries, in ascending
    order, the digits missing from its three sets, undoing each failed placement. */
module Solver {
  import opened Board

  /** One digit set per row, per column or per box. */
  type Sets = seq<set<int>>

  /** The three families of sets hold exactly the digits currently on the board in each
      row, column and box. */
  ghost predicate Mirrors(b: Grid, rows: Sets, cols: Sets, boxes: Sets) {
    && Shaped(b) && |rows| == 9 && |cols| == 9 && |boxes| == 9
    && forall k :: 0 <= k < 9 ==>
         rows[k] == Digits(b, Row(k)) && cols[k] == Digits(b, Col(k)) && boxes[k] == Digits(b, Box(k))
  }

  /** Filling an empty cell and adding its digit to its row, column and box sets keeps the
      sets mirroring the board. */
  lemma MirrorsPlace(b: Grid, rows: Sets, cols: Sets, boxes: Sets, row: int, col: int, num: int)
    requires Mirrors(b, rows, cols, boxes) && InRange(row, col) && b[row][col] == 0 && num != 0
    ensures Mirrors(Place(b, row, col, num),
                    rows[row := rows[row] + {num}],
                    cols[col := cols[col] + {num}],
                    boxes[BoxIndex(row, col) := boxes[BoxIndex(row, col)] + {num}])
  {
    var b' := Place(b, row, col, num);
    var rows', cols' := rows[row := rows[row] + {num}], cols[col := cols[col] + {num}];
    var boxes' := boxes[BoxIndex(row, col) := boxes[BoxIndex(row, col)] + {num}];
    forall k | 0 <= k < 9
      ensures rows'[k] == Digits(b', Row(k)) && cols'[k] == Digits(b', Col(k)) && boxes'[k] == Digits(b', Box(k))
    {
      DigitsPlace(b, row, col, num, Row(k));
      DigitsPlace(b, row, col, num, Col(k));
      DigitsPlace(b, row, col, num, Box(k));
      if Contains(Box(k), row, col) {
        UnitsOfCell(Box(k), row, col);
      }
    }
  }

  /** What the search proved about the board after cell n carries back to cell n, whose
      digit came either from the board itself or from the placement made there. */
  lemma StepBack(b: Grid, board: Grid, b2: Grid, row: int, col: int)
    requires IsBoard(b) && InRange(row, col) && Shaped(board)
    requires board == b || (b[row][col] == 0 && board[row][col] != 0 && board == Place(b, row, col, board[row][col]))
    requires board[row][col] != 0
    requires Extends(b2, board) && FullFrom(b2, 9 * row + col + 1) && SameBefore(board, b2, 9 * row + col + 1)
    ensures Extends(b2, b) && FullFrom(b2, 9 * row + col) && SameBefore(b, b2, 9 * row + col)
  {
  }

  /** One step of the row-major pass that builds the sets: a filled cell adds its digit to
      its row, column and box sets, an empty one adds nothing. */
  lemma ScanStep(b: Grid, rows: Sets, cols: Sets, boxes: Sets, r: int, c: int)
    requires Shaped(b) && InRange(r, c) && Mirrors(Prefix(b, 9 * r + c), rows, cols, boxes)
    ensures b[r][c] != 0 ==>
              Mirrors(Prefix(b, 9 * r + c + 1),
                      rows[r := rows[r] + {b[r][c]}],
                      cols[c := cols[c] + {b[r][c]}],
                      boxes[BoxIndex(r, c) := boxes[BoxIndex(r, c)] + {b[r][c]}])
    ensures b[r][c] == 0 ==> Mirrors(Prefix(b, 9 * r + c + 1), rows, cols, boxes)
  {
    PrefixStep(b, r, c);
    if b[r][c] != 0 {
      MirrorsPlace(Prefix(b, 9 * r + c), rows, cols, boxes, r, c, b[r][c]);
    } else {
      PlaceSame(Prefix(b, 9 * r + c), r, c);
    }
  }

  /** The digits 1..9 absent from the row, column and box sets of (row, col), ascending. */
  method GetCandidates(row: int, col: int, rows: Sets, cols: Sets, boxes: Sets) returns (possible: seq<int>)
    requires InRange(row, col) && |rows| == 9 && |cols| == 9 && |boxes| == 9
    ensures forall i, j :: 0 <= i < j < |possible| ==> possible[i] < possible[j]
    ensures forall d :: d in possible <==>
              1 <= d <= 9 && d !in rows[row] && d !in cols[col] && d !in boxes[BoxIndex(row, col)]
  {
    var boxIndex := BoxIndex(row, col);
    possible := [];
    for num := 1 to 10
      invariant forall i, j :: 0 <= i < j < |possible| ==> possible[i] < possible[j]
      invariant forall i :: 0 <= i < |possible| ==> possible[i] < num
      invariant forall d :: d in possible <==>
                  1 <= d < num && d !in rows[row] && d !in cols[col] && d !in boxes[boxIndex]
    {
      if num !in rows[row] && num !in cols[col] && num !in boxes[boxIndex] {
        possible := possible + [num];
      }
    }
  }

  /** Depth-first search from cell (row, col) onward. Success leaves every cell from
      (row, col) on filled; failure hands back the board and the three set families exactly
      as they came in; and failure happens only when the board has no solution at all. */
  method SolveWithSets(b: Grid, row: int, col: int, rows: Sets, cols: Sets, boxes: Sets)
    returns (solved: bool, b': Grid, rows': Sets, cols': Sets, boxes': Sets)
    requires IsBoard(b) && 0 <= row <= 9 && 0 <= col < 9
    requires Mirrors(b, rows, cols, boxes)
    decreases 81 - (9 * row + col), 1
    ensures IsBoard(b') && Mirrors(b', rows', cols', boxes')
    ensures !solved ==> b' == b && rows' == rows && cols' == cols && boxes' == boxes
    ensures solved ==> Extends(b', b) && FullFrom(b', 9 * row + col) && SameBefore(b, b', 9 * row + col)
    ensures solved && NoConflicts(b) ==> NoConflicts(b')
    ensures FullFrom(b, 9 * row + col) ==> solved && b' == b
    ensures !solved ==> forall s :: !Completes(s, b)
  {
    if row == 9 {
      return true, b, rows, cols, boxes;
    }

    if b[row][col] != 0 {
      var nextRow := if col == 8 then row + 1 else row;
      var nextCol := (col + 1) % 9;
      assert 9 * nextRow + nextCol == 9 * row + col + 1;
      solved, b', rows', cols', boxes' := SolveWithSets(b, nextRow, nextCol, rows, cols, boxes);
      if solved {
        StepBack(b, b, b', row, col);
      }
      return;
    }

    var boxIndex := BoxIndex(row, col);
    var candidates := GetCandidates(row, col, rows, cols, boxes);
    forall s | Completes(s, b) ensures s[row][col] in candidates {
      CompletionNotInDigits(s, b, row, col, Row(row));
      CompletionNotInDigits(s, b, row, col, Col(col));
      CompletionNotInDigits(s, b, row, col, Box(boxIndex));
    }

    var i := 0;
    while i < |candidates|
      invariant 0 <= i <= |candidates|
      invariant forall s :: Completes(s, b) ==> s[row][col] !in candidates[..i]
    {
      var num := candidates[i];
      if num !in rows[row] && num !in cols[col] && num !in boxes[boxIndex] {
        solved, b', rows', cols', boxes' := TryCandidate(b, row, col, num, rows, cols, boxes);
        if solved {
          return;
        }
      }
      assert candidates[..i + 1] == candidates[..i] + [num];
      i := i + 1;
    }

    assert candidates[..|candidates|] == candidates;
    return false, b, rows, cols, boxes;
  }

  /** The body of the candidate loop in solveWithSets: place num in the empty cell (row, col),
      add it to the cell's three sets, search on from the next cell, and on failure clear the
      cell and delete num from the three sets again. */
  method TryCandidate(b: Grid, row: int, col: int, num: int, rows: Sets, cols: Sets, boxes: Sets)
    returns (solved: bool, b': Grid, rows': Sets, cols': Sets, boxes': Sets)
    requires IsBoard(b) && InRange(row, col) && b[row][col] == 0 && 1 <= num <= 9
    requires Mirrors(b, rows, cols, boxes)
    requires num !in rows[row] && num !in cols[col] && num !in boxes[BoxIndex(row, col)]
    decreases 81 - (9 * row + col), 0
    ensures IsBoard(b') && Mirrors(b', rows', cols', boxes')
    ensures !solved ==> b' == b && rows' == rows && cols' == cols && boxes' == boxes
    ensures solved ==> Extends(b', b) && FullFrom(b', 9 * row + col) && SameBefore(b, b', 9 * row + col)
    ensures solved && NoConflicts(b) ==> NoConflicts(b')
    ensures !solved ==> forall s :: Completes(s, b) ==> s[row][col] != num
  {
    var nextRow := if col == 8 then row + 1 else row;
    var nextCol := (col + 1) % 9;
    assert 9 * nextRow + nextCol == 9 * row + col + 1;
    var boxIndex := BoxIndex(row, col);

    MirrorsPlace(b, rows, cols, boxes, row, col, num);
    var board := Place(b, row, col, num);
    var rs := rows[row := rows[row] + {num}];
    var cs := cols[col := cols[col] + {num}];
    var bs := boxes[boxIndex := boxes[boxIndex] + {num}];

    var ok, b2, rs2, cs2, bs2 := SolveWithSets(board, nextRow, nextCol, rs, cs, bs);
    if ok {
      StepBack(b, board, b2, row, col);
      if NoConflicts(b) {
        NoConflictsPlace(b, row, col, num);
      }
      return true, b2, rs2, cs2, bs2;
    }

    forall s | Completes(s, b) ensures s[row][col] != num {
      CompletesPlace(s, b, row, col);
    }
    PlaceUndo(b, row, col, num);
    assert (rows[row] + {num}) - {num} == rows[row];
    assert (cols[col] + {num}) - {num} == cols[col];
    assert (boxes[boxIndex] + {num}) - {num} == boxes[boxIndex];
    b' := Place(b2, row, col, 0);
    rows' := rs2[row := rs2[row] - {num}];
    cols' := cs2[col := cs2[col] - {num}];
    boxes' := bs2[boxIndex := bs2[boxIndex] - {num}];
    return false, b', rows', cols', boxes';
  }

  /** The first loop of solve: one row-major pass adds every nonzero digit to its row,
      column and box sets, so the sets end up mirroring the board. */
  method BuildSets(b: Grid) returns (rows: Sets, cols: Sets, boxes: Sets)
    requires Shaped(b)
    ensures Mirrors(b, rows, cols, boxes)
  {
    rows, cols, boxes := EmptySets(b);

    for r := 0 to 9
      invariant Mirrors(Prefix(b, 9 * r), rows, cols, boxes)
    {
      rows, cols, boxes := ScanRow(b, rows, cols, boxes, r);
    }
    PrefixEnds(b);
  }

  /** The inner loop of the scan: the cells of row r, left to right. */
  method ScanRow(b: Grid, rows: Sets, cols: Sets, boxes: Sets, r: int)
    returns (rows': Sets, cols': Sets, boxes': Sets)
    requires Shaped(b) && 0 <= r < 9 && Mirrors(Prefix(b, 9 * r), rows, cols, boxes)
    ensures Mirrors(Prefix(b, 9 * (r + 1)), rows', cols', boxes')
  {
    rows', cols', boxes' := rows, cols, boxes;
    for c := 0 to 9
      invariant Mirrors(Prefix(b, 9 * r + c), rows', cols', boxes')
    {
      rows', cols', boxes' := AddCell(b, rows', cols', boxes', r, c);
    }
    assert 9 * r + 9 == 9 * (r + 1);
  }

  /** Nine empty sets per kind mirror the board before the scan has read any cell. */
  method EmptySets(b: Grid) returns (rows: Sets, cols: Sets, boxes: Sets)
    requires Shaped(b)
    ensures Mirrors(Prefix(b, 0), rows, cols, boxes)
  {
    rows, cols, boxes := seq(9, _ => {}), seq(9, _ => {}), seq(9, _ => {});
    PrefixEnds(b);
  }

  /** The body of the scan: a nonzero digit at (r, c) goes into its row, column and box
      sets. */
  method AddCell(b: Grid, rows: Sets, cols: Sets, boxes: Sets, r: int, c: int)
    returns (rows': Sets, cols': Sets, boxes': Sets)
    requires Shaped(b) && InRange(r, c) && Mirrors(Prefix(b, 9 * r + c), rows, cols, boxes)
    ensures Mirrors(Prefix(b, 9 * r + (c + 1)), rows', cols', boxes')
  {
    var val := b[r][c];
    ScanStep(b, rows, cols, boxes, r, c);
    rows', cols', boxes' := rows, cols, boxes;
    if val != 0 {
      rows' := rows[r := rows[r] + {val}];
      cols' := cols[c := cols[c] + {val}];
      boxes' := boxes[BoxIndex(r, c) := boxes[BoxIndex(r, c)] + {val}];
    }
  }

  /** solve: builds the sets and runs the search from the first cell. The board's own
      conflicts are never checked: filled cells are only skipped. */
  method Solve(b: Grid) returns (solved: bool, b': Grid)
    requires IsBoard(b)
    ensures IsBoard(b')
    ensures !solved ==> b' == b
    ensures solved ==> Full(b') && Extends(b', b)
    ensures solved && NoConflicts(b) ==> Solved(b')
    ensures !solved ==> forall s :: !Completes(s, b)
    ensures Full(b) ==> solved && b' == b
  {
    var rows, cols, boxes := BuildSets(b);
    var rows', cols', boxes';
    solved, b', rows', cols', boxes' := SolveWithSets(b, 0, 0, rows, cols, boxes);
  }

  /** A full board holding the same digit twice in a row: `Solve` reports it solved,
      because it never looks for conflicts among the given digits. */
  lemma FullConflictingBoard()
    ensures var b := seq(9, _ => seq(9, _ => 5));
            IsBoard(b) && Full(b) && !NoConflicts(b)
  {
    var b := seq(9, _ => seq(9, _ => 5));
    assert UnitVal(b, Row(0), 0) == UnitVal(b, Row(0), 1);
  }
}
