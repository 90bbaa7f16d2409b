/** The puzzle generator (sudoku.component.ts, findEmptySpot, shuffleArray, fillGrid,
    generateFullSolution, createPuzzleFromSolution). `Math.random` is not modelled: the
    shuffle reads its draws from a stream `rng` at a cursor, and the carving loop reads the
    cells it picks from a finite sequence. */
module Generator {
  import opened Wrappers
  import opened Board
  import opened Placement

  // ---------------------------------------------------------------------------
  // Counting empty cells

  /** The number of empty cells at row-major positions before n. */
  function ZerosBefore(b: Grid, n: int): (k: nat)
    requires Shaped(b) && 0 <= n <= 81
    ensures k <= n
  {
    if n == 0 then 0
    else ZerosBefore(b, n - 1) + (if b[(n - 1) / 9][(n - 1) % 9] == 0 then 1 else 0)
  }

  /** The number of empty cells. */
  function ZeroCount(b: Grid): (k: nat)
    requires Shaped(b)
    ensures k <= 81
  {
    ZerosBefore(b, 81)
  }

  /** Writing v into cell (r, c) changes the empty-cell count by one exactly when it
      fills an empty cell or empties a filled one. */
  lemma {:induction false} ZerosBeforePlace(b: Grid, r: int, c: int, v: int, n: int)
    requires Shaped(b) && InRange(r, c) && 0 <= n <= 81
    ensures ZerosBefore(Place(b, r, c, v), n) + (if 9 * r + c < n && b[r][c] == 0 then 1 else 0) ==
            ZerosBefore(b, n) + (if 9 * r + c < n && v == 0 then 1 else 0)
  {
    if n > 0 {
      ZerosBeforePlace(b, r, c, v, n - 1);
      var r', c' := (n - 1) / 9, (n - 1) % 9;
      assert (r' == r && c' == c) <==> 9 * r + c == n - 1;
    }
  }

  lemma ZeroCountPlace(b: Grid, r: int, c: int, v: int)
    requires Shaped(b) && InRange(r, c)
    ensures b[r][c] == 0 && v != 0 ==> ZeroCount(Place(b, r, c, v)) == ZeroCount(b) - 1
    ensures b[r][c] != 0 && v == 0 ==> ZeroCount(Place(b, r, c, v)) == ZeroCount(b) + 1
  {
    ZerosBeforePlace(b, r, c, v, 81);
  }

  /** A board whose cells before n are all empty counts n empty cells there; one whose
      cells before n are all filled counts none. */
  lemma {:induction false} ZerosBeforeUniform(b: Grid, n: int)
    requires Shaped(b) && 0 <= n <= 81
    ensures (forall r, c :: InRange(r, c) ==> b[r][c] == 0) ==> ZerosBefore(b, n) == n
    ensures Full(b) ==> ZerosBefore(b, n) == 0
  {
    if n > 0 {
      ZerosBeforeUniform(b, n - 1);
    }
  }

  // ---------------------------------------------------------------------------
  // Randomized fill

  /** The first empty cell in row-major order, or None when there is none. */
  method FindEmptySpot(b: Grid) returns (spot: Option<(int, int)>)
    requires Shaped(b)
    ensures spot.None? <==> Full(b)
    ensures spot.Some? ==>
              && InRange(spot.value.0, spot.value.1)
              && b[spot.value.0][spot.value.1] == 0
              && forall r, c :: InRange(r, c) && 9 * r + c < 9 * spot.value.0 + spot.value.1 ==> b[r][c] != 0
  {
    for r := 0 to 9
      invariant forall r', c' :: InRange(r', c') && r' < r ==> b[r'][c'] != 0
    {
      for c := 0 to 9
        invariant forall r', c' :: InRange(r', c') && (r' < r || (r' == r && c' < c)) ==> b[r'][c'] != 0
      {
        if b[r][c] == 0 {
          return Some((r, c));
        }
      }
    }
    return None;
  }

  /** Fisher–Yates shuffle: for i from the last index down to 1, swap entry i with entry
      j = draw mod (i + 1), one draw of the stream per step. */
  method ShuffleArray(a: seq<int>, rng: nat -> nat, cursor: nat) returns (r: seq<int>, cursor': nat)
    ensures multiset(r) == multiset(a)
    ensures cursor' >= cursor
  {
    r, cursor' := a, cursor;
    var i := |a| - 1;
    while i > 0
      invariant -1 <= i < |a|
      invariant |r| == |a| && multiset(r) == multiset(a)
      invariant cursor' >= cursor
    {
      var j := rng(cursor') % (i + 1);
      cursor' := cursor' + 1;
      r := r[i := r[j]][j := r[i]];
      i := i - 1;
    }
  }

  /** The digits 1..9 in ascending order: what the shuffle receives. */
  function DigitList(): seq<int> {
    [1, 2, 3, 4, 5, 6, 7, 8, 9]
  }

  /** An entry that occurs at two positions is counted twice by the multiset. */
  lemma RepeatCountsTwice(s: seq<int>, i: int, j: int)
    requires 0 <= i < j < |s|
    ensures s[i] == s[j] ==> multiset(s)[s[i]] >= 2
  {
    assert s == s[..j] + [s[j]] + s[j + 1..];
    assert s[i] in s[..j];
    assert multiset(s) == multiset(s[..j]) + multiset{s[j]} + multiset(s[j + 1..]);
  }

  /** In a sequence without repeats, every element occurs once. */
  lemma {:induction false} DistinctOnce(s: seq<int>, x: int)
    requires forall i, j :: 0 <= i < j < |s| ==> s[i] != s[j]
    ensures multiset(s)[x] == if x in s then 1 else 0
  {
    if s != [] {
      var t := s[..|s| - 1];
      DistinctOnce(t, x);
      assert s == t + [s[|s| - 1]];
      assert s[|s| - 1] !in t;
    }
  }

  /** A rearrangement of the digits 1..9 holds each digit exactly once, so the fill tries
      each digit at most once per cell. */
  lemma ShuffledDigits(s: seq<int>)
    requires multiset(s) == multiset(DigitList())
    ensures |s| == 9
    ensures forall i :: 0 <= i < |s| ==> 1 <= s[i] <= 9
    ensures forall d :: 1 <= d <= 9 ==> d in s
    ensures forall i, j :: 0 <= i < j < |s| ==> s[i] != s[j]
  {
    assert |s| == |multiset(s)| == |multiset(DigitList())| == 9;
    DigitListMembers();
    forall i | 0 <= i < |s| ensures 1 <= s[i] <= 9 {
      assert s[i] in multiset(s);
    }
    forall d | 1 <= d <= 9 ensures d in s {
      assert d in multiset(s);
    }
    ShuffledDistinct(s);
  }

  lemma DigitListMembers()
    ensures forall x :: x in multiset(DigitList()) <==> 1 <= x <= 9
  {
    var s := DigitList();
    assert forall i :: 0 <= i < 9 ==> s[i] == i + 1;
    forall x | 1 <= x <= 9 ensures x in multiset(s) {
      assert s[x - 1] == x;
    }
    forall x | x in multiset(s) ensures 1 <= x <= 9 {
      assert x in s;
    }
  }

  lemma ShuffledDistinct(s: seq<int>)
    requires multiset(s) == multiset(DigitList())
    ensures forall i, j :: 0 <= i < j < |s| ==> s[i] != s[j]
  {
    forall i, j | 0 <= i < j < |s| ensures s[i] != s[j] {
      RepeatCountsTwice(s, i, j);
      DistinctOnce(DigitList(), s[i]);
    }
  }

  /** When the fill reaches an empty cell with a shuffled digit list, the digit any
      completion puts there is in the list and passes the validator. */
  lemma CompletionDigitListed(b: Grid, row: int, col: int, numbers: seq<int>)
    requires IsBoard(b) && InRange(row, col) && b[row][col] == 0
    requires multiset(numbers) == multiset(DigitList())
    ensures |numbers| == 9 && forall i :: 0 <= i < 9 ==> 1 <= numbers[i] <= 9
    ensures forall s :: Completes(s, b) ==> s[row][col] in numbers && !Conflicts(b, row, col, s[row][col])
  {
    ShuffledDigits(numbers);
    forall s | Completes(s, b) ensures s[row][col] in numbers && !Conflicts(b, row, col, s[row][col]) {
      CompletionPlacementValid(s, b, row, col);
    }
  }

  /** Fills the first empty cell with each digit, in shuffled order, that the validator
      accepts there, recursing on the rest; a digit whose recursion fails is cleared again.
      Success leaves a full board that keeps every given digit; failure leaves the board
      exactly as it was and happens only when the board has no solution. */
  method FillGrid(b: Grid, rng: nat -> nat, cursor: nat) returns (filled: bool, b': Grid, cursor': nat)
    requires IsBoard(b)
    decreases ZeroCount(b), 1
    ensures IsBoard(b')
    ensures !filled ==> b' == b
    ensures filled ==> Full(b') && Extends(b', b)
    ensures filled && NoConflicts(b) ==> Solved(b')
    ensures !filled ==> forall s :: !Completes(s, b)
    ensures Full(b) ==> filled && b' == b
  {
    var emptySpot := FindEmptySpot(b);
    if emptySpot.None? {
      return true, b, cursor;
    }
    var row, col := emptySpot.value.0, emptySpot.value.1;

    var numbers;
    numbers, cursor' := ShuffleArray(DigitList(), rng, cursor);
    CompletionDigitListed(b, row, col, numbers);

    for k := 0 to |numbers|
      invariant forall s :: Completes(s, b) ==> s[row][col] !in numbers[..k]
    {
      var num := numbers[k];
      var valid := IsPlacementValid(b, row, col, num);
      if valid {
        filled, b', cursor' := TryDigit(b, row, col, num, rng, cursor');
        if filled {
          return;
        }
      }
      assert numbers[..k + 1] == numbers[..k] + [num];
    }
    assert numbers[..|numbers|] == numbers;
    return false, b, cursor';
  }

  /** The body of the digit loop in fillGrid: write num into the empty cell (row, col), fill
      the rest recursively, and on failure clear the cell again. */
  method TryDigit(b: Grid, row: int, col: int, num: int, rng: nat -> nat, cursor: nat)
    returns (filled: bool, b': Grid, cursor': nat)
    requires IsBoard(b) && InRange(row, col) && b[row][col] == 0 && 1 <= num <= 9
    requires !Conflicts(b, row, col, num)
    decreases ZeroCount(b), 0
    ensures IsBoard(b')
    ensures !filled ==> b' == b
    ensures filled ==> Full(b') && Extends(b', b)
    ensures filled && NoConflicts(b) ==> Solved(b')
    ensures !filled ==> forall s :: Completes(s, b) ==> s[row][col] != num
  {
    var board := Place(b, row, col, num);
    ZeroCountPlace(b, row, col, num);
    var b1;
    filled, b1, cursor' := FillGrid(board, rng, cursor);
    if filled {
      if NoConflicts(b) {
        ValidPlacementKeepsNoConflicts(b, row, col, num);
      }
      return true, b1, cursor';
    }
    forall s | Completes(s, b) ensures s[row][col] != num {
      CompletesPlace(s, b, row, col);
    }
    PlaceUndo(b, row, col, num);
    b' := Place(b1, row, col, 0);
  }

  // ---------------------------------------------------------------------------
  // A solution exists for the empty board

  /** A fixed solved grid: row r is the digits 1..9 rotated by 3*(r mod 3) + r/3. */
  function Pattern(): (s: Grid)
    ensures Shaped(s)
    ensures forall r, c :: InRange(r, c) ==> s[r][c] == (3 * (r % 3) + r / 3 + c) % 9 + 1
  {
    seq(9, r requires 0 <= r < 9 => seq(9, c requires 0 <= c < 9 => (3 * (r % 3) + r / 3 + c) % 9 + 1))
  }

  lemma ShiftDistinct(a: int, i: int, j: int)
    requires 0 <= a && 0 <= i < 9 && 0 <= j < 9 && i != j
    ensures (a + i) % 9 != (a + j) % 9
  {
  }

  /** The row shift 3*(r mod 3) + r/3 takes each value 0..8 once. */
  lemma RowShiftDistinct(i: int, j: int)
    requires 0 <= i < 9 && 0 <= j < 9 && i != j
    ensures 3 * (i % 3) + i / 3 != 3 * (j % 3) + j / 3
    ensures 0 <= 3 * (i % 3) + i / 3 < 9
  {
  }

  /** The i-th entry of each unit of the pattern is a rotation of i or of the row shift. */
  lemma PatternUnitVal(u: Unit, i: int)
    requires ValidUnit(u) && 0 <= i < 9
    ensures u.Row? ==> UnitVal(Pattern(), u, i) == (3 * (u.index % 3) + u.index / 3 + i) % 9 + 1
    ensures u.Col? ==> UnitVal(Pattern(), u, i) == (3 * (i % 3) + i / 3 + u.index) % 9 + 1
    ensures u.Box? ==> UnitVal(Pattern(), u, i) == (u.index / 3 + 3 * (u.index % 3) + i) % 9 + 1
  {
    if u.Box? {
      var k := u.index;
      var r := 3 * (k / 3) + i / 3;
      assert r % 3 == i / 3 && r / 3 == k / 3;
      assert 3 * (i / 3) + i % 3 == i;
    }
  }

  lemma PatternUnit(u: Unit, i: int, j: int)
    requires ValidUnit(u) && 0 <= i < 9 && 0 <= j < 9 && i != j
    ensures UnitVal(Pattern(), u, i) != UnitVal(Pattern(), u, j)
  {
    PatternUnitVal(u, i);
    PatternUnitVal(u, j);
    match u
    case Row(k) => PatternShift(3 * (k % 3) + k / 3, i, j);
    case Col(k) => PatternColumn(k, i, j);
    case Box(k) => PatternShift(k / 3 + 3 * (k % 3), i, j);
  }

  lemma PatternColumn(k: int, i: int, j: int)
    requires 0 <= k < 9 && 0 <= i < 9 && 0 <= j < 9 && i != j
    ensures (3 * (i % 3) + i / 3 + k) % 9 + 1 != (3 * (j % 3) + j / 3 + k) % 9 + 1
  {
    RowShiftDistinct(i, j);
    RowShiftDistinct(j, i);
    PatternShift(k, 3 * (i % 3) + i / 3, 3 * (j % 3) + j / 3);
  }

  lemma PatternShift(a: int, x: int, y: int)
    requires 0 <= a && 0 <= x < 9 && 0 <= y < 9 && x != y
    ensures (a + x) % 9 + 1 != (a + y) % 9 + 1
    ensures (x + a) % 9 + 1 != (y + a) % 9 + 1
  {
    ShiftDistinct(a, x, y);
  }

  /** The empty board has a solution. */
  lemma EmptyBoardSolvable()
    ensures Completes(Pattern(), EmptyBoard())
  {
    var s := Pattern();
    forall u, i, j | ValidUnit(u) && 0 <= i < 9 && 0 <= j < 9 && i != j && UnitVal(s, u, i) != 0
      ensures UnitVal(s, u, i) != UnitVal(s, u, j)
    {
      PatternUnit(u, i, j);
    }
  }

  /** Fills the empty board; this always succeeds, so the result is a solved grid. */
  method GenerateFullSolution(rng: nat -> nat, cursor: nat) returns (board: Grid, cursor': nat)
    ensures Solved(board)
  {
    board := EmptyBoard();
    EmptyBoardSolvable();
    var filled;
    filled, board, cursor' := FillGrid(board, rng, cursor);
  }

  // ---------------------------------------------------------------------------
  // Carving a puzzle

  /** Every cell of the grid occurs among the picks. */
  ghost predicate CoversAllCells(picks: seq<(int, int)>) {
    forall r, c :: InRange(r, c) ==> (r, c) in picks
  }

  /** Copies the solution, then empties the picked cells one by one, skipping cells already
      empty, until 81 - difficulty cells have been emptied. The picks stand for the calls to
      `Math.random`; None means they ran out before the loop ended. */
  method CreatePuzzleFromSolution(solution: Grid, difficulty: int, picks: seq<(int, int)>)
    returns (puzzle: Option<Grid>)
    requires IsBoard(solution)
    requires forall k :: 0 <= k < |picks| ==> InRange(picks[k].0, picks[k].1)
    ensures difficulty > 81 ==> puzzle == Some(solution)
    ensures difficulty < 0 ==> puzzle.None?
    ensures puzzle.Some? ==> IsBoard(puzzle.value) && Extends(solution, puzzle.value)
    ensures puzzle.Some? && difficulty <= 81 ==>
              ZeroCount(puzzle.value) == ZeroCount(solution) + (81 - difficulty)
    ensures Full(solution) && 0 <= difficulty && CoversAllCells(picks) ==> puzzle.Some?
  {
    var p := solution;
    var cellsToRemove := 81 - difficulty;
    var k := 0;
    while cellsToRemove > 0
      invariant 0 <= k <= |picks|
      invariant cellsToRemove <= 81 - difficulty
      invariant cellsToRemove >= 0 || cellsToRemove == 81 - difficulty
      invariant 81 - difficulty <= 0 ==> p == solution
      invariant IsBoard(p) && Extends(solution, p)
      invariant ZeroCount(p) == ZeroCount(solution) + (81 - difficulty) - cellsToRemove
      invariant forall k' :: 0 <= k' < k ==> p[picks[k'].0][picks[k'].1] == 0
      decreases |picks| - k
    {
      if k == |picks| {
        if Full(solution) && CoversAllCells(picks) {
          forall r, c | InRange(r, c) ensures p[r][c] == 0 {
            var k' :| 0 <= k' < |picks| && picks[k'] == (r, c);
          }
          ZerosBeforeUniform(p, 81);
          ZerosBeforeUniform(solution, 81);
        }
        return None;
      }
      var row, col := picks[k].0, picks[k].1;
      k := k + 1;
      if p[row][col] != 0 {
        ZeroCountPlace(p, row, col, 0);
        p := Place(p, row, col, 0);
        cellsToRemove := cellsToRemove - 1;
      }
    }
    return Some(p);
  }
}
