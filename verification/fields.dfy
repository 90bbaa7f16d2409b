/** The fields of the game screen and the rules that edit them (sudoku.component.ts:
    cleanNotes, checkNumbers, finished). A field is a value, its answer, a readonly flag
    and a list of pencil notes; the operations built on them are in module Play. */
module Fields {
  import opened Board
  import opened Placement

  /** A field's value: `undefined` in the source, or a number. */
  datatype Entry = Blank | Filled(digit: int)

  datatype Field = Field(value: Entry, answer: int, readonly: bool, notes: seq<int>)

  type Sudoku = seq<seq<Field>>

  /** The number a field contributes to a board: its value, or 0 when it has none. */
  function CellDigit(f: Field): int {
    if f.value.Filled? then f.value.digit else 0
  }

  /** The field's value is a nonzero number (the source's `field.value` is truthy). */
  predicate HasValue(f: Field) {
    f.value.Filled? && f.value.digit != 0
  }

  /** Values and answers are numbers 0..9. */
  predicate FieldOk(f: Field) {
    0 <= CellDigit(f) <= 9 && 0 <= f.answer <= 9
  }

  ghost predicate WellFormed(s: Sudoku) {
    Shaped(s) && forall r, c :: InRange(r, c) ==> FieldOk(s[r][c])
  }

  /** The number board the solver and the validator see: `cell.value ? cell.value : 0`. */
  function ToBoard(s: Sudoku): (b: Grid)
    requires Shaped(s)
    ensures Shaped(b)
    ensures forall r, c :: InRange(r, c) ==> b[r][c] == CellDigit(s[r][c])
    ensures forall r, c :: InRange(r, c) ==> (b[r][c] != 0 <==> HasValue(s[r][c]))
    ensures WellFormed(s) ==> IsBoard(b)
  {
    seq(9, r requires 0 <= r < 9 => seq(9, c requires 0 <= c < 9 => CellDigit(s[r][c])))
  }

  lemma ToBoardIsBoard(s: Sudoku)
    requires WellFormed(s)
    ensures IsBoard(ToBoard(s))
  {
  }

  /** The answers of all fields as a board. */
  function Answers(s: Sudoku): (b: Grid)
    requires Shaped(s)
    ensures Shaped(b)
    ensures forall r, c :: InRange(r, c) ==> b[r][c] == s[r][c].answer
  {
    seq(9, r requires 0 <= r < 9 => seq(9, c requires 0 <= c < 9 => s[r][c].answer))
  }

  /** The grid with field (r, c) replaced by f. */
  function SetField(s: Sudoku, r: int, c: int, f: Field): (t: Sudoku)
    requires Shaped(s) && InRange(r, c)
    ensures Shaped(t) && t[r][c] == f
    ensures forall r', c' :: InRange(r', c') && (r' != r || c' != c) ==> t[r'][c'] == s[r'][c']
  {
    s[r := s[r][c := f]]
  }

  // ---------------------------------------------------------------------------
  // Notes

  /** The notes without any occurrence of v, in their original order. */
  function RemoveNote(notes: seq<int>, v: int): (r: seq<int>)
    ensures forall x :: x in r <==> x in notes && x != v
    ensures |r| <= |notes|
  {
    if notes == [] then []
    else (if notes[0] == v then [] else [notes[0]]) + RemoveNote(notes[1..], v)
  }

  /** Removing a note that is not there changes nothing. */
  lemma {:induction false} RemoveAbsentNote(notes: seq<int>, v: int)
    requires v !in notes
    ensures RemoveNote(notes, v) == notes
  {
    if notes != [] {
      RemoveAbsentNote(notes[1..], v);
      assert notes == [notes[0]] + notes[1..];
    }
  }

  /** Removing a note twice is removing it once. */
  lemma RemoveNoteIdempotent(notes: seq<int>, v: int)
    ensures RemoveNote(RemoveNote(notes, v), v) == RemoveNote(notes, v)
  {
    RemoveAbsentNote(RemoveNote(notes, v), v);
  }

  /** Pencil-mark toggle of insertNumber: append n when absent, otherwise drop it. */
  function ToggleNote(notes: seq<int>, n: int): (t: seq<int>)
    ensures n in t <==> n !in notes
    ensures forall x :: x != n ==> (x in t <==> x in notes)
  {
    if n in notes then RemoveNote(notes, n) else notes + [n]
  }

  /** Toggling a note on and off again restores the notes exactly. */
  lemma ToggleTwice(notes: seq<int>, n: int)
    requires n !in notes
    ensures ToggleNote(ToggleNote(notes, n), n) == notes
  {
    RemoveAbsentNote(notes, n);
    assert RemoveNote(notes + [n], n) == RemoveNote(notes, n) by {
      RemoveNoteAppend(notes, n);
    }
  }

  lemma {:induction false} RemoveNoteAppend(notes: seq<int>, n: int)
    ensures RemoveNote(notes + [n], n) == RemoveNote(notes, n)
  {
    if notes == [] {
      assert RemoveNote([n], n) == [] + RemoveNote([], n);
    } else {
      RemoveNoteAppend(notes[1..], n);
      assert (notes + [n])[1..] == notes[1..] + [n];
    }
  }

  function StripField(f: Field, v: int): Field {
    f.(notes := RemoveNote(f.notes, v))
  }

  lemma StripTwice(f: Field, v: int)
    ensures StripField(StripField(f, v), v) == StripField(f, v)
  {
    RemoveNoteIdempotent(f.notes, v);
  }

  /** The grid after v has been crossed out of the notes of every field sharing a row,
      a column or a box with (row, col): only those notes change, and they lose exactly v. */
  function Cleaned(s: Sudoku, row: int, col: int, v: int): (t: Sudoku)
    requires Shaped(s)
    ensures Shaped(t)
    ensures forall r, c :: InRange(r, c) ==>
              && t[r][c].value == s[r][c].value
              && t[r][c].answer == s[r][c].answer
              && t[r][c].readonly == s[r][c].readonly
              && (!Peers(row, col, r, c) ==> t[r][c].notes == s[r][c].notes)
              && (Peers(row, col, r, c) ==> v !in t[r][c].notes)
              && (forall x :: x != v ==> (x in t[r][c].notes <==> x in s[r][c].notes))
  {
    seq(9, r requires 0 <= r < 9 => seq(9, c requires 0 <= c < 9 =>
      if Peers(row, col, r, c) then StripField(s[r][c], v) else s[r][c]))
  }

  /** cleanNotes: when the field at `active` holds a nonzero value v, crosses v out of the
      notes of its row, then its column, then its box, one pass each. The passes overlap on
      the field itself and on the box's share of the row and column; the result is the
      single-pass `Cleaned` grid. With no active field, or an active field without a value,
      nothing changes. */
  method CleanNotes(s: Sudoku, row: int, col: int) returns (s': Sudoku)
    requires Shaped(s) && InRange(row, col)
    ensures !HasValue(s[row][col]) ==> s' == s
    ensures HasValue(s[row][col]) ==> s' == Cleaned(s, row, col, s[row][col].value.digit)
  {
    s' := s;
    if !HasValue(s[row][col]) {
      return;
    }
    var v := s[row][col].value.digit;
    var s1 := StripRow(s, row, v);
    var s2 := StripCol(s1, col, v);
    var firstRow, firstCol := row - row % 3, col - col % 3;
    s' := StripBox(s2, firstRow, firstCol, v);

    var t := Cleaned(s, row, col, v);
    forall r, c | InRange(r, c) ensures s'[r][c] == t[r][c] {
      assert Peers(row, col, r, c) <==>
        r == row || c == col || (firstRow <= r < firstRow + 3 && firstCol <= c < firstCol + 3);
      StripTwice(s[r][c], v);
    }
    forall r | 0 <= r < 9 ensures s'[r] == t[r] {
      assert forall c :: 0 <= c < 9 ==> s'[r][c] == t[r][c];
    }
  }

  /** The row pass of the cleanup: every field of row `row` loses note v. */
  method StripRow(s: Sudoku, row: int, v: int) returns (s': Sudoku)
    requires Shaped(s) && 0 <= row < 9
    ensures Shaped(s')
    ensures forall r, c :: InRange(r, c) ==> s'[r][c] == if r == row then StripField(s[r][c], v) else s[r][c]
  {
    s' := s;
    for i := 0 to 9
      invariant Shaped(s')
      invariant forall r, c :: InRange(r, c) ==>
                  s'[r][c] == if r == row && c < i then StripField(s[r][c], v) else s[r][c]
    {
      s' := s'[row := s'[row][i := StripField(s'[row][i], v)]];
    }
  }

  /** The column pass of the cleanup: every field of column `col` loses note v. */
  method StripCol(s: Sudoku, col: int, v: int) returns (s': Sudoku)
    requires Shaped(s) && 0 <= col < 9
    ensures Shaped(s')
    ensures forall r, c :: InRange(r, c) ==> s'[r][c] == if c == col then StripField(s[r][c], v) else s[r][c]
  {
    s' := s;
    for i := 0 to 9
      invariant Shaped(s')
      invariant forall r, c :: InRange(r, c) ==>
                  s'[r][c] == if c == col && r < i then StripField(s[r][c], v) else s[r][c]
    {
      s' := s'[i := s'[i][col := StripField(s'[i][col], v)]];
    }
  }

  /** The box pass of the cleanup: every field of the box whose top-left field is
      (firstRow, firstCol) loses note v. */
  method StripBox(s: Sudoku, firstRow: int, firstCol: int, v: int) returns (s': Sudoku)
    requires Shaped(s) && 0 <= firstRow <= 6 && 0 <= firstCol <= 6
    ensures Shaped(s')
    ensures forall r, c :: InRange(r, c) ==>
              s'[r][c] == if firstRow <= r < firstRow + 3 && firstCol <= c < firstCol + 3
                          then StripField(s[r][c], v) else s[r][c]
  {
    s' := s;
    for rowOffset := 0 to 3
      invariant Shaped(s')
      invariant forall r, c :: InRange(r, c) ==>
                  s'[r][c] == if firstRow <= r < firstRow + rowOffset && firstCol <= c < firstCol + 3
                              then StripField(s[r][c], v) else s[r][c]
    {
      for colOffset := 0 to 3
        invariant Shaped(s')
        invariant forall r, c :: InRange(r, c) ==>
                    s'[r][c] == if || (firstRow <= r < firstRow + rowOffset && firstCol <= c < firstCol + 3)
                                   || (r == firstRow + rowOffset && firstCol <= c < firstCol + colOffset)
                                then StripField(s[r][c], v) else s[r][c]
      {
        var r, c := firstRow + rowOffset, firstCol + colOffset;
        s' := s'[r := s'[r][c := StripField(s'[r][c], v)]];
      }
    }
  }

  // ---------------------------------------------------------------------------
  // Digit counts and the number buttons

  /** The number of fields among the first n in row-major order whose value is d. */
  function CountBefore(s: Sudoku, d: int, n: int): (k: nat)
    requires Shaped(s) && 0 <= n <= 81
    ensures k <= n
  {
    if n == 0 then 0
    else CountBefore(s, d, n - 1) + (if s[(n - 1) / 9][(n - 1) % 9].value == Filled(d) then 1 else 0)
  }

  /** The number of fields whose value is d. */
  function Count(s: Sudoku, d: int): nat
    requires Shaped(s)
  {
    CountBefore(s, d, 81)
  }

  /** Button d is disabled exactly when d appears in at least nine fields. */
  ghost predicate ButtonsAgree(s: Sudoku, disabled: seq<bool>)
    requires Shaped(s)
  {
    |disabled| == 9 && forall i :: 0 <= i < 9 ==> (disabled[i] <==> Count(s, i + 1) >= 9)
  }

  /** countNumber: scans the grid row by row counting fields whose value is d. */
  method CountNumber(s: Sudoku, d: int) returns (count: nat)
    requires Shaped(s)
    ensures count == Count(s, d)
  {
    count := 0;
    for r := 0 to 9
      invariant count == CountBefore(s, d, 9 * r)
    {
      for c := 0 to 9
        invariant count == CountBefore(s, d, 9 * r + c)
      {
        assert (9 * r + c) / 9 == r && (9 * r + c) % 9 == c;
        if s[r][c].value == Filled(d) {
          count := count + 1;
        }
      }
      assert 9 * r + 9 == 9 * (r + 1);
    }
  }

  /** checkNumbers: the disabled flags of the buttons 1..9. */
  method CheckNumbers(s: Sudoku) returns (disabled: seq<bool>)
    requires Shaped(s)
    ensures ButtonsAgree(s, disabled)
  {
    disabled := [];
    for i := 0 to 9
      invariant |disabled| == i
      invariant forall k :: 0 <= k < i ==> (disabled[k] <==> Count(s, k + 1) >= 9)
    {
      var count := CountNumber(s, i + 1);
      disabled := disabled + [count >= 9];
    }
  }

  // ---------------------------------------------------------------------------
  // The finished predicate

  /** Every field holds its answer (a Blank value never equals an answer). */
  ghost predicate Finished(s: Sudoku)
    requires Shaped(s)
  {
    forall r, c :: InRange(r, c) ==> s[r][c].value == Filled(s[r][c].answer)
  }

  /** finished: `every` over the rows of `every` over the fields, stopping at the first
      field whose value differs from its answer. */
  method IsFinished(s: Sudoku) returns (finished: bool)
    requires Shaped(s)
    ensures finished <==> Finished(s)
  {
    for r := 0 to 9
      invariant forall r', c :: InRange(r', c) && r' < r ==> s[r'][c].value == Filled(s[r'][c].answer)
    {
      for c := 0 to 9
        invariant forall c' :: 0 <= c' < c ==> s[r][c'].value == Filled(s[r][c'].answer)
      {
        if s[r][c].value != Filled(s[r][c].answer) {
          return false;
        }
      }
    }
    return true;
  }

  /** A finished grid whose answers form a solved sudoku shows every digit nine times,
      so all nine number buttons are disabled. */
  lemma FinishedDisablesAll(s: Sudoku, disabled: seq<bool>)
    requires Shaped(s) && Finished(s) && Solved(Answers(s))
    requires ButtonsAgree(s, disabled)
    ensures forall d :: 1 <= d <= 9 ==> Count(s, d) == 9
    ensures forall i :: 0 <= i < 9 ==> disabled[i]
  {
    forall d | 1 <= d <= 9 ensures Count(s, d) == 9 {
      CountRows(s, d, 9);
    }
  }

  lemma {:induction false} CountRows(s: Sudoku, d: int, r: int)
    requires Shaped(s) && Finished(s) && Solved(Answers(s)) && 1 <= d <= 9 && 0 <= r <= 9
    ensures CountBefore(s, d, 9 * r) == r
  {
    if r > 0 {
      CountRows(s, d, r - 1);
      SolvedRow(s, d, r - 1);
      CountInRow(s, d, r - 1, 9);
    }
  }

  /** A row of a finished grid with solved answers: its fields hold their answers, the
      answers differ pairwise, and one of them is d. */
  lemma SolvedRow(s: Sudoku, d: int, r: int)
    requires Shaped(s) && Finished(s) && Solved(Answers(s)) && 1 <= d <= 9 && 0 <= r < 9
    ensures forall k :: 0 <= k < 9 ==> s[r][k].value == Filled(s[r][k].answer)
    ensures forall i, j :: 0 <= i < j < 9 ==> s[r][i].answer != s[r][j].answer
    ensures exists k :: 0 <= k < 9 && s[r][k].answer == d
  {
    var b := Answers(s);
    SolvedRowDistinct(b, r);
    SolvedUnitIsPermutation(b, Row(r));
    assert d in Digits(b, Row(r));
    var i :| 0 <= i < 9 && UnitVal(b, Row(r), i) == d;
    assert s[r][i].answer == d;
  }

  /** The fields of row r of a solved answer grid hold pairwise different answers. */
  lemma SolvedRowDistinct(b: Grid, r: int)
    requires Solved(b) && 0 <= r < 9
    ensures forall i, j :: 0 <= i < j < 9 ==> b[r][i] != b[r][j]
  {
    SolvedUnitIsPermutation(b, Row(r));
    forall i, j | 0 <= i < j < 9 ensures b[r][i] != b[r][j] {
      assert UnitVal(b, Row(r), i) != UnitVal(b, Row(r), j);
    }
  }

  /** One step of the row-major count: position 9r + c holds field (r, c). */
  lemma CountStep(s: Sudoku, d: int, r: int, c: int)
    requires Shaped(s) && 0 <= r < 9 && 0 <= c < 9
    ensures CountBefore(s, d, 9 * r + c + 1) == CountBefore(s, d, 9 * r + c) + (if s[r][c].value == Filled(d) then 1 else 0)
  {
    assert (9 * r + c) / 9 == r && (9 * r + c) % 9 == c;
  }

  /** Within row r, whose fields hold their answers and whose answers differ pairwise, d has
      been counted once exactly when one of the first c answers is d. */
  lemma {:induction false} CountInRow(s: Sudoku, d: int, r: int, c: int)
    requires Shaped(s) && 0 <= r < 9 && 0 <= c <= 9
    requires forall k :: 0 <= k < 9 ==> s[r][k].value == Filled(s[r][k].answer)
    requires forall i, j :: 0 <= i < j < 9 ==> s[r][i].answer != s[r][j].answer
    ensures CountBefore(s, d, 9 * r + c) ==
            CountBefore(s, d, 9 * r) + (if exists k :: 0 <= k < c && s[r][k].answer == d then 1 else 0)
  {
    if c > 0 {
      CountInRow(s, d, r, c - 1);
      CountStep(s, d, r, c - 1);
    }
  }
}
