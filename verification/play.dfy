/** The game screen's operations on its fields (sudoku.component.ts: insertNumber, erase,
    hint, solveSudoku, generateAndLoadRandomPuzzle with resetState). The active field is
    held by its coordinates, which is what the component's currentRow/currentCol recover
    from the field object. */
module Play {
  import opened Wrappers
  import opened Board
  import opened Placement
  import opened Fields
  import Solver
  import Generator

  datatype Mode = PlayMode | CreateMode

  datatype Game = Game(
    sudoku: Sudoku,
    active: Option<(int, int)>,
    noteMode: bool,
    mode: Mode,
    isSolvable: bool,
    disabled: seq<bool>)

  ghost predicate Valid(g: Game) {
    && WellFormed(g.sudoku)
    && (g.active.Some? ==> InRange(g.active.value.0, g.active.value.1))
  }

  /** Given fields: every readonly field shows its answer. */
  ghost predicate Clues(s: Sudoku)
    requires Shaped(s)
  {
    forall r, c :: InRange(r, c) && s[r][c].readonly ==> s[r][c].value == Filled(s[r][c].answer)
  }

  /** What no edit changes in the fields: every answer and readonly flag, and the value of
      every readonly field. */
  ghost predicate KeepsGivens(s: Sudoku, s': Sudoku)
    requires Shaped(s)
  {
    && Shaped(s')
    && forall r, c :: InRange(r, c) ==>
         && s'[r][c].answer == s[r][c].answer
         && s'[r][c].readonly == s[r][c].readonly
         && (s[r][c].readonly ==> s'[r][c].value == s[r][c].value)
  }

  /** What no edit changes in the game: the active field, the two modes and the givens. */
  ghost predicate Keeps(g: Game, g': Game)
    requires Shaped(g.sudoku)
  {
    && g'.active == g.active && g'.noteMode == g.noteMode && g'.mode == g.mode
    && KeepsGivens(g.sudoku, g'.sudoku)
  }

  lemma KeepsClues(s: Sudoku, s': Sudoku)
    requires Shaped(s) && KeepsGivens(s, s') && Clues(s)
    ensures Clues(s')
  {
  }

  /** The field edit insertNumber makes at (row, col), and whether it fires the finish
      event. Note mode on a field without a value toggles the digit among its notes; note
      mode on a filled field and any edit of a readonly field change nothing. Otherwise the
      digit becomes the value, and in play mode it is crossed out of the notes of the
      field's row, column and box, and finish fires exactly when every field holds its
      answer. */
  ghost predicate Edited(s: Sudoku, s': Sudoku, row: int, col: int, number: int, noteMode: bool, mode: Mode, finish: bool)
    requires Shaped(s) && InRange(row, col)
  {
    var f := s[row][col];
    var write := !noteMode && !f.readonly;
    var written := SetField(s, row, col, f.(value := Filled(number)));
    && Shaped(s')
    && (noteMode && !HasValue(f) ==> s' == SetField(s, row, col, f.(notes := ToggleNote(f.notes, number))))
    && (noteMode && HasValue(f) ==> s' == s)
    && (!noteMode && f.readonly ==> s' == s)
    && (write ==> forall r, c :: InRange(r, c) ==>
                    s'[r][c].value == if r == row && c == col then Filled(number) else s[r][c].value)
    && (write && mode == CreateMode ==> s' == written)
    && (write && mode == PlayMode ==> s' == Cleaned(written, row, col, number))
    && (write && mode == PlayMode ==> forall r, c :: InRange(r, c) && Peers(row, col, r, c) ==> number !in s'[r][c].notes)
    && (finish <==> write && mode == PlayMode && Finished(s'))
  }

  /** The first part of insertNumber: the edit of the active field and, in play mode, of
      its peers' notes, with the finish check. */
  method EditField(s: Sudoku, row: int, col: int, number: int, noteMode: bool, mode: Mode)
    returns (s': Sudoku, finish: bool)
    requires WellFormed(s) && InRange(row, col) && 1 <= number <= 9
    ensures WellFormed(s') && KeepsGivens(s, s')
    ensures Edited(s, s', row, col, number, noteMode, mode, finish)
  {
    finish := false;
    var field := s[row][col];
    s' := s;
    if noteMode && !HasValue(field) {
      s' := SetField(s, row, col, field.(notes := ToggleNote(field.notes, number)));
    } else if !noteMode && !field.readonly {
      s' := SetField(s, row, col, field.(value := Filled(number)));
      if mode == PlayMode {
        s' := CleanNotes(s', row, col);
        finish := IsFinished(s');
      }
    }
  }

  /** insertNumber: the field edit above, then the buttons are recomputed. In create mode,
      when the active field ends up with a value, isSolvable becomes the validator's verdict
      on the digit typed — even when note mode left a different value in the field. With
      no active field nothing happens. */
  method InsertNumber(g: Game, number: int) returns (g': Game, finish: bool)
    requires Valid(g) && 1 <= number <= 9
    ensures Valid(g') && Keeps(g, g')
    ensures g.active.None? ==> g' == g && !finish
    ensures g.active.Some? ==>
              var r, c := g.active.value.0, g.active.value.1;
              && Edited(g.sudoku, g'.sudoku, r, c, number, g.noteMode, g.mode, finish)
              && ButtonsAgree(g'.sudoku, g'.disabled)
              && (g.mode == PlayMode || !HasValue(g'.sudoku[r][c]) ==> g'.isSolvable == g.isSolvable)
              && (g.mode == CreateMode && HasValue(g'.sudoku[r][c]) ==>
                    (g'.isSolvable <==> !Conflicts(ToBoard(g'.sudoku), r, c, number)))
  {
    if g.active.None? {
      return g, false;
    }
    var row, col := g.active.value.0, g.active.value.1;
    var s;
    s, finish := EditField(g.sudoku, row, col, number, g.noteMode, g.mode);
    var disabled := CheckNumbers(s);
    g' := g.(sudoku := s, disabled := disabled);

    if g.mode == CreateMode {
      if !HasValue(s[row][col]) {
        return;
      }
      var board := Place(ToBoard(s), row, col, 0);
      var valid := IsPlacementValid(board, row, col, number);
      ConflictsIgnoreOwnCell(ToBoard(s), row, col, number, 0);
      g' := g'.(isSolvable := valid);
    }
  }

  /** erase: on an editable active field, clears the value and the notes and recomputes the
      buttons; in create mode it then runs the full solver on the board, so isSolvable
      turns false only for a board that has no solution. */
  method Erase(g: Game) returns (g': Game)
    requires Valid(g)
    ensures Valid(g') && Keeps(g, g')
    ensures g.active.None? || g.sudoku[g.active.value.0][g.active.value.1].readonly ==> g' == g
    ensures g.active.Some? && !g.sudoku[g.active.value.0][g.active.value.1].readonly ==>
              var r, c := g.active.value.0, g.active.value.1;
              var b := ToBoard(g'.sudoku);
              && g'.sudoku == SetField(g.sudoku, r, c, g.sudoku[r][c].(value := Blank, notes := []))
              && ButtonsAgree(g'.sudoku, g'.disabled)
              && (g.mode == PlayMode ==> g'.isSolvable == g.isSolvable)
              && (g.mode == CreateMode && !g'.isSolvable ==> forall t :: !Completes(t, b))
              && (g.mode == CreateMode && g'.isSolvable && NoConflicts(b) ==> exists t :: Completes(t, b))
  {
    if g.active.None? || g.sudoku[g.active.value.0][g.active.value.1].readonly {
      return g;
    }
    var row, col := g.active.value.0, g.active.value.1;
    var s := SetField(g.sudoku, row, col, g.sudoku[row][col].(value := Blank, notes := []));
    var disabled := CheckNumbers(s);
    g' := g.(sudoku := s, disabled := disabled);

    if g.mode == CreateMode {
      var board := ToBoard(s);
      ToBoardIsBoard(s);
      var solved, solution := Solver.Solve(board);
      if solved && NoConflicts(board) {
        assert Completes(solution, board);
      }
      g' := g'.(isSolvable := solved);
    }
  }

  /** hint: in play mode on an editable active field, writes the field's answer as its
      value, crosses it out of the notes of the field's units (when it is nonzero),
      recomputes the buttons and fires the finish event when every field holds its answer. */
  method Hint(g: Game) returns (g': Game, finish: bool)
    requires Valid(g)
    ensures Valid(g') && Keeps(g, g')
    ensures g.mode != PlayMode || g.active.None? || g.sudoku[g.active.value.0][g.active.value.1].readonly ==>
              g' == g && !finish
    ensures g.mode == PlayMode && g.active.Some? && !g.sudoku[g.active.value.0][g.active.value.1].readonly ==>
              var r, c := g.active.value.0, g.active.value.1;
              var f := g.sudoku[r][c];
              var w := SetField(g.sudoku, r, c, f.(value := Filled(f.answer)));
              && g'.sudoku[r][c].value == Filled(f.answer)
              && g'.sudoku == (if f.answer != 0 then Cleaned(w, r, c, f.answer) else w)
              && ButtonsAgree(g'.sudoku, g'.disabled)
              && g'.isSolvable == g.isSolvable
              && (finish <==> Finished(g'.sudoku))
  {
    if g.mode != PlayMode || g.active.None? || g.sudoku[g.active.value.0][g.active.value.1].readonly {
      return g, false;
    }
    var row, col := g.active.value.0, g.active.value.1;
    var field := g.sudoku[row][col];
    var s := SetField(g.sudoku, row, col, field.(value := Filled(field.answer)));
    s := CleanNotes(s, row, col);
    var disabled := CheckNumbers(s);
    finish := IsFinished(s);
    g' := g.(sudoku := s, disabled := disabled);
  }

  /** The fields with the board's digits as values and no notes; answers and readonly
      flags stay. */
  function WithDigits(s: Sudoku, b: Grid): (t: Sudoku)
    requires Shaped(s) && Shaped(b)
    ensures Shaped(t) && ToBoard(t) == b
    ensures forall r, c :: InRange(r, c) ==>
              && t[r][c].value == Filled(b[r][c]) && t[r][c].notes == []
              && t[r][c].answer == s[r][c].answer && t[r][c].readonly == s[r][c].readonly
  {
    var t := seq(9, r requires 0 <= r < 9 => seq(9, c requires 0 <= c < 9 =>
      s[r][c].(value := Filled(b[r][c]), notes := [])));
    assert ToBoard(t) == b by {
      forall r | 0 <= r < 9 ensures ToBoard(t)[r] == b[r] {
      }
    }
    t
  }

  /** solveSudoku: runs the solver on the board; on success every field takes the solver's
      digit and loses its notes, the buttons are recomputed and the finish event fires when
      every field holds its answer. On failure nothing changes, and the board has no
      solution. */
  method SolveSudoku(g: Game) returns (g': Game, solved: bool, finish: bool)
    requires Valid(g)
    ensures Valid(g')
    ensures g'.active == g.active && g'.noteMode == g.noteMode && g'.mode == g.mode
    ensures g'.isSolvable == g.isSolvable
    ensures !solved ==> g' == g && !finish && forall t :: !Completes(t, ToBoard(g.sudoku))
    ensures solved ==>
              && ButtonsAgree(g'.sudoku, g'.disabled)
              && (forall r, c :: InRange(r, c) ==>
                    && HasValue(g'.sudoku[r][c]) && g'.sudoku[r][c].notes == []
                    && g'.sudoku[r][c].answer == g.sudoku[r][c].answer
                    && g'.sudoku[r][c].readonly == g.sudoku[r][c].readonly)
              && Extends(ToBoard(g'.sudoku), ToBoard(g.sudoku))
              && (NoConflicts(ToBoard(g.sudoku)) ==> Solved(ToBoard(g'.sudoku)))
              && (finish <==> Finished(g'.sudoku))
  {
    var board := ToBoard(g.sudoku);
    ToBoardIsBoard(g.sudoku);
    var b';
    solved, b' := Solver.Solve(board);
    if !solved {
      return g, false, false;
    }
    var s := WithDigits(g.sudoku, b');
    var disabled := CheckNumbers(s);
    finish := IsFinished(s);
    g' := g.(sudoku := s, disabled := disabled);
  }

  // ---------------------------------------------------------------------------
  // Loading a generated puzzle

  /** The fields of a loaded puzzle: a nonzero puzzle digit is a readonly given, a zero is an
      empty editable field; every field's answer is the solution's digit. */
  function FromPuzzle(puzzle: Grid, solution: Grid): (s: Sudoku)
    requires Shaped(puzzle) && Shaped(solution)
    ensures Shaped(s)
    ensures forall r, c :: InRange(r, c) ==>
              && s[r][c].answer == solution[r][c]
              && s[r][c].notes == []
              && (s[r][c].readonly <==> puzzle[r][c] != 0)
              && CellDigit(s[r][c]) == puzzle[r][c]
              && (puzzle[r][c] == 0 ==> s[r][c].value == Blank)
  {
    seq(9, r requires 0 <= r < 9 => seq(9, c requires 0 <= c < 9 =>
      Field(if puzzle[r][c] == 0 then Blank else Filled(puzzle[r][c]), solution[r][c], puzzle[r][c] != 0, [])))
  }

  /** generateAndLoadRandomPuzzle with resetState: generates a solved grid, carves a puzzle
      with `difficulty` givens from it, and loads it with no active field and isSolvable set.
      The result is None when the picks run out before the carving loop ends. */
  method GenerateAndLoad(g: Game, difficulty: int, rng: nat -> nat, cursor: nat, picks: seq<(int, int)>)
    returns (loaded: Option<Game>, cursor': nat)
    requires forall k :: 0 <= k < |picks| ==> InRange(picks[k].0, picks[k].1)
    ensures difficulty < 0 ==> loaded.None?
    ensures 0 <= difficulty && Generator.CoversAllCells(picks) ==> loaded.Some?
    ensures loaded.Some? ==>
              var g' := loaded.value;
              && Valid(g') && Clues(g'.sudoku)
              && g'.active.None? && g'.isSolvable && g'.noteMode == g.noteMode && g'.mode == g.mode
              && ButtonsAgree(g'.sudoku, g'.disabled)
              && Solved(Answers(g'.sudoku))
              && Completes(Answers(g'.sudoku), ToBoard(g'.sudoku))
              && (forall r, c :: InRange(r, c) ==>
                    g'.sudoku[r][c].notes == [] && (g'.sudoku[r][c].readonly <==> HasValue(g'.sudoku[r][c])))
              && (difficulty <= 81 ==> Generator.ZeroCount(ToBoard(g'.sudoku)) == 81 - difficulty)
  {
    var solution;
    solution, cursor' := Generator.GenerateFullSolution(rng, cursor);
    var puzzle := Generator.CreatePuzzleFromSolution(solution, difficulty, picks);
    if puzzle.None? {
      return None, cursor';
    }
    var p := puzzle.value;
    var s := FromPuzzle(p, solution);
    assert ToBoard(s) == p by {
      forall r | 0 <= r < 9 ensures ToBoard(s)[r] == p[r] {
      }
    }
    assert Answers(s) == solution by {
      forall r | 0 <= r < 9 ensures Answers(s)[r] == solution[r] {
      }
    }
    Generator.ZerosBeforeUniform(solution, 81);
    var disabled := CheckNumbers(s);
    loaded := Some(Game(s, None, g.noteMode, g.mode, true, disabled));
  }
}
