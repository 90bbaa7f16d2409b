/** The board model shared by the validator, the solver and the generator: a 9×9
    matrix of digits in which 0 marks an empty cell, its 27 units (nine rows, nine
    columns, nine 3×3 boxes) and the predicates that say when a board is solved. */
module Board {

  type Grid = seq<seq<int>>

  predicate InRange(r: int, c: int) {
    0 <= r < 9 && 0 <= c < 9
  }

  /** Nine rows of nine cells: the shape of a board, of the game's field grid and of the
      grid view. */
  predicate Shaped<T>(g: seq<seq<T>>) {
    |g| == 9 && forall r :: 0 <= r < 9 ==> |g[r]| == 9
  }

  /** A well-formed board: 9×9, every cell empty (0) or a digit 1..9. */
  ghost predicate IsBoard(b: Grid) {
    Shaped(b) && forall r, c :: InRange(r, c) ==> 0 <= b[r][c] <= 9
  }

  function EmptyBoard(): (b: Grid)
    ensures IsBoard(b)
    ensures forall r, c :: InRange(r, c) ==> b[r][c] == 0
  {
    seq(9, _ => seq(9, _ => 0))
  }

  /** The board with cell (r, c) set to v: the assignment `board[r][c] = v`. */
  function Place(b: Grid, r: int, c: int, v: int): (b': Grid)
    requires Shaped(b) && InRange(r, c)
    ensures Shaped(b')
    ensures b'[r][c] == v
    ensures forall r', c' :: InRange(r', c') && (r' != r || c' != c) ==> b'[r'][c'] == b[r'][c']
  {
    b[r := b[r][c := v]]
  }

  /** Clearing a cell that was empty before it was filled restores the board exactly. */
  lemma PlaceUndo(b: Grid, r: int, c: int, v: int)
    requires Shaped(b) && InRange(r, c) && b[r][c] == 0
    ensures Place(Place(b, r, c, v), r, c, 0) == b
  {
    var b' := Place(Place(b, r, c, v), r, c, 0);
    assert b'[r] == b[r];
    forall r' | 0 <= r' < 9 ensures b'[r'] == b[r'] {
    }
  }

  /** Writing a cell's own value back leaves the board as it is. */
  lemma PlaceSame(b: Grid, r: int, c: int)
    requires Shaped(b) && InRange(r, c)
    ensures Place(b, r, c, b[r][c]) == b
  {
    assert b[r][c := b[r][c]] == b[r];
  }

  /** No cell is empty. */
  ghost predicate Full(b: Grid) {
    Shaped(b) && forall r, c :: InRange(r, c) ==> b[r][c] != 0
  }

  /** No cell at row-major position n = 9*r + c or later is empty. */
  ghost predicate FullFrom(b: Grid, n: int) {
    Shaped(b) && forall r, c :: InRange(r, c) && 9 * r + c >= n ==> b[r][c] != 0
  }

  /** The cells at row-major positions before n hold the same digits in both boards. */
  ghost predicate SameBefore(b: Grid, b': Grid, n: int) {
    Shaped(b) && Shaped(b') && forall r, c :: InRange(r, c) && 9 * r + c < n ==> b'[r][c] == b[r][c]
  }

  /** b' keeps every filled cell of b: it differs from b at most in cells b leaves empty. */
  ghost predicate Extends(b': Grid, b: Grid) {
    Shaped(b) && Shaped(b') && forall r, c :: InRange(r, c) && b[r][c] != 0 ==> b'[r][c] == b[r][c]
  }

  // ---------------------------------------------------------------------------
  // Units

  /** A row, a column or a box, each numbered 0..8. Boxes are numbered row-major. */
  datatype Unit = Row(index: int) | Col(index: int) | Box(index: int)

  predicate ValidUnit(u: Unit) {
    0 <= u.index < 9
  }

  /** Row of the i-th cell of unit u (cells of a box are numbered row-major inside the box). */
  function CellRow(u: Unit, i: int): (r: int)
    requires ValidUnit(u) && 0 <= i < 9
    ensures 0 <= r < 9
  {
    match u
    case Row(k) => k
    case Col(_) => i
    case Box(k) => 3 * (k / 3) + i / 3
  }

  /** Column of the i-th cell of unit u. */
  function CellCol(u: Unit, i: int): (c: int)
    requires ValidUnit(u) && 0 <= i < 9
    ensures 0 <= c < 9
  {
    match u
    case Row(_) => i
    case Col(k) => k
    case Box(k) => 3 * (k % 3) + i % 3
  }

  function UnitVal(b: Grid, u: Unit, i: int): int
    requires Shaped(b) && ValidUnit(u) && 0 <= i < 9
  {
    b[CellRow(u, i)][CellCol(u, i)]
  }

  /** Cells (r1, c1) and (r2, c2) lie in the same 3×3 box. */
  predicate SameBox(r1: int, c1: int, r2: int, c2: int) {
    r1 / 3 == r2 / 3 && c1 / 3 == c2 / 3
  }

  /** Cell (r, c) belongs to unit u. */
  predicate Contains(u: Unit, r: int, c: int) {
    match u
    case Row(k) => r == k
    case Col(k) => c == k
    case Box(k) => r / 3 == k / 3 && c / 3 == k % 3
  }

  /** The number of the box holding cell (r, c). */
  function BoxIndex(r: int, c: int): (k: int)
    requires InRange(r, c)
    ensures 0 <= k < 9
    ensures Contains(Box(k), r, c)
    ensures forall r', c' :: InRange(r', c') ==> (Contains(Box(k), r', c') <==> SameBox(r, c, r', c'))
  {
    (r / 3) * 3 + c / 3
  }

  /** Position of cell (r, c) inside a unit that contains it. */
  function IndexIn(u: Unit, r: int, c: int): int {
    match u
    case Row(_) => c
    case Col(_) => r
    case Box(_) => 3 * (r % 3) + c % 3
  }

  /** The i-th cell of unit u is (r, c) exactly when u contains (r, c) at position i. */
  lemma CellIs(u: Unit, i: int, r: int, c: int)
    requires ValidUnit(u) && 0 <= i < 9 && InRange(r, c)
    ensures (CellRow(u, i) == r && CellCol(u, i) == c) <==> (Contains(u, r, c) && IndexIn(u, r, c) == i)
  {
  }

  lemma UnitCell(u: Unit, i: int)
    requires ValidUnit(u) && 0 <= i < 9
    ensures Contains(u, CellRow(u, i), CellCol(u, i))
    ensures IndexIn(u, CellRow(u, i), CellCol(u, i)) == i
  {
    CellIs(u, i, CellRow(u, i), CellCol(u, i));
  }

  lemma CellOfUnit(u: Unit, r: int, c: int)
    requires ValidUnit(u) && InRange(r, c) && Contains(u, r, c)
    ensures 0 <= IndexIn(u, r, c) < 9
    ensures CellRow(u, IndexIn(u, r, c)) == r && CellCol(u, IndexIn(u, r, c)) == c
  {
    assert 0 <= IndexIn(u, r, c) < 9;
    CellIs(u, IndexIn(u, r, c), r, c);
  }

  /** The units that contain a cell are exactly its row, its column and its box. */
  lemma UnitsOfCell(u: Unit, r: int, c: int)
    requires ValidUnit(u) && InRange(r, c) && Contains(u, r, c)
    ensures u == Row(r) || u == Col(c) || u == Box(BoxIndex(r, c))
  {
  }

  /** The digits present in unit u: what the solver's constraint set for u must hold. */
  function Digits(b: Grid, u: Unit): set<int>
    requires Shaped(b) && ValidUnit(u)
  {
    set i | 0 <= i < 9 && UnitVal(b, u, i) != 0 :: UnitVal(b, u, i)
  }

  /** No unit holds the same digit twice. */
  ghost predicate NoConflicts(b: Grid) {
    Shaped(b) &&
    forall u, i, j ::
      ValidUnit(u) && 0 <= i < 9 && 0 <= j < 9 && i != j && UnitVal(b, u, i) != 0 ==>
        UnitVal(b, u, i) != UnitVal(b, u, j)
  }

  /** A complete, valid Sudoku grid. */
  ghost predicate Solved(b: Grid) {
    IsBoard(b) && Full(b) && NoConflicts(b)
  }

  /** s is a solution of the (partial) board b. */
  ghost predicate Completes(s: Grid, b: Grid) {
    Solved(s) && Extends(s, b)
  }

  /** The board b with every cell at row-major position n or later emptied: what a
      row-major scan has seen after n steps. */
  function Prefix(b: Grid, n: int): (p: Grid)
    requires Shaped(b)
    ensures Shaped(p)
    ensures forall r, c :: InRange(r, c) ==> p[r][c] == if 9 * r + c < n then b[r][c] else 0
  {
    seq(9, r requires 0 <= r < 9 => seq(9, c requires 0 <= c < 9 => if 9 * r + c < n then b[r][c] else 0))
  }

  // ---------------------------------------------------------------------------
  // Lemmas about units and digit sets

  /** Setting cell (r0, c0) changes exactly the unit entries that name that cell. */
  lemma PlaceUnitVal(b: Grid, r0: int, c0: int, v: int, u: Unit, i: int)
    requires Shaped(b) && InRange(r0, c0) && ValidUnit(u) && 0 <= i < 9
    ensures UnitVal(Place(b, r0, c0, v), u, i) ==
            if Contains(u, r0, c0) && IndexIn(u, r0, c0) == i then v else UnitVal(b, u, i)
  {
    CellIs(u, i, r0, c0);
  }

  /** Filling an empty cell with v adds v to the digit sets of exactly the units holding that cell. */
  lemma DigitsPlace(b: Grid, r0: int, c0: int, v: int, u: Unit)
    requires Shaped(b) && InRange(r0, c0) && ValidUnit(u)
    requires b[r0][c0] == 0 && v != 0
    ensures Contains(u, r0, c0) ==> Digits(Place(b, r0, c0, v), u) == Digits(b, u) + {v}
    ensures !Contains(u, r0, c0) ==> Digits(Place(b, r0, c0, v), u) == Digits(b, u)
  {
    var b' := Place(b, r0, c0, v);
    forall i | 0 <= i < 9
      ensures UnitVal(b', u, i) == if Contains(u, r0, c0) && IndexIn(u, r0, c0) == i then v else UnitVal(b, u, i)
    {
      PlaceUnitVal(b, r0, c0, v, u, i);
    }
    if Contains(u, r0, c0) {
      var i0 := IndexIn(u, r0, c0);
      CellOfUnit(u, r0, c0);
      assert UnitVal(b, u, i0) == 0;
      assert UnitVal(b', u, i0) == v;
      assert Digits(b', u) == Digits(b, u) + {v};
    } else {
      assert Digits(b', u) == Digits(b, u);
    }
  }

  /** Scanning one more cell of b in row-major order fills that cell of the prefix board. */
  lemma PrefixStep(b: Grid, r: int, c: int)
    requires Shaped(b) && InRange(r, c)
    ensures Prefix(b, 9 * r + c)[r][c] == 0
    ensures Prefix(b, 9 * r + c + 1) == Place(Prefix(b, 9 * r + c), r, c, b[r][c])
  {
    var p, q := Prefix(b, 9 * r + c + 1), Place(Prefix(b, 9 * r + c), r, c, b[r][c]);
    forall r' | 0 <= r' < 9 ensures p[r'] == q[r'] {
    }
  }

  lemma PrefixEnds(b: Grid)
    requires Shaped(b)
    ensures Prefix(b, 81) == b
    ensures forall u :: ValidUnit(u) ==> Digits(Prefix(b, 0), u) == {}
  {
    var p := Prefix(b, 81);
    forall r | 0 <= r < 9 ensures p[r] == b[r] {
    }
  }

  /** Digit v, set in an empty cell, keeps a board free of conflicts when v is new
      to the cell's row, column and box. */
  lemma NoConflictsPlace(b: Grid, r0: int, c0: int, v: int)
    requires NoConflicts(b) && InRange(r0, c0) && b[r0][c0] == 0 && v != 0
    requires v !in Digits(b, Row(r0)) && v !in Digits(b, Col(c0)) && v !in Digits(b, Box(BoxIndex(r0, c0)))
    ensures NoConflicts(Place(b, r0, c0, v))
  {
    var b' := Place(b, r0, c0, v);
    forall u, i, j | ValidUnit(u) && 0 <= i < 9 && 0 <= j < 9 && i != j && UnitVal(b', u, i) != 0
      ensures UnitVal(b', u, i) != UnitVal(b', u, j)
    {
      PlaceUnitVal(b, r0, c0, v, u, i);
      PlaceUnitVal(b, r0, c0, v, u, j);
      var here := Contains(u, r0, c0);
      if here {
        UnitsOfCell(u, r0, c0);
        assert v !in Digits(b, u);
      }
      if here && IndexIn(u, r0, c0) == i {
        assert UnitVal(b, u, j) == 0 || UnitVal(b, u, j) in Digits(b, u);
      } else if here && IndexIn(u, r0, c0) == j {
        assert UnitVal(b, u, i) in Digits(b, u);
      }
    }
  }

  /** Two cells of one unit share a row, a column or a box; two different positions name two different cells. */
  lemma UnitPeers(u: Unit, i: int, j: int)
    requires ValidUnit(u) && 0 <= i < 9 && 0 <= j < 9
    ensures CellRow(u, i) == CellRow(u, j) || CellCol(u, i) == CellCol(u, j) ||
            SameBox(CellRow(u, i), CellCol(u, i), CellRow(u, j), CellCol(u, j))
    ensures i != j ==> CellRow(u, i) != CellRow(u, j) || CellCol(u, i) != CellCol(u, j)
  {
    UnitCell(u, i);
    UnitCell(u, j);
  }

  /** Two distinct cells sharing a row, column or box hold different digits in a solved grid. */
  lemma SolvedPeersDiffer(s: Grid, r1: int, c1: int, r2: int, c2: int)
    requires Solved(s) && InRange(r1, c1) && InRange(r2, c2) && (r1 != r2 || c1 != c2)
    requires r1 == r2 || c1 == c2 || SameBox(r1, c1, r2, c2)
    ensures s[r1][c1] != s[r2][c2]
  {
    var u := if r1 == r2 then Row(r1) else if c1 == c2 then Col(c1) else Box(BoxIndex(r1, c1));
    CellOfUnit(u, r1, c1);
    CellOfUnit(u, r2, c2);
    var i, j := IndexIn(u, r1, c1), IndexIn(u, r2, c2);
    assert UnitVal(s, u, i) != UnitVal(s, u, j);
  }

  /** The digit a solution puts in an empty cell is absent from every unit holding the cell. */
  lemma CompletionNotInDigits(s: Grid, b: Grid, r: int, c: int, u: Unit)
    requires Completes(s, b) && InRange(r, c) && b[r][c] == 0 && ValidUnit(u) && Contains(u, r, c)
    ensures s[r][c] !in Digits(b, u)
  {
    CellOfUnit(u, r, c);
    var j := IndexIn(u, r, c);
    forall i | 0 <= i < 9 && UnitVal(b, u, i) != 0 ensures UnitVal(b, u, i) != s[r][c] {
      UnitCell(u, i);
      assert UnitVal(s, u, i) == UnitVal(b, u, i);
      assert UnitVal(s, u, j) == s[r][c];
    }
  }

  /** A solution of b is a solution of b with the solution's own digit placed in a cell. */
  lemma CompletesPlace(s: Grid, b: Grid, r: int, c: int)
    requires Completes(s, b) && InRange(r, c)
    ensures Completes(s, Place(b, r, c, s[r][c]))
  {
  }

  // ---------------------------------------------------------------------------
  // Every unit of a solved grid is a permutation of 1..9

  /** The entries of unit u in cell order. */
  function UnitSeq(b: Grid, u: Unit): (s: seq<int>)
    requires Shaped(b) && ValidUnit(u)
    ensures |s| == 9 && forall i :: 0 <= i < 9 ==> s[i] == UnitVal(b, u, i)
  {
    seq(9, i requires 0 <= i < 9 => UnitVal(b, u, i))
  }

  /** A sequence without repeated elements has as many distinct elements as entries. */
  lemma {:induction false} DistinctSize(s: seq<int>)
    requires forall i, j :: 0 <= i < j < |s| ==> s[i] != s[j]
    ensures |set x | x in s| == |s|
  {
    if |s| > 0 {
      var t := s[..|s| - 1];
      DistinctSize(t);
      assert (set x | x in s) == (set x | x in t) + {s[|s| - 1]};
      assert s[|s| - 1] !in (set x | x in t);
    }
  }

  /** A subset of equal size is the whole set. */
  lemma SubsetSameSize(a: set<int>, s: set<int>)
    requires a <= s && |a| == |s|
    ensures a == s
  {
    assert s == a + (s - a);
    assert |s| == |a| + |s - a|;
    assert s - a == {};
  }

  function DigitSet(): set<int> {
    {1, 2, 3, 4, 5, 6, 7, 8, 9}
  }

  lemma DigitSetSize()
    ensures |DigitSet()| == 9
  {
    var s := [1, 2, 3, 4, 5, 6, 7, 8, 9];
    DistinctSize(s);
    assert (set x | x in s) == DigitSet();
  }

  /** Nine distinct entries drawn from 1..9 are all of 1..9. */
  lemma NineDistinctDigits(s: seq<int>)
    requires |s| == 9
    requires forall i, j :: 0 <= i < j < 9 ==> s[i] != s[j]
    requires forall i :: 0 <= i < 9 ==> 1 <= s[i] <= 9
    ensures (set x | x in s) == DigitSet()
  {
    DistinctSize(s);
    DigitSetSize();
    SubsetSameSize((set x | x in s), DigitSet());
  }

  /** The entries of a unit of a solved grid are digits, pairwise different. */
  lemma SolvedUnitDistinct(b: Grid, u: Unit)
    requires Solved(b) && ValidUnit(u)
    ensures forall i :: 0 <= i < 9 ==> 1 <= UnitVal(b, u, i) <= 9
    ensures forall i, j :: 0 <= i < j < 9 ==> UnitVal(b, u, i) != UnitVal(b, u, j)
  {
    forall i | 0 <= i < 9 ensures 1 <= UnitVal(b, u, i) <= 9 {
      assert InRange(CellRow(u, i), CellCol(u, i));
    }
  }

  /** In a unit without empty cells, the unit's digit set is the set of its entries. */
  lemma DigitsOfFullUnit(b: Grid, u: Unit)
    requires Shaped(b) && ValidUnit(u)
    requires forall i :: 0 <= i < 9 ==> UnitVal(b, u, i) != 0
    ensures Digits(b, u) == set x | x in UnitSeq(b, u)
  {
    var s := UnitSeq(b, u);
    forall x | x in s ensures x in Digits(b, u) {
      var i :| 0 <= i < 9 && s[i] == x;
    }
  }

  /** Every row, column and box of a solved grid holds each digit 1..9 exactly once. */
  lemma SolvedUnitIsPermutation(b: Grid, u: Unit)
    requires Solved(b) && ValidUnit(u)
    ensures forall i, j :: 0 <= i < j < 9 ==> UnitVal(b, u, i) != UnitVal(b, u, j)
    ensures Digits(b, u) == DigitSet()
  {
    SolvedUnitDistinct(b, u);
    NineDistinctDigits(UnitSeq(b, u));
    DigitsOfFullUnit(b, u);
  }
}
