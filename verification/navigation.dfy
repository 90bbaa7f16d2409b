/** Keyboard and mouse navigation of the grid view (grid/grid.component.ts): the `between`
    clamp, field selection by click, the currentRow/currentCol lookup and moveFocus with
    its four arrow-key callers. Fields are compared by identity in the source; here a field
    carries an id, and two fields are the same field when they are equal. */
module Navigation {
  import opened Wrappers
  import opened Board

  datatype FieldRef = FieldRef(id: int, readonly: bool)

  type View = seq<seq<FieldRef>>

  /** No field object appears at two positions of a 9×9 view. */
  ghost predicate DistinctFields(v: View)
    requires Shaped(v)
  {
    forall r1, c1, r2, c2 :: 0 <= r1 < 9 && 0 <= c1 < 9 && 0 <= r2 < 9 && 0 <= c2 < 9 && (r1 != r2 || c1 != c2)
      ==> v[r1][c1] != v[r2][c2]
  }

  // ---------------------------------------------------------------------------
  // between

  function Min(a: int, b: int): int { if a <= b then a else b }
  function Max(a: int, b: int): int { if a >= b then a else b }

  /** between(v, lo, hi) = Math.min(Math.max(v, lo), hi): v clamped into [lo, hi]. */
  function Between(v: int, lo: int, hi: int): (r: int)
    ensures r <= hi
    ensures lo <= hi ==> lo <= r
    ensures lo <= v <= hi ==> r == v
    ensures lo <= hi && v < lo ==> r == lo
    ensures v > hi ==> r == hi
  {
    Min(Max(v, lo), hi)
  }

  // ---------------------------------------------------------------------------
  // Selection

  /** onFieldClick: clicking the active field deselects it; clicking any other field
      selects that one. */
  function OnFieldClick(active: Option<FieldRef>, field: FieldRef): (a: Option<FieldRef>)
    ensures a.None? <==> active == Some(field)
    ensures a.Some? ==> a.value == field
  {
    if active == Some(field) then None else Some(field)
  }

  // ---------------------------------------------------------------------------
  // Locating the active field

  /** Array.prototype.indexOf: the first position of f in the row, or -1. */
  function IndexOf(row: seq<FieldRef>, f: FieldRef): (i: int)
    ensures -1 <= i < |row|
    ensures i == -1 <==> f !in row
    ensures 0 <= i ==> row[i] == f && f !in row[..i]
  {
    if row == [] then -1
    else if row[0] == f then 0
    else
      var j := IndexOf(row[1..], f);
      assert row[1..][..if j < 0 then 0 else j] == row[1..if j < 0 then 1 else j + 1];
      if j == -1 then -1 else j + 1
  }

  /** Array.prototype.findIndex over the rows: the first row holding f, or -1. */
  function RowOf(v: View, f: FieldRef): (i: int)
    ensures -1 <= i < |v|
    ensures i == -1 <==> forall r :: 0 <= r < |v| ==> f !in v[r]
    ensures 0 <= i ==> f in v[i] && forall r :: 0 <= r < i ==> f !in v[r]
  {
    if v == [] then -1
    else if f in v[0] then 0
    else
      var j := RowOf(v[1..], f);
      assert forall r :: 1 <= r < |v| ==> v[r] == v[1..][r - 1];
      if j == -1 then -1 else j + 1
  }

  /** currentRow: -1 without an active field, else the row holding it (-1 when none does). */
  function CurrentRow(v: View, active: Option<FieldRef>): (r: int)
    ensures -1 <= r < |v|
    ensures 0 <= r ==> active.Some? && active.value in v[r]
    ensures active.Some? && (exists k :: 0 <= k < |v| && active.value in v[k]) ==> 0 <= r
  {
    if active.None? then -1 else RowOf(v, active.value)
  }

  /** currentCol: -1 without an active field or when no row holds it, else its position in
      the row currentRow found. */
  function CurrentCol(v: View, active: Option<FieldRef>): (c: int)
    ensures c == -1 <==> CurrentRow(v, active) == -1
    ensures 0 <= c ==> var r := CurrentRow(v, active); c < |v[r]| && v[r][c] == active.value
  {
    if active.None? || CurrentRow(v, active) == -1 then -1
    else IndexOf(v[CurrentRow(v, active)], active.value)
  }

  /** With distinct fields, the lookup finds the active field's own coordinates; without an
      active field, or with one not in the view, both are -1. */
  lemma LocateActive(v: View, active: Option<FieldRef>)
    requires Shaped(v) && DistinctFields(v)
    ensures active.None? ==> CurrentRow(v, active) == -1 && CurrentCol(v, active) == -1
    ensures active.Some? && (forall r, c :: 0 <= r < 9 && 0 <= c < 9 ==> v[r][c] != active.value) ==>
              CurrentRow(v, active) == -1 && CurrentCol(v, active) == -1
    ensures forall r, c :: 0 <= r < 9 && 0 <= c < 9 && active == Some(v[r][c]) ==>
              CurrentRow(v, active) == r && CurrentCol(v, active) == c
  {
    forall r, c | 0 <= r < 9 && 0 <= c < 9 && active == Some(v[r][c])
      ensures CurrentRow(v, active) == r && CurrentCol(v, active) == c
    {
      var f := v[r][c];
      assert f in v[r];
      var i := RowOf(v, f);
      assert 0 <= i;
      var j :| 0 <= j < |v[i]| && v[i][j] == f;
      assert i == r;
      var k := IndexOf(v[r], f);
      assert v[r][k] == f;
    }
    if active.Some? && (forall r, c :: 0 <= r < 9 && 0 <= c < 9 ==> v[r][c] != active.value) {
      forall r | 0 <= r < 9 ensures active.value !in v[r] {
        assert forall c :: 0 <= c < |v[r]| ==> v[r][c] != active.value;
      }
    }
  }

  // ---------------------------------------------------------------------------
  // moveFocus

  /** The fields of all rows, row after row (Array.prototype.flat). */
  function Flat(v: View): (s: seq<FieldRef>)
    ensures forall f :: f in s <==> exists r :: 0 <= r < |v| && f in v[r]
  {
    if v == [] then []
    else
      var rest := Flat(v[1..]);
      assert forall r :: 1 <= r < |v| ==> v[r] == v[1..][r - 1];
      v[0] + rest
  }

  /** In a view of nine-field rows, position 9r + c of the flattening is field (r, c). */
  lemma {:induction false} FlatIndex(v: View)
    requires forall r :: 0 <= r < |v| ==> |v[r]| == 9
    ensures |Flat(v)| == 9 * |v|
    ensures forall r, c :: 0 <= r < |v| && 0 <= c < 9 ==> Flat(v)[9 * r + c] == v[r][c]
  {
    if v != [] {
      FlatIndex(v[1..]);
      forall r, c | 0 <= r < |v| && 0 <= c < 9 ensures Flat(v)[9 * r + c] == v[r][c] {
        if r > 0 {
          assert Flat(v)[9 * r + c] == Flat(v[1..])[9 * (r - 1) + c];
        }
      }
    }
  }

  /** Array.prototype.find for a field that is not readonly: its position, or -1. */
  function FindEditable(s: seq<FieldRef>): (k: int)
    ensures -1 <= k < |s|
    ensures k == -1 <==> forall i :: 0 <= i < |s| ==> s[i].readonly
    ensures 0 <= k ==> !s[k].readonly && forall i :: 0 <= i < k ==> s[i].readonly
  {
    if s == [] then -1
    else if !s[0].readonly then 0
    else
      var j := FindEditable(s[1..]);
      if j == -1 then -1 else j + 1
  }

  /** The cell moveFocus moves to from an active field: the current coordinates shifted by
      the relative offsets and clamped into the grid. */
  function MoveTarget(v: View, active: Option<FieldRef>, relativeCol: int, relativeRow: int): (t: (int, int))
    ensures 0 <= t.0 < 9 && 0 <= t.1 < 9
  {
    (Between(CurrentRow(v, active) + relativeRow, 0, 8), Between(CurrentCol(v, active) + relativeCol, 0, 8))
  }

  /** moveFocus: the field it emits, or None when it emits nothing. Without an active field
      it emits the first editable field in row-major order, if there is one; with one, the
      field at the clamped target cell. */
  function MoveFocus(v: View, active: Option<FieldRef>, relativeCol: int, relativeRow: int): (e: Option<FieldRef>)
    requires Shaped(v)
    ensures active.Some? ==>
              e.Some? && exists r, c :: 0 <= r < 9 && 0 <= c < 9 && e.value == v[r][c]
    ensures active.None? ==> (e.None? <==> forall r, c :: 0 <= r < 9 && 0 <= c < 9 ==> v[r][c].readonly)
    ensures active.None? && e.Some? ==>
              exists r, c :: 0 <= r < 9 && 0 <= c < 9 && e.value == v[r][c] && !v[r][c].readonly &&
                forall r', c' :: 0 <= r' < 9 && 0 <= c' < 9 && 9 * r' + c' < 9 * r + c ==> v[r'][c'].readonly
  {
    if active.None? then
      var flat := Flat(v);
      FlatIndex(v);
      var k := FindEditable(flat);
      if k == -1 then
        assert forall r, c :: 0 <= r < 9 && 0 <= c < 9 ==> flat[9 * r + c] == v[r][c];
        None
      else
        var r, c := k / 9, k % 9;
        assert flat[9 * r + c] == v[r][c];
        assert forall r', c' :: 0 <= r' < 9 && 0 <= c' < 9 && 9 * r' + c' < 9 * r + c ==> flat[9 * r' + c'] == v[r'][c'];
        Some(flat[k])
    else
      var t := MoveTarget(v, active, relativeCol, relativeRow);
      Some(v[t.0][t.1])
  }

  /** The four arrow keys and the offsets their handlers pass to moveFocus, in its
      (relativeCol, relativeRow) parameter order. */
  datatype Arrow = Up | Down | Left | Right

  /** The field an arrow key emits. With an active field some field of the grid is emitted;
      without one every key emits the same field, the first editable one. */
  function OnArrow(v: View, active: Option<FieldRef>, key: Arrow): (e: Option<FieldRef>)
    requires Shaped(v)
    ensures active.Some? ==> e.Some? && exists r, c :: 0 <= r < 9 && 0 <= c < 9 && e.value == v[r][c]
    ensures active.None? ==> e == MoveFocus(v, None, 0, 0)
  {
    match key
    case Up => MoveFocus(v, active, -1, 0)
    case Down => MoveFocus(v, active, 1, 0)
    case Left => MoveFocus(v, active, 0, -1)
    case Right => MoveFocus(v, active, 0, 1)
  }

  /** As wired, up and down move along the active field's row (one column left or right)
      and left and right move along its column (one row up or down), stopping at the edge. */
  lemma ArrowMoves(v: View, r: int, c: int, key: Arrow)
    requires Shaped(v) && DistinctFields(v) && 0 <= r < 9 && 0 <= c < 9
    ensures key == Up ==> OnArrow(v, Some(v[r][c]), key) == Some(v[r][Between(c - 1, 0, 8)])
    ensures key == Down ==> OnArrow(v, Some(v[r][c]), key) == Some(v[r][Between(c + 1, 0, 8)])
    ensures key == Left ==> OnArrow(v, Some(v[r][c]), key) == Some(v[Between(r - 1, 0, 8)][c])
    ensures key == Right ==> OnArrow(v, Some(v[r][c]), key) == Some(v[Between(r + 1, 0, 8)][c])
  {
    LocateActive(v, Some(v[r][c]));
  }
}
