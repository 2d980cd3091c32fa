/**
 * Batch edits of the value matrix by the digit and delete keys.
 *
 * Each handler maps every selected index to a setter that copies that cell's
 * row, changes the one cell and stores the new row back into the matrix. The
 * setters are composed and applied to a shallow copy of the row array, so they
 * run one after another on the same accumulating copy, the setter of the last
 * selected index first. An index selected twice is edited twice.
 */
module Edits {
  import opened Wrappers
  import opened Cells
  import opened Selection

  /** A positive width, rows of that width, and selected indices inside the matrix. */
  predicate Fits(g: Grid, selected: seq<nat>, width: nat)
  {
    0 < width && Shaped(g, width, |g|) && InBounds(selected, width, |g|)
  }

  /** The new value of a cell when the digit `key` is pressed: the digit, or empty if it already shows it. */
  function Toggled(v: Cell, key: char): Cell
  {
    if v == Some(key) then None else Some(key)
  }

  /** The value of a cell after `n` presses of the digit `key`. */
  function Toggles(v: Cell, key: char, n: nat): Cell
  {
    if n == 0 then v else Toggled(Toggles(v, key, n - 1), key)
  }

  /** The matrix with one cell replaced: its row is copied and stored back. */
  function WithCell(g: Grid, cell: nat, width: nat, v: Cell): (r: Grid)
    requires 0 < width && Shaped(g, width, |g|) && cell < width * |g|
    ensures Shaped(r, width, |g|)
    ensures forall y, x :: 0 <= y < |g| && 0 <= x < width ==>
              r[y][x] == if Index(x, y, width) == cell then v else g[y][x]
  {
    var c := Decode(cell, width, |g|);
    var r := g[c.1 := g[c.1][c.0 := v]];
    forall y, x | 0 <= y < |g| && 0 <= x < width && Index(x, y, width) == cell
      ensures (x, y) == c
    {
      IndexInjective(x, y, c.0, c.1, width);
    }
    r
  }

  /** The setter of one selected index for a digit press. */
  function ToggleSetter(g: Grid, cell: nat, width: nat, key: char): (r: Grid)
    requires 0 < width && Shaped(g, width, |g|) && cell < width * |g|
    ensures Shaped(r, width, |g|)
    ensures forall y, x :: 0 <= y < |g| && 0 <= x < width ==>
              r[y][x] == if Index(x, y, width) == cell then Toggled(g[y][x], key) else g[y][x]
  {
    var c := Decode(cell, width, |g|);
    forall y, x | 0 <= y < |g| && 0 <= x < width && Index(x, y, width) == cell
      ensures (x, y) == c
    {
      IndexInjective(x, y, c.0, c.1, width);
    }
    WithCell(g, cell, width, Toggled(g[c.1][c.0], key))
  }

  /** The setter of one selected index for a delete press. */
  function ClearSetter(g: Grid, cell: nat, width: nat): (r: Grid)
    requires 0 < width && Shaped(g, width, |g|) && cell < width * |g|
    ensures Shaped(r, width, |g|)
    ensures forall y, x :: 0 <= y < |g| && 0 <= x < width ==>
              r[y][x] == if Index(x, y, width) == cell then None else g[y][x]
  {
    WithCell(g, cell, width, None)
  }

  lemma FitsTail(g: Grid, selected: seq<nat>, width: nat)
    requires Fits(g, selected, width) && selected != []
    ensures Fits(g, selected[1..], width) && selected[0] < width * |g|
  {
    assert selected[0] in selected;
    forall k | 0 <= k < |selected[1..]|
      ensures selected[1..][k] < width * |g|
    {
      assert selected[1..][k] == selected[k + 1];
    }
  }

  /** The composed digit setters: the last selected index is edited first. */
  function DigitEdits(g: Grid, selected: seq<nat>, width: nat, key: char): (r: Grid)
    requires Fits(g, selected, width)
    ensures Shaped(r, width, |g|)
    decreases |selected|
  {
    if selected == [] then g
    else
      FitsTail(g, selected, width);
      ToggleSetter(DigitEdits(g, selected[1..], width, key), selected[0], width, key)
  }

  /** The composed delete setters. */
  function DeleteEdits(g: Grid, selected: seq<nat>, width: nat): (r: Grid)
    requires Fits(g, selected, width)
    ensures Shaped(r, width, |g|)
    decreases |selected|
  {
    if selected == [] then g
    else
      FitsTail(g, selected, width);
      ClearSetter(DeleteEdits(g, selected[1..], width), selected[0], width)
  }

  /*
   * The `setValues` updaters as written. Ramda's `compose` throws when it is
   * given no functions, so with an empty selection the updater throws instead
   * of returning a matrix; React re-throws the error while rendering.
   */

  /** What a `setValues` updater does: return a new matrix, or throw. */
  datatype Update = Updated(g: Grid) | Threw

  /** The digit updater as written: `compose(...setters)` applied to a copy of the rows. */
  function DigitUpdateAsWritten(g: Grid, selected: seq<nat>, width: nat, key: char): Update
    requires Fits(g, selected, width)
  {
    if selected == [] then Threw else Updated(DigitEdits(g, selected, width, key))
  }

  /** The delete updater as written. */
  function DeleteUpdateAsWritten(g: Grid, selected: seq<nat>, width: nat): Update
    requires Fits(g, selected, width)
  {
    if selected == [] then Threw else Updated(DeleteEdits(g, selected, width))
  }

  /** As written, a digit or delete press with nothing selected throws. */
  lemma EmptySelectionPressThrows(g: Grid, width: nat, key: char)
    requires Fits(g, [], width)
    ensures DigitUpdateAsWritten(g, [], width, key) == Threw
    ensures DeleteUpdateAsWritten(g, [], width) == Threw
  {
  }

  /**
   * Corrected: with nothing selected a digit or delete press leaves the
   * matrix as it is; with a selection the updaters as written agree with
   * the composed setters.
   */
  lemma EmptySelectionPressKeepsMatrix(g: Grid, selected: seq<nat>, width: nat, key: char)
    requires Fits(g, selected, width)
    ensures selected == [] ==> DigitEdits(g, selected, width, key) == g && DeleteEdits(g, selected, width) == g
    ensures selected != [] ==> DigitUpdateAsWritten(g, selected, width, key) == Updated(DigitEdits(g, selected, width, key))
    ensures selected != [] ==> DeleteUpdateAsWritten(g, selected, width) == Updated(DeleteEdits(g, selected, width))
  {
  }

  /**
   * A digit press edits every cell as many times as its index is selected,
   * and leaves the other cells alone.
   */
  lemma {:induction false} DigitEditsCells(g: Grid, selected: seq<nat>, width: nat, key: char)
    requires Fits(g, selected, width)
    ensures forall y, x :: 0 <= y < |g| && 0 <= x < width ==>
              DigitEdits(g, selected, width, key)[y][x]
                == Toggles(g[y][x], key, multiset(selected)[Index(x, y, width)])
    decreases |selected|
  {
    if selected != [] {
      FitsTail(g, selected, width);
      DigitEditsCells(g, selected[1..], width, key);
      assert selected == [selected[0]] + selected[1..];
      assert multiset(selected) == multiset{selected[0]} + multiset(selected[1..]);
    }
  }

  /** A delete press empties exactly the selected cells. */
  lemma {:induction false} DeleteEditsCells(g: Grid, selected: seq<nat>, width: nat)
    requires Fits(g, selected, width)
    ensures forall y, x :: 0 <= y < |g| && 0 <= x < width ==>
              DeleteEdits(g, selected, width)[y][x]
                == if Index(x, y, width) in selected then None else g[y][x]
    decreases |selected|
  {
    if selected != [] {
      FitsTail(g, selected, width);
      DeleteEditsCells(g, selected[1..], width);
      assert selected == [selected[0]] + selected[1..];
    }
  }

  /** Repeated presses of one digit: odd counts toggle, even counts empty every other digit. */
  lemma {:induction false} TogglesParity(v: Cell, key: char, n: nat)
    ensures n % 2 == 1 ==> Toggles(v, key, n) == Toggled(v, key)
    ensures n % 2 == 0 && n > 0 ==> Toggles(v, key, n) == if v == Some(key) then v else None
  {
    if n > 1 {
      TogglesParity(v, key, n - 1);
    }
  }

  /** Presses add up. */
  lemma {:induction false} TogglesAdd(v: Cell, key: char, a: nat, b: nat)
    ensures Toggles(Toggles(v, key, a), key, b) == Toggles(v, key, a + b)
  {
    if b > 0 {
      TogglesAdd(v, key, a, b - 1);
    }
  }

  lemma {:induction false} DistinctCount(s: seq<nat>, i: nat)
    requires Distinct(s)
    ensures multiset(s)[i] == if i in s then 1 else 0
  {
    if s != [] {
      assert s == [s[0]] + s[1..];
      DistinctCount(s[1..], i);
    }
  }

  /**
   * On a selection without duplicates a digit press sets every selected cell
   * to the digit, or empties it if it showed the digit, and keeps every other cell.
   */
  lemma DigitPressOnDistinct(g: Grid, selected: seq<nat>, width: nat, key: char)
    requires Fits(g, selected, width) && Distinct(selected)
    ensures forall y, x :: 0 <= y < |g| && 0 <= x < width ==>
              DigitEdits(g, selected, width, key)[y][x]
                == if Index(x, y, width) in selected then Toggled(g[y][x], key) else g[y][x]
  {
    DigitEditsCells(g, selected, width, key);
    forall y, x | 0 <= y < |g| && 0 <= x < width
      ensures multiset(selected)[Index(x, y, width)] == if Index(x, y, width) in selected then 1 else 0
    {
      DistinctCount(selected, Index(x, y, width));
    }
  }

  /** A cell selected twice is toggled twice: it ends up empty unless it showed the digit. */
  lemma DigitPressOnDuplicate(g: Grid, selected: seq<nat>, width: nat, key: char, x: nat, y: nat)
    requires Fits(g, selected, width) && y < |g| && x < width
    requires multiset(selected)[Index(x, y, width)] == 2
    ensures DigitEdits(g, selected, width, key)[y][x] == if g[y][x] == Some(key) then g[y][x] else None
  {
    DigitEditsCells(g, selected, width, key);
    TogglesParity(g[y][x], key, 2);
  }

  /**
   * Pressing the same digit twice on the same selection empties every
   * selected cell that did not show the digit and keeps every other cell.
   */
  lemma DigitPressTwice(g: Grid, selected: seq<nat>, width: nat, key: char)
    requires Fits(g, selected, width)
    ensures var once := DigitEdits(g, selected, width, key);
            Fits(once, selected, width) &&
            forall y, x :: 0 <= y < |g| && 0 <= x < width ==>
              DigitEdits(once, selected, width, key)[y][x]
                == if Index(x, y, width) in selected && g[y][x] != Some(key) then None else g[y][x]
  {
    var once := DigitEdits(g, selected, width, key);
    DigitEditsCells(g, selected, width, key);
    DigitEditsCells(once, selected, width, key);
    forall y, x | 0 <= y < |g| && 0 <= x < width
      ensures DigitEdits(once, selected, width, key)[y][x]
                == if Index(x, y, width) in selected && g[y][x] != Some(key) then None else g[y][x]
    {
      var n := multiset(selected)[Index(x, y, width)];
      TogglesAdd(g[y][x], key, n, n);
      TogglesParity(g[y][x], key, n + n);
    }
  }

  /**
   * When every selected cell is empty or shows the digit, pressing that digit
   * twice restores the matrix.
   */
  lemma DigitPressTwiceRestores(g: Grid, selected: seq<nat>, width: nat, key: char)
    requires Fits(g, selected, width)
    requires forall y, x :: 0 <= y < |g| && 0 <= x < width && Index(x, y, width) in selected ==>
               g[y][x] == None || g[y][x] == Some(key)
    ensures var once := DigitEdits(g, selected, width, key);
            Fits(once, selected, width) && DigitEdits(once, selected, width, key) == g
  {
    var once := DigitEdits(g, selected, width, key);
    DigitPressTwice(g, selected, width, key);
    GridExtensionality(DigitEdits(once, selected, width, key), g, width, |g|);
  }

  /** Deleting twice is deleting once. */
  lemma DeleteIdempotent(g: Grid, selected: seq<nat>, width: nat)
    requires Fits(g, selected, width)
    ensures var once := DeleteEdits(g, selected, width);
            Fits(once, selected, width) && DeleteEdits(once, selected, width) == once
  {
    var once := DeleteEdits(g, selected, width);
    DeleteEditsCells(g, selected, width);
    DeleteEditsCells(once, selected, width);
    GridExtensionality(DeleteEdits(once, selected, width), once, width, |g|);
  }

  /** Rows holding no selected cell come through both kinds of edit unchanged. */
  lemma EditsKeepUntouchedRows(g: Grid, selected: seq<nat>, width: nat, key: char, y: nat)
    requires Fits(g, selected, width) && y < |g|
    requires forall k :: 0 <= k < |selected| ==> Decode(selected[k], width, |g|).1 != y
    ensures DigitEdits(g, selected, width, key)[y] == g[y]
    ensures DeleteEdits(g, selected, width)[y] == g[y]
  {
    DigitEditsCells(g, selected, width, key);
    DeleteEditsCells(g, selected, width);
    forall x | 0 <= x < width
      ensures Index(x, y, width) !in selected
    {
      DecodeIndex(x, y, width);
    }
  }

  /**
   * The digit handler: a shallow copy of the row array, then the setters from
   * the last selected index to the first, each storing a new row.
   */
  method DigitPress(values: Grid, selected: seq<nat>, width: nat, key: char) returns (r: Grid)
    requires Fits(values, selected, width)
    ensures r == DigitEdits(values, selected, width, key)
  {
    var rows := new seq<Cell>[|values|](y requires 0 <= y < |values| => values[y]);
    var n := |selected|;
    while n > 0
      invariant 0 <= n <= |selected|
      invariant Fits(values, selected[n..], width)
      invariant rows[..] == DigitEdits(values, selected[n..], width, key)
    {
      n := n - 1;
      assert selected[n..][1..] == selected[n + 1..];
      FitsTail(values, selected[n..], width);
      var c := Decode(selected[n], width, |values|);
      var newRow := rows[c.1];
      newRow := newRow[c.0 := if newRow[c.0] == Some(key) then None else Some(key)];
      rows[c.1] := newRow;
    }
    r := rows[..];
  }

  /** The delete handler, built like the digit handler with setters that empty the cell. */
  method DeletePress(values: Grid, selected: seq<nat>, width: nat) returns (r: Grid)
    requires Fits(values, selected, width)
    ensures r == DeleteEdits(values, selected, width)
  {
    var rows := new seq<Cell>[|values|](y requires 0 <= y < |values| => values[y]);
    var n := |selected|;
    while n > 0
      invariant 0 <= n <= |selected|
      invariant Fits(values, selected[n..], width)
      invariant rows[..] == DeleteEdits(values, selected[n..], width)
    {
      n := n - 1;
      assert selected[n..][1..] == selected[n + 1..];
      FitsTail(values, selected[n..], width);
      var c := Decode(selected[n], width, |values|);
      var newRow := rows[c.1];
      newRow := newRow[c.0 := None];
      rows[c.1] := newRow;
    }
    r := rows[..];
  }
}
