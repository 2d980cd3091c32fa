/**
 * The grid component's state record and its event handlers.
 *
 * The component's hook state becomes the fields of one object: the value
 * matrix, the selection, the dragging flag, the Meta key flag and the latches
 * of the three key groups. Every event handler becomes a method whose effect is
 * the net effect of the state updates it schedules.
 */
module Sudoku {
  import opened Wrappers
  import opened Cells
  import Selection
  import Navigation
  import Edits
  import opened Keys

  class App {
    const width: nat
    const height: nat
    var values: Grid
    var selected: seq<nat>
    var selecting: bool
    const meta: KeyState
    const digitKeys: KeyLatch
    const deleteKeys: KeyLatch
    const arrowKeys: KeyLatch

    /**
     * The board is not empty, the matrix keeps its shape, every selected index
     * names a cell, and each key group latches only its own keys.
     */
    ghost predicate Valid()
      reads this, digitKeys, deleteKeys, arrowKeys
    {
      0 < width && 0 < height &&
      Shaped(values, width, height) && InBounds(selected, width, height) &&
      meta.codes == ["Meta"] &&
      digitKeys.allowedKeys == Some(DigitKeys) && digitKeys.Valid() &&
      deleteKeys.allowedKeys == Some(DeleteKeys) && deleteKeys.Valid() &&
      arrowKeys.allowedKeys == Some(ArrowKeys) && arrowKeys.Valid() &&
      digitKeys != deleteKeys && digitKeys != arrowKeys && deleteKeys != arrowKeys
    }

    constructor (width: nat, height: nat)
      requires 0 < width && 0 < height
      ensures Valid()
      ensures fresh(meta) && fresh(digitKeys) && fresh(deleteKeys) && fresh(arrowKeys)
      ensures this.width == width && this.height == height
      ensures values == EmptyGrid(width, height) && selected == [] && !selecting
      ensures !meta.pressed && digitKeys.key == None && deleteKeys.key == None && arrowKeys.key == None
    {
      this.width := width;
      this.height := height;
      values := EmptyGrid(width, height);
      selected := [];
      selecting := false;
      meta := new KeyState(["Meta"]);
      digitKeys := new KeyLatch(Some(DigitKeys));
      deleteKeys := new KeyLatch(Some(DeleteKeys));
      arrowKeys := new KeyLatch(Some(ArrowKeys));
    }

    /** `select`: appends the cell's index, or toggles it while Meta is held. */
    method Select(x: nat, y: nat)
      requires Valid() && x < width && y < height
      modifies this`selected
      ensures Valid()
      ensures selected == Selection.Select(old(selected), meta.pressed, Index(x, y, width))
    {
      IndexInBounds(x, y, width, height);
      Selection.SelectStaysInBounds(selected, meta.pressed, Index(x, y, width), width * height);
      selected := Selection.Select(selected, meta.pressed, Index(x, y, width));
    }

    /** `arrowSelect` with Meta not held: the cell becomes the whole selection. */
    method ArrowSelect(x: nat, y: nat)
      requires Valid() && x < width && y < height && !meta.pressed
      modifies this`selected
      ensures Valid()
      ensures selected == [Index(x, y, width)]
    {
      IndexInBounds(x, y, width, height);
      selected := [Index(x, y, width)];
    }

    /** `clearSelection`. */
    method ClearSelection()
      requires Valid()
      modifies this`selected
      ensures Valid()
      ensures selected == []
    {
      selected := [];
    }

    /**
     * `onSelectionStart`: dragging starts; without Meta the selection is
     * replaced by the cell, with Meta the cell is toggled.
     */
    method OnSelectionStart(x: nat, y: nat)
      requires Valid() && x < width && y < height
      modifies this`selected, this`selecting
      ensures Valid()
      ensures selecting
      ensures !meta.pressed ==> selected == [Index(x, y, width)]
      ensures meta.pressed ==> selected == Selection.Select(old(selected), true, Index(x, y, width))
    {
      selecting := true;
      if !meta.pressed {
        ClearSelection();
      }
      Select(x, y);
    }

    /** `onDrag`: while dragging, the cell under the pointer is selected. */
    method OnDrag(x: nat, y: nat)
      requires Valid() && x < width && y < height
      modifies this`selected
      ensures Valid()
      ensures selected == if selecting then Selection.Select(old(selected), meta.pressed, Index(x, y, width))
                          else old(selected)
    {
      if selecting {
        Select(x, y);
      }
    }

    /** `onSelectionEnd`: dragging stops; the selection stays. */
    method OnSelectionEnd()
      requires Valid()
      modifies this`selecting
      ensures Valid()
      ensures !selecting
    {
      selecting := false;
    }

    /** A pointer-down outside the grid clears the selection; dragging is left as it was. */
    method OnClickOutside()
      requires Valid()
      modifies this`selected
      ensures Valid()
      ensures selected == []
    {
      ClearSelection();
    }

    /**
     * `onArrowPress` with Meta not held: the first selected cell moves one
     * step with wraparound; an empty selection is anchored at (0, 0).
     */
    method OnArrowPress(key: string)
      requires Valid() && !meta.pressed
      modifies this`selected
      ensures Valid()
      ensures selected == Navigation.ArrowPress(old(selected), key, width, height)
    {
      if selected == [] {
        ArrowSelect(0, 0);
        return;
      }
      var current := selected[0];
      if current == 0 {
        ArrowSelect(0, 0);
      }
      var c := Decode(current, width, height);
      var x, y := c.0, c.1;
      if key == "ArrowUp" {
        ArrowSelect(x, if y > 0 then y - 1 else height - 1);
      } else if key == "ArrowDown" {
        ArrowSelect(x, (y + 1) % height);
      } else if key == "ArrowLeft" {
        ArrowSelect(if x > 0 then x - 1 else width - 1, y);
      } else if key == "ArrowRight" {
        ArrowSelect((x + 1) % width, y);
      }
    }

    /** `onDigitPress`: every selected cell is toggled between the digit and empty. */
    method OnDigitPress(key: char)
      requires Valid()
      modifies this`values
      ensures Valid()
      ensures values == Edits.DigitEdits(old(values), selected, width, key)
    {
      values := Edits.DigitPress(values, selected, width, key);
    }

    /** `onDeletePress`: every selected cell is emptied. */
    method OnDeletePress()
      requires Valid()
      modifies this`values
      ensures Valid()
      ensures values == Edits.DeleteEdits(old(values), selected, width)
    {
      values := Edits.DeletePress(values, selected, width);
    }

    /** A keydown reaches the Meta flag and all three key latches. */
    method KeyDown(k: string)
      requires Valid()
      modifies meta, digitKeys, deleteKeys, arrowKeys
      ensures Valid()
      ensures meta.pressed == (k == "Meta" || old(meta.pressed))
      ensures digitKeys.key == if k in DigitKeys then Some(k) else old(digitKeys.key)
      ensures deleteKeys.key == if k in DeleteKeys then Some(k) else old(deleteKeys.key)
      ensures arrowKeys.key == if k in ArrowKeys then Some(k) else old(arrowKeys.key)
    {
      meta.KeyDown(k);
      digitKeys.KeyDown(k);
      deleteKeys.KeyDown(k);
      arrowKeys.KeyDown(k);
    }

    /**
     * A keyup reaches the Meta flag and all three key latches; the latch that
     * holds the released key fires its handler.
     */
    method KeyUp(k: string)
      requires Valid()
      requires arrowKeys.key == Some(k) ==> !meta.pressed
      modifies this`values, this`selected, meta
      ensures Valid()
      ensures meta.pressed == (k != "Meta" && old(meta.pressed))
      ensures digitKeys.key == Some(k) ==> |k| == 1 && values == Edits.DigitEdits(old(values), old(selected), width, k[0])
      ensures deleteKeys.key == Some(k) ==> values == Edits.DeleteEdits(old(values), old(selected), width)
      ensures digitKeys.key != Some(k) && deleteKeys.key != Some(k) ==> values == old(values)
      ensures selected == if arrowKeys.key == Some(k) then Navigation.ArrowPress(old(selected), k, width, height)
                          else old(selected)
    {
      meta.KeyUp(k);
      var digit := digitKeys.KeyUp(k);
      if digit.Some? {
        OnDigitPress(digit.value[0]);
      }
      var delete := deleteKeys.KeyUp(k);
      if delete.Some? {
        OnDeletePress();
      }
      var arrow := arrowKeys.KeyUp(k);
      if arrow.Some? {
        OnArrowPress(arrow.value);
      }
    }
  }

  /** A 9-by-9 board: select (0, 0), type 9, then Backspace. */
  method Scenario()
  {
    var app := new App(9, 9);
    app.OnSelectionStart(0, 0);
    app.OnSelectionEnd();
    assert app.selected == [0];
    ghost var empty := app.values;
    assert "9" in DigitKeys && "9" !in DeleteKeys && "9" !in ArrowKeys;
    app.KeyDown("9");
    app.KeyUp("9");
    Edits.DigitEditsCells(empty, [0], 9, '9');
    assert app.values[0][0] == Some('9');
    ghost var typed := app.values;
    assert "Backspace" !in DigitKeys && "Backspace" in DeleteKeys && "Backspace" !in ArrowKeys;
    app.KeyDown("Backspace");
    app.KeyUp("Backspace");
    Edits.DeleteEditsCells(typed, [0], 9);
    assert app.values[0][0] == None;
  }
}
