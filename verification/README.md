# Sudoku grid: selection and input state machine

A Dafny model of the interactive grid component of a Sudoku-style puzzle
board. The component keeps a `height` by `width` matrix of cells (each empty
or showing a digit), a selection of cell indices, a dragging flag, the state of
the Meta key and one key latch per key group (digits, Backspace/Delete,
arrows). Mouse events select cells by click and drag, Meta switches selection
to toggling, digit keys toggle the selected cells between the digit and empty,
Backspace/Delete empty them, and arrow keys move a one-cell cursor with
wraparound at the edges.

Modules:

- `Cells`: the index `y * width + x` of cell (x, y), its decoding by `%` and
  floored division, and the shape of the value matrix.
- `Selection`: Ramda's `difference` and `symmetricDifference` on index lists
  and the `select` updater.
- `Navigation`: the wraparound step of each arrow and the selection after an
  arrow press, with the handler's arithmetic as written (see Findings).
- `Edits`: the composed per-cell setters of the digit and delete handlers as
  functions, and the handlers themselves as methods over a shallow copy of the
  row array.
- `Keys`: the key latch of `useOnKeyPress` and the flag of `useKeyState`, as
  classes.
- `Sudoku`: class `App`, the component's state as fields and one method per
  event.

Two behaviours of the code worth noting:

- A batch edit is not applied to one snapshot of the matrix. The setters run
  one after another on one accumulating copy, so an index selected twice (a
  drag that re-enters a cell) is toggled twice (`Edits.DigitPressOnDuplicate`).
- A zero width or height is never rejected. The model requires both to be
  positive at construction.

## Model

| member | source | states |
|---|---|---|
| Cells.Index | src/App.js:99-109 | the encoding `y * width + x` of cell (x, y); no contract of its own: `Cells.DecodeIndex`, `Cells.IndexInBounds` and `Cells.IndexInjective` state its meaning |
| Cells.Column | src/App.js:132 | the column of an index is less than the width |
| Cells.Row | src/App.js:133 | the column and row of an index encode back to that index |
| Cells.Decode | src/App.js:174 | an index inside the board decodes to an in-bounds (x, y) that encodes back to it |
| Cells.EmptyGrid | src/App.js:82-84 | the initial matrix has `height` rows of `width` cells, all empty |
| Cells.IndexInBounds | src/App.js:101 | an in-bounds (x, y) encodes to an index below width * height |
| Cells.DecodeIndex | src/App.js:132-134 | decoding `y * width + x` gives back exactly (x, y) |
| Cells.DecodeInBounds | src/App.js:153-155 | an index below width * height decodes to a column below width and a row below height |
| Cells.IndexInjective | src/App.js:213 | two in-bounds cells with the same index are the same cell |
| Cells.GridExtensionality | src/App.js:82-84 | two matrices of the same shape that agree on every cell are equal |
| Selection.DifferenceFrom | src/App.js:99 | the kept elements are exactly those of the list not yet seen, without duplicates |
| Selection.Difference | src/App.js:99 | an index is in `difference(a, b)` iff it is in `a` and not in `b`; no duplicates |
| Selection.SymmetricDifference | src/App.js:99 | an index is in the result iff it is in exactly one of the two lists; no duplicates |
| Selection.Select | src/App.js:97-103 | with Meta held, j is selected afterwards iff (j was selected) XOR (j is the clicked cell), without duplicates; otherwise the cell is appended at the end and the rest is unchanged |
| Selection.SelectStaysInBounds | src/App.js:97-103 | selecting an in-bounds cell keeps every selected index in bounds |
| Selection.ToggleAddsAbsent | src/App.js:98-99 | with Meta held, a new cell is appended to a duplicate-free selection ({3} then 5 gives [3, 5]) |
| Selection.ToggleRemovesPresent | src/App.js:98-99 | with Meta held, an already selected cell is removed and the other cells keep their order ({3} then 3 gives []) |
| Selection.ToggleTwiceRestoresMembership | src/App.js:98-99 | with Meta held, selecting the same cell twice restores which cells are selected |
| Navigation.ArrowOf | src/App.js:176-186 | the `switch` on the key name, any other key falling to `default`; no contract of its own: `Navigation.ArrowOfKeyOf` and `Navigation.KeyOf` state it is the inverse of the key names |
| Navigation.ArrowOfKeyOf | src/App.js:176-186 | a key that selects an arrow is exactly that arrow's key name, and every other key selects none |
| Navigation.KeyOf | src/App.js:176-184 | each arrow's key name maps back to that arrow |
| Navigation.Step | src/App.js:177-184 | a step from an in-bounds cell lands on an in-bounds cell |
| Navigation.StepIsModular | src/App.js:177-184 | a step is the move by the arrow's offset with both coordinates taken modulo the board size |
| Navigation.StepAtEdges | src/App.js:177-184 | Up from row 0 gives row height-1, Down from height-1 gives 0, Left from column 0 gives width-1, Right from width-1 gives 0; the other coordinate is unchanged |
| Navigation.StepUndone | src/App.js:177-184 | a step followed by the opposite step returns to the start |
| Navigation.ArrowPress | src/App.js:170-188 | the selection stays in bounds; an arrow leaves exactly one selected cell; an empty selection is anchored at (0, 0) |
| Navigation.ArrowPressMovesCursor | src/App.js:171-184 | an arrow on a non-empty selection selects only the cell one step away from the first selected cell |
| Navigation.ArrowPressUndone | src/App.js:176-184 | an arrow followed by the opposite arrow selects exactly the cell that was first selected |
| Navigation.ArrowPressAsWritten | src/App.js:171-184 | the arrow handler's arithmetic as written, NaN included; no contract of its own: `Navigation.ArrowOnEmptySelectionGivesNaN` and `Navigation.AsWrittenAgreesWhenSelected` state its meaning |
| Navigation.ArrowOnEmptySelectionGivesNaN | src/App.js:171-174 | as written, an arrow on an empty selection selects NaN; corrected, it selects cell 0 |
| Navigation.AsWrittenAgreesWhenSelected | src/App.js:171-184 | on a non-empty selection the handler's arithmetic as written gives exactly `ArrowPress` |
| Edits.WithCell | src/App.js:138-141 | replacing one cell's row keeps the shape and changes that cell only |
| Edits.Toggled | src/App.js:139 | the toggle `newRow[x] === key ? null : key`; no contract of its own: `Edits.ToggleSetter`, `Edits.TogglesParity` and `Edits.DigitPressOnDistinct` state its effect |
| Edits.ToggleSetter | src/App.js:136-142 | a digit setter toggles its own cell between the digit and empty and changes no other cell |
| Edits.ClearSetter | src/App.js:157-162 | a delete setter empties its own cell and changes no other cell |
| Edits.DigitEdits | src/App.js:129-145 | the composed digit setters keep height rows of width cells |
| Edits.DeleteEdits | src/App.js:150-165 | the composed delete setters keep height rows of width cells |
| Edits.DigitUpdateAsWritten | src/App.js:129-145 | the digit updater as written; no contract of its own: `Edits.EmptySelectionPressThrows` and `Edits.EmptySelectionPressKeepsMatrix` state its meaning |
| Edits.DeleteUpdateAsWritten | src/App.js:150-165 | the delete updater as written; no contract of its own: the same two lemmas state its meaning |
| Edits.EmptySelectionPressThrows | src/App.js:145 | as written, a digit or delete press with nothing selected throws, because `compose` gets no functions |
| Edits.EmptySelectionPressKeepsMatrix | src/App.js:145 | corrected, a digit or delete press with nothing selected keeps the matrix; with a selection the updaters as written give exactly the composed setters |
| Edits.DigitEditsCells | src/App.js:129-145 | each cell is toggled once per occurrence of its index in the selection; the others keep their values |
| Edits.DeleteEditsCells | src/App.js:150-165 | exactly the selected cells become empty; every other cell keeps its value |
| Edits.TogglesParity | src/App.js:139 | an odd number of presses toggles a cell; an even, non-zero number empties it unless it showed the digit |
| Edits.TogglesAdd | src/App.js:139 | presses of the same digit add up |
| Edits.DigitPressOnDistinct | src/App.js:129-145 | on a duplicate-free selection each selected cell becomes empty if it showed the digit and the digit otherwise; unselected cells keep their values |
| Edits.DigitPressOnDuplicate | src/App.js:129-145 | a cell selected twice ends up empty unless it showed the digit |
| Edits.DigitPressTwice | src/App.js:129-145 | pressing a digit twice empties every selected cell that did not show it and keeps every other cell |
| Edits.DigitPressTwiceRestores | src/App.js:129-145 | when every selected cell is empty or shows the digit, pressing it twice restores the matrix |
| Edits.DeleteIdempotent | src/App.js:150-165 | deleting twice gives the same matrix as deleting once |
| Edits.EditsKeepUntouchedRows | src/App.js:138-140 | rows holding no selected cell are unchanged by digit and delete presses |
| Edits.DigitPress | src/App.js:129-145 | the handler over a copied row array computes exactly the composed digit setters |
| Edits.DeletePress | src/App.js:150-165 | the handler over a copied row array computes exactly the composed delete setters |
| Keys.KeyLatch.constructor | src/App.js:41-42 | the latch starts empty |
| Keys.KeyLatch.KeyDown | src/App.js:44-47 | an allowed key is latched; any other key leaves the latch as it was |
| Keys.KeyLatch.KeyUp | src/App.js:48-51 | the handler fires, with the released key, iff that key is the latched one; it only fires with allowed keys |
| Keys.KeyState.constructor | src/App.js:56-58 | the key starts released |
| Keys.KeyState.KeyDown | src/App.js:59-62 | a keydown of a tracked key sets `pressed`; other keys leave it |
| Keys.KeyState.KeyUp | src/App.js:63-66 | a keyup of a tracked key clears `pressed`; other keys leave it |
| Sudoku.App.constructor | src/App.js:79-91 | empty matrix of the board's shape, empty selection, not dragging, Meta released, no key latched |
| Sudoku.App.Select | src/App.js:97-103 | the selection becomes `Selection.Select` of the old one; nothing else changes |
| Sudoku.App.ArrowSelect | src/App.js:105-111 | without Meta, the cell becomes the whole selection |
| Sudoku.App.ClearSelection | src/App.js:113-115 | the selection becomes empty |
| Sudoku.App.OnSelectionStart | src/App.js:117-121 | dragging starts; without Meta the selection is exactly the clicked cell whatever it was; with Meta the cell is toggled |
| Sudoku.App.OnDrag | src/App.js:123-125 | while dragging the cell is selected; otherwise the selection is unchanged |
| Sudoku.App.OnSelectionEnd | src/App.js:93-95 | dragging stops and the selection is unchanged |
| Sudoku.App.OnClickOutside | src/App.js:127 | the selection becomes empty and the dragging flag is unchanged |
| Sudoku.App.OnArrowPress | src/App.js:170-190 | the selection becomes `Navigation.ArrowPress` of the old one |
| Sudoku.App.OnDigitPress | src/App.js:129-148 | the matrix becomes `Edits.DigitEdits` of the old one; the selection is unchanged |
| Sudoku.App.OnDeletePress | src/App.js:150-168 | the matrix becomes `Edits.DeleteEdits` of the old one; the selection is unchanged |
| Sudoku.App.KeyDown | src/App.js:41-70 | a keydown updates the Meta flag and latches the key in its own group only |
| Sudoku.App.KeyUp | src/App.js:41-70 | a keyup clears the Meta flag for Meta and fires exactly the handler of the group whose latch holds the key |

## Findings

| source | as written | input that shows it | evidently intended | confidence | as-written member | corrected member |
|---|---|---|---|---|---|---|
| src/App.js:171-174 | on an empty selection the handler calls `arrowSelect([0, 0])` but does not return, then decodes `undefined`, which gives NaN; the last `arrowSelect` stores NaN | empty selection, Meta not held, any arrow key | anchor the cursor at (0, 0), i.e. selection [0] | high; not executed | Navigation.ArrowOnEmptySelectionGivesNaN | Navigation.ArrowPress |

| src/App.js:145, src/App.js:165 | with nothing selected, `setters` is empty and Ramda's `compose()` is called with no functions, which throws inside the `setValues` updater; React re-throws it while rendering and, with no error boundary, unmounts the board | the initial state (nothing selected), then press and release any digit, Backspace or Delete | a press with nothing selected changes nothing | high; not executed | Edits.EmptySelectionPressThrows | Edits.EmptySelectionPressKeepsMatrix |

`Sudoku.App.OnArrowPress`, `Sudoku.App.OnDigitPress` and `Sudoku.App.OnDeletePress`
use the corrected behaviour.

## Left out

- Listener attachment to the window and the document, their removal, and the
  test whether a pointer-down hit the grid (browser I/O). An outside click is
  the event `Sudoku.App.OnClickOutside`.
- Rendering: the element tree, styles, cell size, background image and the
  highlighting of selected cells.
- The `Modes` enumeration and the `mode` state: no handler reads them.
- `console.log` calls.
- Sudoku.App.ArrowSelect: requires Meta not held. With Meta held the code passes a bare number to Ramda's `symmetricDifference`, and Ramda is not part of this model.
- Sudoku.App.OnArrowPress: requires Meta not held, for the same reason.
- Sudoku.App.KeyUp: requires Meta not held when the released key is the latched arrow key, for the same reason.
- Sudoku.App.constructor: requires a positive width and height; the component does not check them, and its only caller (src/index.js) passes 9 by 9.
- Ramda's `difference`, `symmetricDifference` and `compose` are not part of
  this model. Ramda documents `difference` and `symmetricDifference` as
  duplicate-free sets; the order the model gives their results (first
  occurrences, left to right, the first list's part before the second's) comes
  from Ramda's implementation of `difference` and its use in
  `symmetricDifference`, and `Selection.ToggleAddsAbsent` and
  `Selection.ToggleRemovesPresent` depend on that order.
- Sudoku.App.OnDigitPress: with nothing selected the program throws (Ramda's `compose` with no functions, src/App.js:145) and the board unmounts; the model keeps the matrix, the corrected behaviour of the Findings row.
- Sudoku.App.OnDeletePress: with nothing selected the program throws (src/App.js:165); the model keeps the matrix, as in the Findings row.
- Sudoku.App.KeyUp: a digit, Backspace or Delete release with nothing selected throws in the program; the model keeps the matrix, as in the Findings row.
- React's scheduling: batched updates, stale closures, `useCallback`
  dependency lists and the double invocation of updaters in strict mode. Each
  handler's net effect is one atomic step.
- Row identity: the model compares rows by value, so it states that untouched
  rows are equal, not that they are the same array object.
- Cell values are characters, not one-character strings; cell indices are
  natural numbers, not floating-point numbers (except in the as-written arrow
  arithmetic, where NaN is modelled).
- src/index.js, the bootstrap that mounts the component with fixed 9 by 9
  props and an unused matrix constant.
