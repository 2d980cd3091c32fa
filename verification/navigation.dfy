/**
 * Arrow-key navigation: the first selected cell is decoded, moved one step in
 * the arrow's direction with wraparound at the board's edges, and becomes the
 * whole selection (the Meta key not held).
 */
module Navigation {
  import opened Wrappers
  import opened Cells

  datatype Arrow = Up | Down | Left | Right

  /** The arrow a key name stands for; any other key is ignored. */
  function ArrowOf(key: string): Option<Arrow>
  {
    if key == "ArrowUp" then Some(Up)
    else if key == "ArrowDown" then Some(Down)
    else if key == "ArrowLeft" then Some(Left)
    else if key == "ArrowRight" then Some(Right)
    else None
  }

  /** The key name of an arrow. */
  function KeyOf(dir: Arrow): (key: string)
    ensures ArrowOf(key) == Some(dir)
  {
    match dir
    case Up => "ArrowUp"
    case Down => "ArrowDown"
    case Left => "ArrowLeft"
    case Right => "ArrowRight"
  }

  /** Every key that stands for an arrow is that arrow's key name. */
  lemma ArrowOfKeyOf(key: string)
    ensures ArrowOf(key).Some? ==> KeyOf(ArrowOf(key).value) == key
    ensures ArrowOf(key).None? ==> key !in {KeyOf(Up), KeyOf(Down), KeyOf(Left), KeyOf(Right)}
  {
  }

  function Opposite(dir: Arrow): Arrow
  {
    match dir
    case Up => Down
    case Down => Up
    case Left => Right
    case Right => Left
  }

  /** One step from (x, y) in direction `dir`, wrapping around at each edge. */
  function Step(x: nat, y: nat, dir: Arrow, width: nat, height: nat): (c: (nat, nat))
    requires x < width && y < height
    ensures c.0 < width && c.1 < height
  {
    match dir
    case Up => (x, if y > 0 then y - 1 else height - 1)
    case Down => (x, (y + 1) % height)
    case Left => (if x > 0 then x - 1 else width - 1, y)
    case Right => ((x + 1) % width, y)
  }

  /** The column and row offsets of one step in direction `dir`. */
  function Offset(dir: Arrow): (int, int)
  {
    match dir
    case Up => (0, -1)
    case Down => (0, 1)
    case Left => (-1, 0)
    case Right => (1, 0)
  }

  /**
   * A step is the move by the direction's offset on the torus: both
   * coordinates are taken modulo the board's size.
   */
  lemma StepIsModular(x: nat, y: nat, dir: Arrow, width: nat, height: nat)
    requires x < width && y < height
    ensures Step(x, y, dir, width, height) == ((x + Offset(dir).0) % width, (y + Offset(dir).1) % height)
  {
    DivModUnique(x, width, 0, x);
    DivModUnique(y, height, 0, y);
    match dir
    case Up =>
      if y == 0 { DivModUnique(-1, height, -1, height - 1); } else { DivModUnique(y - 1, height, 0, y - 1); }
    case Down =>
    case Left =>
      if x == 0 { DivModUnique(-1, width, -1, width - 1); } else { DivModUnique(x - 1, width, 0, x - 1); }
    case Right =>
  }

  /** The wraparound at the four edges, and the coordinate the arrow does not move. */
  lemma StepAtEdges(x: nat, y: nat, width: nat, height: nat)
    requires x < width && y < height
    ensures y == 0 ==> Step(x, y, Up, width, height) == (x, height - 1)
    ensures y == height - 1 ==> Step(x, y, Down, width, height) == (x, 0)
    ensures x == 0 ==> Step(x, y, Left, width, height) == (width - 1, y)
    ensures x == width - 1 ==> Step(x, y, Right, width, height) == (0, y)
    ensures Step(x, y, Up, width, height).0 == x && Step(x, y, Down, width, height).0 == x
    ensures Step(x, y, Left, width, height).1 == y && Step(x, y, Right, width, height).1 == y
  {
  }

  /** A step followed by a step in the opposite direction returns to the start. */
  lemma StepUndone(x: nat, y: nat, dir: Arrow, width: nat, height: nat)
    requires x < width && y < height
    ensures var c := Step(x, y, dir, width, height);
            Step(c.0, c.1, Opposite(dir), width, height) == (x, y)
  {
    match dir
    case Up =>
      if y == 0 { DivModUnique(height, height, 1, 0); } else { DivModUnique(y, height, 0, y); }
    case Down =>
      if y + 1 == height { DivModUnique(y + 1, height, 1, 0); } else { DivModUnique(y + 1, height, 0, y + 1); }
    case Left =>
      if x == 0 { DivModUnique(width, width, 1, 0); } else { DivModUnique(x, width, 0, x); }
    case Right =>
      if x + 1 == width { DivModUnique(x + 1, width, 1, 0); } else { DivModUnique(x + 1, width, 0, x + 1); }
  }

  /**
   * The selection after an arrow key is pressed, the Meta key not held. An
   * empty selection is anchored at (0, 0). Otherwise an arrow moves the first
   * selected cell one step and makes it the only selected cell; any other key
   * leaves the selection alone, except that a first selected index of 0,
   * which JavaScript treats as false, is re-anchored at (0, 0).
   */
  function ArrowPress(selected: seq<nat>, key: string, width: nat, height: nat): (r: seq<nat>)
    requires 0 < width && 0 < height && InBounds(selected, width, height)
    ensures InBounds(r, width, height)
    ensures selected == [] ==> r == [Index(0, 0, width)]
    ensures ArrowOf(key).Some? ==> |r| == 1
  {
    IndexInBounds(0, 0, width, height);
    if selected == [] then [Index(0, 0, width)]
    else
      var current := selected[0];
      match ArrowOf(key)
      case None => if current == 0 then [Index(0, 0, width)] else selected
      case Some(dir) =>
        var c := Decode(current, width, height);
        var next := Step(c.0, c.1, dir, width, height);
        IndexInBounds(next.0, next.1, width, height);
        [Index(next.0, next.1, width)]
  }

  /**
   * An arrow press replaces a non-empty selection by the one cell a step away
   * from the first selected cell.
   */
  lemma ArrowPressMovesCursor(selected: seq<nat>, dir: Arrow, width: nat, height: nat)
    requires 0 < width && 0 < height && InBounds(selected, width, height) && selected != []
    ensures var r := ArrowPress(selected, KeyOf(dir), width, height);
            var c := Decode(selected[0], width, height);
            |r| == 1 && Decode(r[0], width, height) == Step(c.0, c.1, dir, width, height)
  {
    var c := Decode(selected[0], width, height);
    var next := Step(c.0, c.1, dir, width, height);
    DecodeIndex(next.0, next.1, width);
  }

  /** Pressing an arrow and then the opposite arrow selects exactly the cell that was first. */
  lemma ArrowPressUndone(selected: seq<nat>, dir: Arrow, width: nat, height: nat)
    requires 0 < width && 0 < height && InBounds(selected, width, height) && selected != []
    ensures var once := ArrowPress(selected, KeyOf(dir), width, height);
            ArrowPress(once, KeyOf(Opposite(dir)), width, height) == [selected[0]]
  {
    var once := ArrowPress(selected, KeyOf(dir), width, height);
    ArrowPressMovesCursor(selected, dir, width, height);
    ArrowPressMovesCursor(once, Opposite(dir), width, height);
    var c := Decode(selected[0], width, height);
    StepUndone(c.0, c.1, dir, width, height);
  }

  /*
   * The arrow handler as written. With an empty selection, `selected[0]` is
   * `undefined`; the handler schedules `arrowSelect([0, 0])` but does not
   * return, and the arithmetic that follows turns `undefined` into NaN. With
   * the Meta key not held the last `arrowSelect` wins, so the selection
   * becomes the one-element list holding the index it computed.
   */

  /** A JavaScript number restricted to the integers and NaN. */
  datatype JsNumber = Num(n: int) | NaN

  /** JavaScript's `%`: the remainder takes the sign of the dividend. */
  function JsRemainder(a: JsNumber, b: nat): JsNumber
    requires 0 < b
  {
    match a
    case NaN => NaN
    case Num(n) => Num(if n >= 0 then n % b else -((-n) % b))
  }

  /** `Math.floor(a / b)` for a positive divisor. */
  function JsFloorDivide(a: JsNumber, b: nat): JsNumber
    requires 0 < b
  {
    match a
    case NaN => NaN
    case Num(n) => Num(n / b)
  }

  function JsPlus(a: JsNumber, b: JsNumber): JsNumber
  {
    if a.NaN? || b.NaN? then NaN else Num(a.n + b.n)
  }

  function JsMinus(a: JsNumber, b: JsNumber): JsNumber
  {
    if a.NaN? || b.NaN? then NaN else Num(a.n - b.n)
  }

  function JsTimes(a: JsNumber, b: JsNumber): JsNumber
  {
    if a.NaN? || b.NaN? then NaN else Num(a.n * b.n)
  }

  /** `a > b`, which is false when `a` is NaN. */
  predicate JsGreater(a: JsNumber, b: int)
  {
    a.Num? && a.n > b
  }

  /** The selection after an arrow press as the handler computes it. */
  function ArrowPressAsWritten(selected: seq<nat>, dir: Arrow, width: nat, height: nat): seq<JsNumber>
    requires 0 < width && 0 < height
  {
    var current := if selected == [] then NaN else Num(selected[0]);
    var x, y := JsRemainder(current, width), JsFloorDivide(current, width);
    var next := match dir
      case Up => (x, if JsGreater(y, 0) then JsMinus(y, Num(1)) else Num(height - 1))
      case Down => (x, JsRemainder(JsPlus(y, Num(1)), height))
      case Left => (if JsGreater(x, 0) then JsMinus(x, Num(1)) else Num(width - 1), y)
      case Right => (JsRemainder(JsPlus(x, Num(1)), width), y);
    [JsPlus(JsTimes(next.1, Num(width)), next.0)]
  }

  /** As written, an arrow press on an empty selection selects NaN, the index of no cell. */
  lemma ArrowOnEmptySelectionGivesNaN(dir: Arrow, width: nat, height: nat)
    requires 0 < width && 0 < height
    ensures ArrowPressAsWritten([], dir, width, height) == [NaN]
    ensures ArrowPress([], KeyOf(dir), width, height) == [0]
  {
  }

  /** On a non-empty selection the handler as written computes exactly `ArrowPress`. */
  lemma AsWrittenAgreesWhenSelected(selected: seq<nat>, dir: Arrow, width: nat, height: nat)
    requires 0 < width && 0 < height && InBounds(selected, width, height) && selected != []
    ensures ArrowPressAsWritten(selected, dir, width, height)
         == [Num(ArrowPress(selected, KeyOf(dir), width, height)[0])]
  {
    DecodeInBounds(selected[0], width, height);
  }
}
