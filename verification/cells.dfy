/**
 * Cell coordinates and the value matrix of the board.
 *
 * A cell (x, y) of a board `width` cells wide is stored as the single index
 * y * width + x; the index is decoded again with `cell % width` and
 * `Math.floor(cell / width)`. For non-negative indices and a positive width,
 * JavaScript's `%` and floored division agree with Dafny's `%` and `/`.
 */
module Cells {
  import opened Wrappers

  /** A cell shows a single character (a digit) or nothing (`null`). */
  type Cell = Option<char>

  /** The value matrix: a sequence of rows, each a sequence of cells. */
  type Grid = seq<seq<Cell>>

  /** Encodes the coordinates (x, y) as one cell index. */
  function Index(x: nat, y: nat, width: nat): nat
  {
    y * width + x
  }

  /** Decodes a cell index into its column `cell % width`. */
  function Column(cell: nat, width: nat): (x: nat)
    requires 0 < width
    ensures x < width
  {
    cell % width
  }

  /** Decodes a cell index into its row `Math.floor(cell / width)`. */
  function Row(cell: nat, width: nat): (y: nat)
    requires 0 < width
    ensures Index(Column(cell, width), y, width) == cell
  {
    cell / width
  }

  /** Every index of `cells` names a cell of a width-by-height board. */
  predicate InBounds(cells: seq<nat>, width: nat, height: nat)
  {
    forall k :: 0 <= k < |cells| ==> cells[k] < width * height
  }

  /** The matrix has exactly `height` rows of exactly `width` cells. */
  predicate Shaped(g: Grid, width: nat, height: nat)
  {
    |g| == height && forall y :: 0 <= y < |g| ==> |g[y]| == width
  }

  /** The initial matrix: `height` rows of `width` empty cells. */
  function EmptyGrid(width: nat, height: nat): (g: Grid)
    ensures Shaped(g, width, height)
    ensures forall y, x :: 0 <= y < height && 0 <= x < width ==> g[y][x] == None
  {
    seq(height, _ => seq(width, _ => None))
  }

  /** Two matrices of the same shape that agree on every cell are equal. */
  lemma GridExtensionality(g: Grid, h: Grid, width: nat, height: nat)
    requires Shaped(g, width, height) && Shaped(h, width, height)
    requires forall y, x :: 0 <= y < height && 0 <= x < width ==> g[y][x] == h[y][x]
    ensures g == h
  {
    forall y | 0 <= y < height
      ensures g[y] == h[y]
    {
      assert forall x :: 0 <= x < width ==> g[y][x] == h[y][x];
    }
  }

  /**
   * Division with remainder has exactly one solution: for a positive divisor,
   * Dafny's `/` and `%` (which round towards minus infinity) return it.
   */
  lemma DivModUnique(a: int, n: nat, q: int, r: nat)
    requires 0 < n && r < n && a == q * n + r
    ensures a / n == q && a % n == r
  {
    var q', r' := a / n, a % n;
    assert q' * n + r' == q * n + r;
    if q' < q {
      assert (q' + 1) * n == q' * n + n;
      MulMonotone(q' + 1, q, n);
    } else if q < q' {
      assert (q + 1) * n == q * n + n;
      MulMonotone(q + 1, q', n);
    }
  }

  /** Multiplying by a natural number keeps the order of the factors. */
  lemma MulMonotone(a: int, b: int, c: nat)
    requires a <= b
    ensures a * c <= b * c
  {
    assert b * c == a * c + (b - a) * c;
  }

  /** An in-bounds coordinate encodes to an index inside the board. */
  lemma IndexInBounds(x: nat, y: nat, width: nat, height: nat)
    requires x < width && y < height
    ensures Index(x, y, width) < width * height
  {
    assert (height - 1 - y) * width >= 0;
    assert height * width == y * width + width + (height - 1 - y) * width;
  }

  /** Decoding an encoded coordinate gives the coordinate back. */
  lemma DecodeIndex(x: nat, y: nat, width: nat)
    requires x < width
    ensures Column(Index(x, y, width), width) == x
    ensures Row(Index(x, y, width), width) == y
  {
    DivModUnique(Index(x, y, width), width, y, x);
  }

  /** An index inside the board decodes to a coordinate inside the board. */
  lemma DecodeInBounds(cell: nat, width: nat, height: nat)
    requires 0 < width && cell < width * height
    ensures Column(cell, width) < width && Row(cell, width) < height
  {
    var y := Row(cell, width);
    assert y * width <= cell;
    if height <= y {
      MulMonotone(height, y, width);
    }
  }

  /** Decodes an index inside the board into its in-bounds coordinate. */
  function Decode(cell: nat, width: nat, height: nat): (c: (nat, nat))
    requires 0 < width && cell < width * height
    ensures c.0 < width && c.1 < height && Index(c.0, c.1, width) == cell
  {
    DecodeInBounds(cell, width, height);
    (Column(cell, width), Row(cell, width))
  }

  /** Encoding is injective on in-bounds coordinates. */
  lemma IndexInjective(x: nat, y: nat, x': nat, y': nat, width: nat)
    requires x < width && x' < width
    requires Index(x, y, width) == Index(x', y', width)
    ensures x == x' && y == y'
  {
    DecodeIndex(x, y, width);
    DecodeIndex(x', y', width);
  }
}
