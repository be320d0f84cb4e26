/**
  The mask builder of `generate_paths`: for one colour, a `height` x `width`
  grid of 0/1 cells (`Vec<Vec<i8>>`) whose cell `[y][x]` is 1 exactly when the
  pixel at `(x, y)` equals the colour in all four channels.
 */
module Masks {
  import opened Raster

  /** `Vec<Vec<i8>>`, indexed `[row][column]`. */
  type Grid = seq<seq<int>>

  /** The cell the mask for `c` holds at row `y`, column `x`. */
  function Cell(f: Frame, c: Color, y: nat, x: nat): int
    requires y < f.height && x < f.width
  {
    if f.rows[y][x] == c then 1 else 0
  }

  /** `bits` has the frame's shape and marks exactly the pixels equal to `c`. */
  predicate IsMaskOf(bits: Grid, f: Frame, c: Color) {
    && |bits| == f.height
    && (forall y :: 0 <= y < |bits| ==> |bits[y]| == f.width)
    && (forall y, x :: 0 <= y < f.height && 0 <= x < f.width ==> bits[y][x] == Cell(f, c, y, x))
  }

  /** The mask for `c`, as a value. */
  function Mask(f: Frame, c: Color): (bits: Grid)
    ensures IsMaskOf(bits, f, c)
  {
    seq(f.height, y requires 0 <= y < f.height =>
      seq(f.width, x requires 0 <= x < f.width => Cell(f, c, y, x)))
  }

  /** The shape and the cells determine the grid: any mask for `c` is `Mask(f, c)`. */
  lemma MaskUnique(bits: Grid, f: Frame, c: Color)
    requires IsMaskOf(bits, f, c)
    ensures bits == Mask(f, c)
  {
    var m := Mask(f, c);
    forall y | 0 <= y < f.height ensures bits[y] == m[y] {
      assert forall x :: 0 <= x < f.width ==> bits[y][x] == m[y][x];
    }
  }

  /**
    The fourth phase of `generate_paths`: start from a grid of zeros and set
    the cell of every pixel that equals `color`, visiting the pixels row by row.
   */
  method BuildMask(f: Frame, color: Color) returns (bits: Grid)
    ensures IsMaskOf(bits, f, color)
  {
    bits := seq(f.height, _ => seq(f.width, _ => 0));
    for y := 0 to f.height
      invariant |bits| == f.height
      invariant forall r :: 0 <= r < f.height ==> |bits[r]| == f.width
      invariant forall r, x :: 0 <= r < y && 0 <= x < f.width ==> bits[r][x] == Cell(f, color, r, x)
      invariant forall r, x :: y <= r < f.height && 0 <= x < f.width ==> bits[r][x] == 0
    {
      for x := 0 to f.width
        invariant |bits| == f.height
        invariant forall r :: 0 <= r < f.height ==> |bits[r]| == f.width
        invariant forall r, k :: 0 <= r < y && 0 <= k < f.width ==> bits[r][k] == Cell(f, color, r, k)
        invariant forall k :: 0 <= k < x ==> bits[y][k] == Cell(f, color, y, k)
        invariant forall k :: x <= k < f.width ==> bits[y][k] == 0
        invariant forall r, k :: y < r < f.height && 0 <= k < f.width ==> bits[r][k] == 0
      {
        if f.rows[y][x] == color {
          bits := bits[y := bits[y][x := 1]];
        }
      }
    }
  }
}
