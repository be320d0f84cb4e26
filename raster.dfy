/**
  The decoded image data the converter reads: RGBA pixels and the first frame
  of an icon state, a `width` x `height` grid of them. `Pixels` lists a frame
  in the order `image.pixels()` visits it (row by row, left to right), and the
  counting functions below are the reference the colour partitioner and the
  mask builder are proved against.
 */
module Raster {

  /** One 8-bit channel (Rust `u8`). */
  type Byte = x: int | 0 <= x < 256

  /** One pixel, the `[u8; 4]` value `[red, green, blue, alpha]`. */
  datatype Color = Color(r: Byte, g: Byte, b: Byte, a: Byte)

  /** The order of `[u8; 4]` arrays: lexicographic by red, green, blue, then alpha. */
  predicate ColorLess(c: Color, d: Color) {
    || c.r < d.r
    || (c.r == d.r && c.g < d.g)
    || (c.r == d.r && c.g == d.g && c.b < d.b)
    || (c.r == d.r && c.g == d.g && c.b == d.b && c.a < d.a)
  }

  /** A raster: `rows[y][x]` is the pixel at column `x` of row `y`. */
  datatype Image = Image(width: nat, height: nat, rows: seq<seq<Color>>) {
    predicate WellFormed() {
      |rows| == height && forall y :: 0 <= y < |rows| ==> |rows[y]| == width
    }
  }

  /** A frame as the image decoder delivers it: every row is `width` pixels long. */
  type Frame = im: Image | im.WellFormed() witness Image(0, 0, [])

  function Flatten(rows: seq<seq<Color>>): seq<Color>
  {
    if rows == [] then [] else Flatten(rows[..|rows| - 1]) + rows[|rows| - 1]
  }

  /** The pixels of a frame in row-major order. */
  function Pixels(f: Frame): seq<Color>
  {
    Flatten(f.rows)
  }

  /** How many entries of `s` equal `c` exactly, in all four channels. */
  function Occ(s: seq<Color>, c: Color): nat
  {
    if s == [] then 0 else Occ(s[..|s| - 1], c) + (if s[|s| - 1] == c then 1 else 0)
  }

  /** How many entries of `s` are not fully transparent. */
  function OpaqueCount(s: seq<Color>): nat
  {
    if s == [] then 0 else OpaqueCount(s[..|s| - 1]) + (if s[|s| - 1].a != 0 then 1 else 0)
  }

  /** The distinct colours of `s` whose alpha is not zero. */
  function OpaqueColors(s: seq<Color>): set<Color>
  {
    set c | c in s && c.a != 0
  }

  lemma {:induction false} OccPositive(s: seq<Color>, c: Color)
    requires c in s
    ensures Occ(s, c) > 0
  {
    var front := s[..|s| - 1];
    assert s == front + [s[|s| - 1]];
    if s[|s| - 1] != c {
      assert c in front;
      OccPositive(front, c);
    }
  }

  lemma {:induction false} FlattenHas(rows: seq<seq<Color>>, y: nat, x: nat)
    requires y < |rows| && x < |rows[y]|
    ensures rows[y][x] in Flatten(rows)
  {
    var front := rows[..|rows| - 1];
    if y < |rows| - 1 {
      FlattenHas(front, y, x);
    } else {
      assert Flatten(rows)[|Flatten(front)| + x] == rows[y][x];
    }
  }

  /** Every pixel of the grid is among the frame's pixels. */
  lemma PixelInFrame(f: Frame, y: nat, x: nat)
    requires y < f.height && x < f.width
    ensures f.rows[y][x] in Pixels(f)
  {
    FlattenHas(f.rows, y, x);
  }

  lemma {:induction false} FlattenLength(rows: seq<seq<Color>>, width: nat)
    requires forall y :: 0 <= y < |rows| ==> |rows[y]| == width
    ensures |Flatten(rows)| == |rows| * width
  {
    if rows != [] {
      FlattenLength(rows[..|rows| - 1], width);
      assert |Flatten(rows)| == (|rows| - 1) * width + width;
    }
  }

  lemma {:induction false} FlattenSolid(rows: seq<seq<Color>>, c: Color)
    requires forall y, x :: 0 <= y < |rows| && 0 <= x < |rows[y]| ==> rows[y][x] == c
    ensures forall i :: 0 <= i < |Flatten(rows)| ==> Flatten(rows)[i] == c
  {
    if rows != [] {
      var front := rows[..|rows| - 1];
      FlattenSolid(front, c);
      forall i | 0 <= i < |Flatten(rows)|
        ensures Flatten(rows)[i] == c
      {
        if i >= |Flatten(front)| {
          assert Flatten(rows)[i] == rows[|rows| - 1][i - |Flatten(front)|];
        }
      }
    }
  }

  /** A frame painted in one colour lists `width * height` copies of it. */
  lemma SolidPixels(f: Frame, c: Color)
    requires forall y, x :: 0 <= y < f.height && 0 <= x < f.width ==> f.rows[y][x] == c
    ensures |Pixels(f)| == f.width * f.height
    ensures forall i :: 0 <= i < |Pixels(f)| ==> Pixels(f)[i] == c
  {
    FlattenLength(f.rows, f.width);
    FlattenSolid(f.rows, c);
  }
}
