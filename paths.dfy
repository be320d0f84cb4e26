/**
  `generate_paths`: rank the frame's colours, then for each colour in that
  order build its mask, hand the mask to the contour tracer and format one
  `<path>` fragment. The per-colour work runs on a Rayon parallel iterator
  whose `collect` keeps the input order; here it is a sequential loop.

  The contour tracer (`contour_tracing::array::bits_to_paths`) and the
  `OPACITY` table are outside this model; they are passed in as `Externals`.
 */
module Paths {
  import opened Text
  import opened Raster
  import opened Partition
  import opened Masks
  import opened Fragment

  /** `bits_to_paths(bits, closepaths)`: a grid of 0/1 cells to SVG path data. */
  type Tracer = (Grid, bool) -> string

  /** The collaborators `generate_paths` calls: the opacity table and the contour tracer. */
  datatype Externals = Externals(opacity: OpacityTable, trace: Tracer)

  /** The fragment for one colour: its mask, traced with `closepaths` set, wrapped in a `<path>` element. */
  function ColorPath(f: Frame, c: Color, ext: Externals): string
  {
    FormatPath(c, ext.opacity, ext.trace(Mask(f, c), true))
  }

  /**
    Rayon's `par_iter().map(f).collect()`: `f` applied to every element, the
    results in input order.
   */
  function OrderedMap<A, B>(s: seq<A>, f: A -> B): (r: seq<B>)
    ensures |r| == |s|
  {
    if s == [] then [] else OrderedMap(s[..|s| - 1], f) + [f(s[|s| - 1])]
  }

  /** Element `i` of the collected results is `f` applied to element `i` of the input. */
  lemma {:induction false} OrderedMapAt<A, B>(s: seq<A>, f: A -> B)
    ensures forall i :: 0 <= i < |s| ==> OrderedMap(s, f)[i] == f(s[i])
  {
    if s != [] {
      OrderedMapAt(s[..|s| - 1], f);
    }
  }

  lemma OrderedMapStep<A, B>(s: seq<A>, i: nat, f: A -> B)
    requires i < |s|
    ensures OrderedMap(s[..i + 1], f) == OrderedMap(s[..i], f) + [f(s[i])]
  {
    assert s[..i + 1][..i] == s[..i];
  }

  lemma OrderedMapAll<A, B>(s: seq<A>, f: A -> B)
    ensures OrderedMap(s[..|s|], f) == OrderedMap(s, f)
  {
    assert s[..|s|] == s;
  }

  /** The closure `generate_paths` maps over the ranked colours. */
  function FragmentOf(f: Frame, ext: Externals): Entry -> string
  {
    (e: Entry) => ColorPath(f, e.color, ext)
  }

  /** The fragments of a frame, one per ranked colour, in ranked order. */
  function PathFragments(f: Frame, ext: Externals): (paths: seq<string>)
    ensures |paths| == |RankedColors(f)|
  {
    OrderedMap(RankedColors(f), FragmentOf(f, ext))
  }

  /** Fragment `i` is the one for the colour ranked `i`-th. */
  lemma PathFragmentAt(f: Frame, ext: Externals, i: nat)
    requires i < |RankedColors(f)|
    ensures PathFragments(f, ext)[i] == ColorPath(f, RankedColors(f)[i].color, ext)
  {
    OrderedMapAt(RankedColors(f), FragmentOf(f, ext));
  }

  /**
    `generate_paths`: count the colours, sort them by descending count, and
    format one fragment per colour from the mask the pixel loop builds for it.
   */
  method GeneratePaths(f: Frame, ext: Externals) returns (paths: seq<string>)
    ensures paths == PathFragments(f, ext)
  {
    var colors := CountColors(f);
    var sorted := SortByCountDescending(colors);
    var render := FragmentOf(f, ext);
    paths := [];
    for i := 0 to |sorted|
      invariant paths == OrderedMap(sorted[..i], render)
    {
      var color := sorted[i].color;
      var bits := BuildMask(f, color);
      MaskUnique(bits, f, color);
      OrderedMapStep(sorted, i, render);
      paths := paths + [FormatPath(color, ext.opacity, ext.trace(bits, true))];
    }
    OrderedMapAll(sorted, render);
  }

  /** One fragment per distinct non-transparent colour of the frame. */
  lemma FragmentCount(f: Frame, ext: Externals)
    ensures |PathFragments(f, ext)| == |OpaqueColors(Pixels(f))|
  {
    RankedColorsCover(f);
  }

  /**
    The masks of the ranked colours cover exactly the non-transparent pixels:
    a pixel is marked in some colour's mask exactly when its alpha is not zero.
    That no pixel is in two ranked colours' masks is `MasksDisjointOnRank`.
   */
  lemma MasksCoverOpaquePixels(f: Frame, y: nat, x: nat)
    requires y < f.height && x < f.width
    ensures f.rows[y][x].a != 0 <==>
      exists i :: 0 <= i < |RankedColors(f)| && Mask(f, RankedColors(f)[i].color)[y][x] == 1
  {
    var r, p := RankedColors(f), f.rows[y][x];
    if p.a != 0 {
      PixelInFrame(f, y, x);
      assert p in OpaqueColors(Pixels(f));
      RankedColorsCover(f);
      var i :| 0 <= i < |r| && r[i].color == p;
      assert Mask(f, r[i].color)[y][x] == 1;
    } else if exists i :: 0 <= i < |r| && Mask(f, r[i].color)[y][x] == 1 {
      var i :| 0 <= i < |r| && Mask(f, r[i].color)[y][x] == 1;
      RankedColorsCounts(f);
      assert false;
    }
  }

  /** No pixel is marked in the masks of two different ranked colours. */
  lemma MasksDisjointOnRank(f: Frame, i: nat, j: nat, y: nat, x: nat)
    requires i < j < |RankedColors(f)|
    requires y < f.height && x < f.width
    ensures Mask(f, RankedColors(f)[i].color)[y][x] == 0 || Mask(f, RankedColors(f)[j].color)[y][x] == 0
  {
    RankedColorsOrder(f);
  }

  /** A constant list of colours tallies to one entry holding its length. */
  lemma {:induction false} TallySolid(s: seq<Color>, c: Color)
    requires |s| > 0 && c.a != 0
    requires forall i :: 0 <= i < |s| ==> s[i] == c
    ensures Tally(s) == [Entry(c, |s|)]
  {
    if |s| > 1 {
      TallySolid(s[..|s| - 1], c);
    }
  }

  /**
    A frame of at least one pixel painted in one fully opaque colour gives
    exactly one fragment: that colour counted on every pixel, with an all-ones
    mask, and no opacity attribute.
   */
  lemma SolidOpaqueFrame(f: Frame, c: Color, ext: Externals)
    requires 0 < f.width && 0 < f.height
    requires c.a == 255
    requires forall y, x :: 0 <= y < f.height && 0 <= x < f.width ==> f.rows[y][x] == c
    ensures RankedColors(f) == [Entry(c, f.width * f.height)]
    ensures forall y, x :: 0 <= y < f.height && 0 <= x < f.width ==> Mask(f, c)[y][x] == 1
    ensures PathFragments(f, ext) == [FormatPath(c, ext.opacity, ext.trace(Mask(f, c), true))]
    ensures ParsePath(PathFragments(f, ext)[0]) == Some(PathAttrs(c.r, c.g, c.b, None, ext.trace(Mask(f, c), true)))
  {
    SolidPixels(f, c);
    assert 0 < f.width * f.height;
    TallySolid(Pixels(f), c);
    PathFragmentAt(f, ext, 0);
    ParseFormatPath(c, ext.opacity, ext.trace(Mask(f, c), true));
  }

  const Red := Color(255, 0, 0, 255)
  const Green := Color(0, 255, 0, 255)
  const Clear := Color(0, 0, 0, 0)

  /** A 2 x 2 frame: two red pixels in the top row, a transparent and a green pixel below. */
  function ExampleFrame(): Frame
  {
    Image(2, 2, [[Red, Red], [Clear, Green]])
  }

  lemma ExamplePixels()
    ensures Pixels(ExampleFrame()) == [Red, Red, Clear, Green]
  {
    var f := ExampleFrame();
    assert f.rows[..1] == [[Red, Red]] && f.rows[..1][..0] == [];
    assert Flatten(f.rows[..1]) == [Red, Red];
  }

  lemma ExampleTally()
    ensures Tally([Red, Red, Clear, Green]) == [Entry(Green, 1), Entry(Red, 2)]
  {
    assert Tally([Red]) == [Entry(Red, 1)] by { assert [Red][..0] == []; }
    assert Tally([Red, Red]) == [Entry(Red, 2)] by { assert [Red, Red][..1] == [Red]; }
    assert Tally([Red, Red, Clear]) == [Entry(Red, 2)] by { assert [Red, Red, Clear][..2] == [Red, Red]; }
    assert [Red, Red, Clear, Green][..3] == [Red, Red, Clear];
    assert ColorLess(Green, Red);
  }

  lemma ExampleSort()
    ensures SortByCountDescending([Entry(Green, 1), Entry(Red, 2)]) == [Entry(Red, 2), Entry(Green, 1)]
  {
    assert [Entry(Green, 1), Entry(Red, 2)][..1] == [Entry(Green, 1)];
    assert SortByCountDescending([Entry(Green, 1)]) == [Entry(Green, 1)];
  }

  lemma ExampleMask()
    ensures Mask(ExampleFrame(), Green) == [[0, 0], [0, 1]]
  {
    var m := Mask(ExampleFrame(), Green);
    assert m[0] == [0, 0];
    assert m[1] == [0, 1];
  }

  /**
    The worked example: red (2 pixels) is ranked before green (1 pixel), the
    transparent pixel is in no group, and green's mask holds the single cell at
    row 1, column 1.
   */
  lemma TwoByTwoExample(ext: Externals)
    ensures RankedColors(ExampleFrame()) == [Entry(Red, 2), Entry(Green, 1)]
    ensures Mask(ExampleFrame(), Green) == [[0, 0], [0, 1]]
    ensures |PathFragments(ExampleFrame(), ext)| == 2
  {
    ExamplePixels();
    ExampleTally();
    ExampleSort();
    ExampleMask();
  }
}
