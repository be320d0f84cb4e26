/**
  The three entry points `dmi2svg`, `dmi2svg_symbol` and `dmi2svg_symbol_map`.
  Each takes the first image of every icon state, failing with
  `NoFirstStateImage` as soon as a state has none, and then renders every
  (name, image) pair with `generate_paths` inside a full SVG document or a
  `<symbol>` element. Rayon's `par_iter().map().collect()` keeps the input
  order, so the rendering is a sequential loop here.

  Loading the `.dmi` file is outside this model: the entry points take the
  decoded icon as a value.
 */
module Pipeline {
  import opened Text
  import opened Raster
  import opened Paths
  import opened Document
  import opened Masks
  import opened Fragment

  /** One icon state: its name and its frames, the first of which is rendered. */
  datatype IconState = IconState(name: string, images: seq<Frame>)

  /** A decoded icon: its states, in file order. */
  datatype Icon = Icon(states: seq<IconState>)

  /** The error variant the core raises itself; loading errors are outside this model. */
  datatype Error = NoFirstStateImage

  datatype Result<+T> = Ok(value: T) | Err(error: Error)

  /** `SVGState`: a state's name and its rendered document. */
  datatype SvgState = SvgState(name: string, svg: string)

  /** An entry of `state_vec`: a state's name and its first image. */
  datatype NamedFrame = NamedFrame(name: string, image: Frame)

  /** Some state of the icon has no image. */
  predicate HasEmptyState(icon: Icon) {
    exists i :: 0 <= i < |icon.states| && icon.states[i].images == []
  }

  /** The full document `dmi2svg` writes for one state. */
  function StateSvg(name: string, f: Frame, ext: Externals): SvgState
  {
    SvgState(name, SvgDocument(f.width, f.height, PathFragments(f, ext)))
  }

  /** The symbol element written for one frame under the given id. */
  function StateSymbol(id: string, f: Frame, ext: Externals): string
  {
    SymbolDocument(id, f.width, f.height, PathFragments(f, ext))
  }

  /** The id of a state's symbol in `dmi2svg_symbol_map`: its entry in the rename map, or its own name. */
  function SymbolId(name: string, rename: map<string, string>): string
  {
    if name in rename then rename[name] else name
  }

  /**
    The state loop shared by the three entry points: the first image of every
    state, in state order, or `NoFirstStateImage` when any state has none, in
    which case nothing collected so far is returned.
   */
  method FirstImages(icon: Icon) returns (r: Result<seq<NamedFrame>>)
    ensures r.Err? <==> HasEmptyState(icon)
    ensures r.Err? ==> r.error == NoFirstStateImage
    ensures r.Ok? ==> |r.value| == |icon.states|
    ensures r.Ok? ==> forall i :: 0 <= i < |icon.states| ==>
      r.value[i] == NamedFrame(icon.states[i].name, icon.states[i].images[0])
  {
    var states := [];
    for i := 0 to |icon.states|
      invariant |states| == i
      invariant forall k :: 0 <= k < i ==> icon.states[k].images != []
      invariant forall k :: 0 <= k < i ==> states[k] == NamedFrame(icon.states[k].name, icon.states[k].images[0])
    {
      var state := icon.states[i];
      if state.images == [] {
        return Err(NoFirstStateImage);
      }
      states := states + [NamedFrame(state.name, state.images[0])];
    }
    return Ok(states);
  }

  /**
    The `map` closure of `dmi2svg`: the header for the frame's size, the
    fragments of `generate_paths`, and the closing tag. The document reads
    back as the frame's view box around the fragments, one per ranked colour.
   */
  method RenderSvg(name: string, f: Frame, ext: Externals) returns (s: SvgState)
    ensures s == StateSvg(name, f, ext)
    ensures s.name == name
    ensures ParseSvgDocument(s.svg) == Some(SvgParts(f.width, f.height, Concat(PathFragments(f, ext))))
    ensures |PathFragments(f, ext)| == |OpaqueColors(Pixels(f))|
  {
    var paths := GeneratePaths(f, ext);
    s := SvgState(name, SvgDocument(f.width, f.height, paths));
    StateSvgReadsBack(name, f, ext);
  }

  /**
    The `map` closure of the two symbol entry points. A symbol whose id holds
    no double quote reads back as that id and the frame's view box around the
    fragments.
   */
  method RenderSymbol(id: string, f: Frame, ext: Externals) returns (s: string)
    ensures s == StateSymbol(id, f, ext)
    ensures '"' !in id ==>
      ParseSymbolDocument(s) == Some(SymbolParts(id, f.width, f.height, Concat(PathFragments(f, ext))))
    ensures |PathFragments(f, ext)| == |OpaqueColors(Pixels(f))|
  {
    var paths := GeneratePaths(f, ext);
    s := SymbolDocument(id, f.width, f.height, paths);
    FragmentCount(f, ext);
    if '"' !in id {
      StateSymbolReadsBack(id, f, ext);
    }
  }

  /**
    `dmi2svg`: one `SVGState` per icon state, in state order, named after the
    state and holding the full document of its first image; or
    `NoFirstStateImage` when some state has no image.
   */
  method Dmi2Svg(icon: Icon, ext: Externals) returns (r: Result<seq<SvgState>>)
    ensures r.Err? <==> HasEmptyState(icon)
    ensures r.Err? ==> r.error == NoFirstStateImage
    ensures r.Ok? ==> |r.value| == |icon.states|
    ensures r.Ok? ==> forall i :: 0 <= i < |icon.states| ==>
      r.value[i] == StateSvg(icon.states[i].name, icon.states[i].images[0], ext)
  {
    var frames := FirstImages(icon);
    if frames.Err? {
      return Err(frames.error);
    }
    var render := (fr: NamedFrame) => StateSvg(fr.name, fr.image, ext);
    var svgs := [];
    for i := 0 to |frames.value|
      invariant svgs == OrderedMap(frames.value[..i], render)
    {
      var svg := RenderSvg(frames.value[i].name, frames.value[i].image, ext);
      OrderedMapStep(frames.value, i, render);
      svgs := svgs + [svg];
    }
    OrderedMapAll(frames.value, render);
    OrderedMapAt(frames.value, render);
    return Ok(svgs);
  }

  /**
    The rendering loop of the symbol entry points: one symbol per entry of
    `state_vec`, in order, with the id `rename` gives the entry's name.
   */
  method RenderSymbols(frames: seq<NamedFrame>, rename: map<string, string>, ext: Externals) returns (symbols: seq<string>)
    ensures |symbols| == |frames|
    ensures forall i :: 0 <= i < |frames| ==>
      symbols[i] == StateSymbol(SymbolId(frames[i].name, rename), frames[i].image, ext)
  {
    var render := (fr: NamedFrame) => StateSymbol(SymbolId(fr.name, rename), fr.image, ext);
    symbols := [];
    for i := 0 to |frames|
      invariant symbols == OrderedMap(frames[..i], render)
    {
      var symbol := RenderSymbol(SymbolId(frames[i].name, rename), frames[i].image, ext);
      OrderedMapStep(frames, i, render);
      symbols := symbols + [symbol];
    }
    OrderedMapAll(frames, render);
    OrderedMapAt(frames, render);
  }

  /**
    `dmi2svg_symbol`: one symbol per icon state, in state order, whose id is
    the state's name; or `NoFirstStateImage` when some state has no image.
   */
  method Dmi2SvgSymbol(icon: Icon, ext: Externals) returns (r: Result<seq<string>>)
    ensures r.Err? <==> HasEmptyState(icon)
    ensures r.Err? ==> r.error == NoFirstStateImage
    ensures r.Ok? ==> |r.value| == |icon.states|
    ensures r.Ok? ==> forall i :: 0 <= i < |icon.states| ==>
      r.value[i] == StateSymbol(icon.states[i].name, icon.states[i].images[0], ext)
  {
    var frames := FirstImages(icon);
    if frames.Err? {
      return Err(frames.error);
    }
    var symbols := RenderSymbols(frames.value, map[], ext);
    return Ok(symbols);
  }

  /**
    `dmi2svg_symbol_map`: as `dmi2svg_symbol`, except that a state whose name
    the map holds gets the mapped value as its id.
   */
  method Dmi2SvgSymbolMap(icon: Icon, rename: map<string, string>, ext: Externals) returns (r: Result<seq<string>>)
    ensures r.Err? <==> HasEmptyState(icon)
    ensures r.Err? ==> r.error == NoFirstStateImage
    ensures r.Ok? ==> |r.value| == |icon.states|
    ensures r.Ok? ==> forall i :: 0 <= i < |icon.states| && icon.states[i].name in rename ==>
      r.value[i] == StateSymbol(rename[icon.states[i].name], icon.states[i].images[0], ext)
    ensures r.Ok? ==> forall i :: 0 <= i < |icon.states| && icon.states[i].name !in rename ==>
      r.value[i] == StateSymbol(icon.states[i].name, icon.states[i].images[0], ext)
  {
    var frames := FirstImages(icon);
    if frames.Err? {
      return Err(frames.error);
    }
    var symbols := RenderSymbols(frames.value, rename, ext);
    return Ok(symbols);
  }

  /**
    Every document `dmi2svg` writes reads back as the state's frame size
    around exactly one fragment per distinct non-transparent colour of that
    frame.
   */
  lemma StateSvgReadsBack(name: string, f: Frame, ext: Externals)
    ensures StateSvg(name, f, ext).name == name
    ensures ParseSvgDocument(StateSvg(name, f, ext).svg) == Some(SvgParts(f.width, f.height, Concat(PathFragments(f, ext))))
    ensures |PathFragments(f, ext)| == |OpaqueColors(Pixels(f))|
  {
    ParseSvg(f.width, f.height, PathFragments(f, ext));
    FragmentCount(f, ext);
  }

  /**
    Every symbol whose id holds no double quote reads back as that id and the
    frame's size around the fragments of its colours.
   */
  lemma StateSymbolReadsBack(id: string, f: Frame, ext: Externals)
    requires '"' !in id
    ensures ParseSymbolDocument(StateSymbol(id, f, ext)) == Some(SymbolParts(id, f.width, f.height, Concat(PathFragments(f, ext))))
    ensures |PathFragments(f, ext)| == |OpaqueColors(Pixels(f))|
  {
    ParseSymbol(id, f.width, f.height, PathFragments(f, ext));
    FragmentCount(f, ext);
  }

  /**
    A state whose first frame is one fully opaque colour on every pixel gives a
    document whose view box reads back as the frame's width and height around
    a single fragment, and that fragment has no opacity attribute.
   */
  lemma SolidStateDocument(name: string, f: Frame, c: Color, ext: Externals)
    requires 0 < f.width && 0 < f.height
    requires c.a == 255
    requires forall y, x :: 0 <= y < f.height && 0 <= x < f.width ==> f.rows[y][x] == c
    ensures ParseSvgDocument(StateSvg(name, f, ext).svg)
         == Some(SvgParts(f.width, f.height, FormatPath(c, ext.opacity, ext.trace(Mask(f, c), true))))
    ensures ParsePath(FormatPath(c, ext.opacity, ext.trace(Mask(f, c), true)))
         == Some(PathAttrs(c.r, c.g, c.b, None, ext.trace(Mask(f, c), true)))
  {
    SolidOpaqueFrame(f, c, ext);
    var fragment := FormatPath(c, ext.opacity, ext.trace(Mask(f, c), true));
    assert Concat([fragment]) == fragment;
    ParseSvg(f.width, f.height, PathFragments(f, ext));
  }
}
