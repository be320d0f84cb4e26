# dmi2svg in Dafny

A model of the raster-to-vector core of `dmi2svg` (`src/lib.rs`). The core
turns every icon state of a BYOND `.dmi` icon into SVG text. It follows these
steps:

- It takes the first image of every state. If some state has none, it fails
  with `NoFirstStateImage`.
- It counts the pixels of each exact `[r, g, b, a]` colour whose alpha is not
  zero.
- It sorts the colours by descending pixel count. The sort is stable, so equal
  counts keep the ascending colour order of the `BTreeMap`.
- For each colour it builds a 0/1 mask of the pixels of exactly that colour.
  The contour tracer turns the mask into outline data, which is wrapped in a
  `<path fill="rgb(R,G,B)" [opacity="…"] d="…"/>` fragment.
- It concatenates the fragments inside either a full `<svg …>` document
  (`dmi2svg`) or a `<symbol id="…">` element (`dmi2svg_symbol`, and
  `dmi2svg_symbol_map`, which can rename the id).

Modules, one concept each:

- `Text`: the decimal rendering `{}` performs on unsigned integers, and small
  readers for prefixes, numbers and delimiters.
- `Raster`: colours, frames, and the counting functions the contracts are
  stated in.
- `Partition`: the colour counter. The `BTreeMap` is modelled by its entries
  in ascending key order. It also holds the counting loop and the stable sort
  by descending count.
- `Masks`: the mask of one colour, and the loop that fills it.
- `Fragment`: the `<path>` formatter, with a reader for its output.
- `Paths`: `generate_paths`, and what it promises over the whole frame.
- `Document`: the two document headers, with readers for them.
- `Pipeline`: the three entry points.

The readers (`ParsePath`, `ParseSvgDocument`, `ParseSymbolDocument`) are
independent reference definitions of each output format. The formatters are
proved to round-trip through them. The fragment round trip holds when the
opacity table entry it writes has no double quote. The symbol round trip holds
when the id has none. Both conditions are listed under "## Left out".

Three details of the headers and the error, as the code writes them:

- The `<symbol>` header has a `viewBox`, as the full document does.
- The `<symbol>` header has no `shape-rendering` attribute.
- `NoFirstStateImage` carries no state name.

## Model

| member | source | states |
|---|---|---|
| Text.Decimal | src/lib.rs:59 | `{}` on an unsigned integer writes a non-empty run of digits with no leading zero except for 0; `Text.ParseDecimal` gives its read-back |
| Text.ParseDecimal | src/lib.rs:59 | the decimal text `{}` writes for a number reads back as that number, whenever no digit follows it |
| Partition.Increment | src/lib.rs:41 | `entry(c).or_insert(0) += 1` adds `c` to the keys, raises the count of `c` by one, leaves every other count alone, and keeps the keys ascending |
| Partition.Tally | src/lib.rs:37-43 | the modelling function for the counter after the pixel loop; its contract is `Partition.TallySpec` |
| Partition.Histogram | src/lib.rs:37-43 | the counter after the loop over a whole frame; `Partition.CountColors` is proved equal to it, and `Partition.TallySpec` gives its contents |
| Partition.TallySpec | src/lib.rs:37-43 | after the pixel loop, the counter's keys are exactly the non-transparent colours; each count is the number of pixels of exactly that colour; a transparent colour has no count; the counts sum to the number of non-transparent pixels |
| Partition.TallyEntries | src/lib.rs:37-43 | every counted colour has alpha not zero and a count equal to its positive pixel count |
| Partition.CountColors | src/lib.rs:37-43 | the row-by-row counting loop ends holding the histogram: its keys, per-colour counts and total are as in `TallySpec` |
| Partition.InsertByCount | src/lib.rs:46 | one insertion step of the sort adds exactly the inserted entry to the list (as a multiset) and its count to the total |
| Partition.SortByCountDescending | src/lib.rs:46 | the sort permutes its input (same multiset) and keeps the total count |
| Partition.SortIsRanked | src/lib.rs:45-46 | sorting the ascending entries leaves higher counts first, with equal counts in ascending colour order |
| Partition.RankedIsUnique | src/lib.rs:46 | two ranked permutations of the same entries are equal, so any stable sort by descending count (`sort_by` included) yields this order |
| Partition.RankedColors | src/lib.rs:45-46 | the modelling function for `sorted_colors`; its contract is in `Partition.RankedColorsCounts`, `Partition.RankedColorsOrder`, `Partition.RankedColorsCover` and `Partition.RankedColorsTotal` |
| Partition.RankedColorsCounts | src/lib.rs:37-46 | every sorted entry is a non-transparent colour with its exact positive pixel count |
| Partition.RankedColorsOrder | src/lib.rs:45-46 | the sorted list has non-increasing counts, equal counts in ascending colour order, and no colour twice |
| Partition.RankedColorsCover | src/lib.rs:37-46 | a colour is in the sorted list exactly when some pixel has it with alpha not zero, and the list has one entry per such colour |
| Partition.RankedColorsTotal | src/lib.rs:37-46 | the sorted counts add up to the number of non-transparent pixels |
| Masks.Mask | src/lib.rs:72-78 | the mask has `height` rows of `width` cells, with `[y][x]` equal to 1 exactly when pixel (x, y) equals the colour in all four channels, and 0 otherwise |
| Masks.MaskUnique | src/lib.rs:72-78 | any grid of that shape and those cells is the mask |
| Masks.BuildMask | src/lib.rs:72-78 | the zero grid, with the cell of every matching pixel set, is the colour's mask |
| Fragment.FormatPath | src/lib.rs:57-82 | the modelling function for one fragment; its contract is `Fragment.ParseFormatPath` |
| Fragment.ParseFillAttr | src/lib.rs:59 | `fill="rgb(R,G,B)"` reads back as the colour's red, green and blue values |
| Fragment.ParseOpacityAttr | src/lib.rs:57-68 | the opacity attribute reads back as absent when alpha is 255, and otherwise as `OPACITY[alpha]` |
| Fragment.ParseFormatPath | src/lib.rs:57-82 | a fragment reads back as its colour's red, green and blue values, an opacity that is present exactly when alpha is not 255 (with value `OPACITY[alpha]`), and the tracer's outline data. The reader accepts only `<path `, then `fill`, then the optional `opacity`, then `d`, closed by `"/>` and a newline, so it also fixes that order |
| Paths.ColorPath | src/lib.rs:51-84 | the closure's work for one colour: that colour's mask, traced with `closepaths` set, formatted by `Fragment.FormatPath`; `Paths.PathFragmentAt` places it in the result |
| Paths.PathFragments | src/lib.rs:48-86 | the modelling function for the result of `generate_paths`; its contract is `Paths.PathFragmentAt` and `Paths.FragmentCount`, and `Paths.GeneratePaths` is proved equal to it |
| Paths.OrderedMapAt | src/lib.rs:48-86 | `par_iter().map(f).collect()` places `f` of input element `i` at position `i` |
| Paths.PathFragmentAt | src/lib.rs:48-86 | fragment `i` is the one formatted for the colour ranked `i`-th, from that colour's mask traced with `closepaths` set |
| Paths.GeneratePaths | src/lib.rs:33-87 | `generate_paths` returns one fragment per ranked colour, in ranked order, each from the mask its loop builds |
| Paths.FragmentCount | src/lib.rs:48-86 | there are as many fragments as distinct non-transparent colours |
| Paths.MasksCoverOpaquePixels | src/lib.rs:40-78 | a pixel is marked in some ranked colour's mask exactly when its alpha is not zero |
| Paths.MasksDisjointOnRank | src/lib.rs:72-78 | no pixel is marked in the masks of two different ranked colours |
| Paths.SolidOpaqueFrame | src/lib.rs:33-87 | a frame in one fully opaque colour yields one entry counting every pixel, an all-ones mask, and a single fragment that reads back without an opacity attribute |
| Paths.TwoByTwoExample | src/lib.rs:37-78 | in a 2 x 2 frame with two red pixels, one transparent pixel and one green pixel, red is ranked before green, the transparent pixel is in no group, and green's mask is `[[0,0],[0,1]]` |
| Document.ParseSize | src/lib.rs:194-197 | ` width="auto" height="auto" viewBox="0 0 W H"` reads back as W and H |
| Document.SvgDocument | src/lib.rs:193-207 | the modelling function for the full document; its contract is `Document.ParseSvg` |
| Document.SymbolDocument | src/lib.rs:107-118 | the modelling function for the symbol element; its contract is `Document.ParseSymbol` |
| Document.ParseSvg | src/lib.rs:193-207 | the full document reads back as its view box W and H around the concatenated fragments |
| Document.ParseSymbol | src/lib.rs:107-118 | a symbol reads back as its id, its view box W and H, and the concatenated fragments, whenever the id holds no double quote |
| Pipeline.StateSvg | src/lib.rs:186-212 | the `SVGState` the `dmi2svg` closure builds; its contract is `Pipeline.StateSvgReadsBack` |
| Pipeline.StateSymbol | src/lib.rs:101-121 | the element the symbol closures build; its contract is `Pipeline.StateSymbolReadsBack` |
| Pipeline.SymbolId | src/lib.rs:148-152 | the id `dmi2svg_symbol_map` uses; `Pipeline.Dmi2SvgSymbolMap` states it as `map[name]` when the map holds the name, and the name otherwise |
| Pipeline.FirstImages | src/lib.rs:177-182 | the state loop fails with `NoFirstStateImage` exactly when some state has no image, and then returns nothing collected so far; otherwise it yields one (name, first image) pair per state, in order |
| Pipeline.RenderSvg | src/lib.rs:186-212 | the `dmi2svg` closure returns the state's name and a document that reads back as the frame's width and height around the concatenated fragments, one per distinct non-transparent colour |
| Pipeline.RenderSymbol | src/lib.rs:101-121 | the symbol closure returns an element with one fragment per distinct non-transparent colour; when the id holds no double quote, the element reads back as that id and the frame's width and height around the concatenated fragments |
| Pipeline.RenderSymbols | src/lib.rs:140-169 | the symbol loop yields one symbol per pair, in order, whose id is the rename map's entry for the name when there is one, and the name otherwise |
| Pipeline.Dmi2Svg | src/lib.rs:174-217 | `dmi2svg` returns `Err(NoFirstStateImage)` exactly when some state has no image; otherwise it returns one `SVGState` per icon state, in state order, carrying the state's name and the full document of its first image |
| Pipeline.Dmi2SvgSymbol | src/lib.rs:89-125 | `dmi2svg_symbol` fails in the same cases; otherwise it returns one symbol per state, in order, whose id is the state name |
| Pipeline.Dmi2SvgSymbolMap | src/lib.rs:127-172 | `dmi2svg_symbol_map` fails in the same cases; otherwise it returns one symbol per state, in order, whose id is `map[name]` when the map holds the state name and the name itself when it does not |
| Pipeline.StateSvgReadsBack | src/lib.rs:186-212 | each `SVGState` carries the state's name, and its document reads back as the frame's size around one fragment per distinct non-transparent colour |
| Pipeline.StateSymbolReadsBack | src/lib.rs:101-121 | each symbol with a quote-free id reads back as that id and the frame's size around one fragment per distinct non-transparent colour |
| Pipeline.SolidStateDocument | src/lib.rs:174-217 | a state whose frame is one fully opaque colour gives a document whose view box reads back as the frame's width and height around a single fragment without an opacity attribute |

## Left out

- Loading the `.dmi` file is not modelled: opening it, decoding the PNG and reading the DMI metadata (`dmi::icon::Icon::load`). The entry points take the decoded icon as a value, and a state is its name and its list of frames.
- A frame is a width, a height and a grid of `[r, g, b, a]` pixels. The rest of the `image` crate's `DynamicImage` is not modelled.
- The errors `FormatError`, `IoError` and `DmiError` come only from file I/O, decoding and writes to a `String` that cannot fail, so they are not modelled. `Error` has the one variant the core raises itself.
- `contour_tracing::array::bits_to_paths` is not part of this model. It is the `trace` parameter, a function from grid and flag to path data. The model states that it receives the colour's mask and `true`.
- The `OPACITY` table (`src/opacity_map.rs`) is not part of this model. It is the `opacity` parameter, a list of 256 strings indexed by alpha.
- Rayon parallelism is modelled as a sequential, order-preserving map (`Paths.OrderedMap`), since `collect` keeps input order.
- Partition.SortByCountDescending: `Vec::sort_by` sorts in place with the library's merge sort. The model is a stable insertion sort on values. It does not capture the in-place update, but `Partition.RankedIsUnique` shows that every stable sort by descending count gives the same list.
- Partition.CountColors: the `BTreeMap` is modelled by its entries in ascending key order. Its tree structure and balancing are not modelled.
- Masks.BuildMask: the grid is a value (`seq<seq<int>>`) that the loop reassigns. The in-place writes into the `Vec<Vec<i8>>` are not modelled, and neither is the `i8` cell type; cells only ever hold 0 or 1.
- `usize` counts and `u32` sizes are unbounded naturals. No frame the decoder can produce comes near the bounds.
- Fragment.ParseFormatPath: the round trip assumes that `OPACITY[alpha]` holds no double quote, as holds for a table of numeric opacity strings. The `OPACITY` table is not part of this model, so the model does not promise this for every table. A quote in an entry would end the attribute early.
- Fragment.ParseOpacityAttr: assumes the same quote-free table entry as `Fragment.ParseFormatPath`.
- Document.ParseSymbol: the round trip needs an id without a double quote, because the code does not escape the id. A state name or mapped name holding `"` would end the attribute early.
- The command-line programs under `src/bin/` are not modelled. They check arguments, time runs, write files and base64-encode them through another crate. They add two pieces of logic, and neither is modelled:
  - `dmi2css` renames an empty state name to `DEFAULT`.
  - `dmi2svg_symbol` joins the symbols with newlines. It wraps them in an outer `<svg xmlns="http://www.w3.org/2000/svg" width="auto" height="auto" shape-rendering="crispEdges">` element closed by `</svg>` and a newline.
