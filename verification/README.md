# Wordless, modelled in Dafny

Wordless redraws a photograph as layers of Chinese characters. Each layer walks a grid over
the grey-scale image. For every grid cell it:

- samples the cell's mean luminance;
- turns it into an opacity and a placement probability;
- draws one random number to decide whether the cell gets a glyph;
- for a kept cell, picks a character, jitters its centre, varies its font size and, optionally,
  rotates it.

This project models that core and three programs built on it:

- the still picture of `build_word_image` (four coarse-to-fine layers);
- the style presets and the comparison sheets of `generate_variations.py`:
  - the selection of requested styles;
  - the evaluation sheet and the comparison strip;
  - the side-by-side layout;
- the fly-in animation of `animate_depth_transition.py`:
  - the six preset layers fly in one after another from random points outside the canvas;
  - each layer settles;
  - the result fades into the original image.

## How the model is built

- **Modules follow the program:**
  - `Basics` holds `int()`, clamping, `random.uniform` and `range` lengths.
  - `Grid` is the `range(0, h, step)` × `range(0, w, step)` walk.
  - `Luminance` is `sample_region_luminance`.
  - `Mapper` is `luminance_to_alpha_and_density`.
  - `Planner` is `draw_layer` and `build_word_image`.
  - `Variations` is `generate_variations.py` minus the stitching.
  - `Stitch` is `stitch_side_by_side`.
  - `Animation` is `animate_depth_transition.py`.
- **Randomness is an explicit stream** `rs: nat -> real` of draws in [0, 1) with a cursor.
  - Every operation reads its draws at the cursor in the order the source calls `random` and returns the next cursor.
  - `random.choice(xs)` reads one draw `u` and picks `xs[floor(u * |xs|)]`.
  - `random.uniform(a, b)` is `a + (b - a) * u`.
- **A layer is the ordered list of glyph placements it would draw.** Each placement holds the cell, the word, the jittered centre, the font size, the measured extent, the top-left corner, the opacity, the colour and the optional angle.
  - Text measurement (`font.getbbox`, `draw.textbbox`) is a function parameter.
- **An animation frame describes what it shows.**
  - A flight frame shows the settled layers and the moving glyphs' stamps.
  - A fade frame shows the settled layers and the blend weight.
  - Both record the blur radius, when one is applied.
- **The layer loops are written once over a function value.** They are stated over any per-layer step: a `Decider` for the cell walk and a `Preparer` for the animation's layers. The concrete step (`CellDecider`, `LayerPreparer`) is then proved to meet that interface.
- **The animation's draws come first.** Drawing a frame consumes no randomness. So preparing each layer's glyphs in order (`PrepareAll`) and then laying out the frames (`Flights`) reads the stream exactly as the interleaved loop of `accumulate_layers_animation` does.

### Arithmetic and draws worth noting

- Opacity and font size are truncated toward zero by `int()` (main.py:48, main.py:101, animate_depth_transition.py:64), not rounded. The model truncates. `OpacityTruncates` and `SizeForTruncates` show that the clamped floor used internally equals the clamped truncation.
- Every visited cell calls `random.random()`, even when its placement density is 1 or more and the glyph is certain to be kept (main.py:90, animate_depth_transition.py:53). The model consumes that draw, and `DecideKeeps` states the exact number of draws per cell.

## Model

| member | source | states |
|---|---|---|
| Basics.TruncBounds | main.py:48 | `int()` of a float drops the fraction toward zero: never larger in magnitude, less than one away, and of the same sign |
| Basics.TruncMonotone | main.py:48 | `int()` is monotone |
| Basics.Clamp | main.py:49 | `max(lo, min(hi, v))` lies in [lo, hi], is v when v is inside, and is the nearer bound otherwise |
| Basics.UniformIn | main.py:100 | `random.uniform(a, b)` lies between a and b (either order) |
| Basics.Scale | main.py:100 | the span `b - a` scaled by a draw in [0, 1) lies between 0 and the span, strictly short of a positive span |
| Grid.CellsAreGrid | main.py:80-81 | a cell is visited by the two nested `range(0, ·, step)` loops exactly when its corner is inside the image on a multiple of step |
| Grid.CellCount | main.py:80-81 | the walk visits ceil(h/step) × ceil(w/step) cells |
| Grid.CellsRowMajor | main.py:80-81 | cells are visited row by row, left to right within a row |
| Grid.NegativeStepIsEmpty | main.py:80-81 | a negative step visits no cell |
| Grid.RowMembers | main.py:81 | the inner loop visits exactly the x on the stride from its start up to the width |
| Grid.RowsMembers | main.py:80-81 | the rows from y visit exactly the strided cells at or below y |
| Luminance.Sample | main.py:13-26 | the sampled luminance lies in [0, 255] and is 255 for an empty crop |
| Luminance.RegionSize | main.py:18-22 | the cropped block has (x2 − x) × (y2 − y) pixels |
| Luminance.CellNotEmpty | main.py:18-23 | a cell whose corner lies inside the image crops at least one pixel, so the mean is taken |
| Luminance.MeanBetween | main.py:26 | the mean of pixels within [lo, hi] lies within [lo, hi] |
| Luminance.SampleBetween | main.py:13-26 | a block whose pixels lie within [lo, hi] samples to a luminance within [lo, hi] |
| Luminance.SampleUniform | main.py:13-26 | a uniformly coloured block samples to exactly its colour |
| Mapper.AlphaDensity | main.py:34-52 | the opacity is always within [0, 255] |
| Mapper.OpacityTruncates | main.py:48-49 | the opacity is the clamp to [0, 255] of `int(base_alpha + darkness × alpha_boost_dark)` |
| Mapper.AtBlack | main.py:46-51 | black gets `base_alpha + alpha_boost_dark` (clamped) and the full density scale |
| Mapper.AtWhite | main.py:46-51 | white gets `base_alpha` (clamped) and density 0 |
| Mapper.DarkerIsDenser | main.py:46-51 | a darker cell never gets a lower opacity or density (non-negative boost and scale) |
| Mapper.DensityRange | main.py:51 | for luminance in [0, 255] the density lies within [0, density_scale]; it is not clamped to 1 |
| Planner.ChoiceIndex | main.py:29-31 | `random.choice` over n items yields an index below n |
| Planner.Choose | main.py:29-31 | the chosen word is one of the words |
| Planner.ChoiceCovers | main.py:31 | every index is chosen by some draw |
| Planner.JitterWithin | main.py:95-96 | a jitter moves a glyph at most step × \|random_jitter\|, and not at all for a zero jitter |
| Planner.CentreWithin | main.py:95-98 | the jittered centre stays within that reach of the cell centre on each axis |
| Planner.ResolvedSize | main.py:100-101 | the font size is at least 6 |
| Planner.SizeForTruncates | main.py:101 | the size is `max(6, int(font_size × variation))` |
| Planner.SizeForMonotone | main.py:101 | a larger variation never gives a smaller size |
| Planner.ResolvedSizeRange | main.py:100-101 | the size lies between the sizes for variation 0.9 and 1.2 |
| Planner.CornerNearCentred | main.py:108-109 | the integer corner is within one unit of the centred position |
| Planner.CellMapping | main.py:82-88 | the cell's opacity is within [0, 255] |
| Planner.Decide | main.py:82-112 | one cell consumes between 1 and 6 draws, and a glyph it keeps belongs to that cell |
| Planner.DecideKeeps | main.py:90-112 | a cell is kept exactly when its draw does not exceed the density; a skipped cell consumes one draw, a kept one 5 (6 with rotation) |
| Planner.DenseCellKept | main.py:90-91 | a cell with density at least 1 is always kept |
| Planner.KeepStyled | main.py:93-112 | a kept glyph has a vocabulary word, the layer's colour, the cell's opacity, a size of at least 6, and an angle in [−25, 25] exactly when rotation is on |
| Planner.KeepPositioned | main.py:95-109 | a kept glyph's centre is within the jitter reach of its cell centre and its corner centres the measured extent there |
| Planner.DecideWellPlaced | main.py:82-112 | every glyph a cell keeps is styled and positioned as above |
| Planner.DecideLocal | main.py:90-112 | a cell's outcome depends only on the draws it consumes |
| Planner.Walk | main.py:80-91 | the walk keeps no more glyphs than it visits cells, each at a walked cell, and advances the cursor by 1 to 6 draws per cell (`WalkRowMajor` adds that the glyphs' cells are distinct and in walk order) |
| Planner.WalkRowMajor | main.py:80-91 | glyphs come out in row-major order of their cells |
| Planner.WalkPlacesAll | main.py:80-91 | when every cell is kept, the glyphs sit at exactly the walked cells |
| Planner.WalkPlacementsDecided | main.py:80-112 | every glyph of the walk is the decision taken at one of the walked cells |
| Planner.PlanLayer | main.py:55-136 | a layer draws no more glyphs than it has grid cells, each on the grid (distinct cells in row-major order: `LayerRowMajor`), nothing for a negative step, and never moves the cursor back |
| Planner.LayerSize | main.py:80-81 | a layer draws at most ceil(h / step) · ceil(w / step) glyphs, one bound per visited cell |
| Planner.LayerRowMajor | main.py:80-81 | a layer's glyphs are in row-major order |
| Planner.LayerWellPlaced | main.py:80-112 | every glyph of a layer is well placed by the layer's settings at its own grid cell |
| Planner.LayerPlacesAll | main.py:80-91 | where every cell is dense enough, the layer has a glyph at exactly every grid cell |
| Planner.RenderLayers | main.py:200-214 | drawing the layers in order yields one glyph list per layer and never moves the cursor back |
| Planner.RenderedLayerAt | main.py:200-214 | layer k of the canvas is exactly what `draw_layer` plans for the k-th configuration, from a cursor at or after the start (the first layer from the start itself) |
| Planner.RenderLayersCons | main.py:200-214 | the first layer is drawn from the start cursor, and the rest are drawn from where it stopped |
| Planner.PlannedSound | main.py:80-112 | a layer planned from any cursor has every glyph well placed at its own cell and its glyphs in row-major order |
| Planner.RenderedLayers | main.py:200-214 | every layer of the canvas is the plan of its own configuration from a later cursor, so every glyph on it is well placed at its own cell and each layer is in row-major order |
| Planner.RenderAppend | main.py:200-214 | drawing a + b is drawing a, then drawing b from where a left the stream |
| Planner.MainLayersCoarseToFine | main.py:161-198 | four layers, jitter 0.4, steps and font sizes strictly decreasing, rotation on exactly for the middle two |
| Planner.Vocabulary | main.py:159 | the vocabulary is 30 single characters |
| Planner.Characters | main.py:159 | `list(str)` splits a string into its characters, in order |
| Planner.BuildWordImage | main.py:139-217 | the still picture has four layers |
| Planner.BuildWordImageLayers | main.py:200-214 | each of the four layers is the plan of the matching fixed layer setting over the fixed character set, with every glyph well placed at its own cell and in row-major order |
| Planner.ScaledSize | main.py:151-152 | the image is resized to width `max_width`; a zero width fails; the same resize is done by generate_variations.py:24-25 and by `build_base_image` at animate_depth_transition.py:15-16 |
| Planner.ScaledHeight | main.py:151-152 | the new height is `int(h × max_width / w)` = h × max_width div w |
| Variations.GetOr | generate_variations.py:45-46 | `layer.get(key, default)` gives the stored value when present and the default otherwise |
| Variations.DefaultsFillGaps | generate_variations.py:33-47 | each layer is drawn with its own settings, jitter 0.4 and no rotation unless the layer sets them |
| Variations.Names | generate_variations.py:185 | `presets.keys()` lists the preset names in order |
| Variations.Lookup | generate_variations.py:182-192 | a style is found exactly when its name is a preset name, and yields that preset's layers |
| Variations.PresetsWellFormed | generate_variations.py:53-80 | four distinct names in order, three layers each, positive steps, sizes and densities, steps strictly decreasing, no optional keys |
| Variations.PresetLayersDrawnPlain | generate_variations.py:45-46 | every preset layer is drawn with jitter 0.4 and without rotation |
| Variations.AllDefaults | generate_variations.py:33-47 | each layer is drawn with its defaults filled in |
| Variations.RenderWithLayers | generate_variations.py:10-50 | a variant draws one glyph list per given layer |
| Variations.RenderWithLayersLayers | generate_variations.py:33-47 | layer k of a variant is the plan of the k-th layer record with jitter 0.4 and no rotation filled in where absent, over the characters of `words`, every glyph well placed at its own cell and in row-major order |
| Variations.RenderWithLayersAppend | generate_variations.py:33-47 | rendering a + b is rendering a, then b from where a left the stream |
| Variations.Select | generate_variations.py:182 | the selection is no longer than the request |
| Variations.SelectMembers | generate_variations.py:182 | a name is selected exactly when it was requested and is known |
| Variations.SelectAppend | generate_variations.py:182 | selection keeps request order |
| Variations.SelectAll | generate_variations.py:182 | a request of known names is selected unchanged |
| Variations.PlanOutputsSelects | generate_variations.py:182-202 | `main` fails exactly when no requested name is known; otherwise it renders exactly the requested known styles, in request order with repeats kept |
| Variations.PlanOutputsError | generate_variations.py:183-186 | the failure message lists the available styles joined by ", " |
| Variations.PlanOutputsPanels | generate_variations.py:206-249 | the evaluation sheet is the original then the selected key styles in key order; the strip is the first min(3, variants) variants then the sheet; without key styles the strip is the variants |
| Variations.DefaultRequest | generate_variations.py:163-168 | the default request renders all four styles, a sheet of original and the three key styles, and a strip of those three and the sheet |
| Variations.DefaultKeys | generate_variations.py:206-207 | all key styles are among the default styles |
| Variations.OriginalSize | generate_variations.py:211-215 | the original is scaled down to `max_width` only when wider and never scaled up |
| Stitch.MaxHeight | generate_variations.py:98-99 | the canvas height is at least every panel's height and equals one of them |
| Stitch.Half | generate_variations.py:115 | `(a − b) // 2` floors |
| Stitch.SideBySide | generate_variations.py:83-132 | nothing for no panels; otherwise width = total width, height = max height plus 40 with labels, each panel at its offset, and a label exactly under the panels that have one, centred in the band |
| Stitch.PanelsTile | generate_variations.py:113-129 | each panel starts where the previous one ends; earlier panels end before later ones start |
| Stitch.PanelsFillWidth | generate_variations.py:100 | the last panel ends exactly at the canvas width |
| Stitch.CentredInside | generate_variations.py:115 | each vertically centred panel fits within the tallest panel's height |
| Animation.LayerTargets | animate_depth_transition.py:20-85 | every target is well placed by the layer's settings with the density scaled by the multiplier, and unrotated |
| Animation.TargetsMirrorDrawnLayer | animate_depth_transition.py:27-83 | at multiplier 1.0, a preset layer's targets are exactly the glyphs `draw_layer` would draw from the same stream |
| Animation.BeforeEdge | animate_depth_transition.py:92 | `-w × uniform(0.1, 0.5)` lies in [−0.5 w, −0.1 w] |
| Animation.PastEdge | animate_depth_transition.py:94 | `w × (1 + uniform(0.1, 0.5))` lies in [1.1 w, 1.5 w] |
| Animation.Along | animate_depth_transition.py:92-98 | `uniform(0, w)` lies in [0, w] |
| Animation.SidePointInBand | animate_depth_transition.py:88-98 | a start drawn for a side lies in that side's band |
| Animation.StartOffscreen | animate_depth_transition.py:88-98 | every start lies in one side's band, and strictly off a non-empty canvas |
| Animation.EverySideReachable | animate_depth_transition.py:90 | each of the four sides is chosen by some draw |
| Animation.StartsOffscreen | animate_depth_transition.py:150-152 | every glyph of a layer starts off a non-empty canvas |
| Animation.ProgressRises | animate_depth_transition.py:156 | `(f + 1) / n` rises strictly within (0, 1] and reaches 1 only at the last frame |
| Animation.ProgressLast | animate_depth_transition.py:156 | the last frame has progress 1 |
| Animation.LerpEnds | animate_depth_transition.py:165-166 | a glyph is at its start at progress 0 and at its target at progress 1 |
| Animation.LerpApproaches | animate_depth_transition.py:165-166 | for progress in [0, 1] the position is a convex combination of start and target, so it lies between them; the remaining distance is (1 − p) of the whole and never grows |
| Animation.LerpBetween | animate_depth_transition.py:165-166 | for progress in [0, 1] the interpolated coordinate lies between the start and the target |
| Animation.Landed | animate_depth_transition.py:162-206 | at progress 1 the moving glyphs are exactly the stamps the layer settles as |
| Animation.SettledCentred | animate_depth_transition.py:193-198 | a settled glyph's corner is within one unit of centring it on its target |
| Animation.FlightBlurFades | animate_depth_transition.py:184-188 | a flight frame is blurred by 1.2 (1 − p) exactly while p < 11/12, and the blur never grows |
| Animation.FadeBlurFades | animate_depth_transition.py:214-216 | a fade frame is blurred by 1.5 (1 − a) exactly while a < 1, and the blur never grows |
| Animation.FlightFrames | animate_depth_transition.py:155-189 | `range(frames_per_layer)` flight frames over the same settled canvas; the last shows every glyph landed and unblurred |
| Animation.FadeFrames | animate_depth_transition.py:210-217 | `range(final_original_frames)` fade frames; the last is the original, unblurred |
| Animation.FlightCountIsProduct | animate_depth_transition.py:137-155 | the flight frames number layers × frames per layer |
| Animation.LayerOf | animate_depth_transition.py:137-155 | every flight frame is frame f of exactly one layer k |
| Animation.LayerOrder | animate_depth_transition.py:137-155 | a later frame never belongs to an earlier layer |
| Animation.FlyIn | animate_depth_transition.py:141-152 | preparing a layer never moves the cursor back |
| Animation.PrepareAll | animate_depth_transition.py:137-152 | one glyph list per layer, and the cursor never moves back |
| Animation.PreparedByLayer | animate_depth_transition.py:137-152 | layer k's glyphs are that layer's preparation at a cursor no earlier than the start; the first layer's at the start |
| Animation.ConcatIndex | animate_depth_transition.py:135-189 | appending equal-sized blocks of frames puts frame f of block k at k blocks plus f |
| Animation.FlightsFrame | animate_depth_transition.py:155-206 | flight frame f of layer k shows exactly the layers before k as settled, under layer k's glyphs in flight |
| Animation.SettledGrows | animate_depth_transition.py:191-206 | over the flight frames the settled layers only grow: an earlier frame's are a prefix of a later frame's |
| Animation.FlyInGlyphs | animate_depth_transition.py:141-152 | a layer's glyphs fly to well-placed, unrotated targets in row-major order, from off a non-empty canvas |
| Animation.CombinedLayers | animate_depth_transition.py:126-131 | six layers, all with a positive step |
| Animation.CombinedLayersNamed | animate_depth_transition.py:126-131 | the first three are subtle_soft's layers and the last three graphic_bold's |
| Animation.Accumulate | animate_depth_transition.py:101-217 | layers × frames-per-layer flight frames plus the fade frames, one glyph list and one settled layer per layer |
| Animation.AccumulateFlightFrame | animate_depth_transition.py:137-206 | in the whole list, flight frame f of layer k shows the layers settled before k under layer k's glyphs |
| Animation.AccumulateFadeFrame | animate_depth_transition.py:208-217 | after the flights, each fade frame is over every settled layer; the last is the original, unblurred |
| Animation.AccumulateSettledGrows | animate_depth_transition.py:123-206 | across the animation's flight frames the settled words never disappear or reorder |
| Animation.Animate | animate_depth_transition.py:101-233 | 6 × frames_per_layer flight frames plus the fade frames, six layers flown and settled |
| Animation.AnimationGlyphs | animate_depth_transition.py:137-152 | every glyph of every animated layer flies to a well-placed, unrotated target over the 30 characters, in row-major order, from off a non-empty canvas |
| Animation.SaveGif | animate_depth_transition.py:219-232 | nothing is saved without frames; otherwise every frame in order at 120 ms, looping forever |
| Animation.AnimationSaved | animate_depth_transition.py:219-222 | an animation is saved exactly when it has a flight or a fade frame |

## Left out

- Pixel work is outside the model: image loading, the RGB-to-grey conversion, Lanczos resizing, text drawing, `alpha_composite`, Gaussian blur, `Image.blend`, palette conversion and GIF/PNG encoding. The model keeps the positions, sizes, opacities, blur radii and blend weights handed to those calls.
- Fonts are not modelled: `load_font`, `font.getbbox` and `draw.textbbox` become a measurement function parameter.
- The rotated branch of `draw_layer` (main.py:113-128) keeps only the angle draw. The rotated bitmap's bounding box comes from the imaging library.
- Floating point is modelled as exact reals.
- `random.choice` is modelled as one uniform draw scaled to an index. The source uses a rejection-sampled integer draw; what the model keeps is the order in which draws are consumed.
- File paths are reduced to the style names labelling each image. `os.makedirs`, `argparse` and the console messages are left out.
- Labels: `None` and an empty list are both "no labels" and are modelled as the empty sequence.
- Planner.Choose: requires a non-empty word list. The source raises IndexError on an empty one, and every caller passes the fixed 30 characters.
- Planner.PlanLayer: requires a non-zero step. `range` raises ValueError for a zero step, and every layer the programs use has a positive step.
- Luminance.Sample: requires the block's corner to lie within the image. The imaging library rejects an inverted crop box, and the grid walk never asks for one.
