/** The layered fly-in animation of animate_depth_transition.py: the
    `subtle_soft` and then the `graphic_bold` layers are planned like
    `draw_layer` plans them, every glyph flies in from a random point just
    outside the canvas, each finished layer settles onto the canvas, and the
    animation ends by fading into the original image. A frame is described
    by what it shows: the settled layers, the moving glyphs, the blend
    weight and the blur radius; pixels are left to the imaging library. */
module Animation {
  import opened Basics
  import opened Grid
  import opened Luminance
  import opened Mapper
  import opened Planner
  import opened Variations

  // ---------------------------------------------------------------------
  // Targets
  // ---------------------------------------------------------------------

  /** The settings `generate_layer_targets` plans a layer record with: the
      record's own keys, the density scale times the multiplier, a fixed
      jitter of 0.4 and no rotation. */
  function TargetConfig(l: LayerSpec, multiplier: real): LayerConfig {
    LayerConfig(l.fontSize, l.step, l.baseAlpha, l.alphaBoostDark, l.densityScale * multiplier,
                l.color, 0.4, false)
  }

  /** `generate_layer_targets(img_gray, font_path, layer, words, density_multiplier)`:
      the same walk, thinning and draws as `draw_layer`, keeping the glyph
      descriptions instead of drawing them. Every target is well placed at
      its own cell and unrotated. */
  function LayerTargets(img: Gray, l: LayerSpec, words: seq<string>, measure: Measure,
                        multiplier: real, rs: Stream, pos: nat): (p: Planned)
    requires img.Valid() && l.step != 0 && |words| > 0 && ValidDraws(rs)
    ensures forall k :: 0 <= k < |p.placements| ==>
      PlacedByLayer(img, TargetConfig(l, multiplier), words, p.placements[k])
    ensures forall k :: 0 <= k < |p.placements| ==> p.placements[k].angle.None?
  {
    LayerWellPlaced(img, TargetConfig(l, multiplier), words, measure, rs, pos);
    PlanLayer(img, TargetConfig(l, multiplier), words, measure, rs, pos)
  }

  /** With multiplier 1 the targets of a preset-style layer record (no
      jitter or rotation key) are exactly the placements `render_with_layers`
      would draw for it from the same random state. */
  lemma TargetsMirrorDrawnLayer(img: Gray, l: LayerSpec, words: seq<string>, measure: Measure,
                                rs: Stream, pos: nat)
    requires img.Valid() && l.step != 0 && |words| > 0 && ValidDraws(rs)
    requires l.randomJitter.None? && l.allowRotation.None?
    ensures LayerTargets(img, l, words, measure, 1.0, rs, pos)
         == PlanLayer(img, WithDefaults(l), words, measure, rs, pos)
  {
    assert TargetConfig(l, 1.0) == WithDefaults(l);
  }

  // ---------------------------------------------------------------------
  // Off-screen starts
  // ---------------------------------------------------------------------

  /** The side `random_offscreen_start` picks. */
  datatype Side = Left | Right | Top | Bottom

  /** `["left", "right", "top", "bottom"]`, in the order `random.choice` indexes it. */
  function Sides(): seq<Side> {
    [Left, Right, Top, Bottom]
  }

  /** The start point on a given side from the two uniform draws, the x
      coordinate drawn first as the tuple is evaluated left to right. */
  function SidePoint(side: Side, w: nat, h: nat, u1: real, u2: real): Point
    requires 0.0 <= u1 < 1.0 && 0.0 <= u2 < 1.0
  {
    match side
    case Left => Point(BeforeEdge(w, u1), Along(h, u2))
    case Right => Point(PastEdge(w, u1), Along(h, u2))
    case Top => Point(Along(w, u1), BeforeEdge(h, u2))
    case Bottom => Point(Along(w, u1), PastEdge(h, u2))
  }

  /** `-k * random.uniform(0.1, 0.5)`: 10% to 50% of k before the near edge. */
  function BeforeEdge(k: nat, u: real): (x: real)
    requires 0.0 <= u < 1.0
    ensures -0.5 * k as real <= x <= -0.1 * k as real
  {
    ScaledFraction(k as real, u);
    -(k as real) * UniformIn(0.1, 0.5, u)
  }

  /** `k * (1 + random.uniform(0.1, 0.5))`: 10% to 50% of k past the far edge. */
  function PastEdge(k: nat, u: real): (x: real)
    requires 0.0 <= u < 1.0
    ensures 1.1 * k as real <= x <= 1.5 * k as real
  {
    ScaledFraction(k as real, u);
    k as real * (1.0 + UniformIn(0.1, 0.5, u))
  }

  /** `random.uniform(0, k)`: anywhere along the side. */
  function Along(k: nat, u: real): (x: real)
    requires 0.0 <= u < 1.0
    ensures 0.0 <= x <= k as real
  {
    UniformIn(0.0, k as real, u)
  }

  /** `random_offscreen_start(w, h)` reading three draws from `pos`: the side, then x, then y. */
  function OffscreenStart(w: nat, h: nat, rs: Stream, pos: nat): Point
    requires ValidDraws(rs)
  {
    SidePoint(Choose(Sides(), rs(pos)), w, h, rs(pos + 1), rs(pos + 2))
  }

  /** The band beyond each side a start point is drawn from: between 10%
      and 50% of the canvas extent outside that side, and level with the
      canvas along it. */
  ghost predicate InBand(side: Side, p: Point, w: nat, h: nat) {
    var wr, hr := w as real, h as real;
    match side
    case Left => -0.5 * wr <= p.x <= -0.1 * wr && 0.0 <= p.y <= hr
    case Right => 1.1 * wr <= p.x <= 1.5 * wr && 0.0 <= p.y <= hr
    case Top => 0.0 <= p.x <= wr && -0.5 * hr <= p.y <= -0.1 * hr
    case Bottom => 0.0 <= p.x <= wr && 1.1 * hr <= p.y <= 1.5 * hr
  }

  /** Strictly outside the w x h canvas. */
  ghost predicate Offscreen(p: Point, w: nat, h: nat) {
    p.x < 0.0 || w as real < p.x || p.y < 0.0 || h as real < p.y
  }

  /** `k * random.uniform(0.1, 0.5)` lies between 0.1 k and 0.5 k for k >= 0. */
  lemma ScaledFraction(k: real, u: real)
    requires 0.0 <= k && 0.0 <= u < 1.0
    ensures 0.1 * k <= k * UniformIn(0.1, 0.5, u) <= 0.5 * k
  {
    var v := UniformIn(0.1, 0.5, u);
    ScaleMonotone(0.1, v, k);
    ScaleMonotone(v, 0.5, k);
  }

  /** Each side's start lies in that side's band. */
  lemma SidePointInBand(side: Side, w: nat, h: nat, u1: real, u2: real)
    requires 0.0 <= u1 < 1.0 && 0.0 <= u2 < 1.0
    ensures InBand(side, SidePoint(side, w, h, u1, u2), w, h)
  {
  }

  /** On a non-empty canvas a point in a side's band is off the canvas. */
  lemma BandIsOffscreen(side: Side, p: Point, w: nat, h: nat)
    requires 0 < w && 0 < h && InBand(side, p, w, h)
    ensures Offscreen(p, w, h)
  {
  }

  /** Every start point lies in the band of one of the four sides, and so
      off a non-empty canvas. */
  lemma StartOffscreen(w: nat, h: nat, rs: Stream, pos: nat)
    requires ValidDraws(rs)
    ensures exists side :: side in Sides() && InBand(side, OffscreenStart(w, h, rs, pos), w, h)
    ensures 0 < w && 0 < h ==> Offscreen(OffscreenStart(w, h, rs, pos), w, h)
  {
    var side := Choose(Sides(), rs(pos));
    SidePointInBand(side, w, h, rs(pos + 1), rs(pos + 2));
    if 0 < w && 0 < h {
      BandIsOffscreen(side, OffscreenStart(w, h, rs, pos), w, h);
    }
  }

  /** Every side can be picked: the draw i / 4 picks the i-th side. */
  lemma EverySideReachable(i: nat)
    requires i < 4
    ensures Choose(Sides(), i as real / 4.0) == Sides()[i]
  {
    ChoiceCovers(4, i);
  }

  /** A target together with the start point it flies in from. */
  datatype Glyph = Glyph(target: Placement, start: Point)

  /** The loop giving each target its start: target i reads the three
      draws at `pos + 3 * i`. */
  function AssignStarts(ts: seq<Placement>, w: nat, h: nat, rs: Stream, pos: nat): (gs: seq<Glyph>)
    requires ValidDraws(rs)
    ensures |gs| == |ts|
  {
    seq(|ts|, i requires 0 <= i < |ts| => Glyph(ts[i], OffscreenStart(w, h, rs, pos + 3 * i)))
  }

  /** On a non-empty canvas every glyph starts off the canvas. */
  lemma StartsOffscreen(ts: seq<Placement>, w: nat, h: nat, rs: Stream, pos: nat)
    requires ValidDraws(rs) && 0 < w && 0 < h
    ensures forall i :: 0 <= i < |ts| ==> Offscreen(AssignStarts(ts, w, h, rs, pos)[i].start, w, h)
  {
    forall i | 0 <= i < |ts|
      ensures Offscreen(AssignStarts(ts, w, h, rs, pos)[i].start, w, h)
    {
      StartOffscreen(w, h, rs, pos + 3 * i);
    }
  }

  // ---------------------------------------------------------------------
  // Motion
  // ---------------------------------------------------------------------

  /** `t_norm = (f + 1) / frames` (and the fade's `(i + 1) / frames`). */
  function Progress(f: nat, n: nat): real
    requires 0 < n
  {
    (f + 1) as real / n as real
  }

  /** Progress rises strictly from frame to frame, stays in (0, 1], and
      reaches 1 exactly at the last frame. */
  lemma ProgressRises(f: nat, f': nat, n: nat)
    requires f < f' < n
    ensures 0.0 < Progress(f, n) < Progress(f', n) <= 1.0
    ensures Progress(f', n) == 1.0 <==> f' == n - 1
  {
    var a, b, d := (f + 1) as real, (f' + 1) as real, n as real;
    QuotientOrder(0.0, a, d);
    QuotientOrder(a, b, d);
    QuotientOrder(b, d, d);
    assert d / d == 1.0;
  }

  /** Dividing by a positive number keeps the order, strictly for a strict order. */
  lemma QuotientOrder(a: real, b: real, d: real)
    requires 0.0 < d && a <= b
    ensures a / d <= b / d
    ensures a < b ==> a / d < b / d
  {
    var qa, qb := a / d, b / d;
    assert (qb - qa) * d == b - a;
  }

  lemma ProgressLast(n: nat)
    requires 0 < n
    ensures Progress(n - 1, n) == 1.0
  {
  }

  /** `s + (t - s) * p`. */
  function Lerp(s: real, t: real, p: real): real {
    s + (t - s) * p
  }

  /** A flight starts at `s` and ends at `t`. */
  lemma LerpEnds(s: real, t: real)
    ensures Lerp(s, t, 0.0) == s && Lerp(s, t, 1.0) == t
  {
  }

  /** Along the flight the glyph stays between its start and its target,
      and the remaining distance to the target is the share `1 - p` of the
      whole way, so it never grows as `p` grows. */
  lemma LerpApproaches(s: real, t: real, p: real, p': real)
    requires 0.0 <= p <= p' <= 1.0
    ensures MinR(s, t) <= Lerp(s, t, p) <= MaxR(s, t)
    ensures MinR(s, t) <= Lerp(s, t, p') <= MaxR(s, t)
    ensures Abs(t - Lerp(s, t, p)) == (1.0 - p) * Abs(t - s)
    ensures Abs(t - Lerp(s, t, p')) <= Abs(t - Lerp(s, t, p))
  {
    LerpBetween(s, t, p);
    LerpBetween(s, t, p');
    LerpRemaining(s, t, p);
    LerpRemaining(s, t, p');
    ScaleMonotone(1.0 - p', 1.0 - p, Abs(t - s));
  }

  /** For `p` in [0, 1] the interpolated point lies between `s` and `t`. */
  lemma LerpBetween(s: real, t: real, p: real)
    requires 0.0 <= p <= 1.0
    ensures MinR(s, t) <= Lerp(s, t, p) <= MaxR(s, t)
  {
    var d := t - s;
    assert Lerp(s, t, p) == s + p * d;
    if 0.0 <= d {
      ScaleMonotone(0.0, p, d);
      ScaleMonotone(p, 1.0, d);
      assert s <= s + p * d <= t;
    } else {
      ScaleMonotone(0.0, p, -d);
      ScaleMonotone(p, 1.0, -d);
      assert p * d == -(p * -d);
      assert t <= s + p * d <= s;
    }
  }

  lemma LerpRemaining(s: real, t: real, p: real)
    requires p <= 1.0
    ensures Abs(t - Lerp(s, t, p)) == (1.0 - p) * Abs(t - s)
  {
    var q, d := 1.0 - p, t - s;
    assert t - Lerp(s, t, p) == q * d;
    AbsMul(q, d);
  }

  /** Where glyph `g` is at progress `p`. */
  function Position(g: Glyph, p: real): Point {
    Point(Lerp(g.start.x, g.target.center.x, p), Lerp(g.start.y, g.target.center.y, p))
  }

  /** One `draw.text` call: the word, its font size, the integer top-left
      corner, the opacity and the colour. */
  datatype Stamp = Stamp(word: string, fontSize: int, x: int, y: int, alpha: int, color: Rgb)

  /** The stamp of target `t` centred on `c`: corner `(int(cx - tw / 2), int(cy - th / 2))`. */
  function StampAt(t: Placement, c: Point): Stamp {
    Stamp(t.word, t.fontSize, Corner(c.x, t.width), Corner(c.y, t.height), t.alpha, t.color)
  }

  /** The moving glyphs of a flight frame at progress `p`, in target order. */
  function Moving(gs: seq<Glyph>, p: real): (ss: seq<Stamp>)
    ensures |ss| == |gs|
  {
    seq(|gs|, i requires 0 <= i < |gs| => StampAt(gs[i].target, Position(gs[i], p)))
  }

  /** The stamps a layer leaves on the settled canvas: each target at its own centre. */
  function Settle(gs: seq<Glyph>): (ss: seq<Stamp>)
    ensures |ss| == |gs|
  {
    seq(|gs|, i requires 0 <= i < |gs| => StampAt(gs[i].target, gs[i].target.center))
  }

  /** At progress 1 every glyph is drawn exactly where it then settles. */
  lemma Landed(gs: seq<Glyph>)
    ensures Moving(gs, 1.0) == Settle(gs)
  {
    forall i | 0 <= i < |gs|
      ensures Moving(gs, 1.0)[i] == Settle(gs)[i]
    {
      LerpEnds(gs[i].start.x, gs[i].target.center.x);
      LerpEnds(gs[i].start.y, gs[i].target.center.y);
    }
  }

  /** A settled glyph is drawn at the corner that centres it on its target. */
  lemma SettledCentred(gs: seq<Glyph>, i: nat)
    requires i < |gs|
    ensures Abs(Settle(gs)[i].x as real - (gs[i].target.center.x - gs[i].target.width as real / 2.0)) < 1.0
    ensures Abs(Settle(gs)[i].y as real - (gs[i].target.center.y - gs[i].target.height as real / 2.0)) < 1.0
  {
    CornerNearCentred(gs[i].target.center.x, gs[i].target.width);
    CornerNearCentred(gs[i].target.center.y, gs[i].target.height);
  }

  // ---------------------------------------------------------------------
  // Blur
  // ---------------------------------------------------------------------

  /** `blur_radius = 1.2 * (1 - t_norm)`, applied only above 0.1. */
  function FlightBlur(p: real): (b: Option<real>) {
    var r := 1.2 * (1.0 - p);
    if r > 0.1 then Some(r) else None
  }

  /** A flight frame is blurred exactly while less than 11/12 of the way is
      done, and the blur never grows as the glyphs approach. */
  lemma FlightBlurFades(p: real, p': real)
    requires p <= p'
    ensures FlightBlur(p).Some? <==> p < 11.0 / 12.0
    ensures FlightBlur(p).Some? ==> FlightBlur(p).value == 1.2 * (1.0 - p) && 0.1 < FlightBlur(p).value
    ensures FlightBlur(p').Some? ==> FlightBlur(p).Some? && FlightBlur(p').value <= FlightBlur(p).value
  {
  }

  /** `blur_radius = max(0, 1.5 - 1.5 * alpha)`, applied only above 0. */
  function FadeBlur(a: real): (b: Option<real>) {
    var r := MaxR(0.0, 1.5 - 1.5 * a);
    if r > 0.0 then Some(r) else None
  }

  /** A fade frame is blurred exactly while the original is not fully
      blended in, and the blur never grows as the blend proceeds. */
  lemma FadeBlurFades(a: real, a': real)
    requires a <= a'
    ensures FadeBlur(a).Some? <==> a < 1.0
    ensures FadeBlur(a).Some? ==> FadeBlur(a).value == 1.5 * (1.0 - a)
    ensures FadeBlur(a').Some? ==> FadeBlur(a).Some? && FadeBlur(a').value <= FadeBlur(a).value
  {
  }

  // ---------------------------------------------------------------------
  // Frames
  // ---------------------------------------------------------------------

  /** What one GIF frame shows. A flight frame: the settled layers, the
      glyphs of the current layer in flight, and the blur. A fade frame:
      the settled layers blended with the original image by weight `mix`,
      and the blur. */
  datatype Frame =
    | Flight(settled: seq<seq<Stamp>>, moving: seq<Stamp>, blur: Option<real>)
    | Fade(settled: seq<seq<Stamp>>, mix: real, blur: Option<real>)

  /** Flight frame f of n over the settled canvas. */
  function FlightFrame(settled: seq<seq<Stamp>>, gs: seq<Glyph>, f: nat, n: nat): Frame
    requires 0 < n
  {
    Flight(settled, Moving(gs, Progress(f, n)), FlightBlur(Progress(f, n)))
  }

  lemma FlightFrameShows(settled: seq<seq<Stamp>>, gs: seq<Glyph>, f: nat, n: nat)
    requires 0 < n
    ensures FlightFrame(settled, gs, f, n).Flight? && FlightFrame(settled, gs, f, n).settled == settled
  {
  }

  /** `for f in range(frames_per_layer)`: one flight frame each, all over
      the same settled canvas; the last one shows every glyph landed and
      sharp. */
  function FlightFrames(settled: seq<seq<Stamp>>, gs: seq<Glyph>, n: int): (fs: seq<Frame>)
    ensures |fs| == RangeLen(n)
    ensures forall f :: 0 <= f < |fs| ==> fs[f] == FlightFrame(settled, gs, f, n)
    ensures 0 < n ==> fs[n - 1] == Flight(settled, Settle(gs), None)
  {
    if n <= 0 then []
    else
      ProgressLast(n);
      Landed(gs);
      seq(n, f requires 0 <= f < n => FlightFrame(settled, gs, f, n))
  }

  /** Fade frame i of m over the final settled canvas. */
  function FadeFrame(settled: seq<seq<Stamp>>, i: nat, m: nat): Frame
    requires 0 < m
  {
    Fade(settled, Progress(i, m), FadeBlur(Progress(i, m)))
  }

  /** `for i in range(final_original_frames)`: the blend weight rises to 1
      and the last frame is the original image, unblurred. */
  function FadeFrames(settled: seq<seq<Stamp>>, m: int): (fs: seq<Frame>)
    ensures |fs| == RangeLen(m)
    ensures forall i :: 0 <= i < |fs| ==> fs[i] == FadeFrame(settled, i, m)
    ensures 0 < m ==> fs[m - 1] == Fade(settled, 1.0, None)
  {
    if m <= 0 then []
    else
      ProgressLast(m);
      seq(m, i requires 0 <= i < m => FadeFrame(settled, i, m))
  }

  // ---------------------------------------------------------------------
  // The layered run
  // ---------------------------------------------------------------------

  /** The frames so far, the glyphs of each layer flown in, the settled
      layers, and the next cursor. */
  datatype Run = Run(frames: seq<Frame>, glyphs: seq<seq<Glyph>>, settled: seq<seq<Stamp>>, next: nat)

  /** The number of flight frames of `layers` layers of `perLayer` frames
      each, counted layer by layer. */
  function FlightCount(layers: nat, perLayer: nat): nat {
    if layers == 0 then 0 else perLayer + FlightCount(layers - 1, perLayer)
  }

  /** Counted layer by layer, the flight frames are `layers * perLayer`. */
  lemma {:induction false} FlightCountIsProduct(layers: nat, perLayer: nat)
    ensures FlightCount(layers, perLayer) == layers * perLayer
  {
    if layers > 0 {
      FlightCountIsProduct(layers - 1, perLayer);
      assert layers * perLayer == perLayer + (layers - 1) * perLayer;
    }
  }

  /** Frame f of layer k comes before the end of layer k, and layer k ends
      no later than the end of any later layer. */
  lemma {:induction false} FlightCountGrows(k: nat, f: nat, count: nat, perLayer: nat)
    requires k < count && f < perLayer
    ensures FlightCount(k, perLayer) + f < FlightCount(k + 1, perLayer) <= FlightCount(count, perLayer)
    decreases count
  {
    if k + 1 < count {
      FlightCountGrows(k, f, count - 1, perLayer);
    }
  }

  /** Every flight frame index falls in exactly one layer: at frame f of layer k. */
  lemma {:induction false} LayerOf(i: nat, count: nat, perLayer: nat) returns (k: nat, f: nat)
    requires i < FlightCount(count, perLayer)
    ensures k < count && f < perLayer && i == FlightCount(k, perLayer) + f
    decreases count
  {
    if i < FlightCount(count - 1, perLayer) {
      k, f := LayerOf(i, count - 1, perLayer);
    } else {
      k, f := count - 1, i - FlightCount(count - 1, perLayer);
    }
  }

  /** A later frame never lies in an earlier layer. */
  lemma LayerOrder(k: nat, f: nat, k': nat, f': nat, perLayer: nat)
    requires f < perLayer && f' < perLayer
    requires FlightCount(k, perLayer) + f <= FlightCount(k', perLayer) + f'
    ensures k <= k'
  {
    if k' < k {
      FlightCountGrows(k', f', k, perLayer);
    }
  }

  /** One layer's glyphs, ready to fly, and the cursor after their draws. */
  datatype Flown = Flown(glyphs: seq<Glyph>, next: nat)

  /** The first half of one iteration of the layer loop: plan the layer's
      targets, then give each its off-screen start. */
  function FlyIn(img: Gray, l: LayerSpec, words: seq<string>, measure: Measure, rs: Stream, pos: nat): (f: Flown)
    requires img.Valid() && l.step != 0 && |words| > 0 && ValidDraws(rs)
    ensures pos <= f.next
  {
    var targets := LayerTargets(img, l, words, measure, 1.0, rs, pos);
    Flown(AssignStarts(targets.placements, img.width, img.height, rs, targets.next),
          targets.next + 3 * |targets.placements|)
  }

  /** One layer's glyph preparation as a function of the layer record and
      the cursor. The layer loop is stated over any such function, so that
      reasoning about the loop never unfolds the planning of a layer. */
  type Preparer = (LayerSpec, nat) --> Flown

  /** `prepare` is defined for every layer of `specs` at every cursor and never moves the cursor back. */
  ghost predicate Prepares(prepare: Preparer, specs: seq<LayerSpec>) {
    forall i, p: nat :: 0 <= i < |specs| ==> prepare.requires(specs[i], p) && p <= prepare(specs[i], p).next
  }

  /** `FlyIn` over a fixed image, vocabulary, measure and stream. */
  function LayerPreparer(img: Gray, words: seq<string>, measure: Measure, rs: Stream): (prepare: Preparer)
    requires img.Valid() && |words| > 0 && ValidDraws(rs)
  {
    (l: LayerSpec, p: nat) requires l.step != 0 => FlyIn(img, l, words, measure, rs, p)
  }

  lemma LayerPreparerPrepares(img: Gray, words: seq<string>, measure: Measure, rs: Stream, specs: seq<LayerSpec>)
    requires img.Valid() && |words| > 0 && ValidDraws(rs)
    requires forall i :: 0 <= i < |specs| ==> specs[i].step != 0
    ensures Prepares(LayerPreparer(img, words, measure, rs), specs)
  {
    var prepare := LayerPreparer(img, words, measure, rs);
    forall i, p: nat | 0 <= i < |specs|
      ensures prepare.requires(specs[i], p) && p <= prepare(specs[i], p).next
    {
      assert prepare(specs[i], p) == FlyIn(img, specs[i], words, measure, rs, p);
    }
  }

  lemma PreparesTail(prepare: Preparer, specs: seq<LayerSpec>)
    requires Prepares(prepare, specs) && 0 < |specs|
    ensures Prepares(prepare, specs[1..])
  {
    forall i, p: nat | 0 <= i < |specs[1..]|
      ensures prepare.requires(specs[1..][i], p) && p <= prepare(specs[1..][i], p).next
    {
      assert specs[1..][i] == specs[i + 1];
    }
  }

  lemma IndexInHead<T>(head: seq<T>, tail: seq<T>, i: nat)
    requires i < |head|
    ensures (head + tail)[i] == head[i]
  {
  }

  lemma IndexPastHead<T>(head: seq<T>, tail: seq<T>, i: nat)
    requires i < |tail|
    ensures (head + tail)[|head| + i] == tail[i]
  {
  }

  /** Every layer's glyphs, and the cursor after the last layer's draws. */
  datatype Prepared = Prepared(glyphs: seq<seq<Glyph>>, next: nat)

  /** The draws of the layer loop: each layer's glyphs are prepared at the
      cursor the previous layer left. Drawing frames takes no randomness, so
      preparing every layer first and drawing the frames afterwards consumes
      the stream exactly as the interleaved loop does. */
  function PrepareAll(prepare: Preparer, specs: seq<LayerSpec>, pos: nat): (r: Prepared)
    requires Prepares(prepare, specs)
    ensures |r.glyphs| == |specs| && pos <= r.next
    decreases |specs|
  {
    if |specs| == 0 then Prepared([], pos)
    else
      assert prepare.requires(specs[0], pos);
      var layer := prepare(specs[0], pos);
      PreparesTail(prepare, specs);
      var rest := PrepareAll(prepare, specs[1..], layer.next);
      Prepared([layer.glyphs] + rest.glyphs, rest.next)
  }

  /** Layer k's glyphs are what `prepare` makes of layer k at a cursor no
      earlier than the start; the first layer's at the start itself. */
  lemma {:induction false} PreparedByLayer(prepare: Preparer, specs: seq<LayerSpec>, pos: nat, k: nat)
    requires Prepares(prepare, specs) && k < |specs|
    ensures exists p: nat :: pos <= p && prepare.requires(specs[k], p)
                          && PrepareAll(prepare, specs, pos).glyphs[k] == prepare(specs[k], p).glyphs
    ensures k == 0 ==> PrepareAll(prepare, specs, pos).glyphs[0] == prepare(specs[0], pos).glyphs
    decreases k
  {
    assert prepare.requires(specs[0], pos);
    var layer := prepare(specs[0], pos);
    PreparesTail(prepare, specs);
    var rest := PrepareAll(prepare, specs[1..], layer.next);
    assert PrepareAll(prepare, specs, pos).glyphs == [layer.glyphs] + rest.glyphs;
    if k == 0 {
      assert PrepareAll(prepare, specs, pos).glyphs[0] == layer.glyphs;
    } else {
      PreparedByLayer(prepare, specs[1..], layer.next, k - 1);
      var p: nat :| layer.next <= p && prepare.requires(specs[1..][k - 1], p)
                  && rest.glyphs[k - 1] == prepare(specs[1..][k - 1], p).glyphs;
      assert specs[1..][k - 1] == specs[k];
      assert PrepareAll(prepare, specs, pos).glyphs[k] == rest.glyphs[k - 1];
    }
  }

  /** The settled picture of each layer, in order. */
  function SettleAll(layers: seq<seq<Glyph>>): (s: seq<seq<Stamp>>)
    ensures |s| == |layers|
    ensures forall k :: 0 <= k < |layers| ==> s[k] == Settle(layers[k])
  {
    seq(|layers|, k requires 0 <= k < |layers| => Settle(layers[k]))
  }

  /** Settling the first k layers gives the first k settled layers. */
  lemma SettleAllPrefix(layers: seq<seq<Glyph>>, k: nat)
    requires k <= |layers|
    ensures SettleAll(layers[..k]) == SettleAll(layers)[..k]
  {
  }

  /** The blocks one after another. */
  function Concat<T>(bs: seq<seq<T>>): seq<T>
    decreases |bs|
  {
    if |bs| == 0 then [] else bs[0] + Concat(bs[1..])
  }

  /** Blocks of `width` items each: item f of block k sits at
      `FlightCount(k, width) + f` of their concatenation. */
  lemma {:induction false} ConcatIndex<T>(bs: seq<seq<T>>, width: nat, k: nat, f: nat)
    requires forall i :: 0 <= i < |bs| ==> |bs[i]| == width
    requires k < |bs| && f < width
    ensures |Concat(bs)| == FlightCount(|bs|, width)
    ensures FlightCount(k, width) + f < |Concat(bs)|
    ensures Concat(bs)[FlightCount(k, width) + f] == bs[k][f]
    decreases k
  {
    var rest := Concat(bs[1..]);
    assert Concat(bs) == bs[0] + rest;
    ConcatLength(bs[1..], width);
    if k == 0 {
      IndexInHead(bs[0], rest, f);
    } else {
      ConcatIndex(bs[1..], width, k - 1, f);
      IndexPastHead(bs[0], rest, FlightCount(k - 1, width) + f);
      assert bs[1..][k - 1] == bs[k];
    }
  }

  lemma {:induction false} ConcatLength<T>(bs: seq<seq<T>>, width: nat)
    requires forall i :: 0 <= i < |bs| ==> |bs[i]| == width
    ensures |Concat(bs)| == FlightCount(|bs|, width)
    decreases |bs|
  {
    if 0 < |bs| {
      ConcatLength(bs[1..], width);
    }
  }

  /** The flight frames of the layer loop: each layer's glyphs fly in over
      the layers settled before it, one layer after another. */
  function Flights(layers: seq<seq<Glyph>>, n: int): (fs: seq<Frame>)
    ensures |fs| == FlightCount(|layers|, RangeLen(n))
  {
    var blocks := seq(|layers|, k requires 0 <= k < |layers| => FlightFrames(SettleAll(layers[..k]), layers[k], n));
    ConcatLength(blocks, RangeLen(n));
    Concat(blocks)
  }

  /** Flight frame f of layer k shows the layers settled before it (and no
      other) beneath layer k's glyphs in flight. */
  lemma FlightsFrame(layers: seq<seq<Glyph>>, n: int, k: nat, f: nat)
    requires k < |layers| && f < RangeLen(n)
    ensures FlightCount(k, RangeLen(n)) + f < |Flights(layers, n)|
    ensures Flights(layers, n)[FlightCount(k, RangeLen(n)) + f]
         == FlightFrame(SettleAll(layers)[..k], layers[k], f, n)
  {
    var blocks := seq(|layers|, k requires 0 <= k < |layers| => FlightFrames(SettleAll(layers[..k]), layers[k], n));
    assert Flights(layers, n) == Concat(blocks);
    ConcatIndex(blocks, RangeLen(n), k, f);
    SettleAllPrefix(layers, k);
  }

  /** The targets of a list of glyphs, in order. */
  function Targets(gs: seq<Glyph>): (ts: seq<Placement>)
    ensures |ts| == |gs|
  {
    seq(|gs|, i requires 0 <= i < |gs| => gs[i].target)
  }

  /** A layer's glyphs fly to targets that are well placed by the layer's
      target settings, unrotated, in row-major order of their cells, and on
      a non-empty canvas every one of them starts off the canvas. */
  lemma FlyInGlyphs(img: Gray, l: LayerSpec, words: seq<string>, measure: Measure, rs: Stream, pos: nat)
    requires img.Valid() && l.step != 0 && |words| > 0 && ValidDraws(rs)
    ensures forall i :: 0 <= i < |FlyIn(img, l, words, measure, rs, pos).glyphs| ==>
      PlacedByLayer(img, TargetConfig(l, 1.0), words, FlyIn(img, l, words, measure, rs, pos).glyphs[i].target)
      && FlyIn(img, l, words, measure, rs, pos).glyphs[i].target.angle.None?
    ensures RowMajor(CellsOf(Targets(FlyIn(img, l, words, measure, rs, pos).glyphs)))
    ensures 0 < img.width && 0 < img.height ==>
      forall i :: 0 <= i < |FlyIn(img, l, words, measure, rs, pos).glyphs| ==>
        Offscreen(FlyIn(img, l, words, measure, rs, pos).glyphs[i].start, img.width, img.height)
  {
    var targets := LayerTargets(img, l, words, measure, 1.0, rs, pos);
    var gs := FlyIn(img, l, words, measure, rs, pos).glyphs;
    assert gs == AssignStarts(targets.placements, img.width, img.height, rs, targets.next);
    assert Targets(gs) == targets.placements;
    LayerRowMajor(img, TargetConfig(l, 1.0), words, measure, rs, pos);
    if 0 < img.width && 0 < img.height {
      StartsOffscreen(targets.placements, img.width, img.height, rs, targets.next);
    }
  }

  // ---------------------------------------------------------------------
  // The whole animation
  // ---------------------------------------------------------------------

  /** `list(subtle_layers) + list(bold_layers)`: the three `subtle_soft`
      layers, then the three `graphic_bold` ones. */
  function CombinedLayers(): (ls: seq<LayerSpec>)
    ensures |ls| == 6
    ensures forall i :: 0 <= i < |ls| ==> 1 <= ls[i].step
  {
    PresetsWellFormed();
    Presets()[0].layers + Presets()[1].layers
  }

  /** The combined layers are the layers stored under the two preset names. */
  lemma CombinedLayersNamed()
    ensures Lookup(Presets(), "subtle_soft") == Some(CombinedLayers()[..3])
    ensures Lookup(Presets(), "graphic_bold") == Some(CombinedLayers()[3..])
  {
    assert Presets()[0].name == "subtle_soft";
    assert Presets()[1].name == "graphic_bold";
    assert CombinedLayers()[..3] == Presets()[0].layers;
    assert CombinedLayers()[3..] == Presets()[1].layers;
    assert Presets()[1..][0] == Presets()[1];
  }

  /** The layer loop over `specs` from the empty canvas, followed by the
      fade into the original over every settled layer. */
  function Accumulate(prepare: Preparer, specs: seq<LayerSpec>, n: int, m: int, pos: nat): (a: Run)
    requires Prepares(prepare, specs)
    ensures |a.frames| == FlightCount(|specs|, RangeLen(n)) + RangeLen(m)
    ensures |a.glyphs| == |specs| && |a.settled| == |specs|
    ensures forall k :: 0 <= k < |specs| ==> a.settled[k] == Settle(a.glyphs[k])
    ensures pos <= a.next
  {
    var prepared := PrepareAll(prepare, specs, pos);
    var settled := SettleAll(prepared.glyphs);
    Run(Flights(prepared.glyphs, n) + FadeFrames(settled, m), prepared.glyphs, settled, prepared.next)
  }

  /** Flight frame f of layer k, at its place in the whole frame list. */
  lemma AccumulateFlightFrame(prepare: Preparer, specs: seq<LayerSpec>, n: int, m: int, pos: nat, k: nat, f: nat)
    requires Prepares(prepare, specs) && k < |specs| && f < RangeLen(n)
    ensures FlightCount(k, RangeLen(n)) + f < |Accumulate(prepare, specs, n, m, pos).frames|
    ensures Accumulate(prepare, specs, n, m, pos).frames[FlightCount(k, RangeLen(n)) + f]
         == FlightFrame(Accumulate(prepare, specs, n, m, pos).settled[..k],
                        Accumulate(prepare, specs, n, m, pos).glyphs[k], f, n)
  {
    var a := Accumulate(prepare, specs, n, m, pos);
    var glyphs := PrepareAll(prepare, specs, pos).glyphs;
    var flights := Flights(glyphs, n);
    assert a.frames == flights + FadeFrames(a.settled, m);
    FlightsFrame(glyphs, n, k, f);
    IndexInHead(flights, FadeFrames(a.settled, m), FlightCount(k, RangeLen(n)) + f);
  }

  /** After the flights come the fade frames, all over every settled
      layer; the last frame (when there is one) is the original image, unblurred. */
  lemma AccumulateFadeFrame(prepare: Preparer, specs: seq<LayerSpec>, n: int, m: int, pos: nat, i: nat)
    requires Prepares(prepare, specs) && i < RangeLen(m)
    ensures FlightCount(|specs|, RangeLen(n)) + i < |Accumulate(prepare, specs, n, m, pos).frames|
    ensures Accumulate(prepare, specs, n, m, pos).frames[FlightCount(|specs|, RangeLen(n)) + i]
         == FadeFrame(Accumulate(prepare, specs, n, m, pos).settled, i, m)
    ensures i == m - 1 ==>
      Accumulate(prepare, specs, n, m, pos).frames[FlightCount(|specs|, RangeLen(n)) + i]
        == Fade(Accumulate(prepare, specs, n, m, pos).settled, 1.0, None)
  {
    var a := Accumulate(prepare, specs, n, m, pos);
    var flights := Flights(PrepareAll(prepare, specs, pos).glyphs, n);
    assert a.frames == flights + FadeFrames(a.settled, m);
    IndexPastHead(flights, FadeFrames(a.settled, m), i);
  }

  lemma PrefixesNest<T>(s: seq<T>, a: nat, b: nat)
    requires a <= b <= |s|
    ensures s[..a] <= s[..b]
  {
    assert s[..a] == s[..b][..a];
  }

  /** Layers only ever settle: over the flight frames, the settled layers of
      an earlier frame are a prefix of those of any later frame, so the
      number of settled words never drops. */
  lemma SettledGrows(layers: seq<seq<Glyph>>, n: int, i: nat, j: nat)
    requires i <= j < |Flights(layers, n)|
    ensures Flights(layers, n)[i].Flight? && Flights(layers, n)[j].Flight?
    ensures Flights(layers, n)[i].settled <= Flights(layers, n)[j].settled
  {
    var fs := Flights(layers, n);
    var ki, fi := LayerOf(i, |layers|, RangeLen(n));
    var kj, fj := LayerOf(j, |layers|, RangeLen(n));
    LayerOrder(ki, fi, kj, fj, RangeLen(n));
    FlightsFrame(layers, n, ki, fi);
    FlightsFrame(layers, n, kj, fj);
    var all := SettleAll(layers);
    FlightFrameShows(all[..ki], layers[ki], fi, n);
    FlightFrameShows(all[..kj], layers[kj], fj, n);
    PrefixesNest(all, ki, kj);
  }

  /** Over the flight frames of the whole animation, a later frame shows every
      layer an earlier one shows as settled, in the same order. */
  lemma AccumulateSettledGrows(prepare: Preparer, specs: seq<LayerSpec>, n: int, m: int, pos: nat, i: nat, j: nat)
    requires Prepares(prepare, specs) && i <= j < FlightCount(|specs|, RangeLen(n))
    ensures var a := Accumulate(prepare, specs, n, m, pos);
      && a.frames[i].Flight? && a.frames[j].Flight?
      && a.frames[i].settled <= a.frames[j].settled
  {
    var a := Accumulate(prepare, specs, n, m, pos);
    var flights := Flights(a.glyphs, n);
    var fade := FadeFrames(a.settled, m);
    assert a.frames == flights + fade;
    SettledGrows(a.glyphs, n, i, j);
    IndexInHead(flights, fade, i);
    IndexInHead(flights, fade, j);
  }

  /** `accumulate_layers_animation` after loading and scaling: the six
      combined layers flown in one after another over the empty canvas with
      the 30-character vocabulary, then the fade into the original. */
  function Animate(img: Gray, measure: Measure, n: int, m: int, rs: Stream, pos: nat): (a: Run)
    requires img.Valid() && ValidDraws(rs)
    ensures |a.frames| == RangeLen(n) * 6 + RangeLen(m)
    ensures |a.glyphs| == 6 && |a.settled| == 6
  {
    LayerPreparerPrepares(img, Vocabulary(), measure, rs, CombinedLayers());
    FlightCountIsProduct(6, RangeLen(n));
    Accumulate(LayerPreparer(img, Vocabulary(), measure, rs), CombinedLayers(), n, m, pos)
  }

  /** Every glyph of layer k flies to a target well placed by that layer's
      target settings over the 30-character vocabulary, unrotated, in
      row-major order, and on a non-empty canvas starts off the canvas. */
  lemma AnimationGlyphs(img: Gray, measure: Measure, n: int, m: int, rs: Stream, pos: nat, k: nat)
    requires img.Valid() && ValidDraws(rs) && k < 6
    ensures var gs := Animate(img, measure, n, m, rs, pos).glyphs[k];
      && (forall i :: 0 <= i < |gs| ==>
            PlacedByLayer(img, TargetConfig(CombinedLayers()[k], 1.0), Vocabulary(), gs[i].target)
            && gs[i].target.angle.None?)
      && RowMajor(CellsOf(Targets(gs)))
      && (0 < img.width && 0 < img.height ==>
            forall i :: 0 <= i < |gs| ==> Offscreen(gs[i].start, img.width, img.height))
  {
    var prepare := LayerPreparer(img, Vocabulary(), measure, rs);
    LayerPreparerPrepares(img, Vocabulary(), measure, rs, CombinedLayers());
    var l := CombinedLayers()[k];
    PreparedByLayer(prepare, CombinedLayers(), pos, k);
    var p: nat :| pos <= p && prepare.requires(l, p)
               && PrepareAll(prepare, CombinedLayers(), pos).glyphs[k] == prepare(l, p).glyphs;
    assert Animate(img, measure, n, m, rs, pos).glyphs == PrepareAll(prepare, CombinedLayers(), pos).glyphs;
    assert prepare(l, p) == FlyIn(img, l, Vocabulary(), measure, rs, p);
    FlyInGlyphs(img, l, Vocabulary(), measure, rs, p);
  }

  /** The GIF handed to the encoder: the frames, 120 ms each, looping forever. */
  datatype Gif = Gif(frames: seq<Frame>, durationMs: nat, loop: nat)

  /** The final save: nothing is written when there are no frames;
      otherwise every frame, in order, at 120 ms per frame and loop 0. */
  function SaveGif(frames: seq<Frame>): (g: Option<Gif>)
    ensures g.None? <==> |frames| == 0
    ensures g.Some? ==> g.value.frames == frames
    ensures g.Some? ==> g.value.durationMs == 120 && g.value.loop == 0
  {
    if |frames| == 0 then None else Some(Gif(frames, 120, 0))
  }

  /** An animation is saved exactly when it has a flight frame or a fade frame. */
  lemma AnimationSaved(img: Gray, measure: Measure, n: int, m: int, rs: Stream, pos: nat)
    requires img.Valid() && ValidDraws(rs)
    ensures SaveGif(Animate(img, measure, n, m, rs, pos).frames).None? <==> n <= 0 && m <= 0
  {
  }
}
