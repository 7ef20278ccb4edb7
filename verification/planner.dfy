/** The placement planner of `draw_layer` (main.py): the grid walk, the
    luminance-driven thinning, and for each kept cell the word, the jittered
    centre, the font size, the top-left corner and the optional rotation
    angle. Drawing itself is outside the model: a layer is the ordered list
    of the placements it would draw. */
module Planner {
  import opened Basics
  import opened Grid
  import opened Luminance
  import opened Mapper

  /** `font.getbbox(word)` reduced to the glyph's (width, height) at a font size. */
  type Measure = (string, int) -> (nat, nat)

  /** The arguments `draw_layer` receives for one layer. */
  datatype LayerConfig = LayerConfig(
    fontSize: int,
    step: int,
    baseAlpha: int,
    alphaBoostDark: int,
    densityScale: real,
    color: Rgb,
    randomJitter: real,
    allowRotation: bool)

  /** One glyph a layer draws: its grid cell, the word, the jittered centre,
      the resolved font size, the measured extent, the top-left corner used
      by the unrotated branch, the opacity, the colour and, when rotation is
      on, the angle the glyph is rotated by about its centre. */
  datatype Placement = Placement(
    cell: Cell,
    word: string,
    center: Point,
    fontSize: int,
    width: nat,
    height: nat,
    left: int,
    top: int,
    alpha: int,
    color: Rgb,
    angle: Option<real>)

  /** The outcome of one cell and the cursor after the draws it consumed. */
  datatype Decision = Decision(placement: Option<Placement>, next: nat)

  /** The placements of one walk, in the order drawn, and the next cursor. */
  datatype Planned = Planned(placements: seq<Placement>, next: nat)

  /** The layers drawn onto one canvas, each an ordered list of placements. */
  datatype Canvas = Canvas(layers: seq<seq<Placement>>, next: nat)

  /** Index of `random.choice` over n elements from one draw: floor(u * n). */
  function ChoiceIndex(n: nat, u: real): (i: nat)
    requires 0 < n && 0.0 <= u < 1.0
    ensures i < n
  {
    var x := Scale(n as real, u);
    assert x.Floor as real <= x < n as real;
    x.Floor
  }

  /** `random.choice(xs)` (`choose_word` when `xs` is the vocabulary). */
  function Choose<T>(xs: seq<T>, u: real): (x: T)
    requires |xs| > 0 && 0.0 <= u < 1.0
    ensures x in xs
  {
    xs[ChoiceIndex(|xs|, u)]
  }

  /** Every element can be chosen: the draw i / n picks index i. */
  lemma ChoiceCovers(n: nat, i: nat)
    requires i < n
    ensures ChoiceIndex(n, i as real / n as real) == i
  {
    var u := i as real / n as real;
    assert n as real * u == i as real;
  }

  /** `(random.random() - 0.5) * 2 * step * random_jitter`. */
  function Jitter(u: real, step: int, jitter: real): real {
    (u - 0.5) * 2.0 * step as real * jitter
  }

  /** A jitter never moves a glyph more than step * |random_jitter| off the
      cell centre, and a zero jitter does not move it at all. */
  lemma JitterWithin(u: real, step: nat, jitter: real)
    requires 0.0 <= u < 1.0
    ensures Abs(Jitter(u, step, jitter)) <= step as real * Abs(jitter)
    ensures jitter == 0.0 ==> Jitter(u, step, jitter) == 0.0
  {
    var a, s := (u - 0.5) * 2.0, step as real;
    assert Jitter(u, step, jitter) == (a * s) * jitter;
    assert Abs(a) <= 1.0;
    AbsMul(a * s, jitter);
    AbsMul(a, s);
    ScaleMonotone(Abs(a), 1.0, s);
    ScaleMonotone(Abs(a) * s, s, Abs(jitter));
  }

  lemma AbsMul(a: real, b: real)
    ensures Abs(a * b) == Abs(a) * Abs(b)
  {
    if a < 0.0 && b < 0.0 {
      assert a * b == (-a) * (-b);
    } else if a < 0.0 {
      assert -(a * b) == (-a) * b;
    } else if b < 0.0 {
      assert -(a * b) == a * (-b);
    }
  }

  /** `max(6, int(font_size * random.uniform(0.9, 1.2)))`. */
  function ResolvedSize(fontSize: int, u: real): (s: int)
    requires 0.0 <= u < 1.0
    ensures 6 <= s
  {
    SizeFor(fontSize, UniformIn(0.9, 1.2, u))
  }

  /** `max(6, int(font_size * v))`. Below 6 the clamp hides the difference
      between truncation and the floor (see `SizeForTruncates`), so the
      floor is used here. */
  function SizeFor(fontSize: int, v: real): int {
    Max(6, (fontSize as real * v).Floor)
  }

  /** The clamped floor is exactly the clamped `int()` of the source. */
  lemma SizeForTruncates(fontSize: int, v: real)
    ensures SizeFor(fontSize, v) == Max(6, Trunc(fontSize as real * v))
  {
    var x := fontSize as real * v;
    if x < 0.0 {
      TruncBounds(x);
    }
  }

  lemma SizeForMonotone(fontSize: int, v: real, v': real)
    requires 0 <= fontSize && v <= v'
    ensures SizeFor(fontSize, v) <= SizeFor(fontSize, v')
  {
    var f := fontSize as real;
    ScaleMonotone(v, v', f);
    assert f * v <= f * v';
  }

  /** For a non-negative base size the resolved size lies between the sizes
      at the two ends of the variation range, 0.9 and 1.2 times the base. */
  lemma ResolvedSizeRange(fontSize: int, u: real)
    requires 0.0 <= u < 1.0 && 0 <= fontSize
    ensures SizeFor(fontSize, 0.9) <= ResolvedSize(fontSize, u) <= SizeFor(fontSize, 1.2)
  {
    var v := UniformIn(0.9, 1.2, u);
    SizeForMonotone(fontSize, 0.9, v);
    SizeForMonotone(fontSize, v, 1.2);
  }

  /** `int(p - extent / 2)`: the corner that centres a glyph of the given extent on `p`. */
  function Corner(p: real, extent: nat): int {
    Trunc(p - extent as real / 2.0)
  }

  /** The corner is the centred position, truncated: less than one unit away. */
  lemma CornerNearCentred(p: real, extent: nat)
    ensures Abs(Corner(p, extent) as real - (p - extent as real / 2.0)) < 1.0
  {
    TruncBounds(p - extent as real / 2.0);
  }

  /** The centre of the cell whose top-left corner is `c`: `c + step / 2`. */
  function CellCentre(c: nat, step: int): real {
    c as real + step as real / 2.0
  }

  /** `(x + step / 2 + jitter_x, y + step / 2 + jitter_y)` from the two jitter draws. */
  function JitteredCentre(cfg: LayerConfig, cell: Cell, ux: real, uy: real): Point {
    Point(CellCentre(cell.x, cfg.step) + Jitter(ux, cfg.step, cfg.randomJitter),
          CellCentre(cell.y, cfg.step) + Jitter(uy, cfg.step, cfg.randomJitter))
  }

  /** The jittered centre stays within step * |random_jitter| of the cell
      centre on each axis and is the cell centre when the jitter is zero. */
  lemma CentreWithin(cfg: LayerConfig, cell: Cell, ux: real, uy: real)
    requires 1 <= cfg.step && 0.0 <= ux < 1.0 && 0.0 <= uy < 1.0
    ensures Abs(JitteredCentre(cfg, cell, ux, uy).x - CellCentre(cell.x, cfg.step)) <= Reach(cfg)
    ensures Abs(JitteredCentre(cfg, cell, ux, uy).y - CellCentre(cell.y, cfg.step)) <= Reach(cfg)
    ensures cfg.randomJitter == 0.0 ==>
      JitteredCentre(cfg, cell, ux, uy) == Point(CellCentre(cell.x, cfg.step), CellCentre(cell.y, cfg.step))
  {
    JitterWithin(ux, cfg.step, cfg.randomJitter);
    JitterWithin(uy, cfg.step, cfg.randomJitter);
  }

  /** The luminance and mapping a cell is judged by: the mean grey value of
      the clipped cell, mapped to (alpha, density). */
  function CellMapping(img: Gray, cfg: LayerConfig, cell: Cell): (m: Mapped)
    requires img.Valid() && 1 <= cfg.step && cell.x <= img.width && cell.y <= img.height
    ensures 0 <= m.alpha <= 255
  {
    AlphaDensity(Sample(img, cell.x, cell.y, cfg.step), cfg.baseAlpha, cfg.alphaBoostDark, cfg.densityScale)
  }

  /** The placement of a kept cell with opacity `alpha`, reading the draws
      from `pos` on: choice, jitter x, jitter y, size and, when rotation is
      on, the angle. */
  function Keep(cfg: LayerConfig, words: seq<string>, measure: Measure, alpha: int,
                rs: Stream, pos: nat, cell: Cell): (p: Placement)
    requires 1 <= cfg.step && |words| > 0 && ValidDraws(rs)
  {
    var word := Choose(words, rs(pos));
    var center := JitteredCentre(cfg, cell, rs(pos + 1), rs(pos + 2));
    var size := ResolvedSize(cfg.fontSize, rs(pos + 3));
    var extent := measure(word, size);
    var angle := if cfg.allowRotation then Some(UniformIn(-25.0, 25.0, rs(pos + 4))) else None;
    Placement(cell, word, center, size, extent.0, extent.1,
              Corner(center.x, extent.0), Corner(center.y, extent.1),
              alpha, cfg.color, angle)
  }

  /** One iteration of the inner loop of `draw_layer` at `cell`: the
      thinning draw at `pos`, then `Keep` from `pos + 1` if the cell stays. */
  function Decide(img: Gray, cfg: LayerConfig, words: seq<string>, measure: Measure,
                  rs: Stream, pos: nat, cell: Cell): (d: Decision)
    requires img.Valid() && 1 <= cfg.step && cell.x <= img.width && cell.y <= img.height
    requires |words| > 0 && ValidDraws(rs)
    ensures pos < d.next <= pos + 6
    ensures d.placement.Some? ==> d.placement.value.cell == cell
  {
    var m := CellMapping(img, cfg, cell);
    if rs(pos) > m.density then Decision(None, pos + 1)
    else Decision(Some(Keep(cfg, words, measure, m.alpha, rs, pos + 1, cell)),
                  if cfg.allowRotation then pos + 6 else pos + 5)
  }

  /** A cell is kept exactly when the thinning draw does not exceed its
      density; a thinned cell consumes one draw, a kept one five, or six
      with rotation. */
  lemma DecideKeeps(img: Gray, cfg: LayerConfig, words: seq<string>, measure: Measure,
                    rs: Stream, pos: nat, cell: Cell)
    requires img.Valid() && 1 <= cfg.step && cell.x <= img.width && cell.y <= img.height
    requires |words| > 0 && ValidDraws(rs)
    ensures Decide(img, cfg, words, measure, rs, pos, cell).placement.Some?
        <==> rs(pos) <= CellMapping(img, cfg, cell).density
    ensures Decide(img, cfg, words, measure, rs, pos, cell).placement.None?
        ==> Decide(img, cfg, words, measure, rs, pos, cell).next == pos + 1
    ensures Decide(img, cfg, words, measure, rs, pos, cell).placement.Some?
        ==> Decide(img, cfg, words, measure, rs, pos, cell).next == pos + (if cfg.allowRotation then 6 else 5)
  {
  }

  /** A draw lies in [0, 1), so a density of at least 1 always keeps the cell. */
  lemma DenseCellKept(img: Gray, cfg: LayerConfig, words: seq<string>, measure: Measure,
                      rs: Stream, pos: nat, cell: Cell)
    requires img.Valid() && 1 <= cfg.step && cell.x <= img.width && cell.y <= img.height
    requires |words| > 0 && ValidDraws(rs)
    requires 1.0 <= CellMapping(img, cfg, cell).density
    ensures Decide(img, cfg, words, measure, rs, pos, cell).placement.Some?
  {
    DecideKeeps(img, cfg, words, measure, rs, pos, cell);
    assert rs(pos) < 1.0;
  }

  /** The attributes of the placement of a kept cell with opacity `alpha`:
      a vocabulary word, that alpha, the layer colour, a size of at least 6,
      and an angle in [-25, 25] exactly when rotation is on. */
  ghost predicate Styled(p: Placement, cfg: LayerConfig, words: seq<string>, cell: Cell, alpha: int) {
    && p.cell == cell
    && p.word in words
    && p.alpha == alpha
    && p.color == cfg.color
    && 6 <= p.fontSize
    && (p.angle.Some? <==> cfg.allowRotation)
    && (p.angle.Some? ==> -25.0 <= p.angle.value <= 25.0)
  }

  /** The position of a placement at `cell`: a centre within step * |jitter|
      of the cell centre on each axis (exactly the centre for a zero
      jitter), and a top-left corner that centres the glyph on it. */
  ghost predicate Positioned(p: Placement, cfg: LayerConfig, cell: Cell) {
    && Abs(p.center.x - CellCentre(cell.x, cfg.step)) <= Reach(cfg)
    && Abs(p.center.y - CellCentre(cell.y, cfg.step)) <= Reach(cfg)
    && (cfg.randomJitter == 0.0 ==> p.center == Point(CellCentre(cell.x, cfg.step), CellCentre(cell.y, cfg.step)))
    && Abs(p.left as real - (p.center.x - p.width as real / 2.0)) < 1.0
    && Abs(p.top as real - (p.center.y - p.height as real / 2.0)) < 1.0
  }

  /** How far a jitter can move a glyph on one axis: step * |random_jitter|. */
  function Reach(cfg: LayerConfig): real {
    cfg.step as real * Abs(cfg.randomJitter)
  }

  ghost predicate WellPlaced(p: Placement, cfg: LayerConfig, words: seq<string>, cell: Cell, alpha: int) {
    Styled(p, cfg, words, cell, alpha) && Positioned(p, cfg, cell)
  }

  lemma KeepStyled(cfg: LayerConfig, words: seq<string>, measure: Measure, alpha: int,
                   rs: Stream, pos: nat, cell: Cell)
    requires 1 <= cfg.step && |words| > 0 && ValidDraws(rs)
    ensures Styled(Keep(cfg, words, measure, alpha, rs, pos, cell), cfg, words, cell, alpha)
  {
  }

  lemma KeepPositioned(cfg: LayerConfig, words: seq<string>, measure: Measure, alpha: int,
                       rs: Stream, pos: nat, cell: Cell)
    requires 1 <= cfg.step && |words| > 0 && ValidDraws(rs)
    ensures Positioned(Keep(cfg, words, measure, alpha, rs, pos, cell), cfg, cell)
  {
    var p := Keep(cfg, words, measure, alpha, rs, pos, cell);
    CentreWithin(cfg, cell, rs(pos + 1), rs(pos + 2));
    assert p.center == JitteredCentre(cfg, cell, rs(pos + 1), rs(pos + 2));
    CornerNearCentred(p.center.x, p.width);
    CornerNearCentred(p.center.y, p.height);
  }

  /** A kept cell's placement is styled by the layer and positioned on its cell. */
  lemma KeepWellPlaced(cfg: LayerConfig, words: seq<string>, measure: Measure, alpha: int,
                       rs: Stream, pos: nat, cell: Cell)
    requires 1 <= cfg.step && |words| > 0 && ValidDraws(rs)
    ensures WellPlaced(Keep(cfg, words, measure, alpha, rs, pos, cell), cfg, words, cell, alpha)
  {
    KeepStyled(cfg, words, measure, alpha, rs, pos, cell);
    KeepPositioned(cfg, words, measure, alpha, rs, pos, cell);
  }

  /** A placement decided at a cell is well placed there, with the cell's mapped alpha. */
  lemma DecideWellPlaced(img: Gray, cfg: LayerConfig, words: seq<string>, measure: Measure,
                         rs: Stream, pos: nat, cell: Cell)
    requires img.Valid() && 1 <= cfg.step && cell.x <= img.width && cell.y <= img.height
    requires |words| > 0 && ValidDraws(rs)
    requires Decide(img, cfg, words, measure, rs, pos, cell).placement.Some?
    ensures WellPlaced(Decide(img, cfg, words, measure, rs, pos, cell).placement.value,
                       cfg, words, cell, CellMapping(img, cfg, cell).alpha)
  {
    KeepWellPlaced(cfg, words, measure, CellMapping(img, cfg, cell).alpha, rs, pos + 1, cell);
  }

  /** The outcome of a cell depends only on the draws it consumes. */
  lemma DecideLocal(img: Gray, cfg: LayerConfig, words: seq<string>, measure: Measure,
                    rs: Stream, rs': Stream, pos: nat, cell: Cell)
    requires img.Valid() && 1 <= cfg.step && cell.x <= img.width && cell.y <= img.height
    requires |words| > 0 && ValidDraws(rs) && ValidDraws(rs')
    requires forall i: nat :: pos <= i < Decide(img, cfg, words, measure, rs, pos, cell).next ==> rs(i) == rs'(i)
    ensures Decide(img, cfg, words, measure, rs', pos, cell) == Decide(img, cfg, words, measure, rs, pos, cell)
  {
    DecideKeeps(img, cfg, words, measure, rs, pos, cell);
    assert rs(pos) == rs'(pos);
  }

  /** `[p]` for a kept cell, nothing for a thinned one. */
  function Emit<T>(o: Option<T>): (s: seq<T>)
    ensures |s| <= 1
  {
    if o.Some? then [o.value] else []
  }

  /** A per-cell decision as a function of the cursor and the cell. */
  type Decider = (nat, Cell) --> Decision

  /** At cursor `p` and cell `c`, `decide` is defined, consumes one to six
      draws, and places a glyph, if at all, at `c`. */
  ghost predicate DecidesAt(decide: Decider, p: nat, c: Cell) {
    && decide.requires(p, c)
    && p < decide(p, c).next <= p + 6
    && (decide(p, c).placement.Some? ==> decide(p, c).placement.value.cell == c)
  }

  ghost predicate Decides(decide: Decider, cells: seq<Cell>) {
    forall p: nat, c :: c in cells ==> DecidesAt(decide, p, c)
  }

  /** The decision of one layer at every cell inside the image. */
  function CellDecider(img: Gray, cfg: LayerConfig, words: seq<string>, measure: Measure, rs: Stream): (decide: Decider)
    requires img.Valid() && 1 <= cfg.step && |words| > 0 && ValidDraws(rs)
  {
    (p: nat, c: Cell) requires c.x <= img.width && c.y <= img.height => Decide(img, cfg, words, measure, rs, p, c)
  }

  lemma CellDeciderDecides(img: Gray, cfg: LayerConfig, words: seq<string>, measure: Measure, rs: Stream, cells: seq<Cell>)
    requires img.Valid() && 1 <= cfg.step && |words| > 0 && ValidDraws(rs)
    requires forall c :: c in cells ==> c.x <= img.width && c.y <= img.height
    ensures Decides(CellDecider(img, cfg, words, measure, rs), cells)
  {
    var decide := CellDecider(img, cfg, words, measure, rs);
    forall p: nat, c | c in cells
      ensures DecidesAt(decide, p, c)
    {
      assert decide(p, c) == Decide(img, cfg, words, measure, rs, p, c);
    }
  }

  /** The nested loops of `draw_layer` over a list of cells, in list
      order, threading the cursor through the per-cell decision. */
  function Walk(decide: Decider, pos: nat, cells: seq<Cell>): (p: Planned)
    requires Decides(decide, cells)
    ensures |p.placements| <= |cells|
    ensures pos + |cells| <= p.next <= pos + 6 * |cells|
    ensures forall k :: 0 <= k < |p.placements| ==> p.placements[k].cell in cells
    decreases |cells|
  {
    if |cells| == 0 then Planned([], pos)
    else
      assert DecidesAt(decide, pos, cells[0]);
      var d := decide(pos, cells[0]);
      var rest := Walk(decide, d.next, cells[1..]);
      Planned(Emit(d.placement) + rest.placements, rest.next)
  }

  /** The cells of a list of placements, in order. */
  function CellsOf(ps: seq<Placement>): (cs: seq<Cell>)
    ensures |cs| == |ps|
  {
    seq(|ps|, k requires 0 <= k < |ps| => ps[k].cell)
  }

  /** Placements come out in the order of the cells they were decided at:
      a row-major walk yields row-major placements. */
  lemma {:induction false} WalkRowMajor(decide: Decider, pos: nat, cells: seq<Cell>)
    requires Decides(decide, cells) && RowMajor(cells)
    ensures RowMajor(CellsOf(Walk(decide, pos, cells).placements))
    decreases |cells|
  {
    if |cells| > 0 {
      assert DecidesAt(decide, pos, cells[0]);
      var d := decide(pos, cells[0]);
      var rest := Walk(decide, d.next, cells[1..]);
      RowMajorTail(cells);
      WalkRowMajor(decide, d.next, cells[1..]);
      var tail := CellsOf(rest.placements);
      if d.placement.Some? {
        forall c | c in tail
          ensures Before(cells[0], c)
        {
          var k :| 0 <= k < |tail| && tail[k] == c;
          assert rest.placements[k].cell in cells[1..];
        }
        RowMajorPrepend(cells[0], tail);
        assert CellsOf([d.placement.value] + rest.placements) == [cells[0]] + tail;
      } else {
        assert Emit(d.placement) + rest.placements == rest.placements;
      }
    }
  }

  /** `decide` keeps every cell of `cells`, whatever the cursor. */
  ghost predicate KeepsAll(decide: Decider, cells: seq<Cell>) {
    forall p: nat, c :: c in cells ==> decide.requires(p, c) && decide(p, c).placement.Some?
  }

  /** When every cell is kept, the placements are at exactly the walked cells. */
  lemma {:induction false} WalkPlacesAll(decide: Decider, pos: nat, cells: seq<Cell>)
    requires Decides(decide, cells) && KeepsAll(decide, cells)
    ensures CellsOf(Walk(decide, pos, cells).placements) == cells
    decreases |cells|
  {
    if |cells| > 0 {
      assert DecidesAt(decide, pos, cells[0]);
      var d := decide(pos, cells[0]);
      assert d.placement.Some?;
      var rest := Walk(decide, d.next, cells[1..]);
      WalkPlacesAll(decide, d.next, cells[1..]);
      assert Walk(decide, pos, cells).placements == [d.placement.value] + rest.placements;
      CellsOfCons(d.placement.value, rest.placements);
      assert cells == [cells[0]] + cells[1..];
    }
  }

  /** The cells of `[q] + ps` are `q`'s cell followed by the cells of `ps`. */
  lemma CellsOfCons(q: Placement, ps: seq<Placement>)
    ensures CellsOf([q] + ps) == [q.cell] + CellsOf(ps)
  {
    var l, r := CellsOf([q] + ps), [q.cell] + CellsOf(ps);
    forall k | 0 <= k < |l|
      ensures l[k] == r[k]
    {
      if 0 < k {
        assert ([q] + ps)[k] == ps[k - 1];
      }
    }
  }

  /** `q` is what `decide` places at one of `cells`, at some cursor. */
  ghost predicate DecidedIn(decide: Decider, cells: seq<Cell>, q: Placement) {
    exists p: nat, c :: c in cells && decide.requires(p, c) && decide(p, c).placement == Some(q)
  }

  /** Every placement of a walk is the decision taken at one of the walked
      cells, at some cursor. */
  lemma {:induction false} WalkPlacementsDecided(decide: Decider, pos: nat, cells: seq<Cell>)
    requires Decides(decide, cells)
    ensures forall k :: 0 <= k < |Walk(decide, pos, cells).placements| ==>
      DecidedIn(decide, cells, Walk(decide, pos, cells).placements[k])
    decreases |cells|
  {
    if |cells| > 0 {
      assert DecidesAt(decide, pos, cells[0]);
      var d := decide(pos, cells[0]);
      var rest := Walk(decide, d.next, cells[1..]);
      WalkPlacementsDecided(decide, d.next, cells[1..]);
      var all := Emit(d.placement) + rest.placements;
      forall k | 0 <= k < |all|
        ensures DecidedIn(decide, cells, all[k])
      {
        if k < |Emit(d.placement)| {
          assert cells[0] in cells && decide(pos, cells[0]).placement == Some(all[k]);
        } else {
          var j := k - |Emit(d.placement)|;
          assert all[k] == rest.placements[j];
          assert DecidedIn(decide, cells[1..], rest.placements[j]);
          var p: nat, c :| c in cells[1..] && decide.requires(p, c) && decide(p, c).placement == Some(rest.placements[j]);
          assert c in cells;
        }
      }
      assert Walk(decide, pos, cells).placements == all;
    }
  }

  /** `draw_layer`: the walk over the layer's own grid. A negative step
      visits no cell and consumes no draw. */
  function PlanLayer(img: Gray, cfg: LayerConfig, words: seq<string>, measure: Measure,
                     rs: Stream, pos: nat): (p: Planned)
    requires img.Valid() && cfg.step != 0 && |words| > 0 && ValidDraws(rs)
    ensures cfg.step < 0 ==> p == Planned([], pos)
    ensures pos <= p.next
    ensures 1 <= cfg.step ==> |p.placements| <= |Cells(img.width, img.height, cfg.step)|
    ensures 1 <= cfg.step ==> forall k :: 0 <= k < |p.placements| ==>
      OnGrid(p.placements[k].cell, img.width, img.height, cfg.step)
  {
    if cfg.step < 0 then Planned([], pos)
    else
      var cells := Cells(img.width, img.height, cfg.step);
      LayerCellsInside(img, cfg.step);
      CellDeciderDecides(img, cfg, words, measure, rs, cells);
      Walk(CellDecider(img, cfg, words, measure, rs), pos, cells)
  }

  /** A layer draws at most ceil(h / step) * ceil(w / step) glyphs. */
  lemma LayerSize(img: Gray, cfg: LayerConfig, words: seq<string>, measure: Measure, rs: Stream, pos: nat)
    requires img.Valid() && 1 <= cfg.step && |words| > 0 && ValidDraws(rs)
    ensures |PlanLayer(img, cfg, words, measure, rs, pos).placements| <= Span(img.height, cfg.step) * Span(img.width, cfg.step)
  {
    CellCount(img.width, img.height, cfg.step);
  }

  /** The grid cells lie on the grid and inside the image. */
  lemma LayerCellsInside(img: Gray, step: int)
    requires 1 <= step
    ensures forall c :: c in Cells(img.width, img.height, step) ==>
      OnGrid(c, img.width, img.height, step) && c.x <= img.width && c.y <= img.height
  {
    forall c | c in Cells(img.width, img.height, step)
      ensures OnGrid(c, img.width, img.height, step)
    {
      CellsAreGrid(img.width, img.height, step, c);
    }
  }

  /** A layer's placements come in row-major order of their cells. */
  lemma LayerRowMajor(img: Gray, cfg: LayerConfig, words: seq<string>, measure: Measure, rs: Stream, pos: nat)
    requires img.Valid() && cfg.step != 0 && |words| > 0 && ValidDraws(rs)
    ensures RowMajor(CellsOf(PlanLayer(img, cfg, words, measure, rs, pos).placements))
  {
    if 0 < cfg.step {
      var cells := Cells(img.width, img.height, cfg.step);
      LayerCellsInside(img, cfg.step);
      CellDeciderDecides(img, cfg, words, measure, rs, cells);
      CellsRowMajor(img.width, img.height, cfg.step);
      WalkRowMajor(CellDecider(img, cfg, words, measure, rs), pos, cells);
    }
  }

  /** `q` is well placed at its own cell of the image, with that cell's alpha. */
  ghost predicate PlacedByLayer(img: Gray, cfg: LayerConfig, words: seq<string>, q: Placement)
    requires img.Valid()
  {
    && 1 <= cfg.step
    && q.cell.x <= img.width && q.cell.y <= img.height
    && WellPlaced(q, cfg, words, q.cell, CellMapping(img, cfg, q.cell).alpha)
  }

  /** Every placement of a layer is well placed at its own cell, with that cell's alpha. */
  lemma LayerWellPlaced(img: Gray, cfg: LayerConfig, words: seq<string>, measure: Measure, rs: Stream, pos: nat)
    requires img.Valid() && cfg.step != 0 && |words| > 0 && ValidDraws(rs)
    ensures forall k :: 0 <= k < |PlanLayer(img, cfg, words, measure, rs, pos).placements| ==>
      PlacedByLayer(img, cfg, words, PlanLayer(img, cfg, words, measure, rs, pos).placements[k])
  {
    if 0 < cfg.step {
      var cells := Cells(img.width, img.height, cfg.step);
      var decide := CellDecider(img, cfg, words, measure, rs);
      LayerCellsInside(img, cfg.step);
      CellDeciderDecides(img, cfg, words, measure, rs, cells);
      WalkPlacementsDecided(decide, pos, cells);
      var ps := Walk(decide, pos, cells).placements;
      forall k | 0 <= k < |ps|
        ensures PlacedByLayer(img, cfg, words, ps[k])
      {
        assert DecidedIn(decide, cells, ps[k]);
        var p: nat, c :| c in cells && decide.requires(p, c) && decide(p, c).placement == Some(ps[k]);
        assert decide(p, c) == Decide(img, cfg, words, measure, rs, p, c);
        DecideWellPlaced(img, cfg, words, measure, rs, p, c);
        assert ps[k].cell == c;
      }
      assert PlanLayer(img, cfg, words, measure, rs, pos).placements == ps;
    }
  }

  /** Where every grid cell is dark enough for a density of at least 1,
      every grid cell gets a glyph, in walk order. */
  lemma LayerPlacesAll(img: Gray, cfg: LayerConfig, words: seq<string>, measure: Measure, rs: Stream, pos: nat)
    requires img.Valid() && 1 <= cfg.step && |words| > 0 && ValidDraws(rs)
    requires forall c :: OnGrid(c, img.width, img.height, cfg.step) ==> 1.0 <= CellMapping(img, cfg, c).density
    ensures CellsOf(PlanLayer(img, cfg, words, measure, rs, pos).placements) == Cells(img.width, img.height, cfg.step)
  {
    var cells := Cells(img.width, img.height, cfg.step);
    var decide := CellDecider(img, cfg, words, measure, rs);
    LayerCellsInside(img, cfg.step);
    CellDeciderDecides(img, cfg, words, measure, rs, cells);
    forall p: nat, c | c in cells
      ensures decide.requires(p, c) && decide(p, c).placement.Some?
    {
      DenseCellKept(img, cfg, words, measure, rs, p, c);
    }
    WalkPlacesAll(decide, pos, cells);
  }

  /** Drawing the layers onto one canvas, in list order, each layer
      continuing the stream where the previous one stopped. */
  function RenderLayers(img: Gray, cfgs: seq<LayerConfig>, words: seq<string>, measure: Measure,
                        rs: Stream, pos: nat): (c: Canvas)
    requires img.Valid() && |words| > 0 && ValidDraws(rs)
    requires forall i :: 0 <= i < |cfgs| ==> cfgs[i].step != 0
    ensures |c.layers| == |cfgs| && pos <= c.next
    decreases |cfgs|
  {
    if |cfgs| == 0 then Canvas([], pos)
    else
      var first := PlanLayer(img, cfgs[0], words, measure, rs, pos);
      var rest := RenderLayers(img, cfgs[1..], words, measure, rs, first.next);
      Canvas([first.placements] + rest.layers, rest.next)
  }

  /** `layer` is what `draw_layer` plans for `cfg` from some cursor at or
      after `pos`. */
  ghost predicate PlannedFrom(img: Gray, cfg: LayerConfig, words: seq<string>, measure: Measure,
                              rs: Stream, pos: nat, layer: seq<Placement>)
    requires img.Valid() && cfg.step != 0 && |words| > 0 && ValidDraws(rs)
  {
    exists p: nat :: pos <= p && layer == PlanLayer(img, cfg, words, measure, rs, p).placements
  }

  /** Each glyph of `layer` is well placed at its own cell with that cell's
      alpha, and the glyphs come in row-major order of their cells. */
  ghost predicate SoundLayer(img: Gray, cfg: LayerConfig, words: seq<string>, layer: seq<Placement>)
    requires img.Valid()
  {
    && (forall j :: 0 <= j < |layer| ==> PlacedByLayer(img, cfg, words, layer[j]))
    && RowMajor(CellsOf(layer))
  }

  /** Layer `k` of the canvas is what `draw_layer` plans for `cfgs[k]` from
      the cursor where layer `k - 1` stopped, which is at or after `pos`. */
  lemma {:induction false} RenderedLayerAt(img: Gray, cfgs: seq<LayerConfig>, words: seq<string>, measure: Measure,
                                           rs: Stream, pos: nat, k: nat)
    requires img.Valid() && |words| > 0 && ValidDraws(rs)
    requires forall i :: 0 <= i < |cfgs| ==> cfgs[i].step != 0
    requires k < |cfgs|
    ensures PlannedFrom(img, cfgs[k], words, measure, rs, pos, RenderLayers(img, cfgs, words, measure, rs, pos).layers[k])
    ensures k == 0 ==>
      RenderLayers(img, cfgs, words, measure, rs, pos).layers[0] == PlanLayer(img, cfgs[0], words, measure, rs, pos).placements
    decreases k
  {
    var first := PlanLayer(img, cfgs[0], words, measure, rs, pos);
    var rest := RenderLayers(img, cfgs[1..], words, measure, rs, first.next);
    var layers := RenderLayers(img, cfgs, words, measure, rs, pos).layers;
    RenderLayersCons(img, cfgs, words, measure, rs, pos);
    assert layers == [first.placements] + rest.layers;
    if k == 0 {
      assert PlannedFrom(img, cfgs[0], words, measure, rs, pos, layers[0]);
    } else {
      RenderedLayerAt(img, cfgs[1..], words, measure, rs, first.next, k - 1);
      assert cfgs[1..][k - 1] == cfgs[k] && layers[k] == rest.layers[k - 1];
      PlannedLater(img, cfgs[k], words, measure, rs, pos, first.next, layers[k]);
    }
  }

  /** The first layer of the canvas is planned from `pos`, and the others
      are the canvas of the remaining configurations, continued from where
      the first stopped. */
  lemma RenderLayersCons(img: Gray, cfgs: seq<LayerConfig>, words: seq<string>, measure: Measure, rs: Stream, pos: nat)
    requires img.Valid() && |words| > 0 && ValidDraws(rs)
    requires forall i :: 0 <= i < |cfgs| ==> cfgs[i].step != 0
    requires 0 < |cfgs|
    ensures var first := PlanLayer(img, cfgs[0], words, measure, rs, pos);
      && pos <= first.next
      && RenderLayers(img, cfgs, words, measure, rs, pos).layers
         == [first.placements] + RenderLayers(img, cfgs[1..], words, measure, rs, first.next).layers
      && RenderLayers(img, cfgs, words, measure, rs, pos).next
         == RenderLayers(img, cfgs[1..], words, measure, rs, first.next).next
  {
  }

  /** A layer planned from a cursor at or after `q` is planned from one at
      or after any earlier `pos`. */
  lemma PlannedLater(img: Gray, cfg: LayerConfig, words: seq<string>, measure: Measure,
                     rs: Stream, pos: nat, q: nat, layer: seq<Placement>)
    requires img.Valid() && cfg.step != 0 && |words| > 0 && ValidDraws(rs)
    requires pos <= q && PlannedFrom(img, cfg, words, measure, rs, q, layer)
    ensures PlannedFrom(img, cfg, words, measure, rs, pos, layer)
  {
    var p: nat :| q <= p && layer == PlanLayer(img, cfg, words, measure, rs, p).placements;
    assert pos <= p;
  }

  /** A layer planned from any cursor is sound. */
  lemma PlannedSound(img: Gray, cfg: LayerConfig, words: seq<string>, measure: Measure,
                     rs: Stream, pos: nat, layer: seq<Placement>)
    requires img.Valid() && cfg.step != 0 && |words| > 0 && ValidDraws(rs)
    requires PlannedFrom(img, cfg, words, measure, rs, pos, layer)
    ensures SoundLayer(img, cfg, words, layer)
  {
    var p: nat :| pos <= p && layer == PlanLayer(img, cfg, words, measure, rs, p).placements;
    LayerWellPlaced(img, cfg, words, measure, rs, p);
    LayerRowMajor(img, cfg, words, measure, rs, p);
  }

  /** Every layer of the canvas is the plan of its own configuration from a
      cursor at or after `pos`, so its glyphs are well placed at their own
      cells and come in row-major order. */
  lemma RenderedLayers(img: Gray, cfgs: seq<LayerConfig>, words: seq<string>, measure: Measure, rs: Stream, pos: nat)
    requires img.Valid() && |words| > 0 && ValidDraws(rs)
    requires forall i :: 0 <= i < |cfgs| ==> cfgs[i].step != 0
    ensures forall k :: 0 <= k < |cfgs| ==>
      PlannedFrom(img, cfgs[k], words, measure, rs, pos, RenderLayers(img, cfgs, words, measure, rs, pos).layers[k])
    ensures forall k :: 0 <= k < |cfgs| ==>
      SoundLayer(img, cfgs[k], words, RenderLayers(img, cfgs, words, measure, rs, pos).layers[k])
  {
    var c := RenderLayers(img, cfgs, words, measure, rs, pos);
    forall k | 0 <= k < |cfgs|
      ensures PlannedFrom(img, cfgs[k], words, measure, rs, pos, c.layers[k])
      ensures SoundLayer(img, cfgs[k], words, c.layers[k])
    {
      RenderedLayerAt(img, cfgs, words, measure, rs, pos, k);
      PlannedSound(img, cfgs[k], words, measure, rs, pos, c.layers[k]);
    }
  }

  /** Rendering `a + b` is rendering `a` and then `b` from where `a` stopped. */
  lemma {:induction false} RenderAppend(img: Gray, a: seq<LayerConfig>, b: seq<LayerConfig>, words: seq<string>,
                                        measure: Measure, rs: Stream, pos: nat)
    requires img.Valid() && |words| > 0 && ValidDraws(rs)
    requires forall i :: 0 <= i < |a| ==> a[i].step != 0
    requires forall i :: 0 <= i < |b| ==> b[i].step != 0
    ensures forall i :: 0 <= i < |a + b| ==> (a + b)[i].step != 0
    ensures RenderLayers(img, a + b, words, measure, rs, pos)
         == var ca := RenderLayers(img, a, words, measure, rs, pos);
            var cb := RenderLayers(img, b, words, measure, rs, ca.next);
            Canvas(ca.layers + cb.layers, cb.next)
    decreases |a|
  {
    if |a| > 0 {
      var first := PlanLayer(img, a[0], words, measure, rs, pos);
      RenderAppend(img, a[1..], b, words, measure, rs, first.next);
      RenderAppendCons(img, a, b, words, measure, rs, pos);
    } else {
      assert a + b == b;
    }
  }

  /** The step of `RenderAppend`: it holds for `a` once it holds for `a[1..]`
      from where the first layer of `a` stopped. */
  lemma RenderAppendCons(img: Gray, a: seq<LayerConfig>, b: seq<LayerConfig>, words: seq<string>,
                         measure: Measure, rs: Stream, pos: nat)
    requires img.Valid() && |words| > 0 && ValidDraws(rs) && 0 < |a|
    requires forall i :: 0 <= i < |a| ==> a[i].step != 0
    requires forall i :: 0 <= i < |b| ==> b[i].step != 0
    requires var first := PlanLayer(img, a[0], words, measure, rs, pos);
      && (forall i :: 0 <= i < |a[1..] + b| ==> (a[1..] + b)[i].step != 0)
      && RenderLayers(img, a[1..] + b, words, measure, rs, first.next)
         == var ca := RenderLayers(img, a[1..], words, measure, rs, first.next);
            var cb := RenderLayers(img, b, words, measure, rs, ca.next);
            Canvas(ca.layers + cb.layers, cb.next)
    ensures forall i :: 0 <= i < |a + b| ==> (a + b)[i].step != 0
    ensures RenderLayers(img, a + b, words, measure, rs, pos)
         == var ca := RenderLayers(img, a, words, measure, rs, pos);
            var cb := RenderLayers(img, b, words, measure, rs, ca.next);
            Canvas(ca.layers + cb.layers, cb.next)
  {
    var first := PlanLayer(img, a[0], words, measure, rs, pos);
    assert (a + b)[0] == a[0] && (a + b)[1..] == a[1..] + b;
    RenderLayersCons(img, a + b, words, measure, rs, pos);
    RenderLayersCons(img, a, words, measure, rs, pos);
    var ca := RenderLayers(img, a[1..], words, measure, rs, first.next);
    var cb := RenderLayers(img, b, words, measure, rs, ca.next);
    assert [first.placements] + (ca.layers + cb.layers) == ([first.placements] + ca.layers) + cb.layers;
  }

  /** The four layers of `build_word_image`, drawn with jitter 0.4. */
  function MainLayers(): (ls: seq<LayerConfig>)
  {
    [ LayerConfig(50, 50, 10, 180, 0.7, Rgb(0, 0, 0), 0.4, false),
      LayerConfig(30, 26, 20, 150, 1.2, Rgb(0, 0, 0), 0.4, true),
      LayerConfig(18, 14, 40, 160, 1.6, Rgb(0, 0, 0), 0.4, true),
      LayerConfig(12, 10, 30, 200, 1.3, Rgb(0, 0, 0), 0.4, false) ]
  }

  /** Coarse to fine: each layer uses a finer grid and a smaller font than
      the one before, and only the two middle layers rotate. */
  lemma MainLayersCoarseToFine()
    ensures |MainLayers()| == 4
    ensures forall i :: 0 <= i < |MainLayers()| ==> 1 <= MainLayers()[i].step && MainLayers()[i].randomJitter == 0.4
    ensures forall i, j :: 0 <= i < j < |MainLayers()| ==>
      MainLayers()[j].step < MainLayers()[i].step && MainLayers()[j].fontSize < MainLayers()[i].fontSize
    ensures forall i :: 0 <= i < |MainLayers()| ==> (MainLayers()[i].allowRotation <==> i == 1 || i == 2)
  {
  }

  /** The character set `list("天地人…")`: 30 one-character words. */
  function Vocabulary(): (ws: seq<string>)
    ensures |ws| == 30
    ensures forall i :: 0 <= i < |ws| ==> |ws[i]| == 1
  {
    Characters("天地人和山水风云日月星辰光影黑白虚实梦境文字重叠层次深浅变化")
  }

  /** `list(s)`: one single-character string per character, in order. */
  function Characters(s: string): (ws: seq<string>)
    ensures |ws| == |s|
    ensures forall i :: 0 <= i < |s| ==> ws[i] == [s[i]]
  {
    seq(|s|, i requires 0 <= i < |s| => [s[i]])
  }

  /** `build_word_image` after loading and scaling: the four layers over
      the greyscale image with the fixed vocabulary. */
  function BuildWordImage(img: Gray, measure: Measure, rs: Stream, pos: nat): (c: Canvas)
    requires img.Valid() && ValidDraws(rs)
    ensures |c.layers| == 4
  {
    MainLayersCoarseToFine();
    RenderLayers(img, MainLayers(), Vocabulary(), measure, rs, pos)
  }

  /** Each of the four layers of `build_word_image` is the plan of the
      matching layer of `MainLayers` over the vocabulary, from a cursor at
      or after `pos`, so its glyphs are well placed at their own cells and
      come in row-major order. */
  lemma BuildWordImageLayers(img: Gray, measure: Measure, rs: Stream, pos: nat)
    requires img.Valid() && ValidDraws(rs)
    ensures forall k :: 0 <= k < |MainLayers()| ==>
      PlannedFrom(img, MainLayers()[k], Vocabulary(), measure, rs, pos, BuildWordImage(img, measure, rs, pos).layers[k])
    ensures forall k :: 0 <= k < |MainLayers()| ==>
      SoundLayer(img, MainLayers()[k], Vocabulary(), BuildWordImage(img, measure, rs, pos).layers[k])
  {
    MainLayersCoarseToFine();
    RenderedLayers(img, MainLayers(), Vocabulary(), measure, rs, pos);
  }

  /** Size after `img.resize((max_width, int(h * (max_width / w))))`;
      `None` where the division by a zero width raises. */
  function ScaledSize(w: nat, h: nat, maxWidth: int): (s: Option<(int, int)>)
    ensures s.None? <==> w == 0
    ensures s.Some? ==> s.value.0 == maxWidth
  {
    if w == 0 then None
    else Some((maxWidth, Trunc(h as real * (maxWidth as real / w as real))))
  }

  /** With exact arithmetic the scaled height is the integer quotient h * max_width / w. */
  lemma ScaledHeight(w: nat, h: nat, maxWidth: nat)
    requires 0 < w
    ensures ScaledSize(w, h, maxWidth) == Some((maxWidth, h * maxWidth / w))
  {
    var x := h as real * (maxWidth as real / w as real);
    assert x == (h * maxWidth) as real / w as real;
    QuotientFloor(h * maxWidth, w);
    TruncNonNegative(x);
  }

  /** The floor of an exact quotient of naturals is their integer quotient. */
  lemma QuotientFloor(a: nat, b: nat)
    requires 0 < b
    ensures (a as real / b as real).Floor == a / b
  {
    var q, r := a / b, a % b;
    var x := a as real / b as real;
    assert a as real == q as real * b as real + r as real;
    assert x == q as real + r as real / b as real;
    assert 0.0 <= r as real / b as real < 1.0;
  }
}
