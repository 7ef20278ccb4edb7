/** The style variants of generate_variations.py: the four layer presets,
    the defaults filled in when a preset layer is drawn, and the choice and
    order of the styles rendered and compared. File paths are reduced to
    the panel names they are built from. */
module Variations {
  import opened Basics
  import opened Luminance
  import opened Planner

  /** A layer record of a preset. `random_jitter` and `allow_rotation` are
      optional keys; every other key is always present. */
  datatype LayerSpec = LayerSpec(
    fontSize: int,
    step: int,
    baseAlpha: int,
    alphaBoostDark: int,
    densityScale: real,
    color: Rgb,
    randomJitter: Option<real>,
    allowRotation: Option<bool>)

  datatype Preset = Preset(name: string, layers: seq<LayerSpec>)

  /** `dict.get(key, default)` on an optional key. */
  function GetOr<T>(o: Option<T>, default: T): (v: T)
    ensures o.Some? ==> v == o.value
    ensures o.None? ==> v == default
  {
    match o
    case Some(x) => x
    case None => default
  }

  /** The arguments `render_with_layers` passes to `draw_layer` for one
      layer record: a missing jitter becomes 0.4, a missing rotation flag False. */
  function WithDefaults(l: LayerSpec): (c: LayerConfig)
  {
    LayerConfig(l.fontSize, l.step, l.baseAlpha, l.alphaBoostDark, l.densityScale, l.color,
                GetOr(l.randomJitter, 0.4), GetOr(l.allowRotation, false))
  }

  /** The defaults only fill gaps: a given value is passed on unchanged,
      the required keys are copied, and a missing key gets its default. */
  lemma DefaultsFillGaps(l: LayerSpec)
    ensures WithDefaults(l).step == l.step && WithDefaults(l).fontSize == l.fontSize
    ensures WithDefaults(l).densityScale == l.densityScale && WithDefaults(l).color == l.color
    ensures WithDefaults(l).baseAlpha == l.baseAlpha && WithDefaults(l).alphaBoostDark == l.alphaBoostDark
    ensures l.randomJitter.Some? ==> WithDefaults(l).randomJitter == l.randomJitter.value
    ensures l.randomJitter.None? ==> WithDefaults(l).randomJitter == 0.4
    ensures l.allowRotation.Some? ==> WithDefaults(l).allowRotation == l.allowRotation.value
    ensures l.allowRotation.None? ==> !WithDefaults(l).allowRotation
  {
  }

  /** A preset layer: black, with neither optional key. */
  function Black(fontSize: int, step: int, baseAlpha: int, alphaBoostDark: int, densityScale: real): LayerSpec {
    LayerSpec(fontSize, step, baseAlpha, alphaBoostDark, densityScale, Rgb(0, 0, 0), None, None)
  }

  /** `get_style_presets()`, in the dictionary's insertion order. */
  function Presets(): seq<Preset> {
    [ Preset("subtle_soft", [ Black(52, 56, 20, 130, 0.5),
                              Black(30, 32, 30, 140, 0.9),
                              Black(18, 18, 40, 150, 1.2) ]),
      Preset("graphic_bold", [ Black(64, 60, 40, 200, 0.8),
                               Black(32, 30, 60, 190, 1.6),
                               Black(16, 14, 70, 190, 1.8) ]),
      Preset("deep_dense", [ Black(40, 40, 25, 210, 1.0),
                             Black(26, 22, 40, 210, 1.8),
                             Black(14, 10, 50, 210, 2.2) ]),
      Preset("minimal_airy", [ Black(60, 70, 15, 120, 0.4),
                               Black(32, 46, 20, 130, 0.6),
                               Black(18, 30, 25, 140, 0.8) ]) ]
  }

  /** The preset names, in order: `presets.keys()`. */
  function Names(ps: seq<Preset>): (ns: seq<string>)
    ensures |ns| == |ps|
    ensures forall i :: 0 <= i < |ps| ==> ns[i] == ps[i].name
  {
    seq(|ps|, i requires 0 <= i < |ps| => ps[i].name)
  }

  function PresetNames(): seq<string> {
    Names(Presets())
  }

  /** `presets[name]`, or `None` for an unknown name. */
  function Lookup(ps: seq<Preset>, name: string): (r: Option<seq<LayerSpec>>)
    ensures r.Some? <==> name in Names(ps)
    ensures r.Some? ==> exists i :: 0 <= i < |ps| && ps[i].name == name && ps[i].layers == r.value
  {
    if |ps| == 0 then None
    else if ps[0].name == name then Some(ps[0].layers)
    else
      var r := Lookup(ps[1..], name);
      assert Names(ps) == [ps[0].name] + Names(ps[1..]);
      if r.Some? then
        var i :| 0 <= i < |ps[1..]| && ps[1..][i].name == name && ps[1..][i].layers == r.value;
        assert ps[i + 1].name == name;
        r
      else r
  }

  /** There are exactly four presets, under four distinct names; each has
      three layers with a positive step and font size and a positive
      density scale, coarse to fine, and none sets jitter or rotation. */
  lemma PresetsWellFormed()
    ensures PresetNames() == ["subtle_soft", "graphic_bold", "deep_dense", "minimal_airy"]
    ensures forall i, j :: 0 <= i < j < |Presets()| ==> Presets()[i].name != Presets()[j].name
    ensures forall i :: 0 <= i < |Presets()| ==> |Presets()[i].layers| == 3
    ensures forall i, k :: 0 <= i < |Presets()| && 0 <= k < |Presets()[i].layers| ==>
      var l := Presets()[i].layers[k];
      1 <= l.step && 1 <= l.fontSize && 0.0 < l.densityScale
      && l.randomJitter.None? && l.allowRotation.None?
    ensures forall i, k, k' :: 0 <= i < |Presets()| && 0 <= k < k' < |Presets()[i].layers| ==>
      Presets()[i].layers[k'].step < Presets()[i].layers[k].step
  {
  }

  /** Every preset layer is drawn with jitter 0.4 and without rotation. */
  lemma PresetLayersDrawnPlain(i: nat, k: nat)
    requires i < |Presets()| && k < |Presets()[i].layers|
    ensures WithDefaults(Presets()[i].layers[k]).randomJitter == 0.4
    ensures !WithDefaults(Presets()[i].layers[k]).allowRotation
  {
    PresetsWellFormed();
    DefaultsFillGaps(Presets()[i].layers[k]);
  }

  function AllDefaults(ls: seq<LayerSpec>): (cs: seq<LayerConfig>)
    ensures |cs| == |ls|
    ensures forall i :: 0 <= i < |ls| ==> cs[i] == WithDefaults(ls[i])
  {
    seq(|ls|, i requires 0 <= i < |ls| => WithDefaults(ls[i]))
  }

  /** `render_with_layers` after loading and scaling: each layer record,
      defaults filled in, drawn onto one canvas in list order, with the
      characters of `words` as the vocabulary. */
  function RenderWithLayers(img: Gray, layers: seq<LayerSpec>, words: string, measure: Measure,
                            rs: Stream, pos: nat): (c: Canvas)
    requires img.Valid() && |words| > 0 && ValidDraws(rs)
    requires forall i :: 0 <= i < |layers| ==> layers[i].step != 0
    ensures |c.layers| == |layers|
  {
    RenderLayers(img, AllDefaults(layers), Characters(words), measure, rs, pos)
  }

  /** Layer `k` of the canvas is the plan of `layers[k]` with its defaults
      filled in, over the characters of `words`, from a cursor at or after
      `pos`: its glyphs are well placed at their own cells and come in
      row-major order. */
  lemma RenderWithLayersLayers(img: Gray, layers: seq<LayerSpec>, words: string, measure: Measure,
                               rs: Stream, pos: nat)
    requires img.Valid() && |words| > 0 && ValidDraws(rs)
    requires forall i :: 0 <= i < |layers| ==> layers[i].step != 0
    ensures forall k :: 0 <= k < |layers| ==>
      PlannedFrom(img, WithDefaults(layers[k]), Characters(words), measure, rs, pos,
                  RenderWithLayers(img, layers, words, measure, rs, pos).layers[k])
    ensures forall k :: 0 <= k < |layers| ==>
      SoundLayer(img, WithDefaults(layers[k]), Characters(words), RenderWithLayers(img, layers, words, measure, rs, pos).layers[k])
  {
    var cfgs := AllDefaults(layers);
    RenderedLayers(img, cfgs, Characters(words), measure, rs, pos);
    assert forall k :: 0 <= k < |layers| ==> cfgs[k] == WithDefaults(layers[k]);
  }

  /** Layers are drawn in list order: rendering `a + b` is rendering `a`
      and then `b` on the same canvas, continuing the random stream. */
  lemma RenderWithLayersAppend(img: Gray, a: seq<LayerSpec>, b: seq<LayerSpec>, words: string,
                               measure: Measure, rs: Stream, pos: nat)
    requires img.Valid() && |words| > 0 && ValidDraws(rs)
    requires forall i :: 0 <= i < |a| ==> a[i].step != 0
    requires forall i :: 0 <= i < |b| ==> b[i].step != 0
    ensures forall i :: 0 <= i < |a + b| ==> (a + b)[i].step != 0
    ensures RenderWithLayers(img, a + b, words, measure, rs, pos)
         == var ca := RenderWithLayers(img, a, words, measure, rs, pos);
            var cb := RenderWithLayers(img, b, words, measure, rs, ca.next);
            Canvas(ca.layers + cb.layers, cb.next)
  {
    assert AllDefaults(a + b) == AllDefaults(a) + AllDefaults(b);
    RenderAppend(img, AllDefaults(a), AllDefaults(b), Characters(words), measure, rs, pos);
  }

  /** `[s for s in requested if s in known]`. */
  function Select(requested: seq<string>, known: seq<string>): (sel: seq<string>)
    ensures |sel| <= |requested|
  {
    if |requested| == 0 then []
    else (if requested[0] in known then [requested[0]] else []) + Select(requested[1..], known)
  }

  /** A name is selected exactly when it was requested and is known. */
  lemma {:induction false} SelectMembers(requested: seq<string>, known: seq<string>, s: string)
    ensures s in Select(requested, known) <==> s in requested && s in known
  {
    if |requested| > 0 {
      SelectMembers(requested[1..], known, s);
      assert requested == [requested[0]] + requested[1..];
    }
  }

  /** Selection keeps the request order: it distributes over concatenation. */
  lemma {:induction false} SelectAppend(a: seq<string>, b: seq<string>, known: seq<string>)
    ensures Select(a + b, known) == Select(a, known) + Select(b, known)
  {
    if |a| == 0 {
      assert a + b == b;
    } else {
      var head := if a[0] in known then [a[0]] else [];
      SelectAppend(a[1..], b, known);
      assert a + b == [a[0]] + (a[1..] + b);
      SelectCons(a[0], a[1..] + b, known);
      assert a == [a[0]] + a[1..];
      SelectCons(a[0], a[1..], known);
      assert head + (Select(a[1..], known) + Select(b, known)) == (head + Select(a[1..], known)) + Select(b, known);
    }
  }

  /** Selecting from `[x] + rest` keeps `x` when it is known, then selects from `rest`. */
  lemma SelectCons(x: string, rest: seq<string>, known: seq<string>)
    ensures Select([x] + rest, known) == (if x in known then [x] else []) + Select(rest, known)
  {
    assert ([x] + rest)[0] == x;
    assert ([x] + rest)[1..] == rest;
  }

  /** A request of known names only is kept as it is, duplicates included. */
  lemma {:induction false} SelectAll(requested: seq<string>, known: seq<string>)
    requires forall i :: 0 <= i < |requested| ==> requested[i] in known
    ensures Select(requested, known) == requested
  {
    if |requested| > 0 {
      SelectAll(requested[1..], known);
      assert requested == [requested[0]] + requested[1..];
    }
  }

  /** `", ".join(names)`. */
  function Join(names: seq<string>, sep: string): string {
    if |names| == 0 then ""
    else if |names| == 1 then names[0]
    else names[0] + sep + Join(names[1..], sep)
  }

  /** The styles of the evaluation sheet, in this order when selected. */
  function KeyOrder(): seq<string> {
    ["subtle_soft", "graphic_bold", "deep_dense"]
  }

  /** What `main` produces for a request, each image named by its panel
      labels: one variant per selected style; the evaluation sheet (empty
      when it is not made); the comparison strip. */
  datatype Outputs = Outputs(variants: seq<string>, evaluation: seq<string>, comparison: seq<string>)

  /** The selection and panel logic of `main` for the requested style
      names: an error naming the available styles when nothing known is
      requested; otherwise the variants in request order, and either an
      evaluation sheet of the original and the selected key styles plus a
      strip of the first three variants and that sheet, or, without key
      styles, a strip of all variants. */
  function PlanOutputs(requested: seq<string>): (r: Result<Outputs, string>)
  {
    var selected := Select(requested, PresetNames());
    if |selected| == 0 then
      Err("No valid styles requested. Available styles: " + Join(PresetNames(), ", "))
    else
      var key := Select(KeyOrder(), selected);
      if |key| > 0 then
        Ok(Outputs(selected, ["original"] + key, selected[..Min(3, |selected|)] + ["evaluation"]))
      else
        Ok(Outputs(selected, [], selected))
  }

  /** The program stops with the error exactly when no requested name is a
      preset; otherwise it renders one variant per requested preset name,
      in request order. */
  lemma PlanOutputsSelects(requested: seq<string>)
    ensures PlanOutputs(requested).Err? <==> forall s :: s in requested ==> s !in PresetNames()
    ensures PlanOutputs(requested).Ok? ==>
      forall s :: s in PlanOutputs(requested).value.variants <==> s in requested && s in PresetNames()
    ensures PlanOutputs(requested).Ok? ==> PlanOutputs(requested).value.variants == Select(requested, PresetNames())
  {
    var selected := Select(requested, PresetNames());
    forall s ensures s in selected <==> s in requested && s in PresetNames() {
      SelectMembers(requested, PresetNames(), s);
    }
    if |selected| > 0 {
      assert selected[0] in selected;
    }
  }

  /** The error message lists the four preset names. */
  lemma PlanOutputsError(requested: seq<string>)
    ensures PlanOutputs(requested).Err? ==>
      PlanOutputs(requested).error == "No valid styles requested. Available styles: "
        + Join(["subtle_soft", "graphic_bold", "deep_dense", "minimal_airy"], ", ")
  {
    PresetsWellFormed();
  }

  /** The evaluation sheet is the original followed by the selected key
      styles in key order; the comparison strip has at most four panels,
      each a selected style or the evaluation sheet, ending with the sheet
      whenever the sheet exists; without key styles every selected style
      is compared. */
  lemma PlanOutputsPanels(requested: seq<string>)
    requires PlanOutputs(requested).Ok?
    ensures var o := PlanOutputs(requested).value;
      && (|o.evaluation| > 0 ==>
            && o.evaluation[0] == "original"
            && o.evaluation[1..] == Select(KeyOrder(), o.variants)
            && (forall s :: s in o.evaluation[1..] <==> s in KeyOrder() && s in o.variants)
            && |o.comparison| == Min(3, |o.variants|) + 1 <= 4
            && o.comparison[|o.comparison| - 1] == "evaluation"
            && (forall i :: 0 <= i < |o.comparison| - 1 ==> o.comparison[i] == o.variants[i]))
      && (|o.evaluation| == 0 ==>
            o.comparison == o.variants && forall s :: s in o.variants ==> s !in KeyOrder())
  {
    var selected := Select(requested, PresetNames());
    var key := Select(KeyOrder(), selected);
    forall s ensures s in key <==> s in KeyOrder() && s in selected {
      SelectMembers(KeyOrder(), selected, s);
    }
    assert (["original"] + key)[1..] == key;
  }

  /** The default request of all four presets: the evaluation sheet holds
      the original and the three key styles, and the strip the first three
      styles and the sheet, so "minimal_airy" is rendered but not compared. */
  lemma DefaultRequest()
    ensures PlanOutputs(AllStyles())
         == Ok(Outputs(AllStyles(),
                       ["original", "subtle_soft", "graphic_bold", "deep_dense"],
                       ["subtle_soft", "graphic_bold", "deep_dense", "evaluation"]))
  {
    DefaultSelected();
    DefaultKeys();
    assert AllStyles()[..Min(3, |AllStyles()|)] == KeyOrder();
    assert ["original"] + KeyOrder() == ["original", "subtle_soft", "graphic_bold", "deep_dense"];
    assert KeyOrder() + ["evaluation"] == ["subtle_soft", "graphic_bold", "deep_dense", "evaluation"];
  }

  /** The default of `--styles`: every preset, in dictionary order. */
  function AllStyles(): seq<string> {
    ["subtle_soft", "graphic_bold", "deep_dense", "minimal_airy"]
  }

  lemma DefaultSelected()
    ensures Select(AllStyles(), PresetNames()) == AllStyles()
  {
    PresetsWellFormed();
    SelectAll(AllStyles(), PresetNames());
  }

  lemma DefaultKeys()
    ensures Select(KeyOrder(), AllStyles()) == KeyOrder()
  {
    SelectAll(KeyOrder(), AllStyles());
  }

  /** Size of the original on the evaluation sheet: scaled down to
      `max_width` only when wider, never scaled up. */
  function OriginalSize(w: nat, h: nat, maxWidth: int): (s: Option<(int, int)>)
    ensures w <= maxWidth ==> s == Some((w, h))
    ensures s.Some? ==> s.value.0 == Min(w, maxWidth)
    ensures s.None? <==> w == 0 && maxWidth < 0
  {
    if w > maxWidth then ScaledSize(w, h, maxWidth) else Some((w, h))
  }
}
