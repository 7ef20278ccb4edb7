/** The layout arithmetic of `stitch_side_by_side` (generate_variations.py):
    panels side by side, left to right, each centred vertically in the
    tallest panel's height, with an optional 40-pixel band of labels below.
    Loading, compositing and text drawing stay in the imaging library; the
    layout is the list of positions they are given. */
module Stitch {
  import opened Basics

  /** The size of one panel image. */
  datatype Size = Size(width: nat, height: nat)

  /** The canvas size, the top-left corner of each panel and, for panels
      that get a label, the top-left corner of the label's text. */
  datatype Layout = Layout(width: nat, height: nat, offsets: seq<(int, int)>, labelAt: seq<Option<(int, int)>>)

  /** The height of the label band when labels are given. */
  const LabelBand: nat := 40

  /** `sum(im.width for im in images)`. */
  function TotalWidth(ps: seq<Size>): nat {
    if |ps| == 0 then 0 else TotalWidth(ps[..|ps| - 1]) + ps[|ps| - 1].width
  }

  /** `max(heights)`: at least every height, and attained by one panel. */
  function MaxHeight(ps: seq<Size>): (m: nat)
    requires |ps| > 0
    ensures forall i :: 0 <= i < |ps| ==> ps[i].height <= m
    ensures exists i :: 0 <= i < |ps| && ps[i].height == m
  {
    if |ps| == 1 then ps[0].height
    else
      var m := MaxHeight(ps[1..]);
      assert forall i :: 1 <= i < |ps| ==> ps[i] == ps[1..][i - 1];
      if ps[0].height < m then m else ps[0].height
  }

  /** `(a - b) // 2`: Python floors, as does Dafny's division by a positive divisor. */
  function Half(n: int): (r: int)
    ensures 2 * r <= n < 2 * r + 2
  {
    n / 2
  }

  /** Where panel k goes: after the panels before it, centred vertically. */
  function PanelOffset(ps: seq<Size>, maxHeight: int, k: nat): (int, int)
    requires k < |ps|
  {
    (TotalWidth(ps[..k]), Half(maxHeight - ps[k].height))
  }

  /** Where the label of panel k goes: centred under the panel in the label band. */
  function LabelOffset(ps: seq<Size>, maxHeight: int, k: nat, text: (nat, nat)): (int, int)
    requires k < |ps|
  {
    (TotalWidth(ps[..k]) + Half(ps[k].width - text.0), maxHeight + Half(LabelBand - text.1))
  }

  /** `stitch_side_by_side`: nothing for no panels; otherwise the canvas
      size and the position of every panel and label, with `textSize`
      standing for the label's measured text box. */
  method SideBySide(panels: seq<Size>, labels: seq<string>, textSize: string -> (nat, nat)) returns (r: Option<Layout>)
    ensures r.None? <==> |panels| == 0
    ensures r.Some? ==> r.value.width == TotalWidth(panels)
    ensures r.Some? ==> r.value.height == MaxHeight(panels) + (if |labels| > 0 then LabelBand else 0)
    ensures r.Some? ==> |r.value.offsets| == |panels| && |r.value.labelAt| == |panels|
    ensures r.Some? ==> forall k :: 0 <= k < |panels| ==>
      r.value.offsets[k] == PanelOffset(panels, MaxHeight(panels), k)
    ensures r.Some? ==> forall k :: 0 <= k < |panels| ==>
      (r.value.labelAt[k].Some? <==> k < |labels|)
    ensures r.Some? ==> forall k :: 0 <= k < |panels| && k < |labels| ==>
      r.value.labelAt[k] == Some(LabelOffset(panels, MaxHeight(panels), k, textSize(labels[k])))
  {
    if |panels| == 0 {
      return None;
    }
    var maxHeight := MaxHeight(panels);
    var labelHeight := if |labels| > 0 then LabelBand else 0;
    var offsets: seq<(int, int)> := [];
    var labelAt: seq<Option<(int, int)>> := [];
    var xOffset := 0;
    var idx := 0;
    while idx < |panels|
      invariant 0 <= idx <= |panels|
      invariant xOffset == TotalWidth(panels[..idx])
      invariant |offsets| == idx && |labelAt| == idx
      invariant forall k :: 0 <= k < idx ==> offsets[k] == PanelOffset(panels, maxHeight, k)
      invariant forall k :: 0 <= k < idx ==> (labelAt[k].Some? <==> k < |labels|)
      invariant forall k :: 0 <= k < idx && k < |labels| ==>
        labelAt[k] == Some(LabelOffset(panels, maxHeight, k, textSize(labels[k])))
    {
      var im := panels[idx];
      offsets := offsets + [(xOffset, Half(maxHeight - im.height))];
      if |labels| > 0 && idx < |labels| {
        var (tw, th) := textSize(labels[idx]);
        labelAt := labelAt + [Some((xOffset + Half(im.width - tw), maxHeight + Half(labelHeight - th)))];
        assert labelAt[idx] == Some(LabelOffset(panels, maxHeight, idx, textSize(labels[idx])));
      } else {
        labelAt := labelAt + [None];
      }
      assert panels[..idx + 1][..idx] == panels[..idx];
      xOffset := xOffset + im.width;
      idx := idx + 1;
    }
    assert panels[..|panels|] == panels;
    return Some(Layout(xOffset, maxHeight + labelHeight, offsets, labelAt));
  }

  /** Panel k starts where panel k - 1 ends: the panels tile the canvas
      width without gaps, and an earlier panel ends before a later one begins. */
  lemma {:induction false} PanelsTile(ps: seq<Size>, j: nat, k: nat)
    requires j < k <= |ps|
    ensures TotalWidth(ps[..j]) + ps[j].width <= TotalWidth(ps[..k])
    ensures k == j + 1 ==> TotalWidth(ps[..j]) + ps[j].width == TotalWidth(ps[..k])
    decreases k - j
  {
    assert ps[..j + 1][..j] == ps[..j];
    if j + 1 < k {
      PanelsTile(ps, j, k - 1);
      assert ps[..k][..k - 1] == ps[..k - 1];
    }
  }

  /** The last panel ends exactly at the canvas width. */
  lemma PanelsFillWidth(ps: seq<Size>)
    requires |ps| > 0
    ensures TotalWidth(ps[..|ps| - 1]) + ps[|ps| - 1].width == TotalWidth(ps)
  {
    PanelsTile(ps, |ps| - 1, |ps|);
    assert ps[..|ps|] == ps;
  }

  /** Vertical centring keeps every panel inside the tallest panel's height. */
  lemma CentredInside(ps: seq<Size>, k: nat)
    requires k < |ps|
    ensures 0 <= PanelOffset(ps, MaxHeight(ps), k).1
    ensures PanelOffset(ps, MaxHeight(ps), k).1 + ps[k].height <= MaxHeight(ps)
  {
    var m := MaxHeight(ps);
    assert ps[k].height <= m;
  }
}
