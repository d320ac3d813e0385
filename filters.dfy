/** The three order-preserving filters of colors/ChineseColors.py:
    `filter_vibrant_colors`, `filter_vibrant_colors_strict` and
    `limit_to_base_hue_families`. Each is an append loop over its input; each
    method is proved equal to `Seqs.Filter` with the predicate the loop tests. */
module Filters {
  import opened Common
  import opened Seqs
  import opened ColorSpace

  /** The test of `filter_vibrant_colors`: saturation at least `minS` and
      value within [minV, maxV]. */
  predicate IsVibrant(hsv: Hsv, minS: real, minV: real, maxV: real) {
    hsv.s >= minS && minV <= hsv.v <= maxV
  }

  /** The test of `filter_vibrant_colors_strict`: the same, and orange-to-yellow
      hues in [15, 45) also need saturation at least 0.75. */
  predicate IsVibrantStrict(hsv: Hsv, minS: real, minV: real, maxV: real) {
    IsVibrant(hsv, minS, minV, maxV) && !(15.0 <= hsv.h < 45.0 && hsv.s < 0.75)
  }

  function Vibrant(minS: real, minV: real, maxV: real): Hex -> bool {
    (h: Hex) => IsVibrant(HsvOf(h), minS, minV, maxV)
  }

  function VibrantStrict(minS: real, minV: real, maxV: real): Hex -> bool {
    (h: Hex) => IsVibrantStrict(HsvOf(h), minS, minV, maxV)
  }

  /** `filter_vibrant_colors`. */
  method FilterVibrantColors(colors: seq<Hex>, minS: real, minV: real, maxV: real)
      returns (vibrant: seq<Hex>)
    ensures vibrant == Filter(colors, Vibrant(minS, minV, maxV))
    ensures forall h :: h in vibrant <==> h in colors && IsVibrant(HsvOf(h), minS, minV, maxV)
  {
    vibrant := [];
    for i := 0 to |colors|
      invariant vibrant == Filter(colors[..i], Vibrant(minS, minV, maxV))
    {
      var hsv := HsvOf(colors[i]);
      FilterAppendOne(colors[..i], Vibrant(minS, minV, maxV), colors[i]);
      TakeSnoc(colors, i);
      assert Vibrant(minS, minV, maxV)(colors[i]) == IsVibrant(hsv, minS, minV, maxV);
      if hsv.s >= minS && minV <= hsv.v <= maxV {
        vibrant := vibrant + [colors[i]];
      }
    }
    assert colors[..|colors|] == colors;
  }

  /** `filter_vibrant_colors_strict`, with its two `continue` guards. */
  method FilterVibrantColorsStrict(colors: seq<Hex>, minS: real, minV: real, maxV: real)
      returns (vibrant: seq<Hex>)
    ensures vibrant == Filter(colors, VibrantStrict(minS, minV, maxV))
    ensures forall h :: h in vibrant <==> h in colors && IsVibrantStrict(HsvOf(h), minS, minV, maxV)
  {
    vibrant := [];
    for i := 0 to |colors|
      invariant vibrant == Filter(colors[..i], VibrantStrict(minS, minV, maxV))
    {
      var hsv := HsvOf(colors[i]);
      FilterAppendOne(colors[..i], VibrantStrict(minS, minV, maxV), colors[i]);
      TakeSnoc(colors, i);
      if hsv.s < minS || !(minV <= hsv.v <= maxV) {
        continue;
      }
      if 15.0 <= hsv.h < 45.0 {
        if hsv.s < 0.75 {
          continue;
        }
      }
      vibrant := vibrant + [colors[i]];
    }
    assert colors[..|colors|] == colors;
  }

  /** Every strictly vibrant colour is vibrant under the same thresholds. */
  lemma StrictIsSubfilter(colors: seq<Hex>, minS: real, minV: real, maxV: real)
    ensures forall h :: h in Filter(colors, VibrantStrict(minS, minV, maxV)) ==>
      h in Filter(colors, Vibrant(minS, minV, maxV))
  {
  }

  /** The hues of the anchor colours, the list `base_hues`. */
  function Hues(colors: seq<Hex>): (hues: seq<real>)
    ensures |hues| == |colors|
    ensures forall k :: 0 <= k < |colors| ==> hues[k] == HueOf(colors[k])
  {
    seq(|colors|, k requires 0 <= k < |colors| => HueOf(colors[k]))
  }

  /** The nested `min_hue_distance`: the circular distance from `h` to the
      nearest of `hues`. Python's `min` raises on an empty sequence, hence the
      precondition; `LimitToBaseHueFamilies` models that error. */
  function MinHueDistance(h: real, hues: seq<real>): (d: real)
    requires |hues| > 0
    ensures forall k :: 0 <= k < |hues| ==> d <= HueDistance(h, hues[k])
    ensures exists k :: 0 <= k < |hues| && d == HueDistance(h, hues[k])
  {
    if |hues| == 1 then HueDistance(h, hues[0])
    else
      var rest := MinHueDistance(h, hues[1..]);
      assert forall k :: 1 <= k < |hues| ==> hues[1..][k - 1] == hues[k];
      Min(HueDistance(h, hues[0]), rest)
  }

  /** The nearest anchor is within `d` exactly when some anchor is. */
  lemma MinHueDistanceWithin(h: real, hues: seq<real>, d: real)
    requires |hues| > 0
    ensures MinHueDistance(h, hues) <= d <==> exists k :: 0 <= k < |hues| && HueDistance(h, hues[k]) <= d
  {
  }

  /** The test of `limit_to_base_hue_families`. */
  function NearBaseHue(hues: seq<real>, maxHueDiff: real): Hex -> bool {
    (h: Hex) => |hues| > 0 && MinHueDistance(HueOf(h), hues) <= maxHueDiff
  }

  /** The first loop of `limit_to_base_hue_families`. */
  method BaseHues(anchors: seq<Hex>) returns (baseHues: seq<real>)
    ensures baseHues == Hues(anchors)
  {
    baseHues := [];
    for i := 0 to |anchors|
      invariant |baseHues| == i
      invariant forall k :: 0 <= k < i ==> baseHues[k] == HueOf(anchors[k])
    {
      baseHues := baseHues + [HueOf(anchors[i])];
    }
  }

  /** What `limit_to_base_hue_families` keeps, stated without the minimum:
      the colours whose hue is within `maxHueDiff` of some anchor's hue. */
  lemma NearBaseHueFilter(colors: seq<Hex>, anchors: seq<Hex>, maxHueDiff: real)
    ensures forall h :: h in Filter(colors, NearBaseHue(Hues(anchors), maxHueDiff)) <==>
      h in colors && exists k :: 0 <= k < |anchors| && HueDistance(HueOf(h), HueOf(anchors[k])) <= maxHueDiff
  {
    forall h: Hex
      ensures NearBaseHue(Hues(anchors), maxHueDiff)(h) <==>
        exists k :: 0 <= k < |anchors| && HueDistance(HueOf(h), HueOf(anchors[k])) <= maxHueDiff
    {
      NearAnchor(h, anchors, maxHueDiff);
    }
  }

  lemma NearAnchor(h: Hex, anchors: seq<Hex>, maxHueDiff: real)
    ensures NearBaseHue(Hues(anchors), maxHueDiff)(h) <==>
      exists k :: 0 <= k < |anchors| && HueDistance(HueOf(h), HueOf(anchors[k])) <= maxHueDiff
  {
    var hues := Hues(anchors);
    if |hues| > 0 {
      MinHueDistanceWithin(HueOf(h), hues, maxHueDiff);
    }
  }

  /** What `limit_to_base_hue_families` returns or raises. */
  function BaseHueFamilies(colors: seq<Hex>, anchors: seq<Hex>, maxHueDiff: real): Result<seq<Hex>> {
    if |anchors| == 0 && |colors| > 0 then Err(EmptySequence)
    else Ok(Filter(colors, NearBaseHue(Hues(anchors), maxHueDiff)))
  }

  /** `limit_to_base_hue_families`: keeps the colours whose hue is within
      `maxHueDiff` of some anchor's hue. With no anchors, the first colour
      makes `min()` raise. */
  method LimitToBaseHueFamilies(colors: seq<Hex>, anchors: seq<Hex>, maxHueDiff: real)
      returns (r: Result<seq<Hex>>)
    ensures r == BaseHueFamilies(colors, anchors, maxHueDiff)
    ensures r.Err? <==> |anchors| == 0 && |colors| > 0
    ensures r.Err? ==> r.error == EmptySequence
    ensures r.Ok? ==> forall h :: h in r.value <==> (h in colors &&
      exists k :: 0 <= k < |anchors| && HueDistance(HueOf(h), HueOf(anchors[k])) <= maxHueDiff)
  {
    var baseHues := BaseHues(anchors);
    ghost var near := NearBaseHue(baseHues, maxHueDiff);
    var filtered := [];
    for i := 0 to |colors|
      invariant filtered == Filter(colors[..i], near)
      invariant i > 0 ==> |baseHues| > 0
    {
      if |baseHues| == 0 {
        return Err(EmptySequence);
      }
      FilterAppendOne(colors[..i], near, colors[i]);
      TakeSnoc(colors, i);
      if MinHueDistance(HueOf(colors[i]), baseHues) <= maxHueDiff {
        filtered := filtered + [colors[i]];
      }
    }
    assert colors[..|colors|] == colors;
    r := Ok(filtered);
    NearBaseHueFilter(colors, anchors, maxHueDiff);
  }
}
