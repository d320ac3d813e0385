/** `score_colors` of colors/ChineseColors.py: how well a candidate fits a
    target hue, given the colours already chosen. */
module Scoring {
  import opened Common
  import opened ColorSpace

  /** The running minimum of `f` over `xs`, from `float("inf")`. */
  function MinOf<T>(xs: seq<T>, f: T -> real): (d: ExtReal)
    ensures d == PosInf <==> xs == []
    ensures !d.NegInf?
    ensures d.Fin? ==> forall i :: 0 <= i < |xs| ==> d.v <= f(xs[i])
    ensures d.Fin? ==> exists i :: 0 <= i < |xs| && d.v == f(xs[i])
  {
    if xs == [] then PosInf
    else
      var first := f(xs[0]);
      var rest := MinOf(xs[1..], f);
      assert forall i :: 1 <= i < |xs| ==> xs[1..][i - 1] == xs[i];
      if rest.Fin? && rest.v < first then rest else Fin(first)
  }

  /** The smallest LAB distance from `c` to the chosen colours; `float("inf")`
      when none is chosen yet. */
  function MinLabDistanceTo(sci: ColorScience, c: Hex, selected: seq<Hex>): (d: ExtReal)
    ensures d == PosInf <==> selected == []
    ensures !d.NegInf?
    ensures d.Fin? ==> forall i :: 0 <= i < |selected| ==> d.v <= LabDistance(sci, c, selected[i])
    ensures d.Fin? ==> exists i :: 0 <= i < |selected| && d.v == LabDistance(sci, c, selected[i])
  {
    MinOf(selected, (h: Hex) => LabDistance(sci, c, h))
  }

  /** The value term: +5 inside [0.60, 0.80], a penalty of 30 per unit of
      distance from 0.70 outside. */
  function BrightnessBonus(v: real): (bonus: real)
    requires 0.0 <= v <= 1.0
    ensures -21.0 <= bonus <= 5.0
    ensures 0.6 <= v <= 0.8 <==> bonus == 5.0
  {
    if 0.6 <= v <= 0.8 then 5.0 else -Abs(v - 0.7) * 30.0
  }

  /** The saturation term: +5 inside [0.55, 0.85], a penalty of 20 per unit of
      distance from 0.70 outside. */
  function SaturationBonus(s: real): (bonus: real)
    requires 0.0 <= s <= 1.0
    ensures -14.0 <= bonus <= 5.0
    ensures 0.55 <= s <= 0.85 <==> bonus == 5.0
  {
    if 0.55 <= s <= 0.85 then 5.0 else -Abs(s - 0.7) * 20.0
  }

  /** The pair `(score, min_lab_dist_to_selected)`. */
  datatype ScoreResult = ScoreResult(score: ExtReal, minLabDist: ExtReal)

  /** `score_colors`. A candidate closer than `minLabDistance` to a chosen
      colour scores exactly -1; with nothing chosen the distance term, and so
      the score, is `+inf`. */
  function ScoreColors(sci: ColorScience, candidate: Hex, targetHue: real, selected: seq<Hex>,
                       minLabDistance: real): (r: ScoreResult)
    ensures r.minLabDist == MinLabDistanceTo(sci, candidate, selected)
    ensures r.minLabDist.Below(Fin(minLabDistance)) ==> r.score == Fin(-1.0)
    ensures selected == [] <==> r.score == PosInf
    ensures r.score.NonNegative() ==>
      forall i :: 0 <= i < |selected| ==> minLabDistance <= LabDistance(sci, candidate, selected[i])
    ensures r.score.Fin? && !r.minLabDist.Below(Fin(minLabDistance)) ==>
      var base := -HueDistance(targetHue, HueOf(candidate)) + (r.minLabDist.v - minLabDistance) * 0.5;
      base - 35.0 <= r.score.v <= base + 10.0
  {
    var hsv := HsvOf(candidate);
    var hueDistance := HueDistance(targetHue, hsv.h);
    var minLabDist := MinLabDistanceTo(sci, candidate, selected);
    if minLabDist.Below(Fin(minLabDistance)) then
      ScoreResult(Fin(-1.0), minLabDist)
    else if minLabDist.PosInf? then
      ScoreResult(PosInf, minLabDist)
    else
      var score := -hueDistance + (minLabDist.v - minLabDistance) * 0.5
                   + SaturationBonus(hsv.s) + BrightnessBonus(hsv.v);
      ScoreResult(Fin(score), minLabDist)
  }

  /** Under the distance axioms, a colour already chosen is always rejected
      when the minimum distance is positive: its distance to itself is 0. */
  lemma ChosenIsRejected(sci: ColorScience, candidate: Hex, targetHue: real, selected: seq<Hex>,
                         minLabDistance: real)
    requires sci.Valid() && minLabDistance > 0.0 && candidate in selected
    ensures ScoreColors(sci, candidate, targetHue, selected, minLabDistance).score == Fin(-1.0)
  {
    var i :| 0 <= i < |selected| && selected[i] == candidate;
    LabDistanceMetric(sci, candidate, selected[i]);
  }

  /** With no colour chosen, no candidate is rejected. */
  lemma EmptySelectionNeverRejects(sci: ColorScience, candidate: Hex, targetHue: real,
                                   minLabDistance: real)
    ensures ScoreColors(sci, candidate, targetHue, [], minLabDistance).score.NonNegative()
  {
  }
}
