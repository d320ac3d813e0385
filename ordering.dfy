/** `color_order` of colors/ChineseColors.py: a greedy sequencer that starts
    at the most saturated colour and then always appends the remaining colour
    that best stands apart from the last one. */
module Ordering {
  import opened Common
  import opened Seqs
  import opened ColorSpace
  import opened Scan

  function SaturationOf(h: Hex): (s: real)
    ensures 0.0 <= s <= 1.0
  {
    HsvOf(h).s
  }

  function Saturations(): Hex -> real {
    (h: Hex) => SaturationOf(h)
  }

  /** The start colour: the strict `>` scan from `best_start = colors[0]`,
      `best_start_sat = 0`. */
  function StartOf(colors: seq<Hex>): (start: Hex)
    requires |colors| > 0
    ensures start in colors
  {
    ScanBest(colors, All(), FinScore(Saturations()), Best(Some(colors[0]), Fin(0.0))).choice.value
  }

  /** The start is the first colour of maximal saturation, or `colors[0]`
      when every saturation is 0. */
  lemma StartIsFirstMostSaturated(colors: seq<Hex>)
    requires |colors| > 0
    ensures forall i :: 0 <= i < |colors| ==> SaturationOf(colors[i]) <= SaturationOf(StartOf(colors))
    ensures (forall i :: 0 <= i < |colors| ==> SaturationOf(colors[i]) == 0.0) ==> StartOf(colors) == colors[0]
    ensures (exists i :: 0 <= i < |colors| && SaturationOf(colors[i]) > 0.0) ==>
      exists j :: 0 <= j < |colors| && colors[j] == StartOf(colors) &&
                  forall i :: 0 <= i < j ==> SaturationOf(colors[i]) < SaturationOf(colors[j])
  {
    FirstMaxAbove(colors, Saturations(), Some(colors[0]), 0.0);
  }

  /** The score of `candidate` as the successor of `last`: the LAB distance,
      halved when the hue gap is below `minHueGap`, otherwise plus half the
      hue gap. */
  function AdjacencyScore(sci: ColorScience, last: Hex, candidate: Hex, minHueGap: real): (score: real)
    ensures sci.Valid() ==> score >= 0.0
    ensures HueDistance(HueOf(candidate), HueOf(last)) < minHueGap ==> score == LabDistance(sci, last, candidate) * 0.5
    ensures HueDistance(HueOf(candidate), HueOf(last)) >= minHueGap ==> score >= LabDistance(sci, last, candidate)
  {
    var hueGap := HueDistance(HueOf(candidate), HueOf(last));
    var labDist := LabDistance(sci, last, candidate);
    if hueGap < minHueGap then labDist * 0.5 else labDist + hueGap * 0.5
  }

  /** The scores of `color_order` as one curried function: `Adjacency(sci,
      minHueGap)(last)` scores every candidate successor of `last`. */
  function Adjacency(sci: ColorScience, minHueGap: real): Hex -> Hex -> real {
    (last: Hex) => (c: Hex) => AdjacencyScore(sci, last, c, minHueGap)
  }

  /** The inner loop of `color_order`: the strict `>` scan from
      `best_score = -1`; when no candidate beats -1, `remaining[0]`. */
  function NextOf(adj: Hex -> Hex -> real, last: Hex, remaining: seq<Hex>): (next: Hex)
    requires |remaining| > 0
    ensures next in remaining
  {
    PickFirstMax(remaining, adj(last), -1.0, remaining[0])
  }

  /** Each step appends the first remaining colour of highest score, when one
      scores above -1 (always, under the distance axioms). */
  lemma NextIsFirstBest(adj: Hex -> Hex -> real, last: Hex, remaining: seq<Hex>)
    requires |remaining| > 0
    ensures (forall i :: 0 <= i < |remaining| ==> adj(last)(remaining[i]) <= -1.0) ==>
      NextOf(adj, last, remaining) == remaining[0]
    ensures (exists i :: 0 <= i < |remaining| && adj(last)(remaining[i]) > -1.0) ==>
      exists j :: 0 <= j < |remaining| && remaining[j] == NextOf(adj, last, remaining) &&
        (forall i :: 0 <= i < |remaining| ==> adj(last)(remaining[i]) <= adj(last)(remaining[j])) &&
        (forall i :: 0 <= i < j ==> adj(last)(remaining[i]) < adj(last)(remaining[j]))
  {
    PickFirstMaxIsFirstMax(remaining, adj(last), -1.0, remaining[0]);
  }

  /** The `while remaining` loop from the state (`ordered`, `remaining`):
      append the next colour after `ordered[-1]` and `remaining.remove` it. */
  function GreedyRun(adj: Hex -> Hex -> real, ordered: seq<Hex>, remaining: seq<Hex>): (r: seq<Hex>)
    requires |ordered| > 0
    ensures |r| == |ordered| + |remaining|
    decreases |remaining|
  {
    if remaining == [] then ordered
    else
      var next := NextOf(adj, ordered[|ordered| - 1], remaining);
      GreedyRun(adj, ordered + [next], RemoveFirst(remaining, next))
  }

  /** What `color_order` returns, for the scores `adj`. */
  function GreedyOrder(adj: Hex -> Hex -> real, colors: seq<Hex>): (ordered: seq<Hex>)
  {
    if |colors| <= 1 then colors
    else
      var start := StartOf(colors);
      GreedyRun(adj, [start], Filter(colors, Except(start)))
  }

  /** The loop only appends, and it appends each remaining colour once. */
  lemma {:induction false} GreedyRunFacts(adj: Hex -> Hex -> real, ordered: seq<Hex>, remaining: seq<Hex>)
    requires |ordered| > 0
    ensures GreedyRun(adj, ordered, remaining)[..|ordered|] == ordered
    ensures multiset(GreedyRun(adj, ordered, remaining)) == multiset(ordered) + multiset(remaining)
    decreases |remaining|
  {
    if remaining != [] {
      var next := NextOf(adj, ordered[|ordered| - 1], remaining);
      var rest := RemoveFirst(remaining, next);
      var extended := ordered + [next];
      var r := GreedyRun(adj, extended, rest);
      assert GreedyRun(adj, ordered, remaining) == r;
      GreedyRunFacts(adj, extended, rest);
      assert |extended| == |ordered| + 1;
      AppendStep(ordered, next, remaining, rest, r);
    }
  }

  /** One turn of the loop moves `x` from `remaining` to the end of `ordered`. */
  lemma AppendStep<T>(ordered: seq<T>, x: T, remaining: seq<T>, rest: seq<T>, r: seq<T>)
    requires x in remaining && multiset(rest) == multiset(remaining) - multiset{x}
    requires |r| >= |ordered| + 1 && r[..|ordered| + 1] == ordered + [x]
    requires multiset(r) == multiset(ordered + [x]) + multiset(rest)
    ensures r[..|ordered|] == ordered
    ensures multiset(r) == multiset(ordered) + multiset(remaining)
  {
    assert r[..|ordered|] == (r[..|ordered| + 1])[..|ordered|];
  }

  /** `color_order` keeps the start and every colour different from it, each
      as often as it occurs; for a list without repeats it is a permutation. */
  lemma GreedyOrderPermutes(adj: Hex -> Hex -> real, colors: seq<Hex>)
    ensures |colors| > 1 ==>
              multiset(GreedyOrder(adj, colors)) ==
              multiset{StartOf(colors)} + multiset(Filter(colors, Except(StartOf(colors))))
    ensures NoDup(colors) ==> multiset(GreedyOrder(adj, colors)) == multiset(colors)
    ensures NoDup(colors) ==> |GreedyOrder(adj, colors)| == |colors| && NoDup(GreedyOrder(adj, colors))
  {
    if |colors| > 1 {
      var start := StartOf(colors);
      GreedyRunFacts(adj, [start], Filter(colors, Except(start)));
      if NoDup(colors) {
        ExceptPermutes(colors, start);
        PermutationNoDup(colors, GreedyOrder(adj, colors));
      }
    }
  }

  /** `color_order` only rearranges: every colour it returns was given. */
  lemma GreedyOrderElements(adj: Hex -> Hex -> real, colors: seq<Hex>)
    ensures forall c :: c in GreedyOrder(adj, colors) ==> c in colors
  {
    if |colors| > 1 {
      var start := StartOf(colors);
      var rest := Filter(colors, Except(start));
      GreedyOrderPermutes(adj, colors);
      forall c | c in GreedyOrder(adj, colors) ensures c in colors {
        assert c in multiset(GreedyOrder(adj, colors));
        assert c == start || c in multiset(rest);
      }
    }
  }

  /** The result starts at the start colour. */
  lemma GreedyOrderStart(adj: Hex -> Hex -> real, colors: seq<Hex>)
    requires |colors| > 1
    ensures GreedyOrder(adj, colors)[0] == StartOf(colors)
  {
    var start := StartOf(colors);
    GreedyRunFacts(adj, [start], Filter(colors, Except(start)));
    assert GreedyOrder(adj, colors)[..1] == [start];
  }

  /** `color_order(colors, min_hue_gap, min_lab_distance)`. The result is
      `GreedyOrder`, which does not take `minLabDistance`: the source never
      reads it. */
  method ColorOrder(sci: ColorScience, colors: seq<Hex>, minHueGap: real, minLabDistance: real)
      returns (ordered: seq<Hex>)
    ensures ordered == GreedyOrder(Adjacency(sci, minHueGap), colors)
  {
    ghost var adj := Adjacency(sci, minHueGap);
    if |colors| <= 1 {
      return colors;
    }
    var bestStart := FindBest(colors, All(), FinScore(Saturations()), Best(Some(colors[0]), Fin(0.0)));
    var start := bestStart.choice.value;
    assert start == StartOf(colors);
    ordered := [start];
    var remaining := Filter(colors, Except(start));
    while remaining != []
      invariant |ordered| > 0
      invariant GreedyRun(adj, ordered, remaining) == GreedyOrder(adj, colors)
      decreases |remaining|
    {
      var last := ordered[|ordered| - 1];
      var best := FindBest(remaining, All(), FinScore(Adjacency(sci, minHueGap)(last)), Best(None, Fin(-1.0)));
      var next := if best.choice.Some? then best.choice.value else remaining[0];
      assert next == NextOf(adj, last, remaining);
      ordered := ordered + [next];
      remaining := RemoveFirst(remaining, next);
    }
  }
}
