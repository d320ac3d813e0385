/** `interpolate_colors_from_set8` of colors/ChineseColors.py: grows the
    palette of anchor colours (the ChineseSet8) to `targetSize` colours. It
    spreads `targetSize` target hues evenly over the hue circle, draws a pool
    of candidates from a ladder of ever looser filters, fills the slots one
    by one (anchors first, then scored candidates, then the nearest hue),
    puts every anchor back in, tops up from the pool, and orders the result
    with `color_order`. */
module Interpolation {
  import opened Common
  import opened Seqs
  import opened ColorSpace
  import opened Scan
  import opened Filters
  import opened Scoring
  import opened Ordering

  /** `BASE_CHINESE_COLORS`, the ChineseSet8 the palettes grow from. */
  const BaseChineseColors: seq<Hex> :=
    ["#1772B4", "#0AA344", "#F9BD10", "#F97D1C", "#ED5736", "#D70440", "#5976BA", "#8076A3"]

  /** The eight anchors are distinct. */
  lemma BaseChineseColorsDistinct()
    ensures |BaseChineseColors| == 8 && NoDup(BaseChineseColors)
  {
  }

  /** Python's `s[:n]` for an integer `n`: a non-negative `n` keeps the first
      `n` elements (all of them when `n` is larger), a negative `n` drops the
      last `-n`. */
  function PyTake<T>(s: seq<T>, n: int): (r: seq<T>)
    ensures |r| == (if 0 <= n then (if n <= |s| then n else |s|) else (if -n <= |s| then |s| + n else 0))
    ensures r == s[..|r|]
  {
    if 0 <= n then (if n <= |s| then s[..n] else s)
    else if -n <= |s| then s[..|s| + n]
    else []
  }

  /** `target_hue_positions`: `targetSize` hues `i * (360 / targetSize)`,
      starting at 0 and evenly spaced round the circle. */
  function TargetHues(targetSize: nat): (hs: seq<real>)
    requires targetSize > 0
    ensures |hs| == targetSize
    ensures hs[0] == 0.0
    ensures forall i :: 0 <= i < targetSize - 1 ==> hs[i + 1] - hs[i] == 360.0 / targetSize as real
    ensures forall i :: 0 <= i < targetSize ==> 0.0 <= hs[i] < 360.0
  {
    var step := 360.0 / targetSize as real;
    StepFacts(targetSize, step);
    var hs := seq(targetSize, i => i as real * step);
    forall i | 0 <= i < targetSize ensures 0.0 <= hs[i] < 360.0 {
      assert hs[i] == i as real * step;
      HueOnCircle(i, targetSize, step);
    }
    forall i | 0 <= i < targetSize - 1 ensures hs[i + 1] - hs[i] == step {
      assert hs[i] == i as real * step && hs[i + 1] == (i + 1) as real * step;
      NextMultiple(i, step);
    }
    hs
  }

  /** The step of `n` evenly spaced hues is positive and `n` steps make a turn. */
  lemma StepFacts(n: nat, step: real)
    requires n > 0 && step == 360.0 / n as real
    ensures step > 0.0 && n as real * step == 360.0
  {
  }

  lemma NextMultiple(i: nat, step: real)
    ensures (i + 1) as real * step == i as real * step + step
  {
  }

  /** The `i`-th of `n` hues lies on the circle. */
  lemma HueOnCircle(i: nat, n: nat, step: real)
    requires i < n && step > 0.0 && n as real * step == 360.0
    ensures 0.0 <= i as real * step < 360.0
  {
    var here, next, turn := i as real * step, (i + 1) as real * step, n as real * step;
    MulBelow(i + 1, n, step);
    NextMultiple(i, step);
    MulBelow(0, i, step);
    assert next <= turn && next == here + step && 0.0 * step <= here;
  }

  /** Multiplying by a non-negative step keeps the order of naturals. */
  lemma {:induction false} MulBelow(i: nat, n: nat, step: real)
    requires i <= n && step >= 0.0
    ensures i as real * step <= n as real * step
    decreases n - i
  {
    if i < n {
      MulBelow(i + 1, n, step);
      assert (i + 1) as real * step == i as real * step + step;
    }
  }

  /** The minimal LAB distance between chosen colours, by palette size. */
  function MinLabDistanceFor(targetSize: int): (d: real)
    ensures 15.0 <= d <= 25.0
    ensures targetSize <= 16 ==> d == 25.0
    ensures targetSize > 64 ==> d == 15.0
  {
    if targetSize <= 16 then 25.0
    else if targetSize <= 32 then 20.0
    else if targetSize <= 64 then 18.0
    else 15.0
  }

  /** `(min_hue_gap, min_lab_dist_for_order)` for the final `color_order`. */
  function OrderThresholds(targetSize: int): (t: (real, real))
    ensures 30.0 <= t.0 <= 50.0 && t.1 == MinLabDistanceFor(targetSize)
  {
    if targetSize <= 16 then (50.0, 25.0)
    else if targetSize <= 32 then (40.0, 20.0)
    else if targetSize <= 64 then (35.0, 18.0)
    else (30.0, 15.0)
  }

  // ---------------------------------------------------------------------
  // The candidate pool

  /** The test of `available_colors`: not one of the anchors. */
  function NotAnchor(anchors: seq<Hex>): Hex -> bool {
    (c: Hex) => c !in anchors
  }

  function Available(anchors: seq<Hex>, all: seq<Hex>): seq<Hex> {
    Filter(all, NotAnchor(anchors))
  }

  /** One tier: a vibrancy filter of the available colours, limited to the
      anchors' hue families. */
  function Tier(available: seq<Hex>, vibrant: Hex -> bool, anchors: seq<Hex>, maxHueDiff: real): (r: Result<seq<Hex>>)
    ensures r.Ok? ==> forall c :: c in r.value ==> c in available && vibrant(c)
    ensures r.Err? ==> |anchors| == 0 && r.error == EmptySequence
  {
    BaseHueFamilies(Filter(available, vibrant), anchors, maxHueDiff)
  }

  /** The filter ladder: each tier replaces the pool, and the next tier is
      tried while the pool holds fewer than `targetSize - |anchors|` colours;
      the last resort is every non-anchor colour. The pool holds only
      non-anchor colours of the catalogue; it can only be an error (the
      `min()` of no anchor hues) when there are no anchors. */
  function TierPool(anchors: seq<Hex>, all: seq<Hex>, targetSize: int): (r: Result<seq<Hex>>)
    ensures r.Ok? ==> forall c :: c in r.value ==> c in all && c !in anchors
    ensures r.Err? ==> |anchors| == 0 && r.error == EmptySequence
  {
    var available := Available(anchors, all);
    var need := targetSize - |anchors|;
    var t1 := Tier(available, VibrantStrict(0.6, 0.55, 0.8), anchors, 22.5);
    if t1.Err? || |t1.value| >= need then t1
    else
      var t2 := Tier(available, VibrantStrict(0.55, 0.5, 0.85), anchors, 25.0);
      if t2.Err? || |t2.value| >= need then t2
      else
        var t3 := Tier(available, Vibrant(0.5, 0.5, 0.8), anchors, 30.0);
        if t3.Err? || |t3.value| >= need then t3
        else Ok(available)
  }

  /** The ladder as the source runs it. */
  method SelectPool(anchors: seq<Hex>, all: seq<Hex>, targetSize: int) returns (r: Result<seq<Hex>>)
    ensures r == TierPool(anchors, all, targetSize)
  {
    var available := Available(anchors, all);
    var strict := FilterVibrantColorsStrict(available, 0.6, 0.55, 0.8);
    r := LimitToBaseHueFamilies(strict, anchors, 22.5);
    assert r == Tier(available, VibrantStrict(0.6, 0.55, 0.8), anchors, 22.5);
    if r.Err? { return; }
    if |r.value| < targetSize - |anchors| {
      var relaxed := FilterVibrantColorsStrict(available, 0.55, 0.5, 0.85);
      r := LimitToBaseHueFamilies(relaxed, anchors, 25.0);
      assert r == Tier(available, VibrantStrict(0.55, 0.5, 0.85), anchors, 25.0);
      if r.Err? { return; }
    }
    if |r.value| < targetSize - |anchors| {
      var relaxed2 := FilterVibrantColors(available, 0.5, 0.5, 0.8);
      r := LimitToBaseHueFamilies(relaxed2, anchors, 30.0);
      assert r == Tier(available, Vibrant(0.5, 0.5, 0.8), anchors, 30.0);
      if r.Err? { return; }
    }
    if |r.value| < targetSize - |anchors| {
      r := Ok(available);
    }
  }

  // ---------------------------------------------------------------------
  // Pre-assigning anchors to slots

  /** `k` is the slot the loop over `target_hue_positions` picks for `hue`:
      a slot of least circular distance, the first one on a tie. */
  predicate IsNearestSlot(targets: seq<real>, hue: real, k: int) {
    0 <= k < |targets| &&
    (forall i :: 0 <= i < |targets| ==> HueDistance(targets[k], hue) <= HueDistance(targets[i], hue)) &&
    (forall i :: 0 <= i < k ==> HueDistance(targets[k], hue) < HueDistance(targets[i], hue))
  }

  /** There is at most one nearest slot. */
  lemma NearestSlotUnique(targets: seq<real>, hue: real, k1: int, k2: int)
    requires IsNearestSlot(targets, hue, k1) && IsNearestSlot(targets, hue, k2)
    ensures k1 == k2
  {
    assert HueDistance(targets[k1], hue) <= HueDistance(targets[k2], hue);
    assert HueDistance(targets[k2], hue) <= HueDistance(targets[k1], hue);
  }

  /** The inner loop: `best_target_idx` from 0, `best_target_dist` from 360,
      replaced on a strictly smaller distance. */
  method NearestSlot(targets: seq<real>, hue: real) returns (k: nat)
    ensures |targets| > 0 ==> IsNearestSlot(targets, hue, k)
    ensures |targets| == 0 ==> k == 0
  {
    k := 0;
    var bestDist := 360.0;
    for i := 0 to |targets|
      invariant i == 0 ==> k == 0 && bestDist == 360.0
      invariant i > 0 ==> k < i && bestDist == HueDistance(targets[k], hue)
      invariant forall j :: 0 <= j < i ==> bestDist <= HueDistance(targets[j], hue)
      invariant forall j :: 0 <= j < k ==> bestDist < HueDistance(targets[j], hue)
    {
      var dist := HueDistance(targets[i], hue);
      if dist < bestDist {
        bestDist := dist;
        k := i;
      }
    }
  }

  /** The relation "slot `k` is the nearest slot of `hue`". The claim
      bookkeeping below only needs it as a relation with at most one slot per
      hue. */
  function Nearest(targets: seq<real>): (real, int) -> bool {
    (hue: real, k: int) => IsNearestSlot(targets, hue, k)
  }

  /** `k` is claimed by anchor `i`: it is anchor `i`'s nearest slot and no
      earlier anchor's. */
  predicate ClaimedBy(hues: seq<real>, near: (real, int) -> bool, k: int, i: int)
    requires 0 <= i < |hues|
  {
    near(hues[i], k) && forall i' :: 0 <= i' < i ==> !near(hues[i'], k)
  }

  /** Some slot of `assign` is the nearest slot of `hue`. */
  predicate HasSlot(assign: map<nat, Hex>, near: (real, int) -> bool, hue: real) {
    exists k :: k in assign && near(hue, k)
  }

  lemma HasSlotGrows(assign: map<nat, Hex>, assign': map<nat, Hex>, near: (real, int) -> bool, hues: seq<real>, j: nat, k: nat)
    requires j < |hues| && assign.Keys <= assign'.Keys
    requires forall i :: 0 <= i < j ==> HasSlot(assign, near, hues[i])
    requires k in assign' && near(hues[j], k)
    ensures forall i :: 0 <= i < j + 1 ==> HasSlot(assign', near, hues[i])
  {
    forall i | 0 <= i < j + 1 ensures HasSlot(assign', near, hues[i]) {
      if i < j {
        assert HasSlot(assign, near, hues[i]);
        var k' :| k' in assign && near(hues[i], k');
        assert k' in assign';
      }
    }
  }

  /** A slot no earlier anchor took is no earlier anchor's nearest slot. */
  lemma UnclaimedSlot(hues: seq<real>, targets: seq<real>, assign: map<nat, Hex>, j: nat, k: nat)
    requires j < |hues| && k !in assign && IsNearestSlot(targets, hues[j], k)
    requires forall i :: 0 <= i < j ==> HasSlot(assign, Nearest(targets), hues[i])
    ensures ClaimedBy(hues, Nearest(targets), k, j)
  {
    var near := Nearest(targets);
    forall i | 0 <= i < j ensures !near(hues[i], k) {
      assert HasSlot(assign, near, hues[i]);
      var k' :| k' in assign && near(hues[i], k');
      if near(hues[i], k) {
        NearestSlotUnique(targets, hues[i], k, k');
      }
    }
  }

  /** Every slot of `assign` holds the anchor, among the first `n`, that
      claimed it. */
  predicate FirstClaims(assign: map<nat, Hex>, anchors: seq<Hex>, hues: seq<real>, near: (real, int) -> bool, n: nat)
    requires |hues| == |anchors| && n <= |anchors|
  {
    forall k :: k in assign ==>
      exists i :: 0 <= i < n && assign[k] == anchors[i] && ClaimedBy(hues, near, k, i)
  }

  lemma FirstClaimsWiden(assign: map<nat, Hex>, anchors: seq<Hex>, hues: seq<real>, near: (real, int) -> bool, n: nat)
    requires |hues| == |anchors| && n < |anchors|
    requires FirstClaims(assign, anchors, hues, near, n)
    ensures FirstClaims(assign, anchors, hues, near, n + 1)
  {
    forall k | k in assign
      ensures exists i :: 0 <= i < n + 1 && assign[k] == anchors[i] && ClaimedBy(hues, near, k, i)
    {
      var i :| 0 <= i < n && assign[k] == anchors[i] && ClaimedBy(hues, near, k, i);
    }
  }

  lemma FirstClaimsAdd(assign: map<nat, Hex>, anchors: seq<Hex>, hues: seq<real>, near: (real, int) -> bool, n: nat, k: nat)
    requires |hues| == |anchors| && n < |anchors|
    requires FirstClaims(assign, anchors, hues, near, n)
    requires ClaimedBy(hues, near, k, n)
    ensures FirstClaims(assign[k := anchors[n]], anchors, hues, near, n + 1)
  {
    var assign' := assign[k := anchors[n]];
    forall k' | k' in assign'
      ensures exists i :: 0 <= i < n + 1 && assign'[k'] == anchors[i] && ClaimedBy(hues, near, k', i)
    {
      if k' == k {
        assert assign'[k'] == anchors[n];
      } else {
        var i :| 0 <= i < n && assign[k'] == anchors[i] && ClaimedBy(hues, near, k', i);
        assert assign'[k'] == anchors[i];
      }
    }
  }

  /** `base_assignments`: each anchor goes to its nearest slot unless an
      earlier anchor took it. Every slot holds the first anchor whose nearest
      slot it is, and every anchor's nearest slot is taken. */
  method AssignAnchors(anchors: seq<Hex>, hues: seq<real>, targets: seq<real>) returns (assign: map<nat, Hex>)
    requires |hues| == |anchors| && |targets| > 0
    ensures FirstClaims(assign, anchors, hues, Nearest(targets), |anchors|)
    ensures forall i :: 0 <= i < |anchors| ==> HasSlot(assign, Nearest(targets), hues[i])
    ensures forall k :: k in assign ==> k < |targets| && assign[k] in anchors
  {
    assign := map[];
    for j := 0 to |anchors|
      invariant FirstClaims(assign, anchors, hues, Nearest(targets), j)
      invariant forall i :: 0 <= i < j ==> HasSlot(assign, Nearest(targets), hues[i])
      invariant forall k :: k in assign ==> k < |targets| && assign[k] in anchors
    {
      var k := NearestSlot(targets, hues[j]);
      if k !in assign {
        UnclaimedSlot(hues, targets, assign, j, k);
        FirstClaimsAdd(assign, anchors, hues, Nearest(targets), j, k);
        ghost var before := assign;
        assign := assign[k := anchors[j]];
        HasSlotGrows(before, assign, Nearest(targets), hues, j, k);
      } else {
        FirstClaimsWiden(assign, anchors, hues, Nearest(targets), j);
        HasSlotGrows(assign, assign, Nearest(targets), hues, j, k);
      }
    }
  }

  // ---------------------------------------------------------------------
  // Filling the slots

  /** The test `if hex_color in used_colors: continue`. */
  function NotUsed(used: set<Hex>): Hex -> bool {
    (c: Hex) => c !in used
  }

  /** The first component of `score_colors` as a scan score. */
  function Fit(sci: ColorScience, targetHue: real, selected: seq<Hex>, minLabDistance: real): Hex -> ExtReal {
    (c: Hex) => ScoreColors(sci, c, targetHue, selected, minLabDistance).score
  }

  /** The fallback scan minimises the circular hue distance from 360 down; as
      a maximum, its score is the negated distance from -360 up. */
  function HueCloseness(targetHue: real): Hex -> real {
    (c: Hex) => -HueDistance(targetHue, HueOf(c))
  }

  /** The colour the loop body appends for the slot of `targetHue` (None: the
      slot stays empty): the slot's pre-assigned anchor when nothing is chosen
      yet or it scores at least 0, else what the scans find. */
  function SlotChoice(sci: ColorScience, targetHue: real, preset: Option<Hex>, anchors: seq<Hex>,
                      pool: seq<Hex>, selected: seq<Hex>, used: set<Hex>, minLabDistance: real): (pick: Option<Hex>)
    ensures pick.Some? ==> pick == preset || ((pick.value in anchors || pick.value in pool) && pick.value !in used)
    ensures pick.None? ==> forall c :: c in pool ==> c in used
  {
    if preset.Some? &&
       (|selected| == 0 || ScoreColors(sci, preset.value, targetHue, selected, minLabDistance).score.NonNegative())
    then preset
    else SlotScans(targetHue, anchors, pool, used, Fit(sci, targetHue, selected, minLabDistance),
                   Fit(sci, targetHue, selected, minLabDistance * 0.8))
  }

  /** The scans for a slot without an acceptable anchor: the best unused
      anchor, or, when none scores at least 0, the best of anchors and pool
      together; then the best of the pool at 0.8 times the distance; then the
      unused pool colour nearest in hue. Only unused colours are taken, and
      nothing is found only when the whole pool is used. `fit` and
      `relaxedFit` are the scores at the minimum distance and at 0.8 times
      it. */
  function SlotScans(targetHue: real, anchors: seq<Hex>, pool: seq<Hex>, used: set<Hex>,
                     fit: Hex -> ExtReal, relaxedFit: Hex -> ExtReal): (pick: Option<Hex>)
    ensures pick.Some? ==> (pick.value in anchors || pick.value in pool) && pick.value !in used
    ensures pick.None? ==> forall c :: c in pool ==> c in used
  {
    var fromAnchors := ScanBest(anchors, NotUsed(used), fit, Best(None, NegInf));
    var best :=
      if fromAnchors.choice.None? || fromAnchors.score.Below(Fin(0.0))
      then ScanBest(pool, NotUsed(used), fit, fromAnchors)
      else fromAnchors;
    if best.choice.Some? && best.score.NonNegative() then best.choice
    else
      var relaxed := ScanBest(pool, NotUsed(used), relaxedFit, Best(None, NegInf));
      if relaxed.choice.Some? && relaxed.score.NonNegative() then relaxed.choice
      else
        var nearest := ScanBest(pool, NotUsed(used), FinScore(HueCloseness(targetHue)), Best(None, Fin(-360.0)));
        NearestFallback(pool, used, targetHue);
        nearest.choice
  }

  /** The nearest-hue fallback finds a colour whenever one is unused: every
      circular distance is below 360. */
  lemma NearestFallback(pool: seq<Hex>, used: set<Hex>, targetHue: real)
    ensures ScanBest(pool, NotUsed(used), FinScore(HueCloseness(targetHue)), Best(None, Fin(-360.0))).choice.None? ==>
      forall c :: c in pool ==> c in used
  {
    forall i | 0 <= i < |pool| ensures HueCloseness(targetHue)(pool[i]) > -360.0 {
      assert HueDistance(targetHue, HueOf(pool[i])) <= 180.0;
    }
    ScanFindsAboveFloor(pool, NotUsed(used), HueCloseness(targetHue), -360.0);
    if ScanBest(pool, NotUsed(used), FinScore(HueCloseness(targetHue)), Best(None, Fin(-360.0))).choice.None? {
      forall c | c in pool ensures c in used {
        var i :| 0 <= i < |pool| && pool[i] == c;
        assert !NotUsed(used)(pool[i]);
      }
    }
  }

  /** Under the distance axioms and a positive minimum, the colour chosen for
      a slot is never one already chosen. */
  lemma SlotChoiceFresh(sci: ColorScience, targetHue: real, preset: Option<Hex>, anchors: seq<Hex>,
                        pool: seq<Hex>, selected: seq<Hex>, used: set<Hex>, minLabDistance: real)
    requires sci.Valid() && minLabDistance > 0.0 && used == Elems(selected)
    ensures SlotChoice(sci, targetHue, preset, anchors, pool, selected, used, minLabDistance).Some? ==>
      SlotChoice(sci, targetHue, preset, anchors, pool, selected, used, minLabDistance).value !in used
  {
    if preset.Some? && |selected| > 0 && preset.value in selected {
      ChosenIsRejected(sci, preset.value, targetHue, selected, minLabDistance);
    }
    if |selected| == 0 {
      assert used == {};
    }
  }

  /** The body of the loop over `target_hue_positions`, up to the append. */
  method ChooseForSlot(sci: ColorScience, targetHue: real, preset: Option<Hex>, anchors: seq<Hex>,
                       pool: seq<Hex>, selected: seq<Hex>, used: set<Hex>, minLabDistance: real)
      returns (pick: Option<Hex>)
    ensures pick == SlotChoice(sci, targetHue, preset, anchors, pool, selected, used, minLabDistance)
  {
    if preset.Some? {
      if |selected| == 0 {
        return preset;
      }
      var presetScore := ScoreColors(sci, preset.value, targetHue, selected, minLabDistance);
      if presetScore.score.NonNegative() {
        return preset;
      }
    }
    var fit := Fit(sci, targetHue, selected, minLabDistance);
    var best := FindBest(anchors, NotUsed(used), fit, Best(None, NegInf));
    if best.choice.None? || best.score.Below(Fin(0.0)) {
      best := FindBest(pool, NotUsed(used), fit, best);
    }
    if best.choice.Some? && best.score.NonNegative() {
      return best.choice;
    }
    var relaxed := FindBest(pool, NotUsed(used), Fit(sci, targetHue, selected, minLabDistance * 0.8),
                            Best(None, NegInf));
    if relaxed.choice.Some? && relaxed.score.NonNegative() {
      return relaxed.choice;
    }
    var nearest := FindBest(pool, NotUsed(used), FinScore(HueCloseness(targetHue)), Best(None, Fin(-360.0)));
    return nearest.choice;
  }

  /** The loop over `target_hue_positions`. `used` is the set of chosen
      colours; every slot adds at most one colour; under the distance axioms
      no colour is chosen twice; and a slot is left empty only once every
      pool colour is chosen. */
  method FillSlots(sci: ColorScience, anchors: seq<Hex>, pool: seq<Hex>, targets: seq<real>,
                   assign: map<nat, Hex>, minLabDistance: real)
      returns (selected: seq<Hex>, used: set<Hex>)
    ensures used == Elems(selected)
    ensures |selected| <= |targets|
    ensures forall c :: c in selected ==> c in anchors || c in pool || c in assign.Values
    ensures sci.Valid() && minLabDistance > 0.0 ==> NoDup(selected)
    ensures |selected| < |targets| ==> forall c :: c in pool ==> c in used
  {
    selected := [];
    used := {};
    for idx := 0 to |targets|
      invariant used == Elems(selected)
      invariant |selected| <= idx
      invariant forall c :: c in selected ==> c in anchors || c in pool || c in assign.Values
      invariant sci.Valid() && minLabDistance > 0.0 ==> NoDup(selected)
      invariant |selected| < idx ==> forall c :: c in pool ==> c in used
    {
      var preset := if idx in assign then Some(assign[idx]) else None;
      var pick := ChooseForSlot(sci, targets[idx], preset, anchors, pool, selected, used, minLabDistance);
      if sci.Valid() && minLabDistance > 0.0 {
        SlotChoiceFresh(sci, targets[idx], preset, anchors, pool, selected, used, minLabDistance);
        if pick.Some? {
          NoDupSnoc(selected, pick.value);
        }
      }
      if pick.Some? {
        ElemsSnoc(selected, pick.value);
        selected := selected + [pick.value];
        used := used + {pick.value};
      }
    }
  }

  // ---------------------------------------------------------------------
  // Putting the anchors back, topping up, ordering

  /** Slot `i` holds a non-anchor colour and has a target hue. */
  predicate Displaceable(selected: seq<Hex>, anchors: seq<Hex>, targets: seq<real>, i: int) {
    0 <= i < |selected| && i < |targets| && selected[i] !in anchors
  }

  /** How far the colour in slot `i` is from the slot's target hue. */
  function Misfit(selected: seq<Hex>, targets: seq<real>, i: int): real
    requires 0 <= i < |selected| && i < |targets|
  {
    HueDistance(targets[i], HueOf(selected[i]))
  }

  /** The worst-slot loop: `worst_idx` from 0 and `worst_dist` from 0, taking
      a strictly larger distance over the displaceable slots. The result is
      the first displaceable slot of largest positive misfit, or (0, 0) when
      no displaceable slot misfits at all. */
  method WorstSlot(selected: seq<Hex>, anchors: seq<Hex>, targets: seq<real>) returns (worstIdx: nat, worstDist: real)
    ensures worstDist >= 0.0
    ensures worstDist > 0.0 ==>
      Displaceable(selected, anchors, targets, worstIdx) && worstDist == Misfit(selected, targets, worstIdx)
    ensures worstDist == 0.0 ==> worstIdx == 0
    ensures forall i :: Displaceable(selected, anchors, targets, i) ==> Misfit(selected, targets, i) <= worstDist
    ensures forall i :: 0 <= i < worstIdx && Displaceable(selected, anchors, targets, i) ==>
      Misfit(selected, targets, i) < worstDist
  {
    worstIdx := 0;
    worstDist := 0.0;
    for idx := 0 to |selected|
      invariant worstDist >= 0.0
      invariant worstDist > 0.0 ==>
        worstIdx < idx && Displaceable(selected, anchors, targets, worstIdx) &&
        worstDist == Misfit(selected, targets, worstIdx)
      invariant worstDist == 0.0 ==> worstIdx == 0
      invariant forall i :: 0 <= i < idx && Displaceable(selected, anchors, targets, i) ==>
        Misfit(selected, targets, i) <= worstDist
      invariant forall i :: 0 <= i < worstIdx && Displaceable(selected, anchors, targets, i) ==>
        Misfit(selected, targets, i) < worstDist
    {
      var color := selected[idx];
      if color in anchors {
        continue;
      }
      if idx >= |targets| {
        continue;
      }
      var dist := HueDistance(targets[idx], HueOf(color));
      if dist > worstDist {
        worstDist := dist;
        worstIdx := idx;
      }
    }
  }

  /** Every target is a hue in [0, 360). */
  predicate OnCircle(targets: seq<real>) {
    forall i :: 0 <= i < |targets| ==> 0.0 <= targets[i] < 360.0
  }

  /** The `else` branch for a missing anchor when the palette is full: the
      anchor replaces the colour of the worst slot when it fits that slot's
      target hue strictly better. The length never changes, and only a
      non-anchor colour is ever replaced. */
  method DisplaceWorst(anchors: seq<Hex>, targets: seq<real>, selected: seq<Hex>, anchor: Hex)
      returns (next: seq<Hex>, worst: nat, displaced: bool)
    requires OnCircle(targets)
    ensures |next| == |selected|
    ensures !displaced ==> next == selected
    ensures displaced ==>
      Displaceable(selected, anchors, targets, worst) && next == selected[worst := anchor] &&
      HueDistance(targets[worst], HueOf(anchor)) < Misfit(selected, targets, worst) &&
      (forall i :: Displaceable(selected, anchors, targets, i) ==>
         Misfit(selected, targets, i) <= Misfit(selected, targets, worst)) &&
      (forall i :: 0 <= i < worst && Displaceable(selected, anchors, targets, i) ==>
         Misfit(selected, targets, i) < Misfit(selected, targets, worst))
  {
    var hue := HueOf(anchor);
    var worstDist;
    worst, worstDist := WorstSlot(selected, anchors, targets);
    next := selected;
    displaced := false;
    if worst < |targets| {
      var baseDist := HueDistance(targets[worst], hue);
      if baseDist < worstDist {
        next := selected[worst := anchor];
        displaced := true;
      }
    }
  }

  /** The loop over the anchors after the slots are filled: a missing anchor
      is appended while there is room, and otherwise may displace the worst
      slot. Afterwards, unless the palette is full, every anchor is chosen. */
  method BackfillAnchors(anchors: seq<Hex>, targets: seq<real>, selected0: seq<Hex>, used0: set<Hex>)
      returns (selected: seq<Hex>, used: set<Hex>)
    requires OnCircle(targets)
    requires Elems(selected0) <= used0 && |selected0| <= |targets|
    ensures Elems(selected) <= used && used0 <= used
    ensures |selected0| <= |selected| <= |targets|
    ensures forall c :: c in selected ==> c in selected0 || c in anchors
    ensures NoDup(selected0) ==> NoDup(selected)
    ensures |selected| < |targets| ==>
      (used0 == Elems(selected0) ==> used == Elems(selected)) && forall a :: a in anchors ==> a in used
  {
    selected := selected0;
    used := used0;
    for j := 0 to |anchors|
      invariant Elems(selected) <= used && used0 <= used
      invariant |selected0| <= |selected| <= |targets|
      invariant forall c :: c in selected ==> c in selected0 || c in anchors
      invariant NoDup(selected0) ==> NoDup(selected)
      invariant |selected| < |targets| ==>
        (used0 == Elems(selected0) ==> used == Elems(selected)) && forall i :: 0 <= i < j ==> anchors[i] in used
    {
      var anchor := anchors[j];
      if anchor !in used {
        if |selected| < |targets| {
          if NoDup(selected0) {
            NoDupSnoc(selected, anchor);
          }
          ElemsSnoc(selected, anchor);
          selected := selected + [anchor];
          used := used + {anchor};
        } else {
          var next, worst, displaced := DisplaceWorst(anchors, targets, selected, anchor);
          if displaced {
            NoDupUpdate(selected, worst, anchor);
            selected := next;
            used := used + {anchor};
          }
        }
      }
    }
  }

  /** The final top-up: while there is room, unused pool colours are
      appended in pool order. Afterwards, unless the palette is full, every
      pool colour is chosen. */
  method BackfillPool(pool: seq<Hex>, selected0: seq<Hex>, used0: set<Hex>, targetSize: int)
      returns (selected: seq<Hex>, used: set<Hex>)
    requires Elems(selected0) <= used0
    ensures |selected0| <= |selected| && selected[..|selected0|] == selected0
    ensures |selected0| <= targetSize ==> |selected| <= targetSize
    ensures |selected0| >= targetSize ==> selected == selected0 && used == used0
    ensures Elems(selected) <= used && used0 <= used
    ensures used0 == Elems(selected0) ==> used == Elems(selected)
    ensures forall c :: c in selected ==> c in selected0 || c in pool
    ensures NoDup(selected0) ==> NoDup(selected)
    ensures |selected| < targetSize ==> forall c :: c in pool ==> c in used
  {
    selected := selected0;
    used := used0;
    if |selected| < targetSize {
      for j := 0 to |pool|
        invariant |selected0| <= |selected| <= targetSize && selected[..|selected0|] == selected0
        invariant Elems(selected) <= used && used0 <= used
        invariant used0 == Elems(selected0) ==> used == Elems(selected)
        invariant forall c :: c in selected ==> c in selected0 || c in pool
        invariant NoDup(selected0) ==> NoDup(selected)
        invariant |selected| < targetSize ==> forall i :: 0 <= i < j ==> pool[i] in used
      {
        var c := pool[j];
        if c !in used && |selected| < targetSize {
          if NoDup(selected0) {
            NoDupSnoc(selected, c);
          }
          ElemsSnoc(selected, c);
          selected := selected + [c];
          used := used + {c};
        }
      }
    }
  }

  /** Steps 3 to 6 of the source: pre-assign, fill the slots, put the
      anchors back, top up from the pool. At most one colour per slot, each
      an anchor or from the pool; under the distance axioms no repeats; a
      selection short of the slots holds every anchor and pool colour. */
  method SelectColors(sci: ColorScience, anchors: seq<Hex>, hues: seq<real>, pool: seq<Hex>,
                      targets: seq<real>, minLabDistance: real)
      returns (selected: seq<Hex>)
    requires |hues| == |anchors| && |targets| > 0 && OnCircle(targets)
    ensures |selected| <= |targets|
    ensures forall c :: c in selected ==> c in anchors || c in pool
    ensures sci.Valid() && minLabDistance > 0.0 ==> NoDup(selected)
    ensures |selected| < |targets| ==>
      (forall c :: c in anchors ==> c in selected) && (forall c :: c in pool ==> c in selected)
  {
    var assign := AssignAnchors(anchors, hues, targets);
    var used;
    selected, used := FillSlots(sci, anchors, pool, targets, assign, minLabDistance);
    selected, used := BackfillAnchors(anchors, targets, selected, used);
    ghost var usedAnchors := used;
    ghost var withAnchors := selected;
    selected, used := BackfillPool(pool, selected, used, |targets|);
    assert |selected| < |targets| ==> usedAnchors <= used == Elems(selected);
  }

  /** The tail of the source: `color_order` of the selection, cut to the
      target size. */
  lemma OrderedPalette(adj: Hex -> Hex -> real, selected: seq<Hex>, targetSize: int)
    requires |selected| <= targetSize
    ensures |PyTake(GreedyOrder(adj, selected), targetSize)| <= targetSize
    ensures forall c :: c in PyTake(GreedyOrder(adj, selected), targetSize) ==> c in selected
    ensures NoDup(selected) ==>
      PyTake(GreedyOrder(adj, selected), targetSize) == GreedyOrder(adj, selected) &&
      NoDup(GreedyOrder(adj, selected)) &&
      |GreedyOrder(adj, selected)| == |selected| &&
      forall c :: c in selected ==> c in GreedyOrder(adj, selected)
  {
    var ordered := GreedyOrder(adj, selected);
    GreedyOrderElements(adj, selected);
    if NoDup(selected) {
      GreedyOrderPermutes(adj, selected);
      forall c | c in selected ensures c in ordered {
        assert c in multiset(selected);
      }
      assert ordered[..|ordered|] == ordered;
    }
  }

  /** `interpolate_colors_from_set8(base_set8, all_colors, target_size)`.
      A target no larger than the anchors returns the anchors cut to it.
      Otherwise the palette has at most `targetSize` colours, each an anchor
      or a catalogue colour; the only error is the filter ladder's, with no
      anchors. Under the distance axioms no colour repeats, and a palette
      short of `targetSize` holds every anchor and every pool colour. */
  method InterpolateColorsFromSet8(sci: ColorScience, anchors: seq<Hex>, all: seq<Hex>, targetSize: int)
      returns (r: Result<seq<Hex>>)
    ensures targetSize <= |anchors| ==> r == Ok(PyTake(anchors, targetSize))
    ensures targetSize > |anchors| ==> (r.Err? <==> TierPool(anchors, all, targetSize).Err?)
    ensures r.Err? ==> |anchors| == 0 && r.error == EmptySequence
    ensures targetSize > |anchors| && r.Ok? ==>
      |r.value| <= targetSize && forall c :: c in r.value ==> c in anchors || c in all
    ensures targetSize > |anchors| && r.Ok? && sci.Valid() ==>
      NoDup(r.value) &&
      (|r.value| == targetSize ||
       ((forall c :: c in anchors ==> c in r.value) &&
        (forall c :: c in TierPool(anchors, all, targetSize).value ==> c in r.value)))
  {
    if targetSize <= |anchors| {
      assert anchors[..|anchors|] == anchors;
      return Ok(if targetSize < |anchors| then PyTake(anchors, targetSize) else anchors);
    }
    var hues := BaseHues(anchors);
    var targets := TargetHues(targetSize);
    var tiers := SelectPool(anchors, all, targetSize);
    if tiers.Err? {
      return Err(tiers.error);
    }
    var pool := tiers.value;
    var minLabDistance := MinLabDistanceFor(targetSize);
    var selected := SelectColors(sci, anchors, hues, pool, targets, minLabDistance);
    var (minHueGap, minLabDistForOrder) := OrderThresholds(targetSize);
    var ordered := ColorOrder(sci, selected, minHueGap, minLabDistForOrder);
    r := Ok(PyTake(ordered, targetSize));
    OrderedPalette(Adjacency(sci, minHueGap), selected, targetSize);
  }
}
