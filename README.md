# ChineseColors palette builder, modelled in Dafny

`colors/ChineseColors.py` builds the palettes of the Chinese traditional
colours: a catalogue of named colours grouped by colour family, and palettes
of 16, 32, 64 or 128 colours. Each palette grows from the eight anchor
colours of `BASE_CHINESE_COLORS` (the ChineseSet8). This project models the
deterministic core of that pipeline and proves its structural guarantees:
subsequence, permutation, no repeats, length bounds, first-wins tie-breaks and
pairwise distance invariants.

Modules, one per part of the program:

- `Common`: the `Option`/`Result` wrappers, the two errors the model carries (a `ValueError` from `int(..., 16)`, and `min()` of an empty sequence), and the extended reals `-inf`/finite/`+inf` that the scores live in.
- `Seqs`: order-preserving list operations.
  - Append loops guarded by a predicate (`Filter`) or by a seen-set (`DedupBy`).
  - `list.remove`.
  - Python's stable `list.sort` with a key, as a stable insertion sort `SortBy`.
- `ColorSpace`:
  - `hex_to_rgb`, with its error path.
  - The `#RRGGBB` formatting.
  - `rgb_to_hsv` in exact real arithmetic.
  - The circular hue distance `min(d, 360 - d)`, factored out of the seven places that inline it (colors/ChineseColors.py:178, 265-266, 340-341, 457-458, 540-541, 572-573, 581-582).
  - The LAB view as an abstract `ColorScience` value.
- `Scan`: the strict-`>` arg-max loops, shared by `score_colors`' callers and `color_order`.
- `Filters`: `filter_vibrant_colors`, `filter_vibrant_colors_strict` and `limit_to_base_hue_families`.
- `Scoring`: `score_colors`.
- `Ordering`: `color_order`.
- `Interpolation`: `interpolate_colors_from_set8`, stage by stage.
- `Catalog`: the catalogue steps inlined in `main`.
  - Grouping in `category_order`.
  - `sort_colors_by_lab_improved`.
  - The `(hex, category)` de-duplication, then the hex de-duplication.
  - The L/chroma quality filter.
  - The greedy ΔE thinning.

Only colour arithmetic is abstract. `rgb_to_lab`, `calculate_chroma`, the CIE76
distance and `degrees(atan2(b, a))` are fields of a `ColorScience` value.
Its `Valid()` predicate is all the model assumes of the distance: it is
non-negative, symmetric and zero between equal colours. Contracts that need
it say so with `sci.Valid() ==>` or a `requires`.

The imperative parts are methods with loops, each proved equal to a
specification function:
- the filters;
- the arg-max loops;
- `color_order`'s `while remaining` loop;
- the slot loop, anchor backfill, in-place displacement and pool backfill of `interpolate_colors_from_set8`;
- the seen-set and thinning loops of `main`.

The properties are proved about those specification functions. The greedy
order of `color_order` is stated for an arbitrary score function
`Hex -> Hex -> real`. Its structural guarantees (permutation, start colour,
first-wins choice) hold whatever the score. `Ordering.Adjacency` supplies the
source's own score.

Three details of the code that the model keeps:
- The second tier of the candidate ladder (colors/ChineseColors.py:413) calls the strict filter. Its 15°–45° saturation rule therefore still applies there.
- The docstring of `color_order` (colors/ChineseColors.py:306) describes `min_lab_distance` as the minimum LAB distance between adjacent colours. The body (colors/ChineseColors.py:311-362) never reads it, so `Ordering.GreedyOrder` does not take it.
- The docstring of `interpolate_colors_from_set8` (colors/ChineseColors.py:382-383) says the result is sorted by hue position. Lines 607-613 instead return `color_order`'s greedy adjacency order cut to `target_size`, and the model returns that order.

## Model

| member | source | states |
|---|---|---|
| Common.BelowIsStrictOrder | colors/ChineseColors.py:495 | `>` between floats that may be `inf` or `-inf` is irreflexive, asymmetric, transitive and total on distinct values |
| ColorSpace.HexToRgb | colors/ChineseColors.py:49-52 | `hex_to_rgb`: strip the leading `#`s, parse the fields `[0:2]`, `[2:4]`, `[4:6]` in that order, and raise on the first that does not parse |
| ColorSpace.HexToRgbAccepts | colors/ChineseColors.py:49-52 | `hex_to_rgb` succeeds exactly on strings whose part after the leading `#`s has five hex digits and then either ends or has a sixth; otherwise it raises `ValueError` naming the first of the three fields, in the order red, green, blue, that `int(..., 16)` rejects |
| ColorSpace.StripHashesFacts | colors/ChineseColors.py:51 | `lstrip("#")` removes a prefix made only of `#` and leaves a string that does not start with `#` |
| ColorSpace.Slice | colors/ChineseColors.py:52 | the slice `s[i:i+2]` has at most two characters |
| ColorSpace.ParseHexField | colors/ChineseColors.py:52 | `int(f, 16)` on a field succeeds exactly when the field is one or two hex digits, with a value in 0..255 |
| ColorSpace.FieldAt | colors/ChineseColors.py:52 | a field at offset `i` parses exactly when its first character exists and is a digit, and so is its second if present |
| ColorSpace.ChannelToHex | colors/ChineseColors.py:838 | `f"{x:02X}"` is two upper-case hex digits |
| ColorSpace.RgbToHex | colors/ChineseColors.py:838 | `f"#{r:02X}{g:02X}{b:02X}"` is a canonical `#RRGGBB` string |
| ColorSpace.ChannelField | colors/ChineseColors.py:838 | parsing a formatted channel gives the channel back |
| ColorSpace.RgbToHexRoundTrip | colors/ChineseColors.py:49-52 | `hex_to_rgb` of the formatted colour is the colour: the three channels, each in 0..255 |
| ColorSpace.CanonicalHexRoundTrip | colors/ChineseColors.py:838 | every canonical `#RRGGBB` string parses, and formatting what it parses to gives the same string |
| ColorSpace.RgbOfParses | colors/ChineseColors.py:49-52 | the channels of a pipeline colour are what `hex_to_rgb` returns for it |
| ColorSpace.FloorMod6 | colors/ChineseColors.py:158 | Python's float `% 6` lies in [0, 6), and is `x` or `x + 6` on [-6, 6) |
| ColorSpace.Saturation | colors/ChineseColors.py:150-153 | S lies in [0, 1] and is 0 when max is 0 or max equals min |
| ColorSpace.RawHue | colors/ChineseColors.py:155-162 | the three hue branches give H in [0, 360), and H = 0 when max = min |
| ColorSpace.RgbToHsv | colors/ChineseColors.py:136-167 | H in [0, 360), S and V in [0, 1]; H and S are 0 for grey; V is 0 for black |
| ColorSpace.PureRedHsv | colors/ChineseColors.py:136-167 | `rgb_to_hsv((255, 0, 0)) == (0, 1, 1)` |
| ColorSpace.HueOf | colors/ChineseColors.py:136-167 | the hue of a colour lies in [0, 360) |
| ColorSpace.HsvOf | colors/ChineseColors.py:136-167 | `rgb_to_hsv(hex_to_rgb(h))` for a pipeline colour |
| ColorSpace.HueDistance | colors/ChineseColors.py:265-267 | `min(|a-b|, 360-|a-b|)` is at most 180 and at most `|a-b|`, and is non-negative for hues in [0, 360) |
| ColorSpace.HueDistanceSymmetric | colors/ChineseColors.py:265-267 | the hue distance is symmetric |
| ColorSpace.HueDistanceSelf | colors/ChineseColors.py:265-267 | the hue distance of a hue to itself is 0 |
| ColorSpace.HueDistanceWraps | colors/ChineseColors.py:340-342 | the distance wraps round the circle: 10° and 350° are 20° apart |
| ColorSpace.LabOf | colors/ChineseColors.py:99-103 | `rgb_to_lab(hex_to_rgb(h))`, through the abstract colour science |
| ColorSpace.LabDistance | colors/ChineseColors.py:112-133 | `calculate_lab_distance`: the CIE76 distance between the LAB values of two colours |
| ColorSpace.LabDistanceMetric | colors/ChineseColors.py:112-133 | under the distance axioms, `calculate_lab_distance` is non-negative, symmetric and 0 for equal colours |
| Seqs.Filter | colors/ChineseColors.py:208-219 | an append loop guarded by a predicate keeps exactly the elements passing it, never more than the input |
| Seqs.FilterSubseq | colors/ChineseColors.py:180-188 | such a loop keeps a subsequence of its input, in input order |
| Seqs.FilterMultiplicity | colors/ChineseColors.py:324 | each passing value keeps all its occurrences, each failing value none |
| Seqs.ExceptPermutes | colors/ChineseColors.py:323-324 | `[x] + [c for c in s if c != x]` is a permutation of a repeat-free `s` that holds `x` |
| Seqs.RemoveFirst | colors/ChineseColors.py:357 | `list.remove(x)` drops the first occurrence of `x` and keeps every other element in its order; the length drops by one and the multiset loses one `x` |
| Seqs.SortBy | colors/ChineseColors.py:645 | the key sort keeps the length |
| Seqs.SortByPermutes | colors/ChineseColors.py:645 | the key sort is a permutation of its input |
| Seqs.SortBySorted | colors/ChineseColors.py:645 | under a total preorder, the key sort returns a sorted list |
| Seqs.SortByStable | colors/ChineseColors.py:645 | the key sort is stable: elements with equal keys keep their input order |
| Seqs.KeySet | colors/ChineseColors.py:909-919 | the seen-set is the set of keys of the records seen |
| Seqs.DedupBy | colors/ChineseColors.py:909-919 | the seen-set loop keeps records with pairwise distinct keys and loses no key |
| Seqs.DedupSubseq | colors/ChineseColors.py:909-919 | the seen-set loop keeps a subsequence of its input |
| Seqs.DedupKeepsFirst | colors/ChineseColors.py:909-919 | every kept record is the first input record carrying its key |
| Seqs.SubseqDistinctKeys | colors/ChineseColors.py:963-994 | dropping records keeps keys distinct |
| Seqs.SubseqTrans | colors/ChineseColors.py:909-994 | a subsequence of a subsequence is a subsequence: the catalogue steps compose |
| Seqs.SubseqPairwise | colors/ChineseColors.py:893-994 | a relation holding of every ordered pair of a list still holds after elements are dropped |
| Seqs.DedupDistinct | colors/ChineseColors.py:1046-1052 | the seen-set loop returns its input unchanged when no key repeats |
| Scan.ScanBest | colors/ChineseColors.py:489-497 | the strict-`>` scan keeps its start or picks an eligible candidate that beats it, and ends with a score no eligible candidate beats |
| Scan.ScanBestFirst | colors/ChineseColors.py:495-497 | when the scan picks a candidate, every earlier eligible candidate scores strictly less: the first maximum wins |
| Scan.FirstMaxAbove | colors/ChineseColors.py:314-321 | from a floor, the scan keeps the start when nothing beats the floor, otherwise it picks the first candidate of maximal score |
| Scan.PickFirstMax | colors/ChineseColors.py:328-360 | the scan with a fallback returns a candidate or the fallback |
| Scan.PickFirstMaxIsFirstMax | colors/ChineseColors.py:351-360 | it returns the fallback when nothing beats the bound, otherwise the first candidate of maximal score |
| Scan.ScanFindsAboveFloor | colors/ChineseColors.py:532-547 | when every candidate beats the bound, the scan finds one whenever one is eligible |
| Scan.FindBest | colors/ChineseColors.py:489-497 | the loop computes `ScanBest` |
| Filters.FilterVibrantColors | colors/ChineseColors.py:191-219 | keeps, in order, exactly the colours with S ≥ `min_saturation` and V in [`min_value`, `max_value`] |
| Filters.FilterVibrantColorsStrict | colors/ChineseColors.py:222-243 | the same, and it also drops hues in [15, 45) with S < 0.75 |
| Filters.IsVibrant | colors/ChineseColors.py:208-219 | the test of `filter_vibrant_colors`: S at least `min_saturation` and V within [`min_value`, `max_value`] |
| Filters.IsVibrantStrict | colors/ChineseColors.py:222-243 | the test of `filter_vibrant_colors_strict`: the same, except that hues in [15, 45) also need S at least 0.75 |
| Filters.StrictIsSubfilter | colors/ChineseColors.py:222-243 | every colour the strict filter keeps is kept by the plain filter with the same thresholds |
| Filters.Hues | colors/ChineseColors.py:171-175 | `base_hues` holds the hue of each anchor, in order |
| Filters.BaseHues | colors/ChineseColors.py:171-175 | the loop computes `base_hues` |
| Filters.MinHueDistance | colors/ChineseColors.py:177-178 | `min_hue_distance(h)` is the hue distance to one anchor, and no anchor is nearer |
| Filters.MinHueDistanceWithin | colors/ChineseColors.py:177-185 | the nearest anchor is within `d` exactly when some anchor is |
| Filters.NearBaseHue | colors/ChineseColors.py:177-188 | the test of `limit_to_base_hue_families`: there are anchor hues, and the nearest is within `max_hue_diff` of the colour's hue |
| Filters.NearBaseHueFilter | colors/ChineseColors.py:180-188 | the colours kept are exactly the input colours within `max_hue_diff` of some anchor hue |
| Filters.BaseHueFamilies | colors/ChineseColors.py:170-188 | what `limit_to_base_hue_families` returns: `min()`'s error with no anchors and some colour, otherwise the colours passing the test, in order |
| Filters.LimitToBaseHueFamilies | colors/ChineseColors.py:170-188 | returns that filter, or raises `min()`'s error exactly when there are no anchors and at least one colour |
| Scoring.MinOf | colors/ChineseColors.py:269-275 | the running minimum is `+inf` exactly on the empty list, and otherwise one of the values and no larger than any |
| Scoring.MinLabDistanceTo | colors/ChineseColors.py:269-275 | `min_lab_dist` is `+inf` exactly with nothing selected, and otherwise the LAB distance to one selected colour and no larger than any |
| Scoring.BrightnessBonus | colors/ChineseColors.py:280-284 | the value bonus is 5 exactly inside [0.60, 0.80], and lies in [-21, 5] |
| Scoring.SaturationBonus | colors/ChineseColors.py:286-290 | the saturation bonus is 5 exactly inside [0.55, 0.85], and lies in [-14, 5] |
| Scoring.ScoreColors | colors/ChineseColors.py:246-298 | the score is exactly -1 when the minimum distance is below `min_lab_distance`; it is `+inf` exactly with nothing selected; a non-negative score means every selected colour is far enough; otherwise the score is within the bonus bounds of `-hue_distance + (min_lab_dist - min_lab_distance) * 0.5` |
| Scoring.ChosenIsRejected | colors/ChineseColors.py:277-278 | under the distance axioms and a positive minimum, an already selected colour scores -1 |
| Scoring.EmptySelectionNeverRejects | colors/ChineseColors.py:269-278 | with nothing selected no candidate is rejected |
| Ordering.SaturationOf | colors/ChineseColors.py:317-319 | the saturation compared lies in [0, 1] |
| Ordering.StartOf | colors/ChineseColors.py:314-321 | the start colour is one of the colours |
| Ordering.StartIsFirstMostSaturated | colors/ChineseColors.py:314-321 | the start has maximal saturation; it is `colors[0]` when all saturations are 0, and otherwise the first colour of maximal saturation |
| Ordering.AdjacencyScore | colors/ChineseColors.py:340-349 | the score is half the LAB distance below `min_hue_gap`, and at least the LAB distance otherwise; it is non-negative under the distance axioms |
| Ordering.Adjacency | colors/ChineseColors.py:340-349 | the successor score of `color_order` as a curried function of the last colour and the candidate |
| Ordering.NextOf | colors/ChineseColors.py:326-360 | the next colour is a remaining colour |
| Ordering.NextIsFirstBest | colors/ChineseColors.py:351-360 | the next colour is `remaining[0]` when nothing beats -1, otherwise the first remaining colour of highest score |
| Ordering.GreedyRun | colors/ChineseColors.py:326-360 | the loop's output has one colour per ordered and remaining colour |
| Ordering.GreedyRunFacts | colors/ChineseColors.py:326-360 | the loop only appends, and appends every remaining colour once |
| Ordering.GreedyOrder | colors/ChineseColors.py:301-362 | what `color_order` returns: the colours themselves when there is at most one, otherwise the loop from the start colour over the other colours |
| Ordering.GreedyOrderPermutes | colors/ChineseColors.py:311-362 | `color_order` returns the start plus every other colour; for a list without repeats it is a permutation of the same length without repeats |
| Ordering.GreedyOrderElements | colors/ChineseColors.py:311-362 | every returned colour was given |
| Ordering.GreedyOrderStart | colors/ChineseColors.py:323 | the order starts at the start colour |
| Ordering.ColorOrder | colors/ChineseColors.py:301-362 | the method computes `GreedyOrder` for the scores `Adjacency(sci, min_hue_gap)`; the result does not depend on `min_lab_distance` |
| Interpolation.PyTake | colors/ChineseColors.py:386 | `s[:n]` is the prefix of Python's length for every integer `n` |
| Interpolation.TargetHues | colors/ChineseColors.py:397-398 | `target_size` hues from 0 in steps of `360 / target_size`, all in [0, 360) |
| Interpolation.MinLabDistanceFor | colors/ChineseColors.py:438-445 | `d_min` lies in [15, 25]; it is 25 up to size 16 and 15 above 64 (the body gives 20 and 18 to the two middle bands) |
| Interpolation.OrderThresholds | colors/ChineseColors.py:594-605 | the ordering gap lies in [30, 50], and the ordering distance equals `d_min` |
| Interpolation.Tier | colors/ChineseColors.py:403-410 | a tier keeps only available colours that pass its filter; it fails only with no anchors |
| Interpolation.TierPool | colors/ChineseColors.py:400-427 | the pool holds only non-anchor colours of `all_colors`; the ladder fails only with no anchors, with `min()`'s error |
| Interpolation.SelectPool | colors/ChineseColors.py:400-427 | the three tiers, in order, each replacing the pool when the previous is short, compute `TierPool` |
| Interpolation.NearestSlotUnique | colors/ChineseColors.py:454-462 | the nearest target slot of a hue is unique |
| Interpolation.NearestSlot | colors/ChineseColors.py:454-462 | the loop returns the lowest-index slot of least hue distance |
| Interpolation.Nearest | colors/ChineseColors.py:454-462 | the relation "slot `k` is the nearest slot of a hue", at most one slot per hue |
| Interpolation.FirstClaims | colors/ChineseColors.py:453-466 | every pre-assigned slot holds the first of the anchors so far whose nearest slot it is |
| Interpolation.AssignAnchors | colors/ChineseColors.py:453-466 | every pre-assigned slot is a valid slot holding an anchor, the first anchor to claim a slot keeps it, and every anchor's nearest slot is taken |
| Interpolation.SlotChoice | colors/ChineseColors.py:468-549 | a slot takes its pre-assigned anchor or an unused anchor or pool colour; it stays empty only when the whole pool is used |
| Interpolation.SlotScans | colors/ChineseColors.py:489-549 | the anchor scan, the pool scan, the relaxed pool scan and the nearest-hue fallback pick an unused anchor or pool colour; they find none only when the pool is used up |
| Interpolation.Fit | colors/ChineseColors.py:489-530 | the score `score_colors` gives a candidate for a slot, as a scan score |
| Interpolation.NearestFallback | colors/ChineseColors.py:532-549 | the nearest-hue fallback finds a colour whenever an unused pool colour remains |
| Interpolation.SlotChoiceFresh | colors/ChineseColors.py:468-549 | under the distance axioms, a slot never takes a colour already selected |
| Interpolation.ChooseForSlot | colors/ChineseColors.py:468-549 | one slot of the loop computes `SlotChoice` |
| Interpolation.FillSlots | colors/ChineseColors.py:468-549 | at most one colour per slot, `used_colors` is the set selected, every colour is an anchor or from the pool, no repeats under the distance axioms, and a short result means the pool is used up |
| Interpolation.WorstSlot | colors/ChineseColors.py:561-577 | `worst_dist` is the largest misfit of a non-anchor slot, at the first such slot, or 0 at index 0 when there is none |
| Interpolation.Misfit | colors/ChineseColors.py:568-574 | how far the colour of a slot is from the slot's target hue |
| Interpolation.DisplaceWorst | colors/ChineseColors.py:557-586 | the length never changes; an anchor replaces only the first worst non-anchor slot, and only when it fits that slot strictly better |
| Interpolation.BackfillAnchors | colors/ChineseColors.py:551-586 | the anchor pass keeps a list of at most `target_size` colours, adds only anchors, keeps every displaced colour in `used_colors`, keeps no-repeats, and a short result holds every anchor |
| Interpolation.BackfillPool | colors/ChineseColors.py:588-592 | the pool pass only appends unused pool colours up to `target_size`, changes nothing at full size, keeps no-repeats, and a short result means the pool is used up |
| Interpolation.SelectColors | colors/ChineseColors.py:447-592 | the selection has at most `target_size` colours, each an anchor or from the pool, with no repeats under the distance axioms; a short selection holds every anchor and every pool colour |
| Interpolation.OrderedPalette | colors/ChineseColors.py:607-613 | ordering and cutting to `target_size` keeps only selected colours; without repeats it keeps all of them, still without repeats |
| Interpolation.BaseChineseColorsDistinct | colors/ChineseColors.py:24-33 | the constant `BaseChineseColors` is the ChineseSet8, the eight literals of `BASE_CHINESE_COLORS` in order; they are eight distinct colours |
| Interpolation.InterpolateColorsFromSet8 | colors/ChineseColors.py:365-613 | a target of at most the anchor count returns the anchors cut to it; otherwise the palette has at most `target_size` colours, each an anchor or a catalogue colour; the only error is `min()`'s, with no anchors; under the distance axioms no colour repeats, and a short palette holds every anchor and pool colour |
| Catalog.Rank | colors/ChineseColors.py:875-884 | each category has its position in `category_order` |
| Catalog.CategoryOrderComplete | colors/ChineseColors.py:875-884 | `category_order` lists every category once |
| Catalog.NoRemainingCategories | colors/ChineseColors.py:901-906 | `remaining_cats` is always empty |
| Catalog.HueAngle | colors/ChineseColors.py:639-641 | `degrees(atan2(b, a))`, plus 360 when negative |
| Catalog.LabKey | colors/ChineseColors.py:630-645 | the sort key `(L, -chroma, hue_angle)` of a record |
| Catalog.KeyLe | colors/ChineseColors.py:645 | Python's `<=` on a triple of floats: lexicographic |
| Catalog.ByLab | colors/ChineseColors.py:645 | the order of `lab_data.sort`: compare the keys of two records |
| Catalog.ByLabTotalPreorder | colors/ChineseColors.py:645 | tuple comparison on `(L, -chroma, hue_angle)` is a total preorder |
| Catalog.SortColorsByLab | colors/ChineseColors.py:616-647 | what `sort_colors_by_lab_improved` returns: the rows as they are when there is at most one, otherwise their stable sort by the key |
| Catalog.SortColorsByLabSorts | colors/ChineseColors.py:616-647 | `sort_colors_by_lab_improved` returns a permutation of the rows, sorted by the key, and so from dark to light |
| Catalog.SortColorsByLabStable | colors/ChineseColors.py:645 | rows with equal keys keep their input order |
| Catalog.SortRowsByLab | colors/ChineseColors.py:616-647 | the method computes the sort, with the return-as-is for at most one row |
| Catalog.GroupRows | colors/ChineseColors.py:886-891 | `category_rows` has a key exactly for each present category, mapping to its records in input order |
| Catalog.CategoryRows | colors/ChineseColors.py:886-891 | `category_rows[cat]`: the records of one category, in input order |
| Catalog.Grouped | colors/ChineseColors.py:893-899 | the LAB-sorted blocks of the given categories, one after the other |
| Catalog.ByCategory | colors/ChineseColors.py:875-906 | `sorted_colors` after the category step: the blocks of every category, in `category_order` |
| Catalog.GroupedMultiplicity | colors/ChineseColors.py:893-899 | the sorted blocks hold every record of the listed categories as often as it occurs, and nothing else |
| Catalog.BlockFacts | colors/ChineseColors.py:895-899 | each block holds one category, sorted by LAB |
| Catalog.GroupedOrdered | colors/ChineseColors.py:893-899 | the blocks come in `category_order` |
| Catalog.ByCategoryFacts | colors/ChineseColors.py:875-906 | the category step permutes the records, block by block in `category_order`, each block sorted by LAB |
| Catalog.SortByCategory | colors/ChineseColors.py:875-906 | the method computes the category step |
| Catalog.UniqueRecords | colors/ChineseColors.py:909-943 | the records left after the `(hex, category)` de-duplication and then the hex de-duplication |
| Catalog.DedupRecords | colors/ChineseColors.py:909-919 | the seen-set loop keeps a subsequence with distinct keys, loses no key, and keeps only the first record of each key |
| Catalog.HexesOfPairs | colors/ChineseColors.py:909-943 | the hexes of two lists agree as far as their `(hex, category)` pairs do |
| Catalog.UniqueRecordsFacts | colors/ChineseColors.py:938-943 | after both de-duplications every input hex is there once, on an input record |
| Catalog.GoodQuality | colors/ChineseColors.py:963-968 | the quality test: lightness within [10, 90] and chroma at least 5 |
| Catalog.QualityFilter | colors/ChineseColors.py:963-968 | keeps, in order, exactly the records with lightness in [10, 90] and chroma at least 5 |
| Catalog.DeltaE | colors/ChineseColors.py:972-976 | `delta_e_76` between the LAB values of two records |
| Catalog.TooSimilar | colors/ChineseColors.py:986-991 | some kept record is closer than `min_distance` |
| Catalog.Thinned | colors/ChineseColors.py:978-994 | what the thinning loop keeps: each record in turn, unless it is too similar to one kept already |
| Catalog.IsTooSimilar | colors/ChineseColors.py:986-991 | `too_similar` holds exactly when some kept record is closer than 5.0 |
| Catalog.Thin | colors/ChineseColors.py:978-994 | the thinning loop computes `Thinned` |
| Catalog.ThinnedSubseq | colors/ChineseColors.py:978-994 | thinning keeps a subsequence that starts with the first record |
| Catalog.ThinnedKeepsDistance | colors/ChineseColors.py:978-994 | each kept record is at least 5.0 from every record kept before it |
| Catalog.ThinnedCovers | colors/ChineseColors.py:978-994 | every dropped record is closer than 5.0 to some kept record |
| Catalog.ThinnedApart | colors/ChineseColors.py:978-994 | under the distance axioms the kept records are pairwise at least 5.0 apart |
| Catalog.ThinnedQualityFacts | colors/ChineseColors.py:963-994 | filtered and thinned records pass the quality test and keep hexes distinct |
| Catalog.BuildCatalog | colors/ChineseColors.py:875-1008 | the catalogue steps of `main`, in order, compute `CatalogOf` |
| Catalog.CatalogOf | colors/ChineseColors.py:875-1008 | the records `main` numbers and writes: the de-duplicated records, then filtered and thinned when filtering is on |
| Catalog.CatalogFacts | colors/ChineseColors.py:1003-1008 | every catalogue record is an input record with no hex twice; without filtering every input hex appears; with filtering every record passes the quality test |
| Catalog.CatalogInCategoryOrder | colors/ChineseColors.py:875-1008 | the catalogue is a subsequence of the category step's output, so it still comes block by block in `category_order`, each block sorted by LAB |
| Catalog.Hexes | colors/ChineseColors.py:1046 | the hexes of some records, one per record |
| Catalog.MainColorList | colors/ChineseColors.py:1046 | `main_color_list`: the hexes of the catalogue, in catalogue order |
| Catalog.MainColorListUnique | colors/ChineseColors.py:1046-1052 | `main_color_list` has no repeats, so the seen-set loop that builds `unique_main_colors` returns it unchanged |

## Left out

- Excel ingestion is not modelled: reading the sheets with pandas, the column checks, name cleaning and skipped-row bookkeeping (colors/ChineseColors.py:669-857). It is I/O on an external library. The catalogue steps start from the list of records it produces.
- `chinese_to_pinyin` and the pinyin checks are not modelled. They are foreign library calls whose output is only diagnostic; record names are opaque strings.
- CSV writing, R-script generation, running `Rscript`, file deletion and the `argparse` surface are not modelled. They are I/O and process plumbing.
- Print-only diagnostics are not modelled: the hue-name bucketing and spacing statistics, and every `print`.
- Dead locals that never affect output are not modelled: `base_hue_map`, `base_colors_assigned`, `available_colors_by_hue`, `skipped_rows`.
- The colour science is abstract. `rgb_to_xyz`, `xyz_to_lab`, `calculate_chroma`, the square root of the CIE76 distance and `atan2` are the functions of a `ColorScience` value. Only non-negativity, symmetry and zero self-distance are assumed.
- Floating point is modelled as exact rationals.
  - Rounding is not modelled.
  - `float("inf")` and `float("-inf")` are `PosInf` and `NegInf`.
- `ColorSpace.ParseHexField` models `int(f, 16)` only for fields of ASCII hex digits. It does not model the whitespace, sign or Unicode-digit forms Python also accepts; a field with those is treated as an error.
- Colours are canonical `#RRGGBB` strings (type `ColorSpace.Hex`). Every colour the program compares comes from `BASE_CHINESE_COLORS` or from the formatting at colors/ChineseColors.py:838. `hex_to_rgb` itself is modelled on all strings. Because a `Hex` is never empty, the `ValueError` that `sort_colors_by_lab_improved` raises for a row without a hex code (colors/ChineseColors.py:631-632) cannot occur in the model and is not modelled.
- Catalogue categories are the eight values of `category_map` (colors/ChineseColors.py:745-754), because rows with other categories are skipped at colors/ChineseColors.py:833-835. The `sorted(remaining_cats)` loop therefore never runs; `Catalog.NoRemainingCategories` proves it has nothing to do.
- The `num` field that `main` assigns after the catalogue steps (position plus one) is not modelled.
- Default arguments are not modelled; every parameter is explicit.
- `color_order` tests `if best_next:`, the truthiness of a hex string. Pipeline colours are never empty, so the model tests for `None`.
- `Interpolation.InterpolateColorsFromSet8` takes the anchors as a parameter, as the source does; `Interpolation.BaseChineseColors` is the constant `main` passes.
- `interpolate_colors_from_set8` compares against both `target_size` and `len(target_hue_positions)`. The two are equal, and the model uses one `targets` sequence of that length.

## Findings

No defect in the code was found. The two docstrings that disagree with the code (`min_lab_distance` of `color_order`, and the "sorted by hue position" result of `interpolate_colors_from_set8`) are described at the top of this file; the model follows the code in both.
