/** The catalog steps of `main` in colors/ChineseColors.py: group the colour
    records by category in the canonical order, sort each group by LAB
    (`sort_colors_by_lab_improved`), drop repeated (hex, category) pairs, and
    then either drop repeated hexes or run the quality filter and the greedy
    Delta E thinning. */
module Catalog {
  import opened Common
  import opened Seqs
  import opened ColorSpace

  /** The eight values of `category_map`; a row with any other category is
      skipped before the catalog steps, so these are all a record can carry. */
  datatype Category = Blue | Cyan | Green | Yellow | Orange | Red | Purple | GrayBrown

  /** `category_order`. */
  const CategoryOrder: seq<Category> := [Blue, Cyan, Green, Yellow, Orange, Red, Purple, GrayBrown]

  /** The position of a category in `category_order`. */
  function Rank(c: Category): (k: nat)
    ensures k < |CategoryOrder| && CategoryOrder[k] == c
  {
    match c
    case Blue => 0
    case Cyan => 1
    case Green => 2
    case Yellow => 3
    case Orange => 4
    case Red => 5
    case Purple => 6
    case GrayBrown => 7
  }

  /** Every category is in `category_order`, once: `remaining_cats` is empty. */
  lemma CategoryOrderComplete()
    ensures forall c: Category :: c in CategoryOrder
    ensures NoDup(CategoryOrder)
    ensures forall k :: 0 <= k < |CategoryOrder| ==> Rank(CategoryOrder[k]) == k
  {
    forall c: Category ensures c in CategoryOrder {
      assert CategoryOrder[Rank(c)] == c;
    }
  }

  /** `set(category_rows.keys()) - set(category_order)` is always empty. */
  lemma NoRemainingCategories(keys: set<Category>)
    ensures keys - Elems(CategoryOrder) == {}
  {
    CategoryOrderComplete();
  }

  /** One entry of `colors_list`; `hex` comes from the `#RRGGBB` formatting. */
  datatype ColorRecord = ColorRecord(
    name: string, nameCh: string, rgb: string, hex: Hex, category: Category, categoryCh: string)

  // ---------------------------------------------------------------------
  // sort_colors_by_lab_improved

  /** The hue angle `degrees(atan2(b, a))`, moved into [0, 360) when negative. */
  function HueAngle(sci: ColorScience, lab: Lab): real {
    var angle := sci.atan2Degrees(lab);
    if angle < 0.0 then angle + 360.0 else angle
  }

  /** The sort key `(L, -chroma, hue_angle)`. */
  function LabKey(sci: ColorScience, c: ColorRecord): (real, real, real) {
    var lab := LabOf(sci, c.hex);
    (lab.l, -sci.chroma(lab), HueAngle(sci, lab))
  }

  /** Python's `<=` on a tuple of three floats: lexicographic. */
  predicate KeyLe(x: (real, real, real), y: (real, real, real)) {
    x.0 < y.0 || (x.0 == y.0 && (x.1 < y.1 || (x.1 == y.1 && x.2 <= y.2)))
  }

  function ByLab(sci: ColorScience): (ColorRecord, ColorRecord) -> bool {
    (x: ColorRecord, y: ColorRecord) => KeyLe(LabKey(sci, x), LabKey(sci, y))
  }

  lemma ByLabTotalPreorder(sci: ColorScience)
    ensures TotalPreorder(ByLab(sci))
  {
    forall x: ColorRecord, y: ColorRecord ensures ByLab(sci)(x, y) || ByLab(sci)(y, x) {
      assert KeyLe(LabKey(sci, x), LabKey(sci, y)) || KeyLe(LabKey(sci, y), LabKey(sci, x));
    }
    forall x: ColorRecord, y: ColorRecord, z: ColorRecord | ByLab(sci)(x, y) && ByLab(sci)(y, z)
      ensures ByLab(sci)(x, z)
    {
      assert KeyLe(LabKey(sci, x), LabKey(sci, z));
    }
  }

  /** What `sort_colors_by_lab_improved` returns: the rows themselves when
      there is at most one, otherwise the stable key sort. */
  function SortColorsByLab(sci: ColorScience, rows: seq<ColorRecord>): seq<ColorRecord> {
    if |rows| <= 1 then rows else SortBy(rows, ByLab(sci))
  }

  /** The result is sorted by the key, is a permutation of the rows, and, in
      particular, runs from dark to light. */
  lemma SortColorsByLabSorts(sci: ColorScience, rows: seq<ColorRecord>)
    ensures SortedBy(SortColorsByLab(sci, rows), ByLab(sci))
    ensures multiset(SortColorsByLab(sci, rows)) == multiset(rows)
    ensures forall i, j :: 0 <= i < j < |rows| ==>
      LabOf(sci, SortColorsByLab(sci, rows)[i].hex).l <= LabOf(sci, SortColorsByLab(sci, rows)[j].hex).l
  {
    var r := SortColorsByLab(sci, rows);
    if |rows| > 1 {
      ByLabTotalPreorder(sci);
      SortBySorted(rows, ByLab(sci));
      SortByPermutes(rows, ByLab(sci));
    }
    forall i, j | 0 <= i < j < |rows| ensures LabOf(sci, r[i].hex).l <= LabOf(sci, r[j].hex).l {
      assert ByLab(sci)(r[i], r[j]);
    }
  }

  /** Python's sort is stable: rows with equal keys keep their order. */
  lemma SortColorsByLabStable(sci: ColorScience, rows: seq<ColorRecord>, e: ColorRecord)
    ensures Filter(SortColorsByLab(sci, rows), TieClass(ByLab(sci), e)) == Filter(rows, TieClass(ByLab(sci), e))
  {
    if |rows| > 1 {
      ByLabTotalPreorder(sci);
      SortByStable(rows, ByLab(sci), e);
    }
  }

  /** `sort_colors_by_lab_improved`. An empty hex raises `ValueError` in the
      source; a `Hex` is never empty. */
  method SortRowsByLab(sci: ColorScience, rows: seq<ColorRecord>) returns (sorted: seq<ColorRecord>)
    ensures sorted == SortColorsByLab(sci, rows)
    ensures SortedBy(sorted, ByLab(sci)) && multiset(sorted) == multiset(rows)
  {
    SortColorsByLabSorts(sci, rows);
    if |rows| <= 1 {
      return rows;
    }
    sorted := SortBy(rows, ByLab(sci));
  }

  // ---------------------------------------------------------------------
  // Grouping by category

  function InCategory(cat: Category): ColorRecord -> bool {
    (c: ColorRecord) => c.category == cat
  }

  /** `category_rows[cat]`: the records of one category, in input order. */
  function CategoryRows(colors: seq<ColorRecord>, cat: Category): seq<ColorRecord> {
    Filter(colors, InCategory(cat))
  }

  /** The sorted blocks of the categories `cats`, one after the other. */
  function Grouped(sci: ColorScience, colors: seq<ColorRecord>, cats: seq<Category>): seq<ColorRecord> {
    if cats == [] then []
    else Grouped(sci, colors, cats[..|cats| - 1]) + SortColorsByLab(sci, CategoryRows(colors, cats[|cats| - 1]))
  }

  /** What the category step leaves in `sorted_colors`. */
  function ByCategory(sci: ColorScience, colors: seq<ColorRecord>): seq<ColorRecord> {
    Grouped(sci, colors, CategoryOrder)
  }

  /** The blocks of distinct categories hold every record of those
      categories, as often as it occurs, and nothing else. */
  lemma {:induction false} GroupedMultiplicity(sci: ColorScience, colors: seq<ColorRecord>, cats: seq<Category>, x: ColorRecord)
    requires NoDup(cats)
    ensures multiset(Grouped(sci, colors, cats))[x] == if x.category in cats then multiset(colors)[x] else 0
    decreases |cats|
  {
    if cats != [] {
      var init, cat := cats[..|cats| - 1], cats[|cats| - 1];
      assert NoDup(init);
      assert cats == init + [cat];
      GroupedMultiplicity(sci, colors, init, x);
      SortColorsByLabSorts(sci, CategoryRows(colors, cat));
      FilterMultiplicity(colors, InCategory(cat), x);
    }
  }

  /** Records come block by block in `category_order`, each block sorted by LAB. */
  predicate CategoryOrdered(sci: ColorScience, g: seq<ColorRecord>) {
    forall i, j :: 0 <= i < j < |g| ==>
      Rank(g[i].category) < Rank(g[j].category) ||
      (g[i].category == g[j].category && ByLab(sci)(g[i], g[j]))
  }

  predicate RanksBelow(g: seq<ColorRecord>, n: nat) {
    forall i :: 0 <= i < |g| ==> Rank(g[i].category) < n
  }

  /** The sorted block of one category holds records of that category only. */
  lemma BlockFacts(sci: ColorScience, colors: seq<ColorRecord>, cat: Category)
    ensures forall k :: 0 <= k < |SortColorsByLab(sci, CategoryRows(colors, cat))| ==>
      SortColorsByLab(sci, CategoryRows(colors, cat))[k].category == cat
    ensures SortedBy(SortColorsByLab(sci, CategoryRows(colors, cat)), ByLab(sci))
  {
    var rows := CategoryRows(colors, cat);
    var block := SortColorsByLab(sci, rows);
    SortColorsByLabSorts(sci, rows);
    forall k | 0 <= k < |block| ensures block[k].category == cat {
      assert block[k] in multiset(rows);
      assert block[k] in rows;
    }
  }

  /** The categories up to `n` are grouped in category order, and sorted by LAB
      inside their block. */
  lemma {:induction false} GroupedOrdered(sci: ColorScience, colors: seq<ColorRecord>, n: nat)
    requires n <= |CategoryOrder|
    ensures RanksBelow(Grouped(sci, colors, CategoryOrder[..n]), n)
    ensures CategoryOrdered(sci, Grouped(sci, colors, CategoryOrder[..n]))
    decreases n
  {
    if n > 0 {
      var cat := CategoryOrder[n - 1];
      assert CategoryOrder[..n][..n - 1] == CategoryOrder[..n - 1];
      GroupedOrdered(sci, colors, n - 1);
      CategoryOrderComplete();
      BlockFacts(sci, colors, cat);
      var g0 := Grouped(sci, colors, CategoryOrder[..n - 1]);
      var block := SortColorsByLab(sci, CategoryRows(colors, cat));
      assert Grouped(sci, colors, CategoryOrder[..n]) == g0 + block;
      AppendBlock(sci, g0, block, cat);
    }
  }

  /** Appending a LAB-sorted block of a category ranked after everything so
      far keeps the records in category order. */
  lemma AppendBlock(sci: ColorScience, g0: seq<ColorRecord>, block: seq<ColorRecord>, cat: Category)
    requires CategoryOrdered(sci, g0) && RanksBelow(g0, Rank(cat))
    requires forall k :: 0 <= k < |block| ==> block[k].category == cat
    requires SortedBy(block, ByLab(sci))
    ensures CategoryOrdered(sci, g0 + block) && RanksBelow(g0 + block, Rank(cat) + 1)
  {
    var g := g0 + block;
    forall i, j | 0 <= i < j < |g| ensures
      Rank(g[i].category) < Rank(g[j].category) ||
      (g[i].category == g[j].category && ByLab(sci)(g[i], g[j]))
    {
      if j < |g0| {
        assert g[i] == g0[i] && g[j] == g0[j];
      } else if i < |g0| {
        assert g[i] == g0[i] && g[j] == block[j - |g0|];
      } else {
        assert g[i] == block[i - |g0|] && g[j] == block[j - |g0|];
      }
    }
  }

  /** The category step permutes the records; they come out block by block
      in `category_order`, each block sorted by LAB. */
  lemma ByCategoryFacts(sci: ColorScience, colors: seq<ColorRecord>)
    ensures multiset(ByCategory(sci, colors)) == multiset(colors)
    ensures CategoryOrdered(sci, ByCategory(sci, colors))
  {
    CategoryOrderComplete();
    forall x ensures multiset(ByCategory(sci, colors))[x] == multiset(colors)[x] {
      GroupedMultiplicity(sci, colors, CategoryOrder, x);
    }
    GroupedOrdered(sci, colors, |CategoryOrder|);
    assert CategoryOrder[..|CategoryOrder|] == CategoryOrder;
  }

  /** The loop that builds `category_rows`: a category is a key once one of
      its records has been seen, and maps to its records in input order. */
  method GroupRows(colors: seq<ColorRecord>) returns (categoryRows: map<Category, seq<ColorRecord>>)
    ensures forall c :: c in categoryRows ==> categoryRows[c] == CategoryRows(colors, c)
    ensures forall c :: c in categoryRows <==> CategoryRows(colors, c) != []
  {
    categoryRows := map[];
    for i := 0 to |colors|
      invariant forall c :: c in categoryRows ==> categoryRows[c] == CategoryRows(colors[..i], c)
      invariant forall c :: c in categoryRows <==> CategoryRows(colors[..i], c) != []
    {
      var cat := colors[i].category;
      TakeSnoc(colors, i);
      forall c ensures CategoryRows(colors[..i + 1], c) ==
          CategoryRows(colors[..i], c) + (if c == cat then [colors[i]] else []) {
        FilterAppendOne(colors[..i], InCategory(c), colors[i]);
      }
      if cat !in categoryRows {
        categoryRows := categoryRows[cat := []];
      }
      categoryRows := categoryRows[cat := categoryRows[cat] + [colors[i]]];
    }
    assert colors[..|colors|] == colors;
  }

  lemma GroupedSnoc(sci: ColorScience, colors: seq<ColorRecord>, cats: seq<Category>, j: nat)
    requires j < |cats|
    ensures Grouped(sci, colors, cats[..j + 1]) ==
      Grouped(sci, colors, cats[..j]) + SortColorsByLab(sci, CategoryRows(colors, cats[j]))
  {
    var prefix := cats[..j + 1];
    assert prefix[..|prefix| - 1] == cats[..j] && prefix[|prefix| - 1] == cats[j];
  }

  /** The category step of `main`: extend `sorted_colors` with the sorted rows
      of each present category, in `category_order`. */
  method SortByCategory(sci: ColorScience, colors: seq<ColorRecord>) returns (sorted: seq<ColorRecord>)
    ensures sorted == ByCategory(sci, colors)
  {
    var categoryRows := GroupRows(colors);
    sorted := [];
    for j := 0 to |CategoryOrder|
      invariant sorted == Grouped(sci, colors, CategoryOrder[..j])
    {
      var cat := CategoryOrder[j];
      GroupedSnoc(sci, colors, CategoryOrder, j);
      if cat in categoryRows {
        var catRowsSorted := SortRowsByLab(sci, categoryRows[cat]);
        sorted := sorted + catRowsSorted;
      }
    }
    assert CategoryOrder[..|CategoryOrder|] == CategoryOrder;
    // The `remaining_cats` loop has nothing to do (`NoRemainingCategories`).
  }

  // ---------------------------------------------------------------------
  // De-duplication

  function HexCategoryKey(): ColorRecord -> (Hex, Category) {
    (c: ColorRecord) => (c.hex, c.category)
  }

  function HexKey(): ColorRecord -> Hex {
    (c: ColorRecord) => c.hex
  }

  /** The seen-set loops of `main`: keep a record only if no earlier record
      had its key. Used with the (hex, category) pair and with the hex. */
  method DedupRecords<K(==)>(colors: seq<ColorRecord>, key: ColorRecord -> K) returns (unique: seq<ColorRecord>)
    ensures unique == DedupBy(colors, key)
    ensures IsSubseq(unique, colors)
    ensures DistinctKeys(unique, key)
    ensures KeySet(unique, key) == KeySet(colors, key)
    ensures forall i :: 0 <= i < |unique| ==> exists k :: FirstWithKey(colors, key, k) && colors[k] == unique[i]
  {
    var seen: set<K> := {};
    unique := [];
    for i := 0 to |colors|
      invariant unique == DedupBy(colors[..i], key)
      invariant seen == KeySet(colors[..i], key)
    {
      TakeSnoc(colors, i);
      DedupAppendOne(colors[..i], key, colors[i]);
      KeySetAppend(colors[..i], colors[i], key);
      var k := key(colors[i]);
      if k !in seen {
        seen := seen + {k};
        unique := unique + [colors[i]];
      }
    }
    assert colors[..|colors|] == colors;
    DedupSubseq(colors, key);
    forall i | 0 <= i < |unique| ensures exists k :: FirstWithKey(colors, key, k) && colors[k] == unique[i] {
      DedupKeepsFirst(colors, key, i);
    }
  }

  /** The hexes of two lists agree as far as their (hex, category) pairs do. */
  lemma HexesOfPairs(a: seq<ColorRecord>, b: seq<ColorRecord>)
    requires KeySet(a, HexCategoryKey()) <= KeySet(b, HexCategoryKey())
    ensures KeySet(a, HexKey()) <= KeySet(b, HexKey())
  {
    forall h | h in KeySet(a, HexKey()) ensures h in KeySet(b, HexKey()) {
      var i :| 0 <= i < |a| && a[i].hex == h;
      assert HexCategoryKey()(a[i]) in KeySet(b, HexCategoryKey());
      var j :| 0 <= j < |b| && HexCategoryKey()(b[j]) == HexCategoryKey()(a[i]);
      assert HexKey()(b[j]) == h;
    }
  }

  // ---------------------------------------------------------------------
  // Quality filter and thinning

  /** The quality test: lightness within [10, 90] and chroma at least 5. */
  predicate GoodQuality(sci: ColorScience, c: ColorRecord) {
    var lab := LabOf(sci, c.hex);
    10.0 <= lab.l <= 90.0 && sci.chroma(lab) >= 5.0
  }

  function Quality(sci: ColorScience): ColorRecord -> bool {
    (c: ColorRecord) => GoodQuality(sci, c)
  }

  /** The quality-filter loop. */
  method QualityFilter(sci: ColorScience, colors: seq<ColorRecord>) returns (filtered: seq<ColorRecord>)
    ensures filtered == Filter(colors, Quality(sci))
    ensures IsSubseq(filtered, colors)
    ensures forall c :: c in filtered <==> c in colors && GoodQuality(sci, c)
  {
    filtered := [];
    for i := 0 to |colors|
      invariant filtered == Filter(colors[..i], Quality(sci))
    {
      TakeSnoc(colors, i);
      FilterAppendOne(colors[..i], Quality(sci), colors[i]);
      var lab := LabOf(sci, colors[i].hex);
      var chroma := sci.chroma(lab);
      if 10.0 <= lab.l <= 90.0 && chroma >= 5.0 {
        filtered := filtered + [colors[i]];
      }
    }
    assert colors[..|colors|] == colors;
    FilterSubseq(colors, Quality(sci));
  }

  /** `min_distance`. */
  const MinDistance: real := 5.0

  /** `delta_e_76` on the LAB values of two records. */
  function DeltaE(sci: ColorScience, x: ColorRecord, y: ColorRecord): real {
    LabDistance(sci, x.hex, y.hex)
  }

  /** `too_similar`: some kept record is closer than `min_distance`. */
  predicate TooSimilar(sci: ColorScience, x: ColorRecord, kept: seq<ColorRecord>) {
    exists k :: 0 <= k < |kept| && DeltaE(sci, x, kept[k]) < MinDistance
  }

  /** What the thinning loop keeps of `items`. */
  function Thinned(sci: ColorScience, items: seq<ColorRecord>): seq<ColorRecord> {
    if items == [] then []
    else
      var kept := Thinned(sci, items[..|items| - 1]);
      var x := items[|items| - 1];
      if TooSimilar(sci, x, kept) then kept else kept + [x]
  }

  /** Each kept record is at least `min_distance` from every record kept before it. */
  predicate Apart(sci: ColorScience, kept: seq<ColorRecord>) {
    forall i, j :: 0 <= i < j < |kept| ==> DeltaE(sci, kept[j], kept[i]) >= MinDistance
  }

  /** Every item is kept, or is closer than `min_distance` to a kept record. */
  predicate Covered(sci: ColorScience, items: seq<ColorRecord>, kept: seq<ColorRecord>) {
    forall i :: 0 <= i < |items| ==> items[i] in kept || TooSimilar(sci, items[i], kept)
  }

  /** Thinning keeps a subsequence that starts with the first item. */
  lemma {:induction false} ThinnedSubseq(sci: ColorScience, items: seq<ColorRecord>)
    ensures IsSubseq(Thinned(sci, items), items)
    ensures |items| > 0 ==> |Thinned(sci, items)| > 0 && Thinned(sci, items)[0] == items[0]
    decreases |items|
  {
    if items != [] {
      var init := items[..|items| - 1];
      var kept := Thinned(sci, init);
      ThinnedSubseq(sci, init);
      if !TooSimilar(sci, items[|items| - 1], kept) {
        var t := kept + [items[|items| - 1]];
        assert t[..|kept|] == kept;
        if |init| > 0 {
          assert t[0] == kept[0];
        }
      }
    }
  }

  /** The kept records are pairwise at least `min_distance` apart. */
  lemma {:induction false} ThinnedKeepsDistance(sci: ColorScience, items: seq<ColorRecord>)
    ensures Apart(sci, Thinned(sci, items))
    decreases |items|
  {
    if items != [] {
      var init := items[..|items| - 1];
      var x := items[|items| - 1];
      var kept := Thinned(sci, init);
      ThinnedKeepsDistance(sci, init);
      if !TooSimilar(sci, x, kept) {
        var t := kept + [x];
        forall i, j | 0 <= i < j < |t| ensures DeltaE(sci, t[j], t[i]) >= MinDistance {
          assert t[i] == kept[i];
          if j < |kept| {
            assert t[j] == kept[j];
          }
        }
      }
    }
  }

  lemma TooSimilarGrows(sci: ColorScience, y: ColorRecord, kept: seq<ColorRecord>, x: ColorRecord)
    ensures TooSimilar(sci, y, kept) ==> TooSimilar(sci, y, kept + [x])
  {
    if TooSimilar(sci, y, kept) {
      var k :| 0 <= k < |kept| && DeltaE(sci, y, kept[k]) < MinDistance;
      assert (kept + [x])[k] == kept[k];
    }
  }

  /** Thinning drops only items closer than `min_distance` to a kept record. */
  lemma {:induction false} ThinnedCovers(sci: ColorScience, items: seq<ColorRecord>)
    ensures Covered(sci, items, Thinned(sci, items))
    decreases |items|
  {
    if items != [] {
      var init := items[..|items| - 1];
      var x := items[|items| - 1];
      var kept := Thinned(sci, init);
      var t := Thinned(sci, items);
      ThinnedCovers(sci, init);
      forall i | 0 <= i < |items| ensures items[i] in t || TooSimilar(sci, items[i], t) {
        if i < |init| {
          assert items[i] == init[i];
          TooSimilarGrows(sci, init[i], kept, x);
        }
      }
    }
  }

  /** With a symmetric distance the thinned records are pairwise apart in
      both directions. */
  lemma ThinnedApart(sci: ColorScience, items: seq<ColorRecord>)
    requires sci.Valid()
    ensures forall i, j :: 0 <= i < |Thinned(sci, items)| && 0 <= j < |Thinned(sci, items)| && i != j ==>
      DeltaE(sci, Thinned(sci, items)[i], Thinned(sci, items)[j]) >= MinDistance
  {
    ThinnedKeepsDistance(sci, items);
    var t := Thinned(sci, items);
    forall i, j | 0 <= i < |t| && 0 <= j < |t| && i != j ensures DeltaE(sci, t[i], t[j]) >= MinDistance {
      LabDistanceMetric(sci, t[i].hex, t[j].hex);
    }
  }

  lemma ThinnedSnoc(sci: ColorScience, s: seq<ColorRecord>, x: ColorRecord)
    ensures Thinned(sci, s + [x]) ==
      if TooSimilar(sci, x, Thinned(sci, s)) then Thinned(sci, s) else Thinned(sci, s) + [x]
  {
    assert (s + [x])[..|s|] == s;
  }

  /** The inner loop of the thinning: `too_similar`, with the `break` at the
      first kept record closer than `min_distance`. */
  method IsTooSimilar(sci: ColorScience, item: ColorRecord, kept: seq<ColorRecord>) returns (tooSimilar: bool)
    ensures tooSimilar == TooSimilar(sci, item, kept)
  {
    tooSimilar := false;
    var j := 0;
    while j < |kept|
      invariant 0 <= j <= |kept|
      invariant tooSimilar ==> TooSimilar(sci, item, kept)
      invariant !tooSimilar ==> forall k :: 0 <= k < j ==> DeltaE(sci, item, kept[k]) >= MinDistance
    {
      var distance := DeltaE(sci, item, kept[j]);
      if distance < MinDistance {
        tooSimilar := true;
        break;
      }
      j := j + 1;
    }
  }

  /** The thinning loop, with its `i == 0` shortcut. */
  method Thin(sci: ColorScience, items: seq<ColorRecord>) returns (optimized: seq<ColorRecord>)
    ensures optimized == Thinned(sci, items)
  {
    optimized := [];
    for i := 0 to |items|
      invariant optimized == Thinned(sci, items[..i])
    {
      var item := items[i];
      TakeSnoc(items, i);
      ThinnedSnoc(sci, items[..i], item);
      if i == 0 {
        assert !TooSimilar(sci, item, []);
        optimized := optimized + [item];
        continue;
      }
      var tooSimilar := IsTooSimilar(sci, item, optimized);
      if !tooSimilar {
        optimized := optimized + [item];
      }
    }
    assert items[..|items|] == items;
  }

  // ---------------------------------------------------------------------
  // The whole catalog pass

  /** The records left after both de-duplications. */
  function UniqueRecords(sci: ColorScience, colors: seq<ColorRecord>): seq<ColorRecord> {
    DedupBy(DedupBy(ByCategory(sci, colors), HexCategoryKey()), HexKey())
  }

  /** The records `main` numbers and writes out. */
  function CatalogOf(sci: ColorScience, colors: seq<ColorRecord>, filterColors: bool): seq<ColorRecord> {
    var unique := UniqueRecords(sci, colors);
    if filterColors then Thinned(sci, Filter(unique, Quality(sci))) else unique
  }

  /** The catalog steps of `main`, in order. */
  method BuildCatalog(sci: ColorScience, colors: seq<ColorRecord>, filterColors: bool)
      returns (catalog: seq<ColorRecord>)
    ensures catalog == CatalogOf(sci, colors, filterColors)
  {
    var sorted := SortByCategory(sci, colors);
    var deduplicated := DedupRecords(sorted, HexCategoryKey());
    var unique := DedupRecords(deduplicated, HexKey());
    if filterColors {
      var filtered := QualityFilter(sci, unique);
      catalog := Thin(sci, filtered);
    } else {
      catalog := unique;
    }
  }

  /** After both de-duplications every input hex is there exactly once, on an
      input record. */
  lemma UniqueRecordsFacts(sci: ColorScience, colors: seq<ColorRecord>)
    ensures forall c :: c in UniqueRecords(sci, colors) ==> c in colors
    ensures DistinctKeys(UniqueRecords(sci, colors), HexKey())
    ensures KeySet(UniqueRecords(sci, colors), HexKey()) == KeySet(colors, HexKey())
  {
    var g := ByCategory(sci, colors);
    var d := DedupBy(g, HexCategoryKey());
    var u := DedupBy(d, HexKey());
    ByCategoryFacts(sci, colors);
    DedupSubseq(g, HexCategoryKey());
    DedupSubseq(d, HexKey());
    SubseqElements(d, g);
    SubseqElements(u, d);
    forall c | c in u ensures c in colors {
      assert c in multiset(g);
    }
    KeySetPermutation(g, colors, HexKey());
    HexesOfPairs(d, g);
    HexesOfPairs(g, d);
  }

  /** Every catalog record is an input record and no hex appears twice;
      without filtering every input hex appears, with filtering every record
      passes the quality test. */
  lemma CatalogFacts(sci: ColorScience, colors: seq<ColorRecord>, filterColors: bool)
    ensures forall c :: c in CatalogOf(sci, colors, filterColors) ==> c in colors
    ensures DistinctKeys(CatalogOf(sci, colors, filterColors), HexKey())
    ensures !filterColors ==> KeySet(CatalogOf(sci, colors, filterColors), HexKey()) == KeySet(colors, HexKey())
    ensures filterColors ==> forall c :: c in CatalogOf(sci, colors, filterColors) ==> GoodQuality(sci, c)
  {
    UniqueRecordsFacts(sci, colors);
    if filterColors {
      ThinnedQualityFacts(sci, UniqueRecords(sci, colors));
    }
  }

  /** The quality filter and the thinning keep only good records of `unique`
      and keep hexes distinct. */
  lemma ThinnedQualityFacts(sci: ColorScience, unique: seq<ColorRecord>)
    requires DistinctKeys(unique, HexKey())
    ensures forall c :: c in Thinned(sci, Filter(unique, Quality(sci))) ==> c in unique && GoodQuality(sci, c)
    ensures DistinctKeys(Thinned(sci, Filter(unique, Quality(sci))), HexKey())
  {
    var f := Filter(unique, Quality(sci));
    ThinnedSubseq(sci, f);
    SubseqElements(Thinned(sci, f), f);
    FilterSubseq(unique, Quality(sci));
    SubseqDistinctKeys(f, unique, HexKey());
    SubseqDistinctKeys(Thinned(sci, f), f, HexKey());
  }

  /** The order `CategoryOrdered` asks of two records, as a relation. */
  function CategoryBefore(sci: ColorScience): (ColorRecord, ColorRecord) -> bool {
    (x: ColorRecord, y: ColorRecord) =>
      Rank(x.category) < Rank(y.category) || (x.category == y.category && ByLab(sci)(x, y))
  }

  lemma CategoryOrderedPairwise(sci: ColorScience, g: seq<ColorRecord>)
    ensures CategoryOrdered(sci, g) <==> Pairwise(g, CategoryBefore(sci))
  {
  }

  /** The catalog keeps records of the category step in their order, so it
      still comes block by block in `category_order`, each block sorted by LAB. */
  lemma CatalogInCategoryOrder(sci: ColorScience, colors: seq<ColorRecord>, filterColors: bool)
    ensures IsSubseq(CatalogOf(sci, colors, filterColors), ByCategory(sci, colors))
    ensures CategoryOrdered(sci, CatalogOf(sci, colors, filterColors))
  {
    var g := ByCategory(sci, colors);
    var d := DedupBy(g, HexCategoryKey());
    var u := DedupBy(d, HexKey());
    var catalog := CatalogOf(sci, colors, filterColors);
    DedupSubseq(g, HexCategoryKey());
    DedupSubseq(d, HexKey());
    SubseqTrans(u, d, g);
    if filterColors {
      var f := Filter(u, Quality(sci));
      FilterSubseq(u, Quality(sci));
      ThinnedSubseq(sci, f);
      SubseqTrans(f, u, g);
      SubseqTrans(catalog, f, g);
    }
    ByCategoryFacts(sci, colors);
    CategoryOrderedPairwise(sci, g);
    SubseqPairwise(catalog, g, CategoryBefore(sci));
    CategoryOrderedPairwise(sci, catalog);
  }

  // ---------------------------------------------------------------------
  // main_color_list

  /** The hexes of some records, in order. */
  function Hexes(records: seq<ColorRecord>): (hexes: seq<Hex>)
    ensures |hexes| == |records|
  {
    seq(|records|, i requires 0 <= i < |records| => records[i].hex)
  }

  /** `main_color_list`: the hexes of the catalog, in catalog order. */
  function MainColorList(sci: ColorScience, colors: seq<ColorRecord>, filterColors: bool): seq<Hex> {
    Hexes(CatalogOf(sci, colors, filterColors))
  }

  function SameHex(): Hex -> Hex {
    (h: Hex) => h
  }

  /** The seen-set loop over `main_color_list` that yields the palette
      source `unique_main_colors` changes nothing: the catalog has no hex
      twice. */
  lemma MainColorListUnique(sci: ColorScience, colors: seq<ColorRecord>, filterColors: bool)
    ensures NoDup(MainColorList(sci, colors, filterColors))
    ensures DedupBy(MainColorList(sci, colors, filterColors), SameHex()) == MainColorList(sci, colors, filterColors)
  {
    var catalog := CatalogOf(sci, colors, filterColors);
    var hexes := MainColorList(sci, colors, filterColors);
    CatalogFacts(sci, colors, filterColors);
    forall i, j | 0 <= i < j < |hexes| ensures SameHex()(hexes[i]) != SameHex()(hexes[j]) {
      assert hexes[i] == HexKey()(catalog[i]) && hexes[j] == HexKey()(catalog[j]);
    }
    DedupDistinct(hexes, SameHex());
  }
}
