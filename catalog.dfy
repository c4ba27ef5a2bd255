/** The public catalog's product filter (`filteredProducts` in the product grid):
    a text search, a category match, a price bucket and a size bucket derived from
    the weight label, each applied as an independent `filter` over the fetched list. */
module Catalog {
  import opened Wrappers
  import opened Strings
  import opened Sequences

  /** A fetched product row. `category` is `None` when the row has no such column
      (the products table keys categories by `category_id`). */
  datatype Product = Product(
    id: int,
    name: string,
    description: string,
    price: real,
    weight: string,
    imageUrl: string,
    category: Option<string>)

  const All := "all"

  /** The search stage: the lower-cased name or description contains the lower-cased query. */
  predicate MatchesSearch(p: Product, query: string)
  {
    Contains(ToLower(p.name), ToLower(query)) || Contains(ToLower(p.description), ToLower(query))
  }

  /** The category stage: strict equality with the selected category. */
  predicate MatchesCategory(p: Product, category: string)
  {
    p.category == Some(category)
  }

  /** The price stage: `low` is at most 50, `medium` above 50 up to 120, `high`
      above 120; any other value keeps the product. */
  predicate InPriceRange(range: string, price: real)
  {
    match range
    case "low" => price <= 50.0
    case "medium" => 50.0 < price <= 120.0
    case "high" => price > 120.0
    case _ => true
  }

  /** The size stage: substring tests on the lower-cased weight label; any other
      value keeps the product. */
  predicate InSizeBucket(size: string, weight: string)
  {
    var w := ToLower(weight);
    match size
    case "small" => Contains(w, "200") || Contains(w, "400")
    case "medium" => Contains(w, "500")
    case "large" => Contains(w, "1 kg") || Contains(w, "1kg")
    case _ => true
  }

  /** The search stage, run only for a non-empty query. */
  function SearchStep(s: seq<Product>, search: string): seq<Product>
  {
    if search != "" then Filter(s, p => MatchesSearch(p, search)) else s
  }

  /** The category stage, run only for a category that is not empty and not `'all'`. */
  function CategoryStep(s: seq<Product>, category: string): seq<Product>
  {
    if category != "" && category != All then Filter(s, p => MatchesCategory(p, category)) else s
  }

  /** The price stage, run only for a range that is not empty and not `'all'`. */
  function PriceStep(s: seq<Product>, priceRange: string): seq<Product>
  {
    if priceRange != "" && priceRange != All then Filter(s, (p: Product) => InPriceRange(priceRange, p.price)) else s
  }

  /** The size stage, run only for a size that is not empty and not `'all'`. */
  function SizeStep(s: seq<Product>, sizeFilter: string): seq<Product>
  {
    if sizeFilter != "" && sizeFilter != All then Filter(s, (p: Product) => InSizeBucket(sizeFilter, p.weight)) else s
  }

  /** `filteredProducts`: no list gives `[]`; otherwise the four stages run in turn. */
  function FilteredProducts(products: Option<seq<Product>>, search: string, category: string,
                            priceRange: string, sizeFilter: string): seq<Product>
  {
    match products
    case None => []
    case Some(s0) => SizeStep(PriceStep(CategoryStep(SearchStep(s0, search), category), priceRange), sizeFilter)
  }

  // ---------------------------------------------------------------------------
  // The four stages as values, so that their order can be talked about.

  datatype Stage =
    | SearchStage(query: string)
    | CategoryStage(category: string)
    | PriceStage(range: string)
    | SizeStage(size: string)

  predicate Keeps(st: Stage, p: Product)
  {
    match st
    case SearchStage(q) => MatchesSearch(p, q)
    case CategoryStage(c) => MatchesCategory(p, c)
    case PriceStage(r) => InPriceRange(r, p.price)
    case SizeStage(z) => InSizeBucket(z, p.weight)
  }

  /** The stages `filteredProducts` runs for the given selections, in its order. */
  function ActiveStages(search: string, category: string, priceRange: string, sizeFilter: string): seq<Stage>
  {
    (if search != "" then [SearchStage(search)] else [])
    + (if category != "" && category != All then [CategoryStage(category)] else [])
    + (if priceRange != "" && priceRange != All then [PriceStage(priceRange)] else [])
    + (if sizeFilter != "" && sizeFilter != All then [SizeStage(sizeFilter)] else [])
  }

  /** Runs the stages one after the other, first stage first. */
  function ApplyStages(s: seq<Product>, stages: seq<Stage>): seq<Product>
    decreases |stages|
  {
    if stages == [] then s else ApplyStages(Filter(s, p => Keeps(stages[0], p)), stages[1..])
  }

  /** A product passes every stage in the list. */
  predicate PassesAll(stages: seq<Stage>, p: Product)
  {
    forall st :: st in stages ==> Keeps(st, p)
  }

  /** A product is selected: the reference definition of the whole filter. */
  predicate Selected(p: Product, search: string, category: string, priceRange: string, sizeFilter: string)
  {
    && (search != "" ==> MatchesSearch(p, search))
    && (category != "" && category != All ==> MatchesCategory(p, category))
    && (priceRange != "" && priceRange != All ==> InPriceRange(priceRange, p.price))
    && (sizeFilter != "" && sizeFilter != All ==> InSizeBucket(sizeFilter, p.weight))
  }

  // ---------------------------------------------------------------------------
  // Properties.

  /** Running stages in sequence keeps exactly the products that pass all of them. */
  lemma {:induction false} ApplyStagesIsConjunction(s: seq<Product>, stages: seq<Stage>)
    ensures ApplyStages(s, stages) == Filter(s, p => PassesAll(stages, p))
    decreases |stages|
  {
    if stages == [] {
      FilterKeepsEverything(s, p => PassesAll(stages, p));
    } else {
      var first := p => Keeps(stages[0], p);
      var rest := p => PassesAll(stages[1..], p);
      ApplyStagesIsConjunction(Filter(s, first), stages[1..]);
      forall p ensures PassesAll(stages, p) == (first(p) && rest(p)) {
        assert forall st :: st in stages <==> st == stages[0] || st in stages[1..] by {
          assert stages == [stages[0]] + stages[1..];
        }
      }
      FilterTwice(s, first, rest, p => PassesAll(stages, p));
    }
  }

  /** The stages may run in any order: a permutation of the stages gives the same list. */
  lemma StageOrderIrrelevant(s: seq<Product>, a: seq<Stage>, b: seq<Stage>)
    requires multiset(a) == multiset(b)
    ensures ApplyStages(s, a) == ApplyStages(s, b)
  {
    ApplyStagesIsConjunction(s, a);
    ApplyStagesIsConjunction(s, b);
    forall p | p in s ensures PassesAll(a, p) == PassesAll(b, p) {
      assert forall st :: st in a <==> st in multiset(a);
      assert forall st :: st in b <==> st in multiset(b);
    }
    FilterAgrees(s, p => PassesAll(a, p), p => PassesAll(b, p));
  }

  /** One more stage of the chain: an active stage filters again, an inactive one
      leaves the list as it is; either way it is one filter by the combined test. */
  lemma ChainStage(s: seq<Product>, f: Product -> bool, active: bool, keep: Product -> bool, g: Product -> bool)
    requires forall p :: g(p) == (f(p) && (active ==> keep(p)))
    ensures (if active then Filter(Filter(s, f), keep) else Filter(s, f)) == Filter(s, g)
  {
    if active {
      FilterTwice(s, f, keep, g);
    } else {
      FilterAgrees(s, f, g);
    }
  }

  /** Each stage, run on the products passing `g`, keeps those that also pass it. */
  lemma SearchStepAfter(s: seq<Product>, g: Product -> bool, search: string, h: Product -> bool)
    requires forall p :: h(p) == (g(p) && (search != "" ==> MatchesSearch(p, search)))
    ensures SearchStep(Filter(s, g), search) == Filter(s, h)
  {
    ChainStage(s, g, search != "", p => MatchesSearch(p, search), h);
  }

  lemma CategoryStepAfter(s: seq<Product>, g: Product -> bool, category: string, h: Product -> bool)
    requires forall p :: h(p) == (g(p) && (category != "" && category != All ==> MatchesCategory(p, category)))
    ensures CategoryStep(Filter(s, g), category) == Filter(s, h)
  {
    ChainStage(s, g, category != "" && category != All, p => MatchesCategory(p, category), h);
  }

  lemma PriceStepAfter(s: seq<Product>, g: Product -> bool, priceRange: string, h: Product -> bool)
    requires forall p :: h(p) == (g(p) && (priceRange != "" && priceRange != All ==> InPriceRange(priceRange, p.price)))
    ensures PriceStep(Filter(s, g), priceRange) == Filter(s, h)
  {
    ChainStage(s, g, priceRange != "" && priceRange != All, (p: Product) => InPriceRange(priceRange, p.price), h);
  }

  lemma SizeStepAfter(s: seq<Product>, g: Product -> bool, sizeFilter: string, h: Product -> bool)
    requires forall p :: h(p) == (g(p) && (sizeFilter != "" && sizeFilter != All ==> InSizeBucket(sizeFilter, p.weight)))
    ensures SizeStep(Filter(s, g), sizeFilter) == Filter(s, h)
  {
    ChainStage(s, g, sizeFilter != "" && sizeFilter != All, (p: Product) => InSizeBucket(sizeFilter, p.weight), h);
  }

  /** `filteredProducts` keeps exactly the selected products, in their order. */
  lemma FilteredIsSelected(s: seq<Product>, search: string, category: string, priceRange: string, sizeFilter: string)
    ensures FilteredProducts(Some(s), search, category, priceRange, sizeFilter)
         == Filter(s, p => Selected(p, search, category, priceRange, sizeFilter))
  {
    var g0 := (p: Product) => true;
    var g1 := (p: Product) => search != "" ==> MatchesSearch(p, search);
    var g2 := (p: Product) => g1(p) && (category != "" && category != All ==> MatchesCategory(p, category));
    var g3 := (p: Product) => g2(p) && (priceRange != "" && priceRange != All ==> InPriceRange(priceRange, p.price));
    var s1 := SearchStep(s, search);
    var s2 := CategoryStep(s1, category);
    var s3 := PriceStep(s2, priceRange);
    FilterKeepsEverything(s, g0);
    SearchStepAfter(s, g0, search, g1);
    CategoryStepAfter(s, g1, category, g2);
    PriceStepAfter(s, g2, priceRange, g3);
    SizeStepAfter(s, g3, sizeFilter, p => Selected(p, search, category, priceRange, sizeFilter));
  }

  /** Passing every active stage is being selected. */
  lemma PassesActiveStages(p: Product, search: string, category: string, priceRange: string, sizeFilter: string)
    ensures PassesAll(ActiveStages(search, category, priceRange, sizeFilter), p)
        <==> Selected(p, search, category, priceRange, sizeFilter)
  {
    var stages := ActiveStages(search, category, priceRange, sizeFilter);
    assert forall st :: st in stages <==>
      || (search != "" && st == SearchStage(search))
      || (category != "" && category != All && st == CategoryStage(category))
      || (priceRange != "" && priceRange != All && st == PriceStage(priceRange))
      || (sizeFilter != "" && sizeFilter != All && st == SizeStage(sizeFilter));
    if Selected(p, search, category, priceRange, sizeFilter) {
      assert PassesAll(stages, p);
    }
    if PassesAll(stages, p) {
      assert search != "" ==> Keeps(SearchStage(search), p);
      assert category != "" && category != All ==> Keeps(CategoryStage(category), p);
      assert priceRange != "" && priceRange != All ==> Keeps(PriceStage(priceRange), p);
      assert sizeFilter != "" && sizeFilter != All ==> Keeps(SizeStage(sizeFilter), p);
    }
  }

  /** The four stages, run in any order, give `filteredProducts`. */
  lemma AnyStageOrder(s: seq<Product>, order: seq<Stage>,
                      search: string, category: string, priceRange: string, sizeFilter: string)
    requires multiset(order) == multiset(ActiveStages(search, category, priceRange, sizeFilter))
    ensures ApplyStages(s, order) == FilteredProducts(Some(s), search, category, priceRange, sizeFilter)
  {
    var stages := ActiveStages(search, category, priceRange, sizeFilter);
    StageOrderIrrelevant(s, order, stages);
    ApplyStagesIsConjunction(s, stages);
    FilteredIsSelected(s, search, category, priceRange, sizeFilter);
    forall p ensures PassesAll(stages, p) == Selected(p, search, category, priceRange, sizeFilter) {
      PassesActiveStages(p, search, category, priceRange, sizeFilter);
    }
    FilterAgrees(s, p => PassesAll(stages, p), p => Selected(p, search, category, priceRange, sizeFilter));
  }

  /** The result is a subsequence of the fetched list, holds exactly the selected
      products and repeats each as often as the input does. */
  lemma FilteredIsSubsequence(s: seq<Product>, search: string, category: string, priceRange: string, sizeFilter: string)
    ensures var r := FilteredProducts(Some(s), search, category, priceRange, sizeFilter);
      && IsSubsequence(r, s)
      && (forall p :: p in r <==> p in s && Selected(p, search, category, priceRange, sizeFilter))
      && (forall p :: p in s && Selected(p, search, category, priceRange, sizeFilter) ==> multiset(r)[p] == multiset(s)[p])
  {
    var keep := p => Selected(p, search, category, priceRange, sizeFilter);
    FilteredIsSelected(s, search, category, priceRange, sizeFilter);
    FilterIsSubsequence(s, keep);
    forall p ensures p in Filter(s, keep) <==> p in s && keep(p) {
      FilterMembership(s, keep, p);
    }
    forall p | p in s && keep(p) ensures multiset(Filter(s, keep))[p] == multiset(s)[p] {
      FilterCount(s, keep, p);
    }
  }

  /** A missing product list gives an empty result. */
  lemma NoProductsNoResult(search: string, category: string, priceRange: string, sizeFilter: string)
    ensures FilteredProducts(None, search, category, priceRange, sizeFilter) == []
  {
  }

  /** With no query and every selector on `'all'` the list is returned unchanged. */
  lemma DefaultsKeepEverything(s: seq<Product>)
    ensures FilteredProducts(Some(s), "", All, All, All) == s
  {
  }

  /** The search stage alone keeps exactly the products whose lower-cased name or
      description contains the lower-cased query. */
  lemma SearchOnly(s: seq<Product>, query: string)
    requires query != ""
    ensures var r := FilteredProducts(Some(s), query, All, All, All);
      forall p :: p in r <==> p in s && (Contains(ToLower(p.name), ToLower(query)) || Contains(ToLower(p.description), ToLower(query)))
  {
    FilteredIsSubsequence(s, query, All, All, All);
  }

  /** A product without a `category` column is dropped by every category selection. */
  lemma CategoryNeedsColumn(s: seq<Product>, category: string)
    requires category != "" && category != All
    ensures forall p :: p in FilteredProducts(Some(s), "", category, All, All) ==> p.category == Some(category)
  {
    FilteredIsSubsequence(s, "", category, All, All);
  }

  /** The three price buckets are disjoint and cover every price. */
  lemma PriceBucketsPartition(price: real)
    ensures InPriceRange("low", price) || InPriceRange("medium", price) || InPriceRange("high", price)
    ensures !(InPriceRange("low", price) && InPriceRange("medium", price))
    ensures !(InPriceRange("low", price) && InPriceRange("high", price))
    ensures !(InPriceRange("medium", price) && InPriceRange("high", price))
  {
  }

  /** The bucket boundaries: 50 is low, 120 is medium, 120.01 is high. */
  lemma PriceBoundaries()
    ensures InPriceRange("low", 50.0) && !InPriceRange("medium", 50.0)
    ensures InPriceRange("medium", 120.0) && !InPriceRange("high", 120.0)
    ensures InPriceRange("high", 120.01)
  {
  }

  /** An unrecognised price range or size keeps every product. */
  lemma UnknownSelectorsKeepEverything(s: seq<Product>, priceRange: string, sizeFilter: string)
    requires priceRange !in {"low", "medium", "high"}
    requires sizeFilter !in {"small", "medium", "large"}
    ensures FilteredProducts(Some(s), "", All, priceRange, sizeFilter) == s
  {
    FilteredIsSelected(s, "", All, priceRange, sizeFilter);
    FilterKeepsEverything(s, p => Selected(p, "", All, priceRange, sizeFilter));
  }

  /** "500g" is medium. */
  lemma MediumExample()
    ensures InSizeBucket("medium", "500g")
  {
    assert ToLower("500g") == "500g";
    assert StartsWith("500g", "500");
  }

  /** "1 KG" is large: the label is lower-cased before the test. */
  lemma LargeExample()
    ensures InSizeBucket("large", "1 KG")
  {
    assert ToLower("1 KG") == "1 kg";
    assert StartsWith("1 kg", "1 kg");
  }

  /** Accented capitals are lowered as well: a product named "Queso AÑEJO" is found by
      the query "añejo". */
  lemma AccentedSearch(p: Product)
    requires p.name == "Queso A\U{00D1}EJO"
    ensures MatchesSearch(p, "a\U{00F1}ejo")
  {
    var lower := ToLower(p.name);
    assert lower == "queso a\U{00F1}ejo";
    assert OccursAt(lower, "a\U{00F1}ejo", 6);
    ContainsIff(lower, "a\U{00F1}ejo");
    assert ToLower("a\U{00F1}ejo") == "a\U{00F1}ejo";
  }

  /** "1200g" counts as small, because it contains "200". */
  lemma ThousandTwoHundredIsSmall()
    ensures InSizeBucket("small", "1200g")
  {
    assert ToLower("1200g") == "1200g";
    assert "1200g"[1..] == "200g";
    assert StartsWith("200g", "200");
  }

  /** A label cannot contain a marker whose first character it lacks. */
  lemma {:induction false} FirstCharAbsent(w: string, marker: string)
    requires |marker| > 0 && marker[0] !in w
    ensures !Contains(w, marker)
    decreases |w|
  {
    if w != [] {
      assert w[0] != marker[0];
      FirstCharAbsent(w[1..], marker);
    }
  }

  /** The weight "x50g", for a character x other than 1, 4 and 5, holds no bucket marker. */
  lemma FiftyGramsUnmarked(x: char)
    requires x != '1' && x != '4' && x != '5'
    ensures var w := [x, '5', '0', 'g'];
      !Contains(w, "200") && !Contains(w, "400") && !Contains(w, "500") && !Contains(w, "1 kg") && !Contains(w, "1kg")
  {
    var w := [x, '5', '0', 'g'];
    FirstCharAbsent(w, "400");
    FirstCharAbsent(w, "1 kg");
    FirstCharAbsent(w, "1kg");
    assert w[1..] == "50g" && "50g"[1..] == "0g";
    FirstCharAbsent(w[1..], "200");
    assert w[..3][1] == '5';
    assert !StartsWith("50g", "500") by { assert "50g"[..3][2] == 'g'; }
    FirstCharAbsent("0g", "500");
  }

  /** "250g" and "750g" match no size bucket. */
  lemma UnbucketedWeights()
    ensures !InSizeBucket("small", "250g") && !InSizeBucket("medium", "250g") && !InSizeBucket("large", "250g")
    ensures !InSizeBucket("small", "750g") && !InSizeBucket("medium", "750g") && !InSizeBucket("large", "750g")
  {
    assert ToLower("250g") == "250g" == ['2', '5', '0', 'g'];
    assert ToLower("750g") == "750g" == ['7', '5', '0', 'g'];
    FiftyGramsUnmarked('2');
    FiftyGramsUnmarked('7');
  }
}
