/** The "see all" catalog screen (app/products.tsx): which list it shows, the
    search-and-brand filter over it, the brand chips built from the list,
    and what tapping a chip selects. The two lists come from the product
    hooks and are parameters here. */
module ProductsScreen {
  import opened Wrappers
  import opened Seqs
  import opened Text
  import opened ProductModel
  import Api

  /** The filter value meaning "no brand restriction". */
  const AllFilter: string := "all"

  /** The label of the first chip, which selects `AllFilter`. */
  const AllChip: string := "All"

  const BestSellerCategory: string := "bestseller"

  datatype Screen = Screen(
    category: Option<string>,
    products: seq<Product>,
    bestSellers: seq<Product>,
    searchQuery: string,
    selectedFilter: string)

  /** A fresh screen: empty search, no brand restriction. */
  function Open(category: Option<string>, products: seq<Product>, bestSellers: seq<Product>): (sc: Screen)
    ensures sc.searchQuery == "" && sc.selectedFilter == AllFilter
  {
    Screen(category, products, bestSellers, "", AllFilter)
  }

  /** `getProducts`: the best-seller list for the "bestseller" category,
      the whole catalog for any other category or none. */
  function Source(sc: Screen): (r: seq<Product>)
    ensures sc.category == Some(BestSellerCategory) ==> r == sc.bestSellers
    ensures sc.category != Some(BestSellerCategory) ==> r == sc.products
  {
    if sc.category == Some(BestSellerCategory) then sc.bestSellers else sc.products
  }

  /** The header title. Every category other than "bestseller" reads "New
      Arrivals", although `Source` then lists the whole catalog unsorted. */
  function Title(sc: Screen): (t: string)
    ensures t == "Best Sellers" <==> sc.category == Some(BestSellerCategory)
    ensures sc.category != Some(BestSellerCategory) ==> t == "New Arrivals"
  {
    if sc.category == Some(BestSellerCategory) then "Best Sellers" else "New Arrivals"
  }

  /** The per-product test of the list view: the query matches the name or
      the brand, and the brand equals the selected filter unless that is "all". */
  predicate Shown(p: Product, query: string, filter: string) {
    Api.MatchesQuery(p, query) && (filter == AllFilter || EqualsIgnoringCase(p.brand, filter))
  }

  /** `filteredProducts`: the source list narrowed by search and brand, in order. */
  function Visible(sc: Screen): (r: seq<Product>)
    ensures forall p :: p in r <==>
      (p in Source(sc) && Api.MatchesQuery(p, sc.searchQuery) &&
       (sc.selectedFilter == AllFilter || EqualsIgnoringCase(p.brand, sc.selectedFilter)))
    ensures forall p ::
      multiset(r)[p] == if Shown(p, sc.searchQuery, sc.selectedFilter) then multiset(Source(sc))[p] else 0
    ensures IsSubsequence(r, Source(sc))
  {
    var f := (p: Product) => Shown(p, sc.searchQuery, sc.selectedFilter);
    FilterIsSubsequence(f, Source(sc));
    Filter(f, Source(sc))
  }

  /** The product count shown above the list. */
  function FoundCount(sc: Screen): (n: nat)
    ensures n <= |Source(sc)|
  {
    |Visible(sc)|
  }

  /** The brand of every product in the list, in list order. */
  function BrandsOf(ps: seq<Product>): (names: seq<string>)
    ensures |names| == |ps|
    ensures forall i :: 0 <= i < |ps| ==> names[i] == ps[i].brand
  {
    seq(|ps|, i requires 0 <= i < |ps| => ps[i].brand)
  }

  /** `Array.from(new Set(brands))`, computed with a seen-set in one pass:
      each distinct brand once, at its first appearance. */
  method UniqueBrands(ps: seq<Product>) returns (brands: seq<string>)
    ensures brands == Dedup(BrandsOf(ps))
    ensures NoDup(brands)
    ensures forall b :: b in brands <==> exists i :: 0 <= i < |ps| && ps[i].brand == b
  {
    var names := BrandsOf(ps);
    var seen: set<string> := {};
    brands := [];
    var i := 0;
    while i < |names|
      invariant 0 <= i <= |names|
      invariant brands == Dedup(names[..i])
      invariant forall b :: b in seen <==> b in brands
    {
      assert names[..i + 1][..i] == names[..i];
      if names[i] !in seen {
        brands := brands + [names[i]];
        seen := seen + {names[i]};
      }
      i := i + 1;
    }
    assert names[..i] == names;
    forall b | b in brands
      ensures exists i :: 0 <= i < |ps| && ps[i].brand == b
    {
      var k :| 0 <= k < |names| && names[k] == b;
      assert ps[k].brand == b;
    }
  }

  /** The chip row: "All" followed by the brands. */
  function Chips(brands: seq<string>): (r: seq<string>)
    ensures |r| == |brands| + 1 && r[0] == AllChip && r[1..] == brands
  {
    [AllChip] + brands
  }

  /** The filter value a chip selects. */
  function FilterFor(chip: string): (f: string)
    ensures f == AllFilter <==> chip == AllChip || chip == AllFilter
    ensures chip != AllChip ==> f == chip
  {
    if chip == AllChip then AllFilter else chip
  }

  /** A chip is highlighted when the current filter is the one it selects. */
  predicate ChipActive(sc: Screen, chip: string) {
    sc.selectedFilter == FilterFor(chip)
  }

  /** Tapping a chip. */
  function SelectChip(sc: Screen, chip: string): (r: Screen)
    ensures ChipActive(r, chip)
    ensures r.category == sc.category && r.products == sc.products &&
      r.bestSellers == sc.bestSellers && r.searchQuery == sc.searchQuery
  {
    sc.(selectedFilter := FilterFor(chip))
  }

  /** Typing in the search box. */
  function SetQuery(sc: Screen, query: string): (r: Screen)
    ensures r.searchQuery == query && Source(r) == Source(sc) && r.selectedFilter == sc.selectedFilter
  {
    sc.(searchQuery := query)
  }

  // ---- properties -----------------------------------------------------------

  /** With no brand restriction the screen shows exactly the search results. */
  lemma AllIsSearch(sc: Screen)
    requires sc.selectedFilter == AllFilter
    ensures Visible(sc) == Api.Search(Source(sc), sc.searchQuery)
  {
    var src := Source(sc);
    FilterCongruent((p: Product) => Shown(p, sc.searchQuery, sc.selectedFilter),
                    (p: Product) => Api.MatchesQuery(p, sc.searchQuery), src);
  }

  /** With a brand selected the screen shows the search results of that
      brand: the same list the brand service call would give after the
      search call. */
  lemma BrandIsSearchThenByBrand(sc: Screen)
    requires sc.selectedFilter != AllFilter
    ensures Visible(sc) == Api.ByBrand(Api.Search(Source(sc), sc.searchQuery), sc.selectedFilter)
  {
    FilterTwice((p: Product) => Api.MatchesQuery(p, sc.searchQuery),
                (p: Product) => EqualsIgnoringCase(p.brand, sc.selectedFilter),
                (p: Product) => Shown(p, sc.searchQuery, sc.selectedFilter), Source(sc));
  }

  /** The opening view is the whole source list. */
  lemma OpenShowsEverything(category: Option<string>, products: seq<Product>, bestSellers: seq<Product>)
    ensures Visible(Open(category, products, bestSellers)) == Source(Open(category, products, bestSellers))
  {
    var sc := Open(category, products, bestSellers);
    AllIsSearch(sc);
    Api.EmptySearchIsCatalog(Source(sc));
  }

  /** Unless a brand is literally called "All" or "all", tapping a chip
      highlights that chip and no other. */
  lemma ChipSelectionUnique(sc: Screen, brands: seq<string>, chip: string)
    requires NoDup(brands) && AllChip !in brands && AllFilter !in brands
    requires chip in Chips(brands)
    ensures forall c :: c in Chips(brands) ==> (ChipActive(SelectChip(sc, chip), c) <==> c == chip)
  {
  }

  /** A brand named "all" cannot be selected on its own: its chip sets the
      "no restriction" value, so the screen shows every matching product. */
  lemma BrandNamedAllShowsEverything(sc: Screen)
    ensures SelectChip(sc, AllFilter).selectedFilter == AllFilter
    ensures ChipActive(SelectChip(sc, AllFilter), AllChip)
  {
  }

  /** The chips list each brand of the source list exactly once. */
  lemma ChipsCoverSource(ps: seq<Product>)
    ensures forall i :: 0 <= i < |ps| ==> ps[i].brand in Chips(Dedup(BrandsOf(ps)))[1..]
    ensures NoDup(Chips(Dedup(BrandsOf(ps)))[1..])
  {
    var names := BrandsOf(ps);
    assert forall i :: 0 <= i < |ps| ==> names[i] == ps[i].brand && names[i] in names;
  }
}
