/** The client-side views over the fetched catalog in the API service:
    brand filter, search, best sellers, new arrivals and featured products.
    The fetch itself is left out; each view takes the fetched list. */
module Api {
  import opened Seqs
  import opened Text
  import opened ProductModel
  import opened StableSort

  const BestSellerCount: nat := 6
  const NewArrivalCount: nat := 8
  const FeaturedCount: nat := 6

  /** The search predicate shared by the API search and the See-All screen:
      the query occurs in the name or in the brand, ignoring case. */
  predicate MatchesQuery(p: Product, query: string) {
    ContainsIgnoringCase(p.artName, query) || ContainsIgnoringCase(p.brand, query)
  }

  /** `getProductsByBrand`. */
  function ByBrand(catalog: seq<Product>, brand: string): (r: seq<Product>)
    ensures forall p :: p in r <==> p in catalog && EqualsIgnoringCase(p.brand, brand)
    ensures forall p :: multiset(r)[p] == if EqualsIgnoringCase(p.brand, brand) then multiset(catalog)[p] else 0
    ensures IsSubsequence(r, catalog)
  {
    var f := (p: Product) => EqualsIgnoringCase(p.brand, brand);
    FilterIsSubsequence(f, catalog);
    Filter(f, catalog)
  }

  /** `searchProducts`. */
  function Search(catalog: seq<Product>, query: string): (r: seq<Product>)
    ensures forall p :: p in r <==> p in catalog && MatchesQuery(p, query)
    ensures forall p :: multiset(r)[p] == if MatchesQuery(p, query) then multiset(catalog)[p] else 0
    ensures IsSubsequence(r, catalog)
  {
    var f := (p: Product) => MatchesQuery(p, query);
    FilterIsSubsequence(f, catalog);
    Filter(f, catalog)
  }

  /** Every product matches the empty query, so searching for "" returns
      the whole catalog. */
  lemma EmptySearchIsCatalog(catalog: seq<Product>)
    ensures Search(catalog, "") == catalog
  {
    forall i | 0 <= i < |catalog|
      ensures MatchesQuery(catalog[i], "")
    {
      ContainsEmpty(Lower(catalog[i].artName));
    }
    FilterAll(p => MatchesQuery(p, ""), catalog);
  }

  // ---- best sellers ---------------------------------------------------------

  function DealKey(p: Product): real {
    p.limitedTimeDeal as real
  }

  predicate OnDeal(p: Product) {
    p.limitedTimeDeal > 0
  }

  /** `getBestSellers`: products on a deal, largest deal first, at most six. */
  function BestSellers(catalog: seq<Product>): (r: seq<Product>)
    ensures |r| <= BestSellerCount
    ensures forall i :: 0 <= i < |r| ==> r[i].limitedTimeDeal > 0
    ensures forall i, j :: 0 <= i < j < |r| ==> r[i].limitedTimeDeal >= r[j].limitedTimeDeal
    ensures multiset(r) <= multiset(catalog)
    ensures |r| == Min(BestSellerCount, |Filter(OnDeal, catalog)|)
  {
    TopN(DealKey, Filter(OnDeal, catalog), BestSellerCount)
  }

  /** A product on a deal that best sellers leave out (or keep fewer copies
      of than the catalog has) has a deal no larger than any listed one. */
  lemma BestSellersAreTop(catalog: seq<Product>, q: Product)
    ensures q in catalog && OnDeal(q) && multiset(BestSellers(catalog))[q] < multiset(catalog)[q] ==>
      forall i :: 0 <= i < |BestSellers(catalog)| ==> q.limitedTimeDeal <= BestSellers(catalog)[i].limitedTimeDeal
  {
    if q in catalog && OnDeal(q) && multiset(BestSellers(catalog))[q] < multiset(catalog)[q] {
      var s := Sort(DealKey, Filter(OnDeal, catalog));
      TakeOfSortedIsTop(DealKey, s, BestSellerCount, q);
    }
  }

  /** Best sellers with equal deals appear in catalog order. */
  lemma BestSellersStable(catalog: seq<Product>, v: int)
    ensures Tied(DealKey, BestSellers(catalog), v as real) <= Tied(DealKey, Filter(OnDeal, catalog), v as real)
  {
    TopNStable(DealKey, Filter(OnDeal, catalog), BestSellerCount, v as real);
  }

  // ---- new arrivals ---------------------------------------------------------

  predicate IsDigit(c: char) {
    '0' <= c <= '9'
  }

  function Pow10(n: nat): (r: nat)
    ensures r >= 1
  {
    if n == 0 then 1 else 10 * Pow10(n - 1)
  }

  /** The value of a run of decimal digits, most significant first. */
  function DigitsValue(ds: string): (v: nat)
    requires forall i :: 0 <= i < |ds| ==> IsDigit(ds[i])
    ensures v < Pow10(|ds|)
    decreases |ds|
  {
    if |ds| == 0 then 0
    else
      var d := ds[|ds| - 1];
      assert IsDigit(d);
      10 * DigitsValue(ds[..|ds| - 1]) + (d as int - '0' as int)
  }

  function LeadingDigits(s: string): (r: string)
    ensures r <= s
    ensures forall i :: 0 <= i < |r| ==> IsDigit(r[i])
    ensures |r| < |s| ==> !IsDigit(s[|r|])
    decreases |s|
  {
    if |s| > 0 && IsDigit(s[0]) then [s[0]] + LeadingDigits(s[1..]) else ""
  }

  /** `parseInt(id)` on an id of the shape `NumericId` admits: the value of
      its leading decimal digits, which is below 10^15 and so exact as a
      JavaScript number. */
  function ParseId(id: string): (v: nat)
    ensures v < Pow10(|LeadingDigits(id)|)
  {
    DigitsValue(LeadingDigits(id))
  }

  /** The largest digit run whose value every JavaScript number holds exactly
      (10^15 < 2^53). */
  const MaxIdDigits: nat := 15

  /** An id `parseInt` reads in base ten without rounding: it starts with a
      decimal digit, has no `0x`/`0X` prefix (which `parseInt` reads as
      hexadecimal), and its leading digit run is at most fifteen long. */
  predicate NumericId(id: string) {
    && |id| > 0 && IsDigit(id[0])
    && !(|id| >= 2 && id[0] == '0' && (id[1] == 'x' || id[1] == 'X'))
    && |LeadingDigits(id)| <= MaxIdDigits
  }

  predicate NumericIds(catalog: seq<Product>) {
    forall i :: 0 <= i < |catalog| ==> NumericId(catalog[i].id)
  }

  /** `parseInt` stops at the first character that is not a digit: an id is
      worth the value of its digit run, whatever follows it. */
  lemma ParseIdReadsLeadingDigits(ds: string, rest: string)
    requires forall i :: 0 <= i < |ds| ==> IsDigit(ds[i])
    requires |rest| == 0 || !IsDigit(rest[0])
    ensures ParseId(ds + rest) == DigitsValue(ds)
  {
    DigitRun(ds, rest);
  }

  /** The digit run of `ds + rest` is `ds` when `rest` does not go on with a digit. */
  lemma {:induction false} DigitRun(ds: string, rest: string)
    requires forall i :: 0 <= i < |ds| ==> IsDigit(ds[i])
    requires |rest| == 0 || !IsDigit(rest[0])
    ensures LeadingDigits(ds + rest) == ds
    decreases |ds|
  {
    if |ds| > 0 {
      assert (ds + rest)[1..] == ds[1..] + rest;
      DigitRun(ds[1..], rest);
      assert ds == [ds[0]] + ds[1..];
    } else {
      assert ds + rest == rest;
    }
  }

  /** Ids compare by value, not as text: "10" is newer than "9". */
  lemma NumericNotTextual()
    ensures ParseId("10") == 10 && ParseId("9") == 9
    ensures NumericId("10") && NumericId("9") && !NumericId("0x10")
  {
    assert LeadingDigits("10") == "10" by {
      assert "10"[1..] == "0" && "0"[1..] == "";
    }
    assert LeadingDigits("9") == "9" by { assert "9"[1..] == ""; }
    assert "10"[..1] == "1";
  }

  function IdKey(p: Product): real {
    ParseId(p.id) as real
  }

  /** `getNewArrivals`: the catalog by numeric id, highest first, at most eight. */
  function NewArrivals(catalog: seq<Product>): (r: seq<Product>)
    requires NumericIds(catalog)
    ensures |r| == Min(NewArrivalCount, |catalog|)
    ensures forall i, j :: 0 <= i < j < |r| ==> ParseId(r[i].id) >= ParseId(r[j].id)
    ensures multiset(r) <= multiset(catalog)
  {
    TopN(IdKey, catalog, NewArrivalCount)
  }

  /** A product that new arrivals leave out has an id no larger than any listed one. */
  lemma NewArrivalsAreTop(catalog: seq<Product>, q: Product)
    requires NumericIds(catalog)
    ensures q in catalog && multiset(NewArrivals(catalog))[q] < multiset(catalog)[q] ==>
      forall i :: 0 <= i < |NewArrivals(catalog)| ==> ParseId(q.id) <= ParseId(NewArrivals(catalog)[i].id)
  {
    if q in catalog && multiset(NewArrivals(catalog))[q] < multiset(catalog)[q] {
      TakeOfSortedIsTop(IdKey, Sort(IdKey, catalog), NewArrivalCount, q);
    }
  }

  /** New arrivals with equal ids appear in catalog order. */
  lemma NewArrivalsStable(catalog: seq<Product>, v: nat)
    requires NumericIds(catalog)
    ensures Tied(IdKey, NewArrivals(catalog), v as real) <= Tied(IdKey, catalog, v as real)
  {
    TopNStable(IdKey, catalog, NewArrivalCount, v as real);
  }

  // ---- featured -------------------------------------------------------------

  /** Average rating, exact; zero for a product without feedback, which the
      featured view filters out before ranking. */
  function RatingKey(p: Product): real {
    if HasFeedback(p) then
      RatingSum(p.feedbacks.value) as real / |p.feedbacks.value| as real
    else 0.0
  }

  /** `getFeaturedProducts`: products with feedback, best average first, at most six. */
  function Featured(catalog: seq<Product>): (r: seq<Product>)
    ensures |r| == Min(FeaturedCount, |Filter(HasFeedback, catalog)|)
    ensures forall i :: 0 <= i < |r| ==> HasFeedback(r[i])
    ensures forall i, j :: 0 <= i < j < |r| ==> RatingKey(r[i]) >= RatingKey(r[j])
    ensures multiset(r) <= multiset(catalog)
  {
    TopN(RatingKey, Filter(HasFeedback, catalog), FeaturedCount)
  }

  /** A product with feedback that the featured view leaves out rates no
      higher than any listed one. */
  lemma FeaturedAreTop(catalog: seq<Product>, q: Product)
    ensures q in catalog && HasFeedback(q) && multiset(Featured(catalog))[q] < multiset(catalog)[q] ==>
      forall i :: 0 <= i < |Featured(catalog)| ==> RatingKey(q) <= RatingKey(Featured(catalog)[i])
  {
    if q in catalog && HasFeedback(q) && multiset(Featured(catalog))[q] < multiset(catalog)[q] {
      TakeOfSortedIsTop(RatingKey, Sort(RatingKey, Filter(HasFeedback, catalog)), FeaturedCount, q);
    }
  }

  /** Featured products with equal averages appear in catalog order. */
  lemma FeaturedStable(catalog: seq<Product>, v: real)
    ensures Tied(RatingKey, Featured(catalog), v) <= Tied(RatingKey, Filter(HasFeedback, catalog), v)
  {
    TopNStable(RatingKey, Filter(HasFeedback, catalog), FeaturedCount, v);
  }

  // ---- helpers --------------------------------------------------------------

  function Min(a: nat, b: nat): nat {
    if a < b then a else b
  }
}
