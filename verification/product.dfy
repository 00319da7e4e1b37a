/** The product record the remote catalog returns. `price` and
    `limitedTimeDeal` are integers (cents and basis points) rather than
    JavaScript numbers; optional fields are explicit options. */
module ProductModel {
  import opened Wrappers

  datatype Feedback = Feedback(rating: int, comment: string, author: string, date: string)

  datatype Product = Product(
    id: string,
    artName: string,
    price: int,
    description: Option<string>,
    glassSurface: Option<bool>,
    image: string,
    brand: string,
    limitedTimeDeal: int,
    feedbacks: Option<seq<Feedback>>)

  /** `product.feedbacks && product.feedbacks.length > 0`. */
  predicate HasFeedback(p: Product) {
    p.feedbacks.Some? && |p.feedbacks.value| > 0
  }

  function RatingSum(fs: seq<Feedback>): int
    decreases |fs|
  {
    if |fs| == 0 then 0 else RatingSum(fs[..|fs| - 1]) + fs[|fs| - 1].rating
  }
}
