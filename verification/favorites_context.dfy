/** The favorites provider: in-memory `favoriteIds`, `favoriteProducts` and
    `loading`, rebuilt from the store after every change. One operation runs
    at a time; the product fetches are given as a table of responses. */
module FavoritesContext {
  import opened Wrappers
  import opened Seqs
  import opened ProductModel
  import Store = FavoritesService

  /** What `getProductById` yields for each id. A missing key means the
      request throws (network error or a non-2xx status such as 404);
      `None` means the response body was falsy. */
  type Responses = map<string, Option<Product>>

  datatype State = State(
    store: Store.Cell,
    favoriteIds: seq<string>,
    favoriteProducts: seq<Product>,
    loading: bool)

  /** The provider's initial state, before its mount-time load. */
  function Initial(store: Store.Cell): State {
    State(store, [], [], true)
  }

  /** `isFavorite`: membership in the in-memory ids; the store is not read. */
  predicate IsFavorite(st: State, id: string)
    ensures IsFavorite(st, id) <==> exists i :: 0 <= i < |st.favoriteIds| && st.favoriteIds[i] == id
  {
    id in st.favoriteIds
  }

  predicate AllAnswered(ids: seq<string>, responses: Responses) {
    forall i :: 0 <= i < |ids| ==> ids[i] in responses
  }

  /** `ids.map(getProductById)` awaited together: the response for each id,
      in id order. */
  function Lookups(ids: seq<string>, responses: Responses): (r: seq<Option<Product>>)
    requires AllAnswered(ids, responses)
    ensures |r| == |ids| && forall i :: 0 <= i < |ids| ==> r[i] == responses[ids[i]]
  {
    seq(|ids|, i requires 0 <= i < |ids| && ids[i] in responses => responses[ids[i]])
  }

  /** A response that `Boolean` keeps. */
  predicate Found(o: Option<Product>) {
    o.Some?
  }

  function Wrap(ps: seq<Product>): seq<Option<Product>> {
    seq(|ps|, k requires 0 <= k < |ps| => Some(ps[k]))
  }

  /** `products.filter(Boolean)` over the per-id responses, in id order. */
  function Present(ids: seq<string>, responses: Responses): (ps: seq<Product>)
    requires AllAnswered(ids, responses)
    ensures |ps| <= |ids|
    ensures |ps| == |ids| <==> forall i :: 0 <= i < |ids| ==> responses[ids[i]].Some?
    ensures forall i :: 0 <= i < |ids| && responses[ids[i]].Some? ==> responses[ids[i]].value in ps
    ensures forall p :: p in ps ==> exists i :: 0 <= i < |ids| && responses[ids[i]] == Some(p)
    decreases |ids|
  {
    if |ids| == 0 then []
    else
      var rest := Present(ids[1..], responses);
      assert forall i :: 1 <= i < |ids| ==> ids[i] == ids[1..][i - 1];
      match responses[ids[0]]
      case Some(p) => [p] + rest
      case None => rest
  }

  /** The products are exactly the non-empty responses, in id order and
      with repeats: the filter of the lookups, unwrapped. */
  lemma {:induction false} PresentIsFilter(ids: seq<string>, responses: Responses)
    requires AllAnswered(ids, responses)
    ensures Wrap(Present(ids, responses)) == Filter(Found, Lookups(ids, responses))
    decreases |ids|
  {
    if |ids| > 0 {
      LookupsTail(ids, responses);
      PresentIsFilter(ids[1..], responses);
      PresentStep(responses[ids[0]], Lookups(ids[1..], responses), Present(ids[1..], responses));
    }
  }

  lemma LookupsTail(ids: seq<string>, responses: Responses)
    requires AllAnswered(ids, responses) && |ids| > 0
    ensures AllAnswered(ids[1..], responses)
    ensures Lookups(ids, responses) == [responses[ids[0]]] + Lookups(ids[1..], responses)
  {
    assert forall i :: 1 <= i < |ids| ==> ids[i] == ids[1..][i - 1];
  }

  /** One response in front: when non-empty, it leads both sides. */
  lemma PresentStep(head: Option<Product>, tail: seq<Option<Product>>, rest: seq<Product>)
    requires Wrap(rest) == Filter(Found, tail)
    ensures Wrap(if head.Some? then [head.value] + rest else rest) == Filter(Found, [head] + tail)
  {
    FilterCons(Found, head, tail);
    if head.Some? {
      WrapCons(head.value, rest);
    }
  }

  lemma WrapCons(p: Product, rest: seq<Product>)
    ensures Wrap([p] + rest) == [Some(p)] + Wrap(rest)
  {
  }

  /** `setLoading(true)` at the start of a load: the previous ids and
      products stay visible. */
  function BeginLoad(st: State): (r: State)
    ensures r.loading
    ensures r.favoriteIds == st.favoriteIds && r.favoriteProducts == st.favoriteProducts
  {
    st.(loading := true)
  }

  /** The rest of `loadFavorites`: the ids are replaced by the list read from
      the store; then, if every product request succeeds, the products by
      the non-empty responses; if any request fails, the products keep their
      previous value. `loading` ends false on every path. */
  function EndLoad(st: State, readOk: bool, responses: Responses): (r: State)
    ensures !r.loading
    ensures r.store == st.store
    ensures r.favoriteIds == Store.GetFavorites(st.store, readOk)
    ensures |r.favoriteIds| == 0 ==> r.favoriteProducts == []
    ensures |r.favoriteIds| > 0 && AllAnswered(r.favoriteIds, responses) ==>
      r.favoriteProducts == Present(r.favoriteIds, responses)
    ensures !AllAnswered(r.favoriteIds, responses) ==> r.favoriteProducts == st.favoriteProducts
  {
    var ids := Store.GetFavorites(st.store, readOk);
    if |ids| == 0 then st.(favoriteIds := ids, favoriteProducts := [], loading := false)
    else if AllAnswered(ids, responses) then
      st.(favoriteIds := ids, favoriteProducts := Present(ids, responses), loading := false)
    else st.(favoriteIds := ids, loading := false)
  }

  /** `loadFavorites` (also `refreshFavorites` and the mount-time load). */
  function LoadFavorites(st: State, readOk: bool, responses: Responses): (r: State)
    ensures !r.loading && r.store == st.store
    ensures readOk ==> r.favoriteIds == Store.Contents(st.store)
  {
    EndLoad(BeginLoad(st), readOk, responses)
  }

  /** `toggleFavorite`: removes `id` from the store if the in-memory ids
      hold it, adds it otherwise, then reloads. `mutation` is the add or
      remove call's storage faults, `readOk` the reload's. */
  function ToggleFavorite(st: State, id: string, mutation: Store.Io, readOk: bool, responses: Responses): (r: State)
    ensures !r.loading
    ensures mutation.writeOk && readOk ==> (IsFavorite(r, id) <==> !IsFavorite(st, id))
  {
    var store := if IsFavorite(st, id)
      then Store.RemoveFavorite(st.store, id, mutation)
      else Store.AddFavorite(st.store, id, mutation);
    LoadFavorites(st.(store := store), readOk, responses)
  }

  /** `clearFavorites`: removes the key, then reloads. */
  function ClearFavorites(st: State, removeOk: bool, readOk: bool, responses: Responses): (r: State)
    ensures !r.loading
    ensures removeOk ==> r.favoriteIds == [] && r.favoriteProducts == []
    ensures !removeOk ==> r.store == st.store
  {
    LoadFavorites(st.(store := Store.ClearFavorites(st.store, removeOk)), readOk, responses)
  }

  // ---- properties -----------------------------------------------------------

  /** `isFavorite` does not depend on the store or the products. */
  lemma IsFavoriteReadsOnlyIds(st: State, id: string, store: Store.Cell, ps: seq<Product>)
    ensures IsFavorite(st.(store := store, favoriteProducts := ps), id) == IsFavorite(st, id)
  {
  }

  /** A toggle with no faults changes no other id's membership: every other
      id is a favorite afterwards exactly when the store held it. */
  lemma ToggleLeavesOthers(st: State, id: string, other: string, responses: Responses)
    requires other != id
    ensures IsFavorite(ToggleFavorite(st, id, Store.Healthy, true, responses), other)
        <==> other in Store.Contents(st.store)
  {
    if IsFavorite(st, id) {
      Store.RemoveFilters(st.store, id);
    }
  }

  /** The provider is in sync when the ids are the store's contents and
      the products are what those ids fetch. */
  predicate InSync(st: State, responses: Responses) {
    && st.favoriteIds == Store.Contents(st.store)
    && AllAnswered(st.favoriteIds, responses)
    && st.favoriteProducts == Present(st.favoriteIds, responses)
  }

  /** A fault-free reload whose product requests all succeed brings the
      provider in sync, and then there are no more products than ids. */
  lemma ReloadSyncs(st: State, responses: Responses)
    requires AllAnswered(Store.Contents(st.store), responses)
    ensures InSync(LoadFavorites(st, true, responses), responses)
    ensures |LoadFavorites(st, true, responses).favoriteProducts| <= |LoadFavorites(st, true, responses).favoriteIds|
  {
  }

  /** A failed product request after a removal leaves the previous, longer
      product list next to the shorter id list: `favoriteProducts` can hold
      more entries than `favoriteIds`, and a product no longer favorited. */
  lemma StaleProductsCanOutnumberIds(p1: Product, p2: Product)
    requires p1.id == "1" && p2.id == "2"
    ensures var st := State(Some(["1", "2"]), ["1", "2"], [p1, p2], false);
            var r := ToggleFavorite(st, "2", Store.Healthy, true, map[]);
            r.favoriteIds == ["1"] && r.favoriteProducts == [p1, p2]
  {
    var st := State(Some(["1", "2"]), ["1", "2"], [p1, p2], false);
    Store.RemoveFilters(st.store, "2");
    assert Store.Contents(Store.RemoveFavorite(st.store, "2", Store.Healthy)) == ["1"];
  }
}
