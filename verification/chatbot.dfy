/** The AI chat screen (app/ai-chatbot.tsx) without its network calls: the
    blank-input guard, the bubble appended for the user, the reply rendered
    through the product-mention splitter, the ten-message window kept after a
    reply, the fallback bubble after a failure, and the favourites join done
    when the screen loads. The model's reply and the catalog download are
    parameters (`None` stands for a call that threw). */
module Chatbot {
  import opened Wrappers
  import opened Seqs
  import opened Text
  import opened ProductModel
  import opened Mentions
  import Store = FavoritesService

  datatype Role = User | Assistant

  /** A bubble's content: plain text, or the segments a reply was rendered into. */
  datatype Body = Plain(text: string) | Rich(segments: seq<Segment>)

  datatype Message = Message(role: Role, body: Body)

  /** The history window applied after a successful reply. */
  const HistoryLimit: nat := 10

  const Greeting: string :=
    "Xin chào! Tôi là trợ lý AI của bạn \U{1F3A8}. Tôi có thể giúp bạn so sánh, gợi ý hoặc tìm hiểu về các sản phẩm bạn yêu thích. Bạn muốn hỏi gì hôm nay?"

  /** The bubble shown when the reply could not be produced. */
  const Fallback: string := "Xin lỗi, tôi gặp lỗi khi xử lý yêu cầu. Hãy thử lại nhé!"

  datatype ChatState = ChatState(
    messages: seq<Message>,
    input: string,
    loading: bool,
    allProducts: seq<Product>,
    favoriteProducts: seq<Product>)

  /** The screen as first mounted: one greeting bubble, nothing loaded. */
  function Initial(): ChatState {
    ChatState([Message(Assistant, Plain(Greeting))], "", false, [], [])
  }

  /** `xs.slice(-n)`: the last `n` elements, or all of them when there are
      fewer; `slice(-0)` is `slice(0)`, which keeps everything. */
  function KeepLast<T>(xs: seq<T>, n: nat): (r: seq<T>)
    ensures |r| == if n == 0 || |xs| < n then |xs| else n
    ensures r == xs[|xs| - |r|..]
  {
    if n == 0 || |xs| <= n then xs else xs[|xs| - n..]
  }

  /** `r` is what remains of `xs` after dropping some of its oldest elements. */
  predicate IsSuffix<T(==)>(r: seq<T>, xs: seq<T>) {
    |r| <= |xs| && r == xs[|xs| - |r|..]
  }

  /** The user's bubble: the input with its surrounding whitespace removed. */
  function UserBubble(input: string): Message {
    Message(User, Plain(Trim(input)))
  }

  /** The assistant's bubble for a reply: its text split into segments. */
  function ReplyBubble(reply: string, catalog: seq<Product>): Message {
    Message(Assistant, Rich(Extract(reply, catalog)))
  }

  /** `handleSend`, run to completion. A blank input does nothing. Otherwise
      the trimmed input is appended as a user bubble and the input cleared;
      a reply is rendered against the loaded catalog and appended, after
      which only the last ten bubbles are kept; a failure appends the
      fallback bubble and keeps everything. Loading is off at the end. */
  function HandleSend(st: ChatState, reply: Option<string>): (r: ChatState)
    ensures Blank(st.input) ==> r == st
    ensures !Blank(st.input) ==>
      r.input == "" && !r.loading &&
      r.allProducts == st.allProducts && r.favoriteProducts == st.favoriteProducts
    ensures !Blank(st.input) && reply.Some? ==>
      |r.messages| == (if |st.messages| + 2 < HistoryLimit then |st.messages| + 2 else HistoryLimit)
    ensures !Blank(st.input) && reply.Some? ==>
      IsSuffix(r.messages, st.messages + [UserBubble(st.input), ReplyBubble(reply.value, st.allProducts)]) &&
      r.messages[|r.messages| - 1] == ReplyBubble(reply.value, st.allProducts) &&
      r.messages[|r.messages| - 2] == UserBubble(st.input)
    ensures !Blank(st.input) && reply.None? ==>
      |r.messages| == |st.messages| + 2 && r.messages[..|st.messages|] == st.messages &&
      r.messages[|st.messages|] == UserBubble(st.input) &&
      r.messages[|st.messages| + 1] == Message(Assistant, Plain(Fallback))
  {
    if Blank(st.input) then st
    else
      var user := UserBubble(st.input);
      if reply.Some? then
        var bubble := ReplyBubble(reply.value, st.allProducts);
        WindowKeepsLastTwo(st.messages, user, bubble, HistoryLimit);
        st.(messages := KeepLast(st.messages + [user, bubble], HistoryLimit), input := "", loading := false)
      else
        st.(messages := st.messages + [user, Message(Assistant, Plain(Fallback))], input := "", loading := false)
  }

  /** A window of at least two, applied after appending two elements,
      keeps both of them last. */
  lemma WindowKeepsLastTwo<T>(xs: seq<T>, a: T, b: T, n: nat)
    requires n >= 2
    ensures var r := KeepLast(xs + [a, b], n);
      |r| == (if |xs| + 2 < n then |xs| + 2 else n) && IsSuffix(r, xs + [a, b]) &&
      r[|r| - 1] == b && r[|r| - 2] == a
  {
  }

  /** The send button: disabled while the input is blank or a reply is pending. */
  function Press(st: ChatState, reply: Option<string>): (r: ChatState)
    ensures st.loading ==> r == st
    ensures !st.loading ==> r == HandleSend(st, reply)
  {
    if Blank(st.input) || st.loading then st else HandleSend(st, reply)
  }

  /** The favourite products shown to the assistant: the catalog entries
      whose id is stored, in catalog order. */
  function FavoritesJoin(products: seq<Product>, favIds: seq<string>): (r: seq<Product>)
    ensures forall p :: p in r <==> p in products && p.id in favIds
    ensures forall p :: multiset(r)[p] == if p.id in favIds then multiset(products)[p] else 0
    ensures IsSubsequence(r, products)
  {
    var f := (p: Product) => p.id in favIds;
    FilterIsSubsequence(f, products);
    Filter(f, products)
  }

  /** `loadProducts`: a failed catalog download changes nothing; otherwise
      the catalog is stored and joined with the stored favourite ids (a
      failed favourites read gives no favourites). */
  function LoadProducts(st: ChatState, fetched: Option<seq<Product>>, cell: Store.Cell, readOk: bool): (r: ChatState)
    ensures fetched.None? ==> r == st
    ensures fetched.Some? ==>
      r.allProducts == fetched.value &&
      r.messages == st.messages && r.input == st.input && r.loading == st.loading
    ensures fetched.Some? ==> forall p :: p in r.favoriteProducts <==>
      p in fetched.value && readOk && p.id in Store.Contents(cell)
    ensures fetched.Some? ==> IsSubsequence(r.favoriteProducts, fetched.value)
    ensures fetched.Some? ==> forall p ::
      multiset(r.favoriteProducts)[p] == if readOk && p.id in Store.Contents(cell) then multiset(fetched.value)[p] else 0
  {
    match fetched
    case None => st
    case Some(products) =>
      st.(allProducts := products,
          favoriteProducts := FavoritesJoin(products, Store.GetFavorites(cell, readOk)))
  }

  // ---- properties -----------------------------------------------------------

  /** The join reads the stored ids as a set: order and repetition do not matter. */
  lemma JoinDependsOnIdSet(products: seq<Product>, ids1: seq<string>, ids2: seq<string>)
    requires forall id :: id in ids1 <==> id in ids2
    ensures FavoritesJoin(products, ids1) == FavoritesJoin(products, ids2)
  {
    FilterCongruent((p: Product) => p.id in ids1, (p: Product) => p.id in ids2, products);
  }

  /** A product favourited with a successful write is in the join on the
      next load, wherever the catalog lists it. */
  lemma JoinAfterAdd(products: seq<Product>, cell: Store.Cell, id: string, io: Store.Io)
    requires io.writeOk
    ensures forall p :: p in products && p.id == id ==>
      p in FavoritesJoin(products, Store.Contents(Store.AddFavorite(cell, id, io)))
  {
  }

  /** Trimming the kept bubble again would change nothing. */
  lemma UserBubbleIsTrimmed(input: string)
    requires !Blank(input)
    ensures UserBubble(input).body.text != ""
    ensures Trim(UserBubble(input).body.text) == UserBubble(input).body.text
  {
    TrimIdempotent(input);
  }

  /** The window keeps the newest element. */
  lemma KeepLastKeepsNewest<T>(xs: seq<T>, x: T, n: nat)
    ensures KeepLast(xs + [x], n)[|KeepLast(xs + [x], n)| - 1] == x
  {
  }

  /** Applying the window twice is applying it once. */
  lemma KeepLastIdempotent<T>(xs: seq<T>, n: nat)
    ensures KeepLast(KeepLast(xs, n), n) == KeepLast(xs, n)
  {
  }

  /** One round: the user types `input`, presses send, and the model
      answers `reply` (or fails, on `None`). */
  datatype Turn = Turn(input: string, reply: Option<string>)

  /** Typing a turn's input and pressing send. */
  function Round(st: ChatState, t: Turn): ChatState {
    HandleSend(st.(input := t.input), t.reply)
  }

  /** The rounds played one after another, the last one last. */
  function Converse(st: ChatState, turns: seq<Turn>): ChatState
    decreases |turns|
  {
    if |turns| == 0 then st
    else Round(Converse(st, turns[..|turns| - 1]), turns[|turns| - 1])
  }

  /** A round the user sends and the model cannot answer. */
  predicate Failed(t: Turn) {
    !Blank(t.input) && t.reply.None?
  }

  /** A round the user sends and the model answers. */
  predicate Answered(t: Turn) {
    !Blank(t.input) && t.reply.Some?
  }

  /** The window is applied only after a successful reply: a run of failed
      rounds grows the history by two bubbles each and drops nothing. */
  lemma {:induction false} FailuresAccumulate(st: ChatState, turns: seq<Turn>)
    requires forall i :: 0 <= i < |turns| ==> Failed(turns[i])
    ensures |Converse(st, turns).messages| == |st.messages| + 2 * |turns|
    ensures st.messages <= Converse(st, turns).messages
    decreases |turns|
  {
    if |turns| > 0 {
      var init := turns[..|turns| - 1];
      assert forall i :: 0 <= i < |init| ==> init[i] == turns[i];
      FailuresAccumulate(st, init);
      var prev := Converse(st, init);
      OneMoreFailure(prev, turns[|turns| - 1]);
    }
  }

  /** One failed round: two more bubbles, nothing dropped. */
  lemma OneMoreFailure(st: ChatState, t: Turn)
    requires Failed(t)
    ensures |Round(st, t).messages| == |st.messages| + 2
    ensures st.messages <= Round(st, t).messages
  {
  }

  /** Successful rounds from the opening screen: the history holds
      min(1 + 2n, 10) bubbles, and the greeting survives the first four. */
  lemma {:induction false} SuccessesFillWindow(turns: seq<Turn>)
    requires forall i :: 0 <= i < |turns| ==> Answered(turns[i])
    ensures |Converse(Initial(), turns).messages| ==
      if 1 + 2 * |turns| < HistoryLimit then 1 + 2 * |turns| else HistoryLimit
    ensures |turns| <= 4 ==> Converse(Initial(), turns).messages[0] == Message(Assistant, Plain(Greeting))
    decreases |turns|
  {
    if |turns| > 0 {
      var init := turns[..|turns| - 1];
      assert forall i :: 0 <= i < |init| ==> init[i] == turns[i];
      SuccessesFillWindow(init);
      OneMoreAnswer(Converse(Initial(), init), turns[|turns| - 1]);
    }
  }

  /** One answered round: two more bubbles, then the window. */
  lemma OneMoreAnswer(st: ChatState, t: Turn)
    requires Answered(t) && |st.messages| > 0
    ensures var r := Round(st, t);
      |r.messages| == (if |st.messages| + 2 < HistoryLimit then |st.messages| + 2 else HistoryLimit) &&
      (|st.messages| + 2 <= HistoryLimit ==> r.messages[0] == st.messages[0])
  {
    var prev := st.(input := t.input);
    var r := HandleSend(prev, t.reply);
    var full := prev.messages + [UserBubble(t.input), ReplyBubble(t.reply.value, prev.allProducts)];
    assert IsSuffix(r.messages, full);
    if |st.messages| + 2 <= HistoryLimit {
      assert |r.messages| == |full|;
      assert r.messages == full;
      assert full[0] == st.messages[0];
    }
  }
}
