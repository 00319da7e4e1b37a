# Art-supply shop app: verified model of its list, text and form logic

This project models the logic underneath the screens of a React Native shop for art supplies. It models no network or UI. It has seven parts.

- **Favourites store** (`FavoritesService`): an ordered list of product ids kept in a single storage cell. It supports get, add, remove, membership and clear. Storage faults are explicit inputs.
- **Favourites provider** (`FavoritesContext`): the in-memory `favoriteIds`, `favoriteProducts` and `loading` values. They are rebuilt from the store after every toggle or clear. Per-id product lookups come from a table of responses.
- **Product mentions** (`Mentions`): an assistant reply is split on `[[...]]` markers, using a lazy match that does not cross a line. Each marker name resolves to the first catalog product whose lower-cased name contains it. Unresolved markers are dropped.
- **Chat screen** (`Chatbot`): the blank-input guard and the user bubble. The reply bubble is built from the mention segments. After a successful reply the history keeps only its last ten bubbles. After a failure a fallback bubble is appended and nothing is dropped. When the screen loads, the catalog is joined with the stored favourites.
- **Catalog views** (`Api`, `ProductsScreen`, and the shared `StableSort` and `Seqs`):
  - filtering by brand, and search;
  - best sellers: products on a deal, highest deal first, six of them;
  - new arrivals: highest numeric id first, eight of them;
  - featured: products with feedback, best average rating first, six of them;
  - the list screen's search-plus-brand filter, its unique brand chips, and the mapping of the "All" chip.
- **Login form** (`Login`): the ordered checks before an authentication call. Also the call itself, the alerts and navigation after it, the spinner around it, and the sign-in/sign-up switch.
- **Route guard** (`AuthGuard`): what to render and where to redirect. It depends on whether the session is loading, whether the screen needs a user, and whether one is signed in.

The model follows the code's branches and edge cases. Where it narrows the inputs or approximates a built-in, "## Left out" says so. Some of the code's behaviour is easy to misread, so the model makes the following explicit.

- **A failed product lookup leaves stale products.** During a favourites reload, a request that fails makes the whole batch fail. `favoriteIds` has already been updated at that point, but `favoriteProducts` keeps its previous value. So the product list can be longer than the id list, and it can still hold a product that was just removed (`FavoritesContext.StaleProductsCanOutnumberIds`). Only a body that comes back empty is dropped.
- **A failed read during add or remove overwrites the stored list.** `addFavorite` and `removeFavorite` treat a failed read as the empty list. Their write then replaces the stored ids (`FavoritesService.AddAfterFailedReadKeepsOnlyId`, `FavoritesService.RemoveAfterFailedReadEmpties`).
- **Empty literal parts are kept.** The split can produce empty literal pieces between adjacent markers. These stay as empty text segments (`Mentions.RenderPart`).
- **A brand named "all" cannot be selected.** Its chip selects the "no brand restriction" value (`ProductsScreen.BrandNamedAllShowsEverything`).
- **The fallback path skips the history window.** The ten-bubble window is applied only after a successful reply, so a run of failures grows the history without bound (`Chatbot.FailuresAccumulate`).

Modelling choices:

- **Lengths.** The password length counts UTF-16 code units, as JavaScript's `length` does.
- **Case and whitespace.** Lower-casing covers ASCII letters only. `trim` strips the ECMAScript whitespace and line-terminator set.
- **Averages.** Rating averages are exact rationals (`real`), so ties are decided exactly.
- **Ids.** New arrivals rank ids by the value of their leading decimal digits. This equals `parseInt` for the ids the model admits: they start with a digit, have no `0x` prefix, and have at most fifteen leading digits.
- **Sorting.** The JavaScript sort is stable. It is modelled as a stable insertion sort into non-increasing key order.

## Model

| member | source | states |
|---|---|---|
| FavoritesService.GetFavorites | services/favorites.ts:7-15 | the stored list, or the empty list when the key is absent or the read fails |
| FavoritesService.ReadDefaults | services/favorites.ts:9-14 | an absent key and a failed read both give the empty list; a stored list reads back unchanged |
| FavoritesService.AddFavorite | services/favorites.ts:18-28 | a failed write changes nothing; an id already read as present causes no write; after a successful write the id is stored |
| FavoritesService.AddAppends | services/favorites.ts:21-23 | adding an absent id appends it at the end and keeps the other ids in order |
| FavoritesService.AddIdempotent | services/favorites.ts:21 | a second add of the same id leaves the store as the first add left it |
| FavoritesService.AddAfterFailedReadKeepsOnlyId | services/favorites.ts:11-14 | when the read inside an add fails, the write leaves only the added id |
| FavoritesService.RemoveAfterFailedReadEmpties | services/favorites.ts:31-35 | when the read inside a remove fails, the write empties the store |
| FavoritesService.RemoveFavorite | services/favorites.ts:31-39 | a failed write changes nothing; after a successful write the id is absent; with a good read the stored list becomes an order-preserving subsequence of what it was |
| FavoritesService.RemoveFilters | services/favorites.ts:33-35 | without faults, removal drops every copy of the id and keeps the rest in order; removing an absent id changes nothing |
| FavoritesService.IsFavorite | services/favorites.ts:42-50 | true only when the read succeeds and the key is present |
| FavoritesService.IsFavoriteIsMembership | services/favorites.ts:44-48 | with a good read the answer is membership in the stored list; with a failed read it is false |
| FavoritesService.ClearFavorites | services/favorites.ts:53-59 | after a successful removal the next read is empty; a failed removal changes nothing |
| FavoritesService.RunKeepsNoDup | services/favorites.ts:18-59 | whatever faults occur, no sequence of add, remove and clear calls puts a duplicate into a duplicate-free store |
| FavoritesService.RunIsNetEffect | services/favorites.ts:18-59 | without faults, the stored ids, taken as a set, are the net effect of the calls on a set |
| FavoritesContext.Present | contexts/FavoritesContext.tsx:33-36 | no more products than ids, as many exactly when every body is non-empty; every non-empty body is included and nothing else is |
| FavoritesContext.Lookups | contexts/FavoritesContext.tsx:33-35 | one response per id, in id order |
| FavoritesContext.PresentIsFilter | contexts/FavoritesContext.tsx:33-36 | the products are the non-empty responses filtered from the per-id lookups, in id order and with repeats |
| FavoritesContext.IsFavorite | contexts/FavoritesContext.tsx:51-53 | an id is a favourite exactly when some position of the in-memory id list holds it |
| FavoritesContext.BeginLoad | contexts/FavoritesContext.tsx:27 | the load starts with loading on and the in-memory lists untouched |
| FavoritesContext.EndLoad | contexts/FavoritesContext.tsx:28-44 | loading ends off; the ids are what the store read gave; no ids gives no products; all lookups answered gives the found products; a failed lookup keeps the previous products |
| FavoritesContext.LoadFavorites | contexts/FavoritesContext.tsx:25-45 | after a load with a good read, the ids equal the store contents and loading is off |
| FavoritesContext.IsFavoriteReadsOnlyIds | contexts/FavoritesContext.tsx:51-53 | membership depends on the in-memory ids only, not on the store or the products |
| FavoritesContext.ToggleFavorite | contexts/FavoritesContext.tsx:55-66 | with a successful write and reload, membership of the id flips |
| FavoritesContext.ToggleLeavesOthers | contexts/FavoritesContext.tsx:57-62 | a fault-free toggle leaves every other id a favourite exactly when the store held it |
| FavoritesContext.ClearFavorites | contexts/FavoritesContext.tsx:68-75 | a successful clear and reload leave no ids and no products |
| FavoritesContext.ReloadSyncs | contexts/FavoritesContext.tsx:28-38 | a fault-free reload whose lookups all answer leaves ids equal to the store and products derived from them, never more products than ids |
| FavoritesContext.StaleProductsCanOutnumberIds | contexts/FavoritesContext.tsx:29-41 | after removing a favourite, a failed lookup leaves one id next to two products, one of them no longer a favourite |
| Mentions.CloseFromSpec | app/ai-chatbot.tsx:252 | the close found is the first `]]` reachable without crossing a line terminator, and none is found exactly when none exists |
| Mentions.MatchAtSpec | app/ai-chatbot.tsx:252 | a marker is found at a position exactly when one starts there, and the close found is that marker's |
| Mentions.FindFromSpec | app/ai-chatbot.tsx:252 | the marker found is the leftmost one, and none is found only when no position holds one |
| Mentions.SplitFrom | app/ai-chatbot.tsx:252 | the split has an odd number of parts: it starts and ends with a literal piece |
| Mentions.SplitFromClassified | app/ai-chatbot.tsx:252-255 | split parts alternate: literal pieces with no marker, then parts that are one marker from first to last character |
| Mentions.SplitFromLeftmost | app/ai-chatbot.tsx:252 | each literal part ends where the leftmost marker of the rest of the reply starts, the next part is exactly that marker, and no marker follows the last literal |
| Mentions.SplitLeftmost | app/ai-chatbot.tsx:252-255 | the split of a reply is both leftmost and alternating |
| Mentions.SplitConcat | app/ai-chatbot.tsx:252 | joining the split parts gives back the reply |
| Mentions.SplitClassified | app/ai-chatbot.tsx:252-255 | re-matching a part finds a marker exactly at the odd positions of the split |
| Mentions.MarkerNameSpec | app/ai-chatbot.tsx:255-257 | a name is found only as the inner text of a marker of the part, and none is found exactly when the part holds no marker |
| Mentions.LiteralHasNoMarker | app/ai-chatbot.tsx:252-255 | a literal part of the split never re-matches as a marker |
| Mentions.MarkerPartName | app/ai-chatbot.tsx:252-257 | a marker part re-matches as one whole marker, and its name is the text between the brackets |
| Mentions.Resolve | app/ai-chatbot.tsx:259-261 | no product is found exactly when no lower-cased name contains the lower-cased mention; otherwise the result is the first such product in catalog order |
| Mentions.EmptyMentionIsFirstProduct | app/ai-chatbot.tsx:259-260 | an empty mention names the first product of a non-empty catalog |
| Mentions.RenderParts | app/ai-chatbot.tsx:254-290 | each part gives at most one segment |
| Mentions.RenderPartsConcat | app/ai-chatbot.tsx:254 | the segments of two runs of parts are the segments of the first followed by those of the second: parts render in order |
| Mentions.RenderPartsOne | app/ai-chatbot.tsx:254-255 | a single part renders as the map callback on that part |
| Mentions.RenderPart | app/ai-chatbot.tsx:255-289 | a part without a marker is kept as literal text; a dangling marker gives nothing; a resolved marker gives one reference to the first catalog product its name matches |
| Mentions.RenderedSegments | app/ai-chatbot.tsx:262-289 | every literal segment is an unmatched part, and every reference is what some marker part resolves to: the first catalog match of its name |
| Mentions.DanglingDropped | app/ai-chatbot.tsx:282-283 | every part gives one segment, except a marker no product matches, which gives none |
| Mentions.AllResolvedKeepsCount | app/ai-chatbot.tsx:262-283 | when every mention resolves, there are as many segments as parts |
| Mentions.Extract | app/ai-chatbot.tsx:252-290 | the segments number the parts minus the dangling markers, so never more than the parts |
| Mentions.NoMarkerIsOneLiteral | app/ai-chatbot.tsx:252-289 | a reply with no marker becomes exactly one literal segment holding the whole reply |
| Mentions.RedPaintScenario | app/ai-chatbot.tsx:252-290 | a reply mentioning a catalog product by name becomes a literal, a reference to it, and a literal |
| Chatbot.KeepLast | app/ai-chatbot.tsx:296 | keeps the last n elements, or all of them when there are fewer or n is 0 |
| Chatbot.KeepLastIdempotent | app/ai-chatbot.tsx:296 | applying the window twice is applying it once |
| Chatbot.KeepLastKeepsNewest | app/ai-chatbot.tsx:295-296 | the newest bubble always survives the window |
| Chatbot.HandleSend | app/ai-chatbot.tsx:194-309 | a blank input changes nothing; otherwise the input is cleared, loading ends off, and the trimmed user bubble is followed by either the reply bubble with the ten-bubble window applied or the fallback bubble with nothing dropped |
| Chatbot.Press | app/ai-chatbot.tsx:443-453 | the send button does nothing while a reply is pending, and is otherwise exactly a send |
| Chatbot.UserBubbleIsTrimmed | app/ai-chatbot.tsx:195-196 | the user bubble of a non-blank input is non-empty and already trimmed |
| Chatbot.FailuresAccumulate | app/ai-chatbot.tsx:298-306 | a run of failed rounds adds two bubbles per round and keeps every earlier bubble |
| Chatbot.SuccessesFillWindow | app/ai-chatbot.tsx:294-297 | from the opening screen, n answered rounds leave min(1 + 2n, 10) bubbles, and the greeting survives the first four rounds |
| Chatbot.FavoritesJoin | app/ai-chatbot.tsx:175-176 | exactly the catalog entries whose id is stored, each as often as in the catalog, in catalog order |
| Chatbot.LoadProducts | app/ai-chatbot.tsx:170-181 | a failed download changes nothing; otherwise the catalog is kept and the favourites are its entries with a stored id, in catalog order, with every copy the catalog holds |
| Chatbot.JoinDependsOnIdSet | app/ai-chatbot.tsx:175-176 | the join depends only on which ids are stored, not on their order or repetition |
| Chatbot.JoinAfterAdd | app/ai-chatbot.tsx:175-176 | after a successful add, every catalog entry with that id is in the join |
| Seqs.Filter | services/favorites.ts:34 | keeps exactly the elements passing the test, each as often as in the input |
| Seqs.FilterIsSubsequence | app/products.tsx:35 | a filtered list is an order-preserving subsequence of its input |
| Seqs.FilterTwice | app/products.tsx:35-45 | filtering by one test and then another is filtering once by both |
| Seqs.Dedup | app/products.tsx:48 | no duplicates, and the same values as the input |
| Seqs.DedupPrefix | app/products.tsx:48 | values are listed in order of first appearance |
| Text.Lower | app/ai-chatbot.tsx:260 | same length; each capital becomes its small letter and every other character is kept |
| Text.LowerIdempotent | services/api.ts:43 | lower-casing twice is lower-casing once |
| Text.ContainsAt | services/api.ts:57 | `includes` holds exactly when the needle occurs at some offset of the text |
| Text.Utf16Length | app/login.tsx:39 | between one and two units per character in total, exactly one each when none is above U+FFFF |
| Text.Utf16LengthOne | app/login.tsx:39 | a character above U+FFFF counts two units, any other one |
| Text.Utf16LengthConcat | app/login.tsx:39 | the count of a concatenation is the sum of the counts, so with the one-character case it fixes the count of every string |
| Text.Trim | app/login.tsx:29 | the result is empty exactly for an all-whitespace input; otherwise it starts and ends with a non-whitespace character |
| Text.TrimIdempotent | app/ai-chatbot.tsx:196 | trimming twice is trimming once |
| Text.TrimIsInfix | app/login.tsx:47 | the input is a blank run, the result and a blank run, in that order |
| StableSort.Sort | services/api.ts:73 | a permutation, in non-increasing key order, with equal keys kept in input order |
| StableSort.TopN | services/api.ts:73-74 | min(n, length) elements, in non-increasing key order, drawn from the input |
| StableSort.TopNStable | services/api.ts:73-74 | the tied elements kept are the first of the input's tied elements, in input order |
| Api.ByBrand | services/api.ts:42-44 | exactly the products whose brand equals the given one ignoring case, in catalog order |
| Api.Search | services/api.ts:55-59 | exactly the products whose name or brand contains the query ignoring case, in catalog order |
| Api.EmptySearchIsCatalog | services/api.ts:55-59 | an empty query returns the whole catalog |
| Api.BestSellers | services/api.ts:71-74 | at most six products, all on a deal, deals non-increasing, drawn from the catalog, and six whenever six are on a deal |
| Api.BestSellersAreTop | services/api.ts:71-74 | no deal product left out has a higher deal than one kept |
| Api.BestSellersStable | services/api.ts:73 | products with equal deals keep catalog order |
| Api.ParseId | services/api.ts:87 | the value read is below ten to the power of the number of leading digits |
| Api.ParseIdReadsLeadingDigits | services/api.ts:87 | an id is worth its leading digit run, whatever follows it |
| Api.NumericNotTextual | services/api.ts:87 | ids compare by value: "10" outranks "9"; a `0x` id is not admitted |
| Api.NewArrivals | services/api.ts:86-88 | min(8, catalog size) products, numeric ids non-increasing, drawn from the catalog |
| Api.NewArrivalsAreTop | services/api.ts:86-88 | no product left out has a higher numeric id than one kept |
| Api.NewArrivalsStable | services/api.ts:87 | products with equal numeric ids keep catalog order |
| Api.Featured | services/api.ts:99-110 | at most six products with feedback, average rating non-increasing, drawn from the catalog |
| Api.FeaturedAreTop | services/api.ts:99-110 | no product with feedback left out has a higher average than one kept |
| Api.FeaturedStable | services/api.ts:101-109 | products with equal averages keep catalog order |
| ProductsScreen.Source | app/products.tsx:27-32 | the best-seller list exactly for the "bestseller" category, the whole catalog otherwise |
| ProductsScreen.Title | app/products.tsx:137 | the header reads "Best Sellers" exactly for the "bestseller" category and "New Arrivals" for every other one, although that list is the whole catalog |
| ProductsScreen.Visible | app/products.tsx:35-45 | exactly the source products matching the search and, unless the filter is "all", the brand ignoring case, in source order |
| ProductsScreen.AllIsSearch | app/products.tsx:40 | with the "all" filter the screen shows exactly the search results |
| ProductsScreen.BrandIsSearchThenByBrand | app/products.tsx:41-44 | with a brand filter the screen shows the brand-filtered search results |
| ProductsScreen.FoundCount | app/products.tsx:173 | the count shown never exceeds the size of the source list |
| ProductsScreen.SetQuery | app/products.tsx:153 | typing changes the query only; the source list and the brand filter stay |
| ProductsScreen.OpenShowsEverything | app/products.tsx:23-24 | a freshly opened screen shows the whole source list |
| ProductsScreen.UniqueBrands | app/products.tsx:48 | each brand of the list once, at its first appearance |
| ProductsScreen.ChipsCoverSource | app/products.tsx:48 | every product's brand has exactly one chip |
| ProductsScreen.Chips | app/products.tsx:161 | "All" first, then the brands |
| ProductsScreen.FilterFor | app/products.tsx:110 | a chip selects the "all" filter exactly when it is "All" or "all"; any chip other than "All" selects its own label |
| ProductsScreen.SelectChip | app/products.tsx:110-112 | the tapped chip becomes highlighted and nothing else changes |
| ProductsScreen.ChipSelectionUnique | app/products.tsx:110-112 | without brands named "All" or "all", exactly the tapped chip is highlighted |
| ProductsScreen.BrandNamedAllShowsEverything | app/products.tsx:110 | a brand chip named "all" removes the brand restriction and highlights the "All" chip |
| Login.Validate | app/login.tsx:28-42 | the first failing check in order: blank field, then sign-up mismatch, then a password shorter than six UTF-16 units as typed; success exactly when all three pass, carrying the trimmed email and the password as typed |
| Login.WidePasswordIsLongEnough | app/login.tsx:39 | three characters above U+FFFF make a password long enough |
| Login.SignInIgnoresConfirmation | app/login.tsx:34 | in sign-in mode the confirmation field does not matter |
| Login.SpacesOnlyPasswordIsMissing | app/login.tsx:29-31 | a password of six spaces counts as missing |
| Login.PaddedPasswordIsKept | app/login.tsx:39-47 | spaces around a password are sent and count towards its length |
| Login.AfterCall | app/login.tsx:46-68 | sign-up success alerts, sign-in success goes to the tabs, and a rejection alerts its message or the default one when that is empty |
| Login.HandleAuth | app/login.tsx:28-72 | a failed check is one error alert; otherwise spinner on, the call with the validated request, the report of its outcome, spinner off |
| Login.PressMain | app/login.tsx:185-188 | the main button does nothing while a request is in flight |
| Login.PressSettles | app/login.tsx:44-71 | a press leaves the spinner off and makes one call exactly when the checks pass, none otherwise |
| Login.ToggleMode | app/login.tsx:207-213 | the switch flips the mode and empties the confirmation unless a request is in flight |
| Login.ToggleTwice | app/login.tsx:209-211 | switching twice restores the mode with the confirmation emptied |
| Login.SignUpNeedsFreshConfirmation | app/login.tsx:34-37 | right after switching to sign-up, a filled-in form fails the match check |
| AuthGuard.Decide | components/AuthGuard.tsx:11-45 | loading gives a spinner and no redirect; signed out on a protected screen redirects to /login and renders nothing; signed in on a public screen redirects to /(tabs) and renders the children; otherwise children and no redirect |
| AuthGuard.NothingMeansLoginRedirect | components/AuthGuard.tsx:19-21 | the guard renders nothing exactly when it redirects to /login |
| AuthGuard.ChildrenWhenAllowed | components/AuthGuard.tsx:40-42 | children appear exactly when loading is over and the screen is public or a user is signed in |
| AuthGuard.PublicScreensAlwaysRender | components/AuthGuard.tsx:40-42 | a public screen shows its children once loading ends, signed in or not |
| AuthGuard.DefaultIsPublic | components/AuthGuard.tsx:13 | omitting requireAuth is the same as passing false |
| AuthGuard.RedirectsFollowSession | components/AuthGuard.tsx:18-26 | a signed-in user is never sent to /login and a signed-out visitor never to /(tabs) |

## Left out

- Network calls are not modelled. That covers the catalog download, the per-id product request, the authentication service and the Gemini model. Their results are inputs: a catalog, a table of per-id responses, an outcome, or a reply text. `None` or a missing entry stands for a call that threw.
- The assembly of the Gemini prompt is left out. The prompt is only sent to the external model, and the reply is an input.
- AsyncStorage and JSON encoding are left out. The store is a cell holding a list of ids or nothing. Serialisation is assumed to round-trip, and read and write faults are booleans.
- Concurrent or overlapping calls are left out, including overlapping toggles, `Promise.all` ordering, and replies arriving after the screen changed. Each operation runs to completion before the next starts.
- Lower-casing of non-ASCII text is not modelled. Vietnamese product names lower-case only their ASCII letters here.
- Floating-point arithmetic is left out. Prices, deals and ratings are integers, averages are exact. Display formatting (`toFixed`, `Math.round`) is out as well.
- Api.NewArrivals: requires every id to start with a decimal digit, not to start with `0x` or `0X`, and to have at most fifteen leading digits. For any other id the model does not say where it ranks. `parseInt` reads a `0x` id as hexadecimal. It gives NaN for a non-numeric id. The sort reads a NaN comparison as 0, "equal", so a mix of numeric and non-numeric ids makes the comparator inconsistent, and the resulting order is then implementation-defined. It rounds a longer digit run to the nearest double, which can create ties the exact value would not.
- Api.NewArrivalsAreTop: holds under the same id restriction as Api.NewArrivals.
- Api.NewArrivalsStable: holds under the same id restriction as Api.NewArrivals.
- Image picking and the canned reply it produces are left out. They are UI only.
- The navigation done by the OK button of the sign-up alert is left out. It happens after the press, when the user dismisses the alert.
- The loading screen of the login page, the theme context and the product hooks' loading and error bookkeeping are left out. The hooks only wrap the catalog views modelled here.
- A rejection that carries no message, or throws a value that is not an error, is modelled as a rejection with an empty message; both show the default alert text.
- The wait for a reply is left out. A send is modelled as one step that ends with loading off. `loading` is on only in a state given to `Chatbot.Press`, which then does nothing.
