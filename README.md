# Storefront cart, media-delete route, subtotal and cover image — a Dafny model

This project models the parts of a small game storefront that have logic of their own:

- **Cart state** (`CartContext`): the provider keeps `cartItems`, an ordered list of `Game`
  records. `addToCart` appends a game only when no entry has its `id`. `removeFromCart`
  filters out every entry with the given `id`. `cartCount` is the list length. The updaters
  are pure functions (`Find`, `AddItem`, `RemoveItem`). The provider is the class
  `CartProvider`, whose methods replace `cartItems` with the updater's result and keep the
  invariant that identifiers are distinct. `Replay` runs any sequence of user actions from
  the empty cart. `ReplayInvariant` proves that the cart then holds exactly the identifiers
  added and not removed since, each once.
- **Media-delete route** (`MediaDelete`): JavaScript `String.prototype.split` with a
  non-empty separator (leftmost, non-overlapping matches), proved against its inverse `Join`.
  On top of it: the storage-key extraction `pathname.split('/game-media/')[1]` and the
  `POST` handler. The pure functions `KeyToRemove` and `Respond` decide which key is removed,
  if any, and whether the answer is 400, 500 or 200. The `game-media` bucket is an object,
  `MediaBucket`: its `Remove` method records every call in `removed`, and what `remove`
  reports is the bucket's `outcome`. `Post` follows the handler step by step. On every early
  return it leaves `removed` unchanged. Otherwise it appends exactly one call, with the
  one-element key list, so a second storage call would break its contract.
  Reading the request body and `new URL(...)` are inputs: a `RequestBody` value and a
  function `JsValue -> UrlParse` (`ParseFailed(msg) | Pathname(p)`).
- **Cart-page subtotal** (`CartPage`): the `reduce` over the page's fixed item list with
  initial value 0, proved equal to a reference sum of prices.
- **Store-page cover image** (`StorePage`): `media_urls?.[0] || placeholder`, with
  JavaScript's treatment of `undefined` and `""` as falsy.

`Game` (`Types`) follows `src/types/index.ts:2-12`. Identifiers and prices are mathematical
integers, so the source's floating-point `number` type is not modelled.

Two behaviours of the code are worth stating directly:
- An unparsable `fileUrl` answers 500, not 400. `new URL` throws inside the `try`, and the
  `catch` answers 500.
- `removeFromCart` removes every entry with the identifier, not just one.
  On carts reachable from the empty cart at most one entry has a given identifier, because
  `ReplayInvariant` proves the identifiers are distinct.

Key extraction from `p + "/game-media/" + k` needs more than "neither `p` nor `k` contains
the separator". When `p` ends with `/game-media`, the separator's leading `/` completes an
earlier match. `OverlappingPrefixShiftsKey` shows that `"/game-media"` + separator +
`"a.png"` yields the key `"game-media/a.png"`. `ExtractKeyOfJoined` states the exact
condition (`NoEarlyMatch`). `NoEarlyMatchWhen` reduces it to "does not contain the
separator and does not end with `/game-media`". This is how `split` behaves, not a defect of
the route: its real pathnames begin `/storage/v1/object/public` (`PublicObjectUrlKey`).

## Model

| member | source | states |
|---|---|---|
| `CartContext.Find` | src/contexts/CartContext.tsx:27 | `find` yields nothing exactly when no entry has the id; otherwise the first entry with that id |
| `CartContext.AddItem` | src/contexts/CartContext.tsx:26-31 | an id already present leaves the cart unchanged (old entry kept); an absent id appends the item at the end, earlier entries unchanged and in order, length grows by one |
| `CartContext.RemoveItem` | src/contexts/CartContext.tsx:35 | the result never grows and holds exactly the ids of the cart other than the removed one |
| `CartContext.RemoveConcat` | src/contexts/CartContext.tsx:35 | filtering distributes over concatenation (order of survivors preserved) |
| `CartContext.RemoveAbsent` | src/contexts/CartContext.tsx:35 | removing an absent id is a no-op |
| `CartContext.RemoveSnoc` | src/contexts/CartContext.tsx:35 | removal keeps a trailing entry exactly when its id differs, after the filtered prefix |
| `CartContext.RemoveAt` | src/contexts/CartContext.tsx:35 | in a cart with distinct ids, removing the id at position i deletes exactly that entry and keeps all others in order |
| `CartContext.AddIdempotent` | src/contexts/CartContext.tsx:25-32 | `add(add(c, x), x) == add(c, x)` |
| `CartContext.AddThenRemove` | src/contexts/CartContext.tsx:27-35 | adding a fresh id and then removing it restores the original cart |
| `CartContext.RemoveIdempotent` | src/contexts/CartContext.tsx:35 | removing twice equals removing once |
| `CartContext.AddKeepsDistinct` | src/contexts/CartContext.tsx:25-32 | `addToCart` preserves pairwise-distinct ids |
| `CartContext.RemoveKeepsDistinct` | src/contexts/CartContext.tsx:34-36 | `removeFromCart` preserves pairwise-distinct ids |
| `CartContext.RemoveIds` | src/contexts/CartContext.tsx:35 | the ids after removal are the ids before minus the removed one |
| `CartContext.DistinctCount` | src/contexts/CartContext.tsx:38 | with distinct ids, the length equals the number of ids in the cart |
| `CartContext.StepInvariant` | src/contexts/CartContext.tsx:25-36 | one add or remove keeps ids distinct and adds or removes exactly that id from the id set |
| `CartContext.ReplayInvariant` | src/contexts/CartContext.tsx:23-38 | from the empty cart, every sequence of adds and removes keeps ids distinct, the cart's ids are those added and not removed since, and the length is their number |
| `CartContext.CartProvider.constructor` | src/contexts/CartContext.tsx:23 | the cart starts empty and valid |
| `CartContext.CartProvider.AddToCart` | src/contexts/CartContext.tsx:25-32 | replaces the items with the add updater's result and keeps ids distinct |
| `CartContext.CartProvider.RemoveFromCart` | src/contexts/CartContext.tsx:34-36 | replaces the items with the filter's result and keeps ids distinct |
| `CartContext.CartProvider.CartCount` | src/contexts/CartContext.tsx:38 | the count is the list length and, with distinct ids, the number of distinct games in the cart |
| `MediaDelete.IndexOf` | src/app/api/media/delete/route.ts:21 | the leftmost occurrence of the separator at or after the start position, or none at all |
| `MediaDelete.Split` | src/app/api/media/delete/route.ts:21 | `split`: at least one piece, no piece contains the separator, joining the pieces with the separator gives back the input, one piece exactly when the separator is absent, and otherwise the first piece ends at the leftmost occurrence |
| `MediaDelete.ExtractKey` | src/app/api/media/delete/route.ts:21 | element `[1]` is absent exactly when the pathname lacks `/game-media/`; a present key never contains it |
| `MediaDelete.FirstOccurrenceAfter` | src/app/api/media/delete/route.ts:21 | after a prefix with no early match, the first separator is the one right after the prefix |
| `MediaDelete.SplitAfterPrefix` | src/app/api/media/delete/route.ts:21 | such a pathname splits into the prefix followed by the pieces of the rest |
| `MediaDelete.NoneBeforeFirst` | src/app/api/media/delete/route.ts:21 | the text before the leftmost separator contains no separator |
| `MediaDelete.SplitAround` | src/app/api/media/delete/route.ts:21 | at an occurrence, the pathname is the text before it, the separator and the rest |
| `MediaDelete.SecondPiece` | src/app/api/media/delete/route.ts:21 | the second piece of `p + sep + k + sep + rest` is `k` when neither `p` nor `k` makes an early match |
| `MediaDelete.ExtractKeyOfJoined` | src/app/api/media/delete/route.ts:18-21 | for `p + "/game-media/" + k` with no early match in `p` and no separator in `k`, the key is exactly `k` |
| `MediaDelete.ExtractKeyStopsAtSecond` | src/app/api/media/delete/route.ts:21 | when the separator occurs again, the key is only the text between the first and second occurrences |
| `MediaDelete.OverlapIsSeparatorHead` | src/app/api/media/delete/route.ts:21 | an occurrence running from `p` into the separator starts 11 characters before the end, where `p` ends with `/game-media` |
| `MediaDelete.NoEarlyMatchWhen` | src/app/api/media/delete/route.ts:21 | a prefix without the separator that does not end with `/game-media` has no early match |
| `MediaDelete.NoDashNoEarlyMatch` | src/app/api/media/delete/route.ts:21 | a prefix without `-` has no early match |
| `MediaDelete.PublicObjectUrlKey` | src/app/api/media/delete/route.ts:17-21 | a public object pathname `/storage/v1/object/public/game-media/<k>` yields key `k` |
| `MediaDelete.OverlappingPrefixShiftsKey` | src/app/api/media/delete/route.ts:21 | "neither part contains the separator" is not enough: `/game-media` + separator + `a.png` yields `game-media/a.png` |
| `MediaDelete.MessageOrDefault` | src/app/api/media/delete/route.ts:40 | `error.message \|\| default` is never empty and keeps a non-empty message |
| `MediaDelete.Failure` | src/app/api/media/delete/route.ts:38-40 | the catch block answers 500 with a non-empty error message |
| `MediaDelete.RemoveResponse` | src/app/api/media/delete/route.ts:32-40 | a successful removal answers 200 with the confirmation; a storage error answers 500 with its message (or the default) |
| `MediaDelete.Truthy` | src/app/api/media/delete/route.ts:13 | `!fileUrl` holds exactly for `undefined`, `null`, `false`, `0` and `""` |
| `MediaDelete.KeyToRemove` | src/app/api/media/delete/route.ts:11-25 | no key for an unreadable body, a falsy `fileUrl`, an unparsable URL or a pathname without the separator; a key exactly when all checks pass and the extracted key is non-empty, and then it is that key and never contains the separator |
| `MediaDelete.Respond` | src/app/api/media/delete/route.ts:10-41 | unreadable body: 500; falsy `fileUrl`: 400; unparsable URL: 500, not 400; no key or an empty key: 400; otherwise 200 on success or 500 with the storage error's message (or the default) |
| `MediaDelete.MediaBucket.constructor` | src/app/api/media/delete/route.ts:28-29 | a bucket with the given removal outcome and no calls recorded |
| `MediaDelete.MediaBucket.Remove` | src/app/api/media/delete/route.ts:28-30 | records the key list as one more call and returns the outcome for it |
| `MediaDelete.Post` | src/app/api/media/delete/route.ts:4-42 | answers `Respond`'s decision; with no key to remove the bucket's calls are unchanged, otherwise exactly one `remove([key])` call is appended |
| `CartPage.ReducePrices` | src/app/cart/page.tsx:7 | the left-to-right reduce from accumulator `acc` yields `acc` plus the sum of the prices |
| `CartPage.Subtotal` | src/app/cart/page.tsx:7 | the subtotal of no items is 0 and equals the sum of prices, each item counted once |
| `CartPage.SubtotalConcat` | src/app/cart/page.tsx:7 | the subtotal of a concatenation is the sum of the subtotals |
| `CartPage.SubtotalAround` | src/app/cart/page.tsx:7 | each item's price enters the subtotal exactly once, between the subtotals of the items before and after it |
| `CartPage.SubtotalNonNegative` | src/app/cart/page.tsx:7 | with non-negative prices the subtotal is at least 0 |
| `CartPage.SubtotalBoundsEachPrice` | src/app/cart/page.tsx:7 | with non-negative prices the subtotal is at least every item's price |
| `CartPage.DummySubtotal` | src/app/cart/page.tsx:3-7 | the page's two items priced 500 and 300 give subtotal 800 |
| `StorePage.FirstMediaUrl` | src/app/store/page.tsx:40 | `media_urls?.[0]` is present exactly for a non-null, non-empty list, and is its first element |
| `StorePage.OrPlaceholder` | src/app/store/page.tsx:40 | `first \|\| placeholder`: a non-empty first URL is kept; `undefined` or `""` gives the placeholder |
| `StorePage.CoverImage` | src/app/store/page.tsx:40 | null list, empty list or empty first URL give the placeholder; a non-empty first URL is the cover |
| `StorePage.GameCover` | src/app/store/page.tsx:38-40 | a card's cover is the placeholder or one of the game's own media URLs |
| `StorePage.CoverIgnoresLaterUrls` | src/app/store/page.tsx:40 | the cover never depends on any URL after the first |

## Left out

- Tax and total (`src/app/cart/page.tsx:8-9`) multiply by `0.1` in floating point, which is not modelled.
- `toLocaleString` formatting and all rendering.
- `useCart`'s "outside a provider" error and the React context plumbing (`src/contexts/CartContext.tsx:12-20,40-44`). These are framework wiring, not cart behaviour.
- The store page's fetch, loading and error effect (`src/app/store/page.tsx:12-29`). It is network I/O.
- Supabase client construction and environment variables (`src/app/api/media/delete/route.ts:5-8`). `request.json()` and `new URL(...)` are inputs, so percent-decoding and host handling are not modelled. The bucket's storage is only its recorded calls and their reported outcome. `console.error` logging is left out too.
- `MediaDelete.Truthy`: `fileUrl` numbers are integers, so `NaN` and `-0` (also falsy in JavaScript) are not modelled.
- `MediaDelete.Split`: models `split` only for a non-empty separator. The route only splits on the constant `/game-media/`.
- Thrown errors without a `message` property are modelled as errors with an empty message. Both give the default message.
- The other routes and pages (`src/app/api/games/route.ts`, `src/app/api/games/[id]/route.ts`, `src/app/creator/dashboard/page.tsx` and the presentation-only pages). They are passthroughs to the hosted database, form state or markup.
- The cart `Game` is the full record. The cart page's placeholder items have their own shape, `CartLine` (id, name, price, image URL), as in `src/app/cart/page.tsx:3-6`.
