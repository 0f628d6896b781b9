# Smart inventory system: matching engine and state reducers

A Dafny model of the logic core of the smart inventory app.

- **Matching engine** (`services/productMatching.ts`):
  - `findMatchingProducts` classifies OCR text against the product
    catalog as `'exact'`, `'multiple'` or `'none'`, with a confidence
    of 1.0, 0.9 or 0.7;
  - `calculateSimilarity` scores two strings with a Levenshtein
    distance;
  - `shouldAutoAdd` compares a confidence against a threshold that defaults to 0.9;
  - `cleanOcrText` normalises scanned text.
- **Inventory reducer** (`contexts/inventoryReducer.ts`) and its
  `calculateCartTotal`.
- **Cart reducer** (`contexts/cartReducer.ts`), which recomputes the cart
  total after every change to the item list.

Modules:

| module | file | models |
|---|---|---|
| `Types` | `types.dfy` | `types/inventory.ts`: products, cart lines, the two states, the two action unions |
| `Seqs` | `seqs.dfy` | generic `filter`, `every` and order-preserving subsequences |
| `Text` | `text.dfy` | the JavaScript string built-ins the engine uses (see below) |
| `ProductMatching` | `product_matching.dfy` | the matching engine |
| `InventoryReducer` | `inventory_reducer.dfy` | the inventory reducer and the cart total |
| `CartReducer` | `cart_reducer.dfy` | the cart reducer |

The JavaScript built-ins modelled in `Text` are:

- `trim`;
- `toLowerCase`;
- `includes`;
- `split(/\s+/)`;
- `replace(/\s+/g, ' ')`.

White space is the exact code-point set that ECMAScript's `\s` and `trim`
use. Four files restate the source's unit tests as lemmas about the model:

- `find_matching_examples.dfy`;
- `similarity_examples.dfy`;
- `product_matching_examples.dfy`;
- `reducer_examples.dfy`.

Both reducers are total functions from state and action to state. The
Levenshtein distance is a method that fills a two-dimensional array row by
row, as the source fills its matrix. The method is proved equal to a
recurrence `Dist`, and the distance's properties are proved about `Dist`.
`calculateSimilarity` calls that method, so it is a method too. It is
proved equal to the function `Similarity`.

`cleanOcrText` as written is not idempotent: see "## Findings".

## Model

| member | source | states |
|---|---|---|
| ProductMatching.FindMatchingProducts | services/productMatching.ts:7-70 | every result has one of the three shapes: `'exact'` with one match and confidence 1.0, `'multiple'` with matches and confidence 0.9 or 0.7, `'none'` with no matches and no confidence |
| ProductMatching.BlankOrEmptyGivesNone | services/productMatching.ts:21-23 | blank text or an empty catalog gives `'none'` with neither matches nor confidence |
| ProductMatching.FindMatchingProductsPasses | services/productMatching.ts:25-69 | for non-blank text and a non-empty catalog, confidence 0.7 is reported exactly when the first pass finds nothing and the fallback finds something, and `'none'` exactly when both find nothing |
| ProductMatching.ExactIff | services/productMatching.ts:25-40 | `'exact'` if and only if the text is not blank and exactly one catalog position passes the name test; the single match is then that product |
| ProductMatching.ExactWhenUnique | services/productMatching.ts:28-40 | one passing catalog position, with all others failing, gives `'exact'` with that product and confidence 1.0 |
| ProductMatching.FallbackIff | services/productMatching.ts:42-67 | confidence 0.7 if and only if the text is not blank, no product passes the name test and some product passes the token test; such a result is `'multiple'` even for one candidate |
| ProductMatching.NoneIff | services/productMatching.ts:21-69 | `'none'` if and only if the text is blank or no product passes either test |
| ProductMatching.NoneForUnmatchedWord | services/productMatching.ts:51-69 | one-word text that no product passes the name test with gives `'none'`: the fallback adds nothing |
| ProductMatching.SingleWordFallback | services/productMatching.ts:51-59 | for a one-word search text, the token test accepts exactly the products the name test accepts |
| ProductMatching.SearchTokensNonEmpty | services/productMatching.ts:21-25 | non-blank text gives a non-empty search text whose `split(/\s+/)` tokens are non-empty and contain no white space |
| ProductMatching.NameMatchesOfSpec | services/productMatching.ts:28-32 | the first pass keeps catalog order and returns exactly the products that pass the name test: each passing catalog entry as often as the catalog holds it, no other product, and with the rejected entries it makes up the whole catalog |
| ProductMatching.TokenMatchesOfSpec | services/productMatching.ts:51-59 | the fallback keeps catalog order and returns exactly the products whose every token matches: each passing catalog entry as often as the catalog holds it, no other product, and with the rejected entries it makes up the whole catalog |
| ProductMatching.MultipleAtNinety | services/productMatching.ts:42-48 | confidence 0.9 if and only if the text is not blank and two or more catalog entries pass the name test; the result is then `'multiple'` with exactly those entries |
| ProductMatching.FallbackWhenUnique | services/productMatching.ts:51-67 | when no product passes the name test and exactly one catalog position passes the token test, the result is `'multiple'` with that one product at confidence 0.7 |
| ProductMatching.MatchesAreTheFilteredCatalog | services/productMatching.ts:34-67 | the returned matches are a subsequence of the catalog: the fallback's output when the confidence is 0.7, the first pass's output otherwise |
| ProductMatching.ShouldAutoAdd | services/productMatching.ts:122-124 | under the default threshold 0.9, confidences 1.0 and 0.9 are auto-added and 0.7 is not |
| ProductMatching.ShouldAutoAddMonotone | services/productMatching.ts:122-124 | a higher confidence or a lower threshold never turns an auto-add into a refusal |
| ProductMatching.AutoAddOnlyFirstPass | services/productMatching.ts:122-124 | under the default threshold, a result is auto-added exactly when it is `'exact'` or a first-pass `'multiple'`, and never from the fallback |
| ProductMatching.FillRow | services/productMatching.ts:102-114 | one outer-loop pass fills row `i` so that every cell up to row `i` holds the recurrence's value, and leaves the rows below untouched |
| ProductMatching.LevenshteinDistance | services/productMatching.ts:91-117 | the matrix's last cell is the Levenshtein distance of the two strings, in either argument order |
| ProductMatching.DistSymmetric | services/productMatching.ts:102-114 | swapping the two strings transposes the matrix, cell by cell |
| ProductMatching.DistUpperBound | services/productMatching.ts:94-114 | no cell exceeds the longer of its two prefix lengths |
| ProductMatching.DistLowerBound | services/productMatching.ts:94-114 | no cell is below the difference of its two prefix lengths |
| ProductMatching.DistZeroIff | services/productMatching.ts:94-114 | a cell is 0 if and only if the two prefixes are equal |
| ProductMatching.DistDisjoint | services/productMatching.ts:102-114 | for strings with no common character, every cell is the longer of its prefix lengths |
| ProductMatching.CalculateSimilarity | services/productMatching.ts:76-86 | the score is `Similarity`, 1.0 for two empty strings, and lies in [0, 1] |
| ProductMatching.SimilarityBounds | services/productMatching.ts:76-86 | the score lies in [0, 1] and never exceeds the shorter length over the longer |
| ProductMatching.SimilarityOneIff | services/productMatching.ts:76-86 | the score is 1.0 if and only if the strings are equal |
| ProductMatching.SimilaritySymmetric | services/productMatching.ts:76-86 | the score does not depend on argument order, although the source breaks length ties by taking `str2` as the longer |
| ProductMatching.DisjointScoresZero | services/productMatching.ts:76-86 | two strings, not both empty, of any lengths, where no character of the first occurs in the second, score 0.0 |
| ProductMatching.CloseStringsScore | services/productMatching.ts:76-86 | strings of different lengths, in either order, whose distance is under half the longer length score strictly between 0.5 and 1.0 |
| ProductMatching.CleanOcrText | services/productMatching.ts:129-135 | the cleaned text holds only lower-case letters, digits, `_`, `-` and spaces, and never two spaces in a row |
| ProductMatching.CleanOcrTextContent | services/productMatching.ts:129-135 | apart from white space, the cleaned text is exactly the input's `[\w-]` characters, in order, lower-cased |
| ProductMatching.KeptWithoutWs | services/productMatching.ts:132 | the strip keeps `[\w\s-]`; of what it keeps, the characters that are not white space are exactly `[\w-]` |
| ProductMatching.CleanWordThenPunctuation | services/productMatching.ts:129-135 | a `[\w-]` word followed by punctuation cleans to the lower-cased word |
| ProductMatching.CleanTwoWords | services/productMatching.ts:129-135 | two words with any white space between them and around them clean to the lower-cased words joined by one space |
| ProductMatching.CleanPaddedWord | services/productMatching.ts:129-135 | a word padded by any white space cleans to the lower-cased word |
| ProductMatching.CleanWordSpacePunctuation | services/productMatching.ts:129-135 | a word, then white space, then punctuation cleans to the lower-cased word plus one trailing space, because the trim runs before the strip |
| ProductMatching.CleanOcrTextTrimLast | services/productMatching.ts:129-135 | the corrected cleaner (trim last) gives clean text with no space at either end |
| ProductMatching.CleanTrimLastIdempotent | services/productMatching.ts:129-135 | cleaning the corrected cleaner's output again changes nothing |
| ProductMatching.CleanTrimLastWordSpacePunctuation | services/productMatching.ts:129-135 | with the trim last, a word, white space and punctuation clean to the bare lower-cased word |
| Text.Trim | services/productMatching.ts:21 | trimming is empty exactly for all-white-space text; a non-empty result neither starts nor ends with white space |
| Text.SplitWs | services/productMatching.ts:53 | `split(/\s+/)` gives at least one piece, and no piece contains white space |
| Text.SplitWsWordRun | services/productMatching.ts:53 | a white-space-free word, then a run of white space, then text that does not start with white space splits into the word followed by the pieces of that text |
| Text.SplitWsContent | services/productMatching.ts:53 | the pieces laid end to end are exactly the text's non-white-space characters, in order |
| Text.SplitTrimmedTokens | services/productMatching.ts:53 | splitting non-empty text with no white space at either end gives only non-empty pieces |
| Text.CollapseWs | services/productMatching.ts:133 | the result is empty exactly for empty input; each character is a space or a non-white-space input character; no two spaces follow each other |
| Text.CollapseWsContent | services/productMatching.ts:133 | collapsing keeps the non-white-space characters, in order |
| Text.Contains | services/productMatching.ts:30-31 | `includes` holds for the empty needle and never for a needle longer than the haystack |
| Text.ContainsAt | services/productMatching.ts:57-58 | `includes` holds exactly when the needle occurs at some offset of the haystack |
| Text.NotContainsSameLength | services/productMatching.ts:30-31 | a needle as long as the haystack is contained only when the two are equal |
| Text.LowerSpec | services/productMatching.ts:25 | lower-casing keeps the length, turns each A-Z into its own lower-case letter (32 code points on), keeps every other character, and is idempotent |
| Text.LowerChar | services/productMatching.ts:25 | lower-casing maps each letter A-Z to its own letter a-z (32 code points on), leaves every other character alone, and keeps white space white space |
| Text.FilterTrim | services/productMatching.ts:131-132 | filtering by a test that rejects all white space gives the same result with or without the trim first |
| Text.LowerContent | services/productMatching.ts:134 | the non-white-space characters of lower-cased text are the lower-cased non-white-space characters |
| InventoryReducer.Reduce | contexts/inventoryReducer.ts:6-51 | only `SET_LOADING` can set `loading`; only `SET_ERROR` can set an error; every list action clears both flags; the flag actions leave the products alone |
| InventoryReducer.SetLoadingChangesOnlyLoading | contexts/inventoryReducer.ts:8-9 | `SET_LOADING` changes `loading` and nothing else |
| InventoryReducer.SetErrorRecordsError | contexts/inventoryReducer.ts:11-12 | `SET_ERROR` records the payload, clears `loading` and keeps the products |
| InventoryReducer.AddProductAppends | contexts/inventoryReducer.ts:14-20 | `ADD_PRODUCT` adds one entry: the payload last, the earlier entries unchanged, both flags cleared |
| InventoryReducer.ReplaceById | contexts/inventoryReducer.ts:25-27 | the map keeps length and every id, and turns exactly the entries with the payload's id into the payload |
| InventoryReducer.UpdateProductReplacesById | contexts/inventoryReducer.ts:22-30 | `UPDATE_PRODUCT` replaces every entry with the payload's id, keeps the others in place, and clears both flags |
| InventoryReducer.UpdateProductIdempotent | contexts/inventoryReducer.ts:22-30 | updating twice with the same payload is updating once |
| InventoryReducer.UpdateUnknownIdKeepsProducts | contexts/inventoryReducer.ts:22-30 | an update whose id no entry carries leaves the list as it was |
| InventoryReducer.DeleteProductRemovesId | contexts/inventoryReducer.ts:32-38 | `DELETE_PRODUCT` leaves no entry with the id and keeps every other entry in order; the entries lost are exactly those with the id |
| InventoryReducer.DeleteProductIdempotent | contexts/inventoryReducer.ts:32-38 | deleting an id twice is deleting it once |
| InventoryReducer.DeleteUndoesAdd | contexts/inventoryReducer.ts:14-38 | adding a product under a fresh id and then deleting that id restores the list |
| InventoryReducer.SetProductsReplacesAll | contexts/inventoryReducer.ts:40-46 | `SET_PRODUCTS` installs the payload and clears both flags |
| InventoryReducer.ReduceKeepsUniqueIds | contexts/inventoryReducer.ts:6-51 | distinct product ids stay distinct under every action, given a fresh id for `ADD_PRODUCT` and distinct ids in a `SET_PRODUCTS` payload |
| InventoryReducer.CalculateCartTotal | contexts/inventoryReducer.ts:56-61 | the total of no lines is 0 |
| InventoryReducer.FoldIsSum | contexts/inventoryReducer.ts:57-60 | the `reduce` from any start value ends at that value plus the sum of price times quantity over the lines |
| InventoryReducer.CartTotalIsSum | contexts/inventoryReducer.ts:56-61 | the cart total is the sum of price times quantity, with a missing price counting as 0 |
| InventoryReducer.CartTotalConcat | contexts/inventoryReducer.ts:56-61 | the total of two carts laid end to end is the sum of their totals |
| InventoryReducer.CartTotalSingle | contexts/inventoryReducer.ts:56-61 | a one-line cart totals that line |
| InventoryReducer.CartTotalReplaceLine | contexts/inventoryReducer.ts:56-61 | replacing one line changes the total by the difference of the two line totals |
| InventoryReducer.CartTotalNonNegative | contexts/inventoryReducer.ts:56-61 | with no negative price or quantity, the total is not negative |
| CartReducer.FindIndex | contexts/cartReducer.ts:16-18 | `findIndex` is the first position with the product id, or -1 when there is none |
| CartReducer.SetQuantity | contexts/cartReducer.ts:53-57 | the map keeps length and sets the quantity of exactly the lines with the id |
| CartReducer.Reduce | contexts/cartReducer.ts:7-87 | after every action that writes the lines, the stored total is the lines' total and both flags are clear; the flag actions keep lines and total |
| CartReducer.ReduceKeepsConsistent | contexts/cartReducer.ts:7-87 | every action keeps the stored total equal to the lines' total |
| CartReducer.MergeOrAppend | contexts/cartReducer.ts:16-32 | the line list keeps its length exactly when some line has the product, and otherwise grows by the new item at the end; every old line keeps its id and product |
| CartReducer.AddItemMergesExisting | contexts/cartReducer.ts:15-40 | `ADD_ITEM` for a product already in the cart adds the payload's quantity to its first line and changes no other line |
| CartReducer.AddItemAppendsNew | contexts/cartReducer.ts:15-40 | `ADD_ITEM` for a new product appends the payload after the unchanged lines |
| CartReducer.AddItemTotal | contexts/cartReducer.ts:15-40 | the total grows by the payload's quantity at the merged line's price, or by the payload's own line total when it is appended |
| CartReducer.AddItemKeepsDistinctProducts | contexts/cartReducer.ts:15-40 | `ADD_ITEM` keeps the lines' products pairwise distinct |
| CartReducer.RemoveItemDropsId | contexts/cartReducer.ts:42-50 | `REMOVE_ITEM` keeps, in order, exactly the lines whose id differs: each as often as before, none with the id, and the lines dropped are exactly those with the id |
| CartReducer.RemoveItemKeepsDistinctProducts | contexts/cartReducer.ts:42-50 | `REMOVE_ITEM` keeps the lines' products pairwise distinct |
| CartReducer.UpdateQuantitySetsOnlyQuantity | contexts/cartReducer.ts:52-64 | `UPDATE_ITEM_QUANTITY` sets the quantity of the lines with the id and changes nothing else |
| CartReducer.UpdateQuantityKeepsDistinctProducts | contexts/cartReducer.ts:52-64 | `UPDATE_ITEM_QUANTITY` keeps the lines' products pairwise distinct |
| CartReducer.ClearCartEmpties | contexts/cartReducer.ts:66-73 | `CLEAR_CART` empties the cart; its total 0 is the total of no lines |
| CartReducer.SetCartInstalls | contexts/cartReducer.ts:75-82 | `SET_CART` installs the payload with its total |
| CartReducer.SetLoadingChangesOnlyLoading | contexts/cartReducer.ts:9-10 | `SET_LOADING` changes `loading` and nothing else |
| CartReducer.SetErrorRecordsError | contexts/cartReducer.ts:12-13 | `SET_ERROR` records the payload and clears `loading`; lines and total stay |
| FindMatchingExamples.ExactForFullName | __tests__/services/productMatching.test.ts:33-39 | `'Coca Cola'` against the three-product catalog is `'exact'` with Coca Cola |
| FindMatchingExamples.ExactForCocaCola | __tests__/services/productMatching.test.ts:41-47 | any text whose search text is `coca cola` is `'exact'` with Coca Cola |
| FindMatchingExamples.ExactForSubstring | __tests__/services/productMatching.test.ts:49-55 | `'Cola'` is `'exact'` with Coca Cola |
| FindMatchingExamples.NoneForNonExistentProduct | __tests__/services/productMatching.test.ts:57-62 | `'Sprite'` gives `'none'` with no matches |
| FindMatchingExamples.NoneForEmptyInput | __tests__/services/productMatching.test.ts:64-68 | empty text gives `'none'` |
| FindMatchingExamples.NoneForEmptyCatalog | __tests__/services/productMatching.test.ts:70-74 | an empty catalog gives `'none'` |
| SimilarityExamples.IdenticalStringsScoreOne | __tests__/services/productMatching.test.ts:78-81 | `'test'` against itself scores 1.0 |
| SimilarityExamples.DifferentStringsScoreZero | __tests__/services/productMatching.test.ts:83-86 | `'abc'` against `'xyz'` scores 0.0 |
| SimilarityExamples.SimilarStringsScoreBetween | __tests__/services/productMatching.test.ts:88-92 | `'kitten'` against `'sitting'` scores strictly between 0.5 and 1.0 |
| ProductMatchingExamples.CleanRemovesSpecialCharacters | __tests__/services/productMatching.test.ts:96-99 | `'Coca-Cola!'` cleans to `'coca-cola'` |
| ProductMatchingExamples.CleanNormalizesWhitespace | __tests__/services/productMatching.test.ts:101-104 | `'  Coca   Cola  '` cleans to `'coca cola'` |
| ProductMatchingExamples.CleanLowerCases | __tests__/services/productMatching.test.ts:106-109 | `'COCA COLA'` cleans to `'coca cola'` |
| ProductMatchingExamples.CleanEmpty | __tests__/services/productMatching.test.ts:111-114 | the empty string cleans to the empty string |
| ProductMatchingExamples.CleanNotIdempotent | services/productMatching.ts:129-135 | as written, cleaning `'Cola !'` twice differs from cleaning it once |
| ProductMatchingExamples.TrimLastCleansColaSpaceBang | services/productMatching.ts:129-135 | the corrected cleaner turns `'Cola !'` into `'cola'` in one pass |
| FindMatchingExamples.FallbackForKatKit | services/productMatching.ts:51-67 | `'Kat Kit'` matches no product name, but both its tokens occur in Kit Kat, so the result is `'multiple'` with Kit Kat at confidence 0.7 |
| ReducerExamples.SetLoadingExample | __tests__/contexts/inventoryReducer.test.ts:19-27 | `SET_LOADING true` on the initial state sets `loading` and keeps no error |
| ReducerExamples.SetErrorExample | __tests__/contexts/inventoryReducer.test.ts:29-38 | `SET_ERROR` on a loading state records the error and clears `loading` |
| ReducerExamples.AddProductExample | __tests__/contexts/inventoryReducer.test.ts:40-50 | `ADD_PRODUCT` on the empty state gives exactly the one product, with both flags clear |
| ReducerExamples.UpdateProductExample | __tests__/contexts/inventoryReducer.test.ts:52-70 | `UPDATE_PRODUCT` keeps one product and gives it the new name |
| ReducerExamples.DeleteProductExample | __tests__/contexts/inventoryReducer.test.ts:72-86 | `DELETE_PRODUCT '1'` empties the list and clears both flags |
| ReducerExamples.SetProductsExample | __tests__/contexts/inventoryReducer.test.ts:88-107 | `SET_PRODUCTS` installs the one new product and clears both flags |
| ReducerExamples.CartTotalExample | __tests__/contexts/inventoryReducer.test.ts:110-120 | (10 x 2) + (5 x 3) + (0 x 1) totals 35 |
| ReducerExamples.CartTotalWithoutPrice | __tests__/contexts/inventoryReducer.test.ts:127-134 | a line whose product has no price adds nothing |
| ReducerExamples.AddSameProductTwice | contexts/cartReducer.ts:15-40 | adding the same new product twice leaves one line with both quantities, priced for both |

## Left out

- Floating point: prices, totals and quantities are integers (a price of
  10.99 is 1099 cents), and confidences and scores are exact reals. The model has no
  rounding and no NaN.
- ProductMatching.CalculateSimilarity: the score is computed in reals, not
  IEEE doubles, so a rounded last bit of the source's division is not
  modelled.
- InventoryReducer.LinePrice: models `price || 0` for a present or missing
  price. A NaN price, which `||` also turns into 0, does not exist in the
  model.
- InventoryReducer.CalculateCartTotal: the source takes `any[]` and reads
  `item.product?.price`. In the model every line has a product, so a line
  with no product object is not modelled.
- Text.Lower: lower-cases ASCII A-Z only. JavaScript's full Unicode
  `toLowerCase` (including the characters whose lower-case form is longer)
  is not modelled. In `cleanOcrText` the two agree, because the strip
  (services/productMatching.ts:132) keeps only ASCII `\w`, `-` and white
  space, and the collapse (line 133) turns all white space, non-ASCII
  included, into ASCII spaces before the lower-casing (line 134). In
  `findMatchingProducts` they differ only for non-ASCII characters that
  have a lower-case form (such as Ⓐ to ⓐ or Ⅰ to ⅰ).
- Strings are sequences of characters. UTF-16 surrogate pairs, which
  `length` and `charAt` count as two units, are not modelled. This affects
  `calculateSimilarity`'s lengths, its choice of the longer string and its
  divisor (services/productMatching.ts:77-85), as well as the Levenshtein
  distance (services/productMatching.ts:91-117).
- `createdAt`, `updatedAt` and `addedAt`: these dates are not part of the
  records. No core operation reads them.
- The `default` branch of both reducers is not modelled. The action
  datatypes are closed, so it cannot be reached.
- The contexts that wire the reducers into React
  (`contexts/InventoryContext.tsx`, `contexts/CartContext.tsx`) are not
  part of this model. Nor are the database service
  (`services/database.ts`), the screens and components, and the camera
  and OCR input. They are I/O and UI.

## Findings

| source | as written | input that shows it | evidently intended | confidence | as-written member | corrected member |
|---|---|---|---|---|---|---|
| services/productMatching.ts:129-135 | `cleanOcrText` trims before it strips punctuation, so white space in front of trailing (or behind leading) punctuation survives; cleaning is then not idempotent | `'Cola !'` cleans to `'cola '`, which cleans again to `'cola'` | the `.trim()` at line 131 shows the output is meant to have no space at either end; such output cleans again to itself | medium, not executed | ProductMatchingExamples.CleanNotIdempotent | ProductMatching.CleanTrimLastIdempotent |

The source's `cleanOcrText` is modelled as written (`ProductMatching.CleanOcrText`). The corrected cleaner `ProductMatching.CleanOcrTextTrimLast` moves the trim after the strip and the collapse. Its results are proved clean and unpadded, and cleaning them again is proved to change nothing. No other member of the model calls the cleaner, since `findMatchingProducts` does not clean its input.
