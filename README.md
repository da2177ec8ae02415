# Product search page: filter, user join and likes

This project models the logic of a single-page product search screen. The page
loads a list of products and a list of users. It indexes the users by id and
offers a search box. It then shows the matching products one per row. Each row
carries the user whose id equals the product's id, when there is one, and a
Like/Unlike button backed by a set of liked product ids.

The model is split into modules that follow the page's own steps:

- `Text`: the three JavaScript string operations the filter uses.
  - `trim` is modelled on the ECMAScript WhiteSpace and LineTerminator code points.
  - `toLowerCase` is modelled on ASCII letters only.
  - `includes` is substring occurrence; the empty string occurs everywhere.
- `Records`: the `Product`, `User` and `ProductWithUser` shapes (src/App.tsx:12-26), one datatype each.
  - `Records.Product` has the fields of `Product` (12-19); `Records.User` those of `User` (20-24).
  - `Records.ProductWithUser` is a product paired with an optional user. It stands for `Product & { user?: User }` (26), built only by spreading a product and adding `user`.
- `JoinIndex`: the loop that builds `userMap` (id to user, the last user with an id wins).
  - It is written as a method with a loop, proved against the function `UserMapOf`.
  - `Lookup` models `userMap.get`.
- `FilterEngine`: `filteredProducts`.
  - The query is normalised with `trim().toLowerCase()`.
  - A blank keyword keeps every product.
  - Otherwise a product is kept when the keyword occurs in its lowercased title or description. It is also kept when a user exists under its id and the keyword occurs in that user's lowercased first or last name.
  - Every kept product gets `userMap.get(p.id)` attached.
- `Selection`: the `onToggleLike` state updater.
  - It copies the previous set, then deletes the id if present and adds it otherwise.
- `ResultView`: the choice between the "no results" message and the list of rows.
  - Each row's `liked` flag is membership of its product id in the liked set.

## Model

| member | source | states |
|---|---|---|
| Text.LowerChar | src/App.tsx:174-178 | the lowercase of a code point is never an uppercase ASCII letter. It is a space exactly when the input is. Non-letters are unchanged, and 'A'..'Z' map to 'a'..'z' at the same offset |
| Text.IsSpace | src/App.tsx:166 | the code points `trim` strips (ECMAScript WhiteSpace and LineTerminator); no ASCII letter or digit is among them |
| Text.Lower | src/App.tsx:174-178 | `toLowerCase` keeps the length, leaves no uppercase ASCII letter, and changes only uppercase letters |
| Text.LowerIdempotent | src/App.tsx:166 | lowercasing an already lowercased string changes nothing |
| Text.TrimFrom | src/App.tsx:166 | the first index at or after `from` that is not space, or the end of the string: everything skipped is space |
| Text.TrimTo | src/App.tsx:166 | the end of a range once trailing space is dropped: everything dropped is space, and the kept range ends in a non-space |
| Text.Trim | src/App.tsx:166 | `trim` returns a contiguous slice of its input; everything before and after the slice is space, and the slice neither starts nor ends with space |
| Text.TrimIs | src/App.tsx:166 | any slice meeting that description is what `trim` returns, so the result is uniquely determined |
| Text.TrimIgnoresPadding | src/App.tsx:166 | adding space at either end of a query does not change its trimmed form |
| Text.LowerTrimCommute | src/App.tsx:166 | trimming then lowercasing equals lowercasing then trimming |
| Text.Contains | src/App.tsx:174-178 | `includes`: the keyword occurs at the start or, recursively, in the rest; a string only includes keywords no longer than itself |
| Text.ContainsIff | src/App.tsx:174-178 | `includes` holds exactly when the keyword occurs at some index of the string |
| Text.ContainsEmpty | src/App.tsx:174-178 | the empty keyword is included in every string |
| Text.FirstLetterAbsent | src/App.tsx:174-178 | a keyword whose first character appears nowhere in a string is not included in it |
| JoinIndex.UserMapOf | src/App.tsx:152-156 | the map after `map.set(u.id, u)` for every user in order: every user's id is a key, and the last user is stored under its id |
| JoinIndex.UserMapOfCharacterised | src/App.tsx:152-156 | the map's keys are exactly the users' ids; each value is a user of the list with that id; the last user with a given id is the one stored |
| JoinIndex.BuildUserMap | src/App.tsx:152-156 | the `for` loop with `map.set(u.id, u)` yields the id-to-user map with the three facts above (keys, values, last one wins) |
| JoinIndex.Lookup | src/App.tsx:172 | `userMap.get(id)` is present exactly when the id is a key, and then it is the stored user |
| FilterEngine.Normalize | src/App.tsx:166 | the keyword has no uppercase letter, neither starts nor ends with space, and is empty exactly when the query is all space |
| FilterEngine.NormalizeIdempotent | src/App.tsx:166 | normalising a keyword again leaves it unchanged |
| FilterEngine.NormalizeLowercaseWord | src/App.tsx:166 | a non-empty query of lowercase letters is its own keyword |
| FilterEngine.NormalizeIgnoresCase | src/App.tsx:166 | queries equal up to ASCII case give the same keyword |
| FilterEngine.NormalizeIgnoresPadding | src/App.tsx:166 | queries differing only in surrounding space give the same keyword |
| FilterEngine.Matches | src/App.tsx:171-179 | the filter predicate: the keyword occurs in the lowercased title or description, or a user exists and it occurs in the lowercased first or last name; the empty keyword matches every product |
| FilterEngine.Attach | src/App.tsx:181 | `{ ...p, user: userMap.get(p.id) }` keeps the product and attaches the user stored under its id, present exactly when the id is a key |
| FilterEngine.AttachAll | src/App.tsx:168 | `products.map(...)` keeps the length and, at every position, the product there with the user stored under its id |
| FilterEngine.Select | src/App.tsx:170-180 | `products.filter(...)` with the search predicate is never longer than its input (its exact contents are stated by FilterEngine.SelectIsOrderedSubsequence) |
| FilterEngine.FilterProducts | src/App.tsx:165-182 | `filteredProducts`: never longer than the product list, as long as it for a blank query, and every record is one of the products with the user stored under its id |
| FilterEngine.MatchIndicesExact | src/App.tsx:171-179 | a position is kept by the filter exactly when its product, with the user under its id, satisfies the search predicate |
| FilterEngine.SelectIsOrderedSubsequence | src/App.tsx:170-180 | `products.filter(...)` returns the products at strictly increasing positions, in their original order, and exactly those that satisfy the search predicate |
| FilterEngine.SelectEmptyKeepsAll | src/App.tsx:170-180 | filtering with the empty keyword keeps every product, because `includes("")` is always true |
| FilterEngine.FilterIsOrderedJoin | src/App.tsx:165-182 | the result lists, in order, the products at strictly increasing positions of the input, each joined with `userMap.get(p.id)`; it is never longer than the product list |
| FilterEngine.FilterBlankQueryKeepsAll | src/App.tsx:166-169 | a query of only space returns every product, in order, each with its looked-up user |
| FilterEngine.FilterKeepsExactlyMatches | src/App.tsx:165-182 | for every query, a product (by position and by value) is in the result exactly when it satisfies the search predicate for the normalised keyword |
| FilterEngine.BlankKeepsEveryProduct | src/App.tsx:166-168 | for a blank query every position is kept and every product appears in the result |
| FilterEngine.SearchKeepsExactlyMatches | src/App.tsx:170-181 | for a non-blank query a product is in the result exactly when it satisfies the search predicate |
| FilterEngine.FilterWithoutUser | src/App.tsx:165-182 | for every query, a product with no user under its id is kept exactly when the keyword occurs in its lowercased title or description |
| FilterEngine.FilterAttachesLookedUpUser | src/App.tsx:152-182 | with `userMap` built from the users, every record holds one of the products; its user is present exactly when some user has the product's id, and is then the last user in the list with that id |
| FilterEngine.BlankShortcutAgreesWithFilter | src/App.tsx:167-181 | the shortcut for an empty keyword returns what the general filter-then-map path would return |
| FilterEngine.FilterIgnoresCase | src/App.tsx:165-182 | queries equal up to ASCII case produce the same result list |
| FilterEngine.FilterIgnoresPadding | src/App.tsx:165-182 | queries differing only in surrounding space produce the same result list |
| FilterEngine.FilterUpperAbcExample | src/App.tsx:165-182 | "ABC" and "abc" produce the same result list |
| FilterEngine.FilterPaddedAbcExample | src/App.tsx:165-182 | " abc " and "abc" produce the same result list |
| Selection.Toggled | src/App.tsx:115-122 | after a toggle, the id is liked exactly when it was not liked before, and every other id keeps its state |
| Selection.ToggleTwiceRestores | src/App.tsx:115-122 | toggling the same id twice restores the liked set |
| Selection.ToggleStaysWithin | src/App.tsx:99 | toggling ids taken from shown products keeps the liked set within the product ids |
| Selection.ToggleLike | src/App.tsx:116-121 | the updater copies the set and deletes the id if present, adds it otherwise: the id's membership flips and every other id keeps its state |
| ResultView.Render | src/App.tsx:208-220 | the "no results" message is shown exactly when the filtered list is empty; otherwise there is one row per record, in order, with its product, its user and whether its product id is in the liked set |
| ResultView.EmptyStateExactlyWhenNoMatch | src/App.tsx:165-209 | the message is shown exactly when the product list is empty (blank query) or when no product satisfies the search predicate (non-blank query) |
| ResultView.ToggleFlipsOnlyItsRows | src/App.tsx:211-218 | after toggling an id, only the rows whose product has that id change their liked flag; products and users of all rows stay the same |
| ResultView.AnnFindsRedShirt | src/App.tsx:165-182 | a shirt with no matching title is found by the query "ann" through its user Ann Lee, and the user is attached |
| ResultView.BlueMatchesNeither | src/App.tsx:171-179 | "blue" occurs in none of the shirt's or Ann Lee's lowercased texts |
| ResultView.BlueFindsNothing | src/App.tsx:165-209 | with the same data the query "blue" leaves the list empty, so the "no results" message is shown |

## Left out

- Loading the data: the two HTTP requests, the `?? []` defaults, the HTTP-status check, the error message and the loading flag (src/App.tsx:124-150, 184-198). The product and user lists are parameters of the model.
- The `useTransition` deferral of query updates and the `isPending` indicator (src/App.tsx:110, 158-163, 205). This is scheduling, not data. The model computes the result for whichever query is current.
- Memoisation (`useMemo`, `useCallback`, `React.memo`) and the JSX markup. The images, price and category are carried along but never interpreted.
- Windowed rendering: src/App.tsx maps over every filtered record (211-219) and has no visible-range logic, so the model has one row per record.
- Text.LowerChar: `toLowerCase` is modelled on ASCII letters only. Full Unicode case mapping (e.g. 'Ä', or characters whose lowercase is longer) is not modelled. The same limit holds for Text.Lower, FilterEngine.Normalize and FilterEngine.NormalizeIgnoresCase.
- JavaScript numbers are modelled as `int` for ids and `real` for the price. NaN, fractional ids and `-0` versus `0` as `Map` keys are not modelled.
- The React state cell behind `likedSet` is not modelled as an object. `ToggleLike` is the updater function passed to `setLikedSet`. The previous set is a value, so the updater cannot mutate it; React's batching of updaters is not modelled.
- No operation keeps the liked set inside the current product ids, and the page never prunes it when products change. Selection.ToggleStaysWithin only shows that toggling ids taken from product rows keeps that property.
- Duplicate product ids: the model has one row per record; how React renders rows with duplicate `key`s (src/App.tsx:213) is not modelled.
- Strings are modelled as sequences of Unicode code points. JavaScript strings are UTF-16 code units and may hold lone surrogates, which a Dafny `char` cannot represent. On well-formed strings `trim`, `toLowerCase` on ASCII and `includes` behave the same either way.
