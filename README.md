# Pack Promo catalogue: category routing, product listing and stock display

This project models the core of the Pack Promo furniture catalogue, a Next.js shop. It covers five pieces:

- **Category table** (`lib/categories.ts`):
  - the five main categories, their display names and URL slugs;
  - the slug-to-category inverse;
  - `normalizeCategory`, which trims, removes accents (NFD, then combining marks stripped) and upper-cases;
  - `isValidCategory` and `getCategoryDisplay`.
- **Header** (`components/Header.tsx`):
  - `getActiveCategory`, which maps the browser pathname to the highlighted category. This takes in the unanchored `/categories/([^/]+)` match, `decodeURIComponent` (with the `URIError` that a malformed escape throws), accent stripping and lower-casing, and the slug table lookup.
  - The component's state (highlighted category, mobile menu open or closed) as a class whose methods are the click, logo, menu-button, outside-press and pathname handlers.
- **Category selector bar** (`components/CategorySelector.tsx`): its fixed list of names, and the slug its click handler reports.
- **Products API route** (`app/api/products/route.ts`):
  - `GET` parses `page` by `parseInt`'s rules (leading whitespace, an optional sign, then decimal digits) into an exact integer, computes `skip = (page - 1) * 12` and filters active rows on the main category, exactly but ignoring case. It then orders newest first and returns the page, the total and `hasMore`.
  - `POST` creates an active row.
  - `DELETE` removes a row by id.
  - The database is a `ProductStore` class holding a sequence of rows.
- **Product card and quick-view dialog** (`components/ProductCard.tsx`, `components/QuickView.tsx`):
  - the stock summaries and per-store rows with their badges;
  - the two pack-content parsers;
  - the image list and its navigation;
  - the "people viewing" counter, which each of two identical 3-second timers moves by -1, 0 or +1 within 18..33, so it can move twice per period.

Two shared modules model the JavaScript primitives the code relies on:

- `JsText` covers `trim`, `toUpperCase`/`toLowerCase`, accent stripping, `split`, `parseInt` and number-to-string.
- `Uri` covers `decodeURIComponent` over UTF-8 escapes.

Characters are modelled over Latin-1 and the combining diacritical marks U+0300–U+036F. That covers every string the catalogue uses.

The product API code and the category specification disagree, and the model follows the code:

- Only `mainCategory` is filtered (`app/api/products/route.ts:43-49`). A product whose `subCategory` names the requested category is not returned (`ProductsRoute.SubCategoryIgnored`).
- Only the exact string `TOUS` switches the filter off. A lower-case `tous` filters on a category no product has (`ProductsRoute.LowerCaseTousFilters`).
- The comparison ignores case but not accents (`ProductsRoute.MatchKeepsAccents`).

The header's category keys carry accents (`SALLE À MANGER`, `SÉJOUR`, `CHAMBRE À COUCHER`), while the table's keys do not. `Header.HeaderKeysAgainstTable` proves two facts about this:

- every header key normalises to its table key;
- only `TOUS` and `ENSEMBLES DE JARDIN` are literally table keys.

The card and the dialog read the same "dimensions" text differently. The card splits on every `+` and looks for `<digits>x<name>` anywhere in a part. The dialog takes at most two parts and reads the second as `<name>x<quantity>`. So for any `<first> + <digits>x <name>`, `Table + 2x Chaises` say, the card shows `Chaises ×2` while the dialog shows an item named `2` with no quantity (`QuickView.ReadingsDisagree`). This is documented as behaviour, not as a defect, because the two components may expect differently written data.

## Model

| member | source | states |
|---|---|---|
| Categories.InvertEntriesLookup | lib/categories.ts:41-47 | When the slugs are distinct, inverting the category→slug entries maps each slug back to its category |
| Categories.CategoryTableShape | lib/categories.ts:1-38 | Five distinct keys; the predefined, display-name and slug tables have the same key set |
| Categories.SlugRoundTrip | lib/categories.ts:32-47 | The slug-to-category table is exactly the inverse of the category-to-slug table: its keys are the slugs and it maps each slug back |
| Categories.DisplayToDbIdentity | lib/categories.ts:67-73 | The display-to-database table maps every category key to itself |
| Categories.GetCategoryDisplay | lib/categories.ts:62-64 | A category's label is its display name, and that label normalises back to the key and is therefore a valid category |
| Categories.NormalizeShape | lib/categories.ts:49-55 | Normalised text has no lower-case letter, no precomposed accented letter and no combining mark |
| Categories.NormalizeCategory | lib/categories.ts:49-55 | Normalising never lengthens the text, for the case mapping modelled |
| Categories.IsValidCategory | lib/categories.ts:57-60 | A valid category's normal form is a key that is its own normal form, so validating normalised text gives the same answer |
| Categories.NormalizePrecomposed | lib/categories.ts:49-55 | For text without any combining mark (precomposed text), each normalised character is the upper-cased base letter of the trimmed input at the same position |
| Categories.NormalizeTwice | lib/categories.ts:49-55 | For every text, decomposed included, normalising the normal form again only trims it |
| Categories.NormalizeIdempotentUnpadded | lib/categories.ts:49-55 | Wherever the normal form neither starts nor ends with whitespace, decomposed text such as `e` followed by U+0301 included, normalising twice is the same as normalising once |
| Categories.NormalizeIdempotent | lib/categories.ts:49-55 | For text without any combining mark (precomposed text), normalising twice is the same as normalising once |
| Categories.NormalizeStrayMark | lib/categories.ts:49-55 | With a combining mark after a trailing space, normalising twice differs from once (`a ́` gives `A ` and then `A`) |
| Categories.NormalizeCanonical | lib/categories.ts:49-55 | Unaccented, upper-case, unpadded text is its own normal form |
| Categories.KeysValid | lib/categories.ts:57-60 | Every category key is its own normal form and is a valid category |
| Categories.DisplayNamesNormalize | lib/categories.ts:23-29 | Every display name normalises to its key and is valid, so the two tables are consistent under the normaliser |
| Categories.NormalizeSejourSpellings | lib/categories.ts:49-55 | ` séjour ` and `SEJOUR` both normalise to `SEJOUR` |
| Categories.HyphenatedInvalid | lib/categories.ts:57-60 | No text containing `-` is a valid category |
| Categories.SlugsValidity | lib/categories.ts:32-38 | The one-word slugs `tous` and `sejour` pass `isValidCategory` |
| Categories.HyphenatedSlugsInvalid | lib/categories.ts:32-38 | Every other slug fails `isValidCategory`, because each holds a `-` |
| Header.SlugTablesInverse | components/Header.tsx:57-63 | The header's slug table and the click handler's category-to-slug table are inverse bijections |
| Header.NonSlashRun | components/Header.tsx:52 | The greedy `[^/]*` run is the longest slash-free prefix |
| Header.MatchCategoriesSegment | components/Header.tsx:52 | A captured segment is non-empty and contains no `/` |
| Header.SlugLookupAsWritten | components/Header.tsx:71 | The object-literal lookup resolves exactly the table's slugs, and finds an inherited member exactly for the other names on `Object.prototype` |
| Header.SlugLookup | components/Header.tsx:57-71 | The corrected lookup resolves exactly the table's slugs to their categories, and gives no category otherwise |
| Header.GetActiveCategory | components/Header.tsx:45-80 | The corrected resolution never yields a value inherited from `Object.prototype` |
| Header.GetActiveCategoryAsWritten | components/Header.tsx:45-80 | The resolution as written yields an inherited value only for a member of `Object.prototype` that is not a slug |
| Header.NoCategoryOffCatalog | components/Header.tsx:47-49 | No pathname, the empty pathname and any `/products/…` path highlight nothing, in both versions |
| Header.ProductPageWithCategory | components/Header.tsx:47-49 | A product page highlights nothing, even when its path contains `/categories/<slug>` |
| Header.HomeIsTous | components/Header.tsx:75-77 | The home page `/` highlights `TOUS` |
| Header.OtherPathsNoCategory | components/Header.tsx:75-79 | Any other path without a category segment highlights nothing |
| Header.MatchPrefixed | components/Header.tsx:52 | `/categories/<segment>` captures exactly the segment |
| Header.CategoryPathNotProduct | components/Header.tsx:47-52 | A `/categories/` path is never taken for a product page |
| Header.ResolveCategoryPath | components/Header.tsx:52-71 | `/categories/<segment>` resolves by decoding the segment (failing with a URI error) and then looking up its normalised form |
| Header.SlugTextFixed | components/Header.tsx:54-69 | A lower-case ASCII slug is unchanged by decoding and normalisation |
| Header.NavigationRoundTrip | components/Header.tsx:94-103 | For every category, the path the click handler pushes resolves back to that category |
| Header.ResolvedMeansSlug | components/Header.tsx:45-80 | A path highlights a category only if it is `/` and the category is `TOUS`, or its decoded, normalised segment is that category's slug |
| Header.UnknownSlugNoCategory | components/Header.tsx:66-71 | A decodable segment whose normal form is not a slug highlights nothing |
| Header.MalformedSegmentThrows | components/Header.tsx:54 | An undecodable segment makes the resolution throw a URI error |
| Header.SejourSpellings | components/Header.tsx:54-71 | `séjour`, `sejour`, `SEJOUR` and `s%C3%A9jour` all highlight `SÉJOUR` |
| Header.NavigationPath | components/Header.tsx:94-103 | The click handler's target path resolves to the clicked category |
| Header.LinkHrefCounterexample | components/Header.tsx:161-169 | The dining-room link's `href` `/categories/salle à manger` resolves to no category; the handler's path resolves to the dining room |
| Header.AsWrittenAgrees | components/Header.tsx:71 | The as-written and corrected resolutions differ only where the as-written one returns an `Object.prototype` member |
| Header.ProtoLookupCounterexample | components/Header.tsx:71 | `/categories/__proto__` yields the inherited `__proto__` member (`Object.prototype`) as written, and no category once corrected |
| Header.PrototypeLookupCounterexample | components/Header.tsx:71 | `/categories/constructor` yields the inherited `constructor` as written, and no category once corrected |
| Header.SlugsAgreeWithTable | components/Header.tsx:94-100 | The header's slugs equal the category table's slugs |
| Header.DisplayNamesAgreeWithTable | components/Header.tsx:20-26 | The header's display names equal the category table's |
| Header.HeaderKeysAgainstTable | components/Header.tsx:15-17 | Each accented header key normalises to its table key and is valid; only `TOUS` and `ENSEMBLES DE JARDIN` are literally table keys |
| Header.HeaderState.constructor | components/Header.tsx:40-42 | Starts with `TOUS` highlighted and the menu closed |
| Header.HeaderState.HandleCategoryClick | components/Header.tsx:87-104 | Clicking the highlighted category does nothing. Clicking another highlights it, closes the menu and navigates to a path that resolves back to it |
| Header.HeaderState.HandleLogoClick | components/Header.tsx:112-147 | A logo click acts as a click on `TOUS`, pushing `/categories/tous` unless `TOUS` is already highlighted. The link then navigates to `/`, which resolves to `TOUS` |
| Header.HeaderState.ToggleMenu | components/Header.tsx:238-242 | The menu button flips the menu and leaves the highlight alone |
| Header.HeaderState.HandleMouseDown | components/Header.tsx:117-135 | A press off the menu button closes the menu; a press on it leaves the menu to the button's handler |
| Header.HeaderState.SyncWithPathname | components/Header.tsx:82-84 | On a pathname change `activeCategory` becomes what the lookup as written returns, an inherited prototype member included. The entry drawn as active is the one the table-confined lookup finds. A malformed escape throws and leaves the state unchanged |
| Header.ClickThenNavigate | components/Header.tsx:87-104 | After a click and the navigation it triggers, the clicked category is highlighted |
| Header.LogoThenNavigate | components/Header.tsx:112-147 | After a logo click and the navigations it pushes, exactly `TOUS` is highlighted |
| CategorySelector.SlugShape | components/CategorySelector.tsx:44-46 | A reported slug has no whitespace and no upper-case letter |
| CategorySelector.Slug | components/CategorySelector.tsx:44-46 | `TOUS` gives `tous`; a slug is empty exactly when the name is, and never longer than it |
| CategorySelector.TousSpecialCaseAgrees | components/CategorySelector.tsx:44-46 | The `TOUS` special case gives the same slug the general rule would |
| CategorySelector.EntriesMatchTable | components/CategorySelector.tsx:10-16 | Each listed name is the table key at the same position and has a label, and its derived slug is the table's slug |
| CategorySelector.SlugResolvesInHeader | components/CategorySelector.tsx:42-48 | The slug the selector reports resolves, in the header, to the same category |
| CategorySelector.SelectorState.constructor | components/CategorySelector.tsx:23 | Starts with `TOUS` active and nothing reported |
| CategorySelector.SelectorState.HandleCategoryClick | components/CategorySelector.tsx:42-48 | The clicked name becomes active and its slug is reported exactly once |
| ProductsRoute.Skip | app/api/products/route.ts:31-35 | The offset exists exactly when `parseInt` of the page text (default `1`) succeeds, and is (page − 1) × 12 |
| ProductsRoute.SkipDefault | app/api/products/route.ts:31 | A missing or empty `page` means offset 0 |
| ProductsRoute.SkipOfPage | app/api/products/route.ts:31-35 | Requesting page k by its decimal text gives offset (k − 1) × 12, for every integer k, computed exactly |
| ProductsRoute.MatchingMembers | app/api/products/route.ts:39-49 | A row is selected exactly when it is in the database, active, and (when filtering) has the requested main category ignoring case |
| ProductsRoute.Insert | app/api/products/route.ts:67-69 | Insertion adds exactly one row to the multiset |
| ProductsRoute.InsertNewestFirst | app/api/products/route.ts:67-69 | Inserting into a newest-first list keeps it newest first |
| ProductsRoute.SortNewestFirstCorrect | app/api/products/route.ts:67-69 | The ordering is newest first and is a permutation of its input |
| ProductsRoute.IdLessTransitive | app/api/products/route.ts:67-69 | The id order used to break ties is transitive |
| ProductsRoute.IdLessTotal | app/api/products/route.ts:67-69 | Any two different ids are ordered one way or the other |
| ProductsRoute.SortStrict | app/api/products/route.ts:67-69 | With distinct ids, every row of the ordering precedes every later one (newer, or as new with a smaller id) |
| ProductsRoute.StrictUnique | app/api/products/route.ts:67-69 | Two strictly ordered sequences of the same rows are equal: a tie-breaker leaves one possible answer |
| ProductsRoute.SortAdmissible | app/api/products/route.ts:67-69 | The query's ordering is an answer `createdAt` descending allows, and with distinct ids the only answer the tie-broken order allows |
| ProductsRoute.PageSlice | app/api/products/route.ts:70-71 | A page holds at most 12 rows: the window starting at the offset, or nothing past the end |
| ProductsRoute.Query | app/api/products/route.ts:63-80 | A listing is returned exactly when the database answers and the offset is non-negative. Its total counts all matches, its rows are the page window of the newest-first matches, and `hasMore` says rows remain after the page |
| ProductsRoute.Get | app/api/products/route.ts:28-80 | A listing is returned exactly when the database answers and the page parses to a non-negative offset. Its total counts all matches, and it holds at most 12 rows, each a database row the filter selects |
| ProductsRoute.QuerySelected | app/api/products/route.ts:39-72 | A page holds at most 12 rows, each an active database row of the requested category |
| ProductsRoute.QueryNewestFirst | app/api/products/route.ts:67-69 | Every page is newest first |
| ProductsRoute.HasMoreMeansRowsRemain | app/api/products/route.ts:78 | `hasMore` holds exactly when more than offset + 12 rows match |
| ProductsRoute.PageRequest | app/api/products/route.ts:31-35 | Page k is the query at offset (k − 1) × 12; any k below 1 is a server error |
| ProductsRoute.UnfilteredCountsActive | app/api/products/route.ts:39-43 | With no filter (none, empty or `TOUS`) every active row and only those match |
| ProductsRoute.LowerCaseTousFilters | app/api/products/route.ts:43 | Lower-case `tous` does not switch the filter off |
| ProductsRoute.SubCategoryIgnored | app/api/products/route.ts:43-49 | Whether a row is selected does not depend on its subcategory |
| ProductsRoute.MatchKeepsAccents | app/api/products/route.ts:44-48 | The comparison ignores case (`SÉJOUR` matches `séjour`) but not accents (`SEJOUR` does not) |
| ProductsRoute.FirstPagesPrefix | app/api/products/route.ts:70-71 | The first n pages are the first min(12n, total) rows |
| ProductsRoute.ListedIsFirstPages | app/api/products/route.ts:63-80 | On an unchanged table, concatenating the rows of pages 1..n gives the first n pages of the newest-first matches |
| ProductsRoute.MatchingDistinct | app/api/products/route.ts:39-49 | Filtering keeps ids distinct |
| ProductsRoute.TiedRowsRepeat | app/api/products/route.ts:63-72 | As written, with 13 matching rows of one `createdAt`, two admissible answers to the two page queries make page 2 repeat a row of page 1 and never list the 13th row |
| ProductsRoute.PagingComplete | app/api/products/route.ts:28-80 | With ids distinct and `id` breaking ties, asking for pages 1 to the last of an unchanged table, each its own query, lists every match exactly once, newest first, whichever admissible answer each query gets |
| ProductsRoute.PageZeroFails | app/api/products/route.ts:31-35 | `page=0` is a server error |
| ProductsRoute.NonNumericPageFails | app/api/products/route.ts:31-35 | A `page` whose first non-blank character is neither a digit nor a sign (`abc`, say) parses to NaN and the request is a server error |
| ProductsRoute.ThirdPageSkip | app/api/products/route.ts:31-35 | `page=3` skips 24 rows |
| ProductsRoute.ThirtyRows | app/api/products/route.ts:63-80 | With 30 matches, page 1 has 12 rows and more remain; page 3 has 6 and none remain |
| ProductsRoute.NewRow | app/api/products/route.ts:11-16 | A created row is active and carries the posted fields, with the given id or a generated one |
| ProductsRoute.RemoveId | app/api/products/route.ts:98 | Removal keeps exactly the rows with a different id |
| ProductsRoute.RemoveAbsentId | app/api/products/route.ts:98 | Removing an id no row has changes nothing |
| ProductsRoute.RemoveOneRow | app/api/products/route.ts:98 | With distinct ids, removing a row's id removes just that row, in place |
| ProductsRoute.ProductStore.constructor | app/api/products/route.ts:1-5 | The store starts with the given rows, ids distinct |
| ProductsRoute.ProductStore.List | app/api/products/route.ts:28-92 | `GET` on the current rows is exactly the query at the parsed offset. It lists exactly when the page parses to a non-negative offset; the total counts matches, and every row returned is an active row of the table |
| ProductsRoute.ProductStore.Post | app/api/products/route.ts:7-26 | `POST` succeeds exactly when the body parses and the new row's id is free. It then appends that one active row built from the body; otherwise nothing changes |
| ProductsRoute.ProductStore.Delete | app/api/products/route.ts:95-104 | `DELETE` succeeds exactly when a row has the id, and then removes exactly that row; otherwise nothing changes |
| ProductCard.TotalStockAppend | components/ProductCard.tsx:70-71 | The stock total over a concatenation is the sum of the totals |
| ProductCard.TotalStockNumbersOnly | components/ProductCard.tsx:70-71 | Non-numeric values contribute nothing to the total |
| ProductCard.TotalStock | components/ProductCard.tsx:70-71 | Non-negative stock values give a non-negative total |
| ProductCard.CardStock | components/ProductCard.tsx:58-107 | "Checking" exactly while availability is unknown; otherwise in stock above 5, for 1–5 the text is the single digit, then " restant", then "s" exactly above 1, and out of stock at 0 or below |
| ProductCard.PackParts | components/ProductCard.tsx:110 | A pack has one more part than its text has `+` signs |
| ProductCard.PackPartsAreTrimmedPieces | components/ProductCard.tsx:110 | Each part is the trimmed piece between `+` signs |
| ProductCard.PackItems | components/ProductCard.tsx:109-127 | There is one item per part |
| ProductCard.ItemOf | components/ProductCard.tsx:113-126 | An item is either the whole part with quantity 1 or a match whose name is shorter than the part |
| ProductCard.PackExactlyWithPlus | components/ProductCard.tsx:129 | A product is a pack exactly when its dimensions contain `+` |
| ProductCard.ItemWithoutX | components/ProductCard.tsx:121-125 | A part without `x` is one item of quantity 1, named by the whole part |
| ProductCard.SkipDigitFree | components/ProductCard.tsx:114 | The unanchored pattern skips any digit-free prefix |
| ProductCard.CaptureOfRest | components/ProductCard.tsx:114-117 | On one line, the `\s*(.+)` capture, once trimmed, is the trimmed remainder |
| ProductCard.MatchOfQuantity | components/ProductCard.tsx:114-119 | `<digits>x<rest>` reads as the trimmed rest with the digits' decimal value |
| ProductCard.ItemWithQuantity | components/ProductCard.tsx:114-120 | After a digit-free prefix, `<digits>x<rest>` gives the item named by the trimmed rest with that quantity |
| ProductCard.QuantityIsParseInt | components/ProductCard.tsx:118 | The quantity read is `parseInt` of the digits |
| QuickView.NonEmpty | components/QuickView.tsx:56 | Filtering keeps exactly the non-empty image URLs |
| QuickView.NonEmptyAppend | components/QuickView.tsx:56 | Filtering distributes over concatenation, so order is kept |
| QuickView.Images | components/QuickView.tsx:56 | No image URL is empty, and a set main image comes first |
| QuickView.ImagesShape | components/QuickView.tsx:56 | The images are the main image (if set) followed by the non-empty gallery URLs, and nothing else |
| QuickView.NavigationShown | components/QuickView.tsx:308 | Arrows show when there is a main image and a non-empty gallery URL, and never when every gallery URL is empty |
| QuickView.PackItems | components/QuickView.tsx:70-90 | The dialog lists one or two items |
| QuickView.SecondItem | components/QuickView.tsx:86-87 | The second item's name is the part up to its first `x`, and holds no `x` |
| QuickView.SinglePart | components/QuickView.tsx:73-78 | Without `+`, the dialog shows the trimmed text as one item of quantity 1 |
| QuickView.TwoItems | components/QuickView.tsx:80-89 | With `+`, the first item is the first part with quantity 1 and the second is read from the second part |
| QuickView.LaterPartsDropped | components/QuickView.tsx:80-89 | Parts after the second are ignored |
| QuickView.SecondQuantityDefault | components/QuickView.tsx:87 | With no `x`, or nothing after it, the second item's quantity is 1 |
| QuickView.SecondNameThenQuantity | components/QuickView.tsx:86-87 | `<name>x<k>` reads as name with quantity k |
| QuickView.ReadingsDisagree | components/QuickView.tsx:80-89 | On any `<first> + <digits>x <name>` (`Table + 2x Chaises`, say) the card reads first×1 and name×digits, while the dialog reads first×1 and an item named by the digits with an unparsable quantity |
| QuickView.Clamp | components/QuickView.tsx:103-107 | The count is kept within 18..33, and a count already in range is unchanged |
| QuickView.ClampNearest | components/QuickView.tsx:103-107 | The clamped count is the in-range value nearest the unclamped one |
| QuickView.ViewerState.constructor | components/QuickView.tsx:54 | Starts at 25 viewers, first image |
| QuickView.ViewerState.Hydrate | components/QuickView.tsx:99 | The random start is 18 + r for r in 0..14, within range |
| QuickView.ViewerState.Tick | components/QuickView.tsx:103-107 | Each tick moves the count by at most one and keeps it within 18..33 |
| QuickView.ViewerState.Select | components/QuickView.tsx:144-153 | Selecting a snap shows that image and leaves the count alone |
| QuickView.StockKeysDistinct | components/QuickView.tsx:556-557 | The four stores read four different availability keys |
| QuickView.StoreStock | components/QuickView.tsx:559-563 | Emerald "En stock" above 2; red "Épuisé" at exactly 0. Otherwise amber: exactly the rendered count, then " restant", then "s" when the count is above 1 and nothing after otherwise |
| QuickView.Badge | components/QuickView.tsx:585-587 | "Disponible" above 2, "Indisponible" at exactly 0, "Stock limité" otherwise, a missing key included |
| QuickView.BadgeAgrees | components/QuickView.tsx:585-587 | The badge says "Disponible", "Indisponible" or "Stock limité" exactly when the status is emerald, red or amber |
| QuickView.StoreRowsOrder | components/QuickView.tsx:556-558 | Four rows in the fixed store order, each depending only on that store's key |
| QuickView.StoreRows | components/QuickView.tsx:556-563 | No rows until availability is known; then one row per store in the fixed order, with the line and badge of that store's stock |
| QuickView.MissingKeyLimited | components/QuickView.tsx:557-562 | A store missing from the availability shows "undefined restant" and "Stock limité" |
| Uri.Decode | components/Header.tsx:54 | Decoding never lengthens the text, and text without `%` decodes to itself |
| Uri.DecodeEncode | components/Header.tsx:54 | Decoding the UTF-8 percent-encoding of any text gives the text back |
| Uri.DecodeAccentedE | components/Header.tsx:54 | `%C3%A9` decodes to `é` |
| Uri.DecodeMalformedEscape | components/Header.tsx:54 | A `%` not followed by two hex digits throws |
| Uri.DecodeLoneContinuation | components/Header.tsx:54 | An escaped UTF-8 continuation byte with no lead byte throws |

## Left out

- Rendering, layout, animation (framer-motion), the image carousel library, icons and colour classes: these have no effect on the modelled values. `getCategoryColor` (`components/ProductCard.tsx:20-33`) is a colour lookup with nothing to state.
- Timers and `Math.random` are parameters: `QuickView.ViewerState.Hydrate` takes the random draw, and `Tick` takes the change. The two identical intervals (`components/QuickView.tsx:102`, `128`) are two sources of `Tick` calls; their interleaving is not modelled.
- The fetch of store availability (`components/ProductCard.tsx:40-56`, `components/QuickView.tsx:48-53`) is the `Option` availability parameter.
- Every other network, DOM and browser API is left out: `router.push` becomes a returned path, and DOM listeners become method calls. The two navigations of a logo click are taken to land in the order they are pushed, the link's `/` last.
- The discount rounding, price formatting and WhatsApp message building (`components/QuickView.tsx:195-211`) are display only. They use floating point and `encodeURIComponent`.
- The search modal and the header's backdrop click (`components/Header.tsx:291`) are not modelled separately. The backdrop only closes the menu, which is what `Header.HeaderState.HandleMouseDown` does for a press off the button.
- The database is a sequence of rows:
  - `ProductsRoute.Query` breaks `createdAt` ties by id, which the query as written does not do (see Findings). What each page query may answer as written is `ProductsRoute.Admissible`. Ids compare by code point, not by the database's collation.
  - A NaN or negative `skip` is assumed to be rejected, which becomes the 500 response.
  - A duplicate id on create and a missing id on delete are assumed to throw.
  - The table is one snapshot for the count, the page query and every page of a paging run. In the handler the count and the page query are two separate queries outside a transaction, and each page is its own request. A create or delete between them can shift the page window, so a row can repeat or be skipped even with the id tie-break. Writes between those queries are not modelled.
  - Error messages and the debug query of distinct categories and console logs (`app/api/products/route.ts:37`, `55-61`) are not modelled.
- `activeOnly` (`app/api/products/route.ts:33`) is read but never used, so it is not modelled.
- `JsText.ParseInt`, `ProductsRoute.Skip`, `ProductsRoute.SkipOfPage` and `ProductCard.QuantityIsParseInt`: numbers are exact unbounded integers, where JavaScript's `parseInt` returns a double. Rounding of numbers above 2^53 is not modelled. Neither is a `skip` beyond the integer range the database accepts, which would plausibly throw and give the 500.
- Stock values are integers; the card's total treats any other value as 0.
- `ProductsRoute.Query` and `ProductsRoute.ProductStore.List`: when the database call fails, the listing is `ServerError` without the error text.
- Unicode is covered only as far as Latin-1 and the combining marks. `NFD` decomposes precomposed Latin-1 letters, and case mapping covers Latin-1 only. `toUpperCase` turns `ß` into `SS` and `µ` into U+039C; the model leaves both unchanged (`ÿ` to `Ÿ` is modelled). `Categories.NormalizeCategory`'s length bound relies on this.
- `Uri.Decode` gives a Dafny string of Unicode scalar values. A four-byte sequence is one character here, where a JavaScript string holds two UTF-16 code units. Overlong encodings, surrogates and values above U+10FFFF are rejected, as `decodeURIComponent` rejects them. `Uri.Encode` escapes every character, which `encodeURIComponent` does not. It serves only as the inverse in `Uri.DecodeEncode`.
- `Categories.NormalizeCategory`: its own contract gives only a length bound; its properties are stated by the lemmas in the table.
- `Categories.GetCategoryDisplay` takes a table key. The TypeScript signature allows only `MainCategory`, so no other input is modelled.
- `QuickView.ViewerState.Hydrate` requires the draw to be in 0..14, which is what `Math.floor(Math.random() * 15)` yields.
- `pages/api/detect-products.ts`, `app/api/products/category/[category]/route.ts`, `app/categories/[category]/page.tsx` and `app/layout.tsx` are not part of this model.

## Findings

| source | as written | input that shows it | evidently intended | confidence | as-written member | corrected member |
|---|---|---|---|---|---|---|
| components/Header.tsx:71 | `slugToCategory[normalizedSlug] \|\| null` also finds properties inherited from `Object.prototype` | pathname `/categories/__proto__` stores `Object.prototype` itself as the active category, and the menu label (`components/Header.tsx:247`) renders it as a child, which React refuses; `/categories/constructor` stores the `Object` function, which renders nothing. No menu entry is highlighted in either case, because every highlight test is a strict equality with a category | only the table's own slugs resolve; anything else gives `null` | high, not executed | Header.ProtoLookupCounterexample | Header.GetActiveCategory |
| components/Header.tsx:164 | each navigation link's `href` is `/categories/` plus the lower-cased key, keeping accents and spaces | `/categories/salle à manger` (opened without the click handler, e.g. in a new tab) resolves to no category | the link points at the slug path the click handler pushes | medium, not executed | Header.LinkHrefCounterexample | Header.NavigationPath |
| app/api/products/route.ts:67-69 | the listing is ordered by `createdAt` alone, and each page is a separate query | 13 matching rows sharing one `createdAt` (created in one batch, say), the two page queries breaking the tie differently | a unique tie-breaker such as `id`, so that paging an unchanged table lists every row once | medium, not executed | ProductsRoute.TiedRowsRepeat | ProductsRoute.PagingComplete |
