# Course storefront cart, checkout and filters in Dafny

A Dafny model of the client-side logic of a storefront for IT training
courses:

- **The cart page** reads the stored cart from the browser store. It coerces
  every raw entry into a canonical line item: the price comes from `price`,
  else from `field_course_price`, is read by `parseFloat` and is clamped to 0;
  the title, brand, image and id fall back to defaults. The items are
  collapsed by node id through an insertion-ordered `Map`, then shown and
  written back. The remove button drops one position and writes the rest back.
- **The checkout page** reads the stored cart and keeps the billing form.
  Editing a field clears that field's error. All five rules are checked
  together. A valid form becomes an order whose total is the sum of the
  prices. Success clears the stored cart and opens the confirmation popup.
- **The course filters sidebar** keeps the list of checked filter URLs. A
  click toggles one URL. The next request is the checked URLs joined with `&`,
  or the default search for the host. "Clear Filters" returns to the default.
  Each facet group is headed by its key with `field_` and `_name` dropped.

Modules:

| module | file | contents |
|---|---|---|
| `Wrappers` | `wrappers.dfy` | `Option` |
| `Strings` | `strings.dfy` | the JavaScript string built-ins the pages use: `trim` (ECMAScript white space), `replace` with a string pattern (with the first-occurrence search it performs), `join`; `split` as the partner of `join`; lists of strings without repeats |
| `Numbers` | `numbers.dfy` | `parseFloat` on decimal literals |
| `CartStore` | `cart_store.dfy` | raw and canonical line items, the stored cart, `JSON.stringify` of a cart |
| `Cart` | `cart_page.dfy` | normalisation, `Map` de-duplication, removal, the `CartPage` state |
| `Checkout` | `checkout.dfy` | the form, the validation rules, the order, the `CheckoutPage` state |
| `Filters` | `course_filters.dfy` | toggling, the request URL, facet headings, the `CourseFilters` state |

The model follows the code, including these details that are easy to miss:

- A stored cart that does not parse leaves the page's cart as it was (empty at
  mount). It does not rewrite the store.
- An empty title string also falls back to "Untitled Course". A title object
  is taken as its value even when that value is empty.
- The payment-method rule only asks for a non-empty value, not for one of the
  three offered methods.

The browser store is an explicit `store` field (`Absent`, `Unparseable` or
`Saved(entries)`), and `JSON.parse` is taken as already done. The random part
of a generated item id is a parameter, one string per raw entry. The outcome
of the order request is a parameter too. `window.location.host` is a
constructor argument.

## Model

| member | source | states |
|---|---|---|
| Strings.TrimStart | src/app/cart/page.tsx:45 | the result is a suffix of the input, everything dropped is white space, and the result does not start with white space |
| Strings.TrimEnd | src/app/cart/page.tsx:45 | the result is a prefix of the input, everything dropped is white space, and the result does not end with white space |
| Strings.Trim | src/app/checkout/page.tsx:47-52 | `trim()` is empty exactly when the text is blank; otherwise neither end is white space |
| Strings.TrimStartUnpadded | src/app/cart/page.tsx:45 | text not starting with white space is unchanged by trimming the start |
| Strings.TrimUnpadded | src/app/cart/page.tsx:45 | text with no white space at either end is its own trim |
| Strings.ReplaceFirst | src/components/CourseFilters.tsx:102 | `replace` with a string pattern; its meaning is stated by `Strings.ReplaceFirstAt`, `Strings.ReplaceFirstPrefix` and `Strings.ReplaceFirstAbsent` |
| Strings.IndexOf | src/components/CourseFilters.tsx:102 | the result is the first position where the pattern occurs, or -1 exactly when it occurs nowhere |
| Strings.ReplaceFirstAt | src/components/CourseFilters.tsx:102 | `replace` swaps the first occurrence, and only that one, for the replacement |
| Strings.ReplaceFirstPrefix | src/components/CourseFilters.tsx:102 | text starting with the pattern loses exactly that prefix |
| Strings.ReplaceFirstAbsent | src/components/CourseFilters.tsx:102 | text in which the pattern occurs nowhere is left as it is (a key without `_name` keeps the rest of its text) |
| Strings.Join | src/components/CourseFilters.tsx:62 | `join("&")`; its partner `Strings.Split` undoes it (`Strings.SplitJoin`) |
| Strings.Split | src/components/CourseFilters.tsx:62 | splitting always yields at least one piece |
| Strings.SplitNoSeparator | src/components/CourseFilters.tsx:62 | a piece without the separator splits into itself |
| Strings.SplitAfterPiece | src/components/CourseFilters.tsx:62 | a separator after a separator-free piece is the first cut |
| Strings.SplitJoin | src/components/CourseFilters.tsx:62 | `join` then `split` gives back the list when no element contains the separator |
| Numbers.ParseFloat | src/app/cart/page.tsx:45-47 | `parseFloat`; when it is a number is stated by `Numbers.ParseFloatDefinedIff`, its values by `Numbers.ParseNatText`, `Numbers.ParseDecimal`, `Numbers.ParseFloatMinus`, `Numbers.ParseFloatPlus`, `Numbers.ParseUnsignedPrefix` and `Numbers.ParseUnsignedExponent` |
| Numbers.ParseUnsigned | src/app/cart/page.tsx:45-47 | the longest unsigned decimal literal at the start; stated by `Numbers.ParseUnsignedSomeIff`, `Numbers.ParseUnsignedDigits`, `Numbers.ParseDecimal`, `Numbers.ParseUnsignedPrefix` (trailing text ignored) and `Numbers.ParseUnsignedExponent` (the exponent part) |
| Numbers.ParseFloatDefinedIff | src/app/cart/page.tsx:45-50 | `parseFloat` gives a number exactly when the text starts, after white space and an optional sign, with a digit or with a point followed by a digit; otherwise it is `NaN` |
| Numbers.ParseUnsignedSomeIff | src/app/cart/page.tsx:45-50 | an unsigned literal is read exactly when the text starts with a digit, or with a point followed by a digit |
| Numbers.ParseUnsignedDigits | src/app/cart/page.tsx:45-47 | a run of digits reads as its decimal value |
| Numbers.ParseUnsignedNatText | src/app/cart/page.tsx:45-47 | the decimal text of a natural number reads, unsigned, as that number |
| Numbers.ParseNatText | src/app/cart/page.tsx:45-47 | the decimal text of a natural number reads back as that number |
| Numbers.ParseDecimal | src/app/cart/page.tsx:45-47 | `digits.digits` reads as the integer part plus the fraction |
| Numbers.ParseFloatMinus | src/app/cart/page.tsx:45-47 | a leading minus negates what follows |
| Numbers.ParseFloatMinusSome | src/app/cart/page.tsx:45-47 | a minus sign before an unsigned literal worth `v` reads as `-v` |
| Numbers.ParseFloatPlus | src/app/cart/page.tsx:45-47 | a leading plus sign changes nothing |
| Numbers.ParseUnsignedWhole | src/app/cart/page.tsx:45-47 | digits followed by anything but a digit or a point read as the digits scaled by the exponent part at the start of what follows |
| Numbers.ParseUnsignedPrefix | src/app/cart/page.tsx:45-47 | whatever follows the literal is ignored: digits followed by text not starting with a digit, `.`, `e` or `E` read as the digits alone |
| Numbers.ExponentOfNatText | src/app/cart/page.tsx:45-47 | the exponent part `e<n>` denotes `n` |
| Numbers.ScaleByPow10 | src/app/cart/page.tsx:45-47 | scaling by a non-negative exponent `n` multiplies by ten to the `n` |
| Numbers.ParseUnsignedExponent | src/app/cart/page.tsx:45-47 | digits followed by `e<n>` read as the digits scaled by ten to the `n` |
| Numbers.ParseThousandsSeparator | src/app/cart/page.tsx:45-47 | "1,200" reads as 1: the comma ends the literal |
| Numbers.ParseOneEtwo | src/app/cart/page.tsx:45-47 | "1e2" reads as 100 |
| Numbers.ParseFloatUnsigned | src/app/cart/page.tsx:45-47 | unsigned text that starts with a digit reads as its unsigned value |
| Numbers.ParseTwelveFifty | src/app/cart/page.tsx:45 | "12.50" reads as 12.5 |
| Numbers.ParseLetters | src/app/cart/page.tsx:45-50 | "abc" is `NaN` |
| Numbers.ParseNegativeNatText | src/app/cart/page.tsx:47-50 | "-n" reads as the negative number -n |
| CartStore.Serialize | src/app/cart/page.tsx:71 | the stored list holds one entry per cart item |
| Cart.ParsePrice | src/app/cart/page.tsx:45-47 | `parseFloat(String(p).trim())`; stated by `Cart.PriceClamp`, `Cart.PriceFromDecimalText` and `Cart.UnparseablePriceIsZero` |
| Cart.ResolvePrice | src/app/cart/page.tsx:41-52 | the resolved price is never negative |
| Cart.ResolveTitle | src/app/cart/page.tsx:57 | the title fallback; stated case by case by `Cart.ResolvedFields` |
| Cart.ResolveId | src/app/cart/page.tsx:55 | the id fallback; stated case by case by `Cart.ResolvedFields` |
| Cart.NormalizeItem | src/app/cart/page.tsx:54-61 | the item keeps the node id; id and brand are never empty; the price is never negative; the title is empty only for a title object with an empty value |
| Cart.NormalizeAll | src/app/cart/page.tsx:40-62 | `parsedCart.map(...)`, one item per raw entry; its items are described by `Cart.NormalizeItem` and `Cart.NormalizeSpec` |
| Cart.Upsert | src/app/cart/page.tsx:39-63 | one `Map.set`; stated by `Cart.UpsertExisting` and `Cart.UpsertNew` |
| Cart.Collapse | src/app/cart/page.tsx:39-63 | `Array.from(new Map(entries).values())`; stated by `Cart.CollapseSpec` and `Cart.CollapseDistinct` |
| Cart.Normalize | src/app/cart/page.tsx:39-63 | the loaded cart; stated by `Cart.NormalizeSpec`, `Cart.ReloadIsStable` and `Cart.LoadTwiceIsLoadOnce` |
| Cart.RemoveAt | src/app/cart/page.tsx:79 | `filter((_, i) => i !== index)`; stated by `Cart.RemoveAtSpec` |
| Cart.FirstIndex | src/app/cart/page.tsx:39-63 | the first position of a key, or -1 exactly when the key is absent |
| Cart.LastIndex | src/app/cart/page.tsx:39-63 | the last position of a key, or -1 exactly when the key is absent |
| Cart.UpsertExisting | src/app/cart/page.tsx:39-63 | `Map.set` on a key already present keeps the key's place and takes the new value, so the collapsed prefix stays collapsed |
| Cart.UpsertNew | src/app/cart/page.tsx:39-63 | `Map.set` on a new key appends it last, so the collapsed prefix stays collapsed |
| Cart.CollapseSpec | src/app/cart/page.tsx:39-63 | `Array.from(new Map(entries).values())`: no key twice, the same keys as the entries, each value from the last entry with its key, keys ordered by first appearance |
| Cart.CollapseDistinct | src/app/cart/page.tsx:39-63 | entries with distinct keys pass through the `Map` unchanged |
| Cart.NormalizeSpec | src/app/cart/page.tsx:39-63 | the loaded cart has one item per distinct raw node id, none twice, ordered by each id's first raw entry, each built from the last raw entry with that id |
| Cart.DuplicateKeepsLater | src/app/cart/page.tsx:39-63 | two raw entries with one node id load as a single item built from the later entry |
| Cart.PricePrecedence | src/app/cart/page.tsx:44-48 | once `price` is present, `field_course_price` is ignored, and an unparseable `price` gives 0 |
| Cart.PriceAbsent | src/app/cart/page.tsx:41-48 | with neither price field the price is 0 |
| Cart.PriceClamp | src/app/cart/page.tsx:44-52 | the field read (`price`, else `field_course_price`) decides the price: `NaN` gives 0, a negative number gives 0, any other number is kept |
| Cart.PriceFromDecimalText | src/app/cart/page.tsx:44-45 | `price: "12.50"` loads as 12.5 |
| Cart.SeparatedPriceReadsFirstGroup | src/app/cart/page.tsx:46-52 | `field_course_price: "1,200"` loads as 1 |
| Cart.NegativePriceIsZero | src/app/cart/page.tsx:46-52 | `field_course_price: "-5"` loads as 0 |
| Cart.UnparseablePriceIsZero | src/app/cart/page.tsx:44-52 | `price: "abc"` loads as 0, even next to a valid `field_course_price` |
| Cart.ResolvedFields | src/app/cart/page.tsx:55-59 | the title, brand, image and id fallbacks, case by case |
| Cart.NormalizeToRaw | src/app/cart/page.tsx:54-61 | a canonical item written and read back is the same item |
| Cart.ReloadIsStable | src/app/cart/page.tsx:33-76 | reloading a stored cart of canonical items with distinct node ids gives the same cart |
| Cart.LoadTwiceIsLoadOnce | src/app/cart/page.tsx:33-76 | a second load changes nothing, unless a raw title object has an empty value |
| Cart.EmptyTitleObjectChangesOnReload | src/app/cart/page.tsx:57 | a title object with an empty value loads as "" and becomes "Untitled Course" on the next load |
| Cart.RemoveAtSpec | src/app/cart/page.tsx:79 | `filter((_, i) => i !== index)` deletes exactly the position in range and keeps the rest in order; any other index changes nothing |
| Cart.RemovePreservesDistinct | src/app/cart/page.tsx:78-82 | removal keeps node ids distinct |
| Cart.RemoveMiddleOfThree | src/app/cart/page.tsx:79 | removing index 1 of three items leaves the items at 0 and 2, in order |
| Cart.CartPage.constructor | src/app/cart/page.tsx:30 | the page mounts with an empty cart |
| Cart.CartPage.Load | src/app/cart/page.tsx:33-76 | a saved cart becomes the normalised cart and is written back; an absent or unparseable one changes nothing; node ids stay distinct |
| Cart.CartPage.RemoveFromCart | src/app/cart/page.tsx:78-82 | the cart loses that position and the store holds the new cart; node ids stay distinct |
| Checkout.Form.With | src/app/checkout/page.tsx:41 | the edited field takes the new value and every other field keeps its own |
| Checkout.FieldFails | src/app/checkout/page.tsx:47-52 | the five rules; tied to the page's `trim()` tests by `Checkout.RulesAsWritten` |
| Checkout.EmailPattern | src/app/checkout/page.tsx:48 | `/\S+@\S+\.\S+/.test`; stated by `Checkout.EmailRule` and `Checkout.EmailExamples` |
| Checkout.RulesAsWritten | src/app/checkout/page.tsx:47-52 | each field's rule is the page's test, with its `trim()` |
| Checkout.EmailRule | src/app/checkout/page.tsx:48-49 | the email fails exactly when it does not match `\S+@\S+\.\S+`; the blank test adds nothing |
| Checkout.EmailExamples | src/app/checkout/page.tsx:48 | "a@b.c" matches the pattern and "not-an-email" does not |
| Checkout.CollectErrors | src/app/checkout/page.tsx:46-52 | every rule is checked; the map has a key exactly for each failing field, holding that field's message |
| Checkout.FilledFormPasses | src/app/checkout/page.tsx:47-52 | a form with every field properly filled passes every rule |
| Checkout.InvalidEmailOnly | src/app/checkout/page.tsx:48-49 | with every other field filled, "not-an-email" fails the email field only |
| Checkout.ReadLine | src/app/checkout/page.tsx:7-11 | one stored entry in the declared `CartItem` shape; stated through `Checkout.ReadLines` and `Checkout.ReadsWhatCartWrote` |
| Checkout.ReadLines | src/app/checkout/page.tsx:27-36 | the store is read exactly when every entry has the declared shape, and then line i is read from entry i |
| Checkout.ReadsWhatCartWrote | src/app/checkout/page.tsx:31 | what the cart page stores, the checkout page reads back item for item |
| Checkout.Total | src/app/checkout/page.tsx:67 | `cart.reduce(...)`, a left fold; stated by `Checkout.TotalMatchesCourses` and `Checkout.TotalNonNegative` |
| Checkout.CoursesOf | src/app/checkout/page.tsx:68-72 | `cart.map(...)`; stated by `Checkout.BuildOrder` |
| Checkout.TotalMatchesCourses | src/app/checkout/page.tsx:67-72 | the reduced total equals the sum of the prices in the purchased-course list |
| Checkout.TotalNonNegative | src/app/checkout/page.tsx:67 | non-negative prices give a non-negative total |
| Checkout.BuildOrder | src/app/checkout/page.tsx:62-73 | the order is titled after the buyer, carries the email and payment fields, lists the cart's courses one for one and in order, and totals their prices |
| Checkout.CheckoutPage.constructor | src/app/checkout/page.tsx:14-24 | the page mounts with an empty cart, the initial form, no errors, idle and without the popup |
| Checkout.CheckoutPage.Load | src/app/checkout/page.tsx:27-36 | a saved cart is read into the page; an absent or unparseable one changes nothing |
| Checkout.CheckoutPage.HandleInputChange | src/app/checkout/page.tsx:38-43 | the form takes the new value and only that field's error is cleared |
| Checkout.CheckoutPage.ValidateForm | src/app/checkout/page.tsx:45-56 | the errors become exactly the failing fields with their messages; the result is true exactly when no field fails |
| Checkout.CheckoutPage.PlaceOrder | src/app/checkout/page.tsx:58-73 | an invalid form sends nothing and leaves processing as it was; a valid one sets processing and sends the order built from the form and the cart |
| Checkout.CheckoutPage.CompleteOrder | src/app/checkout/page.tsx:75-91 | success opens the popup and removes the stored cart; failure keeps both; processing ends either way |
| Checkout.SuccessfulCheckout | src/app/checkout/page.tsx:27-91 | a cart the cart page stored, a correctly filled form and a successful request: the order built from that form and cart is sent, the stored cart is gone, the popup is open and processing has ended |
| Filters.Without | src/components/CourseFilters.tsx:54 | every copy of the URL goes, the other URLs stay with their counts |
| Filters.WithoutOne | src/components/CourseFilters.tsx:54 | a single URL is dropped when it is the unchecked one and kept otherwise |
| Filters.WithoutConcat | src/components/CourseFilters.tsx:54 | the filter works piece by piece over a concatenation, so the kept URLs stay in their order |
| Filters.WithoutAbsent | src/components/CourseFilters.tsx:54 | filtering out an absent URL changes nothing |
| Filters.WithoutKeepsNoDuplicates | src/components/CourseFilters.tsx:54 | filtering keeps the list free of duplicates |
| Filters.Toggle | src/components/CourseFilters.tsx:53-55 | the clicked URL flips between checked and unchecked, every other URL keeps its state; a checked URL is filtered out, an unchecked one goes last |
| Filters.UncheckKeepsOrder | src/components/CourseFilters.tsx:53-54 | unchecking a URL listed once leaves the URLs before and after it, in their order |
| Filters.ToggleKeepsNoDuplicates | src/components/CourseFilters.tsx:53-55 | toggling keeps the list free of duplicates |
| Filters.ToggleTwice | src/components/CourseFilters.tsx:53-55 | two clicks on one checkbox restore the checked set; from unchecked the list is restored exactly, and from checked the URL moves to the end |
| Filters.RequestUrl | src/components/CourseFilters.tsx:59-63 | the URL requested after a change; stated by `Filters.RequestUrlSplits` and `Filters.UncheckLastIsClear` |
| Filters.RequestUrlSplits | src/components/CourseFilters.tsx:60-63 | the request cut at `&` gives back exactly the checked URLs when none contains `&` |
| Filters.UncheckLastIsClear | src/components/CourseFilters.tsx:53-74 | unchecking the only checked filter requests the same URL as "Clear Filters" |
| Filters.FacetHeading | src/components/CourseFilters.tsx:102 | the facet heading; stated by `Filters.FacetHeadingStrips` and its examples |
| Filters.NoUnderscoreNoName | src/components/CourseFilters.tsx:102 | a stem without an underscore holds no `_name` |
| Filters.DropFirstName | src/components/CourseFilters.tsx:102 | the first `_name` after a stem that holds no `_name` (underscores allowed) is the one dropped |
| Filters.FacetHeadingStrips | src/components/CourseFilters.tsx:102 | `field_<x>_name<tail>` is headed `<x><tail>` whenever `x` holds no `_name`, so multi-word stems such as `course_level` are covered |
| Filters.FacetHeadingBrands | src/components/CourseFilters.tsx:102 | `field_brands_name` is headed "brands" |
| Filters.FacetHeadingMultiWord | src/components/CourseFilters.tsx:102 | `field_course_level_name` is headed "course_level": the inner underscore stays |
| Filters.FacetHeadingKeepsSecondName | src/components/CourseFilters.tsx:102 | only the first `_name` goes: `field_level_name_name` is headed "level_name" |
| Filters.CourseFilters.constructor | src/components/CourseFilters.tsx:25-49 | the sidebar mounts with nothing checked and requests the URL passed in by its parent |
| Filters.CourseFilters.HandleFilterChange | src/components/CourseFilters.tsx:52-67 | the list becomes its toggle, the clicked checkbox flips, the next request is built from the new list, and no URL is listed twice |
| Filters.CourseFilters.ClearFilters | src/components/CourseFilters.tsx:70-74 | nothing is checked and the default search is requested |

## Left out

- I/O is not modelled: `fetch`, `console`, `alert` and the router. The order request's outcome is the `ok` parameter of `CompleteOrder`. The filter fetch is modelled only as the URL it would request.
- `JSON.parse` and `JSON.stringify` are not modelled as text. The store holds parsed records, and an unparseable text is its own case. Stored JSON shapes outside the declared ones (a top-level `null`, non-array values, non-string ids or brands) are not represented.
- Checkout.BuildOrder: prices and the total are exact reals. The binary floating-point addition of `cart.reduce` is not modelled, so `Checkout.TotalMatchesCourses` (a left fold equal to a right fold) holds only for exact addition; in JavaScript `[0.1, 0.2, 0.3]` reduces to 0.6000000000000001.
- Numbers.ParseFloat: works on exact decimals. It does not model the "Infinity" spelling, binary floating-point rounding, or the overflow of huge exponents.
- Cart.NormalizeItem: the random id suffix (`Math.random().toString(36).substring(7)`) is an arbitrary string parameter, so the model makes no claim that generated ids differ.
- Cart.NormalizeItem: `field_course_image_url` is an optional string. A stored non-string value is not represented, so the `typeof` test is only the presence test.
- Cart.NormalizeItem: a node id is a string. An entry without `nid` (every such entry shares the key `undefined` in the `Map`) is not represented.
- Checkout.CheckoutPage.Load: reads only entries in the shape the cart page writes, a string title and a numeric price, which is the shape the page's `CartItem[]` type declares. It requires that shape rather than modelling what the page would display for other shapes.
- Checkout.CheckoutPage.Load: the checkout page declares `nid` as a number; it is kept as the string the cart page stores.
- Checkout.CheckoutPage.PlaceOrder: `handlePlaceOrder` is split at its `await` into `PlaceOrder` and `CompleteOrder`. React's batching of state updates, the render between the two steps and the button disabled while processing are not modelled.
- Filters.CourseFilters.HandleFilterChange: `setSelectedFilters` in the parent, the re-fetch that its effect triggers and the `filters`/`error` state filled from the response are not modelled.
- The rendering of the pages is not modelled (markup, images, the cart-empty message, the filter option counts).
- The course detail page's append to the cart is not part of this model; the cart page's load accepts any stored list.
- The API proxy routes and the rewrite table are not part of this model.
