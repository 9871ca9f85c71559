# ReWear swap-and-points core in Dafny

This is a model of the ReWear clothing exchange. Members list garments. An admin approves each listing before it appears in the public catalogue. Other members then ask for a listed item in one of two ways:

- a **direct** swap, offering one of their own items;
- a **points** swap, offering part of their points balance. Every account starts with 100 points.

The item's owner accepts or rejects each request. Accepting settles the swap: the items are marked `swapped`, and for a points swap the points move from requester to owner.

The model covers four parts of the system:

- the swap engine (`createSwap`, `respondToSwap`, `processAcceptedSwap`, `getUserSwaps`);
- the catalogue service:
  - pricing (`calculatePointValue`);
  - listing creation;
  - the public listing query with its pagination;
  - a member's own listings;
  - admin approval and rejection;
- the input validators (e-mail, password, the single-field checks, and the composite item and swap payload checks);
- the schema rules of the item and swap documents.

The three collections become maps from id to immutable record in one `Store`. Ids come from a single creation counter. A larger id is therefore a newer document, and this counter stands for both ObjectId freshness and the `createdAt` order.

Every call that changes state (`CreateItem`, `ApproveItem`, `RejectItem`, `CreateSwap`, `RespondToSwap`) is a pure function that returns the new store together with a `Result`. The result is either the payload or an error, and each error carries the exact message the service returns. A failed call leaves the store unchanged. The queries (`GetItems`, `GetItemById`, `GetUserItems`, `GetUserSwaps`) read the store and return only their answer.

A schema failure on save shows up as the service's "Failed to create …" response. The store invariant `Store.Valid` is kept by every operation:

- every document passes its schema;
- ids lie below the counter;
- a swap's requester is not its owner;
- the items a swap names exist.

Modules, in dependency order:

| file | module | contents |
|---|---|---|
| wrappers.dfy | `Wrappers` | `Option`, `Result`, `Outcome` |
| js_text.dfy | `JsText` | ECMAScript `trim`, whitespace, `indexOf`, `join`, number rendering |
| user_model.dfy | `UserModel` | the user record: balance and role |
| item_model.dfy | `ItemModel` | the item record, its enumerations and schema rules |
| swap_model.dfy | `SwapModel` | the swap record, its enumerations, schema rules and pre-save hook |
| store.dfy | `StoreState` | the store, its invariant, service errors, status updates, newest-first queries |
| ledger.dfy | `Ledger` | balance updates and the total of all balances |
| item_service.dfy | `ItemService` | pricing, creation, listing and pagination, moderation |
| swap_service.dfy | `SwapService` | request, response, settlement, per-user swap lists |
| validation.dfy | `Validation` | the validators over JavaScript values |
| scenarios.dfy | `Scenarios` | a full listing-to-settlement walk-through, and request-time-only guards |

The model follows the code as written:

- Settlement does not re-check the requester's balance. Two accepted offers can therefore overdraw it (`Scenarios.SettlementCanOverdraw`).
- A pending offer reserves no points.
- The offered item of a direct swap is not locked while the request is pending.
- `rejectItem` reports success for an unknown id. It also marks even a `swapped` or `pending` item `removed`.
- Rejecting a swap returns its target to `available` whatever the target's status was. This can bring back a listing the admin removed (`Scenarios.RejectRevivesRemovedItem`).
- `approveItem` does not look at the item's status.

## Model

| member | source | states |
|---|---|---|
| UserModel.NewUser | src/models/user.ts:26-34 | a new account holds 100 points and the "user" role |
| ItemModel.CategoryName | src/models/item.ts:16-20 | every category has one of the six schema names |
| ItemModel.ConditionName | src/models/item.ts:29-33 | every condition has one of the four schema names |
| ItemModel.ParseCategory | src/models/item.ts:16-20 | a name is accepted as a category exactly when it is one of the six enum values, and parsing inverts naming |
| ItemModel.ParseCondition | src/models/item.ts:29-33 | a name is accepted as a condition exactly when it is one of the four enum values, and parsing inverts naming |
| ItemModel.NamesRoundTrip | src/models/item.ts:16-33 | naming then parsing a category or condition gives it back |
| SwapModel.ParseSwapType | src/models/swapItem.ts:29-33 | a swap type is accepted exactly when it is "direct" or "points" |
| SwapModel.PreSave | src/models/swapItem.ts:49-58 | the pre-save hook refuses a direct swap without an offered item and a points swap without a truthy amount, with the hook's messages, and passes everything else |
| SwapModel.SchemaValidOffers | src/models/swapItem.ts:25-28 | a saved direct swap names an offered item; a saved points swap offers at least 1 point |
| StoreState.SetStatus | src/services/swap.service.ts:61 | a status update by id changes only that document's status; an unknown id is a no-op |
| StoreState.StatusesSetKeepsSchema | src/models/item.ts:56-60 | changing only statuses keeps every item schema-valid |
| StoreState.ValidAfterInsert | src/services/swap.service.ts:47-58 | inserting a schema-valid swap at the counter, naming existing items with distinct requester and owner, keeps the store invariant |
| StoreState.NewestFirst | src/services/swap.service.ts:122-131 | a query sorted newest first returns exactly the matching ids, each once, in strictly decreasing creation order |
| Ledger.TotalWithout | src/services/swap.service.ts:152-153 | the total of all balances is one balance plus the total of the others |
| Ledger.TotalAfterUpdate | src/services/swap.service.ts:152-153 | replacing one account changes the total by the difference of its balances |
| Ledger.AddPoints | src/services/swap.service.ts:152-153 | an `$inc` of one balance changes only that balance, by the given amount; an unknown id is a no-op |
| Ledger.TransferConserves | src/services/swap.service.ts:152-153 | debiting one account and crediting another by the same amount leaves the total unchanged |
| ItemService.PointValue | src/services/item.service.ts:169-190 | every price lies between 8 and 53 points |
| ItemService.PointValueRounds | src/services/item.service.ts:169-190 | the price is `Math.round` of the category's base points times the condition multiplier: within half a point of the product, halves rounding up |
| ItemService.PointValueExamples | src/services/item.service.ts:169-190 | bags/new 45, other/fair 8, shoes/new 38, jewelry/new 53, clothing/good 20, and the unknown pair hats/mint 10 |
| ItemService.PointValueFallbacks | src/services/item.service.ts:169-190 | for every pair of names, a category outside the six enum names prices as "other" and a condition outside the four as "good" |
| ItemService.PointValueMeetsSchema | src/models/item.ts:51-55 | every computed price meets the schema minimum of 1 |
| ItemService.TrimAll | src/models/item.ts:34-39 | tags are stored trimmed, one for one |
| ItemService.Listing | src/services/item.service.ts:9-17 | the new listing has the trimmed title and tags, the caller as uploader, the computed price, `available` status and no approval |
| ItemService.ListingSchemaValid | src/models/item.ts:5-55 | with known category and condition, the schema accepts a new listing exactly when the title is non-blank and at most 100 characters once trimmed, the description is non-empty and at most 1000 characters, type and size are non-empty and no image is empty |
| ItemService.SaveListing | src/models/item.ts:5-64 | the save succeeds exactly when the schema accepts the listing, which then gets the next id; a refusal changes nothing |
| ItemService.CreateItem | src/services/item.service.ts:6-32 | creation succeeds exactly when the schema accepts the data; the new item gets the next id, the caller as uploader, the computed price, `available` and unapproved; a failure changes nothing and answers "Failed to create item" |
| ItemService.CreateItemKeepsValid | src/services/item.service.ts:11-19 | creating a listing keeps the store invariant |
| ItemService.PageCount | src/services/item.service.ts:58 | the page count is the ceiling of total over limit, and is not a finite number for a limit of 0 |
| ItemService.Take | src/services/item.service.ts:55 | a limit of 0 returns everything; otherwise the smaller of the absolute value of the limit and the number available |
| ItemService.GetItems | src/services/item.service.ts:34-70 | only approved, available items equal to every given filter are returned, newest first, from position `(page - 1) * limit` on, at most `limit` of them; a negative skip fails with "Failed to fetch items" |
| ItemService.DistinctCardinality | src/services/item.service.ts:57 | a listing without repeats has as many entries as distinct ids |
| ItemService.TotalCountsListed | src/services/item.service.ts:57 | `total` is the number of listed items |
| ItemService.WindowAt | src/services/item.service.ts:50-55 | with a positive limit, position `m < limit` of a page holds the listed item at position `skip + m`, when there is one |
| ItemService.PageOfPosition | src/services/item.service.ts:50-55 | the item at position `i` of the listing is on page `i / limit + 1` at position `i % limit` |
| ItemService.GetItemById | src/services/item.service.ts:72-93 | the item is returned when it exists, otherwise "Item not found" |
| ItemService.GetCreatedItem | src/services/item.service.ts:72-93 | after a successful creation the new id fetches the listing built from the payload, and every other id fetches what it fetched before |
| ItemService.GetUserItems | src/services/item.service.ts:95-109 | exactly the user's own items, whatever their status, newest first |
| ItemService.ApproveItem | src/services/item.service.ts:111-142 | a missing or non-admin actor gets "Unauthorized" and nothing changes; an unknown item gets "Item not found"; otherwise only the approval flag is set, the status is untouched, and the store invariant is kept |
| ItemService.RejectItem | src/services/item.service.ts:144-167 | a missing or non-admin actor gets "Unauthorized" and nothing changes; otherwise the item is marked removed whatever its status, and the call succeeds even for an unknown id |
| SwapService.Draft | src/services/swap.service.ts:47-56 | the new swap is pending, owned by the target's uploader, with the offered item only for a direct swap and the points only for a points swap |
| SwapService.CreateSwap | src/services/swap.service.ts:7-74 | a success means every guard passed; the new swap passes its schema, the target becomes pending and no balance moves; a failure changes nothing |
| SwapService.CreateSwapRefusesUnavailable | src/services/swap.service.ts:12-18 | a missing, unavailable or unapproved target fails with "Item is not available for swap", whatever else the request says |
| SwapService.CreateSwapRefusesOwnItem | src/services/swap.service.ts:21-26 | once the target is requestable, the requester's own item fails with "Cannot swap your own item", and only then |
| SwapService.CreateSwapChecksOffer | src/services/swap.service.ts:29-36 | a direct request naming an offered item fails with "Invalid offered item" exactly when that item is missing, not the requester's, or not available |
| SwapService.CreateSwapIgnoresOfferApproval | src/services/swap.service.ts:29-36 | the offered item's approval flag does not affect the response |
| SwapService.CreateSwapChecksBalance | src/services/swap.service.ts:37-44 | a points request fails with "Insufficient points" exactly when the requester is missing or holds less than the offer; an exactly equal balance is enough |
| SwapService.CreateSwapNeedsOffer | src/models/swapItem.ts:49-58 | a direct request without an offered item, or a points request without a truthy amount, cannot be saved and changes nothing |
| SwapService.CreateSwapMessageBound | src/models/swapItem.ts:39-42 | a direct or points request that passes every other guard is saved exactly when its message is at most 500 characters |
| SwapService.CreateSwapSucceeds | src/services/swap.service.ts:12-61 | the guards and the schema are all there is: a request that passes them all is accepted |
| SwapService.NoSecondRequest | src/services/swap.service.ts:13-18 | after a successful request the target is pending, so every further request on it is refused |
| SwapService.CreateSwapKeepsValid | src/services/swap.service.ts:47-61 | a request keeps the store invariant |
| SwapService.ProcessAcceptedSwap | src/services/swap.service.ts:145-162 | a direct swap with an offered item marks both items swapped; a points swap moves the points and marks the target swapped; the swap ends completed |
| SwapService.RespondToSwap | src/services/swap.service.ts:76-118 | a missing swap or a caller other than the owner gets "Swap not found or unauthorized"; a non-pending swap gets "Swap is no longer pending"; a failure changes nothing; a reject ends the swap rejected and returns the target to available with no balance change; an accept ends it completed |
| SwapService.RespondKeepsValid | src/services/swap.service.ts:97-105 | every response keeps the store invariant |
| SwapService.AcceptDirectSwapsBoth | src/services/swap.service.ts:146-149 | accepting a direct swap marks exactly the target and the offered item swapped and moves no points |
| SwapService.AcceptPointsTransfers | src/services/swap.service.ts:150-157 | accepting a points swap debits the requester and credits the owner by the offer, leaves every other balance alone, conserves the total, and marks the target swapped |
| SwapService.RejectRestoresTarget | src/services/swap.service.ts:103-104 | rejecting returns the target to available and leaves the offered item and every balance untouched |
| SwapService.NoSecondResponse | src/services/swap.service.ts:90-95 | once a swap has been answered, every further response, by anyone and either way, is refused and changes nothing |
| SwapService.GetUserSwaps | src/services/swap.service.ts:120-143 | sent holds exactly the user's requests and received exactly the swaps on the user's items, each newest first |
| SwapService.SentAndReceivedDisjoint | src/services/swap.service.ts:122-131 | no swap is both sent and received by the same user |
| JsText.Trim | src/lib/validation.ts:39 | the result is the input with a whitespace prefix and a whitespace suffix removed, has no whitespace at either end, and is empty exactly for a blank string |
| JsText.TrimOfTrimmed | src/models/item.ts:5-10 | trimming a trimmed string changes nothing |
| JsText.IndexOf | src/lib/validation.ts:15 | the position of the first occurrence, or none exactly when the character does not occur |
| Validation.Email | src/lib/validation.ts:14-17 | an address is accepted exactly when it has a non-empty local part free of whitespace and `@`, one `@`, and a domain free of whitespace and `@` with a `.` that has text on both sides |
| Validation.OnlyFirstAt | src/lib/validation.ts:15 | an `@` preceded only by characters other than whitespace and `@` is the first `@` |
| Validation.EmailCharacterised | src/lib/validation.ts:15 | only the first `@` can split a well-formed address |
| Validation.ShapeSplitsAtFirst | src/lib/validation.ts:15 | a well-formed address splits at its first `@` into a plain local part and a plain domain with an interior `.` |
| Validation.Password | src/lib/validation.ts:19-36 | a password is valid exactly when it has at least 8 characters, a lowercase letter, an uppercase letter and a digit, which is exactly when the error list is empty; the errors are the messages of the broken rules in the fixed rule order |
| Validation.MessagesDistinct | src/lib/validation.ts:22-33 | the four rules have four different messages |
| Validation.PasswordNamesBrokenRules | src/lib/validation.ts:19-36 | the error list holds a rule's message exactly when the password breaks that rule |
| Validation.ComplaintNames | src/lib/validation.ts:22-33 | one rule's complaint carries a rule's message exactly when it is that rule and the password breaks it |
| Validation.BrokenUnfolds | src/lib/validation.ts:22-33 | the error list is the messages of the broken rules, rule by rule in order |
| Validation.UnsignedText | src/lib/validation.ts:62-66 | text without surrounding whitespace or sign converts as an unsigned decimal literal |
| Validation.ToNumberOfDigits | src/lib/validation.ts:62-66 | the text "20" converts to the number 20 |
| Validation.DigitsOfNat | src/lib/validation.ts:44-54 | the digits of a rendered natural number read back as that number |
| Validation.DigitTextNumber | src/lib/validation.ts:62-66 | a non-empty run of digits converts to the number it spells |
| Validation.NumberOfNatText | src/lib/validation.ts:44-54 | `Number` of the decimal text a bound is printed as gives back the bound |
| Validation.LeadingLetterNotDecimal | src/lib/validation.ts:62-66 | text starting with neither a digit nor `.` is no decimal literal |
| Validation.ToNumberOfText | src/lib/validation.ts:62-66 | the text "abc" converts to NaN, so `isNumber` rejects it |
| Validation.Required | src/lib/validation.ts:38-42 | a value fails exactly when it is falsy or a blank string, with "<field> is required" |
| Validation.MinLength | src/lib/validation.ts:44-48 | fails exactly when the length is below the minimum, so the bound is inclusive |
| Validation.MaxLength | src/lib/validation.ts:50-54 | fails exactly when the length is above the maximum, so the bound is inclusive |
| Validation.IsIn | src/lib/validation.ts:56-60 | passes exactly for a string among the allowed values; the message lists them joined by ", " |
| Validation.IsNumber | src/lib/validation.ts:62-66 | fails exactly when the value converts to NaN |
| Validation.IsPositive | src/lib/validation.ts:68-72 | fails exactly when the value converts to a number at most 0; NaN passes |
| Validation.IsArray | src/lib/validation.ts:74-78 | passes exactly for an array |
| Validation.FirstFalse | src/lib/validation.ts:80-129 | the position of the first failing check is one where the check fails, with every earlier check passing |
| Validation.FirstFailure | src/lib/validation.ts:80-129 | a sequence of throwing checks passes exactly when every check passes, and otherwise reports the first failing one |
| Validation.ImagesCheck | src/lib/validation.ts:98-106 | a truthy `images` must be an array of 1 to 5 entries; an empty array and more than 5 fail with their own messages |
| Validation.ItemFieldCheck | src/lib/validation.ts:80-110 | each field's checks pass exactly when the field is acceptable, and a failure names that field |
| Validation.ValidateItemData | src/lib/validation.ts:80-111 | an item payload passes exactly when title (3 to 100), description (10 to 1000), category, condition, size, type, images and tags are all acceptable; a failure names the first unacceptable field in that order |
| Validation.TitleBoundsInclusive | src/lib/validation.ts:81-83 | a title of exactly 3 or 100 characters passes; one of 2 or 101 fails |
| Validation.SwapFieldCheck | src/lib/validation.ts:113-128 | each swap field's checks pass exactly when the field is acceptable, and a failure names that field |
| Validation.ValidateSwapData | src/lib/validation.ts:113-129 | a swap payload passes exactly when it has an item id, a type of "direct" or "points", an offered item for a direct swap or a present, numeric, positive amount for a points swap, and a message of at most 500 characters; a failure names the first unacceptable field |
| Validation.MessageBoundInclusive | src/lib/validation.ts:126-128 | a message of exactly 500 characters passes and one of 501 fails |
| Scenarios.ListingStage | src/services/item.service.ts:6-17 | a clothing item in good condition, listed with an untrimmed title, is stored trimmed, priced at 20, available and unapproved |
| Scenarios.RequestStage | src/services/swap.service.ts:37-61 | after approval, an offer of 20 points from a member holding 100 creates a pending points swap and makes the item pending |
| Scenarios.PointsSwapEndToEnd | src/services/swap.service.ts:150-161 | when the owner accepts, the requester ends with 80 points, the owner with 120, the item is swapped and the swap completed |
| Scenarios.SettlementCanOverdraw | src/services/swap.service.ts:150-153 | two accepted offers from one requester are both paid in full, and overdraw the balance when together they exceed it |
| Scenarios.RejectRevivesRemovedItem | src/services/swap.service.ts:103-104 | rejecting a pending swap returns an item the admin removed to available |

## Left out

- User interface, HTTP routes, authentication, JWT and password hashing are outside the model. They are rendering, transport and foreign library calls.
- `$text` full-text search in the listing query is not modelled. The search filter has no counterpart in `ItemService.Filters`.
- `populate` of referenced documents is not modelled. It shapes the response, not the state.
- `createdAt` timestamps are replaced by the creation counter.
- Concurrency and atomicity are not modelled. The separate writes of `createSwap` and settlement run in order, with nothing in between.
- The catch branches for database errors ("Failed to respond to swap", "Failed to fetch swaps", "Failed to approve item", and so on) are left out. The exceptions are the save failures of item and swap creation, which come from the schema, and the negative skip of `getItems`.
- `ItemService.PointValue`: category and condition names that are `Object.prototype` keys (such as "constructor") make the source's table lookup yield a non-number. The model gives them the fallback values.
- `ItemService.GetItems`: `page` and `limit` are integers, so the NaN and fractional values that the query string could produce are not modelled. The `isApproved`/`status` index hints are not modelled either.
- `ItemService.CreateItem`: the payload is typed strings, so a payload field of another JavaScript type, or extra fields, are not modelled. A schema rejection is a single "Failed to create item".
- `SwapService.CreateSwap`: the offered amount is an integer or absent. A fractional amount, or a string that the balance comparison would coerce, is not modelled. The route checks only that such an amount is present, so these amounts do reach the service.
- `SwapService.CreateSwap`: ids compare as numbers, where the source compares their string forms.
- `Validation.ToNumber`: `Number()` of a string handles only optionally signed decimal literals. Exponents, hexadecimal, binary, octal and "Infinity" are treated as NaN.
- `Validation.ToNumber`: objects other than arrays are not modelled.
- `Validation.ToNumber`: numbers are exact reals, with no rounding to a double, no underflow to 0 and no overflow to Infinity.
- `Validation.IsPositive`: numbers are exact reals. A decimal text too small for a double, such as "0." followed by 400 zeros and a 1, is positive in the model, but JavaScript reads it as 0 and refuses it.
- `Validation.SwapFieldCheck`: a points amount is an exact real, so an amount that underflows to 0 as a double passes the model's positivity check.
- `Validation.ValidateSwapData`: a points amount is an exact real, so an amount that underflows to 0 as a double passes the model's positivity check.
- `Validation.MinLength` and `Validation.MaxLength`: string lengths count code points, not UTF-16 code units.
- `Validation.Password`: the 8-character minimum counts code points, not UTF-16 code units.
- `Validation.ItemFieldCheck`: the title and description bounds count code points, not UTF-16 code units.
- `Validation.ValidateItemData`: the title and description bounds count code points, not UTF-16 code units.
- `Validation.TitleBoundsInclusive`: the title bounds count code points, not UTF-16 code units.
- `Validation.SwapFieldCheck`: the 500-character message bound counts code points, not UTF-16 code units.
- `Validation.ValidateSwapData`: the 500-character message bound counts code points, not UTF-16 code units.
- `Validation.MessageBoundInclusive`: the 500-character message bound counts code points, not UTF-16 code units.
- `ItemService.ListingSchemaValid`: the title and description maxlengths count code points, not UTF-16 code units.
- `ItemService.CreateItem`: the title and description maxlengths count code points, not UTF-16 code units.
- `SwapService.CreateSwapMessageBound`: the message maxlength counts code points, not UTF-16 code units.
- A character outside the Basic Multilingual Plane counts once in the model and twice in JavaScript. So "Aa1" followed by three emoji (9 units) is refused as too short, and a message of 300 emoji (600 units) is accepted. The item and swap schema maxlengths (`ItemModel.SchemaValid`, `SwapModel.SchemaValid`) count the same way.
- `Validation.MinLength` and `Validation.MaxLength`: undefined and null are excluded by their preconditions. Reading `.length` of those throws a TypeError, and `validateItemData` always calls `required` first.
- `Validation.Email`: no Unicode normalisation or case folding; characters are compared as code points.
- The user schema's e-mail, name, password and profile-image fields are left out. Only the balance and role take part in the workflow.
