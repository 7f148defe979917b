# ReWear marketplace core in Dafny

ReWear is a clothing-exchange marketplace. Users list garments. A moderator approves or
rejects each listing. Other users either ask to swap for an item or buy it with points. This
project models the backend's transaction core: the points ledger and counters of a user, the
item lifecycle with its embedded swap-request list, the Swap record with its status and
terminal timestamps, and the route handlers that coordinate them (create, view, edit, delete,
swap request, redemption, owner response, moderation, role change, pagination).

The model is one global store, three maps from id to `User`, `Item` and `Swap`
(`State.Store`). Every route handler is a pure function from the store and its arguments to
a `Step`: the store afterwards, plus either the reply or an `Error`. A handler runs as one
atomic step. Fresh ids are arguments that are not yet in use. The wall clock is an argument
`now`. Mongoose schema validation is modelled explicitly: `Items.ParseListing` for items and
`Swaps.Create` for swaps.

Files:

| file | module | contents |
|---|---|---|
| common.dfy | Common | ids, `Option`, `Result`, the error kinds |
| text.dfy | Text | JavaScript `String.prototype.trim`, optional-string helpers |
| users.dfy | Users | role enum, stats, the ledger methods, the user invariant |
| items.dfy | Items | item enums and bounds, schema validation, the embedded request list, item methods |
| swaps.dfy | Swaps | the Swap record, its defaults and its methods |
| state.dfy | State | the store, the handler step, the store invariant |
| item_routes.dfy | ItemRoutes | the handlers of `/api/items` |
| user_routes.dfy | UserRoutes | owner response to a swap request; pagination |
| admin_routes.dfy | AdminRoutes | approve, reject, admin delete, role change |
| invariants.dfy | Invariants | the store invariant kept by every handler; workflow properties |

Behaviours of the code a reader may not expect:
- An accepted swap ends in status `accepted` with no `completedAt`.
- Accepting does not update the item's embedded request entry. It does not re-check item status either.
- Owner delete checks only pending embedded requests. It does not check Swap records.
- A redemption's Swap record is created already `completed`, but without a `completedAt`, because `Swap.create` does not call `updateStatus`.
- `updateStatus` has no transition guard.

## Model

| member | source | states |
|---|---|---|
| Text.Trim | backend/models/Item.js:7 | the result is no longer than the input and starts and ends with no JavaScript white space or line terminator |
| Text.TrimStart | backend/models/Item.js:7 | the result is a suffix of the input, everything removed is white space, and it does not start with white space |
| Text.TrimEnd | backend/models/Item.js:7 | the result is a prefix of the input, everything removed is white space, and it does not end with white space |
| Text.TrimIsInfix | backend/models/Item.js:7 | the trimmed string is a contiguous slice of the input with only white space before and after it |
| Text.TrimFixesTrimmed | backend/models/Item.js:7 | a string with no white space at either end is left unchanged by trimming |
| Text.TrimIdempotent | backend/models/Item.js:7 | trimming twice is trimming once |
| Text.TrimEmptyIffBlank | backend/routes/items.js:136-137 | a trimmed string is empty exactly when the input is all white space |
| Users.ParseRole | backend/models/User.js:27-31 | only "user" and "admin" name a role, and the role parsed is the one the name denotes |
| Users.NewUser | backend/models/User.js:27-46 | a new user is a regular user with 50 points and all four counters at 0, and is valid |
| Users.UpdateStats | backend/models/User.js:71-75 | exactly the named counter grows by the increment; the other counters, the balance and the role are unchanged |
| Users.AddPoints | backend/models/User.js:77-82 | balance and pointsEarned both grow by the amount; nothing else changes; the ledger balance is kept exactly |
| Users.DeductPoints | backend/models/User.js:84-92 | fails exactly when the amount exceeds the balance (the method throws a bare error; the model's error carries the figures the redeem route reports from its own pre-check); otherwise lowers the balance and raises pointsSpent by the amount; a non-negative balance stays non-negative |
| Users.CreditThenDebit | backend/models/User.js:77-92 | crediting then debiting the same amount always succeeds and restores the balance, with both earned and spent raised |
| Users.LedgerPreservesValid | backend/models/User.js:71-92 | a counter bump, a credit of a non-negative amount and a successful debit each keep a valid user valid |
| Items.ParseCategory | backend/models/Item.js:15-19 | exactly the nine category names parse, each to the category it names |
| Items.ParseSize | backend/models/Item.js:24-28 | exactly the twelve size names parse, each to the size it names |
| Items.ParseCondition | backend/models/Item.js:29-33 | exactly the four condition names parse, each to the condition it names |
| Items.EnumNamesParse | backend/models/Item.js:15-33 | every category, size and condition name parses back to its value |
| Items.ParseListing | backend/models/Item.js:3-44 | validation succeeds exactly when no field is rejected, fails listing every rejected path, and on success yields valid attributes that write back to the title-trimmed input |
| Items.ListingRoundTrip | backend/models/Item.js:3-44 | valid stored attributes pass validation again unchanged |
| Items.PendingCount | backend/models/Item.js:86-88 | the count never exceeds the number of entries |
| Items.PendingCountZeroIff | backend/models/Item.js:86-88 | swapRequestCount is zero exactly when no entry is pending |
| Items.PendingCountIsCardinality | backend/models/Item.js:86-88 | swapRequestCount equals the number of positions holding a pending entry |
| Items.PendingCountAppend | backend/models/Item.js:86-88 | appending an entry raises the count by one exactly when the entry is pending |
| Items.PendingCountUpdate | backend/models/Item.js:86-88 | overwriting one entry moves the count by that entry's change of pending status |
| Items.AddSwapRequest | backend/models/Item.js:91-107 | fails as a duplicate exactly when the requester already has a pending entry; otherwise appends one pending entry with the message or '', raises the count by one, changes nothing else and keeps one pending entry per requester |
| Items.FindRequest | backend/models/Item.js:111 | returns the first position holding the request id, or none when no entry has it |
| Items.UpdateSwapRequest | backend/models/Item.js:110-118 | fails exactly when no entry has the id; otherwise only the first such entry's status changes, and swapRequestCount moves by that entry's change of pending status |
| Items.IncrementViews | backend/models/Item.js:121-124 | views grow by exactly one and nothing else changes |
| Swaps.Create | backend/models/Swap.js:3-57 | creation fails exactly when a required reference is missing or the message exceeds 500 characters; otherwise the fields are copied and status pending, pointsUsed 0, an empty log and no timestamps are the defaults |
| Swaps.AddMessage | backend/models/Swap.js:66-72 | the log grows by exactly one entry at the end, earlier entries and all other fields unchanged |
| Swaps.UpdateStatus | backend/models/Swap.js:75-91 | the status is set; only the timestamp belonging to completed, cancelled or rejected is stamped, the others are kept; nothing else changes |
| Swaps.UpdateStatusIsUnguarded | backend/models/Swap.js:75-76 | a completed swap can be set back to pending, keeping its completion stamp |
| Swaps.CreatePointRedemption | backend/models/Swap.js:94-103 | as written, creation always fails on the required owner |
| Swaps.CreatePointRedemptionFor | backend/models/Swap.js:94-103 | with the owner supplied, it yields a pending point redemption with pointsUsed equal to the points and no offered item |
| Swaps.CreateDirectSwap | backend/models/Swap.js:106-115 | succeeds exactly when the message fits; yields a pending direct swap with the given items and users and no points used |
| ItemRoutes.GetItem | backend/routes/items.js:77-102 | a missing item is not found; views grow by one unless the signed-in viewer is the owner, anonymous views count; nothing else changes |
| ItemRoutes.ListNewItem | backend/routes/items.js:135-149 | succeeds exactly when schema validation accepts; stores a pending item with no views and no requests and raises the creator's itemsListed by one |
| ItemRoutes.CreateItem | backend/routes/items.js:107-169 | missing fields, a missing or empty image array and more than 5 images fail in that order; otherwise succeeds exactly when validation accepts, with the listing stored as sent and itemsListed raised by one |
| ItemRoutes.UpdateItem | backend/routes/items.js:174-233 | not found, non-owner and a status other than pending or available fail in that order; otherwise succeeds exactly when the patched fields validate, and only the nine listing fields change |
| ItemRoutes.DeleteItem | backend/routes/items.js:238-268 | not found and non-owner fail; a pending embedded request blocks; on success exactly that item is removed |
| ItemRoutes.RequestSwap | backend/routes/items.js:273-330 | not found, not available, own item and an invalid offered item fail unchanged; a duplicate fails yet keeps the new Swap record; on success one direct-swap record and one pending entry are added and nothing else changes |
| ItemRoutes.Redeem | backend/routes/items.js:335-404 | not found, not available, own item and too few points fail unchanged; on success the price moves from buyer to owner with the total conserved, both complete one more swap, the item is swapped, a completed redemption record is added, and the reply subtracts the price a second time |
| UserRoutes.ParseAction | backend/routes/users.js:139-143 | only "accept" and "reject" are actions; a parsed action is the one the string spells, and a refused string spells no action |
| UserRoutes.ActionNameParses | backend/routes/users.js:139-143 | the spelling of every action passes the check as that same action |
| UserRoutes.MarkSwapped | backend/routes/users.js:169-178 | the requested item becomes swapped, the offered one too for a direct swap; every other item is unchanged |
| UserRoutes.Reward | backend/routes/users.js:181-188 | each party completes one more swap and, for a direct swap, earns 5 points; nobody else changes |
| UserRoutes.Respond | backend/routes/users.js:137-212 | an unknown action fails before the lookup; not found, non-owner and non-pending fail unchanged; reject stamps rejected and changes nothing else; accept sets accepted without a stamp, marks items swapped and rewards both parties |
| UserRoutes.PageOf | backend/routes/users.js:21-25 | the window holds at most limit matches, starting after the skipped ones, and is full unless it reaches the end |
| UserRoutes.Paginate | backend/routes/users.js:19-37 | pages is the ceiling of total over limit, hasNext says the window ends before the last match, hasPrev says the page is after the first |
| UserRoutes.PageHasNextIffNotLast | backend/routes/items.js:44-66 | for the window the query returns, hasNext holds exactly when the page is before the last page |
| AdminRoutes.Approve | backend/routes/admin.js:206-240 | a caller who is not an existing admin is refused by the router gate of lines 10-11; fails unchanged unless the item exists and is pending; makes it available and credits an existing owner 10 points as earned |
| AdminRoutes.RejectItem | backend/routes/admin.js:245-278 | a caller who is not an existing admin is refused; fails unchanged unless the item exists and is pending; makes it rejected and changes nothing else |
| AdminRoutes.AdminDelete | backend/routes/admin.js:283-318 | a caller who is not an existing admin is refused; not found fails; any pending or accepted swap requesting or offering the item blocks; otherwise exactly that item is removed |
| AdminRoutes.UpdateRole | backend/routes/admin.js:323-368 | a caller who is not an existing admin is refused; an invalid role fails before the lookup; not found fails; demoting an admin while at most one account holds the role fails; otherwise only that user's role is set |
| AdminRoutes.UpdateRoleKeepsAnAdmin | backend/routes/admin.js:337-348 | a marketplace with an admin still has one after any role change |
| Invariants.RegisterKeepsValid | backend/models/User.js:32-46 | adding an account with the schema defaults keeps the store valid |
| Invariants.GetItemKeepsValid | backend/routes/items.js:77-102 | viewing keeps the store valid |
| Invariants.CreateItemKeepsValid | backend/routes/items.js:107-169 | creating an item keeps the store valid |
| Invariants.UpdateItemKeepsValid | backend/routes/items.js:174-233 | editing an item keeps the store valid |
| Invariants.DeleteItemKeepsValid | backend/routes/items.js:238-268 | owner delete keeps the store valid |
| Invariants.RequestSwapKeepsValid | backend/routes/items.js:273-330 | a swap request keeps the store valid, the duplicate case included |
| Invariants.RedeemKeepsValid | backend/routes/items.js:335-404 | a redemption keeps every balance non-negative and the ledger balanced |
| Invariants.RespondKeepsValid | backend/routes/users.js:137-212 | a response keeps the store valid |
| Invariants.AcceptKeepsValid | backend/routes/users.js:164-188 | the effects of an acceptance keep the store valid |
| Invariants.RewardKeepsValid | backend/routes/users.js:181-188 | the acceptance rewards keep every user valid |
| Invariants.MarkSwappedKeepsValid | backend/routes/users.js:169-178 | marking items swapped keeps every item valid |
| Invariants.ApproveKeepsValid | backend/routes/admin.js:206-240 | approval keeps the store valid |
| Invariants.RejectItemKeepsValid | backend/routes/admin.js:245-278 | rejection keeps the store valid |
| Invariants.AdminDeleteKeepsValid | backend/routes/admin.js:283-318 | admin delete keeps the store valid |
| Invariants.UpdateRoleKeepsValid | backend/routes/admin.js:323-368 | a role change keeps the store valid |
| Invariants.RedeemTwiceFails | backend/routes/items.js:343-345 | once an item is redeemed, every later redemption of it fails as not available |
| Invariants.RedeemedItemRefusesRequests | backend/routes/items.js:283-286 | once an item is redeemed, every swap request for it fails as not available |
| Invariants.RedeemExample | backend/routes/items.js:361-389 | a 50-point buyer buying a 20-point item from a 100-point owner leaves 30 and 120 points, a swapped item, one completed redemption, and a reply of 10 points remaining |
| Invariants.ApproveTwiceFails | backend/routes/admin.js:214-216 | approving the same item again fails as not pending and changes nothing |
| Invariants.AcceptPaysBonus | backend/routes/users.js:185-188 | in a valid store every accepted swap is direct, so both parties gain 5 points |
| Invariants.RespondTwiceFails | backend/routes/users.js:160-162 | after an accept or reject, every further response fails as not pending |
| Invariants.SecondRequestIsDuplicate | backend/routes/items.js:301-322 | a second request by the same requester fails as a duplicate yet leaves a pending Swap record |
| Invariants.RequestBlocksDeletes | backend/routes/items.js:252-254 | after a successful request the owner's delete fails on the pending entry and the admin delete fails on the active swap |

## Left out

- Authentication (backend/routes/auth.js), password hashing and tokens: the caller is an argument. backend/middleware/auth.js is not part of this model. Its `protect` and `adminOnly` gates in front of the admin routes are modelled together as `AdminRoutes.IsAdmin`, and a refusal by either is `Forbidden`; the two HTTP codes, 401 and 403, are not distinguished. Registration is modelled only as adding a user with the schema defaults.
- The frontend: it renders and mirrors backend guards.
- Query machinery: text search, filters, sort, populate and the statistics aggregates. Pagination is modelled over the list of matches.
- `CastError` on malformed ids: ids are naturals, so a malformed id is just an absent one.
- Wall-clock dates: the clock is an argument `now`. The creation and update timestamps, and the conversation entry dates, are not modelled.
- Partial failure between the awaits of a handler. Examples: a debit saved before the owner lookup fails; an accepted status saved before a deleted requested item throws. Each handler is one atomic step, and such a throw becomes `ServerError` with the store unchanged.
- Concurrency between requests.
- `rejectionReason`: the reject handler assigns it, but the Item schema does not declare it, so strict mode drops it on save.
- The `message` of a conversation entry and of an embedded request has no length limit in the schema, and none is modelled.
- `images` entries are required strings. Only the array's presence and length are checked here, not that each element is non-empty.
- `parseInt` of `pointValue`, `page` and `limit`: the model takes integers.
- String lengths count Dafny characters, not UTF-16 code units; the two differ only outside the Basic Multilingual Plane.
- UserRoutes.PageOf, UserRoutes.Paginate: require `page >= 1` and `limit >= 1`, which the handler does not check. With `limit` 0 MongoDB applies no limit, and a page below 1 gives a negative skip; neither case is modelled.
- UserRoutes.Respond: when requester and owner are the same account, the model applies both parties' updates in turn. The handler works on two separately loaded copies of that account, and one copy's save overwrites the other's. Every valid store has distinct parties (`Swaps.Valid`), so this case never arises there.
- Invariants.RedeemKeepsValid and the other preservation lemmas: they start from `State.Valid`, which holds for stores built by these handlers from the empty store. They say nothing about data written by other means.
- The save after Approve re-runs schema validation on the whole item. The model does not re-validate there, because a valid store always passes. Update re-validates the whole listing, as the save does.

## Findings

| source | as written | input that shows it | evidently intended | confidence | as-written member | corrected member |
|---|---|---|---|---|---|---|
| backend/models/Swap.js:94-103 | `createPointRedemption` passes `owner: null`, and `owner` is a required path | any call, e.g. item 1, requester 2, 20 points: validation rejects path `owner` | create a pending point redemption with the item's owner filled in | not executed | Swaps.CreatePointRedemption | Swaps.CreatePointRedemptionFor |
