# Laptop-shop admin backend, modelled in Dafny

This project models the rules at the core of a small e-commerce admin
backend. The backend is an Express/Mongoose service for a laptop catalog,
customer orders and staff accounts. The model covers:

- **Orders**: the schema's validators, the pre-save hook that logs status
  changes into `statusHistory`, the `updateStatus` and
  `updatePaymentStatus` methods, and the order handlers (`createOrder`,
  the two scoped listings, `assignOrder`, `updateOrderStatus`).
- **Order field validators**: the phone patterns and the e-mail shape, as
  predicates and as single-pass checkers proved equal to them.
- **Catalog**: the laptop schema's bounds and enums, creation defaults,
  the `discountedPrice` virtual, `updateStock`, the field-wise merge of an
  update, and the handlers. `getAllLaptops` is modelled as a filter
  predicate plus pagination.
- **Access control**: `protect` (bearer-token extraction, verification,
  active user), `restrictTo`, and `restrictToOwnerOrMaster`.
- **Staff accounts**: role-derived permission defaults, the `addedBy`
  requirement, password length, hash-on-modify and `comparePassword`. The
  account handlers are `login`, `addAdmin`, `updateAdminStatus`,
  `getAllAdmins` and `refreshToken`.
- **Upload signature**: the `/signature` route's parameter check and its
  string to sign. The string is the sorted `key=encodeURIComponent(value)`
  pairs joined by `&`, followed by the API secret.

## How the model is built

- A store is a `map<Id, Record>`.
- Each handler is a pure function of the stores and the request. It
  returns an outcome (`Result`, whose failures stand for 400, 401, 403,
  404 and 500) and, where it writes, the store after the call.
- Fresh ids and the current time are parameters.
- A document save is a validity predicate checked on the document, as the
  caller left it. The pre-save hooks and the timestamps are applied only
  after that check, matching the order in which Mongoose runs them.
- Cryptography is replaced by concrete stand-ins with the behaviour the
  handlers observe:
  - a token carries the user id and its issue time (`iat`, in seconds),
    and verifies to that id until 30 days after issue;
  - a password matches a hash iff it is the hashed plaintext;
  - a digest is a function of its input.
- A user's `isActive` is read two ways. A query filter such as
  `isActive: true` tests the stored field. A loaded document reads an
  absent field as its default, `true`.
- `encodeURIComponent` follows section 19.2.6.4 of ECMA-262: UTF-8 bytes,
  with upper-case `%XX` escapes. It is proved to round-trip through a
  decoder.

Modules, one per file:

| module | file |
|---|---|
| `Common` | common.dfy |
| `Crypto` | crypto.dfy |
| `UserModel` | user_model.dfy |
| `AuthMiddleware` | auth_middleware.dfy |
| `AuthController` | auth_controller.dfy |
| `Listing` | listing.dfy |
| `LaptopModel` | laptop_model.dfy |
| `LaptopController` | laptop_controller.dfy |
| `OrderValidators` | order_validators.dfy |
| `OrderModel` | order_model.dfy |
| `OrderController` | order_controller.dfy |
| `UriEncoding` | uri_encoding.dfy |
| `StringSort` | string_sort.dfy |
| `UploadRoutes` | upload_routes.dfy |

### Behaviour of the code worth knowing

The model follows the code, including these consequences:

- **Order creation always fails.** `createOrder` is meant to create a
  pending order. The schema, however, requires `totalPrice` and
  `shippingAddress`, and the handler never supplies them. Every request
  for an existing, in-stock laptop therefore ends in 400
  (`OrderController.CreateOrderAlwaysRejected`).
- **Status changes are logged twice.** `updateStatus` pushes a history
  entry of its own, and then the pre-save hook pushes a second one
  (`OrderModel.UpdateStatusLogsTwice`). When the new status equals the old
  one, only the explicit entry is added.
- **A status change with no assignee breaks the order.** The hook copies
  `assignedTo` into the required `updatedBy`. Validation runs before the
  hook, so when master changes the status of an unassigned order, the save
  passes but stores an invalid entry. Every later save of that order then
  fails: it cannot be claimed, and its status cannot change again
  (`OrderController.MasterChangeStrandsUnassigned`). A request without
  `status` likewise unsets the field and logs an entry without a status
  (`OrderController.MissingStatusUnsets`).
- **Missing login fields give 400.** `login` answers 400 when the email or
  the password is missing, and 401 for every other refusal.
- **An admin whose status update omits `isActive` is half disabled.** The
  update unsets the field. Login's query no longer finds the admin, but
  `protect` and `refreshToken` load the default `true`, so tokens already
  issued keep working (`AuthController.MissingStatusBlocksOnlyLogin`).
- **Laptop update checks existence first.** `updateLaptop` and
  `deleteLaptop` answer 404 before checking ownership. A non-master
  meeting a laptop without `addedBy` gets 400, because
  `addedBy.toString()` throws, where the middleware would answer 403.

## Model

| member | source | states |
|---|---|---|
| Common.Trim | models/Order.js:4-8 | the `trim` setter keeps a contiguous slice of the input, drops only white space on either side, and leaves no white space at either end |
| Common.TrimIdempotent | models/Order.js:4-8 | trimming an already trimmed string changes nothing |
| Common.Utf16Length | models/User.js:13-17 | a string's JavaScript length lies between its character count and twice that; it equals the count iff no character is astral, and twice the count iff every character is |
| Common.ToLower | models/User.js:6-12 | the `lowercase` setter keeps the length and lowers each upper-case ASCII letter, leaving every other character as it is |
| Common.ToLowerIsLower | models/User.js:6-12 | a lower-cased email contains no upper-case letter, and lower-casing it again changes nothing |
| Common.SplitJoin | middleware/auth.js:8 | splitting a join of separator-free pieces on the separator gives back exactly those pieces |
| Common.JoinSplit | middleware/auth.js:8 | joining the pieces of a split with the separator restores the original string |
| Crypto.SignToken | controllers/authController.js:5-9 | a token signed for an id at a time carries the fixed prefix and contains no white space, so it survives the `Bearer <token>` header |
| Crypto.VerifyToken | middleware/auth.js:14 | a token that verifies to an id at time `now` is a token signed for that id less than 30 days before `now` |
| Crypto.VerifySignedToken | controllers/authController.js:5-9 | a token signed for an id verifies to that id before its 30-day expiry, and to nothing from the expiry on |
| Crypto.DecodeToken | middleware/auth.js:14 | a string whose claims can be read back is exactly the token signed with those claims |
| Crypto.DecodeSignedToken | controllers/authController.js:5-9 | decoding a signed token gives back the id and issue time it was signed with |
| Crypto.VerifyTokenIff | middleware/auth.js:14 | a token verifies to `id` at `now` iff it was signed for `id` at some `iat` with `now < iat + 30 days` |
| Crypto.SignTokenInjective | controllers/authController.js:5-9 | two tokens are equal iff they were signed for the same id at the same second |
| Crypto.CompareHashedPassword | models/User.js:76-78 | bcrypt's compare accepts a candidate against the hash of `q` iff the candidate equals `q` |
| UserModel.DefaultPermissions | models/User.js:34-59 | both roles may add and delete laptops and manage orders; only master may manage admins |
| UserModel.DefaultPermissionsOrdered | models/User.js:34-59 | master's defaults grant every flag an admin's do, not the other way round, and the two differ in `canManageAdmins` alone |
| UserModel.ActiveReadings | models/User.js:30-33 | a record that matches the `isActive: true` filter also loads as active; the two readings differ exactly for a record without the field |
| UserModel.NewUser | models/User.js:6-33 | a new record has the lower-cased email, a pending plaintext password, is active, has no assigned orders, and carries its role's permissions |
| UserModel.HashIfModified | models/User.js:69-73 | the hook hashes a plaintext password, leaves an already hashed record unchanged, and touches no other field |
| UserModel.SaveUser | models/User.js:6-29 | a save succeeds iff the record passes the validators (checked on the plaintext, whose length counts UTF-16 code units) and no other record holds its email; a success stores the hashed record, a failure is 400 |
| UserModel.ResaveDoesNotRehash | models/User.js:69-73 | saving a saved record again yields the same record: its password is not hashed twice |
| UserModel.SavedPasswordMatchesOnlyPlaintext | models/User.js:76-78 | after a save from plaintext `q`, `comparePassword(p)` holds iff `p == q` |
| UserModel.AddedByRequiredIffAdmin | models/User.js:23-29 | a master record is valid without `addedBy`; an admin record is valid iff it has one |
| UserModel.SavePreservesUsersOk | models/User.js:6-12 | a successful save keeps emails unique and every record valid, lower-cased and hashed |
| AuthMiddleware.BearerToken | middleware/auth.js:8-11 | a token is extracted iff the header has a non-empty second space-separated piece, and that piece contains no space |
| AuthMiddleware.BearerTokenOfHeader | middleware/auth.js:8 | from `scheme + " " + token` the extracted token is exactly `token` |
| AuthMiddleware.BearerAloneRejected | middleware/auth.js:8-11 | a header without a space, such as `Bearer` alone, yields no token |
| AuthMiddleware.Protect | middleware/auth.js:5-28 | every refusal is 401, and there is no token without a second header piece; an admitted caller is the stored user whose id an unexpired token was signed for, and who loads as active |
| AuthMiddleware.ProtectAdmitsSignedUser | middleware/auth.js:14-24 | a bearer token signed for an existing user who loads as active, less than 30 days ago, admits exactly that user |
| AuthMiddleware.ProtectRefusesInactive | middleware/auth.js:14-20 | a deleted or deactivated user, or an expired token, is refused with 401 even when the token was signed for that user |
| AuthMiddleware.RestrictTo | middleware/auth.js:31-40 | passes iff the caller's role is among the listed roles, else 403 |
| AuthMiddleware.RestrictToMonotone | middleware/auth.js:31-40 | listing more roles never refuses a caller that fewer roles admitted; `restrictTo('master')` admits exactly master, and listing both roles admits everyone |
| AuthMiddleware.RestrictToOwnerOrMaster | middleware/auth.js:43-61 | 404 for a missing resource; otherwise passes iff the caller is master or the resource's owner, else 403 |
| AuthMiddleware.OwnerlessOnlyMaster | middleware/auth.js:50-57 | a resource without `addedBy` passes for master and for no one else |
| AuthController.FindActiveByEmail | controllers/authController.js:24 | the lookup finds a record iff a record stored with `isActive: true` has the email, and what it finds is such a record |
| AuthController.FindActiveByOwnEmail | controllers/authController.js:24 | with unique emails, looking up a record's own email finds that record iff it is stored as active |
| AuthController.Login | controllers/authController.js:12-51 | 400 when email or password is missing, 401 for every other refusal; a success names a user stored as active, with the lower-cased email and a matching password, and the reply carries that user's role and a token signed for the user at `now` |
| AuthController.LoginSucceedsIff | controllers/authController.js:24-32 | for a stored user's email, login succeeds iff the user is stored as active and the password matches, and the token then verifies to that user |
| AuthController.InactiveNeverLogsIn | controllers/authController.js:24-29 | when no record with the email is stored as active, login fails |
| AuthController.AddAdmin | controllers/authController.js:54-89 | a non-master caller gets 403 and the store is unchanged; for master it succeeds iff the email is non-empty (the model's reading of a valid email), the password is at least 8 UTF-16 code units long and the lower-cased email is free, else 400; a success adds exactly one admin record with the lower-cased email, the hashed password, stored as active, added by the caller with the admin permissions, and leaves every other record as it was |
| AuthController.AddAdminKeepsStoreOk | controllers/authController.js:66-71 | a successful `addAdmin` keeps the store's invariants, and the new admin's password is the one given |
| AuthController.UpdateAdminStatus | controllers/authController.js:92-138 | 403 for a non-master caller, 404 for a missing target, 403 for a master target; a success sets only `isActive` of that one record to the given value, or unsets it when none is given |
| AuthController.UpdateAdminStatusSucceeds | controllers/authController.js:112-119 | on a consistent store, master can always change an admin's status, and the store stays consistent |
| AuthController.MissingStatusBlocksOnlyLogin | controllers/authController.js:118 | after an update without `isActive`, the admin can no longer log in, yet `protect` still admits a token issued to them before |
| AuthController.Populate | controllers/authController.js:150-152 | the creator is shown iff the reference is set and names a stored record, and then it carries that record's id and email |
| AuthController.GetAllAdmins | controllers/authController.js:141-166 | 403 unless master; otherwise exactly the admin records, each with its email, role, loaded isActive, and its creator's id and email iff the creator exists; no password |
| AuthController.AddedAdminIsListed | controllers/authController.js:54-89 | an admin master has just added is listed as an active admin with the lower-cased email and master as its creator |
| AuthController.UpdatedStatusIsListed | controllers/authController.js:92-166 | after a status update the listing shows the admin as active unless the update set `false` |
| AuthController.RefreshToken | controllers/authController.js:168-191 | 400 without a token, 401 when it does not verify (forged or expired) or its user is missing or loads as inactive; otherwise a token for the same user, issued at `now` |
| AuthController.RefreshKeepsIdentity | controllers/authController.js:176-182 | refreshing an unexpired token of an active user succeeds; the new token verifies to the same user for 30 days from the refresh and, when issued later than the old one, is a different token still valid when the old one has expired |
| Listing.InsertDesc | controllers/orderController.js:57 | inserting into a newest-first sequence keeps it newest-first, adds exactly the one id, and keeps it duplicate-free |
| Listing.SortByKeyDesc | controllers/orderController.js:57 | the result lists each id of the set exactly once, in non-increasing key order |
| LaptopModel.SaveLaptop | models/Laptop.js:3-81 | a save succeeds iff the record passes the schema's validators, and then stores the record unchanged; a failure is 400 |
| LaptopModel.ValidLaptopEnums | models/Laptop.js:4-17 | a valid record names one of the eight manufacturers and at least one category, each from the six listed |
| LaptopModel.NewLaptop | models/Laptop.js:56-71 | unset discount, stock flag and quantity default to 0, true and 0; price and owner are taken from the payload |
| LaptopModel.Merge | controllers/laptopController.js:156 | each of the fourteen fields keeps its value when the payload omits it and otherwise takes the payload's value, trimmed for the trimmed string fields |
| LaptopModel.MergeEmpty | controllers/laptopController.js:156 | an empty payload changes nothing |
| LaptopModel.MergeCompose | controllers/laptopController.js:156 | two updates in a row equal one update with the later payload laid over the earlier |
| LaptopModel.MergeIdempotent | controllers/laptopController.js:156 | applying the same payload twice is applying it once |
| LaptopModel.DiscountedPriceBounds | models/Laptop.js:84-87 | within the schema's bounds the discounted price lies between 0 and the price; it is 0 at discount 100 and the price at discount 0 |
| LaptopModel.DiscountedPriceClosedForm | models/Laptop.js:84-87 | for every non-negative discount the virtual equals `price * (1 - discount / 100)` |
| LaptopModel.DiscountedPriceMonotone | models/Laptop.js:84-87 | a larger discount never gives a higher price |
| LaptopModel.DiscountedPriceExample | models/Laptop.js:84-87 | price 1000 at discount 10 gives 900 |
| LaptopModel.ApplyStock | models/Laptop.js:90-96 | the quantity changes by exactly the amount, `inStock` holds iff the new quantity is positive, and no other field changes |
| LaptopModel.UpdateStock | models/Laptop.js:90-97 | a saved stock update is the adjusted record and is valid; driving the quantity below zero gives 400 |
| LaptopModel.StockUpdatesAdd | models/Laptop.js:90-96 | updating by `a` and then by `b` is updating by `a + b` |
| LaptopModel.UpdateStockValidity | models/Laptop.js:66-71 | on a valid record, a stock update saves iff the quantity stays non-negative |
| LaptopModel.DefaultsBreakStockAgreement | models/Laptop.js:62-71 | a record created without stock fields is in stock with quantity 0, so `inStock` does not follow the quantity as a schema invariant |
| LaptopController.CreateLaptop | controllers/laptopController.js:4-27 | 400 and no new record when images are missing or empty; with images it succeeds iff the body with the caller as owner passes validation, else 400; any failure leaves the store unchanged; a success stores exactly the new valid record under the fresh id, owned by the caller |
| LaptopController.CreateLaptopIgnoresBodyOwner | controllers/laptopController.js:12-15 | an `addedBy` in the body has no effect on the outcome |
| LaptopController.GetLaptop | controllers/laptopController.js:107-128 | the stored record iff it exists, else 404 |
| LaptopController.GetLaptopAfterWrites | controllers/laptopController.js:107-128 | reading after a write gives the created record under its new id, the merged record after an update, and 404 after a delete; every other id reads as before |
| LaptopController.OwnerCheck | controllers/laptopController.js:141-146 | passes iff the caller is master or the owner; an ownerless record refuses a non-master with 400, otherwise a refusal is 403 |
| LaptopController.OwnerCheckAgreesWithMiddleware | controllers/laptopController.js:141-146 | the handlers' ownership test admits exactly the callers `restrictToOwnerOrMaster` admits, with the same codes whenever the record has an owner |
| LaptopController.UpdateLaptop | controllers/laptopController.js:131-169 | 404 before the ownership test, then the test's code, then 400 for an empty image list; past those checks it succeeds iff the merged record passes validation, else 400; a success stores the valid merged record under that id alone |
| LaptopController.UpdateLaptopFrame | controllers/laptopController.js:156 | an update leaves every other record unchanged, and an empty body changes nothing |
| LaptopController.DeleteLaptop | controllers/laptopController.js:172-201 | 404 for a missing record; success iff the caller is master or the owner, and then exactly that record is removed and every other is unchanged |
| LaptopController.FiltersConjoin | controllers/laptopController.js:37-82 | a record matches the query iff it matches each filter of the query on its own |
| LaptopController.StockFilterOnlyForTrue | controllers/laptopController.js:80-82 | a stock filter with any value other than `"true"` excludes nothing |
| LaptopController.RamBoundIsLexicographic | controllers/laptopController.js:73-77 | RAM bounds compare as strings: a "16GB" machine fails a minimum of 8 |
| LaptopController.PageNumber | controllers/laptopController.js:32 | the page is the parsed number, or 1 when parsing gives NaN or 0 |
| LaptopController.PageLimit | controllers/laptopController.js:33 | the limit is the parsed number, or 10 when parsing gives NaN or 0 |
| LaptopController.CeilDiv | controllers/laptopController.js:95 | the reported page count is the least integer not below `total / limit`, for a limit of either sign |
| LaptopController.Select | controllers/laptopController.js:85 | the selected ids are exactly the listed ids whose records match, without duplicates |
| LaptopController.SelectAppend | controllers/laptopController.js:85 | selection keeps the collection's order: selecting from two stretches in turn is selecting from both |
| LaptopController.SelectSingle | controllers/laptopController.js:85 | a single record is selected iff it matches |
| LaptopController.Window | controllers/laptopController.js:85 | the page holds the matches from position `skip` on, `min(limit, remaining)` of them and none past the end |
| LaptopController.WindowsConcatenate | controllers/laptopController.js:85 | a page followed by the page after it is the window of both together |
| LaptopController.MatchOnItsPage | controllers/laptopController.js:32-34 | with a positive limit, the k-th match stands at position `k % limit` of page `k / limit + 1` |
| LaptopController.SelectCount | controllers/laptopController.js:86 | the count of the selection equals the number of stored records that match |
| LaptopController.GetAllLaptops | controllers/laptopController.js:30-104 | 500 iff a price bound is NaN or the skip is negative; otherwise the reply holds the page number, the count of all matching records, the window at `(page - 1) * limit` of the matches in collection order, and a page count equal to the ceiling of total over limit |
| LaptopController.EveryMatchIsOnSomePage | controllers/laptopController.js:32-34 | with a positive limit, the k-th match lies on page `k / limit + 1`, which is within the page count |
| OrderValidators.CheckPhone | models/Order.js:30-35 | the single pass accepts a string iff it is an optional `+` followed by a digit 1-9 and 1 to 14 further digits, or 10 to 15 digits |
| OrderValidators.PhoneValidBounds | models/Order.js:32 | an accepted phone is 2 to 16 characters long, all digits apart from a leading `+`, and has no white space |
| OrderValidators.PhoneRejectsLong | models/Order.js:32 | more than fifteen digits are refused, with or without a plus |
| OrderValidators.PhoneExamples | models/Order.js:30-35 | E.164 numbers, leading-zero local numbers and two-digit numbers pass; nine-digit local numbers, `+0...` numbers, numbers with spaces and sixteen digits fail |
| OrderValidators.EmailOfParts | models/Order.js:19-24 | any three non-empty pieces without white space, put together as `a@b.c`, form an accepted address |
| OrderValidators.EmailParts | models/Order.js:19-24 | every accepted address is `a@b.c` for three such pieces |
| OrderValidators.CheckEmail | models/Order.js:19-24 | the single pass accepts a string iff it has no white space and splits as `a@b.c` with non-empty pieces |
| OrderValidators.EmailExamples | models/Order.js:19-24 | `ana@example.com` and `a@b.c` pass; `a@.c`, a domain without a dot, and an inner space fail |
| OrderModel.ParseStatus | models/Order.js:42-46 | a string is accepted iff it is one of the five enum names, and then it names the parsed status |
| OrderModel.ParseStatusName | models/Order.js:42-46 | every status is accepted under its own name |
| OrderModel.Draft | controllers/orderController.js:24-30 | a created order has the trimmed and lower-cased fields from the body, status and payment status pending, no assignee, and an empty history |
| OrderModel.DraftNeverValid | models/Order.js:75-84 | a created order lacks the required price and address, so it never passes validation |
| OrderModel.HookEntry | models/Order.js:97-101 | the hook's entry carries the new status and the current assignee; its note is "Order cancelled" exactly for a cancellation and absent otherwise |
| OrderModel.PreSave | models/Order.js:95-104 | the hook appends exactly one entry when the status was modified, and otherwise leaves the document unchanged |
| OrderModel.Stamp | models/Order.js:90-92 | an insertion sets both timestamps; a change sets `updatedAt`; an unchanged document keeps its timestamps |
| OrderModel.SaveOrder | models/Order.js:3-104 | a save succeeds iff the document as assigned passes validation; a success appends the hook's entry exactly when the status changed, and changes nothing else except the timestamps |
| OrderModel.SaveLogsStatusChange | models/Order.js:95-104 | a status change adds exactly one entry, after the old ones, carrying the new status, the assignee and the cancellation note; no change leaves the history as it was |
| OrderModel.SaveRejectsBrokenHistory | models/Order.js:55-74 | a document holding an entry without status or `updatedBy` is refused with 400 |
| OrderModel.UnassignedChangeBreaksHistory | models/Order.js:95-104 | a status change saved with no assignee passes, but the stored document fails validation |
| OrderModel.ResaveIsIdentity | models/Order.js:95-104 | saving an unchanged valid order returns it unchanged |
| OrderModel.TrimNote | models/Order.js:66-69 | a note is kept, trimmed, iff one was given |
| OrderModel.UpdateStatus | models/Order.js:107-121 | sets the status and keeps the old history as a prefix; its own entry follows, then the hook's entry when the status changed; away from pending it takes over the assignment and stamps `assignedAt`; no other field changes |
| OrderModel.UpdateStatusSucceedsIff | models/Order.js:109-119 | on a valid order, `updateStatus` succeeds iff it is given `updatedBy` |
| OrderModel.UpdateStatusLogsTwice | models/Order.js:107-119 | a real change adds two entries with the new status; away from pending both name the same user, at pending the hook's names the old assignee |
| OrderModel.UpdatePaymentStatus | models/Order.js:124-128 | succeeds iff the order is valid, and sets only the payment status, adding no history |
| OrderModel.PaymentUpdatesCompose | models/Order.js:124-128 | two payment updates on a valid order both succeed, the last one wins, and the history is unchanged |
| OrderController.CreateOrder | controllers/orderController.js:5-42 | 404 for a missing or unknown laptop, 400 for one out of stock, nothing stored on failure; a success adds exactly one pending, unassigned order for that laptop |
| OrderController.CreateOrderAlwaysRejected | controllers/orderController.js:24-30 | no request creates an order: an in-stock laptop still gives 400 |
| OrderController.CreateOrderIgnoresExtras | controllers/orderController.js:7 | requests that agree on name, e-mail, phone and laptop have the same outcome, whatever else they carry |
| OrderController.GetAllOrders | controllers/orderController.js:45-69 | exactly the orders in the caller's scope (an admin sees those assigned to them, master sees all), each once, newest first by `createdAt` |
| OrderController.GetOrderHistory | controllers/orderController.js:72-96 | exactly the completed orders in the caller's scope, each once, most recently updated first |
| OrderController.AssignOrder | controllers/orderController.js:99-129 | 404 for a missing order and 400 for an assigned one, changing nothing; a success sets the caller as assignee and the status to accepted, leaves `assignedAt` alone, and logs the change |
| OrderController.AssignOrderSucceeds | controllers/orderController.js:115-117 | any caller can claim a valid unassigned order |
| OrderController.AssignIsFirstClaim | controllers/orderController.js:108-113 | after a successful claim, every later claim by anyone gets 400 and changes nothing |
| OrderController.UpdateOrderStatus | controllers/orderController.js:132-164 | 404, then 403 unless master or assignee, then 400 for a name outside the enum; a success sets the requested status (unset when missing), keeps the assignee, and logs a change |
| OrderController.NoTransitionCheck | controllers/orderController.js:144-152 | master or the assignee can move a valid order from any status to any status |
| OrderController.UnassignedOnlyByMaster | controllers/orderController.js:144-149 | only master gets past the check on an unassigned order |
| OrderController.MasterChangeStrandsUnassigned | controllers/orderController.js:144-152 | master's status change on an unassigned order passes, after which the order can be neither claimed nor updated |
| OrderController.MissingStatusUnsets | controllers/orderController.js:134-152 | a request without `status` passes and unsets the status, leaving an order that fails validation |
| UriEncoding.Utf8 | routes/uploadRoutes.js:30 | a character encodes to 1-4 bytes: the lead byte announces the length, the rest are continuation bytes, and a single byte is used iff the character is ASCII |
| UriEncoding.DecodeGroupOfUtf8 | routes/uploadRoutes.js:30 | the UTF-8 bytes of a character decode back to it |
| UriEncoding.ReadEscapesOfEscapeAll | routes/uploadRoutes.js:30 | reading `n` escapes back from the escapes of `n` bytes gives those bytes |
| UriEncoding.EncodeChar | routes/uploadRoutes.js:30 | an unreserved character stays itself; any other becomes the `%XX` escapes of its UTF-8 bytes |
| UriEncoding.DecodeEncode | routes/uploadRoutes.js:30 | decoding the encoding of any string gives the string back |
| UriEncoding.EncodeInjective | routes/uploadRoutes.js:30 | different strings have different encodings |
| UriEncoding.EncodeAlphabet | routes/uploadRoutes.js:30 | an encoding consists of unreserved characters and `%` only, so it contains no `&` and no `=` |
| UriEncoding.EncodeUnreserved | routes/uploadRoutes.js:30 | a string of unreserved characters is its own encoding |
| UriEncoding.EncodeExamples | routes/uploadRoutes.js:30 | a space, `&` and `é` encode as `%20`, `%26` and `%C3%A9` |
| StringSort.StrLessTotal | routes/uploadRoutes.js:29 | any two different strings are ordered one way or the other |
| StringSort.InsertString | routes/uploadRoutes.js:29 | inserting into a sorted sequence gives a sorted permutation of the sequence plus the new string |
| StringSort.SortStrings | routes/uploadRoutes.js:29 | `sort()` returns a sorted permutation of its input |
| StringSort.SortedPermutationUnique | routes/uploadRoutes.js:29 | two sorted permutations of the same strings are the same sequence |
| UploadRoutes.Render | routes/uploadRoutes.js:30 | a string parameter is used as given; a number becomes its canonical decimal numeral, with a leading `-` when negative |
| UploadRoutes.ParamValues | routes/uploadRoutes.js:21-26 | the signed parameters are exactly public_id, timestamp, api_key and folder, with their given values |
| UploadRoutes.Pairs | routes/uploadRoutes.js:30 | each piece is `key=` followed by the encoded value of that key, in key order |
| UploadRoutes.SortedKeyOrder | routes/uploadRoutes.js:28-29 | the sorted keys are api_key, folder, public_id, timestamp |
| UploadRoutes.StringToSignLayout | routes/uploadRoutes.js:28-33 | the string to sign is the four pieces in that order joined by `&`, followed directly by the secret |
| UploadRoutes.PairHasNoAmpersand | routes/uploadRoutes.js:30 | a piece contains no `&`, so the join can be split back apart |
| UploadRoutes.SortedParamsInjective | routes/uploadRoutes.js:28-31 | the parameter string determines all four parameter values |
| UploadRoutes.StringToSignInjective | routes/uploadRoutes.js:33 | under one secret, equal strings to sign mean equal parameters |
| UploadRoutes.Signature | routes/uploadRoutes.js:9-48 | 401 from `protect`, then 400 unless timestamp, public_id and folder are all truthy; it succeeds iff `protect` admits the caller and all three are truthy, and a success carries the configured API key and the digest of the string to sign |
| UploadRoutes.SignatureIdentifiesParameters | routes/uploadRoutes.js:28-34 | under one configuration, two successful requests that render the same timestamp, public_id and folder get the same reply, and they sign the same string iff they render the same three values |

## Left out

- Database I/O: query execution, indexes and `populate`. Stores are maps. The unique email index is a store invariant. Listings return ids, not populated documents.
- Timestamps: `Date.now`, `createdAt` and `updatedAt` are natural numbers passed in. Fresh document ids are passed in as well.
- Concurrency: requests are sequential. The check-then-write race in `assignOrder` is not modelled.
- Cryptographic internals of JWT, bcrypt and SHA-1. Each is a stand-in with the behaviour stated above. The stand-ins never collide, which the real primitives do not promise; the properties below that rely on that say so.
- Crypto.VerifyTokenIff: the "only if" half holds because only the server can sign; with HS256 that is the assumption that nobody without `JWT_SECRET` can forge a signature. Claims other than `id`, `iat` and `exp`, and the `nbf` and clock-tolerance options, are not modelled.
- UploadRoutes.SignatureIdentifiesParameters: SHA-1 is a datatype constructor here, so model digests never collide. The lemma therefore claims only that equal parameters give equal replies and that the string to sign identifies the parameters, not that different parameters give different signatures.
- Crypto.CompareHashedPassword: does not model bcrypt's truncation of passwords after 72 bytes, because it is part of the hash internals.
- UserModel.SaveUser and AuthController.AddAdmin: reduce the `validator.isEmail` check on staff emails to non-emptiness, because that library is not modelled. AddAdmin's success condition therefore accepts any non-empty email that `isEmail` would refuse.
- LaptopModel.DiscountedPriceClosedForm and the other DiscountedPrice lemmas: prices and discounts are exact reals. JavaScript computes `price - price * discount / 100` in IEEE doubles, whose rounding is not modelled, so the closed form `price * (1 - discount / 100)` holds of the model, not of every double the code produces (at price 0.1 and discount 33 the two double results differ in the last place).
- Common.ToLower: lowers ASCII letters only. Unicode case mapping is not modelled.
- LaptopController.Matches: assumes Mongoose passes filter paths that are not in the laptop schema through to MongoDB (`strictQuery` false, the default from Mongoose 7 on). Then the `brand` and `category` filters select nothing, and the search's `description` and `brand` clauses never match. Under `strictQuery` true (the Mongoose 6 default) those paths are stripped from the filter, so the `brand` and `category` filters would be ignored instead; that reading is not modelled.
- LaptopController.FiltersConjoin: treats `$regex` filters as case-insensitive substring tests. Regular-expression metacharacters in user input are not interpreted.
- LaptopController.GetAllLaptops: takes the results of `parseInt` and `parseFloat` as inputs. The model covers integer page and limit values, real price bounds and NaN, but not `Infinity` or fractional values.
- UploadRoutes.Render: covers strings and safe integers (magnitude at most 2^53 - 1), which `String` writes in plain decimal. Larger integers, which `JSON.parse` rounds and `String` writes in exponent form from 10^21 on, fractional numbers, booleans and objects in the JSON body are not modelled.
- UriEncoding.Encode: Dafny characters are Unicode scalar values, so the lone surrogates for which `encodeURIComponent` throws cannot occur.
- OrderModel.UpdateStatus and OrderModel.UpdatePaymentStatus: take typed statuses, so an out-of-enum string passed to these methods is not modelled. The controller's status strings are parsed and checked against the enum.
- AuthController.UpdateAdminStatus: takes `isActive` as an optional boolean. Values of other types, which Mongoose would cast to a boolean or reject, are not modelled.
- Ids: document ids are well-formed ObjectIds, abstracted to numbers. A malformed id makes `findById` throw a CastError, which the handlers' catch blocks answer with 400 (controllers/laptopController.js:109,133,174; controllers/orderController.js:10,101,135; controllers/authController.js:105), where the model has only well-formed ids.
- Request bodies of the wrong JSON type, such as a non-array `images`, are not modelled: fields have their schema types.
- Response JSON shapes and message strings are left out. Only outcome codes and the resulting stores are modelled.
- The server wiring, CORS and error middleware, the multer/Cloudinary upload middleware, and the master-admin provisioning script are not part of this model. Each handler takes the caller that `protect` admitted, because the routes run `protect`, and then `restrictTo`, before it.
