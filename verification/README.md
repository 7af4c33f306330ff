# instashop order core, modelled in Dafny

This project models the order core of instashop, a small Go shop backend. The
core covers:

- placing an order: the duplicate-reference check, the user lookup, the
  assembly of the requested (product code, quantity) lines, and the creation of
  a pending order;
- the order status rules: a user cancels their own pending order, and an
  administrator moves an order to another status;
- the paged listing of a user's orders;
- the soft-delete-filtered lookups and writes of the order and product
  repositories;
- the formatting of request-validation messages.

The database is one `Store.Database` object with three tables: users, products
and orders. Product and order rows sit in id order, so the row with id k is at
index k - 1. Storage failures are explicit parameters, never hidden:

- a lookup, save or create can fail with a message;
- a commit can fail after a successful save.

Each state-changing endpoint (placing, cancelling and moving an order) and each
repository write is a module-level method that takes the database object and
updates it. Each is proved equal to a function that states its whole effect:
the response, and the product and order tables it leaves. The properties below
are then proved about those functions. The listing endpoint changes nothing and
is a function only (`OrderHandler.ListUserOrders`).

Modules, one per source file of the core:

| module | file | source |
|---|---|---|
| `Model` | model.dfy | the records and the status enum (model/order.go, model/product.go, model/user.go) |
| `Store` | store.dfy | the tables, and `FindUserBy` (repository/auth_repository.go) |
| `ProductRepository` | product_repository.dfy | repository/product_repository.go |
| `OrderRepository` | order_repository.dfy | repository/order_repository.go |
| `ErrorHandler` | error_handler.dfy | util/error_handler.go |
| `OrderAssembly` | order_assembly.dfy | `validateProducts` and `isCurrencyMismatch` in handler/order_handler.go |
| `OrderHandler` | order_handler.dfy | the endpoints in handler/order_handler.go |

## Behaviour of the code worth knowing

- **Placement is not atomic.** Each line's lowered stock is written before the
  next line is read. The currency check comes after every line has been
  written. An order whose currency does not match, or whose later line fails,
  leaves the earlier stock writes in place (`OrderAssembly.CurrencyCheckedLast`,
  `OrderAssembly.FirstFailure`; `OrderHandler.MismatchedCurrencyKeepsStock` is
  one example). Nothing serialises stock check-and-decrement.
- **A status update can move a shipped order to any of the four statuses**,
  Cancelled and Pending included, and a pending order too
  (`OrderHandler.StatusUpdateSteps`). A user's own cancellation, by contrast,
  requires Pending (`OrderHandler.CancelSteps`).
- **A conflict is decided on the id of the record read back, before its error.**
  When the order row is read but the preload of its products then fails, the
  record still carries the row's id and the placement is answered 409
  (`OrderHandler.DuplicateReferenceRejected`). Only a failed order query,
  which leaves the zero record, is a server error.
- **A body that is not valid JSON gets an empty error message.** The extractor
  returns no messages for an error that is not a list of validation failures,
  and reading message 0 of that gives "" (`ErrorHandler.FirstMessageOfBinding`).
- **Cancel answers a missing user with 500 "Error in order", not 404.**
  `FindUserBy` never returns a nil user without an error, so the 404 branch in
  the cancel and list handlers is unreachable.
- **`PlaceOrder` takes the user from the request body's `user_id`**, not from the
  authenticated principal.
- **A failed commit is never reported.** `UpdateProduct` and `UpdateOrder` then
  return the record and no error, and nothing is written. `ReserveLine` and the
  cancel and status endpoints carry on as if the write had succeeded.

## Model

| member | source | states |
|---|---|---|
| Model.ParseStatus | model/order.go:15-18 | reading a status text gives the status whose stored name is that text, and none exactly when no status has that name |
| Model.ParseStatusName | model/order.go:15-18 | reading back a status's stored name gives that status (round trip) |
| Store.FindUserBy | repository/auth_repository.go:15-21 | a failure is passed through; a found user is the first live user with the guid; not found means no live user has it |
| ProductRepository.FirstLive | repository/product_repository.go:14 | the index of the first live row with the code, at or after the start, and no live row with the code before it |
| ProductRepository.GetProduct | repository/product_repository.go:12-30 | a storage failure is passed through unchanged; a found product is the first live row with the code; not found exactly when no live row has the code |
| ProductRepository.SavedProductReplacesRow | repository/product_repository.go:43 | a save writes the product over the row with its id and leaves every other row as it was; a table in id order stays in id order |
| ProductRepository.MarkDeleted | repository/product_repository.go:58 | only the is_deleted column changes, and it is set exactly on the row with the id |
| ProductRepository.UpdateProduct | repository/product_repository.go:33-55 | an error only when the save fails; a failed commit returns the product and writes nothing; a successful commit returns nothing and replaces the row with the product's id; users and orders untouched |
| ProductRepository.DeleteProduct | repository/product_repository.go:57-63 | on success only the row's is_deleted flag changes; on failure nothing changes |
| ProductRepository.CreateProduct | repository/product_repository.go:66-71 | on success the product is appended under the next id and returned; on failure nothing is stored and nil is returned |
| ProductRepository.DeletedRowNeverFound | repository/product_repository.go:57-63 | after a soft delete, no lookup by any code returns the deleted row |
| ProductRepository.DeleteThenNotFound | repository/product_repository.go:12-21 | deleting the only live product with a code makes the lookup of that code report not found |
| OrderRepository.LastMatch | repository/order_repository.go:13 | the index of the last row matching the query, and every matching row is at or before it |
| OrderRepository.LiveProducts | repository/order_repository.go:13 | every attached product is a live product row linked to the order, and there are no more of them than links |
| OrderRepository.AttachedProductsAreLiveLinks | repository/order_repository.go:13 | a product is attached to an order read back exactly when it is a live product row that the order links to (both directions) |
| OrderRepository.FindOrder | repository/order_repository.go:10-15 | the record and the error, as the Go pair: a failed order query leaves the zero record and its error; no live row with the reference leaves the zero record and "record not found", exactly when none exists; otherwise the record is a live row with the reference, with its live products and no error, or, when the preload fails, with its columns and no products next to the error |
| OrderRepository.GetUserOrder | repository/order_repository.go:48-53 | as FindOrder, and the row must also belong to the user: a found order's owner is the user; another user's order is not found |
| OrderRepository.UserOrders | repository/order_repository.go:59-63 | a row is listed exactly when it belongs to the user, is live, and has the status when a status is given; over a table in id order, the listed rows are in strictly increasing id order, so each appears once and in table order |
| OrderRepository.PageOf | repository/order_repository.go:71 | the page holds at most limit rows; it is empty when the offset is past the end; otherwise its length is min(limit, rows left); entry j is row offset + j |
| OrderRepository.GetUserOrders | repository/order_repository.go:55-74 | a failed count or read is reported, and with neither failing the listing is returned; the total is the number of filtered rows, counted before paging; the page's length and its entries are those of the filtered rows from the offset; every listed order is the user's, live, and of the status |
| OrderRepository.DistinctIds | repository/order_repository.go:17-22 | the links stored for an order name each of its products' ids once, and no other id |
| OrderRepository.CreateOrder | repository/order_repository.go:17-22 | on success the order is appended under the next id, linked to its products, and returned with that id; on failure nothing is stored and nil is returned |
| OrderRepository.UpdateOrder | repository/order_repository.go:24-46 | an error only when the save fails; a failed commit returns the order and writes nothing; a successful commit returns nothing and overwrites the row's columns |
| OrderRepository.SavedOrderReplacesColumns | repository/order_repository.go:34 | a save writes the order's columns over the row with its id, keeps every row's product links, and leaves every other row as it was |
| OrderRepository.CreatedOrderIsFound | repository/order_repository.go:10-22 | once an order is created, FindOrder by its reference finds it |
| OrderRepository.SaveStatusOnly | repository/order_repository.go:34 | saving an order read back with only its status changed changes only that row's status; links and other rows stay |
| ErrorHandler.MessageDeterminesField | util/error_handler.go:27-42 | for a given tag, the message determines the field it names |
| ErrorHandler.MessageNamesField | util/error_handler.go:27-42 | each message names the field it is about |
| ErrorHandler.BeforeComma | util/error_handler.go:55-56 | the result is a prefix of the tag, holds no comma, and is followed by a comma whenever it is shorter than the tag |
| ErrorHandler.BeforeCommaWithoutComma | util/error_handler.go:55-59 | a tag without a comma is its own first part |
| ErrorHandler.FieldByName | util/error_handler.go:49 | the first struct field with the name, and none exactly when no field has it |
| ErrorHandler.JsonFieldName | util/error_handler.go:44-60 | an unknown field name comes back unchanged; otherwise the json tag up to its first comma; the whole tag when it has no comma |
| ErrorHandler.ExtractValidationErrorMessage | util/error_handler.go:12-25 | nil exactly when the error is not a validation-error list; otherwise the keys are exactly 0..n-1 and key i holds the message for error i under its JSON field name |
| ErrorHandler.FirstMessageOfBinding | handler/order_handler.go:254-257 | message 0 of the extracted messages is the message for the first validation failure, under its JSON field name; it is "" when the error is not a list of validation failures or the list is empty |
| OrderHandler.BindFailureAnswered | handler/order_handler.go:254-257 | a body that does not bind, for placement (lines 254-257) and for a status update (lines 396-400), is answered 400 with message 0 of the extracted messages, and nothing changes |
| OrderAssembly.Int64Of | handler/order_handler.go:146 | converting the unsigned quantity to int64 keeps quantities below 2^63 and wraps larger ones by 2^64 |
| OrderAssembly.ProcessLine | handler/order_handler.go:125-155 | a line is accepted exactly when its product is found, 0 < quantity ≤ stock, and the save does not fail; an accepted line yields the live product with that code, its stock lowered by the quantity, and int64(quantity) × price; it writes that product unless the commit fails; a rejected line writes nothing |
| OrderAssembly.LineRejections | handler/order_handler.go:126-153 | a rejected line gets the error of the first check it fails, in the source's order: any lookup failure is "not found" for the line's code; then a zero quantity names the product; then a zero stock is "out of stock"; then a short stock reports the stock left; then a failed save reports the storage's own error |
| OrderAssembly.DecimalText | handler/order_handler.go:143 | the stock left is printed as at least one decimal digit, without a leading zero |
| OrderAssembly.DecimalTextRoundTrip | handler/order_handler.go:143 | reading the printed digits back gives the number |
| OrderAssembly.ErrorMessageNamesSubject | handler/order_handler.go:128-159 | each error text names what it was raised for: the line's code, the product's name and code, the stock left, or the user's currency; a storage failure is passed on as its own text |
| OrderAssembly.IsCurrencyMismatch | handler/order_handler.go:79-86 | true exactly when some product's currency differs from the user's |
| OrderAssembly.EmptyRequestAssembled | handler/order_handler.go:120-162 | an empty request yields no products, a total of exactly zero, and no writes |
| OrderAssembly.AssembledOrder | handler/order_handler.go:120-162 | an assembled order has one product per line, each a live product with that line's code in the user's currency, and its total is the sum of the line amounts |
| OrderAssembly.HaltPersists | handler/order_handler.go:126-144 | once a line has failed, later lines change nothing: they are never looked up |
| OrderAssembly.ReserveLine | handler/order_handler.go:125-155 | one loop pass writes the table and yields the outcome ProcessLine gives for that line |
| OrderAssembly.ValidateProducts | handler/order_handler.go:120-163 | the result and the product table left behind are those of the left-to-right walk over the lines, followed by the currency check; users and orders untouched |
| OrderAssembly.FirstFailure | handler/order_handler.go:126-144 | the error returned is that of the first failing line, met with the table the earlier lines left, which the failing line does not change |
| OrderAssembly.AmountIsExact | handler/order_handler.go:146-147 | with quantities below 2^63, the sum of int64(quantity) × price is the exact sum of quantity × price |
| OrderAssembly.TallyShape | handler/order_handler.go:148-155 | a walk that has not stopped returns one product per line, in line order, each a live product with that line's code |
| OrderAssembly.TallyProducts | handler/order_handler.go:146-155 | product j is the row line j reserved: the walk reached line j, the lookup found the product in the table the earlier lines left, its stock was at least the non-zero quantity, and the product is collected with its stock lowered by that quantity |
| OrderAssembly.TallyTotal | handler/order_handler.go:123-147 | the total, starting from zero, is the sum of the line amounts; it is Σ quantity × price when no quantity reaches 2^63 |
| OrderAssembly.StockConservation | handler/order_handler.go:148-152 | with every commit going through, each product row's stock ends lowered by exactly the quantities the lines reserved for it, repeated codes included; nothing else about any row changes |
| OrderAssembly.TwoLineOrder | handler/order_handler.go:120-163 | 2 × A at 10.00 (5 in stock) and 1 × B at 5.00 (1 in stock) give a total of 25.00 and leave 3 of A and 0 of B |
| OrderAssembly.MismatchKeepsWrites | handler/order_handler.go:150-159 | example: one line for a USD product by an NGN user is rejected for currency only after its lowered stock (5 to 4) was written, and the write stays |
| OrderAssembly.CurrencyCheckedLast | handler/order_handler.go:158-162 | after all lines pass, the order is rejected for currency exactly when some line's product is in another currency, and the table keeps every line's write |
| OrderHandler.IsValidOrderStatus | handler/order_handler.go:89-97 | true exactly when the text names one of the four statuses |
| OrderHandler.PlaceOrder | handler/order_handler.go:251-303 | the response and the tables left are those PlaceOrderOutcome gives; users untouched |
| OrderHandler.PlaceOrderOutcome | handler/order_handler.go:251-303 | the answer is one of 201, 400, 404, 409 and 500; only a 201 adds an order; stock is written only after the reference was found free and the user found |
| OrderHandler.CancelUserOrder | handler/order_handler.go:183-233 | the response and the tables left are those CancelOutcome gives; users untouched |
| OrderHandler.CancelOutcome | handler/order_handler.go:183-233 | the answer is one of 200, 400, 401, 404 and 500; products are never touched; only a 200 can change an order |
| OrderHandler.UpdateOrderStatus | handler/order_handler.go:393-433 | the response and the tables left are those StatusUpdateOutcome gives; users untouched |
| OrderHandler.StatusUpdateOutcome | handler/order_handler.go:393-433 | the answer is one of 200, 400, 404 and 500; products are never touched; only a 200 can change an order |
| OrderHandler.QueryNumber | handler/order_handler.go:327-335 | page and size are at least 1: the given number when it is positive, the default otherwise |
| OrderHandler.PageCount | handler/order_handler.go:361 | the page count is the ceiling of total / size: enough pages for every order, and one page fewer would not be |
| OrderHandler.ListUserOrders | handler/order_handler.go:322-374 | a page is answered exactly when the user is found and neither the count nor the read fails; a missing or failed user is 500 "error in retrieving order", a failed count or read 500 "Failed to retrieve orders"; a page reports the page and size read with defaults 1 and 10, no more orders than the size, and a page count that is PageCount of the total |
| OrderHandler.PlacedOrder | handler/order_handler.go:260-301 | a 201 means the order query went through and no live order had the reference, and the live user with the guid was found; the stored order (built as newOrder builds it, lines 68-76) has the next id, that user, Pending, the reference, one live product per line with that line's code, and the sum of line amounts as total; that order is appended |
| OrderHandler.DuplicateReferenceRejected | handler/order_handler.go:260-264 | once the order query has gone through, a live order with the reference gives 409 before any user or product lookup, and changes nothing, even when the preload of its products failed |
| OrderHandler.PlacementSteps | handler/order_handler.go:260-301 | step by step: a failed order query is 500; past a free reference, a failed user lookup is 500, an unknown user 404, a rejected assembly 400 with that error's text and the stock written so far, a failed create 500, and otherwise 201 with the pending order of that user, with the assembled products and total, stored under the next id |
| OrderHandler.PlacementSucceeds | handler/order_handler.go:260-301 | when the reference is free, a live user has the guid, every line is accepted, every product is in that user's currency and nothing fails, the answer is 201 |
| OrderHandler.RepeatedPlacementConflicts | handler/order_handler.go:260-264 | repeating a request that succeeded gives 409, stores no order and writes no stock |
| OrderHandler.TwoLinePlacement | handler/order_handler.go:282-301 | example: the two-line order is placed: 201, total 25.00, pending, stocks 3 and 0 |
| OrderHandler.MismatchedCurrencyKeepsStock | handler/order_handler.go:282-286 | example: a one-line order in the wrong currency gives 400 naming the user's currency, creates no order, and keeps the lowered stock |
| OrderHandler.CancelledOwnPendingOrder | handler/order_handler.go:192-224 | a 200 means the caller's user was found and owns a live pending order with the reference; that order's status, and nothing else, becomes Cancelled (nothing changes on a failed commit) |
| OrderHandler.CancelSteps | handler/order_handler.go:204-231 | for a known caller and the last live order of theirs with the reference: none, or a failed lookup, is 404; any status other than Pending is 400 naming that status, with nothing changed; a failed save is 500; otherwise 200, and that order's status, and nothing else, becomes Cancelled (nothing changes on a failed commit) |
| OrderHandler.ShippedOrderNotCancellable | handler/order_handler.go:212-216 | example: the caller's one shipped order gives 400 "Order in Shipped status cannot be cancelled" and stays unchanged |
| OrderHandler.UnknownCallerIsServerError | handler/order_handler.go:186-199 | no authenticated caller is 401; a caller whose user lookup fails, or who has no live user row, gets 500 "Error in order", not 404 |
| OrderHandler.UnknownStatusRejected | handler/order_handler.go:403-406 | a status outside the four gives 400 "Invalid order status" before any order lookup, whatever the orders are |
| OrderHandler.StatusMovedFromPendingOrShipped | handler/order_handler.go:403-420 | a 200 means the requested status is one of the four, and the live order with the reference was Pending or Shipped; its status, and nothing else, becomes the requested one |
| OrderHandler.StatusUpdateSteps | handler/order_handler.go:408-431 | for a valid status and the last live order with the reference: none, or any read failure, is 404; Delivered or Cancelled is 400 naming that status; a failed save of a pending or shipped order is 500; otherwise 200, and that order's status, and nothing else, becomes exactly the requested one, whichever of the four (nothing changes on a failed commit) |
| OrderHandler.TerminalOrdersFrozen | handler/order_handler.go:414-416 | a delivered or cancelled order is never changed; for a valid status the answer is 400 "Order has been <status>" |
| OrderHandler.ShippedOrderCancelledByStatusUpdate | handler/order_handler.go:414-420 | example: a status update moves a one-row table's shipped order to Cancelled |
| OrderHandler.ListingIsTheUsersPage | handler/order_handler.go:337-370 | a listing comes from a found user; its total counts all of that user's live orders of the status; its entries are those orders from the page's offset, each the user's, live and of the status |
| OrderHandler.EmptyPageExactlyPastLast | handler/order_handler.go:356-361 | "No orders found" is answered, and the page is empty, exactly when the page number is past the page count |

## Left out

- HTTP and gin plumbing are not modelled: routing, context keys, logging and JSON encoding. Binding the request body is a parameter (`Binding`): either the bound request or the validator's error.
- JWT and the auth middleware are not modelled. The authenticated caller of cancel is a parameter, and the admin-only route guard for status updates is outside the model.
- bcrypt, signup and login, configuration, the admin seeding and the DB connection are not modelled.
- The gorm timestamp hooks are not modelled: they read the clock.
- Concurrency and transaction isolation are not modelled. The store is sequential.
- gorm's automatic saving of associations on create and save is not modelled. That covers the products of a created or saved order, and the owning user. Only the order row and its product links are written. An order's products are stored as links to product ids and read back as the live product rows.
- `ProductRepository.UpdateProduct` and `OrderRepository.UpdateOrder`: a save whose id matches no row changes nothing. gorm would insert the record instead.
- `ProductRepository.DeleteProduct`: deleting a product with id 0 changes nothing. gorm would flag every row.
- `ProductRepository.CreateProduct` and `OrderRepository.CreateOrder` always use the next id. They do not model a caller-supplied id, nor the unique-index rejection of a duplicate product code. That rejection is one case of the create failure.
- `OrderRepository.GetUserOrders` is defined only for page and limit of at least 1, which is all the handler passes. The int64 overflow of `(page - 1) * limit` is not modelled.
- `OrderHandler.PageCount` is integer ceiling division, not the float64 `math.Ceil` of the source. The two agree while totals stay below 2^53.
- `OrderHandler.ListUserOrders`: page and size arrive as already-parsed optional integers. Text that `strconv.Atoi` rejects is the `None` case.
- `OrderHandler.StatusUpdateOutcome` takes a bound status text as given. The binder's `required` rule on the status is not modelled: in the source an empty status fails binding with "order_status is required", while the model's `Bound("")` is answered "Invalid order status". Both are 400.
- Prices and totals are exact reals. The decimal(10,2) column rounding applied on storage is not modelled.
- An order's status is one of the four enum values. A row holding any other text is not representable.
- `ErrorHandler.FieldByName` returns the first field with the name. Go's reflection treats an ambiguous name from embedded structs as missing, and embedded structs are not modelled.
- The text of the product-not-found error is defined in a file that is not part of this model. It appears as the `NotFound` lookup result, and the handler replaces it with its own message anyway.
- Text comparison in the database is not modelled: lookups by order reference, product code, user guid and status compare text exactly. The MySQL collation's case-insensitive matching is outside the model, so the model treats "ORDER123" and "order123" as different references.
- `OrderRepository.GetUserOrder` reports any failure as `Failed` and drops the record read beside it. Its only caller checks the error first.
- `OrderAssembly.Run`, the walk over the lines, carries no contract of its own. Its properties are `HaltPersists`, `FirstFailure`, `TallyShape`, `TallyProducts`, `TallyTotal` and `StockConservation`.
- `OrderAssembly.StockConservation` requires every commit to go through. A failed commit leaves that line's row unchanged while the line still counts as reserved.
- `OrderAssembly.TallyTotal` states the exact sum Σ quantity × price only when every quantity is below 2^63. Above that, the total uses the wrapped int64 value.
- The product, auth and main handlers are not modelled, nor `roundToTwoDecimals` (floating point, unused).
