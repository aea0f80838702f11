# Sweet Shop — a Dafny model of the shop's business rules

The Sweet Shop is a small web shop for sweets. This project models its core:

- the catalog of sweets with its schema constraints;
- the add, update and delete handlers and the filtered catalog search;
- direct purchase and restock of stock;
- the order lifecycle: a customer places an order, an admin approves it
  (stock is deducted) or rejects it, and the owner may cancel it while it
  is pending;
- the browser-side cart.

Each handler is a pure function. It takes the shop's collections and
returns either the new collections or the reason for refusing. The
collections are the catalog (`map<SweetId, Sweet>`) and the orders
(`map<OrderId, Order>`). Every refusal reason carries the HTTP status the
handler answers with (`Results.Code`). Money and quantities are integers
in minor currency units.

Modules, following the program's files:

| module | file | models |
|---|---|---|
| `Results` | results.dfy | refusal reasons, their status codes and messages, `Option`, `Result` |
| `Text` | text.dfy | JavaScript whitespace trimming and the case-insensitive substring test of the name search |
| `SweetModel` | sweet_model.dfy | the Sweet schema: categories, field constraints, create and update validation |
| `SweetController` | sweet_controller.dfy | add, update and delete a sweet, and search |
| `InventoryController` | inventory_controller.dfy | purchase and restock |
| `OrderModel` | order_model.dfy | the Order schema: line items, enums, amounts |
| `OrderController` | order_controller.dfy | create, approve, reject and cancel an order, and the order history |
| `Cart` | cart.dfy | the cart context: add, remove, update quantity, clear, total, count |
| `Routes` | routes.dfy | the admin gate and the dispatch of a write request; the whole-shop invariant |

Approval is a left fold over the order's lines (`OrderController.Deduct`).
It re-reads the stock before each line and stops at the first line the
stock does not cover. Deductions already made are kept. So approval
answers with a `Reply`: the collections afterwards plus an optional
refusal, because a refusal does not by itself mean nothing changed.

The cart reproduces a quirk of the client. A new cart line is a copy of
the catalog listing whose `quantity` field is overwritten with the number
of units in the cart. `updateQuantity` then refuses any quantity above
that field, believing it to be the stock. So a line can be lowered or
removed but never raised this way (`Cart.UpdateNeverIncreases`,
`Cart.CannotRaiseAfterAdding`).

Behaviour of the handlers that is easy to miss:

- **Update of an unknown sweet with an invalid patch.** Update validators
  run before the lookup, so an invalid patch is refused with 400 even for
  an unknown id. A valid patch for an unknown id gives 404.
- **Zero-unit order line.** A line asking for zero (or fewer) units passes
  the stock check, and the line-item schema then makes the insert throw.
  The handler answers that with 500 (`OrderController.CreateOrder`,
  `OrderController.ZeroUnitLineIsServerError`).
- **Approval after a sweet is deleted.** When a sweet of an order was
  deleted after the order was placed, reading that sweet's stock throws,
  which the handler answers with 500. Earlier lines stay deducted
  (`OrderController.StepError`,
  `OrderController.ApproveAfterSweetDeleted`).
- **Blank UPI transaction id.** A transaction id made only of whitespace
  passes the presence check. The schema then stores it trimmed, that is,
  empty (`OrderController.BlankUpiIdStoredEmpty`).

## Model

| member | source | states |
|---|---|---|
| Results.Code | src/controllers/orderController.js:7-273 | every refusal is answered with 400, 403, 404 or 500; 404 exactly for an unknown sweet or order, 403 exactly for a non-owner or a non-admin, 500 exactly for `ServerError`, an exception caught by an order handler whose catch answers 500 (the catalog handlers' own catch answers 400, modelled as a validation or duplicate-name refusal) |
| Results.Message | src/controllers/orderController.js:11-258 | the handlers' own refusals each carry their fixed text; exactly the library exceptions (validation, duplicate name), the admin gate and a caught server error carry none |
| Text.Trim | src/models/Sweet.js:4-9 | the stored name is the slice of the input left after cutting whitespace at both ends, and it has no whitespace at either end |
| Text.TrimKeepsTrimmed | src/models/Sweet.js:4-9 | a string with no whitespace at its ends is stored unchanged |
| Text.TrimIdempotent | src/models/Sweet.js:4-9 | trimming an already-trimmed value changes nothing |
| Text.SliceIsFound | src/controllers/sweetController.js:51-53 | every contiguous piece of a name matches the name filter of that name |
| Text.NeedleCaseIrrelevant | src/controllers/sweetController.js:51-53 | the letter case of the search text does not change whether it matches, both directions |
| Text.HayCaseIrrelevant | src/controllers/sweetController.js:51-53 | the letter case of the sweet's name does not change whether it matches, both directions |
| SweetModel.ParseCategory | src/models/Sweet.js:10-14 | a string is accepted as a category exactly when it is the spelling of one of the six categories, and then it is that category |
| SweetModel.WithStockValid | src/models/Sweet.js:21-26 | changing one sweet's stock to a non-negative value keeps every sweet valid and the names unique |
| SweetModel.Build | src/models/Sweet.js:4-30 | creation succeeds exactly when name (non-empty once trimmed), category (in the enum) and price (non-negative) are given and any quantity is non-negative; the stored sweet has the trimmed name, the given category and price, quantity defaulting to 0, the trimmed description if one is given, and satisfies the schema; failure is a validation error |
| SweetModel.Patch | src/controllers/sweetController.js:85-89 | each supplied field replaces the stored one (name and description trimmed), each absent field is kept, a valid sweet stays valid, and an empty patch changes nothing |
| SweetController.AddSweet | src/controllers/sweetController.js:6-19 | the add succeeds exactly when the fields pass the schema and the trimmed name is not in use; a schema violation gives a validation error and a name already in use gives a duplicate-name error, both writing nothing; success adds exactly the new sweet under the fresh id and keeps every other sweet |
| SweetController.AddSweetKeepsValid | src/models/Sweet.js:4-9 | after a successful add every sweet is valid and no two sweets share a name |
| SweetController.UpdateSweet | src/controllers/sweetController.js:85-107 | the update succeeds exactly when the patch is valid, the id is known and the patched name is carried by no other sweet; an invalid patch gives 400 before the lookup, an unknown id gives 404, a name carried by another sweet gives a duplicate-name error exactly when that happens; success changes only that sweet, by the patch, and keeps the catalog valid |
| SweetController.DeleteSweet | src/controllers/sweetController.js:113-133 | success exactly for a known id and 404 exactly for an unknown one; success removes exactly that sweet and keeps every other one and the catalog's validity |
| SweetController.AddThenDelete | src/controllers/sweetController.js:6-19 | deleting a sweet just added gives back the catalog as it was before the add |
| SweetController.EmptyPatchIsIdentity | src/controllers/sweetController.js:85-96 | an update with no fields leaves a known sweet as it was and still reports an unknown id |
| SweetController.Search | src/controllers/sweetController.js:45-65 | the answer is a part of the catalog with the stored values, and a sweet is in it exactly when it satisfies every supplied filter: name as a case-insensitive substring, exact category, inclusive price bounds |
| SweetController.SearchWithoutFilters | src/controllers/sweetController.js:49-65 | a search without filters lists the whole catalog |
| SweetController.NarrowerSearchIsSubset | src/controllers/sweetController.js:49-65 | adding a filter or tightening a price bound never adds a sweet to the answer |
| SweetController.UnknownCategoryFindsNothing | src/controllers/sweetController.js:55-57 | a category filter that names no category finds nothing |
| SweetController.SearchFindsByNamePiece | src/controllers/sweetController.js:51-53 | searching by any piece of a sweet's name, in any letter case, finds that sweet when the other filters admit it |
| InventoryController.Purchase | src/controllers/inventoryController.js:6-34 | a missing or non-positive quantity gives 400, then an unknown id 404, then a quantity above the stock 400; success exactly when none applies, and then only that sweet's stock drops by the quantity and stays non-negative |
| InventoryController.Restock | src/controllers/inventoryController.js:52-73 | a missing or non-positive quantity gives 400, then an unknown id 404; otherwise only that sweet's stock grows by the quantity, with no upper bound |
| InventoryController.PurchaseKeepsValid | src/controllers/inventoryController.js:26-34 | a purchase never makes a stock negative or breaks another schema constraint |
| InventoryController.RestockKeepsValid | src/controllers/inventoryController.js:72-73 | a restock never breaks a schema constraint |
| InventoryController.PurchaseThenRestock | src/controllers/inventoryController.js:33-73 | a purchase followed by a restock of the same amount gives back the original catalog |
| InventoryController.RestockThenPurchase | src/controllers/inventoryController.js:33-73 | a restock followed by a purchase of the same amount always succeeds and gives back the original catalog |
| InventoryController.InventoryScenario | __tests__/inventory.test.js:53-94 | a stock of 50 drops to 40 on a purchase of 10, a purchase of 100 is then refused as insufficient with the message "Insufficient stock", and a restock of 20 brings it to 60 |
| OrderModel.ParsePaymentMethod | src/models/Order.js:36-41 | a payment method is accepted exactly when it spells cod or upi, and then it is that method |
| OrderModel.AmountAppend | src/controllers/orderController.js:66-69 | the total of two groups of lines is the sum of their totals |
| OrderModel.Amount | src/controllers/orderController.js:66-69 | the total of the lines, never negative when no price or quantity is |
| OrderModel.AmountIsReduce | src/controllers/orderController.js:66-69 | the total equals the left-to-right running sum of the reduce: the total of all lines but the last plus the last line's price times quantity |
| OrderModel.DemandPrefix | src/controllers/orderController.js:164-176 | the first lines of an order never ask for more of a sweet than the whole order does |
| OrderController.RequestError | src/controllers/orderController.js:11-30 | the request passes exactly when it has lines, a cod or upi payment method and, for upi, a transaction id; otherwise the refusal is the first failing check in that order |
| OrderController.LineError | src/controllers/orderController.js:33-49 | a line passes exactly when its sweet exists and its stock covers the quantity; an unknown sweet gives 404 with its id, too little stock gives 400 with the sweet's name |
| OrderController.FirstFailingLine | src/controllers/orderController.js:33-49 | every line before the answer passes its stock check against the same unchanged catalog, and the line at the answer, if any, fails it |
| OrderController.Snapshot | src/controllers/orderController.js:52-63 | the order lines are, in request order, the sweet's id, name, category and current price with the requested quantity |
| OrderController.CreateOrder | src/controllers/orderController.js:7-95 | the catalog is never written; request checks come first, then the first failing line's 404 or 400, each writing nothing; when every line passes the stock check any refusal is a 500; a created order is pending, has the snapshot lines and their total, a payment status pending for cod and completed for upi, and a trimmed transaction id only for upi; no other order changes |
| OrderController.CreateSucceedsIff | src/controllers/orderController.js:11-80 | on a valid catalog an order is created exactly when the request checks pass and every line names an existing sweet and asks for between one unit and its stock |
| OrderController.CreateChecksLinesIndependently | src/controllers/orderController.js:33-49 | with 5 in stock, an order of two lines of 3 for the same sweet is accepted, since nothing is reserved between lines |
| OrderController.ZeroUnitLineIsServerError | src/controllers/orderController.js:43-94 | a line for zero units passes the stock check and the order is refused with 500, writing nothing |
| OrderController.BlankUpiIdStoredEmpty | src/controllers/orderController.js:25-30 | a transaction id of blanks passes the presence check and is stored as the empty string |
| OrderController.CreateKeepsValid | src/controllers/orderController.js:72-80 | placing an order keeps the catalog valid and every order well formed |
| OrderController.StepError | src/controllers/orderController.js:164-172 | a line can be deducted exactly when its sweet still exists and its live stock covers it; a deleted sweet gives 500, too little stock gives 400 with the sweet's name |
| OrderController.Deduct | src/controllers/orderController.js:164-176 | deduction keeps the same sweets in the catalog, and a stop happens at one of the order's lines with either a 500 (a deleted sweet) or an insufficient-stock refusal |
| OrderController.DeductOnlyChangesStock | src/controllers/orderController.js:164-176 | a deduction, complete or stopped, changes no field of any sweet other than its stock |
| OrderController.DeductedStock | src/controllers/orderController.js:164-176 | after a complete deduction each sweet's stock has dropped by exactly the units the whole order asks of it |
| OrderController.DeductSucceedsIffFeasible | src/controllers/orderController.js:164-176 | deduction completes exactly when every line's sweet exists and its stock covers the order's total demand for it, so repeated sweets are checked cumulatively |
| OrderController.FeasibleAfterFirst | src/controllers/orderController.js:164-176 | after the first line is deducted, the rest of the order fits the remaining stock exactly when the whole order fits the original stock |
| OrderController.DeductStoppedAt | src/controllers/orderController.js:164-176 | a deduction that stops at line k leaves exactly the complete deduction of the lines before k, and line k is the one the remaining stock does not cover |
| OrderController.DeductKeepsValid | src/controllers/orderController.js:164-176 | deduction never makes a stock negative, even when it stops part way |
| OrderController.ApproveOrder | src/controllers/orderController.js:145-192 | an unknown order gives 404 and a non-pending one 400 naming its status, both writing nothing; for a pending order the stock is deducted line by line, and the order becomes approved exactly when every line was deducted; otherwise it stays pending with the earlier deductions kept; other orders never change |
| OrderController.ApprovalStock | src/controllers/orderController.js:164-179 | a pending order is approved exactly when it fits the stock at approval time, and then each sweet's stock drops by what the order asks of it and stays non-negative |
| OrderController.ApprovalPartialFailure | src/controllers/orderController.js:164-176 | a failed approval stops at some line k: the lines before k are deducted, line k does not fit what is left, later lines are untouched and the order stays pending |
| OrderController.ApprovalFailureTakesAtMostDemand | src/controllers/orderController.js:164-176 | a failed approval keeps every sweet and takes from each no more than the order's total demand for it |
| OrderController.ApproveAfterSweetDeleted | src/controllers/orderController.js:164-191 | an order whose first line's sweet was deleted is refused with 500 and nothing changes |
| OrderController.ApproveTwice | src/controllers/orderController.js:156-161 | a second approval is refused as already approved and changes nothing, so stock is deducted once |
| OrderController.ApproveKeepsValid | src/controllers/orderController.js:147-179 | approval keeps the shop valid, whether it succeeds or stops part way |
| OrderController.RejectOrder | src/controllers/orderController.js:197-231 | an unknown order gives 404 and a non-pending one 400 naming its status; success exactly for a pending order, which becomes rejected with the given reason or "No reason provided"; no other order and no stock changes |
| OrderController.RejectKeepsValid | src/controllers/orderController.js:216-217 | rejection keeps every order well formed: a reason is recorded exactly for rejected orders |
| OrderController.CancelOrder | src/controllers/orderController.js:236-273 | an unknown order gives 404, then someone else's order 403, then a non-pending order 400; success exactly for the owner's pending order, which is deleted with every other order and all stock kept |
| OrderController.CancelKeepsValid | src/controllers/orderController.js:261-261 | cancelling keeps the shop valid |
| OrderController.OwnedBy | src/controllers/orderController.js:102-102 | an order belongs to the history of a user exactly when that user placed it |
| OrderController.CancelRemovesFromHistory | src/controllers/orderController.js:247-261 | a successful cancel removes exactly that order from its owner's history |
| OrderController.InsertByDate | src/controllers/orderController.js:102-103 | inserting an order into a newest-first list keeps it newest first, adds exactly that order and keeps the ids distinct |
| OrderController.ListOrders | src/controllers/orderController.js:100-104 | the history lists each of the owner's orders (all orders when no owner is given) exactly once and nothing else, most recent first |
| Cart.IndexOf | frontend/src/context/CartContext.jsx:29-29 | the position found holds a line for the sweet and no earlier line does; the cart's length means there is none |
| Cart.AddToCart | frontend/src/context/CartContext.jsx:28-53 | a new sweet gets a line at the end holding the requested units exactly when they fit its stock; an existing sweet's lines gain the units exactly when the first line's units plus the new ones fit the stock, every other line unchanged; a refused addition changes nothing |
| Cart.AddKeepsUnique | frontend/src/context/CartContext.jsx:28-53 | adding to a cart with one line per sweet keeps one line per sweet, whether the sweet is new or already present |
| Cart.RemoveFromCart | frontend/src/context/CartContext.jsx:55-57 | exactly the lines of other sweets remain; removing a sweet that has no line changes nothing |
| Cart.RemoveKeepsUnique | frontend/src/context/CartContext.jsx:55-57 | removal keeps one line per sweet |
| Cart.RemoveAppend | frontend/src/context/CartContext.jsx:55-57 | removing a sweet from two carts joined is joining the two carts with the sweet removed, so the remaining lines keep their order |
| Cart.UpdateQuantity | frontend/src/context/CartContext.jsx:60-75 | a non-positive quantity removes the line; a quantity above the line's current units, or a sweet with no line, changes nothing; otherwise every line of that sweet gets the quantity as its units and every other line is unchanged |
| Cart.ClearCart | frontend/src/context/CartContext.jsx:77-80 | the cleared cart is empty, with nothing to count or pay |
| Cart.Total | frontend/src/context/CartContext.jsx:82-84 | the amount due, never negative when no price or line is |
| Cart.Count | frontend/src/context/CartContext.jsx:86-88 | the unit count, never negative when no line is |
| Cart.SumsAreReduce | frontend/src/context/CartContext.jsx:82-88 | count and total equal the left-to-right running sums of the reduces: the sums of all lines but the last plus the last line |
| Cart.SumsAppend | frontend/src/context/CartContext.jsx:82-88 | the count and total of two carts joined are the sums of their counts and totals |
| Cart.SumsReplace | frontend/src/context/CartContext.jsx:82-88 | replacing one line changes the count and the total by the difference between the two lines |
| Cart.RemoveCutsLine | frontend/src/context/CartContext.jsx:55-57 | with one line per sweet, removing a sweet cuts exactly its line out of the cart |
| Cart.AddToCartSums | frontend/src/context/CartContext.jsx:28-53 | an accepted addition raises the count by the units added and the total by their price; a refused one changes neither |
| Cart.RemoveSums | frontend/src/context/CartContext.jsx:55-57 | removing a sweet lowers the count and the total by exactly its line |
| Cart.UpdateNeverIncreases | frontend/src/context/CartContext.jsx:60-75 | every line after an update is a line of the sweet that was already in the cart, with at most as many units |
| Cart.UpdateNeverRaisesCount | frontend/src/context/CartContext.jsx:60-75 | an update never raises the number of units in the cart |
| Cart.CannotRaiseAfterAdding | frontend/src/context/CartContext.jsx:45-75 | after two units of a sweet with ten in stock go into an empty cart, asking for five of it is refused |
| Routes.Dispatch | src/routes/sweetRoutes.js:16-23 | a customer is refused the admin routes with 403 and no effect, and 403 is answered exactly then; every other request gets exactly its handler's reply; every refusal except approval's writes nothing; catalog requests never touch the orders; placing, rejecting and cancelling orders never touch the catalog |
| Routes.DispatchKeepsValid | src/models/Sweet.js:21-26 | every write request keeps the shop valid: no stock becomes negative, names stay unique and trimmed, orders stay well formed and none is ever marked completed |

## Left out

- Authentication (the 401 answer) and token handling live in middleware
  that is not part of this model. Only the admin gate is modelled, as
  the caller's role.
- `Routes.Dispatch` covers the write routes. The admin gate on listing
  all orders (src/routes/orderRoutes.js:15) is not dispatched.
  `OrderController.ListOrders` with no owner is that listing.
- Listing all sweets is a plain read. It is the search without filters
  (`SweetController.SearchWithoutFilters`).
- Identifiers are naturals. The database assigns fresh identifiers and
  creation times, and here the caller passes them as parameters. A
  malformed identifier, which makes the database cast throw, has no
  counterpart.
- Response envelopes, `populate`, timestamps other than `createdAt`,
  localStorage persistence of the cart, toasts and all rendering are left
  out. They are I/O or presentation.
- Messages of library exceptions (validation and duplicate-key texts)
  are left out. `Results.Message` gives `None` for them.
- Concurrency is not modelled. Requests are sequential steps. The window
  between placing an order (stock checked, nothing reserved) and
  approving it (stock re-checked) shows only as the sequential
  behaviour.
- Money is an integer number of minor units, not a JavaScript float.
  JavaScript type coercions of request values (numeric strings, `NaN`,
  fractional quantities) are not modelled. An absent purchase or
  restock quantity is represented as 0.
- Text.LowerChar: the name search ignores letter case for ASCII letters
  only, not the full Unicode case folding of the database's
  case-insensitive regex.
- SweetController.Search: the name filter is a literal substring test.
  Regular-expression metacharacters in the search text are not
  interpreted.
- SweetController.UpdateSweet: the order "validation before lookup" is
  how the database library runs update validators. It is not visible in
  the handler's own code.
- Cart.AddToCart: the unit count is a required parameter. The client's
  default of one unit when none is given is not modelled.
- OrderModel.DefaultPaymentMethod, DefaultPaymentStatus and DefaultStatus
  are declared but never observed. Order creation sets every one of those
  fields explicitly. The `failed` payment status and the `completed`
  order status are never produced.
