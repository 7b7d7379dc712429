# Inventory alerts and product registration, modelled in Dafny

This project models the two request handlers of a small inventory service.
Both work on one relational store of companies, warehouses, products,
inventory rows, suppliers, supplier links, orders and order items.

* **Low-stock alerts for a company** (`get_low_stock_alerts`). The handler
  first checks that the company exists and reads the optional
  `recent_days` window, which defaults to 30 days. It then sums the
  quantities sold per product over orders that are completed, placed on or
  after the cutoff day, and placed in one of the company's warehouses. Next
  it inner-joins every inventory row of those warehouses with its product,
  its warehouse, every supplier link of the product with its supplier, and
  the sales aggregate. It keeps the rows whose quantity is at or below the
  product's threshold, which falls back to 20 when unset. Each kept row
  becomes an alert with a days-until-stockout estimate, the alerts are
  ordered by current stock, and the handler reports how many there are.
* **Product registration** (`create_product`). The handler checks the
  request fields: the SKU and name are required and trimmed, the warehouse
  id is required, and the optional price and the optional initial quantity
  (default 0) must not be negative. The warehouse must exist. A stored
  product with the same SKU is reused when its name matches and refused
  with a conflict otherwise; when there is none, a new product is created.
  If the product is already stocked in the warehouse, the request is
  refused with a conflict. Otherwise one inventory row is added.

The store is a record of sequences (`Tables.Db`). Both handlers are pure
functions. Alerts go through `LowStock.LowStockAlerts`, which returns a
report or an error. Registration goes through `Registration.CreateProduct`,
which returns the new store together with either the created ids or an
error. Every error carries its HTTP status: 400, 404 or 409.

Files:

* `wrappers.dfy`: the `Option` and `Result` types, plus `Arg`, which
  records whether a request value is absent, given, or unparseable.
* `tables.dfy`: the schema and its key predicates.
* `text.dfy`: Python's `str.strip()`.
* `sales.dfy`: the recent-sales aggregate.
* `join.dfy`: the filtered join and how many rows it yields.
* `alerts.dfy`: alert rows, the stockout estimate, and the ordering by stock.
* `lowstock.dfy`: the alert query.
* `registration.dfy`: registration.
* `scenarios.dfy`: two worked examples of the alert query.

In two places the handlers' own messages and comments can be read
differently from what the code does. The model follows the code:

* A price of zero is accepted. Only a negative price is refused, although
  the error message says "Price must be positive".
* The estimated days until stockout (ApiImplementation.py:95-101) is the
  stock divided by the average daily sales, passed through `int()`, which
  truncates toward zero. For a non-negative quantity this is the floor of
  the quotient; for a negative one it rounds up.

## Model

| member | source | states |
|---|---|---|
| LowStock.RecentDays | ApiImplementation.py:27-32 | the window is 30 when `recent_days` is absent and the given value when it is non-negative; an unparseable value is refused as invalid, a negative one as negative; a successful window is never negative |
| LowStock.LowStockAlerts | ApiImplementation.py:14-122 | a missing company is exactly the 404 case; for an existing company, an unparseable window and a negative window are exactly the two 400 cases; on success `total_alerts` equals the number of rows and the rows are ordered by non-decreasing current stock |
| LowStock.RecentSalesKeys | ApiImplementation.py:46-61 | for `LowStock.RecentSales`: a product is a key of the recent-sales aggregate exactly when some order item of it joins an order that is completed, placed on or after the cutoff day and placed in one of the given warehouses |
| LowStock.RecentSalesTotals | ApiImplementation.py:46-61 | the recent-sales total of a product, the `total_sold` each alert row reads, is the item-by-item reference total over the qualifying orders |
| LowStock.Report | ApiImplementation.py:38-122 | the reported `total_alerts` equals the number of alert rows, and the rows are ordered by non-decreasing current stock |
| LowStock.ReportedSupplierFanOut | ApiImplementation.py:74-89 | in a well-keyed store with one inventory row per (product, warehouse) pair, a stored row in a company warehouse whose product passes the filters is reported exactly as many times as its product has supplier links (k suppliers give k rows), and any other stored row is not reported |
| LowStock.CompanyWarehouseIds | ApiImplementation.py:38-43 | an id is listed exactly when some warehouse of the company carries it |
| LowStock.NoWarehousesNoAlerts | ApiImplementation.py:38-41 | a company with no warehouses gets an empty alert list and a count of 0, whatever the other tables hold |
| LowStock.NoWarehousesNoCandidates | ApiImplementation.py:79 | with no company warehouse the inventory filter leaves the join empty, so the early return agrees with the general query |
| LowStock.ReportMatchesJoin | ApiImplementation.py:65-89 | the reported rows are a permutation of the rows of the filtered join; a row is reported exactly when some tuple meets every join condition and filter and yields that row |
| LowStock.AlertRowFacts | ApiImplementation.py:46-101 | every reported row has current stock at or below its threshold; the threshold is the product's own or 20; its warehouse belongs to the company; its product has a link to the reported supplier; some item of the product is in a completed, recent order of a company warehouse; its stockout estimate uses the product's company-wide total sold |
| LowStock.CandidateFacts | ApiImplementation.py:74-101 | every tuple the join admits yields a row with the facts listed for `AlertRowFacts` |
| LowStock.SoldProductHasQualifyingItem | ApiImplementation.py:46-59 | a product is a key of the sales aggregate only when one of its items belongs to a completed order placed on or after the cutoff in a company warehouse |
| LowStock.UnsuppliedProductNeverAlerted | ApiImplementation.py:76-77 | a product without any supplier link is never reported |
| LowStock.UnsoldProductNeverAlerted | ApiImplementation.py:52-57 | a product none of whose items is in a qualifying order is never reported, however low its stock |
| LowStock.NonQualifyingOrderIgnored | ApiImplementation.py:52-57 | adding an order that is in another company's warehouse, or older than the cutoff, or not completed, leaves the whole query result unchanged |
| LowStock.QualifyingOrderCounted | ApiImplementation.py:46-59 | a new qualifying order with one item adds the item's quantity to the total of its product and to no other product's total |
| LowStock.SameScopeSameReport | ApiImplementation.py:65-85 | the reported rows depend only on the tables the join reads, the company's warehouse ids and the sales aggregate |
| Sales.ItemSales | ApiImplementation.py:51-57 | one order item yields its (product, quantity) row exactly when an order with its order id qualifies, and yields it once for every qualifying order carrying that id |
| Sales.SaleRows | ApiImplementation.py:51-57 | a (product, quantity) row is in the join of items and orders exactly when some item joins some qualifying order and carries that product and quantity |
| Sales.SaleRowsTotal | ApiImplementation.py:47-59 | a product's sum over the joined rows equals the item-by-item reference total, in which every item of the product counts its quantity once per qualifying order with its order id, so duplicate lines of one order each count |
| Sales.ItemSalesTotal | ApiImplementation.py:49-51 | one item's joined rows add its quantity to its own product's total once per qualifying order with its order id, and nothing to any other product's total |
| Sales.GroupSum | ApiImplementation.py:47-59 | the aggregate's keys are exactly the products that occur in the joined rows, and each key maps to that product's total over the rows |
| Sales.QualifyingSaleCounted | ApiImplementation.py:46-59 | for the aggregate itself: one item of a fresh qualifying order adds its quantity under its product and changes no other entry |
| Sales.SaleRowsExtraOrder | ApiImplementation.py:51-57 | an order that joins no item, or does not qualify, adds no row to the join |
| Sales.GroupSumAppend | ApiImplementation.py:59 | one more joined row raises its product's total by its quantity and leaves the other totals alone |
| Join.Candidates | ApiImplementation.py:65-83 | a tuple is produced exactly when its inventory row is stored and in a company warehouse, its product, warehouse, link and supplier rows are stored and match on their keys, its product is a key of the sales aggregate with that total, and the quantity is at or below the threshold |
| Join.EffectiveThreshold | ApiImplementation.py:80-93 | the threshold is the product's own `low_stock_threshold` when it is set and 20 when it is null |
| Join.JoinProducts | ApiImplementation.py:74 | the product level of the join yields exactly the tuples whose product matches the inventory row, is sold recently, and passes the threshold, combined with every matching warehouse, link and supplier |
| Join.JoinLinks | ApiImplementation.py:76-77 | the link level yields exactly the tuples that pair a link of the product with a stored supplier carrying the link's supplier id |
| Join.JoinSuppliers | ApiImplementation.py:77 | the supplier level yields exactly one tuple per stored supplier whose id is the link's supplier id, carrying that supplier |
| Join.JoinWarehouses | ApiImplementation.py:75 | the warehouse level yields exactly the tuples that pair a stored warehouse carrying the inventory row's warehouse id with a link of the product and a supplier of that link |
| JoinCardinality.SupplierFanOut | ApiImplementation.py:74-78 | in a well-keyed store an inventory row of a company warehouse whose product passes the filters yields exactly as many rows as its product has supplier links, and any other inventory row yields none |
| JoinCardinality.JoinProductsCount | ApiImplementation.py:74-78 | the product level yields (passing products) × (matching warehouses) × (resolved links) rows: no level deduplicates |
| JoinCardinality.ResolvedLinksFanOut | ApiImplementation.py:76-77 | when supplier ids are unique and every link resolves, each link yields exactly one supplier row |
| AlertRows.DaysUntilStockout | ApiImplementation.py:95-101 | the estimate is present exactly when the window and the total sold are both positive; then, for a non-negative quantity, it is the largest whole number of days d with d × total ≤ quantity × window; a negative quantity is rounded toward zero |
| AlertRows.DivTowardZero | ApiImplementation.py:101 | the quotient is rounded toward zero: down for a non-negative dividend, up for a negative one |
| AlertRows.ToAlert | ApiImplementation.py:95-117 | the alert row carries the joined product's id, name and SKU, the warehouse's id and name, and the supplier's id, name and contact; its current stock is the inventory quantity; its stock is at or below its reported threshold exactly when the tuple passes the threshold filter; the estimate is present exactly when the window and the total sold are positive, and then, for a non-negative stock, it is the largest d with d × total ≤ stock × window |
| AlertRows.SortByStock | ApiImplementation.py:84 | the result is ordered by non-decreasing current stock and is a permutation of the input |
| AlertRows.InsertByStock | ApiImplementation.py:84 | inserting into an ordered list keeps it ordered and adds exactly the one row |
| AlertRows.SortedPermutationsAgreeOnStock | ApiImplementation.py:84 | any two orderings by stock of the same rows have the same stock column, so rows may differ only among equal stock |
| Scenarios.CompletedSaleScenario | ApiImplementation.py:14-122 | worked example: 30 units sold today, 5 in stock, threshold 10, one supplier and the default window give one alert with 5 days until stockout |
| Scenarios.PendingSaleScenario | ApiImplementation.py:52-57 | the same store with the order still pending reports no alert |
| Scenarios.DuplicateLinesScenario | ApiImplementation.py:47-59 | worked example: a completed order with two identical lines of 5 units gives the product a recent total of 10 |
| Text.Trim | API.py:15-16 | the result is a contiguous slice of the input with only whitespace outside it and no whitespace at either end |
| Text.TrimEmptyIffBlank | API.py:21-24 | a trimmed field is empty exactly when the input is all whitespace |
| Text.TrimIdempotent | API.py:15-16 | trimming a trimmed field changes nothing |
| Registration.Validate | API.py:10-44 | the checks pass exactly when every field condition holds; each missing required field is reported first, in the order sku, name, warehouse_id; every refusal here is a 400; a request that passes carries the trimmed SKU and name, the given price, and the given quantity or 0 |
| Registration.BlankSkuReportedFirst | API.py:15-24 | a blank SKU is reported as the empty SKU even when the name is blank too |
| Registration.FindBySku | API.py:50 | nothing is found exactly when no product has the SKU; otherwise the first product in storage order with the SKU is found |
| Registration.FindUniqueSku | API.py:50 | when SKUs are unique, the product found for a stored product's SKU is that product |
| Registration.NextProductId | API.py:52-54 | a generated product id is positive and differs from every stored one |
| Registration.NextInventoryId | API.py:64-69 | a generated inventory id is positive and differs from every stored one |
| Registration.CreateProduct | API.py:7-75 | every refusal leaves the store exactly as it was and is a 400 or a 409; a request failing its checks is refused with 400 |
| Registration.Register | API.py:46-75 | a refusal is an unknown warehouse, an SKU/name conflict or an existing inventory row, and leaves the store as it was; success appends exactly one inventory row with the quantity and changes no table other than products and inventory |
| Registration.AcceptedExactly | API.py:46-63 | in a store that keeps its invariant, a request is accepted exactly when its checks pass, its warehouse exists, every stored product with its SKU has its name, and no such product is stocked in that warehouse |
| Registration.UnknownWarehouseRejected | API.py:46-48 | a valid request naming an unknown warehouse is refused with 400 and the store is unchanged |
| Registration.SkuNameConflictRejected | API.py:50-57 | an SKU stored under another name is refused with 409, and neither products nor inventory change |
| Registration.DuplicateStockRejected | API.py:58-63 | a product already stocked in the warehouse is refused with 409, and the stored quantity is untouched |
| Registration.SuccessfulRegistration | API.py:50-75 | on success a product is created exactly when none had the SKU, with a fresh id, the trimmed SKU and name, the price and no threshold; otherwise the stored product is reused unchanged; exactly one inventory row with a fresh id and the requested quantity (0 when none was given) is appended; no other table changes |
| Registration.InvariantPreserved | API.py:50-69 | every request keeps one product per SKU, unique product and inventory ids, one inventory row per (product, warehouse) pair, inventory rows that refer to stored products and warehouses, and no negative quantity or price |
| Registration.RepeatedRequestRejected | API.py:50-63 | repeating an accepted request is refused as existing inventory and leaves the store as the first request left it |

## Left out

- HTTP routing, JSON bodies and the response messages. Outcomes are tagged results, and the error statuses are given by `LowStock.ErrorStatus` and `Registration.Status`.
- The database session and the 500 handlers: the `flush`, `commit` and `rollback` calls, the `SQLAlchemyError` and generic exception handlers of the alert query (ApiImplementation.py:124-131), and the generic exception handler of registration (API.py:79-81), which wraps only the store steps at API.py:50-75. The model is sequential, and every refusal simply returns the unchanged store.
- The `IntegrityError` handler of registration (409). It guards against concurrent requests racing past the existence checks, and a sequential model has no such race. `Registration.InvariantPreserved` shows that a sequential registration never breaks the uniqueness constraints that handler guards.
- The wall clock. The current day is the parameter `now`, and order dates are day numbers. The cutoff is the day `now - recent_days`, and every order dated on that day counts. The handler compares against an instant, `utcnow()` minus the window, so an order placed earlier on the cutoff day than the current time of day does not count. With `recent_days = 0` this difference is visible: the model counts the orders placed today, while the handler counts only orders dated after the moment of the request. In that case the model reports those products with no estimate, and the handler normally reports nothing for them.
- LowStock.LowStockAlerts: succeeds for every non-negative window, while the handler answers 500 when the window is too large for a date. Computing `utcnow() - timedelta(days=recent_days)` (ApiImplementation.py:35) raises `OverflowError` once the cutoff falls before year 1, which today is about 739,000 days, and `timedelta` itself refuses more than 999,999,999 days. The generic exception handler turns this into a 500. The model's day numbers have no lower bound.
- Parsing request values with `int(...)` and `float(...)`. Each value is already typed, or tagged `Unparseable` when the conversion raises `ValueError`. For `warehouse_id`, a `TypeError` is caught together with `ValueError` and answered 400 (API.py:26-29), so `Unparseable` covers both. For `price` and `initial_quantity` only `ValueError` is caught. A `TypeError` there, for example from a null `initial_quantity` or a list-valued price, is raised at API.py:33 or :40, outside every handler of `create_product`: it leaves the function, the web framework answers 500, and no rollback runs. This is not modelled.
- Non-string `sku` or `name` values. These make `.strip()` raise outside any handler.
- A request body that is not a JSON object.
- Floating point. Prices are exact reals. The stockout estimate is computed exactly as `quantity * recent_days / total_sold`, then truncated toward zero. It does not model the float rounding of `total_sold / recent_days`.
- Row order among alerts with equal stock. The database leaves it unspecified, and the model fixes one order. `AlertRows.SortedPermutationsAgreeOnStock` shows that every ordering by stock agrees on the stock column.
- Which product `.first()` returns when several share an SKU. The database leaves it unspecified, and `Registration.FindBySku` takes the first in storage order. Under the store invariant there is at most one such product.
- Generated ids. They are modelled as one more than the largest stored id. A database sequence may choose other fresh values. The properties use only freshness.
