# Bookstore multi-agent simulation, modelled in Dafny

This project models the turn-based bookstore simulation of the MAS-Bookstore
system. Customer agents request one copy of a random book on every tick. An
inventory manager serves each request if the stock covers it and rejects it
otherwise. On each step an employee agent publishes one restock request of
`5 - q` for every inventory whose quantity `q` has fallen below 3. Every
employee handles every restock request, so with `n` employees a low
inventory ends at `q + n·(5 - q)`. With two employees (the number app/run.py
and the UI ask for), a low inventory at `q` ends at `q + 2·(5 - q)`, so
`Inv_1984` at its seeded 2 goes to 8.
All of them talk over a synchronous topic-based publish/subscribe bus. The
store is an ontology seeded with two books, their inventories, two customers
and two employees, plus two rules: LowStock, and Order→Purchases.

The modules follow the source files:

- `Messaging` (`messaging.dfy`, app/messaging.py) covers the bus and the four topics.
  - The bus is a map from topic to an ordered handler list.
  - A publish snapshots the topic's list and then folds a caller-supplied `invoke` over it.
  - A publish returns the new state and the trace of deliveries it made.
- `Ontology` (`ontology.dfy`, app/ontology.py) is the entity store as sequences and maps, and the seeded state.
  - `AvailableQuantity` is functional, so it is a map with one integer per inventory.
- `Rules` (`rules.dfy`, app/rules.py) holds the two rules as pure functions of the store.
  - No reasoner ever runs, so LowStock is recomputed on each read, never stored.
- `Agents` (`agents.dfy`, app/agents.py) covers the handlers, the agents' steps and what they do to the world.
  - The world is the store, the bus, the event log, a record of every publish call (`traffic`) and the tick.
  - A Python exception becomes `Crashed(fault)`; nothing happens after a crash.
  - Handlers publish from inside handlers. The model bounds this nesting by a `depth` budget that stands for the interpreter's stack.
  - The random book choice is a parameter `pick`: the book is `books[pick % |books|]`, which reaches every book.
- `Bookstore` (`model.dfy`, app/model.py) covers setup, one tick and a run.
  - `RandomActivation`'s shuffle is a parameter: each tick's activation order must be a permutation of the roster.

The run invariant is `Healthy`, and it has four parts:

- The store is catalogued: every book resolves to an inventory with a quantity, inventories are distinct, and customers exist.
- The bus is wired as the bookstore wires it.
- Stock is non-negative.
- The ledger holds: the orders are, one for one and in order, the `purchase_ok` publishes with the same book, and every order is asserted in Purchases.

Besides keeping `Healthy`, every agent step, tick and run keeps two framing
facts. `AppendOnly`: orders, events and publishes are only extended.
`SameCatalogue`: no book, inventory, customer or employee is created or
destroyed, WorksAt is unchanged, and every inventory keeps its quantity slot.

Modelling assumptions: app/model.py never defines `events` or `step_idx`,
which app/agents.py:17 and :37 use. The model treats the event log as
an append-only sequence. It treats the tick index as an abstract counter that
`Step` advances by one after every agent has acted.

## Model

| member | source | states |
|---|---|---|
| Messaging.EmptyBusIsSilent | app/messaging.py:4-12 | a fresh bus has no handlers on any topic, so a publish on it delivers nothing and leaves the state unchanged |
| Messaging.Subscribe | app/messaging.py:7-8 | the handler goes at the end of its topic's list, the topic becomes a key, and every other topic's list is unchanged |
| Messaging.SubscribeEachAppends | app/messaging.py:7-8 | subscribing handlers one after another leaves the topic's list equal to the old list followed by exactly those handlers, in order; other topics do not move |
| Messaging.Dispatch | app/messaging.py:11-12 | one delivery per listed handler, the i-th to the i-th handler, each with the same payload, and the final state is exactly what performing those deliveries first to last produces |
| Messaging.Publish | app/messaging.py:10-12 | every handler subscribed to the topic is invoked exactly once, in subscription order, with the unchanged payload: the final state is the replay of that trace, first to last. A topic without subscribers leaves the state untouched and delivers nothing |
| Messaging.DispatchAppend | app/messaging.py:11-12 | dispatching to `hs + ks` is dispatching to `hs`, then to `ks` from the state `hs` left |
| Messaging.DispatchPreserves | app/messaging.py:11-12 | a state property that each handler keeps is kept by the whole pass |
| Messaging.PublishFollowsSubscriptionOrder | app/messaging.py:7-12 | after subscribing `hs` to a fresh topic, a publish delivers to exactly `hs`, in that order |
| Messaging.LateSubscriptionsAccumulate | app/messaging.py:7-12 | handlers that each subscribe a newcomer during a pass add one newcomer per handler invoked |
| Messaging.PublishSnapshotsHandlers | app/messaging.py:11 | a subscription made during dispatch does not fire in that pass: the pass delivers to the original list only, and the newcomers are just appended |
| Messaging.PublishKeepsSubscriptions | app/messaging.py:10-12 | when the handlers leave the bus alone, a publish does not change any subscription list |
| Ontology.SeedShape | app/ontology.py:38-52 | exactly the two books `Book_HP1` and `Book_1984`, inventories `Inv_HP1` at 5 and `Inv_1984` at 2 (one quantity each, both non-negative), two distinct customers, two distinct employees, no orders and no purchases |
| Ontology.SeedWorksAtPartitions | app/ontology.py:55-56 | WorksAt gives Alice `Inv_HP1` and Bob `Inv_1984`; the assignment is disjoint and covers every inventory |
| Rules.LowStockIsStrict | app/rules.py:9-10 | the comparison is strict: a quantity of 2 is low and 3 is not |
| Rules.LowStockDependsOnlyOnQuantities | app/rules.py:8-11 | two stores that agree on inventories and quantities agree on LowStock, so the rule is a pure function of the current quantities |
| Rules.DerivedPurchasesAlreadyAsserted | app/rules.py:16-17 | when every order's purchase is asserted directly, the rule derives nothing new |
| Agents.ReplaceAbsent | app/agents.py:64 | `str.replace` leaves a string without the pattern unchanged |
| Agents.BookResolvesToInventory | app/agents.py:62-65 | the inventory looked up for `Book_X` is `Inv_X` |
| Agents.CustomerFromIdIgnoresId | app/agents.py:92-93 | the customer lookup ignores its argument and yields the first customer; it has a result iff some customer exists |
| Agents.HandlePurchaseKeepsStockNonNegative | app/agents.py:66-81 | `handle_purchase` never makes a quantity negative, whatever is subscribed to the outcome topics |
| Agents.InvokeKeepsStockNonNegative | app/agents.py:31-35 | invoking either kind of handler with a non-negative restock keeps all stock non-negative |
| Agents.PublishKeepsStockNonNegative | app/messaging.py:10-12 | a publish through any handlers, at any nesting, keeps all stock non-negative |
| Agents.PublishUnheard | app/messaging.py:11 | publishing to a topic with no subscribers changes nothing but the record of the call |
| Agents.HandlePurchaseOutcome | app/agents.py:60-90 | success (stock at least the request): stock becomes available minus qty, one Order for the first customer and the book is appended, the book is appended to that customer's purchases, and `purchase_ok` is published with the same payload. Rejection: the store is unchanged and only `purchase_fail` is published. The nested publish ends after one level |
| Agents.PurchaseRequestHandledOnce | app/agents.py:55-58 | with the manager as the sole subscriber, a purchase request is handled exactly once, by `handle_purchase` |
| Agents.UnitPurchaseFailsIffEmpty | app/agents.py:66-90 | a one-copy request fails iff the stock is 0 |
| Agents.HandlePurchaseAssertsOrders | app/agents.py:70-79 | after a purchase, every Order's (customer, book) is already asserted in Purchases |
| Agents.RestockDispatch | app/agents.py:31-37 | n employee handlers of one restock request add n times the quantity and log n events |
| Agents.RestockRequestOutcome | app/agents.py:31-37 | one `restock_request` of qty d raises the inventory by (number of subscribed employees) × d, whatever WorksAt says; each handler logs one event whose `after_qty` is the quantity it wrote, and the last one equals the final quantity |
| Agents.RestockRequestEffect | app/agents.py:31-37 | the store, bus and traffic effect of one restock request, with the log only extended |
| Agents.EmployeeScanOutcome | app/agents.py:40-49 | an employee's scan publishes exactly the `RestockPlan` requests, in inventory order: one per inventory below 3, with qty `5 - q`, and none for q ≥ 3. Each such inventory ends at `q + n·(5 - q)` with n subscribed employees; others are unchanged |
| Agents.EmployeeScanLowHead | app/agents.py:42-49 | the same as the previous row, for a scan whose first inventory is below the threshold |
| Agents.RestockPlanMatchesLowStock | app/agents.py:42-46 | the restock trigger selects exactly the LowStock inventories, and every requested qty is at least 3 |
| Agents.SingleEmployeeClearsLowStock | app/agents.py:40-49 | on the healthy bookstore with one employee subscribed to restock requests, an employee's step never crashes and leaves every inventory that was LowStock at exactly 5, so it is no longer LowStock |
| Agents.CustomerStepOutcome | app/agents.py:13-21 | the customer picks a catalogued book and qty 1, logs one `purchase_request` event, then publishes exactly one `purchase_request`, which the manager handles once; the customer writes no stock itself |
| Agents.ServeAccounts | app/agents.py:68-81 | serving requests in turn leaves the starting stock minus the total granted; from non-negative stock the total granted never exceeds it |
| Agents.OnlyFirstOfTwoServed | app/agents.py:66-90 | of two requests that each fit the stock but not together, the first is granted and the second refused |
| Agents.PurchaseStepFor | app/agents.py:60-90 | one published purchase request, seen from a single inventory: if the request names that inventory's book and the stock covers the qty, the stock drops by the qty, otherwise it is unchanged; the bus, catalogue and customers are untouched |
| Agents.PurchaseRoundFollowsServe | app/agents.py:60-90 | purchase requests for any catalogued books, handled one after another, draw each inventory down exactly as the reference `Serve` does over the requests for that inventory alone; requests for other books leave it untouched |
| Agents.NoOverdrawInRound | app/agents.py:66-81 | across any round of purchase requests for catalogued books, mixing books freely, each inventory loses exactly the total granted from it, which is at most its starting stock |
| Agents.PurchaseLedgerStep | app/agents.py:68-90 | one purchase request keeps the store catalogued; the orders it appends carry exactly the books of the `purchase_ok` it publishes |
| Agents.OrdersMatchPurchaseOk | app/agents.py:68-90 | across any round of purchase requests, the new Orders are, one for one and in order, the `purchase_ok` publishes with the same book, so their numbers are equal |
| Agents.CustomerStepKeepsHealthy | app/agents.py:13-21 | a customer's step on the wired, catalogued store never crashes, keeps stock non-negative, and keeps the ledger: orders match the `purchase_ok` publishes one for one, and every order is asserted in Purchases. Orders, events and publishes are only appended to, and no book, inventory, customer or employee is created or destroyed, nor WorksAt changed |
| Agents.EmployeeStepKeepsHealthy | app/agents.py:40-49 | an employee's step on the wired, catalogued store never crashes, keeps stock non-negative, leaves orders and purchases unchanged (so the ledger still holds), only appends to events and publishes, and creates or destroys no book, inventory, customer or employee, nor changes WorksAt |
| Agents.CustomerStepKeepsStockNonNegative | app/agents.py:13-21 | a customer's step keeps stock non-negative under any subscriptions |
| Agents.EmployeeScanKeepsStockNonNegative | app/agents.py:40-49 | an employee's scan keeps stock non-negative under any subscriptions |
| Bookstore.SeedIsCatalogued | app/ontology.py:41-46 | each seeded `Book_X` resolves to the seeded `Inv_X`, the seed is catalogued with non-negative stock, and exactly `Inv_1984` starts LowStock |
| Bookstore.Setup | app/model.py:9-27 | the manager is the only `purchase_request` subscriber. The roster is `Cust_1..Cust_n` then `Emp_1..Emp_m`. `restock_request` has exactly the m employees, in creation order; by `Agents.RestockRequestOutcome`, one request of qty d then raises stock by m × d. Nobody listens on the outcome topics. The state starts from the seed, with no orders and no publishes yet, and is healthy |
| Bookstore.Step | app/model.py:29-30 | a step keeps the roster and the configured step count |
| Bookstore.RunFor | app/model.py:32-34 | a run of ticks keeps the roster and the configured step count |
| Bookstore.ActivateKeepsHealthy | app/model.py:29-30 | activating the agents in any order keeps the simulation live and healthy, only appends to orders, events and publishes, and leaves the books, inventories, customers, employees, WorksAt and the set of stocked inventories as they were |
| Bookstore.StepKeepsHealthy | app/model.py:29-30 | from a healthy state, a tick under every activation permutation never crashes, stays healthy (stock non-negative, ledger matching the `purchase_ok` publishes), only appends to orders, events and publishes, keeps every individual and WorksAt, and advances the tick by one |
| Bookstore.ActivateKeepsStockNonNegative | app/model.py:29-30 | activating agents in any order keeps stock non-negative under any subscriptions |
| Bookstore.StepKeepsStockNonNegative | app/model.py:29-30 | stock stays non-negative after a tick under every permutation and any subscriptions |
| Bookstore.RunForKeepsHealthy | app/model.py:32-34 | n ticks from a healthy state never crash, stay healthy, only append to orders, events and publishes, keep the books, inventories, customers, employees and WorksAt, and advance the tick by exactly n |
| Bookstore.RunKeepsHealthy | app/model.py:32-34 | `run` performs `step` exactly `steps` times; the bookstore stays healthy throughout, orders, events and publishes are only appended to, and the seeded individuals and WorksAt survive unchanged |

## Left out

- The Streamlit UI in app/streamlit_app.py and the entry script app/run.py: presentation and file I/O.
- owlready2 machinery: IRIs, `search_one`, the ontology classes, SWRL `Imp` objects and saving to RDF/XML (app/model.py:36, app/ontology.py:60-63).
  - Entities are plain names.
  - `search_one(iri=…)` is looked up among the books (or inventories) only, not among all individuals.
- Book authors, genres and prices (`HasAuthor`, `HasGenre`, `HasPrice`): they play no part in the logic, and prices are floats.
- `print` diagnostics (app/agents.py:36, 82-90).
- The random order-name suffix (app/agents.py:95-97): the model keeps orders in a sequence with no name, which stands for a fresh name.
- Random sources: they are parameters.
  - The book choice is `pick`.
  - The activation order is a permutation supplied per tick.
  - The model's `seed` argument is not modelled.
- `BookstoreModel.__init__` rejects the `restock_threshold`/`restock_target` arguments that app/run.py passes: the model keeps the hard-coded 3 and 5 and has no configurable variant.
- `events` and `step_idx` are never defined in app/model.py: see the modelling assumptions above.
- Python's recursion limit is modelled by the nesting budget `NestingBudget` (100), not by the interpreter's real stack depth.
  - The bookstore's own wiring never nests deeper than one level, so the budget never runs out there.
- Agents.PublishKeepsStockNonNegative: assumes restock payloads carry a non-negative qty. `handle_restock` adds any qty unchecked, so a negative one published by some other code could lower stock. The employees themselves only publish qty ≥ 3.
- The exact `Serve` accounting of purchases is stated for rounds of purchase requests. Within a full tick, employee restocks interleave with purchases, and there the run invariant promises non-negative stock and the ledger, not a per-inventory `Serve` equation.
- The empty catalog (`random.choice` on no books) and the other exceptions are modelled as `Crashed` faults. The seeded state never reaches them.
