/** The agents and the inventory manager (app/agents.py), wired to the bus.

    The simulation state is a `World`: the entity store, the bus, the event
    log, a record of every publish call made (`traffic`, the topic and payload
    of each call, in call order, whether or not anyone was subscribed) and the
    current tick. A Python exception ends the run; the model writes that as
    `Crashed(fault)`, after which nothing further happens.

    Handlers publish from inside handlers, so publishing is recursive. The
    nesting is bounded by `depth`, which stands for the interpreter's stack:
    a nested publish with no depth left crashes, as a runaway recursion would.
 */
module Agents {
  import opened Messaging
  import opened Ontology
  import Rules

  /** The hard-coded restock rule of `EmployeeAgent.step` (app/agents.py:44-45). */
  const RestockThreshold: int := 3
  const RestockTarget: int := 5
  /** The fixed purchase quantity of `CustomerAgent.step` (app/agents.py:16). */
  const CustomerQty: int := 1
  /** The nesting budget each agent action starts with. */
  const NestingBudget: nat := 100

  /** The payload dictionaries; entity IRIs are written as entity names. */
  datatype Payload =
    | PurchasePayload(customerId: string, book: string, qty: int)
    | RestockPayload(inventory: string, qty: int)

  /** One publish call: the topic and the payload. */
  datatype Message = Message(topic: string, payload: Payload)

  /** The records appended to the model's event log. */
  datatype Event =
    | PurchaseRequestEvent(step: nat, customer: string, book: string, qty: int)
    | RestockEvent(step: nat, inventory: string, qty: int, afterQty: int)

  /** The bound methods the bus holds. */
  datatype Handler = ManagerPurchase | EmployeeRestock(employee: string)

  /** The exceptions that can end a run. */
  datatype Fault =
    | EmptyCatalog                 // random.choice on an empty list
    | UnknownBook(book: string)    // search_one found no such book
    | UnknownInventory(inventory: string)
    | MissingQuantity(inventory: string)
    | MissingField(handler: Handler)  // payload lacks the key the handler reads
    | NoCustomer                   // next() on an empty Customer enumeration
    | NestingExhausted

  datatype World = World(store: Store, bus: Bus<Handler>, events: seq<Event>, traffic: seq<Message>, tick: nat)

  datatype Sim = Live(world: World) | Crashed(fault: Fault)

  datatype Option<T> = None | Some(value: T)

  // ---------------------------------------------------------------------
  // Name-based resolution
  // ---------------------------------------------------------------------

  /** Python's `s.replace(pat, rep)`: every non-overlapping occurrence of
      `pat`, scanning left to right. */
  function ReplaceAll(s: string, pat: string, rep: string): string
    requires |pat| > 0
    decreases |s|
  {
    if |s| < |pat| then s
    else if s[..|pat|] == pat then rep + ReplaceAll(s[|pat|..], pat, rep)
    else [s[0]] + ReplaceAll(s[1..], pat, rep)
  }

  predicate OccursAt(pat: string, s: string, k: nat)
  {
    k + |pat| <= |s| && s[k..k + |pat|] == pat
  }

  /** `pat` appears somewhere in `s`. */
  predicate Occurs(pat: string, s: string)
  {
    exists k: nat | k <= |s| :: OccursAt(pat, s, k)
  }

  /** The inventory that `handle_purchase` looks up for a book. */
  function InventoryName(book: string): string
  {
    ReplaceAll(book, "Book_", "Inv_")
  }

  lemma {:induction false} ReplaceAbsent(s: string, pat: string, rep: string)
    requires |pat| > 0
    requires !Occurs(pat, s)
    ensures ReplaceAll(s, pat, rep) == s
    decreases |s|
  {
    if |s| >= |pat| {
      assert !OccursAt(pat, s, 0);
      forall k: nat ensures !OccursAt(pat, s[1..], k) {
        if k + |pat| <= |s[1..]| {
          assert s[1..][k..k + |pat|] == s[k + 1..k + 1 + |pat|];
          assert !OccursAt(pat, s, k + 1);
        }
      }
      ReplaceAbsent(s[1..], pat, rep);
      assert [s[0]] + s[1..] == s;
    }
  }

  /** A book named `Book_X`, where `X` itself contains no `Book_`, resolves
      to the inventory named `Inv_X`. */
  lemma BookResolvesToInventory(x: string)
    requires !Occurs("Book_", x)
    ensures InventoryName("Book_" + x) == "Inv_" + x
  {
    var s := "Book_" + x;
    assert s[..5] == "Book_";
    assert s[5..] == x;
    ReplaceAbsent(x, "Book_", "Inv_");
  }

  /** `_customer_from_id`: the first Customer individual, whatever the id. */
  function CustomerFromId(s: Store, cid: string): Option<string>
  {
    if |s.customers| == 0 then None else Some(s.customers[0])
  }

  /** The id sent in a purchase request plays no part in which customer the
      order is attributed to: any two ids resolve alike, to the first
      customer when there is one. */
  lemma CustomerFromIdIgnoresId(s: Store, a: string, b: string)
    ensures CustomerFromId(s, a) == CustomerFromId(s, b)
    ensures CustomerFromId(s, a).Some? <==> |s.customers| > 0
    ensures CustomerFromId(s, a).Some? ==> CustomerFromId(s, a).value == s.customers[0]
  {
  }

  // ---------------------------------------------------------------------
  // Handlers and publishing
  // ---------------------------------------------------------------------

  /** The bus's `invoke` for this system. */
  function Invoker(depth: nat): (Sim, Handler, Payload) -> Sim
    decreases depth, 3
  {
    (s: Sim, h: Handler, m: Payload) => Invoke(depth, s, h, m)
  }

  /** Calls one handler; after a crash no handler runs. */
  function Invoke(depth: nat, s: Sim, h: Handler, m: Payload): Sim
    decreases depth, 2
  {
    if s.Crashed? then s
    else
      match h
      case ManagerPurchase => HandlePurchase(depth, s.world, m)
      case EmployeeRestock(_) => HandleRestock(s.world, h, m)
  }

  /** `bus.publish(topic, m)` from state `s`: records the call, then dispatches
      to the handlers subscribed at this moment. */
  function PublishCall(depth: nat, s: Sim, topic: string, m: Payload): Sim
    decreases depth, 4
  {
    if s.Crashed? then s
    else
      var w := s.world;
      Messaging.Publish(w.bus, topic, m, Live(w.(traffic := w.traffic + [Message(topic, m)])), Invoker(depth)).0
  }

  /** A publish made from inside a handler, one level deeper. */
  function NestedPublish(depth: nat, w: World, topic: string, m: Payload): Sim
    decreases depth, 0
  {
    if depth == 0 then Crashed(NestingExhausted) else PublishCall(depth - 1, Live(w), topic, m)
  }

  /** `InventoryManager.handle_purchase`. */
  function HandlePurchase(depth: nat, w: World, m: Payload): Sim
    decreases depth, 1
  {
    if !m.PurchasePayload? then Crashed(MissingField(ManagerPurchase))
    else if m.book !in w.store.books then Crashed(UnknownBook(m.book))
    else
      var inv := InventoryName(m.book);
      if inv !in w.store.inventories then Crashed(UnknownInventory(inv))
      else if inv !in w.store.quantity then Crashed(MissingQuantity(inv))
      else
        var avail := w.store.quantity[inv];
        if avail >= m.qty then
          match CustomerFromId(w.store, m.customerId)
          case None => Crashed(NoCustomer)
          case Some(c) =>
            var st := w.store.(
              orders := w.store.orders + [Order(c, m.book)],
              purchases := w.store.purchases[c := PurchasesOf(w.store, c) + [m.book]],
              quantity := w.store.quantity[inv := avail - m.qty]);
            NestedPublish(depth, w.(store := st), PurchaseOk, m)
        else
          NestedPublish(depth, w, PurchaseFail, m)
  }

  /** `EmployeeAgent.handle_restock`, for employee handler `h`: no check of
      WorksAt, no check of the sign of the quantity. */
  function HandleRestock(w: World, h: Handler, m: Payload): Sim
  {
    if !m.RestockPayload? then Crashed(MissingField(h))
    else if m.inventory !in w.store.inventories then Crashed(UnknownInventory(m.inventory))
    else if m.inventory !in w.store.quantity then Crashed(MissingQuantity(m.inventory))
    else
      var after := w.store.quantity[m.inventory] + m.qty;
      Live(w.(store := w.store.(quantity := w.store.quantity[m.inventory := after]),
              events := w.events + [RestockEvent(w.tick, m.inventory, m.qty, after)]))
  }

  // ---------------------------------------------------------------------
  // Agent steps
  // ---------------------------------------------------------------------

  /** `CustomerAgent.step` for the agent `id`; `pick` stands for the random
      choice, any natural number selecting some book of the catalog. */
  function CustomerStep(depth: nat, w: World, id: string, pick: nat): Sim
  {
    if |w.store.books| == 0 then Crashed(EmptyCatalog)
    else
      var book := w.store.books[pick % |w.store.books|];
      var w1 := w.(events := w.events + [PurchaseRequestEvent(w.tick, id, book, CustomerQty)]);
      PublishCall(depth, Live(w1), PurchaseRequest, PurchasePayload(id, book, CustomerQty))
  }

  /** The loop of `EmployeeAgent.step` over the inventories listed in `invs`,
      each quantity read when its turn comes. */
  function EmployeeScan(depth: nat, s: Sim, invs: seq<string>): Sim
    decreases |invs|
  {
    if s.Crashed? || |invs| == 0 then s
    else
      var inv := invs[0];
      if inv !in s.world.store.quantity then Crashed(MissingQuantity(inv))
      else
        var q := s.world.store.quantity[inv];
        var s1 :=
          if q < RestockThreshold && RestockTarget - q > 0
          then PublishCall(depth, s, RestockRequest, RestockPayload(inv, RestockTarget - q))
          else s;
        EmployeeScan(depth, s1, invs[1..])
  }

  /** `EmployeeAgent.step`: scan every Inventory individual. */
  function EmployeeStep(depth: nat, w: World): Sim
  {
    EmployeeScan(depth, Live(w), w.store.inventories)
  }

  // ---------------------------------------------------------------------
  // Reference definitions
  // ---------------------------------------------------------------------

  predicate Distinct<T(==)>(xs: seq<T>)
  {
    forall i, j :: 0 <= i < j < |xs| ==> xs[i] != xs[j]
  }

  predicate NonNegative(s: Store)
  {
    forall i :: i in s.quantity ==> s.quantity[i] >= 0
  }

  predicate StockOk(s: Sim)
  {
    s.Live? ==> NonNegative(s.world.store)
  }

  /** A payload that cannot lower stock through a restock. */
  predicate Sane(m: Payload)
  {
    m.RestockPayload? ==> m.qty >= 0
  }

  /** The requests the restock rule calls for, inventory by inventory. */
  function RestockPlan(qty: map<string, int>, invs: seq<string>): seq<Payload>
    decreases |invs|
  {
    if |invs| == 0 then []
    else
      (if invs[0] in qty && qty[invs[0]] < RestockThreshold
       then [RestockPayload(invs[0], RestockTarget - qty[invs[0]])] else [])
      + RestockPlan(qty, invs[1..])
  }

  function AsMessages(topic: string, ps: seq<Payload>): (r: seq<Message>)
    ensures |r| == |ps|
    ensures forall k :: 0 <= k < |ps| ==> r[k] == Message(topic, ps[k])
  {
    if |ps| == 0 then [] else [Message(topic, ps[0])] + AsMessages(topic, ps[1..])
  }

  /** The quantities after every inventory of `invs` below the threshold
      received `n` restocks of `RestockTarget - q`. */
  function Replenish(qty: map<string, int>, invs: seq<string>, n: nat): map<string, int>
  {
    map i | i in qty :: if i in invs && qty[i] < RestockThreshold then qty[i] + n * (RestockTarget - qty[i]) else qty[i]
  }

  /** The events `n` restock handlers log for one request, starting from
      quantity `q`. */
  function RestockLog(tick: nat, inv: string, a: int, q: int, n: nat): seq<Event>
    decreases n
  {
    if n == 0 then [] else [RestockEvent(tick, inv, a, q + a)] + RestockLog(tick, inv, a, q + a, n - 1)
  }

  /** Remaining stock after serving requests for quantities `qtys` in order,
      each granted iff the stock then on hand covers it. */
  function Serve(avail: int, qtys: seq<int>): int
    decreases |qtys|
  {
    if |qtys| == 0 then avail
    else Serve(if avail >= qtys[0] then avail - qtys[0] else avail, qtys[1..])
  }

  /** The total quantity granted by `Serve`. */
  function Granted(avail: int, qtys: seq<int>): int
    decreases |qtys|
  {
    if |qtys| == 0 then 0
    else if avail >= qtys[0] then qtys[0] + Granted(avail - qtys[0], qtys[1..])
    else Granted(avail, qtys[1..])
  }

  /** The bus as the bookstore wires it: the manager alone on purchase
      requests, nobody on the outcomes, employees only on restock requests. */
  predicate Wired(b: Bus<Handler>)
  {
    && Handlers(b, PurchaseRequest) == [ManagerPurchase]
    && Handlers(b, PurchaseOk) == []
    && Handlers(b, PurchaseFail) == []
    && forall h :: h in Handlers(b, RestockRequest) ==> h.EmployeeRestock?
  }

  /** The store facts the handlers dereference without checking. */
  predicate Catalogued(s: Store)
  {
    && |s.books| > 0
    && (forall b :: b in s.books ==> InventoryName(b) in s.inventories)
    && (forall i :: i in s.inventories ==> i in s.quantity)
    && Distinct(s.inventories)
    && |s.customers| > 0
  }

  /** The order ledger agrees with what was published: the orders are, one
      for one and in order, the `purchase_ok` publishes with the same book,
      and every order's purchase is asserted on its customer, so the
      Order rule derives nothing new. */
  predicate Ledgered(w: World)
  {
    OrderBooks(w.store.orders) == OkBooks(w.traffic) && Rules.OrdersAsserted(w.store)
  }

  /** `w2` only extends the records of `w1`: orders are never removed or
      rewritten, and the event log and the record of publishes only grow. */
  predicate AppendOnly(w1: World, w2: World)
  {
    w1.store.orders <= w2.store.orders && w1.events <= w2.events && w1.traffic <= w2.traffic
  }

  lemma AppendOnlyTransitive(a: World, b: World, c: World)
    requires AppendOnly(a, b) && AppendOnly(b, c)
    ensures AppendOnly(a, c)
  {
  }

  /** `w1` and `w2` have the same individuals: no book, inventory, customer
      or employee is created or destroyed, WorksAt is untouched, and every
      inventory keeps its quantity slot. */
  predicate SameCatalogue(w1: World, w2: World)
  {
    && w1.store.books == w2.store.books && w1.store.inventories == w2.store.inventories
    && w1.store.customers == w2.store.customers && w1.store.employees == w2.store.employees
    && w1.store.worksAt == w2.store.worksAt && w1.store.quantity.Keys == w2.store.quantity.Keys
  }

  /** The well-formed, running state the scheduler keeps. */
  predicate Healthy(w: World)
  {
    Catalogued(w.store) && Wired(w.bus) && NonNegative(w.store) && Ledgered(w)
  }

  // ---------------------------------------------------------------------
  // Stock never goes negative, whatever is subscribed
  // ---------------------------------------------------------------------

  /** Any publish of a sane payload, through any handlers, at any nesting,
      keeps every quantity non-negative. */
  lemma {:induction false} PublishKeepsStockNonNegative(depth: nat, s: Sim, topic: string, m: Payload)
    requires StockOk(s) && Sane(m)
    ensures StockOk(PublishCall(depth, s, topic, m))
    decreases depth, 4
  {
    if s.Live? {
      var w := s.world;
      var hs := Handlers(w.bus, topic);
      forall x, h | h in hs && StockOk(x) ensures StockOk(Invoker(depth)(x, h, m)) {
        InvokeKeepsStockNonNegative(depth, x, h, m);
      }
      DispatchPreserves(hs, m, Live(w.(traffic := w.traffic + [Message(topic, m)])), Invoker(depth), StockOk);
    }
  }

  lemma {:induction false} InvokeKeepsStockNonNegative(depth: nat, s: Sim, h: Handler, m: Payload)
    requires StockOk(s) && Sane(m)
    ensures StockOk(Invoke(depth, s, h, m))
    decreases depth, 2
  {
    if s.Live? && h.ManagerPurchase? {
      HandlePurchaseKeepsStockNonNegative(depth, s.world, m);
    }
  }

  /** `handle_purchase` never makes a quantity negative: it lowers stock only
      when the stock on hand covers the request. */
  lemma {:induction false} HandlePurchaseKeepsStockNonNegative(depth: nat, w: World, m: Payload)
    requires NonNegative(w.store) && Sane(m)
    ensures StockOk(HandlePurchase(depth, w, m))
    decreases depth, 1
  {
    if depth > 0 && m.PurchasePayload? && m.book in w.store.books {
      var inv := InventoryName(m.book);
      if inv in w.store.inventories && inv in w.store.quantity {
        var avail := w.store.quantity[inv];
        if avail >= m.qty {
          if |w.store.customers| > 0 {
            var c := w.store.customers[0];
            var st := w.store.(
              orders := w.store.orders + [Order(c, m.book)],
              purchases := w.store.purchases[c := PurchasesOf(w.store, c) + [m.book]],
              quantity := w.store.quantity[inv := avail - m.qty]);
            PublishKeepsStockNonNegative(depth - 1, Live(w.(store := st)), PurchaseOk, m);
          }
        } else {
          PublishKeepsStockNonNegative(depth - 1, Live(w), PurchaseFail, m);
        }
      }
    }
  }

  // ---------------------------------------------------------------------
  // Exact effects of one request on the bookstore's bus
  // ---------------------------------------------------------------------

  /** Publishing on a topic nobody subscribed to changes nothing beyond the
      record of the call itself. */
  lemma PublishUnheard(depth: nat, w: World, topic: string, m: Payload)
    requires Handlers(w.bus, topic) == []
    ensures PublishCall(depth, Live(w), topic, m) == Live(w.(traffic := w.traffic + [Message(topic, m)]))
  {
  }

  /** `handle_purchase` with nobody listening to its outcome topics. On
      success: the stock drops by the request, one Order linking the first
      customer (whatever id was sent) and the book is appended, the book is
      appended to that customer's purchases, and `purchase_ok` is published
      with the same payload. On rejection: only `purchase_fail` is published. */
  lemma HandlePurchaseOutcome(depth: nat, w: World, m: Payload)
    requires depth >= 1
    requires Handlers(w.bus, PurchaseOk) == [] && Handlers(w.bus, PurchaseFail) == []
    requires m.PurchasePayload? && m.book in w.store.books
    requires InventoryName(m.book) in w.store.inventories && InventoryName(m.book) in w.store.quantity
    requires |w.store.customers| > 0
    ensures var inv := InventoryName(m.book);
            var avail := w.store.quantity[inv];
            var c := w.store.customers[0];
            var r := HandlePurchase(depth, w, m);
            && r.Live?
            && r.world.bus == w.bus && r.world.events == w.events && r.world.tick == w.tick
            && (avail >= m.qty ==>
                  && r.world.store == w.store.(
                       quantity := w.store.quantity[inv := avail - m.qty],
                       orders := w.store.orders + [Order(c, m.book)],
                       purchases := w.store.purchases[c := PurchasesOf(w.store, c) + [m.book]])
                  && r.world.store.quantity[inv] >= 0
                  && r.world.traffic == w.traffic + [Message(PurchaseOk, m)])
            && (avail < m.qty ==>
                  && r.world.store == w.store
                  && r.world.traffic == w.traffic + [Message(PurchaseFail, m)])
  {
    var inv := InventoryName(m.book);
    var avail := w.store.quantity[inv];
    var c := w.store.customers[0];
    if avail >= m.qty {
      var st := w.store.(
        orders := w.store.orders + [Order(c, m.book)],
        purchases := w.store.purchases[c := PurchasesOf(w.store, c) + [m.book]],
        quantity := w.store.quantity[inv := avail - m.qty]);
      PublishUnheard(depth - 1, w.(store := st), PurchaseOk, m);
    } else {
      PublishUnheard(depth - 1, w, PurchaseFail, m);
    }
  }

  /** A purchase request on the bookstore's bus is recorded and then handled
      exactly once, by the inventory manager. */
  lemma PurchaseRequestHandledOnce(depth: nat, w: World, m: Payload)
    requires Handlers(w.bus, PurchaseRequest) == [ManagerPurchase]
    ensures PublishCall(depth, Live(w), PurchaseRequest, m)
         == HandlePurchase(depth, w.(traffic := w.traffic + [Message(PurchaseRequest, m)]), m)
  {
    var w0 := w.(traffic := w.traffic + [Message(PurchaseRequest, m)]);
    var hs := Handlers(w.bus, PurchaseRequest);
    var x := Invoker(depth)(Live(w0), hs[0], m);
    assert hs[0] == ManagerPurchase;
    assert x == Invoke(depth, Live(w0), ManagerPurchase, m);
    assert hs[1..] == [];
    assert Dispatch(hs[1..], m, x, Invoker(depth)).0 == x;
    assert Dispatch(hs, m, Live(w0), Invoker(depth)).0 == x;
    assert Messaging.Publish(w.bus, PurchaseRequest, m, Live(w0), Invoker(depth)).0 == x;
  }

  /** A request for one copy against non-negative stock fails exactly when
      the stock is zero. */
  lemma UnitPurchaseFailsIffEmpty(depth: nat, w: World, customer: string, book: string)
    requires depth >= 1
    requires Handlers(w.bus, PurchaseOk) == [] && Handlers(w.bus, PurchaseFail) == []
    requires book in w.store.books && |w.store.customers| > 0
    requires InventoryName(book) in w.store.inventories && InventoryName(book) in w.store.quantity
    requires w.store.quantity[InventoryName(book)] >= 0
    ensures var m := PurchasePayload(customer, book, CustomerQty);
            var r := HandlePurchase(depth, w, m);
            && r.Live?
            && (r.world.traffic == w.traffic + [Message(PurchaseFail, m)]
                <==> w.store.quantity[InventoryName(book)] == 0)
  {
    var m := PurchasePayload(customer, book, CustomerQty);
    HandlePurchaseOutcome(depth, w, m);
    var r := HandlePurchase(depth, w, m);
    if w.store.quantity[InventoryName(book)] != 0 {
      assert r.world.traffic[|w.traffic|] == Message(PurchaseOk, m);
      assert (w.traffic + [Message(PurchaseFail, m)])[|w.traffic|] == Message(PurchaseFail, m);
    }
  }

  /** A successful purchase asserts the Purchases fact for the order it
      creates, so the Order rule never derives anything new. */
  lemma HandlePurchaseAssertsOrders(depth: nat, w: World, m: Payload)
    requires depth >= 1
    requires Handlers(w.bus, PurchaseOk) == [] && Handlers(w.bus, PurchaseFail) == []
    requires m.PurchasePayload? && m.book in w.store.books
    requires InventoryName(m.book) in w.store.inventories && InventoryName(m.book) in w.store.quantity
    requires |w.store.customers| > 0
    requires Rules.OrdersAsserted(w.store)
    ensures HandlePurchase(depth, w, m).Live?
    ensures Rules.OrdersAsserted(HandlePurchase(depth, w, m).world.store)
  {
    HandlePurchaseOutcome(depth, w, m);
    var r := HandlePurchase(depth, w, m).world.store;
    var c := w.store.customers[0];
    forall o | o in r.orders ensures Rules.Asserted(r, o.customer, o.book) {
      if o in w.store.orders {
        assert Rules.Asserted(w.store, o.customer, o.book);
        if o.customer == c {
          assert PurchasesOf(w.store, c) <= PurchasesOf(r, c);
        } else {
          assert PurchasesOf(r, o.customer) == PurchasesOf(w.store, o.customer);
        }
      } else {
        assert PurchasesOf(r, c)[|PurchasesOf(r, c)| - 1] == m.book;
      }
    }
  }

  lemma {:induction false} RestockLogShape(tick: nat, inv: string, a: int, q: int, n: nat)
    ensures |RestockLog(tick, inv, a, q, n)| == n
    ensures forall k :: 0 <= k < n ==> RestockLog(tick, inv, a, q, n)[k] == RestockEvent(tick, inv, a, q + (k + 1) * a)
    decreases n
  {
    if n > 0 {
      RestockLogShape(tick, inv, a, q + a, n - 1);
      forall k | 1 <= k < n ensures q + a + k * a == q + (k + 1) * a {
      }
    }
  }

  lemma {:induction false} RestockDispatch(depth: nat, hs: seq<Handler>, w: World, inv: string, a: int)
    requires forall h :: h in hs ==> h.EmployeeRestock?
    requires inv in w.store.inventories && inv in w.store.quantity
    ensures Dispatch(hs, RestockPayload(inv, a), Live(w), Invoker(depth)).0
         == Live(w.(store := w.store.(quantity := w.store.quantity[inv := w.store.quantity[inv] + |hs| * a]),
                    events := w.events + RestockLog(w.tick, inv, a, w.store.quantity[inv], |hs|)))
    decreases |hs|
  {
    var m := RestockPayload(inv, a);
    var q := w.store.quantity[inv];
    if |hs| == 0 {
      assert w.store.quantity[inv := q] == w.store.quantity;
      assert w.events + [] == w.events;
    } else {
      assert hs[0] in hs;
      var w1 := w.(store := w.store.(quantity := w.store.quantity[inv := q + a]),
                   events := w.events + [RestockEvent(w.tick, inv, a, q + a)]);
      assert Invoker(depth)(Live(w), hs[0], m) == Live(w1);
      forall h | h in hs[1..] ensures h.EmployeeRestock? {
        assert h in hs;
      }
      RestockDispatch(depth, hs[1..], w1, inv, a);
      assert q + a + (|hs| - 1) * a == q + |hs| * a;
      assert w1.events + RestockLog(w.tick, inv, a, q + a, |hs| - 1)
          == w.events + RestockLog(w.tick, inv, a, q, |hs|);
    }
  }

  /** One restock request on the bookstore's bus: every subscribed employee
      adds the quantity once, so the stock rises by (number of subscribers)
      times the quantity, each handler logs one restock event whose
      `afterQty` is the quantity it just wrote, and nothing else changes. */
  lemma RestockRequestOutcome(depth: nat, w: World, inv: string, a: int)
    requires forall h :: h in Handlers(w.bus, RestockRequest) ==> h.EmployeeRestock?
    requires inv in w.store.inventories && inv in w.store.quantity
    ensures var n := |Handlers(w.bus, RestockRequest)|;
            var q := w.store.quantity[inv];
            var r := PublishCall(depth, Live(w), RestockRequest, RestockPayload(inv, a));
            && r.Live?
            && r.world.store == w.store.(quantity := w.store.quantity[inv := q + n * a])
            && r.world.bus == w.bus && r.world.tick == w.tick
            && r.world.traffic == w.traffic + [Message(RestockRequest, RestockPayload(inv, a))]
            && |r.world.events| == |w.events| + n
            && r.world.events[..|w.events|] == w.events
            && (forall k :: |w.events| <= k < |r.world.events| ==>
                  r.world.events[k] == RestockEvent(w.tick, inv, a, q + (k - |w.events| + 1) * a))
            && (n > 0 ==> var last := r.world.events[|r.world.events| - 1];
                          last.RestockEvent? && last.afterQty == r.world.store.quantity[inv])
  {
    var hs := Handlers(w.bus, RestockRequest);
    var w0 := w.(traffic := w.traffic + [Message(RestockRequest, RestockPayload(inv, a))]);
    RestockDispatch(depth, hs, w0, inv, a);
    RestockLogShape(w.tick, inv, a, w.store.quantity[inv], |hs|);
    var r := PublishCall(depth, Live(w), RestockRequest, RestockPayload(inv, a));
    var log := RestockLog(w.tick, inv, a, w.store.quantity[inv], |hs|);
    assert r.world.events == w.events + log;
    forall k | |w.events| <= k < |r.world.events|
      ensures r.world.events[k] == RestockEvent(w.tick, inv, a, w.store.quantity[inv] + (k - |w.events| + 1) * a)
    {
      assert r.world.events[k] == log[k - |w.events|];
    }
  }

  // ---------------------------------------------------------------------
  // The employee's restock scan
  // ---------------------------------------------------------------------

  lemma {:induction false} RestockPlanFrame(qty: map<string, int>, qty': map<string, int>, invs: seq<string>)
    requires forall i :: i in invs ==> (i in qty <==> i in qty')
    requires forall i :: i in invs && i in qty ==> qty[i] == qty'[i]
    ensures RestockPlan(qty, invs) == RestockPlan(qty', invs)
    decreases |invs|
  {
    if |invs| > 0 {
      assert invs[0] in invs;
      forall i | i in invs[1..] ensures i in invs {
      }
      RestockPlanFrame(qty, qty', invs[1..]);
    }
  }

  lemma AsMessagesCons(topic: string, p: Payload, ps: seq<Payload>)
    ensures AsMessages(topic, [p] + ps) == [Message(topic, p)] + AsMessages(topic, ps)
  {
    assert ([p] + ps)[1..] == ps;
  }

  lemma ReplenishLowHead(qty: map<string, int>, bumped: map<string, int>, invs: seq<string>, n: nat)
    requires |invs| > 0 && invs[0] in qty && invs[0] !in invs[1..] && qty[invs[0]] < RestockThreshold
    requires bumped == qty[invs[0] := qty[invs[0]] + n * (RestockTarget - qty[invs[0]])]
    ensures Replenish(bumped, invs[1..], n) == Replenish(qty, invs, n)
  {
    var l := Replenish(bumped, invs[1..], n);
    var r := Replenish(qty, invs, n);
    assert l.Keys == r.Keys;
    forall i | i in l ensures l[i] == r[i] {
      assert i in invs <==> i == invs[0] || i in invs[1..] by {
        assert invs == [invs[0]] + invs[1..];
      }
    }
  }

  lemma ReplenishHighHead(qty: map<string, int>, inv: string, rest: seq<string>, n: nat)
    requires inv in qty && qty[inv] >= RestockThreshold
    ensures Replenish(qty, rest, n) == Replenish(qty, [inv] + rest, n)
  {
    var l := Replenish(qty, rest, n);
    var r := Replenish(qty, [inv] + rest, n);
    forall i | i in l ensures l[i] == r[i] {
      assert i in [inv] + rest <==> i == inv || i in rest;
    }
  }

  /** Concatenation regroups. Stated on its own because the solver cannot
      find this step unaided in the context of the scan proof. */
  lemma AppendAssociates<T>(a: seq<T>, b: seq<T>, c: seq<T>)
    ensures (a + b) + c == a + (b + c)
  {
  }

  lemma DistinctTail<T>(xs: seq<T>)
    requires |xs| > 0 && Distinct(xs)
    ensures Distinct(xs[1..]) && xs[0] !in xs[1..]
    ensures forall x :: x in xs[1..] ==> x in xs
  {
    forall k | 0 <= k < |xs[1..]| ensures xs[1..][k] != xs[0] {
      assert xs[1..][k] == xs[k + 1];
    }
  }

  /** The store, bus and log effects of one restock request, without the
      per-event detail. */
  lemma RestockRequestEffect(depth: nat, w: World, inv: string, a: int)
    requires forall h :: h in Handlers(w.bus, RestockRequest) ==> h.EmployeeRestock?
    requires inv in w.store.inventories && inv in w.store.quantity
    ensures var n := |Handlers(w.bus, RestockRequest)|;
            var r := PublishCall(depth, Live(w), RestockRequest, RestockPayload(inv, a));
            && r.Live?
            && r.world.store == w.store.(quantity := w.store.quantity[inv := w.store.quantity[inv] + n * a])
            && r.world.bus == w.bus && r.world.tick == w.tick
            && r.world.traffic == w.traffic + [Message(RestockRequest, RestockPayload(inv, a))]
            && w.events <= r.world.events
  {
    RestockRequestOutcome(depth, w, inv, a);
  }

  /** What a scan over `invs` with `n` restock subscribers leaves behind. */
  predicate ScanEffect(w: World, invs: seq<string>, n: nat, r: Sim)
  {
    && r.Live?
    && r.world.store == w.store.(quantity := Replenish(w.store.quantity, invs, n))
    && r.world.traffic == w.traffic + AsMessages(RestockRequest, RestockPlan(w.store.quantity, invs))
    && r.world.bus == w.bus && r.world.tick == w.tick
    && w.events <= r.world.events
  }

  lemma EmployeeScanStep(depth: nat, w: World, invs: seq<string>)
    requires |invs| > 0 && invs[0] in w.store.quantity
    ensures EmployeeScan(depth, Live(w), invs)
         == EmployeeScan(depth,
              if w.store.quantity[invs[0]] < RestockThreshold
              then PublishCall(depth, Live(w), RestockRequest, RestockPayload(invs[0], RestockTarget - w.store.quantity[invs[0]]))
              else Live(w), invs[1..])
  {
  }

  /** The employee's scan over distinct, known inventories, with only
      employees on restock requests: every inventory of `invs` below 3 is
      restocked by each of the `n` subscribed employees up to `q + n*(5-q)`,
      the rest are untouched, and the restock requests published are exactly
      those of `RestockPlan`, in inventory order. */
  lemma {:induction false} EmployeeScanOutcome(depth: nat, w: World, invs: seq<string>)
    requires forall h :: h in Handlers(w.bus, RestockRequest) ==> h.EmployeeRestock?
    requires forall i :: i in invs ==> i in w.store.inventories && i in w.store.quantity
    requires Distinct(invs)
    ensures ScanEffect(w, invs, |Handlers(w.bus, RestockRequest)|, EmployeeScan(depth, Live(w), invs))
    decreases |invs|, 1
  {
    var n := |Handlers(w.bus, RestockRequest)|;
    var qty := w.store.quantity;
    if |invs| == 0 {
      assert Replenish(qty, invs, n) == qty;
      assert w.store.(quantity := qty) == w.store;
    } else if qty[invs[0]] < RestockThreshold {
      EmployeeScanLowHead(depth, w, invs);
    } else {
      var inv := invs[0];
      var rest := invs[1..];
      DistinctTail(invs);
      assert invs == [inv] + rest;
      EmployeeScanStep(depth, w, invs);
      EmployeeScanOutcome(depth, w, rest);
      ReplenishHighHead(qty, inv, rest, n);
    }
  }

  lemma {:induction false} EmployeeScanLowHead(depth: nat, w: World, invs: seq<string>)
    requires forall h :: h in Handlers(w.bus, RestockRequest) ==> h.EmployeeRestock?
    requires forall i :: i in invs ==> i in w.store.inventories && i in w.store.quantity
    requires Distinct(invs)
    requires |invs| > 0 && w.store.quantity[invs[0]] < RestockThreshold
    ensures ScanEffect(w, invs, |Handlers(w.bus, RestockRequest)|, EmployeeScan(depth, Live(w), invs))
    decreases |invs|, 0
  {
    var n := |Handlers(w.bus, RestockRequest)|;
    var qty := w.store.quantity;
    var inv := invs[0];
    var rest := invs[1..];
    var a := RestockTarget - qty[inv];
    var s1 := PublishCall(depth, Live(w), RestockRequest, RestockPayload(inv, a));
    assert s1.Live? && s1.world.store == w.store.(quantity := qty[inv := qty[inv] + n * a])
        && s1.world.bus == w.bus && s1.world.tick == w.tick
        && s1.world.traffic == w.traffic + [Message(RestockRequest, RestockPayload(inv, a))]
        && w.events <= s1.world.events by {
      RestockRequestEffect(depth, w, inv, a);
    }
    var w1 := s1.world;
    var r := EmployeeScan(depth, Live(w), invs);
    assert r == EmployeeScan(depth, Live(w1), rest) by {
      EmployeeScanStep(depth, w, invs);
    }
    DistinctTail(invs);
    assert ScanEffect(w1, rest, n, r) by {
      EmployeeScanOutcome(depth, w1, rest);
    }
    var p := RestockPayload(inv, a);
    var later := RestockPlan(qty, rest);
    assert RestockPlan(w1.store.quantity, rest) == later by {
      assert inv !in rest;
      RestockPlanFrame(qty, w1.store.quantity, rest);
    }
    assert RestockPlan(qty, invs) == [p] + later;
    assert AsMessages(RestockRequest, [p] + later) == [Message(RestockRequest, p)] + AsMessages(RestockRequest, later) by {
      AsMessagesCons(RestockRequest, p, later);
    }
    assert r.world.traffic == w.traffic + AsMessages(RestockRequest, RestockPlan(qty, invs)) by {
      var x := AsMessages(RestockRequest, later);
      assert r.world.traffic == w1.traffic + x;
      assert w1.traffic == w.traffic + [Message(RestockRequest, p)];
      AppendAssociates(w.traffic, [Message(RestockRequest, p)], x);
    }
    assert r.world.store == w.store.(quantity := Replenish(qty, invs, n)) by {
      ReplenishLowHead(qty, w1.store.quantity, invs, n);
    }
  }

  /** The restock trigger and the LowStock rule select the same inventories:
      the scan over all inventories requests a restock for an inventory iff
      LowStock holds of it, and always for at least 3 units. */
  lemma {:induction false} RestockPlanMatchesLowStock(s: Store, invs: seq<string>)
    requires forall i :: i in invs ==> i in s.inventories
    ensures forall i :: (exists p :: p in RestockPlan(s.quantity, invs) && p.RestockPayload? && p.inventory == i)
                        <==> i in invs && i in Rules.LowStock(s)
    ensures forall p :: p in RestockPlan(s.quantity, invs) ==>
              && p.RestockPayload? && p.inventory in s.quantity
              && p.qty == RestockTarget - s.quantity[p.inventory] && p.qty >= 3
    decreases |invs|
  {
    if |invs| > 0 {
      assert invs[0] in invs;
      forall i | i in invs[1..] ensures i in invs {
      }
      RestockPlanMatchesLowStock(s, invs[1..]);
      assert invs == [invs[0]] + invs[1..];
    }
  }

  /** One restock of `5 - q` lifts a low quantity to exactly the target 5,
      which is no longer low. */
  lemma ReplenishOnceReachesTarget(s: Store, invs: seq<string>, i: string)
    requires i in invs && i in s.inventories && i in Rules.LowStock(s)
    ensures Replenish(s.quantity, invs, 1)[i] == RestockTarget
    ensures i !in Rules.LowStock(s.(quantity := Replenish(s.quantity, invs, 1)))
  {
  }

  /** With a single employee subscribed to restock requests, an employee's
      step leaves every inventory that was low at exactly the target 5, which
      is no longer low. */
  lemma SingleEmployeeClearsLowStock(depth: nat, w: World, i: string)
    requires Healthy(w) && |Handlers(w.bus, RestockRequest)| == 1 && i in Rules.LowStock(w.store)
    ensures var r := EmployeeStep(depth, w);
            && r.Live? && i in r.world.store.quantity
            && r.world.store.quantity[i] == RestockTarget
            && i !in Rules.LowStock(r.world.store)
  {
    EmployeeScanOutcome(depth, w, w.store.inventories);
    ReplenishOnceReachesTarget(w.store, w.store.inventories, i);
  }

  // ---------------------------------------------------------------------
  // The customer's step
  // ---------------------------------------------------------------------

  /** The customer logs a purchase request for a catalogued book and quantity
      1, then publishes exactly that request, which the manager handles once;
      the customer writes no stock of its own. */
  lemma CustomerStepOutcome(depth: nat, w: World, id: string, pick: nat)
    requires |w.store.books| > 0
    requires Handlers(w.bus, PurchaseRequest) == [ManagerPurchase]
    ensures var book := w.store.books[pick % |w.store.books|];
            var m := PurchasePayload(id, book, 1);
            && book in w.store.books
            && CustomerStep(depth, w, id, pick)
               == HandlePurchase(depth, w.(events := w.events + [PurchaseRequestEvent(w.tick, id, book, 1)],
                                           traffic := w.traffic + [Message(PurchaseRequest, m)]), m)
  {
    var book := w.store.books[pick % |w.store.books|];
    PurchaseRequestHandledOnce(depth, w.(events := w.events + [PurchaseRequestEvent(w.tick, id, book, 1)]),
                               PurchasePayload(id, book, 1));
  }

  // ---------------------------------------------------------------------
  // Purchases within one tick against one inventory
  // ---------------------------------------------------------------------

  /** Purchase requests published one after another. */
  function PurchaseRound(depth: nat, s: Sim, ms: seq<Payload>): Sim
    decreases |ms|
  {
    if |ms| == 0 then s else PurchaseRound(depth, PublishCall(depth, s, PurchaseRequest, ms[0]), ms[1..])
  }

  /** Whether a purchase request draws on inventory `inv`. */
  predicate Targets(m: Payload, inv: string)
  {
    m.PurchasePayload? && InventoryName(m.book) == inv
  }

  /** The quantities requested from inventory `inv` by the purchase requests
      of `ms`, in request order; requests for other inventories are skipped. */
  function QuantitiesFor(ms: seq<Payload>, inv: string): seq<int>
    decreases |ms|
  {
    if |ms| == 0 then []
    else (if Targets(ms[0], inv) then [ms[0].qty] else []) + QuantitiesFor(ms[1..], inv)
  }

  /** A purchase request whose book is catalogued and resolves to an
      inventory that has a quantity: one `handle_purchase` dereferences
      without a check. */
  predicate Resolvable(s: Store, m: Payload)
  {
    && m.PurchasePayload? && m.book in s.books
    && InventoryName(m.book) in s.inventories && InventoryName(m.book) in s.quantity
  }

  /** `Serve` loses nothing: what remains is the starting stock minus what was
      granted; starting from non-negative stock the remainder stays
      non-negative, so the total granted never exceeds the starting stock. */
  lemma {:induction false} ServeAccounts(avail: int, qtys: seq<int>)
    ensures Serve(avail, qtys) == avail - Granted(avail, qtys)
    ensures avail >= 0 ==> Serve(avail, qtys) >= 0 && Granted(avail, qtys) <= avail
    decreases |qtys|
  {
    if |qtys| > 0 {
      ServeAccounts(if avail >= qtys[0] then avail - qtys[0] else avail, qtys[1..]);
    }
  }

  /** Two requests whose sum exceeds the stock, each of which the stock alone
      would cover: the first is granted, the second refused. */
  lemma OnlyFirstOfTwoServed(avail: int, a: int, b: int)
    requires 0 <= a <= avail && 0 <= b <= avail && avail < a + b
    ensures Granted(avail, [a, b]) == a
    ensures Serve(avail, [a, b]) == avail - a
  {
    assert [a, b][1..] == [b];
    assert [b][1..] == [];
    assert Granted(avail - a, [b]) == 0;
    assert Serve(avail - a, [b]) == avail - a;
  }

  /** Serving a request for `q` against `avail`. */
  lemma ServeStep(avail: int, q: int, rest: seq<int>)
    ensures Serve(avail, [q] + rest) == Serve(if avail >= q then avail - q else avail, rest)
  {
    assert ([q] + rest)[1..] == rest;
  }

  /** Purchase requests for any catalogued books, handled one after another,
      draw each inventory down exactly as `Serve` does over the requests for
      that inventory alone: requests for other books leave it untouched. */
  lemma {:induction false} PurchaseRoundFollowsServe(depth: nat, w: World, ms: seq<Payload>, inv: string)
    requires depth >= 1 && Wired(w.bus) && |w.store.customers| > 0
    requires inv in w.store.quantity
    requires forall k :: 0 <= k < |ms| ==> Resolvable(w.store, ms[k])
    ensures var r := PurchaseRound(depth, Live(w), ms);
            && r.Live?
            && r.world.store.quantity.Keys == w.store.quantity.Keys
            && r.world.store.quantity[inv] == Serve(w.store.quantity[inv], QuantitiesFor(ms, inv))
            && r.world.store.books == w.store.books && r.world.store.inventories == w.store.inventories
            && r.world.store.customers == w.store.customers && r.world.bus == w.bus
    decreases |ms|
  {
    if |ms| > 0 {
      var m := ms[0];
      var avail := w.store.quantity[inv];
      PurchaseStepFor(depth, w, m, inv);
      var w1 := PublishCall(depth, Live(w), PurchaseRequest, m).world;
      assert forall k :: 0 <= k < |ms[1..]| ==> ms[1..][k] == ms[k + 1];
      PurchaseRoundFollowsServe(depth, w1, ms[1..], inv);
      if Targets(m, inv) {
        assert QuantitiesFor(ms, inv) == [m.qty] + QuantitiesFor(ms[1..], inv);
        ServeStep(avail, m.qty, QuantitiesFor(ms[1..], inv));
      } else {
        assert QuantitiesFor(ms, inv) == QuantitiesFor(ms[1..], inv);
      }
    }
  }

  /** One resolvable purchase request, seen from inventory `inv`: the request
      is served from `inv` iff it targets `inv` and the stock covers it, and
      the catalogue, customers and bus stay as they were. */
  lemma PurchaseStepFor(depth: nat, w: World, m: Payload, inv: string)
    requires depth >= 1 && Wired(w.bus) && |w.store.customers| > 0
    requires inv in w.store.quantity && Resolvable(w.store, m)
    ensures var r := PublishCall(depth, Live(w), PurchaseRequest, m);
            var avail := w.store.quantity[inv];
            && r.Live?
            && r.world.store.quantity.Keys == w.store.quantity.Keys
            && r.world.store.quantity[inv]
               == (if Targets(m, inv) && avail >= m.qty then avail - m.qty else avail)
            && r.world.store.books == w.store.books && r.world.store.inventories == w.store.inventories
            && r.world.store.customers == w.store.customers && r.world.bus == w.bus
  {
    PurchaseRequestHandledOnce(depth, w, m);
    HandlePurchaseOutcome(depth, w.(traffic := w.traffic + [Message(PurchaseRequest, m)]), m);
  }

  /** No overdraw: across any round of purchase requests for catalogued
      books, each inventory with non-negative stock loses exactly what was
      granted from it, which is at most its starting stock. */
  lemma NoOverdrawInRound(depth: nat, w: World, ms: seq<Payload>, inv: string)
    requires depth >= 1 && Wired(w.bus) && |w.store.customers| > 0
    requires inv in w.store.quantity && w.store.quantity[inv] >= 0
    requires forall k :: 0 <= k < |ms| ==> Resolvable(w.store, ms[k])
    ensures var r := PurchaseRound(depth, Live(w), ms);
            var start := w.store.quantity[inv];
            && r.Live? && inv in r.world.store.quantity
            && start - r.world.store.quantity[inv] == Granted(start, QuantitiesFor(ms, inv))
            && Granted(start, QuantitiesFor(ms, inv)) <= start
            && r.world.store.quantity[inv] >= 0
  {
    PurchaseRoundFollowsServe(depth, w, ms, inv);
    ServeAccounts(w.store.quantity[inv], QuantitiesFor(ms, inv));
  }

  /** The books of the `purchase_ok` publishes in a record of calls, in call
      order. */
  function OkBooks(t: seq<Message>): seq<string>
    decreases |t|
  {
    if |t| == 0 then []
    else (if t[0].topic == PurchaseOk && t[0].payload.PurchasePayload? then [t[0].payload.book] else [])
         + OkBooks(t[1..])
  }

  /** The books of a run of orders, in order. */
  function OrderBooks(os: seq<Order>): (r: seq<string>)
    ensures |r| == |os|
    ensures forall k :: 0 <= k < |os| ==> r[k] == os[k].book
    decreases |os|
  {
    if |os| == 0 then [] else [os[0].book] + OrderBooks(os[1..])
  }

  lemma {:induction false} OkBooksAppend(a: seq<Message>, b: seq<Message>)
    ensures OkBooks(a + b) == OkBooks(a) + OkBooks(b)
    decreases |a|
  {
    if |a| > 0 {
      var head: seq<string> := if a[0].topic == PurchaseOk && a[0].payload.PurchasePayload? then [a[0].payload.book] else [];
      assert OkBooks(a) == head + OkBooks(a[1..]);
      assert (a + b)[0] == a[0];
      assert (a + b)[1..] == a[1..] + b;
      assert OkBooks(a + b) == head + OkBooks(a[1..] + b);
      OkBooksAppend(a[1..], b);
      assert (head + OkBooks(a[1..])) + OkBooks(b) == head + (OkBooks(a[1..]) + OkBooks(b));
    } else {
      assert a + b == b;
    }
  }

  /** One purchase request on the bookstore's bus, as seen by the ledger: the
      orders it appends carry exactly the books of the `purchase_ok` it
      publishes. */
  lemma PurchaseLedgerStep(depth: nat, w: World, m: Payload)
    requires depth >= 1 && Catalogued(w.store) && Wired(w.bus)
    requires m.PurchasePayload? && m.book in w.store.books
    ensures var r := PublishCall(depth, Live(w), PurchaseRequest, m);
            && r.Live? && Catalogued(r.world.store) && r.world.bus == w.bus
            && r.world.store.books == w.store.books
            && w.traffic <= r.world.traffic && w.store.orders <= r.world.store.orders
            && OrderBooks(r.world.store.orders[|w.store.orders|..]) == OkBooks(r.world.traffic[|w.traffic|..])
  {
    PurchaseRequestHandledOnce(depth, w, m);
    var req := Message(PurchaseRequest, m);
    var w0 := w.(traffic := w.traffic + [req]);
    HandlePurchaseOutcome(depth, w0, m);
    var r := PublishCall(depth, Live(w), PurchaseRequest, m);
    var inv := InventoryName(m.book);
    var tail := r.world.traffic[|w.traffic|..];
    var outcome := if w.store.quantity[inv] >= m.qty then PurchaseOk else PurchaseFail;
    assert tail == [req] + [Message(outcome, m)];
    OkBooksAppend([req], [Message(outcome, m)]);
    assert OkBooks([req]) == [] by {
      assert [req][1..] == [];
    }
    assert OkBooks([Message(outcome, m)]) == (if outcome == PurchaseOk then [m.book] else []) by {
      assert [Message(outcome, m)][1..] == [];
    }
    assert r.world.store.inventories == w.store.inventories && r.world.store.books == w.store.books;
    assert r.world.store.quantity.Keys == w.store.quantity.Keys;
  }

  /** The ledger matches the outcomes: across any round of purchase requests
      for catalogued books, the orders created are, one for one and in order,
      the `purchase_ok` publishes, with the same book. In particular their
      numbers agree. */
  lemma {:induction false} OrdersMatchPurchaseOk(depth: nat, w: World, ms: seq<Payload>)
    requires depth >= 1 && Catalogued(w.store) && Wired(w.bus)
    requires forall k :: 0 <= k < |ms| ==> ms[k].PurchasePayload? && ms[k].book in w.store.books
    ensures var r := PurchaseRound(depth, Live(w), ms);
            && r.Live? && Catalogued(r.world.store) && r.world.bus == w.bus
            && r.world.store.books == w.store.books
            && w.traffic <= r.world.traffic && w.store.orders <= r.world.store.orders
            && OrderBooks(r.world.store.orders[|w.store.orders|..]) == OkBooks(r.world.traffic[|w.traffic|..])
            && |r.world.store.orders| - |w.store.orders| == |OkBooks(r.world.traffic[|w.traffic|..])|
    decreases |ms|
  {
    var r := PurchaseRound(depth, Live(w), ms);
    if |ms| == 0 {
      assert r.world.store.orders[|w.store.orders|..] == [];
      assert r.world.traffic[|w.traffic|..] == [];
    } else {
      PurchaseLedgerStep(depth, w, ms[0]);
      var w1 := PublishCall(depth, Live(w), PurchaseRequest, ms[0]).world;
      assert forall k :: 0 <= k < |ms[1..]| ==> ms[1..][k] == ms[k + 1];
      OrdersMatchPurchaseOk(depth, w1, ms[1..]);
      assert r == PurchaseRound(depth, Live(w1), ms[1..]);
      SuffixSplits(w.store.orders, w1.store.orders, r.world.store.orders);
      SuffixSplits(w.traffic, w1.traffic, r.world.traffic);
      OkBooksAppend(w1.traffic[|w.traffic|..], r.world.traffic[|w1.traffic|..]);
      OrderBooksAppend(w1.store.orders[|w.store.orders|..], r.world.store.orders[|w1.store.orders|..]);
    }
  }

  /** What `c` adds to `a`, when it extends `b` which extends `a`, is what `b`
      added followed by what `c` added. */
  lemma SuffixSplits<T>(a: seq<T>, b: seq<T>, c: seq<T>)
    requires a <= b && b <= c
    ensures c[|a|..] == b[|a|..] + c[|b|..]
  {
    assert c[|a|..] == c[|a|..|b|] + c[|b|..];
  }

  lemma {:induction false} OrderBooksAppend(a: seq<Order>, b: seq<Order>)
    ensures OrderBooks(a + b) == OrderBooks(a) + OrderBooks(b)
  {
  }

  // ---------------------------------------------------------------------
  // Agent steps keep the bookstore healthy
  // ---------------------------------------------------------------------

  /** A customer's step from a healthy state neither crashes nor breaks
      health, touches neither the bus nor the tick, only appends to the
      records, and creates or destroys no individual. */
  lemma CustomerStepKeepsHealthy(depth: nat, w: World, id: string, pick: nat)
    requires depth >= 1 && Healthy(w)
    ensures var r := CustomerStep(depth, w, id, pick);
            && r.Live? && Healthy(r.world) && r.world.bus == w.bus && r.world.tick == w.tick
            && AppendOnly(w, r.world) && SameCatalogue(w, r.world)
  {
    CustomerStepOutcome(depth, w, id, pick);
    var book := w.store.books[pick % |w.store.books|];
    var m := PurchasePayload(id, book, 1);
    var w1 := w.(events := w.events + [PurchaseRequestEvent(w.tick, id, book, 1)],
                 traffic := w.traffic + [Message(PurchaseRequest, m)]);
    HandlePurchaseOutcome(depth, w1, m);
    var r := CustomerStep(depth, w, id, pick);
    var we := w.(events := w.events + [PurchaseRequestEvent(w.tick, id, book, 1)]);
    assert OrderBooks(r.world.store.orders) == OkBooks(r.world.traffic) by {
      PurchaseLedgerStep(depth, we, m);
      LedgerExtends(w.store.orders, r.world.store.orders, w.traffic, r.world.traffic);
    }
    HandlePurchaseAssertsOrders(depth, w1, m);
  }

  /** Extending a ledgered record by a step whose new orders match its new
      `purchase_ok` publishes keeps the whole record ledgered. */
  lemma LedgerExtends(os: seq<Order>, os': seq<Order>, t: seq<Message>, t': seq<Message>)
    requires os <= os' && t <= t'
    requires OrderBooks(os) == OkBooks(t)
    requires OrderBooks(os'[|os|..]) == OkBooks(t'[|t|..])
    ensures OrderBooks(os') == OkBooks(t')
  {
    assert os' == os + os'[|os|..];
    assert t' == t + t'[|t|..];
    OrderBooksAppend(os, os'[|os|..]);
    OkBooksAppend(t, t'[|t|..]);
  }

  /** Restock requests are never `purchase_ok` publishes. */
  lemma {:induction false} RestockMessagesNotOk(ps: seq<Payload>)
    ensures OkBooks(AsMessages(RestockRequest, ps)) == []
    decreases |ps|
  {
    if |ps| > 0 {
      var t := AsMessages(RestockRequest, ps);
      assert t[1..] == AsMessages(RestockRequest, ps[1..]);
      RestockMessagesNotOk(ps[1..]);
    }
  }

  /** An employee's step from a healthy state neither crashes nor breaks
      health, touches neither the bus nor the tick nor the ledger, only
      appends to the event log and publishes, and creates or destroys no
      individual. */
  lemma EmployeeStepKeepsHealthy(depth: nat, w: World)
    requires Healthy(w)
    ensures var r := EmployeeStep(depth, w);
            && r.Live? && Healthy(r.world) && r.world.bus == w.bus && r.world.tick == w.tick
            && r.world.store.orders == w.store.orders && r.world.store.purchases == w.store.purchases
            && AppendOnly(w, r.world) && SameCatalogue(w, r.world)
  {
    EmployeeScanOutcome(depth, w, w.store.inventories);
    var n := |Handlers(w.bus, RestockRequest)|;
    var qty := Replenish(w.store.quantity, w.store.inventories, n);
    forall i | i in qty ensures qty[i] >= 0 {
      var q := w.store.quantity[i];
      if i in w.store.inventories && q < RestockThreshold {
        assert n * (RestockTarget - q) >= 0;
      }
    }
    var r := EmployeeStep(depth, w);
    var sent := AsMessages(RestockRequest, RestockPlan(w.store.quantity, w.store.inventories));
    assert OkBooks(r.world.traffic) == OkBooks(w.traffic) by {
      OkBooksAppend(w.traffic, sent);
      RestockMessagesNotOk(RestockPlan(w.store.quantity, w.store.inventories));
    }
    assert r.world.store.orders == w.store.orders && r.world.store.purchases == w.store.purchases;
  }

  /** A customer's step keeps every quantity non-negative, whatever is
      subscribed to the bus. */
  lemma CustomerStepKeepsStockNonNegative(depth: nat, w: World, id: string, pick: nat)
    requires NonNegative(w.store)
    ensures StockOk(CustomerStep(depth, w, id, pick))
  {
    if |w.store.books| > 0 {
      var book := w.store.books[pick % |w.store.books|];
      var w1 := w.(events := w.events + [PurchaseRequestEvent(w.tick, id, book, CustomerQty)]);
      PublishKeepsStockNonNegative(depth, Live(w1), PurchaseRequest, PurchasePayload(id, book, CustomerQty));
    }
  }

  /** An employee's scan keeps every quantity non-negative, whatever is
      subscribed to the bus: it only ever publishes positive restocks. */
  lemma {:induction false} EmployeeScanKeepsStockNonNegative(depth: nat, s: Sim, invs: seq<string>)
    requires StockOk(s)
    ensures StockOk(EmployeeScan(depth, s, invs))
    decreases |invs|
  {
    if s.Live? && |invs| > 0 && invs[0] in s.world.store.quantity {
      var inv := invs[0];
      var q := s.world.store.quantity[inv];
      if q < RestockThreshold && RestockTarget - q > 0 {
        var m := RestockPayload(inv, RestockTarget - q);
        PublishKeepsStockNonNegative(depth, s, RestockRequest, m);
        EmployeeScanKeepsStockNonNegative(depth, PublishCall(depth, s, RestockRequest, m), invs[1..]);
      } else {
        EmployeeScanKeepsStockNonNegative(depth, s, invs[1..]);
      }
    }
  }
}
