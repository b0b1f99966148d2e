/** The scheduler (app/model.py): setup of the bus, the ontology and the agent
    roster, one tick, and a run of ticks.

    `RandomActivation` shuffles the roster each tick; the model takes the
    shuffled order as a parameter that must be a permutation of the roster.
    The random book choice of each customer is likewise a parameter.
    app/model.py never defines `events` or `step_idx`, which app/agents.py
    uses at lines 17 and 37; the model keeps both in the world, and a tick
    advances the counter once after every agent has acted.
 */
module Bookstore {
  import opened Messaging
  import opened Ontology
  import opened Agents
  import Rules

  datatype Agent = CustomerAgent(id: string) | EmployeeAgent(id: string)

  /** A `BookstoreModel`: the simulation, the scheduled agents in the order
      they were added, and the number of ticks `run` performs. */
  datatype Model = Model(sim: Sim, roster: seq<Agent>, steps: nat)

  /** One tick's nondeterminism: the activation order and, position by
      position, the random book choice of the agent activated there. */
  datatype Tick = Tick(order: seq<Agent>, picks: seq<nat>)

  function Digit(d: nat): char
    requires d < 10
  {
    "0123456789"[d]
  }

  /** `str(n)` for a natural number. */
  function Decimal(n: nat): string
    decreases n
  {
    if n < 10 then [Digit(n)] else Decimal(n / 10) + [Digit(n % 10)]
  }

  /** The unique id of the customer agent created at loop index `i`. */
  function CustomerId(i: nat): string
  {
    "Cust_" + Decimal(i + 1)
  }

  /** The unique id of the employee agent created at loop index `j`. */
  function EmployeeId(j: nat): string
  {
    "Emp_" + Decimal(j + 1)
  }

  /** The number of iterations of `range(n)`. */
  function Count(n: int): nat
  {
    if n < 0 then 0 else n
  }

  /** The seeded store resolves each of its two books to its `Inv_` twin,
      lists distinct inventories with a quantity each, has customers, and
      starts with `Inv_1984` alone below the LowStock threshold. */
  lemma SeedIsCatalogued()
    ensures InventoryName("Book_HP1") == "Inv_HP1" && InventoryName("Book_1984") == "Inv_1984"
    ensures Catalogued(Seed()) && NonNegative(Seed())
    ensures Rules.LowStock(Seed()) == {"Inv_1984"}
  {
    assert !Occurs("Book_", "HP1");
    assert !Occurs("Book_", "1984");
    BookResolvesToInventory("HP1");
    BookResolvesToInventory("1984");
    assert "Book_" + "HP1" == "Book_HP1";
    assert "Book_" + "1984" == "Book_1984";
    assert "Inv_" + "HP1" == "Inv_HP1";
    assert "Inv_" + "1984" == "Inv_1984";
  }

  /** `BookstoreModel.__init__`: seed the ontology, register the inventory
      manager on purchase requests, then add customers `Cust_1..Cust_n` and
      employees `Emp_1..Emp_m` to the schedule, each employee subscribing to
      restock requests as it is created. */
  method Setup(nCustomers: int, nEmployees: int, steps: int) returns (m: Model)
    ensures m.sim.Live?
    ensures m.sim.world.store == Seed() && m.sim.world.tick == 0
    ensures m.sim.world.events == [] && m.sim.world.traffic == []
    ensures Handlers(m.sim.world.bus, PurchaseRequest) == [ManagerPurchase]
    ensures Handlers(m.sim.world.bus, PurchaseOk) == [] && Handlers(m.sim.world.bus, PurchaseFail) == []
    ensures |Handlers(m.sim.world.bus, RestockRequest)| == Count(nEmployees)
    ensures forall k :: 0 <= k < Count(nEmployees) ==>
              Handlers(m.sim.world.bus, RestockRequest)[k] == EmployeeRestock(EmployeeId(k))
    ensures |m.roster| == Count(nCustomers) + Count(nEmployees)
    ensures forall k :: 0 <= k < Count(nCustomers) ==> m.roster[k] == CustomerAgent(CustomerId(k))
    ensures forall k :: Count(nCustomers) <= k < |m.roster| ==>
              m.roster[k] == EmployeeAgent(EmployeeId(k - Count(nCustomers)))
    ensures m.steps == Count(steps)
    ensures Healthy(m.sim.world)
  {
    var bus: Bus<Handler> := Subscribe(EmptyBus(), PurchaseRequest, ManagerPurchase);
    var roster: seq<Agent> := [];
    var i := 0;
    while i < nCustomers
      invariant 0 <= i <= Count(nCustomers)
      invariant |roster| == i
      invariant forall k :: 0 <= k < i ==> roster[k] == CustomerAgent(CustomerId(k))
    {
      roster := roster + [CustomerAgent(CustomerId(i))];
      i := i + 1;
    }
    var j := 0;
    while j < nEmployees
      invariant 0 <= j <= Count(nEmployees)
      invariant |roster| == Count(nCustomers) + j
      invariant forall k :: 0 <= k < Count(nCustomers) ==> roster[k] == CustomerAgent(CustomerId(k))
      invariant forall k :: Count(nCustomers) <= k < |roster| ==>
                  roster[k] == EmployeeAgent(EmployeeId(k - Count(nCustomers)))
      invariant Handlers(bus, PurchaseRequest) == [ManagerPurchase]
      invariant Handlers(bus, PurchaseOk) == [] && Handlers(bus, PurchaseFail) == []
      invariant |Handlers(bus, RestockRequest)| == j
      invariant forall k :: 0 <= k < j ==> Handlers(bus, RestockRequest)[k] == EmployeeRestock(EmployeeId(k))
    {
      bus := Subscribe(bus, RestockRequest, EmployeeRestock(EmployeeId(j)));
      roster := roster + [EmployeeAgent(EmployeeId(j))];
      j := j + 1;
    }
    SeedIsCatalogued();
    m := Model(Live(World(Seed(), bus, [], [], 0)), roster, Count(steps));
  }

  /** One agent's `step`. */
  function Act(s: Sim, a: Agent, pick: nat): Sim
  {
    if s.Crashed? then s
    else
      match a
      case CustomerAgent(id) => CustomerStep(NestingBudget, s.world, id, pick)
      case EmployeeAgent(_) => EmployeeStep(NestingBudget, s.world)
  }

  /** Steps the agents of `order`, first to last. */
  function Activate(s: Sim, order: seq<Agent>, picks: seq<nat>): Sim
    requires |picks| == |order|
    decreases |order|
  {
    if |order| == 0 then s else Activate(Act(s, order[0], picks[0]), order[1..], picks[1..])
  }

  /** `BookstoreModel.step`: every scheduled agent acts once, in the shuffled
      order, then the tick counter advances. */
  function Step(m: Model, order: seq<Agent>, picks: seq<nat>): (r: Model)
    requires multiset(order) == multiset(m.roster) && |picks| == |order|
    ensures r.roster == m.roster && r.steps == m.steps
  {
    var s := Activate(m.sim, order, picks);
    m.(sim := if s.Live? then Live(s.world.(tick := s.world.tick + 1)) else s)
  }

  /** Every tick of `plan` shuffles exactly the agents of `roster`. */
  predicate Schedulable(roster: seq<Agent>, plan: seq<Tick>)
  {
    forall t :: 0 <= t < |plan| ==> multiset(plan[t].order) == multiset(roster) && |plan[t].picks| == |plan[t].order|
  }

  /** `n` consecutive steps, tick `t` using `plan[t]`. */
  function RunFor(m: Model, n: nat, plan: seq<Tick>): (r: Model)
    requires n <= |plan| && Schedulable(m.roster, plan)
    ensures r.roster == m.roster && r.steps == m.steps
    decreases n
  {
    if n == 0 then m
    else RunFor(Step(m, plan[0].order, plan[0].picks), n - 1, plan[1..])
  }

  /** `BookstoreModel.run`: `steps` calls of `step`. */
  function Run(m: Model, plan: seq<Tick>): Model
    requires |plan| == m.steps && Schedulable(m.roster, plan)
  {
    RunFor(m, m.steps, plan)
  }

  /** Activating any sequence of agents from a healthy state never crashes,
      keeps the state healthy, leaves the bus, the tick and the individuals
      alone, and only extends the records. */
  lemma {:induction false} ActivateKeepsHealthy(w: World, order: seq<Agent>, picks: seq<nat>)
    requires Healthy(w) && |picks| == |order|
    ensures var r := Activate(Live(w), order, picks);
            && r.Live? && Healthy(r.world) && r.world.bus == w.bus && r.world.tick == w.tick
            && AppendOnly(w, r.world) && SameCatalogue(w, r.world)
    decreases |order|
  {
    if |order| > 0 {
      var s1 := Act(Live(w), order[0], picks[0]);
      match order[0] {
        case CustomerAgent(id) => CustomerStepKeepsHealthy(NestingBudget, w, id, picks[0]);
        case EmployeeAgent(_) => EmployeeStepKeepsHealthy(NestingBudget, w);
      }
      ActivateKeepsHealthy(s1.world, order[1..], picks[1..]);
      AppendOnlyTransitive(w, s1.world, Activate(Live(w), order, picks).world);
    }
  }

  /** A step from a healthy state, under every activation order, never
      crashes, stays healthy (so every quantity stays non-negative), keeps
      the subscriptions and every individual, only extends the orders, events
      and publishes, and advances the tick by one. */
  lemma StepKeepsHealthy(m: Model, order: seq<Agent>, picks: seq<nat>)
    requires m.sim.Live? && Healthy(m.sim.world)
    requires multiset(order) == multiset(m.roster) && |picks| == |order|
    ensures var r := Step(m, order, picks);
            && r.sim.Live? && Healthy(r.sim.world)
            && r.sim.world.bus == m.sim.world.bus
            && r.sim.world.tick == m.sim.world.tick + 1
            && AppendOnly(m.sim.world, r.sim.world) && SameCatalogue(m.sim.world, r.sim.world)
  {
    ActivateKeepsHealthy(m.sim.world, order, picks);
  }

  /** Activating any sequence of agents keeps every quantity non-negative,
      whatever is subscribed to the bus. */
  lemma {:induction false} ActivateKeepsStockNonNegative(s: Sim, order: seq<Agent>, picks: seq<nat>)
    requires StockOk(s) && |picks| == |order|
    ensures StockOk(Activate(s, order, picks))
    decreases |order|
  {
    if |order| > 0 {
      if s.Live? {
        match order[0] {
          case CustomerAgent(id) => CustomerStepKeepsStockNonNegative(NestingBudget, s.world, id, picks[0]);
          case EmployeeAgent(_) => EmployeeScanKeepsStockNonNegative(NestingBudget, s, s.world.store.inventories);
        }
      }
      ActivateKeepsStockNonNegative(Act(s, order[0], picks[0]), order[1..], picks[1..]);
    }
  }

  /** Stock is non-negative after a step under every activation order, for
      any subscriptions, as long as it was before. */
  lemma StepKeepsStockNonNegative(m: Model, order: seq<Agent>, picks: seq<nat>)
    requires StockOk(m.sim)
    requires multiset(order) == multiset(m.roster) && |picks| == |order|
    ensures StockOk(Step(m, order, picks).sim)
  {
    ActivateKeepsStockNonNegative(m.sim, order, picks);
  }

  /** `n` ticks from a healthy state never crash, stay healthy, keep the
      subscriptions and every individual, only extend the records, and
      advance the tick by `n`. */
  lemma {:induction false} RunForKeepsHealthy(m: Model, n: nat, plan: seq<Tick>)
    requires m.sim.Live? && Healthy(m.sim.world)
    requires n <= |plan| && Schedulable(m.roster, plan)
    ensures var r := RunFor(m, n, plan);
            && r.sim.Live? && Healthy(r.sim.world)
            && r.sim.world.bus == m.sim.world.bus
            && r.sim.world.tick == m.sim.world.tick + n
            && AppendOnly(m.sim.world, r.sim.world) && SameCatalogue(m.sim.world, r.sim.world)
    decreases n
  {
    if n > 0 {
      StepKeepsHealthy(m, plan[0].order, plan[0].picks);
      var m1 := Step(m, plan[0].order, plan[0].picks);
      assert Schedulable(m1.roster, plan[1..]) by {
        forall t | 0 <= t < |plan[1..]|
          ensures multiset(plan[1..][t].order) == multiset(m1.roster) && |plan[1..][t].picks| == |plan[1..][t].order|
        {
          assert plan[1..][t] == plan[t + 1];
        }
      }
      RunForKeepsHealthy(m1, n - 1, plan[1..]);
      AppendOnlyTransitive(m.sim.world, m1.sim.world, RunFor(m, n, plan).sim.world);
    }
  }

  /** A run from a healthy state performs exactly `steps` ticks, never
      crashes, and ends healthy with the same subscriptions and individuals,
      its orders, events and publishes only extended. */
  lemma RunKeepsHealthy(m: Model, plan: seq<Tick>)
    requires m.sim.Live? && Healthy(m.sim.world)
    requires |plan| == m.steps && Schedulable(m.roster, plan)
    ensures var r := Run(m, plan);
            && r.sim.Live? && Healthy(r.sim.world)
            && r.sim.world.bus == m.sim.world.bus
            && r.sim.world.tick == m.sim.world.tick + m.steps
            && AppendOnly(m.sim.world, r.sim.world) && SameCatalogue(m.sim.world, r.sim.world)
  {
    RunForKeepsHealthy(m, m.steps, plan);
  }
}
