/** The two rules of app/rules.py, as functions of the current store.

    Nothing in the simulation runs a reasoner, so neither rule's conclusion is
    ever stored: both are recomputed from the store each time they are read.
 */
module Rules {
  import opened Ontology

  /** The literal of the LowStock rule, `swrlb:lessThan(?q, 3)`. */
  const LowStockThreshold: int := 3

  /** `Inventory(?i), AvailableQuantity(?i, ?q), q < 3 -> LowStock(?i)`. */
  function LowStock(s: Store): set<string>
  {
    set i | i in s.inventories && i in s.quantity && s.quantity[i] < LowStockThreshold
  }

  /** The comparison is strict: 2 is low and 3 is not. */
  lemma LowStockIsStrict(s: Store, i: string)
    requires i in s.inventories && i in s.quantity
    ensures s.quantity[i] == LowStockThreshold - 1 ==> i in LowStock(s)
    ensures s.quantity[i] == LowStockThreshold ==> i !in LowStock(s)
  {
  }

  /** LowStock reads nothing but the inventories and their quantities: two
      stores that agree on those agree on LowStock, whatever else differs. */
  lemma LowStockDependsOnlyOnQuantities(s: Store, t: Store)
    requires forall i :: i in s.inventories <==> i in t.inventories
    requires s.quantity == t.quantity
    ensures LowStock(s) == LowStock(t)
  {
  }

  /** `Order(?o), HasCustomer(?o, ?c), HasBook(?o, ?b) -> Purchases(?c, ?b)`:
      the pairs the rule derives from the order ledger. */
  function DerivedPurchases(s: Store): set<(string, string)>
  {
    set o | o in s.orders :: (o.customer, o.book)
  }

  /** The Purchases relation as asserted directly on the customers. */
  predicate Asserted(s: Store, c: string, b: string)
  {
    b in PurchasesOf(s, c)
  }

  /** Every order's pair is already asserted as a purchase, so the rule would
      derive nothing new. */
  predicate OrdersAsserted(s: Store)
  {
    forall o :: o in s.orders ==> Asserted(s, o.customer, o.book)
  }

  /** When every order is already asserted, the rule's conclusion is contained
      in the asserted relation. */
  lemma DerivedPurchasesAlreadyAsserted(s: Store)
    requires OrdersAsserted(s)
    ensures forall c, b :: (c, b) in DerivedPurchases(s) ==> Asserted(s, c, b)
  {
    forall c, b | (c, b) in DerivedPurchases(s) ensures Asserted(s, c, b) {
      assert Order(c, b) in s.orders;
    }
  }
}
