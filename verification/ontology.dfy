/** The entity store (app/ontology.py): the individuals and property values
    of the bookstore ontology, held as plain sequences and maps.

    Entities are named by strings. Sequences keep the creation order that
    `instances()` enumerates; `quantity` holds the functional data property
    `AvailableQuantity`, so a map gives each inventory at most one value.
 */
module Ontology {

  /** An Order individual with its `HasCustomer` and `HasBook` links. */
  datatype Order = Order(customer: string, book: string)

  datatype Store = Store(
    books: seq<string>,                 // Book individuals, in creation order
    inventories: seq<string>,           // Inventory individuals, in creation order
    quantity: map<string, int>,         // AvailableQuantity (functional)
    customers: seq<string>,             // Customer individuals, in creation order
    employees: seq<string>,             // Employee individuals, in creation order
    worksAt: map<string, seq<string>>,  // WorksAt: Employee -> Inventories
    purchases: map<string, seq<string>>,// Purchases: Customer -> Books
    orders: seq<Order>)                 // Order individuals, append-only

  /** `getattr(cust, "Purchases", [])`: an absent value reads as empty. */
  function PurchasesOf(s: Store, c: string): seq<string>
  {
    if c in s.purchases then s.purchases[c] else []
  }

  /** The state `seed_data` creates in a freshly built ontology. */
  function Seed(): Store
  {
    Store(
      ["Book_HP1", "Book_1984"],
      ["Inv_HP1", "Inv_1984"],
      map["Inv_HP1" := 5, "Inv_1984" := 2],
      ["Cust_Maya", "Cust_Leo"],
      ["Emp_Alice", "Emp_Bob"],
      map["Emp_Alice" := ["Inv_HP1"], "Emp_Bob" := ["Inv_1984"]],
      map[],
      [])
  }

  /** Every sequence of the seed lists distinct individuals, every inventory
      carries exactly one quantity, and the seed has no orders or purchases. */
  lemma SeedShape()
    ensures Seed().books == ["Book_HP1", "Book_1984"]
    ensures Seed().inventories == ["Inv_HP1", "Inv_1984"]
    ensures Seed().quantity.Keys == {"Inv_HP1", "Inv_1984"}
    ensures Seed().quantity["Inv_HP1"] == 5 && Seed().quantity["Inv_1984"] == 2
    ensures forall i :: i in Seed().quantity ==> Seed().quantity[i] >= 0
    ensures |Seed().customers| == 2 && |Seed().employees| == 2
    ensures Seed().books[0] != Seed().books[1] && Seed().inventories[0] != Seed().inventories[1]
    ensures Seed().customers[0] != Seed().customers[1] && Seed().employees[0] != Seed().employees[1]
    ensures Seed().orders == [] && forall c :: PurchasesOf(Seed(), c) == []
  {
  }

  /** WorksAt gives each seeded employee one inventory; the assignments are
      disjoint and together cover every seeded inventory. */
  lemma SeedWorksAtPartitions()
    ensures Seed().worksAt.Keys == set e | e in Seed().employees
    ensures forall e1, e2 :: e1 in Seed().worksAt && e2 in Seed().worksAt && e1 != e2
              ==> forall i :: i in Seed().worksAt[e1] ==> i !in Seed().worksAt[e2]
    ensures forall i :: i in Seed().inventories
              <==> exists e :: e in Seed().worksAt && i in Seed().worksAt[e]
  {
    var s := Seed();
    assert "Inv_HP1" in s.worksAt["Emp_Alice"];
    assert "Inv_1984" in s.worksAt["Emp_Bob"];
  }
}
