/** The two worked examples of the alert query: one product below its
    threshold, one supplier, and one order of 30 units placed today in the
    company's only warehouse, queried with the default 30-day window. */
module Scenarios {
  import opened Wrappers
  import opened Tables
  import opened Sales
  import opened Join
  import opened AlertRows
  import opened LowStock

  /** The example store; `status` is the status of its only order. */
  function ScenarioStore(status: string): Db {
    Db([Company(1, "C")],
       [Warehouse(10, 1, "W")],
       [Product(100, "P1", "Widget", None, Some(10))],
       [Inventory(1, 100, 10, 5)],
       [Supplier(7, "S", "s@example.com")],
       [SupplierProduct(100, 7)],
       [Order(50, 10, 0, status)],
       [OrderItem(50, 100, 30)])
  }

  /** With the order completed, the product is reported once, with its own
      threshold 10 and 5 days until stockout: 30 sold over 30 days is one a
      day, and 5 are in stock. */
  lemma CompletedSaleScenario()
    ensures LowStockAlerts(ScenarioStore("completed"), 1, Absent, 0)
         == Success(AlertReport([Alert(100, "Widget", "P1", 10, "W", 5, 10, Some(5),
                                       SupplierContact(7, "S", "s@example.com"))], 1))
  {
    var db := ScenarioStore("completed");
    var c := ScenarioCandidate();
    ScenarioReport(db, c);
    DefaultWindowQuery(db);
    ScenarioAlert(c);
  }

  /** The example company exists, so the query with no window given
      reports the rows for the 30 days up to day 0. */
  lemma DefaultWindowQuery(db: Db)
    requires db.companies == [Company(1, "C")]
    ensures LowStockAlerts(db, 1, Absent, 0) == Success(Report(db, 1, 30, -30))
  {
    assert db.companies[0] in db.companies;
    assert RecentDays(Absent) == Success(30) && Cutoff(0, 30) == -30;
  }

  /** The one tuple the example's join yields. */
  function ScenarioCandidate(): Candidate {
    Candidate(Inventory(1, 100, 10, 5), Product(100, "P1", "Widget", None, Some(10)), Warehouse(10, 1, "W"),
              SupplierProduct(100, 7), Supplier(7, "S", "s@example.com"), 30)
  }

  lemma ScenarioAlert(c: Candidate)
    requires c == ScenarioCandidate()
    ensures ToAlert(c, 30) == Alert(100, "Widget", "P1", 10, "W", 5, 10, Some(5), SupplierContact(7, "S", "s@example.com"))
  {
    assert EffectiveThreshold(c.product) == 10;
    assert DaysUntilStockout(5, 30, 30) == Some(5);
  }

  lemma ScenarioReport(db: Db, c: Candidate)
    requires db == ScenarioStore("completed")
    requires c == ScenarioCandidate()
    ensures Report(db, 1, 30, -30) == AlertReport([ToAlert(c, 30)], 1)
  {
    ScenarioSales(db, -30);
    ScenarioJoin(db, c);
    var alerts := AlertsOf([c], 30);
    assert alerts == [ToAlert(c, 30)];
    assert SortByStock(alerts) == alerts by {
      assert alerts[1..] == [];
      assert SortByStock(alerts[1..]) == [];
    }
  }

  lemma ScenarioSales(db: Db, cutoff: int)
    requires db == ScenarioStore("completed") && cutoff == -30
    ensures CompanyWarehouseIds(db.warehouses, 1) == [10]
    ensures RecentSales(db, [10], cutoff) == map[100 := 30]
  {
    assert db.warehouses[1..] == [];
    assert db.orderItems[..0] == [] && db.orders[..0] == [];
    assert Qualifies(db.orders[0], [10], cutoff);
    assert ItemSales(db.orders, db.orderItems[0], [10], cutoff) == [Sale(100, 30)];
    assert SaleRows(db.orderItems[..0], db.orders, [10], cutoff) == [];
    var rows := SaleRows(db.orderItems, db.orders, [10], cutoff);
    assert rows == [Sale(100, 30)];
    assert rows[..0] == [];
  }

  lemma ScenarioJoin(db: Db, c: Candidate)
    requires db == ScenarioStore("completed")
    requires c == ScenarioCandidate()
    ensures Candidates(CatalogOf(db), Scope([10], map[100 := 30])) == [c]
  {
    var cat := CatalogOf(db);
    var sc := Scope([10], map[100 := 30]);
    var inv := db.inventory[0];
    var p := db.products[0];
    var w := db.warehouses[0];
    var l := db.supplierProducts[0];
    assert cat.suppliers[1..] == [] && cat.supplierProducts[1..] == [];
    assert cat.warehouses[1..] == [] && cat.products[1..] == [] && cat.inventory[1..] == [];
    assert JoinSuppliers(cat.suppliers, inv, p, w, l, 30) == [c];
    assert JoinLinks(cat, cat.supplierProducts, inv, p, w, 30) == [c];
    assert JoinWarehouses(cat, cat.warehouses, inv, p, 30) == [c];
    assert ProductPasses(sc, inv, p);
    assert JoinProducts(cat, sc, cat.products, inv) == [c];
    assert InventoryRows(cat, sc, inv) == [c];
  }

  /** With the order still pending nothing counts as sold, so the product is
      not reported at all. */
  lemma PendingSaleScenario()
    ensures LowStockAlerts(ScenarioStore("pending"), 1, Absent, 0) == Success(AlertReport([], 0))
  {
    var db := ScenarioStore("pending");
    var cutoff := Cutoff(0, 30);
    var ids := CompanyWarehouseIds(db.warehouses, 1);
    assert ids == [10];
    assert db.orderItems[..0] == [] && db.orders[..0] == [];
    assert !Qualifies(db.orders[0], ids, cutoff);
    assert ItemSales(db.orders, db.orderItems[0], ids, cutoff) == [];
    assert SaleRows(db.orderItems[..0], db.orders, ids, cutoff) == [];
    var rows := SaleRows(db.orderItems, db.orders, ids, cutoff);
    assert rows == [];
    var sc := AlertScope(db, 1, cutoff);
    assert Candidates(CatalogOf(db), sc) == [];
  }

  /** The example store with its order holding two identical lines of 5
      units each. */
  function DuplicateLineStore(): Db {
    ScenarioStore("completed").(orderItems := [OrderItem(50, 100, 5), OrderItem(50, 100, 5)])
  }

  /** Two identical lines of one completed order are both summed: the
      product's recent total is 10, not 5. */
  lemma DuplicateLinesScenario(db: Db)
    requires db == DuplicateLineStore()
    ensures RecentSales(db, [10], -30) == map[100 := 10]
  {
    var m := RecentSales(db, [10], -30);
    forall pid | pid in m
      ensures pid == 100
    {
      DuplicateLinesKeys(db, pid);
    }
    DuplicateLinesKeys(db, 100);
    DuplicateLinesTotal(db);
    RecentSalesTotals(db, [10], -30, 100);
    MapOfOneKey(m, 100, 10);
  }

  /** A map whose only key is `k`, mapped to `v`, is the one-entry map. */
  lemma MapOfOneKey(m: map<int, int>, k: int, v: int)
    requires k in m && m[k] == v
    requires forall j :: j in m ==> j == k
    ensures m == map[k := v]
  {
    forall j
      ensures j in m <==> j in map[k := v]
    {
    }
    assert forall j :: j in m ==> m[j] == map[k := v][j];
  }

  lemma DuplicateLinesKeys(db: Db, pid: int)
    requires db == DuplicateLineStore()
    ensures pid in RecentSales(db, [10], -30) <==> pid == 100
  {
    assert Qualifies(db.orders[0], [10], -30);
    assert db.orderItems[0] in db.orderItems && db.orders[0] in db.orders;
    RecentSalesKeys(db, [10], -30, pid);
  }

  lemma DuplicateLinesTotal(db: Db)
    requires db == DuplicateLineStore()
    ensures ItemTotal(db.orderItems, db.orders, [10], -30, 100) == 10
  {
    assert Qualifies(db.orders[0], [10], -30);
    assert QualifyingWithId(db.orders, 50, [10], -30) == 1;
    assert db.orderItems[..1] == [OrderItem(50, 100, 5)];
  }
}
