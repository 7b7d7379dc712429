/** The low-stock alert query for one company: input checks, the company's
    warehouses, the recent-sales aggregate, the filtered join, the ordering
    by current stock and the row count. */
module LowStock {
  import opened Wrappers
  import opened Tables
  import opened Sales
  import opened Join
  import opened AlertRows
  import opened JoinCardinality

  /** Lookback window used when the request names none. */
  const DefaultRecentDays: int := 30

  datatype AlertError = CompanyNotFound | InvalidRecentDays | NegativeRecentDays

  /** The HTTP status each refusal is reported with. */
  function ErrorStatus(e: AlertError): int {
    match e
    case CompanyNotFound => 404
    case InvalidRecentDays => 400
    case NegativeRecentDays => 400
  }

  datatype AlertReport = AlertReport(alerts: seq<Alert>, totalAlerts: int)

  predicate CompanyExists(cs: seq<Company>, id: int) {
    exists c :: c in cs && c.id == id
  }

  /** Ids of the company's warehouses, in storage order. */
  function CompanyWarehouseIds(ws: seq<Warehouse>, companyId: int): (ids: seq<int>)
    ensures forall id :: id in ids <==> exists w :: w in ws && w.companyId == companyId && w.id == id
  {
    if |ws| == 0 then []
    else (if ws[0].companyId == companyId then [ws[0].id] else []) + CompanyWarehouseIds(ws[1..], companyId)
  }

  /** The lookback window the request asks for, or the refusal. */
  function RecentDays(arg: Arg<int>): (r: Result<int, AlertError>)
    ensures r.Success? <==> arg.Absent? || (arg.Given? && arg.value >= 0)
    ensures r.Success? ==> r.value >= 0
    ensures r.Success? && arg.Absent? ==> r.value == 30
    ensures r.Success? && arg.Given? ==> r.value == arg.value
    ensures r == Failure(InvalidRecentDays) <==> arg.Unparseable?
    ensures r == Failure(NegativeRecentDays) <==> arg.Given? && arg.value < 0
  {
    match arg
    case Absent => Success(DefaultRecentDays)
    case Unparseable => Failure(InvalidRecentDays)
    case Given(d) => if d < 0 then Failure(NegativeRecentDays) else Success(d)
  }

  /** Total sold per product over the orders that qualify for the given
      warehouses and cutoff day. */
  function RecentSales(db: Db, warehouseIds: seq<int>, cutoff: int): map<int, int> {
    GroupSum(SaleRows(db.orderItems, db.orders, warehouseIds, cutoff))
  }

  /** A product is a key of the recent-sales aggregate exactly when one of
      its order items joins a qualifying order. */
  lemma RecentSalesKeys(db: Db, warehouseIds: seq<int>, cutoff: int, pid: int)
    ensures pid in RecentSales(db, warehouseIds, cutoff) <==>
      exists item, o :: && item in db.orderItems && o in db.orders && item.orderId == o.id
                        && Qualifies(o, warehouseIds, cutoff) && item.productId == pid
  {
    var rows := SaleRows(db.orderItems, db.orders, warehouseIds, cutoff);
    if pid in RecentSales(db, warehouseIds, cutoff) {
      var sale :| sale in rows && sale.productId == pid;
      var item, o :| && item in db.orderItems && o in db.orders && item.orderId == o.id
                     && Qualifies(o, warehouseIds, cutoff) && sale == Sale(item.productId, item.quantity);
    }
    if exists item, o :: && item in db.orderItems && o in db.orders && item.orderId == o.id
                         && Qualifies(o, warehouseIds, cutoff) && item.productId == pid {
      var item, o :| && item in db.orderItems && o in db.orders && item.orderId == o.id
                     && Qualifies(o, warehouseIds, cutoff) && item.productId == pid;
      assert Sale(item.productId, item.quantity) in rows;
    }
  }

  /** The recent-sales total of a product is the item-by-item reference
      total over the qualifying orders. */
  lemma RecentSalesTotals(db: Db, warehouseIds: seq<int>, cutoff: int, pid: int)
    requires pid in RecentSales(db, warehouseIds, cutoff)
    ensures RecentSales(db, warehouseIds, cutoff)[pid] == ItemTotal(db.orderItems, db.orders, warehouseIds, cutoff, pid)
  {
    SaleRowsTotal(db.orderItems, db.orders, warehouseIds, cutoff, pid);
  }

  /** What the join is restricted by for a company, window and day. */
  function AlertScope(db: Db, companyId: int, cutoff: int): Scope {
    var ids := CompanyWarehouseIds(db.warehouses, companyId);
    Scope(ids, RecentSales(db, ids, cutoff))
  }

  /** One alert row per joined tuple, in the tuples' order. */
  function AlertsOf(cs: seq<Candidate>, days: int): (r: seq<Alert>)
    ensures |r| == |cs|
    ensures forall a :: a in r <==> exists c :: c in cs && a == ToAlert(c, days)
  {
    if |cs| == 0 then [] else [ToAlert(cs[0], days)] + AlertsOf(cs[1..], days)
  }

  /** The rows reported for a lookback window of `days` days whose first
      day is `cutoff`: the filtered join, one row per joined tuple, ordered
      by current stock, and their count. */
  function Report(db: Db, companyId: int, days: int, cutoff: int): (r: AlertReport)
    ensures r.totalAlerts == |r.alerts| && SortedByStock(r.alerts)
  {
    var sc := AlertScope(db, companyId, cutoff);
    if sc.warehouseIds == [] then AlertReport([], 0)
    else
      var alerts := SortByStock(AlertsOf(Candidates(CatalogOf(db), sc), days));
      AlertReport(alerts, |alerts|)
  }

  /** First day of a window of `days` days ending on day `now`. It has no
      contract: it only gives the cutoff a name, so that the lemmas can be
      stated over the cutoff day. */
  function Cutoff(now: int, days: int): int {
    now - days
  }

  /** The query. `now` is the current day number; the window starts
      `days` days before it. */
  function LowStockAlerts(db: Db, companyId: int, recentDays: Arg<int>, now: int): (r: Result<AlertReport, AlertError>)
    ensures r == Failure(CompanyNotFound) <==> !CompanyExists(db.companies, companyId)
    ensures CompanyExists(db.companies, companyId) ==>
      (r == Failure(InvalidRecentDays) <==> recentDays.Unparseable?)
    ensures CompanyExists(db.companies, companyId) ==>
      (r == Failure(NegativeRecentDays) <==> recentDays.Given? && recentDays.value < 0)
    ensures r.Success? ==> r.value.totalAlerts == |r.value.alerts| && SortedByStock(r.value.alerts)
  {
    if !CompanyExists(db.companies, companyId) then Failure(CompanyNotFound)
    else
      match RecentDays(recentDays)
      case Failure(e) => Failure(e)
      case Success(days) => Success(Report(db, companyId, days, Cutoff(now, days)))
  }

  /** A successful query reports `Report` for the requested window. */
  lemma QueryReport(db: Db, companyId: int, recentDays: Arg<int>, now: int, days: int, cutoff: int)
    requires LowStockAlerts(db, companyId, recentDays, now).Success?
    requires days == RecentDays(recentDays).value && cutoff == Cutoff(now, days)
    ensures LowStockAlerts(db, companyId, recentDays, now).value == Report(db, companyId, days, cutoff)
  {
  }

  /** Mapping tuples to alert rows keeps the number of rows of every
      (product, warehouse) pair. */
  lemma {:induction false} AlertsOfCount(cs: seq<Candidate>, days: int, pid: int, wid: int)
    requires forall c :: c in cs ==> c.product.id == c.inv.productId && c.warehouse.id == c.inv.warehouseId
    ensures CountAlertsAt(AlertsOf(cs, days), pid, wid) == CountAtStock(cs, pid, wid)
  {
    if |cs| > 0 {
      assert forall c :: c in cs[1..] ==> c in cs;
      AlertsOfCount(cs[1..], days, pid, wid);
      assert AlertsOf(cs, days)[1..] == AlertsOf(cs[1..], days);
    }
  }

  /** The supplier fan-out in the report itself: in a well-keyed store with
      one inventory row per (product, warehouse) pair, a stored row in a
      company warehouse whose product passes the filters is reported once
      per supplier link of its product (k suppliers give k rows), and any
      other stored row is not reported at all. */
  lemma ReportedSupplierFanOut(db: Db, companyId: int, days: int, cutoff: int, inv: Inventory)
    requires WellKeyed(db) && UniqueStockPositions(db.inventory) && inv in db.inventory
    ensures var sc := AlertScope(db, companyId, cutoff);
      CountAlertsAt(Report(db, companyId, days, cutoff).alerts, inv.productId, inv.warehouseId)
      == if inv.warehouseId in sc.warehouseIds && exists p :: p in db.products && ProductPasses(sc, inv, p)
         then CountLinks(db.supplierProducts, inv.productId)
         else 0
  {
    var sc := AlertScope(db, companyId, cutoff);
    SupplierFanOut(db, sc, inv);
    if sc.warehouseIds != [] {
      var cs := Candidates(CatalogOf(db), sc);
      SortKeepsCount(AlertsOf(cs, days), inv.productId, inv.warehouseId);
      AlertsOfCount(cs, days, inv.productId, inv.warehouseId);
      StockRowsCounted(CatalogOf(db), sc, db.inventory, inv);
    }
  }

  /** A company with no warehouses has nothing in stock to alert on. */
  lemma NoWarehousesNoAlerts(db: Db, companyId: int, recentDays: Arg<int>, now: int)
    requires CompanyExists(db.companies, companyId)
    requires RecentDays(recentDays).Success?
    requires forall w :: w in db.warehouses ==> w.companyId != companyId
    ensures LowStockAlerts(db, companyId, recentDays, now) == Success(AlertReport([], 0))
  {
  }

  /** The join is empty when the company has no warehouses, so the early
      return agrees with the general path. */
  lemma NoWarehousesNoCandidates(cat: Catalog, sc: Scope)
    requires sc.warehouseIds == []
    ensures Candidates(cat, sc) == []
  {
    NoWarehousesNoRows(cat, sc, cat.inventory);
  }

  lemma {:induction false} NoWarehousesNoRows(cat: Catalog, sc: Scope, invs: seq<Inventory>)
    requires sc.warehouseIds == []
    ensures JoinInventory(cat, sc, invs) == []
  {
    if |invs| > 0 {
      NoWarehousesNoRows(cat, sc, invs[1..]);
    }
  }

  /** The reported rows are the joined tuples turned into alerts, each as
      often as the join yields it, reordered by stock: a permutation of the
      filtered join. As a relation: a row is reported exactly when it comes
      from a tuple the join conditions admit. */
  lemma ReportMatchesJoin(db: Db, companyId: int, days: int, cutoff: int)
    ensures var sc := AlertScope(db, companyId, cutoff);
            var alerts := Report(db, companyId, days, cutoff).alerts;
            && multiset(alerts) == multiset(AlertsOf(Candidates(CatalogOf(db), sc), days))
            && forall a :: a in alerts <==> exists c :: IsCandidate(CatalogOf(db), sc, c) && a == ToAlert(c, days)
  {
    var sc := AlertScope(db, companyId, cutoff);
    var alerts := Report(db, companyId, days, cutoff).alerts;
    var joined := AlertsOf(Candidates(CatalogOf(db), sc), days);
    assert multiset(alerts) == multiset(joined) by {
      if sc.warehouseIds == [] {
        NoWarehousesNoCandidates(CatalogOf(db), sc);
      }
    }
    SameRows(alerts, joined);
  }

  /** Two orderings of the same rows hold the same rows. */
  lemma SameRows(a: seq<Alert>, b: seq<Alert>)
    requires multiset(a) == multiset(b)
    ensures forall x :: x in a <==> x in b
  {
    forall x
      ensures x in a <==> x in b
    {
      assert x in a <==> x in multiset(a);
      assert x in b <==> x in multiset(b);
    }
  }

  /** Total sold of a product over the company's qualifying orders. */
  function TotalSold(db: Db, companyId: int, cutoff: int, productId: int): int {
    SumFor(SaleRows(db.orderItems, db.orders, CompanyWarehouseIds(db.warehouses, companyId), cutoff), productId)
  }

  /** What every reported row satisfies: its stock is at or below its
      threshold, which is the product's own threshold or 20; its warehouse
      belongs to the company; its product has a supplier link to the
      reported supplier; its product has an item in a completed order of a
      company warehouse placed on or after the cutoff day; and its stockout
      estimate is computed from the company-wide total sold of the product. */
  lemma AlertRowFacts(db: Db, companyId: int, recentDays: Arg<int>, now: int, a: Alert)
    requires LowStockAlerts(db, companyId, recentDays, now).Success?
    requires a in LowStockAlerts(db, companyId, recentDays, now).value.alerts
    ensures var days := RecentDays(recentDays).value;
            RowFacts(db, companyId, days, Cutoff(now, days), a)
  {
    var days := RecentDays(recentDays).value;
    var cutoff := Cutoff(now, days);
    QueryReport(db, companyId, recentDays, now, days, cutoff);
    ReportRowFacts(db, companyId, days, cutoff, a);
  }

  lemma ReportRowFacts(db: Db, companyId: int, days: int, cutoff: int, a: Alert)
    requires a in Report(db, companyId, days, cutoff).alerts
    ensures RowFacts(db, companyId, days, cutoff, a)
  {
    var sc := AlertScope(db, companyId, cutoff);
    ReportMatchesJoin(db, companyId, days, cutoff);
    var c :| IsCandidate(CatalogOf(db), sc, c) && a == ToAlert(c, days);
    CandidateFacts(db, companyId, days, cutoff, c);
  }

  /** The facts `AlertRowFacts` establishes about a reported row `a` for a
      lookback window of `days` days ending on the day after `cutoff`. */
  predicate RowFacts(db: Db, companyId: int, days: int, cutoff: int, a: Alert) {
    && a.currentStock <= a.threshold
    && ThresholdOf(db, a.productId, a.threshold)
    && CompanyWarehouse(db, companyId, a.warehouseId)
    && SuppliedBy(db, a.productId, a.supplier.id)
    && SoldRecently(db, companyId, cutoff, a.productId)
    && a.daysUntilStockout == DaysUntilStockout(a.currentStock, TotalSold(db, companyId, cutoff, a.productId), days)
  }

  /** `t` is the threshold of a stored product `pid`: its own when set, 20
      otherwise. */
  predicate ThresholdOf(db: Db, pid: int, t: int) {
    exists p :: && p in db.products && p.id == pid
                && t == (if p.lowStockThreshold.Some? then p.lowStockThreshold.value else 20)
  }

  predicate CompanyWarehouse(db: Db, companyId: int, wid: int) {
    exists w :: w in db.warehouses && w.id == wid && w.companyId == companyId
  }

  /** A supplier link joins product `pid` to a stored supplier `sid`. */
  predicate SuppliedBy(db: Db, pid: int, sid: int) {
    exists l, s :: && l in db.supplierProducts && s in db.suppliers
                   && l.productId == pid && l.supplierId == sid && s.id == sid
  }

  /** Some item of product `pid` belongs to a completed order, placed on or
      after day `cutoff` in one of the company's warehouses. */
  predicate SoldRecently(db: Db, companyId: int, cutoff: int, pid: int) {
    exists item, o, w :: && item in db.orderItems && o in db.orders && w in db.warehouses
                         && item.orderId == o.id && item.productId == pid
                         && o.warehouseId == w.id && w.companyId == companyId
                         && o.orderDate >= cutoff && o.status == "completed"
  }

  lemma CandidateFacts(db: Db, companyId: int, days: int, cutoff: int, c: Candidate)
    requires IsCandidate(CatalogOf(db), AlertScope(db, companyId, cutoff), c)
    ensures RowFacts(db, companyId, days, cutoff, ToAlert(c, days))
  {
    var ids := CompanyWarehouseIds(db.warehouses, companyId);
    var sales := RecentSales(db, ids, cutoff);
    var a := ToAlert(c, days);
    assert c.product.id in sales && c.totalSold == sales[c.product.id];
    assert TotalSold(db, companyId, cutoff, a.productId) == c.totalSold;
    SoldProductHasQualifyingItem(db, companyId, cutoff, c.product.id);
    assert ThresholdOf(db, a.productId, a.threshold) by {
      assert c.product in db.products;
    }
    assert CompanyWarehouse(db, companyId, a.warehouseId) by {
      assert c.inv.warehouseId in ids;
    }
    assert SuppliedBy(db, a.productId, a.supplier.id) by {
      assert c.link in db.supplierProducts && c.supplier in db.suppliers;
    }
  }

  /** A product that is a key of the sales aggregate has an item in a
      qualifying order. */
  lemma SoldProductHasQualifyingItem(db: Db, companyId: int, cutoff: int, pid: int)
    requires pid in RecentSales(db, CompanyWarehouseIds(db.warehouses, companyId), cutoff)
    ensures SoldRecently(db, companyId, cutoff, pid)
  {
    var ids := CompanyWarehouseIds(db.warehouses, companyId);
    var rows := SaleRows(db.orderItems, db.orders, ids, cutoff);
    var sale :| sale in rows && sale.productId == pid;
    var item, o :| && item in db.orderItems && o in db.orders && item.orderId == o.id
                   && Qualifies(o, ids, cutoff) && sale == Sale(item.productId, item.quantity);
    var w :| w in db.warehouses && w.companyId == companyId && w.id == o.warehouseId;
  }

  /** A product without any supplier link is never reported. */
  lemma UnsuppliedProductNeverAlerted(db: Db, companyId: int, recentDays: Arg<int>, now: int, productId: int)
    requires LowStockAlerts(db, companyId, recentDays, now).Success?
    requires forall l :: l in db.supplierProducts ==> l.productId != productId
    ensures forall a :: a in LowStockAlerts(db, companyId, recentDays, now).value.alerts ==> a.productId != productId
  {
    forall a | a in LowStockAlerts(db, companyId, recentDays, now).value.alerts
      ensures a.productId != productId
    {
      AlertRowFacts(db, companyId, recentDays, now, a);
    }
  }

  /** A product none of whose order items belongs to a completed, recent
      order of a company warehouse is never reported, however low its stock. */
  lemma UnsoldProductNeverAlerted(db: Db, companyId: int, recentDays: Arg<int>, now: int, productId: int)
    requires LowStockAlerts(db, companyId, recentDays, now).Success?
    requires forall item, o :: item in db.orderItems && o in db.orders && item.orderId == o.id && item.productId == productId
               ==> !Qualifies(o, CompanyWarehouseIds(db.warehouses, companyId), Cutoff(now, RecentDays(recentDays).value))
    ensures forall a :: a in LowStockAlerts(db, companyId, recentDays, now).value.alerts ==> a.productId != productId
  {
    var days := RecentDays(recentDays).value;
    var cutoff := Cutoff(now, days);
    var ids := CompanyWarehouseIds(db.warehouses, companyId);
    forall a | a in LowStockAlerts(db, companyId, recentDays, now).value.alerts
      ensures a.productId != productId
    {
      AlertRowFacts(db, companyId, recentDays, now, a);
      if a.productId == productId {
        var item, o, w :| && item in db.orderItems && o in db.orders && w in db.warehouses
                          && item.orderId == o.id && item.productId == productId
                          && o.warehouseId == w.id && w.companyId == companyId
                          && o.orderDate >= cutoff && o.status == "completed";
        assert Qualifies(o, ids, cutoff);
      }
    }
  }

  /** An order that fails any of the three conditions (placed in another
      company's warehouse, placed before the cutoff day, or not completed)
      changes nothing in the report, whatever items refer to it. */
  lemma NonQualifyingOrderIgnored(db: Db, companyId: int, recentDays: Arg<int>, now: int, o: Order)
    requires RecentDays(recentDays).Success?
    requires !Qualifies(o, CompanyWarehouseIds(db.warehouses, companyId), Cutoff(now, RecentDays(recentDays).value))
    ensures LowStockAlerts(db.(orders := db.orders + [o]), companyId, recentDays, now)
         == LowStockAlerts(db, companyId, recentDays, now)
  {
    var days := RecentDays(recentDays).value;
    var cutoff := Cutoff(now, days);
    var db' := db.(orders := db.orders + [o]);
    NonQualifyingOrderKeepsScope(db, companyId, cutoff, o);
    SameScopeSameReport(db, db', companyId, days, cutoff);
    if CompanyExists(db.companies, companyId) {
      QueryReport(db, companyId, recentDays, now, days, cutoff);
      QueryReport(db', companyId, recentDays, now, days, cutoff);
    }
  }

  lemma NonQualifyingOrderKeepsScope(db: Db, companyId: int, cutoff: int, o: Order)
    requires !Qualifies(o, CompanyWarehouseIds(db.warehouses, companyId), cutoff)
    ensures AlertScope(db.(orders := db.orders + [o]), companyId, cutoff) == AlertScope(db, companyId, cutoff)
  {
    SaleRowsExtraOrder(db.orderItems, db.orders, o, CompanyWarehouseIds(db.warehouses, companyId), cutoff);
  }

  /** The rows depend on the store only through the tables the join reads
      and the join's scope. */
  lemma SameScopeSameReport(db: Db, db': Db, companyId: int, days: int, cutoff: int)
    requires CatalogOf(db') == CatalogOf(db)
    requires AlertScope(db', companyId, cutoff) == AlertScope(db, companyId, cutoff)
    ensures Report(db', companyId, days, cutoff) == Report(db, companyId, days, cutoff)
  {
  }

  /** A new completed order, placed on or after the cutoff day in a company
      warehouse, with one new item adds that item's quantity to the total
      sold of its product and to no other product's total, and makes the
      product a key of the aggregate. */
  lemma QualifyingOrderCounted(db: Db, companyId: int, cutoff: int, o: Order, item: OrderItem)
    requires Qualifies(o, CompanyWarehouseIds(db.warehouses, companyId), cutoff)
    requires item.orderId == o.id
    requires forall o' :: o' in db.orders ==> o'.id != o.id
    requires forall it :: it in db.orderItems ==> it.orderId != o.id
    ensures var db' := db.(orders := db.orders + [o], orderItems := db.orderItems + [item]);
            && AlertScope(db', companyId, cutoff).sales
               == AddSale(AlertScope(db, companyId, cutoff).sales, Sale(item.productId, item.quantity))
            && forall pid :: TotalSold(db', companyId, cutoff, pid)
                             == TotalSold(db, companyId, cutoff, pid) + (if pid == item.productId then item.quantity else 0)
  {
    var db' := db.(orders := db.orders + [o], orderItems := db.orderItems + [item]);
    var ids := CompanyWarehouseIds(db.warehouses, companyId);
    var rows := SaleRows(db.orderItems, db.orders, ids, cutoff);
    var rows' := SaleRows(db'.orderItems, db'.orders, ids, cutoff);
    QualifyingSaleCounted(db.orderItems, db.orders, o, item, ids, cutoff);
    assert rows' == rows + [Sale(item.productId, item.quantity)] by {
      assert (db.orderItems + [item])[..|db.orderItems|] == db.orderItems;
      SaleRowsExtraOrder(db.orderItems, db.orders, o, ids, cutoff);
      ItemSalesExtraOrder(db.orders, o, item, ids, cutoff);
      ItemSalesOrphan(db.orders, item, ids, cutoff);
    }
    forall pid
      ensures SumFor(rows', pid) == SumFor(rows, pid) + (if pid == item.productId then item.quantity else 0)
    {
      assert rows'[..|rows'| - 1] == rows;
    }
  }
}
