/** The inner join of the alert query: inventory rows with their product,
    warehouse, supplier link, supplier and recent-sales total, kept when the
    inventory sits in one of the company's warehouses, the product has
    recent sales and the stock is at or below the effective threshold. Each
    join level is one function, iterating the joined table in storage order. */
module Join {
  import opened Wrappers
  import opened Tables

  /** Threshold used when a product has none of its own. */
  const DefaultLowStockThreshold: int := 20

  /** The product's own threshold when it is set, the default otherwise. */
  function EffectiveThreshold(p: Product): (t: int)
    ensures p.lowStockThreshold.Some? ==> t == p.lowStockThreshold.value
    ensures p.lowStockThreshold.None? ==> t == DefaultLowStockThreshold
  {
    match p.lowStockThreshold
    case Some(t) => t
    case None => DefaultLowStockThreshold
  }

  /** The tables the join reads. */
  datatype Catalog = Catalog(
    inventory: seq<Inventory>,
    products: seq<Product>,
    warehouses: seq<Warehouse>,
    supplierProducts: seq<SupplierProduct>,
    suppliers: seq<Supplier>)

  function CatalogOf(db: Db): Catalog {
    Catalog(db.inventory, db.products, db.warehouses, db.supplierProducts, db.suppliers)
  }

  /** What the join is parameterised by: the ids of the company's warehouses
      and the recent-sales aggregate (product id to total sold). */
  datatype Scope = Scope(warehouseIds: seq<int>, sales: map<int, int>)

  /** One joined tuple before it is turned into an alert row. */
  datatype Candidate = Candidate(
    inv: Inventory,
    product: Product,
    warehouse: Warehouse,
    link: SupplierProduct,
    supplier: Supplier,
    totalSold: int)

  /** The conditions the join and its filters place on a tuple, stated as
      one relation over the tables. */
  predicate IsCandidate(cat: Catalog, sc: Scope, c: Candidate) {
    c.inv in cat.inventory && JoinsInventory(cat, sc, c)
  }

  /** The join conditions and filters on a tuple, other than its inventory
      row being stored. */
  predicate JoinsInventory(cat: Catalog, sc: Scope, c: Candidate) {
    && c.product in cat.products
    && c.warehouse in cat.warehouses
    && c.link in cat.supplierProducts
    && c.supplier in cat.suppliers
    && c.product.id == c.inv.productId
    && c.warehouse.id == c.inv.warehouseId
    && c.link.productId == c.product.id
    && c.supplier.id == c.link.supplierId
    && c.product.id in sc.sales
    && c.totalSold == sc.sales[c.product.id]
    && c.inv.warehouseId in sc.warehouseIds
    && c.inv.quantity <= EffectiveThreshold(c.product)
  }

  /** Innermost level: suppliers whose id matches the link. */
  function JoinSuppliers(ss: seq<Supplier>, inv: Inventory, p: Product, w: Warehouse,
                         l: SupplierProduct, sold: int): (r: seq<Candidate>)
    ensures forall c :: c in r <==>
      && c.supplier in ss && c.supplier.id == l.supplierId
      && c == Candidate(inv, p, w, l, c.supplier, sold)
  {
    if |ss| == 0 then []
    else
      (if ss[0].id == l.supplierId then [Candidate(inv, p, w, l, ss[0], sold)] else [])
      + JoinSuppliers(ss[1..], inv, p, w, l, sold)
  }

  /** Supplier links of the product, each joined with its suppliers. */
  function JoinLinks(cat: Catalog, ls: seq<SupplierProduct>, inv: Inventory, p: Product, w: Warehouse,
                     sold: int): (r: seq<Candidate>)
    ensures forall c :: c in r <==>
      && c.link in ls && c.link.productId == p.id
      && c.supplier in cat.suppliers && c.supplier.id == c.link.supplierId
      && c == Candidate(inv, p, w, c.link, c.supplier, sold)
  {
    if |ls| == 0 then []
    else
      (if ls[0].productId == p.id then JoinSuppliers(cat.suppliers, inv, p, w, ls[0], sold) else [])
      + JoinLinks(cat, ls[1..], inv, p, w, sold)
  }

  /** Warehouses whose id matches the inventory row. */
  function JoinWarehouses(cat: Catalog, ws: seq<Warehouse>, inv: Inventory, p: Product, sold: int): (r: seq<Candidate>)
    ensures forall c :: c in r <==>
      && c.warehouse in ws && c.warehouse.id == inv.warehouseId
      && c.link in cat.supplierProducts && c.link.productId == p.id
      && c.supplier in cat.suppliers && c.supplier.id == c.link.supplierId
      && c == Candidate(inv, p, c.warehouse, c.link, c.supplier, sold)
  {
    if |ws| == 0 then []
    else
      (if ws[0].id == inv.warehouseId then JoinLinks(cat, cat.supplierProducts, inv, p, ws[0], sold) else [])
      + JoinWarehouses(cat, ws[1..], inv, p, sold)
  }

  /** Whether a product row joins an inventory row and passes the sales join
      and the threshold filter. */
  predicate ProductPasses(sc: Scope, inv: Inventory, p: Product) {
    p.id == inv.productId && p.id in sc.sales && inv.quantity <= EffectiveThreshold(p)
  }

  /** Products that join the inventory row and pass the filters. */
  function JoinProducts(cat: Catalog, sc: Scope, ps: seq<Product>, inv: Inventory): (r: seq<Candidate>)
    ensures forall c :: c in r <==>
      && c.product in ps && ProductPasses(sc, inv, c.product)
      && c.warehouse in cat.warehouses && c.warehouse.id == inv.warehouseId
      && c.link in cat.supplierProducts && c.link.productId == c.product.id
      && c.supplier in cat.suppliers && c.supplier.id == c.link.supplierId
      && c == Candidate(inv, c.product, c.warehouse, c.link, c.supplier, sc.sales[c.product.id])
  {
    if |ps| == 0 then []
    else
      (if ProductPasses(sc, inv, ps[0])
       then JoinWarehouses(cat, cat.warehouses, inv, ps[0], sc.sales[ps[0].id])
       else [])
      + JoinProducts(cat, sc, ps[1..], inv)
  }

  /** The tuples one inventory row contributes. */
  function InventoryRows(cat: Catalog, sc: Scope, inv: Inventory): (r: seq<Candidate>)
    ensures forall c :: c in r <==> c.inv == inv && JoinsInventory(cat, sc, c)
  {
    if inv.warehouseId in sc.warehouseIds then JoinProducts(cat, sc, cat.products, inv) else []
  }

  /** The tuples of the inventory rows `invs`, row after row. */
  function JoinInventory(cat: Catalog, sc: Scope, invs: seq<Inventory>): (r: seq<Candidate>)
    ensures forall c :: c in r <==> c.inv in invs && JoinsInventory(cat, sc, c)
  {
    if |invs| == 0 then []
    else InventoryRows(cat, sc, invs[0]) + JoinInventory(cat, sc, invs[1..])
  }

  /** The whole join: exactly the tuples the relation `IsCandidate` admits. */
  function Candidates(cat: Catalog, sc: Scope): (r: seq<Candidate>)
    ensures forall c :: c in r <==> IsCandidate(cat, sc, c)
  {
    JoinInventory(cat, sc, cat.inventory)
  }
}

/** How many tuples the join yields: the product of the matching row counts
    at each level, since no level deduplicates. */
module JoinCardinality {
  import opened Tables
  import opened Join

  function CountSuppliersWithId(ss: seq<Supplier>, id: int): nat {
    if |ss| == 0 then 0 else (if ss[0].id == id then 1 else 0) + CountSuppliersWithId(ss[1..], id)
  }

  function CountWarehousesWithId(ws: seq<Warehouse>, id: int): nat {
    if |ws| == 0 then 0 else (if ws[0].id == id then 1 else 0) + CountWarehousesWithId(ws[1..], id)
  }

  function CountPassingProducts(sc: Scope, ps: seq<Product>, inv: Inventory): nat {
    if |ps| == 0 then 0
    else (if ProductPasses(sc, inv, ps[0]) then 1 else 0) + CountPassingProducts(sc, ps[1..], inv)
  }

  /** Number of supplier links of product `pid`. */
  function CountLinks(ls: seq<SupplierProduct>, pid: int): nat {
    if |ls| == 0 then 0 else (if ls[0].productId == pid then 1 else 0) + CountLinks(ls[1..], pid)
  }

  /** Number of (link, supplier) pairs product `pid` joins to. */
  function LinkFanOut(ss: seq<Supplier>, ls: seq<SupplierProduct>, pid: int): nat {
    if |ls| == 0 then 0
    else
      (if ls[0].productId == pid then CountSuppliersWithId(ss, ls[0].supplierId) else 0)
      + LinkFanOut(ss, ls[1..], pid)
  }

  lemma Distribute(a: int, b: int, c: int)
    ensures a * c + b * c == (a + b) * c
  {
  }

  lemma {:induction false} JoinSuppliersCount(ss: seq<Supplier>, inv: Inventory, p: Product, w: Warehouse,
                                              l: SupplierProduct, sold: int)
    ensures |JoinSuppliers(ss, inv, p, w, l, sold)| == CountSuppliersWithId(ss, l.supplierId)
  {
    if |ss| > 0 {
      JoinSuppliersCount(ss[1..], inv, p, w, l, sold);
    }
  }

  lemma {:induction false} JoinLinksCount(cat: Catalog, ls: seq<SupplierProduct>, inv: Inventory, p: Product,
                                          w: Warehouse, sold: int)
    ensures |JoinLinks(cat, ls, inv, p, w, sold)| == LinkFanOut(cat.suppliers, ls, p.id)
  {
    if |ls| > 0 {
      JoinSuppliersCount(cat.suppliers, inv, p, w, ls[0], sold);
      JoinLinksCount(cat, ls[1..], inv, p, w, sold);
    }
  }

  lemma {:induction false} JoinWarehousesCount(cat: Catalog, ws: seq<Warehouse>, inv: Inventory, p: Product, sold: int)
    ensures |JoinWarehouses(cat, ws, inv, p, sold)|
         == CountWarehousesWithId(ws, inv.warehouseId) * LinkFanOut(cat.suppliers, cat.supplierProducts, p.id)
  {
    if |ws| > 0 {
      var fan := LinkFanOut(cat.suppliers, cat.supplierProducts, p.id);
      var here := if ws[0].id == inv.warehouseId then 1 else 0;
      var rest := CountWarehousesWithId(ws[1..], inv.warehouseId);
      var head := if ws[0].id == inv.warehouseId then JoinLinks(cat, cat.supplierProducts, inv, p, ws[0], sold) else [];
      assert |head| == here * fan by {
        JoinLinksCount(cat, cat.supplierProducts, inv, p, ws[0], sold);
      }
      assert |JoinWarehouses(cat, ws[1..], inv, p, sold)| == rest * fan by {
        JoinWarehousesCount(cat, ws[1..], inv, p, sold);
      }
      assert JoinWarehouses(cat, ws, inv, p, sold) == head + JoinWarehouses(cat, ws[1..], inv, p, sold);
      assert CountWarehousesWithId(ws, inv.warehouseId) == here + rest;
      calc {
        |JoinWarehouses(cat, ws, inv, p, sold)|;
        here * fan + rest * fan;
        { Distribute(here, rest, fan); }
        (here + rest) * fan;
      }
    }
  }

  lemma {:induction false} JoinProductsCount(cat: Catalog, sc: Scope, ps: seq<Product>, inv: Inventory)
    ensures |JoinProducts(cat, sc, ps, inv)|
         == CountPassingProducts(sc, ps, inv)
            * (CountWarehousesWithId(cat.warehouses, inv.warehouseId)
               * LinkFanOut(cat.suppliers, cat.supplierProducts, inv.productId))
  {
    if |ps| > 0 {
      var per := CountWarehousesWithId(cat.warehouses, inv.warehouseId)
                 * LinkFanOut(cat.suppliers, cat.supplierProducts, inv.productId);
      var here := if ProductPasses(sc, inv, ps[0]) then 1 else 0;
      var rest := CountPassingProducts(sc, ps[1..], inv);
      var head := if ProductPasses(sc, inv, ps[0])
                  then JoinWarehouses(cat, cat.warehouses, inv, ps[0], sc.sales[ps[0].id])
                  else [];
      assert |head| == here * per by {
        if ProductPasses(sc, inv, ps[0]) {
          JoinWarehousesCount(cat, cat.warehouses, inv, ps[0], sc.sales[ps[0].id]);
        }
      }
      assert |JoinProducts(cat, sc, ps[1..], inv)| == rest * per by {
        JoinProductsCount(cat, sc, ps[1..], inv);
      }
      assert JoinProducts(cat, sc, ps, inv) == head + JoinProducts(cat, sc, ps[1..], inv);
      assert CountPassingProducts(sc, ps, inv) == here + rest;
      calc {
        |JoinProducts(cat, sc, ps, inv)|;
        here * per + rest * per;
        { Distribute(here, rest, per); }
        (here + rest) * per;
      }
    }
  }

  /** The number of tuples an inventory row yields, with no assumption on
      the keys: the row must sit in a company warehouse, and then every
      passing product, every warehouse with its id and every (link,
      supplier) pair of the product multiply. */
  lemma InventoryRowsCount(cat: Catalog, sc: Scope, inv: Inventory)
    ensures |InventoryRows(cat, sc, inv)|
         == if inv.warehouseId in sc.warehouseIds
            then CountPassingProducts(sc, cat.products, inv)
                 * (CountWarehousesWithId(cat.warehouses, inv.warehouseId)
                    * LinkFanOut(cat.suppliers, cat.supplierProducts, inv.productId))
            else 0
  {
    JoinProductsCount(cat, sc, cat.products, inv);
  }

  lemma {:induction false} UniqueSupplierCounted(ss: seq<Supplier>, id: int)
    requires UniqueSupplierIds(ss)
    ensures CountSuppliersWithId(ss, id) == if SupplierExists(ss, id) then 1 else 0
  {
    if |ss| > 0 {
      assert UniqueSupplierIds(ss[1..]);
      UniqueSupplierCounted(ss[1..], id);
      assert forall s :: s in ss ==> s == ss[0] || s in ss[1..];
      if ss[0].id == id {
        assert !SupplierExists(ss[1..], id);
      }
    }
  }

  lemma {:induction false} UniqueWarehouseCounted(ws: seq<Warehouse>, id: int)
    requires UniqueWarehouseIds(ws)
    ensures CountWarehousesWithId(ws, id) == if WarehouseExists(ws, id) then 1 else 0
  {
    if |ws| > 0 {
      assert UniqueWarehouseIds(ws[1..]);
      UniqueWarehouseCounted(ws[1..], id);
      assert forall w :: w in ws ==> w == ws[0] || w in ws[1..];
      if ws[0].id == id {
        assert !WarehouseExists(ws[1..], id);
      }
    }
  }

  lemma {:induction false} UniqueProductCounted(sc: Scope, ps: seq<Product>, inv: Inventory)
    requires UniqueProductIds(ps)
    ensures CountPassingProducts(sc, ps, inv) == if exists p :: p in ps && ProductPasses(sc, inv, p) then 1 else 0
  {
    if |ps| > 0 {
      assert UniqueProductIds(ps[1..]);
      UniqueProductCounted(sc, ps[1..], inv);
      assert forall p :: p in ps ==> p == ps[0] || p in ps[1..];
      if ProductPasses(sc, inv, ps[0]) {
        assert !exists p :: p in ps[1..] && ProductPasses(sc, inv, p);
      }
    }
  }

  /** When every link names an existing supplier and supplier ids are
      unique, each link yields exactly one pair. */
  lemma {:induction false} ResolvedLinksFanOut(ss: seq<Supplier>, ls: seq<SupplierProduct>, pid: int)
    requires UniqueSupplierIds(ss)
    requires forall l :: l in ls ==> SupplierExists(ss, l.supplierId)
    ensures LinkFanOut(ss, ls, pid) == CountLinks(ls, pid)
  {
    if |ls| > 0 {
      UniqueSupplierCounted(ss, ls[0].supplierId);
      ResolvedLinksFanOut(ss, ls[1..], pid);
    }
  }

  /** Number of tuples whose inventory row is for product `pid` in
      warehouse `wid`. */
  function CountAtStock(cs: seq<Candidate>, pid: int, wid: int): nat {
    if |cs| == 0 then 0
    else (if cs[0].inv.productId == pid && cs[0].inv.warehouseId == wid then 1 else 0) + CountAtStock(cs[1..], pid, wid)
  }

  lemma {:induction false} CountAtStockAppend(a: seq<Candidate>, b: seq<Candidate>, pid: int, wid: int)
    ensures CountAtStock(a + b, pid, wid) == CountAtStock(a, pid, wid) + CountAtStock(b, pid, wid)
  {
    if |a| > 0 {
      assert (a + b)[1..] == a[1..] + b;
      CountAtStockAppend(a[1..], b, pid, wid);
    } else {
      assert a + b == b;
    }
  }

  lemma {:induction false} CountAtStockAll(cs: seq<Candidate>, inv: Inventory)
    requires forall c :: c in cs ==> c.inv == inv
    ensures CountAtStock(cs, inv.productId, inv.warehouseId) == |cs|
  {
    if |cs| > 0 {
      assert forall c :: c in cs[1..] ==> c in cs;
      CountAtStockAll(cs[1..], inv);
    }
  }

  lemma {:induction false} CountAtStockNone(cs: seq<Candidate>, pid: int, wid: int)
    requires forall c :: c in cs ==> c.inv.productId != pid || c.inv.warehouseId != wid
    ensures CountAtStock(cs, pid, wid) == 0
  {
    if |cs| > 0 {
      assert forall c :: c in cs[1..] ==> c in cs;
      CountAtStockNone(cs[1..], pid, wid);
    }
  }

  /** With one inventory row per (product, warehouse) pair, the tuples of
      the whole join for a stored row's pair are exactly that row's tuples. */
  lemma {:induction false} StockRowsCounted(cat: Catalog, sc: Scope, invs: seq<Inventory>, inv: Inventory)
    requires UniqueStockPositions(invs) && inv in invs
    ensures CountAtStock(JoinInventory(cat, sc, invs), inv.productId, inv.warehouseId)
         == |InventoryRows(cat, sc, inv)|
  {
    var head := InventoryRows(cat, sc, invs[0]);
    var rest := JoinInventory(cat, sc, invs[1..]);
    CountAtStockAppend(head, rest, inv.productId, inv.warehouseId);
    if invs[0].productId == inv.productId && invs[0].warehouseId == inv.warehouseId {
      var i :| 0 <= i < |invs| && invs[i] == inv;
      assert i == 0;
      CountAtStockAll(head, inv);
      forall c | c in rest
        ensures c.inv.productId != inv.productId || c.inv.warehouseId != inv.warehouseId
      {
        var j :| 0 <= j < |invs[1..]| && invs[1..][j] == c.inv;
        assert invs[j + 1] == c.inv;
      }
      CountAtStockNone(rest, inv.productId, inv.warehouseId);
    } else {
      CountAtStockNone(head, inv.productId, inv.warehouseId);
      assert inv in invs[1..];
      assert UniqueStockPositions(invs[1..]) by {
        forall i, j | 0 <= i < j < |invs[1..]|
          ensures invs[1..][i].productId != invs[1..][j].productId || invs[1..][i].warehouseId != invs[1..][j].warehouseId
        {
          assert invs[1..][i] == invs[i + 1] && invs[1..][j] == invs[j + 1];
        }
      }
      StockRowsCounted(cat, sc, invs[1..], inv);
    }
  }

  /** On a well-keyed store, a stored inventory row that sits in a company
      warehouse and whose product passes the filters yields one tuple per
      supplier link of its product (k suppliers give k rows); any other
      inventory row yields none. */
  lemma SupplierFanOut(db: Db, sc: Scope, inv: Inventory)
    requires WellKeyed(db)
    requires inv in db.inventory
    ensures |InventoryRows(CatalogOf(db), sc, inv)|
         == if inv.warehouseId in sc.warehouseIds && exists p :: p in db.products && ProductPasses(sc, inv, p)
            then CountLinks(db.supplierProducts, inv.productId)
            else 0
  {
    InventoryRowsCount(CatalogOf(db), sc, inv);
    UniqueProductCounted(sc, db.products, inv);
    UniqueWarehouseCounted(db.warehouses, inv.warehouseId);
    ResolvedLinksFanOut(db.suppliers, db.supplierProducts, inv.productId);
  }
}
