/** The relational schema shared by the alert query and by product
    registration. Each table is a sequence of rows in storage order; keys
    are plain integers and a foreign key is an integer that should match
    the primary key of a row in the referenced table. */
module Tables {
  import opened Wrappers

  datatype Company = Company(id: int, name: string)

  datatype Warehouse = Warehouse(id: int, companyId: int, name: string)

  /** `price` is the stored decimal, kept exact; `lowStockThreshold` is
      the nullable per-product alert threshold. */
  datatype Product = Product(
    id: int,
    sku: string,
    name: string,
    price: Option<real>,
    lowStockThreshold: Option<int>)

  datatype Inventory = Inventory(id: int, productId: int, warehouseId: int, quantity: int)

  datatype Supplier = Supplier(id: int, name: string, contactInfo: string)

  /** One row of the many-to-many product/supplier association. */
  datatype SupplierProduct = SupplierProduct(productId: int, supplierId: int)

  /** `orderDate` is a day number on the same scale as the query's `now`. */
  datatype Order = Order(id: int, warehouseId: int, orderDate: int, status: string)

  datatype OrderItem = OrderItem(orderId: int, productId: int, quantity: int)

  datatype Db = Db(
    companies: seq<Company>,
    warehouses: seq<Warehouse>,
    products: seq<Product>,
    inventory: seq<Inventory>,
    suppliers: seq<Supplier>,
    supplierProducts: seq<SupplierProduct>,
    orders: seq<Order>,
    orderItems: seq<OrderItem>)

  // ----- primary keys and foreign keys -----

  predicate UniqueWarehouseIds(ws: seq<Warehouse>) {
    forall i, j :: 0 <= i < j < |ws| ==> ws[i].id != ws[j].id
  }

  predicate UniqueProductIds(ps: seq<Product>) {
    forall i, j :: 0 <= i < j < |ps| ==> ps[i].id != ps[j].id
  }

  predicate UniqueSupplierIds(ss: seq<Supplier>) {
    forall i, j :: 0 <= i < j < |ss| ==> ss[i].id != ss[j].id
  }

  /** The business key: at most one product per SKU. */
  predicate UniqueSkus(ps: seq<Product>) {
    forall i, j :: 0 <= i < j < |ps| ==> ps[i].sku != ps[j].sku
  }

  predicate UniqueInventoryIds(inv: seq<Inventory>) {
    forall i, j :: 0 <= i < j < |inv| ==> inv[i].id != inv[j].id
  }

  /** At most one inventory row per (product, warehouse) pair. */
  predicate UniqueStockPositions(inv: seq<Inventory>) {
    forall i, j :: 0 <= i < j < |inv| ==>
      inv[i].productId != inv[j].productId || inv[i].warehouseId != inv[j].warehouseId
  }

  predicate ProductExists(ps: seq<Product>, id: int) {
    exists p :: p in ps && p.id == id
  }

  predicate WarehouseExists(ws: seq<Warehouse>, id: int) {
    exists w :: w in ws && w.id == id
  }

  predicate SupplierExists(ss: seq<Supplier>, id: int) {
    exists s :: s in ss && s.id == id
  }

  /** Primary keys are unique and the foreign keys of inventory rows and of
      supplier links resolve: the shape a relational store with its
      constraints switched on keeps. */
  predicate WellKeyed(db: Db) {
    && UniqueWarehouseIds(db.warehouses)
    && UniqueProductIds(db.products)
    && UniqueSupplierIds(db.suppliers)
    && (forall inv :: inv in db.inventory ==>
          ProductExists(db.products, inv.productId) && WarehouseExists(db.warehouses, inv.warehouseId))
    && (forall l :: l in db.supplierProducts ==> SupplierExists(db.suppliers, l.supplierId))
  }
}
