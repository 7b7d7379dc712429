/** Product registration: the request checks, then find-or-create of the
    product by SKU and creation of its inventory row in one warehouse, as
    one transition of the store. A refused request leaves the store as it
    was; an accepted one adds at most one product and exactly one
    inventory row. */
module Registration {
  import opened Wrappers
  import opened Tables
  import opened Text

  /** A request body. `sku` and `name` are `None` when the field is
      missing; the numeric fields carry their parse outcome, and an
      explicit null price counts as `Absent`. */
  datatype ProductRequest = ProductRequest(
    sku: Option<string>,
    name: Option<string>,
    warehouseId: Arg<int>,
    price: Arg<real>,
    initialQuantity: Arg<int>)

  datatype Field = SkuField | NameField | WarehouseIdField

  datatype RegistrationError =
    | MissingField(field: Field)
    | EmptySku
    | EmptyName
    | InvalidWarehouseId
    | InvalidPrice
    | NegativePrice
    | InvalidQuantity
    | NegativeQuantity
    | WarehouseNotFound
    | SkuNameConflict
    | InventoryExists

  /** The HTTP status each refusal is reported with: conflicts with stored
      rows are 409, everything else the caller got wrong is 400. */
  function Status(e: RegistrationError): int {
    if e == SkuNameConflict || e == InventoryExists then 409 else 400
  }

  /** The request after its checks: trimmed SKU and name, the warehouse id,
      the optional price and the initial quantity. */
  datatype Registration = Registration(sku: string, name: string, warehouseId: int, price: Option<real>, quantity: int)

  /** Everything the request checks demand, stated field by field. */
  predicate ValidRequest(req: ProductRequest) {
    && req.sku.Some? && Trim(req.sku.value) != []
    && req.name.Some? && Trim(req.name.value) != []
    && req.warehouseId.Given?
    && !req.price.Unparseable? && (req.price.Given? ==> req.price.value >= 0.0)
    && !req.initialQuantity.Unparseable? && (req.initialQuantity.Given? ==> req.initialQuantity.value >= 0)
  }

  /** The request checks, in the order the handler makes them: the three
      required fields, the empty trimmed SKU before the empty trimmed
      name, then the warehouse id, the price and the quantity. */
  function Validate(req: ProductRequest): (r: Result<Registration, RegistrationError>)
    ensures r.Success? <==> ValidRequest(req)
    ensures r.Failure? ==> Status(r.error) == 400
    ensures r == Failure(MissingField(SkuField)) <==> req.sku.None?
    ensures r == Failure(MissingField(NameField)) <==> req.sku.Some? && req.name.None?
    ensures r == Failure(MissingField(WarehouseIdField)) <==>
      req.sku.Some? && req.name.Some? && req.warehouseId.Absent?
    ensures r.Success? ==>
      && r.value.sku == Trim(req.sku.value)
      && r.value.name == Trim(req.name.value)
      && r.value.warehouseId == req.warehouseId.value
      && r.value.price == (if req.price.Given? then Some(req.price.value) else None)
      && r.value.quantity == (if req.initialQuantity.Given? then req.initialQuantity.value else 0)
      && r.value.quantity >= 0
  {
    if req.sku.None? then Failure(MissingField(SkuField))
    else if req.name.None? then Failure(MissingField(NameField))
    else if req.warehouseId.Absent? then Failure(MissingField(WarehouseIdField))
    else
      var sku := Trim(req.sku.value);
      var name := Trim(req.name.value);
      if sku == [] then Failure(EmptySku)
      else if name == [] then Failure(EmptyName)
      else if req.warehouseId.Unparseable? then Failure(InvalidWarehouseId)
      else if req.price.Unparseable? then Failure(InvalidPrice)
      else if req.price.Given? && req.price.value < 0.0 then Failure(NegativePrice)
      else if req.initialQuantity.Unparseable? then Failure(InvalidQuantity)
      else
        var quantity := if req.initialQuantity.Given? then req.initialQuantity.value else 0;
        if quantity < 0 then Failure(NegativeQuantity)
        else
          var price := if req.price.Given? then Some(req.price.value) else None;
          Success(Registration(sku, name, req.warehouseId.value, price, quantity))
  }

  /** Both the SKU and the name are blank: the SKU is the one reported. */
  lemma BlankSkuReportedFirst(req: ProductRequest)
    requires req.sku.Some? && req.name.Some? && !req.warehouseId.Absent?
    requires forall i :: 0 <= i < |req.sku.value| ==> IsSpace(req.sku.value[i])
    ensures Validate(req) == Failure(EmptySku)
  {
    TrimEmptyIffBlank(req.sku.value);
  }

  /** The first product in storage order carrying `sku`. */
  function FindBySku(ps: seq<Product>, sku: string): (r: Option<Product>)
    ensures r.None? <==> forall p :: p in ps ==> p.sku != sku
    ensures r.Some? ==> exists i :: && 0 <= i < |ps| && ps[i] == r.value && r.value.sku == sku
                                    && forall k :: 0 <= k < i ==> ps[k].sku != sku
  {
    if |ps| == 0 then None
    else if ps[0].sku == sku then Some(ps[0])
    else
      var r := FindBySku(ps[1..], sku);
      assert r.Some? ==> exists i :: && 0 <= i < |ps| && ps[i] == r.value && r.value.sku == sku
                                    && forall k :: 0 <= k < i ==> ps[k].sku != sku
      by {
        if r.Some? {
          var i :| && 0 <= i < |ps[1..]| && ps[1..][i] == r.value && r.value.sku == sku
                   && forall k :: 0 <= k < i ==> ps[1..][k].sku != sku;
          assert ps[i + 1] == r.value;
          assert forall k :: 0 <= k < i + 1 ==> ps[k].sku != sku by {
            forall k | 0 <= k < i + 1 ensures ps[k].sku != sku {
              if k > 0 { assert ps[k] == ps[1..][k - 1]; }
            }
          }
        }
      }
      r
  }

  /** Under unique SKUs the product found is the one stored with that SKU. */
  lemma FindUniqueSku(ps: seq<Product>, p: Product)
    requires UniqueSkus(ps) && p in ps
    ensures FindBySku(ps, p.sku) == Some(p)
  {
    var i :| 0 <= i < |ps| && ps[i] == p;
    var r := FindBySku(ps, p.sku);
    var j :| && 0 <= j < |ps| && ps[j] == r.value && r.value.sku == p.sku
             && forall k :: 0 <= k < j ==> ps[k].sku != p.sku;
    assert !(j < i) && !(i < j);
  }

  /** Whether an inventory row binds product `pid` to warehouse `wid`. */
  predicate HasStock(inv: seq<Inventory>, pid: int, wid: int) {
    exists row :: row in inv && row.productId == pid && row.warehouseId == wid
  }

  /** The id the store generates for the next product: above every stored
      id, and at least 1. */
  function NextProductId(ps: seq<Product>): (id: int)
    ensures id >= 1 && forall p :: p in ps ==> p.id < id
  {
    if |ps| == 0 then 1
    else
      var rest := NextProductId(ps[1..]);
      assert forall p :: p in ps ==> p == ps[0] || p in ps[1..];
      if ps[0].id < rest then rest else ps[0].id + 1
  }

  /** The id the store generates for the next inventory row. */
  function NextInventoryId(inv: seq<Inventory>): (id: int)
    ensures id >= 1 && forall row :: row in inv ==> row.id < id
  {
    if |inv| == 0 then 1
    else
      var rest := NextInventoryId(inv[1..]);
      assert forall row :: row in inv ==> row == inv[0] || row in inv[1..];
      if inv[0].id < rest then rest else inv[0].id + 1
  }

  /** What a successful registration reports. */
  datatype Created = Created(productId: int, inventoryId: int)

  /** The store after the request, and the reply. */
  datatype Outcome = Outcome(db: Db, reply: Result<Created, RegistrationError>)

  /** The store-dependent steps for a checked request: the warehouse must
      exist; a stored product with the SKU is reused when its name is the
      same and refused otherwise, and a new one is created when there is
      none; the product must not yet be stocked in the warehouse; then one
      inventory row is added. */
  function Register(db: Db, v: Registration): (r: Outcome)
    ensures r.reply.Failure? ==> r.db == db
    ensures r.reply.Failure? ==> r.reply.error in {WarehouseNotFound, SkuNameConflict, InventoryExists}
    ensures r.reply.Success? ==>
      && r.db.inventory == db.inventory + [Inventory(r.reply.value.inventoryId, r.reply.value.productId, v.warehouseId, v.quantity)]
      && r.db == db.(products := r.db.products, inventory := r.db.inventory)
  {
    if !WarehouseExists(db.warehouses, v.warehouseId) then Outcome(db, Failure(WarehouseNotFound))
    else
      var found := FindBySku(db.products, v.sku);
      if found.Some? && found.value.name != v.name then Outcome(db, Failure(SkuNameConflict))
      else
        var product := if found.Some? then found.value
                       else Product(NextProductId(db.products), v.sku, v.name, v.price, None);
        if HasStock(db.inventory, product.id, v.warehouseId) then Outcome(db, Failure(InventoryExists))
        else
          var products := if found.Some? then db.products else db.products + [product];
          var row := Inventory(NextInventoryId(db.inventory), product.id, v.warehouseId, v.quantity);
          Outcome(db.(products := products, inventory := db.inventory + [row]), Success(Created(product.id, row.id)))
  }

  /** The request handler: the checks, then the store transition. */
  function CreateProduct(db: Db, req: ProductRequest): (r: Outcome)
    ensures r.reply.Failure? ==> r.db == db
    ensures r.reply.Failure? ==> Status(r.reply.error) == 400 || Status(r.reply.error) == 409
    ensures !ValidRequest(req) ==> r.reply.Failure? && Status(r.reply.error) == 400
  {
    match Validate(req)
    case Failure(e) => Outcome(db, Failure(e))
    case Success(v) => Register(db, v)
  }

  /** What the store keeps across registrations: one product per SKU,
      unique ids, one inventory row per (product, warehouse) pair, inventory
      rows that refer to stored products and warehouses, and no negative
      quantity or price. */
  predicate StoreInvariant(db: Db) {
    && UniqueSkus(db.products)
    && UniqueProductIds(db.products)
    && UniqueInventoryIds(db.inventory)
    && UniqueStockPositions(db.inventory)
    && (forall row :: row in db.inventory ==>
          && ProductExists(db.products, row.productId)
          && WarehouseExists(db.warehouses, row.warehouseId)
          && row.quantity >= 0)
    && (forall p :: p in db.products && p.price.Some? ==> p.price.value >= 0.0)
  }

  /** When the store admits a product `sku`/`name` into warehouse `wid`,
      stated without the handler's steps: the warehouse exists, every
      stored product with the SKU has that name, and no such product is
      stocked in the warehouse. */
  predicate Admits(db: Db, sku: string, name: string, wid: int) {
    && WarehouseExists(db.warehouses, wid)
    && (forall p :: p in db.products && p.sku == sku ==> p.name == name)
    && (forall p, row :: p in db.products && p.sku == sku && row in db.inventory && row.productId == p.id
          ==> row.warehouseId != wid)
  }

  /** When a request is accepted: it passes its checks and the store admits
      its trimmed SKU and name into its warehouse. */
  predicate Accepts(db: Db, req: ProductRequest) {
    && ValidRequest(req)
    && Admits(db, Trim(req.sku.value), Trim(req.name.value), req.warehouseId.value)
  }

  /** A registration is accepted exactly when `Accepts` holds. */
  lemma AcceptedExactly(db: Db, req: ProductRequest)
    requires StoreInvariant(db)
    ensures CreateProduct(db, req).reply.Success? <==> Accepts(db, req)
  {
    if ValidRequest(req) {
      RegisterAdmits(db, Validate(req).value);
    }
  }

  lemma RegisterAdmits(db: Db, v: Registration)
    requires StoreInvariant(db)
    ensures Register(db, v).reply.Success? <==> Admits(db, v.sku, v.name, v.warehouseId)
  {
    var found := FindBySku(db.products, v.sku);
    if found.Some? {
      FindUniqueSku(db.products, found.value);
      assert forall p :: p in db.products && p.sku == v.sku ==> p == found.value by {
        forall p | p in db.products && p.sku == v.sku ensures p == found.value {
          FindUniqueSku(db.products, p);
        }
      }
    } else {
      var id := NextProductId(db.products);
      assert !HasStock(db.inventory, id, v.warehouseId);
    }
  }

  /** A request naming a warehouse that is not stored is refused with 400,
      and the store is unchanged. */
  lemma UnknownWarehouseRejected(db: Db, req: ProductRequest)
    requires ValidRequest(req)
    requires !WarehouseExists(db.warehouses, req.warehouseId.value)
    ensures CreateProduct(db, req) == Outcome(db, Failure(WarehouseNotFound))
    ensures Status(WarehouseNotFound) == 400
  {
  }

  /** A SKU stored under another name is refused with 409, and neither
      products nor inventory change. */
  lemma SkuNameConflictRejected(db: Db, req: ProductRequest, p: Product)
    requires UniqueSkus(db.products)
    requires ValidRequest(req) && WarehouseExists(db.warehouses, req.warehouseId.value)
    requires p in db.products && p.sku == Trim(req.sku.value) && p.name != Trim(req.name.value)
    ensures CreateProduct(db, req) == Outcome(db, Failure(SkuNameConflict))
    ensures Status(SkuNameConflict) == 409
  {
    FindUniqueSku(db.products, p);
  }

  /** A product already stocked in the warehouse is refused with 409, and
      the stored quantity is untouched. */
  lemma DuplicateStockRejected(db: Db, req: ProductRequest, p: Product, row: Inventory)
    requires UniqueSkus(db.products)
    requires ValidRequest(req) && WarehouseExists(db.warehouses, req.warehouseId.value)
    requires p in db.products && p.sku == Trim(req.sku.value) && p.name == Trim(req.name.value)
    requires row in db.inventory && row.productId == p.id && row.warehouseId == req.warehouseId.value
    ensures CreateProduct(db, req) == Outcome(db, Failure(InventoryExists))
    ensures Status(InventoryExists) == 409
  {
    FindUniqueSku(db.products, p);
  }

  /** The effect of a successful registration: a product is created exactly
      when none carried the SKU, with a fresh id, the trimmed SKU and name,
      the price and no threshold; otherwise the stored one is reused as it
      is. Exactly one inventory row is added, with a fresh id and the
      requested quantity (0 when none was given). Nothing else changes. */
  lemma SuccessfulRegistration(db: Db, req: ProductRequest)
    requires CreateProduct(db, req).reply.Success?
    ensures var r := CreateProduct(db, req);
            var v := Validate(req).value;
            var created := r.reply.value;
            && v.quantity == (if req.initialQuantity.Given? then req.initialQuantity.value else 0)
            && r.db.inventory == db.inventory + [Inventory(created.inventoryId, created.productId, v.warehouseId, v.quantity)]
            && (forall row :: row in db.inventory ==> row.id != created.inventoryId)
            && ((forall p :: p in db.products ==> p.sku != v.sku) <==> |r.db.products| == |db.products| + 1)
            && ((forall p :: p in db.products ==> p.sku != v.sku) ==>
                  && r.db.products == db.products + [Product(created.productId, v.sku, v.name, v.price, None)]
                  && !ProductExists(db.products, created.productId))
            && ((exists p :: p in db.products && p.sku == v.sku) ==>
                  && r.db.products == db.products
                  && exists p :: p in db.products && p.id == created.productId && p.sku == v.sku && p.name == v.name)
            && r.db == db.(products := r.db.products, inventory := r.db.inventory)
  {
    var v := Validate(req).value;
    var found := FindBySku(db.products, v.sku);
    if found.None? {
      var id := NextProductId(db.products);
      assert !ProductExists(db.products, id);
    }
  }

  /** Registration keeps the store invariant, whatever the request. */
  lemma InvariantPreserved(db: Db, req: ProductRequest)
    requires StoreInvariant(db)
    ensures StoreInvariant(CreateProduct(db, req).db)
  {
    var r := CreateProduct(db, req);
    if r.reply.Success? {
      var v := Validate(req).value;
      var found := FindBySku(db.products, v.sku);
      var created := r.reply.value;
      var row := Inventory(created.inventoryId, created.productId, v.warehouseId, v.quantity);
      assert r.db.inventory == db.inventory + [row];
      assert !HasStock(db.inventory, created.productId, v.warehouseId);
      AppendedRowKeepsKeys(db.inventory, row);
      if found.None? {
        var p := Product(created.productId, v.sku, v.name, v.price, None);
        assert r.db.products == db.products + [p];
        AppendedProductKeepsKeys(db.products, p);
      } else {
        assert found.value in db.products;
      }
    }
  }

  lemma AppendedProductKeepsKeys(ps: seq<Product>, p: Product)
    requires UniqueSkus(ps) && UniqueProductIds(ps)
    requires forall q :: q in ps ==> q.sku != p.sku && q.id != p.id
    ensures UniqueSkus(ps + [p]) && UniqueProductIds(ps + [p])
    ensures forall q :: q in ps + [p] <==> q in ps || q == p
  {
    var ps' := ps + [p];
    forall i, j | 0 <= i < j < |ps'|
      ensures ps'[i].sku != ps'[j].sku && ps'[i].id != ps'[j].id
    {
      if j == |ps| { assert ps'[i] in ps; }
    }
  }

  lemma AppendedRowKeepsKeys(inv: seq<Inventory>, row: Inventory)
    requires UniqueInventoryIds(inv) && UniqueStockPositions(inv)
    requires forall q :: q in inv ==> q.id != row.id
    requires !HasStock(inv, row.productId, row.warehouseId)
    ensures UniqueInventoryIds(inv + [row]) && UniqueStockPositions(inv + [row])
    ensures forall q :: q in inv + [row] <==> q in inv || q == row
  {
    var inv' := inv + [row];
    forall i, j | 0 <= i < j < |inv'|
      ensures && inv'[i].id != inv'[j].id
              && (inv'[i].productId != inv'[j].productId || inv'[i].warehouseId != inv'[j].warehouseId)
    {
      if j == |inv| { assert inv'[i] in inv; }
    }
  }

  /** Submitting the same accepted request again is refused as a duplicate
      inventory row, and the store stays as the first request left it: no
      second product and no second row for the pair. */
  lemma RepeatedRequestRejected(db: Db, req: ProductRequest)
    requires StoreInvariant(db)
    requires CreateProduct(db, req).reply.Success?
    ensures var db1 := CreateProduct(db, req).db;
            CreateProduct(db1, req) == Outcome(db1, Failure(InventoryExists))
  {
    var r := CreateProduct(db, req);
    var v := Validate(req).value;
    var created := r.reply.value;
    InvariantPreserved(db, req);
    SuccessfulRegistration(db, req);
    var row := Inventory(created.inventoryId, created.productId, v.warehouseId, v.quantity);
    assert row in r.db.inventory;
    var p :| p in r.db.products && p.id == created.productId && p.sku == v.sku && p.name == v.name by {
      if forall q :: q in db.products ==> q.sku != v.sku {
        assert r.db.products[|db.products|] == Product(created.productId, v.sku, v.name, v.price, None);
      }
    }
    DuplicateStockRejected(r.db, req, p, row);
  }
}
