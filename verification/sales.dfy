/** The recent-sales aggregate of the alert query: order items joined to
    their orders, kept when the order is completed, recent and placed in
    one of the company's warehouses, then summed per product. */
module Sales {
  import opened Tables

  /** One joined (order item, order) row, reduced to the columns the
      aggregate reads. */
  datatype Sale = Sale(productId: int, quantity: int)

  /** The three conditions an order must meet for its items to count. */
  predicate Qualifies(o: Order, warehouseIds: seq<int>, cutoff: int) {
    && o.warehouseId in warehouseIds
    && o.orderDate >= cutoff
    && o.status == "completed"
  }

  /** The join rows contributed by one order item: one per qualifying order
      whose id matches the item's order id. */
  function ItemSales(orders: seq<Order>, item: OrderItem, warehouseIds: seq<int>, cutoff: int): (r: seq<Sale>)
    ensures forall s :: s in r <==>
      s == Sale(item.productId, item.quantity)
      && exists o :: o in orders && o.id == item.orderId && Qualifies(o, warehouseIds, cutoff)
    ensures |r| == QualifyingWithId(orders, item.orderId, warehouseIds, cutoff)
  {
    if |orders| == 0 then []
    else
      var last := orders[|orders| - 1];
      var prefix := ItemSales(orders[..|orders| - 1], item, warehouseIds, cutoff);
      assert forall o :: o in orders ==> o in orders[..|orders| - 1] || o == last;
      if last.id == item.orderId && Qualifies(last, warehouseIds, cutoff)
      then prefix + [Sale(item.productId, item.quantity)]
      else prefix
  }

  /** Number of qualifying orders carrying order id `id`. */
  function QualifyingWithId(orders: seq<Order>, id: int, warehouseIds: seq<int>, cutoff: int): nat {
    if |orders| == 0 then 0
    else
      var last := orders[|orders| - 1];
      QualifyingWithId(orders[..|orders| - 1], id, warehouseIds, cutoff)
      + (if last.id == id && Qualifies(last, warehouseIds, cutoff) then 1 else 0)
  }

  /** All rows of the filtered join of `items` with `orders`. */
  function SaleRows(items: seq<OrderItem>, orders: seq<Order>, warehouseIds: seq<int>, cutoff: int): (r: seq<Sale>)
    ensures forall s :: s in r <==>
      exists item, o :: && item in items && o in orders && item.orderId == o.id
                        && Qualifies(o, warehouseIds, cutoff) && s == Sale(item.productId, item.quantity)
  {
    if |items| == 0 then []
    else
      var last := items[|items| - 1];
      assert forall it :: it in items ==> it in items[..|items| - 1] || it == last;
      SaleRows(items[..|items| - 1], orders, warehouseIds, cutoff) + ItemSales(orders, last, warehouseIds, cutoff)
  }

  /** The reference per-product total: the sum of the quantities of the rows
      for `productId`. */
  function SumFor(rows: seq<Sale>, productId: int): int {
    if |rows| == 0 then 0
    else
      var last := rows[|rows| - 1];
      SumFor(rows[..|rows| - 1], productId) + (if last.productId == productId then last.quantity else 0)
  }

  /** `q` added `k` times. */
  function Times(q: int, k: nat): int {
    if k == 0 then 0 else Times(q, k - 1) + q
  }

  /** The reference total sold of `productId`, item by item: each item of
      the product counts its quantity once for every qualifying order that
      carries its order id. */
  function ItemTotal(items: seq<OrderItem>, orders: seq<Order>, warehouseIds: seq<int>, cutoff: int,
                     productId: int): int {
    if |items| == 0 then 0
    else
      var last := items[|items| - 1];
      ItemTotal(items[..|items| - 1], orders, warehouseIds, cutoff, productId)
      + (if last.productId == productId
         then Times(last.quantity, QualifyingWithId(orders, last.orderId, warehouseIds, cutoff))
         else 0)
  }

  lemma {:induction false} SumForAppend(a: seq<Sale>, b: seq<Sale>, productId: int)
    ensures SumFor(a + b, productId) == SumFor(a, productId) + SumFor(b, productId)
  {
    if |b| == 0 {
      assert a + b == a;
    } else {
      assert (a + b)[..|a + b| - 1] == a + b[..|b| - 1];
      SumForAppend(a, b[..|b| - 1], productId);
    }
  }

  /** One item's join rows add its quantity to its product's total once per
      qualifying order with its order id. */
  lemma {:induction false} ItemSalesTotal(orders: seq<Order>, item: OrderItem, warehouseIds: seq<int>, cutoff: int,
                                          productId: int)
    ensures SumFor(ItemSales(orders, item, warehouseIds, cutoff), productId)
         == if item.productId == productId
            then Times(item.quantity, QualifyingWithId(orders, item.orderId, warehouseIds, cutoff))
            else 0
  {
    if |orders| > 0 {
      var last := orders[|orders| - 1];
      var prefix := ItemSales(orders[..|orders| - 1], item, warehouseIds, cutoff);
      ItemSalesTotal(orders[..|orders| - 1], item, warehouseIds, cutoff, productId);
      if last.id == item.orderId && Qualifies(last, warehouseIds, cutoff) {
        assert (prefix + [Sale(item.productId, item.quantity)])[..|prefix|] == prefix;
      }
    }
  }

  /** The summed join rows of a product equal the item-by-item reference
      total, so duplicate lines of one order each count. */
  lemma {:induction false} SaleRowsTotal(items: seq<OrderItem>, orders: seq<Order>, warehouseIds: seq<int>,
                                         cutoff: int, productId: int)
    ensures SumFor(SaleRows(items, orders, warehouseIds, cutoff), productId)
         == ItemTotal(items, orders, warehouseIds, cutoff, productId)
  {
    if |items| > 0 {
      var last := items[|items| - 1];
      SaleRowsTotal(items[..|items| - 1], orders, warehouseIds, cutoff, productId);
      SumForAppend(SaleRows(items[..|items| - 1], orders, warehouseIds, cutoff),
                   ItemSales(orders, last, warehouseIds, cutoff), productId);
      ItemSalesTotal(orders, last, warehouseIds, cutoff, productId);
    }
  }

  /** Rows of other products do not contribute to a product's total. */
  lemma {:induction false} SumForAbsent(rows: seq<Sale>, productId: int)
    requires forall s :: s in rows ==> s.productId != productId
    ensures SumFor(rows, productId) == 0
  {
    if |rows| > 0 {
      assert rows[|rows| - 1] in rows;
      assert forall s :: s in rows[..|rows| - 1] ==> s in rows;
      SumForAbsent(rows[..|rows| - 1], productId);
    }
  }

  /** The GROUP BY product_id / SUM(quantity) aggregate: a product is a key
      exactly when at least one row carries it, and its value is that
      product's total. */
  function GroupSum(rows: seq<Sale>): (m: map<int, int>)
    ensures forall pid :: pid in m <==> exists s :: s in rows && s.productId == pid
    ensures forall pid :: pid in m ==> m[pid] == SumFor(rows, pid)
  {
    if |rows| == 0 then map[]
    else
      var last := rows[|rows| - 1];
      var m := GroupSum(rows[..|rows| - 1]);
      assert forall s :: s in rows ==> s in rows[..|rows| - 1] || s == last;
      assert last.productId !in m ==> SumFor(rows[..|rows| - 1], last.productId) == 0 by {
        if last.productId !in m {
          SumForAbsent(rows[..|rows| - 1], last.productId);
        }
      }
      m[last.productId := (if last.productId in m then m[last.productId] else 0) + last.quantity]
  }

  /** Adds one row to the aggregate. */
  function AddSale(m: map<int, int>, s: Sale): map<int, int> {
    m[s.productId := (if s.productId in m then m[s.productId] else 0) + s.quantity]
  }

  /** An extra order joins an item only when it matches and qualifies. */
  lemma ItemSalesExtraOrder(orders: seq<Order>, o: Order, item: OrderItem, warehouseIds: seq<int>, cutoff: int)
    ensures ItemSales(orders + [o], item, warehouseIds, cutoff)
         == ItemSales(orders, item, warehouseIds, cutoff)
            + (if o.id == item.orderId && Qualifies(o, warehouseIds, cutoff) then [Sale(item.productId, item.quantity)] else [])
  {
    assert (orders + [o])[..|orders|] == orders;
  }

  /** An order that joins none of the items, or does not qualify, adds no
      row to the join. */
  lemma {:induction false} SaleRowsExtraOrder(items: seq<OrderItem>, orders: seq<Order>, o: Order,
                                              warehouseIds: seq<int>, cutoff: int)
    requires forall item :: item in items ==> !(item.orderId == o.id && Qualifies(o, warehouseIds, cutoff))
    ensures SaleRows(items, orders + [o], warehouseIds, cutoff) == SaleRows(items, orders, warehouseIds, cutoff)
  {
    if |items| > 0 {
      var last := items[|items| - 1];
      assert last in items;
      assert forall it :: it in items[..|items| - 1] ==> it in items;
      SaleRowsExtraOrder(items[..|items| - 1], orders, o, warehouseIds, cutoff);
      ItemSalesExtraOrder(orders, o, last, warehouseIds, cutoff);
    }
  }

  /** An item whose order id no order carries joins nothing. */
  lemma {:induction false} ItemSalesOrphan(orders: seq<Order>, item: OrderItem, warehouseIds: seq<int>, cutoff: int)
    requires forall o :: o in orders ==> o.id != item.orderId
    ensures ItemSales(orders, item, warehouseIds, cutoff) == []
  {
    if |orders| > 0 {
      assert orders[|orders| - 1] in orders;
      assert forall o :: o in orders[..|orders| - 1] ==> o in orders;
      ItemSalesOrphan(orders[..|orders| - 1], item, warehouseIds, cutoff);
    }
  }

  /** A new qualifying order with one new item adds exactly that item's
      quantity to its product's total and leaves every other total alone. */
  lemma QualifyingSaleCounted(items: seq<OrderItem>, orders: seq<Order>, o: Order, item: OrderItem,
                              warehouseIds: seq<int>, cutoff: int)
    requires Qualifies(o, warehouseIds, cutoff)
    requires item.orderId == o.id
    requires forall o' :: o' in orders ==> o'.id != o.id
    requires forall it :: it in items ==> it.orderId != o.id
    ensures GroupSum(SaleRows(items + [item], orders + [o], warehouseIds, cutoff))
         == AddSale(GroupSum(SaleRows(items, orders, warehouseIds, cutoff)), Sale(item.productId, item.quantity))
  {
    var rows := SaleRows(items, orders, warehouseIds, cutoff);
    var sale := Sale(item.productId, item.quantity);
    var rows' := SaleRows(items + [item], orders + [o], warehouseIds, cutoff);
    assert rows' == SaleRows(items, orders + [o], warehouseIds, cutoff) + ItemSales(orders + [o], item, warehouseIds, cutoff) by {
      assert (items + [item])[..|items|] == items;
    }
    assert SaleRows(items, orders + [o], warehouseIds, cutoff) == rows by {
      SaleRowsExtraOrder(items, orders, o, warehouseIds, cutoff);
    }
    assert ItemSales(orders + [o], item, warehouseIds, cutoff) == [sale] by {
      ItemSalesExtraOrder(orders, o, item, warehouseIds, cutoff);
      ItemSalesOrphan(orders, item, warehouseIds, cutoff);
    }
    assert rows' == rows + [sale];
    GroupSumAppend(rows, sale);
  }

  lemma GroupSumAppend(rows: seq<Sale>, s: Sale)
    ensures GroupSum(rows + [s]) == AddSale(GroupSum(rows), s)
  {
    assert (rows + [s])[..|rows|] == rows;
  }
}
