/** Alert rows: what the query reports per joined tuple, the stockout
    estimate, and the ordering by current stock. */
module AlertRows {
  import opened Wrappers
  import opened Tables
  import opened Join

  datatype SupplierContact = SupplierContact(id: int, name: string, contactEmail: string)

  datatype Alert = Alert(
    productId: int,
    productName: string,
    sku: string,
    warehouseId: int,
    warehouseName: string,
    currentStock: int,
    threshold: int,
    daysUntilStockout: Option<int>,
    supplier: SupplierContact)

  /** Integer division rounding toward zero, as Python's `int()` does to
      the quotient of two numbers. */
  function DivTowardZero(a: int, b: int): (q: int)
    requires b > 0
    ensures a >= 0 ==> q >= 0 && q * b <= a < (q + 1) * b
    ensures a < 0 ==> q <= 0 && (q - 1) * b < a <= q * b
  {
    if a >= 0 then
      FloorDivBounds(a, b);
      a / b
    else
      FloorDivBounds(-a, b);
      var q := -((-a) / b);
      assert q * b == -(((-a) / b) * b) && (q - 1) * b == -(((-a) / b + 1) * b);
      q
  }

  /** Bounds of `/` on a non-negative dividend and a positive divisor. */
  lemma FloorDivBounds(a: int, b: int)
    requires a >= 0 && b > 0
    ensures a / b >= 0 && (a / b) * b <= a < (a / b + 1) * b
  {
    var q := a / b;
    var r := a % b;
    assert a == q * b + r && 0 <= r < b;
    assert (q + 1) * b == q * b + b;
  }

  /** Days until the stock runs out at the recent average daily sales rate
      `totalSold / recentDays`: absent when that rate is not positive (no
      lookback window, or no positive total), otherwise `quantity` divided
      by the rate, rounded toward zero. The quotient is computed exactly,
      as `quantity * recentDays / totalSold`. */
  function DaysUntilStockout(quantity: int, totalSold: int, recentDays: int): (r: Option<int>)
    ensures r.Some? <==> recentDays > 0 && totalSold > 0
    ensures r.Some? && quantity >= 0 ==>
      r.value >= 0 && r.value * totalSold <= quantity * recentDays < (r.value + 1) * totalSold
    ensures r.Some? && quantity < 0 ==>
      r.value <= 0 && (r.value - 1) * totalSold < quantity * recentDays <= r.value * totalSold
  {
    if recentDays > 0 && totalSold > 0 then
      var n := quantity * recentDays;
      assert quantity >= 0 ==> n >= 0 by {
        if quantity >= 0 { NonNegativeProduct(quantity, recentDays); }
      }
      assert quantity < 0 ==> n < 0 by {
        if quantity < 0 { NonNegativeProduct(-quantity, recentDays); assert -n == (-quantity) * recentDays; }
      }
      Some(DivTowardZero(n, totalSold))
    else None
  }

  lemma NonNegativeProduct(a: int, b: int)
    requires a >= 0 && b > 0
    ensures a * b >= 0
    ensures a > 0 ==> a * b > 0
  {
  }

  /** The alert row reported for a joined tuple: the product, warehouse and
      supplier columns are the tuple's, the stock is its inventory quantity,
      the threshold is the one the filter compared against, and the
      estimate uses the tuple's total sold. */
  function ToAlert(c: Candidate, recentDays: int): (r: Alert)
    ensures r.productId == c.product.id && r.productName == c.product.name && r.sku == c.product.sku
    ensures r.warehouseId == c.warehouse.id && r.warehouseName == c.warehouse.name
    ensures r.supplier == SupplierContact(c.supplier.id, c.supplier.name, c.supplier.contactInfo)
    ensures r.currentStock == c.inv.quantity
    ensures c.inv.quantity <= EffectiveThreshold(c.product) <==> r.currentStock <= r.threshold
    ensures r.daysUntilStockout.Some? <==> recentDays > 0 && c.totalSold > 0
    ensures r.daysUntilStockout.Some? && r.currentStock >= 0 ==>
      r.daysUntilStockout.value * c.totalSold <= r.currentStock * recentDays
      < (r.daysUntilStockout.value + 1) * c.totalSold
  {
    Alert(
      c.product.id, c.product.name, c.product.sku,
      c.warehouse.id, c.warehouse.name,
      c.inv.quantity,
      EffectiveThreshold(c.product),
      DaysUntilStockout(c.inv.quantity, c.totalSold, recentDays),
      SupplierContact(c.supplier.id, c.supplier.name, c.supplier.contactInfo))
  }

  predicate SortedByStock(s: seq<Alert>) {
    forall i, j :: 0 <= i < j < |s| ==> s[i].currentStock <= s[j].currentStock
  }

  /** Places `a` into a sorted sequence, before the first row whose stock
      is not smaller. */
  function InsertByStock(a: Alert, s: seq<Alert>): (r: seq<Alert>)
    requires SortedByStock(s)
    ensures forall x :: x in r <==> x == a || x in s
    ensures SortedByStock(r)
    ensures multiset(r) == multiset(s) + multiset{a}
  {
    if |s| == 0 || a.currentStock <= s[0].currentStock then
      SortedCons(a, s);
      [a] + s
    else
      var rest := InsertByStock(a, s[1..]);
      SortedCons(s[0], rest);
      assert s == [s[0]] + s[1..];
      [s[0]] + rest
  }

  /** A row whose stock is at most every stock of a sorted sequence can be
      put in front of it. */
  lemma SortedCons(x: Alert, s: seq<Alert>)
    requires SortedByStock(s)
    requires forall y :: y in s ==> x.currentStock <= y.currentStock
    ensures SortedByStock([x] + s)
  {
    var r := [x] + s;
    forall i, j | 0 <= i < j < |r|
      ensures r[i].currentStock <= r[j].currentStock
    {
      assert r[j] == s[j - 1];
      if i > 0 {
        assert r[i] == s[i - 1];
      }
    }
  }

  /** Orders rows by ascending current stock; the result is a permutation
      of the input. */
  function SortByStock(s: seq<Alert>): (r: seq<Alert>)
    ensures SortedByStock(r)
    ensures multiset(r) == multiset(s)
  {
    if |s| == 0 then []
    else
      assert s == [s[0]] + s[1..];
      InsertByStock(s[0], SortByStock(s[1..]))
  }

  /** Number of rows for product `pid` in warehouse `wid`. */
  function CountAlertsAt(s: seq<Alert>, pid: int, wid: int): nat {
    if |s| == 0 then 0
    else (if s[0].productId == pid && s[0].warehouseId == wid then 1 else 0) + CountAlertsAt(s[1..], pid, wid)
  }

  lemma {:induction false} InsertKeepsCount(a: Alert, s: seq<Alert>, pid: int, wid: int)
    requires SortedByStock(s)
    ensures CountAlertsAt(InsertByStock(a, s), pid, wid)
         == CountAlertsAt(s, pid, wid) + (if a.productId == pid && a.warehouseId == wid then 1 else 0)
  {
    if |s| == 0 || a.currentStock <= s[0].currentStock {
      assert ([a] + s)[1..] == s;
    } else {
      InsertKeepsCount(a, s[1..], pid, wid);
      assert ([s[0]] + InsertByStock(a, s[1..]))[1..] == InsertByStock(a, s[1..]);
    }
  }

  /** Ordering by stock keeps the number of rows of every (product,
      warehouse) pair. */
  lemma {:induction false} SortKeepsCount(s: seq<Alert>, pid: int, wid: int)
    ensures CountAlertsAt(SortByStock(s), pid, wid) == CountAlertsAt(s, pid, wid)
  {
    if |s| > 0 {
      SortKeepsCount(s[1..], pid, wid);
      InsertKeepsCount(s[0], SortByStock(s[1..]), pid, wid);
    }
  }

  lemma SortedHeadIsLeast(s: seq<Alert>, x: Alert)
    requires SortedByStock(s) && x in s
    ensures s[0].currentStock <= x.currentStock
  {
  }

  /** Dropping the row at position `k` keeps a sequence sorted and removes
      exactly that row. */
  lemma RemoveAt(s: seq<Alert>, k: nat)
    requires SortedByStock(s) && k < |s|
    ensures SortedByStock(s[..k] + s[k + 1..])
    ensures multiset(s[..k] + s[k + 1..]) == multiset(s) - multiset{s[k]}
  {
    var t := s[..k] + s[k + 1..];
    assert s == s[..k] + [s[k]] + s[k + 1..];
    forall i, j | 0 <= i < j < |t|
      ensures t[i].currentStock <= t[j].currentStock
    {
      var i' := if i < k then i else i + 1;
      var j' := if j < k then j else j + 1;
      assert t[i] == s[i'] && t[j] == s[j'];
    }
  }

  /** Reassembles the stock columns after the first row of `a` was matched
      with row `k` of `b`. */
  lemma StockColumnsAfterRemoval(a: seq<Alert>, b: seq<Alert>, k: nat)
    requires SortedByStock(b) && 0 < |a| == |b| && k < |b|
    requires a[0].currentStock == b[0].currentStock == b[k].currentStock
    requires forall i :: 0 <= i < |a| - 1 ==> a[1..][i].currentStock == (b[..k] + b[k + 1..])[i].currentStock
    ensures forall i :: 0 <= i < |a| ==> a[i].currentStock == b[i].currentStock
  {
    var b' := b[..k] + b[k + 1..];
    forall i | 0 < i < |a|
      ensures a[i].currentStock == b[i].currentStock
    {
      assert a[i] == a[1..][i - 1];
      if i - 1 < k {
        assert b'[i - 1] == b[i - 1];
        assert b[0].currentStock <= b[i - 1].currentStock;
        assert b[i].currentStock <= b[k].currentStock;
      } else {
        assert b'[i - 1] == b[i];
      }
    }
  }

  /** Two orderings by stock of the same rows can differ only in the order
      of rows with equal stock: their stock columns agree position by
      position. */
  lemma {:induction false} SortedPermutationsAgreeOnStock(a: seq<Alert>, b: seq<Alert>)
    requires SortedByStock(a) && SortedByStock(b)
    requires multiset(a) == multiset(b)
    ensures |a| == |b|
    ensures forall i :: 0 <= i < |a| ==> a[i].currentStock == b[i].currentStock
    decreases |a|
  {
    assert |a| == |multiset(a)| == |multiset(b)| == |b|;
    if |a| > 0 {
      var k := MatchHead(a, b);
      DropMatched(a, b, k);
      SortedPermutationsAgreeOnStock(a[1..], b[..k] + b[k + 1..]);
      StockColumnsAfterRemoval(a, b, k);
    }
  }

  /** The first row of `a` sits at some position `k` of `b`, and both
      first rows have the least stock. */
  lemma MatchHead(a: seq<Alert>, b: seq<Alert>) returns (k: nat)
    requires SortedByStock(a) && SortedByStock(b)
    requires multiset(a) == multiset(b) && |a| > 0
    ensures k < |b| && b[k] == a[0]
    ensures a[0].currentStock == b[0].currentStock
  {
    assert a[0] in multiset(b) && b[0] in multiset(a);
    SortedHeadIsLeast(a, b[0]);
    SortedHeadIsLeast(b, a[0]);
    k :| 0 <= k < |b| && b[k] == a[0];
  }

  /** Removing the matched rows leaves two orderings of the same rows. */
  lemma DropMatched(a: seq<Alert>, b: seq<Alert>, k: nat)
    requires SortedByStock(a) && SortedByStock(b)
    requires multiset(a) == multiset(b) && 0 < |a| && k < |b| && b[k] == a[0]
    ensures SortedByStock(a[1..]) && SortedByStock(b[..k] + b[k + 1..])
    ensures multiset(a[1..]) == multiset(b[..k] + b[k + 1..])
  {
    RemoveAt(b, k);
    DropFirst(a);
  }

  lemma DropFirst(s: seq<Alert>)
    requires SortedByStock(s) && |s| > 0
    ensures SortedByStock(s[1..])
    ensures multiset(s[1..]) == multiset(s) - multiset{s[0]}
  {
    assert s == [s[0]] + s[1..];
    assert multiset(s) == multiset{s[0]} + multiset(s[1..]);
  }
}
