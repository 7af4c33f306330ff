/**
 * The order repository: lookups by reference and by owner and reference, the
 * owner's filtered, counted and paged listing, and order creation and update.
 * Every query skips soft-deleted orders, and the products attached to an order
 * that is read are the linked product rows that are not soft-deleted.
 */
module OrderRepository {
  import opened Model
  import opened Store

  /**
   * The query `order_reference = ? AND is_deleted = false`; with an owner, also
   * `user_id = ?`.
   */
  predicate OrderMatches(row: OrderRow, owner: Option<nat>, reference: string)
  {
    !row.isDeleted && row.reference == reference && (owner.None? || row.userId == owner.value)
  }

  /**
   * Index of the last matching row among rows[..upto]. Finding into a single
   * record scans every matching row into the same record, so the last row read
   * (in id order) is the one returned.
   */
  function LastMatch(rows: seq<OrderRow>, owner: Option<nat>, reference: string, upto: nat): (r: Option<nat>)
    requires upto <= |rows|
    ensures r.Some? ==> r.value < upto && OrderMatches(rows[r.value], owner, reference)
    ensures forall j :: 0 <= j < upto && OrderMatches(rows[j], owner, reference) ==> r.Some? && j <= r.value
  {
    if upto == 0 then None
    else if OrderMatches(rows[upto - 1], owner, reference) then Some(upto - 1)
    else LastMatch(rows, owner, reference, upto - 1)
  }

  /**
   * The product preload: for each linked id, the product row with that id when
   * it exists and is not soft-deleted, in link order.
   */
  function LiveProducts(ids: seq<nat>, products: seq<Product>): (r: seq<Product>)
    ensures |r| <= |ids|
    ensures forall p :: p in r ==> p in products && !p.isDeleted && p.id in ids
  {
    if ids == [] then []
    else
      var rest := LiveProducts(ids[1..], products);
      if 1 <= ids[0] <= |products| && !products[ids[0] - 1].isDeleted && products[ids[0] - 1].id == ids[0]
      then [products[ids[0] - 1]] + rest
      else rest
  }

  /** An order row as it is read back, with its live products attached. */
  function Attach(row: OrderRow, products: seq<Product>): Order
  {
    Order(row.id, row.userId, row.status, row.totalPrice, row.reference, row.isDeleted,
          LiveProducts(row.productIds, products))
  }

  /** Where reading one order fails: the order query itself, or the preload of its products after the row was scanned. */
  datatype ReadFault = QueryFault(cause: string) | PreloadFault(cause: string)

  predicate QueryFails(fault: Option<ReadFault>)
  {
    fault.Some? && fault.value.QueryFault?
  }

  /** The error reading one order reports: no row matched, or the storage failed. */
  datatype ReadError = RecordNotFound | ReadFailed(cause: string)

  /**
   * What reading one order hands back, like the Go pair of record and error: the
   * record as far as it was filled (None for the zero record, whose id is 0) and
   * the error, if any.
   */
  datatype OrderRead = OrderRead(order: Option<Order>, err: Option<ReadError>)

  /**
   * FindOrder: the live order with that reference, whoever owns it. A failed
   * order query leaves the zero record; no matching row is "record not found",
   * and the preload is then skipped; a preload that fails after the row was
   * scanned leaves the row's columns in the record, without products, next to
   * the error.
   */
  function FindOrder(orders: seq<OrderRow>, products: seq<Product>, reference: string, fault: Option<ReadFault>)
    : (r: OrderRead)
    ensures QueryFails(fault) ==> r == OrderRead(None, Some(ReadFailed(fault.value.cause)))
    ensures !QueryFails(fault) ==>
      (r.order.None? <==> forall j :: 0 <= j < |orders| ==> !OrderMatches(orders[j], None, reference))
    ensures r.order.None? && !QueryFails(fault) ==> r.err == Some(RecordNotFound)
    ensures r.order.Some? ==> r.err == (if fault.None? then None else Some(ReadFailed(fault.value.cause)))
    ensures r.order.Some? ==> exists k :: (0 <= k < |orders| && OrderMatches(orders[k], None, reference)
                                           && r.order.value == (if fault.None? then Attach(orders[k], products)
                                                                else Attach(orders[k], products).(products := [])))
    ensures r.err.None? <==> r.order.Some? && fault.None?
  {
    if QueryFails(fault) then OrderRead(None, Some(ReadFailed(fault.value.cause)))
    else
      var k := LastMatch(orders, None, reference, |orders|);
      if k.None? then OrderRead(None, Some(RecordNotFound))
      else if fault.Some? then OrderRead(Some(Attach(orders[k.value], products).(products := [])), Some(ReadFailed(fault.value.cause)))
      else OrderRead(Some(Attach(orders[k.value], products)), None)
  }

  /**
   * GetUserOrder: the live order with that reference that belongs to the given
   * user; another user's order with the same reference is "not found". Any
   * failure, of the query or of the preload, is reported as Failed and the
   * record left beside it is dropped: the only caller reads the error first.
   */
  function GetUserOrder(orders: seq<OrderRow>, products: seq<Product>, userId: nat, reference: string,
                        fault: Option<string>): (r: Lookup<Order>)
    ensures fault.Some? ==> r == Failed(fault.value)
    ensures fault.None? ==> !r.Failed?
    ensures r.Found? ==> r.value.userId == userId && r.value.reference == reference && !r.value.isDeleted
    ensures r.Found? ==> exists k :: (0 <= k < |orders| && OrderMatches(orders[k], Some(userId), reference)
                                      && r.value == Attach(orders[k], products))
    ensures fault.None? ==> (r.NotFound? <==> forall j :: 0 <= j < |orders| ==> !OrderMatches(orders[j], Some(userId), reference))
  {
    if fault.Some? then Failed(fault.value)
    else
      var k := LastMatch(orders, Some(userId), reference, |orders|);
      if k.Some? then Found(Attach(orders[k.value], products)) else NotFound
  }

  /**
   * The listing filter: the user's live orders, further restricted to one
   * status when the status text is not empty.
   */
  predicate Listed(row: OrderRow, userId: nat, status: string)
  {
    row.userId == userId && !row.isDeleted && (status == "" || StatusName(row.status) == status)
  }

  function UserOrders(orders: seq<OrderRow>, userId: nat, status: string): (r: seq<OrderRow>)
    ensures |r| <= |orders|
    ensures forall row :: row in r <==> row in orders && Listed(row, userId, status)
    ensures (forall a, b :: 0 <= a < b < |orders| ==> orders[a].id < orders[b].id) ==>
            forall i, j :: 0 <= i < j < |r| ==> r[i].id < r[j].id
  {
    if orders == [] then []
    else
      var rest := UserOrders(orders[1..], userId, status);
      assert forall j :: 0 <= j < |rest| ==> rest[j] in orders[1..];
      if Listed(orders[0], userId, status) then [orders[0]] + rest else rest
  }

  /** The number of rows skipped before a page: `(page - 1) * limit`. */
  function Offset(page: int, limit: int): nat
    requires page >= 1 && limit >= 1
  {
    (page - 1) * limit
  }

  /** `Limit(limit).Offset((page - 1) * limit)` over the filtered rows. */
  function PageOf<T>(s: seq<T>, page: int, limit: int): (r: seq<T>)
    requires page >= 1 && limit >= 1
    ensures |r| <= limit
    ensures Offset(page, limit) >= |s| ==> r == []
    ensures Offset(page, limit) < |s| ==> |r| == (if Offset(page, limit) + limit <= |s| then limit else |s| - Offset(page, limit))
    ensures forall j :: 0 <= j < |r| ==> Offset(page, limit) + j < |s| && r[j] == s[Offset(page, limit) + j]
  {
    var offset := Offset(page, limit);
    if offset >= |s| then []
    else if offset + limit <= |s| then s[offset..offset + limit]
    else s[offset..]
  }

  function AttachAll(rows: seq<OrderRow>, products: seq<Product>): (r: seq<Order>)
    ensures |r| == |rows|
    ensures forall j :: 0 <= j < |rows| ==> r[j] == Attach(rows[j], products)
  {
    if rows == [] then [] else [Attach(rows[0], products)] + AttachAll(rows[1..], products)
  }

  datatype Listing = Listing(orders: seq<Order>, total: nat) | ListingFailed(cause: string)

  /**
   * GetUserOrders: the number of orders passing the filter, counted before
   * paging, and the requested page of them. A failed count or a failed page
   * read is reported as an error.
   */
  function GetUserOrders(orders: seq<OrderRow>, products: seq<Product>, userId: nat, status: string,
                         page: int, limit: int, countFault: Option<string>, findFault: Option<string>)
    : (r: Listing)
    requires page >= 1 && limit >= 1
    ensures countFault.Some? ==> r == ListingFailed(countFault.value)
    ensures countFault.None? && findFault.Some? ==> r == ListingFailed(findFault.value)
    ensures countFault.None? && findFault.None? ==> r.Listing?
    ensures r.Listing? ==> r.total == |UserOrders(orders, userId, status)| && |r.orders| <= limit
    ensures r.Listing? ==> |r.orders| == (if Offset(page, limit) >= r.total then 0
                                          else if Offset(page, limit) + limit <= r.total then limit
                                          else r.total - Offset(page, limit))
    ensures r.Listing? ==> forall j :: 0 <= j < |r.orders| ==>
      Offset(page, limit) + j < r.total && r.orders[j] == Attach(UserOrders(orders, userId, status)[Offset(page, limit) + j], products)
    ensures r.Listing? ==> forall j :: 0 <= j < |r.orders| ==>
      r.orders[j].userId == userId && !r.orders[j].isDeleted && (status == "" || StatusName(r.orders[j].status) == status)
  {
    if countFault.Some? then ListingFailed(countFault.value)
    else if findFault.Some? then ListingFailed(findFault.value)
    else
      var filtered := UserOrders(orders, userId, status);
      var paged := PageOf(filtered, page, limit);
      assert forall j :: 0 <= j < |paged| ==> paged[j] in filtered;
      Listing(AttachAll(paged, products), |filtered|)
  }

  /** The ids of a list of products, each once, in order of first appearance. */
  function DistinctIds(ps: seq<Product>): (r: seq<nat>)
    ensures forall i, j :: 0 <= i < j < |r| ==> r[i] != r[j]
    ensures forall id :: id in r <==> exists p :: p in ps && p.id == id
  {
    if ps == [] then []
    else
      var front := DistinctIds(ps[..|ps| - 1]);
      assert forall p :: p in ps <==> p in ps[..|ps| - 1] || p == ps[|ps| - 1];
      if ps[|ps| - 1].id in front then front else front + [ps[|ps| - 1].id]
  }

  /** The row an order is stored as: its columns plus the given product links. */
  function RowOf(order: Order, id: nat, productIds: seq<nat>): OrderRow
  {
    OrderRow(id, order.userId, order.status, order.totalPrice, order.reference, order.isDeleted, productIds)
  }

  /**
   * A saved order overwrites the columns of the row with its id; the product
   * links stay as they are. An unknown id matches no row.
   */
  function SaveOrder(orders: seq<OrderRow>, order: Order): seq<OrderRow>
  {
    if 1 <= order.id <= |orders| then orders[order.id - 1 := RowOf(order, order.id, orders[order.id - 1].productIds)]
    else orders
  }

  /**
   * Saving an order writes its columns over the row with its id, keeps every
   * row's product links, and leaves every other row as it was.
   */
  lemma SavedOrderReplacesColumns(orders: seq<OrderRow>, order: Order)
    ensures |SaveOrder(orders, order)| == |orders|
    ensures forall k :: 0 <= k < |orders| && k + 1 != order.id ==> SaveOrder(orders, order)[k] == orders[k]
    ensures forall k :: 0 <= k < |orders| ==> SaveOrder(orders, order)[k].productIds == orders[k].productIds
    ensures 1 <= order.id <= |orders| ==>
      var row := SaveOrder(orders, order)[order.id - 1];
      && row.id == order.id && row.userId == order.userId && row.status == order.status
      && row.totalPrice == order.totalPrice && row.reference == order.reference && row.isDeleted == order.isDeleted
  {
  }

  /**
   * CreateOrder: inserts the order under the next id, linked once to each of
   * its products, and returns it with that id; or returns (nil, err).
   */
  method CreateOrder(db: Database, order: Order, fault: Option<string>) returns (saved: Option<Order>, err: Option<string>)
    requires db.Valid()
    modifies db
    ensures db.Valid()
    ensures err == fault
    ensures fault.Some? ==> saved.None? && db.orders == old(db.orders)
    ensures fault.None? ==> (saved == Some(order.(id := |old(db.orders)| + 1))
                             && db.orders == old(db.orders) + [RowOf(order, |old(db.orders)| + 1, DistinctIds(order.products))])
    ensures db.users == old(db.users) && db.products == old(db.products)
  {
    if fault.Some? {
      return None, fault;
    }
    var id := |db.orders| + 1;
    db.orders := db.orders + [RowOf(order, id, DistinctIds(order.products))];
    return Some(order.(id := id)), None;
  }

  /**
   * UpdateOrder: save inside a transaction, then commit. A failed save rolls
   * back and returns (nil, err); a failed commit rolls back and returns
   * (order, nil); a successful commit returns (nil, nil). A failed commit is
   * never reported as an error.
   */
  method UpdateOrder(db: Database, order: Order, saveFault: Option<string>, commitFails: bool)
    returns (updated: Option<Order>, err: Option<string>)
    requires db.Valid()
    modifies db
    ensures db.Valid()
    ensures err == saveFault
    ensures updated == (if saveFault.None? && commitFails then Some(order) else None)
    ensures db.orders == (if saveFault.None? && !commitFails then SaveOrder(old(db.orders), order) else old(db.orders))
    ensures db.users == old(db.users) && db.products == old(db.products)
  {
    if saveFault.Some? {
      return None, saveFault;
    }
    if commitFails {
      return Some(order), None;
    }
    db.orders := SaveOrder(db.orders, order);
    return None, None;
  }

  /**
   * The products attached to an order read back are exactly the live product
   * rows it is linked to.
   */
  lemma {:induction false} AttachedProductsAreLiveLinks(ids: seq<nat>, products: seq<Product>, p: Product)
    requires ProductsIndexed(products)
    ensures p in LiveProducts(ids, products) <==> p in products && !p.isDeleted && p.id in ids
  {
    if ids != [] {
      AttachedProductsAreLiveLinks(ids[1..], products, p);
      if p in products && !p.isDeleted && p.id == ids[0] {
        var k :| 0 <= k < |products| && products[k] == p;
        assert products[k].id == k + 1;
      }
    }
  }

  /**
   * Once an order has been created, FindOrder with its reference finds it
   * (it is the last matching row), with no storage failure.
   */
  lemma CreatedOrderIsFound(orders: seq<OrderRow>, products: seq<Product>, order: Order)
    requires !order.isDeleted
    ensures var row := RowOf(order, |orders| + 1, DistinctIds(order.products));
            FindOrder(orders + [row], products, order.reference, None) == OrderRead(Some(Attach(row, products)), None)
  {
  }

  /**
   * Saving an order that was read back with only its status changed changes
   * that row's status and nothing else: the other columns, the product links
   * and every other row stay as they were.
   */
  lemma SaveStatusOnly(orders: seq<OrderRow>, products: seq<Product>, k: nat, status: OrderStatus)
    requires OrdersIndexed(orders) && k < |orders|
    ensures SaveOrder(orders, Attach(orders[k], products).(status := status)) == orders[k := orders[k].(status := status)]
  {
    assert orders[k].id == k + 1;
  }
}
