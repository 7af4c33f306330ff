/**
 * The order endpoints: placing an order, a user cancelling their own order,
 * an administrator moving an order to another status, and a user listing their
 * orders page by page. Each state-changing endpoint is a method that updates
 * the database object, proved equal to a function that states its whole
 * effect: the response it sends and the product and order tables it leaves.
 * The listing changes nothing and is a function.
 */
module OrderHandler {
  import opened Model
  import opened Store
  import opened ProductRepository
  import opened OrderRepository
  import opened OrderAssembly
  import opened ErrorHandler

  const UserNotFoundError: string := "User not found"
  const PlaceOrderError: string := "error occured in placing order"

  /** An HTTP response: the status code, the message and the order sent back, if any. */
  datatype Response = Response(status: int, message: string, order: Option<Order>)

  function Failure(status: int, message: string): Response
  {
    Response(status, message, None)
  }

  /** What an endpoint does: its response and the product and order tables after it. */
  datatype Effect = Effect(response: Response, products: seq<Product>, orders: seq<OrderRow>)

  /** Binding the JSON body: the request, or the error the binder reported. */
  datatype Binding<T> = Bound(value: T) | BindFailed(error: ErrorValue)

  /** The body of a placement: the user's guid, the order reference and the requested lines. */
  datatype OrderRequest = OrderRequest(userId: string, reference: string, lines: seq<Line>)

  /** The fields of the placement request and of the status update request, with their json tags. */
  const OrderRequestFields: seq<StructField> :=
    [StructField("UserID", "user_id"), StructField("OrderReference", "order_reference"), StructField("Products", "products")]
  const UpdateOrderRequestFields: seq<StructField> := [StructField("OrderStatus", "order_status")]

  /** newOrder: a pending, not yet stored order for the user, with the given products and total. */
  function NewOrder(userId: nat, products: seq<Product>, reference: string, total: real): Order
  {
    Order(0, userId, Pending, total, reference, false, products)
  }

  /** isValidOrderStatus: the text names one of the four statuses. */
  function IsValidOrderStatus(text: string): (r: bool)
    ensures r <==> exists s: OrderStatus :: StatusName(s) == text
    ensures r ==> ParseStatus(text).Some?
  {
    ParseStatus(text).Some?
  }

  /** How the storage behaves during one placement. */
  datatype PlaceFaults = PlaceFaults(findOrder: Option<ReadFault>, findUser: Option<string>,
                                     lines: seq<LineFault>, create: Option<string>)

  /**
   * PlaceOrder as a value. A body that does not bind is answered with the first
   * validation message; a record read back with a non-zero id is a conflict,
   * even when its preload failed; any read error other than "record not found"
   * is a server error, as is a failed user lookup; an unknown user is "not found";
   * then the lines are assembled (writing stock as they go) and a rejected
   * assembly is a bad request that keeps those writes; otherwise the pending
   * order is stored under the next id.
   */
  function PlaceOrderOutcome(users: seq<User>, products: seq<Product>, orders: seq<OrderRow>,
                             binding: Binding<OrderRequest>, faults: PlaceFaults): (r: Effect)
    ensures r.response.status in {201, 400, 404, 409, 500}
    ensures r.response.status != 201 ==> r.orders == orders
    ensures r.products != products ==>
      && binding.Bound?
      && FindOrder(orders, products, binding.value.reference, faults.findOrder).err == Some(RecordNotFound)
      && FindUserBy(users, binding.value.userId, faults.findUser).Found?
  {
    match binding
    case BindFailed(error) =>
      Effect(Failure(400, FirstMessage(ValidationMessages(error, OrderRequestFields))), products, orders)
    case Bound(request) =>
      var existing := FindOrder(orders, products, request.reference, faults.findOrder);
      if existing.order.Some? && existing.order.value.id != 0 then Effect(Failure(409, "Order already exists"), products, orders)
      else if existing.err != Some(RecordNotFound) then Effect(Failure(500, PlaceOrderError), products, orders)
      else
        match FindUserBy(users, request.userId, faults.findUser)
        case Failed(_) => Effect(Failure(500, PlaceOrderError), products, orders)
        case NotFound => Effect(Failure(404, UserNotFoundError), products, orders)
        case Found(user) =>
          var (assembly, table) := Assemble(products, request.lines, faults.lines, user.currency);
          match assembly
          case Rejected(e) => Effect(Failure(400, ErrorMessage(e)), table, orders)
          case Assembled(ps, total) =>
            var order := NewOrder(user.id, ps, request.reference, total);
            if faults.create.Some? then Effect(Failure(500, "Failed to place order"), table, orders)
            else
              Effect(Response(201, "Order placed successfully", Some(order.(id := |orders| + 1))),
                     table, orders + [RowOf(order, |orders| + 1, DistinctIds(ps))])
  }

  /** PlaceOrder: does exactly what PlaceOrderOutcome describes. */
  method PlaceOrder(db: Database, binding: Binding<OrderRequest>, faults: PlaceFaults) returns (response: Response)
    requires db.Valid()
    modifies db
    ensures db.Valid()
    ensures Effect(response, db.products, db.orders)
            == PlaceOrderOutcome(old(db.users), old(db.products), old(db.orders), binding, faults)
    ensures db.users == old(db.users)
  {
    if binding.BindFailed? {
      var messages := ExtractValidationErrorMessage(binding.error, OrderRequestFields);
      return Failure(400, FirstMessage(messages));
    }
    var request := binding.value;
    var existing := FindOrder(db.orders, db.products, request.reference, faults.findOrder);
    if existing.order.Some? && existing.order.value.id != 0 {
      return Failure(409, "Order already exists");
    }
    if existing.err != Some(RecordNotFound) {
      return Failure(500, PlaceOrderError);
    }
    var user := FindUserBy(db.users, request.userId, faults.findUser);
    if user.Failed? {
      return Failure(500, PlaceOrderError);
    }
    if user.NotFound? {
      return Failure(404, UserNotFoundError);
    }
    var assembly := ValidateProducts(db, request.lines, user.value, faults.lines);
    if assembly.Rejected? {
      return Failure(400, ErrorMessage(assembly.error));
    }
    var order := NewOrder(user.value.id, assembly.products, request.reference, assembly.total);
    var saved, err := CreateOrder(db, order, faults.create);
    if err.Some? {
      return Failure(500, "Failed to place order");
    }
    return Response(201, "Order placed successfully", saved);
  }

  /** How the storage behaves during one cancellation. */
  datatype CancelFaults = CancelFaults(findUser: Option<string>, getOrder: Option<string>,
                                       save: Option<string>, commitFails: bool)

  /**
   * CancelUserOrder as a value. Without an authenticated user the request is
   * unauthorized; a user lookup that fails for any reason is a server error;
   * the order must be the user's own live order with that reference, and it must
   * be pending; then it is saved as cancelled.
   */
  function CancelOutcome(users: seq<User>, products: seq<Product>, orders: seq<OrderRow>,
                         principal: Option<string>, reference: string, faults: CancelFaults): (r: Effect)
    ensures r.response.status in {200, 400, 401, 404, 500}
    ensures r.products == products
    ensures r.response.status != 200 ==> r.orders == orders
  {
    if principal.None? then Effect(Failure(401, "Unauthorized access"), products, orders)
    else
      match FindUserBy(users, principal.value, faults.findUser)
      case Failed(_) => Effect(Failure(500, "Error in order"), products, orders)
      case NotFound => Effect(Failure(500, "Error in order"), products, orders)
      case Found(user) =>
        match GetUserOrder(orders, products, user.id, reference, faults.getOrder)
        case Failed(_) => Effect(Failure(404, "Order not found"), products, orders)
        case NotFound => Effect(Failure(404, "Order not found"), products, orders)
        case Found(order) =>
          if order.status != Pending then
            Effect(Failure(400, "Order in " + StatusName(order.status) + " status cannot be cancelled"), products, orders)
          else
            var cancelled := order.(status := Cancelled);
            if faults.save.Some? then Effect(Failure(500, "Failed to update order"), products, orders)
            else if faults.commitFails then
              Effect(Response(200, "Order cancelled successfully", Some(cancelled)), products, orders)
            else
              Effect(Response(200, "Order cancelled successfully", None), products, SaveOrder(orders, cancelled))
  }

  /** CancelUserOrder: does exactly what CancelOutcome describes. */
  method CancelUserOrder(db: Database, principal: Option<string>, reference: string, faults: CancelFaults)
    returns (response: Response)
    requires db.Valid()
    modifies db
    ensures db.Valid()
    ensures Effect(response, db.products, db.orders)
            == CancelOutcome(old(db.users), old(db.products), old(db.orders), principal, reference, faults)
    ensures db.users == old(db.users)
  {
    if principal.None? {
      return Failure(401, "Unauthorized access");
    }
    var user := FindUserBy(db.users, principal.value, faults.findUser);
    if !user.Found? {
      return Failure(500, "Error in order");
    }
    var order := GetUserOrder(db.orders, db.products, user.value.id, reference, faults.getOrder);
    if !order.Found? {
      return Failure(404, "Order not found");
    }
    if order.value.status != Pending {
      return Failure(400, "Order in " + StatusName(order.value.status) + " status cannot be cancelled");
    }
    var cancelled := order.value.(status := Cancelled);
    var updated, err := UpdateOrder(db, cancelled, faults.save, faults.commitFails);
    if err.Some? {
      return Failure(500, "Failed to update order");
    }
    return Response(200, "Order cancelled successfully", updated);
  }

  /** How the storage behaves during one status update. */
  datatype StatusFaults = StatusFaults(findOrder: Option<ReadFault>, save: Option<string>, commitFails: bool)

  /**
   * UpdateOrderStatus as a value. The requested status must be one of the four;
   * the live order with the reference must exist; only a pending or shipped
   * order may move, and it may move to any of the four statuses.
   */
  function StatusUpdateOutcome(products: seq<Product>, orders: seq<OrderRow>, binding: Binding<string>,
                               reference: string, faults: StatusFaults): (r: Effect)
    ensures r.response.status in {200, 400, 404, 500}
    ensures r.products == products
    ensures r.response.status != 200 ==> r.orders == orders
  {
    match binding
    case BindFailed(error) =>
      Effect(Failure(400, FirstMessage(ValidationMessages(error, UpdateOrderRequestFields))), products, orders)
    case Bound(text) =>
      if !IsValidOrderStatus(text) then Effect(Failure(400, "Invalid order status"), products, orders)
      else
        var existing := FindOrder(orders, products, reference, faults.findOrder);
        if existing.err.Some? then Effect(Failure(404, "Order not found"), products, orders)
        else
          var order := existing.order.value;
          if order.status != Pending && order.status != Shipped then
            Effect(Failure(400, "Order has been " + StatusName(order.status)), products, orders)
          else
            var moved := order.(status := ParseStatus(text).value);
            if faults.save.Some? then Effect(Failure(500, "Failed to update order"), products, orders)
            else if faults.commitFails then
              Effect(Response(200, "Order status updated successfully", Some(moved)), products, orders)
            else
              Effect(Response(200, "Order status updated successfully", None), products, SaveOrder(orders, moved))
  }

  /** UpdateOrderStatus: does exactly what StatusUpdateOutcome describes. */
  method UpdateOrderStatus(db: Database, binding: Binding<string>, reference: string, faults: StatusFaults)
    returns (response: Response)
    requires db.Valid()
    modifies db
    ensures db.Valid()
    ensures Effect(response, db.products, db.orders)
            == StatusUpdateOutcome(old(db.products), old(db.orders), binding, reference, faults)
    ensures db.users == old(db.users)
  {
    if binding.BindFailed? {
      var messages := ExtractValidationErrorMessage(binding.error, UpdateOrderRequestFields);
      return Failure(400, FirstMessage(messages));
    }
    if !IsValidOrderStatus(binding.value) {
      return Failure(400, "Invalid order status");
    }
    var existing := FindOrder(db.orders, db.products, reference, faults.findOrder);
    if existing.err.Some? {
      return Failure(404, "Order not found");
    }
    var order := existing.order.value;
    if order.status != Pending && order.status != Shipped {
      return Failure(400, "Order has been " + StatusName(order.status));
    }
    var moved := order.(status := ParseStatus(binding.value).value);
    var updated, err := UpdateOrder(db, moved, faults.save, faults.commitFails);
    if err.Some? {
      return Failure(500, "Failed to update order");
    }
    return Response(200, "Order status updated successfully", updated);
  }

  /**
   * A page or size query parameter: the number given when it parses to a
   * positive integer, the default otherwise (None stands for a missing or
   * unparsable parameter).
   */
  function QueryNumber(param: Option<int>, default: int): (r: int)
    requires default >= 1
    ensures r >= 1
    ensures param.Some? && param.value > 0 ==> r == param.value
    ensures (param.None? || param.value <= 0) ==> r == default
  {
    if param.Some? && param.value > 0 then param.value else default
  }

  /** `ceil(total / limit)`: the number of pages needed for `total` rows. */
  function PageCount(total: nat, limit: int): (r: nat)
    requires limit >= 1
    ensures total <= r * limit
    ensures r > 0 ==> (r - 1) * limit < total
  {
    (total + limit - 1) / limit
  }

  /** How the storage behaves during one listing. */
  datatype ListFaults = ListFaults(findUser: Option<string>, count: Option<string>, find: Option<string>)

  /** What the listing endpoint answers: a page of orders with its counts, or an error. */
  datatype ListReply =
    | OrdersPage(orders: seq<Order>, message: string, totalOrders: nat, totalPages: nat, page: int, size: int)
    | ListError(status: int, message: string)

  /**
   * The GetUserOrders endpoint: page and size default to 1 and 10; a user
   * lookup that fails for any reason, or a failed count or read, is a server
   * error; otherwise the page, the message saying whether it is empty, the
   * number of matching orders and the number of pages.
   */
  function ListUserOrders(users: seq<User>, products: seq<Product>, orders: seq<OrderRow>, guid: string,
                          status: string, pageParam: Option<int>, sizeParam: Option<int>, faults: ListFaults)
    : (r: ListReply)
    ensures r.ListError? ==> r.status == 500
    ensures r.OrdersPage? ==> r.page >= 1 && r.size >= 1 && |r.orders| <= r.size
    ensures r.OrdersPage? ==> && r.page == QueryNumber(pageParam, 1) && r.size == QueryNumber(sizeParam, 10)
                              && r.totalPages == PageCount(r.totalOrders, r.size)
    ensures r.OrdersPage? <==> FindUserBy(users, guid, faults.findUser).Found? && faults.count.None? && faults.find.None?
    ensures !FindUserBy(users, guid, faults.findUser).Found? ==> r == ListError(500, "error in retrieving order")
    ensures FindUserBy(users, guid, faults.findUser).Found? && (faults.count.Some? || faults.find.Some?) ==>
      r == ListError(500, "Failed to retrieve orders")
  {
    var page := QueryNumber(pageParam, 1);
    var limit := QueryNumber(sizeParam, 10);
    match FindUserBy(users, guid, faults.findUser)
    case Failed(_) => ListError(500, "error in retrieving order")
    case NotFound => ListError(500, "error in retrieving order")
    case Found(user) =>
      match GetUserOrders(orders, products, user.id, status, page, limit, faults.count, faults.find)
      case ListingFailed(_) => ListError(500, "Failed to retrieve orders")
      case Listing(found, total) =>
        OrdersPage(found, if |found| == 0 then "No orders found" else "Order retrieved successfully",
                   total, PageCount(total, limit), page, limit)
  }

  /**
   * A request body that does not bind is answered 400 with the message for its
   * first validation failure, and nothing changes; this holds for placement and
   * for a status update alike.
   */
  lemma BindFailureAnswered(users: seq<User>, products: seq<Product>, orders: seq<OrderRow>, error: ErrorValue,
                            reference: string, placeFaults: PlaceFaults, statusFaults: StatusFaults)
    ensures PlaceOrderOutcome(users, products, orders, BindFailed(error), placeFaults)
            == Effect(Failure(400, FirstMessage(ValidationMessages(error, OrderRequestFields))), products, orders)
    ensures StatusUpdateOutcome(products, orders, BindFailed(error), reference, statusFaults)
            == Effect(Failure(400, FirstMessage(ValidationMessages(error, UpdateOrderRequestFields))), products, orders)
  {
  }

  /**
   * A placement answered 201 found no live order with its reference and found
   * the live user with its guid; it stored, under the next id, a pending order
   * of that user holding one product per requested line (a live product with
   * the line's code), priced at the sum of the line amounts.
   */
  lemma {:induction false} PlacedOrder(users: seq<User>, products: seq<Product>, orders: seq<OrderRow>,
                                       request: OrderRequest, faults: PlaceFaults)
    requires PlaceOrderOutcome(users, products, orders, Bound(request), faults).response.status == 201
    ensures !QueryFails(faults.findOrder) && forall k :: 0 <= k < |orders| ==> !OrderMatches(orders[k], None, request.reference)
    ensures FindUserBy(users, request.userId, faults.findUser).Found?
    ensures PlaceOrderOutcome(users, products, orders, Bound(request), faults).response.order.Some?
    ensures var o := PlaceOrderOutcome(users, products, orders, Bound(request), faults).response.order.value;
            var user := FindUserBy(users, request.userId, faults.findUser).value;
            && user.guid == request.userId && !user.isDeleted
            && o.id == |orders| + 1 && o.userId == user.id
            && o.status == Pending && !o.isDeleted && o.reference == request.reference
            && |o.products| == |request.lines|
            && (forall j :: 0 <= j < |request.lines| ==> LiveWithCode(o.products[j], request.lines[j].code))
            && o.totalPrice == Amount(request.lines, o.products)
            && PlaceOrderOutcome(users, products, orders, Bound(request), faults).orders
               == orders + [RowOf(o, o.id, DistinctIds(o.products))]
  {
    TallyShape(products, request.lines, faults.lines, |request.lines|);
    TallyTotal(products, request.lines, faults.lines, |request.lines|);
  }


  /**
   * A live order with the same reference makes a placement a conflict that
   * changes nothing, once the order query itself has gone through: a failed
   * preload of that order's products leaves its id in the record and still
   * ends in 409.
   */
  lemma DuplicateReferenceRejected(users: seq<User>, products: seq<Product>, orders: seq<OrderRow>,
                                   request: OrderRequest, faults: PlaceFaults)
    requires OrdersIndexed(orders)
    requires !QueryFails(faults.findOrder)
    requires exists k :: 0 <= k < |orders| && OrderMatches(orders[k], None, request.reference)
    ensures PlaceOrderOutcome(users, products, orders, Bound(request), faults)
            == Effect(Failure(409, "Order already exists"), products, orders)
  {
    var found := FindOrder(orders, products, request.reference, faults.findOrder);
    var k :| 0 <= k < |orders| && OrderMatches(orders[k], None, request.reference)
             && found.order.value == (if faults.findOrder.None? then Attach(orders[k], products)
                                      else Attach(orders[k], products).(products := []));
    assert orders[k].id == k + 1;
  }

  /**
   * A placement that reached neither a stored order with the reference nor a
   * failed order query goes through its steps in order: a failed user lookup is
   * a server error and an unknown user "not found"; a rejected assembly is a bad
   * request with the error's text that keeps the stock written so far; a failed
   * create is a server error; otherwise the pending order of that user, with the
   * assembled products and total, is stored under the next id and answered 201.
   * A failed order query is a server error before any of this.
   */
  lemma PlacementSteps(users: seq<User>, products: seq<Product>, orders: seq<OrderRow>,
                       request: OrderRequest, faults: PlaceFaults)
    ensures QueryFails(faults.findOrder) ==>
      PlaceOrderOutcome(users, products, orders, Bound(request), faults) == Effect(Failure(500, PlaceOrderError), products, orders)
    ensures var r := PlaceOrderOutcome(users, products, orders, Bound(request), faults);
            var user := FindUserBy(users, request.userId, faults.findUser);
            !QueryFails(faults.findOrder) && (forall j :: 0 <= j < |orders| ==> !OrderMatches(orders[j], None, request.reference)) ==>
              && (user.Failed? ==> r == Effect(Failure(500, PlaceOrderError), products, orders))
              && (user.NotFound? ==> r == Effect(Failure(404, UserNotFoundError), products, orders))
              && (user.Found? ==>
                    var assembly := Assemble(products, request.lines, faults.lines, user.value.currency);
                    && (assembly.0.Rejected? ==> r == Effect(Failure(400, ErrorMessage(assembly.0.error)), assembly.1, orders))
                    && (assembly.0.Assembled? && faults.create.Some? ==>
                          r == Effect(Failure(500, "Failed to place order"), assembly.1, orders))
                    && (assembly.0.Assembled? && faults.create.None? ==>
                          var stored := Order(|orders| + 1, user.value.id, Pending, assembly.0.total, request.reference, false,
                                              assembly.0.products);
                          r == Effect(Response(201, "Order placed successfully", Some(stored)), assembly.1,
                                      orders + [OrderRow(|orders| + 1, user.value.id, Pending, assembly.0.total,
                                                         request.reference, false, DistinctIds(assembly.0.products))])))
  {
  }

  /**
   * When every step passes, a placement is answered 201: the order query goes
   * through and finds no live order with the reference, a live user has the
   * guid, every line is accepted, every product is in that user's currency, and
   * the create goes through.
   */
  lemma PlacementSucceeds(users: seq<User>, products: seq<Product>, orders: seq<OrderRow>,
                          request: OrderRequest, faults: PlaceFaults)
    requires !QueryFails(faults.findOrder) && faults.findUser.None? && faults.create.None?
    requires forall j :: 0 <= j < |orders| ==> !OrderMatches(orders[j], None, request.reference)
    requires exists k :: 0 <= k < |users| && !users[k].isDeleted && users[k].guid == request.userId
    requires Run(products, request.lines, faults.lines, |request.lines|).Tally?
    requires forall j :: 0 <= j < |Run(products, request.lines, faults.lines, |request.lines|).products| ==>
      Run(products, request.lines, faults.lines, |request.lines|).products[j].currency
      == FindUserBy(users, request.userId, None).value.currency
    ensures PlaceOrderOutcome(users, products, orders, Bound(request), faults).response.status == 201
  {
  }

  /**
   * Placing the same request again after it succeeded is a conflict: the second
   * call stores nothing and writes no stock.
   */
  lemma RepeatedPlacementConflicts(users: seq<User>, products: seq<Product>, orders: seq<OrderRow>,
                                   request: OrderRequest, faults: PlaceFaults, again: PlaceFaults)
    requires PlaceOrderOutcome(users, products, orders, Bound(request), faults).response.status == 201
    requires !QueryFails(again.findOrder)
    ensures var e := PlaceOrderOutcome(users, products, orders, Bound(request), faults);
            PlaceOrderOutcome(users, e.products, e.orders, Bound(request), again)
            == Effect(Failure(409, "Order already exists"), e.products, e.orders)
  {
    var e := PlaceOrderOutcome(users, products, orders, Bound(request), faults);
    PlacedOrder(users, products, orders, request, faults);
    var o := e.response.order.value;
    var order := NewOrder(o.userId, o.products, o.reference, o.totalPrice);
    assert e.orders == orders + [RowOf(order, |orders| + 1, DistinctIds(order.products))];
    CreatedOrderIsFound(orders, e.products, order);
  }

  /**
   * The two-line order: 2 × A at 10.00 (5 in stock) and 1 × B at 5.00 (1 in
   * stock) for a user paying in NGN is placed with a total of 25.00 and leaves
   * 3 of A and none of B.
   */
  lemma TwoLinePlacement()
    ensures var user := User(1, "u1", "ada@example.com", "NGN", false, false);
            var a := Product(1, "A", "", "A", 10.0, 5, false, "NGN", 1);
            var b := Product(2, "B", "", "B", 5.0, 1, false, "NGN", 1);
            var e := PlaceOrderOutcome([user], [a, b], [],
                                       Bound(OrderRequest("u1", "order123", [Line("A", 2), Line("B", 1)])),
                                       PlaceFaults(None, None, [], None));
            && e.response.status == 201
            && e.response.order == Some(Order(1, 1, Pending, 25.0, "order123", false, [a.(stock := 3), b.(stock := 0)]))
            && e.products == [a.(stock := 3), b.(stock := 0)]
  {
    TwoLineOrder();
  }

  /**
   * Placement is not atomic: a product priced in another currency rejects the
   * order only after its stock has been lowered, and the lowered stock stays.
   */
  lemma MismatchedCurrencyKeepsStock()
    ensures var user := User(1, "u1", "ada@example.com", "NGN", false, false);
            var p := Product(1, "Lamp", "", "L1", 10.0, 5, false, "USD", 1);
            PlaceOrderOutcome([user], [p], [], Bound(OrderRequest("u1", "order123", [Line("L1", 1)])),
                              PlaceFaults(None, None, [], None))
            == Effect(Failure(400, "Product currency mismatch with user's currency: NGN"), [p.(stock := 4)], [])
  {
    MismatchKeepsWrites();
  }


  /**
   * A cancellation answered 200 was made by a known user on that user's own
   * live, pending order with the reference; that order's status, and nothing
   * else, becomes Cancelled (unless the commit failed, which changes nothing).
   */
  lemma {:induction false} CancelledOwnPendingOrder(users: seq<User>, products: seq<Product>, orders: seq<OrderRow>,
                                                    principal: Option<string>, reference: string, faults: CancelFaults)
    requires OrdersIndexed(orders)
    requires CancelOutcome(users, products, orders, principal, reference, faults).response.status == 200
    ensures principal.Some? && FindUserBy(users, principal.value, faults.findUser).Found?
    ensures exists k :: (0 <= k < |orders|
                         && OrderMatches(orders[k], Some(FindUserBy(users, principal.value, faults.findUser).value.id), reference)
                         && orders[k].status == Pending
                         && CancelOutcome(users, products, orders, principal, reference, faults).orders
                            == (if faults.commitFails then orders else orders[k := orders[k].(status := Cancelled)]))
  {
    var user := FindUserBy(users, principal.value, faults.findUser).value;
    var found := GetUserOrder(orders, products, user.id, reference, faults.getOrder).value;
    var k :| 0 <= k < |orders| && OrderMatches(orders[k], Some(user.id), reference) && found == Attach(orders[k], products);
    SaveStatusOnly(orders, products, k, Cancelled);
  }

  /** A shipped order cannot be cancelled, and the refusal changes nothing. */
  lemma ShippedOrderNotCancellable()
    ensures var user := User(1, "u1", "ada@example.com", "NGN", false, false);
            var row := OrderRow(1, 1, Shipped, 25.0, "order123", false, []);
            CancelOutcome([user], [], [row], Some("u1"), "order123", CancelFaults(None, None, None, false))
            == Effect(Failure(400, "Order in Shipped status cannot be cancelled"), [], [row])
  {
    var user := User(1, "u1", "ada@example.com", "NGN", false, false);
    var row := OrderRow(1, 1, Shipped, 25.0, "order123", false, []);
    assert FirstLiveUser([user], "u1", 0) == Some(0);
    assert FindUserBy([user], "u1", None) == Found(user);
    assert LastMatch([row], Some(1), "order123", 1) == Some(0);
    assert GetUserOrder([row], [], 1, "order123", None) == Found(Attach(row, []));
    ShippedRefusalText();
  }

  lemma ShippedRefusalText()
    ensures "Order in " + StatusName(Shipped) + " status cannot be cancelled" == "Order in Shipped status cannot be cancelled"
  {
    assert StatusName(Shipped) == "Shipped";
  }

  /**
   * A cancellation without an authenticated caller is unauthorized; a caller
   * whose user lookup fails, or who has no live user row, gets a server error,
   * not "not found".
   */
  lemma UnknownCallerIsServerError(users: seq<User>, products: seq<Product>, orders: seq<OrderRow>,
                                   principal: Option<string>, reference: string, faults: CancelFaults)
    ensures principal.None? ==>
      CancelOutcome(users, products, orders, principal, reference, faults)
      == Effect(Failure(401, "Unauthorized access"), products, orders)
    ensures principal.Some? && faults.findUser.Some? ==>
      CancelOutcome(users, products, orders, principal, reference, faults)
      == Effect(Failure(500, "Error in order"), products, orders)
    ensures principal.Some? && (forall j :: 0 <= j < |users| ==> users[j].isDeleted || users[j].guid != principal.value) ==>
      CancelOutcome(users, products, orders, principal, reference, faults)
      == Effect(Failure(500, "Error in order"), products, orders)
  {
  }

  /**
   * What a known caller's cancellation does with the order the lookup returns,
   * the last live row of that caller with the reference: none, or a failed
   * lookup, is "not found"; an order in any status other than Pending is
   * refused with that status named and nothing changes; a pending order whose
   * save fails is a server error; otherwise the answer is 200 and that order's
   * status, and nothing else, becomes Cancelled (nothing changes when the commit
   * fails).
   */
  lemma {:induction false} CancelSteps(users: seq<User>, products: seq<Product>, orders: seq<OrderRow>,
                                       guid: string, reference: string, faults: CancelFaults)
    requires OrdersIndexed(orders)
    requires FindUserBy(users, guid, faults.findUser).Found?
    ensures var r := CancelOutcome(users, products, orders, Some(guid), reference, faults);
            var k := LastMatch(orders, Some(FindUserBy(users, guid, faults.findUser).value.id), reference, |orders|);
            && (faults.getOrder.Some? || k.None? ==> r == Effect(Failure(404, "Order not found"), products, orders))
            && (faults.getOrder.None? && k.Some? && orders[k.value].status != Pending ==>
                  r == Effect(Failure(400, "Order in " + StatusName(orders[k.value].status) + " status cannot be cancelled"),
                              products, orders))
            && (faults.getOrder.None? && k.Some? && orders[k.value].status == Pending && faults.save.Some? ==>
                  r == Effect(Failure(500, "Failed to update order"), products, orders))
            && (faults.getOrder.None? && k.Some? && orders[k.value].status == Pending && faults.save.None? ==>
                  && r.response.status == 200 && r.response.message == "Order cancelled successfully"
                  && r.orders == (if faults.commitFails then orders
                                  else orders[k.value := orders[k.value].(status := Cancelled)]))
  {
    var user := FindUserBy(users, guid, faults.findUser).value;
    var k := LastMatch(orders, Some(user.id), reference, |orders|);
    if faults.getOrder.None? && k.Some? {
      SaveStatusOnly(orders, products, k.value, Cancelled);
    }
  }

  /** A status text outside the four is refused before any order is looked up. */
  lemma UnknownStatusRejected(products: seq<Product>, orders: seq<OrderRow>, text: string,
                              reference: string, faults: StatusFaults)
    requires forall s: OrderStatus :: StatusName(s) != text
    ensures StatusUpdateOutcome(products, orders, Bound(text), reference, faults)
            == Effect(Failure(400, "Invalid order status"), products, orders)
  {
  }


  /**
   * A status update answered 200 named one of the four statuses and moved the
   * live order with the reference, which was pending or shipped, to it; only
   * that order's status changes (and nothing when the commit failed).
   */
  lemma {:induction false} StatusMovedFromPendingOrShipped(products: seq<Product>, orders: seq<OrderRow>, text: string,
                                                           reference: string, faults: StatusFaults)
    requires OrdersIndexed(orders)
    requires StatusUpdateOutcome(products, orders, Bound(text), reference, faults).response.status == 200
    ensures ParseStatus(text).Some?
    ensures exists k :: (0 <= k < |orders| && OrderMatches(orders[k], None, reference)
                         && (orders[k].status == Pending || orders[k].status == Shipped)
                         && StatusUpdateOutcome(products, orders, Bound(text), reference, faults).orders
                            == (if faults.commitFails then orders else orders[k := orders[k].(status := ParseStatus(text).value)]))
  {
    var found := FindOrder(orders, products, reference, faults.findOrder).order.value;
    var k :| 0 <= k < |orders| && OrderMatches(orders[k], None, reference) && found == Attach(orders[k], products);
    SaveStatusOnly(orders, products, k, ParseStatus(text).value);
  }

  /**
   * What a status update naming one of the four statuses does with the order
   * FindOrder returns, the last live row with the reference: none, or any read
   * failure, is "not found"; a delivered or cancelled order is refused with its
   * status named; a pending or shipped order whose save fails is a server
   * error; otherwise the answer is 200 and that order's status, and nothing
   * else, becomes exactly the requested one, whichever of the four it is
   * (nothing changes when the commit fails).
   */
  lemma {:induction false} StatusUpdateSteps(products: seq<Product>, orders: seq<OrderRow>, s: OrderStatus,
                                             reference: string, faults: StatusFaults)
    requires OrdersIndexed(orders)
    ensures var r := StatusUpdateOutcome(products, orders, Bound(StatusName(s)), reference, faults);
            var k := LastMatch(orders, None, reference, |orders|);
            && (faults.findOrder.Some? || k.None? ==> r == Effect(Failure(404, "Order not found"), products, orders))
            && (faults.findOrder.None? && k.Some? && orders[k.value].status in {Delivered, Cancelled} ==>
                  r == Effect(Failure(400, "Order has been " + StatusName(orders[k.value].status)), products, orders))
            && (faults.findOrder.None? && k.Some? && orders[k.value].status in {Pending, Shipped} && faults.save.Some? ==>
                  r == Effect(Failure(500, "Failed to update order"), products, orders))
            && (faults.findOrder.None? && k.Some? && orders[k.value].status in {Pending, Shipped} && faults.save.None? ==>
                  && r.response.status == 200 && r.response.message == "Order status updated successfully"
                  && r.orders == (if faults.commitFails then orders
                                  else orders[k.value := orders[k.value].(status := s)]))
  {
    ParseStatusName(s);
    var k := LastMatch(orders, None, reference, |orders|);
    if faults.findOrder.None? && k.Some? {
      SaveStatusOnly(orders, products, k.value, s);
    }
  }

  /** A delivered or cancelled order keeps its status whatever is requested. */
  lemma TerminalOrdersFrozen(products: seq<Product>, orders: seq<OrderRow>, binding: Binding<string>,
                             reference: string, faults: StatusFaults)
    requires FindOrder(orders, products, reference, faults.findOrder).err.None?
    requires FindOrder(orders, products, reference, faults.findOrder).order.value.status in {Delivered, Cancelled}
    ensures StatusUpdateOutcome(products, orders, binding, reference, faults).orders == orders
    ensures binding.Bound? && IsValidOrderStatus(binding.value) ==>
      StatusUpdateOutcome(products, orders, binding, reference, faults).response
      == Failure(400, "Order has been " + StatusName(FindOrder(orders, products, reference, faults.findOrder).order.value.status))
  {
  }

  /** Unlike cancellation by the user, a status update may move a shipped order to Cancelled. */
  lemma ShippedOrderCancelledByStatusUpdate()
    ensures var row := OrderRow(1, 1, Shipped, 25.0, "order123", false, []);
            StatusUpdateOutcome([], [row], Bound("Cancelled"), "order123", StatusFaults(None, None, false))
            == Effect(Response(200, "Order status updated successfully", None), [], [row.(status := Cancelled)])
  {
    var row := OrderRow(1, 1, Shipped, 25.0, "order123", false, []);
    assert LastMatch([row], None, "order123", 1) == Some(0);
  }

  /**
   * A listing is the requested page of the caller's own live orders (of the
   * requested status, when one is given), in id order, with the number of all
   * such orders.
   */
  lemma {:induction false} ListingIsTheUsersPage(users: seq<User>, products: seq<Product>, orders: seq<OrderRow>,
                                                 guid: string, status: string, pageParam: Option<int>,
                                                 sizeParam: Option<int>, faults: ListFaults)
    requires ListUserOrders(users, products, orders, guid, status, pageParam, sizeParam, faults).OrdersPage?
    ensures FindUserBy(users, guid, faults.findUser).Found?
    ensures var r := ListUserOrders(users, products, orders, guid, status, pageParam, sizeParam, faults);
            var mine := UserOrders(orders, FindUserBy(users, guid, faults.findUser).value.id, status);
            && r.totalOrders == |mine|
            && forall j :: 0 <= j < |r.orders| ==>
                 Offset(r.page, r.size) + j < |mine| && r.orders[j] == Attach(mine[Offset(r.page, r.size) + j], products)
    ensures var r := ListUserOrders(users, products, orders, guid, status, pageParam, sizeParam, faults);
            forall j :: 0 <= j < |r.orders| ==>
              && r.orders[j].userId == FindUserBy(users, guid, faults.findUser).value.id && !r.orders[j].isDeleted
              && (status == "" || StatusName(r.orders[j].status) == status)
  {
  }

  lemma MulMonotone(a: int, b: int, l: nat)
    requires a <= b
    ensures a * l <= b * l
  {
    assert b * l - a * l == (b - a) * l;
  }

  /** "No orders found" is answered exactly when the requested page lies past the last page. */
  lemma {:induction false} EmptyPageExactlyPastLast(users: seq<User>, products: seq<Product>, orders: seq<OrderRow>,
                                                    guid: string, status: string, pageParam: Option<int>,
                                                    sizeParam: Option<int>, faults: ListFaults)
    requires ListUserOrders(users, products, orders, guid, status, pageParam, sizeParam, faults).OrdersPage?
    ensures var r := ListUserOrders(users, products, orders, guid, status, pageParam, sizeParam, faults);
            (r.message == "No orders found" <==> r.page > r.totalPages)
            && (|r.orders| == 0 <==> r.page > r.totalPages)
  {
    var r := ListUserOrders(users, products, orders, guid, status, pageParam, sizeParam, faults);
    var pages := r.totalPages;
    assert |r.orders| == 0 <==> Offset(r.page, r.size) >= r.totalOrders;
    if r.page > pages {
      MulMonotone(pages, r.page - 1, r.size);
    } else {
      MulMonotone(r.page - 1, pages - 1, r.size);
    }
  }
}
