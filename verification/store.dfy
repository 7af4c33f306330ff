/**
 * The database the repositories work on: three tables kept in id order. Every
 * product and order row is keyed by an auto-incremented id, so the row with id
 * k sits at index k - 1.
 */
module Store {
  import opened Model

  predicate ProductsIndexed(rows: seq<Product>)
  {
    forall i :: 0 <= i < |rows| ==> rows[i].id == i + 1
  }

  predicate OrdersIndexed(rows: seq<OrderRow>)
  {
    forall i :: 0 <= i < |rows| ==> rows[i].id == i + 1
  }

  class Database {
    var users: seq<User>
    var products: seq<Product>
    var orders: seq<OrderRow>

    predicate Valid()
      reads this
    {
      ProductsIndexed(products) && OrdersIndexed(orders)
    }

    constructor (users: seq<User>)
      ensures Valid()
      ensures this.users == users && products == [] && orders == []
    {
      this.users := users;
      products := [];
      orders := [];
    }
  }

  /**
   * FindUserBy on the user_guid column: the first (lowest id) user that is not
   * soft-deleted and carries that guid. A miss is "record not found", which the
   * Go function reports as an error with a nil user.
   */
  function FindUserBy(users: seq<User>, guid: string, fault: Option<string>): (r: Lookup<User>)
    ensures fault.Some? ==> r == Failed(fault.value)
    ensures r.Found? ==> exists k :: (0 <= k < |users| && users[k] == r.value && !r.value.isDeleted && r.value.guid == guid
                                      && forall j :: 0 <= j < k ==> users[j].isDeleted || users[j].guid != guid)
    ensures fault.None? && r.NotFound? ==> forall j :: 0 <= j < |users| ==> users[j].isDeleted || users[j].guid != guid
    ensures fault.None? ==> !r.Failed?
  {
    if fault.Some? then Failed(fault.value)
    else
      var k := FirstLiveUser(users, guid, 0);
      if k.Some? then Found(users[k.value]) else NotFound
  }

  function FirstLiveUser(users: seq<User>, guid: string, from: nat): (r: Option<nat>)
    requires from <= |users|
    decreases |users| - from
    ensures r.Some? ==> from <= r.value < |users| && !users[r.value].isDeleted && users[r.value].guid == guid
    ensures forall j :: from <= j < |users| && !users[j].isDeleted && users[j].guid == guid ==> r.Some? && r.value <= j
  {
    if from == |users| then None
    else if !users[from].isDeleted && users[from].guid == guid then Some(from)
    else FirstLiveUser(users, guid, from + 1)
  }
}
