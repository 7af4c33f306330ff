/**
 * The records of the shop's order core: users, products and orders, as they are
 * held by the database, plus the small wrapper types shared by every module.
 */
module Model {

  datatype Option<T> = None | Some(value: T)

  /** The answer of a keyed lookup: a row, "record not found", or a storage failure. */
  datatype Lookup<T> = Found(value: T) | NotFound | Failed(cause: string)

  /** `part` occurs in `s` as one contiguous piece. */
  predicate Mentions(s: string, part: string)
  {
    exists i :: 0 <= i <= |s| && part <= s[i..]
  }

  lemma MentionsMiddle(before: string, part: string, after: string)
    ensures Mentions(before + part + after, part)
  {
    var s := before + part + after;
    assert s[|before|..] == part + after;
  }

  lemma MentionsBoth(a: string, x: string, b: string, y: string, c: string)
    ensures Mentions(a + x + b + y + c, x) && Mentions(a + x + b + y + c, y)
  {
    var s := a + x + b + y + c;
    assert s[|a|..] == x + (b + y + c);
    assert s[|a| + |x| + |b|..] == y + c;
  }

  /** Go's `uint` on a 64-bit platform. */
  type Uint64 = x: int | 0 <= x < 0x1_0000_0000_0000_0000

  /** The four order statuses. */
  datatype OrderStatus = Pending | Shipped | Delivered | Cancelled

  /** The text each status is stored and shown as. */
  function StatusName(s: OrderStatus): string
  {
    match s
    case Pending => "Pending"
    case Shipped => "Shipped"
    case Delivered => "Delivered"
    case Cancelled => "Cancelled"
  }

  /** Reading a status back from its text: the inverse of StatusName. */
  function ParseStatus(text: string): (r: Option<OrderStatus>)
    ensures r.Some? ==> StatusName(r.value) == text
    ensures r.None? ==> forall s: OrderStatus :: StatusName(s) != text
  {
    if text == "Pending" then Some(Pending)
    else if text == "Shipped" then Some(Shipped)
    else if text == "Delivered" then Some(Delivered)
    else if text == "Cancelled" then Some(Cancelled)
    else None
  }

  lemma ParseStatusName(s: OrderStatus)
    ensures ParseStatus(StatusName(s)) == Some(s)
  {
  }

  /**
   * A product row. `price` is an exact decimal (a Dafny real); `stock` is an
   * unsigned 64-bit count; `isDeleted` is the soft-delete flag.
   */
  datatype Product = Product(
    id: nat,
    name: string,
    description: string,
    code: string,
    price: real,
    stock: Uint64,
    isDeleted: bool,
    currency: string,
    ownerId: nat)

  /** A user row: `guid` is the public identifier (column user_guid), `id` the key. */
  datatype User = User(
    id: nat,
    guid: string,
    email: string,
    currency: string,
    isAdmin: bool,
    isDeleted: bool)

  /**
   * An order as the repository hands it out: its products are the product rows
   * attached to it, loaded when the order is read.
   */
  datatype Order = Order(
    id: nat,
    userId: nat,
    status: OrderStatus,
    totalPrice: real,
    reference: string,
    isDeleted: bool,
    products: seq<Product>)

  /**
   * An order as it is stored: the scalar columns plus the ids of the products
   * linked to it through the order/product join table.
   */
  datatype OrderRow = OrderRow(
    id: nat,
    userId: nat,
    status: OrderStatus,
    totalPrice: real,
    reference: string,
    isDeleted: bool,
    productIds: seq<nat>)
}
