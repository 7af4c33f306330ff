/**
 * The product repository: a lookup by product code that skips soft-deleted rows,
 * and the update, soft delete and create operations on the product table.
 */
module ProductRepository {
  import opened Model
  import opened Store

  /** The filter `product_code = ? AND is_deleted = false`. */
  predicate LiveWithCode(p: Product, code: string)
  {
    !p.isDeleted && p.code == code
  }

  /** Index of the first row at or after `from` that passes the filter. */
  function FirstLive(rows: seq<Product>, code: string, from: nat): (r: Option<nat>)
    requires from <= |rows|
    decreases |rows| - from
    ensures r.Some? ==> from <= r.value < |rows| && LiveWithCode(rows[r.value], code)
    ensures forall j :: from <= j < |rows| && LiveWithCode(rows[j], code) ==> r.Some? && r.value <= j
  {
    if from == |rows| then None
    else if LiveWithCode(rows[from], code) then Some(from)
    else FirstLive(rows, code, from + 1)
  }

  /**
   * GetProduct (and the findByProductCode it delegates to): the first live row
   * with that code, "not found" when there is none, and a storage failure passed
   * through unchanged.
   */
  function GetProduct(rows: seq<Product>, code: string, fault: Option<string>): (r: Lookup<Product>)
    ensures fault.Some? ==> r == Failed(fault.value)
    ensures fault.None? ==> !r.Failed?
    ensures r.Found? ==> LiveWithCode(r.value, code)
    ensures r.Found? ==> exists k :: (0 <= k < |rows| && rows[k] == r.value && LiveWithCode(r.value, code)
                                      && forall j :: 0 <= j < k ==> !LiveWithCode(rows[j], code))
    ensures fault.None? ==> (r.NotFound? <==> forall j :: 0 <= j < |rows| ==> !LiveWithCode(rows[j], code))
  {
    if fault.Some? then Failed(fault.value)
    else
      var k := FirstLive(rows, code, 0);
      if k.Some? then Found(rows[k.value]) else NotFound
  }

  /** A saved product replaces the row with its id; an unknown id matches no row. */
  function SaveProduct(rows: seq<Product>, p: Product): seq<Product>
  {
    if 1 <= p.id <= |rows| then rows[p.id - 1 := p] else rows
  }

  /**
   * Saving a product writes it over the row with its id and leaves every other
   * row as it was; a table in id order stays in id order.
   */
  lemma SavedProductReplacesRow(rows: seq<Product>, p: Product)
    ensures |SaveProduct(rows, p)| == |rows|
    ensures forall k :: 0 <= k < |rows| && k + 1 != p.id ==> SaveProduct(rows, p)[k] == rows[k]
    ensures 1 <= p.id <= |rows| ==> SaveProduct(rows, p)[p.id - 1] == p
    ensures ProductsIndexed(rows) ==> ProductsIndexed(SaveProduct(rows, p))
  {
  }

  /** Soft delete: only the row's is_deleted column changes. */
  function MarkDeleted(rows: seq<Product>, id: nat): (r: seq<Product>)
    ensures |r| == |rows|
    ensures forall k :: 0 <= k < |rows| ==> r[k].(isDeleted := rows[k].isDeleted) == rows[k]
    ensures forall k :: 0 <= k < |rows| ==> r[k].isDeleted == (rows[k].isDeleted || k + 1 == id)
  {
    if 1 <= id <= |rows| then rows[id - 1 := rows[id - 1].(isDeleted := true)] else rows
  }

  /**
   * UpdateProduct: save inside a transaction, then commit. A failed save rolls
   * back and returns (nil, err); a failed commit rolls back and returns
   * (product, nil); a successful commit returns (nil, nil). Only a failed save
   * is ever reported as an error.
   */
  method UpdateProduct(db: Database, p: Product, saveFault: Option<string>, commitFails: bool)
    returns (saved: Option<Product>, err: Option<string>)
    requires db.Valid()
    modifies db
    ensures db.Valid()
    ensures err == saveFault
    ensures saved == (if saveFault.None? && commitFails then Some(p) else None)
    ensures db.products == (if saveFault.None? && !commitFails then SaveProduct(old(db.products), p) else old(db.products))
    ensures db.users == old(db.users) && db.orders == old(db.orders)
  {
    if saveFault.Some? {
      return None, saveFault;
    }
    if commitFails {
      return Some(p), None;
    }
    db.products := SaveProduct(db.products, p);
    return None, None;
  }

  /** DeleteProduct: sets is_deleted on the product's row, or reports the failure. */
  method DeleteProduct(db: Database, p: Product, fault: Option<string>) returns (err: Option<string>)
    requires db.Valid()
    modifies db
    ensures db.Valid()
    ensures err == fault
    ensures db.products == (if fault.None? then MarkDeleted(old(db.products), p.id) else old(db.products))
    ensures db.users == old(db.users) && db.orders == old(db.orders)
  {
    if fault.Some? {
      return fault;
    }
    db.products := MarkDeleted(db.products, p.id);
    return None;
  }

  /**
   * CreateProduct: inserts the product under the next id and returns the stored
   * product, or (nil, err) when the insert fails.
   */
  method CreateProduct(db: Database, p: Product, fault: Option<string>)
    returns (created: Option<Product>, err: Option<string>)
    requires db.Valid()
    modifies db
    ensures db.Valid()
    ensures err == fault
    ensures fault.Some? ==> created.None? && db.products == old(db.products)
    ensures fault.None? ==> (created == Some(p.(id := |old(db.products)| + 1))
                             && db.products == old(db.products) + [created.value])
    ensures db.users == old(db.users) && db.orders == old(db.orders)
  {
    if fault.Some? {
      return None, fault;
    }
    var stored := p.(id := |db.products| + 1);
    db.products := db.products + [stored];
    return Some(stored), None;
  }

  /** After a soft delete, a lookup never yields the deleted row again. */
  lemma {:induction false} DeletedRowNeverFound(rows: seq<Product>, id: nat, code: string)
    requires ProductsIndexed(rows) && 1 <= id <= |rows|
    ensures GetProduct(MarkDeleted(rows, id), code, None).Found? ==> GetProduct(MarkDeleted(rows, id), code, None).value.id != id
  {
    var after := MarkDeleted(rows, id);
    var r := GetProduct(after, code, None);
    if r.Found? {
      var k :| 0 <= k < |after| && after[k] == r.value && LiveWithCode(r.value, code);
      assert k != id - 1;
      assert after[k].id == k + 1;
    }
  }

  /**
   * Deleting the only live product with a code makes GetProduct on that code
   * report "not found".
   */
  lemma DeleteThenNotFound(rows: seq<Product>, code: string)
    requires ProductsIndexed(rows)
    requires GetProduct(rows, code, None).Found?
    requires forall j :: 0 <= j < |rows| && LiveWithCode(rows[j], code) ==> rows[j] == GetProduct(rows, code, None).value
    ensures GetProduct(MarkDeleted(rows, GetProduct(rows, code, None).value.id), code, None) == NotFound
  {
    var p := GetProduct(rows, code, None).value;
    var after := MarkDeleted(rows, p.id);
    forall j | 0 <= j < |after|
      ensures !LiveWithCode(after[j], code)
    {
      if j != p.id - 1 {
        assert after[j] == rows[j];
      }
    }
  }
}
