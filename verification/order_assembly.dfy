/**
 * Order assembly (validateProducts and isCurrencyMismatch): the requested
 * (product code, quantity) lines are walked in request order; each line is
 * looked up, checked against the stock, priced, and its stock decrement is
 * written to the product table before the next line is read. Only when every
 * line has gone through are the products' currencies compared with the user's.
 * Nothing is undone when a later line or the currency check fails.
 */
module OrderAssembly {
  import opened Model
  import opened Store
  import opened ProductRepository

  /** One requested line: a product code and an unsigned quantity. */
  datatype Line = Line(code: string, quantity: Uint64)

  /**
   * How the storage behaves while one line is handled: the product lookup may
   * fail, the save of the decremented product may fail, and the commit after
   * the save may fail (which rolls the write back without reporting an error).
   */
  datatype LineFault = LineFault(lookup: Option<string>, save: Option<string>, commitFails: bool)

  /** The storage behaviour for line i; lines past the end of `faults` see none. */
  function FaultAt(faults: seq<LineFault>, i: nat): LineFault
  {
    if i < |faults| then faults[i] else LineFault(None, None, false)
  }

  datatype AssemblyError =
    | ProductNotFound(code: string)
    | InvalidQuantity(name: string, code: string)
    | OutOfStock(code: string)
    | InsufficientStock(name: string, left: nat)
    | StoreFailure(cause: string)
    | CurrencyMismatch(currency: string)

  /** Decimal digits of a natural number, as `%d` prints it. */
  function DecimalText(n: nat): (r: string)
    ensures |r| >= 1
    ensures forall i :: 0 <= i < |r| ==> '0' <= r[i] <= '9'
    ensures r[0] == '0' ==> n == 0
  {
    var digit := ['0', '1', '2', '3', '4', '5', '6', '7', '8', '9'][n % 10];
    if n < 10 then [digit] else DecimalText(n / 10) + [digit]
  }

  /** The number a string of decimal digits stands for. */
  function DigitsValue(s: string): int
  {
    if s == [] then 0 else DigitsValue(s[..|s| - 1]) * 10 + (s[|s| - 1] as int - '0' as int)
  }

  /** Reading back the printed digits gives the number: `%d` loses nothing. */
  lemma {:induction false} DecimalTextRoundTrip(n: nat)
    ensures DigitsValue(DecimalText(n)) == n
  {
    var digit := ['0', '1', '2', '3', '4', '5', '6', '7', '8', '9'][n % 10];
    assert digit as int - '0' as int == n % 10;
    if n >= 10 {
      DecimalTextRoundTrip(n / 10);
      var front := DecimalText(n / 10);
      assert (front + [digit])[..|front|] == front;
    }
  }

  /** The text of each assembly error, as the handler sends it back. */
  function ErrorMessage(e: AssemblyError): string
  {
    match e
    case ProductNotFound(code) => "Product with code " + code + " is not found"
    case InvalidQuantity(name, code) => "Invalid quantity for product " + name + " (code: " + code + ")"
    case OutOfStock(code) => "Product " + code + " is out of stock"
    case InsufficientStock(name, left) =>
      "Product: " + name + " is not enough in stock. There are only " + DecimalText(left) + " left"
    case StoreFailure(cause) => cause
    case CurrencyMismatch(currency) => "Product currency mismatch with user's currency: " + currency
  }

  /**
   * Each error's text names what it was raised for: the code, the product, the
   * stock left or the currency; a storage failure is passed on as the
   * storage's own text.
   */
  lemma ErrorMessageNamesSubject(e: AssemblyError)
    ensures e.ProductNotFound? || e.OutOfStock? ==> Mentions(ErrorMessage(e), e.code)
    ensures e.InvalidQuantity? ==> Mentions(ErrorMessage(e), e.name) && Mentions(ErrorMessage(e), e.code)
    ensures e.InsufficientStock? ==> Mentions(ErrorMessage(e), e.name) && Mentions(ErrorMessage(e), DecimalText(e.left))
    ensures e.StoreFailure? ==> ErrorMessage(e) == e.cause
    ensures e.CurrencyMismatch? ==> Mentions(ErrorMessage(e), e.currency)
  {
    match e
    case ProductNotFound(code) =>
      MentionsMiddle("Product with code ", code, " is not found");
    case InvalidQuantity(name, code) =>
      MentionsBoth("Invalid quantity for product ", name, " (code: ", code, ")");
    case OutOfStock(code) =>
      MentionsMiddle("Product ", code, " is out of stock");
    case InsufficientStock(name, left) =>
      MentionsBoth("Product: ", name, " is not enough in stock. There are only ", DecimalText(left), " left");
    case StoreFailure(cause) =>
    case CurrencyMismatch(currency) =>
      MentionsMiddle("Product currency mismatch with user's currency: ", currency, "");
      assert "Product currency mismatch with user's currency: " + currency + ""
             == "Product currency mismatch with user's currency: " + currency;
  }

  const TwoTo63: int := 0x8000_0000_0000_0000

  /** `int64(q)` for an unsigned q: quantities of 2^63 and more wrap to negative values. */
  function Int64Of(q: Uint64): (r: int)
    ensures -TwoTo63 <= r < TwoTo63
    ensures q < TwoTo63 ==> r == q
    ensures q >= TwoTo63 ==> r == q - 2 * TwoTo63
  {
    if q < TwoTo63 then q else q - 0x1_0000_0000_0000_0000
  }

  /** `decimal.NewFromInt(int64(q)).Mul(price)`. */
  function LineAmount(quantity: Uint64, price: real): real
  {
    (Int64Of(quantity) as real) * price
  }

  /**
   * The state of a walk over the lines: the products collected so far, the
   * running total and the product table; or the error that stopped the walk,
   * with the table as it was left.
   */
  datatype Tally =
    | Tally(products: seq<Product>, total: real, table: seq<Product>)
    | Halted(error: AssemblyError, table: seq<Product>)

  /**
   * One line against the current table: a lookup failure of any kind is "not
   * found"; then a zero quantity, a zero stock and a stock below the quantity
   * are rejected, in that order; otherwise the product with its stock lowered
   * by the quantity is saved. A rejected line writes nothing.
   */
  function ProcessLine(rows: seq<Product>, line: Line, fault: LineFault): (r: Tally)
    ensures r.Halted? ==> r.table == rows
    ensures r.Tally? ==> |r.products| == 1 && LiveWithCode(r.products[0], line.code)
                         && r.total == LineAmount(line.quantity, r.products[0].price)
    ensures r.Tally? <==> (GetProduct(rows, line.code, fault.lookup).Found?
                           && 0 < line.quantity <= GetProduct(rows, line.code, fault.lookup).value.stock
                           && fault.save.None?)
    ensures r.Tally? ==> var p := GetProduct(rows, line.code, fault.lookup).value;
                         && r.products == [p.(stock := p.stock - line.quantity)]
                         && r.total == LineAmount(line.quantity, p.price)
                         && r.table == (if fault.commitFails then rows else SaveProduct(rows, r.products[0]))
  {
    match GetProduct(rows, line.code, fault.lookup)
    case NotFound => Halted(ProductNotFound(line.code), rows)
    case Failed(_) => Halted(ProductNotFound(line.code), rows)
    case Found(p) =>
      if line.quantity == 0 then Halted(InvalidQuantity(p.name, p.code), rows)
      else if p.stock == 0 then Halted(OutOfStock(line.code), rows)
      else if p.stock < line.quantity then Halted(InsufficientStock(p.name, p.stock), rows)
      else
        var reserved := p.(stock := p.stock - line.quantity);
        if fault.save.Some? then Halted(StoreFailure(fault.save.value), rows)
        else Tally([reserved], LineAmount(line.quantity, p.price),
                   if fault.commitFails then rows else SaveProduct(rows, reserved))
  }

  /**
   * Which error a rejected line gets, in the order the checks are made: any
   * lookup failure is "not found" for the line's code; then a zero quantity
   * names the product; then a zero stock is "out of stock" for the line's code;
   * then a stock below the quantity reports the stock left; then a failed save
   * reports the storage's own error.
   */
  lemma LineRejections(rows: seq<Product>, line: Line, fault: LineFault)
    ensures var r := ProcessLine(rows, line, fault);
            !GetProduct(rows, line.code, fault.lookup).Found? ==> r == Halted(ProductNotFound(line.code), rows)
    ensures var r := ProcessLine(rows, line, fault);
            GetProduct(rows, line.code, fault.lookup).Found? ==>
              var p := GetProduct(rows, line.code, fault.lookup).value;
              && (line.quantity == 0 ==> r == Halted(InvalidQuantity(p.name, p.code), rows))
              && (0 < line.quantity && p.stock == 0 ==> r == Halted(OutOfStock(line.code), rows))
              && (0 < p.stock < line.quantity ==> r == Halted(InsufficientStock(p.name, p.stock), rows))
              && (0 < line.quantity <= p.stock && fault.save.Some? ==> r == Halted(StoreFailure(fault.save.value), rows))
  {
  }

  /** The walk over the first n lines, in request order, stopping at the first error. */
  function Run(rows: seq<Product>, lines: seq<Line>, faults: seq<LineFault>, n: nat): Tally
    requires n <= |lines|
  {
    if n == 0 then Tally([], 0.0, rows)
    else
      match Run(rows, lines, faults, n - 1)
      case Halted(e, t) => Halted(e, t)
      case Tally(ps, total, t) =>
        match ProcessLine(t, lines[n - 1], FaultAt(faults, n - 1))
        case Halted(e, t') => Halted(e, t')
        case Tally(more, amount, t') => Tally(ps + more, total + amount, t')
  }

  /** isCurrencyMismatch: some product is priced in another currency. */
  function IsCurrencyMismatch(products: seq<Product>, currency: string): (r: bool)
    ensures r <==> exists i :: 0 <= i < |products| && products[i].currency != currency
  {
    if products == [] then false
    else if products[0].currency != currency then true
    else
      var r := IsCurrencyMismatch(products[1..], currency);
      assert r ==> exists i :: 0 <= i < |products[1..]| && products[1..][i].currency != currency;
      assert (exists i :: 0 <= i < |products| && products[i].currency != currency) ==>
             exists i :: 0 <= i < |products[1..]| && products[1..][i].currency != currency by {
        if exists i :: 0 <= i < |products| && products[i].currency != currency {
          var i :| 0 <= i < |products| && products[i].currency != currency;
          assert products[1..][i - 1] == products[i];
        }
      }
      r
  }

  /** What validateProducts returns: the products and the total, or the error. */
  datatype Assembly = Assembled(products: seq<Product>, total: real) | Rejected(error: AssemblyError)

  /**
   * validateProducts as a value: the outcome, and the product table after it
   * (which keeps every write made before an error or a currency mismatch).
   */
  function Assemble(rows: seq<Product>, lines: seq<Line>, faults: seq<LineFault>, currency: string)
    : (Assembly, seq<Product>)
  {
    match Run(rows, lines, faults, |lines|)
    case Halted(e, t) => (Rejected(e), t)
    case Tally(ps, total, t) =>
      if IsCurrencyMismatch(ps, currency) then (Rejected(CurrencyMismatch(currency)), t)
      else (Assembled(ps, total), t)
  }

  /** An empty request assembles to no products and a total of exactly zero, writing nothing. */
  lemma EmptyRequestAssembled(rows: seq<Product>, faults: seq<LineFault>, currency: string)
    ensures Assemble(rows, [], faults, currency) == (Assembled([], 0.0), rows)
  {
  }

  /**
   * An assembled order has one product per line, each a live product with the
   * line's code in the user's currency, and its total is the sum of the line
   * amounts.
   */
  lemma AssembledOrder(rows: seq<Product>, lines: seq<Line>, faults: seq<LineFault>, currency: string)
    requires Assemble(rows, lines, faults, currency).0.Assembled?
    ensures var a := Assemble(rows, lines, faults, currency).0;
            && |a.products| == |lines| && a.total == Amount(lines, a.products)
            && forall j :: 0 <= j < |lines| ==> LiveWithCode(a.products[j], lines[j].code) && a.products[j].currency == currency
  {
    TallyShape(rows, lines, faults, |lines|);
    TallyTotal(rows, lines, faults, |lines|);
  }

  /** Once the walk has stopped, later lines change nothing: they are never looked up. */
  lemma {:induction false} HaltPersists(rows: seq<Product>, lines: seq<Line>, faults: seq<LineFault>, n: nat, m: nat)
    requires n <= m <= |lines|
    requires Run(rows, lines, faults, n).Halted?
    ensures Run(rows, lines, faults, m) == Run(rows, lines, faults, n)
  {
    if m > n {
      HaltPersists(rows, lines, faults, n, m - 1);
    }
  }

  /** What one pass of validateProducts' loop body yields. */
  datatype LineOutcome = Reserved(product: Product, amount: real) | LineRejected(error: AssemblyError)

  /**
   * One pass of validateProducts' loop body: look the line's product up, check
   * the quantity against the stock, price the line and write the lowered stock.
   */
  method ReserveLine(db: Database, line: Line, fault: LineFault) returns (outcome: LineOutcome)
    requires db.Valid()
    modifies db
    ensures db.Valid()
    ensures var step := ProcessLine(old(db.products), line, fault);
            && db.products == step.table
            && (step.Halted? <==> outcome.LineRejected?)
            && (step.Halted? ==> outcome.error == step.error)
            && (step.Tally? ==> step.products == [outcome.product] && step.total == outcome.amount)
    ensures db.users == old(db.users) && db.orders == old(db.orders)
  {
    ghost var step := ProcessLine(db.products, line, fault);
    var found := GetProduct(db.products, line.code, fault.lookup);
    if !found.Found? {
      return LineRejected(ProductNotFound(line.code));
    }
    var product := found.value;
    if line.quantity == 0 {
      return LineRejected(InvalidQuantity(product.name, product.code));
    }
    if product.stock == 0 {
      return LineRejected(OutOfStock(line.code));
    }
    if product.stock < line.quantity {
      return LineRejected(InsufficientStock(product.name, product.stock));
    }
    var quantity := Int64Of(line.quantity) as real;
    var amount := quantity * product.price;
    product := product.(stock := product.stock - line.quantity);
    var _, err := UpdateProduct(db, product, fault.save, fault.commitFails);
    if err.Some? {
      return LineRejected(StoreFailure(err.value));
    }
    assert step.products == [product];
    return Reserved(product, amount);
  }

  /** The walk one line further, from the state the walk over the first i lines left. */
  lemma RunNext(rows: seq<Product>, lines: seq<Line>, faults: seq<LineFault>, i: nat,
                products: seq<Product>, total: real, table: seq<Product>)
    requires i < |lines|
    requires Run(rows, lines, faults, i) == Tally(products, total, table)
    ensures var step := ProcessLine(table, lines[i], FaultAt(faults, i));
            Run(rows, lines, faults, i + 1)
            == if step.Halted? then Halted(step.error, step.table)
               else Tally(products + step.products, total + step.total, step.table)
  {
  }

  /** One turn of validateProducts' loop: line i against the table the earlier lines left. */
  method ReserveNext(db: Database, ghost rows: seq<Product>, lines: seq<Line>, faults: seq<LineFault>, i: nat,
                     ghost products: seq<Product>, ghost total: real) returns (outcome: LineOutcome)
    requires db.Valid()
    requires i < |lines|
    requires Run(rows, lines, faults, i) == Tally(products, total, db.products)
    modifies db
    ensures db.Valid()
    ensures db.users == old(db.users) && db.orders == old(db.orders)
    ensures outcome.LineRejected? ==> Run(rows, lines, faults, i + 1) == Halted(outcome.error, db.products)
    ensures outcome.Reserved? ==> Run(rows, lines, faults, i + 1)
                                  == Tally(products + [outcome.product], total + outcome.amount, db.products)
  {
    ghost var table := db.products;
    outcome := ReserveLine(db, lines[i], FaultAt(faults, i));
    RunNext(rows, lines, faults, i, products, total, table);
  }

  /**
   * validateProducts: walks the lines, reading and writing the product table,
   * and returns exactly what Assemble describes, leaving the table Assemble
   * describes.
   */
  method ValidateProducts(db: Database, lines: seq<Line>, user: User, faults: seq<LineFault>) returns (r: Assembly)
    requires db.Valid()
    modifies db
    ensures db.Valid()
    ensures (r, db.products) == Assemble(old(db.products), lines, faults, user.currency)
    ensures db.users == old(db.users) && db.orders == old(db.orders)
  {
    var products: seq<Product> := [];
    var total: real := 0.0;
    var i := 0;
    while i < |lines|
      invariant 0 <= i <= |lines|
      invariant db.Valid()
      invariant db.users == old(db.users) && db.orders == old(db.orders)
      invariant Run(old(db.products), lines, faults, i) == Tally(products, total, db.products)
    {
      var outcome := ReserveNext(db, old(db.products), lines, faults, i, products, total);
      if outcome.LineRejected? {
        r := Rejected(outcome.error);
        HaltPersists(old(db.products), lines, faults, i + 1, |lines|);
        return;
      }
      products := products + [outcome.product];
      total := total + outcome.amount;
      i := i + 1;
    }
    if IsCurrencyMismatch(products, user.currency) {
      r := Rejected(CurrencyMismatch(user.currency));
    } else {
      r := Assembled(products, total);
    }
  }

  /**
   * The error that stops the walk is the error of the first line that fails,
   * met with the table as the earlier lines left it, which that line leaves
   * unchanged.
   */
  lemma {:induction false} FirstFailure(rows: seq<Product>, lines: seq<Line>, faults: seq<LineFault>, n: nat)
    requires n <= |lines|
    requires Run(rows, lines, faults, n).Halted?
    ensures exists k :: (0 <= k < n && Run(rows, lines, faults, k).Tally?
                         && ProcessLine(Run(rows, lines, faults, k).table, lines[k], FaultAt(faults, k))
                            == Run(rows, lines, faults, n)
                         && Run(rows, lines, faults, n).table == Run(rows, lines, faults, k).table)
  {
    assert n > 0;
    RunHaltStep(rows, lines, faults, n);
    if Run(rows, lines, faults, n - 1).Halted? {
      FirstFailure(rows, lines, faults, n - 1);
    }
  }

  /**
   * A walk over n lines that stopped had stopped already, or stopped at line
   * n - 1, which then left the table as it found it.
   */
  lemma RunHaltStep(rows: seq<Product>, lines: seq<Line>, faults: seq<LineFault>, n: nat)
    requires 0 < n <= |lines|
    requires Run(rows, lines, faults, n).Halted?
    ensures Run(rows, lines, faults, n - 1).Halted? ==> Run(rows, lines, faults, n) == Run(rows, lines, faults, n - 1)
    ensures Run(rows, lines, faults, n - 1).Tally? ==>
      var step := ProcessLine(Run(rows, lines, faults, n - 1).table, lines[n - 1], FaultAt(faults, n - 1));
      && Run(rows, lines, faults, n) == step
      && step.table == Run(rows, lines, faults, n - 1).table
  {
  }

  /** A walk over n lines that did not stop is the walk over n - 1 lines plus one accepted line. */
  lemma RunStep(rows: seq<Product>, lines: seq<Line>, faults: seq<LineFault>, n: nat)
    requires 0 < n <= |lines|
    requires Run(rows, lines, faults, n).Tally?
    ensures Run(rows, lines, faults, n - 1).Tally?
    ensures var before := Run(rows, lines, faults, n - 1);
            var step := ProcessLine(before.table, lines[n - 1], FaultAt(faults, n - 1));
            && step.Tally?
            && Run(rows, lines, faults, n) == Tally(before.products + step.products, before.total + step.total, step.table)
  {
  }

  /** Σ int64(quantity) × price over the lines that produced the products. */
  function Amount(lines: seq<Line>, ps: seq<Product>): real
    requires |ps| <= |lines|
  {
    if ps == [] then 0.0
    else Amount(lines, ps[..|ps| - 1]) + LineAmount(lines[|ps| - 1].quantity, ps[|ps| - 1].price)
  }

  /** Σ quantity × price with the quantities taken as exact numbers. */
  function ExactAmount(lines: seq<Line>, ps: seq<Product>): real
    requires |ps| <= |lines|
  {
    if ps == [] then 0.0
    else ExactAmount(lines, ps[..|ps| - 1]) + (lines[|ps| - 1].quantity as real) * ps[|ps| - 1].price
  }

  /** Below 2^63 the conversion to int64 loses nothing. */
  lemma {:induction false} AmountIsExact(lines: seq<Line>, ps: seq<Product>)
    requires |ps| <= |lines|
    requires forall j :: 0 <= j < |ps| ==> lines[j].quantity < TwoTo63
    ensures Amount(lines, ps) == ExactAmount(lines, ps)
  {
    if ps != [] {
      AmountIsExact(lines, ps[..|ps| - 1]);
    }
  }

  /** A walk that has not stopped has collected one product per line. */
  lemma {:induction false} TallyLength(rows: seq<Product>, lines: seq<Line>, faults: seq<LineFault>, n: nat)
    requires n <= |lines|
    requires Run(rows, lines, faults, n).Tally?
    ensures |Run(rows, lines, faults, n).products| == n
  {
    if n > 0 {
      RunStep(rows, lines, faults, n);
      TallyLength(rows, lines, faults, n - 1);
    }
  }

  /**
   * A walk that has not stopped has collected one product per line, in line
   * order, each a live product with the line's code.
   */
  lemma {:induction false} TallyShape(rows: seq<Product>, lines: seq<Line>, faults: seq<LineFault>, n: nat)
    requires n <= |lines|
    requires Run(rows, lines, faults, n).Tally?
    ensures |Run(rows, lines, faults, n).products| == n
    ensures forall j :: 0 <= j < n ==> LiveWithCode(Run(rows, lines, faults, n).products[j], lines[j].code)
  {
    if n > 0 {
      RunStep(rows, lines, faults, n);
      TallyShape(rows, lines, faults, n - 1);
    }
  }

  /**
   * Entry j of ps is what line j reserved: the walk reached line j, the lookup
   * found a product in the table the earlier lines left, its stock was at
   * least the (non-zero) quantity, and the entry is that product with its stock
   * lowered by the quantity.
   */
  predicate ReservedAt(rows: seq<Product>, lines: seq<Line>, faults: seq<LineFault>, j: nat, ps: seq<Product>)
    requires j < |lines| && j < |ps|
  {
    && Run(rows, lines, faults, j).Tally?
    && var found := GetProduct(Run(rows, lines, faults, j).table, lines[j].code, FaultAt(faults, j).lookup);
       && found.Found?
       && 0 < lines[j].quantity <= found.value.stock
       && ps[j] == found.value.(stock := found.value.stock - lines[j].quantity)
  }

  /**
   * Every product a walk that has not stopped collected is the row its line
   * reserved from, with the stock left after that line: the product is appended
   * only after its stock has been lowered.
   */
  lemma {:induction false} TallyProducts(rows: seq<Product>, lines: seq<Line>, faults: seq<LineFault>, n: nat)
    requires n <= |lines|
    requires Run(rows, lines, faults, n).Tally?
    ensures |Run(rows, lines, faults, n).products| == n
    ensures forall j :: 0 <= j < n ==> ReservedAt(rows, lines, faults, j, Run(rows, lines, faults, n).products)
  {
    TallyLength(rows, lines, faults, n);
    if n > 0 {
      TallyProducts(rows, lines, faults, n - 1);
      LastReserved(rows, lines, faults, n);
      var before := Run(rows, lines, faults, n - 1).products;
      var ps := Run(rows, lines, faults, n).products;
      forall j | 0 <= j < n
        ensures ReservedAt(rows, lines, faults, j, ps)
      {
        if j < n - 1 {
          assert ReservedAt(rows, lines, faults, j, before);
        }
      }
    }
  }

  /**
   * The last line of a walk that has not stopped reserved the product it
   * appended, and the earlier entries are kept.
   */
  lemma LastReserved(rows: seq<Product>, lines: seq<Line>, faults: seq<LineFault>, n: nat)
    requires 0 < n <= |lines|
    requires Run(rows, lines, faults, n).Tally?
    ensures Run(rows, lines, faults, n - 1).Tally?
    ensures |Run(rows, lines, faults, n).products| == n
    ensures ReservedAt(rows, lines, faults, n - 1, Run(rows, lines, faults, n).products)
    ensures Run(rows, lines, faults, n).products[..n - 1] == Run(rows, lines, faults, n - 1).products
  {
    RunStep(rows, lines, faults, n);
    TallyLength(rows, lines, faults, n - 1);
    var before := Run(rows, lines, faults, n - 1);
    var step := ProcessLine(before.table, lines[n - 1], FaultAt(faults, n - 1));
    var ps := Run(rows, lines, faults, n).products;
    assert ps == before.products + step.products;
    assert ps[n - 1] == step.products[0];
    assert ps[..n - 1] == before.products;
  }

  /**
   * The running total of a walk that has not stopped is the sum of its line
   * amounts, which is Σ quantity × price when no quantity reaches 2^63.
   */
  lemma {:induction false} TallyTotal(rows: seq<Product>, lines: seq<Line>, faults: seq<LineFault>, n: nat)
    requires n <= |lines|
    requires Run(rows, lines, faults, n).Tally?
    ensures |Run(rows, lines, faults, n).products| == n
    ensures Run(rows, lines, faults, n).total == Amount(lines, Run(rows, lines, faults, n).products)
    ensures (forall j :: 0 <= j < n ==> lines[j].quantity < TwoTo63) ==>
      Run(rows, lines, faults, n).total == ExactAmount(lines, Run(rows, lines, faults, n).products)
  {
    TallyAmount(rows, lines, faults, n);
    if forall j :: 0 <= j < n ==> lines[j].quantity < TwoTo63 {
      AmountIsExact(lines, Run(rows, lines, faults, n).products);
    }
  }

  lemma {:induction false} TallyAmount(rows: seq<Product>, lines: seq<Line>, faults: seq<LineFault>, n: nat)
    requires n <= |lines|
    requires Run(rows, lines, faults, n).Tally?
    ensures |Run(rows, lines, faults, n).products| == n
    ensures Run(rows, lines, faults, n).total == Amount(lines, Run(rows, lines, faults, n).products)
  {
    TallyLength(rows, lines, faults, n);
    if n > 0 {
      LastAmount(rows, lines, faults, n);
      TallyAmount(rows, lines, faults, n - 1);
    }
  }

  /** The last accepted line adds its own amount to the running total. */
  lemma LastAmount(rows: seq<Product>, lines: seq<Line>, faults: seq<LineFault>, n: nat)
    requires 0 < n <= |lines|
    requires Run(rows, lines, faults, n).Tally?
    ensures Run(rows, lines, faults, n - 1).Tally?
    ensures |Run(rows, lines, faults, n).products| == n
    ensures Run(rows, lines, faults, n).products[..n - 1] == Run(rows, lines, faults, n - 1).products
    ensures Run(rows, lines, faults, n).total
            == Run(rows, lines, faults, n - 1).total
               + LineAmount(lines[n - 1].quantity, Run(rows, lines, faults, n).products[n - 1].price)
  {
    RunStep(rows, lines, faults, n);
    TallyLength(rows, lines, faults, n - 1);
    var before := Run(rows, lines, faults, n - 1);
    var step := ProcessLine(before.table, lines[n - 1], FaultAt(faults, n - 1));
    var ps := Run(rows, lines, faults, n).products;
    assert ps == before.products + step.products;
    assert ps[n - 1] == step.products[0];
    assert ps[..n - 1] == before.products;
  }

  /** The quantities reserved for the product with the given id by the lines behind ps. */
  function ReservedFor(lines: seq<Line>, ps: seq<Product>, id: nat): nat
    requires |ps| <= |lines|
  {
    if ps == [] then 0
    else ReservedFor(lines, ps[..|ps| - 1], id) + (if ps[|ps| - 1].id == id then lines[|ps| - 1].quantity else 0)
  }

  lemma ReservedForAppend(lines: seq<Line>, ps: seq<Product>, p: Product, id: nat)
    requires |ps| < |lines|
    ensures ReservedFor(lines, ps + [p], id)
            == ReservedFor(lines, ps, id) + (if p.id == id then lines[|ps|].quantity else 0)
  {
    assert (ps + [p])[..|ps|] == ps;
  }

  /**
   * The table differs from the original rows only in stock, and every row's
   * stock is its original stock less what the lines behind ps reserved for it.
   */
  predicate Conserved(rows: seq<Product>, table: seq<Product>, lines: seq<Line>, ps: seq<Product>)
    requires |ps| <= |lines|
  {
    && |table| == |rows| && ProductsIndexed(table)
    && forall k :: 0 <= k < |rows| ==>
         table[k] == rows[k].(stock := table[k].stock) && table[k].stock + ReservedFor(lines, ps, k + 1) == rows[k].stock
  }

  /** Writing one more reservation into the table keeps it conserved. */
  lemma OneMoreReservation(rows: seq<Product>, table: seq<Product>, lines: seq<Line>, ps: seq<Product>, k0: nat)
    requires |ps| < |lines|
    requires Conserved(rows, table, lines, ps)
    requires k0 < |table| && lines[|ps|].quantity <= table[k0].stock
    ensures var reserved := table[k0].(stock := table[k0].stock - lines[|ps|].quantity);
            Conserved(rows, table[k0 := reserved], lines, ps + [reserved])
  {
    var reserved := table[k0].(stock := table[k0].stock - lines[|ps|].quantity);
    forall id: nat
      ensures ReservedFor(lines, ps + [reserved], id)
              == ReservedFor(lines, ps, id) + (if reserved.id == id then lines[|ps|].quantity else 0)
    {
      ReservedForAppend(lines, ps, reserved, id);
    }
  }

  /** An accepted line reserves from one row of the table it was checked against. */
  lemma AcceptedLineRow(rows: seq<Product>, line: Line, fault: LineFault)
    requires ProcessLine(rows, line, fault).Tally?
    ensures exists k :: (0 <= k < |rows| && line.quantity <= rows[k].stock
                         && ProcessLine(rows, line, fault).products[0] == rows[k].(stock := rows[k].stock - line.quantity))
  {
    var p := GetProduct(rows, line.code, fault.lookup).value;
    var k :| 0 <= k < |rows| && rows[k] == p;
  }

  /** An accepted, committed line keeps the table conserved. */
  lemma AcceptedLineConserves(rows: seq<Product>, lines: seq<Line>, ps: seq<Product>, table: seq<Product>, fault: LineFault)
    requires |ps| < |lines|
    requires Conserved(rows, table, lines, ps)
    requires ProcessLine(table, lines[|ps|], fault).Tally? && !fault.commitFails
    ensures var step := ProcessLine(table, lines[|ps|], fault);
            Conserved(rows, step.table, lines, ps + step.products)
  {
    var step := ProcessLine(table, lines[|ps|], fault);
    var reserved := step.products[0];
    AcceptedLineRow(table, lines[|ps|], fault);
    var k0 :| 0 <= k0 < |table| && lines[|ps|].quantity <= table[k0].stock
              && reserved == table[k0].(stock := table[k0].stock - lines[|ps|].quantity);
    assert reserved.id == k0 + 1;
    assert step.products == [reserved];
    assert step.table == table[k0 := reserved];
    OneMoreReservation(rows, table, lines, ps, k0);
  }

  /**
   * Stock is conserved: when every commit goes through, each product row ends
   * with its stock lowered by exactly the quantities the walked lines reserved
   * for it (summed when several lines name the same code), and nothing else
   * about any row changes.
   */
  lemma {:induction false} StockConservation(rows: seq<Product>, lines: seq<Line>, faults: seq<LineFault>, n: nat)
    requires n <= |lines|
    requires ProductsIndexed(rows)
    requires forall j :: 0 <= j < n ==> !FaultAt(faults, j).commitFails
    requires Run(rows, lines, faults, n).Tally?
    ensures |Run(rows, lines, faults, n).products| == n
    ensures Conserved(rows, Run(rows, lines, faults, n).table, lines, Run(rows, lines, faults, n).products)
  {
    TallyLength(rows, lines, faults, n);
    if n > 0 {
      RunStep(rows, lines, faults, n);
      StockConservation(rows, lines, faults, n - 1);
      var before := Run(rows, lines, faults, n - 1);
      AcceptedLineConserves(rows, lines, before.products, before.table, FaultAt(faults, n - 1));
    }
  }

  /**
   * Two lines in the user's currency: 2 × A at 10.00 with 5 in stock and 1 × B
   * at 5.00 with 1 in stock give a total of 25.00 and leave 3 of A and 0 of B.
   */
  lemma TwoLineOrder()
    ensures var a := Product(1, "A", "", "A", 10.0, 5, false, "NGN", 1);
            var b := Product(2, "B", "", "B", 5.0, 1, false, "NGN", 1);
            Assemble([a, b], [Line("A", 2), Line("B", 1)], [], "NGN")
            == (Assembled([a.(stock := 3), b.(stock := 0)], 25.0), [a.(stock := 3), b.(stock := 0)])
  {
    var a := Product(1, "A", "", "A", 10.0, 5, false, "NGN", 1);
    var b := Product(2, "B", "", "B", 5.0, 1, false, "NGN", 1);
    var lines := [Line("A", 2), Line("B", 1)];
    assert GetProduct([a, b], "A", None) == Found(a);
    assert Run([a, b], lines, [], 1) == Tally([a.(stock := 3)], 20.0, [a.(stock := 3), b]);
    assert FirstLive([a.(stock := 3), b], "B", 1) == Some(1);
    assert GetProduct([a.(stock := 3), b], "B", None) == Found(b);
    assert Run([a, b], lines, [], 2) == Tally([a.(stock := 3), b.(stock := 0)], 25.0, [a.(stock := 3), b.(stock := 0)]);
  }

  /**
   * The currency is checked only after every line has been reserved and
   * written: a product priced in another currency rejects the order, and the
   * lowered stock stays written.
   */
  lemma MismatchKeepsWrites()
    ensures var p := Product(1, "Lamp", "", "L1", 10.0, 5, false, "USD", 1);
            Assemble([p], [Line("L1", 1)], [], "NGN") == (Rejected(CurrencyMismatch("NGN")), [p.(stock := 4)])
  {
    var p := Product(1, "Lamp", "", "L1", 10.0, 5, false, "USD", 1);
    assert GetProduct([p], "L1", None) == Found(p);
    assert Run([p], [Line("L1", 1)], [], 1) == Tally([p.(stock := 4)], 10.0, [p.(stock := 4)]);
  }

  /** The currency check rejects exactly when some collected product is priced in another currency. */
  lemma {:induction false} CurrencyCheckedLast(rows: seq<Product>, lines: seq<Line>, faults: seq<LineFault>, currency: string)
    requires Run(rows, lines, faults, |lines|).Tally?
    ensures |Run(rows, lines, faults, |lines|).products| == |lines|
    ensures Assemble(rows, lines, faults, currency).0 == Rejected(CurrencyMismatch(currency)) <==>
      exists i :: 0 <= i < |lines| && Run(rows, lines, faults, |lines|).products[i].currency != currency
    ensures Assemble(rows, lines, faults, currency).1 == Run(rows, lines, faults, |lines|).table
  {
    TallyLength(rows, lines, faults, |lines|);
  }
}
