/** Entities of the order-management application and the in-memory store the
    controllers act on.  The relational database becomes three maps keyed by
    identity; money (`decimal(10,2)`) is held in integer cents and a C# `int`
    is the subset type `Int32`. */
module Models {

  datatype Option<+T> = None | Some(value: T)

  const INT32_MIN: int := -0x8000_0000
  const INT32_MAX: int := 0x7FFF_FFFF
  const INT32_MODULUS: int := 0x1_0000_0000

  /** A C# `int`: from `INT32_MIN` to `INT32_MAX`, the bounds written out
      as literals, which the verifier handles more cheaply. */
  type Int32 = x: int | -0x8000_0000 <= x <= 0x7FFF_FFFF

  /** An amount of money in hundredths of the currency unit. */
  type Cents = int

  /** A point in time supplied by the caller (the application reads
      `DateTime.Now`). */
  type Time = int

  /** The default value of an `int` key, which no stored row has.  Entity
      Framework treats an entity whose generated key still holds it as new:
      an update of such an entity inserts a row under a fresh identity. */
  const UNSET_ID: int := 0

  /** Declared range of `Product.Price`: 0.01 .. 999,999.99. */
  const MIN_PRICE_CENTS: Cents := 1
  const MAX_PRICE_CENTS: Cents := 99_999_999

  /** Declared lower bound of `OrderItem.Quantity`. */
  const MIN_QUANTITY: int := 1

  /** C# `int` addition in an unchecked context: a sum outside the range of
      `int` wraps around by 2^32. */
  function AddInt32(a: Int32, b: Int32): (r: Int32)
    ensures INT32_MIN <= a + b <= INT32_MAX ==> r == a + b
    ensures !(INT32_MIN <= a + b <= INT32_MAX) ==> r == a + b - INT32_MODULUS || r == a + b + INT32_MODULUS
  {
    if a + b > INT32_MAX then a + b - INT32_MODULUS
    else if a + b < INT32_MIN then a + b + INT32_MODULUS
    else a + b
  }

  datatype OrderStatus = Pending | Processing | Completed | Cancelled

  datatype UserRole = Admin | Empleado | Cliente

  datatype Product = Product(
    id: int,
    name: string,
    description: string,
    price: Cents,
    stock: Int32,
    createdAt: Time,
    updatedAt: Option<Time>)

  /** A line of an order.  The item's own identity and its back reference to
      the order are implied by its position in `Order.items`. */
  datatype OrderItem = OrderItem(productId: int, quantity: Int32, subtotal: Cents)

  datatype Order = Order(
    id: int,
    userId: int,
    orderDate: Time,
    status: OrderStatus,
    total: Cents,
    items: seq<OrderItem>)

  datatype User = User(
    id: int,
    name: string,
    email: string,
    password: string,
    role: UserRole,
    createdAt: Time,
    updatedAt: Option<Time>)

  datatype Store = Store(
    products: map<int, Product>,
    orders: map<int, Order>,
    users: map<int, User>)

  /** Errors an action adds to the model state.  Errors raised by model
      binding and data annotations before the action body runs are not
      listed; the actions receive only whether there were any. */
  datatype ModelError =
    | PriceNotPositive
    | StockNegative
    | RoleNotCreatable
    | RoleNotAssignable
    | NoProductSelected
    | InsufficientStock(productName: Option<string>)
    | NoOrderLines

  /** What an action answers.  `Ok` is a redirect after a commit; it carries
      the errors recorded in the model state on the way, which the redirect
      itself discards.  `Invalid` re-renders the form with its errors.
      `Failed` is an unhandled exception: nothing is saved. */
  datatype Status =
    | Ok(warnings: seq<ModelError>)
    | Invalid(errors: seq<ModelError>)
    | NotFound
    | AccessDenied
    | Failed

  datatype Response = Response(store: Store, status: Status)

  /** What a confirmation or edit page (GET) answers: the page with its
      content, or one of the two refusals.  Pages change nothing. */
  datatype Page<+T> = Shown(content: T) | PageNotFound | PageAccessDenied

  /** The roles admitted by `[Authorize(Roles = "Admin,Empleado")]` on the
      orders, products and users controllers. */
  function IsStaff(role: UserRole): (staff: bool)
    ensures staff <==> role != Cliente
  {
    role == Admin || role == Empleado
  }

  /** Sum of the subtotals of a sequence of order items. */
  function SumSubtotals(items: seq<OrderItem>): Cents {
    if |items| == 0 then 0 else items[0].subtotal + SumSubtotals(items[1..])
  }

  /** Total quantity of one product over a sequence of order items. */
  function QuantityOf(items: seq<OrderItem>, productId: int): int {
    if |items| == 0 then 0 else ItemQuantity(items[0], productId) + QuantityOf(items[1..], productId)
  }

  /** The quantity of one product a single item takes. */
  function ItemQuantity(item: OrderItem, productId: int): Int32 {
    if item.productId == productId then item.quantity else 0
  }

  lemma {:induction false} SumSubtotalsConcat(a: seq<OrderItem>, b: seq<OrderItem>)
    ensures SumSubtotals(a + b) == SumSubtotals(a) + SumSubtotals(b)
    decreases |a|
  {
    if |a| == 0 {
      assert a + b == b;
    } else {
      assert (a + b)[1..] == a[1..] + b;
      SumSubtotalsConcat(a[1..], b);
    }
  }

  lemma {:induction false} QuantityOfConcat(a: seq<OrderItem>, b: seq<OrderItem>, productId: int)
    ensures QuantityOf(a + b, productId) == QuantityOf(a, productId) + QuantityOf(b, productId)
    decreases |a|
  {
    if |a| == 0 {
      assert a + b == b;
    } else {
      assert (a + b)[1..] == a[1..] + b;
      QuantityOfConcat(a[1..], b, productId);
    }
  }

  /** Two products that differ at most in their stock. */
  predicate SameExceptStock(a: Product, b: Product) {
    a.(stock := b.stock) == b
  }

  /** What the application relies on across requests: every entity is stored
      under its own identity, products have a positive price and a
      non-negative stock, and every order's total is the sum of its items'
      subtotals, each item ordering at least `MIN_QUANTITY` units. */
  predicate Consistent(s: Store) {
    && (forall k :: k in s.products ==> ProductConsistent(k, s.products[k]))
    && (forall k :: k in s.orders ==> OrderConsistent(k, s.orders[k]))
    && (forall k :: k in s.users ==> s.users[k].id == k)
  }

  predicate ProductConsistent(k: int, p: Product) {
    p.id == k && p.price > 0 && p.stock >= 0
  }

  predicate OrderConsistent(k: int, o: Order) {
    && o.id == k
    && o.total == SumSubtotals(o.items)
    && QuantitiesPositive(o.items)
  }

  predicate QuantitiesPositive(items: seq<OrderItem>) {
    forall i :: 0 <= i < |items| ==> items[i].quantity >= MIN_QUANTITY
  }
}
