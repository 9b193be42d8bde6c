# PedidosApp order and account rules, modelled in Dafny

PedidosApp is an ASP.NET Core MVC order-management application. Customers
(role `Cliente`) place orders. Staff (roles `Admin` and `Empleado`) manage
products, orders and user accounts. Most of the application passes data
through Entity Framework unchanged. Three staff controllers hold real
business rules, and this project models them:

- **Orders** (`orders.dfy`): the multi-line staff order form, status edits,
  and order deletion.
  - The form folds over parallel lists of product ids and quantities.
    Lines with a non-positive quantity are skipped. A line whose product is
    missing or short of stock records an error. An accepted line is priced,
    added to the running total, and takes its quantity from the product's
    stock.
  - Later lines see the stock that earlier lines took, because Entity
    Framework tracks the product entity across lines.
  - The order is committed, with status Pending, only if at least one line
    was accepted.
  - Deleting an order gives its quantities back to stock only if the order
    is Pending or Processing. The addition is C#'s unchecked `int`
    addition.
- **Products** (`products.dfy`):
  - Create and edit check that the price is positive and the stock is not
    negative. Both checks always run.
  - An edit keeps the stored creation time.
  - Deleting a missing product does nothing.
- **Users** (`users.dfy`):
  - An `Empleado` may only create `Cliente` accounts and may only assign
    the `Cliente` role.
  - An `Empleado` may not open the edit or delete page of an `Admin` or
    `Empleado` account, and may not edit or delete such an account.
  - An `Admin` is unrestricted.
  - Edits keep the stored creation time.

`models.dfy` holds the entities. The database becomes a `Store` of three
maps from identity to `Product`, `Order` and `User`. Money is integer cents,
because the application uses `decimal(10,2)`. A C# `int` is the subset type
`Int32`. Each controller action is a pure function. It takes the store, the
caller's role and the bound form, and returns a `Response`. That is the new
store plus one of these statuses:

- `Ok` is the redirect that ends a successful action. It carries the errors recorded in
  the model state on the way, but the redirect itself discards them.
- `Invalid` re-renders the form with its errors.
- `NotFound` is the not-found answer.
- `AccessDenied` is the redirect to the access-denied page.
- `Failed` is an unhandled exception.

Every action leaves the store unchanged unless it answers `Ok`.

Values the controllers read from their environment become parameters:

- `now` is the current time.
- `newId` is the identity the database assigns on insert. It is required
  not to be in use.
- `bindingValid` says whether model binding and the data-annotation
  validators left the model state valid.
- `caller` is the signed-in user's role.

The `[Authorize(Roles = "Admin,Empleado")]` attribute on the three
controllers is modelled as `IsStaff`. A `Cliente` caller gets
`AccessDenied`, which is where cookie authentication redirects refused
requests.

A refusal is a redirect to the access-denied page, the not-found answer,
or the form re-rendered with its model-state errors. Order statuses have no transition
table: staff may write any status over any other
(`Orders.StatusEditUnrestricted`).

## Model

| member | source | states |
|---|---|---|
| `Models.IsStaff` | PedidosApp/Controllers/OrdersController.cs:16 | The roles the controllers admit are exactly Admin and Empleado. Every role except Cliente passes. |
| `Models.AddInt32` | PedidosApp/Controllers/OrdersController.cs:269 | The stock restoring addition is C#'s unchecked `int` addition: exact when the sum fits in an `int`, otherwise off by exactly 2^32. |
| `Orders.LineFits` | PedidosApp/Controllers/OrdersController.cs:110-114 | A line the loop accepts has a quantity of at least 1 and names a stored product. Taking that quantity leaves the product's stock non-negative. |
| `Orders.AddLine` | PedidosApp/Controllers/OrdersController.cs:107-133 | One line of the order form does exactly one thing. A non-positive quantity changes nothing. A line whose product is missing or short of stock adds one `InsufficientStock` error, carrying the product's name if it exists, and no item or stock change. A fitting line adds one item priced at price × quantity and takes that quantity from the product's stock. |
| `Orders.AddLines` | PedidosApp/Controllers/OrdersController.cs:105-134 | The line loop keeps its invariant. Items and errors only grow. The total grows by exactly the new items' subtotals. Every new item names an existing product, has quantity ≥ 1 and subtotal = price × quantity. Each product loses exactly the quantity the new items take of it and keeps its other fields. A non-negative stock stays non-negative, even when one product appears on several lines. |
| `Orders.AddLinesFollowsLines` | PedidosApp/Controllers/OrdersController.cs:105-134 | The loop's items are exactly the accepted lines, in form order, each with its submitted product id and quantity and priced from the stored products. A line is accepted if and only if its quantity is positive, its product is stored, and the stored stock less what earlier accepted lines took of that product covers the quantity. |
| `Orders.AddLinesCountsLines` | PedidosApp/Controllers/OrdersController.cs:105-118 | Every line with a positive quantity yields exactly one item or exactly one error. Lines with a non-positive quantity yield neither. |
| `Orders.NoItemsNoStockChange` | PedidosApp/Controllers/OrdersController.cs:136-146 | When no line is accepted, the tracked products equal the stored ones, so discarding the request loses nothing. |
| `Orders.CreateOrder` | PedidosApp/Controllers/OrdersController.cs:80-156 | A form without its `Order` fields ends in an unhandled exception and saves nothing. A null or empty product list, or null quantities, gives the single "select a product" error and changes nothing. A commit adds exactly one order under the new identity. That order is Pending, has the given customer and date, has at least one item, and its total equals the sum of its items' subtotals. Its items are exactly the accepted lines in form order, each priced from the stored products. Its items plus the recorded errors number exactly the lines with a positive quantity. A form with lines none of which fits is re-rendered with one insufficient-stock error per line with a positive quantity, in form order, and then `NoOrderLines`. Each product's stock drops by exactly the quantity the order takes of it, and a non-negative stock never goes negative. Users are untouched. Any answer other than `Ok` leaves the store unchanged. |
| `Orders.AddLinesAcceptsIffSomeLineFits` | PedidosApp/Controllers/OrdersController.cs:105-146 | The loop accepts at least one line if and only if some line fits the stock as it stood before the loop. The first accepted line always sees untouched stock. |
| `Orders.CommitIffSomeLineFits` | PedidosApp/Controllers/OrdersController.cs:136-152 | A staff order form with a non-empty line list commits if and only if some line fits the stored stock. A partial order with rejected lines still commits. Otherwise the form is re-rendered with exactly one insufficient-stock error per line with a positive quantity, in form order, followed by `NoOrderLines`. |
| `Orders.NoFitRefusesAll` | PedidosApp/Controllers/OrdersController.cs:105-118 | When no line fits the products, the loop leaves products, items and total as they were and appends exactly one insufficient-stock error per line with a positive quantity, in form order, each naming the line's product if it exists. |
| `Orders.SkippedLineIsInert` | PedidosApp/Controllers/OrdersController.cs:110-111 | Removing a line with a non-positive quantity from the form leaves the whole outcome unchanged: items, stock, total and errors. |
| `Orders.HoldsStock` | PedidosApp/Controllers/OrdersController.cs:262 | A Completed or Cancelled order no longer holds stock. Every other status does. |
| `Orders.RestoredStock` | PedidosApp/Controllers/OrdersController.cs:264-272 | A product's stock after the restoring loop. Items of other products leave it unchanged. |
| `Orders.RestoredStockExact` | PedidosApp/Controllers/OrdersController.cs:264-272 | Giving back items with positive quantities one at a time adds exactly their total quantity, provided that total fits in an `int`. |
| `Orders.RestoreItem` | PedidosApp/Controllers/OrdersController.cs:266-271 | Giving back one item changes only its own product's stock, and only if that product still exists. Every other product is unchanged. |
| `Orders.RestoreStock` | PedidosApp/Controllers/OrdersController.cs:264-272 | The item-by-item restoring loop over the whole catalogue agrees, product by product, with restoring each product's own items in order. It keeps every product and all fields other than stock. |
| `Orders.DeleteOrder` | PedidosApp/Controllers/OrdersController.cs:251-280 | A staff delete succeeds if and only if the order exists, and then removes exactly that order. Users are unchanged. A Completed or Cancelled order leaves every product unchanged. A Pending or Processing order gives its items' quantities back to the products that still exist. |
| `Orders.DeleteRestoresExactly` | PedidosApp/Controllers/OrdersController.cs:262-273 | Deleting an order that still holds stock raises each product's stock by exactly the quantity the order's items take, wherever that fits in an `int`. Deleting a Completed or Cancelled order changes no product. |
| `Orders.EditOrderStatus` | PedidosApp/Controllers/OrdersController.cs:190-224 | A route id that differs from the form id, or a missing order, gives NotFound and changes nothing. Otherwise only that order's status changes, to the submitted value. |
| `Orders.StatusEditUnrestricted` | PedidosApp/Controllers/OrdersController.cs:197-203 | Any status may be written over any other; there is no transition table. Writing the same status twice is the same as writing it once. |
| `Orders.CreateThenDeleteRestores` | PedidosApp/Controllers/OrdersController.cs:262-275 | Deleting an order right after creating it gives back exactly the store the request started from. Every unit of stock returns, and no partial sum of the restoring loop overflows. |
| `Orders.CreateOrderPreservesConsistency` | PedidosApp/Controllers/OrdersController.cs:120-152 | Order creation keeps the store consistent. Every product keeps a positive price and a non-negative stock, and every order's total equals the sum of its items' subtotals, with every quantity at least 1. |
| `Orders.DeleteOrderPreservesConsistency` | PedidosApp/Controllers/OrdersController.cs:262-276 | Order deletion keeps the store consistent, provided that restoring stock does not overflow an `int`. |
| `Orders.RestoreCanWrap` | PedidosApp/Controllers/OrdersController.cs:269 | Take a product whose stock was raised to the largest `int` while a Pending order holds one unit of it. Deleting that order leaves the product with the smallest `int` as its stock. |
| `Orders.EditOrderStatusPreservesConsistency` | PedidosApp/Controllers/OrdersController.cs:203-208 | A status edit keeps the store consistent. |
| `Orders.RepeatedProductScenario` | PedidosApp/Controllers/OrdersController.cs:113-132 | Lines of 2 and then 4 units of a product with stock 5: the second line sees stock 3 and is refused. The order holds the earlier line, one item of 2 units, and the stock ends at 3. |
| `Orders.TotalMayExceedDeclaredRange` | PedidosApp/Controllers/OrdersController.cs:120-149 | Order creation does not enforce the declared upper bound of 999,999.99 on an order's total. Two units at the highest declared price already exceed it. |
| `Products.Validate` | PedidosApp/Controllers/ProductsController.cs:61-69 | Both product checks always run. A Price error is reported if and only if price ≤ 0, and a Stock error if and only if stock < 0. No other error is reported. |
| `Products.DeclaredRangesPassValidation` | PedidosApp/Models/Product.cs:22-29 | A product within the declared ranges passes both controller checks: price between 0.01 and 999,999.99, stock at least 0. |
| `Products.CreateProduct` | PedidosApp/Controllers/ProductsController.cs:59-80 | A staff create succeeds if and only if binding was valid, price > 0 and stock ≥ 0. It then adds exactly one product, under the new identity, with the form's fields, the current creation time and no update time. It leaves every other entity unchanged. A rejection reports the check errors and changes nothing. |
| `Products.EditProduct` | PedidosApp/Controllers/ProductsController.cs:101-147 | An id mismatch gives NotFound. Failed checks re-render the form with their errors. A missing product gives NotFound, unless the id is the unset key 0. An edit with key 0 inserts the form's product under a fresh identity and changes nothing else. The new product is updated now and created now, or at the creation time of a stored row with key 0 if there is one. An accepted edit of a stored product replaces only that product's fields with the form's, keeps its stored creation time and sets the update time to now. |
| `Products.DeleteProduct` | PedidosApp/Controllers/ProductsController.cs:170-181 | A staff delete always redirects. It removes exactly the given product, leaving the others, orders and users unchanged. A missing id changes nothing. |
| `Products.CreateThenDeleteProduct` | PedidosApp/Controllers/ProductsController.cs:172-177 | Deleting a product right after creating it gives back the original store. |
| `Products.EditsKeepCreationTime` | PedidosApp/Controllers/ProductsController.cs:122-128 | After two accepted edits of a product with a set key, the product still has its original creation time, and the update time is the second edit's. |
| `Products.EditWithUnsetKeyCreates` | PedidosApp/Controllers/ProductsController.cs:118-130 | An edit posted with the unset key succeeds exactly when the create form would. It stores the same product under the same fresh identity, except that the product is also stamped as updated. |
| `Products.CreateProductPreservesConsistency` | PedidosApp/Controllers/ProductsController.cs:61-77 | Product creation keeps the store consistent. |
| `Products.EditProductPreservesConsistency` | PedidosApp/Controllers/ProductsController.cs:108-130 | A product edit keeps the store consistent. |
| `Products.DeleteProductPreservesConsistency` | PedidosApp/Controllers/ProductsController.cs:172-177 | A product delete keeps the store consistent. |
| `Users.RolesOffered` | PedidosApp/Controllers/UsersController.cs:52-59 | An Empleado is offered only the Cliente role. Anyone else is offered Admin, Empleado and Cliente. |
| `Users.MayManage` | PedidosApp/Controllers/UsersController.cs:107-112 | An Admin may open, edit and delete any account. An Empleado may do so exactly for Cliente accounts. |
| `Users.RoleErrors` | PedidosApp/Controllers/UsersController.cs:69-72 | The role check fails if and only if the submitted role is not one the caller is offered, and it then reports a single error. |
| `Users.CreateUser` | PedidosApp/Controllers/UsersController.cs:66-92 | A staff create succeeds if and only if binding was valid and the role is one the caller is offered. A rejection re-renders the form with no error but the role error, which it carries if and only if an Empleado asked for a role other than Cliente. A success adds exactly one account with the form's fields and the current creation time, and changes nothing else. |
| `Users.EditUserPage` | PedidosApp/Controllers/UsersController.cs:95-126 | The edit page gives NotFound for a missing id or account. It gives AccessDenied if and only if an Empleado asks for an Admin or Empleado account. Otherwise it shows the stored account with the roles the caller is offered. |
| `Users.EditUser` | PedidosApp/Controllers/UsersController.cs:131-192 | The checks run in this order. An id mismatch gives NotFound. An Empleado editing a stored Admin or Empleado account gets AccessDenied. A role the caller is not offered re-renders the form with a role error. A missing account gives NotFound, unless the id is the unset key 0. An edit with key 0 inserts the form's account under a fresh identity and changes nothing else. The new account is updated now and created now, or at the creation time of a stored row with key 0 if there is one. An accepted edit of a stored account replaces only that account's fields with the form's, keeps the stored creation time, sets the update time to now and leaves everything else unchanged. |
| `Users.EditWithUnsetKeyCreates` | PedidosApp/Controllers/UsersController.cs:137-166 | An edit posted with the unset key succeeds exactly when the create form would, and is refused in the same way. It stores the same account under the same fresh identity, except that the account is also stamped as updated. |
| `Users.DeleteUserPage` | PedidosApp/Controllers/UsersController.cs:195-216 | The delete confirmation page gives NotFound for a missing id or account. It gives AccessDenied if and only if an Empleado asks for an Admin or Empleado account. Otherwise it shows that account. |
| `Users.DeleteUser` | PedidosApp/Controllers/UsersController.cs:221-239 | A staff delete gives NotFound if and only if the account is missing. It gives AccessDenied if and only if an Empleado targets an Admin or Empleado account. Otherwise it removes exactly that account. |
| `Users.OfferedRolesAreCreatable` | PedidosApp/Controllers/UsersController.cs:52-79 | With valid binding, the create form accepts a role if and only if the form offers it. An Admin may create any role. |
| `Users.DeletePageAgreesWithDelete` | PedidosApp/Controllers/UsersController.cs:209-233 | The delete confirmation page is shown if and only if the confirmation succeeds, and it refuses access if and only if the confirmation does. |
| `Users.EditPageAgreesWithEdit` | PedidosApp/Controllers/UsersController.cs:108-145 | For a stored account, the edit page refuses access if and only if the edit form does. |
| `Users.EmpleadoCreateKeepsStaffAccounts` | PedidosApp/Controllers/UsersController.cs:69-79 | Whatever an Empleado submits to the create form, the set of Admin and Empleado accounts stays exactly the same. |
| `Users.EmpleadoEditKeepsStaffAccounts` | PedidosApp/Controllers/UsersController.cs:139-166 | Whatever an Empleado submits to the edit form, the set of Admin and Empleado accounts stays exactly the same. |
| `Users.EmpleadoDeleteKeepsStaffAccounts` | PedidosApp/Controllers/UsersController.cs:229-236 | Whatever account an Empleado tries to delete, the set of Admin and Empleado accounts stays exactly the same. |
| `Users.CreateThenDeleteUser` | PedidosApp/Controllers/UsersController.cs:223-236 | Whoever just created an account may delete it, and the delete gives back the original store. |
| `Users.CreateUserPreservesConsistency` | PedidosApp/Controllers/UsersController.cs:74-78 | Account creation keeps every account stored under its own identity. |
| `Users.EditUserPreservesConsistency` | PedidosApp/Controllers/UsersController.cs:158-166 | An account edit keeps every account stored under its own identity. |
| `Users.DeleteUserPreservesConsistency` | PedidosApp/Controllers/UsersController.cs:235-236 | An account delete keeps every account stored under its own identity. |

## Left out

- Views, `ViewData` and `TempData` are left out. This covers the index and
  details actions and the GET actions of the order and product controllers,
  which only load an entity or give NotFound. `GetEnumDisplayName` is left
  out because it uses reflection.
- `DbUpdateConcurrencyException` is left out as a race between requests.
  Each action is one atomic step. The one sequential case it covers, an
  edit of an entity that no longer exists, is modelled as NotFound. The
  rethrow when the entity still exists is not modelled. An edit posted with
  the unset key 0 (also what an absent id binds to) raises no such failure:
  Entity Framework treats the entity as new and inserts it.
- The creation time an edit with the unset key stores is taken when the
  form is bound, a moment before the update time. Both are the same `now`
  in the model.
- Data-annotation validators (`Required`, `StringLength`, `EmailAddress`,
  `Range`) run inside the framework before an action. They are reduced to
  the `bindingValid` flag, so a rejection lists only the errors the action
  itself adds.
- No unique constraint on an account's `Email` appears in the model
  classes, and any constraint the database schema adds is not modelled.
  The overflow of a `decimal(10,2)` column on save is database behaviour
  and is not modelled either.
- The foreign keys of orders and order items are not modelled. The delete
  behaviour they get is not visible in the model classes, so it is unknown
  whether deleting a product or user that orders still reference is
  refused or cascades. `Products.DeleteProduct` and `Users.DeleteUser`
  leave orders unchanged only within this model. The customer of a
  staff-created order is not checked to exist.
- Money is whole cents. A submitted price with more than two decimals is
  not modelled. Decimal arithmetic is exact within the ranges that occur.
- The current time, database identities and the signed-in role are
  parameters. The `Quantities` list is required to be at least as long as
  `SelectedProductIds`, because a shorter list makes the controller throw an
  index exception.
- An order item's own identity and its back reference to the order are
  left out. So is the `Orders` collection of a user, a navigation property
  that the forms never bind.
- The authorization policies registered at start-up, cookie
  authentication, and the account login and logout controller are not part
  of this model.
- `Orders.DeleteOrderPreservesConsistency`: assumes the restored stock fits
  in an `int`. Without that assumption the controller can store a negative
  stock, as `Orders.RestoreCanWrap` shows.
