/** The staff product catalogue: create and edit with the price and stock
    checks, and delete. */
module Products {
  import opened Models

  /** The bound fields of the create and edit forms; create ignores `id`. */
  datatype ProductForm = ProductForm(
    id: int,
    name: string,
    description: string,
    price: Cents,
    stock: Int32)

  /** The checks the create and edit forms run.  Neither stops the other, so
      a form with both a bad price and a bad stock reports both. */
  function Validate(form: ProductForm): (errors: seq<ModelError>)
    ensures PriceNotPositive in errors <==> form.price <= 0
    ensures StockNegative in errors <==> form.stock < 0
    ensures forall e :: e in errors ==> e == PriceNotPositive || e == StockNegative
    ensures |errors| <= 2
  {
    (if form.price <= 0 then [PriceNotPositive] else [])
      + (if form.stock < 0 then [StockNegative] else [])
  }

  /** A form within the declared ranges of `Product` passes both checks. */
  lemma DeclaredRangesPassValidation(form: ProductForm)
    requires MIN_PRICE_CENTS <= form.price <= MAX_PRICE_CENTS && form.stock >= 0
    ensures Validate(form) == []
  {
  }

  /** The create form (POST).  `bindingValid` says whether model binding and
      the data annotations left the model state valid; `newId` is the
      identity the database gives the new product. */
  function CreateProduct(s: Store, caller: UserRole, form: ProductForm, bindingValid: bool, newId: int, now: Time): (r: Response)
    requires newId !in s.products
    ensures !r.status.Ok? ==> r.store == s
    ensures !IsStaff(caller) ==> r.status == AccessDenied
    ensures IsStaff(caller) ==> (r.status.Ok? <==> bindingValid && form.price > 0 && form.stock >= 0)
    ensures IsStaff(caller) && !r.status.Ok? ==> r.status == Invalid(Validate(form))
    ensures r.status.Ok? ==>
              && r.store.orders == s.orders
              && r.store.users == s.users
              && r.store.products.Keys == s.products.Keys + {newId}
              && (forall k :: k in s.products ==> r.store.products[k] == s.products[k])
              && r.store.products[newId] == Product(newId, form.name, form.description, form.price, form.stock, now, None)
  {
    if !IsStaff(caller) then
      Response(s, AccessDenied)
    else
      var errors := Validate(form);
      if !bindingValid || errors != [] then
        Response(s, Invalid(errors))
      else
        var p := Product(newId, form.name, form.description, form.price, form.stock, now, None);
        Response(s.(products := s.products[newId := p]), Ok([]))
  }

  /** The edit form (POST).  A product missing from the store surfaces as a
      concurrency failure on update, which the action turns into NotFound.
      An edit posted with the unset key (an absent id binds to it) is not an
      update at all: Entity Framework inserts the product under `newId`,
      the identity the database gives it, with the creation time set when
      the form was bound. */
  function EditProduct(
    s: Store, caller: UserRole, id: int, form: ProductForm, bindingValid: bool, newId: int, now: Time): (r: Response)
    requires newId !in s.products
    ensures !r.status.Ok? ==> r.store == s
    ensures !IsStaff(caller) ==> r.status == AccessDenied
    ensures IsStaff(caller) && id != form.id ==> r.status == NotFound
    ensures IsStaff(caller) && id == form.id && !(bindingValid && Validate(form) == []) ==>
              r.status == Invalid(Validate(form))
    ensures IsStaff(caller) ==>
              (r.status.Ok? <==>
                 id == form.id && bindingValid && form.price > 0 && form.stock >= 0 && (id == UNSET_ID || id in s.products))
    ensures IsStaff(caller) && id == form.id && bindingValid && Validate(form) == [] && id != UNSET_ID && id !in s.products ==>
              r.status == NotFound
    ensures r.status.Ok? && id == UNSET_ID ==>
              && r.store.orders == s.orders
              && r.store.users == s.users
              && r.store.products.Keys == s.products.Keys + {newId}
              && (forall k :: k in s.products ==> r.store.products[k] == s.products[k])
              && r.store.products[newId] ==
                   Product(newId, form.name, form.description, form.price, form.stock,
                           if UNSET_ID in s.products then s.products[UNSET_ID].createdAt else now, Some(now))
    ensures r.status.Ok? && id != UNSET_ID ==> id in s.products && id in r.store.products
    ensures r.status.Ok? && id != UNSET_ID ==>
              var p := r.store.products[id];
              && r.store.orders == s.orders
              && r.store.users == s.users
              && r.store.products.Keys == s.products.Keys
              && (forall k :: k in s.products && k != id ==> r.store.products[k] == s.products[k])
              && p.createdAt == s.products[id].createdAt
              && p.updatedAt == Some(now)
              && p == Product(id, form.name, form.description, form.price, form.stock, p.createdAt, p.updatedAt)
  {
    if !IsStaff(caller) then
      Response(s, AccessDenied)
    else if id != form.id then
      Response(s, NotFound)
    else
      var errors := Validate(form);
      if !bindingValid || errors != [] then
        Response(s, Invalid(errors))
      else if id == UNSET_ID then
        var created := if id in s.products then s.products[id].createdAt else now;
        var p := Product(newId, form.name, form.description, form.price, form.stock, created, Some(now));
        Response(s.(products := s.products[newId := p]), Ok([]))
      else if id !in s.products then
        Response(s, NotFound)
      else
        var p := Product(id, form.name, form.description, form.price, form.stock, s.products[id].createdAt, Some(now));
        Response(s.(products := s.products[id := p]), Ok([]))
  }

  /** The delete confirmation (POST): a missing product is not an error. */
  function DeleteProduct(s: Store, caller: UserRole, id: int): (r: Response)
    ensures !r.status.Ok? ==> r.store == s
    ensures !IsStaff(caller) ==> r.status == AccessDenied
    ensures IsStaff(caller) ==>
              && r.status == Ok([])
              && r.store.products.Keys == s.products.Keys - {id}
              && (forall k :: k in r.store.products ==> r.store.products[k] == s.products[k])
              && r.store.orders == s.orders
              && r.store.users == s.users
    ensures id !in s.products ==> r.store == s
  {
    if !IsStaff(caller) then
      Response(s, AccessDenied)
    else if id in s.products then
      Response(s.(products := s.products - {id}), Ok([]))
    else
      Response(s, Ok([]))
  }

  /** Deleting a product right after creating it gives back the store the
      create started from. */
  lemma CreateThenDeleteProduct(s: Store, caller: UserRole, form: ProductForm, bindingValid: bool, newId: int, now: Time)
    requires newId !in s.products
    requires CreateProduct(s, caller, form, bindingValid, newId, now).status.Ok?
    ensures DeleteProduct(CreateProduct(s, caller, form, bindingValid, newId, now).store, caller, newId).store == s
  {
    var s1 := CreateProduct(s, caller, form, bindingValid, newId, now).store;
    var s2 := DeleteProduct(s1, caller, newId).store;
    assert s2.products == s.products;
  }

  /** A second edit keeps the creation time the product was stored with
      before the first one. */
  lemma EditsKeepCreationTime(
    s: Store, caller: UserRole, id: int, f1: ProductForm, f2: ProductForm, n1: int, n2: int, t1: Time, t2: Time)
    requires id != UNSET_ID && n1 !in s.products
    requires EditProduct(s, caller, id, f1, true, n1, t1).status.Ok?
    requires n2 !in EditProduct(s, caller, id, f1, true, n1, t1).store.products
    requires EditProduct(EditProduct(s, caller, id, f1, true, n1, t1).store, caller, id, f2, true, n2, t2).status.Ok?
    ensures var s2 := EditProduct(EditProduct(s, caller, id, f1, true, n1, t1).store, caller, id, f2, true, n2, t2).store;
            s2.products[id].createdAt == s.products[id].createdAt && s2.products[id].updatedAt == Some(t2)
  {
  }

  /** Editing with the unset key creates the product the create form would,
      except that it is stamped as updated as well. */
  lemma EditWithUnsetKeyCreates(s: Store, caller: UserRole, form: ProductForm, bindingValid: bool, newId: int, now: Time)
    requires newId !in s.products && UNSET_ID !in s.products && form.id == UNSET_ID
    ensures var e := EditProduct(s, caller, UNSET_ID, form, bindingValid, newId, now);
            var c := CreateProduct(s, caller, form, bindingValid, newId, now);
            && (e.status.Ok? <==> c.status.Ok?)
            && (!e.status.Ok? ==> e == c)
            && (e.status.Ok? ==>
                  e.store == c.store.(products := c.store.products[newId := c.store.products[newId].(updatedAt := Some(now))]))
  {
  }

  lemma CreateProductPreservesConsistency(s: Store, caller: UserRole, form: ProductForm, bindingValid: bool, newId: int, now: Time)
    requires newId !in s.products
    requires Consistent(s)
    ensures Consistent(CreateProduct(s, caller, form, bindingValid, newId, now).store)
  {
  }

  lemma EditProductPreservesConsistency(
    s: Store, caller: UserRole, id: int, form: ProductForm, bindingValid: bool, newId: int, now: Time)
    requires newId !in s.products
    requires Consistent(s)
    ensures Consistent(EditProduct(s, caller, id, form, bindingValid, newId, now).store)
  {
  }

  lemma DeleteProductPreservesConsistency(s: Store, caller: UserRole, id: int)
    requires Consistent(s)
    ensures Consistent(DeleteProduct(s, caller, id).store)
  {
  }
}
