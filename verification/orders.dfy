/** The staff side of orders: multi-line creation with stock bookkeeping,
    status edit, and deletion with stock restoration. */
module Orders {
  import opened Models

  /** The working state of the line loop of the order form: the products as
      the change tracker sees them (so a later line sees the stock already
      taken by earlier lines), the accepted items, the running total and the
      errors recorded so far. */
  datatype Draft = Draft(
    products: map<int, Product>,
    items: seq<OrderItem>,
    total: Cents,
    errors: seq<ModelError>)

  /** A line is accepted when its quantity is positive and the product exists
      with at least that much stock. */
  function LineFits(products: map<int, Product>, productId: int, quantity: int): (fits: bool)
    ensures fits ==> quantity >= MIN_QUANTITY && productId in products && products[productId].stock - quantity >= 0
  {
    quantity > 0 && productId in products && products[productId].stock >= quantity
  }

  /** An item whose product exists in `products`, with a positive quantity and
      a subtotal of that product's price times the quantity. */
  predicate PricedFrom(products: map<int, Product>, item: OrderItem) {
    && item.productId in products
    && item.quantity >= MIN_QUANTITY
    && item.subtotal == products[item.productId].price * item.quantity
  }

  /** `r` is `d` after some lines were processed: items and errors only grow;
      the new items are priced from `d`'s products; the total grows by their
      subtotals; each product keeps everything but its stock, which drops by
      exactly the quantity of it the new items take and, if it was not
      negative, stays so. */
  predicate Extends(d: Draft, r: Draft) {
    && |d.items| <= |r.items| && r.items[..|d.items|] == d.items
    && |d.errors| <= |r.errors| && r.errors[..|d.errors|] == d.errors
    && r.total == d.total + SumSubtotals(r.items[|d.items|..])
    && (forall k :: |d.items| <= k < |r.items| ==> PricedFrom(d.products, r.items[k]))
    && r.products.Keys == d.products.Keys
    && (forall pid :: pid in d.products ==>
          && SameExceptStock(r.products[pid], d.products[pid])
          && r.products[pid].stock == d.products[pid].stock - QuantityOf(r.items[|d.items|..], pid)
          && (d.products[pid].stock >= 0 ==> r.products[pid].stock >= 0))
  }

  function ProductName(products: map<int, Product>, productId: int): Option<string> {
    if productId in products then Some(products[productId].name) else None
  }

  /** One iteration of the line loop.  Exactly one of three things happens: a
      line with a non-positive quantity is skipped, a line that does not fit
      records an error and nothing else, a fitting line adds one item. */
  function AddLine(d: Draft, productId: int, quantity: Int32): (r: Draft)
    ensures Extends(d, r)
    ensures quantity <= 0 ==> r == d
    ensures LineFits(d.products, productId, quantity) <==> |r.items| == |d.items| + 1
    ensures !LineFits(d.products, productId, quantity) ==>
              r.items == d.items && r.products == d.products
    ensures quantity > 0 && !LineFits(d.products, productId, quantity) ==>
              r.errors == d.errors + [InsufficientStock(ProductName(d.products, productId))]
    ensures LineFits(d.products, productId, quantity) ==>
              r.items[|d.items|] == OrderItem(productId, quantity, d.products[productId].price * quantity)
              && r.errors == d.errors
  {
    if quantity <= 0 then
      d
    else if !LineFits(d.products, productId, quantity) then
      d.(errors := d.errors + [InsufficientStock(ProductName(d.products, productId))])
    else
      var p := d.products[productId];
      var item := OrderItem(productId, quantity, p.price * quantity);
      var r := Draft(
        d.products[productId := p.(stock := p.stock - quantity)],
        d.items + [item],
        d.total + item.subtotal,
        d.errors);
      assert r.items[|d.items|..] == [item];
      assert forall pid :: QuantityOf([item], pid) == ItemQuantity(item, pid) by {
        assert [item][1..] == [];
      }
      r
  }

  /** The line loop over the parallel lists of product ids and quantities. */
  function AddLines(d: Draft, ids: seq<int>, qs: seq<Int32>): (r: Draft)
    requires |ids| <= |qs|
    ensures Extends(d, r)
    decreases |ids|
  {
    if |ids| == 0 then
      assert d.items[|d.items|..] == [];
      d
    else
      var d1 := AddLine(d, ids[0], qs[0]);
      var r := AddLines(d1, ids[1..], qs[1..]);
      ExtendsTransitive(d, d1, r);
      r
  }

  lemma ExtendsTransitive(d: Draft, d1: Draft, r: Draft)
    requires Extends(d, d1) && Extends(d1, r)
    ensures Extends(d, r)
  {
    var a := d1.items[|d.items|..];
    var b := r.items[|d1.items|..];
    assert r.items[|d.items|..] == a + b;
    SumSubtotalsConcat(a, b);
    forall pid | pid in d.products
      ensures r.products[pid].stock == d.products[pid].stock - QuantityOf(r.items[|d.items|..], pid)
    {
      QuantityOfConcat(a, b, pid);
    }
    forall k | |d.items| <= k < |r.items|
      ensures PricedFrom(d.products, r.items[k])
    {
      if k < |d1.items| {
        assert r.items[k] == d1.items[k];
      } else {
        assert PricedFrom(d1.products, r.items[k]);
      }
    }
  }

  /** With no line accepted, the tracked products are exactly the stored ones. */
  lemma NoItemsNoStockChange(d: Draft, r: Draft)
    requires Extends(d, r) && |r.items| == |d.items|
    ensures r.products == d.products
  {
    assert r.items[|d.items|..] == [];
    forall pid | pid in d.products
      ensures r.products[pid] == d.products[pid]
    {
      assert r.products[pid].stock == d.products[pid].stock;
    }
  }

  /** Number of lines with a positive quantity: the lines the loop does not
      skip. */
  function CountPositive(qs: seq<Int32>): nat {
    if |qs| == 0 then 0 else (if qs[0] > 0 then 1 else 0) + CountPositive(qs[1..])
  }

  /** `items` are the submitted lines at the strictly increasing positions
      `js`, in form order, each priced from `products`. */
  predicate ItemsFollowLines(
    products: map<int, Product>, items: seq<OrderItem>, ids: seq<int>, qs: seq<Int32>, js: seq<int>)
  {
    && |js| == |items|
    && (forall k :: 0 <= k < |js| ==>
          && 0 <= js[k] < |ids| && js[k] < |qs|
          && ids[js[k]] in products
          && items[k] == OrderItem(ids[js[k]], qs[js[k]], products[ids[js[k]]].price * qs[js[k]]))
    && (forall k, l :: 0 <= k < l < |js| ==> js[k] < js[l])
  }

  /** How many of the positions `js` lie before line `j`. */
  function Below(js: seq<int>, j: int): (n: nat)
    ensures n <= |js|
  {
    if |js| == 0 then 0 else (if js[0] < j then 1 else 0) + Below(js[1..], j)
  }

  /** Line `j` is accepted when its quantity is positive, its product is
      stored, and the stored stock less what the items of earlier accepted
      lines take of that product still covers it. */
  predicate LineAccepted(
    products: map<int, Product>, items: seq<OrderItem>, ids: seq<int>, qs: seq<Int32>, js: seq<int>, j: int)
  {
    && 0 <= j < |ids| && j < |qs|
    && Below(js, j) <= |items|
    && qs[j] > 0
    && ids[j] in products
    && products[ids[j]].stock - QuantityOf(items[..Below(js, j)], ids[j]) >= qs[j]
  }

  /** The positions `js` are exactly the accepted lines. */
  predicate LinesDecided(
    products: map<int, Product>, items: seq<OrderItem>, ids: seq<int>, qs: seq<Int32>, js: seq<int>)
  {
    forall j :: 0 <= j < |ids| ==> (j in js <==> LineAccepted(products, items, ids, qs, js, j))
  }

  /** `items` are exactly the accepted lines of the form, in form order, each
      with its submitted product and quantity and priced from `products`.
      This pins the items down: which lines are accepted follows line by
      line from the stored stock. */
  ghost predicate FollowsLines(products: map<int, Product>, items: seq<OrderItem>, ids: seq<int>, qs: seq<Int32>) {
    exists js :: ItemsFollowLines(products, items, ids, qs, js) && LinesDecided(products, items, ids, qs, js)
  }

  lemma {:induction false} BelowShift(js: seq<int>, j: int)
    ensures Below(Shift(js), j) == Below(js, j - 1)
    decreases |js|
  {
    if |js| > 0 {
      assert Shift(js)[1..] == Shift(js[1..]);
      BelowShift(js[1..], j);
    }
  }

  lemma {:induction false} BelowNone(js: seq<int>, j: int)
    requires forall k :: 0 <= k < |js| ==> js[k] >= j
    ensures Below(js, j) == 0
    decreases |js|
  {
    if |js| > 0 {
      assert forall k :: 0 <= k < |js[1..]| ==> js[1..][k] == js[k + 1];
      BelowNone(js[1..], j);
    }
  }

  /** A first line that is skipped or refused leaves the decisions on the
      later lines as they were. */
  lemma ShiftDecided(products: map<int, Product>, items: seq<OrderItem>, ids: seq<int>, qs: seq<Int32>, js: seq<int>)
    requires 0 < |ids| <= |qs|
    requires !LineFits(products, ids[0], qs[0])
    requires forall k :: 0 <= k < |js| ==> js[k] >= 0
    requires LinesDecided(products, items, ids[1..], qs[1..], js)
    ensures LinesDecided(products, items, ids, qs, Shift(js))
  {
    var sh := Shift(js);
    forall j | 0 <= j < |ids|
      ensures j in sh <==> LineAccepted(products, items, ids, qs, sh, j)
    {
      BelowShift(js, j);
      if j == 0 {
        BelowNone(js, -1);
        assert items[..0] == [];
        assert 0 !in sh;
      } else {
        assert ids[1..][j - 1] == ids[j] && qs[1..][j - 1] == qs[j];
        assert LineAccepted(products, items, ids, qs, sh, j) <==> LineAccepted(products, items, ids[1..], qs[1..], js, j - 1);
        assert j in sh <==> j - 1 in js by {
          if j in sh {
            var k :| 0 <= k < |sh| && sh[k] == j;
            assert js[k] == j - 1;
          }
          if j - 1 in js {
            var k :| 0 <= k < |js| && js[k] == j - 1;
            assert sh[k] == j;
          }
        }
      }
    }
  }

  /** An accepted first line is decided against the stored stock, and every
      later line sees the stock it took. */
  lemma ConsDecided(
    products: map<int, Product>, products1: map<int, Product>, item: OrderItem, items: seq<OrderItem>,
    ids: seq<int>, qs: seq<Int32>, js: seq<int>)
    requires 0 < |ids| <= |qs|
    requires LineFits(products, ids[0], qs[0])
    requires item.productId == ids[0] && item.quantity == qs[0]
    requires products1.Keys == products.Keys
    requires forall pid :: pid in products ==> products1[pid].stock == products[pid].stock - ItemQuantity(item, pid)
    requires |js| == |items| && forall k :: 0 <= k < |js| ==> js[k] >= 0
    requires LinesDecided(products1, items, ids[1..], qs[1..], js)
    ensures LinesDecided(products, [item] + items, ids, qs, [0] + Shift(js))
  {
    var js2 := [0] + Shift(js);
    forall j | 0 <= j < |ids|
      ensures j in js2 <==> LineAccepted(products, [item] + items, ids, qs, js2, j)
    {
      ConsDecidedAt(products, products1, item, items, ids, qs, js, j);
    }
  }

  /** `ConsDecided` for one line. */
  lemma ConsDecidedAt(
    products: map<int, Product>, products1: map<int, Product>, item: OrderItem, items: seq<OrderItem>,
    ids: seq<int>, qs: seq<Int32>, js: seq<int>, j: int)
    requires 0 < |ids| <= |qs| && 0 <= j < |ids|
    requires LineFits(products, ids[0], qs[0])
    requires item.productId == ids[0] && item.quantity == qs[0]
    requires products1.Keys == products.Keys
    requires forall pid :: pid in products ==> products1[pid].stock == products[pid].stock - ItemQuantity(item, pid)
    requires |js| == |items| && forall k :: 0 <= k < |js| ==> js[k] >= 0
    requires LinesDecided(products1, items, ids[1..], qs[1..], js)
    ensures j in [0] + Shift(js) <==> LineAccepted(products, [item] + items, ids, qs, [0] + Shift(js), j)
  {
    var sh := Shift(js);
    var js2 := [0] + sh;
    var items2 := [item] + items;
    BelowShift(js, j);
    assert js2[1..] == sh;
    if j == 0 {
      BelowNone(js, -1);
      assert items2[..0] == [];
    } else {
      var m := Below(js, j - 1);
      assert Below(js2, j) == 1 + m;
      assert items2[..1 + m] == [item] + items[..m];
      QuantityOfConcat([item], items[..m], ids[j]);
      assert [item][1..] == [];
      assert ids[1..][j - 1] == ids[j] && qs[1..][j - 1] == qs[j];
      assert j - 1 in js <==> LineAccepted(products1, items, ids[1..], qs[1..], js, j - 1);
      assert LineAccepted(products, items2, ids, qs, js2, j) <==> LineAccepted(products1, items, ids[1..], qs[1..], js, j - 1);
      ConsMember(js, j);
    }
  }

  /** A later line is among the positions `[0] + Shift(js)` exactly when the
      line before it is among `js`. */
  lemma ConsMember(js: seq<int>, j: int)
    requires j > 0
    ensures j in [0] + Shift(js) <==> j - 1 in js
  {
    var js2 := [0] + Shift(js);
    if j in js2 {
      var k :| 0 <= k < |js2| && js2[k] == j;
      assert k > 0 && js[k - 1] == j - 1;
    }
    if j - 1 in js {
      var k :| 0 <= k < |js| && js[k] == j - 1;
      assert js2[k + 1] == j;
    }
  }

  function Shift(js: seq<int>): (r: seq<int>)
    ensures |r| == |js| && forall k :: 0 <= k < |js| ==> r[k] == js[k] + 1
  {
    seq(|js|, k requires 0 <= k < |js| => js[k] + 1)
  }

  /** Positions in the rest of the lines are positions in the whole form,
      one further on; only the products' prices matter. */
  lemma ShiftFollows(
    products: map<int, Product>, products1: map<int, Product>, items: seq<OrderItem>,
    ids: seq<int>, qs: seq<Int32>, js: seq<int>)
    requires 0 < |ids| <= |qs|
    requires products1.Keys == products.Keys
    requires forall pid :: pid in products ==> products1[pid].price == products[pid].price
    requires ItemsFollowLines(products1, items, ids[1..], qs[1..], js)
    ensures ItemsFollowLines(products, items, ids, qs, Shift(js))
    ensures forall k :: 0 <= k < |js| ==> Shift(js)[k] > 0
  {
    var sh := Shift(js);
    forall k | 0 <= k < |sh|
      ensures 0 <= sh[k] < |ids| && sh[k] < |qs| && ids[sh[k]] in products
      ensures items[k] == OrderItem(ids[sh[k]], qs[sh[k]], products[ids[sh[k]]].price * qs[sh[k]])
    {
      assert ids[1..][js[k]] == ids[sh[k]] && qs[1..][js[k]] == qs[sh[k]];
    }
  }

  /** An item for the first line goes in front of the items for later lines. */
  lemma ConsFollows(
    products: map<int, Product>, item: OrderItem, items: seq<OrderItem>,
    ids: seq<int>, qs: seq<Int32>, js: seq<int>)
    requires 0 < |ids| <= |qs| && ids[0] in products
    requires item == OrderItem(ids[0], qs[0], products[ids[0]].price * qs[0])
    requires ItemsFollowLines(products, items, ids, qs, js)
    requires forall k :: 0 <= k < |js| ==> js[k] > 0
    ensures ItemsFollowLines(products, [item] + items, ids, qs, [0] + js)
  {
    var js2 := [0] + js;
    var items2 := [item] + items;
    forall k | 0 < k < |js2|
      ensures js2[k] == js[k - 1] && items2[k] == items[k - 1]
    {
    }
  }

  /** The items the loop adds are submitted lines taken in form order, each
      with the submitted product and quantity and the stored price. */
  lemma {:induction false} AddLinesFollowsLines(d: Draft, ids: seq<int>, qs: seq<Int32>)
    requires |ids| <= |qs|
    ensures FollowsLines(d.products, AddLines(d, ids, qs).items[|d.items|..], ids, qs)
    decreases |ids|
  {
    var r := AddLines(d, ids, qs);
    if |ids| == 0 {
      assert r.items[|d.items|..] == [];
      var none: seq<int> := [];
      assert ItemsFollowLines(d.products, r.items[|d.items|..], ids, qs, none);
      assert LinesDecided(d.products, r.items[|d.items|..], ids, qs, none);
    } else {
      var d1 := AddLine(d, ids[0], qs[0]);
      assert r == AddLines(d1, ids[1..], qs[1..]);
      var rest := r.items[|d1.items|..];
      AddLinesFollowsLines(d1, ids[1..], qs[1..]);
      StepFollows(d, ids, qs, rest);
      assert Extends(d, d1) && Extends(d1, r);
      TailSplit(r.items, d1.items, |d.items|);
    }
  }

  /** The part of `x` past position `i` is the part of its prefix `y` past
      `i` followed by the part of `x` past `y`. */
  lemma TailSplit<T>(x: seq<T>, y: seq<T>, i: nat)
    requires i <= |y| <= |x| && x[..|y|] == y
    ensures x[i..] == y[i..] + x[|y|..]
  {
    assert forall k :: 0 <= k < |x| - i ==> x[i..][k] == x[i + k];
  }

  /** One iteration of the line loop in front of the items of the later
      lines. */
  lemma StepFollows(d: Draft, ids: seq<int>, qs: seq<Int32>, rest: seq<OrderItem>)
    requires 0 < |ids| <= |qs|
    requires FollowsLines(AddLine(d, ids[0], qs[0]).products, rest, ids[1..], qs[1..])
    ensures FollowsLines(d.products, AddLine(d, ids[0], qs[0]).items[|d.items|..] + rest, ids, qs)
  {
    var d1 := AddLine(d, ids[0], qs[0]);
    var js :| ItemsFollowLines(d1.products, rest, ids[1..], qs[1..], js) && LinesDecided(d1.products, rest, ids[1..], qs[1..], js);
    forall pid | pid in d.products
      ensures d1.products[pid].price == d.products[pid].price
    {
      assert SameExceptStock(d1.products[pid], d.products[pid]);
    }
    ShiftFollows(d.products, d1.products, rest, ids, qs, js);
    if LineFits(d.products, ids[0], qs[0]) {
      var item := d1.items[|d.items|];
      assert d1.items[|d.items|..] == [item];
      ConsFollows(d.products, item, rest, ids, qs, Shift(js));
      forall pid | pid in d.products
        ensures d1.products[pid].stock == d.products[pid].stock - ItemQuantity(item, pid)
      {
        assert [item][1..] == [];
      }
      ConsDecided(d.products, d1.products, item, rest, ids, qs, js);
      assert ItemsFollowLines(d.products, [item] + rest, ids, qs, [0] + Shift(js));
    } else {
      assert d1.items[|d.items|..] + rest == rest;
      ShiftDecided(d.products, rest, ids, qs, js);
      assert ItemsFollowLines(d.products, rest, ids, qs, Shift(js));
    }
  }

  /** Every line the loop does not skip yields exactly one item or exactly
      one error. */
  lemma {:induction false} AddLinesCountsLines(d: Draft, ids: seq<int>, qs: seq<Int32>)
    requires |ids| <= |qs|
    ensures |AddLines(d, ids, qs).items| - |d.items| + |AddLines(d, ids, qs).errors| - |d.errors| ==
              CountPositive(qs[..|ids|])
    decreases |ids|
  {
    if |ids| > 0 {
      var d1 := AddLine(d, ids[0], qs[0]);
      AddLinesCountsLines(d1, ids[1..], qs[1..]);
      assert qs[1..][..|ids| - 1] == qs[..|ids|][1..];
    }
  }

  /** The errors of a form none of whose lines fits: one insufficient-stock
      error per line with a positive quantity, in form order, each naming
      the line's product if it exists. */
  function RefusedErrors(products: map<int, Product>, ids: seq<int>, qs: seq<Int32>): (errors: seq<ModelError>)
    requires |ids| <= |qs|
    ensures |errors| == CountPositive(qs[..|ids|])
    ensures forall k :: 0 <= k < |errors| ==> errors[k].InsufficientStock?
    decreases |ids|
  {
    if |ids| == 0 then
      []
    else
      var rest := RefusedErrors(products, ids[1..], qs[1..]);
      assert qs[1..][..|ids| - 1] == qs[..|ids|][1..];
      (if qs[0] > 0 then [InsufficientStock(ProductName(products, ids[0]))] else []) + rest
  }

  /** When no line fits, the line loop changes nothing but the errors, and
      records exactly one refusal per line with a positive quantity. */
  lemma {:induction false} NoFitRefusesAll(d: Draft, ids: seq<int>, qs: seq<Int32>)
    requires |ids| <= |qs|
    requires forall j :: 0 <= j < |ids| ==> !LineFits(d.products, ids[j], qs[j])
    ensures AddLines(d, ids, qs) == d.(errors := d.errors + RefusedErrors(d.products, ids, qs))
    decreases |ids|
  {
    if |ids| == 0 {
      assert d.errors + [] == d.errors;
    } else {
      var head := RefusedLine(d, ids[0], qs[0]);
      var d1 := d.(errors := d.errors + head);
      var rest := RefusedErrors(d.products, ids[1..], qs[1..]);
      assert AddLines(d, ids, qs) == AddLines(d1, ids[1..], qs[1..]);
      forall j | 0 <= j < |ids| - 1
        ensures !LineFits(d1.products, ids[1..][j], qs[1..][j])
      {
        assert ids[1..][j] == ids[j + 1] && qs[1..][j] == qs[j + 1];
      }
      NoFitRefusesAll(d1, ids[1..], qs[1..]);
      assert RefusedErrors(d.products, ids, qs) == head + rest;
      AppendErrors(d, d1, AddLines(d1, ids[1..], qs[1..]), head, rest);
    }
  }

  /** Errors appended in two steps are their concatenation appended once. */
  lemma AppendErrors(d: Draft, d1: Draft, r: Draft, head: seq<ModelError>, rest: seq<ModelError>)
    requires d1 == d.(errors := d.errors + head)
    requires r == d1.(errors := d1.errors + rest)
    ensures r == d.(errors := d.errors + (head + rest))
  {
    assert d.errors + head + rest == d.errors + (head + rest);
  }

  /** A line that does not fit adds its refusal, if it is not skipped, and
      nothing else. */
  lemma RefusedLine(d: Draft, productId: int, quantity: Int32) returns (head: seq<ModelError>)
    requires !LineFits(d.products, productId, quantity)
    ensures head == (if quantity > 0 then [InsufficientStock(ProductName(d.products, productId))] else [])
    ensures AddLine(d, productId, quantity) == d.(errors := d.errors + head)
  {
    head := if quantity > 0 then [InsufficientStock(ProductName(d.products, productId))] else [];
    if quantity <= 0 {
      assert d.errors + head == d.errors;
    }
  }

  /** The line loop run from the stored products accepts nothing exactly
      when no line fits them, and then records exactly the refusals. */
  lemma EmptyFormFromStore(products: map<int, Product>, ids: seq<int>, qs: seq<Int32>)
    requires |ids| <= |qs|
    ensures var d := AddLines(Draft(products, [], 0, []), ids, qs);
            |d.items| == 0 ==> d.errors == RefusedErrors(products, ids, qs)
  {
    var d0 := Draft(products, [], 0, []);
    AddLinesAcceptsIffSomeLineFits(d0, ids, qs);
    if |AddLines(d0, ids, qs).items| == 0 {
      NoFitRefusesAll(d0, ids, qs);
    }
  }

  /** The staff order form (POST).  `userId` is the bound `Order.UserId`,
      `None` when the form carries no `Order` fields and the bound `Order` is
      null; `ids` and `qs` are the bound `SelectedProductIds` and `Quantities`
      (`None` for a null list); `newId` is the identity the database gives
      the new order. */
  function CreateOrder(
    s: Store, caller: UserRole, userId: Option<int>,
    ids: Option<seq<int>>, qs: Option<seq<Int32>>,
    newId: int, now: Time): (r: Response)
    requires newId !in s.orders
    requires ids.Some? && qs.Some? ==> |ids.value| <= |qs.value|
    ensures !r.status.Ok? ==> r.store == s
    ensures !IsStaff(caller) ==> r.status == AccessDenied
    ensures IsStaff(caller) && userId.None? ==> r.status == Failed
    ensures IsStaff(caller) && userId.Some? && (ids.None? || ids.value == [] || qs.None?) ==>
              r.status == Invalid([NoProductSelected])
    ensures IsStaff(caller) && userId.Some? && ids.Some? && ids.value != [] && qs.Some? && !r.status.Ok? ==>
              r.status == Invalid(RefusedErrors(s.products, ids.value, qs.value) + [NoOrderLines])
    ensures r.status.Ok? ==>
              && userId.Some? && ids.Some? && qs.Some?
              && newId in r.store.orders
              && r.store.orders == s.orders[newId := r.store.orders[newId]]
              && r.store.users == s.users
    ensures r.status.Ok? ==>
              var o := r.store.orders[newId];
              && FollowsLines(s.products, o.items, ids.value, qs.value)
              && |o.items| + |r.status.warnings| == CountPositive(qs.value[..|ids.value|])
    ensures r.status.Ok? ==>
              var o := r.store.orders[newId];
              && o == Order(newId, userId.value, now, Pending, o.total, o.items)
              && |o.items| > 0
              && o.total == SumSubtotals(o.items)
              && (forall k :: 0 <= k < |o.items| ==> PricedFrom(s.products, o.items[k]))
              && QuantitiesPositive(o.items)
    ensures r.status.Ok? ==>
              var o := r.store.orders[newId];
              && r.store.products.Keys == s.products.Keys
              && forall pid :: pid in s.products ==>
                   && SameExceptStock(r.store.products[pid], s.products[pid])
                   && r.store.products[pid].stock == s.products[pid].stock - QuantityOf(o.items, pid)
                   && (s.products[pid].stock >= 0 ==> r.store.products[pid].stock >= 0)
  {
    if !IsStaff(caller) then
      Response(s, AccessDenied)
    else if userId.None? then
      Response(s, Failed)
    else if ids.None? || |ids.value| == 0 || qs.None? then
      Response(s, Invalid([NoProductSelected]))
    else
      var d0 := Draft(s.products, [], 0, []);
      var d := AddLines(d0, ids.value, qs.value);
      if |d.items| == 0 then
        EmptyFormFromStore(s.products, ids.value, qs.value);
        Response(s, Invalid(d.errors + [NoOrderLines]))
      else
        FormFromStore(s.products, ids.value, qs.value);
        var order := Order(newId, userId.value, now, Pending, d.total, d.items);
        Response(s.(products := d.products, orders := s.orders[newId := order]), Ok(d.errors))
  }

  /** The line loop run from the stored products with nothing accepted yet:
      its items follow the lines, and they alone account for the total and
      for the stock taken. */
  lemma FormFromStore(products: map<int, Product>, ids: seq<int>, qs: seq<Int32>)
    requires |ids| <= |qs|
    ensures var d := AddLines(Draft(products, [], 0, []), ids, qs);
            && FollowsLines(products, d.items, ids, qs)
            && |d.items| + |d.errors| == CountPositive(qs[..|ids|])
            && d.total == SumSubtotals(d.items)
            && (forall k :: 0 <= k < |d.items| ==> PricedFrom(products, d.items[k]))
            && d.products.Keys == products.Keys
            && forall pid :: pid in products ==>
                 && SameExceptStock(d.products[pid], products[pid])
                 && d.products[pid].stock == products[pid].stock - QuantityOf(d.items, pid)
                 && (products[pid].stock >= 0 ==> d.products[pid].stock >= 0)
  {
    var d0 := Draft(products, [], 0, []);
    var d := AddLines(d0, ids, qs);
    assert Extends(d0, d);
    assert d.items[0..] == d.items;
    AddLinesFollowsLines(d0, ids, qs);
    AddLinesCountsLines(d0, ids, qs);
  }

  /** The order form commits an order exactly when some line fits the stock
      as stored before the request: the first accepted line sees the stored
      stock, since every line before it changed nothing. */
  lemma {:induction false} AddLinesAcceptsIffSomeLineFits(d: Draft, ids: seq<int>, qs: seq<Int32>)
    requires |ids| <= |qs|
    ensures |AddLines(d, ids, qs).items| > |d.items| <==>
              exists j :: 0 <= j < |ids| && LineFits(d.products, ids[j], qs[j])
    decreases |ids|
  {
    if |ids| > 0 {
      var d1 := AddLine(d, ids[0], qs[0]);
      var r := AddLines(d1, ids[1..], qs[1..]);
      assert AddLines(d, ids, qs) == r;
      AddLinesAcceptsIffSomeLineFits(d1, ids[1..], qs[1..]);
      if LineFits(d.products, ids[0], qs[0]) {
        assert |r.items| >= |d1.items| > |d.items|;
      } else {
        assert d1.products == d.products && d1.items == d.items;
        SomeLaterLineFits(d.products, ids, qs);
      }
    }
  }

  /** When the first line does not fit, some line fits exactly when some
      later line does. */
  lemma SomeLaterLineFits(products: map<int, Product>, ids: seq<int>, qs: seq<Int32>)
    requires 0 < |ids| <= |qs| && !LineFits(products, ids[0], qs[0])
    ensures (exists j :: 0 <= j < |ids| && LineFits(products, ids[j], qs[j])) <==>
            (exists j :: 0 <= j < |ids| - 1 && LineFits(products, ids[1..][j], qs[1..][j]))
  {
    if exists j :: 0 <= j < |ids| && LineFits(products, ids[j], qs[j]) {
      var j :| 0 <= j < |ids| && LineFits(products, ids[j], qs[j]);
      assert ids[1..][j - 1] == ids[j] && qs[1..][j - 1] == qs[j];
    }
    if exists j :: 0 <= j < |ids| - 1 && LineFits(products, ids[1..][j], qs[1..][j]) {
      var j :| 0 <= j < |ids| - 1 && LineFits(products, ids[1..][j], qs[1..][j]);
      assert ids[j + 1] == ids[1..][j] && qs[j + 1] == qs[1..][j];
    }
  }

  lemma CommitIffSomeLineFits(
    s: Store, caller: UserRole, userId: int,
    ids: seq<int>, qs: seq<Int32>, newId: int, now: Time)
    requires newId !in s.orders
    requires IsStaff(caller) && 0 < |ids| <= |qs|
    ensures CreateOrder(s, caller, Some(userId), Some(ids), Some(qs), newId, now).status.Ok? <==>
              exists j :: 0 <= j < |ids| && LineFits(s.products, ids[j], qs[j])
    ensures !CreateOrder(s, caller, Some(userId), Some(ids), Some(qs), newId, now).status.Ok? ==>
              CreateOrder(s, caller, Some(userId), Some(ids), Some(qs), newId, now).status ==
                Invalid(RefusedErrors(s.products, ids, qs) + [NoOrderLines])
  {
    AddLinesAcceptsIffSomeLineFits(Draft(s.products, [], 0, []), ids, qs);
  }

  /** Dropping a line whose quantity is not positive from the form changes
      nothing in the outcome. */
  lemma {:induction false} SkippedLineIsInert(d: Draft, ids: seq<int>, qs: seq<Int32>, j: nat)
    requires |ids| <= |qs| && j < |ids| && qs[j] <= 0
    ensures AddLines(d, ids, qs) == AddLines(d, ids[..j] + ids[j + 1..], qs[..j] + qs[j + 1..])
    decreases j
  {
    var ids' := ids[..j] + ids[j + 1..];
    var qs' := qs[..j] + qs[j + 1..];
    if j == 0 {
      assert ids' == ids[1..] && qs' == qs[1..];
      assert AddLine(d, ids[0], qs[0]) == d;
    } else {
      var d1 := AddLine(d, ids[0], qs[0]);
      assert ids'[1..] == ids[1..][..j - 1] + ids[1..][j..];
      assert qs'[1..] == qs[1..][..j - 1] + qs[1..][j..];
      SkippedLineIsInert(d1, ids[1..], qs[1..], j - 1);
      assert ids'[0] == ids[0] && qs'[0] == qs[0];
      assert AddLines(d, ids', qs') == AddLines(d1, ids'[1..], qs'[1..]);
    }
  }

  /** Whether an order in this status still holds the stock it took. */
  function HoldsStock(status: OrderStatus): (holds: bool)
    ensures !holds <==> status == Completed || status == Cancelled
  {
    status == Pending || status == Processing
  }

  /** A product's stock after the items of an order are given back to it
      one by one with C#'s unchecked `int` addition. */
  function RestoredStock(stock: Int32, items: seq<OrderItem>, productId: int): (r: Int32)
    ensures (forall i :: 0 <= i < |items| ==> items[i].productId != productId) ==> r == stock
    decreases |items|
  {
    if |items| == 0 then stock
    else RestoredStock(AddInt32(stock, ItemQuantity(items[0], productId)), items[1..], productId)
  }

  /** When no partial sum leaves the range of `int`, which positive quantities
      guarantee once the final sum fits, restoring adds exactly the ordered
      quantity. */
  lemma {:induction false} RestoredStockExact(stock: Int32, items: seq<OrderItem>, productId: int)
    requires QuantitiesPositive(items)
    requires stock + QuantityOf(items, productId) <= INT32_MAX
    ensures RestoredStock(stock, items, productId) == stock + QuantityOf(items, productId)
    decreases |items|
  {
    if |items| > 0 {
      assert QuantitiesPositive(items[1..]) by {
        forall i | 0 <= i < |items[1..]|
          ensures items[1..][i].quantity >= MIN_QUANTITY
        {
          assert items[1..][i] == items[i + 1];
        }
      }
      QuantityOfNonNegative(items[1..], productId);
      assert items[0].quantity >= MIN_QUANTITY;
      RestoredStockExact(AddInt32(stock, ItemQuantity(items[0], productId)), items[1..], productId);
    }
  }

  /** Gives one item's quantity back to its product, if that product still
      exists. */
  function RestoreItem(products: map<int, Product>, item: OrderItem): (r: map<int, Product>)
    ensures r.Keys == products.Keys
    ensures forall pid :: pid in products ==>
              && SameExceptStock(r[pid], products[pid])
              && r[pid].stock == AddInt32(products[pid].stock, ItemQuantity(item, pid))
  {
    if item.productId in products then
      var p := products[item.productId];
      products[item.productId := p.(stock := AddInt32(p.stock, item.quantity))]
    else
      products
  }

  /** The restoring loop of the delete confirmation: item by item, each
      quantity goes back to its product; items whose product no longer exists
      are passed over.  Product by product, the outcome is `RestoredStock`. */
  function RestoreStock(products: map<int, Product>, items: seq<OrderItem>): (r: map<int, Product>)
    ensures r.Keys == products.Keys
    ensures forall pid :: pid in products ==>
              && SameExceptStock(r[pid], products[pid])
              && r[pid].stock == RestoredStock(products[pid].stock, items, pid)
    decreases |items|
  {
    if |items| == 0 then
      products
    else
      var p1 := RestoreItem(products, items[0]);
      RestoreStock(p1, items[1..])
  }

  /** The delete confirmation (POST). */
  function DeleteOrder(s: Store, caller: UserRole, id: int): (r: Response)
    ensures !r.status.Ok? ==> r.store == s
    ensures !IsStaff(caller) ==> r.status == AccessDenied
    ensures IsStaff(caller) ==> (r.status.Ok? <==> id in s.orders)
    ensures IsStaff(caller) && id !in s.orders ==> r.status == NotFound
    ensures r.status.Ok? ==>
              && r.store.orders == s.orders - {id}
              && r.store.users == s.users
              && r.store.products.Keys == s.products.Keys
    ensures r.status.Ok? && !HoldsStock(s.orders[id].status) ==> r.store.products == s.products
    ensures r.status.Ok? && HoldsStock(s.orders[id].status) ==>
              forall pid :: pid in s.products ==>
                && SameExceptStock(r.store.products[pid], s.products[pid])
                && r.store.products[pid].stock == RestoredStock(s.products[pid].stock, s.orders[id].items, pid)
  {
    if !IsStaff(caller) then
      Response(s, AccessDenied)
    else if id !in s.orders then
      Response(s, NotFound)
    else
      var order := s.orders[id];
      var products := if HoldsStock(order.status) then RestoreStock(s.products, order.items) else s.products;
      Response(Store(products, s.orders - {id}, s.users), Ok([]))
  }

  /** The status edit (POST), which binds only `Id` and `Status`. */
  function EditOrderStatus(s: Store, caller: UserRole, id: int, formId: int, status: OrderStatus): (r: Response)
    ensures !r.status.Ok? ==> r.store == s
    ensures !IsStaff(caller) ==> r.status == AccessDenied
    ensures IsStaff(caller) ==> (r.status.Ok? <==> id == formId && id in s.orders)
    ensures IsStaff(caller) && !(id == formId && id in s.orders) ==> r.status == NotFound
    ensures r.status.Ok? ==>
              && r.store.products == s.products
              && r.store.users == s.users
              && r.store.orders.Keys == s.orders.Keys
              && r.store.orders[id].status == status
              && r.store.orders[id].(status := s.orders[id].status) == s.orders[id]
              && forall k :: k in s.orders && k != id ==> r.store.orders[k] == s.orders[k]
  {
    if !IsStaff(caller) then
      Response(s, AccessDenied)
    else if id != formId || id !in s.orders then
      Response(s, NotFound)
    else
      Response(s.(orders := s.orders[id := s.orders[id].(status := status)]), Ok([]))
  }

  /** No transition table: staff may move any order from any status to any
      status, and doing so twice is the same as doing it once. */
  lemma StatusEditUnrestricted(s: Store, caller: UserRole, id: int, status: OrderStatus)
    requires IsStaff(caller) && id in s.orders
    ensures EditOrderStatus(s, caller, id, id, status).status.Ok?
    ensures var s1 := EditOrderStatus(s, caller, id, id, status).store;
            EditOrderStatus(s1, caller, id, id, status).store == s1
  {
    var s1 := EditOrderStatus(s, caller, id, id, status).store;
    assert s1.orders[id := s1.orders[id].(status := status)] == s1.orders;
  }

  /** Deleting an order right after creating it gives back exactly the store
      the request started from: every unit of stock the order took returns to
      its product, and no partial sum of the restoring loop can overflow
      since it never exceeds the stock stored before the order. */
  lemma CreateThenDeleteRestores(
    s: Store, caller: UserRole, userId: Option<int>,
    ids: Option<seq<int>>, qs: Option<seq<Int32>>, newId: int, now: Time)
    requires newId !in s.orders
    requires ids.Some? && qs.Some? ==> |ids.value| <= |qs.value|
    requires CreateOrder(s, caller, userId, ids, qs, newId, now).status.Ok?
    ensures DeleteOrder(CreateOrder(s, caller, userId, ids, qs, newId, now).store, caller, newId).store == s
  {
    var s1 := CreateOrder(s, caller, userId, ids, qs, newId, now).store;
    DeleteUndoesTake(s, s1, caller, newId);
  }

  /** Deleting an order that took stock from a store, and changed nothing
      else, gives that store back. */
  lemma DeleteUndoesTake(s: Store, s1: Store, caller: UserRole, newId: int)
    requires IsStaff(caller)
    requires newId !in s.orders && newId in s1.orders
    requires s1.orders == s.orders[newId := s1.orders[newId]]
    requires s1.users == s.users
    requires s1.orders[newId].status == Pending
    requires QuantitiesPositive(s1.orders[newId].items)
    requires s1.products.Keys == s.products.Keys
    requires forall pid :: pid in s.products ==>
               && SameExceptStock(s1.products[pid], s.products[pid])
               && s1.products[pid].stock == s.products[pid].stock - QuantityOf(s1.orders[newId].items, pid)
    ensures DeleteOrder(s1, caller, newId).store == s
  {
    var o := s1.orders[newId];
    RestoreUndoesTake(s.products, s1.products, o.items);
    var s2 := DeleteOrder(s1, caller, newId).store;
    assert s2.products == s.products;
    assert s2.orders == s.orders;
  }

  /** Giving back what was taken from a set of products yields those products. */
  lemma RestoreUndoesTake(before: map<int, Product>, after: map<int, Product>, items: seq<OrderItem>)
    requires after.Keys == before.Keys
    requires QuantitiesPositive(items)
    requires forall pid :: pid in before ==>
               && SameExceptStock(after[pid], before[pid])
               && after[pid].stock == before[pid].stock - QuantityOf(items, pid)
    ensures RestoreStock(after, items) == before
  {
    var r := RestoreStock(after, items);
    forall pid | pid in before
      ensures r[pid] == before[pid]
    {
      RestoredStockExact(after[pid].stock, items, pid);
    }
  }

  lemma CreateOrderPreservesConsistency(
    s: Store, caller: UserRole, userId: Option<int>,
    ids: Option<seq<int>>, qs: Option<seq<Int32>>, newId: int, now: Time)
    requires newId !in s.orders
    requires ids.Some? && qs.Some? ==> |ids.value| <= |qs.value|
    requires Consistent(s)
    ensures Consistent(CreateOrder(s, caller, userId, ids, qs, newId, now).store)
  {
    var r := CreateOrder(s, caller, userId, ids, qs, newId, now);
    if r.status.Ok? {
      var o := r.store.orders[newId];
      forall k | k in r.store.products
        ensures ProductConsistent(k, r.store.products[k])
      {
        assert SameExceptStock(r.store.products[k], s.products[k]);
      }
      forall k | k in r.store.orders
        ensures OrderConsistent(k, r.store.orders[k])
      {
      }
    }
  }

  /** Deleting keeps the store consistent provided that restoring the stock
      does not overflow a C# `int`; without that proviso the restored stock
      can wrap to a negative value (see `RestoreCanWrap`). */
  lemma DeleteOrderPreservesConsistency(s: Store, caller: UserRole, id: int)
    requires Consistent(s)
    requires id in s.orders ==>
               forall pid :: pid in s.products ==>
                 s.products[pid].stock + QuantityOf(s.orders[id].items, pid) <= INT32_MAX
    ensures Consistent(DeleteOrder(s, caller, id).store)
  {
    var r := DeleteOrder(s, caller, id);
    if r.status.Ok? && HoldsStock(s.orders[id].status) {
      forall k | k in r.store.products
        ensures ProductConsistent(k, r.store.products[k])
      {
        assert SameExceptStock(r.store.products[k], s.products[k]);
        assert OrderConsistent(id, s.orders[id]);
        QuantityOfNonNegative(s.orders[id].items, k);
        RestoredStockExact(s.products[k].stock, s.orders[id].items, k);
      }
    }
  }

  /** Deleting an order that still holds stock gives each product back
      exactly the quantity the order's items take of it, wherever that sum
      fits in an `int`; an order that no longer holds stock gives back
      nothing. */
  lemma DeleteRestoresExactly(s: Store, caller: UserRole, id: int)
    requires IsStaff(caller) && id in s.orders
    requires QuantitiesPositive(s.orders[id].items)
    ensures var r := DeleteOrder(s, caller, id);
            forall pid :: pid in s.products ==>
              var q := QuantityOf(s.orders[id].items, pid);
              && (HoldsStock(s.orders[id].status) && s.products[pid].stock + q <= INT32_MAX ==>
                    r.store.products[pid].stock == s.products[pid].stock + q)
              && (!HoldsStock(s.orders[id].status) ==> r.store.products[pid] == s.products[pid])
  {
    var items := s.orders[id].items;
    forall pid | pid in s.products && s.products[pid].stock + QuantityOf(items, pid) <= INT32_MAX
      ensures RestoredStock(s.products[pid].stock, items, pid) == s.products[pid].stock + QuantityOf(items, pid)
    {
      RestoredStockExact(s.products[pid].stock, items, pid);
    }
  }

  lemma {:induction false} QuantityOfNonNegative(items: seq<OrderItem>, productId: int)
    requires QuantitiesPositive(items)
    ensures QuantityOf(items, productId) >= 0
    decreases |items|
  {
    if |items| > 0 {
      assert QuantitiesPositive(items[1..]) by {
        forall i | 0 <= i < |items[1..]|
          ensures items[1..][i].quantity >= MIN_QUANTITY
        {
          assert items[1..][i] == items[i + 1];
        }
      }
      QuantityOfNonNegative(items[1..], productId);
    }
  }

  /** The unchecked addition in the restoring loop: a product whose stock was
      raised to the largest `int` while a pending order still holds one unit
      of it ends up with the smallest `int` as its stock. */
  lemma RestoreCanWrap()
    ensures var p := Product(1, "p", "", 100, INT32_MAX, 0, None);
            var o := Order(7, 1, 0, Pending, 100, [OrderItem(1, 1, 100)]);
            var s := Store(map[1 := p], map[7 := o], map[]);
            DeleteOrder(s, Admin, 7).store.products[1].stock == INT32_MIN
  {
    var items := [OrderItem(1, 1, 100)];
    assert items[1..] == [];
    assert RestoredStock(INT32_MAX, items, 1) == INT32_MIN;
  }

  lemma EditOrderStatusPreservesConsistency(s: Store, caller: UserRole, id: int, formId: int, status: OrderStatus)
    requires Consistent(s)
    ensures Consistent(EditOrderStatus(s, caller, id, formId, status).store)
  {
  }

  /** Two lines for the same product: the second sees the stock the first
      took and is refused, so the product is never oversold, and the lines
      are taken in form order, so the earlier, smaller line is the one
      kept. */
  lemma RepeatedProductScenario()
    ensures var p := Product(1, "p", "", 1000, 5, 0, None);
            var s := Store(map[1 := p], map[], map[]);
            var r := CreateOrder(s, Empleado, Some(3), Some([1, 1]), Some([2, 4]), 10, 0);
            && r.status == Ok([InsufficientStock(Some("p"))])
            && r.store.products[1].stock == 3
            && r.store.orders[10].items == [OrderItem(1, 2, 2000)]
            && r.store.orders[10].total == 2000
  {
    var p := Product(1, "p", "", 1000, 5, 0, None);
    var d0 := Draft(map[1 := p], [], 0, []);
    var d1 := AddLine(d0, 1, 2);
    assert d1.products[1].stock == 3;
    var d2 := AddLine(d1, 1, 4);
    assert d2 == d1.(errors := [InsufficientStock(Some("p"))]);
    assert [1, 1][1..] == [1] && [2, 4][1..] == [4 as Int32];
    assert AddLines(d0, [1, 1], [2, 4]) == d2;
  }

  /** The declared range of an order's total (at most 999,999.99) is not
      enforced when an order is created: two units at the highest declared
      price already exceed it. */
  lemma TotalMayExceedDeclaredRange()
    ensures var p := Product(1, "p", "", MAX_PRICE_CENTS, 2, 0, None);
            var s := Store(map[1 := p], map[], map[]);
            var r := CreateOrder(s, Admin, Some(3), Some([1]), Some([2]), 10, 0);
            r.status.Ok? && r.store.orders[10].total > MAX_PRICE_CENTS
  {
    var p := Product(1, "p", "", MAX_PRICE_CENTS, 2, 0, None);
    var d0 := Draft(map[1 := p], [], 0, []);
    assert [1][1..] == [] && [2 as Int32][1..] == [];
    assert AddLines(d0, [1], [2]) == AddLine(d0, 1, 2);
  }
}
