/**
 * The inventory reducer (contexts/inventoryReducer.ts): a total transition
 * function over `{products, loading, error}`, and `calculateCartTotal`, the
 * fold over cart lines that the cart reducer reuses.
 */
module InventoryReducer {
  import opened Types
  import opened Seqs

  // ---------------------------------------------------------------------
  // The list operations behind the cases
  // ---------------------------------------------------------------------

  /** `products.map(q => q.id === p.id ? p : q)`: every entry with `p`'s id becomes `p`. */
  function ReplaceById(products: seq<Product>, p: Product): (r: seq<Product>)
    ensures |r| == |products|
    ensures forall i :: 0 <= i < |r| ==> r[i].id == products[i].id
    ensures forall i :: 0 <= i < |r| ==> r[i] == (if products[i].id == p.id then p else products[i])
  {
    if products == [] then []
    else [if products[0].id == p.id then p else products[0]] + ReplaceById(products[1..], p)
  }

  /** `products.filter(q => q.id !== id)`. */
  function RemoveById(products: seq<Product>, id: string): seq<Product> {
    Filter(products, (q: Product) => q.id != id)
  }

  /** The entries that carry `id`: what `RemoveById` drops. */
  function WithId(products: seq<Product>, id: string): seq<Product> {
    Filter(products, (q: Product) => q.id == id)
  }

  /** No two products share an id. */
  predicate UniqueIds(products: seq<Product>) {
    DistinctBy(products, (q: Product) => q.id)
  }

  /** Some entry carries `id`. */
  predicate HasId(products: seq<Product>, id: string) {
    exists i :: 0 <= i < |products| && products[i].id == id
  }

  // ---------------------------------------------------------------------
  // inventoryReducer
  // ---------------------------------------------------------------------

  /**
   * `inventoryReducer(state, action)`. Only `SET_LOADING` can leave the
   * state loading, and only `SET_ERROR` can record a new error: every case
   * that writes the product list clears both.
   */
  function Reduce(state: InventoryState, action: InventoryAction): (r: InventoryState)
    ensures r.loading ==> action.SetLoading?
    ensures r.error != state.error ==> action.SetError? || r.error == None
    ensures !action.SetLoading? && !action.SetError? ==> r.error == None && !r.loading
    ensures action.SetLoading? || action.SetError? ==> r.products == state.products
  {
    match action
    case SetLoading(loading) => state.(loading := loading)
    case SetError(error) => state.(error := error, loading := false)
    case AddProduct(p) => state.(products := state.products + [p], error := None, loading := false)
    case UpdateProduct(p) => state.(products := ReplaceById(state.products, p), error := None, loading := false)
    case DeleteProduct(id) => state.(products := RemoveById(state.products, id), error := None, loading := false)
    case SetProducts(products) => state.(products := products, error := None, loading := false)
  }

  /** `SET_LOADING` changes `loading` and nothing else. */
  lemma SetLoadingChangesOnlyLoading(state: InventoryState, loading: bool)
    ensures var r := Reduce(state, InventoryAction.SetLoading(loading));
      r.loading == loading && r.products == state.products && r.error == state.error
  {
  }

  /** `SET_ERROR` records the payload and clears `loading`; the products stay. */
  lemma SetErrorRecordsError(state: InventoryState, error: Option<string>)
    ensures var r := Reduce(state, InventoryAction.SetError(error));
      r.error == error && !r.loading && r.products == state.products
  {
  }

  /** `ADD_PRODUCT` appends: one more entry, the payload last, the earlier ones unchanged. */
  lemma AddProductAppends(state: InventoryState, p: Product)
    ensures var r := Reduce(state, AddProduct(p));
      && |r.products| == |state.products| + 1
      && r.products[|state.products|] == p
      && r.products[..|state.products|] == state.products
      && r.error == None && !r.loading
  {
    var r := Reduce(state, AddProduct(p));
    assert r.products[..|state.products|] == state.products;
  }

  /**
   * `UPDATE_PRODUCT` keeps the length and the order of ids; the entries with
   * the payload's id become the payload and every other entry is unchanged.
   */
  lemma UpdateProductReplacesById(state: InventoryState, p: Product)
    ensures var r := Reduce(state, UpdateProduct(p));
      && |r.products| == |state.products|
      && (forall i :: 0 <= i < |r.products| && state.products[i].id == p.id ==> r.products[i] == p)
      && (forall i :: 0 <= i < |r.products| && state.products[i].id != p.id ==> r.products[i] == state.products[i])
      && r.error == None && !r.loading
  {
  }

  /** Updating twice with the same payload is updating once. */
  lemma UpdateProductIdempotent(state: InventoryState, p: Product)
    ensures var once := Reduce(state, UpdateProduct(p));
      Reduce(once, UpdateProduct(p)) == once
  {
    var once := ReplaceById(state.products, p);
    var twice := ReplaceById(once, p);
    assert |twice| == |once|;
    forall i | 0 <= i < |once|
      ensures twice[i] == once[i]
    {
    }
    assert twice == once;
  }

  /** An update whose id no entry carries leaves the list as it was. */
  lemma UpdateUnknownIdKeepsProducts(state: InventoryState, p: Product)
    requires !HasId(state.products, p.id)
    ensures Reduce(state, UpdateProduct(p)).products == state.products
  {
    var r := ReplaceById(state.products, p);
    forall i | 0 <= i < |r|
      ensures r[i] == state.products[i]
    {
    }
  }

  /**
   * `DELETE_PRODUCT` leaves no entry with the id, keeps every other entry in
   * its original order, and drops exactly the entries that carry the id.
   */
  lemma DeleteProductRemovesId(state: InventoryState, id: string)
    ensures var r := Reduce(state, DeleteProduct(id));
      && (forall k :: 0 <= k < |r.products| ==> r.products[k].id != id)
      && IsSubsequence(r.products, state.products)
      && (forall i :: 0 <= i < |state.products| && state.products[i].id != id ==> state.products[i] in r.products)
      && |r.products| + |WithId(state.products, id)| == |state.products|
      && r.error == None && !r.loading
  {
    var keep := (q: Product) => q.id != id;
    FilterIsSubsequence(state.products, keep);
    forall i | 0 <= i < |state.products| && state.products[i].id != id
      ensures state.products[i] in RemoveById(state.products, id)
    {
      FilterComplete(state.products, keep, i);
    }
    FilterPartition(state.products, keep, (q: Product) => q.id == id);
  }

  /** Deleting an id twice is deleting it once. */
  lemma DeleteProductIdempotent(state: InventoryState, id: string)
    ensures var once := Reduce(state, DeleteProduct(id));
      Reduce(once, DeleteProduct(id)) == once
  {
    var keep := (q: Product) => q.id != id;
    var once := RemoveById(state.products, id);
    FilterKeepsAll(once, keep);
  }

  /** Adding a product under a fresh id and then deleting that id restores the list. */
  lemma DeleteUndoesAdd(state: InventoryState, p: Product)
    requires !HasId(state.products, p.id)
    ensures Reduce(Reduce(state, AddProduct(p)), DeleteProduct(p.id)).products == state.products
  {
    var keep := (q: Product) => q.id != p.id;
    FilterConcat(state.products, [p], keep);
    FilterKeepsAll(state.products, keep);
    assert Filter([p], keep) == [];
  }

  /** `SET_PRODUCTS` replaces the list with the payload and clears the flags. */
  lemma SetProductsReplacesAll(state: InventoryState, products: seq<Product>)
    ensures var r := Reduce(state, SetProducts(products));
      r.products == products && r.error == None && !r.loading
  {
  }

  /**
   * Unique ids survive every case except an `ADD_PRODUCT` of an id already
   * present and a `SET_PRODUCTS` of a list that repeats one.
   */
  lemma ReduceKeepsUniqueIds(state: InventoryState, action: InventoryAction)
    requires UniqueIds(state.products)
    requires action.AddProduct? ==> !HasId(state.products, action.product.id)
    requires action.SetProducts? ==> UniqueIds(action.products)
    ensures UniqueIds(Reduce(state, action).products)
  {
    var key := (q: Product) => q.id;
    match action
    case SetLoading(_) =>
    case SetError(_) =>
    case AddProduct(p) =>
      var r := state.products + [p];
      forall i, j | 0 <= i < j < |r|
        ensures key(r[i]) != key(r[j])
      {
        if j == |state.products| {
          assert r[i] == state.products[i];
        } else {
          assert r[i] == state.products[i] && r[j] == state.products[j];
        }
      }
    case UpdateProduct(p) =>
      var r := ReplaceById(state.products, p);
      forall i, j | 0 <= i < j < |r|
        ensures key(r[i]) != key(r[j])
      {
        assert key(r[i]) == key(state.products[i]) && key(r[j]) == key(state.products[j]);
      }
    case DeleteProduct(id) =>
      FilterDistinctBy(state.products, (q: Product) => q.id != id, key);
    case SetProducts(_) =>
  }

  // ---------------------------------------------------------------------
  // calculateCartTotal
  // ---------------------------------------------------------------------

  /** `item.product?.price || 0`: a missing price counts as 0. */
  function LinePrice(item: CartItem): int {
    item.product.price.GetOr(0)
  }

  /** What one cart line contributes: price times quantity. */
  function LineTotal(item: CartItem): int {
    LinePrice(item) * item.quantity
  }

  /** The `reduce` loop: the running total `acc` plus each line in turn, left to right. */
  function FoldTotal(acc: int, items: seq<CartItem>): int
    decreases |items|
  {
    if items == [] then acc else FoldTotal(acc + LineTotal(items[0]), items[1..])
  }

  /** `calculateCartTotal(items)`: the fold started at 0. */
  function CalculateCartTotal(items: seq<CartItem>): (total: int)
    ensures items == [] ==> total == 0
  {
    FoldTotal(0, items)
  }

  /** The sum of the line totals, taken from the last line backwards. */
  function Sum(items: seq<CartItem>): int
    decreases |items|
  {
    if items == [] then 0 else Sum(items[..|items| - 1]) + LineTotal(items[|items| - 1])
  }

  lemma {:induction false} SumAppend(items: seq<CartItem>, x: CartItem)
    ensures Sum(items + [x]) == Sum(items) + LineTotal(x)
  {
    assert (items + [x])[..|items|] == items;
  }

  lemma {:induction false} SumPrepend(x: CartItem, items: seq<CartItem>)
    ensures Sum([x] + items) == LineTotal(x) + Sum(items)
    decreases |items|
  {
    if items == [] {
      assert [x] + items == [x];
      assert [x][..0] == [];
    } else {
      var init := items[..|items| - 1];
      var last := items[|items| - 1];
      assert items == init + [last];
      assert [x] + items == ([x] + init) + [last];
      SumPrepend(x, init);
      SumAppend([x] + init, last);
      SumAppend(init, last);
    }
  }

  /** The fold from `acc` ends at `acc` plus the sum of the lines. */
  lemma {:induction false} FoldIsSum(acc: int, items: seq<CartItem>)
    ensures FoldTotal(acc, items) == acc + Sum(items)
    decreases |items|
  {
    if items != [] {
      FoldIsSum(acc + LineTotal(items[0]), items[1..]);
      assert items == [items[0]] + items[1..];
      SumPrepend(items[0], items[1..]);
    }
  }

  /** `calculateCartTotal` is the sum of price times quantity over the lines. */
  lemma CartTotalIsSum(items: seq<CartItem>)
    ensures CalculateCartTotal(items) == Sum(items)
  {
    FoldIsSum(0, items);
  }

  /** The total of two carts laid end to end is the sum of their totals. */
  lemma {:induction false} CartTotalConcat(a: seq<CartItem>, b: seq<CartItem>)
    ensures CalculateCartTotal(a + b) == CalculateCartTotal(a) + CalculateCartTotal(b)
    decreases |b|
  {
    CartTotalIsSum(a + b);
    CartTotalIsSum(a);
    CartTotalIsSum(b);
    SumConcat(a, b);
  }

  lemma {:induction false} SumConcat(a: seq<CartItem>, b: seq<CartItem>)
    ensures Sum(a + b) == Sum(a) + Sum(b)
    decreases |b|
  {
    if b == [] {
      assert a + b == a;
    } else {
      var init := b[..|b| - 1];
      var last := b[|b| - 1];
      assert b == init + [last];
      assert a + b == (a + init) + [last];
      SumConcat(a, init);
      SumAppend(a + init, last);
      SumAppend(init, last);
    }
  }

  /** A cart of one line totals that line. */
  lemma CartTotalSingle(x: CartItem)
    ensures CalculateCartTotal([x]) == LineTotal(x)
  {
    assert [x][1..] == [];
    assert FoldTotal(0, [x]) == FoldTotal(0 + LineTotal(x), []);
  }

  /** Replacing one line changes the total by the difference of the two line totals. */
  lemma CartTotalReplaceLine(items: seq<CartItem>, k: nat, x: CartItem)
    requires k < |items|
    ensures CalculateCartTotal(items[k := x]) == CalculateCartTotal(items) - LineTotal(items[k]) + LineTotal(x)
  {
    var pre := items[..k];
    var post := items[k + 1..];
    assert items == pre + [items[k]] + post;
    assert items[k := x] == pre + [x] + post;
    CartTotalConcat(pre + [items[k]], post);
    CartTotalConcat(pre, [items[k]]);
    CartTotalConcat(pre + [x], post);
    CartTotalConcat(pre, [x]);
    CartTotalSingle(items[k]);
    CartTotalSingle(x);
  }

  lemma MulNonNegative(x: int, y: int)
    requires x >= 0 && y >= 0
    ensures x * y >= 0
  {
  }

  /** With no negative price or quantity the total is not negative. */
  lemma {:induction false} CartTotalNonNegative(items: seq<CartItem>)
    requires forall i :: 0 <= i < |items| ==> LinePrice(items[i]) >= 0 && items[i].quantity >= 0
    ensures CalculateCartTotal(items) >= 0
    decreases |items|
  {
    if items != [] {
      var init := items[..|items| - 1];
      var last := items[|items| - 1];
      assert items == init + [last];
      CartTotalNonNegative(init);
      CartTotalConcat(init, [last]);
      CartTotalSingle(last);
      MulNonNegative(LinePrice(last), last.quantity);
    }
  }
}
