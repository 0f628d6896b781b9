/**
 * The cart reducer (contexts/cartReducer.ts): a total transition function
 * over `{items, total, loading, error}`. Every case that writes the item
 * list recomputes `total` with `calculateCartTotal`.
 */
module CartReducer {
  import opened Types
  import opened Seqs
  import opened InventoryReducer

  // ---------------------------------------------------------------------
  // The list operations behind the cases
  // ---------------------------------------------------------------------

  /** `items.findIndex(item => item.productId === productId)`: the first such index, or -1. */
  function FindIndex(items: seq<CartItem>, productId: string): (k: int)
    ensures -1 <= k < |items|
    ensures k >= 0 ==> items[k].productId == productId
    ensures forall j :: 0 <= j < |items| && (k < 0 || j < k) ==> items[j].productId != productId
    decreases |items|
  {
    if items == [] then -1
    else if items[0].productId == productId then 0
    else
      var k := FindIndex(items[1..], productId);
      if k < 0 then -1 else k + 1
  }

  /**
   * The `ADD_ITEM` list: the payload's quantity added to the first line with
   * its product, or, when there is none, the payload appended.
   */
  function MergeOrAppend(items: seq<CartItem>, item: CartItem): (r: seq<CartItem>)
    ensures (exists j :: 0 <= j < |items| && items[j].productId == item.productId) <==> |r| == |items|
    ensures |r| == |items| || (|r| == |items| + 1 && r[|items|] == item)
    ensures forall j :: 0 <= j < |items| ==>
      && r[j].id == items[j].id
      && r[j].productId == items[j].productId
      && r[j].product == items[j].product
  {
    var k := FindIndex(items, item.productId);
    if k >= 0 then items[k := items[k].(quantity := items[k].quantity + item.quantity)]
    else items + [item]
  }

  /** `items.filter(item => item.id !== id)`. */
  function RemoveLine(items: seq<CartItem>, id: string): seq<CartItem> {
    Filter(items, (it: CartItem) => it.id != id)
  }

  /** `items.map(item => item.id === id ? {...item, quantity} : item)`. */
  function SetQuantity(items: seq<CartItem>, id: string, quantity: int): (r: seq<CartItem>)
    ensures |r| == |items|
    ensures forall i :: 0 <= i < |r| ==>
      r[i] == if items[i].id == id then items[i].(quantity := quantity) else items[i]
  {
    if items == [] then []
    else [if items[0].id == id then items[0].(quantity := quantity) else items[0]] + SetQuantity(items[1..], id, quantity)
  }

  /** No two lines are for the same product. */
  predicate DistinctProducts(items: seq<CartItem>) {
    DistinctBy(items, (it: CartItem) => it.productId)
  }

  /** The stored total is the one `calculateCartTotal` gives for the stored lines. */
  predicate Consistent(state: CartState) {
    state.total == CalculateCartTotal(state.items)
  }

  // ---------------------------------------------------------------------
  // cartReducer
  // ---------------------------------------------------------------------

  /**
   * `cartReducer(state, action)`. The cases that write the item list keep
   * the stored total equal to the total of the stored lines and clear both
   * flags; `SET_LOADING` and `SET_ERROR` leave lines and total alone.
   */
  function Reduce(state: CartState, action: CartAction): (r: CartState)
    ensures action.SetLoading? || action.SetError? ==> r.items == state.items && r.total == state.total
    ensures !action.SetLoading? && !action.SetError? ==> Consistent(r) && r.error == None && !r.loading
    ensures r.loading ==> action.SetLoading?
  {
    match action
    case SetLoading(loading) => state.(loading := loading)
    case SetError(error) => state.(error := error, loading := false)
    case AddItem(item) =>
      var items := MergeOrAppend(state.items, item);
      state.(items := items, total := CalculateCartTotal(items), error := None, loading := false)
    case RemoveItem(id) =>
      var items := RemoveLine(state.items, id);
      state.(items := items, total := CalculateCartTotal(items), error := None, loading := false)
    case UpdateItemQuantity(id, quantity) =>
      var items := SetQuantity(state.items, id, quantity);
      state.(items := items, total := CalculateCartTotal(items), error := None, loading := false)
    case ClearCart => state.(items := [], total := 0, error := None, loading := false)
    case SetCart(items) => state.(items := items, total := CalculateCartTotal(items), error := None, loading := false)
  }

  /** Every case keeps a consistent state consistent. */
  lemma ReduceKeepsConsistent(state: CartState, action: CartAction)
    requires Consistent(state)
    ensures Consistent(Reduce(state, action))
  {
  }

  /**
   * `ADD_ITEM` for a product already in the cart keeps the number of lines;
   * the first line for that product gains the payload's quantity, keeping
   * its own id and product, and every other line is unchanged.
   */
  lemma AddItemMergesExisting(state: CartState, item: CartItem, k: nat)
    requires k < |state.items| && state.items[k].productId == item.productId
    requires forall j :: 0 <= j < k ==> state.items[j].productId != item.productId
    ensures var r := Reduce(state, AddItem(item));
      && |r.items| == |state.items|
      && r.items[k] == state.items[k].(quantity := state.items[k].quantity + item.quantity)
      && (forall j :: 0 <= j < |r.items| && j != k ==> r.items[j] == state.items[j])
  {
    assert FindIndex(state.items, item.productId) == k;
  }

  /** `ADD_ITEM` for a product not in the cart appends the payload after the existing lines. */
  lemma AddItemAppendsNew(state: CartState, item: CartItem)
    requires forall j :: 0 <= j < |state.items| ==> state.items[j].productId != item.productId
    ensures var r := Reduce(state, AddItem(item));
      && |r.items| == |state.items| + 1
      && r.items[..|state.items|] == state.items
      && r.items[|state.items|] == item
  {
    var r := Reduce(state, AddItem(item));
    assert FindIndex(state.items, item.productId) == -1;
    assert r.items[..|state.items|] == state.items;
  }

  /**
   * The total after `ADD_ITEM` grows by the payload's quantity priced at the
   * merged line's product, or by the payload's own line total when it is
   * appended.
   */
  lemma AddItemTotal(state: CartState, item: CartItem)
    requires Consistent(state)
    ensures var k := FindIndex(state.items, item.productId);
      Reduce(state, AddItem(item)).total == state.total +
        if k >= 0 then LinePrice(state.items[k]) * item.quantity else LineTotal(item)
  {
    var k := FindIndex(state.items, item.productId);
    if k >= 0 {
      var old_line := state.items[k];
      var new_line := old_line.(quantity := old_line.quantity + item.quantity);
      CartTotalReplaceLine(state.items, k, new_line);
      assert LineTotal(new_line) == LinePrice(old_line) * old_line.quantity + LinePrice(old_line) * item.quantity;
    } else {
      CartTotalConcat(state.items, [item]);
      CartTotalSingle(item);
    }
  }

  /** `ADD_ITEM` keeps the lines' products pairwise distinct. */
  lemma AddItemKeepsDistinctProducts(state: CartState, item: CartItem)
    requires DistinctProducts(state.items)
    ensures DistinctProducts(Reduce(state, AddItem(item)).items)
  {
    var key := (it: CartItem) => it.productId;
    var k := FindIndex(state.items, item.productId);
    var r := MergeOrAppend(state.items, item);
    forall i, j | 0 <= i < j < |r|
      ensures key(r[i]) != key(r[j])
    {
      if k >= 0 {
        assert key(r[i]) == key(state.items[i]) && key(r[j]) == key(state.items[j]);
      } else if j == |state.items| {
        assert r[i] == state.items[i];
      } else {
        assert r[i] == state.items[i] && r[j] == state.items[j];
      }
    }
  }

  /**
   * `REMOVE_ITEM` drops every line with the id and nothing else: each
   * occurrence of every other line is kept, in the original order, and the
   * kept and the dropped lines together are the old lines.
   */
  lemma RemoveItemDropsId(state: CartState, id: string)
    ensures var r := Reduce(state, RemoveItem(id));
      && (forall k :: 0 <= k < |r.items| ==> r.items[k].id != id)
      && (forall i :: 0 <= i < |state.items| && state.items[i].id != id ==> state.items[i] in r.items)
      && IsSubsequence(r.items, state.items)
      && (forall it :: multiset(r.items)[it] == if it.id != id then multiset(state.items)[it] else 0)
      && |r.items| + |Filter(state.items, (it: CartItem) => it.id == id)| == |state.items|
  {
    assert Reduce(state, RemoveItem(id)).items == RemoveLine(state.items, id);
    RemoveLineExactly(state.items, id);
  }

  /** The `REMOVE_ITEM` list on its own: the filter keeps exactly the lines without the id. */
  lemma RemoveLineExactly(items: seq<CartItem>, id: string)
    ensures var r := RemoveLine(items, id);
      && (forall k :: 0 <= k < |r| ==> r[k].id != id)
      && (forall i :: 0 <= i < |items| && items[i].id != id ==> items[i] in r)
      && IsSubsequence(r, items)
      && (forall it :: multiset(r)[it] == if it.id != id then multiset(items)[it] else 0)
      && |r| + |Filter(items, (it: CartItem) => it.id == id)| == |items|
  {
    FilterExactly(items, (it: CartItem) => it.id != id, (it: CartItem) => it.id == id);
  }

  /** `REMOVE_ITEM` keeps the lines' products pairwise distinct. */
  lemma RemoveItemKeepsDistinctProducts(state: CartState, id: string)
    requires DistinctProducts(state.items)
    ensures DistinctProducts(Reduce(state, RemoveItem(id)).items)
  {
    FilterDistinctBy(state.items, (it: CartItem) => it.id != id, (it: CartItem) => it.productId);
  }

  /**
   * `UPDATE_ITEM_QUANTITY` sets the quantity of the lines with the id and
   * changes nothing else: the number of lines, every id and product id, and
   * every other line stay as they were.
   */
  lemma UpdateQuantitySetsOnlyQuantity(state: CartState, id: string, quantity: int)
    ensures var r := Reduce(state, UpdateItemQuantity(id, quantity));
      && |r.items| == |state.items|
      && (forall i :: 0 <= i < |r.items| ==>
            && r.items[i].id == state.items[i].id
            && r.items[i].productId == state.items[i].productId
            && r.items[i].product == state.items[i].product)
      && (forall i :: 0 <= i < |r.items| && state.items[i].id == id ==> r.items[i].quantity == quantity)
      && (forall i :: 0 <= i < |r.items| && state.items[i].id != id ==> r.items[i] == state.items[i])
  {
  }

  /** `UPDATE_ITEM_QUANTITY` keeps the lines' products pairwise distinct. */
  lemma UpdateQuantityKeepsDistinctProducts(state: CartState, id: string, quantity: int)
    requires DistinctProducts(state.items)
    ensures DistinctProducts(Reduce(state, UpdateItemQuantity(id, quantity)).items)
  {
    var key := (it: CartItem) => it.productId;
    var r := SetQuantity(state.items, id, quantity);
    forall i, j | 0 <= i < j < |r|
      ensures key(r[i]) != key(r[j])
    {
      assert key(r[i]) == key(state.items[i]) && key(r[j]) == key(state.items[j]);
    }
  }

  /** `CLEAR_CART` empties the cart; its total 0 is the total of no lines. */
  lemma ClearCartEmpties(state: CartState)
    ensures var r := Reduce(state, ClearCart);
      r.items == [] && r.total == 0 && Consistent(r) && r.error == None && !r.loading
  {
  }

  /** `SET_CART` installs the payload and its total. */
  lemma SetCartInstalls(state: CartState, items: seq<CartItem>)
    ensures var r := Reduce(state, SetCart(items));
      r.items == items && r.total == CalculateCartTotal(items) && r.error == None && !r.loading
  {
  }

  /** `SET_LOADING` changes `loading` and nothing else. */
  lemma SetLoadingChangesOnlyLoading(state: CartState, loading: bool)
    ensures Reduce(state, CartAction.SetLoading(loading)) == state.(loading := loading)
  {
  }

  /** `SET_ERROR` records the payload and clears `loading`; lines and total stay. */
  lemma SetErrorRecordsError(state: CartState, error: Option<string>)
    ensures var r := Reduce(state, CartAction.SetError(error));
      r.error == error && !r.loading && r.items == state.items && r.total == state.total
  {
  }
}
