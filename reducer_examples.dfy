/**
 * The reducers and `calculateCartTotal` on the states and carts their unit
 * tests use. Prices are whole numbers: the test product's 10.99 becomes
 * 1099 (cents).
 */
module ReducerExamples {
  import opened Types
  import opened InventoryReducer
  import CartReducer

  const Initial: InventoryState := InventoryState([], false, None)

  const TestProduct: Product := Product("1", "Test Product", None, Some(1099), None, None)

  /** A cart line for a product of the given price, as the total's tests build them. */
  function Line(price: Option<int>, quantity: int): CartItem {
    CartItem("", "", Product("", "", None, price, None, None), quantity)
  }

  lemma SetLoadingExample()
    ensures var r := Reduce(Initial, InventoryAction.SetLoading(true));
      r.loading && r.error == None
  {
    SetLoadingChangesOnlyLoading(Initial, true);
  }

  lemma SetErrorExample(error: string)
    requires error == "Test error"
    ensures var r := Reduce(Initial.(loading := true), InventoryAction.SetError(Some(error)));
      r.error == Some(error) && !r.loading
  {
    SetErrorRecordsError(Initial.(loading := true), Some(error));
  }

  lemma AddProductExample()
    ensures var r := Reduce(Initial, AddProduct(TestProduct));
      r.products == [TestProduct] && r.error == None && !r.loading
  {
    AddProductAppends(Initial, TestProduct);
  }

  lemma UpdateProductExample(name: string)
    requires name == "Updated Product"
    ensures var r := Reduce(Initial.(products := [TestProduct]), UpdateProduct(TestProduct.(name := name)));
      |r.products| == 1 && r.products[0].name == name
  {
    UpdateProductReplacesById(Initial.(products := [TestProduct]), TestProduct.(name := name));
  }

  lemma DeleteProductExample()
    ensures var r := Reduce(Initial.(products := [TestProduct]), DeleteProduct("1"));
      r.products == [] && r.error == None && !r.loading
  {
    DeleteProductRemovesId(Initial.(products := [TestProduct]), "1");
  }

  lemma SetProductsExample(name: string)
    requires name == "New Product"
    ensures var r := Reduce(Initial.(products := [TestProduct]), SetProducts([TestProduct.(id := "2", name := name)]));
      |r.products| == 1 && r.products[0].name == name && r.error == None && !r.loading
  {
    SetProductsReplacesAll(Initial.(products := [TestProduct]), [TestProduct.(id := "2", name := name)]);
  }

  /** (10 * 2) + (5 * 3) + (0 * 1) = 35. */
  lemma CartTotalExample()
    ensures CalculateCartTotal([Line(Some(10), 2), Line(Some(5), 3), Line(Some(0), 1)]) == 35
  {
    var items := [Line(Some(10), 2), Line(Some(5), 3), Line(Some(0), 1)];
    CartTotalIsSum(items);
    assert items[..2] == [Line(Some(10), 2), Line(Some(5), 3)];
    assert items[..2][..1] == [Line(Some(10), 2)];
  }

  /** A line whose product has no price adds nothing. */
  lemma CartTotalWithoutPrice()
    ensures CalculateCartTotal([Line(None, 2)]) == 0
  {
    CartTotalSingle(Line(None, 2));
  }

  /**
   * Adding the same product twice to a cart that lacks it leaves one line,
   * which carries both quantities, and a total that prices them both.
   */
  lemma AddSameProductTwice(state: CartState, first: CartItem, second: CartItem)
    requires CartReducer.Consistent(state)
    requires forall j :: 0 <= j < |state.items| ==> state.items[j].productId != first.productId
    requires second.productId == first.productId
    ensures var r := CartReducer.Reduce(CartReducer.Reduce(state, AddItem(first)), AddItem(second));
      && |r.items| == |state.items| + 1
      && r.items[..|state.items|] == state.items
      && r.items[|state.items|] == first.(quantity := first.quantity + second.quantity)
      && r.total == state.total + LinePrice(first) * (first.quantity + second.quantity)
  {
    var once := CartReducer.Reduce(state, AddItem(first));
    CartReducer.AddItemAppendsNew(state, first);
    CartReducer.AddItemTotal(state, first);
    CartReducer.AddItemMergesExisting(once, second, |state.items|);
    CartReducer.AddItemTotal(once, second);
    var r := CartReducer.Reduce(once, AddItem(second));
    assert r.items[..|state.items|] == once.items[..|state.items|];
  }
}
