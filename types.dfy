/**
 * The data shapes shared by the matching engine and the two reducers
 * (types/inventory.ts). Money and quantities are whole numbers (for
 * instance cents); the creation and update timestamps, which no core
 * operation reads, are not modelled.
 */
module Types {

  /** An optional value: `T | undefined` or `T | null` in the source. */
  datatype Option<+T> = None | Some(value: T) {
    /** The value, or `default` when absent (the source's `x || default` on a number). */
    function GetOr(default: T): T {
      match this
      case Some(v) => v
      case None => default
    }
  }

  /** A catalog entry. Only `name` is read by the matcher; `price` by the cart total. */
  datatype Product = Product(
    id: string,
    name: string,
    description: Option<string>,
    price: Option<int>,
    quantity: Option<int>,
    barcode: Option<string>)

  /** One line of the cart: a product, its quantity, and the product's id. */
  datatype CartItem = CartItem(
    id: string,
    productId: string,
    product: Product,
    quantity: int)

  datatype InventoryState = InventoryState(
    products: seq<Product>,
    loading: bool,
    error: Option<string>)

  datatype CartState = CartState(
    items: seq<CartItem>,
    total: int,
    loading: bool,
    error: Option<string>)

  /** One constructor per variant of the source's `InventoryAction` union. */
  datatype InventoryAction =
    | SetLoading(loading: bool)
    | SetError(error: Option<string>)
    | AddProduct(product: Product)
    | UpdateProduct(product: Product)
    | DeleteProduct(productId: string)
    | SetProducts(products: seq<Product>)

  /** One constructor per variant of the source's `CartAction` union. */
  datatype CartAction =
    | SetLoading(loading: bool)
    | SetError(error: Option<string>)
    | AddItem(item: CartItem)
    | RemoveItem(itemId: string)
    | UpdateItemQuantity(itemId: string, quantity: int)
    | ClearCart
    | SetCart(items: seq<CartItem>)
}
