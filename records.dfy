/**
 * The records the search page works on: products and users as fetched, and
 * a product with the user attached to it by id.
 */
module Records {

  datatype Option<T> = None | Some(value: T)

  /**
   * A product. `category`, `price` and `images` are carried along and shown
   * but play no part in searching.
   */
  datatype Product = Product(
    id: int,
    title: string,
    category: string,
    price: real,
    description: string,
    images: seq<string>)

  datatype User = User(id: int, firstName: string, lastName: string)

  /** `Product & { user?: User }`: every field of the product plus an optional user. */
  datatype ProductWithUser = ProductWithUser(product: Product, user: Option<User>)
}
