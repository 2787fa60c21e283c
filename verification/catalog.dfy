/** Products as the product list view and the favourites service see them. */
module Catalog {

  /** An object reference: two products are the same object exactly when their
      references are equal, which is how a JavaScript `Set` tells them apart. */
  type Ref = nat

  /** A catalog product. Only the fields the modelled core reads are kept:
      its object identity and its display name. */
  datatype Product = Product(ref: Ref, name: string)
}
