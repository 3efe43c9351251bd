/** The inventory record shared by every component. */
module Types {
  import opened Wrappers

  /** One inventory item (lib/types.ts). `description`, `supplier` and
      `lastUpdated` are attached by the item dialog on save; the seed items do
      not carry them, so they are optional here. `price` is exact: floating-point
      rounding is not modelled. */
  datatype Item = Item(
    id: string,
    name: string,
    category: string,
    quantity: int,
    price: real,
    description: Option<string>,
    supplier: Option<string>,
    lastUpdated: Option<string>)

  /** The stock value of one item, `price * quantity`. */
  function Value(x: Item): real {
    x.price * x.quantity as real
  }
}
