/** The catalogue's single entity, the product. */
module Domain {
  import opened Wrappers
  import opened Text

  /** A product identifier (a GUID); `EmptyId` is `Guid.Empty`. */
  type Id = nat
  const EmptyId: Id := 0

  /** A UTC time stamp, in clock ticks. */
  type Time = int

  /** A decimal price, counted in hundredths of the currency unit. */
  type Price = int

  datatype Product = Product(
    id: Id,
    name: string,
    description: Option<string>,
    price: Price,
    category: string,
    tags: seq<string>,
    inStock: bool,
    createdAt: Time,
    updatedAt: Option<Time>)

  /**
   * A product built from its two required members with every other property
   * at its declared initial value; `now` is the clock reading the
   * `CreatedAt` initialiser takes.
   */
  function NewProduct(name: string, category: string, now: Time): (p: Product)
    ensures p.name == name && p.category == category
    ensures p.id == EmptyId && p.description.None? && p.price == 0
    ensures p.tags == []
    ensures p.inStock
    ensures p.createdAt == now && p.updatedAt.None?
  {
    Product(EmptyId, name, None, 0, category, [], true, now, None)
  }

  /**
   * What the catalogue expects of a stored product: a non-blank name and
   * category and a non-negative price.
   */
  predicate IsWellFormed(p: Product) {
    !IsBlank(p.name) && !IsBlank(p.category) && p.price >= 0
  }
}
