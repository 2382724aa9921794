/** The request and response shapes of the product API and their validation rules. */
module Dtos {
  import opened Wrappers
  import opened Text
  import opened Domain

  /**
   * A create request. A JSON `null` for the name or the category reads as
   * the empty string here: validation rejects both alike.
   */
  datatype AddProductDto = AddProductDto(
    name: string,
    description: Option<string>,
    price: Price,
    category: string,
    tags: Option<seq<string>>,
    inStock: bool)

  /** A create request carrying only the given members; the rest keep their initial values. */
  function NewAddProductDto(name: string, price: Price, category: string): (d: AddProductDto)
    ensures d.name == name && d.price == price && d.category == category
    ensures d.description.None? && d.tags.None?
    ensures d.inStock
  {
    AddProductDto(name, None, price, category, None, true)
  }

  /**
   * `[Required]` on a string: not null, not empty and not only white space,
   * that is, some character is not white space, and trimming leaves text.
   */
  predicate IsSupplied(s: string): (b: bool)
    ensures b <==> exists i | 0 <= i < |s| :: !IsWhiteSpace(s[i])
    ensures b <==> Trim(s) != []
  {
    !IsBlank(s)
  }

  /** `[Range(0, double.MaxValue)]` on a price. */
  predicate IsValidPrice(price: Price) {
    price >= 0
  }

  /**
   * The data-annotation check a create request must pass before it reaches
   * the service: a name and a category that are more than white space, and
   * a price that is not negative. Nothing constrains the description, the
   * tags or the stock flag.
   */
  predicate IsValidAdd(d: AddProductDto): (b: bool)
    ensures b <==> Trim(d.name) != [] && Trim(d.category) != [] && d.price >= 0
    ensures b ==> d.name != [] && d.category != []
  {
    IsSupplied(d.name) && IsSupplied(d.category) && IsValidPrice(d.price)
  }

  /** A search request: an optional text query and an optional category. */
  datatype SearchProductDto = SearchProductDto(query: Option<string>, category: Option<string>)

  /** A partial update: every member is optional and `None` leaves the stored value alone. */
  datatype UpdateProductDto = UpdateProductDto(
    name: Option<string>,
    description: Option<string>,
    price: Option<Price>,
    category: Option<string>,
    tags: Option<seq<string>>,
    inStock: Option<bool>)

  /** An update that supplies nothing. */
  const NoChanges := UpdateProductDto(None, None, None, None, None, None)

  /**
   * The only data-annotation rule on an update: a supplied price is not
   * negative. An omitted price, and any name, category or other member,
   * pass.
   */
  predicate IsValidUpdate(u: UpdateProductDto): (b: bool)
    ensures b <==> u.price.GetOr(0) >= 0
    ensures u.price.None? ==> b
  {
    u.price.None? || IsValidPrice(u.price.value)
  }

  /** The response shape of a product. */
  datatype ProductDto = ProductDto(
    id: Id,
    name: string,
    description: Option<string>,
    price: Price,
    category: string,
    tags: seq<string>,
    inStock: bool,
    createdAt: Time,
    updatedAt: Option<Time>)
}
