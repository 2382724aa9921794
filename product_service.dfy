/**
 * The application service: builds entities from create requests, applies
 * partial updates, maps entities to response shapes and delegates storage
 * to the in-memory repository.
 */
module Service {
  import opened Wrappers
  import opened Text
  import opened Domain
  import opened Dtos
  import opened Repository

  /** `MapToDto`: the response carries every property of the entity unchanged. */
  function MapToDto(p: Product): (d: ProductDto)
    ensures d.id == p.id && d.name == p.name && d.description == p.description
    ensures d.price == p.price && d.category == p.category && d.tags == p.tags
    ensures d.inStock == p.inStock && d.createdAt == p.createdAt && d.updatedAt == p.updatedAt
  {
    ProductDto(p.id, p.name, p.description, p.price, p.category, p.tags, p.inStock, p.createdAt, p.updatedAt)
  }

  /** Mapping loses nothing: distinct products have distinct responses. */
  lemma MapToDtoInjective(p: Product, q: Product)
    requires MapToDto(p) == MapToDto(q)
    ensures p == q
  {
  }

  /** Mapping a set of distinct products gives as many responses. */
  lemma {:induction false} MapToDtoKeepsCount(s: set<Product>)
    ensures |set p | p in s :: MapToDto(p)| == |s|
    decreases |s|
  {
    if s != {} {
      var x :| x in s;
      var rest := s - {x};
      MapToDtoKeepsCount(rest);
      assert (set p | p in s :: MapToDto(p)) == (set p | p in rest :: MapToDto(p)) + {MapToDto(x)};
      assert MapToDto(x) !in (set p | p in rest :: MapToDto(p)) by {
        forall p | p in rest ensures MapToDto(p) != MapToDto(x) {
          if MapToDto(p) == MapToDto(x) {
            MapToDtoInjective(p, x);
          }
        }
      }
    }
  }

  /**
   * The entity `CreateProductAsync` builds: the request's name, description,
   * price, category and stock flag, its tags or an empty list when it has
   * none, and no id yet (the repository assigns it).
   */
  function NewEntity(d: AddProductDto, now: Time): (p: Product)
    ensures p.id == EmptyId
    ensures p.name == d.name && p.description == d.description && p.price == d.price
    ensures p.category == d.category && p.inStock == d.inStock
    ensures d.tags.None? ==> p.tags == []
    ensures d.tags.Some? ==> p.tags == d.tags.value
    ensures p.updatedAt.None?
  {
    NewProduct(d.name, d.category, now).(
      description := d.description,
      price := d.price,
      tags := d.tags.GetOr([]),
      inStock := d.inStock)
  }

  /** A create request that passes validation yields a well-formed product. */
  lemma ValidRequestMakesWellFormedProduct(d: AddProductDto, now: Time)
    requires IsValidAdd(d)
    ensures IsWellFormed(NewEntity(d, now))
  {
  }

  /** A create request with only its required members yields an in-stock product without tags. */
  lemma MinimalRequestDefaults(name: string, price: Price, category: string, now: Time)
    ensures var p := NewEntity(NewAddProductDto(name, price, category), now);
      p.inStock && p.tags == [] && p.description.None?
  {
  }

  /**
   * The partial update of `UpdateProductAsync`: each property the request
   * supplies is overwritten, each one it omits keeps its value, and the id
   * and both time stamps are never touched.
   */
  function ApplyUpdate(p: Product, u: UpdateProductDto): (r: Product)
    ensures u.name.Some? ==> r.name == u.name.value
    ensures u.name.None? ==> r.name == p.name
    ensures u.description.Some? ==> r.description == u.description
    ensures u.description.None? ==> r.description == p.description
    ensures u.price.Some? ==> r.price == u.price.value
    ensures u.price.None? ==> r.price == p.price
    ensures u.category.Some? ==> r.category == u.category.value
    ensures u.category.None? ==> r.category == p.category
    ensures u.tags.Some? ==> r.tags == u.tags.value
    ensures u.tags.None? ==> r.tags == p.tags
    ensures u.inStock.Some? ==> r.inStock == u.inStock.value
    ensures u.inStock.None? ==> r.inStock == p.inStock
    ensures r.id == p.id && r.createdAt == p.createdAt && r.updatedAt == p.updatedAt
  {
    p.(name := u.name.GetOr(p.name),
       description := if u.description.Some? then u.description else p.description,
       price := u.price.GetOr(p.price),
       category := u.category.GetOr(p.category),
       tags := u.tags.GetOr(p.tags),
       inStock := u.inStock.GetOr(p.inStock))
  }

  /** An update that supplies nothing changes nothing. */
  lemma NoChangesIsIdentity(p: Product)
    ensures ApplyUpdate(p, NoChanges) == p
  {
  }

  /** Applying the same update twice is applying it once. */
  lemma ApplyUpdateIdempotent(p: Product, u: UpdateProductDto)
    ensures ApplyUpdate(ApplyUpdate(p, u), u) == ApplyUpdate(p, u)
  {
  }

  /** The update made of `second`'s supplied properties and, where it omits one, `first`'s. */
  function Overlay(first: UpdateProductDto, second: UpdateProductDto): (u: UpdateProductDto)
    ensures second == NoChanges ==> u == first
    ensures first == NoChanges ==> u == second
  {
    UpdateProductDto(
      if second.name.Some? then second.name else first.name,
      if second.description.Some? then second.description else first.description,
      if second.price.Some? then second.price else first.price,
      if second.category.Some? then second.category else first.category,
      if second.tags.Some? then second.tags else first.tags,
      if second.inStock.Some? then second.inStock else first.inStock)
  }

  /** Two updates in a row act as one update in which the later one wins. */
  lemma ApplyUpdateComposes(p: Product, first: UpdateProductDto, second: UpdateProductDto)
    ensures ApplyUpdate(ApplyUpdate(p, first), second) == ApplyUpdate(p, Overlay(first, second))
  {
  }

  /** An update supplying only a price changes the price and nothing else. */
  lemma PriceOnlyUpdate(p: Product, price: Price)
    ensures ApplyUpdate(p, NoChanges.(price := Some(price))) == p.(price := price)
  {
  }

  /** A validated update keeps a non-negative price non-negative. */
  lemma ValidUpdateKeepsPriceValid(p: Product, u: UpdateProductDto)
    requires IsValidPrice(p.price) && IsValidUpdate(u)
    ensures IsValidPrice(ApplyUpdate(p, u).price)
  {
  }

  /** The repository search `SearchProductsAsync` runs: query and category, no other filter. */
  function ForwardedCriteria(d: SearchProductDto): (c: SearchCriteria)
    ensures c.query == d.query && c.category == d.category
    ensures c.minPrice.None? && c.maxPrice.None? && c.inStock.None? && c.tags.None?
  {
    SearchCriteria(d.query, d.category, None, None, None, None)
  }

  /**
   * The service search keeps exactly the products the query and the
   * category both accept: the intersection of the two one-filter searches.
   */
  lemma ForwardedSearchIsQueryAndCategory(values: set<Product>, d: SearchProductDto)
    ensures forall p | p in values ::
      p in SearchIn(values, ForwardedCriteria(d)) <==> QueryAccepts(d.query, p) && CategoryAccepts(d.category, p)
    ensures SearchIn(values, ForwardedCriteria(d)) ==
      SearchIn(values, NoCriteria.(query := d.query)) * SearchIn(values, NoCriteria.(category := d.category))
  {
  }

  class ProductService {
    const repository: InMemoryProductRepository

    ghost predicate Valid()
      reads repository
    {
      repository.Valid()
    }

    constructor (repository: InMemoryProductRepository)
      ensures this.repository == repository
    {
      this.repository := repository;
    }

    /** `GetAllProductsAsync`: one response per stored product. */
    method GetAllProducts() returns (r: set<ProductDto>)
      requires Valid()
      ensures r == set p | p in repository.products.Values :: MapToDto(p)
      ensures |r| == |repository.products|
    {
      var products := repository.GetAll();
      r := set p | p in products :: MapToDto(p);
      MapToDtoKeepsCount(products);
    }

    /** `GetProductByIdAsync`: the response for the stored product, or `None` when there is none. */
    method GetProductById(id: Id) returns (r: Option<ProductDto>)
      requires Valid()
      ensures r.Some? <==> id in repository.products
      ensures r.Some? ==> r.value == MapToDto(repository.products[id]) && r.value.id == id
    {
      var product := repository.GetById(id);
      r := if product.Some? then Some(MapToDto(product.value)) else None;
    }

    /**
     * `CreateProductAsync`: builds the entity from the request and adds it;
     * the repository gives it `freshId` and the creation time `now`.
     */
    method CreateProduct(d: AddProductDto, freshId: Id, now: Time) returns (r: Result<ProductDto, RepoError>)
      requires Valid() && freshId != EmptyId
      modifies repository
      ensures Valid()
      ensures var stored := StampForAdd(NewEntity(d, now), freshId, now);
        && stored.id == freshId
        && (freshId in old(repository.products) ==>
              r == Failure(DuplicateId(freshId)) && repository.products == old(repository.products))
        && (freshId !in old(repository.products) ==>
              r == Success(MapToDto(stored)) && repository.products == old(repository.products)[freshId := stored])
    {
      var product := NewEntity(d, now);
      var created := repository.Add(product, freshId, now);
      match created
      case Success(p) => r := Success(MapToDto(p));
      case Failure(e) => r := Failure(e);
    }

    /**
     * `UpdateProductAsync`: `None` and no write when the id is unknown;
     * otherwise the stored product with the supplied properties overwritten,
     * its creation time kept and its update time set to `now`.
     */
    method UpdateProduct(id: Id, u: UpdateProductDto, now: Time) returns (r: Option<ProductDto>)
      requires Valid()
      modifies repository
      ensures Valid()
      ensures id !in old(repository.products) ==> r == None && repository.products == old(repository.products)
      ensures id in old(repository.products) ==>
        var existing := old(repository.products)[id];
        var stored := StampForUpdate(ApplyUpdate(existing, u), existing, now);
        && r == Some(MapToDto(stored))
        && repository.products == old(repository.products)[id := stored]
    {
      var existing := repository.GetById(id);
      if existing.None? {
        return None;
      }
      var product := existing.value;
      if u.name.Some? {
        product := product.(name := u.name.value);
      }
      if u.description.Some? {
        product := product.(description := u.description);
      }
      if u.price.Some? {
        product := product.(price := u.price.value);
      }
      if u.category.Some? {
        product := product.(category := u.category.value);
      }
      if u.tags.Some? {
        product := product.(tags := u.tags.value);
      }
      if u.inStock.Some? {
        product := product.(inStock := u.inStock.value);
      }
      var result, stamped := repository.Update(product, now);
      var success := result == Success(true);
      if !success {
        // The record was read just before and nothing ran in between, so in
        // this sequential model the repository cannot report a failure here.
        assert false;
      }
      r := Some(MapToDto(stamped));
    }

    /** `DeleteProductAsync`: exactly the repository's answer. */
    method DeleteProduct(id: Id) returns (deleted: bool)
      requires Valid()
      modifies repository
      ensures Valid()
      ensures deleted <==> id in old(repository.products)
      ensures repository.products == old(repository.products) - {id}
    {
      deleted := repository.Delete(id);
    }

    /** `SearchProductsAsync`: the responses for the repository search on query and category only. */
    method SearchProducts(d: SearchProductDto) returns (r: set<ProductDto>)
      ensures r == set p | p in SearchIn(repository.products.Values, ForwardedCriteria(d)) :: MapToDto(p)
      ensures forall p | p in repository.products.Values ::
        MapToDto(p) in r <==> QueryAccepts(d.query, p) && CategoryAccepts(d.category, p)
    {
      var products := repository.Search(ForwardedCriteria(d));
      r := set p | p in products :: MapToDto(p);
      ForwardedSearchIsQueryAndCategory(repository.products.Values, d);
      forall p | p in repository.products.Values && MapToDto(p) in r
        ensures p in products
      {
        var q :| q in products && MapToDto(q) == MapToDto(p);
        MapToDtoInjective(p, q);
      }
    }
  }

  /**
   * Creating a product and fetching it by the id it was given returns the
   * request's properties, the generated id, the creation time and no update time.
   */
  method CreateThenFetch(service: ProductService, d: AddProductDto, freshId: Id, now: Time)
    returns (created: Result<ProductDto, RepoError>, fetched: Option<ProductDto>)
    requires service.Valid() && freshId != EmptyId
    modifies service.repository
    ensures created.Success? ==> fetched == Some(created.value)
    ensures created.Success? ==>
      var c := created.value;
      && c.id == freshId && c.createdAt == now && c.updatedAt.None?
      && c.name == d.name && c.description == d.description && c.price == d.price
      && c.category == d.category && c.tags == d.tags.GetOr([]) && c.inStock == d.inStock
  {
    created := service.CreateProduct(d, freshId, now);
    if created.Success? {
      fetched := service.GetProductById(created.value.id);
    } else {
      fetched := None;
    }
  }

  /** An update that supplies only a price leaves every other property and the creation time alone. */
  method UpdatePriceOnly(service: ProductService, id: Id, price: Price, now: Time) returns (r: Option<ProductDto>)
    requires service.Valid()
    modifies service.repository
    ensures r.Some? <==> id in old(service.repository.products)
    ensures r.Some? ==>
      r.value == MapToDto(old(service.repository.products)[id].(price := price, updatedAt := Some(now)))
  {
    r := service.UpdateProduct(id, NoChanges.(price := Some(price)), now);
  }
}
