/**
 * The in-memory product repository: a table from product id to product,
 * seeded with three sample products, with add, get, update, delete and a
 * filtered search. The repository interface's documented promises
 * (found-or-null, true-iff-updated, true-iff-deleted, the added product
 * carries its generated id) are the contracts of the class's methods.
 */
module Repository {
  import opened Wrappers
  import opened Text
  import opened Domain

  /** The two exceptions the repository raises. */
  datatype RepoError =
    | DuplicateId(id: Id)  // add: a product with this id already exists
    | EmptyIdRejected      // update: the product id is `Guid.Empty`

  type Store = map<Id, Product>

  /** Every product is stored under its own id, and no key is the empty id. */
  ghost predicate WellKeyed(m: Store) {
    forall id | id in m :: id != EmptyId && m[id].id == id
  }

  /** A well-keyed table holds as many distinct products as it has keys. */
  lemma {:induction false} WellKeyedValuesCount(m: Store)
    requires WellKeyed(m)
    ensures |m.Values| == |m|
    decreases |m|
  {
    if m != map[] {
      var k :| k in m;
      var rest := m - {k};
      WellKeyedValuesCount(rest);
      forall v | v in m.Values
        ensures v in rest.Values + {m[k]}
      {
        var j :| j in m && m[j] == v;
        if j != k {
          assert rest[j] == v;
        }
      }
      forall v | v in rest.Values
        ensures v in m.Values
      {
        var j :| j in rest && rest[j] == v;
        assert m[j] == v;
      }
      assert m.Values == rest.Values + {m[k]};
      assert m[k] !in rest.Values;
      assert m.Keys == rest.Keys + {k};
    }
  }

  /**
   * The product as `AddAsync` leaves it: an empty id is replaced by the
   * freshly generated one, a given id is kept, and the creation time is
   * the clock reading whatever it was before. Nothing else changes.
   */
  function StampForAdd(p: Product, freshId: Id, now: Time): (r: Product)
    ensures p.id != EmptyId ==> r.id == p.id
    ensures p.id == EmptyId ==> r.id == freshId
    ensures r.createdAt == now
    ensures r.(id := p.id, createdAt := p.createdAt) == p
  {
    p.(id := if p.id == EmptyId then freshId else p.id, createdAt := now)
  }

  /**
   * The product as `UpdateAsync` stores it: the creation time of the record
   * it replaces and the clock reading as update time. Nothing else changes.
   */
  function StampForUpdate(p: Product, existing: Product, now: Time): (r: Product)
    ensures r.createdAt == existing.createdAt
    ensures r.updatedAt == Some(now)
    ensures r.(createdAt := p.createdAt, updatedAt := p.updatedAt) == p
  {
    p.(createdAt := existing.createdAt, updatedAt := Some(now))
  }

  // ---------------------------------------------------------------------
  // Search

  /** The optional filters of `SearchAsync`; `None` is a `null` argument. */
  datatype SearchCriteria = SearchCriteria(
    query: Option<string>,
    category: Option<string>,
    minPrice: Option<Price>,
    maxPrice: Option<Price>,
    inStock: Option<bool>,
    tags: Option<seq<string>>)

  /** Every filter left out. */
  const NoCriteria := SearchCriteria(None, None, None, None, None, None)

  /** The lower-cased name, or the lower-cased description when there is one, contains `lowerQuery`. */
  predicate MatchesText(p: Product, lowerQuery: string) {
    || Contains(ToLower(p.name), lowerQuery)
    || (p.description.Some? && Contains(ToLower(p.description.value), lowerQuery))
  }

  /** One of the product's tags equals `tag`, ignoring case. */
  predicate HasTagIgnoringCase(p: Product, tag: string) {
    exists t | t in p.tags :: EqualsIgnoreCase(t, tag)
  }

  /** Some search tag is among the product's tags, ignoring case. */
  predicate HasAnyTag(p: Product, searchTags: seq<string>) {
    exists tag | tag in searchTags :: HasTagIgnoringCase(p, tag)
  }

  // Each filter on its own: an absent filter (or a blank text filter, or an
  // empty tag list) accepts every product.

  predicate QueryAccepts(query: Option<string>, p: Product) {
    IsNullOrWhiteSpace(query) || MatchesText(p, ToLower(query.value))
  }

  predicate CategoryAccepts(category: Option<string>, p: Product) {
    IsNullOrWhiteSpace(category) || EqualsIgnoreCase(p.category, category.value)
  }

  predicate MinPriceAccepts(minPrice: Option<Price>, p: Product) {
    minPrice.None? || minPrice.value <= p.price
  }

  predicate MaxPriceAccepts(maxPrice: Option<Price>, p: Product) {
    maxPrice.None? || p.price <= maxPrice.value
  }

  predicate InStockAccepts(inStock: Option<bool>, p: Product) {
    inStock.None? || p.inStock == inStock.value
  }

  predicate TagsAccept(tags: Option<seq<string>>, p: Product) {
    tags.None? || tags.value == [] || HasAnyTag(p, tags.value)
  }

  /** The product passes every supplied filter. */
  predicate Satisfies(p: Product, c: SearchCriteria) {
    && QueryAccepts(c.query, p)
    && CategoryAccepts(c.category, p)
    && MinPriceAccepts(c.minPrice, p)
    && MaxPriceAccepts(c.maxPrice, p)
    && InStockAccepts(c.inStock, p)
    && TagsAccept(c.tags, p)
  }

  /** No supplied filter constrains anything. */
  predicate ImposesNothing(c: SearchCriteria) {
    && IsNullOrWhiteSpace(c.query)
    && IsNullOrWhiteSpace(c.category)
    && c.minPrice.None? && c.maxPrice.None? && c.inStock.None?
    && (c.tags.None? || c.tags.value == [])
  }

  // One `Where` step per filter: each keeps exactly the products its filter accepts.

  function WhereQuery(s: set<Product>, query: Option<string>): (r: set<Product>)
    ensures forall p :: p in r <==> p in s && QueryAccepts(query, p)
  {
    if IsNullOrWhiteSpace(query) then s
    else var lowerQuery := ToLower(query.value); set p | p in s && MatchesText(p, lowerQuery)
  }

  function WhereCategory(s: set<Product>, category: Option<string>): (r: set<Product>)
    ensures forall p :: p in r <==> p in s && CategoryAccepts(category, p)
  {
    if IsNullOrWhiteSpace(category) then s
    else var lowerCategory := ToLower(category.value); set p | p in s && ToLower(p.category) == lowerCategory
  }

  function WhereMinPrice(s: set<Product>, minPrice: Option<Price>): (r: set<Product>)
    ensures forall p :: p in r <==> p in s && MinPriceAccepts(minPrice, p)
  {
    if minPrice.None? then s else set p | p in s && p.price >= minPrice.value
  }

  function WhereMaxPrice(s: set<Product>, maxPrice: Option<Price>): (r: set<Product>)
    ensures forall p :: p in r <==> p in s && MaxPriceAccepts(maxPrice, p)
  {
    if maxPrice.None? then s else set p | p in s && p.price <= maxPrice.value
  }

  function WhereInStock(s: set<Product>, inStock: Option<bool>): (r: set<Product>)
    ensures forall p :: p in r <==> p in s && InStockAccepts(inStock, p)
  {
    if inStock.None? then s else set p | p in s && p.inStock == inStock.value
  }

  function WhereTags(s: set<Product>, tags: Option<seq<string>>): (r: set<Product>)
    ensures forall p :: p in r <==> p in s && TagsAccept(tags, p)
  {
    if tags.None? || tags.value == [] then s else set p | p in s && HasAnyTag(p, tags.value)
  }

  /**
   * `SearchAsync` over the stored values: the filters applied one after the
   * other. The result is the set of stored products that pass every supplied
   * filter; with no filter it is everything.
   */
  function SearchIn(values: set<Product>, c: SearchCriteria): (r: set<Product>)
    ensures r <= values
    ensures forall p | p in values :: p in r <==> Satisfies(p, c)
    ensures ImposesNothing(c) ==> r == values
  {
    var byQuery := WhereQuery(values, c.query);
    var byCategory := WhereCategory(byQuery, c.category);
    var byMinPrice := WhereMinPrice(byCategory, c.minPrice);
    var byMaxPrice := WhereMaxPrice(byMinPrice, c.maxPrice);
    var byStock := WhereInStock(byMaxPrice, c.inStock);
    WhereTags(byStock, c.tags)
  }

  /** Searching with several filters is the intersection of searching with each one alone. */
  lemma SearchIsConjunction(values: set<Product>, c: SearchCriteria)
    ensures SearchIn(values, c) ==
      SearchIn(values, NoCriteria.(query := c.query))
      * SearchIn(values, NoCriteria.(category := c.category))
      * SearchIn(values, NoCriteria.(minPrice := c.minPrice))
      * SearchIn(values, NoCriteria.(maxPrice := c.maxPrice))
      * SearchIn(values, NoCriteria.(inStock := c.inStock))
      * SearchIn(values, NoCriteria.(tags := c.tags))
  {
  }

  /** The text query is case-insensitive: lower-casing it first changes no result. */
  lemma QueryIgnoresCase(values: set<Product>, c: SearchCriteria, q: string)
    ensures SearchIn(values, c.(query := Some(q))) == SearchIn(values, c.(query := Some(ToLower(q))))
  {
    ToLowerIdempotent(q);
    ToLowerKeepsBlank(q);
  }

  /** The text query matches exactly the products whose name or description has it at some position. */
  lemma QueryMatchesSubstring(p: Product, q: string)
    requires !IsBlank(q)
    ensures QueryAccepts(Some(q), p) <==>
      OccursIn(ToLower(p.name), ToLower(q)) ||
      (p.description.Some? && OccursIn(ToLower(p.description.value), ToLower(q)))
  {
    var lowerQuery := ToLower(q);
    assert QueryAccepts(Some(q), p) == MatchesText(p, lowerQuery);
    ContainsIffOccurs(ToLower(p.name), lowerQuery);
    if p.description.Some? {
      ContainsIffOccurs(ToLower(p.description.value), lowerQuery);
    }
  }

  // ---------------------------------------------------------------------
  // Seeding

  /** `TryAdd`: stores `p` under its id unless that id is already taken. */
  function TryAdd(m: Store, p: Product): (r: Store)
    ensures p.id in r && r.Keys == m.Keys + {p.id}
    ensures p.id !in m ==> r[p.id] == p
    ensures forall id | id in m :: r[id] == m[id]
  {
    if p.id in m then m else m[p.id := p]
  }

  /** The products `TryAdd`ed one after the other, in order. */
  function InsertAll(m: Store, ps: seq<Product>): (r: Store)
    ensures m.Keys <= r.Keys
  {
    if ps == [] then m else TryAdd(InsertAll(m, ps[..|ps| - 1]), ps[|ps| - 1])
  }

  /** The ids of `ps`: exactly the ids some product in `ps` carries. */
  function IdsOf(ps: seq<Product>): (r: set<Id>)
    ensures forall i | 0 <= i < |ps| :: ps[i].id in r
    ensures forall id | id in r :: exists i | 0 <= i < |ps| :: ps[i].id == id
  {
    if ps == [] then {}
    else
      var front := ps[..|ps| - 1];
      var r := IdsOf(front) + {ps[|ps| - 1].id};
      assert forall i | 0 <= i < |front| :: front[i] == ps[i];
      r
  }

  /** Inserting adds exactly the products' ids as keys and never overwrites an entry. */
  lemma {:induction false} InsertAllKeys(m: Store, ps: seq<Product>)
    ensures InsertAll(m, ps).Keys == m.Keys + IdsOf(ps)
    ensures forall id | id in m :: InsertAll(m, ps)[id] == m[id]
  {
    if ps != [] {
      InsertAllKeys(m, ps[..|ps| - 1]);
    }
  }

  /** Inserting products none of which has the empty id keeps the table well keyed. */
  lemma {:induction false} InsertAllWellKeyed(m: Store, ps: seq<Product>)
    requires WellKeyed(m)
    requires forall i | 0 <= i < |ps| :: ps[i].id != EmptyId
    ensures WellKeyed(InsertAll(m, ps))
  {
    if ps != [] {
      InsertAllWellKeyed(m, ps[..|ps| - 1]);
    }
  }

  /** Products with pairwise distinct ids that are not yet keys are each stored as given. */
  lemma {:induction false} InsertAllStoresEach(m: Store, ps: seq<Product>)
    requires forall i | 0 <= i < |ps| :: ps[i].id !in m
    requires forall i, j | 0 <= i < j < |ps| :: ps[i].id != ps[j].id
    ensures forall i | 0 <= i < |ps| :: ps[i].id in InsertAll(m, ps) && InsertAll(m, ps)[ps[i].id] == ps[i]
  {
    if ps != [] {
      var front := ps[..|ps| - 1];
      var last := ps[|ps| - 1];
      assert ps == front + [last];
      InsertAllStoresEach(m, front);
      InsertAllKeys(m, front);
      var before := InsertAll(m, front);
      assert last.id !in IdsOf(front);
      assert last.id !in before;
      assert InsertAll(m, ps) == before[last.id := last];
    }
  }

  /**
   * The three sample products, with the generated ids `ids`; sample `i` is
   * created at `times[i]`, the clock reading its own initialiser takes.
   */
  function SampleProducts(ids: seq<Id>, times: seq<Time>): (ps: seq<Product>)
    requires |ids| == 3 && |times| == 3
    ensures |ps| == 3
    ensures forall i | 0 <= i < 3 :: ps[i].id == ids[i] && ps[i].createdAt == times[i] && ps[i].updatedAt.None?
  {
    [ Product(ids[0], "Laptop", Some("High-performance laptop with the latest processor"),
              120000, "Electronics", ["computer", "tech", "portable"], true, times[0], None),
      Product(ids[1], "Smartphone", Some("Latest smartphone with high-resolution camera"),
              80000, "Electronics", ["mobile", "tech", "phone"], true, times[1], None),
      Product(ids[2], "Coffee Table", Some("Elegant coffee table made of solid wood"),
              25000, "Furniture", ["table", "wood", "living room"], true, times[2], None) ]
  }

  /** With three distinct non-empty ids, the seeded table holds exactly the three samples. */
  lemma SeededCatalog(ids: seq<Id>, times: seq<Time>)
    requires |ids| == 3 && |times| == 3 && ids[0] != ids[1] && ids[0] != ids[2] && ids[1] != ids[2]
    requires EmptyId !in ids
    ensures var m := InsertAll(map[], SampleProducts(ids, times));
      && WellKeyed(m)
      && m.Keys == {ids[0], ids[1], ids[2]}
      && forall i | 0 <= i < 3 :: m[ids[i]] == SampleProducts(ids, times)[i]
  {
    var ps := SampleProducts(ids, times);
    InsertAllKeys(map[], ps);
    InsertAllWellKeyed(map[], ps);
    InsertAllStoresEach(map[], ps);
    assert IdsOf(ps) == {ids[0], ids[1], ids[2]};
  }

  // ---------------------------------------------------------------------
  // The repository

  class InMemoryProductRepository {
    var products: Store

    ghost predicate Valid()
      reads this
    {
      WellKeyed(products)
    }

    /**
     * A repository holding the three sample products; `seedIds` are the
     * GUIDs generated for them and `seedTimes` the clock readings of their
     * creation times.
     */
    constructor (seedIds: seq<Id>, seedTimes: seq<Time>)
      requires |seedIds| == 3 && |seedTimes| == 3 && EmptyId !in seedIds
      ensures Valid()
      ensures products == InsertAll(map[], SampleProducts(seedIds, seedTimes))
    {
      products := map[];
      new;
      SeedData(seedIds, seedTimes);
    }

    /** `TryAdd`s each sample product in turn; a sample whose id is taken is skipped. */
    method SeedData(seedIds: seq<Id>, seedTimes: seq<Time>)
      requires Valid()
      requires |seedIds| == 3 && |seedTimes| == 3 && EmptyId !in seedIds
      modifies this
      ensures Valid()
      ensures products == InsertAll(old(products), SampleProducts(seedIds, seedTimes))
    {
      var samples := SampleProducts(seedIds, seedTimes);
      for i := 0 to |samples|
        invariant Valid()
        invariant products == InsertAll(old(products), samples[..i])
      {
        assert samples[..i + 1][..i] == samples[..i];
        if samples[i].id !in products {
          products := products[samples[i].id := samples[i]];
        }
      }
      assert samples[..|samples|] == samples;
    }

    /** `GetAllAsync`: every stored product, one per key. */
    method GetAll() returns (r: set<Product>)
      requires Valid()
      ensures r == products.Values
      ensures |r| == |products|
    {
      r := products.Values;
      WellKeyedValuesCount(products);
    }

    /** `GetByIdAsync`: the product stored under `id`, or `None` when there is none. */
    method GetById(id: Id) returns (r: Option<Product>)
      requires Valid()
      ensures r.Some? <==> id in products
      ensures r.Some? ==> r.value == products[id] && r.value.id == id
    {
      if id in products {
        r := Some(products[id]);
      } else {
        r := None;
      }
    }

    /**
     * `AddAsync`: stamps the product (id if empty, creation time) and stores
     * it under its id, failing with `DuplicateId` and changing nothing when
     * the id is already a key. `freshId` is the result of `Guid.NewGuid`,
     * which is never `Guid.Empty`.
     */
    method Add(product: Product, freshId: Id, now: Time) returns (r: Result<Product, RepoError>)
      requires Valid()
      requires freshId != EmptyId
      modifies this
      ensures Valid()
      ensures var stamped := StampForAdd(product, freshId, now);
        && (stamped.id in old(products) ==> r == Failure(DuplicateId(stamped.id)) && products == old(products))
        && (stamped.id !in old(products) ==> r == Success(stamped) && products == old(products)[stamped.id := stamped])
    {
      var p := product.(id := if product.id == EmptyId then freshId else product.id);
      p := p.(createdAt := now);
      if p.id in products {
        r := Failure(DuplicateId(p.id));
        return;
      }
      products := products[p.id := p];
      r := Success(p);
    }

    /**
     * `UpdateAsync`: rejects the empty id, returns `false` and changes
     * nothing when the id is not a key, and otherwise replaces the stored
     * record, keeping its creation time and stamping the update time, and
     * returns `true`. `stamped` is the argument as the method leaves it
     * (the source stamps the caller's object in place).
     */
    method Update(product: Product, now: Time) returns (r: Result<bool, RepoError>, stamped: Product)
      requires Valid()
      modifies this
      ensures Valid()
      ensures product.id == EmptyId ==>
        r == Failure(EmptyIdRejected) && stamped == product && products == old(products)
      ensures product.id != EmptyId && product.id !in old(products) ==>
        r == Success(false) && stamped == product && products == old(products)
      ensures product.id != EmptyId && product.id in old(products) ==>
        && stamped == StampForUpdate(product, old(products)[product.id], now)
        && r == Success(true)
        && products == old(products)[product.id := stamped]
    {
      stamped := product;
      if product.id == EmptyId {
        r := Failure(EmptyIdRejected);
        return;
      }
      if product.id !in products {
        r := Success(false);
        return;
      }
      var existing := products[product.id];
      stamped := stamped.(createdAt := existing.createdAt);
      stamped := stamped.(updatedAt := Some(now));
      products := products[product.id := stamped];
      r := Success(true);
    }

    /** `DeleteAsync`: removes the key and returns whether it was present. */
    method Delete(id: Id) returns (deleted: bool)
      requires Valid()
      modifies this
      ensures Valid()
      ensures deleted <==> id in old(products)
      ensures products == old(products) - {id}
    {
      deleted := id in products;
      products := products - {id};
    }

    /** `SearchAsync`: the stored products that pass every supplied filter. */
    method Search(criteria: SearchCriteria) returns (r: set<Product>)
      ensures r <= products.Values
      ensures forall p | p in products.Values :: p in r <==> Satisfies(p, criteria)
      ensures r == SearchIn(products.Values, criteria)
    {
      r := SearchIn(products.Values, criteria);
    }
  }

  /** An added product carries a non-empty id, and looking that id up finds it. */
  method AddThenGetById(repo: InMemoryProductRepository, product: Product, freshId: Id, now: Time)
    returns (added: Result<Product, RepoError>, found: Option<Product>)
    requires repo.Valid() && freshId != EmptyId
    modifies repo
    ensures repo.Valid()
    ensures added.Success? ==> added.value.id != EmptyId && found == Some(added.value)
    ensures added.Failure? ==> repo.products == old(repo.products)
  {
    added := repo.Add(product, freshId, now);
    if added.Success? {
      found := repo.GetById(added.value.id);
    } else {
      found := None;
    }
  }

  /** After a delete, looking the id up finds nothing. */
  method DeleteThenGetById(repo: InMemoryProductRepository, id: Id) returns (deleted: bool, found: Option<Product>)
    requires repo.Valid()
    modifies repo
    ensures deleted <==> id in old(repo.products)
    ensures found == None
  {
    deleted := repo.Delete(id);
    found := repo.GetById(id);
  }
}
