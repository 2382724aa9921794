# Product catalogue: a Dafny model

This project models the core of a product-catalogue service: the
`Product` entity and its request/response shapes, the in-memory product
repository (a table from product id to product, seeded with three sample
products, with add, get, update, delete and a filtered search), the
application service that builds products from create requests, applies
partial updates and maps products to responses, and the tag editing of
the client's product form.

Modules, one per source file:

| file | module | models |
|---|---|---|
| `wrappers.dfy` | `Wrappers` | `null`/`Nullable<T>` as `Option`, exceptions as `Result` |
| `text.dfy` | `Text` | `ToLowerInvariant`, `OrdinalIgnoreCase`, `IsNullOrWhiteSpace`, `trim()`, `string.Contains` on ASCII |
| `product.dfy` | `Domain` | `Product.cs` |
| `product_dtos.dfy` | `Dtos` | `ProductDtos.cs` and its data-annotation rules |
| `in_memory_product_repository.dfy` | `Repository` | `InMemoryProductRepository.cs`, with the contracts documented in `IProductRepository.cs` |
| `product_service.dfy` | `Service` | `ProductService.cs` |
| `product_form.dfy` | `ProductForm` | `handleInputChange`, `addTag` and `removeTag` of `ProductForm.tsx` |

Abstractions:

- A GUID is a `nat`; `Guid.Empty` is `0`. `Guid.NewGuid()` results are
  method parameters (`freshId`, `seedIds`) that are never `0`; a fresh id
  that happens to be a key already exercises the duplicate-key failure.
- `DateTime.UtcNow` is a parameter `now` (an `int` of clock ticks).
- A `decimal` price is an `int` counted in hundredths.
- The repository is a class whose field `products: map<Id, Product>`
  stands for the `ConcurrentDictionary`; its invariant `Valid()` says that
  every product is stored under its own id and no key is `Guid.Empty`.
  `TryAdd`, `TryUpdate` and `TryRemove` are the map updates they amount to
  when one request runs at a time.
- Exceptions (`InvalidOperationException` on a duplicate id,
  `ArgumentException` on an update with the empty id) are `Failure`
  values of `Result`.
- `GetAllAsync` and `SearchAsync` return a `set` of products: the
  dictionary's enumeration order is unspecified, and the invariant makes
  stored products pairwise distinct, so no element is lost.
- The service's update works on values: it fetches the stored product,
  merges the request into a copy and hands the copy to the repository's
  update. In the source the fetched object is the stored object itself,
  changed field by field in place before `UpdateAsync` compares it with
  itself; the final table is the same.
- `[Required]` on a string follows ASP.NET's default: the value must not
  be null, empty or white space only. A JSON `null` for a required string
  is read as the empty string, which validation rejects alike.

Two consequences of the code are worth stating. `UpdateProductDto`'s
`Name` and `Category` carry no `[Required]` annotation
(ProductDtos.cs:71, 87), so an update can store a blank name or category
(`ApplyUpdate` overwrites with whatever is supplied), although a created
product always has both. And the branch of ProductService.cs:105-109
that reports a failed repository update cannot be taken in a sequential
run: the record was read just before. `UpdateProduct` proves that branch
unreachable.

## Model

| member | source | states |
|---|---|---|
| `Text.ToLower` | ProductAPI/Infrastructure/Repositories/InMemoryProductRepository.cs:118-127 | `ToLowerInvariant`: same length, each character lower-cased, no upper-case letter left |
| `Text.ToLowerIdempotent` | ProductAPI/Infrastructure/Repositories/InMemoryProductRepository.cs:118-121 | lower-casing an already lower-cased string changes nothing |
| `Text.ToLowerKeepsBlank` | ProductAPI/Infrastructure/Repositories/InMemoryProductRepository.cs:116-118 | a string is blank exactly when its lower-cased form is |
| `Text.Trim` | ProductClient/src/components/ProductForm.tsx:46 | `trim()`: the result is a middle part of the input with only white space cut from either end; it is empty exactly when the input is blank, otherwise it neither starts nor ends with white space |
| `Text.TrimIdempotent` | ProductClient/src/components/ProductForm.tsx:46-49 | trimming a trimmed tag changes nothing |
| `Text.ContainsIffOccurs` | ProductAPI/Infrastructure/Repositories/InMemoryProductRepository.cs:120-121 | `Contains` holds exactly when the needle occurs at some index, both directions |
| `Domain.NewProduct` | ProductAPI/Domain/Product.cs:19-54 | name and category are the required members; a new product has no id, an empty tag list, is in stock, and has no update time |
| `Dtos.IsSupplied` | ProductAPI/Application/DTOs/ProductDtos.cs:15-16 | `[Required]` on a string holds exactly when some character is not white space, equivalently when trimming leaves text |
| `Dtos.IsValidAdd` | ProductAPI/Application/DTOs/ProductDtos.cs:15-34 | a create request is valid exactly when its name and category trim to non-empty text and its price is not negative (`[Range(0, …)]` through `IsValidPrice`) |
| `Dtos.IsValidUpdate` | ProductAPI/Application/DTOs/ProductDtos.cs:81-82 | an update request is valid exactly when its price is omitted or not negative; no other member is checked |
| `Dtos.NewAddProductDto` | ProductAPI/Application/DTOs/ProductDtos.cs:10-45 | a create request that omits them has no description, absent tags and in-stock set to true |
| `Repository.WellKeyedValuesCount` | ProductAPI/Infrastructure/Repositories/InMemoryProductRepository.cs:31-35 | a table keyed by product id holds as many distinct products as keys |
| `Repository.StampForAdd` | ProductAPI/Infrastructure/Repositories/InMemoryProductRepository.cs:51-52 | an empty id becomes the generated id, a given id is kept, created-at is always the current time, nothing else changes |
| `Repository.StampForUpdate` | ProductAPI/Infrastructure/Repositories/InMemoryProductRepository.cs:80-81 | created-at is taken from the replaced record, updated-at is the current time, nothing else changes |
| `Repository.WhereQuery` | ProductAPI/Infrastructure/Repositories/InMemoryProductRepository.cs:116-122 | keeps exactly the products whose lower-cased name or non-null description contains the lower-cased query; a null or blank query keeps all |
| `Repository.WhereCategory` | ProductAPI/Infrastructure/Repositories/InMemoryProductRepository.cs:124-128 | keeps exactly the products whose category equals the given one ignoring case; a null or blank category keeps all |
| `Repository.WhereMinPrice` | ProductAPI/Infrastructure/Repositories/InMemoryProductRepository.cs:130-133 | keeps exactly the products priced at least the minimum, when one is given |
| `Repository.WhereMaxPrice` | ProductAPI/Infrastructure/Repositories/InMemoryProductRepository.cs:135-138 | keeps exactly the products priced at most the maximum, when one is given |
| `Repository.WhereInStock` | ProductAPI/Infrastructure/Repositories/InMemoryProductRepository.cs:140-143 | keeps exactly the products with the given stock flag, when one is given |
| `Repository.WhereTags` | ProductAPI/Infrastructure/Repositories/InMemoryProductRepository.cs:145-149 | keeps exactly the products having some search tag among their tags ignoring case; a null or empty tag list keeps all |
| `Repository.SearchIn` | ProductAPI/Infrastructure/Repositories/InMemoryProductRepository.cs:112-151 | results are a subset of the stored products, a stored product is a result exactly when it passes every supplied filter, and with no filter supplied every product is returned |
| `Repository.SearchIsConjunction` | ProductAPI/Domain/Repositories/IProductRepository.cs:47-63 | every filter is optional and the filters are ANDed: the result is the intersection of the six one-filter searches |
| `Repository.QueryIgnoresCase` | ProductAPI/Infrastructure/Repositories/InMemoryProductRepository.cs:116-122 | lower-casing the query first changes no search result |
| `Repository.QueryMatchesSubstring` | ProductAPI/Infrastructure/Repositories/InMemoryProductRepository.cs:119-121 | a non-blank query accepts a product exactly when it occurs at some index of the lower-cased name or description |
| `Repository.TryAdd` | ProductAPI/Infrastructure/Repositories/InMemoryProductRepository.cs:195 | adds the product's id as a key, stores it only when the id was free, never overwrites an entry |
| `Repository.InsertAll` | ProductAPI/Infrastructure/Repositories/InMemoryProductRepository.cs:193-196 | `TryAdd`ing the products in order never loses an existing key (the exact key set and the untouched entries are `InsertAllKeys`) |
| `Repository.InsertAllKeys` | ProductAPI/Infrastructure/Repositories/InMemoryProductRepository.cs:193-196 | seeding adds exactly the products' ids as keys and never overwrites an entry |
| `Repository.InsertAllWellKeyed` | ProductAPI/Infrastructure/Repositories/InMemoryProductRepository.cs:193-196 | seeding products with non-empty ids keeps the table keyed by id |
| `Repository.InsertAllStoresEach` | ProductAPI/Infrastructure/Repositories/InMemoryProductRepository.cs:193-196 | products with distinct fresh ids are each stored as given |
| `Repository.SampleProducts` | ProductAPI/Infrastructure/Repositories/InMemoryProductRepository.cs:156-191 | three samples carrying the generated ids, each its own clock reading as creation time, and no update time |
| `Repository.SeededCatalog` | ProductAPI/Infrastructure/Repositories/InMemoryProductRepository.cs:154-199 | with three distinct generated ids the seeded table holds exactly the three samples |
| `Repository.InMemoryProductRepository.constructor` | ProductAPI/Infrastructure/Repositories/InMemoryProductRepository.cs:24-28 | a new repository holds the seeded samples, stamped with the given ids and clock readings, and is well keyed |
| `Repository.InMemoryProductRepository.SeedData` | ProductAPI/Infrastructure/Repositories/InMemoryProductRepository.cs:193-196 | the loop `TryAdd`s the samples in order, skipping a taken id |
| `Repository.InMemoryProductRepository.GetAll` | ProductAPI/Infrastructure/Repositories/InMemoryProductRepository.cs:31-35 | every stored product, one per key |
| `Repository.InMemoryProductRepository.GetById` | ProductAPI/Infrastructure/Repositories/InMemoryProductRepository.cs:38-43 | the stored product when the id is a key, otherwise none (not an error); a found product carries the id asked for |
| `Repository.InMemoryProductRepository.Add` | ProductAPI/Infrastructure/Repositories/InMemoryProductRepository.cs:46-62 | a taken id fails with "already exists" and leaves the table unchanged; otherwise the stamped product is stored under its id, returned, and no other entry changes |
| `Repository.InMemoryProductRepository.Update` | ProductAPI/Infrastructure/Repositories/InMemoryProductRepository.cs:65-86 | the empty id is rejected; an unknown id returns false and changes nothing; otherwise the record is replaced under the same id with the old created-at and updated-at now, other keys untouched, and true is returned |
| `Repository.InMemoryProductRepository.Delete` | ProductAPI/Infrastructure/Repositories/InMemoryProductRepository.cs:89-94 | returns true exactly when the id was a key; afterwards the id is absent and every other entry is unchanged |
| `Repository.InMemoryProductRepository.Search` | ProductAPI/Infrastructure/Repositories/InMemoryProductRepository.cs:97-152 | the stored products passing every supplied filter |
| `Repository.AddThenGetById` | ProductAPI/Domain/Repositories/IProductRepository.cs:19-31 | an added product carries a non-empty generated id and get-by-id then finds it; a failed add changes nothing |
| `Repository.DeleteThenGetById` | ProductAPI/Domain/Repositories/IProductRepository.cs:40-45 | delete answers whether the product existed, and get-by-id afterwards finds nothing |
| `Service.MapToDto` | ProductAPI/Application/Services/ProductService.cs:146-160 | the response carries id, name, description, price, category, tags, in-stock, created-at and updated-at unchanged |
| `Service.MapToDtoInjective` | ProductAPI/Application/Services/ProductService.cs:146-160 | distinct products map to distinct responses |
| `Service.MapToDtoKeepsCount` | ProductAPI/Application/Services/ProductService.cs:32-37 | mapping a set of products gives as many responses |
| `Service.NewEntity` | ProductAPI/Application/Services/ProductService.cs:55-63 | copies name, description, price, category and in-stock; null tags become an empty list; the id is left empty for the repository |
| `Service.ValidRequestMakesWellFormedProduct` | ProductAPI/Application/DTOs/ProductDtos.cs:15-34 | a create request with name and category present and price at least zero yields a product with those properties |
| `Service.MinimalRequestDefaults` | ProductAPI/Application/DTOs/ProductDtos.cs:39-44 | a request that omits tags and in-stock yields an in-stock product with no tags |
| `Service.ApplyUpdate` | ProductAPI/Application/Services/ProductService.cs:85-101 | each supplied property (non-null string or list, price or in-stock with a value) is overwritten, each omitted one keeps its value, id and time stamps are untouched |
| `Service.NoChangesIsIdentity` | ProductAPI/Application/Services/ProductService.cs:85-101 | an update supplying nothing leaves the product as it was |
| `Service.ApplyUpdateIdempotent` | ProductAPI/Application/Services/ProductService.cs:85-101 | applying the same update twice is applying it once |
| `Service.ApplyUpdateComposes` | ProductAPI/Application/Services/ProductService.cs:85-101 | two updates in a row act as one where the later supplied properties win |
| `Service.PriceOnlyUpdate` | ProductAPI/Application/Services/ProductService.cs:91-92 | an update carrying only a price changes the price and nothing else |
| `Service.ValidUpdateKeepsPriceValid` | ProductAPI/Application/DTOs/ProductDtos.cs:81-82 | a validated update keeps a non-negative price non-negative |
| `Service.ForwardedCriteria` | ProductAPI/Application/Services/ProductService.cs:130-136 | query and category are forwarded; min-price, max-price, in-stock and tags are null |
| `Service.ForwardedSearchIsQueryAndCategory` | ProductAPI/Application/Services/ProductService.cs:130-138 | the service search equals the repository search with only query and category, i.e. the intersection of the query search and the category search |
| `Service.ProductService.constructor` | ProductAPI/Application/Services/ProductService.cs:25-29 | the service delegates to the given repository |
| `Service.ProductService.GetAllProducts` | ProductAPI/Application/Services/ProductService.cs:32-37 | one response per stored product |
| `Service.ProductService.GetProductById` | ProductAPI/Application/Services/ProductService.cs:40-45 | the response for the stored product, or none when the id is unknown |
| `Service.ProductService.CreateProduct` | ProductAPI/Application/Services/ProductService.cs:48-67 | the built entity is added with the generated id and current time; a taken id fails and changes nothing, otherwise the response of the stored product is returned |
| `Service.ProductService.UpdateProduct` | ProductAPI/Application/Services/ProductService.cs:70-112 | an unknown id returns none without writing; otherwise the merged record, with the old created-at and updated-at now, replaces the stored one and its response is returned |
| `Service.ProductService.DeleteProduct` | ProductAPI/Application/Services/ProductService.cs:115-119 | returns exactly the repository's answer: true exactly when the product existed, and it is then gone |
| `Service.ProductService.SearchProducts` | ProductAPI/Application/Services/ProductService.cs:122-139 | responses for exactly the stored products accepted by the query and the category |
| `Service.CreateThenFetch` | ProductAPI/Application/Services/ProductService.cs:48-67 | creating then fetching by the returned id yields the request's properties plus the generated id and creation time, and no update time |
| `Service.UpdatePriceOnly` | ProductAPI/Application/Services/ProductService.cs:85-111 | a price-only update changes the price and sets updated-at; every other property and created-at stay |
| `ProductForm.InitialState` | ProductClient/src/components/ProductForm.tsx:11-20 | the form starts with an empty, in-stock product, an empty tag list and an empty tag input, which `addTag` does not accept |
| `ProductForm.HandleInputChange` | ProductClient/src/components/ProductForm.tsx:38-43 | only the named field changes; every other form field and the tag input are kept |
| `ProductForm.AddTag` | ProductClient/src/components/ProductForm.tsx:45-53 | a blank or already present trimmed input changes nothing; otherwise the trimmed tag is appended after the existing tags in order and the input is cleared |
| `ProductForm.Without` | ProductClient/src/components/ProductForm.tsx:58 | every occurrence of the tag is gone, every other tag occurs as often as before and in the same order |
| `ProductForm.RemoveTag` | ProductClient/src/components/ProductForm.tsx:55-59 | the tag list loses every occurrence of the tag; an absent list stays absent; nothing else changes |
| `ProductForm.WithoutAbsent` | ProductClient/src/components/ProductForm.tsx:58 | removing a tag that is not there keeps the list |
| `ProductForm.WithoutAppend` | ProductClient/src/components/ProductForm.tsx:58 | filtering distributes over concatenation |
| `ProductForm.WithoutKeepsDistinct` | ProductClient/src/components/ProductForm.tsx:58 | filtering keeps a list free of duplicates |
| `ProductForm.AddTagKeepsDistinct` | ProductClient/src/components/ProductForm.tsx:46-49 | adding a tag never creates a duplicate |
| `ProductForm.RemoveTagKeepsDistinct` | ProductClient/src/components/ProductForm.tsx:55-59 | removing a tag never creates a duplicate |
| `ProductForm.AddTagTwice` | ProductClient/src/components/ProductForm.tsx:46 | adding the same input again changes no tag |
| `ProductForm.RemoveAfterAdd` | ProductClient/src/components/ProductForm.tsx:45-59 | removing a tag just added restores the previous tags |

## Left out

- `CosmosDbProductRepository.cs` and `DatabaseInitializationService.cs` are not part of this model: the document-store backend and its start-up provisioning are remote calls.
- `ProductController.cs` and `Program.cs` (routing, model-state validation, status codes, dependency injection) are not part of this model; the data-annotation rules are the predicates `IsValidAdd` and `IsValidUpdate`, which the service, like the source, does not check itself.
- The repository interface has no separate Dafny counterpart: with one backend modelled, its documented promises are the contracts of the in-memory class's methods.
- Concurrency: `ConcurrentDictionary` atomicity and races between an update and a delete on the same id are not modelled; operations run one at a time.
- Asynchronous `Task` wrappers, deferred LINQ evaluation and logging calls are dropped.
- Null arguments (`ArgumentNullException`) cannot arise: every argument is a value.
- Unicode: lower-casing, case-insensitive comparison and white-space tests cover ASCII only.
- `decimal` range and scale limits, and the `double.MaxValue` upper bound of the price range, are not modelled.
- The client form's `parseFloat` price (a floating-point number, possibly NaN) is an integer here; `handleSubmit` and rendering are left out.
- `ProductDto`'s initial values (ProductDtos.cs:113, 128, 133) are not modelled: `MapToDto` assigns every field, so they are never observed. `Product`'s are, as `Domain.NewProduct`.
- Repository.InMemoryProductRepository.GetAll: returns a set rather than a list, because the dictionary's enumeration order is unspecified.
- Repository.InMemoryProductRepository.Search: returns a set rather than a list, for the same reason.
- Service.ProductService.UpdateProduct: models the fetch-merge-replace value semantics, not the in-place mutation of the stored object before `UpdateAsync` (the resulting table is the same).
- Repository.InMemoryProductRepository.Add: `AddAsync` stamps the caller's object (id and creation time, lines 51-52) before `TryAdd` can fail; the model's `Failure` carries no stamped product, since no caller in the core looks at the object after a failed add.
- Service.ProductService.CreateProduct: the `CreatedAt` initialiser and `AddAsync` read the same clock value `now`; the initialiser's reading is always overwritten.
