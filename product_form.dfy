/**
 * The product form's state transitions: editing one field of the product
 * being created, and adding and removing tags. Each computes the next state
 * from the previous one, as the component's state setters do.
 */
module ProductForm {
  import opened Wrappers
  import opened Text

  /** The client's create-request shape; the price is kept as an integer here. */
  datatype AddProduct = AddProduct(
    name: string,
    description: Option<string>,
    price: int,
    category: string,
    tags: Option<seq<string>>,
    inStock: bool)

  /** The component's state: the product being edited and the text of the tag input. */
  datatype FormState = FormState(product: AddProduct, tag: string)

  /**
   * The state the form starts in: an empty, in-stock product with an empty
   * tag list, and an empty tag input, which `addTag` does not accept.
   */
  function InitialState(): (s: FormState)
    ensures s.tag == [] && !AcceptsTag(s)
    ensures s.product.tags == Some([]) && NoDuplicates(CurrentTags(s.product))
    ensures s.product.name == [] && s.product.category == [] && s.product.description == Some([])
    ensures s.product.price == 0 && s.product.inStock
  {
    FormState(AddProduct("", Some(""), 0, "", Some([]), true), "")
  }

  /** A value typed into one of the form's inputs, tagged with the field it is for. */
  datatype FieldValue =
    | NameValue(name: string)
    | DescriptionValue(description: string)
    | PriceValue(price: int)
    | CategoryValue(category: string)
    | InStockValue(inStock: bool)

  /** `handleInputChange`: the named field takes the value; every other field and the tag input are kept. */
  function HandleInputChange(s: FormState, v: FieldValue): (r: FormState)
    ensures r.tag == s.tag && r.product.tags == s.product.tags
    ensures r.product.name == if v.NameValue? then v.name else s.product.name
    ensures r.product.description == if v.DescriptionValue? then Some(v.description) else s.product.description
    ensures r.product.price == if v.PriceValue? then v.price else s.product.price
    ensures r.product.category == if v.CategoryValue? then v.category else s.product.category
    ensures r.product.inStock == if v.InStockValue? then v.inStock else s.product.inStock
  {
    var prev := s.product;
    var next :=
      match v
      case NameValue(x) => prev.(name := x)
      case DescriptionValue(x) => prev.(description := Some(x))
      case PriceValue(x) => prev.(price := x)
      case CategoryValue(x) => prev.(category := x)
      case InStockValue(x) => prev.(inStock := x);
    s.(product := next)
  }

  /** The product's tags, an absent list read as empty (`prev.tags || []`). */
  function CurrentTags(p: AddProduct): (r: seq<string>)
    ensures p.tags.Some? ==> r == p.tags.value
    ensures p.tags.None? ==> r == []
  {
    p.tags.GetOr([])
  }

  /** `product.tags?.includes(t)`. */
  predicate HasTag(p: AddProduct, t: string) {
    p.tags.Some? && t in p.tags.value
  }

  /** `addTag` accepts the input: once trimmed it is neither empty nor already a tag. */
  predicate AcceptsTag(s: FormState) {
    Trim(s.tag) != [] && !HasTag(s.product, Trim(s.tag))
  }

  /**
   * `addTag`: when the trimmed input is accepted it is appended after the
   * existing tags and the input is cleared; otherwise nothing changes. No
   * other field of the product changes either way.
   */
  function AddTag(s: FormState): (r: FormState)
    ensures r.product.(tags := s.product.tags) == s.product
    ensures !AcceptsTag(s) ==> r == s
    ensures AcceptsTag(s) ==> r.tag == [] && r.product.tags == Some(CurrentTags(s.product) + [Trim(s.tag)])
  {
    var t := Trim(s.tag);
    if t != [] && !HasTag(s.product, t) then
      FormState(s.product.(tags := Some(CurrentTags(s.product) + [t])), "")
    else
      s
  }

  /** The sequence has no repeated element. */
  predicate NoDuplicates(xs: seq<string>) {
    forall i, j | 0 <= i < j < |xs| :: xs[i] != xs[j]
  }

  /** `r` is `xs` with some elements dropped, the rest in their original order. */
  ghost predicate IsSubsequence(r: seq<string>, xs: seq<string>)
    decreases |xs|
  {
    if xs == [] then r == []
    else (r != [] && r[0] == xs[0] && IsSubsequence(r[1..], xs[1..])) || IsSubsequence(r, xs[1..])
  }

  /**
   * `filter(t => t !== tag)`: every occurrence of `tag` is gone, every other
   * tag occurs as often as before, and the order is kept.
   */
  function Without(xs: seq<string>, tag: string): (r: seq<string>)
    ensures tag !in r
    ensures forall x | x != tag :: multiset(r)[x] == multiset(xs)[x]
    ensures IsSubsequence(r, xs)
  {
    if xs == [] then []
    else
      assert xs == [xs[0]] + xs[1..];
      if xs[0] == tag then Without(xs[1..], tag) else [xs[0]] + Without(xs[1..], tag)
  }

  /** `removeTag`: the tag list loses every occurrence of `tag`; nothing else changes. */
  function RemoveTag(s: FormState, tag: string): (r: FormState)
    ensures r.tag == s.tag && r.product.(tags := s.product.tags) == s.product
    ensures s.product.tags.None? ==> r.product.tags.None?
    ensures s.product.tags.Some? ==> r.product.tags == Some(Without(s.product.tags.value, tag))
  {
    s.(product := s.product.(tags := if s.product.tags.Some? then Some(Without(s.product.tags.value, tag)) else None))
  }

  /** A list without `tag` is left as it is. */
  lemma {:induction false} WithoutAbsent(xs: seq<string>, tag: string)
    requires tag !in xs
    ensures Without(xs, tag) == xs
  {
    if xs != [] {
      WithoutAbsent(xs[1..], tag);
    }
  }

  /** Filtering distributes over concatenation. */
  lemma {:induction false} WithoutAppend(xs: seq<string>, ys: seq<string>, tag: string)
    ensures Without(xs + ys, tag) == Without(xs, tag) + Without(ys, tag)
  {
    if xs == [] {
      assert xs + ys == ys;
    } else {
      assert (xs + ys)[1..] == xs[1..] + ys;
      WithoutAppend(xs[1..], ys, tag);
    }
  }

  /** Filtering keeps a list free of duplicates. */
  lemma {:induction false} WithoutKeepsDistinct(xs: seq<string>, tag: string)
    requires NoDuplicates(xs)
    ensures NoDuplicates(Without(xs, tag))
  {
    if xs != [] {
      var rest := xs[1..];
      assert NoDuplicates(rest) by {
        forall i, j | 0 <= i < j < |rest| ensures rest[i] != rest[j] {
          assert rest[i] == xs[i + 1] && rest[j] == xs[j + 1];
        }
      }
      WithoutKeepsDistinct(rest, tag);
      if xs[0] != tag {
        assert xs[0] !in rest by {
          forall j | 0 <= j < |rest| ensures rest[j] != xs[0] {
            assert rest[j] == xs[j + 1];
          }
        }
        assert multiset(Without(rest, tag))[xs[0]] == multiset(rest)[xs[0]] == 0;
        var r := Without(xs, tag);
        assert r == [xs[0]] + Without(rest, tag);
        forall i, j | 0 <= i < j < |r| ensures r[i] != r[j] {
          if i == 0 {
            assert r[j] in Without(rest, tag);
          }
        }
      }
    }
  }

  /** `addTag` keeps a tag list free of duplicates. */
  lemma AddTagKeepsDistinct(s: FormState)
    requires NoDuplicates(CurrentTags(s.product))
    ensures NoDuplicates(CurrentTags(AddTag(s).product))
  {
  }

  /** `removeTag` keeps a tag list free of duplicates. */
  lemma RemoveTagKeepsDistinct(s: FormState, tag: string)
    requires NoDuplicates(CurrentTags(s.product))
    ensures NoDuplicates(CurrentTags(RemoveTag(s, tag).product))
  {
    if s.product.tags.Some? {
      WithoutKeepsDistinct(s.product.tags.value, tag);
    }
  }

  /** Adding the same input again, once it has been added, changes no tag. */
  lemma AddTagTwice(s: FormState)
    ensures AddTag(AddTag(s).(tag := s.tag)).product == AddTag(s).product
  {
  }

  /** Removing a tag just added gives back the tags from before. */
  lemma RemoveAfterAdd(s: FormState)
    requires AcceptsTag(s)
    ensures RemoveTag(AddTag(s), Trim(s.tag)).product.tags == Some(CurrentTags(s.product))
  {
    var t := Trim(s.tag);
    var xs := CurrentTags(s.product);
    assert t !in xs;
    WithoutAppend(xs, [t], t);
    WithoutAbsent(xs, t);
    assert [t][1..] == [];
    assert Without([t], t) == [];
    assert AddTag(s).product.tags == Some(xs + [t]);
    assert xs + [] == xs;
  }
}
