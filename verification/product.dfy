/**
 * The `Product` schema: field types, defaults and validators, and what
 * `Product.create` makes of the object it is given.
 */
module ProductModel {
  import opened Wrappers

  /** A document-store identifier; `hex` is how it prints in a URL. */
  datatype ObjectId = ObjectId(hex: string)

  /** A stored product document, with its `_id` and the automatic timestamps. */
  datatype Product = Product(
    id: ObjectId,
    name: string,
    description: string,
    price: int,
    imageUrl: string,
    imageFileId: Option<ObjectId>,
    createdAt: int,
    updatedAt: int)

  /**
   * The plain object handed to `Product.create`: `None` is a field left out
   * (for `imageFileId`, left out or null, which the schema treats alike).
   */
  datatype Doc = Doc(
    name: Option<string>,
    description: Option<string>,
    price: Option<int>,
    imageUrl: Option<string>,
    imageFileId: Option<ObjectId>)

  /**
   * The schema's validators: `name` is required (a required string must not
   * be empty), `price` is required and at least 0.
   */
  predicate Admissible(d: Doc) {
    d.name.Some? && d.name.value != "" && d.price.Some? && d.price.value >= 0
  }

  /** The document that states every field of `p` explicitly. */
  function DocOf(p: Product): Doc {
    Doc(Some(p.name), Some(p.description), Some(p.price), Some(p.imageUrl), p.imageFileId)
  }

  /** The same constraints, read on a stored document. */
  predicate ValidProduct(p: Product) {
    Admissible(DocOf(p))
  }

  /**
   * `Product.create(d)`: the validators run after the defaults are filled in
   * (`description` and `imageUrl` to "", `imageFileId` to null); a document
   * that fails them is not created. Both timestamps are the creation time.
   */
  function Instantiate(d: Doc, id: ObjectId, now: int): (r: Option<Product>)
    ensures r.Some? <==> Admissible(d)
    ensures r.Some? ==> ValidProduct(r.value)
    ensures r.Some? ==> r.value.id == id && r.value.createdAt == now && r.value.updatedAt == now
    ensures r.Some? ==> r.value.name == d.name.value && r.value.price == d.price.value
    ensures r.Some? ==> r.value.imageFileId == d.imageFileId
    ensures r.Some? && d.description.None? ==> r.value.description == ""
    ensures r.Some? && d.description.Some? ==> r.value.description == d.description.value
    ensures r.Some? && d.imageUrl.None? ==> r.value.imageUrl == ""
    ensures r.Some? && d.imageUrl.Some? ==> r.value.imageUrl == d.imageUrl.value
  {
    if !Admissible(d) then None
    else Some(Product(
      id,
      d.name.value,
      d.description.GetOr(""),
      d.price.value,
      d.imageUrl.GetOr(""),
      d.imageFileId,
      now,
      now))
  }


  /**
   * A valid product with equal timestamps is exactly what creating its own
   * fields gives back; an invalid one cannot be created.
   */
  lemma InstantiateDocOf(p: Product)
    ensures p.createdAt == p.updatedAt && ValidProduct(p) ==>
      Instantiate(DocOf(p), p.id, p.createdAt) == Some(p)
    ensures !ValidProduct(p) ==> Instantiate(DocOf(p), p.id, p.createdAt) == None
  {
  }

  /** Leaving a defaulted field out is the same as giving its default. */
  lemma DefaultsAreImplicit(d: Doc, id: ObjectId, now: int)
    ensures Instantiate(d.(description := None), id, now) == Instantiate(d.(description := Some("")), id, now)
    ensures Instantiate(d.(imageUrl := None), id, now) == Instantiate(d.(imageUrl := Some("")), id, now)
  {
  }
}
