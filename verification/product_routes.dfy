/**
 * The handlers of the product router over the product collection: list,
 * get, create on disk (POST /), create in the blob bucket (POST /grid),
 * partial update (PUT /:id) and delete (DELETE /:id). The collection is a
 * `ProductStore`; a reply is the status code with the body it carries.
 */
module ProductRoutes {
  import opened Wrappers
  import opened ProductModel
  import opened Uploads

  /** The text fields of a request body; `None` is a field that was not sent. */
  datatype Form = Form(name: Option<string>, description: Option<string>, price: Option<int>)

  /** The response a handler sends. */
  datatype Reply =
    | Listed(products: seq<Product>)    // 200, the array of documents
    | Found(product: Product)           // 200, one document
    | Created(product: Product)         // 201, the new document
    | Deleted                           // 200, { message: "Deleted" }
    | BadRequest                        // 400, "name and price required"
    | NotFound                          // 404, "Not found"
    | ServerError                       // 500, the caught error's message
    | UploadFailed(error: UploadError)  // multer's error, handed on before the handler runs

  /** The required-field guard of both create handlers: `!name || price == null`. */
  predicate MissingRequired(f: Form) {
    f.name.None? || f.name.value == "" || f.price.None?
  }

  const UploadsPrefix: string := "/uploads/"
  const GridImagePrefix: string := "/api/products/image/"

  /** `imageUrl` of a disk upload: the served path of the stored file, or "". */
  function DiskImageUrl(filename: Option<string>): (url: string)
  {
    if filename.Some? then UploadsPrefix + filename.value else ""
  }

  /** `imageUrl` of a blob upload: the retrieval route of the blob, or "" when there is none. */
  function GridImageUrl(fileId: Option<ObjectId>): (url: string)
  {
    if fileId.Some? then GridImagePrefix + fileId.value.hex else ""
  }

  /** The part of `url` after `prefix`, when `url` starts with it. */
  function AfterPrefix(url: string, prefix: string): Option<string>
  {
    if prefix <= url then Some(url[|prefix|..]) else None
  }

  /**
   * A disk `imageUrl` is empty exactly when no file was uploaded, and the
   * stored file name can be read back from it.
   */
  lemma DiskImageUrlRoundTrip(filename: Option<string>)
    ensures DiskImageUrl(filename) == "" <==> filename.None?
    ensures AfterPrefix(DiskImageUrl(filename), UploadsPrefix) == filename
  {
    if filename.Some? {
      assert UploadsPrefix <= DiskImageUrl(filename);
      assert DiskImageUrl(filename)[|UploadsPrefix|..] == filename.value;
    }
  }

  /**
   * A blob `imageUrl` is empty exactly when `imageFileId` is null, and
   * otherwise names that id.
   */
  lemma GridImageUrlRoundTrip(fileId: Option<ObjectId>)
    ensures GridImageUrl(fileId) == "" <==> fileId.None?
    ensures fileId.Some? ==> AfterPrefix(GridImageUrl(fileId), GridImagePrefix) == Some(fileId.value.hex)
    ensures fileId.None? ==> AfterPrefix(GridImageUrl(fileId), GridImagePrefix) == None
  {
    if fileId.Some? {
      assert GridImagePrefix <= GridImageUrl(fileId);
      assert GridImageUrl(fileId)[|GridImagePrefix|..] == fileId.value.hex;
    }
  }

  // ---------------------------------------------------------------------
  // Partial update
  // ---------------------------------------------------------------------

  /** The `update` object of PUT: a field is present only when it was supplied. */
  datatype Update = Update(
    name: Option<string>,
    description: Option<string>,
    price: Option<int>,
    imageUrl: Option<string>)

  /**
   * `findByIdAndUpdate(id, update, { new: true })` on a found document: every
   * field present in `update` is set, every other field keeps its value, the
   * update timestamp moves to `now`; no validator runs.
   */
  function ApplyUpdate(p: Product, u: Update, now: int): (q: Product)
    ensures q.id == p.id && q.imageFileId == p.imageFileId && q.createdAt == p.createdAt
    ensures q.updatedAt == now
    ensures u.name.None? ==> q.name == p.name
    ensures u.name.Some? ==> q.name == u.name.value
    ensures u.description.None? ==> q.description == p.description
    ensures u.description.Some? ==> q.description == u.description.value
    ensures u.price.None? ==> q.price == p.price
    ensures u.price.Some? ==> q.price == u.price.value
    ensures u.imageUrl.None? ==> q.imageUrl == p.imageUrl
    ensures u.imageUrl.Some? ==> q.imageUrl == u.imageUrl.value
  {
    p.(name := u.name.GetOr(p.name),
       description := u.description.GetOr(p.description),
       price := u.price.GetOr(p.price),
       imageUrl := u.imageUrl.GetOr(p.imageUrl),
       updatedAt := now)
  }

  /** Two updates in a row, as one: the later value of a field wins. */
  function Then(u1: Update, u2: Update): Update {
    Update(
      if u2.name.Some? then u2.name else u1.name,
      if u2.description.Some? then u2.description else u1.description,
      if u2.price.Some? then u2.price else u1.price,
      if u2.imageUrl.Some? then u2.imageUrl else u1.imageUrl)
  }

  /** Applying two updates one after the other is applying their combination once. */
  lemma ApplyUpdateThen(p: Product, u1: Update, u2: Update, t1: int, t2: int)
    ensures ApplyUpdate(ApplyUpdate(p, u1, t1), u2, t2) == ApplyUpdate(p, Then(u1, u2), t2)
  {
  }

  /** Repeating the same update at the same time changes nothing more. */
  lemma ApplyUpdateIdempotent(p: Product, u: Update, now: int)
    ensures ApplyUpdate(ApplyUpdate(p, u, now), u, now) == ApplyUpdate(p, u, now)
  {
    ApplyUpdateThen(p, u, u, now, now);
    assert Then(u, u) == u;
  }

  /**
   * Update runs no validator: a valid document can be given an empty name
   * or a negative price.
   */
  lemma ApplyUpdateSkipsValidation(p: Product, now: int)
    requires ValidProduct(p)
    ensures !ValidProduct(ApplyUpdate(p, Update(Some(""), None, None, None), now))
    ensures !ValidProduct(ApplyUpdate(p, Update(None, None, Some(-1), None), now))
  {
  }

  /**
   * What PUT promises about the document it finds: each of name, description
   * and price takes the supplied value when one was sent and is kept
   * otherwise; imageUrl changes only when a file was uploaded; the id, the
   * blob id and the creation time never change.
   */
  ghost predicate ChangedAsSupplied(before: Product, after: Product, form: Form, filename: Option<string>, now: int) {
    && after.id == before.id
    && after.imageFileId == before.imageFileId
    && after.createdAt == before.createdAt
    && after.updatedAt == now
    && after.name == (if form.name.Some? then form.name.value else before.name)
    && after.description == (if form.description.Some? then form.description.value else before.description)
    && after.price == (if form.price.Some? then form.price.value else before.price)
    && after.imageUrl == (if filename.Some? then DiskImageUrl(filename) else before.imageUrl)
  }

  /** The `update` object PUT builds: the supplied fields, and the new url when a file came. */
  function UpdateOf(form: Form, filename: Option<string>): Update {
    Update(form.name, form.description, form.price,
           if filename.Some? then Some(DiskImageUrl(filename)) else None)
  }

  /** PUT's step-by-step construction of the `update` object. */
  method BuildUpdate(form: Form, filename: Option<string>) returns (update: Update)
    ensures update == UpdateOf(form, filename)
  {
    update := Update(None, None, None, None);
    if form.name.Some? {
      update := update.(name := form.name);
    }
    if form.description.Some? {
      update := update.(description := form.description);
    }
    if form.price.Some? {
      update := update.(price := form.price);
    }
    if filename.Some? {
      update := update.(imageUrl := Some(DiskImageUrl(filename)));
    }
  }

  /** Applying that object changes the document as supplied. */
  lemma UpdateOfChangesAsSupplied(before: Product, form: Form, filename: Option<string>, now: int)
    ensures ChangedAsSupplied(before, ApplyUpdate(before, UpdateOf(form, filename), now), form, filename, now)
  {
  }

  /** PUT with only a price changes only the price (and the update time). */
  lemma PriceOnlyUpdate(before: Product, after: Product, price: int, now: int)
    requires ChangedAsSupplied(before, after, Form(None, None, Some(price)), None, now)
    ensures after == before.(price := price, updatedAt := now)
  {
  }

  // ---------------------------------------------------------------------
  // Listing order
  // ---------------------------------------------------------------------

  /** `sort({ createdAt: -1 })`: most recently created first. */
  predicate NewestFirst(s: seq<Product>) {
    forall i, j :: 0 <= i < j < |s| ==> s[i].createdAt >= s[j].createdAt
  }

  /** `p` placed before the first element that is not newer than it. */
  function InsertNewest(s: seq<Product>, p: Product): (r: seq<Product>)
    ensures multiset(r) == multiset(s) + multiset{p}
  {
    if s == [] || p.createdAt >= s[0].createdAt then [p] + s
    else
      assert s == [s[0]] + s[1..];
      [s[0]] + InsertNewest(s[1..], p)
  }

  /** An element newer than every element of `s` and than `p` is newer than all of `InsertNewest(s, p)`. */
  lemma NewerThanInsert(s: seq<Product>, p: Product, t: int)
    requires forall i :: 0 <= i < |s| ==> t >= s[i].createdAt
    requires t >= p.createdAt
    ensures forall x :: x in InsertNewest(s, p) ==> t >= x.createdAt
  {
    var r := InsertNewest(s, p);
    forall x | x in r
      ensures t >= x.createdAt
    {
      assert x in multiset(r);
      if x != p {
        assert x in multiset(s);
      }
    }
  }

  /** Prepending an element newer than all of a newest-first sequence keeps it newest-first. */
  lemma ConsNewestFirst(x: Product, r: seq<Product>)
    requires NewestFirst(r)
    requires forall y :: y in r ==> x.createdAt >= y.createdAt
    ensures NewestFirst([x] + r)
  {
    var s := [x] + r;
    forall i, j | 0 <= i < j < |s|
      ensures s[i].createdAt >= s[j].createdAt
    {
      assert s[j] == r[j - 1];
      if i > 0 {
        assert s[i] == r[i - 1];
      }
    }
  }

  /** Inserting into a newest-first sequence keeps it newest-first. */
  lemma {:induction false} InsertNewestKeepsOrder(s: seq<Product>, p: Product)
    requires NewestFirst(s)
    ensures NewestFirst(InsertNewest(s, p))
  {
    if s == [] {
      ConsNewestFirst(p, s);
    } else if p.createdAt >= s[0].createdAt {
      forall y | y in s
        ensures p.createdAt >= y.createdAt
      {
        var j :| 0 <= j < |s| && s[j] == y;
      }
      ConsNewestFirst(p, s);
    } else {
      var rest := InsertNewest(s[1..], p);
      InsertNewestKeepsOrder(s[1..], p);
      NewerThanInsert(s[1..], p, s[0].createdAt);
      ConsNewestFirst(s[0], rest);
    }
  }

  /** Every record is stored under its own id. */
  ghost predicate KeyedById(m: map<ObjectId, Product>) {
    forall k :: k in m ==> m[k].id == k
  }

  /** The records stored under the keys `ks`. */
  ghost function RecordsAt(m: map<ObjectId, Product>, ks: set<ObjectId>): set<Product> {
    set k | k in ks && k in m :: m[k]
  }

  /** Adding a key adds its record, which was not among the others. */
  lemma RecordsAtAdd(m: map<ObjectId, Product>, ks: set<ObjectId>, k: ObjectId)
    requires KeyedById(m) && k in m && k !in ks
    ensures multiset(RecordsAt(m, ks + {k})) == multiset(RecordsAt(m, ks)) + multiset{m[k]}
  {
    assert RecordsAt(m, ks + {k}) == RecordsAt(m, ks) + {m[k]};
    assert m[k] !in RecordsAt(m, ks);
  }

  /** One step of the listing loop: the record under `k` joins the sorted prefix. */
  lemma InsertRecord(sorted: seq<Product>, m: map<ObjectId, Product>, done: set<ObjectId>, k: ObjectId)
    requires KeyedById(m) && k in m && k !in done
    requires NewestFirst(sorted) && multiset(sorted) == multiset(RecordsAt(m, done))
    ensures NewestFirst(InsertNewest(sorted, m[k]))
    ensures multiset(InsertNewest(sorted, m[k])) == multiset(RecordsAt(m, done + {k}))
  {
    RecordsAtAdd(m, done, k);
    InsertNewestKeepsOrder(sorted, m[k]);
  }

  /** All keys give all records. */
  lemma RecordsAtAllKeys(m: map<ObjectId, Product>)
    ensures RecordsAt(m, m.Keys) == m.Values
  {
  }

  // ---------------------------------------------------------------------
  // The product collection and the handlers that use it
  // ---------------------------------------------------------------------

  class ProductStore {
    var records: map<ObjectId, Product>

    ghost predicate Valid()
      reads this
    {
      KeyedById(records)
    }

    constructor ()
      ensures Valid() && records == map[]
    {
      records := map[];
    }

    /** GET /: every document once, newest first. */
    method List() returns (reply: Reply)
      requires Valid()
      ensures reply.Listed?
      ensures NewestFirst(reply.products)
      ensures multiset(reply.products) == multiset(records.Values)
    {
      var m := records;
      var sorted: seq<Product> := [];
      var todo := m.Keys;
      ghost var done: set<ObjectId> := {};
      while todo != {}
        invariant todo <= m.Keys && done == m.Keys - todo
        invariant NewestFirst(sorted)
        invariant multiset(sorted) == multiset(RecordsAt(m, done))
        decreases todo
      {
        var k :| k in todo;
        InsertRecord(sorted, m, done, k);
        sorted := InsertNewest(sorted, m[k]);
        todo := todo - {k};
        done := done + {k};
      }
      RecordsAtAllKeys(m);
      reply := Listed(sorted);
    }

    /** GET /:id: the document, or 404. */
    method Get(id: ObjectId) returns (reply: Reply)
      ensures id in records ==> reply == Found(records[id])
      ensures id !in records ==> reply == NotFound
    {
      if id in records {
        reply := Found(records[id]);
      } else {
        reply := NotFound;
      }
    }

    /**
     * `Product.create(doc)` inside a handler's try block: a validation
     * failure or an id already taken is caught and answered with 500;
     * otherwise the new document is stored and answered with 201.
     */
    method Create(doc: Doc, id: ObjectId, now: int) returns (reply: Reply)
      requires Valid()
      modifies this
      ensures Valid()
      ensures reply.Created? <==> Admissible(doc) && id !in old(records)
      ensures reply.Created? ==> Instantiate(doc, id, now) == Some(reply.product)
      ensures reply.Created? ==> records == old(records)[id := reply.product]
      ensures !reply.Created? ==> reply == ServerError && records == old(records)
    {
      var made := Instantiate(doc, id, now);
      if made.None? || id in records {
        reply := ServerError;
      } else {
        records := records[id := made.value];
        reply := Created(made.value);
      }
    }

    /**
     * POST /: the disk upload runs first; then the required fields are
     * checked; `imageUrl` is the stored file's path or "", and `imageFileId`
     * is left to its default.
     */
    method PostDisk(form: Form, file: Option<IncomingFile>, clock: nat, id: ObjectId, now: int)
      returns (reply: Reply)
      requires Valid()
      modifies this
      ensures Valid()
      ensures DiskUpload(file, clock).Refused? ==> reply == UploadFailed(DiskUpload(file, clock).error)
      ensures DiskUpload(file, clock).Received? && MissingRequired(form) ==> reply == BadRequest
      ensures reply.Created? <==>
        && DiskUpload(file, clock).Received?
        && !MissingRequired(form)
        && form.price.value >= 0
        && id !in old(records)
      ensures DiskUpload(file, clock).Received? && !MissingRequired(form) && !reply.Created? ==>
        reply == ServerError
      ensures reply.Created? ==>
        && reply.product == Product(id, form.name.value, form.description.GetOr(""), form.price.value,
                                    DiskImageUrl(DiskUpload(file, clock).file), None, now, now)
        && records == old(records)[id := reply.product]
      ensures !reply.Created? ==> records == old(records)
    {
      var received := DiskUpload(file, clock);
      if received.Refused? {
        return UploadFailed(received.error);
      }
      if MissingRequired(form) {
        return BadRequest;
      }
      var description := form.description.GetOr("");
      var imageUrl := DiskImageUrl(received.file);
      reply := Create(Doc(form.name, Some(description), form.price, Some(imageUrl), None), id, now);
    }

    /**
     * POST /grid: the memory upload (size limit only) runs first; then the
     * required fields are checked; a file needs a ready database and a
     * completed blob write (`blobWrite` is the id the bucket assigns, `None`
     * when the write stream fails); `imageUrl` follows `imageFileId`.
     */
    method PostGrid(form: Form, file: Option<IncomingFile>, dbReady: bool, blobWrite: Option<ObjectId>,
                    id: ObjectId, now: int)
      returns (reply: Reply)
      requires Valid()
      modifies this
      ensures Valid()
      ensures MemoryUpload(file).Refused? ==> reply == UploadFailed(FileTooLarge)
      ensures MemoryUpload(file).Received? && MissingRequired(form) ==> reply == BadRequest
      ensures reply.Created? <==>
        && MemoryUpload(file).Received?
        && !MissingRequired(form)
        && (file.Some? ==> dbReady && blobWrite.Some?)
        && form.price.value >= 0
        && id !in old(records)
      ensures MemoryUpload(file).Received? && !MissingRequired(form) && !reply.Created? ==>
        reply == ServerError
      ensures reply.Created? ==>
        var fileId := if file.Some? then blobWrite else None;
        && reply.product == Product(id, form.name.value, form.description.GetOr(""), form.price.value,
                                    GridImageUrl(fileId), fileId, now, now)
        && records == old(records)[id := reply.product]
      ensures !reply.Created? ==> records == old(records)
    {
      var received := MemoryUpload(file);
      if received.Refused? {
        return UploadFailed(received.error);
      }
      if MissingRequired(form) {
        return BadRequest;
      }
      var imageFileId: Option<ObjectId> := None;
      if received.file.Some? {
        if !dbReady {
          return ServerError;
        }
        if blobWrite.None? {
          return ServerError;
        }
        imageFileId := blobWrite;
      }
      var description := form.description.GetOr("");
      reply := Create(Doc(form.name, Some(description), form.price, Some(GridImageUrl(imageFileId)), imageFileId),
                      id, now);
    }

    /**
     * PUT /:id: the disk upload runs first; the `update` object gets each
     * supplied field and, with a file, the new `imageUrl`; an unknown id is
     * answered with 404 and changes nothing.
     */
    method Put(id: ObjectId, form: Form, file: Option<IncomingFile>, clock: nat, now: int)
      returns (reply: Reply)
      requires Valid()
      modifies this
      ensures Valid()
      ensures DiskUpload(file, clock).Refused? ==>
        reply == UploadFailed(DiskUpload(file, clock).error) && records == old(records)
      ensures DiskUpload(file, clock).Received? && id !in old(records) ==>
        reply == NotFound && records == old(records)
      ensures DiskUpload(file, clock).Received? && id in old(records) ==>
        && id in records
        && records == old(records)[id := records[id]]
        && reply == Found(records[id])
        && ChangedAsSupplied(old(records)[id], records[id], form, DiskUpload(file, clock).file, now)
    {
      var received := DiskUpload(file, clock);
      if received.Refused? {
        return UploadFailed(received.error);
      }
      var update := BuildUpdate(form, received.file);
      if id !in records {
        return NotFound;
      }
      UpdateOfChangesAsSupplied(records[id], form, received.file, now);
      var updated := ApplyUpdate(records[id], update, now);
      records := records[id := updated];
      reply := Found(updated);
    }

    /** DELETE /:id: removes exactly that document, or answers 404. */
    method Delete(id: ObjectId) returns (reply: Reply)
      requires Valid()
      modifies this
      ensures Valid()
      ensures id in old(records) ==> reply == Deleted
      ensures id !in old(records) ==> reply == NotFound
      ensures records == old(records) - {id}
    {
      if id in records {
        records := records - {id};
        reply := Deleted;
      } else {
        reply := NotFound;
      }
    }
  }

  /** After DELETE /:id, GET /:id answers 404, whether or not the id existed. */
  method DeleteThenGet(store: ProductStore, id: ObjectId) returns (deleted: Reply, fetched: Reply)
    requires store.Valid()
    modifies store
    ensures deleted == (if id in old(store.records) then Deleted else NotFound)
    ensures fetched == NotFound
  {
    deleted := store.Delete(id);
    fetched := store.Get(id);
  }

  /** A document created by POST / is what GET /:id then answers. */
  method CreateThenGet(store: ProductStore, form: Form, file: Option<IncomingFile>, clock: nat, id: ObjectId, now: int)
    returns (created: Reply, fetched: Reply)
    requires store.Valid()
    modifies store
    ensures created.Created? ==> fetched == Found(created.product)
    ensures !created.Created? ==> fetched == (if id in old(store.records) then Found(old(store.records)[id]) else NotFound)
  {
    created := store.PostDisk(form, file, clock, id, now);
    fetched := store.Get(id);
  }
}
