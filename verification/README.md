# Product catalog API — a Dafny model of its request handling

The catalog is a small HTTP API. It keeps product documents (name,
description, price, image reference) in a document database. An image comes
in through one of two routes:

- POST `/` writes it to the `uploads` directory.
- POST `/grid` writes it to a blob bucket inside the database.

This project models the logic of those handlers and of the product schema:

- how an uploaded file is named on disk;
- which content types the disk upload accepts;
- how a create request is checked and turned into a document;
- how each handler changes the product collection.

Modules:

- `Wrappers` (`wrappers.dfy`): `Option`.
- `NodePath` (`node_path.dfy`): the POSIX behaviour of Node's `path.basename`
  and `path.extname`, which the filename callback calls.
- `Uploads` (`uploads.dfy`): the two multer configurations. One is the disk
  storage, with its filename callback, image-only `fileFilter` and 5 MiB
  limit. The other is the memory storage, with the limit only.
- `ProductModel` (`product.dfy`): the `Product` document, the
  object given to `Product.create`, the schema's defaults and validators.
- `ProductRoutes` (`product_routes.dfy`): the handlers. The collection is the
  class `ProductStore`, whose field `records` maps an id to its document. Each
  handler is a method of that class and returns a `Reply` (status code plus
  body).

Inputs the handlers get from outside are parameters:

- the clock at upload time (`clock`) and at write time (`now`);
- the id the database gives a new document (`id`);
- whether the database connection is ready (`dbReady`);
- the id the blob bucket returns from a finished write, or `None` when the
  write stream fails (`blobWrite`).

Behaviour of the code that is easy to misread:

- The `/grid` upload has no content-type filter at all; only the disk upload
  has one.
- A negative price gets past the handlers' own 400 check. It then fails the
  schema's `min: 0` validator inside `Product.create`, and the handler's catch
  block answers 500.
- The filename callback collapses each run of whitespace (JavaScript `\s`) to
  one `_`. It does not replace single spaces only.
- An id already in the collection makes `Product.create` fail. This is the
  database's duplicate-key error, and it is answered 500.

## Model

| member | source | states |
|---|---|---|
| `NodePath.BaseNamePlusExt` | routes/productRoutes.js:27-28 | `basename(name, extname(name)) + extname(name)` is exactly the last path segment of the name, whatever directories or trailing slashes it has; `BaseName` models `path.basename` and `ExtName` (`SegmentExt` of the last segment) models `path.extname` |
| `NodePath.BaseNameHasNoSlash` | routes/productRoutes.js:27-28 | neither `BaseName(name, ExtName(name))` nor `ExtName(name)` holds a `/` |
| `NodePath.SegmentExtShape` | routes/productRoutes.js:27 | the extension `SegmentExt` takes from a segment is an end piece of it: empty, or a `.` with no further `.` after it and at least one character before it |
| `NodePath.SegmentExtEmpty` | routes/productRoutes.js:27 | `SegmentExt` is empty exactly when the segment has no `.`, has its only `.` first (`.profile`), or is `..` |
| `Uploads.CollapseWhitespace` | routes/productRoutes.js:28 | `.replace(/\s+/g, "_")` (whitespace being `IsSpace`, the JavaScript `\s` class) leaves no whitespace and never lengthens the name |
| `Uploads.CollapseIsRunwise` | routes/productRoutes.js:28 | the replacement equals a character-by-character reading: the first whitespace of each maximal run becomes `_`, the rest of the run vanishes, everything else stays |
| `Uploads.CollapseKeepsVisible` | routes/productRoutes.js:28 | every character that is neither whitespace nor `_` survives, in its original order |
| `Uploads.CollapseFixesSpaceFree` | routes/productRoutes.js:28 | a name without whitespace is unchanged, so the replacement is idempotent |
| `Uploads.CollapseJoinsWords` | routes/productRoutes.js:28 | two whitespace-free words separated by any non-empty whitespace run come out joined by exactly one `_` (`"my  cat"` becomes `"my_cat"`) |
| `Uploads.Decimal` | routes/productRoutes.js:29 | the timestamp text is a non-empty string of decimal digits with no leading zero |
| `Uploads.DecimalRoundTrip` | routes/productRoutes.js:29 | reading the timestamp text back gives the clock value |
| `Uploads.StoredNameParts` | routes/productRoutes.js:26-30 | `StoredName`, the filename callback, gives timestamp, `_`, the collapsed stem of the last segment, then the extension verbatim (whitespace in it kept); stem plus extension is the last segment |
| `Uploads.StoredNameHasNoSlash` | routes/productRoutes.js:26-30 | a stored name never contains `/`, so it cannot leave the uploads directory |
| `Uploads.StoredNameTimestamp` | routes/productRoutes.js:29 | the clock value can be parsed back from the digits before the first `_` of the stored name |
| `Uploads.AcceptsImageExactly` | routes/productRoutes.js:44 | `AcceptsImage`, the fileFilter condition, holds exactly for `image/*` and mimetypes that contain `image/png`, `image/jpg`, `image/jpeg`, `image/webp` or `image/gif` anywhere (both directions) |
| `Uploads.RefusesTextPlain` | routes/productRoutes.js:44-48 | `text/plain` is refused |
| `Uploads.RefusesUpperCase` | routes/productRoutes.js:44-48 | the match is case-sensitive: `IMAGE/PNG` is refused |
| `Uploads.AcceptsUnanchored` | routes/productRoutes.js:44-48 | the match is unanchored: `x image/gif` is accepted |
| `Uploads.DiskUpload` | routes/productRoutes.js:33-50 | no file passes through; a non-image is refused before the size is looked at; an image over 5 MiB is refused; an image of at most 5 MiB is received under `StoredName(clock, originalname)`, which contains no `/` and starts with the upload clock |
| `Uploads.MemoryUpload` | routes/productRoutes.js:53 | the `/grid` upload refuses only files over 5 MiB, whatever their type, and otherwise hands the file on unchanged |
| `ProductModel.Instantiate` | models/product.js:3-14 | a document is created exactly when `Admissible` holds, i.e. name is present and non-empty and price is present and at least 0; description and imageUrl default to `""`, imageFileId to null; both timestamps are the creation time |
| `ProductModel.InstantiateDocOf` | models/product.js:5-11 | creating a valid document's own fields gives back that document; an invalid one cannot be created |
| `ProductModel.DefaultsAreImplicit` | models/product.js:6-9 | leaving out description or imageUrl is the same as giving `""` |
| `ProductRoutes.DiskImageUrlRoundTrip` | routes/productRoutes.js:73 | `DiskImageUrl`: the disk `imageUrl` is `""` exactly when no file was uploaded, and otherwise is `/uploads/` followed by the stored name, which can be read back |
| `ProductRoutes.GridImageUrlRoundTrip` | routes/productRoutes.js:123 | `GridImageUrl`: the `/grid` `imageUrl` is `""` exactly when imageFileId is null, and otherwise is `/api/products/image/` followed by that id |
| `ProductRoutes.ApplyUpdate` | routes/productRoutes.js:158-160 | fields absent from the update object keep their values, present ones take the new value; id, imageFileId and createdAt never change; updatedAt becomes the update time |
| `ProductRoutes.ApplyUpdateThen` | routes/productRoutes.js:158-160 | two updates in a row equal one combined update in which the later value of each field wins |
| `ProductRoutes.ApplyUpdateIdempotent` | routes/productRoutes.js:158-160 | repeating an update at the same time changes nothing further |
| `ProductRoutes.ApplyUpdateSkipsValidation` | routes/productRoutes.js:158-160 | no validator runs on update: a valid document can be given an empty name or a negative price |
| `ProductRoutes.BuildUpdate` | routes/productRoutes.js:153-157 | the `update` object built field by field is `UpdateOf(form, filename)`: exactly the fields that were sent, plus `imageUrl` `/uploads/<stored name>` only when a file came |
| `ProductRoutes.UpdateOfChangesAsSupplied` | routes/productRoutes.js:152-160 | applying that object to the found document sets each sent field, keeps each unsent one, replaces imageUrl only with a file, keeps id, imageFileId and createdAt, and moves updatedAt to the update time (`ChangedAsSupplied`) |
| `ProductRoutes.PriceOnlyUpdate` | routes/productRoutes.js:152-157 | PUT with only a price changes the price and the update time and nothing else |
| `ProductRoutes.InsertNewest` | routes/productRoutes.js:57 | the insertion step of the listing adds exactly one element to the multiset |
| `ProductRoutes.InsertNewestKeepsOrder` | routes/productRoutes.js:57 | inserting into a newest-first sequence keeps it newest-first |
| `ProductRoutes.ProductStore.List` | routes/productRoutes.js:56-59 | GET `/` answers every stored document exactly once (a permutation of the collection), ordered by `createdAt`, newest first |
| `ProductRoutes.ProductStore.Get` | routes/productRoutes.js:61-65 | GET `/:id` answers the stored document, or 404 when the id is absent |
| `ProductRoutes.ProductStore.Create` | routes/productRoutes.js:77-87 | `Product.create` inside the try block stores the new document and answers 201 exactly when the schema admits it and the id is new; otherwise it answers 500 and the collection is unchanged |
| `ProductRoutes.ProductStore.PostDisk` | routes/productRoutes.js:67-88 | POST `/`: an upload refusal or a missing name or price (`MissingRequired`, the 400 check) adds nothing; the created document has the form's fields, description defaulted to `""`, imageUrl `/uploads/<stored name>` or `""`, and imageFileId null; the document is added under its id and nothing else changes |
| `ProductRoutes.ProductStore.PostGrid` | routes/productRoutes.js:94-130 | POST `/grid`: a missing name or price (`MissingRequired`) gives 400; a file while the database is not ready, or a failed blob write, gives 500; none of these adds a record; otherwise imageFileId is the blob id (null without a file) and imageUrl follows it |
| `ProductRoutes.ProductStore.Put` | routes/productRoutes.js:150-167 | PUT `/:id`: an unknown id gives 404 and the collection is unchanged; otherwise only the supplied fields change (imageUrl only with a file), imageFileId and createdAt are kept, and every other document is untouched |
| `ProductRoutes.ProductStore.Delete` | routes/productRoutes.js:169-173 | DELETE `/:id` removes exactly that document and answers `Deleted`, or answers 404 and changes nothing |
| `ProductRoutes.DeleteThenGet` | routes/productRoutes.js:169-173 | after a delete, GET of the same id answers 404 |
| `ProductRoutes.CreateThenGet` | routes/productRoutes.js:67-88 | after a successful POST `/`, GET of its id answers the created document; after a failed one, GET answers what was there before |

## Left out

- Express routing, multer's multipart parsing, the file field name `image` (another field name makes multer fail), and the creation of the `uploads` directory at startup and before each write (routes/productRoutes.js:10-25). These are framework and file-system plumbing.
- The bytes of an upload. A file stored in `uploads/` and a blob are not state in the model. So the model does not show the leftover files and blobs that remain when a later step fails, or when a document is deleted.
- The blob write to the GridFS bucket (routes/productRoutes.js:106-115) is a parameter: the id the bucket returns, or `None` for a stream error. Streams, events and byte round-trips are not modelled.
- GET `/image/:id` (routes/productRoutes.js:133-148): it only pipes a blob download stream to the response.
- How Express answers `UploadFailed`: multer hands its error to `next`, and the application's error handler is not part of these files. The model records that the handler did not run and that nothing was stored.
- `Number(price)` coercion, `NaN`, cast errors and non-integer prices. A price is an `int`; only its sign matters to the schema.
- Casting the `:id` path parameter to an ObjectId. Ids reach the model already parsed. In the source, a malformed id makes `findById` and `findByIdAndDelete` throw outside any try block in GET and DELETE, and in PUT the catch block answers 500.
- Whether the database connection is ready, for the product collection itself: mongoose buffers those operations. Only the explicit `mongoose.connection.db` guard of `/grid` is modelled.
- `Date.now()`, ObjectId generation and the timestamps bookkeeping are parameters (`clock`, `now`, `id`).
- Uploads.IsSpace: JavaScript strings are UTF-16. The whitespace class is modelled on Unicode scalar values, so unpaired surrogates are not represented.
- Uploads.Decimal: JavaScript prints integers of 10^21 and above in exponent notation. The model always prints plain digits (a millisecond clock stays far below that bound).
- ProductRoutes.ProductStore.List: documents with equal `createdAt` may come in any order, as the database leaves their order open.
- Console logging and the text of error messages. A reply carries its status code and the document, not the message.
- Concurrent requests. Each handler call is one atomic step on the collection.
- NodePath: the host is taken to be POSIX. The source calls Node's default `path`, which is `path.win32` on Windows. There, `\` and drive prefixes also separate directories, so an original name such as `a\b.png` would give a different stored name from the one this model gives.
