# Row-mutation service, modelled in Dafny

`DocumentService` keeps named documents, each owning an ordered list of rows
(`RowEntry`: a `rowName` and an `otherFields` payload), and offers two operations:

- `addRowToDocument(name, entry)` rejects a `rowName` that does not start with
  `name + "/"` (InvalidArgument), looks the document up (DocumentNotFound), scans its rows
  for the same `rowName` (DuplicateRow), then atomically pushes the entry at the end of the
  rows and returns the updated document;
- `updateRowInDocument(name, entry)` atomically matches the document named `name` holding a
  row named `entry.rowName`, sets `otherFields` on the first such row (the positional `$`
  update) and returns the updated document, or fails with DocumentNotFound.

The document collection is an abstract store, `map<string, seq<RowEntry>>` keyed by document
name. Files:

- `model.dfy` (module `Model`): the records and the pure checks — the prefix test, the
  duplicate scan, the positional match and the payload set on one row, and the uniqueness
  invariant on rowNames.
- `service.dfy` (module `Service`): the result type `Outcome = Ok(doc) | InvalidArgument |
  DocumentNotFound | DuplicateRow` in place of the thrown exceptions; the functions `AddRow`
  and `UpdateRow` giving the outcome and new store of one call; the class `DocumentService`
  whose field `collection` the methods change in place. Its methods `FindOne`, `FindAndPush`
  and `FindAndSetFirst` stand for the three store calls; `AddRowToDocument` and
  `UpdateRowInDocument` follow the service's steps in order and are proved equal to
  `AddRow` / `UpdateRow` and to preserve the uniqueness invariant.
- `properties.dfy` (module `Properties`): the promises of both operations over all stores,
  and the three scenarios of the integration tests on their seed collection.

The "document was deleted during processing" failure of the append (a null result from the
push after a successful lookup) is proved unreachable: nothing runs between the lookup and
the push in this sequential model.

The controller (controller_0225.kt:10,13) serves `/api/documents/{name}/rows`, while the tests
(test_0225.kt:43,52,60) post to `/api/rows/{name}`, a route the controller does not map. The
three scenario lemmas model the service-level outcome each test intends, not the HTTP exchange
as written.

## Model

| member | source | states |
|---|---|---|
| `Model.StartsWith` | service_0225.kt:19 | the character-wise prefix test holds exactly when `prefix` is no longer than `s` and equals its first `|prefix|` characters |
| `Model.HasRow` | service_0225.kt:29 | the duplicate scan is true exactly when some row at some index carries the given rowName |
| `Model.FirstMatch` | service_0225.kt:47-53 | the positional match returns an in-range index whose row has the rowName and before which no row has it, or None exactly when no row has it |
| `Model.SetOtherFieldsAt` | service_0225.kt:53 | the positional set keeps the length, gives row `i` the new payload under its old name and leaves every other row unchanged |
| `Service.DocumentService.FindOne` | service_0225.kt:24-26 | the lookup finds a document exactly when the name is in the collection, and returns its stored rows |
| `Service.DocumentService.FindAndPush` | service_0225.kt:35-42 | the atomic push appends the entry to the named document only, returns the post-update document, and changes nothing and returns None when the document is absent |
| `Service.DocumentService.FindAndSetFirst` | service_0225.kt:47-61 | the atomic positional update sets the payload of the first matching row of the named document and returns the post-update document, or changes nothing and returns None when the document or the row is absent |
| `Service.DocumentService.AddRowToDocument` | service_0225.kt:17-43 | the returned outcome and the new collection are those of `AddRow` on the old collection; a collection whose documents had distinct rowNames keeps them distinct |
| `Service.DocumentService.UpdateRowInDocument` | service_0225.kt:45-62 | the returned outcome and the new collection are those of `UpdateRow` on the old collection; distinct rowNames stay distinct; on a collection with distinct rowNames a successful update keeps the row count, gives every row of that rowName the new payload and leaves every row of another rowName unchanged |
| `Service.AddRowKeepsDistinct` | service_0225.kt:29-35 | if every document's rowNames were pairwise distinct before an append, they are afterwards, whatever its outcome |
| `Service.UpdateRowKeepsDistinct` | service_0225.kt:53 | an update never changes a rowName, so pairwise distinct rowNames stay distinct, whatever its outcome |
| `Properties.AddRowOutcomes` | service_0225.kt:19-32 | error precedence, both directions: InvalidArgument iff the rowName lacks the prefix `name/` (whether or not the document exists), DocumentNotFound iff prefix ok and no document, DuplicateRow iff prefix ok, document present and rowName already there, Ok iff none of these; every failure leaves the store unchanged |
| `Properties.AddRowAppends` | service_0225.kt:35-42 | on success the document's rows are the old rows with the entry appended at the end: one longer, every prior row unchanged, the entry last, and the returned document equals the stored one |
| `Properties.AddRowFrame` | service_0225.kt:24-41 | an append adds or removes no document and leaves every document other than `name` unchanged |
| `Properties.AddRowTwice` | service_0225.kt:29-35 | after a successful append, the same append again yields DuplicateRow and leaves the store unchanged |
| `Properties.UpdateRowOutcomes` | service_0225.kt:47-61 | an update either succeeds or fails with DocumentNotFound, the latter exactly when the document is absent or holds no row of that rowName, and then the store is unchanged |
| `Properties.UpdateRowSetsFirstMatch` | service_0225.kt:47-61 | when `k` is the first index whose rowName matches, the update succeeds, row `k` becomes the entry (same rowName, new payload), the length and every other row are unchanged, and the returned document equals the stored one |
| `Properties.UpdateRowOnlyNamedRow` | service_0225.kt:47-53 | with distinct rowNames in the document, every row of that rowName carries the new payload after a successful update and every row of another rowName is unchanged |
| `Properties.UpdateRowFrame` | service_0225.kt:47-61 | an update adds or removes no document and leaves every document other than `name` unchanged |
| `Properties.UpdateRowIdempotent` | service_0225.kt:45-62 | making the same update twice gives the same outcome and the same store as making it once, on success and on failure |
| `Properties.FirstMatchSameNames` | service_0225.kt:53 | the positional match depends only on the rowNames, so a payload change does not move it |
| `Properties.MissingDocumentScenario` | test_0225.kt:40-46 | appending `nonexistent/row` to the absent document `nonexistent` of the seeded collection is DocumentNotFound |
| `Properties.DuplicateRowScenario` | test_0225.kt:48-55 | appending `a/init` again to the seeded document `a` is DuplicateRow and leaves the collection as seeded |
| `Properties.UniqueRowScenario` | test_0225.kt:57-65 | appending `a/new-row` to the seeded document `a` succeeds with two rows, one of them named `a/new-row` |

## Left out

- The HTTP controller (controller_0225.kt), request parsing and the mapping of the three
  failure kinds to status codes: plumbing outside the service, and no mapping is defined in
  the files modelled.
- The MongoDB client and its query, update and BSON mapping: replaced by the abstract map
  store and the three store methods of `DocumentService`.
- Documents sharing a name: the store is keyed by name, so the collection holds at most one
  document per name; a real collection without a unique index could hold several, and the
  lookup and the updates would then act on the first one found.
- Concurrency: the window between the lookup and the push, in which two concurrent appends of
  the same new rowName can both succeed and create a duplicate, is not modelled; the model is
  sequential, which is why the "deleted during processing" failure is unreachable in it.
- Store connectivity failures, which the service lets propagate unclassified.
- Exception message texts: only the failure kind is modelled.
- `MyDocument` and `RowEntry` are declared outside the files modelled. Only `name`, `rows`,
  `rowName` and `otherFields` are kept, and `otherFields` is a string, as the tests construct it
  (test_0225.kt:37,42).
