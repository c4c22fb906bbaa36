/**
 * The row-mutation service. The document collection is an abstract store mapping each
 * document name to that document's rows; the two operations append a row and update a
 * row's payload. AddRow and UpdateRow give the outcome and the resulting store of one
 * call as functions of the store before it; the methods of DocumentService change the
 * store in place, step by step as the service does, and are proved to agree with them.
 */
module Service {
  import opened Model

  /** The collection: document name to the document's rows. */
  type Store = map<string, seq<RowEntry>>

  /** The updated document, or one of the three failure kinds the service signals. */
  datatype Outcome = Ok(doc: MyDocument) | InvalidArgument | DocumentNotFound | DuplicateRow

  /** What one call returns together with the store it leaves behind. */
  datatype Step = Step(outcome: Outcome, store: Store)

  /** The prefix every rowName of document `name` must carry. */
  function RowPrefix(name: string): string
  {
    name + "/"
  }

  /**
   * Appending `entry` to document `name`: prefix check, then existence, then duplicate
   * scan, then push at the end; every failure leaves the store as it was.
   */
  function AddRow(store: Store, name: string, entry: RowEntry): Step
  {
    if !StartsWith(entry.rowName, RowPrefix(name)) then Step(InvalidArgument, store)
    else if name !in store then Step(DocumentNotFound, store)
    else if HasRow(store[name], entry.rowName) then Step(DuplicateRow, store)
    else
      var rows := store[name] + [entry];
      Step(Ok(MyDocument(name, rows)), store[name := rows])
  }

  /**
   * Setting the payload of the row named `entry.rowName` in document `name`: the first
   * such row gets `entry.otherFields`; no matching document and row is DocumentNotFound.
   */
  function UpdateRow(store: Store, name: string, entry: RowEntry): Step
  {
    if name !in store then Step(DocumentNotFound, store)
    else match FirstMatch(store[name], entry.rowName)
      case None => Step(DocumentNotFound, store)
      case Some(i) =>
        var rows := SetOtherFieldsAt(store[name], i, entry.otherFields);
        Step(Ok(MyDocument(name, rows)), store[name := rows])
  }

  /** Every document of the store keeps its rowNames pairwise distinct. */
  predicate StoreDistinct(store: Store)
  {
    forall name :: name in store ==> DistinctRowNames(store[name])
  }

  /**
   * The service over its collection. FindOne, FindAndPush and FindAndSetFirst are the
   * three store calls it makes (a lookup by name, an atomic push returning the new
   * document, an atomic positional set returning the new document).
   */
  class DocumentService {
    var collection: Store

    /** The service over a collection seeded out-of-band. */
    constructor (seed: Store)
      ensures collection == seed
    {
      collection := seed;
    }

    /** The uniqueness invariant over the whole collection. */
    ghost predicate Valid()
      reads this
    {
      StoreDistinct(collection)
    }

    /** Look a document up by name. */
    method FindOne(name: string) returns (found: Option<MyDocument>)
      ensures found.Some? <==> name in collection
      ensures found.Some? ==> found.value.name == name && found.value.rows == collection[name]
    {
      if name in collection {
        found := Some(MyDocument(name, collection[name]));
      } else {
        found := None;
      }
    }

    /** Atomically push `entry` at the end of document `name`'s rows; None if absent. */
    method FindAndPush(name: string, entry: RowEntry) returns (found: Option<MyDocument>)
      modifies this
      ensures name !in old(collection) ==> found == None && collection == old(collection)
      ensures name in old(collection) ==>
        && collection == old(collection)[name := old(collection)[name] + [entry]]
        && found == Some(MyDocument(name, collection[name]))
    {
      if name in collection {
        collection := collection[name := collection[name] + [entry]];
        found := Some(MyDocument(name, collection[name]));
      } else {
        found := None;
      }
    }

    /**
     * Atomically match document `name` holding a row named `rowName` and set `value` as
     * the payload of the first such row; None (nothing changed) if no document matches.
     */
    method FindAndSetFirst(name: string, rowName: string, value: string) returns (found: Option<MyDocument>)
      modifies this
      ensures name !in old(collection) || !HasRow(old(collection)[name], rowName) ==>
        found == None && collection == old(collection)
      ensures name in old(collection) && HasRow(old(collection)[name], rowName) ==>
        var i := FirstMatch(old(collection)[name], rowName).value;
        && collection == old(collection)[name := SetOtherFieldsAt(old(collection)[name], i, value)]
        && found == Some(MyDocument(name, collection[name]))
    {
      if name in collection {
        match FirstMatch(collection[name], rowName)
        case None =>
          found := None;
        case Some(i) =>
          collection := collection[name := SetOtherFieldsAt(collection[name], i, value)];
          found := Some(MyDocument(name, collection[name]));
      } else {
        found := None;
      }
    }

    /**
     * Append `entry` to document `name`. The prefix check runs before any store call;
     * the lookup, the duplicate scan and the push follow in that order.
     */
    method AddRowToDocument(name: string, entry: RowEntry) returns (r: Outcome)
      modifies this
      ensures Step(r, collection) == AddRow(old(collection), name, entry)
      ensures old(Valid()) ==> Valid()
    {
      if !StartsWith(entry.rowName, RowPrefix(name)) {
        return InvalidArgument;
      }
      var existing := FindOne(name);
      if existing.None? {
        return DocumentNotFound;
      }
      if HasRow(existing.value.rows, entry.rowName) {
        return DuplicateRow;
      }
      ghost var before := collection;
      AddRowKeepsDistinct(before, name, entry);
      var updated := FindAndPush(name, entry);
      match updated
      case None =>
        // The document was found above and nothing ran since: it cannot have vanished.
        assert false;
        r := DocumentNotFound;
      case Some(doc) =>
        r := Ok(doc);
    }

    /**
     * Set the payload of the row named `entry.rowName` in document `name`. On a valid
     * collection the row set is the only one of that name, so every row of that name
     * carries the new payload and every row of another name is as it was.
     */
    method UpdateRowInDocument(name: string, entry: RowEntry) returns (r: Outcome)
      modifies this
      ensures Step(r, collection) == UpdateRow(old(collection), name, entry)
      ensures old(Valid()) ==> Valid()
      ensures old(Valid()) && r.Ok? ==>
        && name in old(collection) && name in collection
        && |collection[name]| == |old(collection)[name]|
        && (forall j :: 0 <= j < |collection[name]| && collection[name][j].rowName == entry.rowName ==>
              collection[name][j] == RowEntry(entry.rowName, entry.otherFields))
        && (forall j :: 0 <= j < |collection[name]| && old(collection)[name][j].rowName != entry.rowName ==>
              collection[name][j] == old(collection)[name][j])
    {
      ghost var before := collection;
      UpdateRowKeepsDistinct(before, name, entry);
      var updated := FindAndSetFirst(name, entry.rowName, entry.otherFields);
      match updated
      case None =>
        r := DocumentNotFound;
      case Some(doc) =>
        r := Ok(doc);
    }
  }

  /** An append never introduces a duplicate rowName into a document that had none. */
  lemma AddRowKeepsDistinct(store: Store, name: string, entry: RowEntry)
    ensures StoreDistinct(store) ==> StoreDistinct(AddRow(store, name, entry).store)
  {
  }

  /** An update never changes a rowName, so distinct names stay distinct. */
  lemma UpdateRowKeepsDistinct(store: Store, name: string, entry: RowEntry)
    ensures StoreDistinct(store) ==> StoreDistinct(UpdateRow(store, name, entry).store)
  {
  }
}
