/**
 * What the two operations promise, stated over AddRow and UpdateRow for every store,
 * document name and entry, and the scenarios the integration tests exercise.
 */
module Properties {
  import opened Model
  import opened Service

  /** Some row of `rows` is named `rowName` (independent of the scan HasRow). */
  ghost predicate Contains(rows: seq<RowEntry>, rowName: string)
  {
    exists i :: 0 <= i < |rows| && rows[i].rowName == rowName
  }

  /**
   * The outcome of an append is decided in this order: a rowName without the prefix
   * `name/` is InvalidArgument whatever the store holds, then a missing document is
   * DocumentNotFound, then an already present rowName is DuplicateRow; only a call that
   * passes all three succeeds, and every failure leaves the store unchanged.
   */
  lemma AddRowOutcomes(store: Store, name: string, entry: RowEntry)
    ensures var st := AddRow(store, name, entry);
      && (st.outcome == InvalidArgument <==> !(name + "/" <= entry.rowName))
      && (st.outcome == DocumentNotFound <==> name + "/" <= entry.rowName && name !in store)
      && (st.outcome == DuplicateRow <==>
            name + "/" <= entry.rowName && name in store && Contains(store[name], entry.rowName))
      && (st.outcome.Ok? <==>
            name + "/" <= entry.rowName && name in store && !Contains(store[name], entry.rowName))
      && (!st.outcome.Ok? ==> st.store == store)
  {
  }

  /**
   * A successful append adds `entry` at the end of the document's rows: one row more,
   * every earlier row where it was, and the returned document is the stored one.
   */
  lemma AddRowAppends(store: Store, name: string, entry: RowEntry)
    requires AddRow(store, name, entry).outcome.Ok?
    ensures var st := AddRow(store, name, entry);
      && name in store && name in st.store
      && st.store[name] == store[name] + [entry]
      && |st.store[name]| == |store[name]| + 1
      && (forall i :: 0 <= i < |store[name]| ==> st.store[name][i] == store[name][i])
      && st.store[name][|store[name]|] == entry
      && st.outcome.doc == MyDocument(name, st.store[name])
  {
  }

  /** An append touches no document other than `name`, and adds or removes none. */
  lemma AddRowFrame(store: Store, name: string, entry: RowEntry)
    ensures var st := AddRow(store, name, entry);
      && st.store.Keys == store.Keys
      && forall other :: other in store && other != name ==> st.store[other] == store[other]
  {
  }

  /** The same append made twice in a row succeeds once and then reports DuplicateRow. */
  lemma AddRowTwice(store: Store, name: string, entry: RowEntry)
    requires AddRow(store, name, entry).outcome.Ok?
    ensures var after := AddRow(store, name, entry).store;
      AddRow(after, name, entry) == Step(DuplicateRow, after)
  {
    var after := AddRow(store, name, entry).store;
    var rows := after[name];
    assert rows[|rows| - 1].rowName == entry.rowName;
  }

  /**
   * An update fails with DocumentNotFound exactly when the document is absent or holds
   * no row named `entry.rowName`, and a failed update leaves the store unchanged.
   */
  lemma UpdateRowOutcomes(store: Store, name: string, entry: RowEntry)
    ensures var st := UpdateRow(store, name, entry);
      && (st.outcome.Ok? || st.outcome == DocumentNotFound)
      && (st.outcome == DocumentNotFound <==> name !in store || !Contains(store[name], entry.rowName))
      && (!st.outcome.Ok? ==> st.store == store)
  {
  }

  /**
   * A successful update writes `entry.otherFields` into the first row named
   * `entry.rowName` (index `k`) and nowhere else: that row keeps its name, the row
   * count is the same, every other row is untouched and the returned document is the
   * stored one.
   */
  lemma UpdateRowSetsFirstMatch(store: Store, name: string, entry: RowEntry, k: nat)
    requires name in store && k < |store[name]|
    requires store[name][k].rowName == entry.rowName
    requires forall j :: 0 <= j < k ==> store[name][j].rowName != entry.rowName
    ensures var st := UpdateRow(store, name, entry);
      && st.outcome.Ok? && name in st.store
      && |st.store[name]| == |store[name]|
      && st.store[name][k] == RowEntry(entry.rowName, entry.otherFields)
      && (forall j :: 0 <= j < |store[name]| && j != k ==> st.store[name][j] == store[name][j])
      && st.outcome.doc == MyDocument(name, st.store[name])
  {
  }

  /**
   * When the document's rowNames are distinct, the row updated is the only one named
   * `entry.rowName`: it carries the new payload and every row with another name keeps
   * its content.
   */
  lemma UpdateRowOnlyNamedRow(store: Store, name: string, entry: RowEntry)
    requires name in store && DistinctRowNames(store[name])
    requires UpdateRow(store, name, entry).outcome.Ok?
    ensures var rows := UpdateRow(store, name, entry).store[name];
      && |rows| == |store[name]|
      && (forall j :: 0 <= j < |rows| && rows[j].rowName == entry.rowName ==>
            rows[j] == RowEntry(entry.rowName, entry.otherFields))
      && (forall j :: 0 <= j < |rows| && store[name][j].rowName != entry.rowName ==>
            rows[j] == store[name][j])
  {
  }

  /** An update touches no document other than `name`, and adds or removes none. */
  lemma UpdateRowFrame(store: Store, name: string, entry: RowEntry)
    ensures var st := UpdateRow(store, name, entry);
      && st.store.Keys == store.Keys
      && forall other :: other in store && other != name ==> st.store[other] == store[other]
  {
  }

  /** Making the same update twice gives the same outcome and store as making it once. */
  lemma UpdateRowIdempotent(store: Store, name: string, entry: RowEntry)
    ensures var once := UpdateRow(store, name, entry);
      UpdateRow(once.store, name, entry) == once
  {
    var once := UpdateRow(store, name, entry);
    if once.outcome.Ok? {
      var k := FirstMatch(store[name], entry.rowName).value;
      var rows := once.store[name];
      FirstMatchSameNames(store[name], rows, entry.rowName);
      assert rows[k := rows[k].(otherFields := entry.otherFields)] == rows;
      assert once.store[name := rows] == once.store;
    }
  }

  /** The positional match depends on the rowNames only. */
  lemma FirstMatchSameNames(a: seq<RowEntry>, b: seq<RowEntry>, rowName: string)
    requires |a| == |b|
    requires forall i :: 0 <= i < |a| ==> a[i].rowName == b[i].rowName
    ensures FirstMatch(a, rowName) == FirstMatch(b, rowName)
  {
  }

  /** The collection the integration tests seed: document "a" with the row "a/init". */
  function Seed(): Store
  {
    map["a" := [RowEntry("a/init", "first")]]
  }

  /** Appending to a document that does not exist is DocumentNotFound. */
  lemma MissingDocumentScenario()
    ensures AddRow(Seed(), "nonexistent", RowEntry("nonexistent/row", "xxx")).outcome == DocumentNotFound
  {
  }

  /** Appending "a/init" again to "a" is DuplicateRow and leaves the document as it was. */
  lemma DuplicateRowScenario()
    ensures AddRow(Seed(), "a", RowEntry("a/init", "new content")) == Step(DuplicateRow, Seed())
  {
  }

  /** Appending a fresh "a/new-row" to "a" returns a document of two rows containing it. */
  lemma UniqueRowScenario()
    ensures var out := AddRow(Seed(), "a", RowEntry("a/new-row", "unique content")).outcome;
      && out.Ok?
      && |out.doc.rows| == 2
      && HasRow(out.doc.rows, "a/new-row")
  {
  }
}
