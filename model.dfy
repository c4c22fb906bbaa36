/**
 * The records the row-mutation service stores and the pure checks it runs on them:
 * the rowName prefix test, the duplicate scan over a document's rows, the positional
 * match a store update uses to pick a row, and the field set on that row.
 */
module Model {

  datatype Option<T> = None | Some(value: T)

  /** One embedded row: its identifier and its opaque payload. */
  datatype RowEntry = RowEntry(rowName: string, otherFields: string)

  /** A named document owning an ordered sequence of rows. */
  datatype MyDocument = MyDocument(name: string, rows: seq<RowEntry>)

  /** True iff `s` begins with `prefix`, compared character by character. */
  function StartsWith(s: string, prefix: string): (r: bool)
    ensures r <==> |prefix| <= |s| && s[..|prefix|] == prefix
  {
    if |prefix| == 0 then true
    else if |s| == 0 then false
    else s[0] == prefix[0] && StartsWith(s[1..], prefix[1..])
  }

  /** True iff some row of `rows` is named `rowName` (a scan over the rows). */
  function HasRow(rows: seq<RowEntry>, rowName: string): (r: bool)
    ensures r <==> exists i :: 0 <= i < |rows| && rows[i].rowName == rowName
  {
    if |rows| == 0 then false
    else rows[0].rowName == rowName || HasRow(rows[1..], rowName)
  }

  /**
   * The index of the first row named `rowName`, or None when there is none:
   * the element a positional update addresses.
   */
  function FirstMatch(rows: seq<RowEntry>, rowName: string): (r: Option<nat>)
    ensures r.Some? ==> r.value < |rows| && rows[r.value].rowName == rowName
    ensures r.Some? ==> forall j :: 0 <= j < r.value ==> rows[j].rowName != rowName
    ensures r.None? ==> forall j :: 0 <= j < |rows| ==> rows[j].rowName != rowName
  {
    if |rows| == 0 then None
    else if rows[0].rowName == rowName then Some(0)
    else match FirstMatch(rows[1..], rowName)
      case None => None
      case Some(i) => Some(i + 1)
  }

  /** `rows` with the payload of row `i` replaced by `value`; its name stays. */
  function SetOtherFieldsAt(rows: seq<RowEntry>, i: nat, value: string): (r: seq<RowEntry>)
    requires i < |rows|
    ensures |r| == |rows|
    ensures r[i].rowName == rows[i].rowName && r[i].otherFields == value
    ensures forall j :: 0 <= j < |rows| && j != i ==> r[j] == rows[j]
  {
    rows[i := rows[i].(otherFields := value)]
  }

  /** The uniqueness invariant: no two rows of a document share a rowName. */
  predicate DistinctRowNames(rows: seq<RowEntry>)
  {
    forall i, j :: 0 <= i < j < |rows| ==> rows[i].rowName != rows[j].rowName
  }
}
