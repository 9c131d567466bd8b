/**
 The drag payload of the library table: the track locations, as URLs, of the
 rows a selection touches. A selection lists one index per selected cell, so
 a row usually appears many times; it contributes at most one URL, in the
 order in which the selection first reaches it. URL well-formedness is a
 predicate passed in, and a URL is represented by its location text.
 */
module DragPayload {
  import opened LibraryTypes
  import CellData

  /** Whether `index` is a valid index in row `r`. */
  predicate InRow(index: ModelIndex, r: nat) {
    index.Valid? && index.row == r
  }

  /** The rows that valid indexes of the selection lie in. */
  function ValidRows(indexes: seq<ModelIndex>): set<nat> {
    set k | 0 <= k < |indexes| && indexes[k].Valid? :: indexes[k].row
  }

  predicate Distinct(rows: seq<nat>) {
    forall i, j :: 0 <= i < j < |rows| ==> rows[i] != rows[j]
  }

  /**
   The position of the first valid index of the selection that lies in row
   `r`, or the length of the selection when no valid index does.
   */
  function FirstValidAt(indexes: seq<ModelIndex>, r: nat): (k: nat)
    ensures k <= |indexes|
    ensures k < |indexes| ==> InRow(indexes[k], r)
    ensures forall q :: 0 <= q < k ==> !InRow(indexes[q], r)
  {
    if |indexes| == 0 then 0
    else if InRow(indexes[0], r) then 0
    else
      var k := 1 + FirstValidAt(indexes[1..], r);
      assert forall q :: 1 <= q < k ==> indexes[q] == indexes[1..][q - 1];
      k
  }

  /** A row is reached by the selection exactly when its first valid index lies inside it. */
  lemma FirstValidAtFound(indexes: seq<ModelIndex>, r: nat)
    ensures r in ValidRows(indexes) <==> FirstValidAt(indexes, r) < |indexes|
  {
    var k := FirstValidAt(indexes, r);
    if r in ValidRows(indexes) {
      var q :| 0 <= q < |indexes| && indexes[q].Valid? && indexes[q].row == r;
      assert InRow(indexes[q], r);
    }
    if k < |indexes| {
      assert indexes[k].Valid? && indexes[k].row == r;
    }
  }

  /**
   The rows the payload walks, in the order it meets them: each valid index
   whose row has not been seen yet adds its row; invalid indexes add nothing.
   */
  function SeenRows(indexes: seq<ModelIndex>): (rows: seq<nat>)
    ensures |rows| <= |indexes|
  {
    if |indexes| == 0 then []
    else
      var seen := SeenRows(indexes[..|indexes| - 1]);
      var index := indexes[|indexes| - 1];
      if index.Valid? && index.row !in seen then seen + [index.row] else seen
  }

  /**
   The walked rows are pairwise distinct, and they are exactly the rows of
   the valid indexes, so invalid indexes contribute nothing.
   */
  lemma {:induction false} SeenRowsSpec(indexes: seq<ModelIndex>)
    ensures Distinct(SeenRows(indexes))
    ensures forall r :: r in SeenRows(indexes) <==> r in ValidRows(indexes)
  {
    if |indexes| > 0 {
      var init := indexes[..|indexes| - 1];
      var index := indexes[|indexes| - 1];
      assert indexes == init + [index];
      SeenRowsSpec(init);
      ValidRowsSnoc(init, index);
    }
  }

  /** Appending an index adds its row to the valid rows exactly when it is valid. */
  lemma ValidRowsSnoc(init: seq<ModelIndex>, index: ModelIndex)
    ensures ValidRows(init + [index]) == ValidRows(init) + (if index.Valid? then {index.row} else {})
  {
    var s := init + [index];
    forall r ensures r in ValidRows(s) <==> r in ValidRows(init) || InRow(index, r) {
      if r in ValidRows(s) {
        var k :| 0 <= k < |s| && s[k].Valid? && s[k].row == r;
        if k < |init| {
          assert init[k] == s[k];
        }
      }
      if r in ValidRows(init) {
        var k :| 0 <= k < |init| && init[k].Valid? && init[k].row == r;
        assert s[k] == init[k];
      }
      if InRow(index, r) {
        assert s[|init|] == index;
      }
    }
  }

  /** The URLs of a sequence of rows, skipping rows whose location is not a well-formed URL. */
  function UrlsOf(rows: seq<nat>, locationOf: nat -> string, isValidUrl: string -> bool): seq<string> {
    if |rows| == 0 then []
    else
      var location := locationOf(rows[|rows| - 1]);
      UrlsOf(rows[..|rows| - 1], locationOf, isValidUrl) + (if isValidUrl(location) then [location] else [])
  }

  /** The rows of a selection whose location is a well-formed URL. */
  function UrlRows(indexes: seq<ModelIndex>, locationOf: nat -> string, isValidUrl: string -> bool): set<nat> {
    set r | r in ValidRows(indexes) && isValidUrl(locationOf(r))
  }

  /**
   The drag payload of a selection: one URL for each distinct row of a valid
   index whose location is well-formed, in order of first appearance.
   */
  method MimeData(indexes: seq<ModelIndex>, locationOf: nat -> string, isValidUrl: string -> bool)
    returns (urls: seq<string>)
    ensures urls == UrlsOf(SeenRows(indexes), locationOf, isValidUrl)
    ensures forall u :: u in urls ==> isValidUrl(u)
  {
    var rows: seq<nat> := [];
    urls := [];
    var i := 0;
    while i < |indexes|
      invariant 0 <= i <= |indexes|
      invariant rows == SeenRows(indexes[..i])
      invariant urls == UrlsOf(rows, locationOf, isValidUrl)
    {
      var index := indexes[i];
      SeenRowsStep(indexes, i);
      if index.Valid? && index.row !in rows {
        // Only one URL per row.
        UrlsOfSnoc(rows, index.row, locationOf, isValidUrl);
        rows := rows + [index.row];
        var url := CellData.TrackLocation(index, locationOf);
        if isValidUrl(url) {
          urls := urls + [url];
        }
      }
      i := i + 1;
    }
    assert indexes[..|indexes|] == indexes;
    UrlsAreValid(rows, locationOf, isValidUrl);
  }

  /** One more row adds its location to the URLs exactly when the location is well-formed. */
  lemma UrlsOfSnoc(rows: seq<nat>, r: nat, locationOf: nat -> string, isValidUrl: string -> bool)
    ensures UrlsOf(rows + [r], locationOf, isValidUrl) ==
      UrlsOf(rows, locationOf, isValidUrl) + (if isValidUrl(locationOf(r)) then [locationOf(r)] else [])
  {
    assert (rows + [r])[..|rows|] == rows;
  }

  /** One more index of the selection extends the walked rows by its row, if that row is new. */
  lemma SeenRowsStep(indexes: seq<ModelIndex>, i: nat)
    requires i < |indexes|
    ensures SeenRows(indexes[..i + 1]) ==
      var seen := SeenRows(indexes[..i]);
      if indexes[i].Valid? && indexes[i].row !in seen then seen + [indexes[i].row] else seen
  {
    assert indexes[..i + 1][..i] == indexes[..i];
  }

  /**
   The payload holds one well-formed URL for each distinct valid row whose
   location is well-formed, so no more URLs than distinct valid rows.
   */
  lemma PayloadCount(indexes: seq<ModelIndex>, locationOf: nat -> string, isValidUrl: string -> bool)
    ensures |UrlsOf(SeenRows(indexes), locationOf, isValidUrl)| == |UrlRows(indexes, locationOf, isValidUrl)|
    ensures |UrlsOf(SeenRows(indexes), locationOf, isValidUrl)| <= |ValidRows(indexes)|
    ensures forall u :: u in UrlsOf(SeenRows(indexes), locationOf, isValidUrl) ==> isValidUrl(u)
  {
    var rows := SeenRows(indexes);
    SeenRowsSpec(indexes);
    UrlCount(rows, locationOf, isValidUrl);
    UrlsAreValid(rows, locationOf, isValidUrl);
    var validUrlRows := UrlRowSet(rows, locationOf, isValidUrl);
    assert validUrlRows == UrlRows(indexes, locationOf, isValidUrl);
    SubsetCardinality(validUrlRows, ValidRows(indexes));
  }

  lemma SubsetCardinality(a: set<nat>, b: set<nat>)
    requires a <= b
    ensures |a| <= |b|
  {
    assert b == a + (b - a);
  }

  /** Every URL in the payload is well-formed. */
  lemma {:induction false} UrlsAreValid(rows: seq<nat>, locationOf: nat -> string, isValidUrl: string -> bool)
    ensures forall u :: u in UrlsOf(rows, locationOf, isValidUrl) ==> isValidUrl(u)
  {
    if |rows| > 0 {
      UrlsAreValid(rows[..|rows| - 1], locationOf, isValidUrl);
    }
  }

  /** The rows of a sequence whose location is a well-formed URL. */
  function UrlRowSet(rows: seq<nat>, locationOf: nat -> string, isValidUrl: string -> bool): set<nat> {
    set r | r in rows && isValidUrl(locationOf(r))
  }

  lemma UrlRowSetSnoc(init: seq<nat>, last: nat, locationOf: nat -> string, isValidUrl: string -> bool)
    ensures UrlRowSet(init + [last], locationOf, isValidUrl) ==
      UrlRowSet(init, locationOf, isValidUrl) + (if isValidUrl(locationOf(last)) then {last} else {})
  {
  }

  /**
   Distinct rows give exactly one URL each for the rows whose location is
   well-formed, and none for the others.
   */
  lemma {:induction false} UrlCount(rows: seq<nat>, locationOf: nat -> string, isValidUrl: string -> bool)
    requires Distinct(rows)
    ensures |UrlsOf(rows, locationOf, isValidUrl)| == |UrlRowSet(rows, locationOf, isValidUrl)|
  {
    if |rows| > 0 {
      var init := rows[..|rows| - 1];
      var last := rows[|rows| - 1];
      assert Distinct(init) by {
        forall i, j | 0 <= i < j < |init| ensures init[i] != init[j] {
          assert init[i] == rows[i] && init[j] == rows[j];
        }
      }
      UrlCount(init, locationOf, isValidUrl);
      assert rows == init + [last];
      UrlRowSetSnoc(init, last, locationOf, isValidUrl);
      assert last !in UrlRowSet(init, locationOf, isValidUrl) by {
        forall k | 0 <= k < |init| ensures init[k] != last {
          assert init[k] == rows[k];
        }
      }
    }
  }

  /**
   The rows come in the order of their first valid index: every walked row is
   reached by the selection, and a row listed earlier is reached earlier.
   */
  lemma {:induction false} SeenRowsFirstOccurrenceOrder(indexes: seq<ModelIndex>)
    ensures forall i :: 0 <= i < |SeenRows(indexes)| ==>
      FirstValidAt(indexes, SeenRows(indexes)[i]) < |indexes|
    ensures forall i, j :: 0 <= i < j < |SeenRows(indexes)| ==>
      FirstValidAt(indexes, SeenRows(indexes)[i]) < FirstValidAt(indexes, SeenRows(indexes)[j])
  {
    if |indexes| > 0 {
      var init := indexes[..|indexes| - 1];
      var index := indexes[|indexes| - 1];
      assert indexes == init + [index];
      SeenRowsFirstOccurrenceOrder(init);
      SeenRowsSpec(init);
      var rows := SeenRows(init);
      var rows' := SeenRows(indexes);
      forall i | 0 <= i < |rows|
        ensures FirstValidAt(indexes, rows[i]) == FirstValidAt(init, rows[i]) < |init|
      {
        FirstValidAtSnoc(init, index, rows[i]);
      }
      if |rows'| > |rows| {
        FirstValidAtNew(init, index);
      }
    }
  }

  /** A row already reached by a selection is first reached at the same place after appending. */
  lemma FirstValidAtSnoc(init: seq<ModelIndex>, index: ModelIndex, r: nat)
    requires FirstValidAt(init, r) < |init|
    ensures FirstValidAt(init + [index], r) == FirstValidAt(init, r)
  {
    var s := init + [index];
    var k := FirstValidAt(init, r);
    assert s[k] == init[k];
    assert forall q :: 0 <= q < |init| ==> s[q] == init[q];
  }

  /** A row that an appended index reaches for the first time is first reached there. */
  lemma FirstValidAtNew(init: seq<ModelIndex>, index: ModelIndex)
    requires index.Valid? && index.row !in ValidRows(init)
    ensures FirstValidAt(init + [index], index.row) == |init|
  {
    FirstValidAtFound(init, index.row);
    var s := init + [index];
    assert forall q :: 0 <= q < |init| ==> s[q] == init[q];
    assert s[|init|] == index;
  }

  /**
   Selecting more cells of rows already selected changes nothing: the
   payload walks the same rows, so the same URLs come out.
   */
  lemma {:induction false} RepeatedRowsAddNothing(indexes: seq<ModelIndex>, more: seq<ModelIndex>)
    requires ValidRows(more) <= ValidRows(indexes)
    ensures SeenRows(indexes + more) == SeenRows(indexes)
  {
    if |more| == 0 {
      assert indexes + more == indexes;
    } else {
      var init := more[..|more| - 1];
      var index := more[|more| - 1];
      ValidRowsSnoc(init, index);
      assert more == init + [index];
      RepeatedRowsAddNothing(indexes, init);
      SeenRowsSpec(indexes);
      assert indexes + more == (indexes + init) + [index];
      assert (indexes + more)[..|indexes + more| - 1] == indexes + init;
    }
  }

  /** A selection listed twice over gives the payload of the selection listed once. */
  lemma SelectionTwiceSameRows(indexes: seq<ModelIndex>)
    ensures SeenRows(indexes + indexes) == SeenRows(indexes)
  {
    RepeatedRowsAddNothing(indexes, indexes);
  }
}
