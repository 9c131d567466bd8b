/**
 Reading one cell of the library table. The value the underlying SQL table
 model stores for a cell, and the framework's conversion of a value to an
 integer, are not part of this model: they are passed in.
 */
module CellData {
  import opened LibraryTypes
  import opened DurationFormat

  /** A cell value: empty, an integer, or text. */
  datatype Value = Null | Int(i: int) | Text(s: string)

  /** The item-data role under which a view asks for the text to show. */
  const DisplayRole: int := 0

  /** Whether a read is the display text of a duration cell. */
  predicate IsDurationDisplay(item: ModelIndex, role: int) {
    item.Valid? && role == DisplayRole && item.col == Duration
  }

  /**
   The value a view gets for a cell. `stored` is what the table holds for
   the cell under `role`, and `toInt` says whether, and to which integer, that
   value converts. The invalid index reads as empty. The display text of a
   duration that converts to an integer of seconds becomes "minutes:seconds";
   every other read passes the stored value through unchanged.
   */
  function Data(item: ModelIndex, role: int, stored: Value, toInt: Value -> Option<int>): (r: Value)
    ensures !item.Valid? ==> r == Null
    ensures item.Valid? && !(IsDurationDisplay(item, role) && toInt(stored).Some?) ==> r == stored
    ensures IsDurationDisplay(item, role) && toInt(stored).Some? && toInt(stored).value >= 0 ==>
      r.Text? && ParseDuration(r.s) == Some(toInt(stored).value)
    ensures IsDurationDisplay(item, role) && toInt(stored).Some? && toInt(stored).value < 0 ==>
      r.Text? && ParseDuration(r.s) == None
  {
    if !item.Valid? then Null
    else if IsDurationDisplay(item, role) && toInt(stored).Some? then
      var totalSeconds := toInt(stored).value;
      if totalSeconds >= 0 then FormatParseRoundTrip(totalSeconds); Text(FormatDuration(totalSeconds))
      else NegativeDurationNeverReadsBack(totalSeconds); Text(FormatDuration(totalSeconds))
    else stored
  }

  /**
   Only the duration display changes a value, and then it always yields the
   text of the duration in "minutes:seconds" form.
   */
  lemma DataChangesOnlyDurationDisplay(item: ModelIndex, role: int, stored: Value, toInt: Value -> Option<int>)
    requires item.Valid?
    ensures Data(item, role, stored, toInt) != stored ==>
      IsDurationDisplay(item, role) && toInt(stored).Some?
      && Data(item, role, stored, toInt) == Text(FormatDuration(toInt(stored).value))
  {
  }

  /**
   The location of the track in an index's row, or the empty text for the
   invalid index (whose sibling cells are invalid and read as empty).
   */
  function TrackLocation(index: ModelIndex, locationOf: nat -> string): (location: string)
    ensures index.Invalid? ==> location == ""
    ensures index.Valid? ==> location == locationOf(index.row)
  {
    if index.Valid? then locationOf(index.row) else ""
  }

  /**
   The location is read as the display value of the row's location cell,
   and that read hands the stored location back unchanged, because the
   location column is not the duration column.
   */
  lemma TrackLocationReadsLocationCell(index: ModelIndex, locationOf: nat -> string, toInt: Value -> Option<int>)
    requires index.Valid?
    ensures Data(Valid(index.row, Location), DisplayRole, Text(locationOf(index.row)), toInt)
      == Text(TrackLocation(index, locationOf))
  {
  }

  /** Every cell of a row names the same track location, whichever column it is in. */
  lemma TrackLocationIgnoresColumn(row: nat, a: Column, b: Column, locationOf: nat -> string)
    ensures TrackLocation(Valid(row, a), locationOf) == TrackLocation(Valid(row, b), locationOf)
  {
  }
}
