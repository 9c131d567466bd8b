# Library table model of Mixxx, in Dafny

This project models the decision rules of Mixxx's `LibraryTableModel`. That class
adapts the `library` table of the track database to Qt's item-view framework.
The rules modelled are these:

- how a cell is read, including the "minutes:seconds" rendering of the duration column;
- how a drag payload is built from a selection: one URL per distinct row, in order of
  first appearance, skipping malformed URLs;
- how a search text becomes the table's row filter, and the search text the model remembers;
- which columns are internal, which item flags a cell has, and which capabilities the
  library advertises. Moving a track does nothing.

Modules:

- `LibraryTypes` (`library_types.dfy`): `Option`, the `Column` enumeration of the 19 table
  columns the class names, and `ModelIndex` (`Valid(row, col)` or `Invalid`).
- `Decimal` (`decimal.dfy`): base-10 rendering of numbers and its inverse parser.
- `DurationFormat` (`duration_format.dfy`): the duration text. It uses C++ truncating
  division and remainder, and `QString::arg` zero-padding. `ParseDuration` is the
  reference reading of the text.
- `CellData` (`cell_data.dfy`): `Data`, the cell read, and `TrackLocation`, the location of
  an index's row.
- `DragPayload` (`drag_payload.dfy`): `MimeData`, the payload loop, and its functional
  reference `SeenRows`/`UrlsOf`.
- `TableState` (`table_state.dfy`): the current search text and filter, `Search` and
  `SearchTextOf`, which parses a filter back into its search text, and `MoveTrack`.
- `ColumnRules` (`column_rules.dfy`): `IsColumnInternal`, `Flags` and `GetCapabilities`.

Several things the class gets from code outside this file are parameters of the model:

- the database column positions: columns are identified by name;
- the stored value of a cell (`stored`), and Qt's conversion of a value to an integer (`toInt`);
- the location stored in each row (`locationOf`);
- `QUrl::isValid` (`isValidUrl`).

The base item model's default flags are `BaseFlags`. They follow Qt 4's
`QAbstractItemModel::flags`: no flags for the invalid index, and selectable plus enabled
for any other index.

The comment at librarytablemodel.cpp:130 calls the duration format "MM:SS"; the model
follows the code beneath it, which does not pad the minutes: 65 seconds shows as `1:05`,
not `01:05`. Negative integers are rendered as the
C++ arithmetic renders them: `-65` shows as `-1:-5`. `NegativeDurationRendering` states this.

## Model

| member | source | states |
|---|---|---|
| `DurationFormat.TruncRem` | mixxx/src/library/librarytablemodel.cpp:132-133 | The C++ quotient and remainder by 60 recombine to the total. The remainder has the sign of the total and magnitude below 60. |
| `DurationFormat.TruncMatchesEuclidean` | mixxx/src/library/librarytablemodel.cpp:132-133 | For a non-negative total, the truncating quotient and remainder equal the mathematical `d / 60` and `d % 60`. |
| `DurationFormat.SecondsField` | mixxx/src/library/librarytablemodel.cpp:132-137 | A seconds value in 0..59 renders as exactly two digits that read back as the value. The first digit is '0' exactly when the value is below 10. |
| `DurationFormat.DurationShape` | mixxx/src/library/librarytablemodel.cpp:131-137 | For d >= 0, the text is `toString(d/60) + ":" + pad2(d%60)`. The part before the colon is the minutes. The last two characters are digits worth `d % 60` < 60. `(d/60)*60 + d%60 == d`. |
| `DurationFormat.FormatParseRoundTrip` | mixxx/src/library/librarytablemodel.cpp:130-137 | Reading a non-negative duration's text back gives the same number of seconds. |
| `DurationFormat.ParseFormatRoundTrip` | mixxx/src/library/librarytablemodel.cpp:130-137 | Every text that reads as a duration is exactly the text rendered for that duration. Together with the previous row, rendering is a bijection onto well-formed "M:SS" texts. |
| `DurationFormat.FormatDuration` | mixxx/src/library/librarytablemodel.cpp:131-137 | For d >= 0, the text is the whole minutes `d / 60` in decimal, a colon, and the remaining seconds `d % 60` zero-padded to two digits: the truncating C++ arithmetic agrees with the mathematical quotient and remainder here. |
| `DurationFormat.NegativeDurationRendering` | mixxx/src/library/librarytablemodel.cpp:131-137 | Sample renderings of negative totals: each non-zero field carries the sign (`-65` gives `-1:-5`, `-5` gives `0:-5`, `-600` gives `-10:00`). |
| `DurationFormat.NegativeDurationNeverReadsBack` | mixxx/src/library/librarytablemodel.cpp:131-137 | No negative total renders as a well-formed "M:SS" text: either the seconds field carries a minus sign, or the seconds are zero and the minutes are negative. |
| `Decimal.NatToString` | mixxx/src/library/librarytablemodel.cpp:137 | The base-10 rendering that `arg` uses is a non-empty digit string with no leading zero. It has one character exactly for numbers below 10. |
| `Decimal.ParseNatToString` | mixxx/src/library/librarytablemodel.cpp:137 | Reading a rendered number back gives the number. |
| `Decimal.NatToStringParse` | mixxx/src/library/librarytablemodel.cpp:137 | Rendering the value of a canonical digit string gives the same string back. |
| `CellData.Data` | mixxx/src/library/librarytablemodel.cpp:119-141 | The invalid index reads as empty. A display read of a duration cell whose value converts to an integer d gives text that reads back as d when d >= 0, and text that reads as no duration when d < 0. For a valid index, every read that is not a display read of a convertible duration returns the stored value unchanged. |
| `CellData.DataChangesOnlyDurationDisplay` | mixxx/src/library/librarytablemodel.cpp:123-140 | For a valid index, the only reads that change the stored value are display reads of a convertible duration. These yield the duration's text. |
| `CellData.TrackLocation` | mixxx/src/library/librarytablemodel.cpp:65-70 | The location of a valid index is the location stored in its row. The location of the invalid index is the empty text. |
| `CellData.TrackLocationReadsLocationCell` | mixxx/src/library/librarytablemodel.cpp:67-69 | Reading the row's location cell through `data()` at display role hands back the stored location unchanged, since the location column is not the duration column. |
| `CellData.TrackLocationIgnoresColumn` | mixxx/src/library/librarytablemodel.cpp:65-70 | All cells of a row name the same location, whatever their column. |
| `DragPayload.SeenRows` | mixxx/src/library/librarytablemodel.cpp:152-156 | The walk adds at most one row per index of the selection. |
| `DragPayload.SeenRowsSpec` | mixxx/src/library/librarytablemodel.cpp:150-164 | The rows the payload walks are pairwise distinct. They are exactly the rows of the valid indexes, so invalid indexes contribute nothing. |
| `DragPayload.SeenRowsFirstOccurrenceOrder` | mixxx/src/library/librarytablemodel.cpp:152-157 | Every walked row is reached by some valid index. The rows are ordered by the position of each row's first valid index in the selection. |
| `DragPayload.MimeData` | mixxx/src/library/librarytablemodel.cpp:143-167 | The loop's URLs are the well-formed locations of the walked rows, in walk order, and every URL is well-formed. |
| `DragPayload.PayloadCount` | mixxx/src/library/librarytablemodel.cpp:150-164 | The payload holds exactly one URL per distinct valid row whose location is well-formed, so at most as many URLs as distinct valid rows. |
| `DragPayload.UrlCount` | mixxx/src/library/librarytablemodel.cpp:154-161 | Distinct rows give one URL per row with a well-formed location. A row whose location is malformed gives none, though it is still marked as seen. |
| `DragPayload.UrlsAreValid` | mixxx/src/library/librarytablemodel.cpp:157-161 | No malformed location reaches the payload. |
| `DragPayload.RepeatedRowsAddNothing` | mixxx/src/library/librarytablemodel.cpp:152-156 | Appending more indexes whose rows are already selected leaves the walked rows unchanged. |
| `DragPayload.SelectionTwiceSameRows` | mixxx/src/library/librarytablemodel.cpp:152-156 | A selection listed twice gives the same rows, and so the same URLs, as the selection listed once. |
| `TableState.Search` | mixxx/src/library/librarytablemodel.cpp:86-93 | After `search(t)`, `currentSearch()` is `t` and the filter matches `t`. The filter is empty for the empty text. Otherwise it is exactly `artist LIKE '%t%' OR title  LIKE '%t%'`. |
| `TableState.FilterFor` | mixxx/src/library/librarytablemodel.cpp:88-92 | The filter is empty exactly when the search text is empty. Otherwise its length is the fixed clause length plus twice the text's length. |
| `TableState.SearchTextOfFilter` | mixxx/src/library/librarytablemodel.cpp:88-92 | Every filter reads back, through a parser of its clauses, as the search text it was built from. |
| `TableState.FilterOfSearchText` | mixxx/src/library/librarytablemodel.cpp:88-92 | Every text the parser accepts is exactly the filter built from the search text it reads, so building and parsing are inverse. |
| `TableState.CurrentSearch` | mixxx/src/library/librarytablemodel.cpp:95-98 | In a consistent model, `currentSearch()` returns the text the current filter was built from. |
| `TableState.FilterForInjective` | mixxx/src/library/librarytablemodel.cpp:88-92 | Different search texts give different filters. |
| `TableState.SearchLastWins` | mixxx/src/library/librarytablemodel.cpp:86-98 | In a consistent model the filter determines `currentSearch()`. A later search overrides an earlier one entirely. Repeating a search changes nothing. |
| `TableState.InitialConsistent` | mixxx/src/library/librarytablemodel.cpp:8-12 | A new model starts with an empty search text (a default-constructed string) and no filter, and that state is consistent. |
| `TableState.MoveTrack` | mixxx/src/library/librarytablemodel.cpp:80-84 | Moving a track leaves the model exactly as it was. |
| `TableState.MoveTrackMatchesCapabilities` | mixxx/src/library/librarytablemodel.cpp:80-84 | Reordering is not advertised. Any sequence of moves leaves the model and its search unchanged. |
| `ColumnRules.IsColumnInternal` | mixxx/src/library/librarytablemodel.cpp:100-113 | A column is internal exactly when it is one of id, filename, URL, length in bytes, cue point, wave summary, sample rate or channels. |
| `ColumnRules.InternalColumnsPartition` | mixxx/src/library/librarytablemodel.cpp:100-113 | Of the 19 columns this class names, eight are internal, and a column is internal exactly when the constructor (librarytablemodel.cpp:18-39) gives it no header label. Columns the class never names are outside this statement. |
| `ColumnRules.Flags` | mixxx/src/library/librarytablemodel.cpp:169-187 | The invalid index gets only `ItemIsEnabled`. A valid index gets the base flags plus `ItemIsDragEnabled` and nothing else, except `ItemIsEditable` for the BPM column only. |
| `ColumnRules.FlagsValues` | mixxx/src/library/librarytablemodel.cpp:169-187 | As `Qt::ItemFlags` integers: 0x20 for the invalid index, 0x27 for a BPM cell, 0x25 for any other cell. |
| `ColumnRules.GetCapabilities` | mixxx/src/library/librarytablemodel.cpp:189-192 | The library advertises receiving drops and does not advertise reordering. |

## Left out

- `addTrack`, `removeTrack`, `getTrack`: they hand a location to the track collection and re-select the table. The collection is not part of this model, so no property of its contents can be stated.
- `select()`, `setTable`, and how the table applies a filter: these belong to the SQL table model and the database. `LIKE` matching, its case sensitivity, and the fact that the search text is not escaped are not modelled. The filter is modelled as the text the class builds.
- The constructor's header texts and their translation: only which columns get a label is modelled (`LabelledColumns`).
- The destructor and `delegateForColumn` (which returns no delegate): neither has behaviour to state.
- `QMimeData` and `QUrl`: a URL is represented by its location text, and URL validity is an abstract predicate. The `qDebug` lines are not modelled.
- `QVariant`: its conversion to `int` is the `toInt` parameter, and its values are reduced to empty, integer and text.
- Integer width: the seconds value is a C++ `int`, and the model uses unbounded integers. Division and remainder by 60 cannot overflow, so nothing is lost.
- Row count: an index is valid or not by construction. An index to a row beyond the table is not distinguished from a valid one.
