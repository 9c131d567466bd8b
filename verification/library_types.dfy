/**
 The vocabulary shared by the rules of the library table model: optional
 values, the columns of the `library` table that the model refers to by
 name, and model indexes that point at one cell of the table.
 */
module LibraryTypes {

  /** The conventional Some/None datatype. */
  datatype Option<+T> = None | Some(value: T)

  /**
   The columns of the `library` table named by the model. Their positions
   come from the database schema (`fieldIndex`), which is not part of this
   model, so a column is identified by its name only.
   */
  datatype Column =
    | Id
    | Artist
    | Title
    | Album
    | Genre
    | Year
    | Location
    | Comment
    | Duration
    | Bitrate
    | Bpm
    | TrackNumber
    | Filename
    | Url
    | LengthInBytes
    | CuePoint
    | WaveSummaryHex
    | SampleRate
    | Channels

  /** A model index: either one cell of the table, or the invalid index. */
  datatype ModelIndex = Valid(row: nat, col: Column) | Invalid
}
