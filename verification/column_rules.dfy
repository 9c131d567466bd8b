/**
 The fixed per-column and per-index rules of the library table model: which
 columns are internal bookkeeping, which item flags a cell carries, and which
 track-model capabilities the library advertises.
 */
module ColumnRules {
  import opened LibraryTypes

  /** The columns the model labels with a header at construction time. */
  const LabelledColumns: set<Column> :=
    {Artist, Title, Album, Genre, Year, Location, Comment, Duration, Bitrate, Bpm, TrackNumber}

  /** Whether a column is implementation detail rather than something to show the user. */
  function IsColumnInternal(c: Column): (internal: bool)
    ensures internal <==>
      c in {Id, Filename, Url, LengthInBytes, CuePoint, WaveSummaryHex, SampleRate, Channels}
  {
    match c
    case Id | Filename | Url | LengthInBytes | CuePoint | WaveSummaryHex | SampleRate | Channels => true
    case _ => false
  }

  /**
   The columns split in two: every column is either internal or given a
   header label, never both, and there are eight internal ones.
   */
  lemma InternalColumnsPartition(c: Column)
    ensures IsColumnInternal(c) <==> c !in LabelledColumns
    ensures |set c': Column | IsColumnInternal(c')| == 8
  {
    var internal := set c': Column | IsColumnInternal(c');
    assert internal == {Id, Filename, Url, LengthInBytes, CuePoint, WaveSummaryHex, SampleRate, Channels} by {
      forall c': Column ensures c' in internal <==>
          c' in {Id, Filename, Url, LengthInBytes, CuePoint, WaveSummaryHex, SampleRate, Channels} {
      }
    }
  }

  /** The item flags of Qt's item-view framework. */
  datatype ItemFlag =
    | ItemIsSelectable
    | ItemIsEditable
    | ItemIsDragEnabled
    | ItemIsDropEnabled
    | ItemIsUserCheckable
    | ItemIsEnabled
    | ItemIsTristate

  /** The bit each flag occupies in a `Qt::ItemFlags` value. */
  function FlagBit(f: ItemFlag): nat {
    match f
    case ItemIsSelectable => 1
    case ItemIsEditable => 2
    case ItemIsDragEnabled => 4
    case ItemIsDropEnabled => 8
    case ItemIsUserCheckable => 16
    case ItemIsEnabled => 32
    case ItemIsTristate => 64
  }

  function BitIf(f: ItemFlag, fs: set<ItemFlag>): nat {
    if f in fs then FlagBit(f) else 0
  }

  /** The `Qt::ItemFlags` integer that a set of flags stands for. */
  function FlagsValue(fs: set<ItemFlag>): nat {
    BitIf(ItemIsSelectable, fs) + BitIf(ItemIsEditable, fs) + BitIf(ItemIsDragEnabled, fs)
    + BitIf(ItemIsDropEnabled, fs) + BitIf(ItemIsUserCheckable, fs) + BitIf(ItemIsEnabled, fs)
    + BitIf(ItemIsTristate, fs)
  }

  /**
   The flags the framework's base item model gives an index: none for the
   invalid index, selectable and enabled for any other.
   */
  function BaseFlags(index: ModelIndex): set<ItemFlag> {
    if index.Valid? then {ItemIsSelectable, ItemIsEnabled} else {}
  }

  /**
   The flags of one cell. The invalid index is only enabled; every cell can be
   dragged out of the view; only the BPM column is editable as well.
   */
  function Flags(index: ModelIndex): (fs: set<ItemFlag>)
    ensures index.Invalid? ==> fs == {ItemIsEnabled}
    ensures index.Valid? ==> BaseFlags(index) + {ItemIsDragEnabled} <= fs
    ensures index.Valid? ==> (ItemIsEditable in fs <==> index.col == Bpm)
    ensures index.Valid? ==> fs - {ItemIsEditable} == BaseFlags(index) + {ItemIsDragEnabled}
  {
    if !index.Valid? then {ItemIsEnabled}
    else
      var defaultFlags := BaseFlags(index) + {ItemIsDragEnabled};
      if index.col == Bpm then defaultFlags + {ItemIsEditable} else defaultFlags
  }

  /**
   The integer values of the three flag sets a cell can have: 0x20 for the
   invalid index, 0x27 for a BPM cell and 0x25 for any other cell.
   */
  lemma FlagsValues(row: nat, c: Column)
    ensures FlagsValue(Flags(Invalid)) == 0x20
    ensures FlagsValue(Flags(Valid(row, c))) == if c == Bpm then 0x27 else 0x25
  {
  }

  /** The optional behaviours a track model can advertise to the views that show it. */
  datatype Capability = Reorder | ReceiveDrops

  /** The library accepts drops but cannot be reordered. */
  function GetCapabilities(): (caps: set<Capability>)
    ensures ReceiveDrops in caps
    ensures Reorder !in caps
  {
    {ReceiveDrops}
  }
}
