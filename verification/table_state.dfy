/**
 The state the library table model keeps of its own: the text of the current
 search and the row filter it hands to the table. `SearchTextOf` reads a
 filter back into the search text it was built from; it is the inverse the
 filter construction is proved against.
 */
module TableState {
  import opened LibraryTypes
  import ColumnRules

  datatype LibraryTable = LibraryTable(currentSearch: string, filter: string)

  /** A freshly constructed model: no search text and no filter. */
  const Initial: LibraryTable := LibraryTable("", "")

  const ArtistClause: string := "artist LIKE '%"
  const TitleClause: string := "%' OR title  LIKE '%"
  const ClauseEnd: string := "%'"

  /** Length of the filter text around the two copies of the search text. */
  const FixedLength: nat := |ArtistClause| + |TitleClause| + |ClauseEnd|

  /**
   The row filter for a search text: none for the empty text, otherwise a
   predicate that matches the text anywhere in the artist or the title.
   */
  function FilterFor(text: string): (f: string)
    ensures text == "" <==> f == ""
    ensures text != "" ==> |f| == FixedLength + 2 * |text|
  {
    if text == "" then "" else ArtistClause + text + TitleClause + text + ClauseEnd
  }

  /**
   The search text a filter was built from, read off the filter's pieces: the
   empty filter stands for the empty text; otherwise the filter must be the
   artist clause, some non-empty text, the title clause, the same text again
   and the closing quote, with nothing else around them.
   */
  function SearchTextOf(f: string): Option<string> {
    if f == "" then Some("")
    else if |f| < FixedLength || (|f| - FixedLength) % 2 != 0 then None
    else
      var n := (|f| - FixedLength) / 2;
      var a := |ArtistClause|;
      var t := a + n + |TitleClause|;
      var text := f[a..a + n];
      if && text != ""
         && f[..a] == ArtistClause
         && f[a + n..t] == TitleClause
         && f[t..t + n] == text
         && f[t + n..] == ClauseEnd
      then Some(text)
      else None
  }

  /** The five pieces of a concatenation are found at their offsets. */
  lemma FivePieces(p: string, x: string, q: string, y: string, e: string)
    ensures var f := p + x + q + y + e;
      && f[..|p|] == p
      && f[|p|..|p| + |x|] == x
      && f[|p| + |x|..|p| + |x| + |q|] == q
      && f[|p| + |x| + |q|..|p| + |x| + |q| + |y|] == y
      && f[|p| + |x| + |q| + |y|..] == e
  {
  }

  /** A filter always reads back as the search text it was built from. */
  lemma SearchTextOfFilter(text: string)
    ensures SearchTextOf(FilterFor(text)) == Some(text)
  {
    if text != "" {
      FivePieces(ArtistClause, text, TitleClause, text, ClauseEnd);
    }
  }

  /** Only texts built by the filter construction read as a search text. */
  lemma FilterOfSearchText(f: string)
    requires SearchTextOf(f).Some?
    ensures FilterFor(SearchTextOf(f).value) == f
  {
    if f != "" {
      var n := (|f| - FixedLength) / 2;
      var a := |ArtistClause|;
      var t := a + n + |TitleClause|;
      SplitFive(f, a, a + n, t, t + n);
    }
  }

  /** A string is the concatenation of its pieces between four cut points. */
  lemma SplitFive(f: string, i: nat, j: nat, k: nat, l: nat)
    requires i <= j <= k <= l <= |f|
    ensures f == f[..i] + f[i..j] + f[j..k] + f[k..l] + f[l..]
  {
  }

  /** Different search texts give different filters. */
  lemma FilterForInjective(a: string, b: string)
    requires FilterFor(a) == FilterFor(b)
    ensures a == b
  {
    SearchTextOfFilter(a);
    SearchTextOfFilter(b);
  }

  /** The model's filter is the one its current search text calls for. */
  predicate Consistent(m: LibraryTable) {
    m.filter == FilterFor(m.currentSearch)
  }

  /**
   Starts a search: remembers the text and filters the rows by it. The empty
   text clears the filter; any other text filters on artist or title.
   */
  function Search(m: LibraryTable, text: string): (m': LibraryTable)
    ensures CurrentSearch(m') == text
    ensures Consistent(m')
    ensures text == "" ==> m'.filter == ""
    ensures text != "" ==> m'.filter == "artist LIKE '%" + text + "%' OR title  LIKE '%" + text + "%'"
  {
    LibraryTable(text, FilterFor(text))
  }

  /** The text of the current search; in a consistent model, the text the filter was built from. */
  function CurrentSearch(m: LibraryTable): (text: string)
    ensures Consistent(m) ==> FilterFor(text) == m.filter
  {
    m.currentSearch
  }

  /**
   In a consistent model the filter alone determines the current search
   text, and a search forgets everything an earlier search set.
   */
  lemma SearchLastWins(m: LibraryTable, a: string, b: string)
    ensures Consistent(m) ==> SearchTextOf(m.filter) == Some(CurrentSearch(m))
    ensures Search(Search(m, a), b) == Search(m, b)
    ensures Search(Search(m, a), a) == Search(m, a)
  {
    SearchTextOfFilter(m.currentSearch);
  }

  /** The initial model is consistent: no text, no filter. */
  lemma InitialConsistent()
    ensures Consistent(Initial)
    ensures CurrentSearch(Initial) == ""
  {
  }

  /** Moving a track is not supported in the library: the model is left as it is. */
  function MoveTrack(m: LibraryTable, source: ModelIndex, dest: ModelIndex): (m': LibraryTable)
    ensures m' == m
  {
    m
  }

  /**
   The capabilities agree with `MoveTrack`: reordering is not advertised, and
   moving tracks around changes nothing, whatever the indexes.
   */
  lemma MoveTrackMatchesCapabilities(m: LibraryTable, a: ModelIndex, b: ModelIndex, c: ModelIndex)
    ensures ColumnRules.Reorder !in ColumnRules.GetCapabilities()
    ensures MoveTrack(MoveTrack(m, a, b), b, c) == m
    ensures CurrentSearch(MoveTrack(m, a, b)) == CurrentSearch(m)
  {
  }
}
