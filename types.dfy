/**
 * The application's records: documents, search results and matches,
 * extracted items and character cells, the configuration, parse results
 * and toast messages. Optional properties are `Option`s; a `Date` is its
 * millisecond timestamp.
 */
module Types {
  import opened JsString

  /** A stored document; `id` is assigned by the database on insertion. */
  datatype Document = Document(
    id: Option<int>,
    fileName: string,
    content: string,
    htmlContent: string,
    date: int,
    hasOriginalStyles: Option<bool>)

  /** One search hit: the document it came from, where the match starts,
      how wide it is, and the highlighted preview. */
  datatype SearchResult = SearchResult(
    id: int,
    fileName: string,
    content: string,
    matchIndex: int,
    matchLength: int,
    highlightedSnippet: string)

  /** Where a match starts, its span, and the offset of every matched
      character. */
  datatype MatchInfo = MatchInfo(index: int, length: int, positions: seq<int>)

  datatype SearchOptions = SearchOptions(maxGap: int, isExact: bool, previewRange: int)

  /** A piece of text the user picked out of the character grid. */
  datatype ExtractedItem = ExtractedItem(text: string, indices: seq<int>, color: string)

  /** One cell of the character grid: a single character, or a run of
      letters and digits shown as one group. */
  datatype CharCell = CharCell(ch: string, index: int, isGrouped: bool, groupText: Option<string>)

  datatype AppConfig = AppConfig(
    previewRange: int,
    minFontSize: int,
    maxFontSize: int,
    maxSearchGap: int,
    detailRange: int,
    charGridWidth: int)

  /** What a file parser hands back: plain text, HTML, and whether the HTML
      carries the original formatting. */
  datatype ParseResult = ParseResult(text: string, html: string, hasOriginalStyles: Option<bool>)

  datatype SwipeDirection = Left | Right

  datatype ToastType = Success | Error | Info | Warning

  datatype ToastMessage = ToastMessage(id: int, kind: ToastType, message: string, duration: Option<int>)
}
