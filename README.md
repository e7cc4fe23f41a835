# search-kit in Dafny

A Dafny model of the core of search-kit, a browser application for searching in one's own documents. The application:

- imports PDF, DOCX and TXT files into a local library;
- searches them for a query, either exactly or as an "interval" match;
- shows highlighted snippets and a highlighted full view;
- provides a character extractor in which the user picks characters out of pasted text to build queries.

Each source file of the core is one module. Its loops and its stateful objects stay loops and classes, and each is proved equal to a specification function about which the application's promises are proved as lemmas.

| file | module | models |
|---|---|---|
| `js_string.dfy` | `JsString` | the JavaScript string built-ins the application relies on: `toLowerCase`, `trim`, `indexOf`, `slice`, `split`/`join` and `parseInt` |
| `html.dfy` | `Html` | the five-entity `escapeHtml`, which appears in three copies in the application; its inverse; the `<mark>` markers and a left-to-right occurrence count |
| `types.dfy` | `Types` | the records: documents, matches, search results, character cells, extracted items, settings and toasts |
| `search_service.dfy` | `SearchService` | `search.service.ts`: exact and interval matching, result ordering, snippets, and highlighting of a whole text |
| `docx_style.dfy` | `DocxStyle` | `docxStyleParser.service.ts`: run and paragraph properties (sections 17.3.1 and 17.3.2 of ECMA-376 Part 1), their CSS, and the walk over paragraphs, runs and tables of a WordprocessingML tree |
| `file_parser.dfy` | `FileParser` | `fileParser.service.ts`: dispatch on the file extension, TXT wrapping, and the DOCX fallback chain |
| `library.dfy` | `Library` | `useLibrary.ts`: upload filtering, the per-file loop, the tally and its toasts, and guarded deletion |
| `document_store.dfy` | `DocumentStore` | `document.store.ts`: the document list, newest first |
| `search_store.dfy` | `SearchStore` | `search.store.ts`: query, mode, results and the document filter |
| `use_search.dfy` | `UseSearch` | `useSearch.ts`: paging through extracted items, and the watchers that re-search and prune the filter |
| `extractor_store.dfy` | `ExtractorStore` | `extractor.store.ts`: colour palette, extracted list, selected-index set, screens, and load-time cleaning |
| `extractor.dfy` | `Extractor` | `useExtractor.ts`: character cells, cell selection, extraction, editing, symbol stripping, select-all and invert |
| `grid_selection.dfy` | `GridSelection` | `useGridSelection.ts`: drag selection over the character grid with a queue of pending changes |
| `gesture.dfy` | `Gesture` | `useGesture.ts`: swipe detection |
| `toast.dfy` | `Toast` | `useToast.ts`: the message queue and its id counter |
| `app_store.dfy` | `AppStore` | `app.store.ts` and `detail.store.ts`: settings and the detail page's state |

Persistence, foreign parsers, the DOM, timers and dialogs are outside the model. What they produce is an input, such as the id the database assigned, the text pdf.js extracted, the element under the cursor, or the answer to a confirmation.

## Model

| member | source | states |
|---|---|---|
| AppStore.PatchedSpec | src/stores/app.store.ts:33-35 | an empty partial leaves the configuration unchanged; applying the same partial twice equals applying it once; a partial carrying every field replaces the whole configuration, whatever was applied before |
| AppStore.App.constructor | src/stores/app.store.ts:8-28 | the configuration is the stored fields merged over the defaults 30, 12, 36, 30, 200, 26 |
| AppStore.App.UpdateConfig | src/stores/app.store.ts:33-35 | exactly the fields the partial carries are overwritten; every other field and `showSettings` keep their value |
| AppStore.App.ResetConfig | src/stores/app.store.ts:40-42 | every field equals its default afterwards; `showSettings` is unchanged |
| AppStore.App.OpenSettings | src/stores/app.store.ts:47-49 | `showSettings` is true; the configuration is unchanged |
| AppStore.App.CloseSettings | src/stores/app.store.ts:54-56 | `showSettings` is false; the configuration is unchanged |
| AppStore.Detail.constructor | src/stores/detail.store.ts:11-17 | no result, empty keyword, not exact, return route `/search` |
| AppStore.Detail.SetDetail | src/stores/detail.store.ts:22-27 | all four fields are assigned; an omitted keyword, flag or route takes `""`, false or `/search` |
| AppStore.Detail.ClearDetail | src/stores/detail.store.ts:32-36 | result, keyword and flag are reset and the return route is kept, so a second call changes nothing more |
| DocumentStore.IndexOfId | src/stores/document.store.ts:82 | -1 exactly when no document has the id; otherwise the position of the first document with it |
| DocumentStore.FindById | src/stores/document.store.ts:97-99 | absent exactly when no document has the id; otherwise the first document with it |
| DocumentStore.Documents.GetDocumentById | src/stores/document.store.ts:97-99 | absent exactly when no stored document has the id; otherwise a stored document with that id |
| DocumentStore.Documents.DocumentCount | src/stores/document.store.ts:26 | the count is zero exactly when the list is empty |
| DocumentStore.Documents.HasDocuments | src/stores/document.store.ts:29 | there are documents exactly when the count is not zero |
| DocumentStore.WithoutIdSpec | src/stores/document.store.ts:82-85 | deleting removes exactly the first document with the id and keeps the others in order; without such a document the list is unchanged |
| DocumentStore.AddThenDelete | src/stores/document.store.ts:54-90 | deleting the id a document was just added under restores the old list; a fresh id is then no longer found |
| DocumentStore.Documents.constructor | src/stores/document.store.ts:17-23 | an empty list, not loading, no error |
| DocumentStore.Documents.LoadDocuments | src/stores/document.store.ts:35-47 | the stored list replaces the list; on failure the list stays, the error text is recorded and the failure is re-raised; `loading` is false in both cases |
| DocumentStore.Documents.AddDocument | src/stores/document.store.ts:54-69 | on success the document, with the id the database returned, is put first; on failure the list is unchanged and the error is set |
| DocumentStore.Documents.DeleteDocument | src/stores/document.store.ts:75-90 | on success the list loses the first document with the id; on failure it is unchanged and the error is set |
| DocumentStore.Documents.ClearAll | src/stores/document.store.ts:104-107 | the list is empty once the database has been cleared, and unchanged when clearing failed |
| Gesture.SwipeSpec | src/composables/useGesture.ts:29-84 | a touch from p to q fires the right callback exactly when the move is more horizontal than vertical, goes right by at least the threshold and the callback exists; the left case is symmetric |
| Gesture.LastHorizontal | src/composables/useGesture.ts:52 | the move it picks is one of the moves and is more horizontal than vertical |
| Gesture.MovesSpec | src/composables/useGesture.ts:43-62 | after any number of moves, the state is the one the last horizontal move left; vertical moves change nothing |
| Gesture.ResetSpec | src/composables/useGesture.ts:67-94 | after an end or a cancel nothing is tracked, later moves are ignored and a second end fires nothing |
| Gesture.Swipe.constructor | src/composables/useGesture.ts:13-24 | the threshold defaults to 100; nothing is tracked |
| Gesture.Swipe.TouchStart | src/composables/useGesture.ts:29-38 | the start point is recorded, tracking begins and swiping, distance and direction are reset; an event without a touch changes nothing |
| Gesture.Swipe.TouchMove | src/composables/useGesture.ts:43-62 | ignored when not tracking; a more horizontal than vertical move sets distance \|dx\| and direction right when dx > 0, else left; scrolling is stopped exactly when \|dx\| > 10 as well |
| Gesture.Swipe.TouchEnd | src/composables/useGesture.ts:67-84 | while tracking, the callback for the direction fires only if the distance reached the threshold, then all state resets; otherwise nothing happens |
| Gesture.Swipe.TouchCancel | src/composables/useGesture.ts:89-94 | resets the tracking state without firing anything |
| Toast.IndexOfToast | src/composables/useToast.ts:79 | -1 exactly when no toast has the id; otherwise the position of the first toast with it |
| Toast.WithoutSpec | src/composables/useToast.ts:78-83 | with increasing ids, removal drops exactly the toast with that id, if any; ids stay increasing and issued |
| Toast.ShowThenRemove | src/composables/useToast.ts:27-44 | removing a toast just shown, by the id `show` returned, gives back the previous queue |
| Toast.ToastQueue.constructor | src/composables/useToast.ts:7-12 | an empty queue and a counter at 0 |
| Toast.ToastQueue.Show | src/composables/useToast.ts:27-45 | the toast is appended with id counter + 1, which is returned and becomes the counter; its removal is scheduled exactly when the duration is positive; ids stay increasing |
| Toast.ToastQueue.ShowTyped | src/composables/useToast.ts:50-73 | the typed helpers are `show` with their type and the given duration, or 2000 when none is given; the timer is scheduled exactly when that duration is positive |
| Toast.ToastQueue.Remove | src/composables/useToast.ts:78-83 | the queue loses the toast with that id, if present; the counter is unchanged |
| Toast.ToastQueue.Clear | src/composables/useToast.ts:88-90 | the queue is empty and the counter keeps its value |
| Toast.DurationOr | src/composables/useToast.ts:17 | a missing duration becomes 2000 |
| FileParser.GetFileExtension | src/services/fileParser.service.ts:41-44 | the extension never contains a dot |
| FileParser.ExtensionSpec | src/services/fileParser.service.ts:41-44 | a name without a dot has the empty extension; otherwise the name ends with a dot followed by the extension, which is what follows the last dot |
| FileParser.LastPartFollowsDot | src/services/fileParser.service.ts:42-43 | when a name splits on dots into several parts, the name ends with a dot and the last part |
| FileParser.TxtRoundTrip | src/services/fileParser.service.ts:121-130 | a text file's text is returned unchanged, and its HTML is one `<pre>` element whose content holds no `<` and decodes back to the text |
| FileParser.PageDivs | src/services/fileParser.service.ts:64 | one page element per page, numbered from 1 |
| FileParser.ParsePdf | src/services/fileParser.service.ts:49-75 | the pages' texts and page elements, each joined with line breaks, no original styles; a failure becomes the PDF error message |
| FileParser.PdfLines | src/services/fileParser.service.ts:57-68 | when no page text holds a line break, the lines of the text are exactly the pages |
| FileParser.DocxFallbackOrder | src/services/fileParser.service.ts:80-116 | the styled result is used whenever it exists, mammoth's HTML only when it does not, the raw text only when both failed; the result keeps original styles exactly when the styled parser produced it; it fails exactly when all three failed |
| FileParser.StyledDocxSpec | src/services/fileParser.service.ts:83-84 | a successful styled parse is the reconstruction of the document body with original styles |
| FileParser.ParseFile | src/services/fileParser.service.ts:23-36 | dispatch on the lower-cased extension to the PDF, DOCX or TXT parser, or the unsupported-format error |
| FileParser.DispatchSpec | src/services/fileParser.service.ts:23-36 | an unknown extension is always refused with that extension in the message; each known one goes to its parser; a parsed file always had a known extension |
| FileParser.NoExtensionRefused | src/services/fileParser.service.ts:24-34 | a name without a dot is refused with an empty extension |
| Library.SupportedAgreesWithParser | src/modules/library/composables/useLibrary.ts:16-61 | a file is supported exactly when the parser knows its format, and an unsupported file would be refused by the parser |
| Library.IsSupportedFile | src/modules/library/composables/useLibrary.ts:50-53 | only a name with a dot can be supported: a name without an extension is rejected |
| Library.ParsedOnlyIfSupported | src/modules/library/composables/useLibrary.ts:75-98 | only a supported file can be parsed, so the filter drops no file that could have been stored |
| Library.Supported | src/modules/library/composables/useLibrary.ts:75 | the filtered list is no longer than the input |
| Library.SupportedSpec | src/modules/library/composables/useLibrary.ts:50-53 | the filter keeps exactly the supported files |
| Library.SuccessCount | src/modules/library/composables/useLibrary.ts:89-113 | the number of successes is at most the number of files tried |
| Library.AddedSpec | src/modules/library/composables/useLibrary.ts:96-109 | one new document per success, each under the id the database gave it, without the style flag, and from a supported file |
| Library.UploadStep | src/modules/library/composables/useLibrary.ts:92-117 | one more file extends the added documents and the success count by that file's outcome |
| Library.SummarySpec | src/modules/library/composables/useLibrary.ts:123-129 | a summary exists exactly when something was tried; it is a success when nothing failed, an error when nothing succeeded and a warning otherwise |
| Library.NoticesSpec | src/modules/library/composables/useLibrary.ts:67-129 | no files show nothing; otherwise one or two toasts; the summary is present exactly when some file was supported, and the last toast is a success exactly when every supported file was stored |
| Library.Uploader.constructor | src/modules/library/composables/useLibrary.ts:22-29 | not uploading, progress 0 |
| Library.Uploader.Notify | src/modules/library/composables/useLibrary.ts:79 | one toast with the default duration |
| Library.Uploader.NotifyAll | src/modules/library/composables/useLibrary.ts:78-129 | the notices are shown in order, with consecutive ids |
| Library.Uploader.UploadOne | src/modules/library/composables/useLibrary.ts:96-113 | succeeds exactly when the file parsed and its document was stored, which is then first in the list |
| Library.Uploader.UploadAll | src/modules/library/composables/useLibrary.ts:86-120 | every supported file is tried; the counts are the successes and the failures, adding up to the number of files; the stored documents are first, newest first; afterwards not uploading and progress 0 |
| Library.Uploader.UploadAndReport | src/modules/library/composables/useLibrary.ts:86-129 | the upload loop followed by the summary toast |
| Library.Uploader.UploadList | src/modules/library/composables/useLibrary.ts:74-129 | for a non-empty list: the skipped-files warning, the uploads and the summary; `uploading` is untouched when nothing is supported |
| Library.Uploader.UploadSome | src/modules/library/composables/useLibrary.ts:74-129 | with some file supported: the supported files are stored and the warning and summary shown |
| Library.Uploader.SkipAll | src/modules/library/composables/useLibrary.ts:78-84 | with no file supported only the warning is shown |
| Library.Uploader.UploadSupported | src/modules/library/composables/useLibrary.ts:78-129 | the warning about the skipped files, then the uploads and the summary, with ids following on |
| Library.Uploader.UploadFiles | src/modules/library/composables/useLibrary.ts:67-130 | the list gains the supported files' documents, the toasts are exactly the warning and the summary, and `uploading`/progress change only when some file was supported |
| Library.Uploader.DeleteDocument | src/modules/library/composables/useLibrary.ts:136-162 | deletes exactly when the id is usable, the user confirmed and the database succeeded; a missing or zero id is refused with an error toast before asking; a cancel shows nothing |
| Library.Uploader.Init | src/modules/library/composables/useLibrary.ts:39-45 | a successful load replaces the list; a failed one keeps it and shows one error toast |
| Library.NoUploads | src/modules/library/composables/useLibrary.ts:70-72 | no files: nothing supported and nothing shown |
| Library.NoneSupported | src/modules/library/composables/useLibrary.ts:78-84 | with no file supported the toasts are only the warning about all of them |
| SearchStore.SelectedSpec | src/stores/search.store.ts:36-41 | the filter keeps exactly the documents with a selected id, in their original order (it distributes over concatenation) |
| SearchStore.SelectedMembers | src/stores/search.store.ts:40 | a document is kept exactly when it has an id and that id is selected |
| SearchStore.Searcher.FilteredDocuments | src/stores/search.store.ts:36-41 | with nothing selected every document is searched; otherwise exactly the documents with a selected id |
| SearchStore.Searcher.ResultCount | src/stores/search.store.ts:43 | the count is zero exactly when there are no results |
| SearchStore.Searcher.HasResults | src/stores/search.store.ts:44 | there are results exactly when the count is not zero |
| SearchStore.Searcher.IsDocSelected | src/modules/search/composables/useSearch.ts:59-61 | a selected id's documents all pass the document filter |
| SearchStore.SelectedAppend | src/stores/search.store.ts:40 | filtering a concatenation is concatenating the filtered parts, so order is kept |
| SearchStore.SelectAllKeeps | src/stores/search.store.ts:114-117 | selecting every id keeps every document that has an id |
| SearchStore.PruneKeepsSelection | src/modules/search/composables/useSearch.ts:141-154 | dropping ids no document carries does not change which documents a selection keeps; when it empties the selection, every document is searched again |
| SearchStore.PerformedSpec | src/stores/search.store.ts:47-94 | searching again from the state a search left changes nothing; a blank query never keeps results; `isSearching` is false after a search; re-searching keeps the query |
| SearchStore.Searcher.constructor | src/stores/search.store.ts:13-33 | empty query and results, no selection, scroll position 0, the stored flags and font size |
| SearchStore.Searcher.PerformSearch | src/stores/search.store.ts:47-66 | a blank query clears the results without searching; otherwise the results are the search over the filtered documents with the configured gap, mode and preview range, and `isSearching` is false |
| SearchStore.Searcher.ClearSearch | src/stores/search.store.ts:68-72 | query empty, results empty, scroll position 0; everything else unchanged |
| SearchStore.Searcher.SetQuery | src/stores/search.store.ts:74-76 | only the query changes |
| SearchStore.Searcher.SetScrollTop | src/stores/search.store.ts:78-80 | only the scroll position changes |
| SearchStore.Searcher.ToggleExactMode | src/stores/search.store.ts:82-87 | the flag flips, and the search reruns only for a non-blank query |
| SearchStore.Searcher.ToggleFilterSymbols | src/stores/search.store.ts:89-94 | the flag flips, and the search reruns only for a non-blank query |
| SearchStore.Searcher.InitDocFilter | src/stores/search.store.ts:97-101 | the selection becomes the ids of the documents that have one |
| SearchStore.Searcher.ToggleDocSelection | src/stores/search.store.ts:103-112 | only that id changes membership; the search reruns only for a non-blank query |
| SearchStore.Searcher.SelectAllDocs | src/stores/search.store.ts:114-121 | the selection becomes every document id; the search reruns only for a non-blank query |
| SearchStore.Searcher.DeselectAllDocs | src/stores/search.store.ts:123-128 | the selection becomes empty; the search reruns only for a non-blank query |
| UseSearch.CurrentItem | src/modules/search/composables/useSearch.ts:33-36 | an item exactly when the index is on the list, and then the item at the index |
| UseSearch.Pager.HasExtractedItems | src/modules/search/composables/useSearch.ts:38 | there are items exactly when the first one can be shown |
| UseSearch.PaginationOf | src/modules/search/composables/useSearch.ts:40-43 | the total is the list length, and an index on the list gives a one-based position between 1 and the total |
| UseSearch.PagingSpec | src/modules/search/composables/useSearch.ts:64-94 | paging keeps an index on the list, moves by at most one, stops at either end, and a step back undoes a step forward and the other way round; an out-of-range target is ignored |
| UseSearch.ShownSpec | src/modules/search/composables/useSearch.ts:68-71 | showing an item makes its text the query; a non-blank text leaves exactly that text's search results, a blank one clears them; the selection is unchanged |
| UseSearch.Pager.constructor | src/modules/search/composables/useSearch.ts:29 | the index starts at 0 |
| UseSearch.Pager.ShowCurrent | src/modules/search/composables/useSearch.ts:96-101 | when there is a current item, it becomes the query and is searched for |
| UseSearch.Pager.Prev | src/modules/search/composables/useSearch.ts:64-73 | the index decreases only above 0 and only for a non-empty list; the search runs only when the index moved |
| UseSearch.Pager.Next | src/modules/search/composables/useSearch.ts:75-84 | the index increases only below the last position; the search runs only when the index moved |
| UseSearch.Pager.GoTo | src/modules/search/composables/useSearch.ts:86-94 | the index changes, and the item is searched for, only when the target is on the list |
| UseSearch.Pager.UseExtractedItemAsQuery | src/modules/search/composables/useSearch.ts:96-101 | the current item, if any, becomes the query and is searched for |
| UseSearch.Pager.OnSearchSettingsChanged | src/modules/search/composables/useSearch.ts:121-138 | the search reruns only when the query is not blank |
| UseSearch.Pager.OnDocumentsChanged | src/modules/search/composables/useSearch.ts:141-154 | the selection loses exactly the ids that no document carries; nothing else changes |
| ExtractorStore.GetColor | src/stores/extractor.store.ts:142-144 | for a non-negative index, the palette colour at the index modulo 10 |
| ExtractorStore.ColorCycle | src/stores/extractor.store.ts:14-25 | every non-negative index gets a non-empty palette colour, and colours repeat every ten items |
| ExtractorStore.NonBlankLines | src/stores/extractor.store.ts:105-106 | the kept lines are lines of the input and none is blank |
| ExtractorStore.NonBlankKeepsAll | src/stores/extractor.store.ts:106 | when no line is blank, the filter keeps every line |
| ExtractorStore.DropBlankLinesBlank | src/stores/extractor.store.ts:104-111 | cleaned text is blank exactly when every line was blank, and then it is empty |
| ExtractorStore.DropBlankLinesIdempotent | src/stores/extractor.store.ts:104-107 | cleaning twice is cleaning once |
| ExtractorStore.NormalizeStable | src/stores/extractor.store.ts:102-110 | an item that survives loading has clean, non-blank text and a colour |
| ExtractorStore.LoadItemsStable | src/stores/extractor.store.ts:100-112 | loading never adds items, and every loaded item has clean, non-blank text and a colour |
| ExtractorStore.SaveLoad | src/stores/extractor.store.ts:100-125 | writing loaded items back to storage and loading them again gives the same list |
| ExtractorStore.RemoveAtSpec | src/stores/extractor.store.ts:165-169 | an index in range shortens the list by one and keeps the other items in order; any other index changes nothing |
| ExtractorStore.Elements | src/stores/extractor.store.ts:128 | the set holds exactly the stored indices |
| ExtractorStore.Store.constructor | src/stores/extractor.store.ts:47-128 | the stored fields, the cleaned item list and the stored indices as a set |
| ExtractorStore.Store.AddExtractedItem | src/stores/extractor.store.ts:149-151 | the item is put first; nothing else changes |
| ExtractorStore.Store.UpdateExtractedItem | src/stores/extractor.store.ts:156-160 | only the slot at an in-range index is replaced; an out-of-range index changes nothing |
| ExtractorStore.Store.RemoveExtractedItem | src/stores/extractor.store.ts:165-169 | the slot at an in-range index is removed; an out-of-range index changes nothing |
| ExtractorStore.Store.ClearExtractedList | src/stores/extractor.store.ts:174-176 | the list is empty; nothing else changes |
| ExtractorStore.Store.SetSelectedIndices | src/stores/extractor.store.ts:181-183 | the selection is a copy of the given set |
| ExtractorStore.Store.AddSelectedIndex | src/stores/extractor.store.ts:188-192 | the index is inserted into the selection |
| ExtractorStore.Store.RemoveSelectedIndex | src/stores/extractor.store.ts:197-201 | the index is deleted from the selection |
| ExtractorStore.Store.ClearSelectedIndices | src/stores/extractor.store.ts:206-208 | the selection is empty |
| ExtractorStore.Store.ResetToInput | src/stores/extractor.store.ts:213-217 | step `input`, tab `select`, symbols not cleared; nothing else changes |
| ExtractorStore.Store.EnterSelectMode | src/stores/extractor.store.ts:222-225 | step and tab `select`; nothing else changes |
| ExtractorStore.Store.ResetAll | src/stores/extractor.store.ts:230-234 | the default state, with nothing extracted and nothing selected |
| GridSelection.GetSelectionInfo | src/composables/useGridSelection.ts:37-54 | null exactly for a missing element, a missing `data-index` or an index that does not parse; otherwise the parsed index, grouped exactly when `data-grouped` is `"true"`, and a group length of 1 when the attribute is missing or empty |
| GridSelection.GetCellIndices | src/composables/useGridSelection.ts:59-68 | the consecutive range from the index for a grouped cell longer than 1, otherwise just the index |
| GridSelection.GridAgreesWithCells | src/modules/extractor/composables/useExtractor.ts:91-100 | for every cell the extractor generates, this file's index list equals the extractor's own `getCellIndices` |
| GridSelection.FlushedMember | src/composables/useGridSelection.ts:98-120 | after a flush, a queued index is selected exactly when its entry says so, and any other index keeps its state |
| GridSelection.FlushedSpec | src/composables/useGridSelection.ts:98-120 | an empty queue changes nothing; flushing the same queue twice is flushing once; a queue whose entries all agree adds, or removes, exactly its indices |
| GridSelection.QueuedStep | src/composables/useGridSelection.ts:157-162 | queuing one more index of a cell overwrites any earlier entry for that index |
| GridSelection.Selection.constructor | src/composables/useGridSelection.ts:70-82 | not dragging, select mode, no touch flag, nothing queued |
| GridSelection.Selection.FlushPendingChanges | src/composables/useGridSelection.ts:98-120 | the selection becomes the old one with every queued change applied; the queue is empty afterwards |
| GridSelection.Selection.QueueIndexChange | src/composables/useGridSelection.ts:125-127 | the entry for the index is set, replacing an earlier one |
| GridSelection.Selection.ProcessCellImmediate | src/composables/useGridSelection.ts:132-152 | all of the cell's indices are added in select mode and removed in deselect mode |
| GridSelection.Selection.ProcessCellQueued | src/composables/useGridSelection.ts:157-162 | every index of the cell is queued with the drag mode |
| GridSelection.Selection.HandleSelectionStart | src/composables/useGridSelection.ts:185-200 | on a cell: dragging starts, in deselect mode exactly when the whole cell is selected, the cell is toggled at once and becomes the last cell; no cell means no change |
| GridSelection.Selection.HandleSelectionMove | src/composables/useGridSelection.ts:206-216 | ignored when not dragging or on the last cell; otherwise the cell's indices are queued with the drag mode and it becomes the last cell |
| GridSelection.Selection.HandleSelectionEnd | src/composables/useGridSelection.ts:221-232 | the queue is flushed, dragging stops and there is no last cell |
| GridSelection.Selection.OnTouchStart | src/composables/useGridSelection.ts:236-243 | the touch flag is set; with a touch point the drag starts as `handleSelectionStart` leaves it (dragging, deselect mode exactly when the whole cell is selected, the cell toggled at once, the last index set); without one nothing else changes |
| GridSelection.Selection.MoveAndFlush | src/composables/useGridSelection.ts:257-264 | a move to a new cell while dragging applies that cell's indices in the drag mode; anything else changes nothing |
| GridSelection.Selection.OnTouchMove | src/composables/useGridSelection.ts:245-265 | ignored when not dragging or without a touch point; otherwise the cell under the touch is applied at once in the drag mode and becomes the last cell, unless it already was; the drag mode and the touch flag are unchanged |
| GridSelection.Selection.OnTouchEnd | src/composables/useGridSelection.ts:267-280 | dragging stops; with nothing queued the selection is unchanged |
| GridSelection.Selection.TouchFlagTimeout | src/composables/useGridSelection.ts:270-272 | the touch flag is cleared and nothing else changes |
| GridSelection.Selection.OnMouseDown | src/composables/useGridSelection.ts:284-291 | ignored right after a touch and for any button but the main one; otherwise the drag starts as `handleSelectionStart` leaves it; the touch flag is unchanged |
| GridSelection.Selection.OnMouseMove | src/composables/useGridSelection.ts:293-309 | ignored right after a touch or when not dragging; otherwise the cell under the cursor is applied at once in the drag mode and becomes the last cell, unless it already was; the drag mode and the touch flag are unchanged |
| GridSelection.Selection.OnMouseUp | src/composables/useGridSelection.ts:311-315 | ends the drag unless a touch just happened |
| GridSelection.Selection.OnMouseLeave | src/composables/useGridSelection.ts:317-324 | ends a drag in progress unless a touch just happened |
| Extractor.RunEnd | src/modules/extractor/composables/useExtractor.ts:49-56 | the inner loop stops at the first character that is not an ASCII letter or digit, or at the end of the text, and every character it passed is one |
| Extractor.CellEnd | src/modules/extractor/composables/useExtractor.ts:43-76 | every pass of the outer loop consumes at least one character and never runs past the text |
| Extractor.GenerateCharList | src/modules/extractor/composables/useExtractor.ts:32-86 | the one-pass loop returns exactly the cell list `CharList(text)` |
| Extractor.CharListTiles | src/modules/extractor/composables/useExtractor.ts:32-86 | the cells' characters, concatenated, give back the text; each cell's `index` is the offset where its characters start; the list is empty exactly for the empty text |
| Extractor.CharListShape | src/modules/extractor/composables/useExtractor.ts:43-76 | every cell is either a maximal run of two or more letters and digits, marked grouped with `groupText` equal to its characters, or a single ungrouped character that is not part of a longer run |
| Extractor.CellsFromChars | src/modules/extractor/composables/useExtractor.ts:32-86 | the cells produced from any offset concatenate to the rest of the text |
| Extractor.CellsFromOffsets | src/modules/extractor/composables/useExtractor.ts:45-74 | the cells produced from offset `i` start at `i` plus the length of the cells before them |
| Extractor.CellsFromShape | src/modules/extractor/composables/useExtractor.ts:43-76 | from any offset that no run crosses, every produced cell has the generated shape |
| Extractor.Range | src/modules/extractor/composables/useExtractor.ts:93-96 | the consecutive integers from `a` below `b`, none when `b <= a` |
| Extractor.GetCellIndices | src/modules/extractor/composables/useExtractor.ts:91-100 | the loop returns `index, index+1, …` over the group text for a grouped cell, otherwise `[index]` |
| Extractor.CharListPartition | src/modules/extractor/composables/useExtractor.ts:32-100 | read in order, the index lists of the generated cells are exactly `0 … |text|-1`: every character index belongs to one cell and no two cells share one |
| Extractor.CellsFromIndices | src/modules/extractor/composables/useExtractor.ts:32-100 | the index lists of the cells produced from offset `i` are exactly `i … |text|-1` |
| Extractor.SelectedCount | src/modules/extractor/composables/useExtractor.ts:160-164 | the filtered count never exceeds the number of indices |
| Extractor.SelectedCountSpec | src/modules/extractor/composables/useExtractor.ts:152-164 | the count equals the length exactly when every index is selected, and is positive exactly when some index is selected |
| Extractor.PartialSelection | src/modules/extractor/composables/useExtractor.ts:152-164 | a cell is partially selected exactly when some of its indices are selected and not all of them; fully and partially selected never hold together |
| Extractor.InvertSpec | src/modules/extractor/composables/useExtractor.ts:314-338 | inverting keeps exactly the eligible indices (all, or the non-whitespace ones when spaces are hidden) that were not selected; inverting twice restores a selection of eligible indices; inverting everything gives nothing and inverting nothing gives what select-all gives |
| Extractor.Ascending | src/modules/extractor/composables/useExtractor.ts:182 | the selection's elements in strictly increasing order, each exactly once |
| Extractor.AscendingUnique | src/modules/extractor/composables/useExtractor.ts:182 | a strictly increasing sequence holding exactly the set's elements is its ascending order, so the numeric sort has one outcome |
| Extractor.SortIndices | src/modules/extractor/composables/useExtractor.ts:182 | the sort returns the selection's ascending order |
| Extractor.CharsAt | src/modules/extractor/composables/useExtractor.ts:183 | the mapped characters are at most as many as the indices |
| Extractor.CharsAtRange | src/modules/extractor/composables/useExtractor.ts:183 | picking the characters at `k … |raw|-1` gives the text from `k` on |
| Extractor.SelectAllExtracts | src/modules/extractor/composables/useExtractor.ts:179-191 | selecting every character and extracting gives the whole text with its blank lines dropped |
| Extractor.ItemColor | src/modules/extractor/composables/useExtractor.ts:364-367 | the item's own colour when it exists and is not empty, otherwise the palette colour of the position; never empty for a position that is not negative |
| Extractor.ActionNoop | src/modules/extractor/composables/useExtractor.ts:179-193 | an empty selection, or a selection whose extracted text is blank, changes neither the store nor the editing index |
| Extractor.ActionAdds | src/modules/extractor/composables/useExtractor.ts:179-218 | in new mode a successful extraction puts one item in front of the old list, with the extracted text, the selection in ascending order and the colour of the old list's length; the selection is cleared and nothing else in the store changes |
| Extractor.ActionEdits | src/modules/extractor/composables/useExtractor.ts:179-218 | in edit mode a successful extraction replaces the edited slot only, with the extracted text, the selection in ascending order, and the slot's own colour or `getColor(editing)` when it has none; the selection is cleared and editing ends |
| Extractor.StripSymbols | src/modules/extractor/composables/useExtractor.ts:299 | the result is no longer than the text and holds only CJK ideographs, ASCII letters, digits and whitespace |
| Extractor.StripSymbolsFixed | src/modules/extractor/composables/useExtractor.ts:297-308 | the text is left unchanged exactly when it holds no symbol |
| Extractor.StripSymbolsIdempotent | src/modules/extractor/composables/useExtractor.ts:297-308 | stripping twice is stripping once, so a second `clearSymbols` changes nothing |
| Extractor.FindItemIndex | src/modules/extractor/composables/useExtractor.ts:372-380 | -1 exactly when no item holds the character index; otherwise the first item that holds it |
| Extractor.Session.constructor | src/modules/extractor/composables/useExtractor.ts:102-109 | the composable starts in new mode (editing index -1) over the given store |
| Extractor.Session.ToggleIndex | src/modules/extractor/composables/useExtractor.ts:133-139 | the index is added to, or removed from, the selection and nothing else in the store changes |
| Extractor.Session.ToggleCell | src/modules/extractor/composables/useExtractor.ts:144-147 | every index of the cell is added to, or removed from, the selection and nothing else changes |
| Extractor.Session.InitSelection | src/modules/extractor/composables/useExtractor.ts:170-173 | a blank text changes nothing; otherwise the store enters the select step and the grid tab |
| Extractor.Session.HandleAction | src/modules/extractor/composables/useExtractor.ts:179-218 | the new store and editing index are those `Action` gives, whose outcomes ActionNoop, ActionAdds and ActionEdits state |
| Extractor.Session.EditItem | src/modules/extractor/composables/useExtractor.ts:223-230 | the editing index becomes the argument; for an existing item its indices become the selection and the grid tab is shown; otherwise the store is unchanged |
| Extractor.Session.RemoveItem | src/modules/extractor/composables/useExtractor.ts:235-242 | the slot is removed from the list; only when it is the edited slot does editing stop and the selection clear |
| Extractor.Session.ClearSymbols | src/modules/extractor/composables/useExtractor.ts:297-308 | a text without symbols changes nothing; otherwise the text is stripped, the selection and the list are emptied and editing stops |
| Extractor.Session.SelectAll | src/modules/extractor/composables/useExtractor.ts:314-323 | the selection becomes every index of the text, or every non-whitespace one when spaces are hidden |
| Extractor.Session.InvertSelection | src/modules/extractor/composables/useExtractor.ts:328-338 | the selection becomes the eligible indices that were not selected |
| Extractor.Session.ClearAllResults | src/modules/extractor/composables/useExtractor.ts:343-359 | with a non-empty list and a confirmation the list and the selection are emptied and editing stops; otherwise nothing changes |
| Extractor.Session.GetExtractedItemIndex | src/modules/extractor/composables/useExtractor.ts:372-380 | -1 exactly when no item of the store's list holds the character index; otherwise the first item that holds it |
| SearchService.ExactStarts | src/services/search.service.ts:78-96 | every start the exact scan reports leaves room for the whole query in the text |
| SearchService.ExactStartsOccur | src/services/search.service.ts:78-96 | each reported start is an occurrence of the lower-cased query |
| SearchService.ExactStartsApart | src/services/search.service.ts:93-95 | each reported start lies at or past the end of the one before, so reported occurrences never overlap |
| SearchService.ExactStartsCover | src/services/search.service.ts:78-96 | every occurrence of the query lies inside one of the reported occurrences |
| SearchService.Offsets | src/services/search.service.ts:83-86 | the positions pushed for a hit are `index, index+1, …` over the query's length |
| SearchService.FindExactMatches | src/services/search.service.ts:72-99 | the scanning loop returns exactly the exact-search specification `ExactMatches` |
| SearchService.LowerSlice | src/services/search.service.ts:74-75 | lower-casing commutes with slicing, so offsets in the lower-cased text are offsets in the text |
| SearchService.ExactMatchesSpec | src/services/search.service.ts:72-99 | every match is the query, up to case, at consecutive positions of the query's length; matches are in order and never overlap; every occurrence of the query lies inside some match |
| SearchService.FindChar | src/services/search.service.ts:138 | `indexOf` of one character: -1 when the character does not occur from the offset on, otherwise its first occurrence there |
| SearchService.ChainSpec | src/services/search.service.ts:130-150 | a chain that succeeds extends what was collected with the greedy choices: each character at its first occurrence after the previous one, within the gap limit |
| SearchService.SingleMatch | src/services/search.service.ts:130-164 | a hit found from `startFrom` begins at or after it, inside the text, and its index is its first position |
| SearchService.SingleMatchSpec | src/services/search.service.ts:130-164 | a hit found from `startFrom` is a well-formed interval hit whose span runs from its first position to its last, with every character taken at its first occurrence |
| SearchService.FindSingleIntervalMatch | src/services/search.service.ts:130-164 | the loop returns exactly `SingleMatch` |
| SearchService.IntervalFromExtends | src/services/search.service.ts:112-122 | the scan only ever appends to what it has collected |
| SearchService.IntervalFromSpec | src/services/search.service.ts:112-122 | the scan collects well-formed hits in strictly increasing order of first position |
| SearchService.IntervalFromRescanned | src/services/search.service.ts:112-122 | the scan collects exactly the chain of single matches, each found from where the previous one left off, and ends at the end of the text or at the first start from which nothing is found |
| SearchService.FindIntervalMatches | src/services/search.service.ts:104-125 | the loop returns exactly the interval-search specification `IntervalMatches` |
| SearchService.HitInOrderUpToCase | src/services/search.service.ts:130-164 | a hit on the lower-cased text places the query's characters, up to case, at ascending positions of the original text within the gap limit |
| SearchService.IntervalMatchesSpec | src/services/search.service.ts:104-164 | every interval hit places the query's characters in order, up to case, with at most `maxGap` characters between consecutive ones, its span covering its positions; hits come in increasing order of first position; each hit is the greedy single match found from 0 or from one past the previous hit's first position; the scan stops at the first start short of the end from which nothing is found; an empty query finds nothing |
| SearchService.FindMatches | src/services/search.service.ts:62-67 | dispatches to exact or interval search on `isExact` and returns `Matches` |
| SearchService.MatchesWellFormed | src/services/search.service.ts:62-164 | every match of either mode has its positions inside its span and its span inside the content |
| SearchService.ExactSkipsOverlap | src/services/search.service.ts:93-95 | in "ababab" the query "aba" is found once, at 0 |
| SearchService.IntervalStopsAtFirstMiss | src/services/search.service.ts:113-122 | the scan stops at the first start with no hit: in "axxxxab" with gap 0, "ab" is not found at all |
| SearchService.IntervalGreedyChain | src/services/search.service.ts:134-150 | each character is taken at its first occurrence: in "ab.b.c" with gap 2 the positions 0, 3, 5 are a valid hit for "abc", yet the greedy chain 0, 1, 5 breaks the limit and nothing is found |
| SearchService.HighlightAppend | src/services/search.service.ts:208-224 | highlighting a concatenation is concatenating the highlightings |
| SearchService.HighlightCounts | src/services/search.service.ts:208-224 | there are as many `<mark>` as `</mark>` markers, one pair per marked character |
| SearchService.HighlightStrip | src/services/search.service.ts:208-224 | taking the markers out leaves exactly the escaped text |
| SearchService.PositionMarks | src/services/search.service.ts:209 | character `i` is marked exactly when `i` is one of the positions; positions outside the text mark nothing |
| SearchService.HighlightPositions | src/services/search.service.ts:208-224 | the loop returns the text with exactly the characters at the given positions escaped and marked, every other character escaped |
| SearchService.QueryCharMarks | src/services/search.service.ts:275-280 | character `i` is marked exactly when its lower-case form is a character of the lower-cased query |
| SearchService.HighlightIntervalText | src/services/search.service.ts:274-288 | the loop returns the text with exactly the query's characters, up to case, marked |
| SearchService.ExactPartsConcat | src/services/search.service.ts:248-268 | the parts the scan pushes, joined, are the highlighted text |
| SearchService.ScanExact | src/services/search.service.ts:249-261 | the loop stops where no occurrence is left, having pushed the parts the whole scan pushes up to there |
| SearchService.HighlightExactText | src/services/search.service.ts:245-269 | the method returns the exact highlighting of the text for the lower-cased query |
| SearchService.ExactHighlightStep | src/services/search.service.ts:252-261 | one step is the escaped gap before the next occurrence, the marked occurrence, and the highlighting of the rest after it |
| SearchService.ExactHighlightCounts | src/services/search.service.ts:245-269 | exact highlighting holds one `<mark>`/`</mark>` pair per occurrence reported by the non-overlapping exact scan |
| SearchService.ExactHighlightStrip | src/services/search.service.ts:245-269 | taking the markers out of exact highlighting leaves the escaped text |
| SearchService.HighlightText | src/services/search.service.ts:233-240 | the escaped text for a blank query, otherwise exact or interval highlighting as `isExact` selects |
| SearchService.HighlightTextPreserves | src/services/search.service.ts:233-309 | highlighting never changes the text: with the markers taken out and the entities decoded, the original text comes back |
| SearchService.HighlightTextCounts | src/services/search.service.ts:233-288 | opening and closing markers balance; in exact mode there is one pair per exact match, in interval mode one per character whose lower-case form is in the query |
| SearchService.TextToHtmlLines | src/services/search.service.ts:196-203 | non-empty text becomes one block per line; the lines hold no line break, joined with line breaks they give the text back, and there is one more line than line breaks |
| SearchService.TextToHtml | src/services/search.service.ts:196-203 | the HTML is empty exactly when the text is |
| SearchService.GenerateSnippet | src/services/search.service.ts:169-191 | returns the snippet HTML: the window of `previewRange` characters around the match with ellipses where cut, its positions shifted and highlighted, one block per line |
| SearchService.SnippetMarksMatchedChars | src/services/search.service.ts:176-189 | for a well-formed match and a non-negative range, every shifted position in the snippet holds the same character as the matched position in the content |
| SearchService.WithLength | src/services/search.service.ts:293-295 | the results of one span, in order, are no more than all the results |
| SearchService.InsertSorted | src/services/search.service.ts:293-295 | inserting into a list ordered by span keeps it ordered |
| SearchService.InsertPerm | src/services/search.service.ts:293-295 | inserting adds the result and loses none |
| SearchService.InsertStable | src/services/search.service.ts:293-295 | inserting keeps the order among results of the same span, the new one landing after those already there |
| SearchService.SortResultsSpec | src/services/search.service.ts:293-295 | the sort orders results by span, shortest first, is a permutation, and keeps results of equal span in their original order |
| SearchService.SortResults | src/services/search.service.ts:293-295 | sorting keeps exactly the same results: the outcome is a permutation of the input |
| SearchService.ResultsOf | src/services/search.service.ts:31-48 | the inner loop returns one result per match, in match order |
| SearchService.Search | src/services/search.service.ts:19-52 | the loops return exactly `SearchSpec` |
| SearchService.CollectSound | src/services/search.service.ts:26-49 | every collected result comes from a match in a document that has an id |
| SearchService.CollectComplete | src/services/search.service.ts:26-49 | every match in a document that has an id yields a collected result |
| SearchService.SearchSpecProperties | src/services/search.service.ts:19-52 | nothing for a blank query; otherwise the results, shortest span first and stable among equal spans, are exactly one per match of every document with an id |
| DocxStyle.QueryAllNamed | src/services/docxStyleParser.service.ts:237-251 | every element `querySelectorAll` returns matches the selector |
| DocxStyle.QueryFirstNamed | src/services/docxStyleParser.service.ts:311-311 | the element `querySelector` returns, when there is one, matches the selector |
| DocxStyle.LookupNameSpec | src/services/docxStyleParser.service.ts:330 | a table lookup finds a key exactly when the table has it, and then returns the value of an entry with that key |
| DocxStyle.LookupNameFinds | src/services/docxStyleParser.service.ts:386-392 | in a table with distinct keys every entry is found under its own key |
| DocxStyle.HighlightNames | src/services/docxStyleParser.service.ts:35-51 | each of the fifteen highlight names becomes its own colour, and any other value is kept as it is |
| DocxStyle.HighlightColor | src/services/docxStyleParser.service.ts:328-330 | the value is either kept as it is or replaced by the colour the table pairs with it; a value that names no entry is kept |
| DocxStyle.AlignmentNames | src/services/docxStyleParser.service.ts:382-394 | "both" becomes justified text; the alignment is set exactly for "left", "center", "right" and "both", and is then one of the four CSS values |
| DocxStyle.ToggleWithoutValue | src/services/docxStyleParser.service.ts:352-364 | a bold or italic element without a value attribute turns the property on |
| DocxStyle.GetAttrSpec | src/services/docxStyleParser.service.ts:319 | an attribute is found exactly when the element has one of that name |
| DocxStyle.UnitConversions | src/services/docxStyleParser.service.ts:343-349 | a size in half-points and an indent in twentieths of a point written as a whole number read back exactly |
| DocxStyle.PlainRun | src/services/docxStyleParser.service.ts:307-314 | a run without run properties is its text, escaped and not wrapped in a span |
| DocxStyle.ExtractRunStyle | src/services/docxStyleParser.service.ts:307-367 | a run without run properties has no style; a text or background colour, when set, is a `#` followed by a non-empty value |
| DocxStyle.WrapTextPlain | src/services/docxStyleParser.service.ts:430-459 | a run's HTML is its escaped text alone exactly when none of colour, highlight, background, font size, bold and italic is truthy; otherwise it is wrapped in a span |
| DocxStyle.WrapText | src/services/docxStyleParser.service.ts:430-459 | an unstyled run is its escaped text; a styled one is its escaped text inside a `<span …>…</span>` |
| DocxStyle.ParseRun | src/services/docxStyleParser.service.ts:284-302 | a run's text is empty exactly when its HTML is |
| DocxStyle.ParagraphMarginOnce | src/services/docxStyleParser.service.ts:464-502 | a paragraph gets exactly one `margin-left` declaration when it has a non-zero indentation or is a list item, and none otherwise: the list default steps aside for an explicit margin |
| DocxStyle.ExtractParagraphStyle | src/services/docxStyleParser.service.ts:372-425 | a paragraph without paragraph properties has no style; an alignment, when set, is one of left, center, right and justify; the list flag is only ever true, and a list level is set only for a list item |
| DocxStyle.WrapParagraph | src/services/docxStyleParser.service.ts:464-502 | the content stays unescaped just before the closing `</div>`, and an empty paragraph shows a `<br>` |
| DocxStyle.MarginsWith | src/services/docxStyleParser.service.ts:474-493 | whatever the values written out, the declarations hold one left margin exactly for an indented paragraph or a list item |
| DocxStyle.ParagraphShape | src/services/docxStyleParser.service.ts:464-502 | every paragraph starts with the five base declarations, and an empty paragraph ends in a line break so that it keeps its height |
| DocxStyle.ParagraphEndsInNewline | src/services/docxStyleParser.service.ts:220-226 | a paragraph's text is never empty: it always ends in a newline |
| DocxStyle.RunChildrenParts | src/services/docxStyleParser.service.ts:183-202 | the loop over a run's children pushes the pieces `RunKidParts` gives and reports whether a text child pushed the run's text |
| DocxStyle.ParseRunChildren | src/services/docxStyleParser.service.ts:181-211 | the run callback pushes the run's pieces, with one more line break when no text was pushed and the run holds a break |
| DocxStyle.ParseParagraphChild | src/services/docxStyleParser.service.ts:178-218 | the paragraph callback pushes a run's pieces for a `w:r` child, one line break for a `w:br` child, and nothing for any other child |
| DocxStyle.ParseParagraph | src/services/docxStyleParser.service.ts:168-227 | the method returns `ParagraphContent`: the pieces' texts joined with a newline added, their HTML wrapped in the paragraph's styled block |
| DocxStyle.ParseCell | src/services/docxStyleParser.service.ts:246-266 | a cell's non-empty paragraph texts are joined by spaces and their HTML is put in a bordered `td` |
| DocxStyle.ParseRow | src/services/docxStyleParser.service.ts:239-270 | a row's cell texts are joined by tabs and their HTML is put in a `tr` |
| DocxStyle.ParseTable | src/services/docxStyleParser.service.ts:232-279 | the rows' texts are joined by newlines and their HTML is put in a full-width `table` |
| DocxStyle.TraverseNodes | src/services/docxStyleParser.service.ts:118-163 | the walk returns `NodeContent`: paragraphs, tables, containers and non-empty unknown elements in order, texts and HTML each joined by newlines |
| DocxStyle.ExtractContentFromXml | src/services/docxStyleParser.service.ts:99-113 | the walk of the first body element, or empty text and HTML when there is none |
| DocxStyle.ParseDocxWithStyles | src/services/docxStyleParser.service.ts:62-94 | a styled result needs a `word/document.xml` that parsed without a `parsererror` element |
| DocxStyle.CellKeepsParagraphs | src/services/docxStyleParser.service.ts:253-259 | since no paragraph's text is empty, the `if (text)` filter keeps every paragraph of a cell |
| DocxStyle.RunTextRepeats | src/services/docxStyleParser.service.ts:186-196 | every `w:t` child of a run pushes the text of the whole run, so a run with several text children repeats its text |
| DocxStyle.BreakOnlyRun | src/services/docxStyleParser.service.ts:197-211 | a run holding only a line break pushes two breaks: one for the `w:br` child and one from the no-text check |
| DocxStyle.UnknownWrapper | src/services/docxStyleParser.service.ts:149-155 | an unknown element holding one paragraph adds just that paragraph |
| DocxStyle.OtherElementPart | src/services/docxStyleParser.service.ts:149-155 | an element that is no paragraph, table or container, has element children and is no property element adds its own walk when that walk has text |
| DocxStyle.PropertiesSkipped | src/services/docxStyleParser.service.ts:149 | property elements whose tag ends in "pr" add nothing to the walk |
| Html.EscapeCharCases | src/services/search.service.ts:300-309 | `&`, `<`, `>`, `"` and `'` become `&amp;`, `&lt;`, `&gt;`, `&quot;` and `&#39;`, and every other character stays as it is |
| Html.EscapeHtmlSafe | src/services/docxStyleParser.service.ts:507-516 | no raw `<`, `>`, `"` or `'` survives escaping |
| Html.EscapeHtml | src/services/docxStyleParser.service.ts:507-516 | escaping never shortens the text, and is empty exactly for the empty text |
| Html.EscapeHtmlPlain | src/services/fileParser.service.ts:149-158 | escaping never shortens the text and leaves text without special characters unchanged |
| Html.EscapeAppend | src/services/search.service.ts:300-309 | escaping a concatenation is concatenating the escaped parts, so escaping character by character or slice by slice gives the same text |
| Html.UnescapeEscape | src/services/search.service.ts:300-309 | escaping loses nothing: decoding the five entities gives the original text back |
| Html.EscapeCounts | src/services/search.service.ts:300-309 | each entity occurs in the escaped text exactly as often as its character occurs in the text |
| Html.CountSkip | src/services/search.service.ts:217 | text in which the first character of the pattern never occurs adds no match to the left-to-right count |
| Html.CountHead | src/services/search.service.ts:217 | a leading occurrence of the pattern counts once |
| Html.MarkedOpenCount | src/services/search.service.ts:217 | escaped text wrapped in `<mark>…</mark>` adds one opening marker to the count |
| Html.MarkedCloseCount | src/services/search.service.ts:217 | escaped text wrapped in `<mark>…</mark>` adds one closing marker to the count |
| Html.PlainCounts | src/services/search.service.ts:219 | escaped text adds no marker of either kind |
| Html.StripPlain | src/services/search.service.ts:219 | taking the markers out keeps escaped text as it is |
| Html.StripMarked | src/services/search.service.ts:217 | taking the markers out of a marked piece leaves its escaped text |
| JsString.LowerChar | src/services/search.service.ts:74-75 | ASCII capitals map 32 code points down, and every other character below U+00C0 is unchanged |
| JsString.Lower | src/services/search.service.ts:74-75 | `toLowerCase` keeps the length and lower-cases character by character, so offsets in the lower-cased text are offsets in the text |
| JsString.PrefixAtOccurs | src/services/search.service.ts:79 | comparing character by character finds exactly the occurrences of the pattern |
| JsString.IndexOf | src/services/search.service.ts:79 | `indexOf` returns -1 exactly when the pattern does not occur from the offset on, and otherwise its first occurrence there |
| JsString.SliceBound | src/services/search.service.ts:178 | a `slice` argument is clamped into the string and kept when already inside it |
| JsString.Slice | src/services/search.service.ts:178 | `slice` with bounds inside the string is the sub-sequence, and never longer than the string |
| JsString.Split | src/services/search.service.ts:199-200 | `split` on one character gives at least one part, and no part holds the separator |
| JsString.JoinSplit | src/services/search.service.ts:199-202 | splitting and joining with the same separator gives the text back |
| JsString.SplitJoin | src/modules/extractor/composables/useExtractor.ts:186-189 | joining parts free of the separator and splitting again gives the parts back |
| JsString.SplitCount | src/services/search.service.ts:199-200 | a text holding n separators splits into n + 1 parts |
| JsString.ConcatJoin | src/services/search.service.ts:268 | `join("")` is the parts one after the other |
| JsString.JoinSnoc | src/services/docxStyleParser.service.ts:159-161 | joining one more part appends the separator and the part, or gives the part alone when there were none |
| JsString.SpliceOut | src/stores/extractor.store.ts:165-169 | `splice(i, 1)` keeps the elements before `i` where they were and moves the ones after it down by one |
| JsString.DigitPrefix | src/composables/useGridSelection.ts:47 | `parseInt` reads the longest prefix of decimal digits |
| JsString.TrimStart | src/composables/useGridSelection.ts:47 | `parseInt` first drops leading white space, leaving a suffix that does not start with white space |
| JsString.NatText | src/services/docxStyleParser.service.ts:443 | the decimal text of a number is non-empty and made of digits |
| JsString.NatTextValue | src/services/docxStyleParser.service.ts:443 | the decimal text of a number reads back as that number |
| JsString.ParseIntText | src/services/docxStyleParser.service.ts:348 | `parseInt` reads back the decimal text of every integer |
| JsString.ParseDigits | src/composables/useGridSelection.ts:47 | `parseInt` of a digit string is the number it writes |
| JsString.ParseNegatedDigits | src/services/docxStyleParser.service.ts:403 | `parseInt` of a minus sign followed by digits is the negated number |

## Left out

- Strings are sequences of UTF-16 code units. `toLowerCase` is modelled as length-preserving lower-casing of ASCII and Latin-1 capitals only, because full Unicode case mapping can change a string's length. `for…of` in `highlightIntervalText` walks code points, but the model walks code units.
- The database (`db.service.ts`) is not modelled. Each call's outcome is a parameter: the id it assigned, the list it returned, or the error it raised.
- The browser's file reading, JSZip, `DOMParser`, pdf.js, mammoth and the DOM-based `htmlToText` are not modelled. What each produced for a file, or its failure, is part of that file's input. The XML document is a tree datatype.
- `Library.Uploader.UploadOne`: the parse outcome is a field of the upload rather than a call into the parser. `ParsedByParser` and `ParsedOnlyIfSupported` tie it to `FileParser.ParseFileSpec`.
- The `DocxStyle.ParseDocxWithStyles` contract states only the failure direction. A success is the walk of the parsed document.
- `extractRunStyle`, `extractParagraphStyle`, `wrapTextWithStyle` and `wrapParagraphWithStyle` fill a record or an array field by field. They are modelled as functions that build the whole value at once, because no step of those fills is observable from outside.
- Timers are not modelled. Toast expiry is a later call to `Remove` with the returned id. The touch-flag reset of the grid selection and `useDebounceFn` are left out.
- A `requestAnimationFrame` callback runs as soon as it is requested. So between two events the grid selection never has changes pending.
- Vue watchers and computed values are explicit calls of the methods that model their bodies.
- Local-storage persistence is not modelled: loading the extractor store and the settings takes the stored value as input, and write-back is left out.
- The confirmation dialog (`useConfirm`) is a boolean parameter holding the user's answer.
- Clipboard access (`copyItem`, `pasteFromClipboard`) is left out.
- The extractor's toasts are left out. Its methods state their effect on the store, not the message shown.
- `Extractor.Session.HandleAction`: an extracted item's `indices` are the selection in ascending order. The source uses the selected set's insertion order, which a Dafny `set` does not have; the text is built from the sorted indices in both.
- `getNavigationIndex` is the identity and `displayExtractedList` is the list itself; neither is modelled.
- `getExtractedStyle` only formats colours and is left out.
- `isCellSelected` and `isCellPartiallySelected` are the predicates `Extractor.IsCellSelected` and `Extractor.IsCellPartiallySelected`. Their properties are the lemmas `Extractor.SelectedCountSpec` and `Extractor.PartialSelection`.
- `filterSymbols` is stored and toggled, but the search service never reads it, so it does not change a search in the model either.
- `Object.assign` in `updateConfig` is modelled with a patch whose fields are optional. A field explicitly set to `undefined` is treated like a missing one.
- Prototype keys of JavaScript objects (`HIGHLIGHT_COLOR_MAP["constructor"]`, say) are not modelled. A lookup finds only the table's own entries.
- Mouse and touch coordinates are integers, not floating-point numbers. Pinch zoom (`usePinchZoom.ts`) is floating-point arithmetic and is left out.
- Numbers rendered into CSS are exact hundredths (sizes in half-points, indents in twentieths of a point). A NaN from `parseInt` is a separate value.
- The gesture's callbacks are given as two flags saying which exist. The model returns the direction whose callback fires, rather than calling it.
- `setDetail`'s omitted arguments are `None`, and each takes its default.
- The grid selection's fallback for callers without `setIndices` (one `addIndex`/`removeIndex` call per index) is left out. Its only caller, the extractor, supplies `setIndices`.
- `useLibrary.ts` has its own `getFileExtension`. It is the same function as the file parser's, and `FileParser.GetFileExtension` models both.
- `Library.Progress` is the upload percentage. No property of it is stated beyond its value at the end of an upload.
- Routing, bootstrapping, event binding and unbinding, and the manual DOCX test scripts are left out.
- Kept as written:
  - the interval scan stops at the first start that has no match (`SearchService.IntervalStopsAtFirstMiss`);
  - each `w:t` child of a run repeats the whole run's text (`DocxStyle.RunTextRepeats`);
  - a run that holds only a break pushes two breaks (`DocxStyle.BreakOnlyRun`);
  - pruning the document filter to nothing widens the search to every document (`SearchStore.PruneKeepsSelection`).
