/**
 * The search page's composable (`useSearch.ts`): paging through the
 * extracted items, each of which becomes the search query when it is
 * shown, and the watchers that keep the search and the document filter
 * in step with the stores.
 */
module UseSearch {
  import opened JsString
  import opened Types
  import opened ExtractorStore
  import opened SearchStore
  import Extractor
  import SearchService

  /** `currentExtractedItem`: the item at the index, or nothing when the
      list is empty or the index has fallen outside it. */
  function CurrentItem(items: seq<ExtractedItem>, index: int): (r: Option<ExtractedItem>)
    ensures r.Some? <==> 0 <= index < |items|
    ensures r.Some? ==> r.value == items[index]
  {
    if |items| == 0 then None
    else if 0 <= index < |items| then Some(items[index])
    else None
  }

  /** `extractedPagination`: the one-based position and the count. */
  datatype Pagination = Pagination(current: int, total: nat)

  function PaginationOf(items: seq<ExtractedItem>, index: int): (r: Pagination)
    ensures r.total == |items|
    ensures 0 <= index < |items| ==> 1 <= r.current <= r.total
  {
    Pagination(index + 1, |items|)
  }

  /** The index after `prevExtractedItem`. */
  function PrevIndex(index: int, count: nat): int
  {
    if count == 0 then index
    else if index > 0 then index - 1
    else index
  }

  /** The index after `nextExtractedItem`. */
  function NextIndex(index: int, count: nat): int
  {
    if count == 0 then index
    else if index < count - 1 then index + 1
    else index
  }

  /** The index after `goToExtractedItem(target)`. */
  function GoToIndex(index: int, target: int, count: nat): int
  {
    if 0 <= target < count then target else index
  }

  /** Paging keeps an index that was on the list on the list, moves by at
      most one, stops at either end, and a step back undoes a step forward
      and the other way round. */
  lemma PagingSpec(index: int, target: int, count: nat)
    ensures 0 <= index < count ==> 0 <= PrevIndex(index, count) < count && 0 <= NextIndex(index, count) < count
    ensures 0 <= index < count ==> 0 <= GoToIndex(index, target, count) < count
    ensures count > 0 ==> PrevIndex(0, count) == 0 && NextIndex(count - 1, count) == count - 1
    ensures 0 < index < count ==> NextIndex(PrevIndex(index, count), count) == index
    ensures 0 <= index < count - 1 ==> PrevIndex(NextIndex(index, count), count) == index
    ensures PrevIndex(index, count) <= index <= NextIndex(index, count)
    ensures !(0 <= target < count) ==> GoToIndex(index, target, count) == index
  {
  }

  /** What showing the item at `index` does to the search store: when
      there is an item there, it becomes the query and is searched for. */
  function Shown(st: SearchStore.State, items: seq<ExtractedItem>, index: int, docs: seq<Document>, config: AppConfig): SearchStore.State
  {
    var item := CurrentItem(items, index);
    if item.Some? then Performed(st.(query := item.value.text), docs, config) else st
  }

  /** Showing an item whose text is not blank leaves exactly the results
      of searching for that text; showing one whose text is blank clears
      the results. */
  lemma ShownSpec(st: SearchStore.State, items: seq<ExtractedItem>, index: int, docs: seq<Document>, config: AppConfig)
    requires 0 <= index < |items|
    ensures Shown(st, items, index, docs, config).query == items[index].text
    ensures !IsBlank(items[index].text) ==>
      Shown(st, items, index, docs, config).results
        == SearchService.SearchSpec(items[index].text, Filtered(docs, st.selectedDocIds),
                                   SearchOptions(config.maxSearchGap, st.isExact, config.previewRange))
    ensures IsBlank(items[index].text) ==> Shown(st, items, index, docs, config).results == []
    ensures Shown(st, items, index, docs, config).selectedDocIds == st.selectedDocIds
  {
  }

  class Pager {
    const extractor: Store
    const searcher: Searcher
    var currentIndex: int

    constructor (extractor: Store, searcher: Searcher)
      ensures this.extractor == extractor && this.searcher == searcher && currentIndex == 0
    {
      this.extractor := extractor;
      this.searcher := searcher;
      currentIndex := 0;
    }

    /** `currentExtractedItem`. */
    function Current(): Option<ExtractedItem>
      reads this, extractor
    {
      CurrentItem(extractor.extractedList, currentIndex)
    }

    /** `hasExtractedItems`. */
    predicate HasExtractedItems()
      reads extractor
      ensures HasExtractedItems() <==> CurrentItem(extractor.extractedList, 0).Some?
    {
      |extractor.extractedList| > 0
    }

    /** Shows the current item, if any, as the query. */
    method ShowCurrent()
      modifies searcher
      ensures searcher.Snapshot() == Shown(old(searcher.Snapshot()), extractor.extractedList, currentIndex,
                                           searcher.documentStore.documents, searcher.appStore.config)
    {
      var item := Current();
      if item.Some? {
        searcher.SetQuery(item.value.text);
        searcher.PerformSearch();
      }
    }

    /** `prevExtractedItem`: the search runs only when the index moved. */
    method Prev()
      modifies this, searcher
      ensures currentIndex == PrevIndex(old(currentIndex), |extractor.extractedList|)
      ensures searcher.Snapshot() ==
        if currentIndex == old(currentIndex) then old(searcher.Snapshot())
        else Shown(old(searcher.Snapshot()), extractor.extractedList, currentIndex,
                   searcher.documentStore.documents, searcher.appStore.config)
    {
      if |extractor.extractedList| == 0 {
        return;
      }
      if currentIndex > 0 {
        currentIndex := currentIndex - 1;
        ShowCurrent();
      }
    }

    /** `nextExtractedItem`. */
    method Next()
      modifies this, searcher
      ensures currentIndex == NextIndex(old(currentIndex), |extractor.extractedList|)
      ensures searcher.Snapshot() ==
        if currentIndex == old(currentIndex) then old(searcher.Snapshot())
        else Shown(old(searcher.Snapshot()), extractor.extractedList, currentIndex,
                   searcher.documentStore.documents, searcher.appStore.config)
    {
      if |extractor.extractedList| == 0 {
        return;
      }
      if currentIndex < |extractor.extractedList| - 1 {
        currentIndex := currentIndex + 1;
        ShowCurrent();
      }
    }

    /** `goToExtractedItem`: an index outside the list is ignored. */
    method GoTo(index: int)
      modifies this, searcher
      ensures currentIndex == GoToIndex(old(currentIndex), index, |extractor.extractedList|)
      ensures searcher.Snapshot() ==
        if 0 <= index < |extractor.extractedList|
        then Shown(old(searcher.Snapshot()), extractor.extractedList, index,
                   searcher.documentStore.documents, searcher.appStore.config)
        else old(searcher.Snapshot())
    {
      if 0 <= index < |extractor.extractedList| {
        currentIndex := index;
        ShowCurrent();
      }
    }

    /** `useExtractedItemAsQuery`. */
    method UseExtractedItemAsQuery()
      modifies searcher
      ensures searcher.Snapshot() == Shown(old(searcher.Snapshot()), extractor.extractedList, currentIndex,
                                           searcher.documentStore.documents, searcher.appStore.config)
    {
      ShowCurrent();
    }

    /** The watchers on the exact-match flag and on the search settings:
        search again when the query is not blank. */
    method OnSearchSettingsChanged()
      modifies searcher
      ensures searcher.Snapshot() == Refreshed(old(searcher.Snapshot()),
                                               searcher.documentStore.documents, searcher.appStore.config)
    {
      if !IsBlank(searcher.query) {
        searcher.PerformSearch();
      }
    }

    /** The watcher on the document list: every selected id that no
        document carries any more is dropped, and nothing else changes. */
    method OnDocumentsChanged()
      modifies searcher
      ensures searcher.Snapshot() == old(searcher.Snapshot()).(selectedDocIds :=
        old(searcher.selectedDocIds) * Ids(searcher.documentStore.documents))
    {
      var validIds := Ids(searcher.documentStore.documents);
      var remaining := searcher.selectedDocIds;
      while remaining != {}
        invariant remaining <= old(searcher.selectedDocIds)
        invariant searcher.selectedDocIds == (old(searcher.selectedDocIds) - remaining) * validIds + remaining
        invariant searcher.Snapshot() == old(searcher.Snapshot()).(selectedDocIds := searcher.selectedDocIds)
        decreases remaining
      {
        Extractor.HasElement(remaining);
        var id :| id in remaining;
        if id !in validIds {
          searcher.selectedDocIds := searcher.selectedDocIds - {id};
        }
        remaining := remaining - {id};
      }
    }
  }
}
