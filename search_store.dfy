/**
 * The search page's state (`search.store.ts`): the query, the search mode,
 * the results, and the set of document ids the search is restricted to
 * (empty: every document). The documents come from the document store and
 * the search parameters from the settings.
 */
module SearchStore {
  import opened JsString
  import opened Types
  import SearchService
  import opened DocumentStore
  import opened AppStore

  /** The documents whose id is in `sel`, in their original order. */
  function Selected(docs: seq<Document>, sel: set<int>): seq<Document>
  {
    if docs == [] then []
    else
      (if docs[0].id.Some? && docs[0].id.value in sel then [docs[0]] else [])
      + Selected(docs[1..], sel)
  }

  /** `filteredDocuments`: every document when nothing is selected. */
  function Filtered(docs: seq<Document>, sel: set<int>): seq<Document>
  {
    if sel == {} then docs else Selected(docs, sel)
  }

  /** Selecting keeps exactly the documents with a selected id, and it
      keeps their order: it distributes over concatenation. */
  lemma {:induction false} SelectedSpec(docs: seq<Document>, more: seq<Document>, sel: set<int>)
    ensures forall d :: d in Selected(docs, sel) <==> d in docs && d.id.Some? && d.id.value in sel
    ensures Selected(docs + more, sel) == Selected(docs, sel) + Selected(more, sel)
  {
    SelectedMembers(docs, sel);
    SelectedAppend(docs, more, sel);
  }

  lemma {:induction false} SelectedMembers(docs: seq<Document>, sel: set<int>)
    ensures forall d :: d in Selected(docs, sel) <==> d in docs && d.id.Some? && d.id.value in sel
  {
    if docs != [] {
      SelectedMembers(docs[1..], sel);
      var head := if docs[0].id.Some? && docs[0].id.value in sel then [docs[0]] else [];
      assert Selected(docs, sel) == head + Selected(docs[1..], sel);
      assert docs == [docs[0]] + docs[1..];
    }
  }

  lemma {:induction false} SelectedAppend(docs: seq<Document>, more: seq<Document>, sel: set<int>)
    ensures Selected(docs + more, sel) == Selected(docs, sel) + Selected(more, sel)
  {
    if docs != [] {
      SelectedAppend(docs[1..], more, sel);
      assert (docs + more)[0] == docs[0];
      assert (docs + more)[1..] == docs[1..] + more;
      var head := if docs[0].id.Some? && docs[0].id.value in sel then [docs[0]] else [];
      Assoc(head, Selected(docs[1..], sel), Selected(more, sel));
    } else {
      assert docs + more == more;
    }
  }

  /** The ids of the documents that have one (`doc.id !== undefined`). */
  function Ids(docs: seq<Document>): set<int>
  {
    set d | d in docs && d.id.Some? :: d.id.value
  }

  /** Selecting every id keeps every document that has an id. */
  lemma {:induction false} SelectAllKeeps(docs: seq<Document>, sel: set<int>)
    requires Ids(docs) <= sel
    ensures forall d :: d in Selected(docs, sel) <==> d in docs && d.id.Some?
  {
    SelectedSpec(docs, [], sel);
    forall d | d in docs && d.id.Some?
      ensures d.id.value in sel
    {
      assert d.id.value in Ids(docs);
    }
  }

  /** Dropping the ids that no longer belong to any document does not
      change which documents a non-empty selection keeps; when it empties
      the selection, every document is searched again. */
  lemma {:induction false} PruneKeepsSelection(docs: seq<Document>, sel: set<int>, valid: set<int>)
    requires Ids(docs) <= valid
    ensures Selected(docs, sel * valid) == Selected(docs, sel)
    ensures sel * valid != {} ==> Filtered(docs, sel * valid) == Filtered(docs, sel)
    ensures sel != {} && sel * valid == {} ==> Filtered(docs, sel * valid) == docs
  {
    if docs != [] {
      assert Ids(docs[1..]) <= Ids(docs) by {
        forall x | x in Ids(docs[1..]) ensures x in Ids(docs) {
          var d :| d in docs[1..] && d.id.Some? && d.id.value == x;
          assert d in docs;
        }
      }
      PruneKeepsSelection(docs[1..], sel, valid);
      if docs[0].id.Some? {
        assert docs[0].id.value in Ids(docs);
      }
    }
  }

  /** Everything the search store holds. */
  datatype State = State(
    query: string,
    isExact: bool,
    isSearching: bool,
    results: seq<SearchResult>,
    selectedDocIds: set<int>,
    fontSize: int,
    filterSymbols: bool,
    scrollTop: int)

  /** The options `performSearch` passes; the symbol filter flag is not
      among the options the search reads. */
  function OptionsFor(st: State, config: AppConfig): SearchOptions
  {
    SearchOptions(config.maxSearchGap, st.isExact, config.previewRange)
  }

  /** The state after `performSearch`. */
  function Performed(st: State, docs: seq<Document>, config: AppConfig): State
  {
    if IsBlank(st.query) then st.(results := [])
    else st.(results := SearchService.SearchSpec(st.query, Filtered(docs, st.selectedDocIds), OptionsFor(st, config)),
             isSearching := false)
  }

  /** What the toggles do after changing their flag: search again only
      when the query is not blank. */
  function Refreshed(st: State, docs: seq<Document>, config: AppConfig): State
  {
    if IsBlank(st.query) then st else Performed(st, docs, config)
  }

  /** Searching from the state `performSearch` left gives the same state
      again, and a blank query never keeps results. */
  lemma PerformedSpec(st: State, docs: seq<Document>, config: AppConfig)
    ensures Performed(Performed(st, docs, config), docs, config) == Performed(st, docs, config)
    ensures IsBlank(st.query) ==> Performed(st, docs, config).results == []
    ensures !IsBlank(st.query) ==> !Performed(st, docs, config).isSearching
    ensures Refreshed(st, docs, config).query == st.query
  {
  }

  class Searcher {
    const documentStore: Documents
    const appStore: App
    var query: string
    var isExact: bool
    var isSearching: bool
    var results: seq<SearchResult>
    var selectedDocIds: set<int>
    var fontSize: int
    var filterSymbols: bool
    var scrollTop: int

    function Snapshot(): State
      reads this
    {
      State(query, isExact, isSearching, results, selectedDocIds, fontSize, filterSymbols, scrollTop)
    }

    /** The store as created; `isExact`, `fontSize` and `filterSymbols`
        come from storage. */
    constructor (documentStore: Documents, appStore: App, isExact: bool, fontSize: int, filterSymbols: bool)
      ensures this.documentStore == documentStore && this.appStore == appStore
      ensures Snapshot() == State([], isExact, false, [], {}, fontSize, filterSymbols, 0)
    {
      this.documentStore := documentStore;
      this.appStore := appStore;
      query := [];
      this.isExact := isExact;
      isSearching := false;
      results := [];
      selectedDocIds := {};
      this.fontSize := fontSize;
      this.filterSymbols := filterSymbols;
      scrollTop := 0;
    }

    /** `filteredDocuments`. */
    function FilteredDocuments(): (r: seq<Document>)
      reads this, documentStore
      ensures selectedDocIds == {} ==> r == documentStore.documents
      ensures selectedDocIds != {} ==>
        forall d :: d in r <==> d in documentStore.documents && d.id.Some? && d.id.value in selectedDocIds
    {
      SelectedMembers(documentStore.documents, selectedDocIds);
      Filtered(documentStore.documents, selectedDocIds)
    }

    /** `resultCount`. */
    function ResultCount(): (n: nat)
      reads this
      ensures n == 0 <==> results == []
    {
      |results|
    }

    /** `hasResults`. */
    predicate HasResults()
      reads this
      ensures HasResults() <==> ResultCount() != 0
    {
      |results| > 0
    }

    /** `isDocSelected`. */
    predicate IsDocSelected(docId: int)
      reads this, documentStore
      ensures IsDocSelected(docId) ==>
        forall d :: d in documentStore.documents && d.id == Some(docId) ==> d in FilteredDocuments()
    {
      docId in selectedDocIds
    }

    /** `performSearch`. */
    method PerformSearch()
      modifies this
      ensures Snapshot() == Performed(old(Snapshot()), documentStore.documents, appStore.config)
    {
      if IsBlank(query) {
        results := [];
        return;
      }
      isSearching := true;
      var found := SearchService.Search(query, FilteredDocuments(), SearchOptions(appStore.config.maxSearchGap, isExact, appStore.config.previewRange));
      results := found;
      isSearching := false;
    }

    /** `clearSearch`. */
    method ClearSearch()
      modifies this
      ensures Snapshot() == old(Snapshot()).(query := [], results := [], scrollTop := 0)
    {
      query := [];
      results := [];
      scrollTop := 0;
    }

    method SetQuery(value: string)
      modifies this
      ensures Snapshot() == old(Snapshot()).(query := value)
    {
      query := value;
    }

    method SetScrollTop(value: int)
      modifies this
      ensures Snapshot() == old(Snapshot()).(scrollTop := value)
    {
      scrollTop := value;
    }

    /** `toggleExactMode`. */
    method ToggleExactMode()
      modifies this
      ensures Snapshot() == Refreshed(old(Snapshot()).(isExact := !old(isExact)), documentStore.documents, appStore.config)
    {
      isExact := !isExact;
      if !IsBlank(query) {
        PerformSearch();
      }
    }

    /** `toggleFilterSymbols`. */
    method ToggleFilterSymbols()
      modifies this
      ensures Snapshot() == Refreshed(old(Snapshot()).(filterSymbols := !old(filterSymbols)), documentStore.documents, appStore.config)
    {
      filterSymbols := !filterSymbols;
      if !IsBlank(query) {
        PerformSearch();
      }
    }

    /** `initDocFilter`: every document that has an id is selected. */
    method InitDocFilter()
      modifies this
      ensures Snapshot() == old(Snapshot()).(selectedDocIds := Ids(documentStore.documents))
    {
      selectedDocIds := Ids(documentStore.documents);
    }

    /** `toggleDocSelection`: only that id changes membership. */
    method ToggleDocSelection(docId: int)
      modifies this
      ensures Snapshot() == Refreshed(old(Snapshot()).(selectedDocIds :=
        if docId in old(selectedDocIds) then old(selectedDocIds) - {docId} else old(selectedDocIds) + {docId}),
        documentStore.documents, appStore.config)
    {
      if docId in selectedDocIds {
        selectedDocIds := selectedDocIds - {docId};
      } else {
        selectedDocIds := selectedDocIds + {docId};
      }
      if !IsBlank(query) {
        PerformSearch();
      }
    }

    /** `selectAllDocs`. */
    method SelectAllDocs()
      modifies this
      ensures Snapshot() == Refreshed(old(Snapshot()).(selectedDocIds := Ids(documentStore.documents)),
        documentStore.documents, appStore.config)
    {
      selectedDocIds := Ids(documentStore.documents);
      if !IsBlank(query) {
        PerformSearch();
      }
    }

    /** `deselectAllDocs`. */
    method DeselectAllDocs()
      modifies this
      ensures Snapshot() == Refreshed(old(Snapshot()).(selectedDocIds := {}), documentStore.documents, appStore.config)
    {
      selectedDocIds := {};
      if !IsBlank(query) {
        PerformSearch();
      }
    }
  }
}
