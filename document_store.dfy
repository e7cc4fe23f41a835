/**
 * The in-memory document list (`document.store.ts`), newest first, kept in
 * step with the database. The database is not modelled: each call's
 * outcome (the id it assigned, the list it returned, or the failure it
 * raised) is a parameter.
 */
module DocumentStore {
  import opened JsString
  import opened Types

  /** What a database call produced: a value, or a thrown failure whose
      message is present when the failure is an `Error`. */
  datatype DbResult<T> = Stored(value: T) | DbError(message: Option<string>)

  /** `e instanceof Error ? e.message : fallback`. */
  function ErrorText(message: Option<string>, fallback: string): string
  {
    if message.Some? then message.value else fallback
  }

  const LoadFailed: string := "加载文档失败"
  const AddFailed: string := "添加文档失败"
  const DeleteFailed: string := "删除文档失败"

  predicate HasIdValue(d: Document, id: int)
  {
    d.id == Some(id)
  }

  /** `findIndex(doc => doc.id === id)`. */
  function IndexOfId(docs: seq<Document>, id: int): (r: int)
    ensures -1 <= r < |docs|
    ensures r == -1 <==> forall i :: 0 <= i < |docs| ==> !HasIdValue(docs[i], id)
    ensures r >= 0 ==> HasIdValue(docs[r], id)
    ensures r >= 0 ==> forall i :: 0 <= i < r ==> !HasIdValue(docs[i], id)
  {
    if docs == [] then -1
    else if HasIdValue(docs[0], id) then 0
    else
      var r := IndexOfId(docs[1..], id);
      if r == -1 then -1 else r + 1
  }

  /** `find(doc => doc.id === id)`: the first document with that id. */
  function FindById(docs: seq<Document>, id: int): (r: Option<Document>)
    ensures r.None? <==> forall i :: 0 <= i < |docs| ==> !HasIdValue(docs[i], id)
    ensures r.Some? ==> r.value == docs[IndexOfId(docs, id)]
  {
    var i := IndexOfId(docs, id);
    if i == -1 then None else Some(docs[i])
  }

  /** The list after `deleteDocument(id)`: the first document with that id
      is spliced out. */
  function WithoutId(docs: seq<Document>, id: int): (r: seq<Document>)
  {
    var i := IndexOfId(docs, id);
    if i == -1 then docs else docs[..i] + docs[i + 1..]
  }

  /** Deleting removes exactly the first document with the id, and the
      others keep their order; with no such document nothing changes. */
  lemma WithoutIdSpec(docs: seq<Document>, id: int)
    ensures IndexOfId(docs, id) == -1 ==> WithoutId(docs, id) == docs
    ensures IndexOfId(docs, id) >= 0 ==>
      var i := IndexOfId(docs, id);
      && |WithoutId(docs, id)| == |docs| - 1
      && (forall j :: 0 <= j < i ==> WithoutId(docs, id)[j] == docs[j])
      && (forall j :: i <= j < |docs| - 1 ==> WithoutId(docs, id)[j] == docs[j + 1])
  {
    var i := IndexOfId(docs, id);
    if i >= 0 {
      SpliceOut(docs, i, WithoutId(docs, id));
    }
  }

  /** Deleting the id a document was just added under gives back the old
      list; when the id was new, it is then no longer found. */
  lemma AddThenDelete(docs: seq<Document>, doc: Document, id: int)
    ensures WithoutId([doc.(id := Some(id))] + docs, id) == docs
    ensures FindById(docs, id).None? ==> FindById(WithoutId([doc.(id := Some(id))] + docs, id), id).None?
  {
    assert IndexOfId([doc.(id := Some(id))] + docs, id) == 0;
  }

  class Documents {
    var documents: seq<Document>
    var loading: bool
    var error: Option<string>

    constructor ()
      ensures documents == [] && !loading && error.None?
    {
      documents := [];
      loading := false;
      error := None;
    }

    /** `documentCount`. */
    function DocumentCount(): (n: nat)
      reads this
      ensures n == 0 <==> documents == []
    {
      |documents|
    }

    /** `hasDocuments`. */
    predicate HasDocuments()
      reads this
      ensures HasDocuments() <==> DocumentCount() != 0
    {
      |documents| > 0
    }

    /** `loadDocuments`: the stored list replaces the list; on failure the
        list stays and the error is recorded; `loading` is false either
        way. Returns the failure it re-raises. */
    method LoadDocuments(outcome: DbResult<seq<Document>>) returns (thrown: Option<Option<string>>)
      modifies this
      ensures !loading
      ensures outcome.Stored? ==> documents == outcome.value && error.None? && thrown.None?
      ensures outcome.DbError? ==>
        documents == old(documents) && error == Some(ErrorText(outcome.message, LoadFailed))
        && thrown == Some(outcome.message)
    {
      loading := true;
      error := None;
      if outcome.Stored? {
        documents := outcome.value;
        thrown := None;
      } else {
        error := Some(ErrorText(outcome.message, LoadFailed));
        thrown := Some(outcome.message);
      }
      loading := false;
    }

    /** `addDocument`: the document, with the id the database gave it,
        goes to the front. */
    method AddDocument(doc: Document, outcome: DbResult<int>) returns (r: DbResult<int>)
      modifies this
      ensures r == outcome && loading == old(loading)
      ensures outcome.Stored? ==>
        documents == [doc.(id := Some(outcome.value))] + old(documents) && error.None?
      ensures outcome.DbError? ==>
        documents == old(documents) && error == Some(ErrorText(outcome.message, AddFailed))
    {
      error := None;
      if outcome.Stored? {
        documents := [doc.(id := Some(outcome.value))] + documents;
      } else {
        error := Some(ErrorText(outcome.message, AddFailed));
      }
      r := outcome;
    }

    /** `deleteDocument`. */
    method DeleteDocument(id: int, outcome: DbResult<()>) returns (r: DbResult<()>)
      modifies this
      ensures r == outcome && loading == old(loading)
      ensures outcome.Stored? ==> documents == WithoutId(old(documents), id) && error.None?
      ensures outcome.DbError? ==>
        documents == old(documents) && error == Some(ErrorText(outcome.message, DeleteFailed))
    {
      error := None;
      if outcome.Stored? {
        var index := IndexOfId(documents, id);
        if index > -1 {
          documents := documents[..index] + documents[index + 1..];
        }
      } else {
        error := Some(ErrorText(outcome.message, DeleteFailed));
      }
      r := outcome;
    }

    /** `getDocumentById`. */
    function GetDocumentById(id: int): (r: Option<Document>)
      reads this
      ensures r.None? <==> forall i :: 0 <= i < |documents| ==> !HasIdValue(documents[i], id)
      ensures r.Some? ==> r.value in documents && r.value.id == Some(id)
    {
      FindById(documents, id)
    }

    /** `clearAll`: the list empties once the database has been cleared. */
    method ClearAll(outcome: DbResult<()>) returns (r: DbResult<()>)
      modifies this
      ensures r == outcome && loading == old(loading) && error == old(error)
      ensures documents == if outcome.Stored? then [] else old(documents)
    {
      if outcome.Stored? {
        documents := [];
      }
      r := outcome;
    }
  }
}
