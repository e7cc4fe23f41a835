/**
 * The document library (`useLibrary.ts`): uploading files (only PDF, DOCX
 * and TXT are accepted; each is parsed and stored, and the outcome is
 * tallied into one toast), deleting a document after confirmation, and
 * loading the list. What the database does with each file, the answer of
 * the confirmation dialog and the clock are inputs.
 */
module Library {
  import opened JsString
  import opened Types
  import opened DocumentStore
  import opened Toast
  import opened FileParser

  const SupportedExtensions: seq<string> := ["pdf", "docx", "txt"]

  /** `isSupportedFile`, by the lower-cased extension. */
  predicate IsSupportedFile(name: string)
    ensures IsSupportedFile(name) ==> '.' in name
  {
    ExtensionSpec(name);
    Lower(GetFileExtension(name)) in SupportedExtensions
  }

  /** The library accepts exactly the files the parser has a format for,
      so a file it rejects would also have been refused by the parser. */
  lemma SupportedAgreesWithParser(file: FileInput)
    ensures IsSupportedFile(file.name) <==> FormatOf(Lower(GetFileExtension(file.name))).Some?
    ensures !IsSupportedFile(file.name) ==> ParseFileSpec(file).ParseError?
  {
  }

  /** One file handed to `uploadFiles`: the file, what `parseFile`
      resolves to for it, what storing its document would do, and the time
      it would be stamped with. */
  datatype Upload = Upload(file: FileInput, parsed: Parsed, stored: DbResult<int>, date: int)

  /** The upload's parse outcome is the parser's. */
  predicate ParsedByParser(u: Upload)
  {
    u.parsed == ParseFileSpec(u.file)
  }

  /** Only a file the library accepts can be parsed, so the filter loses
      no file that could have been stored. */
  lemma ParsedOnlyIfSupported(u: Upload)
    requires ParsedByParser(u)
    ensures u.parsed.Parsed? ==> IsSupportedFile(u.file.name)
  {
    SupportedAgreesWithParser(u.file);
  }

  /** `fileArray.filter(isSupportedFile)`. */
  function Supported(uploads: seq<Upload>): (r: seq<Upload>)
    ensures |r| <= |uploads|
  {
    if uploads == [] then []
    else
      (if IsSupportedFile(uploads[0].file.name) then [uploads[0]] else []) + Supported(uploads[1..])
  }

  /** The filter keeps exactly the supported files. */
  lemma {:induction false} SupportedSpec(uploads: seq<Upload>)
    ensures forall u :: u in Supported(uploads) <==> u in uploads && IsSupportedFile(u.file.name)
  {
    if uploads != [] {
      SupportedSpec(uploads[1..]);
      assert forall u :: u in uploads <==> u == uploads[0] || u in uploads[1..];
    }
  }

  /** The file was parsed and its document stored. */
  predicate Succeeds(u: Upload)
  {
    u.parsed.Parsed? && u.stored.Stored?
  }

  /** The document `uploadFiles` stores for a parsed file; the parse
      result's style flag is not carried over. */
  function NewDocument(u: Upload): Document
    requires Succeeds(u)
  {
    var r := u.parsed.result;
    Document(Some(u.stored.value), u.file.name, r.text, r.html, u.date, None)
  }

  /** What one upload adds to the list. */
  function Contribution(u: Upload): seq<Document>
  {
    if Succeeds(u) then [NewDocument(u)] else []
  }

  /** The documents the uploads add, newest (last uploaded) first. */
  function Added(us: seq<Upload>): seq<Document>
  {
    if us == [] then [] else Contribution(us[|us| - 1]) + Added(us[..|us| - 1])
  }

  function SuccessCount(us: seq<Upload>): (r: nat)
    ensures r <= |us|
  {
    if us == [] then 0
    else SuccessCount(us[..|us| - 1]) + (if Succeeds(us[|us| - 1]) then 1 else 0)
  }

  /** One document per successful upload, each under the id the database
      gave it, from a supported file, and without the style flag. */
  lemma {:induction false} AddedSpec(us: seq<Upload>)
    ensures |Added(us)| == SuccessCount(us)
    ensures forall d :: d in Added(us) ==> d.id.Some? && d.hasOriginalStyles.None?
    ensures (forall u :: u in us ==> IsSupportedFile(u.file.name)) ==>
      forall d :: d in Added(us) ==> IsSupportedFile(d.fileName)
  {
    if us != [] {
      var init := us[..|us| - 1];
      AddedSpec(init);
      assert forall u :: u in init ==> u in us;
      assert us[|us| - 1] in us;
    }
  }

  /** One more upload extends the tally and the added documents. */
  lemma UploadStep(us: seq<Upload>, i: nat)
    requires i < |us|
    ensures Added(us[..i + 1]) == Contribution(us[i]) + Added(us[..i])
    ensures SuccessCount(us[..i + 1]) == SuccessCount(us[..i]) + (if Succeeds(us[i]) then 1 else 0)
  {
    assert us[..i + 1][..i] == us[..i];
  }

  /** A toast to show: its type and text. */
  datatype Notice = Notice(kind: ToastType, text: string)

  /** The toast that reports how the uploads went. */
  function Summary(success: nat, failed: nat): Option<Notice>
  {
    if success > 0 && failed == 0 then Some(Notice(Success, "成功上传 " + NatText(success) + " 个文件"))
    else if success > 0 && failed > 0 then
      Some(Notice(Warning, "上传完成: " + NatText(success) + " 成功, " + NatText(failed) + " 失败"))
    else if failed > 0 then Some(Notice(Error, "上传失败: " + NatText(failed) + " 个文件"))
    else None
  }

  /** Exactly one summary whenever anything was tried: a success toast
      when nothing failed, an error toast when nothing succeeded, a
      warning otherwise. */
  lemma SummarySpec(success: nat, failed: nat)
    ensures Summary(success, failed).None? <==> success == 0 && failed == 0
    ensures Summary(success, failed).Some? ==>
      (Summary(success, failed).value.kind == Success <==> failed == 0)
      && (Summary(success, failed).value.kind == Error <==> success == 0)
      && (Summary(success, failed).value.kind == Warning <==> success > 0 && failed > 0)
  {
  }

  function SkippedNotice(unsupported: nat): Notice
  {
    Notice(Warning, NatText(unsupported) + " 个文件格式不支持，已跳过")
  }

  /** The summary toast, if there is one. */
  function SummaryNotices(success: nat, failed: nat): seq<Notice>
  {
    var s := Summary(success, failed);
    if s.Some? then [s.value] else []
  }

  /** The warning about skipped files, if any were skipped. */
  function SkippedNotices(unsupported: nat): seq<Notice>
  {
    if unsupported > 0 then [SkippedNotice(unsupported)] else []
  }

  /** The summary of uploading `supported`; none when nothing was tried. */
  function Tally(supported: seq<Upload>): seq<Notice>
  {
    SummaryNotices(SuccessCount(supported), |supported| - SuccessCount(supported))
  }

  /** The toasts `uploadFiles` shows, in order. */
  function Notices(uploads: seq<Upload>): seq<Notice>
  {
    SkippedNotices(|uploads| - |Supported(uploads)|) + Tally(Supported(uploads))
  }

  /** Uploading nothing shows nothing; otherwise one or two toasts, the
      summary is present exactly when some file was supported, and it is
      a success toast exactly when every supported file was stored. */
  lemma {:induction false} NoticesSpec(uploads: seq<Upload>)
    ensures uploads == [] ==> Notices(uploads) == []
    ensures uploads != [] ==> 1 <= |Notices(uploads)| <= 2
    ensures Tally(Supported(uploads)) != [] <==> Supported(uploads) != []
    ensures Supported(uploads) != [] ==>
      Notices(uploads)[|Notices(uploads)| - 1].kind == Success
        <==> SuccessCount(Supported(uploads)) == |Supported(uploads)|
  {
    var supported := Supported(uploads);
    if supported != [] {
      AddedSpec(supported);
      SummarySpec(SuccessCount(supported), |supported| - SuccessCount(supported));
    } else {
      assert SuccessCount(supported) == 0;
      if uploads != [] {
        SupportedSpec(uploads);
        assert uploads[0] !in supported;
      }
    }
  }

  /** The toasts a queue whose counter stood at `counter` holds after
      showing `notices`. */
  function Posted(counter: int, notices: seq<Notice>): (r: seq<ToastMessage>)
    ensures |r| == |notices|
    decreases |notices|
  {
    if notices == [] then []
    else
      [ToastMessage(counter + 1, notices[0].kind, notices[0].text, Some(DefaultDuration))]
      + Posted(counter + 1, notices[1..])
  }

  /** `Math.round((done / total) * 100)`, over exact fractions. */
  function Progress(done: nat, total: nat): int
    requires total > 0
  {
    (done * 200 + total) / (2 * total)
  }

  class Uploader {
    const documents: Documents
    const toasts: ToastQueue
    var uploading: bool
    var uploadProgress: int

    constructor (documents: Documents, toasts: ToastQueue)
      ensures this.documents == documents && this.toasts == toasts
      ensures !uploading && uploadProgress == 0
    {
      this.documents := documents;
      this.toasts := toasts;
      uploading := false;
      uploadProgress := 0;
    }

    /** Shows one notice with the default duration. */
    method Notify(notice: Notice)
      requires toasts.Valid()
      modifies toasts
      ensures toasts.Valid() && toasts.toastId == old(toasts.toastId) + 1
      ensures toasts.toasts == old(toasts.toasts) + Posted(old(toasts.toastId), [notice])
    {
      var _, _ := toasts.ShowTyped(notice.text, notice.kind, None);
    }

    /** Shows the notices one after the other. */
    method NotifyAll(notices: seq<Notice>)
      requires toasts.Valid()
      modifies toasts
      ensures toasts.Valid() && toasts.toastId == old(toasts.toastId) + |notices|
      ensures toasts.toasts == old(toasts.toasts) + Posted(old(toasts.toastId), notices)
    {
      for i := 0 to |notices|
        invariant toasts.Valid() && toasts.toastId == old(toasts.toastId) + i
        invariant toasts.toasts == old(toasts.toasts) + Posted(old(toasts.toastId), notices[..i])
      {
        ghost var before := toasts.toasts;
        Notify(notices[i]);
        PostedAppend(old(toasts.toastId), notices[..i], [notices[i]]);
        assert notices[..i] + [notices[i]] == notices[..i + 1];
        Assoc(old(toasts.toasts), Posted(old(toasts.toastId), notices[..i]), Posted(old(toasts.toastId) + i, [notices[i]]));
      }
      assert notices[..|notices|] == notices;
    }

    /** The body of the upload loop for one file: parse it, and store
        its document when that worked; `ok` says whether both did. */
    method UploadOne(u: Upload) returns (ok: bool)
      modifies documents
      ensures ok == Succeeds(u)
      ensures documents.documents == Contribution(u) + old(documents.documents)
    {
      var parsed := u.parsed;
      if parsed.Parsed? {
        var doc := Document(None, u.file.name, parsed.result.text, parsed.result.html, u.date, None);
        var r := documents.AddDocument(doc, u.stored);
        ok := r.Stored?;
      } else {
        ok := false;
      }
    }

    /** The upload loop over the supported files: every file is tried,
        and the counts say how many were stored and how many failed. */
    method UploadAll(supported: seq<Upload>) returns (successCount: nat, failCount: nat)
      requires supported != []
      modifies this, documents
      ensures documents.documents == Added(supported) + old(documents.documents)
      ensures successCount == SuccessCount(supported) && failCount == |supported| - successCount
      ensures !uploading && uploadProgress == 0
    {
      uploading := true;
      uploadProgress := 0;
      successCount := 0;
      failCount := 0;
      for i := 0 to |supported|
        invariant documents.documents == Added(supported[..i]) + old(documents.documents)
        invariant successCount == SuccessCount(supported[..i]) && failCount == i - successCount
      {
        ghost var added := Added(supported[..i]);
        var ok := UploadOne(supported[i]);
        UploadStep(supported, i);
        Assoc(Contribution(supported[i]), added, old(documents.documents));
        if ok {
          successCount := successCount + 1;
        } else {
          failCount := failCount + 1;
        }
        uploadProgress := Progress(i + 1, |supported|);
      }
      assert supported[..|supported|] == supported;
      uploading := false;
      uploadProgress := 0;
    }

    /** The upload loop and the summary toast. */
    method UploadAndReport(supported: seq<Upload>)
      requires supported != [] && toasts.Valid()
      modifies this, documents, toasts
      ensures toasts.Valid()
      ensures documents.documents == Added(supported) + old(documents.documents)
      ensures toasts.toasts == old(toasts.toasts) + Posted(old(toasts.toastId), Tally(supported))
      ensures toasts.toastId == old(toasts.toastId) + |Tally(supported)|
      ensures !uploading && uploadProgress == 0
    {
      var successCount, failCount := UploadAll(supported);
      assert SummaryNotices(successCount, failCount) == Tally(supported);
      NotifyAll(SummaryNotices(successCount, failCount));
    }

    /** `uploadFiles` for a non-empty list: the warning about skipped
        files, then, when some file is supported, the uploads and the
        summary. */
    method UploadList(uploads: seq<Upload>)
      requires uploads != []
      requires toasts.Valid()
      modifies this, documents, toasts
      ensures toasts.Valid()
      ensures documents.documents == Added(Supported(uploads)) + old(documents.documents)
      ensures toasts.toasts == old(toasts.toasts) + Posted(old(toasts.toastId), Notices(uploads))
      ensures Supported(uploads) == [] ==> uploading == old(uploading) && uploadProgress == old(uploadProgress)
      ensures Supported(uploads) != [] ==> !uploading && uploadProgress == 0
    {
      if |Supported(uploads)| == 0 {
        SkipAll(uploads);
      } else {
        UploadSome(uploads);
      }
    }

    /** Some file of `uploads` is supported: the skipped files are
        warned about, the others uploaded, and the summary shown. */
    method UploadSome(uploads: seq<Upload>)
      requires Supported(uploads) != [] && toasts.Valid()
      modifies this, documents, toasts
      ensures toasts.Valid()
      ensures documents.documents == Added(Supported(uploads)) + old(documents.documents)
      ensures toasts.toasts == old(toasts.toasts) + Posted(old(toasts.toastId), Notices(uploads))
      ensures !uploading && uploadProgress == 0
    {
      var supported := Supported(uploads);
      var skipped := |uploads| - |supported|;
      UploadSupported(supported, skipped, Notices(uploads));
    }

    /** No file is supported: only the warning is shown. */
    method SkipAll(uploads: seq<Upload>)
      requires Supported(uploads) == [] && toasts.Valid()
      modifies toasts
      ensures toasts.Valid()
      ensures toasts.toasts == old(toasts.toasts) + Posted(old(toasts.toastId), Notices(uploads))
    {
      NoneSupported(uploads);
      NotifyAll(SkippedNotices(|uploads|));
    }

    /** Some file is supported: the warning about the `skipped` others,
        the uploads and the summary. */
    method UploadSupported(supported: seq<Upload>, skipped: nat, ghost notices: seq<Notice>)
      requires supported != [] && toasts.Valid()
      requires notices == SkippedNotices(skipped) + Tally(supported)
      modifies this, documents, toasts
      ensures toasts.Valid()
      ensures documents.documents == Added(supported) + old(documents.documents)
      ensures toasts.toasts == old(toasts.toasts) + Posted(old(toasts.toastId), notices)
      ensures !uploading && uploadProgress == 0
    {
      ghost var t0, id0 := toasts.toasts, toasts.toastId;
      var warning := SkippedNotices(skipped);
      ghost var summary := Tally(supported);
      NotifyAll(warning);
      ghost var t1, id1 := toasts.toasts, toasts.toastId;
      assert t1 == t0 + Posted(id0, warning) && id1 == id0 + |warning|;
      UploadAndReport(supported);
      assert toasts.toasts == t1 + Posted(id1, summary);
      PostedTwice(t0, t1, toasts.toasts, id0, warning, summary, notices);
    }

    /** `uploadFiles`. */
    method UploadFiles(uploads: seq<Upload>)
      requires toasts.Valid()
      modifies this, documents, toasts
      ensures toasts.Valid()
      ensures documents.documents == Added(Supported(uploads)) + old(documents.documents)
      ensures toasts.toasts == old(toasts.toasts) + Posted(old(toasts.toastId), Notices(uploads))
      ensures Supported(uploads) == [] ==> uploading == old(uploading) && uploadProgress == old(uploadProgress)
      ensures Supported(uploads) != [] ==> !uploading && uploadProgress == 0
    {
      if |uploads| == 0 {
        NoUploads(uploads);
        assert toasts.toasts == old(toasts.toasts) + Posted(old(toasts.toastId), []);
        return;
      }
      UploadList(uploads);
    }

    /** `deleteDocument` after the confirmation dialog answered
        `confirmed`; a document without a usable id is refused before
        asking. */
    method DeleteDocument(doc: Document, confirmed: bool, outcome: DbResult<()>) returns (deleted: bool)
      requires toasts.Valid()
      modifies documents, toasts
      ensures toasts.Valid()
      ensures deleted <==> doc.id.Some? && doc.id.value != 0 && confirmed && outcome.Stored?
      ensures documents.documents ==
        if deleted then WithoutId(old(documents.documents), doc.id.value) else old(documents.documents)
      ensures toasts.toasts == old(toasts.toasts) + Posted(old(toasts.toastId),
        if doc.id.None? || doc.id.value == 0 then [Notice(Error, "文档ID无效")]
        else if !confirmed then []
        else if outcome.Stored? then [Notice(Success, "文档已删除")]
        else [Notice(Error, "删除文档失败")])
    {
      if doc.id.None? || doc.id.value == 0 {
        Notify(Notice(Error, "文档ID无效"));
        return false;
      }
      if !confirmed {
        return false;
      }
      var r := documents.DeleteDocument(doc.id.value, outcome);
      if r.Stored? {
        Notify(Notice(Success, "文档已删除"));
        deleted := true;
      } else {
        Notify(Notice(Error, "删除文档失败"));
        deleted := false;
      }
    }

    /** `init`: a failed load is reported with a toast. */
    method Init(outcome: DbResult<seq<Document>>)
      requires toasts.Valid()
      modifies documents, toasts
      ensures toasts.Valid()
      ensures documents.documents == if outcome.Stored? then outcome.value else old(documents.documents)
      ensures toasts.toasts == old(toasts.toasts) + Posted(old(toasts.toastId),
        if outcome.Stored? then [] else [Notice(Error, "加载文档列表失败")])
    {
      var thrown := documents.LoadDocuments(outcome);
      if thrown.Some? {
        Notify(Notice(Error, "加载文档列表失败"));
      }
    }
  }

  /** Uploading no file stores nothing and shows nothing. */
  lemma NoUploads(uploads: seq<Upload>)
    requires |uploads| == 0
    ensures Supported(uploads) == [] && Notices(uploads) == []
  {
    assert uploads == [];
  }

  /** When no file is supported, at most the warning about skipped files
      is shown. */
  lemma NoneSupported(uploads: seq<Upload>)
    requires Supported(uploads) == []
    ensures Notices(uploads) == SkippedNotices(|uploads|)
  {
    var none := Supported(uploads);
    var n: nat := |uploads| - |none|;
    assert n == |uploads|;
    assert SkippedNotices(n) == SkippedNotices(|uploads|);
    assert Tally(none) == [] by {
      assert SuccessCount(none) == 0;
      assert Summary(0, 0).None?;
    }
    assert Notices(uploads) == SkippedNotices(n) + Tally(none);
  }

  /** Showing two lists of notices one after the other. */
  lemma PostedTwice(t0: seq<ToastMessage>, t1: seq<ToastMessage>, t2: seq<ToastMessage>,
                    counter: int, a: seq<Notice>, b: seq<Notice>, both: seq<Notice>)
    requires t1 == t0 + Posted(counter, a) && t2 == t1 + Posted(counter + |a|, b) && both == a + b
    ensures t2 == t0 + Posted(counter, both)
  {
    PostedAppend(counter, a, b);
    Assoc(t0, Posted(counter, a), Posted(counter + |a|, b));
  }

  lemma {:induction false} PostedAppend(counter: int, a: seq<Notice>, b: seq<Notice>)
    decreases |a|
    ensures Posted(counter, a + b) == Posted(counter, a) + Posted(counter + |a|, b)
  {
    if a != [] {
      assert (a + b)[0] == a[0];
      assert (a + b)[1..] == a[1..] + b;
      PostedAppend(counter + 1, a[1..], b);
      var m := [ToastMessage(counter + 1, a[0].kind, a[0].text, Some(DefaultDuration))];
      Assoc(m, Posted(counter + 1, a[1..]), Posted(counter + |a|, b));
    } else {
      assert a + b == b;
    }
  }
}
