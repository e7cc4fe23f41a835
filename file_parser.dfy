/**
 * The file parser (`fileParser.service.ts`): picks a parser by the file's
 * extension and turns a PDF, DOCX or TXT file into plain text and HTML.
 * The browser's file reading, pdf.js, the unzipping and XML parsing of a
 * DOCX archive and mammoth are not modelled: what each of them produced
 * for a file, or the failure it raised, is part of the input.
 */
module FileParser {
  import opened JsString
  import opened Types
  import opened Html
  import DocxStyle

  // ---------------------------------------------------------------------
  // File extensions

  /** `getFileExtension`: the text after the last dot, or nothing when the
      name has no dot. */
  function GetFileExtension(fileName: string): (r: string)
    ensures '.' !in r
  {
    var parts := Split(fileName, '.');
    if |parts| > 1 then parts[|parts| - 1] else []
  }

  /** `name` ends with a dot followed by `ext`. */
  predicate EndsWithExtension(name: string, ext: string)
  {
    |ext| < |name| && name[|name| - |ext| - 1] == '.' && name[|name| - |ext|..] == ext
  }

  /** A name without a dot has no extension; otherwise the extension is
      what follows the last dot. */
  lemma ExtensionSpec(fileName: string)
    ensures '.' !in fileName ==> GetFileExtension(fileName) == []
    ensures '.' in fileName ==> EndsWithExtension(fileName, GetFileExtension(fileName))
  {
    var parts := Split(fileName, '.');
    SplitCount(fileName, '.');
    assert '.' in fileName <==> CountChar(fileName, '.') > 0 by {
      assert '.' in fileName <==> '.' in multiset(fileName);
    }
    if '.' in fileName {
      LastPartFollowsDot(fileName, parts);
    }
  }

  /** When a name splits on dots into several parts, the last part follows
      a dot at the end of the name. */
  lemma LastPartFollowsDot(fileName: string, parts: seq<string>)
    requires parts == Split(fileName, '.') && |parts| > 1
    ensures EndsWithExtension(fileName, parts[|parts| - 1])
  {
    var init := parts[..|parts| - 1];
    var ext := parts[|parts| - 1];
    JoinSplit(fileName, '.');
    assert Join(parts, ".") == fileName;
    FrontLast(parts);
    JoinSnoc(init, ext, ".");
    assert Join(init + [ext], ".") == Join(init, ".") + "." + ext;
    var k := |Join(init, ".")|;
    assert fileName == Join(init, ".") + "." + ext;
    assert fileName[k] == '.';
    assert fileName[k + 1..] == ext;
  }

  /** The formats `parseFile` knows. */
  datatype Format = Pdf | Docx | Txt

  /** The `switch` in `parseFile`, on the lower-cased extension. */
  function FormatOf(extension: string): Option<Format>
  {
    if extension == "pdf" then Some(Pdf)
    else if extension == "docx" then Some(Docx)
    else if extension == "txt" then Some(Txt)
    else None
  }

  // ---------------------------------------------------------------------
  // Inputs and outcomes

  /** What an awaited call produced: a value, or a thrown failure whose
      message is present when it is an `Error`. */
  datatype Attempt<T> = Done(value: T) | Threw(message: Option<string>)

  const UnknownError: string := "未知错误"

  /** `error instanceof Error ? error.message : "未知错误"`. */
  function Reason(message: Option<string>): string
  {
    if message.Some? then message.value else UnknownError
  }

  /** One file as the parsers see it. */
  datatype FileInput = FileInput(
    name: string,
    /** `file.text()`. */
    text: Attempt<string>,
    /** pdf.js: the text items of each page, joined. */
    pdfPages: Attempt<seq<string>>,
    /** The archive unzipped and `word/document.xml` parsed; None when the
        entry is missing or empty. */
    docxXml: Attempt<Option<DocxStyle.Node>>,
    /** `mammoth.convertToHtml`: the HTML and the text content of that HTML. */
    mammothHtml: Attempt<(string, string)>,
    /** `mammoth.extractRawText`. */
    mammothRaw: Attempt<string>)

  /** What `parseFile` resolves to, or the message of the error it throws. */
  datatype Parsed = Parsed(result: ParseResult) | ParseError(message: string)

  // ---------------------------------------------------------------------
  // TXT

  const PreOpen: string := "<pre>"
  const PreClose: string := "</pre>"

  /** `parseTXT`. */
  function ParseTxt(text: Attempt<string>): Parsed
  {
    match text
    case Done(t) => Parsed(ParseResult(t, PreOpen + EscapeHtml(t) + PreClose, Some(false)))
    case Threw(m) => ParseError("TXT解析失败: " + Reason(m))
  }

  /** A text file's HTML is its text, escaped, inside one `<pre>`: the
      element holds no tag, and decoding it gives the text back. */
  lemma TxtRoundTrip(t: string)
    ensures ParseTxt(Done(t)).result.text == t
    ensures var h := ParseTxt(Done(t)).result.html;
      && |h| >= |PreOpen| + |PreClose|
      && h[..|PreOpen|] == PreOpen
      && h[|h| - |PreClose|..] == PreClose
      && Unescape(h[|PreOpen|..|h| - |PreClose|]) == t
      && '<' !in h[|PreOpen|..|h| - |PreClose|]
  {
    var e := EscapeHtml(t);
    var h := PreOpen + e + PreClose;
    assert h[|PreOpen|..|h| - |PreClose|] == e;
    UnescapeEscape(t);
    EscapeHtmlSafe(t);
  }

  // ---------------------------------------------------------------------
  // PDF

  /** The element `parsePDF` renders for page `page` (counted from 1). */
  function PageDiv(page: nat, pageText: string): string
  {
    "<div class=\"pdf-page\" data-page=\"" + NatText(page) + "\">" + EscapeHtml(pageText) + "</div>"
  }

  function PageDivs(pages: seq<string>): (r: seq<string>)
    ensures |r| == |pages|
    ensures forall i :: 0 <= i < |pages| ==> r[i] == PageDiv(i + 1, pages[i])
  {
    seq(|pages|, i requires 0 <= i < |pages| => PageDiv(i + 1, pages[i]))
  }

  /** What `parsePDF` resolves to. */
  function PdfSpec(pages: Attempt<seq<string>>): Parsed
  {
    match pages
    case Done(p) => Parsed(ParseResult(Join(p, "\n"), Join(PageDivs(p), "\n"), Some(false)))
    case Threw(m) => ParseError("PDF解析失败: " + Reason(m))
  }

  /** `parsePDF`: one text part and one page element per page. */
  method ParsePdf(pages: Attempt<seq<string>>) returns (r: Parsed)
    ensures r == PdfSpec(pages)
  {
    if pages.Threw? {
      return ParseError("PDF解析失败: " + Reason(pages.message));
    }
    var p := pages.value;
    var textParts: seq<string> := [];
    var htmlParts: seq<string> := [];
    for i := 1 to |p| + 1
      invariant textParts == p[..i - 1]
      invariant htmlParts == PageDivs(p)[..i - 1]
    {
      var pageText := p[i - 1];
      textParts := textParts + [pageText];
      htmlParts := htmlParts + [PageDiv(i, pageText)];
    }
    assert textParts == p;
    assert htmlParts == PageDivs(p);
    r := Parsed(ParseResult(Join(textParts, "\n"), Join(htmlParts, "\n"), Some(false)));
  }

  /** When no page's text holds a line break, the lines of a PDF's text
      are exactly its pages. */
  lemma PdfLines(p: seq<string>)
    requires |p| >= 1
    requires forall i :: 0 <= i < |p| ==> '\n' !in p[i]
    ensures Split(PdfSpec(Done(p)).result.text, '\n') == p
  {
    SplitJoin(p, '\n');
  }

  // ---------------------------------------------------------------------
  // DOCX

  /** The styled parse of a DOCX file, when it succeeds. */
  function StyledDocx(xml: Attempt<Option<DocxStyle.Node>>): Option<ParseResult>
  {
    if xml.Threw? then None
    else
      var r := DocxStyle.ParseDocxWithStyles(xml.value);
      if r.Styled? then Some(ParseResult(r.text, r.html, Some(true))) else None
  }

  /** `parseDOCX`: the styled parser first, then mammoth's HTML, then
      mammoth's raw text; when all three fail, the error names mammoth's
      HTML failure. */
  function ParseDocx(file: FileInput): Parsed
  {
    var styled := StyledDocx(file.docxXml);
    if styled.Some? then Parsed(styled.value)
    else match file.mammothHtml
      case Done(converted) => Parsed(ParseResult(converted.1, converted.0, Some(false)))
      case Threw(m) =>
        match file.mammothRaw
        case Done(raw) => Parsed(ParseResult(raw, "<p>" + EscapeHtml(raw) + "</p>", Some(false)))
        case Threw(_) => ParseError("DOCX解析失败: " + Reason(m))
  }

  /** Each fallback is used only when everything before it failed, and a
      DOCX result keeps its original styles exactly when the styled parser
      produced it. */
  lemma DocxFallbackOrder(file: FileInput)
    ensures StyledDocx(file.docxXml).Some? ==> ParseDocx(file) == Parsed(StyledDocx(file.docxXml).value)
    ensures StyledDocx(file.docxXml).None? && file.mammothHtml.Done? ==>
      ParseDocx(file) == Parsed(ParseResult(file.mammothHtml.value.1, file.mammothHtml.value.0, Some(false)))
    ensures ParseDocx(file).Parsed? ==>
      (ParseDocx(file).result.hasOriginalStyles == Some(true) <==> StyledDocx(file.docxXml).Some?)
    ensures ParseDocx(file).ParseError? <==>
      StyledDocx(file.docxXml).None? && file.mammothHtml.Threw? && file.mammothRaw.Threw?
  {
  }

  /** A styled result is the reconstruction of the document's body. */
  lemma StyledDocxSpec(doc: DocxStyle.Node)
    requires DocxStyle.QueryFirst(doc, "parsererror", "parsererror").None?
    ensures StyledDocx(Done(Some(doc))) ==
      Some(ParseResult(DocxStyle.XmlContent(doc).text, DocxStyle.XmlContent(doc).html, Some(true)))
    ensures StyledDocx(Done(None)).None?
  {
  }

  // ---------------------------------------------------------------------
  // Dispatch

  /** What `parseFile` resolves to. */
  function ParseFileSpec(file: FileInput): Parsed
  {
    var extension := Lower(GetFileExtension(file.name));
    match FormatOf(extension)
    case Some(Pdf) => PdfSpec(file.pdfPages)
    case Some(Docx) => ParseDocx(file)
    case Some(Txt) => ParseTxt(file.text)
    case None => ParseError("不支持的文件格式: " + extension)
  }

  /** `parseFile`. */
  method ParseFile(file: FileInput) returns (r: Parsed)
    ensures r == ParseFileSpec(file)
  {
    var extension := Lower(GetFileExtension(file.name));
    var format := FormatOf(extension);
    match format {
      case Some(Pdf) =>
        r := ParsePdf(file.pdfPages);
      case Some(Docx) =>
        r := ParseDocx(file);
      case Some(Txt) =>
        r := ParseTxt(file.text);
      case None =>
        r := ParseError("不支持的文件格式: " + extension);
    }
  }

  /** The format is chosen by the extension alone, whatever its case: a
      file with an unknown extension is always refused, and a file with a
      known one is never refused for its format. */
  lemma DispatchSpec(file: FileInput)
    ensures FormatOf(Lower(GetFileExtension(file.name))).None? ==>
      ParseFileSpec(file) == ParseError("不支持的文件格式: " + Lower(GetFileExtension(file.name)))
    ensures FormatOf(Lower(GetFileExtension(file.name))) == Some(Txt) ==> ParseFileSpec(file) == ParseTxt(file.text)
    ensures FormatOf(Lower(GetFileExtension(file.name))) == Some(Pdf) ==> ParseFileSpec(file) == PdfSpec(file.pdfPages)
    ensures FormatOf(Lower(GetFileExtension(file.name))) == Some(Docx) ==> ParseFileSpec(file) == ParseDocx(file)
    ensures ParseFileSpec(file).Parsed? ==> FormatOf(Lower(GetFileExtension(file.name))).Some?
  {
  }

  /** A name without a dot is always refused, with an empty extension in
      the message. */
  lemma NoExtensionRefused(file: FileInput)
    requires '.' !in file.name
    ensures ParseFileSpec(file) == ParseError("不支持的文件格式: ")
  {
    ExtensionSpec(file.name);
  }
}
