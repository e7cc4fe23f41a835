/**
 * Rebuilding the text and the styled HTML of a WordprocessingML document
 * (`docxStyleParser.service.ts`): the run properties (section 17.3.2 of
 * ECMA-376 Part 1) and paragraph properties (section 17.3.1) the service
 * reads, the HTML it wraps them in, and its walk over paragraphs, runs and
 * tables.
 *
 * The XML document is a tree of elements and text nodes. An element's
 * `children` are its element children, in order; `querySelector` is the
 * first matching descendant in document (pre-)order and `querySelectorAll`
 * all of them. A selector such as "w\:rPr, rPr" matches an element whose
 * qualified tag name is either of the two names, case-sensitively, while
 * the walk itself compares lower-cased tag names, as the service does.
 */
module DocxStyle {
  import opened JsString
  import opened Html

  // =====================================================================
  // The XML tree

  datatype Node =
    | Element(tag: string, attrs: seq<(string, string)>, kids: seq<Node>)
    | Text(data: string)

  /** `getAttribute(name)`: the first attribute of that name, or null. */
  function GetAttr(attrs: seq<(string, string)>, name: string): Option<string>
  {
    if attrs == [] then None
    else if attrs[0].0 == name then Some(attrs[0].1)
    else GetAttr(attrs[1..], name)
  }

  /** A JavaScript string value (null when absent) is truthy when it is
      present and not empty. */
  predicate Present(v: Option<string>)
  {
    v.Some? && v.value != []
  }

  /** `e.getAttribute(a) || e.getAttribute(b)`. */
  function AttrOr(e: Node, a: string, b: string): Option<string>
  {
    match e
    case Text(_) => None
    case Element(_, attrs, _) =>
      var first := GetAttr(attrs, a);
      if Present(first) then first else GetAttr(attrs, b)
  }

  /** The element matches the selector list "a, b". */
  predicate Named(n: Node, a: string, b: string)
  {
    n.Element? && (n.tag == a || n.tag == b)
  }

  /** `n.querySelectorAll("a, b")`: the matching descendants in document
      order, `n` itself excluded. */
  function QueryAll(n: Node, a: string, b: string): seq<Node>
    decreases n, 1
  {
    match n
    case Text(_) => []
    case Element(_, _, kids) => QueryAllIn(kids, a, b)
  }

  function QueryAllIn(kids: seq<Node>, a: string, b: string): seq<Node>
    decreases kids, 0
  {
    if kids == [] then []
    else
      (if Named(kids[0], a, b) then [kids[0]] else [])
      + QueryAll(kids[0], a, b) + QueryAllIn(kids[1..], a, b)
  }

  /** `n.querySelector("a, b")`: the first of them, or null. */
  function QueryFirst(n: Node, a: string, b: string): Option<Node>
  {
    var all := QueryAll(n, a, b);
    if all == [] then None else Some(all[0])
  }

  /** Every element a query returns matches the selector. */
  lemma {:induction false} QueryAllNamed(n: Node, a: string, b: string)
    ensures forall i :: 0 <= i < |QueryAll(n, a, b)| ==> Named(QueryAll(n, a, b)[i], a, b)
    decreases n, 1
  {
    if n.Element? {
      QueryAllInNamed(n.kids, a, b);
    }
  }

  lemma {:induction false} QueryAllInNamed(kids: seq<Node>, a: string, b: string)
    ensures forall i :: 0 <= i < |QueryAllIn(kids, a, b)| ==> Named(QueryAllIn(kids, a, b)[i], a, b)
    decreases kids, 0
  {
    if kids != [] {
      QueryAllNamed(kids[0], a, b);
      QueryAllInNamed(kids[1..], a, b);
    }
  }

  lemma QueryFirstNamed(n: Node, a: string, b: string)
    ensures QueryFirst(n, a, b).Some? ==> Named(QueryFirst(n, a, b).value, a, b)
  {
    QueryAllNamed(n, a, b);
  }

  /** `textContent`: the text of every text node below, in order. */
  function TextContent(n: Node): string
    decreases n, 1
  {
    match n
    case Text(d) => d
    case Element(_, _, kids) => TextContentIn(kids)
  }

  function TextContentIn(kids: seq<Node>): string
    decreases kids, 0
  {
    if kids == [] then [] else TextContent(kids[0]) + TextContentIn(kids[1..])
  }

  /** The lower-cased tag name is one of the two names. */
  predicate TagIs(n: Node, a: string, b: string)
  {
    n.Element? && (Lower(n.tag) == a || Lower(n.tag) == b)
  }

  // =====================================================================
  // Run properties

  /** `HIGHLIGHT_COLOR_MAP`: the highlight names of section 17.18.40 of
      ECMA-376 Part 1 the service knows, with their CSS colours. */
  const HighlightColors: seq<(string, string)> := [
    ("yellow", "#FFFF00"), ("green", "#00FF00"), ("cyan", "#00FFFF"),
    ("magenta", "#FF00FF"), ("blue", "#0000FF"), ("red", "#FF0000"),
    ("darkBlue", "#00008B"), ("darkCyan", "#008B8B"), ("darkGreen", "#006400"),
    ("darkMagenta", "#8B008B"), ("darkRed", "#8B0000"), ("darkYellow", "#808000"),
    ("darkGray", "#A9A9A9"), ("lightGray", "#D3D3D3"), ("black", "#000000")]

  /** The entry for `key` in a table of string pairs. */
  function LookupName(table: seq<(string, string)>, key: string): Option<string>
  {
    if table == [] then None
    else if table[0].0 == key then Some(table[0].1)
    else LookupName(table[1..], key)
  }

  /** `HIGHLIGHT_COLOR_MAP[v] || v`: a known name becomes its colour,
      anything else passes through. */
  function HighlightColor(v: string): (c: string)
    ensures c == v || exists i :: 0 <= i < |HighlightColors| && HighlightColors[i] == (v, c)
    ensures (forall i :: 0 <= i < |HighlightColors| ==> HighlightColors[i].0 != v) ==> c == v
  {
    LookupNameSpec(HighlightColors, v);
    match LookupName(HighlightColors, v)
    case Some(c) => c
    case None => v
  }

  /** The style of a run; an absent field is `None`. */
  datatype RunStyle = RunStyle(
    color: Option<string>,
    highlight: Option<string>,
    background: Option<string>,
    fontSize: Option<Number>,
    bold: Option<bool>,
    italic: Option<bool>)

  const NoRunStyle := RunStyle(None, None, None, None, None, None)

  /** `parseInt(v, 10) / d`, exactly, in hundredths: `perUnit` is
      `100 / d` (50 for half-points, 5 for twentieths of a point). */
  function ParsedOver(v: string, perUnit: int): Number
  {
    match ParseInt(v)
    case None => NaN
    case Some(n) => Centi(n * perUnit)
  }

  /** A colour attribute as the service reads it: "auto", empty or missing
      leave the field unset, anything else is a hex colour. */
  function HexColor(v: Option<string>): Option<string>
  {
    if Present(v) && v.value != "auto" then Some("#" + v.value) else None
  }

  /** An on/off property (section 17.7.3 of ECMA-376 Part 1): set only when
      the element is there, and true unless its value is "0" or "false". */
  function Toggle(e: Option<Node>): Option<bool>
  {
    match e
    case None => None
    case Some(el) =>
      var v := AttrOr(el, "w:val", "val");
      Some(v != Some("0") && v != Some("false"))
  }

  /** `extractRunStyle`. */
  function ExtractRunStyle(run: Node): (r: RunStyle)
    ensures QueryFirst(run, "w:rPr", "rPr").None? ==> r == NoRunStyle
    ensures r.color.Some? ==> |r.color.value| > 1 && r.color.value[0] == '#'
    ensures r.background.Some? ==> |r.background.value| > 1 && r.background.value[0] == '#'
  {
    match QueryFirst(run, "w:rPr", "rPr")
    case None => NoRunStyle
    case Some(rPr) =>
      var color := QueryFirst(rPr, "w:color", "color");
      var highlight := QueryFirst(rPr, "w:highlight", "highlight");
      var shd := QueryFirst(rPr, "w:shd", "shd");
      var sz := QueryFirst(rPr, "w:sz", "sz");
      var hv := if highlight.Some? then AttrOr(highlight.value, "w:val", "val") else None;
      var szv := if sz.Some? then AttrOr(sz.value, "w:val", "val") else None;
      RunStyle(
        if color.Some? then HexColor(AttrOr(color.value, "w:val", "val")) else None,
        if Present(hv) then Some(HighlightColor(hv.value)) else None,
        if shd.Some? then HexColor(AttrOr(shd.value, "w:fill", "fill")) else None,
        if Present(szv) then Some(ParsedOver(szv.value, 50)) else None,
        Toggle(QueryFirst(rPr, "w:b", "b")),
        Toggle(QueryFirst(rPr, "w:i", "i")))
  }

  // =====================================================================
  // Paragraph properties

  datatype ParagraphStyle = ParagraphStyle(
    alignment: Option<string>,
    marginLeft: Option<Number>,
    textIndent: Option<Number>,
    isList: Option<bool>,
    listLevel: Option<Number>)

  const NoParagraphStyle := ParagraphStyle(None, None, None, None, None)

  /** The `alignmentMap` of `extractParagraphStyle`. */
  const Alignments: seq<(string, string)> :=
    [("left", "left"), ("center", "center"), ("right", "right"), ("both", "justify")]

  /** `extractParagraphStyle`. */
  function ExtractParagraphStyle(p: Node): (r: ParagraphStyle)
    ensures QueryFirst(p, "w:pPr", "pPr").None? ==> r == NoParagraphStyle
    ensures r.alignment.Some? ==> r.alignment.value in ["left", "center", "right", "justify"]
    ensures r.isList != Some(false) && (r.listLevel.Some? ==> r.isList == Some(true))
  {
    match QueryFirst(p, "w:pPr", "pPr")
    case None => NoParagraphStyle
    case Some(pPr) =>
      var jc := QueryFirst(pPr, "w:jc", "jc");
      var ind := QueryFirst(pPr, "w:ind", "ind");
      var numPr := QueryFirst(pPr, "w:numPr", "numPr");
      var jv := if jc.Some? then AttrOr(jc.value, "w:val", "val") else None;
      var left := if ind.Some? then AttrOr(ind.value, "w:left", "left") else None;
      var first := if ind.Some? then AttrOr(ind.value, "w:firstLine", "firstLine") else None;
      var ilvl := if numPr.Some? then QueryFirst(numPr.value, "w:ilvl", "ilvl") else None;
      var lv := if ilvl.Some? then AttrOr(ilvl.value, "w:val", "val") else None;
      AlignmentNames(if Present(jv) then jv.value else []);
      ParagraphStyle(
        if Present(jv) then LookupName(Alignments, jv.value) else None,
        if Present(left) then Some(ParsedOver(left.value, 5)) else None,
        if Present(first) then Some(ParsedOver(first.value, 5)) else None,
        if numPr.Some? then Some(true) else None,
        if numPr.Some? && Present(lv) then Some(ParsedOver(lv.value, 100)) else None)
  }

  // =====================================================================
  // Wrapping in HTML

  /** A number field is truthy when present, not NaN and not zero. */
  predicate Set(n: Option<Number>)
  {
    n.Some? && Truthy(n.value)
  }

  function Pt(n: Number): string
  {
    NumberText(n) + "pt"
  }

  /** The CSS declarations of a run, in the service's fixed order. */
  function RunDecls(s: RunStyle): seq<string>
  {
    (if Present(s.color) then ["color: " + s.color.value] else [])
    + (if Present(s.highlight) then ["background-color: " + s.highlight.value] else [])
    + (if Present(s.background) then ["background-color: " + s.background.value] else [])
    + (if Set(s.fontSize) then ["font-size: " + Pt(s.fontSize.value)] else [])
    + (if s.bold == Some(true) then ["font-weight: bold"] else [])
    + (if s.italic == Some(true) then ["font-style: italic"] else [])
  }

  /** `wrapTextWithStyle`. */
  function WrapText(text: string, s: RunStyle): (h: string)
    ensures Unstyled(s) ==> h == EscapeHtml(text)
    ensures !Unstyled(s) ==> |h| >= |EscapeHtml(text)| + 22 && h[..5] == "<span" && h[|h| - 7..] == "</span>"
  {
    var decls := RunDecls(s);
    if decls == [] then EscapeHtml(text)
    else "<span style=\"" + Join(decls, "; ") + "\">" + EscapeHtml(text) + "</span>"
  }

  const BaseDecls: seq<string> :=
    ["display: block", "min-height: 1.5em", "margin-bottom: 0.8em", "line-height: 1.6", "word-wrap: break-word"]

  const ListDecls: seq<string> :=
    ["display: list-item", "list-style-type: disc", "list-style-position: inside"]

  /** `(style.listLevel || 0) * 20 + 20`, in hundredths. */
  function ListIndent(s: ParagraphStyle): Number
  {
    Centi((if Set(s.listLevel) then s.listLevel.value.hundredths else 0) * 20 + 2000)
  }

  /** The CSS declarations of a paragraph, in the service's fixed order. */
  function ParagraphDecls(s: ParagraphStyle): seq<string>
  {
    BaseDecls
    + (if Present(s.alignment) then ["text-align: " + s.alignment.value] else [])
    + (if Set(s.marginLeft) then ["margin-left: " + Pt(s.marginLeft.value)] else [])
    + (if Set(s.textIndent) then ["text-indent: " + Pt(s.textIndent.value)] else [])
    + (if s.isList == Some(true)
       then ListDecls + (if !Set(s.marginLeft) then ["margin-left: " + Pt(ListIndent(s))] else [])
       else [])
  }

  /** `wrapParagraphWithStyle`. */
  function WrapParagraph(content: string, s: ParagraphStyle): (h: string)
    ensures |h| > |content| + 10
    ensures content == [] ==> h[|h| - 10..] == "<br></div>"
    ensures content != [] ==> h[|h| - |content| - 6..|h| - 6] == content
  {
    "<div class=\"docx-p\" style=\"" + Join(ParagraphDecls(s), "; ") + "\">"
    + (if content == [] then "<br>" else content) + "</div>"
  }

  // =====================================================================
  // Walking the document

  /** What each step of the walk hands back: plain text and HTML. */
  datatype Content = Content(text: string, html: string)

  const BrHtml: string := "<br class=\"docx-br\">"

  /** A line break, as text and as HTML. */
  const LineBreak: Content := Content("\n", BrHtml)

  /** The texts of a list of pieces, in order. */
  function Texts(cs: seq<Content>): seq<string>
  {
    seq(|cs|, i requires 0 <= i < |cs| => cs[i].text)
  }

  /** The HTML of a list of pieces, in order. */
  function Htmls(cs: seq<Content>): seq<string>
  {
    seq(|cs|, i requires 0 <= i < |cs| => cs[i].html)
  }

  /** `Array.from(n.children)`: the element children (text nodes among
      them never match a tag test). */
  function Children(n: Node): seq<Node>
  {
    if n.Element? then n.kids else []
  }

  /** `n.children.length > 0`. */
  predicate HasElementChild(n: Node)
  {
    exists i :: 0 <= i < |Children(n)| && Children(n)[i].Element?
  }

  /** `tagName.endsWith("pr")`. */
  predicate EndsWithPr(t: string)
  {
    |t| >= 2 && t[|t| - 2] == 'p' && t[|t| - 1] == 'r'
  }

  /** `parseRun`: the text of every `w:t` below the run, joined, with that
      text escaped and wrapped in the run's style; nothing at all when the
      text is empty. */
  function ParseRun(run: Node): (r: Content)
    ensures r.text == [] <==> r.html == []
  {
    var text := TextContentIn(QueryAll(run, "w:t", "t"));
    if text == [] then Content([], [])
    else
      EscapeHtmlPlain(text);
      Content(text, WrapText(text, ExtractRunStyle(run)))
  }

  /** What one child of a run adds to its paragraph: the text of the WHOLE
      run for a `w:t` child (when that text is not empty), a line break for
      a `w:br` child. */
  function RunKidPart(run: Node, k: Node): seq<Content>
  {
    if TagIs(k, "w:t", "t") then (if ParseRun(run).text != [] then [ParseRun(run)] else [])
    else if TagIs(k, "w:br", "br") then [LineBreak]
    else []
  }

  function RunKidParts(run: Node, kids: seq<Node>): seq<Content>
  {
    if kids == [] then [] else RunKidParts(run, kids[..|kids| - 1]) + RunKidPart(run, kids[|kids| - 1])
  }

  /** `hasText`: some `w:t` child among `kids` pushed the run's text. */
  predicate RunHasText(run: Node, kids: seq<Node>)
  {
    kids != [] &&
    (RunHasText(run, kids[..|kids| - 1])
     || (TagIs(kids[|kids| - 1], "w:t", "t") && ParseRun(run).text != []))
  }

  /** A run's pieces: those of its children, then one more line break when
      no text was pushed but a `w:br` lies somewhere below the run. */
  function RunParts(run: Node): seq<Content>
  {
    RunKidParts(run, Children(run))
    + (if !RunHasText(run, Children(run)) && QueryFirst(run, "w:br", "br").Some? then [LineBreak] else [])
  }

  /** What one child of a paragraph adds: a run's pieces, or a line break. */
  function ParagraphKidPart(k: Node): seq<Content>
  {
    if TagIs(k, "w:r", "r") then RunParts(k)
    else if TagIs(k, "w:br", "br") then [LineBreak]
    else []
  }

  function ParagraphParts(kids: seq<Node>): seq<Content>
  {
    if kids == [] then [] else ParagraphParts(kids[..|kids| - 1]) + ParagraphKidPart(kids[|kids| - 1])
  }

  /** `parseParagraph`: the pieces' texts joined, then a newline; their HTML
      joined and wrapped in the paragraph's style. */
  function ParagraphContent(p: Node): Content
  {
    var parts := ParagraphParts(Children(p));
    Content(Join(Texts(parts), "") + "\n", WrapParagraph(Join(Htmls(parts), ""), ExtractParagraphStyle(p)))
  }

  const CellOpen: string := "<td style=\"border: 1px solid #e2e8f0; padding: 0.5em;\">"

  const TableOpen: string := "<table style=\"width: 100%; border-collapse: collapse; margin: 1em 0;\">"

  /** The paragraphs of a cell whose text is not empty. */
  function CellParts(paragraphs: seq<Node>): seq<Content>
  {
    if paragraphs == [] then []
    else
      var c := ParagraphContent(paragraphs[|paragraphs| - 1]);
      CellParts(paragraphs[..|paragraphs| - 1]) + (if c.text != [] then [c] else [])
  }

  /** A cell: its paragraphs' texts joined by spaces, their HTML in a `td`. */
  function CellContent(cell: Node): Content
  {
    var parts := CellParts(QueryAll(cell, "w:p", "p"));
    Content(Join(Texts(parts), " "), CellOpen + Join(Htmls(parts), "") + "</td>")
  }

  function RowCells(cells: seq<Node>): seq<Content>
  {
    if cells == [] then [] else RowCells(cells[..|cells| - 1]) + [CellContent(cells[|cells| - 1])]
  }

  /** A row: its cells' texts joined by tabs, their HTML in a `tr`. */
  function RowContent(row: Node): Content
  {
    var cells := RowCells(QueryAll(row, "w:tc", "tc"));
    Content(Join(Texts(cells), "\t"), "<tr>" + Join(Htmls(cells), "") + "</tr>")
  }

  function TableRows(rows: seq<Node>): seq<Content>
  {
    if rows == [] then [] else TableRows(rows[..|rows| - 1]) + [RowContent(rows[|rows| - 1])]
  }

  /** `parseTable`: the rows' texts joined by newlines, their HTML in a
      `table`. Rows, cells and paragraphs are all their descendants, so a
      nested table's rows count again in the outer one. */
  function TableContent(table: Node): Content
  {
    var rows := TableRows(QueryAll(table, "w:tr", "tr"));
    Content(Join(Texts(rows), "\n"), TableOpen + Join(Htmls(rows), "") + "</table>")
  }

  const Containers: seq<string> :=
    ["w:sdt", "sdt", "w:sdtcontent", "sdtcontent", "w:txbxcontent", "txbxcontent"]

  /** `traverseNodes`: the pieces of the children, texts and HTML each
      joined by newlines. */
  function NodeContent(n: Node): Content
    decreases n, 0
  {
    match n
    case Text(_) => Content([], [])
    case Element(_, _, kids) =>
      var parts := NodeParts(kids);
      Content(Join(Texts(parts), "\n"), Join(Htmls(parts), "\n"))
  }

  function NodeParts(kids: seq<Node>): seq<Content>
    decreases kids, 0
  {
    if kids == [] then [] else NodeParts(kids[..|kids| - 1]) + KidPart(kids[|kids| - 1])
  }

  /** What one child adds to the walk: a paragraph, a table, the walk of a
      content container, or the walk of any other element with element
      children whose tag does not end in "pr", kept only when not empty. */
  function KidPart(k: Node): seq<Content>
    decreases k, 1
  {
    match k
    case Text(_) => []
    case Element(tag, _, _) =>
      var t := Lower(tag);
      if t == "w:p" || t == "p" then [ParagraphContent(k)]
      else if t == "w:tbl" || t == "tbl" then [TableContent(k)]
      else if t in Containers then [NodeContent(k)]
      else if HasElementChild(k) && !EndsWithPr(t) then
        var c := NodeContent(k);
        if c.text != [] || c.html != [] then [c] else []
      else []
  }

  /** `extractContentFromXml`: the walk of the first `w:body`, or nothing. */
  function XmlContent(doc: Node): Content
  {
    match QueryFirst(doc, "w:body", "body")
    case None => Content([], [])
    case Some(body) => NodeContent(body)
  }

  // ---------------------------------------------------------------------
  // The walk, as the service performs it

  lemma PushPart(parts: seq<Content>, c: Content)
    ensures Texts(parts + [c]) == Texts(parts) + [c.text]
    ensures Htmls(parts + [c]) == Htmls(parts) + [c.html]
  {
  }

  lemma Prefix<T>(s: seq<T>, j: nat)
    requires j < |s|
    ensures s[..j + 1][..j] == s[..j] && s[..j + 1][j] == s[j]
  {
  }

  lemma RunKidPartsStep(run: Node, kids: seq<Node>, j: nat)
    requires j < |kids|
    ensures RunKidParts(run, kids[..j + 1]) == RunKidParts(run, kids[..j]) + RunKidPart(run, kids[j])
    ensures RunHasText(run, kids[..j + 1])
      == (RunHasText(run, kids[..j]) || (TagIs(kids[j], "w:t", "t") && ParseRun(run).text != []))
  {
    Prefix(kids, j);
  }

  lemma ParagraphPartsStep(kids: seq<Node>, i: nat)
    requires i < |kids|
    ensures ParagraphParts(kids[..i + 1]) == ParagraphParts(kids[..i]) + ParagraphKidPart(kids[i])
  {
    Prefix(kids, i);
  }

  /** The loop of `parseParagraph`'s run callback over the run's
      children: the pieces they push, and whether one pushed text. */
  method RunChildrenParts(run: Node) returns (textParts: seq<string>, htmlParts: seq<string>, hasText: bool)
    ensures textParts == Texts(RunKidParts(run, Children(run)))
    ensures htmlParts == Htmls(RunKidParts(run, Children(run)))
    ensures hasText == RunHasText(run, Children(run))
  {
    textParts, htmlParts := [], [];
    var runChildren := Children(run);
    hasText := false;
    ghost var parts: seq<Content> := [];
    for j := 0 to |runChildren|
      invariant parts == RunKidParts(run, runChildren[..j])
      invariant hasText == RunHasText(run, runChildren[..j])
      invariant textParts == Texts(parts) && htmlParts == Htmls(parts)
    {
      var runChild := runChildren[j];
      RunKidPartsStep(run, runChildren, j);
      if TagIs(runChild, "w:t", "t") {
        var r := ParseRun(run);
        if r.text != [] {
          PushPart(parts, r);
          parts := parts + [r];
          textParts := textParts + [r.text];
          htmlParts := htmlParts + [r.html];
          hasText := true;
        }
      } else if TagIs(runChild, "w:br", "br") {
        PushPart(parts, LineBreak);
        parts := parts + [LineBreak];
        textParts := textParts + ["\n"];
        htmlParts := htmlParts + [BrHtml];
      }
    }
    assert runChildren[..|runChildren|] == runChildren;
  }

  /** The callback `parseParagraph` runs for one `w:r` child: what the
      run's children push, then the extra line break of a run that pushed
      no text but holds a `w:br`. */
  method ParseRunChildren(run: Node) returns (textParts: seq<string>, htmlParts: seq<string>)
    ensures textParts == Texts(RunParts(run)) && htmlParts == Htmls(RunParts(run))
  {
    var hasText;
    textParts, htmlParts, hasText := RunChildrenParts(run);
    ghost var parts := RunKidParts(run, Children(run));
    if !hasText {
      var hasBr := QueryFirst(run, "w:br", "br");
      if hasBr.Some? {
        PushPart(parts, LineBreak);
        textParts := textParts + ["\n"];
        htmlParts := htmlParts + [BrHtml];
        return;
      }
    }
    assert RunParts(run) == parts + [];
  }

  lemma AppendParts(parts: seq<Content>, more: seq<Content>)
    ensures Texts(parts + more) == Texts(parts) + Texts(more)
    ensures Htmls(parts + more) == Htmls(parts) + Htmls(more)
  {
  }

  /** The `forEach` callback of `parseParagraph` for one child: a run's
      pieces, a line break, or nothing. */
  method ParseParagraphChild(child: Node) returns (textParts: seq<string>, htmlParts: seq<string>)
    ensures textParts == Texts(ParagraphKidPart(child)) && htmlParts == Htmls(ParagraphKidPart(child))
  {
    if TagIs(child, "w:r", "r") {
      textParts, htmlParts := ParseRunChildren(child);
    } else if TagIs(child, "w:br", "br") {
      textParts, htmlParts := ["\n"], [BrHtml];
    } else {
      textParts, htmlParts := [], [];
    }
  }

  method ParseParagraph(paragraph: Node) returns (c: Content)
    ensures c == ParagraphContent(paragraph)
  {
    var textParts: seq<string> := [];
    var htmlParts: seq<string> := [];
    var paragraphStyle := ExtractParagraphStyle(paragraph);
    var children := Children(paragraph);
    ghost var parts: seq<Content> := [];
    for i := 0 to |children|
      invariant parts == ParagraphParts(children[..i])
      invariant textParts == Texts(parts) && htmlParts == Htmls(parts)
    {
      ParagraphPartsStep(children, i);
      AppendParts(parts, ParagraphKidPart(children[i]));
      var childText, childHtml := ParseParagraphChild(children[i]);
      parts := parts + ParagraphKidPart(children[i]);
      textParts := textParts + childText;
      htmlParts := htmlParts + childHtml;
    }
    assert children[..|children|] == children;
    c := Content(Join(textParts, "") + "\n", WrapParagraph(Join(htmlParts, ""), paragraphStyle));
  }

  lemma CellPartsStep(paragraphs: seq<Node>, k: nat)
    requires k < |paragraphs|
    ensures CellParts(paragraphs[..k + 1])
      == CellParts(paragraphs[..k])
         + (if ParagraphContent(paragraphs[k]).text != [] then [ParagraphContent(paragraphs[k])] else [])
  {
    Prefix(paragraphs, k);
  }

  /** The callback `parseTable` runs for one cell. */
  method ParseCell(cell: Node) returns (c: Content)
    ensures c == CellContent(cell)
  {
    var cellTextParts: seq<string> := [];
    var cellHtmlParts: seq<string> := [];
    var paragraphs := QueryAll(cell, "w:p", "p");
    for k := 0 to |paragraphs|
      invariant cellTextParts == Texts(CellParts(paragraphs[..k]))
      invariant cellHtmlParts == Htmls(CellParts(paragraphs[..k]))
    {
      var pc := ParseParagraph(paragraphs[k]);
      CellPartsStep(paragraphs, k);
      if pc.text != [] {
        PushPart(CellParts(paragraphs[..k]), pc);
        cellTextParts := cellTextParts + [pc.text];
        cellHtmlParts := cellHtmlParts + [pc.html];
      }
    }
    assert paragraphs[..|paragraphs|] == paragraphs;
    var cellText := Join(cellTextParts, " ");
    var cellHtml := Join(cellHtmlParts, "");
    c := Content(cellText, CellOpen + cellHtml + "</td>");
  }

  lemma RowCellsStep(cells: seq<Node>, j: nat)
    requires j < |cells|
    ensures RowCells(cells[..j + 1]) == RowCells(cells[..j]) + [CellContent(cells[j])]
  {
    Prefix(cells, j);
  }

  /** The callback `parseTable` runs for one row. */
  method ParseRow(row: Node) returns (c: Content)
    ensures c == RowContent(row)
  {
    var rowTextParts: seq<string> := [];
    var htmlCells: seq<string> := [];
    var cells := QueryAll(row, "w:tc", "tc");
    for j := 0 to |cells|
      invariant rowTextParts == Texts(RowCells(cells[..j])) && htmlCells == Htmls(RowCells(cells[..j]))
    {
      var cell := ParseCell(cells[j]);
      RowCellsStep(cells, j);
      PushPart(RowCells(cells[..j]), cell);
      rowTextParts := rowTextParts + [cell.text];
      htmlCells := htmlCells + [cell.html];
    }
    assert cells[..|cells|] == cells;
    c := Content(Join(rowTextParts, "\t"), "<tr>" + Join(htmlCells, "") + "</tr>");
  }

  lemma TableRowsStep(rows: seq<Node>, i: nat)
    requires i < |rows|
    ensures TableRows(rows[..i + 1]) == TableRows(rows[..i]) + [RowContent(rows[i])]
  {
    Prefix(rows, i);
  }

  method ParseTable(table: Node) returns (c: Content)
    ensures c == TableContent(table)
  {
    var textParts: seq<string> := [];
    var htmlRows: seq<string> := [];
    var rows := QueryAll(table, "w:tr", "tr");
    for i := 0 to |rows|
      invariant textParts == Texts(TableRows(rows[..i])) && htmlRows == Htmls(TableRows(rows[..i]))
    {
      var row := ParseRow(rows[i]);
      TableRowsStep(rows, i);
      PushPart(TableRows(rows[..i]), row);
      textParts := textParts + [row.text];
      htmlRows := htmlRows + [row.html];
    }
    assert rows[..|rows|] == rows;
    c := Content(Join(textParts, "\n"), TableOpen + Join(htmlRows, "") + "</table>");
  }

  method TraverseNodes(node: Node) returns (c: Content)
    requires node.Element?
    ensures c == NodeContent(node)
    decreases node
  {
    var textParts: seq<string> := [];
    var htmlParts: seq<string> := [];
    var children := node.kids;
    ghost var parts: seq<Content> := [];
    for i := 0 to |children|
      invariant parts == NodeParts(children[..i])
      invariant textParts == Texts(parts) && htmlParts == Htmls(parts)
    {
      var child := children[i];
      assert children[..i + 1][..i] == children[..i];
      if child.Element? {
        var tagName := Lower(child.tag);
        var r: Content;
        var keep := true;
        if tagName == "w:p" || tagName == "p" {
          r := ParseParagraph(child);
        } else if tagName == "w:tbl" || tagName == "tbl" {
          r := ParseTable(child);
        } else if tagName in Containers {
          r := TraverseNodes(child);
        } else if HasElementChild(child) && !EndsWithPr(tagName) {
          r := TraverseNodes(child);
          keep := r.text != [] || r.html != [];
        } else {
          r := Content([], []);
          keep := false;
        }
        if keep {
          PushPart(parts, r);
          parts := parts + [r];
          textParts := textParts + [r.text];
          htmlParts := htmlParts + [r.html];
        }
      }
    }
    assert children[..|children|] == children;
    c := Content(Join(textParts, "\n"), Join(htmlParts, "\n"));
  }

  method ExtractContentFromXml(xmlDoc: Node) returns (c: Content)
    ensures c == XmlContent(xmlDoc)
  {
    var body := QueryFirst(xmlDoc, "w:body", "body");
    QueryFirstNamed(xmlDoc, "w:body", "body");
    if body.None? {
      return Content([], []);
    }
    c := TraverseNodes(body.value);
  }

  /** Why `parseDocxWithStyles` gives up. */
  datatype DocxFailure = NoDocumentXml | XmlParseFailure

  /** What `parseDocxWithStyles` hands back; a success always carries
      `hasOriginalStyles: true`. */
  datatype DocxResult = Styled(text: string, html: string) | Failed(reason: DocxFailure)

  /** `parseDocxWithStyles` once the archive is unzipped and
      `word/document.xml` parsed: `xml` is None when that entry is missing
      or empty, and a document holding a `parsererror` element is one the
      XML parser rejected. */
  function ParseDocxWithStyles(xml: Option<Node>): (r: DocxResult)
    ensures r.Styled? ==> xml.Some? && QueryFirst(xml.value, "parsererror", "parsererror").None?
  {
    match xml
    case None => Failed(NoDocumentXml)
    case Some(doc) =>
      if QueryFirst(doc, "parsererror", "parsererror").Some? then Failed(XmlParseFailure)
      else
        var c := XmlContent(doc);
        Styled(c.text, c.html)
  }

  // =====================================================================
  // Properties

  /** A table lookup finds a key exactly when the table has it, and then
      returns the value of its first entry. */
  lemma {:induction false} LookupNameSpec(table: seq<(string, string)>, key: string)
    ensures LookupName(table, key).Some? <==> exists i :: 0 <= i < |table| && table[i].0 == key
    ensures LookupName(table, key).Some? ==>
      exists i :: 0 <= i < |table| && table[i] == (key, LookupName(table, key).value)
  {
    if table != [] && table[0].0 != key {
      LookupNameSpec(table[1..], key);
      if LookupName(table, key).Some? {
        var i :| 0 <= i < |table[1..]| && table[1..][i] == (key, LookupName(table, key).value);
        assert table[i + 1] == (key, LookupName(table, key).value);
      }
      if exists i :: 0 <= i < |table| && table[i].0 == key {
        var i :| 0 <= i < |table| && table[i].0 == key;
        assert table[1..][i - 1].0 == key;
      }
    } else if table != [] {
      assert table[0] == (key, LookupName(table, key).value);
    }
  }

  predicate DistinctKeys(table: seq<(string, string)>)
  {
    forall i, j :: 0 <= i < j < |table| ==> table[i].0 != table[j].0
  }

  /** With distinct keys every entry is found under its own key. */
  lemma {:induction false} LookupNameFinds(table: seq<(string, string)>, i: nat)
    requires DistinctKeys(table) && i < |table|
    ensures LookupName(table, table[i].0) == Some(table[i].1)
  {
    if i > 0 {
      assert table[0].0 != table[i].0;
      assert DistinctKeys(table[1..]) by {
        forall a, b | 0 <= a < b < |table[1..]| ensures table[1..][a].0 != table[1..][b].0 {
          assert table[1..][a] == table[a + 1] && table[1..][b] == table[b + 1];
        }
      }
      LookupNameFinds(table[1..], i - 1);
      assert table[1..][i - 1] == table[i];
    }
  }

  /** A few characters of a name, enough to tell the highlight names
      apart. */
  function Signature(s: string): (int, char, char, char)
  {
    (|s|, if |s| > 0 then s[0] else ' ', if |s| > 0 then s[|s| - 1] else ' ', if |s| > 4 then s[4] else ' ')
  }

  /** Each of the fifteen highlight names becomes its own colour; any other
      value is kept as it is. */
  lemma HighlightNames(v: string)
    ensures |HighlightColors| == 15
    ensures forall i :: 0 <= i < |HighlightColors| ==> HighlightColor(HighlightColors[i].0) == HighlightColors[i].1
    ensures (forall i :: 0 <= i < |HighlightColors| ==> HighlightColors[i].0 != v) ==> HighlightColor(v) == v
  {
    assert DistinctKeys(HighlightColors) by {
      forall i, j | 0 <= i < j < |HighlightColors| ensures HighlightColors[i].0 != HighlightColors[j].0 {
        assert Signature(HighlightColors[i].0) != Signature(HighlightColors[j].0);
      }
    }
    forall i | 0 <= i < |HighlightColors|
      ensures HighlightColor(HighlightColors[i].0) == HighlightColors[i].1
    {
      LookupNameFinds(HighlightColors, i);
    }
    LookupNameSpec(HighlightColors, v);
  }

  /** "both" is justified text; every other alignment is one of the three
      CSS values, and an unknown value sets none. */
  lemma AlignmentNames(v: string)
    ensures LookupName(Alignments, "both") == Some("justify")
    ensures LookupName(Alignments, v).Some? ==> LookupName(Alignments, v).value in ["left", "center", "right", "justify"]
    ensures LookupName(Alignments, v).None? <==> v !in ["left", "center", "right", "both"]
  {
    LookupNameSpec(Alignments, v);
    if LookupName(Alignments, v).Some? {
      var i :| 0 <= i < |Alignments| && Alignments[i] == (v, LookupName(Alignments, v).value);
      assert i == 0 || i == 1 || i == 2 || i == 3;
    }
    if v in ["left", "center", "right", "both"] {
      assert v == Alignments[0].0 || v == Alignments[1].0 || v == Alignments[2].0 || v == Alignments[3].0;
    }
  }

  /** An on/off element without a value attribute turns the property on. */
  lemma ToggleWithoutValue(tag: string, attrs: seq<(string, string)>, kids: seq<Node>)
    requires forall i :: 0 <= i < |attrs| ==> attrs[i].0 != "w:val" && attrs[i].0 != "val"
    ensures Toggle(Some(Element(tag, attrs, kids))) == Some(true)
  {
    GetAttrSpec(attrs, "w:val");
    GetAttrSpec(attrs, "val");
  }

  lemma {:induction false} GetAttrSpec(attrs: seq<(string, string)>, name: string)
    ensures GetAttr(attrs, name).Some? <==> exists i :: 0 <= i < |attrs| && attrs[i].0 == name
  {
    if attrs != [] && attrs[0].0 != name {
      GetAttrSpec(attrs[1..], name);
      if exists i :: 0 <= i < |attrs| && attrs[i].0 == name {
        var i :| 0 <= i < |attrs| && attrs[i].0 == name;
        assert attrs[1..][i - 1].0 == name;
      }
      if GetAttr(attrs, name).Some? {
        var i :| 0 <= i < |attrs[1..]| && attrs[1..][i].0 == name;
        assert attrs[i + 1].0 == name;
      }
    }
  }

  /** A run without run properties is its text, escaped and unwrapped. */
  lemma PlainRun(run: Node, text: string)
    requires QueryFirst(run, "w:rPr", "rPr").None?
    ensures WrapText(text, ExtractRunStyle(run)) == EscapeHtml(text)
  {
  }

  /** No style field of the run is truthy. */
  predicate Unstyled(s: RunStyle)
  {
    && !Present(s.color) && !Present(s.highlight) && !Present(s.background)
    && !Set(s.fontSize) && s.bold != Some(true) && s.italic != Some(true)
  }

  /** A run's HTML is its escaped text alone exactly when no style field is
      truthy; otherwise it is wrapped in a span. */
  lemma WrapTextPlain(text: string, s: RunStyle)
    ensures WrapText(text, s) == EscapeHtml(text) <==> Unstyled(s)
  {
    if !Unstyled(s) {
      assert RunDecls(s) != [];
      var h := WrapText(text, s);
      assert h[0] == '<';
      EscapeHtmlSafe(text);
      assert h[0] in h;
    }
  }

  predicate StartsWith(d: string, prefix: string)
  {
    |prefix| <= |d| && d[..|prefix|] == prefix
  }

  /** Number of declarations that start with `prefix`. */
  function CountStarting(decls: seq<string>, prefix: string): nat
  {
    if decls == [] then 0
    else (if StartsWith(decls[0], prefix) then 1 else 0) + CountStarting(decls[1..], prefix)
  }

  lemma {:induction false} CountStartingAppend(a: seq<string>, b: seq<string>, prefix: string)
    ensures CountStarting(a + b, prefix) == CountStarting(a, prefix) + CountStarting(b, prefix)
  {
    if a != [] {
      assert (a + b)[0] == a[0] && (a + b)[1..] == a[1..] + b;
      CountStartingAppend(a[1..], b, prefix);
    } else {
      assert a + b == b;
    }
  }

  const MarginLeft: string := "margin-left: "

  /** Declarations none of which starts with "margin-left: " count zero. */
  lemma {:induction false} NoMargins(d: seq<string>)
    requires forall i :: 0 <= i < |d| ==> !StartsWith(d[i], MarginLeft)
    ensures CountStarting(d, MarginLeft) == 0
  {
    if d != [] {
      forall i | 0 <= i < |d[1..]|
        ensures !StartsWith(d[1..][i], MarginLeft)
      {
        assert d[1..][i] == d[i + 1];
      }
      NoMargins(d[1..]);
    }
  }

  lemma NotMargin(x: string, k: nat)
    requires k < |x| && k < |MarginLeft| && x[k] != MarginLeft[k]
    ensures !StartsWith(x, MarginLeft)
  {
    if |MarginLeft| <= |x| { assert x[..|MarginLeft|][k] != MarginLeft[k]; }
  }

  lemma OneMargin(x: string)
    ensures CountStarting([MarginLeft + x], MarginLeft) == 1
  {
    var d := [MarginLeft + x];
    assert d[0][..|MarginLeft|] == MarginLeft;
    assert d[1..] == [];
  }

  lemma BaseAndListMargins()
    ensures CountStarting(BaseDecls, MarginLeft) == 0
    ensures CountStarting(ListDecls, MarginLeft) == 0
  {
    NotMargin(BaseDecls[0], 0);
    NotMargin(BaseDecls[1], 1);
    NotMargin(BaseDecls[2], 7);
    NotMargin(BaseDecls[3], 0);
    NotMargin(BaseDecls[4], 0);
    NoMargins(BaseDecls);
    NotMargin(ListDecls[0], 0);
    NotMargin(ListDecls[1], 0);
    NotMargin(ListDecls[2], 0);
    NoMargins(ListDecls);
  }

  /** The declarations of a paragraph with the values of its optional
      declarations given: the list of `ParagraphDecls`, with each number
      already written out. */
  function DeclsWith(s: ParagraphStyle, align: string, margin: string, indent: string, listMargin: string): seq<string>
  {
    BaseDecls
    + (if Present(s.alignment) then ["text-align: " + align] else [])
    + (if Set(s.marginLeft) then [MarginLeft + margin] else [])
    + (if Set(s.textIndent) then ["text-indent: " + indent] else [])
    + (if s.isList == Some(true)
       then ListDecls + (if !Set(s.marginLeft) then [MarginLeft + listMargin] else [])
       else [])
  }

  lemma MarginsWith(s: ParagraphStyle, align: string, margin: string, indent: string, listMargin: string)
    ensures CountStarting(DeclsWith(s, align, margin, indent, listMargin), MarginLeft)
      == if Set(s.marginLeft) || s.isList == Some(true) then 1 else 0
  {
    var a := if Present(s.alignment) then ["text-align: " + align] else [];
    var m := if Set(s.marginLeft) then [MarginLeft + margin] else [];
    var t := if Set(s.textIndent) then ["text-indent: " + indent] else [];
    var lm := if !Set(s.marginLeft) then [MarginLeft + listMargin] else [];
    var l := if s.isList == Some(true) then ListDecls + lm else [];
    assert DeclsWith(s, align, margin, indent, listMargin) == BaseDecls + a + m + t + l;
    CountFiveParts(BaseDecls, a, m, t, l);
    BaseAndListMargins();
    if a != [] { OtherDecl("text-align: ", align); }
    if t != [] { OtherDecl("text-indent: ", indent); }
    if m != [] { OneMargin(margin); }
    ListMargin(s.isList == Some(true), !Set(s.marginLeft), listMargin);
  }

  /** The left margins of five runs of declarations, one after the other. */
  lemma CountFiveParts(b: seq<string>, a: seq<string>, m: seq<string>, t: seq<string>, l: seq<string>)
    ensures CountStarting(b + a + m + t + l, MarginLeft)
      == CountStarting(b, MarginLeft) + CountStarting(a, MarginLeft) + CountStarting(m, MarginLeft)
         + CountStarting(t, MarginLeft) + CountStarting(l, MarginLeft)
  {
    CountStartingAppend(b + a + m + t, l, MarginLeft);
    CountStartingAppend(b + a + m, t, MarginLeft);
    CountStartingAppend(b + a, m, MarginLeft);
    CountStartingAppend(b, a, MarginLeft);
  }

  /** A declaration whose name does not start with 'm' is no left margin. */
  lemma OtherDecl(name: string, value: string)
    requires name != [] && name[0] != 'm'
    ensures CountStarting([name + value], MarginLeft) == 0
  {
    NotMargin(name + value, 0);
    NoMargins([name + value]);
  }

  /** The list declarations carry a left margin only when no explicit one
      was set. */
  lemma ListMargin(isList: bool, noMargin: bool, listMargin: string)
    ensures CountStarting(if isList then ListDecls + (if noMargin then [MarginLeft + listMargin] else []) else [], MarginLeft)
      == if isList && noMargin then 1 else 0
  {
    if isList {
      var lm := if noMargin then [MarginLeft + listMargin] else [];
      BaseAndListMargins();
      CountStartingAppend(ListDecls, lm, MarginLeft);
      if noMargin { OneMargin(listMargin); }
    }
  }

  /** A paragraph gets exactly one left margin when it has a non-zero
      indentation or is a list item, none otherwise: a list item's default
      margin steps aside for an explicit one. */
  lemma ParagraphMarginOnce(s: ParagraphStyle)
    ensures CountStarting(ParagraphDecls(s), MarginLeft)
      == if Set(s.marginLeft) || s.isList == Some(true) then 1 else 0
  {
    var align := if Present(s.alignment) then s.alignment.value else [];
    var margin := if Set(s.marginLeft) then Pt(s.marginLeft.value) else [];
    var indent := if Set(s.textIndent) then Pt(s.textIndent.value) else [];
    MarginsWith(s, align, margin, indent, Pt(ListIndent(s)));
    assert ParagraphDecls(s) == DeclsWith(s, align, margin, indent, Pt(ListIndent(s)));
  }

  /** Every paragraph starts with the five base declarations, and an empty
      paragraph still shows one line. */
  lemma ParagraphShape(content: string, s: ParagraphStyle)
    ensures ParagraphDecls(s)[..|BaseDecls|] == BaseDecls
    ensures content == [] ==> WrapParagraph(content, s)[|WrapParagraph(content, s)| - 10..] == "<br></div>"
  {
  }

  /** A paragraph's text is never empty: it always ends in a newline. */
  lemma ParagraphEndsInNewline(p: Node)
    ensures ParagraphContent(p).text != [] && ParagraphContent(p).text[|ParagraphContent(p).text| - 1] == '\n'
  {
  }

  /** `parseParagraph` applied to each element, in order. */
  function ParagraphContents(paragraphs: seq<Node>): seq<Content>
  {
    if paragraphs == [] then []
    else ParagraphContents(paragraphs[..|paragraphs| - 1]) + [ParagraphContent(paragraphs[|paragraphs| - 1])]
  }

  /** Since no paragraph's text is empty, a cell keeps all its paragraphs. */
  lemma {:induction false} CellKeepsParagraphs(paragraphs: seq<Node>)
    ensures CellParts(paragraphs) == ParagraphContents(paragraphs)
  {
    if paragraphs != [] {
      CellKeepsParagraphs(paragraphs[..|paragraphs| - 1]);
      ParagraphEndsInNewline(paragraphs[|paragraphs| - 1]);
    }
  }

  /** Every `w:t` child of a run pushes the text of the whole run, so a run
      with k text children repeats its text k times. */
  lemma {:induction false} RunTextRepeats(run: Node, kids: seq<Node>)
    requires forall i :: 0 <= i < |kids| ==> TagIs(kids[i], "w:t", "t")
    requires ParseRun(run).text != []
    ensures RunKidParts(run, kids) == seq(|kids|, _ => ParseRun(run))
    ensures kids != [] ==> RunHasText(run, kids)
  {
    if kids != [] {
      RunTextRepeats(run, kids[..|kids| - 1]);
    }
  }

  /** A run holding only a line break pushes two of them: one for the `w:br`
      child, one more because it pushed no text. */
  lemma BreakOnlyRun()
    ensures RunParts(Element("w:r", [], [Element("w:br", [], [])])) == [LineBreak, LineBreak]
  {
    var br := Element("w:br", [], []);
    var run := Element("w:r", [], [br]);
    assert Lower("w:br") == "w:br";
    assert TagIs(br, "w:br", "br") && !TagIs(br, "w:t", "t");
    assert [br][..0] == [];
    assert RunKidParts(run, [br]) == [LineBreak] by {
      assert RunKidParts(run, [br]) == RunKidParts(run, []) + RunKidPart(run, br);
    }
    assert !RunHasText(run, [br]);
    assert QueryFirst(run, "w:br", "br") == Some(br) by {
      assert QueryAllIn([br], "w:br", "br") == [br] + QueryAll(br, "w:br", "br") + QueryAllIn([], "w:br", "br");
    }
  }

  /** An element the walk does not know, holding one paragraph, adds just
      that paragraph. */
  lemma UnknownWrapper(tag: string, attrs: seq<(string, string)>, p: Node)
    requires Lower(tag) !in ["w:p", "p", "w:tbl", "tbl"] && Lower(tag) !in Containers && !EndsWithPr(Lower(tag))
    requires TagIs(p, "w:p", "p")
    ensures KidPart(Element(tag, attrs, [p])) == [ParagraphContent(p)]
  {
    var w := Element(tag, attrs, [p]);
    var c := ParagraphContent(p);
    assert HasElementChild(w) by { assert Children(w)[0].Element?; }
    OtherElementPart(w);
    assert NodeParts([p]) == [c] by { assert [p][..0] == []; }
    assert NodeContent(w) == c by {
      assert Texts([c]) == [c.text] && Htmls([c]) == [c.html];
    }
    assert c.text != [] by { ParagraphEndsInNewline(p); }
  }

  /** The walk of an element that is no paragraph, table or container:
      its own walk when it has element children, its tag does not end in
      "pr" and the walk is not empty. */
  lemma OtherElementPart(k: Node)
    requires k.Element? && Lower(k.tag) !in ["w:p", "p", "w:tbl", "tbl"] && Lower(k.tag) !in Containers
    requires HasElementChild(k) && !EndsWithPr(Lower(k.tag))
    ensures NodeContent(k).text != [] ==> KidPart(k) == [NodeContent(k)]
  {
  }

  /** Property elements whose tag ends in "pr" add nothing to the walk. */
  lemma PropertiesSkipped(k: Node)
    requires k.Element? && EndsWithPr(Lower(k.tag))
    requires Lower(k.tag) !in Containers
    ensures KidPart(k) == []
  {
  }

  /** Sizes in half-points and indents in twentieths of a point read back
      exactly. */
  lemma UnitConversions(n: int)
    ensures ParsedOver(IntText(n), 50) == Centi(n * 50)
    ensures ParsedOver(IntText(n), 5) == Centi(n * 5)
  {
    ParseIntText(n);
  }
}
