/**
 * The character extractor (`useExtractor.ts`): the pasted text is shown as
 * a grid of cells, where a run of two or more ASCII letters and digits
 * forms one cell; the user selects character indices, and the selected
 * characters, in text order and without blank lines, become a new
 * extracted item or replace the one being edited.
 */
module Extractor {
  import opened JsString
  import opened Types
  import opened ExtractorStore

  // ---------------------------------------------------------------------
  // Cells

  /** `isGroupableChar`: `/^[a-zA-Z0-9]$/`. */
  predicate IsGroupable(c: char)
  {
    ('a' <= c <= 'z') || ('A' <= c <= 'Z') || ('0' <= c <= '9')
  }

  /** Where the run of groupable characters starting at `j` ends. */
  function RunEnd(text: string, j: nat): (e: nat)
    requires j <= |text|
    ensures j <= e <= |text|
    ensures forall k :: j <= k < e ==> IsGroupable(text[k])
    ensures e == |text| || !IsGroupable(text[e])
    decreases |text| - j
  {
    if j < |text| && IsGroupable(text[j]) then RunEnd(text, j + 1) else j
  }

  /** Where the cell starting at `i` ends: after the whole run when
      `text[i]` is groupable, after `text[i]` otherwise. */
  function CellEnd(text: string, i: nat): (e: nat)
    requires i < |text|
    ensures i < e <= |text|
  {
    if IsGroupable(text[i]) then RunEnd(text, i + 1) else i + 1
  }

  /** The cell that starts at `i`: grouped when it is two characters or
      more. */
  function CellAt(text: string, i: nat): CharCell
    requires i < |text|
  {
    var e := CellEnd(text, i);
    if e - i > 1 then CharCell(text[i..e], i, true, Some(text[i..e]))
    else CharCell([text[i]], i, false, None)
  }

  /** The cells of `text[i..]`. */
  function CellsFrom(text: string, i: nat): seq<CharCell>
    requires i <= |text|
    decreases |text| - i
  {
    if i == |text| then [] else [CellAt(text, i)] + CellsFrom(text, CellEnd(text, i))
  }

  /** What `generateCharList(text)` returns. */
  function CharList(text: string): seq<CharCell>
  {
    CellsFrom(text, 0)
  }

  /** Taking the cell at `start` off the front of the remaining cells. */
  lemma PushCell(text: string, start: nat, done: seq<CharCell>)
    requires start < |text|
    ensures done + CellsFrom(text, start) == (done + [CellAt(text, start)]) + CellsFrom(text, CellEnd(text, start))
  {
  }

  /** `generateCharList`: one pass over the text, collecting each run of
      groupable characters in an inner loop. */
  method GenerateCharList(text: string) returns (result: seq<CharCell>)
    ensures result == CharList(text)
  {
    result := [];
    var i := 0;
    while i < |text|
      invariant i <= |text|
      invariant result + CellsFrom(text, i) == CharList(text)
      decreases |text| - i
    {
      var startIndex := i;
      var cell;
      if IsGroupable(text[i]) {
        var groupText := [text[i]];
        i := i + 1;
        while i < |text|
          invariant startIndex < i <= |text|
          invariant groupText == text[startIndex..i]
          invariant RunEnd(text, i) == RunEnd(text, startIndex + 1)
          decreases |text| - i
        {
          if IsGroupable(text[i]) {
            groupText := groupText + [text[i]];
            i := i + 1;
          } else {
            break;
          }
        }
        if |groupText| > 1 {
          cell := CharCell(groupText, startIndex, true, Some(groupText));
        } else {
          cell := CharCell([text[startIndex]], startIndex, false, None);
        }
      } else {
        cell := CharCell([text[i]], i, false, None);
        i := i + 1;
      }
      assert i == CellEnd(text, startIndex) && cell == CellAt(text, startIndex);
      PushCell(text, startIndex, result);
      result := result + [cell];
    }
  }

  /** The cells' characters, concatenated. */
  function Chars(cells: seq<CharCell>): string
  {
    if cells == [] then [] else cells[0].ch + Chars(cells[1..])
  }

  /** Concatenating the cells gives back the text. */
  lemma {:induction false} CellsFromChars(text: string, i: nat)
    requires i <= |text|
    ensures Chars(CellsFrom(text, i)) == text[i..]
    decreases |text| - i
  {
    if i < |text| {
      var e := CellEnd(text, i);
      CellsFromChars(text, e);
      assert CellAt(text, i).ch == text[i..e];
      assert text[i..] == text[i..e] + text[e..];
    }
  }

  /** Each cell's `index` is the offset at which its characters start. */
  lemma {:induction false} CellsFromOffsets(text: string, i: nat)
    requires i <= |text|
    ensures forall k :: 0 <= k < |CellsFrom(text, i)| ==>
      CellsFrom(text, i)[k].index == i + |Chars(CellsFrom(text, i)[..k])|
    decreases |text| - i
  {
    if i < |text| {
      var cells := CellsFrom(text, i);
      var e := CellEnd(text, i);
      var rest := CellsFrom(text, e);
      CellsFromOffsets(text, e);
      forall k | 0 <= k < |cells|
        ensures cells[k].index == i + |Chars(cells[..k])|
      {
        if k > 0 {
          assert cells[..k] == [cells[0]] + rest[..k - 1];
          assert |cells[0].ch| == e - i;
          assert cells[k] == rest[k - 1];
        }
      }
    }
  }

  /** `generateCharList` covers the text exactly, cell after cell, and an
      empty text gives no cells. */
  lemma CharListTiles(text: string)
    ensures Chars(CharList(text)) == text
    ensures forall k :: 0 <= k < |CharList(text)| ==> CharList(text)[k].index == |Chars(CharList(text)[..k])|
    ensures text == [] <==> CharList(text) == []
  {
    CellsFromChars(text, 0);
    CellsFromOffsets(text, 0);
  }

  /** `text[a..b]` is a run of groupable characters that cannot be
      extended on either side. */
  predicate MaximalRun(text: string, a: nat, b: nat)
  {
    a < b <= |text|
    && (forall k :: a <= k < b ==> IsGroupable(text[k]))
    && (a == 0 || !IsGroupable(text[a - 1]))
    && (b == |text| || !IsGroupable(text[b]))
  }

  /** What a cell of `generateCharList(text)` looks like: its characters
      are the text at its index; it is grouped exactly when it is two
      characters or more, and then `groupText` repeats them; and a cell
      that starts with a groupable character is a whole maximal run. So a
      grouped cell is a maximal run of two or more letters and digits,
      and every other cell is a single character. */
  predicate CellShape(text: string, c: CharCell)
  {
    0 <= c.index && c.index + |c.ch| <= |text|
    && c.ch == text[c.index..c.index + |c.ch|]
    && (c.isGrouped <==> |c.ch| >= 2)
    && (if c.isGrouped then c.groupText == Some(c.ch) else |c.ch| == 1 && c.groupText == None)
    && (IsGroupable(text[c.index]) ==> MaximalRun(text, c.index, c.index + |c.ch|))
  }

  /** A cell can start at `i`: no run of groupable characters crosses it. */
  predicate Boundary(text: string, i: nat)
    requires i <= |text|
  {
    i == 0 || i == |text| || !IsGroupable(text[i - 1]) || !IsGroupable(text[i])
  }

  lemma {:induction false} CellsFromShape(text: string, i: nat)
    requires i <= |text| && Boundary(text, i)
    ensures forall k :: 0 <= k < |CellsFrom(text, i)| ==> CellShape(text, CellsFrom(text, i)[k])
    decreases |text| - i
  {
    if i < |text| {
      var e := CellEnd(text, i);
      assert Boundary(text, e);
      CellsFromShape(text, e);
      var c := CellAt(text, i);
      assert c.ch == text[i..e];
      if IsGroupable(text[i]) {
        assert MaximalRun(text, i, e);
      }
      assert CellShape(text, c);
    }
  }

  /** Every cell of `generateCharList` has the shape `CellShape` states. */
  lemma CharListShape(text: string)
    ensures forall k :: 0 <= k < |CharList(text)| ==> CellShape(text, CharList(text)[k])
  {
    CellsFromShape(text, 0);
  }

  // ---------------------------------------------------------------------
  // Cell indices

  /** The integers `a, a+1, …, b-1`. */
  function Range(a: int, b: int): (r: seq<int>)
    ensures |r| == if a < b then b - a else 0
    ensures forall k :: 0 <= k < |r| ==> r[k] == a + k
  {
    if a >= b then [] else seq(b - a, k requires 0 <= k < b - a => a + k)
  }

  /** What `getCellIndices(cell)` returns: every index a grouped cell
      covers, otherwise just its own index. */
  function CellIndices(c: CharCell): seq<int>
  {
    if c.isGrouped && c.groupText.Some? && c.groupText.value != [] then
      Range(c.index, c.index + |c.groupText.value|)
    else
      [c.index]
  }

  method GetCellIndices(cell: CharCell) returns (indices: seq<int>)
    ensures indices == CellIndices(cell)
  {
    if cell.isGrouped && cell.groupText.Some? && cell.groupText.value != [] {
      indices := [];
      for i := 0 to |cell.groupText.value|
        invariant indices == Range(cell.index, cell.index + i)
      {
        indices := indices + [cell.index + i];
      }
    } else {
      indices := [cell.index];
    }
  }

  /** The indices of all the cells, in order. */
  function AllIndices(cells: seq<CharCell>): seq<int>
  {
    if cells == [] then [] else CellIndices(cells[0]) + AllIndices(cells[1..])
  }

  lemma {:induction false} CellsFromIndices(text: string, i: nat)
    requires i <= |text|
    ensures AllIndices(CellsFrom(text, i)) == Range(i, |text|)
    decreases |text| - i
  {
    if i < |text| {
      var e := CellEnd(text, i);
      CellsFromIndices(text, e);
      assert CellIndices(CellAt(text, i)) == Range(i, e);
      assert Range(i, |text|) == Range(i, e) + Range(e, |text|);
    }
  }

  /** The cells' index lists partition `0 .. |text|-1`: read in order they
      are each index exactly once. */
  lemma CharListPartition(text: string)
    ensures AllIndices(CharList(text)) == Range(0, |text|)
  {
    CellsFromIndices(text, 0);
  }

  // ---------------------------------------------------------------------
  // Selection state of a cell

  /** How many of `idx` are selected. */
  function SelectedCount(idx: seq<int>, sel: set<int>): (n: nat)
    ensures n <= |idx|
  {
    if idx == [] then 0 else (if idx[0] in sel then 1 else 0) + SelectedCount(idx[1..], sel)
  }

  /** `isCellSelected`: every index of the cell is selected. */
  predicate IsCellSelected(c: CharCell, sel: set<int>)
  {
    forall x :: x in CellIndices(c) ==> x in sel
  }

  /** `isCellPartiallySelected`: some, but not all, of the cell's indices
      are selected (counted with repetitions, as `filter` does). */
  predicate IsCellPartiallySelected(c: CharCell, sel: set<int>)
  {
    0 < SelectedCount(CellIndices(c), sel) < |CellIndices(c)|
  }

  lemma {:induction false} SelectedCountSpec(idx: seq<int>, sel: set<int>)
    ensures SelectedCount(idx, sel) == |idx| <==> forall x :: x in idx ==> x in sel
    ensures SelectedCount(idx, sel) > 0 <==> exists x :: x in idx && x in sel
  {
    if idx != [] {
      SelectedCountSpec(idx[1..], sel);
      assert forall x :: x in idx <==> x == idx[0] || x in idx[1..];
    }
  }

  /** A cell is partially selected exactly when some of its indices are
      selected and it is not selected as a whole; the two states never
      hold together. */
  lemma PartialSelection(c: CharCell, sel: set<int>)
    ensures IsCellPartiallySelected(c, sel) <==>
      (exists x :: x in CellIndices(c) && x in sel) && !IsCellSelected(c, sel)
    ensures !(IsCellSelected(c, sel) && IsCellPartiallySelected(c, sel))
  {
    SelectedCountSpec(CellIndices(c), sel);
  }

  // ---------------------------------------------------------------------
  // Select all, invert

  /** Whether `selectAll`/`invertSelection` consider index `i`: every
      character, or only the non-white-space ones when spaces are hidden. */
  predicate Eligible(raw: string, hideSpaces: bool, i: int)
  {
    0 <= i < |raw| && (!hideSpaces || !IsWhitespace(raw[i]))
  }

  function EligibleSet(raw: string, hideSpaces: bool): set<int>
  {
    set i | 0 <= i < |raw| && Eligible(raw, hideSpaces, i)
  }

  /** The selection `invertSelection` produces. */
  function Inverted(raw: string, hideSpaces: bool, sel: set<int>): (r: set<int>)
  {
    EligibleSet(raw, hideSpaces) - sel
  }

  /** Inverting picks exactly the eligible indices that were not selected;
      inverting twice gives back any selection of eligible indices;
      inverting everything gives nothing and nothing gives everything. */
  lemma InvertSpec(raw: string, hideSpaces: bool, sel: set<int>)
    ensures forall i :: i in Inverted(raw, hideSpaces, sel) <==> Eligible(raw, hideSpaces, i) && i !in sel
    ensures sel <= EligibleSet(raw, hideSpaces) ==> Inverted(raw, hideSpaces, Inverted(raw, hideSpaces, sel)) == sel
    ensures Inverted(raw, hideSpaces, EligibleSet(raw, hideSpaces)) == {}
    ensures Inverted(raw, hideSpaces, {}) == EligibleSet(raw, hideSpaces)
  {
  }

  // ---------------------------------------------------------------------
  // Ascending order of a selection

  predicate Increasing(s: seq<int>)
  {
    forall i, j :: 0 <= i < j < |s| ==> s[i] < s[j]
  }

  predicate IsMin(s: set<int>, m: int)
  {
    m in s && forall y :: y in s ==> m <= y
  }

  lemma HasElement(s: set<int>)
    requires s != {}
    ensures exists x :: x in s
  {
    if forall x :: x !in s {
      assert false;
    }
  }

  lemma {:induction false} MinExists(s: set<int>)
    requires s != {}
    ensures exists m :: IsMin(s, m)
  {
    HasElement(s);
    var x :| x in s;
    if s == {x} {
      assert IsMin(s, x);
    } else {
      MinExists(s - {x});
      var m :| IsMin(s - {x}, m);
      var least := if x < m then x else m;
      forall y | y in s
        ensures least <= y
      {
        if y != x {
          assert y in s - {x};
        }
      }
      assert IsMin(s, least);
    }
  }

  /** The elements of `s` in ascending order, as `sort((a, b) => a - b)`
      leaves them. */
  ghost function Ascending(s: set<int>): (r: seq<int>)
    ensures Increasing(r)
    ensures |r| == |s|
    ensures forall x :: x in r <==> x in s
    decreases |s|
  {
    if s == {} then []
    else
      MinExists(s);
      var m :| IsMin(s, m);
      [m] + Ascending(s - {m})
  }

  lemma AscendingHead(s: set<int>, m: int)
    requires IsMin(s, m)
    ensures Ascending(s) == [m] + Ascending(s - {m})
  {
  }

  /** The head of an increasing sequence is the least of its elements,
      and the tail holds the others. */
  lemma IncreasingHead(r: seq<int>, s: set<int>)
    requires Increasing(r) && r != []
    requires forall x :: x in r <==> x in s
    ensures IsMin(s, r[0])
    ensures forall x :: x in r[1..] <==> x in s - {r[0]}
  {
    forall y | y in s
      ensures r[0] <= y
    {
      var k :| 0 <= k < |r| && r[k] == y;
    }
    forall x
      ensures x in r[1..] <==> x in s - {r[0]}
    {
      if x in r[1..] {
        var k :| 1 <= k < |r| && r[k] == x;
      }
      if x in s && x != r[0] {
        var k :| 0 <= k < |r| && r[k] == x;
        assert r[1..][k - 1] == x;
      }
    }
  }

  /** An increasing sequence is the ascending order of its elements. */
  lemma {:induction false} AscendingUnique(r: seq<int>, s: set<int>)
    requires Increasing(r)
    requires forall x :: x in r <==> x in s
    ensures r == Ascending(s)
    decreases |r|
  {
    if r == [] {
      assert forall x :: x !in s;
      assert s == {};
    } else {
      IncreasingHead(r, s);
      AscendingHead(s, r[0]);
      AscendingUnique(r[1..], s - {r[0]});
    }
  }

  /** The sort `handleAction` applies, as repeated extraction of the
      smallest remaining index. */
  method SortIndices(s: set<int>) returns (r: seq<int>)
    ensures r == Ascending(s)
  {
    r := [];
    var rest := s;
    while rest != {}
      invariant r + Ascending(rest) == Ascending(s)
      decreases |rest|
    {
      MinExists(rest);
      var m :| m in rest && IsMin(rest, m);
      AscendingHead(rest, m);
      Assoc(r, [m], Ascending(rest - {m}));
      r := r + [m];
      rest := rest - {m};
    }
  }

  // ---------------------------------------------------------------------
  // The extracted text

  /** `indices.map(i => chars[i]).join("")`: an index outside the text
      reads `undefined`, which joins as the empty string. */
  function CharsAt(raw: string, idx: seq<int>): (r: string)
    ensures |r| <= |idx|
  {
    if idx == [] then []
    else (if 0 <= idx[0] < |raw| then [raw[idx[0]]] else []) + CharsAt(raw, idx[1..])
  }

  /** The text `handleAction` extracts: the selected characters in text
      order, with the white-space-only lines dropped. */
  ghost function ItemText(raw: string, sel: set<int>): string
  {
    DropBlankLines(CharsAt(raw, Ascending(sel)))
  }

  lemma {:induction false} CharsAtRange(raw: string, k: nat)
    requires k <= |raw|
    ensures CharsAt(raw, Range(k, |raw|)) == raw[k..]
    decreases |raw| - k
  {
    if k < |raw| {
      assert Range(k, |raw|) == [k] + Range(k + 1, |raw|);
      CharsAtRange(raw, k + 1);
      assert raw[k..] == [raw[k]] + raw[k + 1..];
    }
  }

  /** Selecting everything (spaces shown) and extracting gives the whole
      text, less its blank lines. */
  lemma SelectAllExtracts(raw: string)
    ensures ItemText(raw, EligibleSet(raw, false)) == DropBlankLines(raw)
  {
    var r := Range(0, |raw|);
    assert forall x :: x in r <==> x in EligibleSet(raw, false) by {
      forall x
        ensures x in r <==> x in EligibleSet(raw, false)
      {
        if 0 <= x < |raw| {
          assert r[x] == x;
        }
      }
    }
    AscendingUnique(r, EligibleSet(raw, false));
    CharsAtRange(raw, 0);
  }

  /** `list[i]?.color || getColor(i)`: the item's own colour, or the
      palette colour of its position. */
  function ItemColor(list: seq<ExtractedItem>, i: int): (c: string)
    ensures 0 <= i < |list| && list[i].color != [] ==> c == list[i].color
    ensures !(0 <= i < |list| && list[i].color != []) ==> c == GetColor(i)
    ensures i >= 0 ==> c != []
  {
    if 0 <= i < |list| && list[i].color != [] then list[i].color
    else
      ColorCycle(if i >= 0 then i else 0);
      GetColor(i)
  }

  /** The store and the index of the item being edited (-1: none) after
      `handleAction`. */
  ghost function Action(st: State, editing: int): (State, int)
  {
    if st.selected == {} then (st, editing)
    else
      var text := ItemText(st.rawText, st.selected);
      if IsBlank(text) then (st, editing)
      else
        var color := if editing == -1 then GetColor(|st.extractedList|) else ItemColor(st.extractedList, editing);
        var item := ExtractedItem(text, Ascending(st.selected), color);
        if editing == -1 then (st.(extractedList := [item] + st.extractedList, selected := {}), -1)
        else (st.(extractedList := UpdateAt(st.extractedList, editing, item), selected := {}), -1)
  }

  /** An empty selection, or one whose text is blank, changes nothing. */
  lemma ActionNoop(st: State, editing: int)
    ensures st.selected == {} ==> Action(st, editing) == (st, editing)
    ensures IsBlank(ItemText(st.rawText, st.selected)) ==> Action(st, editing) == (st, editing)
  {
    if st.selected != {} && IsBlank(ItemText(st.rawText, st.selected)) {
    }
  }

  /** In new mode a successful extraction puts one stable item in front
      of the list: its text is the extracted text, its indices are the
      selection in ascending order, its colour is that of the old list's
      length. The selection is cleared. */
  lemma ActionAdds(st: State)
    requires st.selected != {} && !IsBlank(ItemText(st.rawText, st.selected))
    ensures var (st', e') := Action(st, -1);
      && e' == -1
      && st' == st.(extractedList := st'.extractedList, selected := {})
      && |st'.extractedList| == |st.extractedList| + 1
      && st'.extractedList[1..] == st.extractedList
      && Stable(st'.extractedList[0])
      && st'.extractedList[0].text == ItemText(st.rawText, st.selected)
      && Increasing(st'.extractedList[0].indices)
      && (forall x :: x in st'.extractedList[0].indices <==> x in st.selected)
      && st'.extractedList[0].color == GetColor(|st.extractedList|)
  {
    var text := ItemText(st.rawText, st.selected);
    DropBlankLinesIdempotent(CharsAt(st.rawText, Ascending(st.selected)));
    ColorCycle(|st.extractedList|);
    var st' := Action(st, -1).0;
    assert st'.extractedList[0] == ExtractedItem(text, Ascending(st.selected), GetColor(|st.extractedList|));
  }

  /** In edit mode a successful extraction replaces the edited slot only,
      with the extracted text, the selection in ascending order and the
      slot's own colour, or `getColor(editing)` when it has none; it
      leaves editing. */
  lemma ActionEdits(st: State, editing: int)
    requires st.selected != {} && !IsBlank(ItemText(st.rawText, st.selected))
    requires 0 <= editing < |st.extractedList|
    ensures var (st', e') := Action(st, editing);
      && e' == -1
      && st' == st.(extractedList := st'.extractedList, selected := {})
      && |st'.extractedList| == |st.extractedList|
      && (forall j :: 0 <= j < |st.extractedList| && j != editing ==> st'.extractedList[j] == st.extractedList[j])
      && Stable(st'.extractedList[editing])
      && st'.extractedList[editing] == ExtractedItem(ItemText(st.rawText, st.selected), Ascending(st.selected),
                                                     ItemColor(st.extractedList, editing))
      && st'.extractedList[editing].color == (if st.extractedList[editing].color != [] then st.extractedList[editing].color
                                               else GetColor(editing))
  {
    DropBlankLinesIdempotent(CharsAt(st.rawText, Ascending(st.selected)));
  }

  // ---------------------------------------------------------------------
  // Symbols

  /** The characters `clearSymbols` keeps: CJK ideographs U+4E00–U+9FA5,
      ASCII letters and digits, and white space. */
  predicate KeepChar(c: char)
  {
    ('一' <= c <= '龥') || IsGroupable(c) || IsWhitespace(c)
  }

  /** `replace(/[^一-龥a-zA-Z0-9\s]/g, "")`. */
  function StripSymbols(s: string): (r: string)
    ensures |r| <= |s|
    ensures forall k :: 0 <= k < |r| ==> KeepChar(r[k])
  {
    if s == [] then [] else (if KeepChar(s[0]) then [s[0]] else []) + StripSymbols(s[1..])
  }

  /** The text is left as it is exactly when it holds no symbol; and
      stripping twice is stripping once. */
  lemma {:induction false} StripSymbolsFixed(s: string)
    ensures StripSymbols(s) == s <==> forall k :: 0 <= k < |s| ==> KeepChar(s[k])
  {
    if s != [] {
      StripSymbolsFixed(s[1..]);
      if !KeepChar(s[0]) {
        assert |StripSymbols(s)| < |s| by {
          assert |StripSymbols(s[1..])| <= |s[1..]|;
        }
      } else if StripSymbols(s[1..]) != s[1..] {
        assert StripSymbols(s)[1..] == StripSymbols(s[1..]);
      } else {
        assert forall k :: 1 <= k < |s| ==> s[k] == s[1..][k - 1];
      }
    }
  }

  lemma StripSymbolsIdempotent(s: string)
    ensures StripSymbols(StripSymbols(s)) == StripSymbols(s)
  {
    StripSymbolsFixed(StripSymbols(s));
  }

  // ---------------------------------------------------------------------
  // Looking up the item that holds a character

  /** The first item whose indices hold `charIndex`, or -1. */
  method FindItemIndex(list: seq<ExtractedItem>, charIndex: int) returns (r: int)
    ensures -1 <= r < |list|
    ensures r == -1 <==> forall i :: 0 <= i < |list| ==> charIndex !in list[i].indices
    ensures r >= 0 ==> charIndex in list[r].indices && forall i :: 0 <= i < r ==> charIndex !in list[i].indices
  {
    for i := 0 to |list|
      invariant forall j :: 0 <= j < i ==> charIndex !in list[j].indices
    {
      if charIndex in list[i].indices {
        return i;
      }
    }
    return -1;
  }

  // ---------------------------------------------------------------------
  // The composable's state and actions

  class Session {
    const store: Store
    /** The item being edited, or -1 when a new item is being made. */
    var editingIndex: int

    constructor (store: Store)
      ensures this.store == store && editingIndex == -1
    {
      this.store := store;
      editingIndex := -1;
    }

    /** `toggleIndex`. */
    method ToggleIndex(index: int, mode: bool)
      modifies store
      ensures store.Snapshot() == old(store.Snapshot()).(selected := if mode then old(store.selected) + {index} else old(store.selected) - {index})
    {
      if mode {
        store.AddSelectedIndex(index);
      } else {
        store.RemoveSelectedIndex(index);
      }
    }

    /** `toggleCell`: every index of the cell is selected, or deselected. */
    method ToggleCell(cell: CharCell, mode: bool)
      modifies store
      ensures store.Snapshot() == old(store.Snapshot()).(selected :=
        if mode then old(store.selected) + Elements(CellIndices(cell))
        else old(store.selected) - Elements(CellIndices(cell)))
    {
      var indices := GetCellIndices(cell);
      for k := 0 to |indices|
        invariant store.Snapshot() == old(store.Snapshot()).(selected :=
          if mode then old(store.selected) + Elements(indices[..k])
          else old(store.selected) - Elements(indices[..k]))
      {
        assert Elements(indices[..k + 1]) == Elements(indices[..k]) + {indices[k]} by {
          assert indices[..k + 1] == indices[..k] + [indices[k]];
        }
        ToggleIndex(indices[k], mode);
      }
      assert indices[..|indices|] == indices;
    }

    /** `initSelection`: only a text that is not blank opens the grid. */
    method InitSelection()
      modifies store
      ensures IsBlank(old(store.rawText)) ==> store.Snapshot() == old(store.Snapshot())
      ensures !IsBlank(old(store.rawText)) ==>
        store.Snapshot() == old(store.Snapshot()).(currentStep := SelectStep, innerTab := SelectTab)
    {
      if !IsBlank(store.rawText) {
        store.EnterSelectMode();
      }
    }

    /** `handleAction`: extract the selection as a new item, or as the new
        content of the item being edited. */
    method HandleAction()
      modifies this, store
      ensures (store.Snapshot(), editingIndex) == Action(old(store.Snapshot()), old(editingIndex))
    {
      if store.selected == {} {
        return;
      }
      var indices := SortIndices(store.selected);
      var text := DropBlankLines(CharsAt(store.rawText, indices));
      if IsBlank(text) {
        return;
      }
      var color := if editingIndex == -1 then GetColor(|store.extractedList|) else ItemColor(store.extractedList, editingIndex);
      var item := ExtractedItem(text, indices, color);
      if editingIndex == -1 {
        store.AddExtractedItem(item);
      } else {
        store.UpdateExtractedItem(editingIndex, item);
        editingIndex := -1;
      }
      store.ClearSelectedIndices();
    }

    /** `editItem`: start editing; an existing item's indices become the
        selection and the grid tab is shown. */
    method EditItem(index: int)
      modifies this, store
      ensures editingIndex == index
      ensures 0 <= index < |old(store.extractedList)| ==>
        store.Snapshot() == old(store.Snapshot()).(
          selected := Elements(old(store.extractedList)[index].indices), innerTab := SelectTab)
      ensures !(0 <= index < |old(store.extractedList)|) ==> store.Snapshot() == old(store.Snapshot())
    {
      editingIndex := index;
      if 0 <= index < |store.extractedList| {
        var item := store.extractedList[index];
        store.SetSelectedIndices(Elements(item.indices));
        store.innerTab := SelectTab;
      }
    }

    /** `removeItem`: editing stops, and the selection is cleared, only
        when the removed slot is the one being edited. */
    method RemoveItem(index: int)
      modifies this, store
      ensures store.Snapshot() == old(store.Snapshot()).(
        extractedList := RemoveAt(old(store.extractedList), index),
        selected := if old(editingIndex) == index then {} else old(store.selected))
      ensures editingIndex == if old(editingIndex) == index then -1 else old(editingIndex)
    {
      store.RemoveExtractedItem(index);
      if editingIndex == index {
        editingIndex := -1;
        store.ClearSelectedIndices();
      }
    }

    /** `clearSymbols`: drop every symbol from the text; when that changes
        the text, the indices are stale, so the selection and the list are
        emptied and editing stops. */
    method ClearSymbols()
      modifies this, store
      ensures StripSymbols(old(store.rawText)) == old(store.rawText) ==>
        store.Snapshot() == old(store.Snapshot()) && editingIndex == old(editingIndex)
      ensures StripSymbols(old(store.rawText)) != old(store.rawText) ==>
        store.Snapshot() == old(store.Snapshot()).(
          rawText := StripSymbols(old(store.rawText)), selected := {}, extractedList := [])
        && editingIndex == -1
    {
      var newText := StripSymbols(store.rawText);
      if store.rawText != newText {
        store.rawText := newText;
        store.ClearSelectedIndices();
        store.ClearExtractedList();
        editingIndex := -1;
      }
    }

    /** `selectAll`. */
    method SelectAll()
      modifies store
      ensures store.Snapshot() == old(store.Snapshot()).(selected := EligibleSet(old(store.rawText), old(store.hideSpaces)))
    {
      var raw := store.rawText;
      var newSet: set<int> := {};
      for i := 0 to |raw|
        invariant forall x :: x in newSet <==> 0 <= x < i && Eligible(raw, store.hideSpaces, x)
      {
        if !store.hideSpaces || !IsWhitespace(raw[i]) {
          newSet := newSet + {i};
        }
      }
      assert newSet == EligibleSet(raw, store.hideSpaces);
      store.SetSelectedIndices(newSet);
    }

    /** `invertSelection`. */
    method InvertSelection()
      modifies store
      ensures store.Snapshot() == old(store.Snapshot()).(
        selected := Inverted(old(store.rawText), old(store.hideSpaces), old(store.selected)))
    {
      var raw := store.rawText;
      var newSet: set<int> := {};
      for i := 0 to |raw|
        invariant forall x :: x in newSet <==> 0 <= x < i && Eligible(raw, store.hideSpaces, x) && x !in store.selected
      {
        if !store.hideSpaces || !IsWhitespace(raw[i]) {
          if i !in store.selected {
            newSet := newSet + {i};
          }
        }
      }
      assert newSet == Inverted(raw, store.hideSpaces, store.selected);
      store.SetSelectedIndices(newSet);
    }

    /** `clearAllResults`: with a non-empty list and the user's
        confirmation, the list and the selection are emptied and editing
        stops. */
    method ClearAllResults(confirmed: bool)
      modifies this, store
      ensures old(store.extractedList) != [] && confirmed ==>
        store.Snapshot() == old(store.Snapshot()).(extractedList := [], selected := {}) && editingIndex == -1
      ensures !(old(store.extractedList) != [] && confirmed) ==>
        store.Snapshot() == old(store.Snapshot()) && editingIndex == old(editingIndex)
    {
      if store.extractedList == [] {
        return;
      }
      if confirmed {
        store.ClearExtractedList();
        editingIndex := -1;
        store.ClearSelectedIndices();
      }
    }

    /** `getExtractedColor`. */
    function ExtractedColor(itemIndex: int): string
      reads store
    {
      ItemColor(store.extractedList, itemIndex)
    }

    /** `getExtractedItemIndex`. */
    method GetExtractedItemIndex(charIndex: int) returns (r: int)
      ensures -1 <= r < |store.extractedList|
      ensures r == -1 <==> forall i :: 0 <= i < |store.extractedList| ==> charIndex !in store.extractedList[i].indices
      ensures r >= 0 ==> charIndex in store.extractedList[r].indices
      ensures r >= 0 ==> forall i :: 0 <= i < r ==> charIndex !in store.extractedList[i].indices
    {
      r := FindItemIndex(store.extractedList, charIndex);
    }
  }
}
