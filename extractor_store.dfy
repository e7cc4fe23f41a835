/**
 * The extractor's store (`extractor.store.ts`): the text the user pasted,
 * the list of extracted items (newest first), the set of selected
 * character indices and the screen the extractor shows. The store is
 * loaded once from local storage, where each item's text is cleaned and
 * its colour filled in; writing back to storage is not modelled.
 */
module ExtractorStore {
  import opened JsString
  import opened Types

  /** `COLOR_PALETTE`: the colours extracted items cycle through. */
  const Palette: seq<string> := [
    "#6366f1", "#8b5cf6", "#ec4899", "#ef4444", "#f59e0b",
    "#10b981", "#06b6d4", "#3b82f6", "#d946ef", "#f97316"]

  /** `getColor(index)`: `COLOR_PALETTE[index % 10]` with JavaScript's
      truncating `%`. A negative index that is not a multiple of ten reads
      past the palette and yields `undefined`, here the empty string (both
      are falsy); a multiple of ten, even a negative one, gives the first
      colour. */
  function GetColor(index: int): (c: string)
    ensures index >= 0 ==> c == Palette[index % |Palette|]
  {
    if index % 10 == 0 then Palette[0]
    else if index > 0 then Palette[index % 10]
    else []
  }

  /** Colours repeat every ten items, and every item gets one. */
  lemma ColorCycle(i: nat)
    ensures GetColor(i) in Palette && GetColor(i) != []
    ensures GetColor(i + 10) == GetColor(i)
  {
    assert (i + 10) % 10 == i % 10;
    assert |Palette[i % 10]| == 7;
  }

  // ---------------------------------------------------------------------
  // Cleaning stored text

  /** The lines that are not white space only, in order. */
  function NonBlankLines(lines: seq<string>): (r: seq<string>)
    ensures forall i :: 0 <= i < |r| ==> !IsBlank(r[i]) && r[i] in lines
  {
    if lines == [] then []
    else (if IsBlank(lines[0]) then [] else [lines[0]]) + NonBlankLines(lines[1..])
  }

  /** `text.split("\n").filter(l => l.trim()).join("\n")`. */
  function DropBlankLines(text: string): string
  {
    Join(NonBlankLines(Split(text, '\n')), "\n")
  }

  lemma {:induction false} NonBlankKeepsAll(lines: seq<string>)
    requires forall i :: 0 <= i < |lines| ==> !IsBlank(lines[i])
    ensures NonBlankLines(lines) == lines
  {
    if lines != [] {
      NonBlankKeepsAll(lines[1..]);
    }
  }

  /** A non-empty join starts with its first part. */
  lemma JoinStartsWithFirst(parts: seq<string>, sep: string)
    requires parts != []
    ensures |parts[0]| <= |Join(parts, sep)| && Join(parts, sep)[..|parts[0]|] == parts[0]
  {
    var j := Join(parts, sep);
    if |parts| > 1 {
      assert j == parts[0] + sep + Join(parts[1..], sep);
    }
  }

  /** Cleaning keeps some text exactly when some line is not blank, and
      the cleaned text is blank only when it is empty. */
  lemma DropBlankLinesBlank(text: string)
    ensures IsBlank(DropBlankLines(text)) <==> NonBlankLines(Split(text, '\n')) == []
    ensures IsBlank(DropBlankLines(text)) <==> DropBlankLines(text) == []
  {
    var lines := NonBlankLines(Split(text, '\n'));
    if lines != [] {
      JoinStartsWithFirst(lines, "\n");
      var j := Join(lines, "\n");
      assert !IsBlank(lines[0]);
      var m :| 0 <= m < |lines[0]| && !IsWhitespace(lines[0][m]);
      assert j[..|lines[0]|][m] == j[m];
    }
  }

  /** Cleaning twice is cleaning once. */
  lemma DropBlankLinesIdempotent(text: string)
    ensures DropBlankLines(DropBlankLines(text)) == DropBlankLines(text)
  {
    var lines := NonBlankLines(Split(text, '\n'));
    var once := Join(lines, "\n");
    if lines == [] {
      assert once == [];
      assert Split(once, '\n') == [[]];
      assert IsBlank([]);
    } else {
      assert forall i :: 0 <= i < |lines| ==> '\n' !in lines[i];
      SplitJoin(lines, '\n');
      NonBlankKeepsAll(lines);
    }
  }

  // ---------------------------------------------------------------------
  // Loading the stored list

  /** An item as local storage may hold it: any property may be missing,
      and `indices` may not be an array (None). */
  datatype StoredItem = StoredItem(text: Option<string>, indices: Option<seq<int>>, color: Option<string>)

  /** The clean-up applied to the item at position `pos` of the stored
      list. */
  function Normalize(item: StoredItem, pos: nat): ExtractedItem
  {
    ExtractedItem(
      DropBlankLines(if item.text.Some? then item.text.value else []),
      if item.indices.Some? then item.indices.value else [],
      if item.color.Some? && item.color.value != [] then item.color.value else GetColor(pos))
  }

  /** The list the store starts with: each item cleaned, then the ones
      whose text is blank dropped. */
  function LoadItems(stored: seq<StoredItem>): seq<ExtractedItem>
  {
    if stored == [] then []
    else
      var item := Normalize(stored[|stored| - 1], |stored| - 1);
      LoadItems(stored[..|stored| - 1]) + (if !IsBlank(item.text) then [item] else [])
  }

  /** An item that loading leaves as it is: clean, non-blank text and a
      colour. */
  predicate Stable(item: ExtractedItem)
  {
    !IsBlank(item.text) && DropBlankLines(item.text) == item.text && item.color != []
  }

  /** What the store writes back for an item. */
  function Save(items: seq<ExtractedItem>): seq<StoredItem>
  {
    seq(|items|, i requires 0 <= i < |items| => StoredItem(Some(items[i].text), Some(items[i].indices), Some(items[i].color)))
  }

  lemma NormalizeStable(item: StoredItem, pos: nat)
    requires !IsBlank(Normalize(item, pos).text)
    ensures Stable(Normalize(item, pos))
  {
    DropBlankLinesIdempotent(if item.text.Some? then item.text.value else []);
    ColorCycle(pos);
  }

  /** Every loaded item is stable, and loading never adds items. */
  lemma {:induction false} LoadItemsStable(stored: seq<StoredItem>)
    ensures |LoadItems(stored)| <= |stored|
    ensures forall i :: 0 <= i < |LoadItems(stored)| ==> Stable(LoadItems(stored)[i])
  {
    if stored != [] {
      var pos := |stored| - 1;
      var init := LoadItems(stored[..pos]);
      var item := Normalize(stored[pos], pos);
      LoadItemsStable(stored[..pos]);
      var tail := if !IsBlank(item.text) then [item] else [];
      if !IsBlank(item.text) {
        NormalizeStable(stored[pos], pos);
      }
      assert LoadItems(stored) == init + tail;
      forall i | 0 <= i < |init + tail|
        ensures Stable((init + tail)[i])
      {
        if i < |init| {
          assert (init + tail)[i] == init[i];
        } else {
          assert (init + tail)[i] == item;
        }
      }
    }
  }

  /** Saving stable items and loading them again gives them back. */
  lemma {:induction false} SaveLoad(items: seq<ExtractedItem>)
    requires forall i :: 0 <= i < |items| ==> Stable(items[i])
    ensures LoadItems(Save(items)) == items
  {
    if items != [] {
      var pos := |items| - 1;
      var init := items[..pos];
      var stored := Save(items);
      assert stored[..pos] == Save(init);
      SaveLoad(init);
      var last := items[pos];
      assert stored[pos] == StoredItem(Some(last.text), Some(last.indices), Some(last.color));
      assert Normalize(stored[pos], pos) == last;
      assert LoadItems(stored) == LoadItems(stored[..pos]) + [last];
      FrontLast(items);
    }
  }

  // ---------------------------------------------------------------------
  // The store

  datatype Step = InputStep | SelectStep

  datatype Tab = SelectTab | ListTab

  datatype PreviewMode = Full | Simple | Off

  /** The persisted state, already merged with the defaults. */
  datatype StoredState = StoredState(
    currentStep: Step,
    innerTab: Tab,
    rawText: string,
    extractedList: seq<StoredItem>,
    selectedIndices: seq<int>,
    hideSpaces: bool,
    previewMode: PreviewMode,
    symbolsCleared: bool)

  /** Everything the store holds, as one value. */
  datatype State = State(
    currentStep: Step,
    innerTab: Tab,
    rawText: string,
    hideSpaces: bool,
    previewMode: PreviewMode,
    symbolsCleared: bool,
    extractedList: seq<ExtractedItem>,
    selected: set<int>)

  /** `removeExtractedItem`'s `splice(index, 1)` when the index is in range. */
  function RemoveAt(list: seq<ExtractedItem>, index: int): (r: seq<ExtractedItem>)
  {
    if 0 <= index < |list| then list[..index] + list[index + 1..] else list
  }

  /** Removing an item in range shortens the list by one and keeps the
      others in order; any other index changes nothing. */
  lemma RemoveAtSpec(list: seq<ExtractedItem>, index: int)
    ensures !(0 <= index < |list|) ==> RemoveAt(list, index) == list
    ensures 0 <= index < |list| ==>
      |RemoveAt(list, index)| == |list| - 1
      && (forall j :: 0 <= j < index ==> RemoveAt(list, index)[j] == list[j])
      && (forall j :: index <= j < |list| - 1 ==> RemoveAt(list, index)[j] == list[j + 1])
  {
  }

  /** `updateExtractedItem`'s assignment when the index is in range. */
  function UpdateAt(list: seq<ExtractedItem>, index: int, item: ExtractedItem): (r: seq<ExtractedItem>)
  {
    if 0 <= index < |list| then list[index := item] else list
  }

  /** The elements of a stored index list. */
  function Elements(s: seq<int>): (r: set<int>)
    ensures forall x :: x in r <==> x in s
  {
    set x | x in s
  }

  class Store {
    var currentStep: Step
    var innerTab: Tab
    var rawText: string
    var hideSpaces: bool
    var previewMode: PreviewMode
    var symbolsCleared: bool
    var extractedList: seq<ExtractedItem>
    var selected: set<int>

    function Snapshot(): State
      reads this
    {
      State(currentStep, innerTab, rawText, hideSpaces, previewMode, symbolsCleared, extractedList, selected)
    }

    /** The store as loaded from storage. */
    constructor (stored: StoredState)
      ensures Snapshot() == State(
        stored.currentStep, stored.innerTab, stored.rawText, stored.hideSpaces, stored.previewMode,
        stored.symbolsCleared, LoadItems(stored.extractedList), Elements(stored.selectedIndices))
    {
      currentStep := stored.currentStep;
      innerTab := stored.innerTab;
      rawText := stored.rawText;
      hideSpaces := stored.hideSpaces;
      previewMode := stored.previewMode;
      symbolsCleared := stored.symbolsCleared;
      extractedList := LoadItems(stored.extractedList);
      selected := Elements(stored.selectedIndices);
    }

    /** `addExtractedItem`: the newest item goes first. */
    method AddExtractedItem(item: ExtractedItem)
      modifies this
      ensures Snapshot() == old(Snapshot()).(extractedList := [item] + old(extractedList))
    {
      extractedList := [item] + extractedList;
    }

    method UpdateExtractedItem(index: int, item: ExtractedItem)
      modifies this
      ensures Snapshot() == old(Snapshot()).(extractedList := UpdateAt(old(extractedList), index, item))
    {
      if index >= 0 && index < |extractedList| {
        extractedList := extractedList[index := item];
      }
    }

    method RemoveExtractedItem(index: int)
      modifies this
      ensures Snapshot() == old(Snapshot()).(extractedList := RemoveAt(old(extractedList), index))
    {
      if index >= 0 && index < |extractedList| {
        extractedList := extractedList[..index] + extractedList[index + 1..];
      }
    }

    method ClearExtractedList()
      modifies this
      ensures Snapshot() == old(Snapshot()).(extractedList := [])
    {
      extractedList := [];
    }

    method SetSelectedIndices(indices: set<int>)
      modifies this
      ensures Snapshot() == old(Snapshot()).(selected := indices)
    {
      selected := indices;
    }

    method AddSelectedIndex(index: int)
      modifies this
      ensures Snapshot() == old(Snapshot()).(selected := old(selected) + {index})
    {
      selected := selected + {index};
    }

    method RemoveSelectedIndex(index: int)
      modifies this
      ensures Snapshot() == old(Snapshot()).(selected := old(selected) - {index})
    {
      selected := selected - {index};
    }

    method ClearSelectedIndices()
      modifies this
      ensures Snapshot() == old(Snapshot()).(selected := {})
    {
      selected := {};
    }

    /** `resetToInput`: back to the text box. */
    method ResetToInput()
      modifies this
      ensures Snapshot() == old(Snapshot()).(currentStep := InputStep, innerTab := SelectTab, symbolsCleared := false)
    {
      currentStep := InputStep;
      innerTab := SelectTab;
      symbolsCleared := false;
    }

    method EnterSelectMode()
      modifies this
      ensures Snapshot() == old(Snapshot()).(currentStep := SelectStep, innerTab := SelectTab)
    {
      currentStep := SelectStep;
      innerTab := SelectTab;
    }

    /** `resetAll`: the default state, with nothing extracted or selected. */
    method ResetAll()
      modifies this
      ensures Snapshot() == State(InputStep, SelectTab, [], false, Full, false, [], {})
    {
      currentStep := InputStep;
      innerTab := SelectTab;
      rawText := [];
      hideSpaces := false;
      previewMode := Full;
      symbolsCleared := false;
      extractedList := [];
      selected := {};
    }
  }
}
