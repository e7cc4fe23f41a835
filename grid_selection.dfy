/**
 * Drag selection over the character grid (`useGridSelection.ts`). Pressing
 * on a cell decides, from whether the whole cell is already selected,
 * whether this drag selects or deselects; the change is applied at once.
 * Cells the cursor then passes over are queued in a map from index to
 * "select?" and applied to the selection in one batch. The element under
 * the cursor is an input here: the DOM lookup that finds it is not
 * modelled, and an animation-frame callback runs as soon as it is
 * requested.
 */
module GridSelection {
  import opened JsString
  import opened Types
  import Extractor
  import opened ExtractorStore

  /** The `data-*` attributes of the element under the cursor. */
  datatype CellElement = CellElement(index: Option<string>, grouped: Option<string>, groupLength: Option<string>)

  /** What `getSelectionInfo` reads off a cell; a `groupLength` of None is
      NaN. */
  datatype SelectionInfo = SelectionInfo(index: int, isGrouped: bool, groupLength: Option<int>)

  /** `getSelectionInfo`: no element, no `data-index`, or an index that
      does not parse gives null; a missing or empty `data-group-length`
      reads as 1. */
  function GetSelectionInfo(el: Option<CellElement>): (r: Option<SelectionInfo>)
    ensures r.Some? <==> el.Some? && el.value.index.Some? && ParseInt(el.value.index.value).Some?
    ensures r.Some? ==> r.value.index == ParseInt(el.value.index.value).value
    ensures r.Some? ==> (r.value.isGrouped <==> el.value.grouped == Some("true"))
    ensures r.Some? && (el.value.groupLength.None? || el.value.groupLength == Some([])) ==>
      r.value.groupLength == Some(1)
  {
    if el.None? || el.value.index.None? then None
    else
      var index := ParseInt(el.value.index.value);
      if index.None? then None
      else
        var lengthText := if el.value.groupLength.Some? && el.value.groupLength.value != [] then el.value.groupLength.value else "1";
        assert ParseInt("1") == Some(1) by {
          ParseDigits("1");
          assert DigitsValue("1") == 1 by {
            assert "1"[..0] == [];
          }
        }
        Some(SelectionInfo(index.value, el.value.grouped == Some("true"), ParseInt(lengthText)))
  }

  /** What this file's `getCellIndices(info)` returns: the range a grouped
      cell of length above 1 covers, otherwise the cell's own index. */
  function GridCellIndices(info: SelectionInfo): seq<int>
  {
    if info.isGrouped && info.groupLength.Some? && info.groupLength.value > 1 then
      Extractor.Range(info.index, info.index + info.groupLength.value)
    else
      [info.index]
  }

  method GetCellIndices(info: SelectionInfo) returns (indices: seq<int>)
    ensures indices == GridCellIndices(info)
  {
    if info.isGrouped && info.groupLength.Some? && info.groupLength.value > 1 {
      indices := [];
      for i := 0 to info.groupLength.value
        invariant indices == Extractor.Range(info.index, info.index + i)
      {
        indices := indices + [info.index + i];
      }
    } else {
      indices := [info.index];
    }
  }

  /** A cell of the extractor's grid, read back with its index, grouping
      and length, covers the same indices in both files. */
  lemma GridAgreesWithCells(text: string, k: nat)
    requires k < |Extractor.CharList(text)|
    ensures var c := Extractor.CharList(text)[k];
      GridCellIndices(SelectionInfo(c.index, c.isGrouped, Some(|c.ch|))) == Extractor.CellIndices(c)
  {
    Extractor.CharListShape(text);
  }

  /** The selection after the queued changes are applied: a queued index
      is selected exactly when its entry says so; others keep their
      state. */
  function Flushed(sel: set<int>, pending: map<int, bool>): set<int>
  {
    set x | x in sel + pending.Keys && (if x in pending then pending[x] else x in sel)
  }

  lemma FlushedMember(sel: set<int>, pending: map<int, bool>, x: int)
    ensures x in Flushed(sel, pending) <==> if x in pending then pending[x] else x in sel
  {
  }

  /** Flushing an empty queue changes nothing; flushing twice is flushing
      once; a queue whose entries all say the same adds, or removes,
      exactly its indices. */
  lemma FlushedSpec(sel: set<int>, pending: map<int, bool>, mode: bool)
    ensures Flushed(sel, map[]) == sel
    ensures Flushed(Flushed(sel, pending), pending) == Flushed(sel, pending)
    ensures (forall x :: x in pending ==> pending[x] == mode) ==>
      Flushed(sel, pending) == if mode then sel + pending.Keys else sel - pending.Keys
  {
    var f := Flushed(sel, pending);
    forall x
      ensures x in Flushed(sel, map[]) <==> x in sel
      ensures x in Flushed(f, pending) <==> x in f
    {
      FlushedMember(sel, map[], x);
      FlushedMember(f, pending, x);
      FlushedMember(sel, pending, x);
    }
    if forall x :: x in pending ==> pending[x] == mode {
      forall x
        ensures x in f <==> x in (if mode then sel + pending.Keys else sel - pending.Keys)
      {
        FlushedMember(sel, pending, x);
      }
    }
  }

  /** The indices of a cell queued with one mode. */
  function Queued(pending: map<int, bool>, idx: seq<int>, mode: bool): (r: map<int, bool>)
  {
    pending + map x | x in idx :: mode
  }

  /** Queuing one more index of the cell. */
  lemma QueuedStep(pending: map<int, bool>, idx: seq<int>, k: nat, mode: bool)
    requires k < |idx|
    ensures Queued(pending, idx[..k + 1], mode) == Queued(pending, idx[..k], mode)[idx[k] := mode]
  {
    var a := Queued(pending, idx[..k + 1], mode);
    var b := Queued(pending, idx[..k], mode)[idx[k] := mode];
    assert idx[..k + 1] == idx[..k] + [idx[k]];
    assert forall x :: x in idx[..k + 1] <==> x in idx[..k] || x == idx[k];
    assert a.Keys == b.Keys;
    forall x | x in a
      ensures a[x] == b[x]
    {
    }
  }

  class Selection {
    /** The selection this composable edits (the store's index set). */
    var selected: set<int>
    var isDragging: bool
    /** true: this drag selects; false: it deselects. */
    var dragMode: bool
    var lastProcessedIndex: Option<int>
    var isTouchDevice: bool
    var pendingChanges: map<int, bool>

    /** Between two events nothing is queued, and a cursor that is not
        dragging has no last cell. */
    predicate Valid()
      reads this
    {
      pendingChanges == map[] && (!isDragging ==> lastProcessedIndex.None?)
    }

    constructor (selected: set<int>)
      ensures Valid()
      ensures this.selected == selected && !isDragging && dragMode && !isTouchDevice
    {
      this.selected := selected;
      isDragging := false;
      dragMode := true;
      lastProcessedIndex := None;
      isTouchDevice := false;
      pendingChanges := map[];
    }

    /** `flushPendingChanges`. */
    method FlushPendingChanges()
      modifies this
      ensures selected == Flushed(old(selected), old(pendingChanges))
      ensures pendingChanges == map[]
      ensures isDragging == old(isDragging) && dragMode == old(dragMode)
      ensures lastProcessedIndex == old(lastProcessedIndex) && isTouchDevice == old(isTouchDevice)
    {
      if |pendingChanges| == 0 {
        assert pendingChanges == map[];
        FlushedSpec(selected, pendingChanges, true);
        return;
      }
      var newSet := selected;
      var todo := pendingChanges.Keys;
      while todo != {}
        invariant unchanged(this)
        invariant todo <= pendingChanges.Keys
        invariant forall x :: x in newSet <==>
          if x in pendingChanges && x !in todo then pendingChanges[x] else x in selected
        decreases |todo|
      {
        Extractor.HasElement(todo);
        var index :| index in todo;
        if pendingChanges[index] {
          newSet := newSet + {index};
        } else {
          newSet := newSet - {index};
        }
        todo := todo - {index};
      }
      forall x
        ensures x in newSet <==> x in Flushed(selected, pendingChanges)
      {
        FlushedMember(selected, pendingChanges, x);
      }
      selected := newSet;
      pendingChanges := map[];
    }

    /** `queueIndexChange`: a later entry for an index replaces an earlier
        one. */
    method QueueIndexChange(index: int, shouldSelect: bool)
      modifies this
      ensures pendingChanges == old(pendingChanges)[index := shouldSelect]
      ensures selected == old(selected) && isDragging == old(isDragging) && dragMode == old(dragMode)
      ensures lastProcessedIndex == old(lastProcessedIndex) && isTouchDevice == old(isTouchDevice)
    {
      pendingChanges := pendingChanges[index := shouldSelect];
    }

    /** `processCellImmediate`: the cell's indices are added or removed
        at once, according to the drag mode. */
    method ProcessCellImmediate(info: SelectionInfo)
      modifies this
      ensures selected == if dragMode then old(selected) + Elements(GridCellIndices(info))
                          else old(selected) - Elements(GridCellIndices(info))
      ensures pendingChanges == old(pendingChanges) && isDragging == old(isDragging) && dragMode == old(dragMode)
      ensures lastProcessedIndex == old(lastProcessedIndex) && isTouchDevice == old(isTouchDevice)
    {
      var indices := GetCellIndices(info);
      var newSet := selected;
      for k := 0 to |indices|
        invariant newSet == if dragMode then selected + Elements(indices[..k]) else selected - Elements(indices[..k])
      {
        assert indices[..k + 1] == indices[..k] + [indices[k]];
        if dragMode {
          newSet := newSet + {indices[k]};
        } else {
          newSet := newSet - {indices[k]};
        }
      }
      assert indices[..|indices|] == indices;
      selected := newSet;
    }

    /** `processCellQueued`: every index of the cell is queued with the
        drag mode. */
    method ProcessCellQueued(info: SelectionInfo)
      modifies this
      ensures pendingChanges == Queued(old(pendingChanges), GridCellIndices(info), dragMode)
      ensures selected == old(selected) && isDragging == old(isDragging) && dragMode == old(dragMode)
      ensures lastProcessedIndex == old(lastProcessedIndex) && isTouchDevice == old(isTouchDevice)
    {
      var indices := GetCellIndices(info);
      for k := 0 to |indices|
        invariant pendingChanges == Queued(old(pendingChanges), indices[..k], dragMode)
        invariant selected == old(selected) && isDragging == old(isDragging) && dragMode == old(dragMode)
        invariant lastProcessedIndex == old(lastProcessedIndex) && isTouchDevice == old(isTouchDevice)
      {
        QueuedStep(old(pendingChanges), indices, k, dragMode);
        QueueIndexChange(indices[k], dragMode);
      }
      assert indices[..|indices|] == indices;
    }

    /** The state `handleSelectionStart` leaves: on a cell, the drag starts
        in deselect mode exactly when the whole cell is selected, and the
        cell is toggled at once; off a cell nothing changes. */
    twostate predicate Started(target: Option<CellElement>)
      reads this
    {
      && (GetSelectionInfo(target).None? ==>
            selected == old(selected) && isDragging == old(isDragging) && dragMode == old(dragMode)
            && lastProcessedIndex == old(lastProcessedIndex))
      && (GetSelectionInfo(target).Some? ==>
            var info := GetSelectionInfo(target).value;
            && isDragging
            && (dragMode <==> !(Elements(GridCellIndices(info)) <= old(selected)))
            && selected == (if dragMode then old(selected) + Elements(GridCellIndices(info))
                            else old(selected) - Elements(GridCellIndices(info)))
            && lastProcessedIndex == Some(info.index))
    }

    /** The state the move-then-flush drag step leaves: while dragging onto
        a cell other than the last one, its indices are applied in the drag
        mode and it becomes the last cell; otherwise nothing changes. */
    twostate predicate MovedAndFlushed(target: Option<CellElement>)
      reads this
    {
      var info := GetSelectionInfo(target);
      if isDragging && info.Some? && old(lastProcessedIndex) != Some(info.value.index) then
        selected == Flushed(old(selected), Queued(map[], GridCellIndices(info.value), dragMode))
        && lastProcessedIndex == Some(info.value.index)
      else
        selected == old(selected) && lastProcessedIndex == old(lastProcessedIndex)
    }

    /** `handleSelectionStart`. */
    method HandleSelectionStart(target: Option<CellElement>)
      modifies this
      ensures Started(target)
      ensures pendingChanges == old(pendingChanges) && isTouchDevice == old(isTouchDevice)
    {
      var info := GetSelectionInfo(target);
      if info.Some? {
        isDragging := true;
        var indices := GetCellIndices(info.value);
        dragMode := !(forall k :: 0 <= k < |indices| ==> indices[k] in selected);
        ProcessCellImmediate(info.value);
        lastProcessedIndex := Some(info.value.index);
      }
    }

    /** `handleSelectionMove`: while dragging, a cell other than the last
        one is queued. */
    method HandleSelectionMove(target: Option<CellElement>)
      modifies this
      ensures var info := GetSelectionInfo(target);
        if isDragging && info.Some? && old(lastProcessedIndex) != Some(info.value.index) then
          pendingChanges == Queued(old(pendingChanges), GridCellIndices(info.value), dragMode)
          && lastProcessedIndex == Some(info.value.index)
        else
          pendingChanges == old(pendingChanges) && lastProcessedIndex == old(lastProcessedIndex)
      ensures selected == old(selected) && isDragging == old(isDragging) && dragMode == old(dragMode)
      ensures isTouchDevice == old(isTouchDevice)
    {
      if !isDragging {
        return;
      }
      var info := GetSelectionInfo(target);
      if info.Some? && lastProcessedIndex != Some(info.value.index) {
        ProcessCellQueued(info.value);
        lastProcessedIndex := Some(info.value.index);
      }
    }

    /** `handleSelectionEnd`. */
    method HandleSelectionEnd()
      modifies this
      ensures Valid()
      ensures selected == Flushed(old(selected), old(pendingChanges))
      ensures !isDragging && dragMode == old(dragMode) && isTouchDevice == old(isTouchDevice)
    {
      FlushPendingChanges();
      isDragging := false;
      lastProcessedIndex := None;
    }

    /** `onTouchStart`; `hasTouch` is false for an event with no touch
        point. */
    method OnTouchStart(hasTouch: bool, target: Option<CellElement>)
      requires Valid()
      modifies this
      ensures Valid() && isTouchDevice
      ensures !hasTouch ==> selected == old(selected) && isDragging == old(isDragging)
      ensures hasTouch ==> Started(target)
    {
      isTouchDevice := true;
      if !hasTouch {
        return;
      }
      HandleSelectionStart(target);
    }

    /** The drag step `onTouchMove` and `onMouseMove` schedule: move, then
        flush. */
    method MoveAndFlush(target: Option<CellElement>)
      requires Valid()
      modifies this
      ensures Valid() && MovedAndFlushed(target)
      ensures isDragging == old(isDragging) && dragMode == old(dragMode) && isTouchDevice == old(isTouchDevice)
    {
      if isDragging {
        HandleSelectionMove(target);
        FlushPendingChanges();
      }
    }

    /** `onTouchMove`. */
    method OnTouchMove(hasTouch: bool, target: Option<CellElement>)
      requires Valid()
      modifies this
      ensures Valid()
      ensures !old(isDragging) || !hasTouch ==> selected == old(selected) && lastProcessedIndex == old(lastProcessedIndex)
      ensures old(isDragging) && hasTouch ==> MovedAndFlushed(target)
      ensures isDragging == old(isDragging) && dragMode == old(dragMode) && isTouchDevice == old(isTouchDevice)
    {
      if !isDragging || !hasTouch {
        return;
      }
      MoveAndFlush(target);
    }

    /** `onTouchEnd` and `onTouchCancel`; the timer that later clears the
        touch flag is `TouchFlagTimeout`. */
    method OnTouchEnd()
      requires Valid()
      modifies this
      ensures Valid() && !isDragging && selected == old(selected) && isTouchDevice == old(isTouchDevice)
    {
      HandleSelectionEnd();
      FlushedSpec(old(selected), map[], true);
    }

    method TouchFlagTimeout()
      modifies this
      ensures !isTouchDevice
      ensures selected == old(selected) && isDragging == old(isDragging) && pendingChanges == old(pendingChanges)
      ensures lastProcessedIndex == old(lastProcessedIndex) && dragMode == old(dragMode)
    {
      isTouchDevice := false;
    }

    /** `onMouseDown`: ignored right after a touch, and for any button but
        the main one. */
    method OnMouseDown(button: int, target: Option<CellElement>)
      requires Valid()
      modifies this
      ensures Valid()
      ensures old(isTouchDevice) || button != 0 ==>
        selected == old(selected) && isDragging == old(isDragging) && lastProcessedIndex == old(lastProcessedIndex)
      ensures !old(isTouchDevice) && button == 0 ==> Started(target)
      ensures isTouchDevice == old(isTouchDevice)
    {
      if isTouchDevice || button != 0 {
        return;
      }
      HandleSelectionStart(target);
    }

    method OnMouseMove(target: Option<CellElement>)
      requires Valid()
      modifies this
      ensures Valid()
      ensures old(isTouchDevice) || !old(isDragging) ==> selected == old(selected) && lastProcessedIndex == old(lastProcessedIndex)
      ensures !old(isTouchDevice) && old(isDragging) ==> MovedAndFlushed(target)
      ensures isDragging == old(isDragging) && dragMode == old(dragMode) && isTouchDevice == old(isTouchDevice)
    {
      if isTouchDevice || !isDragging {
        return;
      }
      MoveAndFlush(target);
    }

    method OnMouseUp()
      requires Valid()
      modifies this
      ensures Valid() && selected == old(selected)
      ensures old(isTouchDevice) ==> isDragging == old(isDragging)
      ensures !old(isTouchDevice) ==> !isDragging
    {
      if isTouchDevice {
        return;
      }
      HandleSelectionEnd();
      FlushedSpec(old(selected), map[], true);
    }

    method OnMouseLeave()
      requires Valid()
      modifies this
      ensures Valid() && selected == old(selected)
      ensures old(isTouchDevice) ==> isDragging == old(isDragging)
      ensures !old(isTouchDevice) ==> !isDragging
    {
      if isTouchDevice {
        return;
      }
      if isDragging {
        HandleSelectionEnd();
        FlushedSpec(old(selected), map[], true);
      }
    }
  }
}
