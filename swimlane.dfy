/**
 * The stateful side of Swimlane.tsx: the refs, shared values and state that the
 * drag context's callbacks update, as the fields of one object. Shared values
 * (`offsetX`, `currentX`, ...) are plain fields, and React state setters assign
 * the field directly.
 */
module SwimlaneView {
  import opened Common
  import opened Helper
  import opened Registry
  import opened Keys
  import opened Grid

  /** `dragInfoRef.current`: the drag origin that `startDrag` receives. */
  datatype DragInfo = DragInfo(section: int, column: int, row: int, info: Option<Item>, startFrame: Rect)

  /** An entry `{ frame, row, sectionId }` of `sectionsInfoRef`. */
  datatype SectionFrame = SectionFrame(frame: Rect, row: nat, sectionId: nat)

  /** The key `${section}-${row}-${column}` of `dropInViews`. */
  datatype CellKey = CellKey(section: int, row: int, column: int)

  /** An entry `{ section, column, row, id, frame }` of `dropInViews`. */
  datatype DropInEntry = DropInEntry(section: int, column: int, row: int, id: ItemId, frame: Rect)

  /** The vertical test of calcSectionHover: exclusive at the top edge, inclusive at the bottom edge. */
  predicate SectionRowHit(frame: Rect, y: int)
  {
    y > frame.y && y <= frame.y + frame.height
  }

  /** A row is hit exactly inside `(frame.y, frame.y + height]`. */
  lemma SectionRowHitBounds(frame: Rect)
    requires frame.height >= 0
    ensures !SectionRowHit(frame, frame.y)
    ensures SectionRowHit(frame, frame.y + frame.height) <==> frame.height > 0
    ensures !SectionRowHit(frame, frame.y + frame.height + 1)
  {
  }

  /** The current section row after calcSectionHover at height `y`: the first hit row, or the old one on a miss. */
  function HoveredRow(reg: Reg<RowKey, SectionFrame>, y: int, current: Option<RowKey>): Option<RowKey>
  {
    match Find(reg, (e: SectionFrame) => SectionRowHit(e.frame, y))
    case Some(e) => Some(RowKey(e.sectionId, e.row))
    case None => current
  }

  /** The section registry's keys agree with its entries. */
  predicate SectionsKeyed(reg: Reg<RowKey, SectionFrame>)
  {
    UniqueKeys(reg) && forall e :: e in reg ==> e.0 == RowKey(e.1.sectionId, e.1.row)
  }

  /**
   * calcSectionHover picks the first registered row, in registration order, whose
   * frame contains `y`, and keeps the old current row when none does.
   */
  lemma HoveredRowIsFirstHit(reg: Reg<RowKey, SectionFrame>, y: int, current: Option<RowKey>)
    requires SectionsKeyed(reg)
    ensures (forall i :: 0 <= i < |reg| ==> !SectionRowHit(reg[i].1.frame, y)) ==> HoveredRow(reg, y, current) == current
    ensures (exists i :: 0 <= i < |reg| && SectionRowHit(reg[i].1.frame, y)) ==>
      exists i :: 0 <= i < |reg|
        && SectionRowHit(reg[i].1.frame, y)
        && HoveredRow(reg, y, current) == Some(reg[i].0)
        && forall j :: 0 <= j < i ==> !SectionRowHit(reg[j].1.frame, y)
  {
    var p := (e: SectionFrame) => SectionRowHit(e.frame, y);
    var o := FindIndex(reg, p);
    if o.Some? {
      assert reg[o.value] in reg;
    }
  }

  /** What savePosition does to `_data` and `dragInfoRef`. */
  function SaveEffect(data: seq<Item>, drag: Option<DragInfo>, target: Option<Target>): (seq<Item>, Option<DragInfo>)
  {
    if target.Some? && drag.Some? && drag.value.info.Some? then
      (Reorder(data, drag.value.info.value.id, target.value), None)
    else
      (data, drag)
  }

  /**
   * savePosition changes nothing unless there is a target and drag info with an item;
   * then it always clears the drag info, and leaves `_data` alone when the dragged id
   * is not in it. The ids stay distinct.
   */
  lemma SaveEffectSpec(data: seq<Item>, drag: Option<DragInfo>, target: Option<Target>)
    ensures !(target.Some? && drag.Some? && drag.value.info.Some?) ==> SaveEffect(data, drag, target) == (data, drag)
    ensures target.Some? && drag.Some? && drag.value.info.Some? ==> SaveEffect(data, drag, target).1 == None
    ensures target.Some? && drag.Some? && drag.value.info.Some?
         && (forall j :: 0 <= j < |data| ==> data[j].id != drag.value.info.value.id)
         ==> SaveEffect(data, drag, target).0 == data
    ensures IdsDistinct(data) ==> IdsDistinct(SaveEffect(data, drag, target).0)
  {
    if target.Some? && drag.Some? && drag.value.info.Some? {
      if IdsDistinct(data) {
        ReorderIdsDistinct(data, drag.value.info.value.id, target.value);
      }
    }
  }

  class Swimlane {
    const columns: seq<Column>
    const emptyRows: nat

    var sections: seq<Section>                     // _sections
    var data: seq<Item>                            // _data
    var idCounter: nat                             // lodash uniqueId's counter

    var offsetX: int
    var offsetY: int
    var currentX: int
    var currentY: int

    var currentSectionRow: Option<RowKey>
    var targetPosition: Option<Target>             // targetPositionRef
    var dragInfo: Option<DragInfo>                 // dragInfoRef
    var sectionsInfo: Reg<RowKey, SectionFrame>    // sectionsInfoRef
    var dropInViews: Reg<CellKey, DropInEntry>

    ghost predicate Valid()
      reads this
    {
      && IdsDistinct(data)
      && SectionsKeyed(sectionsInfo)
      && UniqueKeys(dropInViews)
      && (forall e :: e in dropInViews ==> e.0 == CellKey(e.1.section, e.1.row, e.1.column))
    }

    /** The first render: `_sections` from the prop, `_data` empty, every ref and shared value at its initial value. */
    constructor (columns: seq<Column>, sections: seq<Section>, emptyRows: nat, idCounter: nat)
      ensures Valid()
      ensures this.columns == columns && this.emptyRows == emptyRows
      ensures this.sections == sections && data == [] && this.idCounter == idCounter
      ensures offsetX == 0 && offsetY == 0 && currentX == 0 && currentY == 0
      ensures currentSectionRow == None && targetPosition == None && dragInfo == None
      ensures sectionsInfo == [] && dropInViews == []
    {
      this.columns := columns;
      this.emptyRows := emptyRows;
      this.sections := sections;
      this.idCounter := idCounter;
      data := [];
      offsetX, offsetY, currentX, currentY := 0, 0, 0, 0;
      currentSectionRow := None;
      targetPosition := None;
      dragInfo := None;
      sectionsInfo := [];
      dropInViews := [];
    }

    /** `computedData` of the current render. */
    function Computed(): seq<SectionData>
      reads this
    {
      ComputedData(sections, columns, data, emptyRows)
    }

    /** `list` of the current render. */
    function List(): seq<SectionData>
      reads this
    {
      SectionList(sections, Computed())
    }

    /** `computedData?.[sectionId]?.data?.[row]` is present. */
    predicate RowExists(sectionId: nat, row: nat)
      reads this
    {
      sectionId < |Computed()| && row < |Computed()[sectionId].data|
    }

    /** The effect on `[sections, data]`: new sections, and the items re-stamped with fresh ids. */
    method ReplaceProps(newSections: seq<Section>, raw: seq<RawItem>)
      requires Valid()
      modifies this`sections, this`data, this`idCounter
      ensures Valid()
      ensures sections == newSections
      ensures idCounter == old(idCounter) + |raw|
      ensures data == Stamped(raw, old(idCounter))
      ensures forall x :: x in data ==> old(idCounter) < x.id <= idCounter
    {
      sections := newSections;
      var transformed: seq<Item> := [];
      var i := 0;
      while i < |raw|
        invariant 0 <= i <= |raw|
        invariant sections == newSections
        invariant idCounter == old(idCounter) + i
        invariant transformed == Stamped(raw[..i], old(idCounter))
      {
        idCounter := idCounter + 1;
        transformed := transformed + [Stamp(raw[i], idCounter)];
        i := i + 1;
      }
      assert raw[..i] == raw;
      StampedIdsFresh(raw, old(idCounter));
      data := transformed;
    }

    /** dragContext.startDrag */
    method StartDrag(props: DragInfo)
      modifies this`dragInfo
      ensures dragInfo == Some(props)
    {
      dragInfo := Some(props);
    }

    /** dragContext.move */
    method Move(x: int, y: int, startX: int, startY: int)
      modifies this`offsetX, this`offsetY, this`currentX, this`currentY
      ensures offsetX == x && offsetY == y
      ensures currentX == x + startX && currentY == y + startY
    {
      offsetX := x;
      offsetY := y;
      currentX := x + startX;
      currentY := y + startY;
    }

    /** dragContext.onItemHover: the last hover wins. */
    method OnItemHover(column: int, section: int, row: int, id: ItemId)
      modifies this`targetPosition
      ensures targetPosition == Some(Target(section, column, row, id))
    {
      targetPosition := Some(Target(section, column, row, id));
    }

    /** dragContext.onItemFrame: records the cell's frame under `${section}-${row}-${column}`. */
    method OnItemFrame(section: int, column: int, row: int, id: ItemId, frame: Rect)
      requires Valid()
      modifies this`dropInViews
      ensures Valid()
      ensures dropInViews == Put(old(dropInViews), CellKey(section, row, column), DropInEntry(section, column, row, id, frame))
    {
      var key := CellKey(section, row, column);
      var entry := DropInEntry(section, column, row, id, frame);
      PutUnique(dropInViews, key, entry);
      PutEntries(dropInViews, key, entry);
      dropInViews := Put(dropInViews, key, entry);
    }

    /** onSectionFrame: records the row's frame under `${sectionId}-${row}`, if that row is materialised. */
    method OnSectionFrame(sectionId: nat, row: nat, frame: Rect)
      requires Valid()
      modifies this`sectionsInfo
      ensures Valid()
      ensures if RowExists(sectionId, row)
        then sectionsInfo == Put(old(sectionsInfo), RowKey(sectionId, row), SectionFrame(frame, row, sectionId))
        else sectionsInfo == old(sectionsInfo)
    {
      var dataExists := RowExists(sectionId, row);
      if !dataExists {
        // unmountSectionRow has an empty body
        return;
      }
      var key := RowKey(sectionId, row);
      var entry := SectionFrame(frame, row, sectionId);
      PutUnique(sectionsInfo, key, entry);
      PutEntries(sectionsInfo, key, entry);
      sectionsInfo := Put(sectionsInfo, key, entry);
    }

    /** calcSectionHover: while dragging, make the first row containing `y` the current section row. */
    method CalcSectionHover(x: int, y: int)
      modifies this`currentSectionRow
      ensures dragInfo.None? ==> currentSectionRow == old(currentSectionRow)
      ensures dragInfo.Some? ==> currentSectionRow == HoveredRow(sectionsInfo, y, old(currentSectionRow))
    {
      if dragInfo.Some? {
        var el := Find(sectionsInfo, (e: SectionFrame) => SectionRowHit(e.frame, y));
        if el.Some? {
          var key := RowKey(el.value.sectionId, el.value.row);
          if currentSectionRow != Some(key) {
            currentSectionRow := Some(key);
          }
        }
      }
    }

    /** savePosition */
    method SavePosition()
      requires Valid()
      modifies this`data, this`dragInfo
      ensures Valid()
      ensures (data, dragInfo) == SaveEffect(old(data), old(dragInfo), targetPosition)
    {
      var drag := dragInfo;
      var targetPos := targetPosition;
      if targetPos.Some? && drag.Some? && drag.value.info.Some? {
        var draggedId := drag.value.info.value.id;
        var dataToUpdate := FindById(data, draggedId);
        var indexToInsert := InsertionIndex(data, targetPos.value.id);
        ReorderIdsDistinct(data, draggedId, targetPos.value);
        if dataToUpdate.Some? {
          var newData := WithoutId(data, draggedId);
          var updatedData := Insert(newData, indexToInsert, dataToUpdate.value);
          data := Retarget(updatedData, draggedId, targetPos.value.column, targetPos.value.section);
        }
        dragInfo := None;
      }
    }

    /** dragContext.endDrag: save, reset the offsets, forget the current row and the row frames. */
    method EndDrag()
      requires Valid()
      modifies this`data, this`dragInfo, this`offsetX, this`offsetY, this`currentSectionRow, this`sectionsInfo
      ensures Valid()
      ensures (data, dragInfo) == SaveEffect(old(data), old(dragInfo), targetPosition)
      ensures offsetX == 0 && offsetY == 0
      ensures currentSectionRow == None && sectionsInfo == []
    {
      SavePosition();
      offsetX := 0;
      offsetY := 0;
      currentSectionRow := None;
      sectionsInfo := [];
    }

    /** onSectionHeaderPress */
    method OnSectionHeaderPress(sectionIndex: int)
      modifies this`sections
      ensures sections == ToggleSection(old(sections), sectionIndex)
    {
      sections := ToggleSection(sections, sectionIndex);
    }
  }
}
