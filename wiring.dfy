/**
 * The calls that cross from a SectionRow to the Swimlane that renders it: the
 * `onFrame` prop, the `cursorEntered` and `cursorPositionX` props, and the derived
 * value that re-runs calcSectionHover whenever the cursor moves.
 */
module Wiring {
  import opened Common
  import opened Helper
  import opened Registry
  import opened Keys
  import opened SwimlaneView
  import opened SectionRowView

  /**
   * The `cursorEntered` prop a row receives, as the code computes it: the row's
   * `${section}-${row}` key is a substring of the current section row's key.
   */
  predicate RowActive(lane: Swimlane, row: SectionRow)
    reads lane, row
  {
    CursorEnteredAsWritten(lane.currentSectionRow, RowKey(row.sectionId, row.rowIndex))
  }

  /** The corrected `cursorEntered`: the row's key equals the current section row. */
  predicate RowActiveCorrected(lane: Swimlane, row: SectionRow)
    reads lane, row
  {
    CursorEntered(lane.currentSectionRow, RowKey(row.sectionId, row.rowIndex))
  }

  /** With the corrected test at most one rendered row is active, and that row is active as written too. */
  lemma OneActiveRow(lane: Swimlane, a: SectionRow, b: SectionRow)
    requires RowActiveCorrected(lane, a) && RowActiveCorrected(lane, b)
    ensures a.sectionId == b.sectionId && a.rowIndex == b.rowIndex
    ensures RowActive(lane, a)
  {
    CursorEnteredUnique(lane.currentSectionRow, RowKey(a.sectionId, a.rowIndex), RowKey(b.sectionId, b.rowIndex));
  }

  /** The current section row is always active as written, so the substring test never misses it. */
  lemma CurrentRowActive(lane: Swimlane, row: SectionRow)
    requires lane.currentSectionRow == Some(RowKey(row.sectionId, row.rowIndex))
    ensures RowActive(lane, row) && RowActiveCorrected(lane, row)
  {
    AsWrittenActivatesCurrentRow(RowKey(row.sectionId, row.rowIndex));
  }

  /** A row's measurement: latch the row's refs, then report the frame to the swimlane. */
  method MeasureRow(lane: Swimlane, row: SectionRow, frame: Rect)
    requires lane.Valid()
    modifies row`sectionMaxHeight, row`sectionOffsetY, lane`sectionsInfo
    ensures lane.Valid()
    ensures row.Measured() == Latch(old(row.Measured()), frame)
    ensures if lane.RowExists(row.sectionId, row.rowIndex)
      then lane.sectionsInfo == Put(old(lane.sectionsInfo), RowKey(row.sectionId, row.rowIndex), SectionFrame(frame, row.rowIndex, row.sectionId))
      else lane.sectionsInfo == old(lane.sectionsInfo)
  {
    row.OnMeasure(frame);
    lane.OnSectionFrame(row.sectionId, row.rowIndex, frame);
  }

  /** A row's reaction to the swimlane's cursor x, gated by `cursorEntered` as the code computes it. */
  method ReactToCursor(lane: Swimlane, row: SectionRow)
    modifies row`hoveredItem
    ensures !RowActive(lane, row) || lane.currentX == 0 ==> row.hoveredItem == old(row.hoveredItem)
    ensures RowActive(lane, row) && lane.currentX != 0 ==> row.hoveredItem == HoverAt(row.itemsRef, row.sectionId, lane.currentX)
  {
    var entered := CursorEnteredAsWritten(lane.currentSectionRow, RowKey(row.sectionId, row.rowIndex));
    row.OnCursorX(entered, lane.currentX);
  }

  /** dragContext.move followed by the derived value's calcSectionHover on the new cursor. */
  method DragMove(lane: Swimlane, x: int, y: int, startX: int, startY: int)
    modifies lane`offsetX, lane`offsetY, lane`currentX, lane`currentY, lane`currentSectionRow
    ensures lane.offsetX == x && lane.offsetY == y
    ensures lane.currentX == x + startX && lane.currentY == y + startY
    ensures lane.dragInfo.None? ==> lane.currentSectionRow == old(lane.currentSectionRow)
    ensures lane.dragInfo.Some? ==> lane.currentSectionRow == HoveredRow(lane.sectionsInfo, y + startY, old(lane.currentSectionRow))
  {
    lane.Move(x, y, startX, startY);
    lane.CalcSectionHover(lane.currentX, lane.currentY);
  }

  /** After a drag ends no row is active, so no row searches for a hovered column. */
  lemma NoActiveRowAfterEndDrag(lane: Swimlane, row: SectionRow)
    requires lane.currentSectionRow == None
    ensures !RowActive(lane, row)
  {
  }
}
