/**
 * The per-row state of SectionRow.tsx: the column-frame registry `itemsRef`, the
 * `hoveredItem` state, and the two refs that the first measurement latches.
 */
module SectionRowView {
  import opened Common
  import opened Helper
  import opened Registry
  import opened Keys

  /** An entry `{ columnId, frame }` of `itemsRef`. */
  datatype ColumnFrame = ColumnFrame(columnId: nat, frame: Rect)

  /** The horizontal test of searchItemHover, inclusive at both edges. */
  predicate ColumnHit(frame: Rect, x: int)
  {
    x >= frame.x && x <= frame.x + frame.width
  }

  /** The string `${sectionId}-${columnId}` that names a hovered cell. */
  function HoverKey(sectionId: nat, columnId: nat): string
  {
    RowKeyString(RowKey(sectionId, columnId))
  }

  /** `itemsRef` iterates in ascending column order and each key is its entry's column. */
  predicate WellKeyed(items: Reg<int, ColumnFrame>)
  {
    Ascending(items) && forall e :: e in items ==> e.0 == e.1.columnId
  }

  /** The value searchItemHover gives `hoveredItem` when the cursor is in the row. */
  function HoverAt(items: Reg<int, ColumnFrame>, sectionId: nat, x: int): Option<string>
  {
    match Find(items, (e: ColumnFrame) => ColumnHit(e.frame, x))
    case Some(e) => Some(HoverKey(sectionId, e.columnId))
    case None => None
  }

  /** The column hit test is the horizontal half of isPointEntered. */
  lemma ColumnHitIsHorizontalEntry(frame: Rect, x: int)
    requires frame.height >= 0
    ensures ColumnHit(frame, x) <==> IsPointEntered(Point(x, frame.y), frame)
  {
  }

  /**
   * A miss clears the hover; a hit names the lowest-numbered column whose frame
   * contains `x`.
   */
  lemma HoverIsLowestHitColumn(items: Reg<int, ColumnFrame>, sectionId: nat, x: int)
    requires WellKeyed(items)
    ensures HoverAt(items, sectionId, x).None? <==> forall e :: e in items ==> !ColumnHit(e.1.frame, x)
    ensures HoverAt(items, sectionId, x).Some? ==>
      exists e :: e in items
        && ColumnHit(e.1.frame, x)
        && HoverAt(items, sectionId, x) == Some(HoverKey(sectionId, e.1.columnId))
        && forall e' :: e' in items && e'.0 < e.0 ==> !ColumnHit(e'.1.frame, x)
  {
    var p := (e: ColumnFrame) => ColumnHit(e.frame, x);
    var o := FindIndex(items, p);
    if o.Some? {
      var i := o.value;
      assert items[i] in items;
      forall e' | e' in items && e'.0 < items[i].0
        ensures !ColumnHit(e'.1.frame, x)
      {
        var j :| 0 <= j < |items| && items[j] == e';
      }
    } else {
      forall e | e in items
        ensures !ColumnHit(e.1.frame, x)
      {
        var j :| 0 <= j < |items| && items[j] == e;
        assert !p(items[j].1);
      }
    }
  }

  /** The refs `sectionMaxHeight` and `sectionOffsetY`. */
  datatype LatchState = LatchState(maxHeight: Option<int>, offsetY: int)

  /** `!sectionMaxHeight.current`: null and 0 are both falsy. */
  predicate Unlatched(s: LatchState)
  {
    s.maxHeight.None? || s.maxHeight == Some(0)
  }

  /** The measureLayout callback's effect on the refs. */
  function Latch(s: LatchState, frame: Rect): LatchState
  {
    if Unlatched(s) then LatchState(Some(frame.height), frame.y) else s
  }

  /** The refs after a series of measurements. */
  function LatchAll(s: LatchState, frames: seq<Rect>): LatchState
    decreases |frames|
  {
    if frames == [] then s else LatchAll(Latch(s, frames[0]), frames[1..])
  }

  /** Once a non-zero height is latched, no later measurement changes the refs. */
  lemma {:induction false} LatchedStable(s: LatchState, frames: seq<Rect>)
    requires !Unlatched(s)
    ensures LatchAll(s, frames) == s
    decreases |frames|
  {
    if frames != [] {
      LatchedStable(Latch(s, frames[0]), frames[1..]);
    }
  }

  /** From unlatched refs, the first measurement with a non-zero height decides both refs. */
  lemma {:induction false} LatchKeepsFirstNonZero(s: LatchState, frames: seq<Rect>, i: nat)
    requires Unlatched(s)
    requires i < |frames| && frames[i].height != 0
    requires forall j :: 0 <= j < i ==> frames[j].height == 0
    ensures LatchAll(s, frames) == LatchState(Some(frames[i].height), frames[i].y)
    decreases |frames|
  {
    var s' := Latch(s, frames[0]);
    if i == 0 {
      LatchedStable(s', frames[1..]);
    } else {
      assert s'.maxHeight == Some(0);
      LatchKeepsFirstNonZero(s', frames[1..], i - 1);
    }
  }

  class SectionRow {
    const sectionId: nat
    const rowIndex: nat
    var hoveredItem: Option<string>
    var itemsRef: Reg<int, ColumnFrame>
    var sectionMaxHeight: Option<int>
    var sectionOffsetY: int

    ghost predicate Valid()
      reads this
    {
      WellKeyed(itemsRef)
    }

    /** A freshly mounted row: nothing hovered, no column frames, nothing latched. */
    constructor (sectionId: nat, rowIndex: nat)
      ensures Valid()
      ensures this.sectionId == sectionId && this.rowIndex == rowIndex
      ensures hoveredItem == None && itemsRef == []
      ensures sectionMaxHeight == None && sectionOffsetY == 0
    {
      this.sectionId := sectionId;
      this.rowIndex := rowIndex;
      hoveredItem := None;
      itemsRef := [];
      sectionMaxHeight := None;
      sectionOffsetY := 0;
    }

    /** The refs as one value. */
    function Measured(): LatchState
      reads this
    {
      LatchState(sectionMaxHeight, sectionOffsetY)
    }

    /** The measureLayout callback body, without the `onFrame` call that follows it. */
    method OnMeasure(frame: Rect)
      modifies this`sectionMaxHeight, this`sectionOffsetY
      ensures Measured() == Latch(old(Measured()), frame)
    {
      if sectionMaxHeight.None? || sectionMaxHeight == Some(0) {
        sectionMaxHeight := Some(frame.height);
        sectionOffsetY := frame.y;
      }
    }

    /** onFrameChange: column `index` reports its frame. */
    method OnFrameChange(frame: Rect, index: nat)
      requires Valid()
      modifies this`itemsRef
      ensures Valid()
      ensures itemsRef == PutAscending(old(itemsRef), index, ColumnFrame(index, frame))
      ensures Get(itemsRef, index) == Some(ColumnFrame(index, frame))
      ensures forall k :: k != index ==> Get(itemsRef, k) == Get(old(itemsRef), k)
    {
      var entry := ColumnFrame(index, frame);
      PutAscendingOrdered(itemsRef, index, entry);
      PutAscendingEntries(itemsRef, index, entry);
      forall k | k != index
        ensures Get(PutAscending(itemsRef, index, entry), k) == Get(itemsRef, k)
      {
        PutAscendingGet(itemsRef, index, entry, k);
      }
      PutAscendingGet(itemsRef, index, entry, index);
      itemsRef := PutAscending(itemsRef, index, entry);
    }

    /** searchItemHover, with the `cursorEntered` prop as a parameter. */
    method SearchItemHover(cursorEntered: bool, x: int)
      modifies this`hoveredItem
      ensures cursorEntered ==> hoveredItem == HoverAt(itemsRef, sectionId, x)
      ensures !cursorEntered ==> hoveredItem == old(hoveredItem)
    {
      if cursorEntered {
        var item := Find(itemsRef, (e: ColumnFrame) => ColumnHit(e.frame, x));
        if item.Some? {
          hoveredItem := Some(HoverKey(sectionId, item.value.columnId));
        } else {
          hoveredItem := None;
        }
      }
    }

    /** The reaction to a new cursor x: a falsy 0 starts no search. */
    method OnCursorX(cursorEntered: bool, curr: int)
      modifies this`hoveredItem
      ensures curr == 0 ==> hoveredItem == old(hoveredItem)
      ensures curr != 0 && cursorEntered ==> hoveredItem == HoverAt(itemsRef, sectionId, curr)
      ensures !cursorEntered ==> hoveredItem == old(hoveredItem)
    {
      if curr != 0 {
        SearchItemHover(cursorEntered, curr);
      }
    }

    /** finishDragging, without the `onDragEnd` call that follows it. */
    method FinishDragging()
      modifies this`hoveredItem
      ensures hoveredItem == None
    {
      hoveredItem := None;
    }

    /** The `canDropIn` prop of column `index`. */
    predicate CanDropIn(index: nat)
      reads this
    {
      hoveredItem == Some(HoverKey(sectionId, index))
    }
  }

  /** At most one column of a row accepts a drop, and it is the hovered one. */
  lemma AtMostOneDropIn(row: SectionRow, i: nat, j: nat)
    requires row.CanDropIn(i) && row.CanDropIn(j)
    ensures i == j
    ensures row.hoveredItem == Some(HoverKey(row.sectionId, i))
  {
    RowKeyStringInjective(RowKey(row.sectionId, i), RowKey(row.sectionId, j));
  }

  /** After finishDragging no column accepts a drop. */
  lemma NoDropInWithoutHover(row: SectionRow, i: nat)
    requires row.hoveredItem.None?
    ensures !row.CanDropIn(i)
  {
  }
}
