/**
 * The pure side of Swimlane.tsx: the item and section records, the projection of
 * the flat item list into the per-section, per-column bucket matrix and into
 * materialised section rows, the section header toggle, the stamping of fresh ids,
 * and the list computation that `savePosition` performs on a drop.
 */
module Grid {
  import opened Common
  import opened Helper

  /** Ids come from lodash `uniqueId`, a pre-incremented counter ("1", "2", ...). */
  type ItemId = nat

  /** A KanbanItem as the consumer supplies it. */
  datatype RawItem = RawItem(column: int, section: int, data: string)

  /** A KanbanItem as held in `_data`: the consumer's record plus the generated id. */
  datatype Item = Item(id: ItemId, column: int, section: int, data: string)

  datatype Column = Column(index: int, title: string)

  datatype Section = Section(index: int, title: string, expanded: Option<bool>)

  /** `section.expanded ?? false` */
  function Expanded(section: Section): bool
  {
    if section.expanded.Some? then section.expanded.value else false
  }

  // ---------------------------------------------------------------------
  // The bucket matrix
  // ---------------------------------------------------------------------

  /** `_data.filter(item => item.column === c && item.section === s)` */
  function Bucket(data: seq<Item>, s: int, c: int): seq<Item>
  {
    if data == [] then []
    else (if data[0].column == c && data[0].section == s then [data[0]] else []) + Bucket(data[1..], s, c)
  }

  /** `matrix[s][c]`: one bucket per section and column, in the order of `_sections` and `columns`. */
  function Matrix(data: seq<Item>, sections: seq<Section>, columns: seq<Column>): (m: seq<seq<seq<Item>>>)
    ensures |m| == |sections|
    ensures forall s :: 0 <= s < |m| ==> |m[s]| == |columns|
  {
    seq(|sections|, s requires 0 <= s < |sections| =>
      seq(|columns|, c requires 0 <= c < |columns| => Bucket(data, s, c)))
  }

  /** A bucket holds exactly the items of its section and column. */
  lemma {:induction false} BucketMembers(data: seq<Item>, s: int, c: int, x: Item)
    ensures x in Bucket(data, s, c) <==> x in data && x.section == s && x.column == c
  {
    if data != [] {
      BucketMembers(data[1..], s, c, x);
      assert x in data <==> x == data[0] || x in data[1..];
    }
  }

  /** Filtering keeps list order: the bucket of a concatenation is the concatenation of the buckets. */
  lemma {:induction false} BucketAppend(a: seq<Item>, b: seq<Item>, s: int, c: int)
    ensures Bucket(a + b, s, c) == Bucket(a, s, c) + Bucket(b, s, c)
  {
    if a == [] {
      assert a + b == b;
    } else {
      assert (a + b)[1..] == a[1..] + b;
      BucketAppend(a[1..], b, s, c);
    }
  }

  lemma {:induction false} BucketLength(data: seq<Item>, s: int, c: int)
    ensures |Bucket(data, s, c)| <= |data|
  {
    if data != [] {
      BucketLength(data[1..], s, c);
    }
  }

  /** Every item whose section and column are in range lands in exactly one bucket. */
  lemma MatrixPlacesItemOnce(data: seq<Item>, sections: seq<Section>, columns: seq<Column>, x: Item, s: int, c: int)
    requires x in data
    requires 0 <= s < |sections| && 0 <= c < |columns|
    ensures x in Matrix(data, sections, columns)[s][c] <==> x.section == s && x.column == c
  {
    BucketMembers(data, s, c, x);
  }

  // ---------------------------------------------------------------------
  // computedData and list
  // ---------------------------------------------------------------------

  /** One materialised row: one optional item per column. */
  datatype Row = Row(items: seq<Option<Item>>, sectionId: nat)

  /** The entry `computedData[sectionIndex]`. */
  datatype SectionData = SectionData(title: string, data: seq<Row>, index: nat, expanded: bool)

  /** `expanded ? (maxRows === 0 ? 1 : maxRows) + emptyRows : 0` */
  function RowCount(expanded: bool, maxRows: nat, emptyRows: nat): nat
  {
    var maxRowsEdited := if maxRows == 0 then 1 else maxRows;
    if expanded then maxRowsEdited + emptyRows else 0
  }

  /** `matrix?.[s]?.[c]?.[r]` */
  function Slot(matrix: seq<seq<seq<Item>>>, s: int, c: int, r: int): Option<Item>
  {
    if 0 <= s < |matrix| && 0 <= c < |matrix[s]| && 0 <= r < |matrix[s][c]| then Some(matrix[s][c][r]) else None
  }

  /** The value the `reduce` step stores under `sectionIndex`. */
  function SectionEntry(matrix: seq<seq<seq<Item>>>, sections: seq<Section>, columns: seq<Column>, emptyRows: nat, s: nat): SectionData
    requires s < |sections| && |matrix| == |sections| && |matrix[s]| == |columns|
  {
    var maxRows := ColMax([matrix[s]], |columns|).itemNumbers;
    var expanded := Expanded(sections[s]);
    var rows := RowCount(expanded, maxRows, emptyRows);
    SectionData(
      sections[s].title,
      seq(rows, r requires 0 <= r < rows =>
        Row(seq(|columns|, c requires 0 <= c < |columns| => Slot(matrix, s, c, r)), s)),
      s,
      expanded)
  }

  /** `computedData`, an object keyed by section index, as the sequence of its entries. */
  function ComputedData(sections: seq<Section>, columns: seq<Column>, data: seq<Item>, emptyRows: nat): (cd: seq<SectionData>)
    ensures |cd| == |sections|
  {
    var matrix := Matrix(data, sections, columns);
    seq(|sections|, s requires 0 <= s < |sections| => SectionEntry(matrix, sections, columns, emptyRows, s))
  }

  /** `list = compactMap(_sections, (section, sectionIndex) => computedData[sectionIndex])` */
  function SectionList(sections: seq<Section>, cd: seq<SectionData>): seq<SectionData>
  {
    CompactMap(Some(sections), (section: Section, i: nat, all: seq<Section>) => if i < |cd| then Some(cd[i]) else None)
  }

  /**
   * Row count of a section: none when collapsed (a missing flag counts as collapsed);
   * otherwise the longest bucket's length, at least 1, plus the trailing empty rows.
   */
  lemma ComputedRowCount(sections: seq<Section>, columns: seq<Column>, data: seq<Item>, emptyRows: nat, s: int)
    requires 0 <= s < |sections|
    ensures var rows := ComputedData(sections, columns, data, emptyRows)[s].data;
      && (!Expanded(sections[s]) ==> |rows| == 0)
      && (Expanded(sections[s]) ==>
        && |rows| >= 1 + emptyRows
        && (forall c :: 0 <= c < |columns| ==> |Bucket(data, s, c)| + emptyRows <= |rows|)
        && (|rows| == 1 + emptyRows || exists c :: 0 <= c < |columns| && |Bucket(data, s, c)| + emptyRows == |rows|))
  {
    var matrix := Matrix(data, sections, columns);
    var row := [matrix[s]][0];
    assert forall c :: 0 <= c < |columns| ==> row[c] == Bucket(data, s, c);
    var cm := ColMax([matrix[s]], |columns|);
    if |columns| > 0 {
      ColMaxPrefixSpec(row, |columns|);
      if cm.itemNumbers > 0 {
        assert |Bucket(data, s, cm.columnIndex)| == cm.itemNumbers;
      }
    }
  }

  /** Slot `(r, c)` of section `s` is the `r`-th item of bucket `(s, c)`, or absent past its end. */
  lemma ComputedSlots(sections: seq<Section>, columns: seq<Column>, data: seq<Item>, emptyRows: nat, s: int, r: int, c: int)
    requires 0 <= s < |sections|
    requires 0 <= r < |ComputedData(sections, columns, data, emptyRows)[s].data|
    requires 0 <= c < |columns|
    ensures var e := ComputedData(sections, columns, data, emptyRows)[s];
      && e.index == s && e.title == sections[s].title && e.expanded == Expanded(sections[s])
      && e.data[r].sectionId == s
      && |e.data[r].items| == |columns|
      && e.data[r].items[c] == (if r < |Bucket(data, s, c)| then Some(Bucket(data, s, c)[r]) else None)
  {
  }

  /** An expanded section shows every one of its items in its own column: projection loses nothing. */
  lemma ExpandedSectionShowsEveryItem(sections: seq<Section>, columns: seq<Column>, data: seq<Item>, emptyRows: nat, x: Item)
    requires x in data
    requires 0 <= x.section < |sections| && 0 <= x.column < |columns|
    requires Expanded(sections[x.section])
    ensures var rows := ComputedData(sections, columns, data, emptyRows)[x.section].data;
      exists r :: 0 <= r < |rows| && |rows[r].items| == |columns| && rows[r].items[x.column] == Some(x)
  {
    var b := Bucket(data, x.section, x.column);
    BucketMembers(data, x.section, x.column, x);
    var r :| 0 <= r < |b| && b[r] == x;
    ComputedRowCount(sections, columns, data, emptyRows, x.section);
    ComputedSlots(sections, columns, data, emptyRows, x.section, r, x.column);
  }

  /** Every section has an entry, so `list` is `computedData` in section order. */
  lemma SectionListIsComputedData(sections: seq<Section>, cd: seq<SectionData>)
    requires |cd| == |sections|
    ensures SectionList(sections, cd) == cd
  {
    var callback := (section: Section, i: nat, all: seq<Section>) => if i < |cd| then Some(cd[i]) else None;
    CompactMapIsFilter(sections, callback);
    var m := Mapped(sections, callback);
    SomesAllPresent(m);
  }

  // ---------------------------------------------------------------------
  // onSectionHeaderPress
  // ---------------------------------------------------------------------

  /** `_sections.map((section, index) => index === i ? { ...section, expanded: !section.expanded } : section)` */
  function ToggleSection(sections: seq<Section>, i: int): seq<Section>
  {
    seq(|sections|, k requires 0 <= k < |sections| =>
      if k == i then sections[k].(expanded := Some(!Expanded(sections[k]))) else sections[k])
  }

  /** The toggle flips the effective flag of section `i` only and keeps the section count. */
  lemma ToggleSectionSpec(sections: seq<Section>, i: int)
    ensures |ToggleSection(sections, i)| == |sections|
    ensures forall k :: 0 <= k < |sections| && k != i ==> ToggleSection(sections, i)[k] == sections[k]
    ensures 0 <= i < |sections| ==>
      var t := ToggleSection(sections, i)[i];
      Expanded(t) == !Expanded(sections[i]) && t.index == sections[i].index && t.title == sections[i].title
  {
  }

  /** Toggling twice restores every effective flag (a missing flag comes back as `false`). */
  lemma ToggleTwiceRestores(sections: seq<Section>, i: int)
    ensures |ToggleSection(ToggleSection(sections, i), i)| == |sections|
    ensures forall k :: 0 <= k < |sections| ==>
      var t := ToggleSection(ToggleSection(sections, i), i)[k];
      Expanded(t) == Expanded(sections[k]) && t.index == sections[k].index && t.title == sections[k].title
  {
  }

  // ---------------------------------------------------------------------
  // Fresh ids
  // ---------------------------------------------------------------------

  /** `{ ...val, id }` */
  function Stamp(raw: RawItem, id: ItemId): Item
  {
    Item(id, raw.column, raw.section, raw.data)
  }

  /** `data.map(val => ({ ...val, id: uniqueId() }))` with the counter at `counter` beforehand. */
  function Stamped(raw: seq<RawItem>, counter: nat): (d: seq<Item>)
    ensures |d| == |raw|
  {
    seq(|raw|, i requires 0 <= i < |raw| => Stamp(raw[i], counter + i + 1))
  }

  /** No two items share an id. */
  predicate IdsDistinct(data: seq<Item>)
  {
    forall i, j :: 0 <= i < j < |data| ==> data[i].id != data[j].id
  }

  /** Every replacement yields pairwise distinct ids, all newer than any id issued before. */
  lemma StampedIdsFresh(raw: seq<RawItem>, counter: nat)
    ensures IdsDistinct(Stamped(raw, counter))
    ensures forall x :: x in Stamped(raw, counter) ==> counter < x.id <= counter + |raw|
    ensures forall i :: 0 <= i < |raw| ==>
      var x := Stamped(raw, counter)[i];
      x.column == raw[i].column && x.section == raw[i].section && x.data == raw[i].data
  {
  }

  // ---------------------------------------------------------------------
  // The list computation of savePosition
  // ---------------------------------------------------------------------

  /** `targetPositionRef.current` */
  datatype Target = Target(section: int, column: int, row: int, id: ItemId)

  /** `_data.findIndex(o => o.id === id)` */
  function IndexOfId(data: seq<Item>, id: ItemId): (k: int)
    ensures -1 <= k < |data|
    ensures k >= 0 ==> data[k].id == id && forall j :: 0 <= j < k ==> data[j].id != id
    ensures k == -1 ==> forall j :: 0 <= j < |data| ==> data[j].id != id
  {
    if data == [] then -1
    else if data[0].id == id then 0
    else
      var k := IndexOfId(data[1..], id);
      if k == -1 then -1 else k + 1
  }

  /** `_data.find(o => o.id === id)` */
  function FindById(data: seq<Item>, id: ItemId): (o: Option<Item>)
    ensures o.Some? ==> 0 <= IndexOfId(data, id) && o.value == data[IndexOfId(data, id)]
    ensures o.None? ==> IndexOfId(data, id) == -1
  {
    if data == [] then None
    else if data[0].id == id then Some(data[0])
    else FindById(data[1..], id)
  }

  /** `_data.filter(o => o.id !== id)` */
  function WithoutId(data: seq<Item>, id: ItemId): seq<Item>
  {
    if data == [] then [] else (if data[0].id == id then [] else [data[0]]) + WithoutId(data[1..], id)
  }

  /** `updatedData.map(o => o.id === id ? { ...o, column, section } : o)` */
  function Retarget(data: seq<Item>, id: ItemId, column: int, section: int): (r: seq<Item>)
    ensures |r| == |data|
  {
    seq(|data|, i requires 0 <= i < |data| =>
      if data[i].id == id then data[i].(column := column, section := section) else data[i])
  }

  /** `dataBeforeIndex === -1 ? 0 : dataBeforeIndex`: the target's index BEFORE the removal. */
  function InsertionIndex(data: seq<Item>, targetId: ItemId): nat
  {
    var k := IndexOfId(data, targetId);
    if k == -1 then 0 else k
  }

  /** The dragged item with the target's column and section. */
  function Moved(x: Item, t: Target): Item
  {
    x.(column := t.column, section := t.section)
  }

  /** The new `_data` that savePosition passes to `setData`. */
  function Reorder(data: seq<Item>, draggedId: ItemId, t: Target): seq<Item>
  {
    match FindById(data, draggedId)
    case None => data
    case Some(dataToUpdate) =>
      var newData := WithoutId(data, draggedId);
      var updatedData := Insert(newData, InsertionIndex(data, t.id), dataToUpdate);
      Retarget(updatedData, draggedId, t.column, t.section)
  }

  // Reference definition: moving the element at p to position q, by index arithmetic.

  /** Which old position ends up at position `i` when the element at `p` moves to `q`. */
  function MoveSource(n: nat, p: nat, q: nat, i: nat): (k: nat)
    requires p < n && q < n && i < n
    ensures k < n
  {
    if i == q then p
    else if p < q && p <= i < q then i + 1
    else if q < p && q < i <= p then i - 1
    else i
  }

  function MoveTo(data: seq<Item>, p: nat, q: nat): (m: seq<Item>)
    requires p < |data| && q < |data|
    ensures |m| == |data|
  {
    seq(|data|, i requires 0 <= i < |data| => data[MoveSource(|data|, p, q, i)])
  }

  lemma MoveSourceInjective(n: nat, p: nat, q: nat, i: nat, j: nat)
    requires p < n && q < n && i < n && j < n && i != j
    ensures MoveSource(n, p, q, i) != MoveSource(n, p, q, j)
  {
  }

  // Facts about the filters.

  lemma {:induction false} WithoutIdAppend(a: seq<Item>, b: seq<Item>, id: ItemId)
    ensures WithoutId(a + b, id) == WithoutId(a, id) + WithoutId(b, id)
  {
    if a == [] {
      assert a + b == b;
    } else {
      assert (a + b)[1..] == a[1..] + b;
      WithoutIdAppend(a[1..], b, id);
    }
  }

  lemma {:induction false} WithoutIdAbsent(data: seq<Item>, id: ItemId)
    requires forall j :: 0 <= j < |data| ==> data[j].id != id
    ensures WithoutId(data, id) == data
  {
    if data != [] {
      WithoutIdAbsent(data[1..], id);
    }
  }

  /** With distinct ids, removing the dragged id removes exactly the one position it is at. */
  lemma {:induction false} WithoutIdAt(data: seq<Item>, id: ItemId, p: nat)
    requires IdsDistinct(data)
    requires p < |data| && data[p].id == id
    ensures WithoutId(data, id) == data[..p] + data[p + 1..]
  {
    assert data == data[..p] + [data[p]] + data[p + 1..];
    WithoutIdAppend(data[..p] + [data[p]], data[p + 1..], id);
    WithoutIdAppend(data[..p], [data[p]], id);
    WithoutIdAbsent(data[..p], id);
    WithoutIdAbsent(data[p + 1..], id);
    assert WithoutId([data[p]], id) == [] by {
      assert [data[p]][1..] == [];
    }
  }

  lemma {:induction false} BucketWithoutAbsent(data: seq<Item>, s: int, c: int)
    requires forall j :: 0 <= j < |data| ==> data[j].section != s || data[j].column != c
    ensures Bucket(data, s, c) == []
  {
    if data != [] {
      BucketWithoutAbsent(data[1..], s, c);
    }
  }

  // Properties of Reorder.

  /** When the dragged id is found, the new list is the old list without it, with the moved item inserted at the insertion index. */
  lemma ReorderIsInsert(data: seq<Item>, draggedId: ItemId, t: Target, p: nat)
    requires IdsDistinct(data)
    requires p < |data| && data[p].id == draggedId
    ensures InsertionIndex(data, t.id) < |data|
    ensures WithoutId(data, draggedId) == data[..p] + data[p + 1..]
    ensures Reorder(data, draggedId, t)
         == Insert(WithoutId(data, draggedId), InsertionIndex(data, t.id), Moved(data[p], t))
  {
    var q := InsertionIndex(data, t.id);
    assert IndexOfId(data, draggedId) == p;
    var nd := WithoutId(data, draggedId);
    WithoutIdAt(data, draggedId, p);
    assert |nd| == |data| - 1;
    var u := Insert(nd, q, data[p]);
    var r := Retarget(u, draggedId, t.column, t.section);
    var v := Insert(nd, q, Moved(data[p], t));
    assert forall j :: 0 <= j < |nd| ==> nd[j] == (if j < p then data[j] else data[j + 1]);
    assert forall j :: 0 <= j < |nd| ==> nd[j].id != draggedId;
    forall i | 0 <= i < |r|
      ensures r[i] == v[i]
    {
      if i < q {
        assert u[i] == nd[i] && v[i] == nd[i];
      } else if i > q {
        assert u[i] == nd[i - 1] && v[i] == nd[i - 1];
      }
    }
  }

  /** The list without the dragged item, with an item inserted at `q`, is the move of `p` to `q`, with that item at `q`. */
  lemma InsertAfterRemovalIsMove(data: seq<Item>, p: nat, q: nat, x: Item)
    requires p < |data| && q < |data|
    ensures Insert(data[..p] + data[p + 1..], q, x) == MoveTo(data, p, q)[q := x]
  {
    var nd := data[..p] + data[p + 1..];
    var u := Insert(nd, q, x);
    var m := MoveTo(data, p, q)[q := x];
    assert forall j :: 0 <= j < |nd| ==> nd[j] == (if j < p then data[j] else data[j + 1]);
    forall i | 0 <= i < |data|
      ensures u[i] == m[i]
    {
      if i < q {
        assert u[i] == nd[i];
      } else if i > q {
        assert u[i] == nd[i - 1];
      }
    }
  }

  /**
   * The reorder is a move by index: the item at `p` goes to the insertion index `q`
   * (with the target's column and section); every other item shifts by at most one.
   */
  lemma ReorderIsMove(data: seq<Item>, draggedId: ItemId, t: Target, p: nat)
    requires IdsDistinct(data)
    requires p < |data| && data[p].id == draggedId
    ensures InsertionIndex(data, t.id) < |data|
    ensures Reorder(data, draggedId, t)
         == MoveTo(data, p, InsertionIndex(data, t.id))[InsertionIndex(data, t.id) := Moved(data[p], t)]
  {
    ReorderIsInsert(data, draggedId, t, p);
    InsertAfterRemovalIsMove(data, p, InsertionIndex(data, t.id), Moved(data[p], t));
  }

  // Facts about moving by removal and re-insertion, independent of ids.

  lemma RemoveInsertPermutation(data: seq<Item>, p: nat, q: nat, x: Item)
    requires p < |data| && q < |data|
    ensures multiset(Insert(data[..p] + data[p + 1..], q, x)) == multiset(data) - multiset{data[p]} + multiset{x}
  {
    var nd := data[..p] + data[p + 1..];
    assert Insert(nd, q, x) == nd[..q] + [x] + nd[q..];
    assert nd == nd[..q] + nd[q..];
    assert multiset(nd) == multiset(nd[..q]) + multiset(nd[q..]);
    assert multiset(Insert(nd, q, x)) == multiset(nd) + multiset{x};
    assert multiset(nd) == multiset(data[..p]) + multiset(data[p + 1..]);
    assert data == data[..p] + [data[p]] + data[p + 1..];
    assert multiset(data) == multiset(data[..p]) + multiset{data[p]} + multiset(data[p + 1..]);
    assert multiset(data) - multiset{data[p]} == multiset(nd);
  }

  lemma RemoveInsertNeighbours(data: seq<Item>, p: nat, q: nat, x: Item)
    requires p < |data| && q < |data| && p != q
    ensures var r := Insert(data[..p] + data[p + 1..], q, x);
      && |r| == |data| && r[q] == x
      && (p < q ==> r[q - 1] == data[q])
      && (q < p ==> r[q + 1] == data[q])
  {
    var nd := data[..p] + data[p + 1..];
    if p < q {
      assert nd[q - 1] == data[q];
    } else {
      assert nd[q] == data[q];
    }
  }

  lemma WithoutIdInsert(nd: seq<Item>, q: nat, x: Item, id: ItemId)
    requires q <= |nd| && x.id == id
    requires forall j :: 0 <= j < |nd| ==> nd[j].id != id
    ensures WithoutId(Insert(nd, q, x), id) == nd
  {
    assert Insert(nd, q, x) == nd[..q] + [x] + nd[q..];
    WithoutIdAppend(nd[..q] + [x], nd[q..], id);
    WithoutIdAppend(nd[..q], [x], id);
    WithoutIdAbsent(nd[..q], id);
    WithoutIdAbsent(nd[q..], id);
    assert WithoutId([x], id) == [] by {
      assert [x][1..] == [];
    }
    assert nd == nd[..q] + nd[q..];
  }

  lemma BucketInsertOther(nd: seq<Item>, q: nat, x: Item, s: int, c: int)
    requires q <= |nd| && (x.section != s || x.column != c)
    ensures Bucket(Insert(nd, q, x), s, c) == Bucket(nd, s, c)
  {
    assert Insert(nd, q, x) == nd[..q] + [x] + nd[q..];
    BucketAppend(nd[..q] + [x], nd[q..], s, c);
    BucketAppend(nd[..q], [x], s, c);
    BucketWithoutAbsent([x], s, c);
    assert nd == nd[..q] + nd[q..];
    BucketAppend(nd[..q], nd[q..], s, c);
  }

  lemma BucketRemoveOther(data: seq<Item>, p: nat, s: int, c: int)
    requires p < |data| && (data[p].section != s || data[p].column != c)
    ensures Bucket(data[..p] + data[p + 1..], s, c) == Bucket(data, s, c)
  {
    assert data == data[..p] + [data[p]] + data[p + 1..];
    BucketAppend(data[..p] + [data[p]], data[p + 1..], s, c);
    BucketAppend(data[..p], [data[p]], s, c);
    BucketWithoutAbsent([data[p]], s, c);
    BucketAppend(data[..p], data[p + 1..], s, c);
  }

  /** A found drag yields a list of the same length that is a permutation of the old one, up to the moved item's new fields. */
  lemma ReorderPermutation(data: seq<Item>, draggedId: ItemId, t: Target, p: nat)
    requires IdsDistinct(data)
    requires p < |data| && data[p].id == draggedId
    ensures |Reorder(data, draggedId, t)| == |data|
    ensures multiset(Reorder(data, draggedId, t))
         == multiset(data) - multiset{data[p]} + multiset{Moved(data[p], t)}
  {
    ReorderIsInsert(data, draggedId, t, p);
    RemoveInsertPermutation(data, p, InsertionIndex(data, t.id), Moved(data[p], t));
  }

  /** The new list again has distinct ids. */
  lemma ReorderIdsDistinct(data: seq<Item>, draggedId: ItemId, t: Target)
    requires IdsDistinct(data)
    ensures IdsDistinct(Reorder(data, draggedId, t))
  {
    var k := IndexOfId(data, draggedId);
    if k >= 0 {
      var p: nat := k;
      ReorderIsMove(data, draggedId, t, p);
      var q := InsertionIndex(data, t.id);
      var r := Reorder(data, draggedId, t);
      var n := |data|;
      forall i, j | 0 <= i < j < |r|
        ensures r[i].id != r[j].id
      {
        MoveSourceInjective(n, p, q, i, j);
        assert r[i].id == data[MoveSource(n, p, q, i)].id;
        assert r[j].id == data[MoveSource(n, p, q, j)].id;
      }
    }
  }

  /** Every other item keeps its fields and its relative order. */
  lemma ReorderKeepsOthers(data: seq<Item>, draggedId: ItemId, t: Target)
    requires IdsDistinct(data)
    ensures WithoutId(Reorder(data, draggedId, t), draggedId) == WithoutId(data, draggedId)
  {
    var k := IndexOfId(data, draggedId);
    if k >= 0 {
      var p: nat := k;
      ReorderIsInsert(data, draggedId, t, p);
      var nd := data[..p] + data[p + 1..];
      assert forall j :: 0 <= j < |nd| ==> nd[j] == (if j < p then data[j] else data[j + 1]);
      WithoutIdInsert(nd, InsertionIndex(data, t.id), Moved(data[p], t), draggedId);
    } else {
      WithoutIdAbsent(data, draggedId);
    }
  }

  /** The moved item lands at the target's index in the list before removal, with the target's column and section. */
  lemma ReorderMovedAt(data: seq<Item>, draggedId: ItemId, t: Target, p: nat)
    requires IdsDistinct(data)
    requires p < |data| && data[p].id == draggedId
    ensures InsertionIndex(data, t.id) < |Reorder(data, draggedId, t)|
    ensures Reorder(data, draggedId, t)[InsertionIndex(data, t.id)] == Moved(data[p], t)
  {
    ReorderIsInsert(data, draggedId, t, p);
  }

  /** An unknown target id sends the item to the front. */
  lemma ReorderUnknownTarget(data: seq<Item>, draggedId: ItemId, t: Target, p: nat)
    requires IdsDistinct(data)
    requires p < |data| && data[p].id == draggedId
    requires forall j :: 0 <= j < |data| ==> data[j].id != t.id
    ensures Reorder(data, draggedId, t) == [Moved(data[p], t)] + WithoutId(data, draggedId)
  {
    ReorderIsInsert(data, draggedId, t, p);
    assert InsertionIndex(data, t.id) == 0;
  }

  /** Dropping an item onto its own id keeps it at its position and only rewrites its column and section. */
  lemma ReorderSelfDrop(data: seq<Item>, draggedId: ItemId, t: Target, p: nat)
    requires IdsDistinct(data)
    requires p < |data| && data[p].id == draggedId
    requires t.id == draggedId
    ensures Reorder(data, draggedId, t) == data[p := Moved(data[p], t)]
  {
    ReorderIsMove(data, draggedId, t, p);
    assert IndexOfId(data, t.id) == p;
    assert MoveTo(data, p, p) == data;
  }

  /** Dragging downwards lands the item just after the target item; dragging upwards, just before it. */
  lemma ReorderNextToTarget(data: seq<Item>, draggedId: ItemId, t: Target, p: nat, q: nat)
    requires IdsDistinct(data)
    requires p < |data| && data[p].id == draggedId
    requires q < |data| && data[q].id == t.id && q != p
    ensures |Reorder(data, draggedId, t)| == |data|
    ensures p < q ==> Reorder(data, draggedId, t)[q - 1] == data[q] && Reorder(data, draggedId, t)[q] == Moved(data[p], t)
    ensures q < p ==> Reorder(data, draggedId, t)[q] == Moved(data[p], t) && Reorder(data, draggedId, t)[q + 1] == data[q]
  {
    ReorderIsInsert(data, draggedId, t, p);
    assert IndexOfId(data, t.id) == q;
    RemoveInsertNeighbours(data, p, q, Moved(data[p], t));
  }

  /** Without the dragged id in the list, nothing changes. */
  lemma ReorderDraggedAbsent(data: seq<Item>, draggedId: ItemId, t: Target)
    requires forall j :: 0 <= j < |data| ==> data[j].id != draggedId
    ensures Reorder(data, draggedId, t) == data
  {
  }

  /** An id issued before the last data replacement matches nothing, so a drop that carries it is a no-op on the list. */
  lemma StaleDragIsNoop(raw: seq<RawItem>, counter: nat, draggedId: ItemId, t: Target)
    requires draggedId <= counter
    ensures Reorder(Stamped(raw, counter), draggedId, t) == Stamped(raw, counter)
  {
    StampedIdsFresh(raw, counter);
    var d := Stamped(raw, counter);
    assert forall j :: 0 <= j < |d| ==> d[j] in d;
  }

  /**
   * Re-projecting after a drop: the moved item is in the target's bucket and its id
   * is in no other bucket; a bucket that is neither the origin nor the target is unchanged.
   */
  lemma ReorderBuckets(data: seq<Item>, draggedId: ItemId, t: Target, p: nat, s: int, c: int)
    requires IdsDistinct(data)
    requires p < |data| && data[p].id == draggedId
    ensures Moved(data[p], t) in Bucket(Reorder(data, draggedId, t), t.section, t.column)
    ensures (s, c) != (t.section, t.column) ==>
      forall x :: x in Bucket(Reorder(data, draggedId, t), s, c) ==> x.id != draggedId
    ensures (s, c) != (t.section, t.column) && (s, c) != (data[p].section, data[p].column) ==>
      Bucket(Reorder(data, draggedId, t), s, c) == Bucket(data, s, c)
  {
    var r := Reorder(data, draggedId, t);
    var x := Moved(data[p], t);
    ReorderMovedAt(data, draggedId, t, p);
    BucketMembers(r, t.section, t.column, x);
    if (s, c) != (t.section, t.column) {
      ReorderIdsDistinct(data, draggedId, t);
      var q := InsertionIndex(data, t.id);
      forall y | y in Bucket(r, s, c)
        ensures y.id != draggedId
      {
        BucketMembers(r, s, c, y);
        var i :| 0 <= i < |r| && r[i] == y;
        assert i != q;
      }
      if (s, c) != (data[p].section, data[p].column) {
        ReorderIsInsert(data, draggedId, t, p);
        BucketInsertOther(data[..p] + data[p + 1..], q, x, s, c);
        BucketRemoveOther(data, p, s, c);
      }
    }
  }

  /**
   * The example board: dragging "item 1" (id 1) onto "item 3" (id 3, section 1,
   * column 0) gives item 2, item 3, the moved item 1, item 4.
   */
  lemma ExampleDrop()
    ensures var raw := [RawItem(0, 0, "item 1"), RawItem(0, 0, "item 2"), RawItem(0, 1, "item 3"), RawItem(1, 1, "item 4")];
      var data := Stamped(raw, 0);
      Reorder(data, 1, Target(1, 0, 0, 3))
        == [Item(2, 0, 0, "item 2"), Item(3, 0, 1, "item 3"), Item(1, 0, 1, "item 1"), Item(4, 1, 1, "item 4")]
  {
    var raw := [RawItem(0, 0, "item 1"), RawItem(0, 0, "item 2"), RawItem(0, 1, "item 3"), RawItem(1, 1, "item 4")];
    var data := Stamped(raw, 0);
    assert data == [Item(1, 0, 0, "item 1"), Item(2, 0, 0, "item 2"), Item(3, 0, 1, "item 3"), Item(4, 1, 1, "item 4")];
    StampedIdsFresh(raw, 0);
    var t := Target(1, 0, 0, 3);
    ReorderIsInsert(data, 1, t, 0);
    assert data[1..][1..] == data[2..];
    assert IndexOfId(data[2..], 3) == 0;
    assert IndexOfId(data[1..], 3) == 1;
    assert IndexOfId(data, 3) == 2;
    assert data[1..] == [Item(2, 0, 0, "item 2"), Item(3, 0, 1, "item 3"), Item(4, 1, 1, "item 4")];
  }
}
