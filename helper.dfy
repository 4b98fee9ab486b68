/**
 * The helpers of src/components/helper.ts: the rectangle hit test, the
 * column-population scan and the filtering map, plus the `insert` helper
 * that Swimlane.tsx imports from the same file.
 */
module Helper {
  import opened Common

  /** A LayoutRectangle: origin and size in the parent view's coordinate space. */
  datatype Rect = Rect(x: int, y: int, width: int, height: int)

  datatype Point = Point(x: int, y: int)

  // ---------------------------------------------------------------------
  // isPointEntered
  // ---------------------------------------------------------------------

  /** The point lies in the closed rectangle spanned by `layout`. */
  predicate IsPointEntered(p: Point, layout: Rect)
  {
    var xMin := layout.x;
    var xMax := layout.x + layout.width;
    var yMin := layout.y;
    var yMax := layout.y + layout.height;
    p.x >= xMin && p.x <= xMax && p.y >= yMin && p.y <= yMax
  }

  /** All four bounds are inclusive: every corner of a well-formed rectangle is inside. */
  lemma CornersEntered(layout: Rect)
    requires layout.width >= 0 && layout.height >= 0
    ensures IsPointEntered(Point(layout.x, layout.y), layout)
    ensures IsPointEntered(Point(layout.x + layout.width, layout.y), layout)
    ensures IsPointEntered(Point(layout.x, layout.y + layout.height), layout)
    ensures IsPointEntered(Point(layout.x + layout.width, layout.y + layout.height), layout)
  {
  }

  /** The bounds are tight: one unit beyond any edge is outside. */
  lemma JustOutsideNotEntered(p: Point, layout: Rect)
    requires p.x == layout.x - 1 || p.x == layout.x + layout.width + 1
          || p.y == layout.y - 1 || p.y == layout.y + layout.height + 1
    ensures !IsPointEntered(p, layout)
  {
  }

  /** A rectangle with a negative width or height contains no point at all. */
  lemma NegativeSizeNeverEntered(p: Point, layout: Rect)
    requires layout.width < 0 || layout.height < 0
    ensures !IsPointEntered(p, layout)
  {
  }

  // ---------------------------------------------------------------------
  // colMaxItems
  // ---------------------------------------------------------------------

  /** The object `{ columnIndex, itemNumbers }` that colMaxItems returns. */
  datatype ColMaxResult = ColMaxResult(columnIndex: int, itemNumbers: nat)

  /** The pair `(idx, maxSum)` after the first `n` iterations of the column loop over `row`. */
  function ColMaxPrefix<T>(row: seq<seq<T>>, n: nat): ColMaxResult
    requires n <= |row|
  {
    if n == 0 then ColMaxResult(-1, 0)
    else
      var prev := ColMaxPrefix(row, n - 1);
      if |row[n - 1]| > prev.itemNumbers then ColMaxResult(n - 1, |row[n - 1]|) else prev
  }

  /** The precondition of colMaxItems: `matrix[0][i]` exists for every column index `i`. */
  predicate ColMaxDefined<T>(matrix: seq<seq<seq<T>>>, columnCount: nat)
  {
    columnCount > 0 ==> |matrix| > 0 && columnCount <= |matrix[0]|
  }

  /** The value colMaxItems(matrix, columns) computes, as a function; it looks at `matrix[0]` only. */
  function ColMax<T>(matrix: seq<seq<seq<T>>>, columnCount: nat): ColMaxResult
    requires ColMaxDefined(matrix, columnCount)
  {
    if columnCount == 0 then ColMaxResult(-1, 0) else ColMaxPrefix(matrix[0], columnCount)
  }

  /**
   * The scan finds the largest bucket among the first `n`, reports -1 exactly when
   * all of them are empty, and otherwise reports the FIRST bucket of maximal length
   * (a later bucket of the same length does not win, because the update uses `>`).
   */
  lemma {:induction false} ColMaxPrefixSpec<T>(row: seq<seq<T>>, n: nat)
    requires n <= |row|
    ensures forall i :: 0 <= i < n ==> |row[i]| <= ColMaxPrefix(row, n).itemNumbers
    ensures ColMaxPrefix(row, n).columnIndex == -1 <==> ColMaxPrefix(row, n).itemNumbers == 0
    ensures var r := ColMaxPrefix(row, n);
      r.columnIndex != -1 ==>
        && 0 <= r.columnIndex < n
        && |row[r.columnIndex]| == r.itemNumbers
        && forall i :: 0 <= i < r.columnIndex ==> |row[i]| < r.itemNumbers
  {
    if n > 0 {
      ColMaxPrefixSpec(row, n - 1);
    }
  }

  /** The result of colMaxItems depends on the first `columnCount` buckets of `matrix[0]` only. */
  lemma {:induction false} ColMaxPrefixOnlyReadsPrefix<T>(row: seq<seq<T>>, row': seq<seq<T>>, n: nat)
    requires n <= |row| && n <= |row'|
    requires forall i :: 0 <= i < n ==> |row[i]| == |row'[i]|
    ensures ColMaxPrefix(row, n) == ColMaxPrefix(row', n)
  {
    if n > 0 {
      ColMaxPrefixOnlyReadsPrefix(row, row', n - 1);
    }
  }

  /** colMaxItems ignores every row but `matrix[0]` and every bucket past the last column. */
  lemma ColMaxOnlyReadsFirstRow<T>(matrix: seq<seq<seq<T>>>, matrix': seq<seq<seq<T>>>, columnCount: nat)
    requires ColMaxDefined(matrix, columnCount) && ColMaxDefined(matrix', columnCount)
    requires columnCount > 0 ==> forall i :: 0 <= i < columnCount ==> |matrix[0][i]| == |matrix'[0][i]|
    ensures ColMax(matrix, columnCount) == ColMax(matrix', columnCount)
  {
    if columnCount > 0 {
      ColMaxPrefixOnlyReadsPrefix(matrix[0], matrix'[0], columnCount);
    }
  }

  /** colMaxItems: the `for` loop over the columns, keeping the index and size of the largest bucket. */
  method ColMaxItems<T>(matrix: seq<seq<seq<T>>>, columnCount: nat) returns (columnIndex: int, itemNumbers: nat)
    requires ColMaxDefined(matrix, columnCount)
    ensures ColMaxResult(columnIndex, itemNumbers) == ColMax(matrix, columnCount)
    ensures forall i :: 0 <= i < columnCount ==> |matrix[0][i]| <= itemNumbers
    ensures columnIndex == -1 <==> itemNumbers == 0
    ensures columnIndex != -1 ==>
      && 0 <= columnIndex < columnCount
      && |matrix[0][columnIndex]| == itemNumbers
      && forall i :: 0 <= i < columnIndex ==> |matrix[0][i]| < itemNumbers
  {
    var idx := -1;
    var maxSum := 0;
    for i := 0 to columnCount
      invariant i == 0 ==> idx == -1 && maxSum == 0
      invariant columnCount > 0 ==> ColMaxResult(idx, maxSum) == ColMaxPrefix(matrix[0], i)
    {
      var sum := |matrix[0][i]|;
      if sum > maxSum {
        maxSum := sum;
        idx := i;
      }
    }
    columnIndex, itemNumbers := idx, maxSum;
    if columnCount > 0 {
      ColMaxPrefixSpec(matrix[0], columnCount);
    }
  }

  // ---------------------------------------------------------------------
  // compactMap
  // ---------------------------------------------------------------------

  /**
   * The `reduce` of compactMap after its first `k` steps. The callback's result is an
   * Option: `None` stands for every falsy value (the ones compactMap drops).
   */
  function CompactReduce<T, U>(coll: seq<T>, callback: (T, nat, seq<T>) -> Option<U>, k: nat): seq<U>
    requires k <= |coll|
  {
    if k == 0 then []
    else
      var memo := CompactReduce(coll, callback, k - 1);
      var result := callback(coll[k - 1], k - 1, coll);
      if result.Some? then memo + [result.value] else memo
  }

  /** compactMap(collection, callbackfn); `None` is a null or undefined collection. */
  function CompactMap<T, U>(collection: Option<seq<T>>, callback: (T, nat, seq<T>) -> Option<U>): seq<U>
  {
    var coll := if collection.Some? then collection.value else [];
    CompactReduce(coll, callback, |coll|)
  }

  /** Every callback result, in input order (the reference for compactMap). */
  function Mapped<T, U>(coll: seq<T>, callback: (T, nat, seq<T>) -> Option<U>): (m: seq<Option<U>>)
    ensures |m| == |coll|
  {
    seq(|coll|, i requires 0 <= i < |coll| => callback(coll[i], i, coll))
  }

  /** The present values of `s`, in order. */
  function Somes<U>(s: seq<Option<U>>): seq<U>
  {
    if s == [] then [] else (if s[0].Some? then [s[0].value] else []) + Somes(s[1..])
  }

  lemma {:induction false} SomesAppend<U>(a: seq<Option<U>>, b: seq<Option<U>>)
    ensures Somes(a + b) == Somes(a) + Somes(b)
  {
    if a == [] {
      assert a + b == b;
    } else {
      assert (a + b)[1..] == a[1..] + b;
      SomesAppend(a[1..], b);
    }
  }

  /** Somes keeps at most as many values as it is given, exactly the present ones. */
  lemma {:induction false} SomesSpec<U>(s: seq<Option<U>>)
    ensures |Somes(s)| <= |s|
    ensures forall x :: x in Somes(s) <==> Some(x) in s
    ensures (forall i :: 0 <= i < |s| ==> s[i].Some?) ==> |Somes(s)| == |s|
    ensures (forall i :: 0 <= i < |s| ==> s[i].None?) ==> Somes(s) == []
  {
    if s != [] {
      SomesSpec(s[1..]);
      assert s == [s[0]] + s[1..];
      forall x
        ensures x in Somes(s) <==> Some(x) in s
      {
        assert Some(x) in s <==> s[0] == Some(x) || Some(x) in s[1..];
      }
    }
  }

  /** When no result is falsy, Somes keeps each one at its own position. */
  lemma {:induction false} SomesAllPresent<U>(s: seq<Option<U>>)
    requires forall i :: 0 <= i < |s| ==> s[i].Some?
    ensures |Somes(s)| == |s|
    ensures forall i :: 0 <= i < |s| ==> Somes(s)[i] == s[i].value
  {
    if s != [] {
      SomesAllPresent(s[1..]);
    }
  }

  /** The reduce prefix keeps exactly the truthy results of the first `k` elements. */
  lemma {:induction false} CompactReducePrefix<T, U>(coll: seq<T>, callback: (T, nat, seq<T>) -> Option<U>, k: nat)
    requires k <= |coll|
    ensures CompactReduce(coll, callback, k) == Somes(Mapped(coll, callback)[..k])
  {
    if k > 0 {
      var m := Mapped(coll, callback);
      CompactReducePrefix(coll, callback, k - 1);
      assert m[..k] == m[..k - 1] + [m[k - 1]];
      SomesAppend(m[..k - 1], [m[k - 1]]);
      assert Somes([m[k - 1]]) == (if m[k - 1].Some? then [m[k - 1].value] else []) by {
        assert [m[k - 1]][1..] == [];
      }
    }
  }

  /** compactMap returns the non-falsy callback results in input order. */
  lemma CompactMapIsFilter<T, U>(coll: seq<T>, callback: (T, nat, seq<T>) -> Option<U>)
    ensures CompactMap(Some(coll), callback) == Somes(Mapped(coll, callback))
    ensures |CompactMap(Some(coll), callback)| <= |coll|
  {
    var m := Mapped(coll, callback);
    CompactReducePrefix(coll, callback, |coll|);
    assert m[..|coll|] == m;
    SomesSpec(m);
  }

  /** compactMap of a null or undefined collection is empty. */
  lemma CompactMapOfNothing<T, U>(callback: (T, nat, seq<T>) -> Option<U>)
    ensures CompactMap(None, callback) == []
  {
  }

  // ---------------------------------------------------------------------
  // insert
  // ---------------------------------------------------------------------

  /**
   * `insert(s, i, x)`, imported by Swimlane.tsx from ./helper but not defined there.
   * ASSUMED behaviour: the element is placed before position `i` when `0 <= i <= |s|`
   * and, like `slice`-based implementations, appended when `i` is past the end.
   */
  function Insert<T>(s: seq<T>, i: nat, x: T): (r: seq<T>)
    ensures |r| == |s| + 1
    ensures i <= |s| ==> r[i] == x && r[..i] == s[..i] && r[i + 1..] == s[i..]
  {
    if i <= |s| then s[..i] + [x] + s[i..] else s + [x]
  }
}
