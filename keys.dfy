/**
 * Registry and hover keys. The source builds them as template strings such as
 * `${sectionId}-${row}`; the model keeps them as pairs of indices and shows here
 * that, for non-negative indices, the string form is injective, so comparing the
 * pairs is the same as comparing the strings. This module also holds the row
 * activation test of Swimlane.tsx:419, which uses substring containment.
 */
module Keys {
  import opened Common

  /** The key `${section}-${row}` of one materialised section row. */
  datatype RowKey = RowKey(section: nat, row: nat)

  function DigitChar(d: nat): (c: char)
    requires d < 10
    ensures '0' <= c <= '9'
  {
    "0123456789"[d]
  }

  /** The decimal rendering of a non-negative integer, as a template string produces it. */
  function NatToString(n: nat): (s: string)
    ensures |s| >= 1
    ensures forall i :: 0 <= i < |s| ==> '0' <= s[i] <= '9'
    decreases n
  {
    if n < 10 then [DigitChar(n)] else NatToString(n / 10) + [DigitChar(n % 10)]
  }

  /** `${key.section}-${key.row}` */
  function RowKeyString(key: RowKey): string
  {
    NatToString(key.section) + "-" + NatToString(key.row)
  }

  lemma DigitCharInjective(d: nat, e: nat)
    requires d < 10 && e < 10 && DigitChar(d) == DigitChar(e)
    ensures d == e
  {
  }

  /** The last character of a rendering is the last digit; what precedes it renders the rest. */
  lemma NatToStringSplit(n: nat)
    requires n >= 10
    ensures |NatToString(n)| >= 2
    ensures NatToString(n)[..|NatToString(n)| - 1] == NatToString(n / 10)
    ensures NatToString(n)[|NatToString(n)| - 1] == DigitChar(n % 10)
  {
    var p := NatToString(n / 10);
    assert NatToString(n) == p + [DigitChar(n % 10)];
  }

  lemma {:induction false} NatToStringInjective(a: nat, b: nat)
    requires NatToString(a) == NatToString(b)
    ensures a == b
    decreases a
  {
    if a < 10 && b < 10 {
      DigitCharInjective(a, b);
    } else if a >= 10 && b >= 10 {
      NatToStringSplit(a);
      NatToStringSplit(b);
      DigitCharInjective(a % 10, b % 10);
      NatToStringInjective(a / 10, b / 10);
    } else if a < 10 {
      NatToStringSplit(b);
    } else {
      NatToStringSplit(a);
    }
  }

  /** The position of the first '-' in `s` (or |s| when there is none). */
  function FirstDash(s: string): nat
  {
    if s == [] || s[0] == '-' then 0 else 1 + FirstDash(s[1..])
  }

  lemma {:induction false} FirstDashAfterDigits(digits: string, rest: string)
    requires forall i :: 0 <= i < |digits| ==> '0' <= digits[i] <= '9'
    ensures FirstDash(digits + "-" + rest) == |digits|
  {
    if digits != [] {
      assert (digits + "-" + rest)[1..] == digits[1..] + "-" + rest;
      FirstDashAfterDigits(digits[1..], rest);
    }
  }

  /** Two row keys render to the same string only when they are the same key. */
  lemma RowKeyStringInjective(a: RowKey, b: RowKey)
    requires RowKeyString(a) == RowKeyString(b)
    ensures a == b
  {
    var sa, sb := NatToString(a.section), NatToString(b.section);
    var s := RowKeyString(a);
    assert s == sa + "-" + NatToString(a.row);
    assert s == sb + "-" + NatToString(b.row);
    FirstDashAfterDigits(sa, NatToString(a.row));
    FirstDashAfterDigits(sb, NatToString(b.row));
    assert sa == s[..|sa|] == sb;
    NatToStringInjective(a.section, b.section);
    assert NatToString(a.row) == s[|sa| + 1..] == NatToString(b.row);
    NatToStringInjective(a.row, b.row);
  }

  /** `needle` occurs in `hay` starting at position `i`. */
  predicate OccursAt(hay: string, needle: string, i: int)
  {
    0 <= i && i + |needle| <= |hay| && hay[i..i + |needle|] == needle
  }

  /** String.prototype.includes */
  predicate Includes(hay: string, needle: string)
  {
    exists i | 0 <= i <= |hay| - |needle| :: OccursAt(hay, needle, i)
  }

  /**
   * `cursorEntered` of a section row as written at Swimlane.tsx:419:
   * `currentSectionRow?.includes(`${sectionId}-${rowIndex}`)`, false when there is no current row.
   */
  predicate CursorEnteredAsWritten(current: Option<RowKey>, row: RowKey)
  {
    current.Some? && Includes(RowKeyString(current.value), RowKeyString(row))
  }

  /** `cursorEntered` as evidently intended: the row is the current section row. */
  predicate CursorEntered(current: Option<RowKey>, row: RowKey)
  {
    current == Some(row)
  }

  /** As written, hovering row 12 of section 1 also activates row 1 of section 1 ("1-12" contains "1-1"). */
  lemma AsWrittenActivatesTwoRows()
    ensures CursorEnteredAsWritten(Some(RowKey(1, 12)), RowKey(1, 12))
    ensures CursorEnteredAsWritten(Some(RowKey(1, 12)), RowKey(1, 1))
    ensures RowKey(1, 12) != RowKey(1, 1)
  {
    assert NatToString(12) == NatToString(1) + [DigitChar(2)];
    assert RowKeyString(RowKey(1, 12)) == "1-12";
    assert RowKeyString(RowKey(1, 1)) == "1-1";
    assert OccursAt("1-12", "1-1", 0);
    assert OccursAt("1-12", "1-12", 0);
  }

  /** As written, the current row itself is always activated. */
  lemma AsWrittenActivatesCurrentRow(row: RowKey)
    ensures CursorEnteredAsWritten(Some(row), row)
  {
    var s := RowKeyString(row);
    assert s[0..|s|] == s;
    assert OccursAt(s, s, 0);
  }

  /** Intended behaviour: at most one row is activated, and it is one the as-written test also activates. */
  lemma CursorEnteredUnique(current: Option<RowKey>, a: RowKey, b: RowKey)
    requires CursorEntered(current, a) && CursorEntered(current, b)
    ensures a == b
    ensures CursorEnteredAsWritten(current, a)
  {
    AsWrittenActivatesCurrentRow(a);
  }
}
