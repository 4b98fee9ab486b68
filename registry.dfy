/**
 * The geometry registries of the swimlane are plain JavaScript objects that are
 * rebuilt with `{ ...obj, [k]: v }` and searched with lodash `find`. A JavaScript
 * object iterates its string keys in insertion order (overwriting a key keeps its
 * place) and its integer-like keys in ascending order. A registry is therefore
 * modelled as the ordered list of its (key, entry) pairs.
 */
module Registry {
  import opened Common

  type Reg<K, V> = seq<(K, V)>

  function Keys<K, V>(r: Reg<K, V>): (ks: seq<K>)
    ensures |ks| == |r|
  {
    seq(|r|, i requires 0 <= i < |r| => r[i].0)
  }

  /** No key is stored twice: what a JavaScript object guarantees. */
  predicate UniqueKeys<K(==), V>(r: Reg<K, V>)
  {
    forall i, j :: 0 <= i < j < |r| ==> r[i].0 != r[j].0
  }

  /** Integer keys in the order a JavaScript object iterates them. */
  predicate Ascending<V>(r: Reg<int, V>)
  {
    forall i, j :: 0 <= i < j < |r| ==> r[i].0 < r[j].0
  }

  /** `obj[k]`: the entry stored under `k`, if any. */
  function Get<K(==), V>(r: Reg<K, V>, k: K): Option<V>
  {
    if r == [] then None else if r[0].0 == k then Some(r[0].1) else Get(r[1..], k)
  }

  /** `{ ...obj, [k]: v }` for a string key: overwrite in place, or append at the end. */
  function Put<K(==), V>(r: Reg<K, V>, k: K, v: V): Reg<K, V>
  {
    if r == [] then [(k, v)]
    else if r[0].0 == k then [(k, v)] + r[1..]
    else [r[0]] + Put(r[1..], k, v)
  }

  /** `{ ...obj, [k]: v }` for an integer-like key: overwrite, or insert in key order. */
  function PutAscending<V>(r: Reg<int, V>, k: int, v: V): Reg<int, V>
  {
    if r == [] then [(k, v)]
    else if r[0].0 == k then [(k, v)] + r[1..]
    else if k < r[0].0 then [(k, v)] + r
    else [r[0]] + PutAscending(r[1..], k, v)
  }

  /** lodash `find` over the entries: the position of the first entry, in iteration order, that satisfies `p`. */
  function FindIndex<K, V>(r: Reg<K, V>, p: V -> bool): (o: Option<nat>)
    ensures o.Some? ==> o.value < |r| && p(r[o.value].1) && forall j :: 0 <= j < o.value ==> !p(r[j].1)
    ensures o.None? ==> forall j :: 0 <= j < |r| ==> !p(r[j].1)
  {
    if r == [] then None
    else if p(r[0].1) then Some(0)
    else match FindIndex(r[1..], p)
      case None => None
      case Some(i) => Some(i + 1)
  }

  /** lodash `find`: the first entry, in iteration order, that satisfies `p`. */
  function Find<K, V>(r: Reg<K, V>, p: V -> bool): Option<V>
  {
    match FindIndex(r, p)
    case None => None
    case Some(i) => Some(r[i].1)
  }

  /** After a write the key holds the new entry, and every other key keeps its entry. */
  lemma {:induction false} PutGet<K, V>(r: Reg<K, V>, k: K, v: V, k': K)
    ensures Get(Put(r, k, v), k) == Some(v)
    ensures k' != k ==> Get(Put(r, k, v), k') == Get(r, k')
  {
    if r != [] && r[0].0 != k {
      PutGet(r[1..], k, v, k');
    }
  }

  /** A write adds the new pair and keeps every pair under another key. */
  lemma {:induction false} PutEntries<K, V>(r: Reg<K, V>, k: K, v: V)
    ensures forall e :: e in Put(r, k, v) ==> e == (k, v) || e in r
    ensures forall e :: e in r && e.0 != k ==> e in Put(r, k, v)
  {
    if r != [] {
      assert forall e :: e in r ==> e == r[0] || e in r[1..];
      if r[0].0 != k {
        PutEntries(r[1..], k, v);
        assert Put(r, k, v) == [r[0]] + Put(r[1..], k, v);
      }
    }
  }

  /** A write overwrites in place when the key is present and appends it otherwise. */
  lemma {:induction false} PutKeys<K, V>(r: Reg<K, V>, k: K, v: V)
    ensures k in Keys(r) ==> Keys(Put(r, k, v)) == Keys(r)
    ensures k !in Keys(r) ==> Keys(Put(r, k, v)) == Keys(r) + [k]
  {
    if r != [] {
      assert Keys(r) == [r[0].0] + Keys(r[1..]);
      if r[0].0 != k {
        PutKeys(r[1..], k, v);
        assert Keys(Put(r, k, v)) == [r[0].0] + Keys(Put(r[1..], k, v));
      } else {
        assert Keys(Put(r, k, v)) == [k] + Keys(r[1..]);
      }
    }
  }

  /** A write keeps the keys unique. */
  lemma PutUnique<K, V>(r: Reg<K, V>, k: K, v: V)
    requires UniqueKeys(r)
    ensures UniqueKeys(Put(r, k, v))
  {
    PutKeys(r, k, v);
    var r' := Put(r, k, v);
    assert forall i :: 0 <= i < |r'| ==> r'[i].0 == Keys(r')[i];
    assert forall i :: 0 <= i < |r| ==> r[i].0 == Keys(r)[i];
  }

  /** An integer-keyed write adds the new pair and keeps every pair under another key. */
  lemma {:induction false} PutAscendingEntries<V>(r: Reg<int, V>, k: int, v: V)
    ensures forall e :: e in PutAscending(r, k, v) ==> e == (k, v) || e in r
    ensures forall e :: e in r && e.0 != k ==> e in PutAscending(r, k, v)
    ensures (k, v) in PutAscending(r, k, v)
  {
    if r != [] && r[0].0 != k && r[0].0 < k {
      PutAscendingEntries(r[1..], k, v);
      assert PutAscending(r, k, v) == [r[0]] + PutAscending(r[1..], k, v);
      assert forall e :: e in r ==> e == r[0] || e in r[1..];
    } else if r != [] && r[0].0 == k {
      assert forall e :: e in r ==> e == r[0] || e in r[1..];
    }
  }

  /** Integer-keyed writes keep the registry in ascending key order. */
  lemma {:induction false} PutAscendingOrdered<V>(r: Reg<int, V>, k: int, v: V)
    requires Ascending(r)
    ensures Ascending(PutAscending(r, k, v))
  {
    if r != [] && r[0].0 != k && r[0].0 < k {
      PutAscendingOrdered(r[1..], k, v);
      var t := PutAscending(r[1..], k, v);
      PutAscendingEntries(r[1..], k, v);
      assert PutAscending(r, k, v) == [r[0]] + t;
      forall i, j | 0 <= i < j < |[r[0]] + t|
        ensures ([r[0]] + t)[i].0 < ([r[0]] + t)[j].0
      {
        if i == 0 {
          assert t[j - 1] in t;
        }
      }
    }
  }

  /** An integer-keyed write stores the entry under its key and leaves the other keys alone. */
  lemma {:induction false} PutAscendingGet<V>(r: Reg<int, V>, k: int, v: V, k': int)
    requires Ascending(r)
    ensures Get(PutAscending(r, k, v), k) == Some(v)
    ensures k' != k ==> Get(PutAscending(r, k, v), k') == Get(r, k')
  {
    if r != [] && r[0].0 != k {
      if r[0].0 < k {
        PutAscendingGet(r[1..], k, v, k');
      } else if k' != k && k' < r[0].0 {
        GetAbsentBelow(r, k');
      }
    }
  }

  /** In an ascending registry no key below the first one is present. */
  lemma {:induction false} GetAbsentBelow<V>(r: Reg<int, V>, k: int)
    requires Ascending(r)
    requires r != [] && k < r[0].0
    ensures Get(r, k) == None
  {
    if |r| > 1 {
      GetAbsentBelow(r[1..], k);
    }
  }
}
