/** Rust's `slice::sort_by_key`, which src/main.rs calls twice: a stable sort
    into ascending order of an integer key. It is given here as insertion
    sort, and `SortIsUnique` shows that every stable sort has this result. */
module StableSort {

  /** Keys never decrease from left to right. */
  ghost predicate SortedByKey<T>(s: seq<T>, key: T -> int)
  {
    forall i, j :: 0 <= i < j < |s| ==> key(s[i]) <= key(s[j])
  }

  /** No two elements share a key. */
  ghost predicate DistinctKeys<T>(s: seq<T>, key: T -> int)
  {
    forall i, j :: 0 <= i < j < |s| ==> key(s[i]) != key(s[j])
  }

  /** The elements whose key is `k`, in their original order. */
  function Filter<T>(s: seq<T>, key: T -> int, k: int): seq<T>
    decreases |s|
  {
    if s == [] then []
    else Filter(s[..|s| - 1], key, k) + (if key(s[|s| - 1]) == k then [s[|s| - 1]] else [])
  }

  /** One insertion step: `x` goes after every element whose key is at most
      its own, scanning from the back. */
  function Insert<T>(s: seq<T>, x: T, key: T -> int): (r: seq<T>)
    ensures |r| == |s| + 1
    decreases |s|
  {
    if s == [] || key(s[|s| - 1]) <= key(x) then s + [x]
    else Insert(s[..|s| - 1], x, key) + [s[|s| - 1]]
  }

  /** Where `Insert` puts `x`. */
  function InsertionPoint<T>(s: seq<T>, x: T, key: T -> int): (j: nat)
    ensures j <= |s|
    decreases |s|
  {
    if s == [] || key(s[|s| - 1]) <= key(x) then |s|
    else InsertionPoint(s[..|s| - 1], x, key)
  }

  /** The sort itself: insert the elements one after the other. */
  function SortByKey<T>(s: seq<T>, key: T -> int): (r: seq<T>)
    ensures |r| == |s|
    decreases |s|
  {
    if s == [] then []
    else Insert(SortByKey(s[..|s| - 1], key), s[|s| - 1], key)
  }

  /** `Insert` adds exactly `x`. */
  lemma {:induction false} InsertPermutes<T>(s: seq<T>, x: T, key: T -> int)
    ensures multiset(Insert(s, x, key)) == multiset(s) + multiset{x}
    decreases |s|
  {
    if !(s == [] || key(s[|s| - 1]) <= key(x)) {
      InsertPermutes(s[..|s| - 1], x, key);
      assert s == s[..|s| - 1] + [s[|s| - 1]];
    }
  }

  /** The sort is a permutation. */
  lemma {:induction false} SortPermutes<T>(s: seq<T>, key: T -> int)
    ensures multiset(SortByKey(s, key)) == multiset(s)
    decreases |s|
  {
    if s != [] {
      SortPermutes(s[..|s| - 1], key);
      InsertPermutes(SortByKey(s[..|s| - 1], key), s[|s| - 1], key);
      assert s == s[..|s| - 1] + [s[|s| - 1]];
    }
  }

  /** `Insert` puts `x` at its insertion point. */
  lemma {:induction false} InsertAt<T>(s: seq<T>, x: T, key: T -> int)
    ensures Insert(s, x, key)
         == s[..InsertionPoint(s, x, key)] + [x] + s[InsertionPoint(s, x, key)..]
    decreases |s|
  {
    if s == [] || key(s[|s| - 1]) <= key(x) {
      assert s[..|s|] == s && s[|s|..] == [];
    } else {
      var t := s[..|s| - 1];
      InsertAt(t, x, key);
      var j := InsertionPoint(t, x, key);
      assert t[..j] == s[..j];
      assert t[j..] + [s[|s| - 1]] == s[j..];
    }
  }

  /** Everything after the insertion point has a larger key than `x`. */
  lemma {:induction false} AfterInsertionPoint<T>(s: seq<T>, x: T, key: T -> int)
    ensures forall i :: InsertionPoint(s, x, key) <= i < |s| ==> key(s[i]) > key(x)
    decreases |s|
  {
    if !(s == [] || key(s[|s| - 1]) <= key(x)) {
      var t := s[..|s| - 1];
      AfterInsertionPoint(t, x, key);
    }
  }

  /** In a sorted sequence, everything before the insertion point has a key
      no larger than `x`'s. */
  lemma {:induction false} BeforeInsertionPoint<T>(s: seq<T>, x: T, key: T -> int)
    requires SortedByKey(s, key)
    ensures forall i :: 0 <= i < InsertionPoint(s, x, key) ==> key(s[i]) <= key(x)
    decreases |s|
  {
    if s != [] {
      var t := s[..|s| - 1];
      if key(s[|s| - 1]) <= key(x) {
        forall i | 0 <= i < |s|
          ensures key(s[i]) <= key(x)
        {
          if i < |s| - 1 {
            assert key(s[i]) <= key(s[|s| - 1]);
          }
        }
      } else {
        assert SortedByKey(t, key);
        BeforeInsertionPoint(t, x, key);
      }
    }
  }

  /** Inserting into a sorted sequence keeps it sorted. */
  lemma {:induction false} InsertKeepsSorted<T>(s: seq<T>, x: T, key: T -> int)
    requires SortedByKey(s, key)
    ensures SortedByKey(Insert(s, x, key), key)
  {
    InsertAt(s, x, key);
    AfterInsertionPoint(s, x, key);
    BeforeInsertionPoint(s, x, key);
    var j := InsertionPoint(s, x, key);
    var r := Insert(s, x, key);
    forall i, k | 0 <= i < k < |r|
      ensures key(r[i]) <= key(r[k])
    {
      var si := if i < j then i else i - 1;
      var sk := if k < j then k else k - 1;
      if i < j && k < j { assert r[i] == s[si] && r[k] == s[sk]; }
      else if i < j && k == j { assert r[i] == s[si] && r[k] == x; }
      else if i < j { assert r[i] == s[si] && r[k] == s[sk]; }
      else if i == j { assert r[i] == x && r[k] == s[sk]; }
      else { assert r[i] == s[si] && r[k] == s[sk]; }
    }
  }

  /** The result of the sort is sorted. */
  lemma {:induction false} SortIsSorted<T>(s: seq<T>, key: T -> int)
    ensures SortedByKey(SortByKey(s, key), key)
    decreases |s|
  {
    if s != [] {
      SortIsSorted(s[..|s| - 1], key);
      InsertKeepsSorted(SortByKey(s[..|s| - 1], key), s[|s| - 1], key);
    }
  }

  /** Sorting a sorted sequence changes nothing. */
  lemma {:induction false} SortOfSorted<T>(s: seq<T>, key: T -> int)
    requires SortedByKey(s, key)
    ensures SortByKey(s, key) == s
    decreases |s|
  {
    if s != [] {
      var t, x := s[..|s| - 1], s[|s| - 1];
      assert SortedByKey(t, key) by {
        forall i, j | 0 <= i < j < |t|
          ensures key(t[i]) <= key(t[j])
        {
          assert t[i] == s[i] && t[j] == s[j];
        }
      }
      SortOfSorted(t, key);
      assert SortByKey(s, key) == Insert(t, x, key);
      if t != [] {
        assert t[|t| - 1] == s[|s| - 2];
        assert key(t[|t| - 1]) <= key(x);
      }
      assert Insert(t, x, key) == t + [x];
      assert s == t + [x];
    }
  }

  /** Sorting a sorted sequence with one element appended inserts that element. */
  lemma {:induction false} SortOfSortedPlusOne<T>(s: seq<T>, x: T, key: T -> int)
    requires SortedByKey(s, key)
    ensures SortByKey(s + [x], key) == Insert(s, x, key)
  {
    assert (s + [x])[..|s|] == s;
    SortOfSorted(s, key);
  }

  lemma {:induction false} FilterAppend<T>(a: seq<T>, b: seq<T>, key: T -> int, k: int)
    ensures Filter(a + b, key, k) == Filter(a, key, k) + Filter(b, key, k)
    decreases |b|
  {
    if b == [] {
      assert a + b == a;
    } else {
      var b' := b[..|b| - 1];
      assert (a + b)[..|a + b| - 1] == a + b';
      FilterAppend(a, b', key, k);
    }
  }

  /** An element is kept by `Filter` exactly when it occurs and has the key. */
  lemma {:induction false} FilterMembers<T>(s: seq<T>, key: T -> int, k: int)
    ensures forall x :: x in Filter(s, key, k) <==> x in s && key(x) == k
    decreases |s|
  {
    if s != [] {
      FilterMembers(s[..|s| - 1], key, k);
      assert s == s[..|s| - 1] + [s[|s| - 1]];
    }
  }

  lemma {:induction false} FilterInsert<T>(s: seq<T>, x: T, key: T -> int, k: int)
    ensures Filter(Insert(s, x, key), key, k)
         == Filter(s, key, k) + (if key(x) == k then [x] else [])
    decreases |s|
  {
    if s == [] || key(s[|s| - 1]) <= key(x) {
      assert (s + [x])[..|s|] == s;
    } else {
      var t := s[..|s| - 1];
      var last := s[|s| - 1];
      FilterInsert(t, x, key, k);
      var inserted := Insert(t, x, key);
      assert (inserted + [last])[..|inserted|] == inserted;
      assert key(last) != key(x);
    }
  }

  /** Stability: elements with equal keys keep their relative order. */
  lemma {:induction false} SortIsStable<T>(s: seq<T>, key: T -> int, k: int)
    ensures Filter(SortByKey(s, key), key, k) == Filter(s, key, k)
    decreases |s|
  {
    if s != [] {
      var t := s[..|s| - 1];
      SortIsStable(t, key, k);
      FilterInsert(SortByKey(t, key), s[|s| - 1], key, k);
    }
  }

  /** In a sorted sequence no element has a larger key than the last one. */
  lemma {:induction false} LastKeyIsLargest<T>(s: seq<T>, key: T -> int, z: T)
    requires SortedByKey(s, key) && z in s
    ensures key(z) <= key(s[|s| - 1])
  {
    var i :| 0 <= i < |s| && s[i] == z;
    if i < |s| - 1 {
      assert key(s[i]) <= key(s[|s| - 1]);
    }
  }

  /** Sequences that agree on every key's elements have the same elements. */
  lemma {:induction false} SameFiltersSameMembers<T>(a: seq<T>, b: seq<T>, key: T -> int, z: T)
    requires forall k :: Filter(a, key, k) == Filter(b, key, k)
    ensures z in a <==> z in b
  {
    FilterMembers(a, key, key(z));
    FilterMembers(b, key, key(z));
    assert Filter(a, key, key(z)) == Filter(b, key, key(z));
  }

  /** Dropping the same last element keeps the filters equal. */
  lemma {:induction false} SameFiltersDropLast<T>(a: seq<T>, b: seq<T>, key: T -> int, k: int)
    requires a != [] && b != [] && a[|a| - 1] == b[|b| - 1]
    requires Filter(a, key, k) == Filter(b, key, k)
    ensures Filter(a[..|a| - 1], key, k) == Filter(b[..|b| - 1], key, k)
  {
    var x := a[|a| - 1];
    var tail := if key(x) == k then [x] else [];
    var fa, fb := Filter(a[..|a| - 1], key, k), Filter(b[..|b| - 1], key, k);
    assert fa + tail == fb + tail;
    assert |fa| == |fb|;
    assert fa == (fa + tail)[..|fa|];
    assert fb == (fb + tail)[..|fb|];
  }

  /** A sorted sequence stays sorted without its last element. */
  lemma {:induction false} SortedDropLast<T>(s: seq<T>, key: T -> int)
    requires SortedByKey(s, key) && s != []
    ensures SortedByKey(s[..|s| - 1], key)
  {
    var t := s[..|s| - 1];
    forall i, j | 0 <= i < j < |t|
      ensures key(t[i]) <= key(t[j])
    {
      assert t[i] == s[i] && t[j] == s[j];
    }
  }

  /** Two non-empty sorted sequences that agree on every key's elements end
      with the same element. */
  lemma {:induction false} SameFiltersSameLast<T>(a: seq<T>, b: seq<T>, key: T -> int)
    requires SortedByKey(a, key) && SortedByKey(b, key) && a != [] && b != []
    requires forall k :: Filter(a, key, k) == Filter(b, key, k)
    ensures a[|a| - 1] == b[|b| - 1]
  {
    var x, y := a[|a| - 1], b[|b| - 1];
    SameFiltersSameMembers(a, b, key, x);
    SameFiltersSameMembers(a, b, key, y);
    LastKeyIsLargest(a, key, y);
    LastKeyIsLargest(b, key, x);
    var fa, fb := Filter(a, key, key(x)), Filter(b, key, key(x));
    assert fa == Filter(a[..|a| - 1], key, key(x)) + [x];
    assert fb == Filter(b[..|b| - 1], key, key(x)) + [y];
    assert fa == fb;
    assert fa[|fa| - 1] == x && fb[|fb| - 1] == y;
  }

  /** Two sorted sequences that agree on every key's elements, in order, are equal. */
  lemma {:induction false} SortedWithSameFiltersEqual<T>(a: seq<T>, b: seq<T>, key: T -> int)
    requires SortedByKey(a, key) && SortedByKey(b, key)
    requires forall k :: Filter(a, key, k) == Filter(b, key, k)
    ensures a == b
    decreases |a| + |b|
  {
    if a == [] || b == [] {
      if a != [] {
        SameFiltersSameMembers(a, b, key, a[0]);
      } else if b != [] {
        SameFiltersSameMembers(a, b, key, b[0]);
      }
    } else {
      var a', b' := a[..|a| - 1], b[..|b| - 1];
      SameFiltersSameLast(a, b, key);
      forall k
        ensures Filter(a', key, k) == Filter(b', key, k)
      {
        SameFiltersDropLast(a, b, key, k);
      }
      SortedDropLast(a, key);
      SortedDropLast(b, key);
      SortedWithSameFiltersEqual(a', b', key);
      assert a == a' + [a[|a| - 1]] && b == b' + [b[|b| - 1]];
    }
  }

  /** Any stable sort of `s` (sorted by key, equal keys in their original
      order) is `SortByKey(s, key)`. */
  lemma {:induction false} SortIsUnique<T>(s: seq<T>, r: seq<T>, key: T -> int)
    requires SortedByKey(r, key)
    requires forall k :: Filter(r, key, k) == Filter(s, key, k)
    ensures r == SortByKey(s, key)
  {
    SortIsSorted(s, key);
    forall k
      ensures Filter(r, key, k) == Filter(SortByKey(s, key), key, k)
    {
      SortIsStable(s, key, k);
    }
    SortedWithSameFiltersEqual(r, SortByKey(s, key), key);
  }

  /** Inserting an element with a new key keeps keys distinct. */
  lemma {:induction false} InsertKeepsKeysDistinct<T>(s: seq<T>, x: T, key: T -> int)
    requires DistinctKeys(s, key)
    requires forall y :: y in s ==> key(y) != key(x)
    ensures DistinctKeys(Insert(s, x, key), key)
  {
    InsertAt(s, x, key);
    var j := InsertionPoint(s, x, key);
    var r := Insert(s, x, key);
    forall i, k | 0 <= i < k < |r|
      ensures key(r[i]) != key(r[k])
    {
      var si := if i < j then i else i - 1;
      var sk := if k < j then k else k - 1;
      if i == j { assert r[i] == x && r[k] == s[sk]; }
      else if k == j { assert r[i] == s[si] && r[k] == x; }
      else { assert r[i] == s[si] && r[k] == s[sk] && si < sk; }
    }
  }

  /** Sorting keeps keys distinct. */
  lemma {:induction false} SortKeepsKeysDistinct<T>(s: seq<T>, key: T -> int)
    requires DistinctKeys(s, key)
    ensures DistinctKeys(SortByKey(s, key), key)
    decreases |s|
  {
    if s != [] {
      var t, x := s[..|s| - 1], s[|s| - 1];
      assert DistinctKeys(t, key) by {
        forall i, j | 0 <= i < j < |t|
          ensures key(t[i]) != key(t[j])
        {
          assert t[i] == s[i] && t[j] == s[j];
        }
      }
      SortKeepsKeysDistinct(t, key);
      var sorted := SortByKey(t, key);
      SortPermutes(t, key);
      forall y | y in sorted
        ensures key(y) != key(x)
      {
        assert y in multiset(sorted);
        var i :| 0 <= i < |t| && t[i] == y;
        assert s[i] == y;
      }
      InsertKeepsKeysDistinct(sorted, x, key);
    }
  }
}
