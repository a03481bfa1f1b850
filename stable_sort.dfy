/** A sort by an integer key, standing for `Array.prototype.sort` with a
    comparator of the form `key(a) - key(b)`. Insertion sort stands for it:
    each element is inserted after every element whose key is not greater,
    so it sorts by key and, on the inputs used here (an already sorted list
    with one element appended), agrees with a stable sort. */
module StableSort {

  ghost predicate SortedBy<T>(s: seq<T>, key: T -> int)
  {
    forall i, j :: 0 <= i < j < |s| ==> key(s[i]) <= key(s[j])
  }

  /** Where `x` lands: scanning from the back, just after the first element
      met whose key is at most `key(x)` (or at the front if there is none). */
  function InsertionPoint<T>(s: seq<T>, x: T, key: T -> int): (k: nat)
    ensures k <= |s|
  {
    if |s| == 0 then 0
    else if key(s[|s| - 1]) <= key(x) then |s|
    else InsertionPoint(s[..|s| - 1], x, key)
  }

  /** Inserts `x` after every element at its position with a key not greater than its own. */
  function InsertAfter<T>(s: seq<T>, x: T, key: T -> int): (r: seq<T>)
    ensures |r| == |s| + 1
    ensures multiset(r) == multiset(s) + multiset{x}
  {
    if |s| == 0 then [x]
    else if key(s[|s| - 1]) <= key(x) then s + [x]
    else
      var init := s[..|s| - 1];
      assert s == init + [s[|s| - 1]];
      InsertAfter(init, x, key) + [s[|s| - 1]]
  }

  /** Insertion sort, taking the elements in their original order. */
  function SortBy<T>(s: seq<T>, key: T -> int): (r: seq<T>)
    ensures multiset(r) == multiset(s)
    ensures SortedBy(r, key)
  {
    if |s| == 0 then []
    else
      var init := s[..|s| - 1];
      assert s == init + [s[|s| - 1]];
      var sorted := SortBy(init, key);
      InsertAfterKeepsSorted(sorted, s[|s| - 1], key);
      InsertAfter(sorted, s[|s| - 1], key)
  }

  /** The inserted element sits at the insertion point; the rest keep their order. */
  lemma {:induction false} InsertAfterShape<T>(s: seq<T>, x: T, key: T -> int)
    ensures InsertAfter(s, x, key) == s[..InsertionPoint(s, x, key)] + [x] + s[InsertionPoint(s, x, key)..]
  {
    var k := InsertionPoint(s, x, key);
    if |s| == 0 {
      assert InsertAfter(s, x, key) == [x];
    } else if key(s[|s| - 1]) <= key(x) {
      assert k == |s| && s[..k] == s && s[k..] == [];
      assert InsertAfter(s, x, key) == s + [x];
    } else {
      var init := s[..|s| - 1];
      var last := s[|s| - 1];
      InsertAfterShape(init, x, key);
      assert k == InsertionPoint(init, x, key);
      assert InsertAfter(s, x, key) == InsertAfter(init, x, key) + [last];
      assert s == init + [last];
      SpliceSnoc(init, x, last, k);
    }
  }

  /** Splicing `x` in at `k` commutes with appending an element at the end. */
  lemma SpliceSnoc<T>(a: seq<T>, x: T, last: T, k: nat)
    requires k <= |a|
    ensures a[..k] + [x] + a[k..] + [last] == (a + [last])[..k] + [x] + (a + [last])[k..]
  {
    assert (a + [last])[..k] == a[..k];
    assert (a + [last])[k..] == a[k..] + [last];
  }

  /** The head after an insertion into a sorted sequence: `x` exactly when
      the old head has a greater key. */
  lemma HeadOfInsertAfter<T>(s: seq<T>, x: T, key: T -> int)
    requires SortedBy(s, key) && |s| > 0
    ensures InsertAfter(s, x, key)[0] == if key(s[0]) > key(x) then x else s[0]
  {
    InsertAfterShape(s, x, key);
    InsertionPointSplits(s, x, key);
    var k := InsertionPoint(s, x, key);
    if k == 0 {
      assert key(s[0]) > key(x);
      assert (s[..k] + [x] + s[k..])[0] == x;
    } else {
      assert key(s[0]) <= key(x);
      assert (s[..k] + [x] + s[k..])[0] == s[0];
    }
  }

  /** In a sorted sequence, everything before the insertion point has a key
      at most `key(x)` and everything from it on has a greater key: the new
      element comes after all equal-keyed elements. */
  lemma {:induction false} InsertionPointSplits<T>(s: seq<T>, x: T, key: T -> int)
    requires SortedBy(s, key)
    ensures forall i :: 0 <= i < InsertionPoint(s, x, key) ==> key(s[i]) <= key(x)
    ensures forall i :: InsertionPoint(s, x, key) <= i < |s| ==> key(s[i]) > key(x)
  {
    if |s| > 0 && key(s[|s| - 1]) > key(x) {
      var init := s[..|s| - 1];
      assert SortedBy(init, key);
      InsertionPointSplits(init, x, key);
    }
  }

  lemma InsertAfterKeepsSorted<T>(s: seq<T>, x: T, key: T -> int)
    requires SortedBy(s, key)
    ensures SortedBy(InsertAfter(s, x, key), key)
  {
    InsertAfterShape(s, x, key);
    InsertionPointSplits(s, x, key);
    var k := InsertionPoint(s, x, key);
    var r := InsertAfter(s, x, key);
    assert forall i :: 0 <= i < |r| ==> r[i] == (if i < k then s[i] else if i == k then x else s[i - 1]);
  }

  /** Sorting a sorted sequence changes nothing. */
  lemma {:induction false} SortBySorted<T>(s: seq<T>, key: T -> int)
    requires SortedBy(s, key)
    ensures SortBy(s, key) == s
  {
    if |s| > 0 {
      var init := s[..|s| - 1];
      assert SortedBy(init, key);
      SortBySorted(init, key);
      assert s == init + [s[|s| - 1]];
    }
  }

  /** Sorting a sorted sequence with one element appended is inserting it. */
  lemma SortByAppend<T>(s: seq<T>, x: T, key: T -> int)
    requires SortedBy(s, key)
    ensures SortBy(s + [x], key) == InsertAfter(s, x, key)
  {
    assert (s + [x])[..|s|] == s;
    SortBySorted(s, key);
  }
}
