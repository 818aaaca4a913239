/** Python's `sorted(xs, key=f)`: a stable sort by key. A stable sort's output
    is determined by its input (sorted by key, and within one key the input
    order), so an insertion sort models it exactly. */
module StableSort {

  predicate SortedBy<T>(s: seq<T>, key: T -> int) {
    forall i, j :: 0 <= i < j < |s| ==> key(s[i]) <= key(s[j])
  }

  /** The elements of s whose key is k, in their order in s. */
  function WithKey<T>(s: seq<T>, key: T -> int, k: int): (r: seq<T>)
    ensures |r| <= |s|
  {
    if |s| == 0 then []
    else WithKey(s[..|s| - 1], key, k) + (if key(s[|s| - 1]) == k then [s[|s| - 1]] else [])
  }

  /** Places x after every element of t whose key does not exceed x's. */
  function Insert<T>(t: seq<T>, x: T, key: T -> int): (r: seq<T>)
    requires SortedBy(t, key)
    ensures SortedBy(r, key)
    ensures multiset(r) == multiset(t) + multiset{x}
    decreases |t|
  {
    if |t| == 0 || key(t[|t| - 1]) <= key(x) then t + [x]
    else
      var init, last := t[..|t| - 1], t[|t| - 1];
      assert t == init + [last];
      var r' := Insert(init, x, key);
      AppendLargest(t, x, r', key);
      r' + [last]
  }

  /** Putting t's last element after a sorted rearrangement of t's other
      elements and a smaller x keeps the result sorted. */
  lemma AppendLargest<T>(t: seq<T>, x: T, r': seq<T>, key: T -> int)
    requires SortedBy(t, key) && |t| > 0 && key(x) < key(t[|t| - 1])
    requires SortedBy(r', key) && multiset(r') == multiset(t[..|t| - 1]) + multiset{x}
    ensures SortedBy(r' + [t[|t| - 1]], key)
  {
    var init, last := t[..|t| - 1], t[|t| - 1];
    forall i | 0 <= i < |r'| ensures key(r'[i]) <= key(last) {
      assert r'[i] in multiset(r');
      if r'[i] != x {
        assert r'[i] in multiset(init);
        var j :| 0 <= j < |init| && init[j] == r'[i];
        assert t[j] == r'[i];
      }
    }
  }

  function Sort<T>(s: seq<T>, key: T -> int): (r: seq<T>)
    ensures SortedBy(r, key)
    ensures multiset(r) == multiset(s)
  {
    if |s| == 0 then []
    else
      assert s == s[..|s| - 1] + [s[|s| - 1]];
      Insert(Sort(s[..|s| - 1], key), s[|s| - 1], key)
  }

  lemma {:induction false} InsertKeepsTies<T>(t: seq<T>, x: T, key: T -> int, k: int)
    requires SortedBy(t, key)
    ensures WithKey(Insert(t, x, key), key, k) == WithKey(t, key, k) + (if key(x) == k then [x] else [])
    decreases |t|
  {
    if |t| == 0 || key(t[|t| - 1]) <= key(x) {
      var r := t + [x];
      assert r[..|r| - 1] == t;
    } else {
      var init, last := t[..|t| - 1], t[|t| - 1];
      InsertKeepsTies(init, x, key, k);
      var r := Insert(t, x, key);
      assert r[..|r| - 1] == Insert(init, x, key);
    }
  }

  /** Stability: among elements with equal keys, the input order is kept. */
  lemma {:induction false} SortKeepsTies<T>(s: seq<T>, key: T -> int, k: int)
    ensures WithKey(Sort(s, key), key, k) == WithKey(s, key, k)
  {
    if |s| > 0 {
      var init := s[..|s| - 1];
      SortKeepsTies(init, key, k);
      InsertKeepsTies(Sort(init, key), s[|s| - 1], key, k);
    }
  }
}
