/**
 * Stable sorting by a real-valued key, the behaviour of Python's `list.sort`
 * and `sorted` with a `key=` argument. SortBy is one stable sort (an insertion
 * sort); IsStableSortOf is the order-independent definition, and
 * StableSortUnique shows that it pins the result down, so every stable sort
 * (Timsort included) returns exactly what SortBy returns.
 */
module StableSort {

  /** Non-decreasing in key. */
  predicate SortedBy<T>(s: seq<T>, key: T -> real)
  {
    forall i, j :: 0 <= i < j < |s| ==> key(s[i]) <= key(s[j])
  }

  /** The elements of s whose key is k, in their order in s. */
  function KeyFilter<T>(s: seq<T>, key: T -> real, k: real): seq<T>
  {
    if s == [] then []
    else (if key(s[0]) == k then [s[0]] else []) + KeyFilter(s[1..], key, k)
  }

  /** r is s sorted by key, each run of equal keys kept in its order in s. */
  ghost predicate IsStableSortOf<T>(r: seq<T>, s: seq<T>, key: T -> real)
  {
    SortedBy(r, key) && multiset(r) == multiset(s)
    && forall k :: KeyFilter(r, key, k) == KeyFilter(s, key, k)
  }

  /** Puts x in front of the first element whose key is not smaller. */
  function Insert<T>(x: T, s: seq<T>, key: T -> real): seq<T>
  {
    if s == [] then [x]
    else if key(x) <= key(s[0]) then [x] + s
    else [s[0]] + Insert(x, s[1..], key)
  }

  /** Stable insertion sort; it rearranges s without adding or losing
      elements. */
  function SortBy<T>(s: seq<T>, key: T -> real): (r: seq<T>)
    ensures multiset(r) == multiset(s)
  {
    if s == [] then []
    else
      var t := SortBy(s[1..], key);
      InsertPermutes(s[0], t, key);
      assert s == [s[0]] + s[1..];
      Insert(s[0], t, key)
  }

  predicate AllAtLeast<T>(s: seq<T>, key: T -> real, lb: real)
  {
    forall i :: 0 <= i < |s| ==> lb <= key(s[i])
  }

  lemma {:induction false} InsertAtLeast<T>(x: T, s: seq<T>, key: T -> real, lb: real)
    requires AllAtLeast(s, key, lb) && lb <= key(x)
    ensures AllAtLeast(Insert(x, s, key), key, lb)
  {
    if s != [] && key(x) > key(s[0]) {
      InsertAtLeast(x, s[1..], key, lb);
    }
  }

  lemma {:induction false} InsertSorted<T>(x: T, s: seq<T>, key: T -> real)
    requires SortedBy(s, key)
    ensures SortedBy(Insert(x, s, key), key)
  {
    if s != [] && key(x) > key(s[0]) {
      InsertSorted(x, s[1..], key);
      InsertAtLeast(x, s[1..], key, key(s[0]));
    }
  }

  lemma {:induction false} InsertPermutes<T>(x: T, s: seq<T>, key: T -> real)
    ensures multiset(Insert(x, s, key)) == multiset(s) + multiset{x}
  {
    if s != [] && key(x) > key(s[0]) {
      InsertPermutes(x, s[1..], key);
      assert s == [s[0]] + s[1..];
    }
  }

  /** The run contribution of one element: [x] when its key is k. */
  function Run<T>(x: T, key: T -> real, k: real): seq<T>
  {
    if key(x) == k then [x] else []
  }

  lemma KeyFilterCons<T>(x: T, s: seq<T>, key: T -> real, k: real)
    ensures KeyFilter([x] + s, key, k) == Run(x, key, k) + KeyFilter(s, key, k)
  {
    assert ([x] + s)[1..] == s;
  }

  /** Inserting x keeps every run of equal keys as it would be with x in front. */
  lemma {:induction false} InsertKeyFilter<T>(x: T, s: seq<T>, key: T -> real, k: real)
    ensures KeyFilter(Insert(x, s, key), key, k) == KeyFilter([x] + s, key, k)
  {
    if s != [] && key(x) > key(s[0]) {
      var t := Insert(x, s[1..], key);
      assert s == [s[0]] + s[1..];
      calc {
        KeyFilter(Insert(x, s, key), key, k);
        { KeyFilterCons(s[0], t, key, k); }
        Run(s[0], key, k) + KeyFilter(t, key, k);
        { InsertKeyFilter(x, s[1..], key, k); KeyFilterCons(x, s[1..], key, k); }
        Run(s[0], key, k) + (Run(x, key, k) + KeyFilter(s[1..], key, k));
        // key(s[0]) < key(x), so at most one of the two runs is non-empty
        Run(x, key, k) + (Run(s[0], key, k) + KeyFilter(s[1..], key, k));
        { KeyFilterCons(s[0], s[1..], key, k); }
        Run(x, key, k) + KeyFilter(s, key, k);
        { KeyFilterCons(x, s, key, k); }
        KeyFilter([x] + s, key, k);
      }
    }
  }

  /** SortBy is a stable sort. */
  lemma {:induction false} SortByIsStableSort<T>(s: seq<T>, key: T -> real)
    ensures IsStableSortOf(SortBy(s, key), s, key)
  {
    if s != [] {
      var t := SortBy(s[1..], key);
      SortByIsStableSort(s[1..], key);
      InsertSorted(s[0], t, key);
      InsertPermutes(s[0], t, key);
      assert s == [s[0]] + s[1..];
      forall k
        ensures KeyFilter(SortBy(s, key), key, k) == KeyFilter(s, key, k)
      {
        InsertKeyFilter(s[0], t, key, k);
        KeyFilterCons(s[0], t, key, k);
        KeyFilterCons(s[0], s[1..], key, k);
      }
    }
  }

  lemma {:induction false} KeyFilterElements<T>(s: seq<T>, key: T -> real, k: real)
    ensures forall e :: e in KeyFilter(s, key, k) ==> e in s && key(e) == k
  {
    if s != [] {
      KeyFilterElements(s[1..], key, k);
    }
  }

  /** The head of a sorted, non-empty sequence has the least key of all. */
  lemma SortedHeadLeast<T>(s: seq<T>, key: T -> real, e: T)
    requires SortedBy(s, key) && e in s
    ensures key(s[0]) <= key(e)
  {
    var j :| 0 <= j < |s| && s[j] == e;
  }

  /** A run of a non-empty sequence: the one of its head's key is never empty. */
  lemma HeadRun<T>(s: seq<T>, key: T -> real)
    requires s != []
    ensures KeyFilter(s, key, key(s[0])) != [] && KeyFilter(s, key, key(s[0]))[0] == s[0]
  {
  }

  /** Sorted sequences with the same runs start with the same element. */
  lemma SameRunsSameHead<T>(a: seq<T>, b: seq<T>, key: T -> real)
    requires SortedBy(a, key) && SortedBy(b, key) && a != []
    requires forall k :: KeyFilter(a, key, k) == KeyFilter(b, key, k)
    ensures b != [] && a[0] == b[0]
  {
    var ka := key(a[0]);
    HeadRun(a, key);
    assert KeyFilter(b, key, ka) != [];
    assert b != [];
    var kb := key(b[0]);
    HeadRun(b, key);
    KeyFilterElements(a, key, kb);
    KeyFilterElements(b, key, ka);
    SortedHeadLeast(b, key, KeyFilter(b, key, ka)[0]);
    SortedHeadLeast(a, key, KeyFilter(a, key, kb)[0]);
    assert ka == kb;
  }

  /** Dropping equal heads keeps the runs equal. */
  lemma SameRunsTails<T>(a: seq<T>, b: seq<T>, key: T -> real)
    requires a != [] && b != [] && a[0] == b[0]
    requires forall k :: KeyFilter(a, key, k) == KeyFilter(b, key, k)
    ensures forall k :: KeyFilter(a[1..], key, k) == KeyFilter(b[1..], key, k)
  {
    forall k
      ensures KeyFilter(a[1..], key, k) == KeyFilter(b[1..], key, k)
    {
      var r := Run(a[0], key, k);
      assert KeyFilter(a, key, k) == r + KeyFilter(a[1..], key, k);
      assert KeyFilter(b, key, k) == r + KeyFilter(b[1..], key, k);
      assert KeyFilter(a[1..], key, k) == KeyFilter(a, key, k)[|r|..];
    }
  }

  /** Two sorted sequences with the same run for every key are equal. */
  lemma {:induction false} SameRunsEqual<T>(a: seq<T>, b: seq<T>, key: T -> real)
    requires SortedBy(a, key) && SortedBy(b, key)
    requires forall k :: KeyFilter(a, key, k) == KeyFilter(b, key, k)
    ensures a == b
    decreases |a|
  {
    if a != [] {
      SameRunsSameHead(a, b, key);
      SameRunsTails(a, b, key);
      SameRunsEqual(a[1..], b[1..], key);
      assert a == [a[0]] + a[1..];
      assert b == [b[0]] + b[1..];
    } else if b != [] {
      SameRunsSameHead(b, a, key);
    }
  }

  /** A stable sort's result is unique: any two stable sorts of s agree. */
  lemma StableSortUnique<T>(r1: seq<T>, r2: seq<T>, s: seq<T>, key: T -> real)
    requires IsStableSortOf(r1, s, key) && IsStableSortOf(r2, s, key)
    ensures r1 == r2
  {
    SameRunsEqual(r1, r2, key);
  }
}
