/** A stable sort by a natural-number key, the behaviour of Python's `list.sort(key=...)`.

    `SortByKey` is an insertion sort. Its specification is independent of how it works: the
    result is ordered by key, a permutation of the input, and stable, meaning the elements
    of every single key (`OfKey`) appear in the result exactly as in the input. */
module StableSort {

  predicate SortedBy<T>(xs: seq<T>, key: T -> nat) {
    forall i, j :: 0 <= i < j < |xs| ==> key(xs[i]) <= key(xs[j])
  }

  ghost predicate KeysAtMost<T>(xs: seq<T>, key: T -> nat, k: nat) {
    forall i :: 0 <= i < |xs| ==> key(xs[i]) <= k
  }

  /** The elements whose key is `k`, in their input order. */
  function OfKey<T>(xs: seq<T>, key: T -> nat, k: nat): (r: seq<T>)
    ensures |r| <= |xs|
  {
    if |xs| == 0 then []
    else
      var last := xs[|xs| - 1];
      OfKey(xs[..|xs| - 1], key, k) + (if key(last) == k then [last] else [])
  }

  /** Places `x` after every trailing element whose key is not greater than its own. */
  function Insert<T>(sorted: seq<T>, x: T, key: T -> nat): seq<T> {
    if |sorted| == 0 then [x]
    else
      var last := sorted[|sorted| - 1];
      if key(last) <= key(x) then sorted + [x]
      else Insert(sorted[..|sorted| - 1], x, key) + [last]
  }

  /** Insertion sort, taking the input from the left. */
  function SortByKey<T>(xs: seq<T>, key: T -> nat): seq<T> {
    if |xs| == 0 then []
    else Insert(SortByKey(xs[..|xs| - 1], key), xs[|xs| - 1], key)
  }

  /** `x` stops behind an element of no greater key. */
  lemma InsertStops<T>(p: seq<T>, x: T, key: T -> nat)
    requires KeysAtMost(p, key, key(x))
    ensures Insert(p, x, key) == p + [x]
  {
  }

  lemma {:induction false} InsertMultiset<T>(s: seq<T>, x: T, key: T -> nat)
    ensures multiset(Insert(s, x, key)) == multiset(s) + multiset{x}
  {
    if |s| > 0 {
      var last := s[|s| - 1];
      assert s == s[..|s| - 1] + [last];
      if key(last) > key(x) {
        InsertMultiset(s[..|s| - 1], x, key);
      }
    }
  }

  lemma OfKeyAppend<T>(xs: seq<T>, x: T, key: T -> nat, k: nat)
    ensures key(x) == k ==> OfKey(xs + [x], key, k) == OfKey(xs, key, k) + [x]
    ensures key(x) != k ==> OfKey(xs + [x], key, k) == OfKey(xs, key, k)
  {
    assert (xs + [x])[..|xs|] == xs;
    if key(x) != k {
      assert OfKey(xs + [x], key, k) == OfKey(xs, key, k) + [];
    }
  }

  /** Inserting `x` adds it to the end of its own key group and touches no other group.
      `x` only passes elements of a strictly greater key, so never one of its own. */
  lemma {:induction false} InsertOfKey<T>(s: seq<T>, x: T, key: T -> nat, k: nat)
    ensures key(x) == k ==> OfKey(Insert(s, x, key), key, k) == OfKey(s, key, k) + [x]
    ensures key(x) != k ==> OfKey(Insert(s, x, key), key, k) == OfKey(s, key, k)
  {
    if |s| == 0 {
      OfKeyAppend(s, x, key, k);
      assert s + [x] == [x];
    } else {
      var init, last := s[..|s| - 1], s[|s| - 1];
      assert s == init + [last];
      if key(last) <= key(x) {
        OfKeyAppend(s, x, key, k);
      } else {
        InsertOfKey(init, x, key, k);
        InsertPassed(init, last, x, key, k);
      }
    }
  }

  /** The step of `InsertOfKey` where `x` passes `last`. */
  lemma InsertPassed<T>(init: seq<T>, last: T, x: T, key: T -> nat, k: nat)
    requires key(last) > key(x)
    requires key(x) == k ==> OfKey(Insert(init, x, key), key, k) == OfKey(init, key, k) + [x]
    requires key(x) != k ==> OfKey(Insert(init, x, key), key, k) == OfKey(init, key, k)
    ensures key(x) == k ==> OfKey(Insert(init + [last], x, key), key, k)
                            == OfKey(init + [last], key, k) + [x]
    ensures key(x) != k ==> OfKey(Insert(init + [last], x, key), key, k)
                            == OfKey(init + [last], key, k)
  {
    var s := init + [last];
    assert s[..|s| - 1] == init;
    assert Insert(s, x, key) == Insert(init, x, key) + [last];
    OfKeyAppend(Insert(init, x, key), last, key, k);
    OfKeyAppend(init, last, key, k);
  }

  /** Inserting into an ordered list keeps it ordered. */
  lemma {:induction false} InsertSorted<T>(s: seq<T>, x: T, key: T -> nat)
    requires SortedBy(s, key)
    ensures SortedBy(Insert(s, x, key), key)
  {
    if |s| > 0 {
      var init, last := s[..|s| - 1], s[|s| - 1];
      if key(last) <= key(x) {
        SortedAppend(s, x, key);
      } else {
        assert SortedBy(init, key);
        InsertSorted(init, x, key);
        InsertMultiset(init, x, key);
        var t := Insert(init, x, key);
        forall i | 0 <= i < |t| ensures key(t[i]) <= key(last) {
          assert t[i] in multiset(init) + multiset{x};
          if t[i] in init {
            var j :| 0 <= j < |init| && init[j] == t[i];
            assert s[j] == init[j];
          }
        }
        SortedAppend(t, last, key);
      }
    }
  }

  /** An ordered list stays ordered when an element of no smaller key is added at the end. */
  lemma SortedAppend<T>(s: seq<T>, x: T, key: T -> nat)
    requires SortedBy(s, key)
    requires KeysAtMost(s, key, key(x))
    ensures SortedBy(s + [x], key)
  {
    var t := s + [x];
    forall i, j | 0 <= i < j < |t| ensures key(t[i]) <= key(t[j]) {
      if j < |s| {
        assert t[i] == s[i] && t[j] == s[j];
      } else {
        assert t[i] == s[i] && t[j] == x;
      }
    }
  }

  /** The sort neither adds nor loses an element. */
  lemma {:induction false} SortByKeyMultiset<T>(xs: seq<T>, key: T -> nat)
    ensures multiset(SortByKey(xs, key)) == multiset(xs)
  {
    if |xs| > 0 {
      var init := xs[..|xs| - 1];
      assert xs == init + [xs[|xs| - 1]];
      SortByKeyMultiset(init, key);
      InsertMultiset(SortByKey(init, key), xs[|xs| - 1], key);
    }
  }

  lemma {:induction false} SortByKeySorted<T>(xs: seq<T>, key: T -> nat)
    ensures SortedBy(SortByKey(xs, key), key)
  {
    if |xs| > 0 {
      SortByKeySorted(xs[..|xs| - 1], key);
      InsertSorted(SortByKey(xs[..|xs| - 1], key), xs[|xs| - 1], key);
    }
  }

  lemma {:induction false} SortByKeyOfKey<T>(xs: seq<T>, key: T -> nat, k: nat)
    ensures OfKey(SortByKey(xs, key), key, k) == OfKey(xs, key, k)
  {
    if |xs| > 0 {
      var init, last := xs[..|xs| - 1], xs[|xs| - 1];
      assert xs == init + [last];
      SortByKeyOfKey(init, key, k);
      InsertOfKey(SortByKey(init, key), last, key, k);
      OfKeyAppend(init, last, key, k);
    }
  }

  /** The sort is ordered by key, a permutation of its input, and stable: every key group
      of the result is that group of the input, in input order. */
  lemma SortByKeyCorrect<T>(xs: seq<T>, key: T -> nat)
    ensures SortedBy(SortByKey(xs, key), key)
    ensures multiset(SortByKey(xs, key)) == multiset(xs)
    ensures forall k: nat :: OfKey(SortByKey(xs, key), key, k) == OfKey(xs, key, k)
  {
    SortByKeySorted(xs, key);
    SortByKeyMultiset(xs, key);
    forall k: nat ensures OfKey(SortByKey(xs, key), key, k) == OfKey(xs, key, k) {
      SortByKeyOfKey(xs, key, k);
    }
  }

  /** A list already ordered by key is left as it is. */
  lemma {:induction false} SortByKeyOfSorted<T>(xs: seq<T>, key: T -> nat)
    requires SortedBy(xs, key)
    ensures SortByKey(xs, key) == xs
  {
    if |xs| > 0 {
      var init, last := xs[..|xs| - 1], xs[|xs| - 1];
      assert SortedBy(init, key);
      SortByKeyOfSorted(init, key);
      assert KeysAtMost(init, key, key(last)) by {
        forall i | 0 <= i < |init| ensures key(init[i]) <= key(last) {
          assert init[i] == xs[i];
        }
      }
      InsertStops(init, last, key);
      assert init + [last] == xs;
    }
  }
}
