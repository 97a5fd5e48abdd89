/** Stable sorting by a byte-string key (`slice::sort_by` comparing keys,
    `slice::sort` on strings) and binary search (`binary_search`,
    `binary_search_by_key`) on a sorted slice. */
module Sorting {
  import opened Bytes
  import opened Lex
  import opened Results

  predicate SortedBy<T>(s: seq<T>, key: T -> Bytes)
  {
    forall i, j :: 0 <= i < j < |s| ==> Le(key(s[i]), key(s[j]))
  }

  /** Strictly increasing keys: the iteration order of a `BTreeMap`. */
  predicate StrictlySortedBy<T>(s: seq<T>, key: T -> Bytes)
  {
    forall i, j :: 0 <= i < j < |s| ==> Lt(key(s[i]), key(s[j]))
  }

  function Id(b: Bytes): Bytes { b }

  /** Insert `x` after every element whose key is not greater than its own,
      which keeps equal keys in arrival order. */
  function InsertBy<T>(x: T, s: seq<T>, key: T -> Bytes): (r: seq<T>)
    requires SortedBy(s, key)
    ensures SortedBy(r, key)
    ensures multiset(r) == multiset(s) + multiset{x}
    ensures |r| == |s| + 1
  {
    if |s| == 0 then [x]
    else if Lt(key(x), key(s[0])) then
      assert forall j :: 0 < j < |s| ==> Lt(key(x), key(s[j])) by {
        forall j | 0 < j < |s| ensures Lt(key(x), key(s[j])) {
          LtLeTrans(key(x), key(s[0]), key(s[j]));
        }
      }
      [x] + s
    else
      NotLtIsLe(key(x), key(s[0]));
      var t := InsertBy(x, s[1..], key);
      InsertBehindSorted(x, s, t, key);
      [s[0]] + t
  }

  /** The first element stays in front of what insertion made of the rest. */
  lemma InsertBehindSorted<T>(x: T, s: seq<T>, t: seq<T>, key: T -> Bytes)
    requires |s| > 0 && SortedBy(s, key) && Le(key(s[0]), key(x))
    requires SortedBy(t, key) && multiset(t) == multiset(s[1..]) + multiset{x}
    ensures SortedBy([s[0]] + t, key)
    ensures multiset([s[0]] + t) == multiset(s) + multiset{x}
  {
    assert s == [s[0]] + s[1..];
    assert forall y :: y in multiset(t) ==> Le(key(s[0]), key(y)) by {
      forall y | y in multiset(t) ensures Le(key(s[0]), key(y)) {
        assert y in multiset(s[1..]) + multiset{x};
        if y in multiset(s[1..]) {
          assert y in s[1..];
        }
      }
    }
    assert forall j :: 0 <= j < |t| ==> t[j] in multiset(t);
  }

  /** Insertion sort; stable, as `sort_by` is. */
  function SortBy<T>(s: seq<T>, key: T -> Bytes): (r: seq<T>)
    ensures SortedBy(r, key)
    ensures multiset(r) == multiset(s)
    ensures |r| == |s|
  {
    if |s| == 0 then []
    else
      assert s == s[..|s| - 1] + [s[|s| - 1]];
      InsertBy(s[|s| - 1], SortBy(s[..|s| - 1], key), key)
  }

  /** The elements whose key is `k`, in order. */
  function KeyRun<T>(s: seq<T>, key: T -> Bytes, k: Bytes): seq<T>
  {
    if |s| == 0 then [] else (if key(s[0]) == k then [s[0]] else []) + KeyRun(s[1..], key, k)
  }

  lemma {:induction false} KeyRunAppend<T>(a: seq<T>, b: seq<T>, key: T -> Bytes, k: Bytes)
    ensures KeyRun(a + b, key, k) == KeyRun(a, key, k) + KeyRun(b, key, k)
    decreases |a|
  {
    if |a| > 0 {
      assert (a + b)[0] == a[0] && (a + b)[1..] == a[1..] + b;
      KeyRunAppend(a[1..], b, key, k);
    } else {
      assert a + b == b;
    }
  }

  /** Inserting `x` puts it behind every element with its key. */
  lemma {:induction false} InsertByStable<T>(x: T, s: seq<T>, key: T -> Bytes, k: Bytes)
    requires SortedBy(s, key)
    ensures KeyRun(InsertBy(x, s, key), key, k) == KeyRun(s, key, k) + if key(x) == k then [x] else []
    decreases |s|, 1
  {
    if |s| == 0 {
      var r := InsertBy(x, s, key);
      assert r == [x] && r[1..] == [];
    } else if Lt(key(x), key(s[0])) {
      InsertFrontStable(x, s, key, k);
    } else {
      InsertBehindStable(x, s, key, k);
    }
  }

  /** `x` goes first: no element after it shares its key. */
  lemma InsertFrontStable<T>(x: T, s: seq<T>, key: T -> Bytes, k: Bytes)
    requires SortedBy(s, key) && |s| > 0 && Lt(key(x), key(s[0]))
    ensures KeyRun(InsertBy(x, s, key), key, k) == KeyRun(s, key, k) + if key(x) == k then [x] else []
  {
    InsertFrontShape(x, s, key);
    KeyRunCons(InsertBy(x, s, key), x, s, key, k);
    if key(x) == k {
      NoKeyBehind(x, s, key, k);
    }
  }

  lemma InsertFrontShape<T>(x: T, s: seq<T>, key: T -> Bytes)
    requires SortedBy(s, key) && |s| > 0 && Lt(key(x), key(s[0]))
    ensures InsertBy(x, s, key) == [x] + s
  {
  }

  lemma NoKeyBehind<T>(x: T, s: seq<T>, key: T -> Bytes, k: Bytes)
    requires SortedBy(s, key) && |s| > 0 && Lt(key(x), key(s[0])) && key(x) == k
    ensures KeyRun(s, key, k) == []
  {
    forall j | 0 <= j < |s| ensures key(s[j]) != k {
      if j > 0 {
        LtLeTrans(key(x), key(s[0]), key(s[j]));
      }
      LtIrreflexive(key(x));
    }
    NoKeyRun(s, key, k);
  }

  /** The run of a sequence that starts with `x`. */
  lemma KeyRunCons<T>(r: seq<T>, x: T, s: seq<T>, key: T -> Bytes, k: Bytes)
    requires r == [x] + s
    ensures KeyRun(r, key, k) == (if key(x) == k then [x] else []) + KeyRun(s, key, k)
  {
    assert r[0] == x && r[1..] == s;
  }

  /** `x` goes behind the first element. */
  lemma {:induction false} InsertBehindStable<T>(x: T, s: seq<T>, key: T -> Bytes, k: Bytes)
    requires SortedBy(s, key) && |s| > 0 && !Lt(key(x), key(s[0]))
    ensures KeyRun(InsertBy(x, s, key), key, k) == KeyRun(s, key, k) + if key(x) == k then [x] else []
    decreases |s|, 0
  {
    InsertBehindShape(x, s, key);
    InsertByStable(x, s[1..], key, k);
    KeyRunCons(InsertBy(x, s, key), s[0], InsertBy(x, s[1..], key), key, k);
    KeyRunCons(s, s[0], s[1..], key, k);
    AppendAssoc(if key(s[0]) == k then [s[0]] else [], KeyRun(s[1..], key, k), if key(x) == k then [x] else []);
  }

  lemma InsertBehindShape<T>(x: T, s: seq<T>, key: T -> Bytes)
    requires SortedBy(s, key) && |s| > 0 && !Lt(key(x), key(s[0]))
    ensures InsertBy(x, s, key) == [s[0]] + InsertBy(x, s[1..], key)
  {
  }

  lemma AppendAssoc<T>(a: seq<T>, b: seq<T>, c: seq<T>)
    ensures a + (b + c) == (a + b) + c
  {
  }

  lemma {:induction false} NoKeyRun<T>(s: seq<T>, key: T -> Bytes, k: Bytes)
    requires forall j :: 0 <= j < |s| ==> key(s[j]) != k
    ensures KeyRun(s, key, k) == []
    decreases |s|
  {
    if |s| > 0 {
      NoKeyRun(s[1..], key, k);
    }
  }

  /** `sort_by` is stable: the elements sharing a key keep their order. */
  lemma {:induction false} SortByStable<T>(s: seq<T>, key: T -> Bytes, k: Bytes)
    ensures KeyRun(SortBy(s, key), key, k) == KeyRun(s, key, k)
    decreases |s|
  {
    if |s| > 0 {
      SortByStable(s[..|s| - 1], key, k);
      SortByStep(s, key, k);
    }
  }

  /** One insertion step keeps the run, given that sorting the front did. */
  lemma SortByStep<T>(s: seq<T>, key: T -> Bytes, k: Bytes)
    requires |s| > 0
    requires KeyRun(SortBy(s[..|s| - 1], key), key, k) == KeyRun(s[..|s| - 1], key, k)
    ensures KeyRun(SortBy(s, key), key, k) == KeyRun(s, key, k)
  {
    var front, last := s[..|s| - 1], s[|s| - 1];
    var sorted := SortBy(front, key);
    SortByShape(s, key);
    SplitLast(s);
    InsertByStable(last, sorted, key, k);
    SnocRun(s, front, last, sorted, InsertBy(last, sorted, key), key, k);
  }

  lemma SplitLast<T>(s: seq<T>)
    requires |s| > 0
    ensures s == s[..|s| - 1] + [s[|s| - 1]]
  {
  }

  lemma SortByShape<T>(s: seq<T>, key: T -> Bytes)
    requires |s| > 0
    ensures SortBy(s, key) == InsertBy(s[|s| - 1], SortBy(s[..|s| - 1], key), key)
  {
  }

  /** Sorting the front and inserting the last element keeps the run of `s`. */
  lemma SnocRun<T>(s: seq<T>, front: seq<T>, last: T, sorted: seq<T>, r: seq<T>, key: T -> Bytes, k: Bytes)
    requires s == front + [last]
    requires KeyRun(sorted, key, k) == KeyRun(front, key, k)
    requires KeyRun(r, key, k) == KeyRun(sorted, key, k) + if key(last) == k then [last] else []
    ensures KeyRun(r, key, k) == KeyRun(s, key, k)
  {
    KeyRunAppend(front, [last], key, k);
    KeyRunCons([last], last, [], key, k);
    assert [last] == [last] + [];
  }

  /** Bisection over `s[lo..hi]`; `Some(i)` is the index of an element whose
      key equals `target`. */
  function Search<T>(s: seq<T>, key: T -> Bytes, target: Bytes, lo: nat, hi: nat): (r: Option<nat>)
    requires lo <= hi <= |s|
    ensures r.Some? ==> lo <= r.value < hi && key(s[r.value]) == target
    decreases hi - lo
  {
    if lo == hi then None
    else
      var mid := lo + (hi - lo) / 2;
      match Cmp(key(s[mid]), target)
      case Equal => CmpEqual(key(s[mid]), target); Some(mid)
      case Less => Search(s, key, target, mid + 1, hi)
      case Greater => Search(s, key, target, lo, mid)
  }

  function BinarySearch<T>(s: seq<T>, key: T -> Bytes, target: Bytes): (r: Option<nat>)
    ensures r.Some? ==> r.value < |s| && key(s[r.value]) == target
  {
    Search(s, key, target, 0, |s|)
  }

  /** On a sorted slice, bisection finds the key exactly when it is present. */
  lemma {:induction false} SearchComplete<T>(s: seq<T>, key: T -> Bytes, target: Bytes, lo: nat, hi: nat)
    requires lo <= hi <= |s| && SortedBy(s, key)
    ensures Search(s, key, target, lo, hi).Some? <==> exists i :: lo <= i < hi && key(s[i]) == target
    decreases hi - lo
  {
    if lo < hi {
      var mid := lo + (hi - lo) / 2;
      match Cmp(key(s[mid]), target)
      case Equal =>
      case Less =>
        SearchComplete(s, key, target, mid + 1, hi);
        NoneBelow(s, key, target, lo, mid);
      case Greater =>
        SearchComplete(s, key, target, lo, mid);
        NoneAbove(s, key, target, mid, hi);
    }
  }

  /** Everything up to an element whose key is below the target is below it. */
  lemma NoneBelow<T>(s: seq<T>, key: T -> Bytes, target: Bytes, lo: nat, mid: nat)
    requires lo <= mid < |s| && SortedBy(s, key) && Cmp(key(s[mid]), target) == Less
    ensures forall i :: lo <= i <= mid ==> key(s[i]) != target
  {
    forall i | lo <= i <= mid ensures key(s[i]) != target {
      if key(s[i]) == target {
        if i < mid {
          LtLeTrans(key(s[mid]), target, key(s[mid]));
          LtIrreflexive(key(s[mid]));
        } else {
          CmpEqual(key(s[mid]), target);
        }
      }
    }
  }

  /** Everything from an element whose key is above the target is above it. */
  lemma NoneAbove<T>(s: seq<T>, key: T -> Bytes, target: Bytes, mid: nat, hi: nat)
    requires mid < hi <= |s| && SortedBy(s, key) && Cmp(key(s[mid]), target) == Greater
    ensures forall i :: mid <= i < hi ==> key(s[i]) != target
  {
    forall i | mid <= i < hi ensures key(s[i]) != target {
      if key(s[i]) == target {
        CmpFlip(key(s[mid]), target);
        LtLeTrans(target, key(s[mid]), target);
        LtIrreflexive(target);
      }
    }
  }

  lemma BinarySearchIsMembership<T>(s: seq<T>, key: T -> Bytes, target: Bytes)
    requires SortedBy(s, key)
    ensures BinarySearch(s, key, target).Some? <==> exists i :: 0 <= i < |s| && key(s[i]) == target
  {
    SearchComplete(s, key, target, 0, |s|);
  }

  lemma StrictlySortedIsSorted<T>(s: seq<T>, key: T -> Bytes)
    requires StrictlySortedBy(s, key)
    ensures SortedBy(s, key)
  {
    forall i, j | 0 <= i < j < |s| ensures Le(key(s[i]), key(s[j])) {
      CmpFlip(key(s[i]), key(s[j]));
    }
  }
}
