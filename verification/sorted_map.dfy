/** A `BTreeMap<String, V>` as the sequence of its entries in key order:
    what iterating it yields, and `insert`. */
module SortedMap {
  import opened Results
  import opened Bytes
  import opened Lex

  /** Strictly increasing keys. */
  predicate Keyed<V>(kvs: seq<(Bytes, V)>)
  {
    forall i, j :: 0 <= i < j < |kvs| ==> Lt(kvs[i].0, kvs[j].0)
  }

  /** Some entry has key `k`. */
  predicate HasKey<V>(kvs: seq<(Bytes, V)>, k: Bytes)
  {
    exists i :: 0 <= i < |kvs| && kvs[i].0 == k
  }

  /** `BTreeMap::get`. */
  function Get<V>(kvs: seq<(Bytes, V)>, k: Bytes): (r: Option<V>)
    ensures r.Some? <==> HasKey(kvs, k)
    ensures r.Some? ==> (k, r.value) in kvs
    decreases |kvs|
  {
    if |kvs| == 0 then None
    else if kvs[0].0 == k then Some(kvs[0].1)
    else
      var r := Get(kvs[1..], k);
      assert forall i :: 0 < i < |kvs| ==> kvs[i] == kvs[1..][i - 1];
      r
  }

  /** `BTreeMap::insert`: the value of an existing key is replaced in place,
      a new key goes before the first greater one. */
  function Insert<V>(kvs: seq<(Bytes, V)>, k: Bytes, v: V): (r: seq<(Bytes, V)>)
    decreases |kvs|
  {
    if |kvs| == 0 then [(k, v)]
    else if kvs[0].0 == k then [(k, v)] + kvs[1..]
    else if Lt(k, kvs[0].0) then [(k, v)] + kvs
    else [kvs[0]] + Insert(kvs[1..], k, v)
  }

  /** Every key of the result is the new key or an old one, and every old
      key stays. */
  lemma {:induction false} InsertKeys<V>(kvs: seq<(Bytes, V)>, k: Bytes, v: V, x: Bytes)
    ensures HasKey(Insert(kvs, k, v), x) <==> x == k || HasKey(kvs, x)
    decreases |kvs|
  {
    var r := Insert(kvs, k, v);
    if |kvs| == 0 {
      if x == k { assert r[0].0 == x; }
    } else if kvs[0].0 == k {
      if HasKey(kvs, x) { var i :| 0 <= i < |kvs| && kvs[i].0 == x; assert r[i].0 == x; }
      if HasKey(r, x) { var i :| 0 <= i < |r| && r[i].0 == x; assert kvs[i].0 == x; }
    } else if Lt(k, kvs[0].0) {
      if HasKey(kvs, x) { var i :| 0 <= i < |kvs| && kvs[i].0 == x; assert r[i + 1].0 == x; }
      if HasKey(r, x) && x != k { var i :| 0 <= i < |r| && r[i].0 == x; assert kvs[i - 1].0 == x; }
      if x == k { assert r[0].0 == x; }
    } else {
      var t := Insert(kvs[1..], k, v);
      InsertKeys(kvs[1..], k, v, x);
      assert r == [kvs[0]] + t;
      if x == kvs[0].0 {
        assert r[0].0 == x;
      } else {
        if HasKey(kvs, x) {
          var i :| 0 <= i < |kvs| && kvs[i].0 == x;
          assert kvs[1..][i - 1].0 == x;
        }
        if HasKey(t, x) {
          var j :| 0 <= j < |t| && t[j].0 == x;
          assert r[j + 1].0 == x;
        }
        if HasKey(r, x) {
          var i :| 0 <= i < |r| && r[i].0 == x;
          assert t[i - 1].0 == x;
        }
        if HasKey(kvs[1..], x) {
          var j :| 0 <= j < |kvs[1..]| && kvs[1..][j].0 == x;
          assert kvs[j + 1].0 == x;
        }
      }
    }
  }

  /** Inserting keeps the keys in order. */
  lemma {:induction false} InsertKeyed<V>(kvs: seq<(Bytes, V)>, k: Bytes, v: V)
    requires Keyed(kvs)
    ensures Keyed(Insert(kvs, k, v))
    decreases |kvs|
  {
    var r := Insert(kvs, k, v);
    if |kvs| > 0 {
      if kvs[0].0 == k {
        assert forall i :: 0 < i < |r| ==> r[i] == kvs[i];
      } else if Lt(k, kvs[0].0) {
        assert forall i :: 0 < i < |r| ==> r[i] == kvs[i - 1];
        forall i | 0 < i < |r| ensures Lt(k, r[i].0) {
          if i > 1 { LtTrans(k, kvs[0].0, kvs[i - 1].0); }
        }
      } else {
        var t := Insert(kvs[1..], k, v);
        assert Keyed(kvs[1..]);
        InsertKeyed(kvs[1..], k, v);
        assert r == [kvs[0]] + t;
        Total(k, kvs[0].0);
        forall i | 0 < i < |r| ensures Lt(kvs[0].0, r[i].0) {
          var x := t[i - 1].0;
          assert HasKey(t, x);
          InsertKeys(kvs[1..], k, v, x);
          if x != k {
            var j :| 0 <= j < |kvs[1..]| && kvs[1..][j].0 == x;
            assert kvs[j + 1].0 == x;
          }
        }
      }
    }
  }

  /** After inserting, the key maps to the new value and every other key to
      what it mapped to before. */
  lemma {:induction false} InsertGet<V>(kvs: seq<(Bytes, V)>, k: Bytes, v: V, x: Bytes)
    requires Keyed(kvs)
    ensures Get(Insert(kvs, k, v), x) == if x == k then Some(v) else Get(kvs, x)
    decreases |kvs|
  {
    if |kvs| > 0 {
      if kvs[0].0 == k {
        if x != k {
          assert Insert(kvs, k, v)[1..] == kvs[1..];
        }
      } else if Lt(k, kvs[0].0) {
        assert Insert(kvs, k, v)[1..] == kvs;
      } else {
        assert Keyed(kvs[1..]);
        InsertGet(kvs[1..], k, v, x);
        assert Insert(kvs, k, v)[1..] == Insert(kvs[1..], k, v);
      }
    }
  }

  /** The pairs of `kvs` are the new one and old ones. */
  lemma {:induction false} InsertFrom<V>(kvs: seq<(Bytes, V)>, k: Bytes, v: V)
    ensures forall p :: p in Insert(kvs, k, v) ==> p == (k, v) || p in kvs
    decreases |kvs|
  {
    if |kvs| > 0 && kvs[0].0 != k && !Lt(k, kvs[0].0) {
      InsertFrom(kvs[1..], k, v);
      assert forall p :: p in kvs[1..] ==> p in kvs;
    }
  }

  /** Inserting the pairs of a list one after another, as collecting them
      into a `BTreeMap` does: a later pair with the same key wins. */
  function FromList<V>(es: seq<(Bytes, V)>): seq<(Bytes, V)>
    decreases |es|
  {
    if |es| == 0 then [] else Insert(FromList(es[..|es| - 1]), es[|es| - 1].0, es[|es| - 1].1)
  }

  /** The value of the last pair with key `k`. */
  function LastValue<V>(es: seq<(Bytes, V)>, k: Bytes): Option<V>
    decreases |es|
  {
    if |es| == 0 then None
    else if es[|es| - 1].0 == k then Some(es[|es| - 1].1)
    else LastValue(es[..|es| - 1], k)
  }

  /** The collected map is in key order, holds only pairs of the list, and
      maps each key to its last value in the list. */
  lemma {:induction false} FromListSpec<V>(es: seq<(Bytes, V)>, k: Bytes)
    ensures Keyed(FromList(es))
    ensures forall p :: p in FromList(es) ==> p in es
    ensures Get(FromList(es), k) == LastValue(es, k)
    decreases |es|
  {
    if |es| > 0 {
      var init := es[..|es| - 1];
      var (k1, v1) := es[|es| - 1];
      FromListSpec(init, k);
      InsertKeyed(FromList(init), k1, v1);
      InsertFrom(FromList(init), k1, v1);
      InsertGet(FromList(init), k1, v1, k);
      assert forall p :: p in init ==> p in es;
    }
  }
}
