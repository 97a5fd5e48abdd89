/** Rust's `Ord` on byte strings (`str`, `String`, `[u8]`): lexicographic,
    with a proper prefix ordered first.  `BTreeMap<String, _>` iterates in
    this order, `slice::sort` and `binary_search` use it. */
module Lex {
  import opened Bytes

  datatype Ordering = Less | Equal | Greater

  function Cmp(a: Bytes, b: Bytes): Ordering
  {
    if |a| == 0 && |b| == 0 then Equal
    else if |a| == 0 then Less
    else if |b| == 0 then Greater
    else if a[0] < b[0] then Less
    else if a[0] > b[0] then Greater
    else Cmp(a[1..], b[1..])
  }

  predicate Lt(a: Bytes, b: Bytes) { Cmp(a, b) == Less }
  predicate Le(a: Bytes, b: Bytes) { Cmp(a, b) != Greater }

  lemma {:induction false} CmpEqual(a: Bytes, b: Bytes)
    ensures Cmp(a, b) == Equal <==> a == b
  {
    if |a| > 0 && |b| > 0 && a[0] == b[0] {
      CmpEqual(a[1..], b[1..]);
      assert a == [a[0]] + a[1..] && b == [b[0]] + b[1..];
    }
  }

  lemma {:induction false} CmpFlip(a: Bytes, b: Bytes)
    ensures Cmp(a, b) == Less <==> Cmp(b, a) == Greater
  {
    if |a| > 0 && |b| > 0 && a[0] == b[0] {
      CmpFlip(a[1..], b[1..]);
    }
  }

  lemma {:induction false} LtTrans(a: Bytes, b: Bytes, c: Bytes)
    requires Lt(a, b) && Lt(b, c)
    ensures Lt(a, c)
  {
    if |a| > 0 && |b| > 0 && |c| > 0 && a[0] == b[0] && b[0] == c[0] {
      LtTrans(a[1..], b[1..], c[1..]);
    }
  }

  /** Totality: of two different strings exactly one is the smaller. */
  lemma Total(a: Bytes, b: Bytes)
    ensures Lt(a, b) || a == b || Lt(b, a)
  {
    CmpEqual(a, b);
    CmpFlip(b, a);
  }

  lemma LtIrreflexive(a: Bytes)
    ensures !Lt(a, a)
  {
    CmpEqual(a, a);
  }

  lemma LeTrans(a: Bytes, b: Bytes, c: Bytes)
    requires Le(a, b) && Le(b, c)
    ensures Le(a, c)
  {
    CmpEqual(a, b);
    CmpEqual(b, c);
    if Lt(a, b) && Lt(b, c) {
      LtTrans(a, b, c);
    }
  }

  lemma LtLeTrans(a: Bytes, b: Bytes, c: Bytes)
    requires Lt(a, b) && Le(b, c)
    ensures Lt(a, c)
  {
    CmpEqual(b, c);
    if Lt(b, c) {
      LtTrans(a, b, c);
    }
  }

  lemma NotLtIsLe(a: Bytes, b: Bytes)
    ensures !Lt(a, b) <==> Le(b, a)
  {
    CmpFlip(a, b);
    CmpFlip(b, a);
  }

  /** `starts_with`. */
  predicate IsPrefix(p: Bytes, s: Bytes) { |p| <= |s| && s[..|p|] == p }

  lemma PrefixLe(p: Bytes, s: Bytes)
    requires IsPrefix(p, s)
    ensures Le(p, s)
    decreases |p|
  {
    if |p| > 0 {
      assert p[1..] == s[1..][..|p| - 1];
      PrefixLe(p[1..], s[1..]);
    }
  }
}
