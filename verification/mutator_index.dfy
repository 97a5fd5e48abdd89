/** `IndexMutations::get_idx` and the order in which an index space is
    emitted (`src/mutator.rs`), related through the position of each
    original and inserted item. */
module MutatorIndex {
  import opened Results
  import opened Mutator

  // ---------------------------------------------------------------------
  // get_idx, as written

  /** The original-index loop: add the diff of every entry whose key is at
      most `o`, in key order; `None` is the panic of
      `checked_add_signed(..).unwrap()` when the index would drop below 0. */
  function OriginalLoop(d: Diffs, i: nat, o: nat, acc: nat): Option<nat>
    requires i <= |d|
    decreases |d| - i
  {
    if i == |d| || d[i].0 > o then Some(acc)
    else
      var next := acc + Diff(d[i].1);
      if next < 0 then None else OriginalLoop(d, i + 1, o, next)
  }

  /** The first position of `x` in `s`. */
  function FindIndex(s: seq<nat>, x: nat): (r: Option<nat>)
    ensures r.Some? ==> r.value < |s| && s[r.value] == x && x !in s[..r.value]
    ensures r.None? <==> x !in s
  {
    if |s| == 0 then None
    else if s[0] == x then Some(0)
    else
      match FindIndex(s[1..], x)
      case None => None
      case Some(p) =>
        assert s[..p + 1] == [s[0]] + s[1..][..p];
        Some(p + 1)
  }

  /** Where `last` sits relative to entry `i` of the loop below. */
  predicate LoopAt(d: Diffs, i: nat, last: nat)
    requires i <= |d|
  {
    (i == 0 ==> last == 0) && (i > 0 ==> last == d[i - 1].0 + 1)
  }

  /** The insertion-index loop: count the positions taken by everything
      before the entry that lists insertion `j`; `None` is the source's
      `unreachable!()` when no entry lists it. */
  function InsertionLoop(d: Diffs, i: nat, j: nat, newIdx: nat, last: nat): Option<nat>
    requires i <= |d| && Sorted(d) && LoopAt(d, i, last)
    decreases |d| - i
  {
    if i == |d| then None
    else
      var at := newIdx + d[i].0 - last;
      match FindIndex(d[i].1.insertions, j)
      case Some(p) => Some(at + p)
      case None =>
        InsertionLoop(d, i + 1, j, at + |d[i].1.insertions| + (if d[i].1.deletion then 0 else 1), d[i].0 + 1)
  }

  /** Following substitutions; `fuel` bounds the chain, and running out
      means the chain is cyclic, where the source recurses forever. */
  function Resolve(subs: map<nat, Id>, id: Id, fuel: nat): (r: Option<Id>)
    ensures r.Some? ==> !(r.value.OriginalIdx? && r.value.o in subs)
    ensures !(id.OriginalIdx? && id.o in subs) ==> r == Some(id)
    decreases fuel
  {
    match id
    case InsertionIdx(_) => Some(id)
    case OriginalIdx(o) =>
      if o !in subs then Some(id)
      else if fuel == 0 then None
      else Resolve(subs, subs[o], fuel - 1)
  }

  /** `get_idx`: the final index of `id` given the diffs `assign_diffs` built. */
  function GetIdx<T>(m: IndexMutations<T>, d: Diffs, id: Id): Option<nat>
    requires Sorted(d)
  {
    match Resolve(m.substitutions, id, |m.substitutions|)
    case None => None
    case Some(OriginalIdx(o)) => OriginalLoop(d, 0, o, o)
    case Some(InsertionIdx(j)) => InsertionLoop(d, 0, j, 0, 0)
  }

  // ---------------------------------------------------------------------
  // The emitted order, described independently

  function Ins(d: Diffs, k: nat): seq<nat>
  {
    match Lookup(d, k)
    case None => []
    case Some(mu) => mu.insertions
  }

  predicate Deleted(d: Diffs, k: nat)
  {
    Lookup(d, k).Some? && Lookup(d, k).value.deletion
  }

  /** How many emitted items the block of original `k` occupies. */
  function Width(d: Diffs, k: nat): nat
  {
    |Ins(d, k)| + (if Deleted(d, k) then 0 else 1)
  }

  /** The first emitted position of the block of original `k`. */
  function Pos(d: Diffs, k: nat): nat
  {
    if k == 0 then 0 else Pos(d, k - 1) + Width(d, k - 1)
  }

  function InsIds(s: seq<nat>): seq<Id>
  {
    seq(|s|, i requires 0 <= i < |s| => InsertionIdx(s[i]))
  }

  /** The block of original `k`: its insertions, then itself unless deleted. */
  function Block(d: Diffs, k: nat): (r: seq<Id>)
    ensures |r| == Width(d, k)
  {
    InsIds(Ins(d, k)) + (if Deleted(d, k) then [] else [OriginalIdx(k)])
  }

  /** The ids in emitted order from original `k` of `n` on; insertions
      anchored at `n` come last. */
  function Emit(d: Diffs, k: nat, n: nat): seq<Id>
    requires k <= n
    decreases n - k
  {
    if k == n then InsIds(Ins(d, n)) else Block(d, k) + Emit(d, k + 1, n)
  }

  lemma {:induction false} EmitShift(d: Diffs, k: nat, a: nat, n: nat)
    requires k <= a <= n
    ensures Pos(d, k) <= Pos(d, a)
    ensures |Emit(d, k, n)| == Pos(d, a) - Pos(d, k) + |Emit(d, a, n)|
    ensures forall i :: 0 <= i < |Emit(d, a, n)| ==> Emit(d, k, n)[Pos(d, a) - Pos(d, k) + i] == Emit(d, a, n)[i]
    decreases a - k
  {
    if k < a {
      EmitShift(d, k + 1, a, n);
      var rest := Emit(d, k + 1, n);
      var b := Block(d, k);
      var e := Emit(d, a, n);
      var off := Pos(d, a) - Pos(d, k + 1);
      assert Pos(d, k + 1) == Pos(d, k) + |b|;
      assert Emit(d, k, n) == b + rest;
      assert Pos(d, a) - Pos(d, k) == |b| + off;
      forall i | 0 <= i < |e|
        ensures (b + rest)[|b| + off + i] == e[i]
      {
        assert rest[off + i] == e[i];
      }
    }
  }

  // ---------------------------------------------------------------------
  // Relating the loops to positions

  function SumDiff(d: Diffs, i: nat): int
    requires i <= |d|
  {
    if i == 0 then 0 else SumDiff(d, i - 1) + Diff(d[i - 1].1)
  }

  lemma {:induction false} LookupMiss(d: Diffs, k: nat)
    requires forall t :: 0 <= t < |d| ==> d[t].0 != k
    ensures Lookup(d, k) == None
  {
    if |d| > 0 {
      LookupMiss(d[1..], k);
    }
  }

  /** Between entries `i - 1` and `i`, a position is its original index
      shifted by the diffs of the entries before. */
  lemma {:induction false} PosBetween(d: Diffs, i: nat, k: nat)
    requires Sorted(d) && i <= |d|
    requires i > 0 ==> d[i - 1].0 < k
    requires i < |d| ==> k <= d[i].0
    ensures Pos(d, k) == k + SumDiff(d, i)
  {
    if k > 0 {
      if i > 0 && d[i - 1].0 == k - 1 {
        PosBetween(d, i - 1, k - 1);
        LookupAt(d, i - 1);
      } else {
        PosBetween(d, i, k - 1);
        LookupMiss(d, k - 1);
      }
    }
  }

  lemma {:induction false} OriginalLoopSpec(d: Diffs, i: nat, o: nat, acc: nat)
    requires Sorted(d) && i <= |d| && !Deleted(d, o)
    requires i > 0 ==> d[i - 1].0 <= o
    requires acc == o + SumDiff(d, i)
    ensures OriginalLoop(d, i, o, acc) == Some(Pos(d, o) + |Ins(d, o)|)
    decreases |d| - i
  {
    if i == |d| || d[i].0 > o {
      if i > 0 && d[i - 1].0 == o {
        PosBetween(d, i - 1, o);
        LookupAt(d, i - 1);
      } else {
        PosBetween(d, i, o);
        LookupMiss(d, o);
      }
    } else {
      if d[i].0 < o {
        PosBetween(d, i + 1, d[i].0 + 1);
      } else {
        PosBetween(d, i, o);
        LookupAt(d, i);
      }
      OriginalLoopSpec(d, i + 1, o, acc + Diff(d[i].1));
    }
  }

  /** An original that is not deleted lands after everything emitted before
      its block and after the insertions placed before it. */
  lemma OriginalPosition(d: Diffs, o: nat)
    requires Sorted(d) && !Deleted(d, o)
    ensures OriginalLoop(d, 0, o, o) == Some(Pos(d, o) + |Ins(d, o)|)
  {
    OriginalLoopSpec(d, 0, o, o);
  }

  /** One iteration of the insertion loop moves from the position of `last`
      to the position of the entry's key, then past its block. */
  lemma LoopStepPos(d: Diffs, i: nat, newIdx: nat, last: nat)
    requires Sorted(d) && i < |d| && LoopAt(d, i, last) && newIdx == Pos(d, last)
    ensures last <= d[i].0
    ensures newIdx + d[i].0 - last == Pos(d, d[i].0)
    ensures Pos(d, d[i].0 + 1) == Pos(d, d[i].0) + |d[i].1.insertions| + (if d[i].1.deletion then 0 else 1)
  {
    PosBetween(d, i, last);
    PosBetween(d, i, d[i].0);
    LookupAt(d, i);
  }

  lemma {:induction false} InsertionLoopSpec(d: Diffs, i: nat, j: nat, newIdx: nat, last: nat, t0: nat)
    requires Sorted(d) && i <= t0 < |d| && LoopAt(d, i, last)
    requires newIdx == Pos(d, last)
    requires j in d[t0].1.insertions
    requires forall t :: i <= t < |d| && t != t0 ==> j !in d[t].1.insertions
    ensures InsertionLoop(d, i, j, newIdx, last) == Some(Pos(d, d[t0].0) + FindIndex(d[t0].1.insertions, j).value)
    decreases |d| - i
  {
    LoopStepPos(d, i, newIdx, last);
    if i < t0 {
      var next := InsertionLoopSkip(d, i, j, newIdx, last);
      InsertionLoopSpec(d, i + 1, j, next, d[i].0 + 1, t0);
      assert InsertionLoop(d, i, j, newIdx, last) == InsertionLoop(d, i + 1, j, next, d[i].0 + 1);
    } else {
      assert i == t0;
      InsertionLoopHit(d, t0, j, newIdx, last);
      assert newIdx + d[t0].0 - last == Pos(d, d[t0].0);
    }
  }

  /** An entry that does not list `j` passes the loop on to the next one. */
  lemma InsertionLoopSkip(d: Diffs, i: nat, j: nat, newIdx: nat, last: nat) returns (next: nat)
    requires Sorted(d) && i < |d| && LoopAt(d, i, last) && j !in d[i].1.insertions
    ensures next == newIdx + d[i].0 - last + |d[i].1.insertions| + (if d[i].1.deletion then 0 else 1)
    ensures LoopAt(d, i + 1, d[i].0 + 1)
    ensures InsertionLoop(d, i, j, newIdx, last) == InsertionLoop(d, i + 1, j, next, d[i].0 + 1)
  {
    next := newIdx + d[i].0 - last + |d[i].1.insertions| + (if d[i].1.deletion then 0 else 1);
  }

  /** The entry that lists `j` ends the loop at `j`'s place in its list. */
  lemma InsertionLoopHit(d: Diffs, i: nat, j: nat, newIdx: nat, last: nat)
    requires Sorted(d) && i < |d| && LoopAt(d, i, last) && j in d[i].1.insertions
    ensures InsertionLoop(d, i, j, newIdx, last) == Some(newIdx + d[i].0 - last + FindIndex(d[i].1.insertions, j).value)
  {
  }

  lemma {:induction false} InsertionLoopMiss(d: Diffs, i: nat, j: nat, newIdx: nat, last: nat)
    requires Sorted(d) && i <= |d| && LoopAt(d, i, last)
    requires forall t :: i <= t < |d| ==> j !in d[t].1.insertions
    ensures InsertionLoop(d, i, j, newIdx, last) == None
    decreases |d| - i
  {
    if i < |d| {
      InsertionLoopMiss(d, i + 1, j, newIdx + d[i].0 - last + |d[i].1.insertions| + (if d[i].1.deletion then 0 else 1), d[i].0 + 1);
    }
  }

  lemma EmitHeadInsertion(d: Diffs, a: nat, n: nat, p: nat)
    requires a <= n && p < |Ins(d, a)|
    ensures p < |Emit(d, a, n)| && Emit(d, a, n)[p] == InsertionIdx(Ins(d, a)[p])
  {
    var ids := InsIds(Ins(d, a));
    if a < n {
      var rest := (if Deleted(d, a) then [] else [OriginalIdx(a)]) + Emit(d, a + 1, n);
      assert Emit(d, a, n) == ids + rest;
      assert (ids + rest)[p] == ids[p];
    }
  }

  lemma EmitHeadOriginal(d: Diffs, o: nat, n: nat)
    requires o < n && !Deleted(d, o)
    ensures |Ins(d, o)| < |Emit(d, o, n)| && Emit(d, o, n)[|Ins(d, o)|] == OriginalIdx(o)
  {
    var ids := InsIds(Ins(d, o));
    var rest := Emit(d, o + 1, n);
    assert Emit(d, o, n) == ids + [OriginalIdx(o)] + rest;
    assert (ids + [OriginalIdx(o)] + rest)[|ids|] == OriginalIdx(o);
  }

  /** Where the emitted order puts a surviving original. */
  lemma EmittedOriginal(d: Diffs, o: nat, n: nat)
    requires o < n && !Deleted(d, o)
    ensures Pos(d, o) + |Ins(d, o)| < |Emit(d, 0, n)|
    ensures Emit(d, 0, n)[Pos(d, o) + |Ins(d, o)|] == OriginalIdx(o)
  {
    EmitShift(d, 0, o, n);
    EmitHeadOriginal(d, o, n);
  }

  /** Where the emitted order puts the `p`-th insertion anchored at `a`. */
  lemma EmittedInsertion(d: Diffs, a: nat, p: nat, n: nat)
    requires a <= n && p < |Ins(d, a)|
    ensures Pos(d, a) + p < |Emit(d, 0, n)|
    ensures Emit(d, 0, n)[Pos(d, a) + p] == InsertionIdx(Ins(d, a)[p])
  {
    EmitShift(d, 0, a, n);
    EmitHeadInsertion(d, a, n, p);
  }

  // ---------------------------------------------------------------------
  // get_idx finds every live item where the emitted order puts it

  /** The mutations `emit_wasm` relies on: only originals are deleted, and
      every deletion and anchor is within the original index space. */
  predicate Valid<T>(m: IndexMutations<T>)
  {
    && AllOriginal(m.deletions)
    && (forall i :: 0 <= i < |m.deletions| ==> m.deletions[i].o < |m.originals|)
    && (forall j :: 0 <= j < |m.insertions| ==> m.insertions[j].0 <= |m.originals|)
  }

  /** An id that names an item that is emitted. */
  predicate Live<T>(m: IndexMutations<T>, r: Id)
  {
    match r
    case OriginalIdx(o) => o < |m.originals| && o !in DeletedSet(m.deletions)
    case InsertionIdx(j) => j < |m.insertions|
  }

  lemma {:induction false} InsAtMember<T>(ins: seq<(nat, T)>, k: nat, upto: nat, j: nat)
    requires upto <= |ins|
    ensures j in InsAt(ins, k, upto) <==> j < upto && ins[j].0 == k
  {
    if upto > 0 {
      InsAtMember(ins, k, upto - 1, j);
    }
  }

  lemma {:induction false} LookupFound(d: Diffs, k: nat)
    requires Lookup(d, k).Some?
    ensures exists t :: 0 <= t < |d| && d[t] == (k, Lookup(d, k).value)
  {
    if d[0].0 != k {
      LookupFound(d[1..], k);
      var t :| 0 <= t < |d[1..]| && d[1..][t] == (k, Lookup(d, k).value);
      assert d[t + 1] == d[1..][t];
    } else {
      assert d[0] == (k, Lookup(d, k).value);
    }
  }

  lemma InsertionListed<T>(m: IndexMutations<T>, d: Diffs, j: nat) returns (t0: nat)
    requires AssignDiffs(m) == Some(d) && Sorted(d) && j < |m.insertions|
    ensures t0 < |d| && d[t0].0 == m.insertions[j].0 && Lookup(d, d[t0].0) == Some(d[t0].1)
    ensures j in d[t0].1.insertions
    ensures forall t :: 0 <= t < |d| && t != t0 ==> j !in d[t].1.insertions
  {
    var a := m.insertions[j].0;
    AssignDiffsSpec(m, a);
    assert a in Anchors(m.insertions, |m.insertions|);
    LookupFound(d, a);
    t0 :| 0 <= t0 < |d| && d[t0] == (a, Lookup(d, a).value);
    InsAtMember(m.insertions, a, |m.insertions|, j);
    forall t | 0 <= t < |d| && t != t0 ensures j !in d[t].1.insertions {
      LookupAt(d, t);
      AssignDiffsSpec(m, d[t].0);
      InsAtMember(m.insertions, d[t].0, |m.insertions|, j);
    }
  }

  lemma NotListed<T>(m: IndexMutations<T>, d: Diffs, j: nat)
    requires AssignDiffs(m) == Some(d) && Sorted(d) && j >= |m.insertions|
    ensures forall t :: 0 <= t < |d| ==> j !in d[t].1.insertions
  {
    forall t | 0 <= t < |d| ensures j !in d[t].1.insertions {
      LookupAt(d, t);
      AssignDiffsSpec(m, d[t].0);
      InsAtMember(m.insertions, d[t].0, |m.insertions|, j);
    }
  }

  /** A live original sits where `get_idx`'s loop over the diffs puts it. */
  lemma LocateOriginal<T>(m: IndexMutations<T>, d: Diffs, o: nat)
    requires AssignDiffs(m) == Some(d) && Sorted(d) && Live(m, OriginalIdx(o))
    ensures var g := OriginalLoop(d, 0, o, o);
      g.Some? && g.value < |Emit(d, 0, |m.originals|)| && Emit(d, 0, |m.originals|)[g.value] == OriginalIdx(o)
  {
    AssignDiffsSpec(m, o);
    assert !Deleted(d, o);
    OriginalPosition(d, o);
    EmittedOriginal(d, o, |m.originals|);
  }

  /** A recorded insertion sits where `get_idx`'s loop over the diffs puts it. */
  lemma LocateInsertion<T>(m: IndexMutations<T>, d: Diffs, j: nat)
    requires Valid(m) && AssignDiffs(m) == Some(d) && Sorted(d) && Live(m, InsertionIdx(j))
    ensures var g := InsertionLoop(d, 0, j, 0, 0);
      g.Some? && g.value < |Emit(d, 0, |m.originals|)| && Emit(d, 0, |m.originals|)[g.value] == InsertionIdx(j)
  {
    var t0 := InsertionListed(m, d, j);
    var a := d[t0].0;
    InsertionLoopSpec(d, 0, j, 0, 0, t0);
    var p := FindIndex(d[t0].1.insertions, j).value;
    assert Ins(d, a) == d[t0].1.insertions;
    EmittedInsertion(d, a, p, |m.originals|);
  }

  /** The central property of the rewriter's index bookkeeping: after
      `assign_diffs`, `get_idx` of any id whose substitution chain ends at a
      live item is that item's position in the emitted order. */
  lemma GetIdxLocates<T>(m: IndexMutations<T>, id: Id)
    requires Valid(m)
    ensures AssignDiffs(m).Some?
    ensures Sorted(AssignDiffs(m).value)
    ensures var d := AssignDiffs(m).value;
      var r := Resolve(m.substitutions, id, |m.substitutions|);
      r.Some? && Live(m, r.value) ==>
        && GetIdx(m, d, id).Some?
        && GetIdx(m, d, id).value < |Emit(d, 0, |m.originals|)|
        && Emit(d, 0, |m.originals|)[GetIdx(m, d, id).value] == r.value
  {
    AssignDiffsSpec(m, 0);
    AssignDiffsSorted(m);
    var d := AssignDiffs(m).value;
    var r := Resolve(m.substitutions, id, |m.substitutions|);
    if r.Some? && Live(m, r.value) {
      match r.value
      case OriginalIdx(o) =>
        LocateOriginal(m, d, o);
      case InsertionIdx(j) =>
        LocateInsertion(m, d, j);
    }
  }

  /** An insertion id that was never handed out is the source's
      `unreachable!()`. */
  lemma GetIdxUnknownInsertion<T>(m: IndexMutations<T>, j: nat)
    requires Valid(m) && j >= |m.insertions|
    ensures AssignDiffs(m).Some? && Sorted(AssignDiffs(m).value)
    ensures GetIdx(m, AssignDiffs(m).value, InsertionIdx(j)) == None
  {
    AssignDiffsSpec(m, 0);
    AssignDiffsSorted(m);
    NotListed(m, AssignDiffs(m).value, j);
    InsertionLoopMiss(AssignDiffs(m).value, 0, j, 0, 0);
  }

  /** With nothing recorded, `assign_diffs` is empty and every original
      keeps its index. */
  lemma GetIdxUnmutated<T>(originals: seq<T>, o: nat)
    ensures AssignDiffs(New(originals)) == Some([])
    ensures GetIdx(New(originals), [], OriginalIdx(o)) == Some(o)
  {
  }

  /** A substituted original is placed where its substitute is, and where
      the end of its chain of substitutions is, whenever that chain ends
      (on a cyclic chain the source recurses forever). */
  lemma GetIdxFollowsSubstitute<T>(m: IndexMutations<T>, d: Diffs, o: nat)
    requires Sorted(d) && o in m.substitutions
    requires Resolve(m.substitutions, OriginalIdx(o), |m.substitutions|).Some?
    ensures GetIdx(m, d, OriginalIdx(o)) == GetIdx(m, d, m.substitutions[o])
    ensures var last := Resolve(m.substitutions, OriginalIdx(o), |m.substitutions|).value;
      GetIdx(m, d, OriginalIdx(o)) == GetIdx(m, d, last)
  {
    var subs := m.substitutions;
    var n := |subs|;
    assert n > 0;
    ResolveMoreFuel(subs, subs[o], n - 1);
  }

  /** More fuel never changes a chain that already ended. */
  lemma {:induction false} ResolveMoreFuel(subs: map<nat, Id>, id: Id, fuel: nat)
    requires Resolve(subs, id, fuel).Some?
    ensures Resolve(subs, id, fuel + 1) == Resolve(subs, id, fuel)
    decreases fuel
  {
    if id.OriginalIdx? && id.o in subs {
      ResolveMoreFuel(subs, subs[id.o], fuel - 1);
    }
  }

  /** Enough fuel: a chain of substitutions that ends at all ends within as
      many steps as there are substitutions, since it never visits an
      original twice.  So the bound `get_idx`'s model puts on the chain
      cuts off only the cyclic chains. */
  lemma {:induction false} ResolveWithinSize(subs: map<nat, Id>, id: Id, fuel: nat)
    requires Resolve(subs, id, fuel).Some?
    ensures Resolve(subs, id, |subs|) == Resolve(subs, id, fuel)
    decreases |subs|
  {
    if id.OriginalIdx? && id.o in subs {
      var o := id.o;
      var y := subs[o];
      var rest := subs - {o};
      assert rest.Keys == subs.Keys - {o};
      assert |rest| == |subs| - 1;
      RestrictChain(subs, o, y, fuel - 1);
      var w := Resolve(rest, y, fuel - 1);
      if w == Some(OriginalIdx(o)) {
        ChainBackIsCyclic(subs, o, fuel - 1, fuel);
        assert false;
      } else {
        ResolveWithinSize(rest, y, fuel - 1);
        ExtendChain(subs, o, y, |rest|);
      }
    }
  }

  /** Dropping the substitution of `o` ends every chain at `o` at the
      latest, and a chain that does not reach `o` ends where it did. */
  lemma {:induction false} RestrictChain(subs: map<nat, Id>, o: nat, y: Id, fuel: nat)
    requires Resolve(subs, y, fuel).Some?
    ensures var w := Resolve(subs - {o}, y, fuel);
      w.Some? && (w.value == OriginalIdx(o) || w == Resolve(subs, y, fuel))
    decreases fuel
  {
    if y.OriginalIdx? && y.o in subs && y.o != o {
      RestrictChain(subs, o, subs[y.o], fuel - 1);
    }
  }

  /** The converse: a chain that ends without the substitution of `o`, and
      not at `o`, ends in the same place with it. */
  lemma {:induction false} ExtendChain(subs: map<nat, Id>, o: nat, y: Id, fuel: nat)
    requires Resolve(subs - {o}, y, fuel).Some? && Resolve(subs - {o}, y, fuel).value != OriginalIdx(o)
    ensures Resolve(subs, y, fuel) == Resolve(subs - {o}, y, fuel)
    decreases fuel
  {
    if y.OriginalIdx? && y.o in subs - {o} {
      ExtendChain(subs, o, subs[y.o], fuel - 1);
    }
  }

  /** A chain that leads back to `o` hands `o`'s chain no more fuel than it
      had: whatever the chain from `y` reaches, `o`'s chain reaches too. */
  lemma {:induction false} ThroughOrigin(subs: map<nat, Id>, o: nat, y: Id, steps: nat, fuel: nat)
    requires o in subs && Resolve(subs - {o}, y, steps) == Some(OriginalIdx(o))
    requires Resolve(subs, y, fuel).Some?
    ensures Resolve(subs, OriginalIdx(o), fuel).Some?
    decreases steps
  {
    if y != OriginalIdx(o) {
      ThroughOrigin(subs, o, subs[y.o], steps - 1, fuel - 1);
      ResolveMoreFuel(subs, OriginalIdx(o), fuel - 1);
    }
  }

  /** A substitute whose chain leads back to its original makes the
      original's chain cyclic: no fuel ends it. */
  lemma {:induction false} ChainBackIsCyclic(subs: map<nat, Id>, o: nat, steps: nat, fuel: nat)
    requires o in subs && Resolve(subs - {o}, subs[o], steps) == Some(OriginalIdx(o))
    ensures Resolve(subs, OriginalIdx(o), fuel).None?
    decreases fuel
  {
    if fuel > 0 && Resolve(subs, subs[o], fuel - 1).Some? {
      ThroughOrigin(subs, o, subs[o], steps, fuel - 1);
      ChainBackIsCyclic(subs, o, steps, fuel - 1);
    }
  }
}
