/** The iterators of `src/mutator.rs` that walk an index space when the
    module is emitted (`MutationsDiffIter`) or searched
    (`IndexMutationsIter`). */
module MutatorIter {
  import opened Results
  import opened Mutator
  import opened MutatorIndex

  /** `MutationIterStep`. */
  datatype Step<T> = Original(item: T) | Skip | Insertion(item: T)

  /** `MutationsDiffIter` state: the next original and how many of its
      insertions were already yielded. */
  datatype DiffIter = DiffIter(originalIdx: nat, insertionOffset: nat)

  /** Every insertion the diffs list names exists (indexing it otherwise
      panics). */
  predicate Listed<T>(m: IndexMutations<T>, d: Diffs)
  {
    forall t, p :: 0 <= t < |d| && 0 <= p < |d[t].1.insertions| ==> d[t].1.insertions[p] < |m.insertions|
  }

  predicate KeysWithin(d: Diffs, n: nat)
  {
    forall t :: 0 <= t < |d| ==> d[t].0 <= n
  }

  /** Moving past original `oi`: yield it if it exists. */
  function Advance<T>(m: IndexMutations<T>, oi: nat, off: nat): Option<(Step<T>, DiffIter)>
  {
    if oi + 1 <= |m.originals| then Some((Original(m.originals[oi]), DiffIter(oi + 1, off))) else None
  }

  /** `MutationsDiffIter::next`. */
  function Next<T>(m: IndexMutations<T>, d: Diffs, it: DiffIter): (r: Option<(Step<T>, DiffIter)>)
    requires Listed(m, d)
  {
    match Lookup(d, it.originalIdx)
    case Some(mu) =>
      LookupFound(d, it.originalIdx);
      if it.insertionOffset < |mu.insertions| then
        Some((Insertion(m.insertions[mu.insertions[it.insertionOffset]].1),
              DiffIter(it.originalIdx, it.insertionOffset + 1)))
      else if mu.deletion then Some((Skip, DiffIter(it.originalIdx + 1, 0)))
      else Advance(m, it.originalIdx, 0)
    case None => Advance(m, it.originalIdx, it.insertionOffset)
  }

  function RunMeasure(d: Diffs, n: nat, it: DiffIter): nat
  {
    var ins := Ins(d, it.originalIdx);
    if it.insertionOffset <= |ins| then |ins| - it.insertionOffset else 0
  }

  lemma LookupWithin(d: Diffs, n: nat, k: nat)
    requires KeysWithin(d, n) && k > n
    ensures Lookup(d, k) == None
  {
    LookupMiss(d, k);
  }

  /** Everything the iterator yields until it returns `None`. */
  function Run<T>(m: IndexMutations<T>, d: Diffs, it: DiffIter): seq<Step<T>>
    requires Listed(m, d) && KeysWithin(d, |m.originals|)
    decreases if it.originalIdx <= |m.originals| + 1 then |m.originals| + 1 - it.originalIdx else 0,
      RunMeasure(d, |m.originals|, it)
  {
    match Next(m, d, it)
    case None => []
    case Some((step, next)) =>
      if it.originalIdx > |m.originals| then
        LookupWithin(d, |m.originals|, it.originalIdx);
        assert false;
        []
      else
        [step] + Run(m, d, next)
  }

  /** The items of a run, without the `Skip` markers. */
  function Items<T>(steps: seq<Step<T>>): seq<T>
  {
    if |steps| == 0 then []
    else (if steps[0].Skip? then [] else [steps[0].item]) + Items(steps[1..])
  }

  lemma ItemsConcat<T>(a: seq<Step<T>>, b: seq<Step<T>>)
    ensures Items(a + b) == Items(a) + Items(b)
  {
    if |a| > 0 {
      ItemsConcat(a[1..], b);
      assert (a + b)[1..] == a[1..] + b;
      assert (a + b)[0] == a[0];
    } else {
      assert a + b == b;
    }
  }

  predicate IdsInRange<T>(m: IndexMutations<T>, ids: seq<Id>)
  {
    forall i :: 0 <= i < |ids| ==> InRange(m, ids[i])
  }

  /** The items an id list names. */
  function Gets<T>(m: IndexMutations<T>, ids: seq<Id>): seq<T>
    requires IdsInRange(m, ids)
  {
    seq(|ids|, i requires 0 <= i < |ids| => Get(m, ids[i]))
  }

  // ---------------------------------------------------------------------
  // The iterator walks the emitted order

  /** What is left of the block of `k` once its insertions are out. */
  function Tail(d: Diffs, k: nat, n: nat): seq<Id>
    requires k <= n
  {
    if k == n then [] else (if Deleted(d, k) then [] else [OriginalIdx(k)]) + Emit(d, k + 1, n)
  }

  lemma InsListed<T>(m: IndexMutations<T>, d: Diffs, k: nat)
    requires Listed(m, d)
    ensures forall p :: 0 <= p < |Ins(d, k)| ==> Ins(d, k)[p] < |m.insertions|
  {
    if Lookup(d, k).Some? {
      LookupFound(d, k);
    }
  }

  lemma {:induction false} EmitInRange<T>(m: IndexMutations<T>, d: Diffs, k: nat)
    requires Listed(m, d) && k <= |m.originals|
    ensures IdsInRange(m, Emit(d, k, |m.originals|))
    ensures IdsInRange(m, Tail(d, k, |m.originals|))
    decreases |m.originals| - k
  {
    InsListed(m, d, k);
    if k < |m.originals| {
      EmitInRange(m, d, k + 1);
    }
  }

  lemma RunPastEnd<T>(m: IndexMutations<T>, d: Diffs)
    requires Listed(m, d) && KeysWithin(d, |m.originals|)
    ensures Run(m, d, DiffIter(|m.originals| + 1, 0)) == []
  {
    LookupWithin(d, |m.originals|, |m.originals| + 1);
  }

  lemma RunInsertionStep<T>(m: IndexMutations<T>, d: Diffs, k: nat, off: nat)
    requires Listed(m, d) && KeysWithin(d, |m.originals|)
    requires k <= |m.originals| && off < |Ins(d, k)|
    ensures Ins(d, k)[off] < |m.insertions|
    ensures Run(m, d, DiffIter(k, off)) ==
      [Insertion(m.insertions[Ins(d, k)[off]].1)] + Run(m, d, DiffIter(k, off + 1))
  {
    LookupFound(d, k);
  }

  lemma RunLeaveStep<T>(m: IndexMutations<T>, d: Diffs, k: nat, off: nat)
    requires Listed(m, d) && KeysWithin(d, |m.originals|)
    requires k <= |m.originals| && off == |Ins(d, k)|
    ensures Run(m, d, DiffIter(k, off)) ==
      if Deleted(d, k) then [Skip] + Run(m, d, DiffIter(k + 1, 0))
      else if k < |m.originals| then [Original(m.originals[k])] + Run(m, d, DiffIter(k + 1, 0))
      else []
  {
  }

  lemma GetsCons<T>(m: IndexMutations<T>, x: Id, rest: seq<Id>)
    requires InRange(m, x) && IdsInRange(m, rest)
    ensures IdsInRange(m, [x] + rest)
    ensures Gets(m, [x] + rest) == [Get(m, x)] + Gets(m, rest)
  {
  }

  /** What the iterator yields from state `(k, off)` on: the rest of the
      block of `k`, then the emitted order after it. */
  lemma {:induction false} RunFrom<T>(m: IndexMutations<T>, d: Diffs, k: nat, off: nat)
    requires Listed(m, d) && KeysWithin(d, |m.originals|)
    requires k <= |m.originals| && off <= |Ins(d, k)|
    ensures IdsInRange(m, InsIds(Ins(d, k)[off..]) + Tail(d, k, |m.originals|))
    ensures Items(Run(m, d, DiffIter(k, off))) == Gets(m, InsIds(Ins(d, k)[off..]) + Tail(d, k, |m.originals|))
    decreases |m.originals| - k, |Ins(d, k)| - off, 2
  {
    if off < |Ins(d, k)| {
      RunFromInsertion(m, d, k, off);
    } else {
      RunFromLeave(m, d, k);
    }
  }

  lemma {:induction false} RunFromInsertion<T>(m: IndexMutations<T>, d: Diffs, k: nat, off: nat)
    requires Listed(m, d) && KeysWithin(d, |m.originals|)
    requires k <= |m.originals| && off < |Ins(d, k)|
    ensures IdsInRange(m, InsIds(Ins(d, k)[off..]) + Tail(d, k, |m.originals|))
    ensures Items(Run(m, d, DiffIter(k, off))) == Gets(m, InsIds(Ins(d, k)[off..]) + Tail(d, k, |m.originals|))
    decreases |m.originals| - k, |Ins(d, k)| - off, 1
  {
    var tail := Tail(d, k, |m.originals|);
    RunInsertionItems(m, d, k, off);
    RunFrom(m, d, k, off + 1);
    InsIdsCons(Ins(d, k), off, tail);
    GetsCons(m, InsertionIdx(Ins(d, k)[off]), InsIds(Ins(d, k)[off + 1..]) + tail);
  }

  /** An insertion step yields the inserted item. */
  lemma RunInsertionItems<T>(m: IndexMutations<T>, d: Diffs, k: nat, off: nat)
    requires Listed(m, d) && KeysWithin(d, |m.originals|)
    requires k <= |m.originals| && off < |Ins(d, k)|
    ensures InRange(m, InsertionIdx(Ins(d, k)[off]))
    ensures Items(Run(m, d, DiffIter(k, off))) ==
      [Get(m, InsertionIdx(Ins(d, k)[off]))] + Items(Run(m, d, DiffIter(k, off + 1)))
  {
    RunInsertionStep(m, d, k, off);
    var head := Insertion(m.insertions[Ins(d, k)[off]].1);
    ItemsConcat([head], Run(m, d, DiffIter(k, off + 1)));
    assert Items([head]) == [Get(m, InsertionIdx(Ins(d, k)[off]))];
  }

  lemma InsIdsCons(ins: seq<nat>, off: nat, tail: seq<Id>)
    requires off < |ins|
    ensures InsIds(ins[off..]) + tail == [InsertionIdx(ins[off])] + (InsIds(ins[off + 1..]) + tail)
  {
    assert InsIds(ins[off..]) == [InsertionIdx(ins[off])] + InsIds(ins[off + 1..]);
  }

  lemma {:induction false} RunFromLeave<T>(m: IndexMutations<T>, d: Diffs, k: nat)
    requires Listed(m, d) && KeysWithin(d, |m.originals|)
    requires k <= |m.originals|
    ensures IdsInRange(m, Tail(d, k, |m.originals|))
    ensures Items(Run(m, d, DiffIter(k, |Ins(d, k)|))) == Gets(m, Tail(d, k, |m.originals|))
    ensures InsIds(Ins(d, k)[|Ins(d, k)|..]) + Tail(d, k, |m.originals|) == Tail(d, k, |m.originals|)
    decreases |m.originals| - k, 0, 1
  {
    EmitInRange(m, d, k);
    assert InsIds(Ins(d, k)[|Ins(d, k)|..]) == [];
    if k == |m.originals| {
      RunLeaveEnd(m, d);
    } else if Deleted(d, k) {
      RunLeaveDeleted(m, d, k);
    } else {
      RunLeaveKept(m, d, k);
    }
  }

  /** Past the last original only a deletion marker can be left. */
  lemma RunLeaveEnd<T>(m: IndexMutations<T>, d: Diffs)
    requires Listed(m, d) && KeysWithin(d, |m.originals|)
    requires IdsInRange(m, Tail(d, |m.originals|, |m.originals|))
    ensures Items(Run(m, d, DiffIter(|m.originals|, |Ins(d, |m.originals|)|))) == Gets(m, Tail(d, |m.originals|, |m.originals|))
  {
    var n := |m.originals|;
    RunLeaveStep(m, d, n, |Ins(d, n)|);
    if Deleted(d, n) {
      RunPastEnd(m, d);
      assert Items<T>([Skip]) == [];
    }
  }

  /** The emitted order from `k` on is the insertions of `k`, then the
      rest of its block and everything after. */
  lemma EmitAsTail(d: Diffs, k: nat, n: nat)
    requires k <= n
    ensures InsIds(Ins(d, k)[0..]) + Tail(d, k, n) == Emit(d, k, n)
  {
    assert Ins(d, k)[0..] == Ins(d, k);
    if k == n {
      assert InsIds(Ins(d, n)) + [] == InsIds(Ins(d, n));
    } else {
      var own := if Deleted(d, k) then [] else [OriginalIdx(k)];
      assert Block(d, k) == InsIds(Ins(d, k)) + own;
      assert InsIds(Ins(d, k)) + (own + Emit(d, k + 1, n)) == (InsIds(Ins(d, k)) + own) + Emit(d, k + 1, n);
    }
  }

  lemma {:induction false} RunLeaveDeleted<T>(m: IndexMutations<T>, d: Diffs, k: nat)
    requires Listed(m, d) && KeysWithin(d, |m.originals|)
    requires k < |m.originals| && Deleted(d, k)
    requires IdsInRange(m, Tail(d, k, |m.originals|))
    ensures Items(Run(m, d, DiffIter(k, |Ins(d, k)|))) == Gets(m, Tail(d, k, |m.originals|))
    decreases |m.originals| - k, 0, 0
  {
    RunSkipItems(m, d, k);
    RunFromStart(m, d, k + 1);
    TailDeleted(d, k, |m.originals|);
  }

  /** A deleted original yields a `Skip`, which carries no item. */
  lemma RunSkipItems<T>(m: IndexMutations<T>, d: Diffs, k: nat)
    requires Listed(m, d) && KeysWithin(d, |m.originals|)
    requires k < |m.originals| && Deleted(d, k)
    ensures Items(Run(m, d, DiffIter(k, |Ins(d, k)|))) == Items(Run(m, d, DiffIter(k + 1, 0)))
  {
    RunSkipStep(m, d, k);
    ItemsSkip(Run(m, d, DiffIter(k + 1, 0)));
  }

  /** A run from the start of a block yields the emitted order from there. */
  lemma {:induction false} RunFromStart<T>(m: IndexMutations<T>, d: Diffs, j: nat)
    requires Listed(m, d) && KeysWithin(d, |m.originals|)
    requires j <= |m.originals|
    ensures IdsInRange(m, Emit(d, j, |m.originals|))
    ensures Items(Run(m, d, DiffIter(j, 0))) == Gets(m, Emit(d, j, |m.originals|))
    decreases |m.originals| - j, |Ins(d, j)|, 3
  {
    RunFrom(m, d, j, 0);
    EmitAsTail(d, j, |m.originals|);
  }

  lemma RunSkipStep<T>(m: IndexMutations<T>, d: Diffs, k: nat)
    requires Listed(m, d) && KeysWithin(d, |m.originals|)
    requires k < |m.originals| && Deleted(d, k)
    ensures Run(m, d, DiffIter(k, |Ins(d, k)|)) == [Skip] + Run(m, d, DiffIter(k + 1, 0))
  {
    RunLeaveStep(m, d, k, |Ins(d, k)|);
  }

  lemma ItemsSkip<T>(rest: seq<Step<T>>)
    ensures Items([Skip] + rest) == Items(rest)
  {
    ItemsConcat([Skip], rest);
    assert Items<T>([Skip]) == [];
  }

  lemma TailDeleted(d: Diffs, k: nat, n: nat)
    requires k < n && Deleted(d, k)
    ensures Tail(d, k, n) == Emit(d, k + 1, n)
  {
    assert Tail(d, k, n) == [] + Emit(d, k + 1, n);
  }

  lemma {:induction false} RunLeaveKept<T>(m: IndexMutations<T>, d: Diffs, k: nat)
    requires Listed(m, d) && KeysWithin(d, |m.originals|)
    requires k < |m.originals| && !Deleted(d, k)
    requires IdsInRange(m, Tail(d, k, |m.originals|))
    ensures Items(Run(m, d, DiffIter(k, |Ins(d, k)|))) == Gets(m, Tail(d, k, |m.originals|))
    decreases |m.originals| - k, 0, 0
  {
    var n := |m.originals|;
    var head := Original(m.originals[k]);
    var rest := Run(m, d, DiffIter(k + 1, 0));
    RunLeaveStep(m, d, k, |Ins(d, k)|);
    RunFromStart(m, d, k + 1);
    ItemsConcat([head], rest);
    GetsCons(m, OriginalIdx(k), Emit(d, k + 1, n));
    calc {
      Items(Run(m, d, DiffIter(k, |Ins(d, k)|)));
      Items([head] + rest);
      Items([head]) + Items(rest);
      { assert Items([head]) == [Get(m, OriginalIdx(k))]; }
      [Get(m, OriginalIdx(k))] + Gets(m, Emit(d, k + 1, n));
      Gets(m, [OriginalIdx(k)] + Emit(d, k + 1, n));
      Gets(m, Tail(d, k, n));
    }
  }

  /** Under a valid set of mutations the diffs `assign_diffs` builds fit
      the index space the iterator walks. */
  lemma AssignDiffsFit<T>(m: IndexMutations<T>)
    requires Valid(m)
    ensures AssignDiffs(m).Some?
    ensures Listed(m, AssignDiffs(m).value) && KeysWithin(AssignDiffs(m).value, |m.originals|)
  {
    AssignDiffsSpec(m, 0);
    AssignDiffsSorted(m);
    var d := AssignDiffs(m).value;
    forall t, p | 0 <= t < |d| && 0 <= p < |d[t].1.insertions| ensures d[t].1.insertions[p] < |m.insertions| {
      LookupAt(d, t);
      AssignDiffsSpec(m, d[t].0);
      InsAtMember(m.insertions, d[t].0, |m.insertions|, d[t].1.insertions[p]);
    }
    forall t | 0 <= t < |d| ensures d[t].0 <= |m.originals| {
      var k := d[t].0;
      LookupAt(d, t);
      AssignDiffsSpec(m, k);
      if k in DeletedSet(m.deletions) {
        var i :| 0 <= i < |m.deletions| && m.deletions[i].OriginalIdx? && m.deletions[i].o == k;
      } else {
        assert k in Anchors(m.insertions, |m.insertions|);
        var j :| 0 <= j < |m.insertions| && m.insertions[j].0 == k;
      }
    }
  }

  /** `diff_iter_from(from)` yields the items of the emitted order from
      original `from` on (`diff_iter` is `from == 0`). */
  lemma DiffIterEmits<T>(m: IndexMutations<T>, from: nat)
    requires Valid(m) && from <= |m.originals|
    ensures AssignDiffs(m).Some?
    ensures var d := AssignDiffs(m).value;
      && Listed(m, d) && KeysWithin(d, |m.originals|)
      && IdsInRange(m, Emit(d, from, |m.originals|))
      && Items(Run(m, d, DiffIter(from, 0))) == Gets(m, Emit(d, from, |m.originals|))
  {
    AssignDiffsFit(m);
    var d := AssignDiffs(m).value;
    RunFrom(m, d, from, 0);
    EmitInRange(m, d, from);
    assert Ins(d, from)[0..] == Ins(d, from);
    assert InsIds(Ins(d, from)) + Tail(d, from, |m.originals|) == Emit(d, from, |m.originals|);
  }

  /** Emitting and indexing agree: the item `diff_iter` yields at the
      index `get_idx` computes is the item the id names. */
  lemma GetIdxMatchesDiffIter<T>(m: IndexMutations<T>, id: Id)
    requires Valid(m)
    ensures AssignDiffs(m).Some? && Sorted(AssignDiffs(m).value)
    ensures var d := AssignDiffs(m).value;
      var r := Resolve(m.substitutions, id, |m.substitutions|);
      Listed(m, d) && KeysWithin(d, |m.originals|) &&
      (r.Some? && Live(m, r.value) ==>
        && GetIdx(m, d, id).Some?
        && GetIdx(m, d, id).value < |Items(Run(m, d, DiffIter(0, 0)))|
        && Items(Run(m, d, DiffIter(0, 0)))[GetIdx(m, d, id).value] == Get(m, r.value))
  {
    GetIdxLocates(m, id);
    DiffIterEmits(m, 0);
  }
}
