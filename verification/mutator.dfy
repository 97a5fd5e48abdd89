/** The index-mutation layer of the module rewriter (`src/mutator.rs`).

    Each index space of a Wasm module (types, functions, imports, exports)
    keeps its original items and records deletions, insertions anchored
    before an original index, and substitutions of one id for another.
    Before emitting, the recorded mutations are folded into a key-ordered
    map of per-original `Mutation`s (`assign_diffs`), from which the final
    index of every id is computed (`get_idx`). */
module Mutator {
  import opened Results

  /** `Id<T>`: an original item by its index, or an inserted item by its
      position in the insertion list. */
  datatype Id = OriginalIdx(o: nat) | InsertionIdx(j: nat)

  /** What happens at one original index: the insertions placed before it
      (as insertion positions) and whether the original itself is deleted. */
  datatype Mutation = Mutation(insertions: seq<nat>, deletion: bool)

  /** `Mutation::diff`: by how much the entries after this original move. */
  function Diff(m: Mutation): int
  {
    |m.insertions| - (if m.deletion then 1 else 0)
  }

  /** `Diffs<T>` is a `BTreeMap<u32, Mutation>`; it is kept here as the list
      of its entries in iteration (ascending key) order. */
  type Diffs = seq<(nat, Mutation)>

  predicate Sorted(d: Diffs)
  {
    forall i, j :: 0 <= i < j < |d| ==> d[i].0 < d[j].0
  }

  function Keys(d: Diffs): set<nat>
  {
    set i | 0 <= i < |d| :: d[i].0
  }

  /** `BTreeMap::get`. */
  function Lookup(d: Diffs, k: nat): Option<Mutation>
  {
    if |d| == 0 then None
    else if d[0].0 == k then Some(d[0].1)
    else Lookup(d[1..], k)
  }

  lemma {:induction false} LookupKeys(d: Diffs, k: nat)
    ensures Lookup(d, k).Some? <==> k in Keys(d)
  {
    if |d| > 0 && d[0].0 != k {
      LookupKeys(d[1..], k);
      KeysCons(d[0], d[1..]);
      assert [d[0]] + d[1..] == d;
    }
  }

  lemma {:induction false} LookupAt(d: Diffs, i: nat)
    requires Sorted(d) && i < |d|
    ensures Lookup(d, d[i].0) == Some(d[i].1)
  {
    if i > 0 {
      LookupAt(d[1..], i - 1);
    }
  }

  lemma KeysCons(x: (nat, Mutation), d: Diffs)
    ensures Keys([x] + d) == {x.0} + Keys(d)
  {
    var r := [x] + d;
    forall y | y in Keys(r) ensures y in {x.0} + Keys(d) {
      var i :| 0 <= i < |r| && r[i].0 == y;
      if i > 0 {
        assert r[i] == d[i - 1];
      }
    }
    forall y | y in Keys(d) ensures y in Keys(r) {
      var i :| 0 <= i < |d| && d[i].0 == y;
      assert r[i + 1] == d[i];
    }
    assert r[0] == x;
  }

  /** `BTreeMap::insert` (which replaces the value of an existing key). */
  function Put(d: Diffs, k: nat, m: Mutation): Diffs
  {
    if |d| == 0 then [(k, m)]
    else if k < d[0].0 then [(k, m)] + d
    else if k == d[0].0 then [(k, m)] + d[1..]
    else [d[0]] + Put(d[1..], k, m)
  }

  /** Every key of the result is the new key or an old one. */
  lemma {:induction false} PutAbove(d: Diffs, k: nat, m: Mutation, lo: int)
    requires lo < k && forall i :: 0 <= i < |d| ==> lo < d[i].0
    ensures forall i :: 0 <= i < |Put(d, k, m)| ==> lo < Put(d, k, m)[i].0
  {
    if |d| > 0 && k > d[0].0 {
      PutAbove(d[1..], k, m, lo);
      assert Put(d, k, m) == [d[0]] + Put(d[1..], k, m);
    }
  }

  lemma {:induction false} PutSorted(d: Diffs, k: nat, m: Mutation)
    requires Sorted(d)
    ensures Sorted(Put(d, k, m))
  {
    if |d| > 0 && k > d[0].0 {
      var t := Put(d[1..], k, m);
      PutSorted(d[1..], k, m);
      PutAbove(d[1..], k, m, d[0].0);
      assert Put(d, k, m) == [d[0]] + t;
    } else if |d| > 0 && k == d[0].0 {
      assert Put(d, k, m) == [(k, m)] + d[1..];
    }
  }

  lemma {:induction false} PutLookup(d: Diffs, k: nat, m: Mutation, k': nat)
    ensures Lookup(Put(d, k, m), k') == if k' == k then Some(m) else Lookup(d, k')
  {
    if |d| > 0 && k > d[0].0 {
      PutLookup(d[1..], k, m, k');
    }
  }

  /** `IndexMutations<T>`: one index space and the mutations recorded on it. */
  datatype IndexMutations<T> = IndexMutations(
    substitutions: map<nat, Id>,
    originals: seq<T>,
    deletions: seq<Id>,
    insertions: seq<(nat, T)>)

  function New<T>(originals: seq<T>): (r: IndexMutations<T>)
    ensures r.originals == originals
    ensures r.substitutions == map[] && r.deletions == [] && r.insertions == []
  {
    IndexMutations(map[], originals, [], [])
  }

  function Delete<T>(m: IndexMutations<T>, id: Id): (r: IndexMutations<T>)
    ensures r.deletions == m.deletions + [id]
    ensures r.originals == m.originals && r.insertions == m.insertions
    ensures r.substitutions == m.substitutions
  {
    m.(deletions := m.deletions + [id])
  }

  /** `insert_at`: record `item` to be placed before original `anchor`. */
  function InsertAt<T>(m: IndexMutations<T>, item: T, anchor: nat): (r: (IndexMutations<T>, Id))
    ensures r.1 == NextInsertionId(m)
    ensures r.0.insertions == m.insertions + [(anchor, item)]
    ensures Get(r.0, r.1) == item
    ensures r.0.originals == m.originals && r.0.deletions == m.deletions
    ensures r.0.substitutions == m.substitutions
  {
    (m.(insertions := m.insertions + [(anchor, item)]), InsertionIdx(|m.insertions|))
  }

  /** `next_insertion_id`: the id the next `insert_at` will return. */
  function NextInsertionId<T>(m: IndexMutations<T>): (r: Id)
    ensures r.InsertionIdx? && !InRange(m, r)
    ensures forall id :: InRange(m, id) ==> id != r
  {
    InsertionIdx(|m.insertions|)
  }

  /** `substitute`: from now on `id` resolves to `sub`; substituting an
      inserted item is a `todo!` in the source, modelled as `None`. */
  function Substitute<T>(m: IndexMutations<T>, id: Id, sub: Id): (r: Option<IndexMutations<T>>)
    ensures r.Some? <==> id.OriginalIdx?
    ensures r.Some? ==> r.value.substitutions == m.substitutions[id.o := sub]
    ensures r.Some? ==> r.value.originals == m.originals && r.value.insertions == m.insertions
    ensures r.Some? ==> r.value.deletions == m.deletions
  {
    match id
    case OriginalIdx(o) => Some(m.(substitutions := m.substitutions[o := sub]))
    case InsertionIdx(_) => None
  }

  predicate InRange<T>(m: IndexMutations<T>, id: Id)
  {
    match id
    case OriginalIdx(o) => o < |m.originals|
    case InsertionIdx(j) => j < |m.insertions|
  }

  /** `get`: the item an id names. */
  function Get<T>(m: IndexMutations<T>, id: Id): (r: T)
    requires InRange(m, id)
    ensures id.OriginalIdx? ==> r == m.originals[id.o]
    ensures id.InsertionIdx? ==> r == m.insertions[id.j].1
  {
    match id
    case OriginalIdx(o) => m.originals[o]
    case InsertionIdx(j) => m.insertions[j].1
  }

  // ---------------------------------------------------------------------
  // assign_diffs

  /** The deletion half of `assign_diffs`: set the deletion flag of the
      original's entry, creating an empty entry when there is none. */
  function MarkDeleted(d: Diffs, o: nat): Diffs
  {
    match Lookup(d, o)
    case Some(cur) => Put(d, o, cur.(deletion := true))
    case None => Put(d, o, Mutation([], true))
  }

  /** The insertion half: append insertion `j` to the entry of its anchor. */
  function AddInsertion(d: Diffs, anchor: nat, j: nat): Diffs
  {
    match Lookup(d, anchor)
    case Some(cur) => Put(d, anchor, cur.(insertions := cur.insertions + [j]))
    case None => Put(d, anchor, Mutation([j], false))
  }

  /** Folding the deletion list in order; deleting an inserted item is a
      `todo!` in the source, modelled as `None`. */
  function DeletionDiffs(dels: seq<Id>): Option<Diffs>
  {
    if |dels| == 0 then Some([])
    else
      match DeletionDiffs(dels[..|dels| - 1])
      case None => None
      case Some(d) =>
        match dels[|dels| - 1]
        case OriginalIdx(o) => Some(MarkDeleted(d, o))
        case InsertionIdx(_) => None
  }

  /** Folding the first `upto` insertions, in insertion order. */
  function InsertionDiffs<T>(d: Diffs, ins: seq<(nat, T)>, upto: nat): Diffs
    requires upto <= |ins|
  {
    if upto == 0 then d
    else AddInsertion(InsertionDiffs(d, ins, upto - 1), ins[upto - 1].0, upto - 1)
  }

  /** `assign_diffs`. (The source also computes a running `cumulative_diff`
      per insertion whose result is never used; it has no effect.) */
  function AssignDiffs<T>(m: IndexMutations<T>): Option<Diffs>
  {
    match DeletionDiffs(m.deletions)
    case None => None
    case Some(d) => Some(InsertionDiffs(d, m.insertions, |m.insertions|))
  }

  lemma {:induction false} DeletionDiffsSorted(dels: seq<Id>)
    requires DeletionDiffs(dels).Some?
    ensures Sorted(DeletionDiffs(dels).value)
  {
    if |dels| > 0 {
      var d := DeletionDiffs(dels[..|dels| - 1]).value;
      var o := dels[|dels| - 1].o;
      DeletionDiffsSorted(dels[..|dels| - 1]);
      match Lookup(d, o)
      case Some(cur) => PutSorted(d, o, cur.(deletion := true));
      case None => PutSorted(d, o, Mutation([], true));
    }
  }

  lemma {:induction false} InsertionDiffsSorted<T>(d: Diffs, ins: seq<(nat, T)>, upto: nat)
    requires upto <= |ins| && Sorted(d)
    ensures Sorted(InsertionDiffs(d, ins, upto))
  {
    if upto > 0 {
      var prev := InsertionDiffs(d, ins, upto - 1);
      var a := ins[upto - 1].0;
      InsertionDiffsSorted(d, ins, upto - 1);
      match Lookup(prev, a)
      case Some(cur) => PutSorted(prev, a, cur.(insertions := cur.insertions + [upto - 1]));
      case None => PutSorted(prev, a, Mutation([upto - 1], false));
    }
  }

  /** The map `assign_diffs` returns is a well-formed ordered map. */
  lemma AssignDiffsSorted<T>(m: IndexMutations<T>)
    requires AssignDiffs(m).Some?
    ensures Sorted(AssignDiffs(m).value)
  {
    DeletionDiffsSorted(m.deletions);
    InsertionDiffsSorted(DeletionDiffs(m.deletions).value, m.insertions, |m.insertions|);
  }

  // The independent description of the map `assign_diffs` builds.

  function DeletedSet(dels: seq<Id>): set<nat>
  {
    set i | 0 <= i < |dels| && dels[i].OriginalIdx? :: dels[i].o
  }

  /** The insertion positions anchored at `k` among the first `upto`, ascending. */
  function InsAt<T>(ins: seq<(nat, T)>, k: nat, upto: nat): seq<nat>
    requires upto <= |ins|
  {
    if upto == 0 then []
    else InsAt(ins, k, upto - 1) + (if ins[upto - 1].0 == k then [upto - 1] else [])
  }

  function Anchors<T>(ins: seq<(nat, T)>, upto: nat): set<nat>
    requires upto <= |ins|
  {
    set j | 0 <= j < upto :: ins[j].0
  }

  predicate AllOriginal(dels: seq<Id>)
  {
    forall i :: 0 <= i < |dels| ==> dels[i].OriginalIdx?
  }

  lemma DeletedSetSnoc(dels: seq<Id>, k: nat)
    requires |dels| > 0
    ensures k in DeletedSet(dels) <==>
      k in DeletedSet(dels[..|dels| - 1]) || dels[|dels| - 1] == OriginalIdx(k)
  {
    var init := dels[..|dels| - 1];
    if k in DeletedSet(dels) {
      var i :| 0 <= i < |dels| && dels[i].OriginalIdx? && dels[i].o == k;
      if i < |init| {
        assert init[i] == dels[i];
      }
    }
    if k in DeletedSet(init) {
      var i :| 0 <= i < |init| && init[i].OriginalIdx? && init[i].o == k;
      assert dels[i] == init[i];
    }
  }

  lemma {:induction false} DeletionDiffsSome(dels: seq<Id>)
    ensures DeletionDiffs(dels).Some? <==> AllOriginal(dels)
  {
    if |dels| > 0 {
      var init := dels[..|dels| - 1];
      DeletionDiffsSome(init);
      assert forall i :: 0 <= i < |init| ==> init[i] == dels[i];
    }
  }

  lemma {:induction false} DeletionDiffsLookup(dels: seq<Id>, k: nat)
    requires DeletionDiffs(dels).Some?
    ensures Lookup(DeletionDiffs(dels).value, k) ==
      if k in DeletedSet(dels) then Some(Mutation([], true)) else None
  {
    if |dels| > 0 {
      var init := dels[..|dels| - 1];
      var d := DeletionDiffs(init).value;
      var o := dels[|dels| - 1].o;
      DeletionDiffsLookup(init, k);
      DeletionDiffsLookup(init, o);
      DeletedSetSnoc(dels, k);
      match Lookup(d, o)
      case Some(cur) => PutLookup(d, o, cur.(deletion := true), k);
      case None => PutLookup(d, o, Mutation([], true), k);
    }
  }

  /** The entry at `k` before the insertions are folded in. */
  function BaseAt(d: Diffs, k: nat): Mutation
  {
    match Lookup(d, k)
    case Some(cur) => cur
    case None => Mutation([], false)
  }

  lemma AnchorsSnoc<T>(ins: seq<(nat, T)>, upto: nat, k: nat)
    requires 0 < upto <= |ins|
    ensures k in Anchors(ins, upto) <==> k in Anchors(ins, upto - 1) || ins[upto - 1].0 == k
  {
  }

  lemma {:induction false} InsAtOther<T>(ins: seq<(nat, T)>, k: nat, upto: nat)
    requires upto <= |ins| && k !in Anchors(ins, upto)
    ensures InsAt(ins, k, upto) == []
  {
    if upto > 0 {
      AnchorsSnoc(ins, upto, k);
      InsAtOther(ins, k, upto - 1);
    }
  }

  /** The entry after appending insertion `j` to entry `o`. */
  function Appended(o: Option<Mutation>, j: nat): Option<Mutation>
  {
    var base := if o.Some? then o.value else Mutation([], false);
    Some(Mutation(base.insertions + [j], base.deletion))
  }

  lemma AddInsertionLookup(d: Diffs, a: nat, j: nat, k: nat)
    ensures Lookup(AddInsertion(d, a, j), k) == if k == a then Appended(Lookup(d, a), j) else Lookup(d, k)
  {
    var entry := Appended(Lookup(d, a), j).value;
    if Lookup(d, a).Some? {
      assert AddInsertion(d, a, j) == Put(d, a, entry);
    } else {
      assert [] + [j] == [j];
      assert AddInsertion(d, a, j) == Put(d, a, entry);
    }
    PutLookup(d, a, entry, k);
  }

  /** The entry `k` ends up with after the first `upto` insertions. */
  function Expected<T>(d: Diffs, ins: seq<(nat, T)>, upto: nat, k: nat): Option<Mutation>
    requires upto <= |ins|
  {
    if Lookup(d, k).Some? || k in Anchors(ins, upto)
    then Some(Mutation(BaseAt(d, k).insertions + InsAt(ins, k, upto), BaseAt(d, k).deletion))
    else None
  }

  lemma ExpectedSnoc<T>(d: Diffs, ins: seq<(nat, T)>, upto: nat, k: nat)
    requires 0 < upto <= |ins|
    ensures Expected(d, ins, upto, k) ==
      if k == ins[upto - 1].0 then Appended(Expected(d, ins, upto - 1, k), upto - 1)
      else Expected(d, ins, upto - 1, k)
  {
    var b := BaseAt(d, k);
    AnchorsSnoc(ins, upto, k);
    if k == ins[upto - 1].0 {
      assert InsAt(ins, k, upto) == InsAt(ins, k, upto - 1) + [upto - 1];
      if Lookup(d, k).None? && k !in Anchors(ins, upto - 1) {
        InsAtOther(ins, k, upto - 1);
        assert b == Mutation([], false);
        assert b.insertions + InsAt(ins, k, upto) == [upto - 1];
        assert Expected(d, ins, upto - 1, k) == None;
        assert Expected(d, ins, upto, k) == Some(Mutation([upto - 1], false));
        assert Mutation([], false).insertions + [upto - 1] == [upto - 1];
        assert Appended(None, upto - 1) == Some(Mutation([upto - 1], false));
      } else {
        assert b.insertions + InsAt(ins, k, upto - 1) + [upto - 1] == b.insertions + InsAt(ins, k, upto);
      }
    } else {
      assert InsAt(ins, k, upto) == InsAt(ins, k, upto - 1) + [];
      assert k in Anchors(ins, upto) <==> k in Anchors(ins, upto - 1);
      assert b.insertions + InsAt(ins, k, upto) == b.insertions + InsAt(ins, k, upto - 1);
    }
  }

  lemma ExpectedNone<T>(d: Diffs, ins: seq<(nat, T)>, k: nat)
    ensures Expected(d, ins, 0, k) == Lookup(d, k)
  {
    assert k !in Anchors(ins, 0);
    assert BaseAt(d, k).insertions + [] == BaseAt(d, k).insertions;
  }

  lemma {:induction false} InsertionDiffsSpec<T>(d: Diffs, ins: seq<(nat, T)>, upto: nat, k: nat)
    requires upto <= |ins|
    ensures Lookup(InsertionDiffs(d, ins, upto), k) == Expected(d, ins, upto, k)
  {
    if upto > 0 {
      var prev := InsertionDiffs(d, ins, upto - 1);
      var a := ins[upto - 1].0;
      assert InsertionDiffs(d, ins, upto) == AddInsertion(prev, a, upto - 1);
      InsertionDiffsSpec(d, ins, upto - 1, k);
      AddInsertionLookup(prev, a, upto - 1, k);
      ExpectedSnoc(d, ins, upto, k);
    } else {
      ExpectedNone(d, ins, k);
    }
  }

  /** What `assign_diffs` computes: it fails exactly when an inserted item
      was deleted; otherwise the map has an entry for every deleted or
      anchoring original, flagged when deleted, listing the insertions
      anchored there in insertion order. */
  lemma AssignDiffsSpec<T>(m: IndexMutations<T>, k: nat)
    ensures AssignDiffs(m).Some? <==> AllOriginal(m.deletions)
    ensures AssignDiffs(m).Some? ==>
      Lookup(AssignDiffs(m).value, k) ==
        if k in DeletedSet(m.deletions) || k in Anchors(m.insertions, |m.insertions|)
        then Some(Mutation(InsAt(m.insertions, k, |m.insertions|), k in DeletedSet(m.deletions)))
        else None
  {
    DeletionDiffsSome(m.deletions);
    if AssignDiffs(m).Some? {
      var d := DeletionDiffs(m.deletions).value;
      var ins := InsAt(m.insertions, k, |m.insertions|);
      var deleted := k in DeletedSet(m.deletions);
      assert AssignDiffs(m).value == InsertionDiffs(d, m.insertions, |m.insertions|);
      InsertionDiffsSpec(d, m.insertions, |m.insertions|, k);
      DeletionDiffsLookup(m.deletions, k);
      assert Lookup(d, k).Some? == deleted;
      assert BaseAt(d, k) == Mutation([], deleted);
      assert [] + ins == ins;
    }
  }
}
