/** The adapter's path lookup over the index `create_io_virt` lays out
    agrees with looking the path up in the filesystem tree itself: the
    relative child offsets and sorted child names written by the
    generator are what `dir_lookup` in `virtual-adapter/src/io.rs`
    relies on. */
module IndexLookup {
  import opened Results
  import opened Bytes
  import opened Lex
  import Sorting
  import SortedMap
  import FsTree
  import FsBfs
  import FsIndex
  import opened StaticIndex

  /** The entry the adapter reads for visit `v`: the node's name, and by
      its kind the child offset and count, the file's length and contents
      (passive above the cutoff), or the host path with a zero second
      word. */
  predicate Stores(e: Entry, v: FsBfs.Visit, cutoff: nat)
  {
    e.name == v.name
    && match v.entry
       case Dir(cs) => e.ty == FsIndex.DirEntry && e.d0 == v.off && e.d1 == |cs|
       case File(b) =>
         e.ty == (if |b| > cutoff then FsIndex.PassiveFile else FsIndex.ActiveFile) && e.d1 == |b| && e.bytes == b
       case RuntimeFile(path) => e.ty == FsIndex.RuntimeHostFile && e.d1 == 0 && e.bytes == path
       case RuntimeDir(path) => e.ty == FsIndex.RuntimeHostDir && e.d1 == 0 && e.bytes == path
       case _ => false
  }

  /** Entry `i` of the index is the one laid out for visit `i`. */
  predicate StoredAt(index: seq<Entry>, vs: seq<FsBfs.Visit>, cutoff: nat, i: nat)
  {
    i < |index| && i < |vs| && Stores(index[i], vs[i], cutoff)
  }

  /** The index holds one entry per visit, in visit order. */
  predicate Mirrors(index: seq<Entry>, vs: seq<FsBfs.Visit>, cutoff: nat)
  {
    |index| == |vs| && forall i :: 0 <= i < |vs| ==> StoredAt(index, vs, cutoff, i)
  }

  /** Visit `i`'s children follow it at its offset, sorted by name, and a
      runtime directory's path pointer, reread as a child offset, points
      past the index. */
  predicate NodeLaid(index: seq<Entry>, vs: seq<FsBfs.Visit>, i: nat)
  {
    i < |index| && i < |vs|
    && FsBfs.ChildrenAt(vs, i)
    && FsTree.WellFormed(vs[i].entry)
    && (index[i].ty.RuntimeHostDir? ==> i + index[i].d0 > |index|)
  }

  /** Every visit is laid out so. */
  predicate Laid(index: seq<Entry>, vs: seq<FsBfs.Visit>)
  {
    forall i :: 0 <= i < |vs| ==> NodeLaid(index, vs, i)
  }

  /** The position of the child named `name`. */
  function FindChild(cs: seq<FsBfs.Named>, name: Bytes): (r: Option<nat>)
    ensures r.Some? ==> r.value < |cs| && cs[r.value].0 == name
    ensures r.None? <==> forall k :: 0 <= k < |cs| ==> cs[k].0 != name
  {
    if |cs| == 0 then None
    else if cs[|cs| - 1].0 == name then Some(|cs| - 1)
    else FindChild(cs[..|cs| - 1], name)
  }

  /** Path lookup in the tree: the reference `dir_lookup` is measured
      against.  Looking inside a runtime directory panics, as the adapter
      does when the path pointer it reads as an offset leaves the index. */
  function TreeLookup(e: FsTree.FsEntry, path: Bytes): Ret<FsTree.FsEntry, ErrorCode>
    decreases |path|
  {
    if |path| == 0 then Trap
    else
      var (first, rem) := SplitPath(path);
      match e
      case Dir(cs) =>
        (match FindChild(cs, first)
         case None => Fail(NoEntry)
         case Some(i) => if |rem| > 0 then TreeLookup(cs[i].1, rem) else Done(cs[i].1))
      case RuntimeDir(_) => Trap
      case _ => Fail(NotDirectory)
  }

  /** A lookup's result, with the position found replaced by the node
      visited there. */
  function AtVisit(vs: seq<FsBfs.Visit>, r: Ret<nat, ErrorCode>): Ret<FsTree.FsEntry, ErrorCode>
    requires r.Done? ==> r.value < |vs|
  {
    match r
    case Done(q) => Done(vs[q].entry)
    case Fail(e) => Fail(e)
    case Trap => Trap
  }

  /** In a sorted child list the name found is at its only position. */
  lemma FindChildUnique(cs: seq<FsBfs.Named>, name: Bytes, j: nat)
    requires SortedMap.Keyed(cs) && j < |cs| && cs[j].0 == name
    ensures FindChild(cs, name) == Some(j)
  {
    var i := FindChild(cs, name).value;
    if i < j {
      LtIrreflexive(name);
    } else if j < i {
      LtIrreflexive(name);
    }
  }

  /** The window of a directory's children in the index, its names sorted. */
  lemma ChildWindow(index: seq<Entry>, vs: seq<FsBfs.Visit>, cutoff: nat, p: nat)
    requires Mirrors(index, vs, cutoff) && Laid(index, vs) && p < |vs| && vs[p].entry.Dir?
    ensures var cs := vs[p].entry.children; var lo := p + vs[p].off;
      ChildList(index, p, Relative) == Done((lo, lo + |cs|))
      && (forall k :: 0 <= k < |cs| ==> index[lo..lo + |cs|][k].name == cs[k].0 && vs[lo + k].entry == cs[k].1)
      && Sorting.SortedBy(index[lo..lo + |cs|], NameOf)
  {
    var cs := vs[p].entry.children;
    var lo := p + vs[p].off;
    assert NodeLaid(index, vs, p) && StoredAt(index, vs, cutoff, p);
    var w := index[lo..lo + |cs|];
    forall k | 0 <= k < |cs| ensures w[k].name == cs[k].0 && vs[lo + k].entry == cs[k].1 {
      assert StoredAt(index, vs, cutoff, lo + k);
    }
    assert FsTree.WellFormed(vs[p].entry);
    forall a, b | 0 <= a < b < |w| ensures Lt(NameOf(w[a]), NameOf(w[b])) {
      assert w[a].name == cs[a].0 && w[b].name == cs[b].0;
    }
    assert Sorting.StrictlySortedBy(w, NameOf);
    Sorting.StrictlySortedIsSorted(w, NameOf);
  }

  /** Bisecting a sorted window whose names are the children's finds the
      child the tree's lookup finds. */
  lemma SearchIsFind(w: seq<Entry>, cs: seq<FsBfs.Named>, name: Bytes)
    requires |w| == |cs| && SortedMap.Keyed(cs) && Sorting.SortedBy(w, NameOf)
    requires forall k :: 0 <= k < |cs| ==> w[k].name == cs[k].0
    ensures Sorting.BinarySearch(w, NameOf, name) == FindChild(cs, name)
  {
    Sorting.BinarySearchIsMembership(w, NameOf, name);
    match Sorting.BinarySearch(w, NameOf, name)
    case None =>
      forall k | 0 <= k < |cs| ensures cs[k].0 != name {
        assert NameOf(w[k]) == cs[k].0;
      }
    case Some(j) =>
      assert NameOf(w[j]) == cs[j].0;
      FindChildUnique(cs, name, j);
  }

  /** The same step in the tree, from the child the linear search found. */
  function TreeDescend(cs: seq<FsBfs.Named>, found: Option<nat>, rem: Bytes): Ret<FsTree.FsEntry, ErrorCode>
    requires found.Some? ==> found.value < |cs|
  {
    match found
    case None => Fail(NoEntry)
    case Some(i) => if |rem| > 0 then TreeLookup(cs[i].1, rem) else Done(cs[i].1)
  }

  /** One step of `dir_lookup` in a directory whose children sit at
      `[lo, hi)`: bisect the window for the first segment, then descend. */
  lemma LookupStep(index: seq<Entry>, p: nat, path: Bytes, lo: nat, hi: nat)
    requires p < |index| && |path| > 0
    requires ChildList(index, p, Relative) == Done((lo, hi))
    ensures DirLookup(index, p, path, Relative)
      == Descend(index, lo, Sorting.BinarySearch(index[lo..hi], NameOf, SplitPath(path).0), SplitPath(path).1, Relative)
  {
  }

  /** One step of the tree's lookup in a directory. */
  lemma TreeStep(e: FsTree.FsEntry, path: Bytes)
    requires e.Dir? && |path| > 0
    ensures TreeLookup(e, path) == TreeDescend(e.children, FindChild(e.children, SplitPath(path).0), SplitPath(path).1)
  {
  }

  /** Outside directories both lookups stop: a file is not a directory,
      and a runtime directory's window leaves the index. */
  lemma LookupLeaf(index: seq<Entry>, vs: seq<FsBfs.Visit>, cutoff: nat, p: nat, path: Bytes)
    requires p < |index| == |vs| && |path| > 0 && !vs[p].entry.Dir? && Stores(index[p], vs[p], cutoff)
    requires index[p].ty.RuntimeHostDir? ==> p + index[p].d0 > |index|
    ensures AtVisit(vs, DirLookup(index, p, path, Relative)) == TreeLookup(vs[p].entry, path)
  {
  }

  /** `dir_lookup` on the index finds, for every path from every visited
      node, the node the tree lookup finds, and fails or panics exactly
      when it does, with the same error. */
  lemma {:induction false} DirLookupIsTreeLookup(index: seq<Entry>, vs: seq<FsBfs.Visit>, cutoff: nat, p: nat, path: Bytes)
    requires Mirrors(index, vs, cutoff) && Laid(index, vs) && p < |vs|
    ensures AtVisit(vs, DirLookup(index, p, path, Relative)) == TreeLookup(vs[p].entry, path)
    decreases |path|, 1
  {
    if |path| > 0 {
      if vs[p].entry.Dir? {
        DirLookupInDir(index, vs, cutoff, p, path);
      } else {
        assert StoredAt(index, vs, cutoff, p) && NodeLaid(index, vs, p);
        LookupLeaf(index, vs, cutoff, p, path);
      }
    }
  }

  /** The directory case: one bisection step, then the child's lookup. */
  lemma {:induction false} DirLookupInDir(index: seq<Entry>, vs: seq<FsBfs.Visit>, cutoff: nat, p: nat, path: Bytes)
    requires Mirrors(index, vs, cutoff) && Laid(index, vs) && p < |vs|
    requires |path| > 0 && vs[p].entry.Dir?
    ensures AtVisit(vs, DirLookup(index, p, path, Relative)) == TreeLookup(vs[p].entry, path)
    decreases |path|, 0
  {
    var cs := vs[p].entry.children;
    var lo := p + vs[p].off;
    var first, rem := SplitPath(path).0, SplitPath(path).1;
    ChildWindow(index, vs, cutoff, p);
    assert NodeLaid(index, vs, p);
    SearchIsFind(index[lo..lo + |cs|], cs, first);
    var found := FindChild(cs, first);
    assert |index| == |vs|;
    if found.Some? {
      var j := found.value;
      ChildVisit(vs, p, j);
      if |rem| > 0 {
        DirLookupIsTreeLookup(index, vs, cutoff, lo + j, rem);
        assert AtVisit(vs, DirLookup(index, lo + j, rem, Relative)) == TreeLookup(cs[j].1, rem);
      }
      DescendAgrees(index, vs, lo, cs, found, rem);
    } else {
      DescendAgrees(index, vs, lo, cs, found, rem);
    }
    LookupStep(index, p, path, lo, lo + |cs|);
    TreeStep(vs[p].entry, path);
  }

  /** The two lookups take the same step once the child found is visited
      where the window says and the rest of the path agrees from there. */
  lemma DescendAgrees(index: seq<Entry>, vs: seq<FsBfs.Visit>, lo: nat, cs: seq<FsBfs.Named>, found: Option<nat>, rem: Bytes)
    requires |index| == |vs|
    requires found.Some? ==> found.value < |cs| && lo + found.value < |vs| && vs[lo + found.value].entry == cs[found.value].1
    requires found.Some? && |rem| > 0
      ==> AtVisit(vs, DirLookup(index, lo + found.value, rem, Relative)) == TreeLookup(cs[found.value].1, rem)
    ensures AtVisit(vs, Descend(index, lo, found, rem, Relative)) == TreeDescend(cs, found, rem)
  {
  }

  /** Child `j` of a directory is visited at the directory's offset plus `j`. */
  lemma ChildVisit(vs: seq<FsBfs.Visit>, p: nat, j: nat)
    requires p < |vs| && FsBfs.ChildrenAt(vs, p) && vs[p].entry.Dir? && j < |vs[p].entry.children|
    ensures p + vs[p].off + j < |vs| && vs[p + vs[p].off + j].entry == vs[p].entry.children[j].1
  {
  }
}
