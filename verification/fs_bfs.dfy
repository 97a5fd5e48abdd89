/** `FsEntry::visit_bfs` / `visit_bfs_level` (`src/virt_io.rs`): the
    breadth-first walk that lays a preopen tree out as a flat index, each
    entry visited with the distance from its own position to its first
    child's. */
module FsBfs {
  import opened FsTree

  type Named = (Bytes.Bytes, FsEntry)

  /** One call of the visitor: the name, the entry and the child offset. */
  datatype Visit = Visit(name: Bytes.Bytes, entry: FsEntry, off: int)

  function Kids(e: FsEntry): seq<Named>
  {
    if e.Dir? then e.children else []
  }

  /** The next level: the children of the level's directories, in order. */
  function Next(level: seq<Named>): seq<Named>
  {
    if |level| == 0 then [] else Kids(level[0].1) + Next(level[1..])
  }

  /** Number of nodes of a tree. */
  function Size(e: FsEntry): nat
    decreases e, 1
  {
    if e.Dir? then 1 + SizeOfChildren(e, |e.children|) else 1
  }

  function SizeOfChildren(e: FsEntry, n: nat): nat
    requires e.Dir? && n <= |e.children|
    decreases e, 0, n
  {
    if n == 0 then 0 else SizeOfChildren(e, n - 1) + Size(e.children[n - 1].1)
  }

  /** Number of nodes of a forest. */
  function SizeAll(level: seq<Named>): nat
  {
    if |level| == 0 then 0 else Size(level[0].1) + SizeAll(level[1..])
  }

  /** The second loop of `visit_bfs_level` over the next level: each child
      is visited with the running offset, which then drops by one and grows
      by the child's own number of children. */
  function VisitRun(ns: seq<Named>, off: int): seq<Visit>
  {
    if |ns| == 0 then [] else [Visit(ns[0].0, ns[0].1, off)] + VisitRun(ns[1..], off - 1 + |Kids(ns[0].1)|)
  }

  /** The `while` loop of `visit_bfs` from the level `level` on: the first
      loop of `visit_bfs_level` starts the offset at the size of the next
      level. */
  function Bfs(level: seq<Named>): seq<Visit>
    decreases SizeAll(level)
  {
    if |level| == 0 then []
    else
      SizeAllStep(level);
      var n := Next(level);
      VisitRun(n, |n|) + Bfs(n)
  }

  /** `visit_bfs`: the root first, with offset 1, then the levels below. */
  function Flatten(name: Bytes.Bytes, root: FsEntry): seq<Visit>
  {
    [Visit(name, root, 1)] + Bfs([(name, root)])
  }

  // ---------------------------------------------------------------------
  // Sizes

  lemma {:induction false} SizeOfChildrenIsSizeAll(e: FsEntry, n: nat)
    requires e.Dir? && n <= |e.children|
    ensures SizeOfChildren(e, n) == SizeAll(e.children[..n])
    decreases n
  {
    if n > 0 {
      SizeOfChildrenIsSizeAll(e, n - 1);
      SizeAllAppend(e.children[..n - 1], [e.children[n - 1]]);
      assert e.children[..n] == e.children[..n - 1] + [e.children[n - 1]];
    }
  }

  lemma {:induction false} SizeAllAppend(a: seq<Named>, b: seq<Named>)
    ensures SizeAll(a + b) == SizeAll(a) + SizeAll(b)
    decreases |a|
  {
    if |a| > 0 {
      assert (a + b)[0] == a[0] && (a + b)[1..] == a[1..] + b;
      SizeAllAppend(a[1..], b);
      calc {
        SizeAll(a + b);
        Size(a[0].1) + SizeAll(a[1..] + b);
        Size(a[0].1) + SizeAll(a[1..]) + SizeAll(b);
      }
    } else {
      assert a + b == b;
    }
  }

  /** A non-empty level has more nodes below and at it than below it. */
  lemma {:induction false} SizeAllStep(level: seq<Named>)
    ensures SizeAll(level) == |level| + SizeAll(Next(level))
    decreases |level|
  {
    if |level| > 0 {
      var e := level[0].1;
      SizeAllStep(level[1..]);
      SizeAllAppend(Kids(e), Next(level[1..]));
      if e.Dir? {
        SizeOfChildrenIsSizeAll(e, |e.children|);
        assert e.children[..|e.children|] == e.children;
      }
    }
  }

  // ---------------------------------------------------------------------
  // Shape of the walk

  lemma {:induction false} NextAppend(a: seq<Named>, b: seq<Named>)
    ensures Next(a + b) == Next(a) + Next(b)
    decreases |a|
  {
    if |a| > 0 {
      assert (a + b)[0] == a[0] && (a + b)[1..] == a[1..] + b;
      NextAppend(a[1..], b);
      calc {
        Next(a + b);
        Kids(a[0].1) + Next(a[1..] + b);
        Kids(a[0].1) + (Next(a[1..]) + Next(b));
        (Kids(a[0].1) + Next(a[1..])) + Next(b);
      }
    } else {
      assert a + b == b;
    }
  }

  /** The run visits the level's entries in order, and the `j`-th gets the
      starting offset, minus `j`, plus the children of the ones before. */
  lemma {:induction false} VisitRunAt(ns: seq<Named>, off: int, j: nat)
    requires j < |ns|
    ensures |VisitRun(ns, off)| == |ns|
    ensures VisitRun(ns, off)[j] == Visit(ns[j].0, ns[j].1, off - j + |Next(ns[..j])|)
    decreases j
  {
    VisitRunLength(ns, off);
    if j > 0 {
      VisitRunAt(ns[1..], off - 1 + |Kids(ns[0].1)|, j - 1);
      assert ns[..j] == [ns[0]] + ns[1..][..j - 1];
      NextAppend([ns[0]], ns[1..][..j - 1]);
      assert Next([ns[0]]) == Kids(ns[0].1) + Next([]);
    }
  }

  lemma {:induction false} VisitRunLength(ns: seq<Named>, off: int)
    ensures |VisitRun(ns, off)| == |ns|
    decreases |ns|
  {
    if |ns| > 0 {
      VisitRunLength(ns[1..], off - 1 + |Kids(ns[0].1)|);
    }
  }

  /** The walk from a level visits every node below it once. */
  lemma {:induction false} BfsLength(level: seq<Named>)
    ensures |Bfs(level)| == SizeAll(Next(level))
    decreases SizeAll(level)
  {
    if |level| > 0 {
      var n := Next(level);
      SizeAllStep(level);
      SizeAllStep(n);
      VisitRunLength(n, |n|);
      BfsLength(n);
    } else {
      assert Next(level) == [];
    }
  }

  /** Where entry `j` of the next level sits: the children of the level's
      entries before `i` come first, then those of entry `i`. */
  lemma NextSplit(level: seq<Named>, i: nat)
    requires i < |level|
    ensures Next(level) == Next(level[..i]) + Kids(level[i].1) + Next(level[i + 1..])
  {
    var pre, x, post := level[..i], [level[i]], level[i + 1..];
    assert level == pre + level[i..];
    assert level[i..] == x + post;
    NextAppend(pre, x + post);
    NextAppend(x, post);
    NextOne(level[i]);
  }

  lemma NextOne(n: Named)
    ensures Next([n]) == Kids(n.1)
  {
    assert [n][1..] == [];
  }

  /** A visited directory's children follow it at its offset, in order. */
  predicate ChildrenAt(vs: seq<Visit>, p: nat)
    requires p < |vs|
  {
    var v := vs[p];
    v.entry.Dir? ==>
      v.off >= 1 && p + v.off + |v.entry.children| <= |vs|
      && forall i :: 0 <= i < |v.entry.children| ==>
           vs[p + v.off + i].name == v.entry.children[i].0 && vs[p + v.off + i].entry == v.entry.children[i].1
  }

  /** The first entries of the walk from a level are the next level's
      nodes, in order. */
  lemma BfsStarts(level: seq<Named>, j: nat)
    requires |level| > 0 && j < |Next(level)|
    ensures j < |Bfs(level)|
    ensures Bfs(level)[j].name == Next(level)[j].0 && Bfs(level)[j].entry == Next(level)[j].1
  {
    var n := Next(level);
    VisitRunAt(n, |n|, j);
  }

  /** Entry `k` of the children of entry `i` of a level, in the next
      level. */
  lemma NextAt(level: seq<Named>, i: nat, k: nat)
    requires i < |level| && k < |Kids(level[i].1)|
    ensures |Next(level[..i])| + k < |Next(level)|
    ensures Next(level)[|Next(level[..i])| + k] == Kids(level[i].1)[k]
  {
    NextSplit(level, i);
  }

  /** Prepending visits moves a directory and its children alike. */
  lemma ShiftChildrenAt(run: seq<Visit>, rest: seq<Visit>, q: nat)
    requires q < |rest| && ChildrenAt(rest, q)
    ensures ChildrenAt(run + rest, |run| + q)
  {
    var all := run + rest;
    var v := rest[q];
    assert all[|run| + q] == v;
    if v.entry.Dir? {
      forall i | 0 <= i < |v.entry.children|
        ensures all[|run| + q + v.off + i].name == v.entry.children[i].0
        ensures all[|run| + q + v.off + i].entry == v.entry.children[i].1
      {
        assert all[|run| + q + v.off + i] == rest[q + v.off + i];
      }
    }
  }

  /** The walk from a non-empty level: the visits of the next level, then
      the walk from there. */
  lemma BfsShape(level: seq<Named>)
    requires |level| > 0
    ensures var n := Next(level);
      Bfs(level) == VisitRun(n, |n|) + Bfs(n) && |VisitRun(n, |n|)| == |n|
      && |n| + |Next(n)| <= |Bfs(level)|
  {
    var n := Next(level);
    SizeAllStep(level);
    VisitRunLength(n, |n|);
    BfsLength(n);
    SizeAllStep(Next(n));
  }

  /** A directory of the next level: its offset reaches past the rest of
      the level and the children of the entries before it. */
  lemma {:induction false} BfsChildrenHere(level: seq<Named>, p: nat)
    requires |level| > 0 && p < |Next(level)|
    ensures p < |Bfs(level)| && ChildrenAt(Bfs(level), p)
  {
    var n := Next(level);
    BfsShape(level);
    var all := Bfs(level);
    VisitRunAt(n, |n|, p);
    var e := n[p].1;
    if e.Dir? {
      var before := |Next(n[..p])|;
      NextSplit(n, p);
      assert all[p] == Visit(n[p].0, e, |n| - p + before);
      forall i | 0 <= i < |e.children|
        ensures all[|n| + before + i].name == e.children[i].0
        ensures all[|n| + before + i].entry == e.children[i].1
      {
        BfsChildHere(level, p, i);
      }
    }
  }

  /** Child `i` of entry `p` of the next level. */
  lemma BfsChildHere(level: seq<Named>, p: nat, i: nat)
    requires |level| > 0 && p < |Next(level)| && i < |Kids(Next(level)[p].1)|
    ensures var n := Next(level); var q := |n| + |Next(n[..p])| + i;
      q < |Bfs(level)| && Bfs(level)[q].name == Kids(n[p].1)[i].0 && Bfs(level)[q].entry == Kids(n[p].1)[i].1
  {
    var n := Next(level);
    var j := |Next(n[..p])| + i;
    NextAt(n, p, i);
    BfsStarts(n, j);
    BfsShape(level);
    assert Bfs(level)[|n| + j] == Bfs(n)[j];
  }

  /** In the walk from any level, every directory's children are where its
      offset says. */
  lemma {:induction false} BfsChildren(level: seq<Named>, p: nat)
    requires p < |Bfs(level)|
    ensures ChildrenAt(Bfs(level), p)
    decreases SizeAll(level)
  {
    var n := Next(level);
    SizeAllStep(level);
    var run := VisitRun(n, |n|);
    var rest := Bfs(n);
    VisitRunLength(n, |n|);
    assert Bfs(level) == run + rest;
    if p < |n| {
      BfsChildrenHere(level, p);
    } else {
      BfsChildren(n, p - |n|);
      ShiftChildrenAt(run, rest, p - |n|);
    }
  }

  /** The index laid out for a preopen: the root first, its children after
      it at offset 1, and every directory's children, in name order, at the
      offset its visit carries; the index has one entry per node. */
  lemma FlattenChildren(name: Bytes.Bytes, root: FsEntry, p: nat)
    requires p < |Flatten(name, root)|
    ensures ChildrenAt(Flatten(name, root), p)
    ensures |Flatten(name, root)| == Size(root)
  {
    FlattenLength(name, root);
    if p == 0 {
      FlattenRoot(name, root);
    } else {
      FlattenBelowRoot(name, root, p);
    }
  }

  /** The index laid out for a preopen has one entry per node. */
  lemma FlattenLength(name: Bytes.Bytes, root: FsEntry)
    ensures |Flatten(name, root)| == Size(root)
  {
    var level := [(name, root)];
    BfsLength(level);
    SizeAllStep(level);
    assert SizeAll(level) == Size(root) + SizeAll([]);
  }

  /** Below the root, the walk is shifted by the root's own entry. */
  lemma FlattenBelowRoot(name: Bytes.Bytes, root: FsEntry, p: nat)
    requires 0 < p < |Flatten(name, root)|
    ensures ChildrenAt(Flatten(name, root), p)
  {
    var level := [(name, root)];
    var head := [Visit(name, root, 1)];
    var rest := Bfs(level);
    assert Flatten(name, root) == head + rest;
    BfsChildren(level, p - 1);
    ShiftChildrenAt(head, rest, p - 1);
  }

  /** The root's children come right after it. */
  lemma FlattenRoot(name: Bytes.Bytes, root: FsEntry)
    ensures ChildrenAt(Flatten(name, root), 0)
  {
    var level := [(name, root)];
    var all := Flatten(name, root);
    var rest := Bfs(level);
    if root.Dir? {
      NextOne((name, root));
      forall i | 0 <= i < |root.children|
        ensures 1 + i < |all| && all[1 + i].name == root.children[i].0 && all[1 + i].entry == root.children[i].1
      {
        BfsStarts(level, i);
        assert all[1 + i] == rest[i];
      }
      if |root.children| > 0 {
        BfsStarts(level, |root.children| - 1);
      }
    }
  }
}
