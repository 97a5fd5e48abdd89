/** The static index `create_io_virt` (`src/virt_io.rs`) lays out for the
    adapter: one `StaticIndexEntry` per visited node, the preopens' walks
    one after another, each entry a name pointer, a type tag and two data
    words. */
module FsIndex {
  import opened Results
  import opened Bytes
  import Data
  import opened FsTree
  import opened FsBfs

  // ---------------------------------------------------------------------
  // Entries and their encoding

  /** `StaticIndexType`. */
  datatype IndexType = ActiveFile | PassiveFile | DirEntry | RuntimeHostDir | RuntimeHostFile

  /** The `repr(u32)` discriminant. */
  function TypeTag(t: IndexType): u32
  {
    match t
    case ActiveFile => 0
    case PassiveFile => 1
    case DirEntry => 2
    case RuntimeHostDir => 3
    case RuntimeHostFile => 4
  }

  /** The adapter reading the discriminant back; any other value is not a
      valid `StaticIndexType`. */
  function TypeOfTag(x: u32): Option<IndexType>
  {
    if x == 0 then Some(ActiveFile)
    else if x == 1 then Some(PassiveFile)
    else if x == 2 then Some(DirEntry)
    else if x == 3 then Some(RuntimeHostDir)
    else if x == 4 then Some(RuntimeHostFile)
    else None
  }

  /** The tags are read back as written, and every valid tag is one that
      is written. */
  lemma TypeTagRoundTrip(t: IndexType, x: u32)
    ensures TypeOfTag(TypeTag(t)) == Some(t)
    ensures TypeOfTag(x).Some? <==> x < 5
    ensures TypeOfTag(x).Some? ==> TypeTag(TypeOfTag(x).value) == x
  {
    assert IsU32(x);
  }

  /** `StaticIndexEntry`: the name pointer, the type and the two words of
      `StaticFileData`.  A runtime entry sets only the path pointer of the
      union and leaves the second word uninitialised; it is 0 here. */
  datatype IndexEntry = IndexEntry(name: u32, ty: IndexType, d0: u32, d1: u32)

  /** `StaticIndexEntry::size`. */
  const ENTRY_SIZE: nat := 16

  /** `StaticIndexEntry::encode`: four little-endian words. */
  function EntryWords(e: IndexEntry): seq<u32>
  {
    [e.name, TypeTag(e.ty), e.d0, e.d1]
  }

  /** The entries' words one after another: `write_slice` of the entries
      puts entry `i` at bytes `[16i, 16i + 16)`, 4-aligned, exactly as
      `write_slice` of these words does. */
  function IndexWords(es: seq<IndexEntry>): (r: seq<u32>)
  {
    seq(4 * |es|, j requires 0 <= j < 4 * |es| => EntryWords(es[j / 4])[j % 4])
  }

  lemma IndexWordsAt(es: seq<IndexEntry>, i: nat, k: nat)
    requires i < |es| && k < 4
    ensures |IndexWords(es)| == 4 * |es|
    ensures IndexWords(es)[4 * i + k] == EntryWords(es[i])[k]
  {
    var j := 4 * i + k;
    assert j / 4 == i && j % 4 == k;
  }

  /** The adapter's view of the entry stored at `at`. */
  function DecodeEntry(bytes: Bytes, at: nat): Option<IndexEntry>
    requires at + ENTRY_SIZE <= |bytes|
  {
    match TypeOfTag(ReadLE32(bytes, at + 4))
    case None => None
    case Some(t) => Some(IndexEntry(ReadLE32(bytes, at), t, ReadLE32(bytes, at + 8), ReadLE32(bytes, at + 12)))
  }

  /** Word `k` of entry `i` reads back at its place. */
  lemma WriteIndexWord(d: Data.Data, es: seq<IndexEntry>, i: nat, k: nat)
    requires Data.Valid(d) && Data.WriteSlice(d, IndexWords(es)).Ok? && i < |es| && k < 4
    ensures var (d', p) := Data.WriteSlice(d, IndexWords(es)).value;
      p + 16 * i + 4 * k + 4 <= |d'.bytes|
      && ReadLE32(d'.bytes, p + 16 * i + 4 * k) == EntryWords(es[i])[k]
  {
    var j := 4 * i + k;
    var ws := IndexWords(es);
    assert Data.U32_SIZE * j == 16 * i + 4 * k;
    IndexWordsAt(es, i, k);
    Data.WriteSliceReads(d, ws, j);
    var r := Data.WriteSlice(d, ws).value;
    var q := r.1 + 16 * i + 4 * k;
    assert q == r.1 + Data.U32_SIZE * j;
    assert ReadLE32(r.0.bytes, q) == EntryWords(es[i])[k];
  }

  /** Writing the index and reading entry `i` back at its place gives the
      entry. */
  lemma WriteIndexReads(d: Data.Data, es: seq<IndexEntry>, i: nat)
    requires Data.Valid(d) && Data.WriteSlice(d, IndexWords(es)).Ok? && i < |es|
    ensures var (d', p) := Data.WriteSlice(d, IndexWords(es)).value;
      p + 16 * i + ENTRY_SIZE <= |d'.bytes| && DecodeEntry(d'.bytes, p + 16 * i) == Some(es[i])
  {
    var (d', p) := Data.WriteSlice(d, IndexWords(es)).value;
    var at := p + 16 * i;
    WriteIndexWord(d, es, i, 0);
    WriteIndexWord(d, es, i, 1);
    WriteIndexWord(d, es, i, 2);
    WriteIndexWord(d, es, i, 3);
    assert ReadLE32(d'.bytes, at + 4) == TypeTag(es[i].ty);
    TypeTagRoundTrip(es[i].ty, 0);
  }

  /** An entry stored at or above the pointer survives later allocations. */
  lemma DecodeEntryKept(d: Data.Data, d': Data.Data, at: nat)
    requires Data.Extends(d, d') && d.stackPtr <= at && at + ENTRY_SIZE <= |d.bytes|
    ensures at + ENTRY_SIZE <= |d'.bytes| && DecodeEntry(d'.bytes, at) == DecodeEntry(d.bytes, at)
  {
    assert d'.bytes[at] == d.bytes[at] && d'.bytes[at + 1] == d.bytes[at + 1];
    assert d'.bytes[at + 2] == d.bytes[at + 2] && d'.bytes[at + 3] == d.bytes[at + 3];
    assert d'.bytes[at + 4] == d.bytes[at + 4] && d'.bytes[at + 5] == d.bytes[at + 5];
    assert d'.bytes[at + 6] == d.bytes[at + 6] && d'.bytes[at + 7] == d.bytes[at + 7];
    assert d'.bytes[at + 8] == d.bytes[at + 8] && d'.bytes[at + 9] == d.bytes[at + 9];
    assert d'.bytes[at + 10] == d.bytes[at + 10] && d'.bytes[at + 11] == d.bytes[at + 11];
    assert d'.bytes[at + 12] == d.bytes[at + 12] && d'.bytes[at + 13] == d.bytes[at + 13];
    assert d'.bytes[at + 14] == d.bytes[at + 14] && d'.bytes[at + 15] == d.bytes[at + 15];
  }

  // ---------------------------------------------------------------------
  // One visit

  /** `x as u32`. */
  function Wrap32(x: int): u32
  {
    x % U32_LIMIT
  }

  /** `passive_cutoff.unwrap_or(1024)`. */
  const DEFAULT_PASSIVE_CUTOFF: nat := 1024

  function Cutoff(fs: VirtFs): nat
  {
    match fs.passiveCutoff
    case Some(c) => c
    case None => DEFAULT_PASSIVE_CUTOFF
  }

  /** What the visitor can store: resolution has removed `Source` and
      `Virtualize` (`unreachable!`), and a `Symlink` is a `todo!`. */
  predicate Storable(e: FsEntry)
  {
    !e.Source? && !e.Virtualize? && !e.Symlink?
  }

  /** A tree the visitor stores without trapping. */
  predicate Linearizable(e: FsEntry)
  {
    match e
    case Dir(cs) => forall i :: 0 <= i < |cs| ==> Linearizable(cs[i].1)
    case _ => Storable(e)
  }

  /** `e` is the entry the visit `v` stores in the image `d`: the name is
      interned and pointed to; a directory holds its child offset and
      count; a file its length and, by the cutoff, either its bytes on the
      stack at the pointer or its passive segment's index; a runtime entry
      the pointer to its interned host path. */
  predicate Describes(d: Data.Data, cutoff: nat, e: IndexEntry, v: Visit)
  {
    v.name in d.strings && e.name == Wrap32(d.strings[v.name])
    && match v.entry
       case Dir(cs) => e.ty == DirEntry && e.d0 == Wrap32(v.off) && e.d1 == Wrap32(|cs|)
       case File(b) =>
         e.d1 == Wrap32(|b|)
         && if |b| > cutoff then
              e.ty == PassiveFile && e.d0 < |d.passive| && d.passive[e.d0] == b
            else
              e.ty == ActiveFile && d.stackPtr <= e.d0 && e.d0 + |b| <= |d.bytes|
              && forall k :: 0 <= k < |b| ==> d.bytes[e.d0 + k] == b[k]
       case RuntimeFile(path) =>
         e.ty == RuntimeHostFile && path in d.strings && e.d0 == Wrap32(d.strings[path]) && e.d1 == 0
       case RuntimeDir(path) =>
         e.ty == RuntimeHostDir && path in d.strings && e.d0 == Wrap32(d.strings[path]) && e.d1 == 0
       case _ => false
  }

  /** What a visit stored stays stored through later allocations. */
  lemma DescribesKept(d: Data.Data, d': Data.Data, cutoff: nat, e: IndexEntry, v: Visit)
    requires Describes(d, cutoff, e, v) && Data.Extends(d, d')
    ensures Describes(d', cutoff, e, v)
  {
    if v.entry.File? && |v.entry.bytes| > cutoff {
      assert d'.passive[e.d0] == d.passive[e.d0];
    }
  }

  /** One call of the visitor in `create_io_virt`: intern the name, then
      store the entry by its kind.  The flag says whether the entry needs
      the host filesystem at run time. */
  function LinearizeOne(d: Data.Data, cutoff: nat, v: Visit): (r: Ret<(Data.Data, IndexEntry, bool), Data.DataError>)
    requires Data.Valid(d)
    ensures r.Done? ==> Data.Valid(r.value.0) && Data.Extends(d, r.value.0)
    ensures r.Done? ==> |r.value.0.passive| <= |d.passive| + 1
    ensures r.Done? ==> Storable(v.entry) && r.value.2 == (v.entry.RuntimeFile? || v.entry.RuntimeDir?)
    ensures r.Trap? <==> !Storable(v.entry) && Data.String(d, v.name).Ok?
  {
    match Data.String(d, v.name)
    case Err(e) => Fail(e)
    case Ok((d1, namePtr)) =>
      var name := Wrap32(namePtr);
      match v.entry
      case Virtualize(_) => Trap
      case Source(_) => Trap
      case Symlink(_) => Trap
      case RuntimeFile(path) =>
        (match Data.String(d1, path)
         case Err(e) => Fail(e)
         case Ok((d2, p)) =>
           Data.ExtendsTrans(d, d1, d2);
           Done((d2, IndexEntry(name, RuntimeHostFile, Wrap32(p), 0), true)))
      case RuntimeDir(path) =>
        (match Data.String(d1, path)
         case Err(e) => Fail(e)
         case Ok((d2, p)) =>
           Data.ExtendsTrans(d, d1, d2);
           Done((d2, IndexEntry(name, RuntimeHostDir, Wrap32(p), 0), true)))
      case Dir(cs) => Done((d1, IndexEntry(name, DirEntry, Wrap32(v.off), Wrap32(|cs|)), false))
      case File(b) =>
        if |b| > cutoff then
          var (d2, idx) := Data.PassiveBytes(d1, b);
          Data.ExtendsTrans(d, d1, d2);
          Done((d2, IndexEntry(name, PassiveFile, Wrap32(idx), Wrap32(|b|)), false))
        else
          match Data.StackBytes(d1, b)
          case Err(e) => Fail(e)
          case Ok((d2, p)) =>
            Data.ExtendsTrans(d, d1, d2);
            Done((d2, IndexEntry(name, ActiveFile, Wrap32(p), Wrap32(|b|)), false))
  }

  lemma Wrap32Small(x: int)
    requires 0 <= x < U32_LIMIT
    ensures Wrap32(x) == x
  {
  }

  /** A small file is stored on the stack at the pointer the entry holds. */
  lemma ActiveDescribes(d1: Data.Data, cutoff: nat, v: Visit, name: u32)
    requires Data.Valid(d1) && v.entry.File? && |v.entry.bytes| <= cutoff
    requires Data.StackBytes(d1, v.entry.bytes).Ok? && d1.stackStart <= U32_LIMIT
    requires v.name in d1.strings && name == Wrap32(d1.strings[v.name])
    ensures var b := v.entry.bytes; var (d2, p) := Data.StackBytes(d1, b).value;
      Describes(d2, cutoff, IndexEntry(name, ActiveFile, Wrap32(p), Wrap32(|b|)), v)
  {
    var b := v.entry.bytes;
    var (d2, p) := Data.StackBytes(d1, b).value;
    Wrap32Small(p);
    forall k | 0 <= k < |b| ensures d2.bytes[p + k] == b[k] {
      assert d2.bytes[p..d1.stackPtr][k] == b[k];
    }
  }

  /** A large file is a passive segment at the index the entry holds. */
  lemma PassiveDescribes(d1: Data.Data, cutoff: nat, v: Visit, name: u32)
    requires v.entry.File? && |v.entry.bytes| > cutoff && |d1.passive| < U32_LIMIT
    requires v.name in d1.strings && name == Wrap32(d1.strings[v.name])
    ensures var b := v.entry.bytes; var (d2, i) := Data.PassiveBytes(d1, b);
      Describes(d2, cutoff, IndexEntry(name, PassiveFile, Wrap32(i), Wrap32(|b|)), v)
  {
    Wrap32Small(|d1.passive|);
  }

  /** A runtime entry points at its interned host path. */
  lemma RuntimeDescribes(d1: Data.Data, cutoff: nat, v: Visit, name: u32, ty: IndexType)
    requires Data.Valid(d1) && (v.entry.RuntimeFile? || v.entry.RuntimeDir?)
    requires ty == (if v.entry.RuntimeFile? then RuntimeHostFile else RuntimeHostDir)
    requires Data.String(d1, v.entry.hostPath).Ok?
    requires v.name in d1.strings && name == Wrap32(d1.strings[v.name])
    ensures var (d2, p) := Data.String(d1, v.entry.hostPath).value;
      Describes(d2, cutoff, IndexEntry(name, ty, Wrap32(p), 0), v)
  {
  }

  /** The entry a visit returns is the one it stores, provided pointers
      and passive indices fit in a `u32`. */
  lemma LinearizeOneDescribes(d: Data.Data, cutoff: nat, v: Visit)
    requires Data.Valid(d) && LinearizeOne(d, cutoff, v).Done?
    requires d.stackStart <= U32_LIMIT && |d.passive| < U32_LIMIT
    ensures var (d', e, _) := LinearizeOne(d, cutoff, v).value; Describes(d', cutoff, e, v)
  {
    var (d1, namePtr) := Data.String(d, v.name).value;
    var name := Wrap32(namePtr);
    match v.entry
    case RuntimeFile(path) => RuntimeDescribes(d1, cutoff, v, name, RuntimeHostFile);
    case RuntimeDir(path) => RuntimeDescribes(d1, cutoff, v, name, RuntimeHostDir);
    case Dir(cs) =>
    case File(b) =>
      if |b| > cutoff {
        PassiveDescribes(d1, cutoff, v, name);
      } else {
        ActiveDescribes(d1, cutoff, v, name);
      }
  }

  // ---------------------------------------------------------------------
  // All visits

  /** Some visit stores a runtime entry. */
  predicate HasRuntime(vs: seq<Visit>)
  {
    exists i :: 0 <= i < |vs| && (vs[i].entry.RuntimeFile? || vs[i].entry.RuntimeDir?)
  }

  lemma HasRuntimeCons(vs: seq<Visit>)
    requires |vs| > 0
    ensures HasRuntime(vs) <==> vs[0].entry.RuntimeFile? || vs[0].entry.RuntimeDir? || HasRuntime(vs[1..])
  {
    if HasRuntime(vs[1..]) {
      var i :| 0 <= i < |vs[1..]| && (vs[1..][i].entry.RuntimeFile? || vs[1..][i].entry.RuntimeDir?);
      assert vs[i + 1] == vs[1..][i];
    }
    if HasRuntime(vs) {
      var i :| 0 <= i < |vs| && (vs[i].entry.RuntimeFile? || vs[i].entry.RuntimeDir?);
      if i > 0 { assert vs[1..][i - 1] == vs[i]; }
    }
  }

  lemma UnstorableCons(vs: seq<Visit>)
    requires |vs| > 0 && exists i :: 0 <= i < |vs[1..]| && !Storable(vs[1..][i].entry)
    ensures exists i :: 0 <= i < |vs| && !Storable(vs[i].entry)
  {
    var i :| 0 <= i < |vs[1..]| && !Storable(vs[1..][i].entry);
    assert vs[i + 1] == vs[1..][i];
  }

  /** The visitor over a walk, in visiting order: the entries, and whether
      any needs the host filesystem. */
  function LinearizeAll(d: Data.Data, cutoff: nat, vs: seq<Visit>): (r: Ret<(Data.Data, seq<IndexEntry>, bool), Data.DataError>)
    requires Data.Valid(d)
    ensures r.Done? ==> Data.Valid(r.value.0) && Data.Extends(d, r.value.0) && |r.value.1| == |vs|
    ensures r.Done? ==> r.value.2 == HasRuntime(vs)
    ensures r.Done? ==> |r.value.0.passive| <= |d.passive| + |vs|
    ensures r.Trap? ==> exists i :: 0 <= i < |vs| && !Storable(vs[i].entry)
    ensures (forall i :: 0 <= i < |vs| ==> Storable(vs[i].entry)) ==> !r.Trap?
    decreases |vs|
  {
    if |vs| == 0 then Done((d, [], false))
    else
      match LinearizeOne(d, cutoff, vs[0])
      case Fail(e) => Fail(e)
      case Trap => Trap
      case Done((d1, e, b)) =>
        match LinearizeAll(d1, cutoff, vs[1..])
        case Fail(e) => Fail(e)
        case Trap =>
          UnstorableCons(vs);
          Trap
        case Done((d2, es, b2)) =>
          Data.ExtendsTrans(d, d1, d2);
          HasRuntimeCons(vs);
          Done((d2, [e] + es, b || b2))
  }

  /** Entry `i` is the one visit `i` stores in the final image, provided
      pointers and passive indices fit in a `u32`. */
  lemma {:induction false} LinearizeAllDescribes(d: Data.Data, cutoff: nat, vs: seq<Visit>, i: nat)
    requires Data.Valid(d) && LinearizeAll(d, cutoff, vs).Done? && i < |vs|
    requires d.stackStart <= U32_LIMIT && |d.passive| + |vs| <= U32_LIMIT
    ensures DescribedAt(LinearizeAll(d, cutoff, vs).value, cutoff, vs, i)
    decreases |vs|
  {
    LinearizeAllCons(d, cutoff, vs);
    var r := LinearizeAll(d, cutoff, vs).value;
    var (d1, e, _) := LinearizeOne(d, cutoff, vs[0]).value;
    var (d', es, _) := LinearizeAll(d1, cutoff, vs[1..]).value;
    if i == 0 {
      LinearizeOneDescribes(d, cutoff, vs[0]);
      DescribesKept(d1, d', cutoff, e, vs[0]);
      ConsAt(e, es, 0);
      DescribesMoved(r, d', cutoff, vs, 0, e, vs[0]);
    } else {
      LinearizeAllDescribes(d1, cutoff, vs[1..], i - 1);
      ConsAt(e, es, i);
      DescribesBehind(r, LinearizeAll(d1, cutoff, vs[1..]).value, cutoff, vs, i);
    }
  }

  /** The visitor over a non-empty walk: the first visit, then the rest
      from where the first left the data. */
  lemma LinearizeAllCons(d: Data.Data, cutoff: nat, vs: seq<Visit>)
    requires Data.Valid(d) && LinearizeAll(d, cutoff, vs).Done? && |vs| > 0
    ensures LinearizeOne(d, cutoff, vs[0]).Done?
    ensures var (d1, e, _) := LinearizeOne(d, cutoff, vs[0]).value;
      LinearizeAll(d1, cutoff, vs[1..]).Done?
      && LinearizeAll(d, cutoff, vs).value.0 == LinearizeAll(d1, cutoff, vs[1..]).value.0
      && LinearizeAll(d, cutoff, vs).value.1 == [e] + LinearizeAll(d1, cutoff, vs[1..]).value.1
  {
  }

  lemma ConsAt<T>(x: T, xs: seq<T>, i: nat)
    requires i <= |xs|
    ensures ([x] + xs)[i] == if i == 0 then x else xs[i - 1]
  {
  }

  /** Entry `i` of a visitor's result describes visit `i` in its data. */
  predicate DescribedAt(r: (Data.Data, seq<IndexEntry>, bool), cutoff: nat, vs: seq<Visit>, i: nat)
  {
    i < |r.1| && i < |vs| && Describes(r.0, cutoff, r.1[i], vs[i])
  }

  /** A description carries over to the same entry and visit found at
      position `i` of the result. */
  lemma DescribesMoved(r: (Data.Data, seq<IndexEntry>, bool), d: Data.Data, cutoff: nat, vs: seq<Visit>, i: nat, e: IndexEntry, v: Visit)
    requires i < |r.1| && i < |vs| && r.0 == d && r.1[i] == e && vs[i] == v && Describes(d, cutoff, e, v)
    ensures DescribedAt(r, cutoff, vs, i)
  {
  }

  /** The same, for a description of the visit found behind the first. */
  lemma DescribesBehind(r: (Data.Data, seq<IndexEntry>, bool), rest: (Data.Data, seq<IndexEntry>, bool), cutoff: nat, vs: seq<Visit>, i: nat)
    requires 0 < i < |r.1| && 0 < |vs| && r.0 == rest.0 && i - 1 < |rest.1| && r.1[i] == rest.1[i - 1]
    requires DescribedAt(rest, cutoff, vs[1..], i - 1)
    ensures DescribedAt(r, cutoff, vs, i)
  {
  }

  // ---------------------------------------------------------------------
  // The preopens

  /** The preopens' walks one after another, as the loop over
      `fs.preopens` visits them. */
  function FlattenAll(ps: seq<Named>): seq<Visit>
    decreases |ps|
  {
    if |ps| == 0 then [] else FlattenAll(ps[..|ps| - 1]) + Flatten(ps[|ps| - 1].0, ps[|ps| - 1].1)
  }

  /** `preopen_indices`: each preopen's root is pushed as the number of
      entries before it. */
  function PreopenIndices(ps: seq<Named>): seq<u32>
  {
    seq(|ps|, i requires 0 <= i < |ps| => Wrap32(|FlattenAll(ps[..i])|))
  }

  /** Appending visits keeps a directory's children in place. */
  lemma ExtendChildrenAt(vs: seq<Visit>, more: seq<Visit>, q: nat)
    requires q < |vs| && ChildrenAt(vs, q)
    ensures ChildrenAt(vs + more, q)
  {
    var all := vs + more;
    var v := vs[q];
    assert all[q] == v;
    if v.entry.Dir? {
      forall i | 0 <= i < |v.entry.children|
        ensures all[q + v.off + i].name == v.entry.children[i].0
        ensures all[q + v.off + i].entry == v.entry.children[i].1
      {
        assert all[q + v.off + i] == vs[q + v.off + i];
      }
    }
  }

  /** In the whole index every directory's children follow it at its
      offset, and there is one entry per node of the preopen trees. */
  lemma {:induction false} FlattenAllChildren(ps: seq<Named>, q: nat)
    requires q < |FlattenAll(ps)|
    ensures ChildrenAt(FlattenAll(ps), q)
    decreases |ps|
  {
    var n := |ps|;
    var front := FlattenAll(ps[..n - 1]);
    var last := Flatten(ps[n - 1].0, ps[n - 1].1);
    assert FlattenAll(ps) == front + last;
    if q < |front| {
      FlattenAllChildren(ps[..n - 1], q);
      ExtendChildrenAt(front, last, q);
    } else {
      LastChildren(front, ps[n - 1], q - |front|);
    }
  }

  /** A directory of the last preopen, behind the ones before it. */
  lemma LastChildren(front: seq<Visit>, root: Named, q: nat)
    requires q < |Flatten(root.0, root.1)|
    ensures ChildrenAt(front + Flatten(root.0, root.1), |front| + q)
  {
    var last := Flatten(root.0, root.1);
    FlattenChildren(root.0, root.1, q);
    ShiftChildrenAt(front, last, q);
  }

  lemma {:induction false} FlattenAllLength(ps: seq<Named>)
    ensures |FlattenAll(ps)| == SizeAll(ps)
    decreases |ps|
  {
    var n := |ps|;
    if n > 0 {
      FlattenAllLength(ps[..n - 1]);
      FlattenLength(ps[n - 1].0, ps[n - 1].1);
      SizeAllSnoc(ps);
    }
  }

  lemma SizeAllSnoc(ps: seq<Named>)
    requires |ps| > 0
    ensures SizeAll(ps) == SizeAll(ps[..|ps| - 1]) + Size(ps[|ps| - 1].1)
  {
    var front, last := ps[..|ps| - 1], ps[|ps| - 1];
    SizeAllAppend(front, [last]);
    assert front + [last] == ps;
    assert SizeAll([last]) == Size(last.1) + SizeAll([last][1..]);
  }

  /** Preopen `i`'s root sits at its recorded index, as a visit with
      child offset 1; positions fit in a `u32` when the index does. */
  lemma {:induction false} PreopenRoots(ps: seq<Named>, i: nat)
    requires i < |ps|
    ensures |FlattenAll(ps[..i])| < |FlattenAll(ps)|
    ensures FlattenAll(ps)[|FlattenAll(ps[..i])|] == Visit(ps[i].0, ps[i].1, 1)
    ensures |FlattenAll(ps)| < U32_LIMIT ==> PreopenIndices(ps)[i] == |FlattenAll(ps[..i])|
    decreases |ps|
  {
    var n := |ps|;
    var front := FlattenAll(ps[..n - 1]);
    var last := Flatten(ps[n - 1].0, ps[n - 1].1);
    assert FlattenAll(ps) == front + last;
    var at := |FlattenAll(ps[..i])|;
    if i < n - 1 {
      assert ps[..n - 1][..i] == ps[..i];
      PreopenRoots(ps[..n - 1], i);
      assert FlattenAll(ps)[at] == front[at];
    } else {
      assert ps[..i] == ps[..n - 1];
      assert FlattenAll(ps)[at] == last[0];
    }
    if |FlattenAll(ps)| < U32_LIMIT {
      Wrap32Small(at);
    }
  }

  // ---------------------------------------------------------------------
  // Properties every node of a tree has

  /** `P` holds of the children of every directory it holds of. */
  ghost predicate Hereditary(P: FsEntry -> bool)
  {
    forall e :: P(e) && e.Dir? ==> forall i :: 0 <= i < |e.children| ==> P(e.children[i].1)
  }

  lemma {:induction false} NextKeeps(P: FsEntry -> bool, level: seq<Named>, j: nat)
    requires Hereditary(P) && (forall i :: 0 <= i < |level| ==> P(level[i].1)) && j < |Next(level)|
    ensures P(Next(level)[j].1)
    decreases |level|
  {
    var ks := Kids(level[0].1);
    assert Next(level) == ks + Next(level[1..]);
    if j >= |ks| {
      NextKeeps(P, level[1..], j - |ks|);
    }
  }

  lemma {:induction false} BfsKeeps(P: FsEntry -> bool, level: seq<Named>, j: nat)
    requires Hereditary(P) && (forall i :: 0 <= i < |level| ==> P(level[i].1)) && j < |Bfs(level)|
    ensures P(Bfs(level)[j].entry)
    decreases SizeAll(level)
  {
    var n := Next(level);
    BfsShape(level);
    SizeAllStep(level);
    if j < |n| {
      VisitRunAt(n, |n|, j);
      NextKeeps(P, level, j);
    } else {
      forall i | 0 <= i < |n| ensures P(n[i].1) {
        NextKeeps(P, level, i);
      }
      BfsKeeps(P, n, j - |n|);
    }
  }

  /** Every visited entry has the properties the preopen trees pass down. */
  lemma {:induction false} FlattenAllKeeps(P: FsEntry -> bool, ps: seq<Named>, q: nat)
    requires Hereditary(P) && (forall i :: 0 <= i < |ps| ==> P(ps[i].1)) && q < |FlattenAll(ps)|
    ensures P(FlattenAll(ps)[q].entry)
    decreases |ps|
  {
    var n := |ps|;
    var front := FlattenAll(ps[..n - 1]);
    var (name, root) := ps[n - 1];
    if q < |front| {
      FlattenAllKeeps(P, ps[..n - 1], q);
    } else if q > |front| {
      BfsKeeps(P, [(name, root)], q - |front| - 1);
    }
  }

  lemma WellFormedHereditary()
    ensures Hereditary(WellFormed)
  {
  }

  lemma LinearizableHereditary()
    ensures Hereditary(Linearizable)
  {
  }
}
