/** The run-time side of the static index (`virtual-adapter/src/io.rs`,
    and its older copy `virtual-adapter/src/fs.rs`): the entries the
    adapter finds in its own memory, their descriptor types, a directory's
    child list, and path lookup by bisection over sorted child names. */
module StaticIndex {
  import opened Results
  import opened Bytes
  import opened Lex
  import Sorting
  import FsIndex

  /** A `StaticIndexEntry` as the adapter sees it: the name its pointer
      addresses, the type, the two words of the data union, and the bytes
      the union's pointer addresses — a file's contents (for a passive file,
      what `passive_alloc` copies out of its segment) or a runtime entry's
      host path. */
  datatype Entry = Entry(name: Bytes, ty: FsIndex.IndexType, d0: u32, d1: u32, bytes: Bytes)

  /** The file entries' length word is the length of their contents. */
  predicate Sound(e: Entry)
  {
    (e.ty.ActiveFile? || e.ty.PassiveFile?) ==> |e.bytes| == e.d1
  }

  predicate AllSound(index: seq<Entry>)
  {
    forall i :: 0 <= i < |index| ==> Sound(index[i])
  }

  /** `DescriptorType`: a static entry is a regular file or a directory;
      the other kinds only come back from the host. */
  datatype DescriptorType =
    | Unknown | BlockDevice | CharacterDevice | Directory | Fifo | SymbolicLink | RegularFile | Socket

  /** The filesystem `ErrorCode`; the adapter produces `Access`,
      `BadDescriptor`, `InvalidSeek`, `IsDirectory`, `NoEntry`,
      `NotDirectory` and `Io` itself and passes the host's on unchanged. */
  datatype ErrorCode =
    | Access | WouldBlock | Already | BadDescriptor | Busy | Deadlock | Quota | Exist
    | FileTooLarge | IllegalByteSequence | InProgress | Interrupted | Invalid | Io
    | IsDirectory | Loop | TooManyLinks | MessageSize | NameTooLong | NoDevice | NoEntry
    | NoLock | InsufficientMemory | InsufficientSpace | NotDirectory | NotEmpty
    | NotRecoverable | Unsupported | NoTty | NoSuchDevice | Overflow | NotPermitted
    | Pipe | ReadOnly | InvalidSeek | TextFileBusy | CrossDevice

  /** Which adapter reads the index: the current one stores a directory's
      child offset relative to the directory, the older one the absolute
      position of its first child. */
  datatype Layout = Relative | Absolute

  function NameOf(e: Entry): Bytes { e.name }

  /** `StaticIndexEntry::ty`; the older adapter has `todo!()` for runtime
      entries. */
  function Ty(e: Entry, layout: Layout): (r: Ret<DescriptorType, ErrorCode>)
    ensures r.Trap? <==> layout.Absolute? && (e.ty.RuntimeHostDir? || e.ty.RuntimeHostFile?)
    ensures r.Done? ==> (r.value == Directory <==> e.ty.DirEntry? || e.ty.RuntimeHostDir?)
    ensures !r.Fail?
  {
    match e.ty
    case ActiveFile => Done(RegularFile)
    case PassiveFile => Done(RegularFile)
    case DirEntry => Done(Directory)
    case RuntimeHostDir => if layout.Relative? then Done(Directory) else Trap
    case RuntimeHostFile => if layout.Relative? then Done(RegularFile) else Trap
  }

  /** `StaticIndexEntry::child_list` of the entry at `p`: the window
      `[lo, hi)` of the index, read from the union's two words as an
      offset and a count.  A runtime directory has type `Directory`, so its
      path pointer is read as an offset and its second word, which the
      generator leaves unset, as the count.  Slicing past the index panics. */
  function ChildList(index: seq<Entry>, p: nat, layout: Layout): (r: Ret<(nat, nat), ErrorCode>)
    requires p < |index|
    ensures r.Done? ==> r.value.0 <= r.value.1 <= |index| && r.value.1 - r.value.0 == index[p].d1
    ensures r.Done? ==> r.value.0 == (if layout.Relative? then p else 0) + index[p].d0
    ensures r.Done? ==> index[p].ty.DirEntry? || (layout.Relative? && index[p].ty.RuntimeHostDir?)
    ensures r.Fail? <==> Ty(index[p], layout) == Done(RegularFile)
    ensures r.Fail? ==> r.error == NotDirectory
  {
    var e := index[p];
    var t := Ty(e, layout);
    if t.Trap? then Trap
    else if t.value != Directory then Fail(NotDirectory)
    else
      var lo := (if layout.Relative? then p else 0) + e.d0;
      if lo + e.d1 <= |index| then Done((lo, lo + e.d1)) else Trap
  }

  const SLASH: byte := 47

  /** The position of the first `/` in `path`, if any (`str::find`). */
  function FindSlash(path: Bytes): (r: Option<nat>)
    ensures r.Some? <==> SLASH in path
    ensures r.Some? ==> r.value < |path| && path[r.value] == SLASH && SLASH !in path[..r.value]
  {
    if |path| == 0 then None
    else if path[0] == SLASH then Some(0)
    else
      match FindSlash(path[1..])
      case None => None
      case Some(i) =>
        assert path[..i + 1] == [path[0]] + path[1..][..i];
        Some(i + 1)
  }

  /** The first segment of `path` and the rest after its `/`, or the
      whole path and nothing. */
  function SplitPath(path: Bytes): (r: (Bytes, Bytes))
    ensures |r.1| < |path| || (|path| == 0 && r == ([], []))
    ensures SLASH !in r.0
    ensures SLASH in path ==> path == r.0 + [SLASH] + r.1
    ensures SLASH !in path ==> r == (path, [])
  {
    match FindSlash(path)
    case None => (path, [])
    case Some(i) =>
      assert path == path[..i] + [SLASH] + path[i + 1..];
      (path[..i], path[i + 1..])
  }

  /** `StaticIndexEntry::dir_lookup` from the entry at `p`: an empty path
      fails the assertion; otherwise the first segment is bisected for
      among the child names and the rest looked up from the child found. */
  function DirLookup(index: seq<Entry>, p: nat, path: Bytes, layout: Layout): (r: Ret<nat, ErrorCode>)
    requires p < |index|
    ensures r.Done? ==> r.value < |index|
    decreases |path|, 1
  {
    if |path| == 0 then Trap
    else
      match ChildList(index, p, layout)
      case Trap => Trap
      case Fail(e) => Fail(e)
      case Done((lo, hi)) =>
        Descend(index, lo, Sorting.BinarySearch(index[lo..hi], NameOf, SplitPath(path).0), SplitPath(path).1, layout)
  }

  /** The rest of `dir_lookup` once bisection has looked for the first
      segment in the window at `lo`: fail, stop at the child found, or look
      the rest of the path up from it. */
  function Descend(index: seq<Entry>, lo: nat, found: Option<nat>, rem: Bytes, layout: Layout): (r: Ret<nat, ErrorCode>)
    requires found.Some? ==> lo + found.value < |index|
    ensures r.Done? ==> r.value < |index|
    decreases |rem| + 1, 0
  {
    match found
    case None => Fail(NoEntry)
    case Some(j) => if |rem| > 0 then DirLookup(index, lo + j, rem, layout) else Done(lo + j)
  }
}
