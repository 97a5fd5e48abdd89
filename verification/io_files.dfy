/** The adapter's filesystem calls (`virtual-adapter/src/io.rs`:
    `Descriptor::read`, `StaticIndexEntry::size`, `StaticFileStream`,
    `StaticDirStream` and the `FilesystemTypes` impl).  A call the adapter
    forwards to the host takes the host's answer as a parameter. */
module IoFiles {
  import opened Results
  import opened Bytes
  import opened StaticIndex
  import opened IoState
  import FsTree
  import FsBfs
  import IndexLookup

  /** The state invariant the adapter keeps: every static descriptor names
      an entry of the index, the index's file lengths are its contents',
      and its positions fit a 32-bit `usize`. */
  predicate Sane(st: State, index: seq<Entry>)
  {
    |index| < U32_LIMIT && AllSound(index)
    && forall fd :: fd in st.descriptors && st.descriptors[fd].StaticEntry? ==> st.descriptors[fd].pos < |index|
  }

  function Min(a: int, b: int): int { if a < b then a else b }

  predicate IsFile(e: Entry) { e.ty.ActiveFile? || e.ty.PassiveFile? }

  /** A runtime entry: the host path it names is resolved through the host
      preopens. */
  predicate IsRuntime(e: Entry) { e.ty.RuntimeHostDir? || e.ty.RuntimeHostFile? }

  // ---------------------------------------------------------------------
  // Descriptor::read

  /** The bounded read of in-memory contents: at the end nothing and done,
      past the end `InvalidSeek`, otherwise up to `len` bytes from
      `offset`, done when fewer than `len` were left. */
  function ReadBytes(data: Bytes, offset: nat, len: nat): (r: Ret<(Bytes, bool), ErrorCode>)
    ensures !r.Trap?
    ensures r.Fail? <==> offset > |data|
    ensures r.Fail? ==> r.error == InvalidSeek
    ensures r.Done? ==>
      var (b, done) := r.value;
      |b| == Min(|data| - offset, len) && b == data[offset..offset + |b|]
      && (done <==> offset == |data| || |b| < len)
  {
    if offset == |data| then Done(([], true))
    else if offset > |data| then Fail(InvalidSeek)
    else
      var n := Min(|data| - offset, len);
      Done((data[offset..offset + n], n < len))
  }

  /** `Descriptor::read` on a static entry, with the offset and length at
      their full 64 bits: files read their contents (a passive file's are
      what `passive_alloc` copies out), directories give `IsDirectory`,
      and a runtime file is unreachable. */
  function ReadEntry(e: Entry, offset: nat, len: nat): (r: Ret<(Bytes, bool), ErrorCode>)
    ensures r.Trap? <==> e.ty.RuntimeHostFile?
    ensures r.Fail? <==> (IsFile(e) && offset > |e.bytes|) || e.ty.DirEntry? || e.ty.RuntimeHostDir?
    ensures r.Fail? ==> r.error == if IsFile(e) then InvalidSeek else IsDirectory
    ensures r.Done? ==> IsFile(e) && r == ReadBytes(e.bytes, offset, len)
  {
    match e.ty
    case ActiveFile => ReadBytes(e.bytes, offset, len)
    case PassiveFile => ReadBytes(e.bytes, offset, len)
    case DirEntry => Fail(IsDirectory)
    case RuntimeHostDir => Fail(IsDirectory)
    case RuntimeHostFile => Trap
  }

  /** `x as usize` on the adapter's 32-bit target. */
  function Usize(x: u64): u32 { x % U32_LIMIT }

  /** `Descriptor::read` as written: the offset and the length are cast to
      the 32-bit `usize` before they are compared and used. */
  function ReadEntryAsWritten(e: Entry, offset: u64, len: u64): Ret<(Bytes, bool), ErrorCode>
  {
    match e.ty
    case ActiveFile => ReadBytes(e.bytes, Usize(offset), Usize(len))
    case PassiveFile => ReadBytes(e.bytes, Usize(offset), Usize(len))
    case DirEntry => Fail(IsDirectory)
    case RuntimeHostDir => Fail(IsDirectory)
    case RuntimeHostFile => Trap
  }

  /** Below 2^32 the casts change nothing. */
  lemma AsWrittenBelow4G(e: Entry, offset: u64, len: u64)
    requires offset < U32_LIMIT && len < U32_LIMIT
    ensures ReadEntryAsWritten(e, offset, len) == ReadEntry(e, offset, len)
  {
  }

  /** A read of 2^32 bytes from the start of a ten-byte file returns no
      bytes and reports that more are to come, so a stream reading it never
      advances; without the cast it returns the ten bytes and is done. */
  lemma ReadOf4GStalls()
    ensures var e := Entry([], FsIndex.ActiveFile, 0, 10, Zeros(10));
      ReadEntryAsWritten(e, 0, U32_LIMIT) == Done(([], false))
      && ReadEntry(e, 0, U32_LIMIT) == Done((Zeros(10), true))
  {
    var e := Entry([], FsIndex.ActiveFile, 0, 10, Zeros(10));
    assert Zeros(10)[0..10] == Zeros(10);
  }

  /** The bytes a stream reading `len` at a time from `offset` receives
      before it ends. */
  function Drain(data: Bytes, offset: nat, len: nat): Bytes
    requires offset <= |data| && len > 0
    decreases |data| - offset
  {
    match ReadBytes(data, offset, len)
    case Done((b, done)) => if done then b else b + Drain(data, offset + |b|, len)
    case _ => []
  }

  /** Reading on from `offset` until the read is done yields exactly the
      rest of the contents, whatever the chunk length. */
  lemma {:induction false} DrainReadsRest(data: Bytes, offset: nat, len: nat)
    requires offset <= |data| && len > 0
    ensures Drain(data, offset, len) == data[offset..]
    decreases |data| - offset
  {
    var (b, done) := ReadBytes(data, offset, len).value;
    if !done {
      DrainReadsRest(data, offset + |b|, len);
      assert data[offset..] == b + data[offset + |b|..];
    }
  }

  // ---------------------------------------------------------------------
  // Streams over static entries

  datatype StreamStatus = Open | Ended

  /** `Descriptor::read` of `t`: a static entry's contents, or what the
      host's `read` of the host descriptor answers. */
  function DescriptorRead(index: seq<Entry>, t: Target, offset: nat, len: nat,
                          hostRead: (u32, nat, nat) -> Result<(Bytes, bool), ErrorCode>): Ret<(Bytes, bool), ErrorCode>
    requires t.StaticEntry? ==> t.pos < |index|
  {
    match t
    case StaticEntry(p) => ReadEntry(index[p], offset, len)
    case HostDescriptor(h) => var a := hostRead(h, len, offset); if a.Ok? then Done(a.value) else Fail(a.error)
  }

  /** `StaticFileStream::read` of the stream on `fd` at `offset`: the
      descriptor's read there, any error becoming `()`; the stream's offset
      moves on by the bytes returned, and it has ended when the read was
      done. */
  function FileStreamRead(st: State, index: seq<Entry>, fd: nat, offset: nat, len: nat,
                          hostRead: (u32, nat, nat) -> Result<(Bytes, bool), ErrorCode>): (r: Ret<(nat, Bytes, StreamStatus), ()>)
    requires Sane(st, index)
    ensures GetDescriptor(st, fd).Err? ==> r == Fail(())
    ensures GetDescriptor(st, fd).Ok? ==>
      var d := DescriptorRead(index, GetDescriptor(st, fd).value, offset, len, hostRead);
      (r.Trap? <==> d.Trap?) && (r.Fail? <==> d.Fail?)
      && (r.Done? ==> d == Done((r.value.1, r.value.2.Ended?)) && r.value.0 == offset + |r.value.1|)
  {
    match GetDescriptor(st, fd)
    case Err(_) => Fail(())
    case Ok(t) =>
      match DescriptorRead(index, t, offset, len, hostRead)
      case Done((b, done)) => Done((offset + |b|, b, if done then Ended else Open))
      case Fail(_) => Fail(())
      case Trap => Trap
  }

  /** An entry of a directory listing. */
  datatype DirectoryEntry = DirectoryEntry(ty: DescriptorType, name: Bytes)

  /** `StaticDirStream::next` of the stream on `fd` at child `idx`: the
      child there, or nothing past the last, and the stream moves on by one
      either way.  An unknown descriptor gives `BadDescriptor`, a file
      `NotDirectory`, and a host descriptor is unreachable. */
  function DirNext(st: State, index: seq<Entry>, fd: nat, idx: nat): (r: Ret<(nat, Option<DirectoryEntry>), ErrorCode>)
    requires Sane(st, index)
    ensures r.Done? ==> r.value.0 == idx + 1
    ensures GetDescriptor(st, fd).Err? ==> r == Fail(BadDescriptor)
    ensures r.Done? && r.value.1.Some? ==>
      exists p: nat, lo: nat, hi: nat :: GetDescriptor(st, fd) == Ok(StaticEntry(p)) && p < |index|
        && ChildList(index, p, Relative) == Done((lo, hi)) && idx < hi - lo
        && r.value.1.value == DirectoryEntry(Ty(index[lo + idx], Relative).value, index[lo + idx].name)
  {
    match GetDescriptor(st, fd)
    case Err(e) => Fail(e)
    case Ok(HostDescriptor(_)) => Trap
    case Ok(StaticEntry(p)) =>
      match ChildList(index, p, Relative)
      case Done((lo, hi)) =>
        Done((idx + 1, if idx < hi - lo then Some(DirectoryEntry(Ty(index[lo + idx], Relative).value, index[lo + idx].name)) else None))
      case Fail(e) => Fail(e)
      case Trap => Trap
  }

  // ---------------------------------------------------------------------
  // Descriptor calls

  /** `get_type`: a static entry is a directory exactly when it is a
      directory or a runtime directory, and a regular file otherwise; a host
      descriptor's type is the host's. */
  function GetType(st: State, index: seq<Entry>, fd: nat,
                   hostType: u32 -> Result<DescriptorType, ErrorCode>): (r: Result<DescriptorType, ErrorCode>)
    requires Sane(st, index)
    ensures GetDescriptor(st, fd).Err? ==> r == Err(BadDescriptor)
    ensures GetDescriptor(st, fd).Ok? && GetDescriptor(st, fd).value.StaticEntry? ==>
      var e := index[GetDescriptor(st, fd).value.pos];
      r == Ok(if e.ty.DirEntry? || e.ty.RuntimeHostDir? then Directory else RegularFile)
    ensures GetDescriptor(st, fd).Ok? && GetDescriptor(st, fd).value.HostDescriptor? ==>
      r == hostType(GetDescriptor(st, fd).value.hostFd)
  {
    match GetDescriptor(st, fd)
    case Err(e) => Err(e)
    case Ok(StaticEntry(p)) => Ok(Ty(index[p], Relative).value)
    case Ok(HostDescriptor(h)) => hostType(h)
  }

  /** `read_via_stream`: a static entry is read from its start only, any
      other offset being `InvalidSeek`; the new stream is numbered by the
      stream counter. */
  function ReadViaStream(st: State, fd: nat, offset: nat,
                         hostStream: (u32, nat) -> Result<u32, ErrorCode>): (r: Result<(State, nat), ErrorCode>)
    ensures GetDescriptor(st, fd).Err? ==> r == Err(BadDescriptor)
    ensures r.Ok? ==> GetStream(r.value.0, r.value.1).Some? && r.value == NewStream(st, GetStream(r.value.0, r.value.1).value)
    ensures GetDescriptor(st, fd).Ok? && GetDescriptor(st, fd).value.StaticEntry? ==>
      if offset != 0 then r == Err(InvalidSeek) else r.Ok? && GetStream(r.value.0, r.value.1) == Some(StaticFile(fd, 0))
    ensures GetDescriptor(st, fd).Ok? && GetDescriptor(st, fd).value.HostDescriptor? ==>
      var a := hostStream(GetDescriptor(st, fd).value.hostFd, offset);
      (r.Ok? <==> a.Ok?) && (a.Err? ==> r == Err(a.error))
      && (a.Ok? ==> GetStream(r.value.0, r.value.1) == Some(HostStream(a.value)))
  {
    match GetDescriptor(st, fd)
    case Err(e) => Err(e)
    case Ok(StaticEntry(_)) =>
      if offset != 0 then Err(InvalidSeek) else Ok(NewStream(st, StaticFile(fd, 0)))
    case Ok(HostDescriptor(h)) =>
      match hostStream(h, offset)
      case Err(e) => Err(e)
      case Ok(hs) => Ok(NewStream(st, HostStream(hs)))
  }

  /** `read`: a stream is opened at `offset`, read once and dropped.  Only a
      static file read from its start succeeds; a failed read is reported as
      `Io` and leaves the stream behind, and a host descriptor, whose stream
      is not a static file's, is unreachable. */
  function Read(st: State, index: seq<Entry>, fd: nat, len: nat, offset: nat,
                hostStream: (u32, nat) -> Result<u32, ErrorCode>): (r: (State, Ret<(Bytes, bool), ErrorCode>))
    requires Sane(st, index)
    ensures GetDescriptor(st, fd).Err? ==> r == (st, Fail(BadDescriptor))
    ensures GetDescriptor(st, fd).Ok? && GetDescriptor(st, fd).value.StaticEntry? ==>
      var d := ReadEntry(index[GetDescriptor(st, fd).value.pos], 0, len);
      if offset != 0 then r == (st, Fail(InvalidSeek))
      else
        (r.1.Done? <==> d.Done?) && (r.1.Trap? <==> d.Trap?)
        && (r.1.Done? ==> r.1 == d && r.0 == st.(streamCnt := st.streamCnt + 1, streams := r.0.streams)
                          && forall sid :: GetStream(r.0, sid) == if sid == st.streamCnt then None else GetStream(st, sid))
        && (r.1.Fail? ==> r.1.error == ErrorCode.Io && GetStream(r.0, st.streamCnt) == Some(StaticFile(fd, 0)))
    ensures GetDescriptor(st, fd).Ok? && GetDescriptor(st, fd).value.HostDescriptor? ==>
      var a := hostStream(GetDescriptor(st, fd).value.hostFd, offset);
      (r.1.Trap? <==> a.Ok?) && (a.Err? ==> r == (st, Fail(a.error)))
  {
    match ReadViaStream(st, fd, offset, hostStream)
    case Err(e) => (st, Fail(e))
    case Ok((s1, sid)) =>
      match s1.streams[sid]
      case StaticFile(f, off) =>
        var t := GetDescriptor(s1, f).value;
        (match ReadEntry(index[t.pos], off, len)
         case Done(x) => (DropStream(s1, sid).0, Done(x))
         case Fail(_) => (s1, Fail(ErrorCode.Io))
         case Trap => (s1, Trap))
      case _ => (s1, Trap)
  }

  /** `read_directory`: a directory descriptor gets a listing stream from
      its first child; anything else is `NotDirectory`.  A host directory
      gets the same static listing stream. */
  function ReadDirectory(st: State, index: seq<Entry>, fd: nat,
                         hostType: u32 -> Result<DescriptorType, ErrorCode>): (r: Result<(State, nat), ErrorCode>)
    requires Sane(st, index)
    ensures GetType(st, index, fd, hostType).Err? ==> r == Err(GetType(st, index, fd, hostType).error)
    ensures GetType(st, index, fd, hostType).Ok? ==>
      if GetType(st, index, fd, hostType).value == Directory then r == Ok(NewStream(st, StaticDir(fd, 0)))
      else r == Err(NotDirectory)
  {
    match GetType(st, index, fd, hostType)
    case Err(e) => Err(e)
    case Ok(ty) => if ty != Directory then Err(NotDirectory) else Ok(NewStream(st, StaticDir(fd, 0)))
  }

  /** `read_directory_entry`: a listing stream yields its next child and
      moves on; a host stream's entry is the host's; an unknown stream and
      a stream of any other kind are `BadDescriptor`. */
  function ReadDirectoryEntry(st: State, index: seq<Entry>, sid: nat,
                              hostNext: u32 -> Result<Option<DirectoryEntry>, ErrorCode>): (r: Ret<(State, Option<DirectoryEntry>), ErrorCode>)
    requires Sane(st, index)
    ensures (GetStream(st, sid).None? || !(GetStream(st, sid).value.StaticDir? || GetStream(st, sid).value.HostStream?))
      ==> r == Fail(BadDescriptor)
    ensures GetStream(st, sid).Some? && GetStream(st, sid).value.StaticDir? ==>
      var StaticDir(fd, idx) := GetStream(st, sid).value;
      var d := DirNext(st, index, fd, idx);
      (r.Done? <==> d.Done?) && (r.Trap? <==> d.Trap?) && (r.Fail? ==> r == Fail(d.error))
      && (r.Done? ==> r.value.1 == d.value.1 && r.value.0 == st.(streams := st.streams[sid := StaticDir(fd, idx + 1)]))
    ensures GetStream(st, sid).Some? && GetStream(st, sid).value.HostStream? ==>
      var a := hostNext(GetStream(st, sid).value.hostSid);
      (r.Done? <==> a.Ok?) && (a.Err? ==> r == Fail(a.error)) && (a.Ok? ==> r == Done((st, a.value)))
    ensures r.Done? ==> r.value.0 == st.(streams := r.value.0.streams)
  {
    match GetStream(st, sid)
    case None => Fail(BadDescriptor)
    case Some(StaticDir(fd, idx)) =>
      (match DirNext(st, index, fd, idx)
       case Done((idx', e)) => Done((st.(streams := st.streams[sid := StaticDir(fd, idx')]), e))
       case Fail(e) => Fail(e)
       case Trap => Trap)
    case Some(HostStream(h)) =>
      (match hostNext(h)
       case Ok(e) => Done((st, e))
       case Err(e) => Fail(e))
    case Some(_) => Fail(BadDescriptor)
  }

  /** A timestamp. */
  datatype Datetime = Datetime(seconds: u64, nanoseconds: u32)

  /** The timestamp the adapter reports for every static entry. */
  const EPOCH := Datetime(0, 0)

  /** `DescriptorStat`. */
  datatype DescriptorStat = DescriptorStat(
    ty: DescriptorType, linkCount: u64, size: u64,
    accessed: Datetime, modified: Datetime, changed: Datetime)

  /** `stat_map` as written: the access timestamp is filled from the
      modification timestamp. */
  function StatMapAsWritten(s: DescriptorStat): DescriptorStat
  {
    DescriptorStat(s.ty, s.linkCount, s.size, s.modified, s.modified, s.changed)
  }

  /** `stat_map` with each field taken from its own counterpart. */
  function StatMap(s: DescriptorStat): DescriptorStat
  {
    DescriptorStat(s.ty, s.linkCount, s.size, s.accessed, s.modified, s.changed)
  }

  /** The host's stat passes through the corrected map unchanged, and
      through the map as written exactly when it was last accessed at its
      last modification. */
  lemma StatMapKeepsAccess(s: DescriptorStat)
    ensures StatMap(s) == s
    ensures StatMapAsWritten(s) == s <==> s.accessed == s.modified
  {
  }

  /** A file read at second 5 after being written at second 2 is reported
      as read at second 2. */
  lemma StatMapLosesAccess()
    ensures var s := DescriptorStat(RegularFile, 1, 0, Datetime(5, 0), Datetime(2, 0), Datetime(2, 0));
      StatMapAsWritten(s).accessed == Datetime(2, 0) && StatMap(s).accessed == Datetime(5, 0)
  {
  }

  /** A runtime entry's host path resolved through the host preopens: the
      host descriptor and the path beneath it, or `NoEntry`. */
  function Resolve(st: State, e: Entry): (r: Ret<(u32, Bytes), ErrorCode>)
    ensures r.Trap? <==> GetHostPreopen(st, e.bytes).Trap?
    ensures r.Fail? <==> GetHostPreopen(st, e.bytes) == Done(None)
    ensures r.Fail? ==> r.error == NoEntry
    ensures r.Done? ==> GetHostPreopen(st, e.bytes) == Done(Some(r.value))
  {
    match GetHostPreopen(st, e.bytes)
    case Done(Some(x)) => Done(x)
    case Done(None) => Fail(NoEntry)
    case _ => Trap
  }

  /** `StaticIndexEntry::size`: a file's length, zero for directories, and
      for a runtime file the size the host reports for its host path. */
  function EntrySize(st: State, e: Entry, hostStatAt: (u32, Bytes) -> Result<DescriptorStat, ErrorCode>): (r: Ret<u64, ErrorCode>)
    requires Sound(e)
    ensures IsFile(e) ==> r == Done(|e.bytes|)
    ensures e.ty.DirEntry? || e.ty.RuntimeHostDir? ==> r == Done(0)
    ensures e.ty.RuntimeHostFile? ==>
      match Resolve(st, e)
      case Done((h, sub)) => r == (if hostStatAt(h, sub).Ok? then Done(hostStatAt(h, sub).value.size) else Fail(hostStatAt(h, sub).error))
      case Fail(x) => r == Fail(x)
      case Trap => r.Trap?
  {
    match e.ty
    case ActiveFile => Done(e.d1)
    case PassiveFile => Done(e.d1)
    case DirEntry => Done(0)
    case RuntimeHostDir => Done(0)
    case RuntimeHostFile =>
      match Resolve(st, e)
      case Done((h, sub)) => (match hostStatAt(h, sub) case Ok(x) => Done(x.size) case Err(x) => Fail(x))
      case Fail(x) => Fail(x)
      case Trap => Trap
  }

  /** The stat of a static entry: its type, no links, its size and zero
      timestamps. */
  function EntryStat(st: State, e: Entry, hostStatAt: (u32, Bytes) -> Result<DescriptorStat, ErrorCode>): (r: Ret<DescriptorStat, ErrorCode>)
    requires Sound(e)
    ensures r.Done? <==> EntrySize(st, e, hostStatAt).Done?
    ensures r.Done? ==>
      r.value == DescriptorStat(Ty(e, Relative).value, 0, EntrySize(st, e, hostStatAt).value, EPOCH, EPOCH, EPOCH)
    ensures r.Trap? <==> EntrySize(st, e, hostStatAt).Trap?
    ensures EntrySize(st, e, hostStatAt).Fail? ==> r == Fail(EntrySize(st, e, hostStatAt).error)
  {
    match EntrySize(st, e, hostStatAt)
    case Done(n) => Done(DescriptorStat(Ty(e, Relative).value, 0, n, EPOCH, EPOCH, EPOCH))
    case Fail(x) => Fail(x)
    case Trap => Trap
  }

  /** A host answer as a call's result. */
  function Lift<T>(a: Result<T, ErrorCode>): (r: Ret<T, ErrorCode>)
    ensures !r.Trap?
    ensures a.Ok? <==> r.Done?
    ensures a.Ok? ==> r.value == a.value
    ensures a.Err? ==> r.error == a.error
  {
    match a
    case Ok(x) => Done(x)
    case Err(x) => Fail(x)
  }

  /** `stat`: a static entry's own stat, or the host's through `stat_map`. */
  function Stat(st: State, index: seq<Entry>, fd: nat,
                hostStat: u32 -> Result<DescriptorStat, ErrorCode>,
                hostStatAt: (u32, Bytes) -> Result<DescriptorStat, ErrorCode>): (r: Ret<DescriptorStat, ErrorCode>)
    requires Sane(st, index)
    ensures GetDescriptor(st, fd).Err? ==> r == Fail(BadDescriptor)
    ensures GetDescriptor(st, fd).Ok? && GetDescriptor(st, fd).value.StaticEntry? ==>
      r == EntryStat(st, index[GetDescriptor(st, fd).value.pos], hostStatAt)
    ensures GetDescriptor(st, fd).Ok? && GetDescriptor(st, fd).value.HostDescriptor? ==>
      r == Lift(hostStat(GetDescriptor(st, fd).value.hostFd))
  {
    match GetDescriptor(st, fd)
    case Err(x) => Fail(x)
    case Ok(StaticEntry(p)) => EntryStat(st, index[p], hostStatAt)
    case Ok(HostDescriptor(h)) => (match hostStat(h) case Ok(x) => Done(StatMap(x)) case Err(x) => Fail(x))
  }

  /** The entry `path` names beneath the static entry `p`, or its host
      descriptor and host path when that entry is a runtime one. */
  datatype Found = Static(q: nat) | OnHost(hostFd: u32, sub: Bytes)

  /** The lookup shared by `stat_at`, `open_at` and `metadata_hash_at` on a
      static descriptor: `dir_lookup`, then for a runtime entry its host
      path resolved through the host preopens. */
  function LookupAt(st: State, index: seq<Entry>, p: nat, path: Bytes): (r: Ret<Found, ErrorCode>)
    requires p < |index|
    ensures r.Done? && r.value.Static? ==>
      r.value.q < |index| && DirLookup(index, p, path, Relative) == Done(r.value.q) && !IsRuntime(index[r.value.q])
    ensures r.Done? && r.value.OnHost? ==>
      exists q :: DirLookup(index, p, path, Relative) == Done(q) && IsRuntime(index[q])
        && Resolve(st, index[q]) == Done((r.value.hostFd, r.value.sub))
    ensures DirLookup(index, p, path, Relative).Fail? ==> r == Fail(DirLookup(index, p, path, Relative).error)
    ensures DirLookup(index, p, path, Relative).Trap? ==> r.Trap?
    ensures DirLookup(index, p, path, Relative).Done? && !IsRuntime(index[DirLookup(index, p, path, Relative).value]) ==>
      r == Done(Static(DirLookup(index, p, path, Relative).value))
  {
    match DirLookup(index, p, path, Relative)
    case Fail(x) => Fail(x)
    case Trap => Trap
    case Done(q) =>
      if IsRuntime(index[q]) then
        (match Resolve(st, index[q])
         case Done((h, sub)) => Done(OnHost(h, sub))
         case Fail(x) => Fail(x)
         case Trap => Trap)
      else Done(Static(q))
  }

  /** `stat_at`: the entry found beneath a static directory is stat'ed
      itself, or on the host when it is a runtime one; a host descriptor
      asks the host. */
  function StatAt(st: State, index: seq<Entry>, fd: nat, path: Bytes,
                  hostStatAt: (u32, Bytes) -> Result<DescriptorStat, ErrorCode>): (r: Ret<DescriptorStat, ErrorCode>)
    requires Sane(st, index)
    ensures GetDescriptor(st, fd).Err? ==> r == Fail(BadDescriptor)
    ensures GetDescriptor(st, fd).Ok? && GetDescriptor(st, fd).value.StaticEntry? ==>
      var l := LookupAt(st, index, GetDescriptor(st, fd).value.pos, path);
      match l
      case Done(Static(q)) => q < |index| && r == EntryStat(st, index[q], hostStatAt)
      case Done(OnHost(h, sub)) => r == Lift(hostStatAt(h, sub))
      case Fail(x) => r == Fail(x)
      case Trap => r.Trap?
    ensures GetDescriptor(st, fd).Ok? && GetDescriptor(st, fd).value.HostDescriptor? ==>
      r == Lift(hostStatAt(GetDescriptor(st, fd).value.hostFd, path))
  {
    match GetDescriptor(st, fd)
    case Err(x) => Fail(x)
    case Ok(StaticEntry(p)) =>
      (match LookupAt(st, index, p, path)
       case Done(Static(q)) => EntryStat(st, index[q], hostStatAt)
       case Done(OnHost(h, sub)) => (match hostStatAt(h, sub) case Ok(x) => Done(StatMap(x)) case Err(x) => Fail(x))
       case Fail(x) => Fail(x)
       case Trap => Trap)
    case Ok(HostDescriptor(h)) =>
      (match hostStatAt(h, path) case Ok(x) => Done(StatMap(x)) case Err(x) => Fail(x))
  }

  /** A new descriptor as `open_at`'s result; `new_descriptor` panics when
      the counter's number is taken. */
  function Opened(r: Ret<(State, nat), ()>): Ret<(State, nat), ErrorCode>
  {
    if r.Done? then Done(r.value) else Trap
  }

  /** `open_at`: the entry found beneath a static directory gets a new
      static descriptor, a runtime one a new descriptor for what the host
      opens at its host path; a host descriptor opens on the host. */
  function OpenAt(st: State, index: seq<Entry>, fd: nat, path: Bytes,
                  hostOpenAt: (u32, Bytes) -> Result<u32, ErrorCode>): (r: Ret<(State, nat), ErrorCode>)
    requires Sane(st, index)
    ensures GetDescriptor(st, fd).Err? ==> r == Fail(BadDescriptor)
    ensures r.Done? ==> exists t :: NewDescriptor(st, t) == Done(r.value)
    ensures GetDescriptor(st, fd).Ok? && GetDescriptor(st, fd).value.StaticEntry? ==>
      var l := LookupAt(st, index, GetDescriptor(st, fd).value.pos, path);
      match l
      case Done(Static(q)) => r == Opened(NewDescriptor(st, StaticEntry(q)))
      case Done(OnHost(h, sub)) =>
        if hostOpenAt(h, sub).Err? then r == Fail(hostOpenAt(h, sub).error)
        else r == Opened(NewDescriptor(st, HostDescriptor(hostOpenAt(h, sub).value)))
      case Fail(x) => r == Fail(x)
      case Trap => r.Trap?
    ensures GetDescriptor(st, fd).Ok? && GetDescriptor(st, fd).value.HostDescriptor? ==>
      var a := hostOpenAt(GetDescriptor(st, fd).value.hostFd, path);
      if a.Err? then r == Fail(a.error) else r == Opened(NewDescriptor(st, HostDescriptor(a.value)))
  {
    match GetDescriptor(st, fd)
    case Err(x) => Fail(x)
    case Ok(StaticEntry(p)) =>
      (match LookupAt(st, index, p, path)
       case Done(Static(q)) => Opened(NewDescriptor(st, StaticEntry(q)))
       case Done(OnHost(h, sub)) =>
         (match hostOpenAt(h, sub)
          case Ok(c) => Opened(NewDescriptor(st, HostDescriptor(c)))
          case Err(x) => Fail(x))
       case Fail(x) => Fail(x)
       case Trap => Trap)
    case Ok(HostDescriptor(h)) =>
      (match hostOpenAt(h, path)
       case Ok(c) => Opened(NewDescriptor(st, HostDescriptor(c)))
       case Err(x) => Fail(x))
  }

  /** `is_same_object`: two static descriptors are the same object when
      they name the same entry, two host descriptors when the host says so,
      and a static and a host descriptor, or an unknown one, never. */
  function IsSameObject(st: State, fd1: nat, fd2: nat, hostSame: (u32, u32) -> bool): bool
  {
    match (GetDescriptor(st, fd1), GetDescriptor(st, fd2))
    case (Ok(StaticEntry(p1)), Ok(StaticEntry(p2))) => p1 == p2
    case (Ok(HostDescriptor(h1)), Ok(HostDescriptor(h2))) => hostSame(h1, h2)
    case _ => false
  }

  /** `MetadataHashValue`. */
  datatype Hash = Hash(upper: u64, lower: u64)

  /** `metadata_hash`: a static entry hashes to its position in the index
      with a zero lower word; a host descriptor's hash is the host's. */
  function MetadataHash(st: State, index: seq<Entry>, fd: nat,
                        hostHash: u32 -> Result<Hash, ErrorCode>): (r: Result<Hash, ErrorCode>)
    requires Sane(st, index)
    ensures GetDescriptor(st, fd).Err? ==> r == Err(BadDescriptor)
    ensures GetDescriptor(st, fd).Ok? && GetDescriptor(st, fd).value.HostDescriptor? ==>
      r == hostHash(GetDescriptor(st, fd).value.hostFd)
    ensures GetDescriptor(st, fd).Ok? && GetDescriptor(st, fd).value.StaticEntry? ==>
      r.Ok? && r.value.lower == 0 && r.value.upper == GetDescriptor(st, fd).value.pos
  {
    match GetDescriptor(st, fd)
    case Err(x) => Err(x)
    case Ok(StaticEntry(p)) => Ok(Hash(p, 0))
    case Ok(HostDescriptor(h)) => hostHash(h)
  }

  /** Two static descriptors are the same object exactly when their
      metadata hashes agree. */
  lemma SameObjectIffSameHash(st: State, index: seq<Entry>, fd1: nat, fd2: nat,
                              hostSame: (u32, u32) -> bool, hostHash: u32 -> Result<Hash, ErrorCode>)
    requires Sane(st, index)
    requires GetDescriptor(st, fd1).Ok? && GetDescriptor(st, fd1).value.StaticEntry?
    requires GetDescriptor(st, fd2).Ok? && GetDescriptor(st, fd2).value.StaticEntry?
    ensures IsSameObject(st, fd1, fd2, hostSame) <==> MetadataHash(st, index, fd1, hostHash) == MetadataHash(st, index, fd2, hostHash)
  {
  }

  /** `metadata_hash_at`: the entry found beneath a static directory hashes
      to its position, a runtime one to the host's hash of its host path;
      a host descriptor asks the host. */
  function MetadataHashAt(st: State, index: seq<Entry>, fd: nat, path: Bytes,
                          hostHashAt: (u32, Bytes) -> Result<Hash, ErrorCode>): (r: Ret<Hash, ErrorCode>)
    requires Sane(st, index)
    ensures GetDescriptor(st, fd).Err? ==> r == Fail(BadDescriptor)
    ensures GetDescriptor(st, fd).Ok? && GetDescriptor(st, fd).value.StaticEntry? ==>
      match LookupAt(st, index, GetDescriptor(st, fd).value.pos, path)
      case Done(Static(q)) => r == Done(Hash(q, 0))
      case Done(OnHost(h, sub)) => r == Lift(hostHashAt(h, sub))
      case Fail(x) => r == Fail(x)
      case Trap => r.Trap?
    ensures GetDescriptor(st, fd).Ok? && GetDescriptor(st, fd).value.HostDescriptor? ==>
      r == Lift(hostHashAt(GetDescriptor(st, fd).value.hostFd, path))
  {
    match GetDescriptor(st, fd)
    case Err(x) => Fail(x)
    case Ok(StaticEntry(p)) =>
      (match LookupAt(st, index, p, path)
       case Done(Static(q)) => Done(Hash(q, 0))
       case Done(OnHost(h, sub)) => Lift(hostHashAt(h, sub))
       case Fail(x) => Fail(x)
       case Trap => Trap)
    case Ok(HostDescriptor(h)) => Lift(hostHashAt(h, path))
  }

  /** A static descriptor opened beneath a static directory hashes as what
      `metadata_hash_at` reports for the same path. */
  lemma OpenedHashesAsHashAt(st: State, index: seq<Entry>, fd: nat, path: Bytes,
                             hostOpenAt: (u32, Bytes) -> Result<u32, ErrorCode>,
                             hostHash: u32 -> Result<Hash, ErrorCode>,
                             hostHashAt: (u32, Bytes) -> Result<Hash, ErrorCode>)
    requires Sane(st, index)
    requires GetDescriptor(st, fd).Ok? && GetDescriptor(st, fd).value.StaticEntry?
    requires OpenAt(st, index, fd, path, hostOpenAt).Done?
    requires LookupAt(st, index, GetDescriptor(st, fd).value.pos, path).Done?
    requires LookupAt(st, index, GetDescriptor(st, fd).value.pos, path).value.Static?
    ensures var (s, nfd) := OpenAt(st, index, fd, path, hostOpenAt).value;
      var h := MetadataHashAt(st, index, fd, path, hostHashAt);
      Sane(s, index) && h.Done? && MetadataHash(s, index, nfd, hostHash) == Ok(h.value)
  {
  }

  // ---------------------------------------------------------------------
  // Calls answered without looking at the state

  /** The calls whose answer does not depend on the descriptor. */
  datatype Call =
    | WriteViaStream | AppendViaStream | Advise | SyncData | GetFlags | SetSize | SetTimes
    | Write | Sync | CreateDirectoryAt | SetTimesAt | LinkAt | ReadlinkAt(path: Bytes)
    | RemoveDirectoryAt | RenameAt | SymlinkAt | AccessAt | UnlinkFileAt
    | ChangeFilePermissionsAt | ChangeDirectoryPermissionsAt
    | LockShared | LockExclusive | TryLockShared | TryLockExclusive | Unlock

  /** What those calls answer: nothing, descriptor flags, or a path. */
  datatype Answer = Unit | Flags(read: bool, write: bool) | Path(p: Bytes)

  /** The calls that would change a file or directory, or its metadata. */
  predicate Changes(c: Call)
  {
    c.WriteViaStream? || c.AppendViaStream? || c.SetSize? || c.SetTimes? || c.Write?
    || c.CreateDirectoryAt? || c.SetTimesAt? || c.LinkAt? || c.RemoveDirectoryAt?
    || c.RenameAt? || c.SymlinkAt? || c.UnlinkFileAt? || c.ChangeFilePermissionsAt?
    || c.ChangeDirectoryPermissionsAt?
  }

  predicate IsLock(c: Call)
  {
    c.LockShared? || c.LockExclusive? || c.TryLockShared? || c.TryLockExclusive? || c.Unlock?
  }

  /** The virtual filesystem is read-only: every call that would change it
      is refused with `Access`, as are the syncs and `access_at`; locks
      always succeed; descriptors report read-only flags; `readlink_at`
      returns the path it is given; `advise` is unimplemented. */
  function Constant(c: Call): (r: Ret<Answer, ErrorCode>)
    ensures Changes(c) ==> r == Fail(Access)
    ensures r.Fail? <==> Changes(c) || c.SyncData? || c.Sync? || c.AccessAt?
    ensures r.Fail? ==> r.error == Access
    ensures IsLock(c) <==> r == Done(Unit)
    ensures r.Trap? <==> c.Advise?
    ensures c.GetFlags? ==> r == Done(Flags(true, false))
    ensures c.ReadlinkAt? ==> r == Done(Path(c.path))
  {
    match c
    case Advise => Trap
    case GetFlags => Done(Flags(true, false))
    case ReadlinkAt(path) => Done(Path(path))
    case LockShared => Done(Unit)
    case LockExclusive => Done(Unit)
    case TryLockShared => Done(Unit)
    case TryLockExclusive => Done(Unit)
    case Unlock => Done(Unit)
    case _ => Fail(Access)
  }

  // ---------------------------------------------------------------------
  // The calls against the tree the index was laid out from

  /** The descriptor type a tree node is listed and stat'ed with. */
  function KindOf(e: FsTree.FsEntry): DescriptorType
  {
    if e.Dir? || e.RuntimeDir? then Directory else RegularFile
  }

  /** Listing a static directory descriptor yields, call by call, the
      directory's children in the tree's order, each with its name and
      kind, and then nothing. */
  lemma DirNextListsChildren(st: State, index: seq<Entry>, vs: seq<FsBfs.Visit>, cutoff: nat, fd: nat, p: nat, k: nat)
    requires Sane(st, index) && IndexLookup.Mirrors(index, vs, cutoff) && IndexLookup.Laid(index, vs)
    requires GetDescriptor(st, fd) == Ok(StaticEntry(p)) && p < |vs| && vs[p].entry.Dir?
    ensures var cs := vs[p].entry.children;
      DirNext(st, index, fd, k)
      == Done((k + 1, if k < |cs| then Some(DirectoryEntry(KindOf(cs[k].1), cs[k].0)) else None))
  {
    var cs := vs[p].entry.children;
    var lo := p + vs[p].off;
    IndexLookup.ChildWindow(index, vs, cutoff, p);
    if k < |cs| {
      assert index[lo..lo + |cs|][k] == index[lo + k];
      assert IndexLookup.StoredAt(index, vs, cutoff, lo + k);
    }
  }

  /** `open_at` keeps the invariant; from a state whose counters are ahead
      of its tables the new descriptor takes the counter's number, and the
      call panics only where the lookup beneath a static directory does. */
  lemma OpenAtKeeps(st: State, index: seq<Entry>, fd: nat, path: Bytes,
                    hostOpenAt: (u32, Bytes) -> Result<u32, ErrorCode>)
    requires Sane(st, index)
    ensures var r := OpenAt(st, index, fd, path, hostOpenAt); r.Done? ==> Sane(r.value.0, index)
    ensures var r := OpenAt(st, index, fd, path, hostOpenAt);
      Fresh(st) && r.Done? ==> Fresh(r.value.0) && r.value.1 == st.descriptorCnt
    ensures var r := OpenAt(st, index, fd, path, hostOpenAt);
      Fresh(st) && r.Trap? ==>
        GetDescriptor(st, fd).Ok? && GetDescriptor(st, fd).value.StaticEntry?
        && LookupAt(st, index, GetDescriptor(st, fd).value.pos, path).Trap?
  {
    var r := OpenAt(st, index, fd, path, hostOpenAt);
    if r.Done? {
      var t :| NewDescriptor(st, t) == Done(r.value);
      if Fresh(st) {
        NewDescriptorFresh(st, t);
      }
    }
    if Fresh(st) {
      assert st.descriptorCnt !in st.descriptors;
    }
  }

  /** Opening a path beneath a static directory fails, panics or finds
      what looking the path up in the tree does: a found static node gets
      a descriptor for the very entry that was laid out for it, and a found
      runtime node a host descriptor. */
  lemma OpenAtFindsTreeNode(st: State, index: seq<Entry>, vs: seq<FsBfs.Visit>, cutoff: nat, fd: nat, p: nat, path: Bytes,
                            hostOpenAt: (u32, Bytes) -> Result<u32, ErrorCode>)
    requires Sane(st, index) && Fresh(st) && IndexLookup.Mirrors(index, vs, cutoff) && IndexLookup.Laid(index, vs)
    requires GetDescriptor(st, fd) == Ok(StaticEntry(p))
    ensures p < |vs|
    ensures var r := OpenAt(st, index, fd, path, hostOpenAt); var t := IndexLookup.TreeLookup(vs[p].entry, path);
      (t.Fail? ==> r == Fail(t.error)) && (t.Trap? ==> r.Trap?)
      && (t.Done? && !(t.value.RuntimeFile? || t.value.RuntimeDir?) ==>
            r.Done? && exists q: nat :: q < |vs| && GetDescriptor(r.value.0, r.value.1) == Ok(StaticEntry(q)) && vs[q].entry == t.value)
      && (t.Done? && (t.value.RuntimeFile? || t.value.RuntimeDir?) && r.Done? ==>
            GetDescriptor(r.value.0, r.value.1).value.HostDescriptor?)
  {
    IndexLookup.DirLookupIsTreeLookup(index, vs, cutoff, p, path);
    OpenAtByLookup(st, index, fd, p, path, hostOpenAt);
    var d := DirLookup(index, p, path, Relative);
    if d.Done? {
      assert IndexLookup.StoredAt(index, vs, cutoff, d.value);
    }
  }

  /** Opening beneath a static directory follows `dir_lookup`: its errors
      and panics pass through, a static entry found gets a fresh descriptor
      for itself, and a run-time one a host descriptor. */
  lemma OpenAtByLookup(st: State, index: seq<Entry>, fd: nat, p: nat, path: Bytes,
                       hostOpenAt: (u32, Bytes) -> Result<u32, ErrorCode>)
    requires Sane(st, index) && Fresh(st) && GetDescriptor(st, fd) == Ok(StaticEntry(p))
    ensures p < |index|
    ensures var d := DirLookup(index, p, path, Relative); var r := OpenAt(st, index, fd, path, hostOpenAt);
      (d.Fail? ==> r == Fail(d.error)) && (d.Trap? ==> r.Trap?)
      && (d.Done? && !IsRuntime(index[d.value]) ==> r.Done? && GetDescriptor(r.value.0, r.value.1) == Ok(StaticEntry(d.value)))
      && (d.Done? && IsRuntime(index[d.value]) && r.Done? ==> GetDescriptor(r.value.0, r.value.1).value.HostDescriptor?)
  {
    var d := DirLookup(index, p, path, Relative);
    if d.Done? && !IsRuntime(index[d.value]) {
      OpenAtStatic(st, index, fd, p, path, hostOpenAt, d.value);
    }
  }

  /** A static entry found beneath a static directory gets a fresh
      descriptor for that very entry. */
  lemma OpenAtStatic(st: State, index: seq<Entry>, fd: nat, p: nat, path: Bytes,
                     hostOpenAt: (u32, Bytes) -> Result<u32, ErrorCode>, q: nat)
    requires Sane(st, index) && Fresh(st) && GetDescriptor(st, fd) == Ok(StaticEntry(p)) && p < |index|
    requires DirLookup(index, p, path, Relative) == Done(q) && q < |index| && !IsRuntime(index[q])
    ensures var r := OpenAt(st, index, fd, path, hostOpenAt);
      r.Done? && GetDescriptor(r.value.0, r.value.1) == Ok(StaticEntry(q))
  {
    assert LookupAt(st, index, p, path) == Done(Static(q));
    NewDescriptorFresh(st, StaticEntry(q));
  }

  /** Pushing preopens that are host descriptors or entries of the index
      keeps the invariant. */
  lemma AppendedSane(st: State, s: State, es: seq<(Target, Bytes)>, index: seq<Entry>)
    requires Sane(st, index) && Appended(st, s, es)
    requires forall i :: 0 <= i < |es| && es[i].0.StaticEntry? ==> es[i].0.pos < |index|
    ensures Sane(s, index)
  {
    forall fd | fd in s.descriptors && s.descriptors[fd].StaticEntry?
      ensures s.descriptors[fd].pos < |index|
    {
      if fd !in st.descriptors {
        assert GetDescriptor(s, st.descriptorCnt + (fd - st.descriptorCnt)) == Ok(es[fd - st.descriptorCnt].0);
      } else {
        assert GetDescriptor(s, fd) == GetDescriptor(st, fd);
      }
    }
  }

  /** The preopens `initialize` pushes are host descriptors or entries of
      the index. */
  lemma PushedInRange(io: Io, host: Host)
    requires PreopensInRange(io)
    ensures var es := HostPreopenEntries(host.directories, Stdio.HostPreopens(io.flags)) + StaticEntries(io.index, io.preopens);
      forall i :: 0 <= i < |es| && es[i].0.StaticEntry? ==> es[i].0.pos < |io.index|
  {
    var hs := HostPreopenEntries(host.directories, Stdio.HostPreopens(io.flags));
    var ss := StaticEntries(io.index, io.preopens);
    var es: seq<(Target, Bytes)> := hs + ss;
    forall i | 0 <= i < |es| && es[i].0.StaticEntry?
      ensures es[i].0.pos < |io.index|
    {
      if i >= |hs| {
        assert es[i] == ss[i - |hs|];
      }
    }
  }

  /** Pushing the preopens `initialize` pushes keeps the invariant. */
  lemma PushedSane(st: State, s: State, io: Io, host: Host)
    requires Sane(st, io.index) && PreopensInRange(io)
    requires Appended(st, s, HostPreopenEntries(host.directories, Stdio.HostPreopens(io.flags)) + StaticEntries(io.index, io.preopens))
    ensures Sane(s, io.index)
  {
    PushedInRange(io, host);
    AppendedSane(st, s, HostPreopenEntries(host.directories, Stdio.HostPreopens(io.flags)) + StaticEntries(io.index, io.preopens), io.index);
  }

  /** The first `initialize` keeps the invariant: the preopens it pushes
      are host descriptors or entries of the index. */
  lemma InitializeSane(st: State, io: Io, host: Host)
    requires Fresh(st) && !st.initialized && Sane(st, io.index)
    ensures Initialize(st, io, host).Done? ==> Sane(Initialize(st, io, host).value, io.index)
  {
    InitializeTraps(st, io, host);
    InitializePreopens(st, io, host);
    if Initialize(st, io, host).Done? {
      PushedSane(st, Initialize(st, io, host).value, io, host);
    }
  }

  /** What `n` successive `read_directory_entry` calls on `sid` return. */
  function Listing(st: State, index: seq<Entry>, sid: nat, n: nat,
                   hostNext: u32 -> Result<Option<DirectoryEntry>, ErrorCode>): Ret<seq<Option<DirectoryEntry>>, ErrorCode>
    requires Sane(st, index)
    decreases n
  {
    if n == 0 then Done([])
    else
      var r := ReadDirectoryEntry(st, index, sid, hostNext);
      if r.Fail? then Fail(r.error)
      else if r.Trap? then Trap
      else
        var rest := Listing(r.value.0, index, sid, n - 1, hostNext);
        if rest.Fail? then Fail(rest.error)
        else if rest.Trap? then Trap
        else Done([r.value.1] + rest.value)
  }

  /** The tree's children from the `k`-th on, as directory entries. */
  function Listed(cs: seq<FsBfs.Named>, k: nat): seq<Option<DirectoryEntry>>
    decreases |cs| - k
  {
    if k >= |cs| then [] else [Some(DirectoryEntry(KindOf(cs[k].1), cs[k].0))] + Listed(cs, k + 1)
  }

  /** A listing stream at child `k` of a static directory lists the rest
      of the directory's children in the tree's order and then ends. */
  lemma {:induction false} ListingFrom(st: State, index: seq<Entry>, vs: seq<FsBfs.Visit>, cutoff: nat,
                                       sid: nat, fd: nat, p: nat, k: nat,
                                       hostNext: u32 -> Result<Option<DirectoryEntry>, ErrorCode>)
    requires Sane(st, index) && IndexLookup.Mirrors(index, vs, cutoff) && IndexLookup.Laid(index, vs)
    requires GetDescriptor(st, fd) == Ok(StaticEntry(p)) && p < |vs| && vs[p].entry.Dir?
    requires GetStream(st, sid) == Some(StaticDir(fd, k)) && k <= |vs[p].entry.children|
    ensures var cs := vs[p].entry.children;
      Listing(st, index, sid, |cs| - k + 1, hostNext) == Done(Listed(cs, k) + [None])
    decreases |vs[p].entry.children| - k
  {
    var cs := vs[p].entry.children;
    DirNextListsChildren(st, index, vs, cutoff, fd, p, k);
    var s := st.(streams := st.streams[sid := StaticDir(fd, k + 1)]);
    assert GetDescriptor(s, fd) == GetDescriptor(st, fd);
    if k < |cs| {
      ListingFrom(s, index, vs, cutoff, sid, fd, p, k + 1, hostNext);
      assert Listed(cs, k) + [None] == [Listed(cs, k)[0]] + (Listed(cs, k + 1) + [None]);
    } else {
      var r := ReadDirectoryEntry(st, index, sid, hostNext);
      assert r == Done((s, None));
      assert Listing(s, index, sid, 0, hostNext) == Done([]);
      assert [r.value.1] + Listing(s, index, sid, 0, hostNext).value == [None];
      assert Listing(st, index, sid, 1, hostNext) == Done([None]);
      assert |cs| - k + 1 == 1 && Listed(cs, k) + [None] == [None];
    }
  }

  /** `read_directory` on a static directory opens a stream that lists
      the directory's children, in the tree's order, and then ends. */
  lemma ReadDirectoryLists(st: State, index: seq<Entry>, vs: seq<FsBfs.Visit>, cutoff: nat, fd: nat, p: nat,
                           hostType: u32 -> Result<DescriptorType, ErrorCode>,
                           hostNext: u32 -> Result<Option<DirectoryEntry>, ErrorCode>)
    requires Sane(st, index) && IndexLookup.Mirrors(index, vs, cutoff) && IndexLookup.Laid(index, vs)
    requires GetDescriptor(st, fd) == Ok(StaticEntry(p)) && p < |vs| && vs[p].entry.Dir?
    ensures var r := ReadDirectory(st, index, fd, hostType);
      r.Ok? && Sane(r.value.0, index)
      && Listing(r.value.0, index, r.value.1, |vs[p].entry.children| + 1, hostNext)
         == Done(Listed(vs[p].entry.children, 0) + [None])
  {
    assert IndexLookup.StoredAt(index, vs, cutoff, p);
    var (s, sid) := NewStream(st, StaticDir(fd, 0));
    assert GetDescriptor(s, fd) == GetDescriptor(st, fd);
    ListingFrom(s, index, vs, cutoff, sid, fd, p, 0, hostNext);
  }
}
