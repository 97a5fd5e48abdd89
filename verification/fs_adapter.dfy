/** The older static-filesystem adapter (`virtual-adapter/src/fs.rs`): the
    same index entries as the current adapter, but a directory's child
    offset is the absolute position of its first child, runtime entries
    are not implemented, every descriptor is a static entry, and streams
    are file or listing streams only.  Its descriptor numbers start at 3. */
module FsAdapter {
  import opened Results
  import opened Bytes
  import opened StaticIndex
  import IoFiles

  /** A `Stream` of the older adapter. */
  datatype Stream = FileStream(fd: nat, offset: nat) | DirStream(fd: nat, idx: nat)

  /** `FsState`; a descriptor is the position of the entry it points at. */
  datatype FsState = FsState(
    initialized: bool,
    descriptorCnt: nat,
    preopenDirectories: seq<nat>,
    descriptors: map<nat, nat>,
    streamCnt: nat,
    streams: map<nat, Stream>)

  /** The first descriptor number handed out. */
  const FIRST_FD: nat := 3

  /** `STATE` before the first call. */
  const START := FsState(false, FIRST_FD, [], map[], 0, map[])

  /** Every descriptor points into the index. */
  predicate Sane(st: FsState, index: seq<Entry>)
  {
    AllSound(index) && forall fd :: fd in st.descriptors ==> st.descriptors[fd] < |index|
  }

  /** Numbers below the counters are the only ones in use. */
  predicate Fresh(st: FsState)
  {
    (forall fd :: fd in st.descriptors ==> fd < st.descriptorCnt)
    && (forall sid :: sid in st.streams ==> sid < st.streamCnt)
  }

  /** A file stream that has moved has a descriptor number already handed
      out, and while that descriptor is open it is a file the offset has
      not passed. */
  predicate InBounds(st: FsState, index: seq<Entry>)
    requires Sane(st, index)
  {
    forall sid :: sid in st.streams && st.streams[sid].FileStream? && st.streams[sid].offset > 0 ==>
      var FileStream(fd, off) := st.streams[sid];
      fd < st.descriptorCnt
      && (fd in st.descriptors ==> IoFiles.IsFile(index[st.descriptors[fd]]) && off <= |index[st.descriptors[fd]].bytes|)
  }

  /** The state every call keeps. */
  predicate Good(st: FsState, index: seq<Entry>)
  {
    Sane(st, index) && Fresh(st) && InBounds(st, index)
  }

  // ---------------------------------------------------------------------
  // Tables

  function GetDescriptor(st: FsState, fd: nat): (r: Option<nat>)
    ensures r.Some? <==> fd in st.descriptors
    ensures r.Some? ==> r.value == st.descriptors[fd]
  {
    if fd in st.descriptors then Some(st.descriptors[fd]) else None
  }

  function GetStream(st: FsState, sid: nat): (r: Option<Stream>)
    ensures r.Some? <==> sid in st.streams
    ensures r.Some? ==> r.value == st.streams[sid]
  {
    if sid in st.streams then Some(st.streams[sid]) else None
  }

  /** `create_descriptor`: the counter's number, now pointing at `p`; the
      insertion's `assert!` panics when the number is taken. */
  function CreateDescriptor(st: FsState, p: nat): (r: Ret<(FsState, nat), ()>)
    ensures !r.Fail?
    ensures r.Trap? <==> st.descriptorCnt in st.descriptors
    ensures r.Done? ==>
      r.value.1 == st.descriptorCnt
      && r.value.0 == st.(descriptorCnt := st.descriptorCnt + 1, descriptors := st.descriptors[r.value.1 := p])
  {
    var fd := st.descriptorCnt;
    if fd in st.descriptors then Trap
    else Done((st.(descriptorCnt := fd + 1, descriptors := st.descriptors[fd := p]), fd))
  }

  /** `create_stream`: the counter's number, now naming `s`. */
  function CreateStream(st: FsState, s: Stream): (r: (FsState, nat))
    ensures r.1 == st.streamCnt && GetStream(r.0, r.1) == Some(s)
    ensures r.0 == st.(streamCnt := st.streamCnt + 1, streams := st.streams[r.1 := s])
  {
    (st.(streamCnt := st.streamCnt + 1, streams := st.streams[st.streamCnt := s]), st.streamCnt)
  }

  /** `drop_descriptor`: forgets `fd`, if open. */
  function DropDescriptor(st: FsState, fd: nat): (r: FsState)
    ensures GetDescriptor(r, fd).None?
    ensures forall other :: other != fd ==> GetDescriptor(r, other) == GetDescriptor(st, other)
    ensures r == st.(descriptors := r.descriptors)
  {
    st.(descriptors := st.descriptors - {fd})
  }

  /** `drop_stream` (`drop_input_stream`, `drop_directory_entry_stream`). */
  function DropStream(st: FsState, sid: nat): (r: FsState)
    ensures GetStream(r, sid).None?
    ensures forall other :: other != sid ==> GetStream(r, other) == GetStream(st, other)
    ensures r == st.(streams := r.streams)
  {
    st.(streams := st.streams - {sid})
  }

  // ---------------------------------------------------------------------
  // Initialization and preopens

  /** Descriptors for the entries at `ps`, in order, their numbers pushed
      onto the preopen list. */
  function CreateAll(st: FsState, ps: seq<nat>): Ret<FsState, ()>
    decreases |ps|
  {
    if |ps| == 0 then Done(st)
    else
      match CreateDescriptor(st, ps[0])
      case Done((s, fd)) => CreateAll(s.(preopenDirectories := s.preopenDirectories + [fd]), ps[1..])
      case _ => Trap
  }

  /** With numbers from the counter up free, the descriptors are the
      counter's next `|ps|` numbers, in order. */
  lemma {:induction false} CreateAllNumbers(st: FsState, ps: seq<nat>)
    requires forall fd :: fd in st.descriptors ==> fd < st.descriptorCnt
    ensures var r := CreateAll(st, ps);
      r.Done?
      && r.value.descriptorCnt == st.descriptorCnt + |ps|
      && r.value.preopenDirectories == st.preopenDirectories + seq(|ps|, i => st.descriptorCnt + i)
      && (forall x :: x in r.value.descriptors <==> x in st.descriptors || st.descriptorCnt <= x < st.descriptorCnt + |ps|)
      && (forall i :: 0 <= i < |ps| ==> r.value.descriptors[st.descriptorCnt + i] == ps[i])
      && (forall fd :: fd in st.descriptors ==> r.value.descriptors[fd] == st.descriptors[fd])
      && r.value == st.(descriptorCnt := r.value.descriptorCnt, descriptors := r.value.descriptors,
                        preopenDirectories := r.value.preopenDirectories)
    decreases |ps|
  {
    if |ps| > 0 {
      var fd := st.descriptorCnt;
      var s := st.(descriptorCnt := fd + 1, descriptors := st.descriptors[fd := ps[0]]);
      var s' := s.(preopenDirectories := s.preopenDirectories + [fd]);
      assert CreateDescriptor(st, ps[0]) == Done((s, fd));
      CreateAllNumbers(s', ps[1..]);
      var r := CreateAll(s', ps[1..]).value;
      assert r.preopenDirectories == st.preopenDirectories + seq(|ps|, i => st.descriptorCnt + i);
      forall i | 0 <= i < |ps| ensures r.descriptors[st.descriptorCnt + i] == ps[i] {
        if i > 0 {
          assert st.descriptorCnt + i == s'.descriptorCnt + (i - 1);
        }
      }
    }
  }

  /** `FsState::initialize`: on the first call, a descriptor for every
      preopen in order (a preopen position outside the index panics);
      later calls change nothing. */
  function Initialize(st: FsState, preopens: seq<nat>, index: seq<Entry>): (r: Ret<FsState, ()>)
    ensures st.initialized ==> r == Done(st)
    ensures !st.initialized && (exists i :: 0 <= i < |preopens| && preopens[i] >= |index|) ==> r == Trap
    ensures r.Done? ==> r.value.initialized
    ensures r.Done? && Sane(st, index) ==> Sane(r.value, index)
  {
    if st.initialized then Done(st)
    else if exists i :: 0 <= i < |preopens| && preopens[i] >= |index| then Trap
    else
      CreateAllInRange(st, preopens, |index|);
      match CreateAll(st, preopens)
      case Done(s) => Done(s.(initialized := true))
      case _ => Trap
  }

  /** Descriptors created for positions below `n` point below `n`. */
  lemma {:induction false} CreateAllInRange(st: FsState, ps: seq<nat>, n: nat)
    ensures (forall fd :: fd in st.descriptors ==> st.descriptors[fd] < n)
            && (forall i :: 0 <= i < |ps| ==> ps[i] < n) && CreateAll(st, ps).Done? ==>
      forall fd :: fd in CreateAll(st, ps).value.descriptors ==> CreateAll(st, ps).value.descriptors[fd] < n
    decreases |ps|
  {
    if |ps| > 0 {
      match CreateDescriptor(st, ps[0])
      case Done((s, fd)) =>
        CreateAllInRange(s.(preopenDirectories := s.preopenDirectories + [fd]), ps[1..], n);
      case _ =>
    }
  }

  /** The first call hands the preopens descriptors 3, 4, 5, … in order,
      each pointing at its preopen's entry, and keeps the state good. */
  lemma InitializeNumbers(preopens: seq<nat>, index: seq<Entry>)
    requires AllSound(index) && forall i :: 0 <= i < |preopens| ==> preopens[i] < |index|
    ensures var r := Initialize(START, preopens, index);
      r.Done? && Good(r.value, index)
      && r.value.preopenDirectories == seq(|preopens|, i => FIRST_FD + i)
      && forall i :: 0 <= i < |preopens| ==> GetDescriptor(r.value, FIRST_FD + i) == Some(preopens[i])
  {
    CreateAllNumbers(START, preopens);
    var s := CreateAll(START, preopens).value;
    assert START.preopenDirectories + seq(|preopens|, i => START.descriptorCnt + i) == seq(|preopens|, i => FIRST_FD + i);
    forall fd | fd in s.descriptors ensures s.descriptors[fd] < |index| && fd < s.descriptorCnt {
      assert FIRST_FD <= fd < FIRST_FD + |preopens|;
      var i := fd - FIRST_FD;
      assert s.descriptors[START.descriptorCnt + i] == preopens[i];
    }
  }

  /** `get_preopen_directories`: after initializing, each preopen's
      descriptor and its entry's name; a preopen descriptor since dropped
      panics. */
  function GetPreopenDirectories(st: FsState, preopens: seq<nat>, index: seq<Entry>): (r: Ret<(FsState, seq<(nat, Bytes)>), ()>)
    requires Sane(st, index)
    ensures !r.Fail?
    ensures r.Done? ==> Sane(r.value.0, index)
    ensures r.Done? ==> |r.value.1| == |r.value.0.preopenDirectories|
    ensures r.Done? ==>
      forall i :: 0 <= i < |r.value.1| ==>
           r.value.1[i].0 == r.value.0.preopenDirectories[i]
           && GetDescriptor(r.value.0, r.value.1[i].0).Some?
           && r.value.1[i].1 == index[GetDescriptor(r.value.0, r.value.1[i].0).value].name
  {
    match Initialize(st, preopens, index)
    case Done(s) =>
      if exists i :: 0 <= i < |s.preopenDirectories| && s.preopenDirectories[i] !in s.descriptors then Trap
      else
        Done((s, seq(|s.preopenDirectories|, i requires 0 <= i < |s.preopenDirectories| =>
                   (s.preopenDirectories[i], index[s.descriptors[s.preopenDirectories[i]]].name))))
    case _ => Trap
  }

  /** `get_directories` on a fresh adapter: descriptor `3 + i` named after
      the `i`-th preopen's entry. */
  lemma PreopensListed(preopens: seq<nat>, index: seq<Entry>)
    requires AllSound(index) && forall i :: 0 <= i < |preopens| ==> preopens[i] < |index|
    ensures var r := GetPreopenDirectories(START, preopens, index);
      r.Done? && |r.value.1| == |preopens|
      && forall i :: 0 <= i < |preopens| ==> r.value.1[i] == (FIRST_FD + i, index[preopens[i]].name)
  {
    InitializeNumbers(preopens, index);
    var s := Initialize(START, preopens, index).value;
    forall i | 0 <= i < |s.preopenDirectories| ensures s.preopenDirectories[i] in s.descriptors {
      assert s.preopenDirectories[i] == FIRST_FD + i;
      assert GetDescriptor(s, FIRST_FD + i) == Some(preopens[i]);
    }
    var r := GetPreopenDirectories(START, preopens, index);
    assert r.Done? && r.value.0 == s;
    forall i | 0 <= i < |preopens| ensures r.value.1[i] == (FIRST_FD + i, index[preopens[i]].name) {
      assert s.preopenDirectories[i] == FIRST_FD + i;
      assert GetDescriptor(s, FIRST_FD + i) == Some(preopens[i]);
    }
  }

  // ---------------------------------------------------------------------
  // Entries

  /** `StaticIndexEntry::size`: a file's length, 0 for a directory; a
      runtime file is not implemented. */
  function Size(e: Entry): (r: Ret<nat, ()>)
    ensures !r.Fail?
    ensures r.Trap? <==> e.ty.RuntimeHostFile?
    ensures r.Done? && IoFiles.IsFile(e) ==> r.value == e.d1
    ensures r.Done? && !IoFiles.IsFile(e) ==> r.value == 0
  {
    match e.ty
    case ActiveFile => Done(e.d1)
    case PassiveFile => Done(e.d1)
    case DirEntry => Done(0)
    case RuntimeHostDir => Done(0)
    case RuntimeHostFile => Trap
  }

  /** `StaticIndexEntry::get_bytes`: a file's contents; anything else is
      not implemented. */
  function GetBytes(e: Entry): (r: Ret<Bytes, ()>)
    ensures !r.Fail?
    ensures r.Done? <==> IoFiles.IsFile(e)
    ensures r.Done? ==> r.value == e.bytes
  {
    if IoFiles.IsFile(e) then Done(e.bytes) else Trap
  }

  // ---------------------------------------------------------------------
  // Streams

  /** `FileStream::read` of up to `len` bytes of descriptor `fd` at
      `offset`: the bytes there and the offset moved past them, or `None`
      once nothing is left.  The remaining length is a 64-bit subtraction:
      past the end it wraps, so a read of zero bytes says `None` and any
      other read slices out of range. */
  function FileRead(st: FsState, index: seq<Entry>, fd: nat, offset: nat, len: nat): (r: Ret<(nat, Option<Bytes>), ()>)
    requires Sane(st, index)
    ensures GetDescriptor(st, fd).None? ==> r == Fail(())
    ensures GetDescriptor(st, fd).Some? && !IoFiles.IsFile(index[GetDescriptor(st, fd).value]) ==> r == Trap
    ensures GetDescriptor(st, fd).Some? && IoFiles.IsFile(index[GetDescriptor(st, fd).value])
            && offset <= |index[GetDescriptor(st, fd).value].bytes| ==>
      var data := index[GetDescriptor(st, fd).value].bytes;
      var k := IoFiles.Min(|data| - offset, len);
      (k == 0 ==> r == Done((offset, None)))
      && (k > 0 ==> r == Done((offset + k, Some(data[offset..offset + k]))))
  {
    match GetDescriptor(st, fd)
    case None => Fail(())
    case Some(p) =>
      var g := GetBytes(index[p]);
      if g.Trap? then Trap
      else
        var data := g.value;
        if offset > |data| then (if len == 0 then Done((offset, None)) else Trap)
        else
          var k := IoFiles.Min(|data| - offset, len);
          if k == 0 then Done((offset, None)) else Done((offset + k, Some(data[offset..offset + k])))
  }

  /** `blocking_read` of up to `len` bytes from stream `sid`: a file
      stream's next bytes with `false`, or nothing and `true` once the read
      says `None`; an unknown stream or a listing stream is an error. */
  function BlockingRead(st: FsState, index: seq<Entry>, sid: nat, len: nat): (r: Ret<(FsState, (Bytes, bool)), ()>)
    requires Sane(st, index)
    ensures GetStream(st, sid).None? || GetStream(st, sid).value.DirStream? ==> r == Fail(())
    ensures GetStream(st, sid).Some? && GetStream(st, sid).value.FileStream? ==>
      var FileStream(fd, off) := GetStream(st, sid).value;
      var f := FileRead(st, index, fd, off, len);
      (r.Done? <==> f.Done?) && (r.Trap? <==> f.Trap?)
      && (r.Done? ==>
            r.value.0 == st.(streams := st.streams[sid := FileStream(fd, f.value.0)])
            && r.value.1 == if f.value.1.Some? then (f.value.1.value, false) else ([], true))
  {
    match GetStream(st, sid)
    case Some(FileStream(fd, off)) =>
      (match FileRead(st, index, fd, off, len)
       case Done((off', chunk)) =>
         var s := st.(streams := st.streams[sid := FileStream(fd, off')]);
         if chunk.Some? then Done((s, (chunk.value, false))) else Done((s, ([], true)))
       case Fail(_) => Fail(())
       case Trap => Trap)
    case _ => Fail(())
  }

  /** A read of zero bytes reports the end of any file stream. */
  lemma ZeroLengthReadEnds(st: FsState, index: seq<Entry>, sid: nat, fd: nat, off: nat)
    requires Good(st, index) && GetStream(st, sid) == Some(FileStream(fd, off))
    requires GetDescriptor(st, fd).Some? && IoFiles.IsFile(index[GetDescriptor(st, fd).value])
    ensures var r := BlockingRead(st, index, sid, 0); r.Done? && r.value.1 == ([], true)
  {
  }

  /** What `blocking_read`s of `len` bytes on `sid` return in turn until
      one reports the end, at most `n` of them. */
  function ReadToEnd(st: FsState, index: seq<Entry>, sid: nat, len: nat, n: nat): Ret<Bytes, ()>
    requires Sane(st, index)
    decreases n
  {
    if n == 0 then Fail(())
    else
      match BlockingRead(st, index, sid, len)
      case Done((s, (b, true))) => Done(b)
      case Done((s, (b, false))) =>
        (match ReadToEnd(s, index, sid, len, n - 1)
         case Done(rest) => Done(b + rest)
         case other => other)
      case Fail(_) => Fail(())
      case Trap => Trap
  }

  /** A file stream at `off` of a static file, read `len > 0` bytes at a
      time, delivers the rest of the file within `size - off + 1` reads. */
  lemma {:induction false} ReadToEndIsRest(st: FsState, index: seq<Entry>, sid: nat, fd: nat, off: nat, len: nat, n: nat)
    requires Sane(st, index) && GetDescriptor(st, fd).Some? && IoFiles.IsFile(index[GetDescriptor(st, fd).value])
    requires GetStream(st, sid) == Some(FileStream(fd, off)) && off <= |index[GetDescriptor(st, fd).value].bytes| && len > 0
    requires n > |index[GetDescriptor(st, fd).value].bytes| - off
    ensures ReadToEnd(st, index, sid, len, n) == Done(index[GetDescriptor(st, fd).value].bytes[off..])
    decreases n
  {
    var data := index[GetDescriptor(st, fd).value].bytes;
    var k := IoFiles.Min(|data| - off, len);
    var s := st.(streams := st.streams[sid := FileStream(fd, off + k)]);
    if k == 0 {
      assert BlockingRead(st, index, sid, len) == Done((s, ([], true)));
      assert data[off..] == [];
    } else {
      assert BlockingRead(st, index, sid, len) == Done((s, (data[off..off + k], false)));
      assert GetDescriptor(s, fd) == GetDescriptor(st, fd);
      assert GetStream(s, sid) == Some(FileStream(fd, off + k));
      ReadToEndIsRest(s, index, sid, fd, off + k, len, n - 1);
      assert data[off..] == data[off..off + k] + data[off + k..];
    }
  }

  /** `DirStream::next` on descriptor `fd` at child `idx`: the child there,
      moving on by one, or nothing past the last without moving.  An
      unknown descriptor gives `BadDescriptor` and a file
      `NotDirectory`. */
  function DirNext(st: FsState, index: seq<Entry>, fd: nat, idx: nat): (r: Ret<(nat, Option<IoFiles.DirectoryEntry>), ErrorCode>)
    requires Sane(st, index)
    ensures GetDescriptor(st, fd).None? ==> r == Fail(BadDescriptor)
    ensures r.Done? ==> (r.value.0 == idx + 1 <==> r.value.1.Some?) && (r.value.1.None? ==> r.value.0 == idx)
    ensures GetDescriptor(st, fd).Some? && ChildList(index, GetDescriptor(st, fd).value, Absolute).Done? ==>
      var (lo, hi) := ChildList(index, GetDescriptor(st, fd).value, Absolute).value;
      (idx >= hi - lo ==> r == Done((idx, None)))
      && (idx < hi - lo ==>
            (r.Trap? <==> Ty(index[lo + idx], Absolute).Trap?)
            && (r.Done? ==> r.value.1 == Some(IoFiles.DirectoryEntry(Ty(index[lo + idx], Absolute).value, index[lo + idx].name))))
    ensures GetDescriptor(st, fd).Some? && ChildList(index, GetDescriptor(st, fd).value, Absolute).Fail? ==>
      r == Fail(NotDirectory)
  {
    match GetDescriptor(st, fd)
    case None => Fail(BadDescriptor)
    case Some(p) =>
      match ChildList(index, p, Absolute)
      case Trap => Trap
      case Fail(e) => Fail(e)
      case Done((lo, hi)) =>
        if idx < hi - lo then
          var t := Ty(index[lo + idx], Absolute);
          if t.Trap? then Trap else Done((idx + 1, Some(IoFiles.DirectoryEntry(t.value, index[lo + idx].name))))
        else Done((idx, None))
  }

  /** `read_directory_entry`: the next entry of a listing stream; an
      unknown stream or a file stream gives `BadDescriptor`. */
  function ReadDirectoryEntry(st: FsState, index: seq<Entry>, sid: nat): (r: Ret<(FsState, Option<IoFiles.DirectoryEntry>), ErrorCode>)
    requires Sane(st, index)
    ensures GetStream(st, sid).None? || GetStream(st, sid).value.FileStream? ==> r == Fail(BadDescriptor)
    ensures GetStream(st, sid).Some? && GetStream(st, sid).value.DirStream? ==>
      var DirStream(fd, idx) := GetStream(st, sid).value;
      var d := DirNext(st, index, fd, idx);
      (r.Done? <==> d.Done?) && (r.Trap? <==> d.Trap?) && (d.Fail? ==> r == Fail(d.error))
      && (r.Done? ==> r.value == (st.(streams := st.streams[sid := DirStream(fd, d.value.0)]), d.value.1))
  {
    match GetStream(st, sid)
    case Some(DirStream(fd, idx)) =>
      (match DirNext(st, index, fd, idx)
       case Done((idx', e)) => Done((st.(streams := st.streams[sid := DirStream(fd, idx')]), e))
       case Fail(e) => Fail(e)
       case Trap => Trap)
    case _ => Fail(BadDescriptor)
  }

  /** The entries `read_directory_entry` returns in `n` calls on `sid`. */
  function Listing(st: FsState, index: seq<Entry>, sid: nat, n: nat): Ret<seq<Option<IoFiles.DirectoryEntry>>, ErrorCode>
    requires Sane(st, index)
    decreases n
  {
    if n == 0 then Done([])
    else
      match ReadDirectoryEntry(st, index, sid)
      case Done((s, e)) =>
        (match Listing(s, index, sid, n - 1)
         case Done(es) => Done([e] + es)
         case other => other)
      case Fail(x) => Fail(x)
      case Trap => Trap
  }

  /** The window `[lo, hi)` holds no runtime entries. */
  predicate NoRuntime(index: seq<Entry>, lo: nat, hi: nat)
    requires lo <= hi <= |index|
  {
    forall i :: lo <= i < hi ==> !index[i].ty.RuntimeHostDir? && !index[i].ty.RuntimeHostFile?
  }

  /** The directory entries for the children at `[lo + k, hi)`. */
  function Children(index: seq<Entry>, lo: nat, hi: nat, k: nat): (r: seq<Option<IoFiles.DirectoryEntry>>)
    requires lo <= hi <= |index| && k <= hi - lo && NoRuntime(index, lo, hi)
    ensures |r| == hi - lo - k
    ensures forall i :: 0 <= i < |r| ==>
      r[i] == Some(IoFiles.DirectoryEntry(Ty(index[lo + k + i], Absolute).value, index[lo + k + i].name))
  {
    seq(hi - lo - k, i requires 0 <= i < hi - lo - k =>
      Some(IoFiles.DirectoryEntry(Ty(index[lo + k + i], Absolute).value, index[lo + k + i].name)))
  }

  /** `m` empty answers. */
  function Nones(m: nat): (r: seq<Option<IoFiles.DirectoryEntry>>)
    ensures |r| == m && forall i :: 0 <= i < m ==> r[i].None?
  {
    seq(m, _ => None)
  }

  /** A listing stream at child `k` of a directory without runtime
      children lists the children from `k` on in stored order and then
      nothing, and keeps listing nothing. */
  lemma {:induction false} ListingFrom(st: FsState, index: seq<Entry>, sid: nat, fd: nat, k: nat, m: nat)
    requires Sane(st, index) && GetStream(st, sid) == Some(DirStream(fd, k)) && GetDescriptor(st, fd).Some?
    requires ChildList(index, GetDescriptor(st, fd).value, Absolute).Done?
    requires var (lo, hi) := ChildList(index, GetDescriptor(st, fd).value, Absolute).value;
      k <= hi - lo && NoRuntime(index, lo, hi)
    ensures var (lo, hi) := ChildList(index, GetDescriptor(st, fd).value, Absolute).value;
      Listing(st, index, sid, hi - lo - k + m) == Done(Children(index, lo, hi, k) + Nones(m))
    decreases ToList(st, index, fd, k) + m
  {
    var (lo, hi) := ChildList(index, GetDescriptor(st, fd).value, Absolute).value;
    var cs := Children(index, lo, hi, k);
    if k < hi - lo {
      var s := st.(streams := st.streams[sid := DirStream(fd, k + 1)]);
      assert !index[lo + k].ty.RuntimeHostDir? && !index[lo + k].ty.RuntimeHostFile?;
      assert ReadDirectoryEntry(st, index, sid) == Done((s, cs[0]));
      assert GetDescriptor(s, fd) == GetDescriptor(st, fd);
      ListingFrom(s, index, sid, fd, k + 1, m);
      assert Children(index, lo, hi, k + 1) == cs[1..];
      assert cs + Nones(m) == [cs[0]] + (cs[1..] + Nones(m));
    } else {
      ListingExhausted(st, index, sid, fd, k, m);
      assert cs == [] && cs + Nones(m) == Nones(m);
    }
  }

  /** A listing stream past the last child answers nothing, call after
      call, and stays where it is. */
  lemma {:induction false} ListingExhausted(st: FsState, index: seq<Entry>, sid: nat, fd: nat, k: nat, m: nat)
    requires Sane(st, index) && GetStream(st, sid) == Some(DirStream(fd, k)) && GetDescriptor(st, fd).Some?
    requires ChildList(index, GetDescriptor(st, fd).value, Absolute).Done?
    requires var (lo, hi) := ChildList(index, GetDescriptor(st, fd).value, Absolute).value; k == hi - lo
    ensures Listing(st, index, sid, m) == Done(Nones(m))
    decreases m
  {
    if m > 0 {
      var none: Option<IoFiles.DirectoryEntry> := None;
      assert st.streams[sid := DirStream(fd, k)] == st.streams;
      assert ReadDirectoryEntry(st, index, sid) == Done((st, none));
      ListingExhausted(st, index, sid, fd, k, m - 1);
      assert Nones(m) == [none] + Nones(m - 1);
    }
  }

  /** The children still to list. */
  function ToList(st: FsState, index: seq<Entry>, fd: nat, k: nat): nat
    requires Sane(st, index)
  {
    if GetDescriptor(st, fd).Some? && ChildList(index, GetDescriptor(st, fd).value, Absolute).Done? then
      var (lo, hi) := ChildList(index, GetDescriptor(st, fd).value, Absolute).value;
      if k <= hi - lo then hi - lo - k else 0
    else 0
  }

  // ---------------------------------------------------------------------
  // Filesystem calls

  /** `read_via_stream`: a file stream on `fd` from the start; any other
      offset is `InvalidSeek`.  The descriptor is not looked at. */
  function ReadViaStream(st: FsState, fd: nat, offset: nat): (r: Result<(FsState, nat), ErrorCode>)
    ensures r.Err? <==> offset != 0
    ensures r.Err? ==> r.error == InvalidSeek
    ensures r.Ok? ==> r.value == CreateStream(st, FileStream(fd, 0))
  {
    if offset != 0 then Err(InvalidSeek) else Ok(CreateStream(st, FileStream(fd, 0)))
  }

  /** `get_type`. */
  function GetType(st: FsState, index: seq<Entry>, fd: nat): (r: Ret<DescriptorType, ErrorCode>)
    requires Sane(st, index)
    ensures GetDescriptor(st, fd).None? <==> r == Fail(BadDescriptor)
    ensures GetDescriptor(st, fd).Some? ==> r == Ty(index[GetDescriptor(st, fd).value], Absolute)
  {
    match GetDescriptor(st, fd)
    case None => Fail(BadDescriptor)
    case Some(p) => Ty(index[p], Absolute)
  }

  /** `read_directory`: a listing stream from the first child of a
      directory; an unknown descriptor gives `BadDescriptor`, a file
      `NotDirectory`. */
  function ReadDirectory(st: FsState, index: seq<Entry>, fd: nat): (r: Ret<(FsState, nat), ErrorCode>)
    requires Sane(st, index)
    ensures GetDescriptor(st, fd).None? ==> r == Fail(BadDescriptor)
    ensures GetDescriptor(st, fd).Some? && IoFiles.IsFile(index[GetDescriptor(st, fd).value]) ==> r == Fail(NotDirectory)
    ensures r.Trap? <==> GetDescriptor(st, fd).Some? && Ty(index[GetDescriptor(st, fd).value], Absolute).Trap?
    ensures r.Done? ==> index[GetDescriptor(st, fd).value].ty.DirEntry? && r.value == CreateStream(st, DirStream(fd, 0))
  {
    match GetDescriptor(st, fd)
    case None => Fail(BadDescriptor)
    case Some(p) =>
      match Ty(index[p], Absolute)
      case Done(t) => if t != Directory then Fail(NotDirectory) else Done(CreateStream(st, DirStream(fd, 0)))
      case _ => Trap
  }

  /** The stat of an entry: its type and size, no links and every
      timestamp zero. */
  function EntryStat(e: Entry): (r: Ret<IoFiles.DescriptorStat, ErrorCode>)
    requires Sound(e)
    ensures !r.Fail?
    ensures r.Trap? <==> e.ty.RuntimeHostDir? || e.ty.RuntimeHostFile?
    ensures r.Done? ==>
      r.value.linkCount == 0
      && r.value.accessed == IoFiles.EPOCH && r.value.modified == IoFiles.EPOCH && r.value.changed == IoFiles.EPOCH
      && (e.ty.DirEntry? ==> r.value.ty == Directory && r.value.size == 0)
      && (IoFiles.IsFile(e) ==> r.value.ty == RegularFile && r.value.size == |e.bytes|)
  {
    match Ty(e, Absolute)
    case Done(t) =>
      (match Size(e)
       case Done(n) => Done(IoFiles.DescriptorStat(t, 0, n, IoFiles.EPOCH, IoFiles.EPOCH, IoFiles.EPOCH))
       case _ => Trap)
    case _ => Trap
  }

  /** `stat`. */
  function Stat(st: FsState, index: seq<Entry>, fd: nat): (r: Ret<IoFiles.DescriptorStat, ErrorCode>)
    requires Sane(st, index)
    ensures GetDescriptor(st, fd).None? <==> r == Fail(BadDescriptor)
    ensures GetDescriptor(st, fd).Some? ==> r == EntryStat(index[GetDescriptor(st, fd).value])
  {
    match GetDescriptor(st, fd)
    case None => Fail(BadDescriptor)
    case Some(p) => EntryStat(index[p])
  }

  /** `stat_at`: the stat of what `path` names below `fd`. */
  function StatAt(st: FsState, index: seq<Entry>, fd: nat, path: Bytes): (r: Ret<IoFiles.DescriptorStat, ErrorCode>)
    requires Sane(st, index)
    ensures GetDescriptor(st, fd).None? ==> r == Fail(BadDescriptor)
    ensures GetDescriptor(st, fd).Some? ==>
      var l := DirLookup(index, GetDescriptor(st, fd).value, path, Absolute);
      (l.Fail? ==> r == Fail(l.error)) && (l.Trap? ==> r.Trap?)
      && (l.Done? ==> r == EntryStat(index[l.value]))
  {
    match GetDescriptor(st, fd)
    case None => Fail(BadDescriptor)
    case Some(p) =>
      match DirLookup(index, p, path, Absolute)
      case Done(q) => EntryStat(index[q])
      case Fail(e) => Fail(e)
      case Trap => Trap
  }

  /** `open_at`: a new descriptor for what `path` names below `fd`. */
  function OpenAt(st: FsState, index: seq<Entry>, fd: nat, path: Bytes): (r: Ret<(FsState, nat), ErrorCode>)
    requires Sane(st, index)
    ensures GetDescriptor(st, fd).None? ==> r == Fail(BadDescriptor)
    ensures GetDescriptor(st, fd).Some? ==>
      var l := DirLookup(index, GetDescriptor(st, fd).value, path, Absolute);
      (l.Fail? ==> r == Fail(l.error))
      && (l.Done? && !r.Trap? ==> r.Done? && GetDescriptor(r.value.0, r.value.1) == Some(l.value))
    ensures r.Done? ==> r.value.1 == st.descriptorCnt && r.value.0.descriptorCnt == st.descriptorCnt + 1
  {
    match GetDescriptor(st, fd)
    case None => Fail(BadDescriptor)
    case Some(p) =>
      match DirLookup(index, p, path, Absolute)
      case Done(q) =>
        (match CreateDescriptor(st, q)
         case Done(x) => Done(x)
         case _ => Trap)
      case Fail(e) => Fail(e)
      case Trap => Trap
  }

  /** The filesystem calls whose answer does not depend on the state. */
  datatype Call =
    | WriteViaStream | AppendViaStream | Advise | SyncData | GetFlags | SetSize | SetTimes
    | Read | Write | Sync | CreateDirectoryAt | SetTimesAt | LinkAt | ReadlinkAt
    | RemoveDirectoryAt | RenameAt | SymlinkAt | AccessAt | UnlinkFileAt
    | ChangeFilePermissionsAt | ChangeDirectoryPermissionsAt
    | LockShared | LockExclusive | TryLockShared | TryLockExclusive | Unlock

  /** What a constant call answers: nothing, or the descriptor flags. */
  datatype Answer = Unit | ReadOnlyFlags

  /** The calls the older adapter refuses with `Access`.  The other
      mutating calls (`set_times_at`, `remove_directory_at`, `rename_at`,
      `symlink_at`, `unlink_file_at`) are `todo!()` there. */
  predicate Changes(c: Call)
  {
    c.WriteViaStream? || c.AppendViaStream? || c.SetSize? || c.SetTimes? || c.Write?
    || c.CreateDirectoryAt? || c.LinkAt? || c.ChangeFilePermissionsAt? || c.ChangeDirectoryPermissionsAt?
  }

  predicate IsLock(c: Call)
  {
    c.LockShared? || c.LockExclusive? || c.TryLockShared? || c.TryLockExclusive? || c.Unlock?
  }

  /** The constant calls: the writers listed in `Changes` are refused
      with `Access`, locks succeed, the flags are read-only, and the rest
      are not implemented. */
  function Constant(c: Call): (r: Ret<Answer, ErrorCode>)
    ensures r == Fail(Access) <==> Changes(c)
    ensures r.Done? <==> IsLock(c) || c.GetFlags?
    ensures r.Done? ==> (r.value == ReadOnlyFlags <==> c.GetFlags?)
    ensures r.Trap? <==> !Changes(c) && !IsLock(c) && !c.GetFlags?
    ensures c.SetTimesAt? || c.RemoveDirectoryAt? || c.RenameAt? || c.SymlinkAt? || c.UnlinkFileAt? ==> r.Trap?
  {
    if c.GetFlags? then Done(ReadOnlyFlags)
    else if IsLock(c) then Done(Unit)
    else if Changes(c) then Fail(Access)
    else Trap
  }

  /** The stream calls other than `blocking_read` and
      `drop_input_stream`. */
  datatype StreamCall =
    | StreamRead | Skip | BlockingSkip | SubscribeToInputStream
    | StreamWrite | BlockingWrite | WriteZeroes | BlockingWriteZeroes
    | Splice | BlockingSplice | Forward | SubscribeToOutputStream | DropOutputStream

  predicate Writes(c: StreamCall)
  {
    c.StreamWrite? || c.BlockingWrite? || c.WriteZeroes? || c.BlockingWriteZeroes?
  }

  /** Writes give the stream error; everything else is not implemented. */
  function StreamConstant(c: StreamCall): (r: Ret<(), ()>)
    ensures !r.Done?
    ensures r.Fail? <==> Writes(c)
  {
    if Writes(c) then Fail(()) else Trap
  }

  // ---------------------------------------------------------------------
  // The state every call keeps

  /** Opening a path keeps the state good and, in a good state, only
      panics where the lookup does. */
  lemma OpenAtKeeps(st: FsState, index: seq<Entry>, fd: nat, path: Bytes)
    requires Good(st, index)
    ensures var r := OpenAt(st, index, fd, path);
      (r.Trap? ==> GetDescriptor(st, fd).Some? && DirLookup(index, GetDescriptor(st, fd).value, path, Absolute).Trap?)
      && (r.Done? ==> Good(r.value.0, index))
  {
    var r := OpenAt(st, index, fd, path);
    if r.Done? {
      var s := r.value.0;
      forall sid | sid in s.streams && s.streams[sid].FileStream? && s.streams[sid].offset > 0
        ensures s.streams[sid].fd < s.descriptorCnt
        ensures s.streams[sid].fd in s.descriptors ==>
          IoFiles.IsFile(index[s.descriptors[s.streams[sid].fd]]) && s.streams[sid].offset <= |index[s.descriptors[s.streams[sid].fd]].bytes|
      {
        assert st.streams[sid] == s.streams[sid];
      }
    }
  }

  /** Reading from a stream keeps the state good. */
  lemma BlockingReadKeeps(st: FsState, index: seq<Entry>, sid: nat, len: nat)
    requires Good(st, index)
    ensures var r := BlockingRead(st, index, sid, len); r.Done? ==> Good(r.value.0, index)
  {
  }

  /** In a good state a file stream's offset never passes the end of its
      file, so the remaining length never wraps and a read only panics on
      a descriptor that is not a file. */
  lemma BlockingReadNoWrap(st: FsState, index: seq<Entry>, sid: nat, len: nat)
    requires Good(st, index)
    ensures var r := BlockingRead(st, index, sid, len);
      r.Trap? <==> GetStream(st, sid).Some? && GetStream(st, sid).value.FileStream?
                   && GetDescriptor(st, GetStream(st, sid).value.fd).Some?
                   && !IoFiles.IsFile(index[GetDescriptor(st, GetStream(st, sid).value.fd).value])
  {
  }

  /** Opening streams and listing keep the state good. */
  lemma StreamsKeep(st: FsState, index: seq<Entry>, fd: nat, sid: nat, offset: nat)
    requires Good(st, index)
    ensures var r := ReadViaStream(st, fd, offset); r.Ok? ==> Good(r.value.0, index)
    ensures var r := ReadDirectory(st, index, fd); r.Done? ==> Good(r.value.0, index)
    ensures var r := ReadDirectoryEntry(st, index, sid); r.Done? ==> Good(r.value.0, index)
  {
  }

  /** Dropping keeps the state good. */
  lemma DropKeeps(st: FsState, index: seq<Entry>, fd: nat, sid: nat)
    requires Good(st, index)
    ensures Good(DropDescriptor(st, fd), index) && Good(DropStream(st, sid), index)
  {
  }
}
