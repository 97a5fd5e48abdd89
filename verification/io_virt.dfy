/** `create_io_virt` (`src/virt_io.rs`): configure stdio, resolve and lay
    out the virtual filesystem, stub what the configuration leaves unused,
    and patch the adapter's `io` static with where everything went. */
module IoVirt {
  import opened Results
  import opened Bytes
  import opened Wasm
  import WalrusOps
  import Data
  import Stdio
  import IoVirtStubs
  import Stubs
  import PolicyVirt
  import FsTree
  import FsBfs
  import FsIndex

  datatype IoError =
    | ModuleError(error: Error)
    | ResolveFailed(reason: FsTree.ResolveError)
    | DataFailed(dataError: Data.DataError)

  // ---------------------------------------------------------------------
  // The `io` static

  /** The adapter's `Io` static: five `u32` words at bytes 0, 4, 8, 12 and
      16 (preopen count, preopen indices address, index entry count, index
      address, flags). */
  const IO_STATIC_LEN: nat := 20

  /** The room `create_io_virt` makes for the static. */
  const FS_STATIC_LEN: nat := 16

  /** What is written into the static; the preopen count only when there
      is a filesystem configuration. */
  datatype Header = Header(preopenCount: Option<u32>, preopenAddr: u32, indexCount: u32, indexAddr: u32, flags: bv32)

  /** Grow a segment shorter than `off + len` to `off + len` plus the
      padding `4 - (off + len) % 4`, with zeros. */
  function Resize(seg: Bytes, off: nat, len: nat): (r: Bytes)
    ensures |r| >= |seg| && r[..|seg|] == seg
    ensures |r| >= off + len
    ensures forall i :: |seg| <= i < |r| ==> r[i] == 0
  {
    if |seg| < off + len then seg + Zeros(off + len + (4 - (off + len) % 4) - |seg|) else seg
  }

  /** The twenty bytes of the static: five little-endian words, the
      first left as it was when there is no preopen count to write. */
  function HeaderBytes(b: Bytes, off: nat, h: Header): (w: Bytes)
    requires off + IO_STATIC_LEN <= |b|
    ensures |w| == IO_STATIC_LEN
  {
    (if h.preopenCount.Some? then LE32(h.preopenCount.value) else b[off..off + 4])
      + LE32(h.preopenAddr) + LE32(h.indexCount) + LE32(h.indexAddr) + LE32(h.flags as int)
  }

  /** The five writes, which together overwrite `b[off..off+20]`. */
  function PutWords(b: Bytes, off: nat, h: Header): (r: Bytes)
    requires off + IO_STATIC_LEN <= |b|
    ensures |r| == |b|
  {
    Splice(b, off, HeaderBytes(b, off, h))
  }

  /** The header write as written: the segment is grown for a 16-byte
      static, yet 20 bytes are written; `None` where a write runs past the
      end of the segment and panics. */
  function WriteHeaderAsWritten(seg: Bytes, off: nat, h: Header): Option<Bytes>
  {
    var b := Resize(seg, off, FS_STATIC_LEN);
    if |b| < off + IO_STATIC_LEN then None else Some(PutWords(b, off, h))
  }

  /** The header write with room made for the whole static. */
  function WriteHeader(seg: Bytes, off: nat, h: Header): (r: Bytes)
    ensures |r| >= off + IO_STATIC_LEN && |r| >= |seg|
  {
    PutWords(Resize(seg, off, IO_STATIC_LEN), off, h)
  }

  /** A static that ends exactly 16 bytes into its segment makes the
      written header panic, while the corrected write fits. */
  lemma HeaderAsWrittenPanics(h: Header)
    ensures WriteHeaderAsWritten(Zeros(16), 0, h).None?
    ensures WriteHeaderAsWritten(Zeros(2), 2, h).None?
    ensures |WriteHeader(Zeros(16), 0, h)| >= IO_STATIC_LEN
  {
  }

  /** Where the segment already holds the whole static, the written and
      the corrected header writes agree. */
  lemma HeaderAsWrittenAgrees(seg: Bytes, off: nat, h: Header)
    requires off + IO_STATIC_LEN <= |seg|
    ensures WriteHeaderAsWritten(seg, off, h) == Some(WriteHeader(seg, off, h))
  {
  }

  /** What the adapter reads from the static. */
  datatype Io = Io(preopenCount: nat, preopenAddr: nat, indexCount: nat, indexAddr: nat, flags: bv32)

  function ReadIo(b: Bytes, off: nat): Io
    requires off + IO_STATIC_LEN <= |b|
  {
    Io(ReadLE32(b, off), ReadLE32(b, off + 4), ReadLE32(b, off + 8), ReadLE32(b, off + 12),
       ReadLE32(b, off + 16) as bv32)
  }

  /** A word read inside a spliced run is the word read from the run. */
  lemma ReadWord(b: Bytes, off: nat, w: Bytes, k: nat)
    requires off + |w| <= |b| && 4 * k + 4 <= |w|
    ensures ReadLE32(Splice(b, off, w), off + 4 * k) == ReadLE32(w, 4 * k)
  {
    var r := Splice(b, off, w);
    var i := off + 4 * k;
    assert r[off..off + |w|][4 * k] == w[4 * k];
    assert r[off..off + |w|][4 * k + 1] == w[4 * k + 1];
    assert r[off..off + |w|][4 * k + 2] == w[4 * k + 2];
    assert r[off..off + |w|][4 * k + 3] == w[4 * k + 3];
    assert r[i] == w[4 * k] && r[i + 1] == w[4 * k + 1] && r[i + 2] == w[4 * k + 2] && r[i + 3] == w[4 * k + 3];
  }

  /** Five four-byte words laid end to end. */
  lemma Words5(a: Bytes, b: Bytes, c: Bytes, d: Bytes, e: Bytes)
    requires |a| == 4 && |b| == 4 && |c| == 4 && |d| == 4 && |e| == 4
    ensures var w := a + b + c + d + e;
      w[0..4] == a && w[4..8] == b && w[8..12] == c && w[12..16] == d && w[16..20] == e
  {
  }

  /** The adapter reads back what was written; without a filesystem the
      preopen count is what the segment held there. */
  lemma WriteHeaderReads(seg: Bytes, off: nat, h: Header)
    ensures var r := WriteHeader(seg, off, h); var io := ReadIo(r, off);
      io.preopenCount == (if h.preopenCount.Some? then h.preopenCount.value
                          else ReadLE32(Resize(seg, off, IO_STATIC_LEN), off))
      && io.preopenAddr == h.preopenAddr && io.indexCount == h.indexCount
      && io.indexAddr == h.indexAddr && io.flags == h.flags
  {
    var b := Resize(seg, off, IO_STATIC_LEN);
    var c := if h.preopenCount.Some? then LE32(h.preopenCount.value) else b[off..off + 4];
    var w := HeaderBytes(b, off, h);
    var r := WriteHeader(seg, off, h);
    assert r == Splice(b, off, w);
    assert w == c + LE32(h.preopenAddr) + LE32(h.indexCount) + LE32(h.indexAddr) + LE32(h.flags as int);
    Words5(c, LE32(h.preopenAddr), LE32(h.indexCount), LE32(h.indexAddr), LE32(h.flags as int));
    assert ReadLE32(r, off) == (if h.preopenCount.Some? then h.preopenCount.value else ReadLE32(b, off)) by {
      ReadWord(b, off, w, 0);
      if h.preopenCount.Some? {
        ReadLE32Window(w, 0, h.preopenCount.value);
      } else {
        assert w[0..4] == b[off..off + 4];
        assert w[0] == b[off] && w[1] == b[off + 1] && w[2] == b[off + 2] && w[3] == b[off + 3];
      }
    }
    assert ReadLE32(r, off + 4) == h.preopenAddr by {
      ReadWord(b, off, w, 1);
      ReadLE32Window(w, 4, h.preopenAddr);
    }
    assert ReadLE32(r, off + 8) == h.indexCount by {
      ReadWord(b, off, w, 2);
      ReadLE32Window(w, 8, h.indexCount);
    }
    assert ReadLE32(r, off + 12) == h.indexAddr by {
      ReadWord(b, off, w, 3);
      ReadLE32Window(w, 12, h.indexAddr);
    }
    assert ReadLE32(r, off + 16) == h.flags as int by {
      ReadWord(b, off, w, 4);
      ReadLE32Window(w, 16, h.flags as int);
    }
  }

  /** Bytes outside the static keep their values. */
  lemma WriteHeaderKeeps(seg: Bytes, off: nat, h: Header, i: nat)
    requires i < |seg| && !(off <= i < off + IO_STATIC_LEN)
    ensures WriteHeader(seg, off, h)[i] == seg[i]
  {
    var b := Resize(seg, off, IO_STATIC_LEN);
    assert b[..|seg|][i] == seg[i];
  }

  // ---------------------------------------------------------------------
  // The steps

  /** The stdio step, then the filesystem resolved against the host. */
  function Configure(m: Module, fs: Option<FsTree.VirtFs>, stdio: Option<Stdio.VirtStdio>, host: Bytes -> FsTree.HostNode)
    : Result<(Module, Option<FsTree.VirtFs>), IoError>
  {
    match Stdio.StdioStep(m, stdio)
    case Err(e) => Err(ModuleError(e))
    case Ok(m1) =>
      if fs.None? then Ok((m1, None))
      else
        match FsTree.ResolveFs(fs.value, host)
        case Err(e) => Err(ResolveFailed(e))
        case Ok(f) => Ok((m1, Some(f)))
  }

  /** The visits of all preopens, in order. */
  function Visits(fs: Option<FsTree.VirtFs>): seq<FsBfs.Visit>
  {
    if fs.None? then [] else FsIndex.FlattenAll(fs.value.preopens)
  }

  function PreopenIndices(fs: Option<FsTree.VirtFs>): seq<u32>
  {
    if fs.None? then [] else FsIndex.PreopenIndices(fs.value.preopens)
  }

  function CutoffOf(fs: Option<FsTree.VirtFs>): nat
  {
    if fs.None? then FsIndex.DEFAULT_PASSIVE_CUTOFF else FsIndex.Cutoff(fs.value)
  }

  /** The index the adapter reads: starting at `p` in the image, entry
      `i` decodes to `es[i]`, which describes visit `i`. */
  predicate IndexAt(image: Data.Data, p: nat, es: seq<FsIndex.IndexEntry>, vs: seq<FsBfs.Visit>, cutoff: nat)
  {
    |es| == |vs| && p + 16 * |es| <= |image.bytes|
    && forall i :: 0 <= i < |es| ==>
         FsIndex.DecodeEntry(image.bytes, p + 16 * i) == Some(es[i])
         && FsIndex.Describes(image, cutoff, es[i], vs[i])
  }

  /** The preopen list the adapter reads: starting at `p` in the image,
      word `k` is the position among the visits of preopen `k`'s root. */
  predicate PreopensAt(image: Data.Data, p: nat, ps: seq<FsBfs.Named>, vs: seq<FsBfs.Visit>)
  {
    p + 4 * |ps| <= |image.bytes|
    && forall k :: 0 <= k < |ps| ==>
         var j := ReadLE32(image.bytes, p + 4 * k);
         j < |vs| && vs[j] == FsBfs.Visit(ps[k].0, ps[k].1, 1)
  }

  /** The entries linearized onto a fresh stack, then written as the
      index.  Gives the image, the entries, whether a runtime entry was
      met, and the index address; each entry decodes at its place above
      the stack pointer and describes its visit. */
  function Place(d0: Data.Data, cutoff: nat, vs: seq<FsBfs.Visit>): (r: Ret<(Data.Data, seq<FsIndex.IndexEntry>, bool, nat), IoError>)
    requires Data.Valid(d0) && d0.stackStart < U32_LIMIT && d0.passive == []
    ensures r.Done? ==> var (d2, es, runtime, indexAddr) := r.value;
      Data.Valid(d2) && d2.stackStart == d0.stackStart && |es| == |vs| && runtime == FsIndex.HasRuntime(vs)
      && indexAddr == d2.stackPtr && indexAddr + 16 * |es| <= d0.stackStart
      && IndexAt(d2, indexAddr, es, vs, cutoff)
    ensures r.Trap? ==> exists i :: 0 <= i < |vs| && !FsIndex.Storable(vs[i].entry)
  {
    match FsIndex.LinearizeAll(d0, cutoff, vs)
    case Fail(e) => Fail(DataFailed(e))
    case Trap => Trap
    case Done((d1, es, runtime)) =>
      match Data.WriteSlice(d1, FsIndex.IndexWords(es))
      case Err(e) => Fail(DataFailed(e))
      case Ok((d2, indexAddr)) =>
        PlaceIndexAll(d0, cutoff, vs, d1, es, runtime, d2, indexAddr);
        Done((d2, es, runtime, indexAddr))
  }

  /** The data section: a fresh stack and the entries placed on it; host
      passthrough is needed with host preopens or a runtime entry. */
  function Layout(fs: Option<FsTree.VirtFs>, stackStart: u32): (r: Ret<(Data.Data, seq<FsIndex.IndexEntry>, bool, nat), IoError>)
    ensures r.Done? ==> Data.Valid(r.value.0) && r.value.0.stackStart == stackStart
    ensures r.Done? ==> |r.value.1| == |Visits(fs)|
    ensures r.Done? ==> r.value.2 == ((fs.Some? && fs.value.hostPreopens) || FsIndex.HasRuntime(Visits(fs)))
    ensures r.Done? ==> var (d2, es, _, indexAddr) := r.value;
      indexAddr == d2.stackPtr && indexAddr + 16 * |es| <= stackStart
      && IndexAt(d2, indexAddr, es, Visits(fs), CutoffOf(fs))
  {
    assert IsU32(stackStart);
    match Place(Data.New(stackStart), CutoffOf(fs), Visits(fs))
    case Fail(e) => Fail(e)
    case Trap => Trap
    case Done((d2, es, runtime, indexAddr)) =>
      Done((d2, es, (fs.Some? && fs.value.hostPreopens) || runtime, indexAddr))
  }

  /** Without host passthrough the io imports (when stdio is disabled too)
      and the filesystem imports are stubbed. */
  function StubUnused(m: Module, passthrough: bool, disableStdio: bool): Result<Module, Error>
  {
    if passthrough then Ok(m)
    else
      match (if disableStdio then IoVirtStubs.StubIoVirt(m) else Ok(m))
      case Err(e) => Err(e)
      case Ok(m1) => IoVirtStubs.StubFsVirt(m1, true)
  }

  /** The imports `StubUnused` stubs without passthrough. */
  function UnusedKeys(disableStdio: bool): set<ImportName>
  {
    Stubs.Keys(IoVirtStubs.INLINE_FS_IMPORTS) + if disableStdio then Stubs.Keys(IoVirtStubs.INLINE_IO_IMPORTS) else {}
  }

  /** Without passthrough the filesystem imports are stubbed, and the io
      imports too when stdio is disabled; with it nothing changes. */
  lemma StubUnusedSpec(m: Module, passthrough: bool, disableStdio: bool)
    requires WellFormed(m)
    ensures passthrough ==> StubUnused(m, passthrough, disableStdio) == Ok(m)
    ensures !passthrough && !disableStdio ==> StubUnused(m, passthrough, disableStdio) == IoVirtStubs.StubFsVirt(m, true)
    ensures !passthrough && disableStdio && IoVirtStubs.StubIoVirt(m).Err? ==> StubUnused(m, passthrough, disableStdio).Err?
    ensures !passthrough && StubUnused(m, passthrough, disableStdio).Ok? ==>
      Stubs.StubbedAs(m, UnusedKeys(disableStdio), StubUnused(m, passthrough, disableStdio).value)
  {
    if !passthrough && StubUnused(m, passthrough, disableStdio).Ok? {
      var r := StubUnused(m, passthrough, disableStdio).value;
      if disableStdio {
        StubIoThenFs(m, r);
      } else {
        IoVirtStubs.StubFsVirtStubbed(m, true);
        SameKeys(m, Stubs.Keys(IoVirtStubs.INLINE_FS_IMPORTS), UnusedKeys(false), r);
      }
    }
  }

  lemma StubIoThenFs(m: Module, r: Module)
    requires WellFormed(m) && IoVirtStubs.StubIoVirt(m).Ok?
    requires IoVirtStubs.StubFsVirt(IoVirtStubs.StubIoVirt(m).value, true) == Ok(r)
    ensures Stubs.StubbedAs(m, UnusedKeys(true), r)
  {
    var ioKeys := Stubs.Keys(IoVirtStubs.INLINE_IO_IMPORTS);
    var fsKeys := Stubs.Keys(IoVirtStubs.INLINE_FS_IMPORTS);
    IoVirtStubs.StubIoVirtStubbed(m);
    var m1 := IoVirtStubs.StubIoVirt(m).value;
    IoVirtStubs.StubFsVirtStubbed(m1, true);
    Stubs.StubbedAsCompose(m, ioKeys, m1, fsKeys, r);
    SameKeys(m, ioKeys + fsKeys, UnusedKeys(true), r);
  }

  lemma SameKeys(m: Module, ks1: set<ImportName>, ks2: set<ImportName>, r: Module)
    requires ks1 == ks2 && Stubs.StubbedAs(m, ks1, r)
    ensures Stubs.StubbedAs(m, ks2, r)
  {
  }

  /** What `create_io_virt` produced: the module, the resolved
      filesystem configuration, where the `io` static is (segment and
      offset), what was written there, the index entries and the visits
      they were made from, and the final data-section image. */
  datatype Built = Built(
    m: Module,
    fs: Option<FsTree.VirtFs>,
    seg: nat,
    off: nat,
    header: Header,
    entries: seq<FsIndex.IndexEntry>,
    visits: seq<FsBfs.Visit>,
    image: Data.Data)

  /** The `io` static's segment with the header written into it. */
  function PlaceHeader(m: Module, seg: nat, off: nat, h: Header): (r: Module)
    requires seg < |m.data| && m.data[seg].ActiveSegment?
    ensures |r.data| == |m.data| && r.data[seg].ActiveSegment?
    ensures r.data[seg].value == WriteHeader(m.data[seg].value, off, h)
  {
    m.(data := m.data[seg := m.data[seg].(value := WriteHeader(m.data[seg].value, off, h))])
  }

  /** Everything after the layout: the `io` export's address, the stubs,
      the flags, the static's segment, the preopen list, the header and the
      stack segment.  `stubbed` is what `StubUnused` made of `m1`; it is
      looked at only once the `io` export's address has been read, as in
      the source. */
  function Emit(m1: Module, rfs: Option<FsTree.VirtFs>, hostPreopens: bool, stdio: Option<Stdio.VirtStdio>,
                stubbed: Result<Module, Error>, d2: Data.Data, es: seq<FsIndex.IndexEntry>, passthrough: bool, indexAddr: nat, memory: nat)
    : (r: Ret<Built, IoError>)
    requires Data.Valid(d2)
    ensures r.Done? ==> r.value.fs == rfs && r.value.entries == es && r.value.visits == Visits(rfs)
    ensures r.Done? ==>
      Data.WriteSlice(d2, PreopenIndices(rfs)).Ok?
      && r.value.image == Data.WriteSlice(d2, PreopenIndices(rfs)).value.0
    ensures r.Done? ==> StackSegment(r.value, memory)
  {
    match PolicyVirt.PtrAddr(m1, "io")
    case Err(e) => Fail(ModuleError(e))
    case Ok(ioAddr) =>
      match stubbed
      case Err(e) => Fail(ModuleError(e))
      case Ok(m3) =>
        var flags := Stdio.IoFlags(hostPreopens, stdio, passthrough);
        match WalrusOps.GetActiveDataSegment(m3, memory, ioAddr)
        case Err(e) => Fail(ModuleError(e))
        case Ok((seg, off)) =>
          match Data.WriteSlice(d2, PreopenIndices(rfs))
          case Err(e) => Fail(DataFailed(e))
          case Ok((d3, preopenAddr)) =>
            var count := if rfs.Some? then Some(FsIndex.Wrap32(|rfs.value.preopens|)) else None;
            var h := Header(count, FsIndex.Wrap32(preopenAddr), FsIndex.Wrap32(|es|), FsIndex.Wrap32(indexAddr), flags);
            match Data.FinishStack(d3, PlaceHeader(m3, seg, off, h), memory)
            case Fail(e) => Fail(ModuleError(e))
            case Trap => Trap
            case Done(m5) => Done(Built(m5, rfs, seg, off, h, es, Visits(rfs), d3))
  }

  /** `create_io_virt`, with the header write corrected; the host's
      filesystem, the stack start and the memory are inputs. */
  function CreateIoVirt(m: Module, fs: Option<FsTree.VirtFs>, stdio: Option<Stdio.VirtStdio>,
                        host: Bytes -> FsTree.HostNode, stackStart: u32, memory: nat): Ret<Built, IoError>
  {
    match Configure(m, fs, stdio, host)
    case Err(e) => Fail(e)
    case Ok((m1, rfs)) =>
      match Layout(rfs, stackStart)
      case Fail(e) => Fail(e)
      case Trap => Trap
      case Done((d2, es, passthrough, indexAddr)) =>
        Emit(m1, rfs, fs.Some? && fs.value.hostPreopens, stdio,
             StubUnused(m1, passthrough, Stdio.StdioFlags(0, stdio).1), d2, es, passthrough, indexAddr, memory)
  }

  // ---------------------------------------------------------------------
  // What the adapter finds

  /** The configuration is resolved against the host, and the visits are
      the walks of its preopens. */
  lemma CreateIoVirtResolves(m: Module, fs: Option<FsTree.VirtFs>, stdio: Option<Stdio.VirtStdio>,
                             host: Bytes -> FsTree.HostNode, stackStart: u32, memory: nat)
    requires CreateIoVirt(m, fs, stdio, host, stackStart, memory).Done?
    ensures var b := CreateIoVirt(m, fs, stdio, host, stackStart, memory).value;
      b.fs.Some? == fs.Some?
      && (fs.Some? ==> FsTree.ResolveFs(fs.value, host) == Ok(b.fs.value)
                       && b.fs.value.hostPreopens == fs.value.hostPreopens
                       && |b.fs.value.preopens| == |fs.value.preopens|)
      && b.visits == Visits(b.fs) && |b.entries| == |b.visits|
  {
    var (m1, rfs) := Configure(m, fs, stdio, host).value;
    if fs.Some? {
      FsTree.ResolveFsSound(fs.value, host);
    }
  }

  /** The header of `Emit`, read back from the module it returns. */
  lemma EmitHeader(m1: Module, rfs: Option<FsTree.VirtFs>, hostPreopens: bool, stdio: Option<Stdio.VirtStdio>,
                   stubbed: Result<Module, Error>, d2: Data.Data, es: seq<FsIndex.IndexEntry>, passthrough: bool, indexAddr: nat, memory: nat)
    requires Data.Valid(d2)
    requires Emit(m1, rfs, hostPreopens, stdio, stubbed, d2, es, passthrough, indexAddr, memory).Done?
    ensures var b := Emit(m1, rfs, hostPreopens, stdio, stubbed, d2, es, passthrough, indexAddr, memory).value;
      b.seg < |b.m.data| && b.m.data[b.seg].ActiveSegment?
      && b.off + IO_STATIC_LEN <= |b.m.data[b.seg].value|
      && b.entries == es && b.fs == rfs && b.visits == Visits(rfs)
      && b.header.flags == Stdio.IoFlags(hostPreopens, stdio, passthrough)
      && var io := ReadIo(b.m.data[b.seg].value, b.off);
      (rfs.Some? ==> io.preopenCount == FsIndex.Wrap32(|rfs.value.preopens|))
      && io.preopenAddr == b.header.preopenAddr && io.indexAddr == b.header.indexAddr
      && io.indexCount == FsIndex.Wrap32(|es|) && io.flags == b.header.flags
  {
    var ioAddr := PolicyVirt.PtrAddr(m1, "io").value;
    var m3 := stubbed.value;
    var (seg, off) := WalrusOps.GetActiveDataSegment(m3, memory, ioAddr).value;
    var (d3, preopenAddr) := Data.WriteSlice(d2, PreopenIndices(rfs)).value;
    var count := if rfs.Some? then Some(FsIndex.Wrap32(|rfs.value.preopens|)) else None;
    var h := Header(count, FsIndex.Wrap32(preopenAddr), FsIndex.Wrap32(|es|), FsIndex.Wrap32(indexAddr),
                    Stdio.IoFlags(hostPreopens, stdio, passthrough));
    var m4 := PlaceHeader(m3, seg, off, h);
    var m5 := Data.FinishStack(d3, m4, memory).value;
    assert m5.data[seg] == m4.data[seg] by {
      assert m5.data[..|m4.data|][seg] == m4.data[seg];
    }
    WriteHeaderReads(m3.data[seg].value, off, h);
  }

  /** The static holds the preopen count, the addresses and length of the
      preopen list and the index, and flags from which the adapter
      recovers the stdio configuration, whether host preopens are on, and
      whether anything needs the host. */
  lemma CreateIoVirtHeader(m: Module, fs: Option<FsTree.VirtFs>, stdio: Option<Stdio.VirtStdio>,
                           host: Bytes -> FsTree.HostNode, stackStart: u32, memory: nat, which: Stdio.StdStream)
    requires CreateIoVirt(m, fs, stdio, host, stackStart, memory).Done?
    ensures var b := CreateIoVirt(m, fs, stdio, host, stackStart, memory).value;
      b.seg < |b.m.data| && b.m.data[b.seg].ActiveSegment?
      && b.off + IO_STATIC_LEN <= |b.m.data[b.seg].value|
      && var io := ReadIo(b.m.data[b.seg].value, b.off);
      (fs.Some? ==> io.preopenCount == FsIndex.Wrap32(|fs.value.preopens|))
      && io.preopenAddr == b.header.preopenAddr && io.indexAddr == b.header.indexAddr
      && io.indexCount == FsIndex.Wrap32(|b.visits|)
      && Stdio.Decode(io.flags, which) == (if stdio.Some? then Stdio.Cfg(stdio.value, which) else Stdio.Deny)
      && Stdio.HostPreopens(io.flags) == (fs.Some? && fs.value.hostPreopens)
      && Stdio.HostPassthrough(io.flags) == ((fs.Some? && fs.value.hostPreopens) || FsIndex.HasRuntime(b.visits))
  {
    CreateIoVirtResolves(m, fs, stdio, host, stackStart, memory);
    var (m1, rfs) := Configure(m, fs, stdio, host).value;
    var (d2, es, passthrough, indexAddr) := Layout(rfs, stackStart).value;
    var hp := fs.Some? && fs.value.hostPreopens;
    EmitHeader(m1, rfs, hp, stdio, StubUnused(m1, passthrough, Stdio.StdioFlags(0, stdio).1), d2, es, passthrough, indexAddr, memory);
    Stdio.IoFlagsRoundTrip(hp, stdio, passthrough, which);
  }

  /** Entries linearized onto a fresh stack and written as the index:
      each decodes at its place and describes its visit. */
  lemma PlaceIndex(d0: Data.Data, cutoff: nat, vs: seq<FsBfs.Visit>, d1: Data.Data, es: seq<FsIndex.IndexEntry>,
                   runtime: bool, d2: Data.Data, indexAddr: nat, i: nat)
    requires Data.Valid(d0) && d0.stackStart < U32_LIMIT && d0.passive == []
    requires FsIndex.LinearizeAll(d0, cutoff, vs) == Done((d1, es, runtime))
    requires Data.WriteSlice(d1, FsIndex.IndexWords(es)) == Ok((d2, indexAddr))
    requires i < |vs|
    ensures FsIndex.DecodeEntry(d2.bytes, indexAddr + 16 * i) == Some(es[i])
    ensures FsIndex.Describes(d2, cutoff, es[i], vs[i])
  {
    assert indexAddr + 16 * |es| <= d0.stackStart by {
      assert |FsIndex.IndexWords(es)| == 4 * |es|;
      assert Data.U32_SIZE * |FsIndex.IndexWords(es)| == 16 * |es|;
    }
    assert FsIndex.DecodeEntry(d2.bytes, indexAddr + 16 * i) == Some(es[i]) by {
      FsIndex.WriteIndexReads(d1, es, i);
    }
    assert FsIndex.Describes(d2, cutoff, es[i], vs[i]) by {
      FsIndex.LinearizeAllDescribes(d0, cutoff, vs, i);
      FsIndex.DescribesKept(d1, d2, cutoff, es[i], vs[i]);
    }
  }

  lemma PlaceIndexAll(d0: Data.Data, cutoff: nat, vs: seq<FsBfs.Visit>, d1: Data.Data, es: seq<FsIndex.IndexEntry>,
                      runtime: bool, d2: Data.Data, indexAddr: nat)
    requires Data.Valid(d0) && d0.stackStart < U32_LIMIT && d0.passive == []
    requires FsIndex.LinearizeAll(d0, cutoff, vs) == Done((d1, es, runtime))
    requires Data.WriteSlice(d1, FsIndex.IndexWords(es)) == Ok((d2, indexAddr))
    ensures IndexAt(d2, indexAddr, es, vs, cutoff)
  {
    assert indexAddr + 16 * |es| <= |d2.bytes| by {
      assert |FsIndex.IndexWords(es)| == 4 * |es|;
      assert Data.U32_SIZE * |FsIndex.IndexWords(es)| == 16 * |es|;
    }
    forall i | 0 <= i < |vs|
      ensures FsIndex.DecodeEntry(d2.bytes, indexAddr + 16 * i) == Some(es[i]) && FsIndex.Describes(d2, cutoff, es[i], vs[i])
    {
      PlaceIndex(d0, cutoff, vs, d1, es, runtime, d2, indexAddr, i);
    }
  }



  /** `Emit` keeps the layout's image above the preopen list, whose
      address and the index's are in the header. */
  lemma EmitImage(m1: Module, rfs: Option<FsTree.VirtFs>, hostPreopens: bool, stdio: Option<Stdio.VirtStdio>,
                  stubbed: Result<Module, Error>, d2: Data.Data, es: seq<FsIndex.IndexEntry>, passthrough: bool, indexAddr: nat, memory: nat)
    requires Data.Valid(d2)
    requires Emit(m1, rfs, hostPreopens, stdio, stubbed, d2, es, passthrough, indexAddr, memory).Done?
    ensures var b := Emit(m1, rfs, hostPreopens, stdio, stubbed, d2, es, passthrough, indexAddr, memory).value;
      Data.Valid(b.image) && Data.Extends(d2, b.image)
      && b.header.preopenAddr == FsIndex.Wrap32(b.image.stackPtr)
      && b.header.indexAddr == FsIndex.Wrap32(indexAddr)
      && b.image.stackPtr + 4 * |PreopenIndices(rfs)| <= d2.stackPtr
  {
    var ioAddr := PolicyVirt.PtrAddr(m1, "io").value;
    var m3 := stubbed.value;
    var (seg, off) := WalrusOps.GetActiveDataSegment(m3, memory, ioAddr).value;
    var (d3, preopenAddr) := Data.WriteSlice(d2, PreopenIndices(rfs)).value;
    assert Data.U32_SIZE * |PreopenIndices(rfs)| == 4 * |PreopenIndices(rfs)|;
  }

  /** The module's last data segment is the image's used stack, from its
      8-aligned pointer up to the stack start, placed in `memory` at that
      pointer. */
  predicate StackSegment(b: Built, memory: nat)
  {
    Data.Valid(b.image) && Data.Pad8(b.image).Some? && |b.m.data| > 0
    && b.m.data[|b.m.data| - 1]
       == ActiveSegment(memory, Data.Pad8(b.image).value, b.image.bytes[Data.Pad8(b.image).value..b.image.stackStart])
  }

  /** `Emit` appends the used stack of its image, from the 8-aligned
      pointer up, as the last active segment. */
  lemma EmitStack(m1: Module, rfs: Option<FsTree.VirtFs>, hostPreopens: bool, stdio: Option<Stdio.VirtStdio>,
                  stubbed: Result<Module, Error>, d2: Data.Data, es: seq<FsIndex.IndexEntry>, passthrough: bool, indexAddr: nat, memory: nat)
    requires Data.Valid(d2)
    requires Emit(m1, rfs, hostPreopens, stdio, stubbed, d2, es, passthrough, indexAddr, memory).Done?
    ensures var b := Emit(m1, rfs, hostPreopens, stdio, stubbed, d2, es, passthrough, indexAddr, memory).value;
      b.image.stackStart == d2.stackStart && StackSegment(b, memory)
  {
  }

  /** The index, laid out above the stack pointer, survives the writes
      after it. */
  lemma IndexKept(d: Data.Data, d': Data.Data, p: nat, es: seq<FsIndex.IndexEntry>, vs: seq<FsBfs.Visit>, cutoff: nat)
    requires Data.Extends(d, d') && d.stackPtr <= p && IndexAt(d, p, es, vs, cutoff)
    ensures IndexAt(d', p, es, vs, cutoff)
  {
    forall i | 0 <= i < |es|
      ensures FsIndex.DecodeEntry(d'.bytes, p + 16 * i) == Some(es[i]) && FsIndex.Describes(d', cutoff, es[i], vs[i])
    {
      FsIndex.DecodeEntryKept(d, d', p + 16 * i);
      FsIndex.DescribesKept(d, d', cutoff, es[i], vs[i]);
    }
  }

  /** The intermediate results of a successful `CreateIoVirt`. */
  lemma CreateIoVirtSteps(m: Module, fs: Option<FsTree.VirtFs>, stdio: Option<Stdio.VirtStdio>,
                          host: Bytes -> FsTree.HostNode, stackStart: u32, memory: nat)
    returns (m1: Module, rfs: Option<FsTree.VirtFs>, d2: Data.Data, es: seq<FsIndex.IndexEntry>, passthrough: bool, indexAddr: nat)
    requires CreateIoVirt(m, fs, stdio, host, stackStart, memory).Done?
    ensures Configure(m, fs, stdio, host) == Ok((m1, rfs))
    ensures Layout(rfs, stackStart) == Done((d2, es, passthrough, indexAddr)) && Data.Valid(d2)
    ensures d2.stackStart == stackStart && |es| == |Visits(rfs)|
    ensures indexAddr == d2.stackPtr && indexAddr + 16 * |es| <= stackStart
    ensures IndexAt(d2, indexAddr, es, Visits(rfs), CutoffOf(rfs))
    ensures CreateIoVirt(m, fs, stdio, host, stackStart, memory)
            == Emit(m1, rfs, fs.Some? && fs.value.hostPreopens, stdio,
             StubUnused(m1, passthrough, Stdio.StdioFlags(0, stdio).1), d2, es, passthrough, indexAddr, memory)
  {
    m1 := Configure(m, fs, stdio, host).value.0;
    rfs := Configure(m, fs, stdio, host).value.1;
    var l := Layout(rfs, stackStart).value;
    d2, es, passthrough, indexAddr := l.0, l.1, l.2, l.3;
  }

  /** The layout's index survives `Emit`, whose header points at it. */
  lemma EmitIndex(m1: Module, rfs: Option<FsTree.VirtFs>, hostPreopens: bool, stdio: Option<Stdio.VirtStdio>,
                  stubbed: Result<Module, Error>, d2: Data.Data, es: seq<FsIndex.IndexEntry>, passthrough: bool, indexAddr: nat, memory: nat)
    requires Data.Valid(d2) && d2.stackStart < U32_LIMIT && indexAddr == d2.stackPtr
    requires Emit(m1, rfs, hostPreopens, stdio, stubbed, d2, es, passthrough, indexAddr, memory).Done?
    requires IndexAt(d2, indexAddr, es, Visits(rfs), CutoffOf(rfs))
    ensures var b := Emit(m1, rfs, hostPreopens, stdio, stubbed, d2, es, passthrough, indexAddr, memory).value;
      b.image.stackStart == d2.stackStart && b.image.stackPtr <= b.header.indexAddr
      && IndexAt(b.image, b.header.indexAddr, b.entries, b.visits, CutoffOf(b.fs))
  {
    var b := Emit(m1, rfs, hostPreopens, stdio, stubbed, d2, es, passthrough, indexAddr, memory).value;
    EmitImage(m1, rfs, hostPreopens, stdio, stubbed, d2, es, passthrough, indexAddr, memory);
    FsIndex.Wrap32Small(indexAddr);
    IndexKept(d2, b.image, indexAddr, es, Visits(rfs), CutoffOf(rfs));
  }

  /** The index lies in the image at the header's index address, above
      the image's stack pointer: entry `i` decodes to the entry made for
      visit `i`, which describes that visit. */
  lemma CreateIoVirtIndex(m: Module, fs: Option<FsTree.VirtFs>, stdio: Option<Stdio.VirtStdio>,
                          host: Bytes -> FsTree.HostNode, stackStart: u32, memory: nat)
    requires CreateIoVirt(m, fs, stdio, host, stackStart, memory).Done?
    ensures var b := CreateIoVirt(m, fs, stdio, host, stackStart, memory).value;
      b.image.stackStart == stackStart && b.image.stackPtr <= b.header.indexAddr
      && IndexAt(b.image, b.header.indexAddr, b.entries, b.visits, CutoffOf(b.fs))
  {
    var m1, rfs, d2, es, passthrough, indexAddr := CreateIoVirtSteps(m, fs, stdio, host, stackStart, memory);
    assert IsU32(stackStart);
    EmitIndex(m1, rfs, fs.Some? && fs.value.hostPreopens, stdio,
             StubUnused(m1, passthrough, Stdio.StdioFlags(0, stdio).1), d2, es, passthrough, indexAddr, memory);
  }

  /** A directory's children are the visits its entry points at. */
  lemma CreateIoVirtChildren(m: Module, fs: Option<FsTree.VirtFs>, stdio: Option<Stdio.VirtStdio>,
                             host: Bytes -> FsTree.HostNode, stackStart: u32, memory: nat, i: nat)
    requires CreateIoVirt(m, fs, stdio, host, stackStart, memory).Done?
    requires i < |CreateIoVirt(m, fs, stdio, host, stackStart, memory).value.visits|
    ensures FsBfs.ChildrenAt(CreateIoVirt(m, fs, stdio, host, stackStart, memory).value.visits, i)
  {
    CreateIoVirtResolves(m, fs, stdio, host, stackStart, memory);
    var b := CreateIoVirt(m, fs, stdio, host, stackStart, memory).value;
    FsIndex.FlattenAllChildren(b.fs.value.preopens, i);
  }

  /** Starting at `p`, word `k` of `bytes` reads back as `ws[k]`. */
  predicate WordsAt(bytes: Bytes, p: nat, ws: seq<u32>)
  {
    p + 4 * |ws| <= |bytes| && forall k :: 0 <= k < |ws| ==> ReadLE32(bytes, p + 4 * k) == ws[k]
  }

  /** `write_slice` leaves its words readable at the address it returns. */
  lemma SliceWords(d: Data.Data, ws: seq<u32>)
    requires Data.Valid(d) && Data.WriteSlice(d, ws).Ok?
    ensures WordsAt(Data.WriteSlice(d, ws).value.0.bytes, Data.WriteSlice(d, ws).value.1, ws)
  {
    forall k | 0 <= k < |ws|
      ensures ReadLE32(Data.WriteSlice(d, ws).value.0.bytes, Data.WriteSlice(d, ws).value.1 + 4 * k) == ws[k]
    {
      Data.WriteSliceReads(d, ws, k);
    }
  }

  /** The preopen indices, stored as words, point each preopen at its root
      visit. */
  lemma PreopensFrom(image: Data.Data, p: nat, ps: seq<FsBfs.Named>, vs: seq<FsBfs.Visit>)
    requires WordsAt(image.bytes, p, FsIndex.PreopenIndices(ps))
    requires vs == FsIndex.FlattenAll(ps) && |vs| < U32_LIMIT
    ensures PreopensAt(image, p, ps, vs)
  {
    forall k | 0 <= k < |ps|
      ensures var j := ReadLE32(image.bytes, p + 4 * k);
        j < |vs| && vs[j] == FsBfs.Visit(ps[k].0, ps[k].1, 1)
    {
      FsIndex.PreopenRoots(ps, k);
    }
  }

  /** `Emit`'s preopen list, at the header's preopen address, points at
      each preopen's root visit. */
  lemma EmitPreopens(m1: Module, rfs: Option<FsTree.VirtFs>, hostPreopens: bool, stdio: Option<Stdio.VirtStdio>,
                     stubbed: Result<Module, Error>, d2: Data.Data, es: seq<FsIndex.IndexEntry>, passthrough: bool, indexAddr: nat, memory: nat)
    requires Data.Valid(d2) && d2.stackStart < U32_LIMIT && rfs.Some? && |Visits(rfs)| < U32_LIMIT
    requires Emit(m1, rfs, hostPreopens, stdio, stubbed, d2, es, passthrough, indexAddr, memory).Done?
    ensures var b := Emit(m1, rfs, hostPreopens, stdio, stubbed, d2, es, passthrough, indexAddr, memory).value;
      PreopensAt(b.image, b.header.preopenAddr, rfs.value.preopens, b.visits)
  {
    var b := Emit(m1, rfs, hostPreopens, stdio, stubbed, d2, es, passthrough, indexAddr, memory).value;
    EmitImage(m1, rfs, hostPreopens, stdio, stubbed, d2, es, passthrough, indexAddr, memory);
    FsIndex.Wrap32Small(b.image.stackPtr);
    SliceWords(d2, PreopenIndices(rfs));
    PreopensFrom(b.image, b.header.preopenAddr, rfs.value.preopens, b.visits);
  }

  /** The tree half of the layout the adapter's lookup relies on: with
      the filesystem given as sorted, duplicate-free directories (the
      `BTreeMap`s of `FsEntry::Dir` and the preopen map), every visit the
      generator lays out has its children right behind it at its offset,
      in name order, and its own node is well formed. */
  lemma CreateIoVirtLaysTree(m: Module, fs: Option<FsTree.VirtFs>, stdio: Option<Stdio.VirtStdio>,
                             host: Bytes -> FsTree.HostNode, stackStart: u32, memory: nat, i: nat)
    requires CreateIoVirt(m, fs, stdio, host, stackStart, memory).Done?
    requires fs.Some? ==> FsTree.FsWellFormed(fs.value)
    requires i < |CreateIoVirt(m, fs, stdio, host, stackStart, memory).value.visits|
    ensures var vs := CreateIoVirt(m, fs, stdio, host, stackStart, memory).value.visits;
      FsBfs.ChildrenAt(vs, i) && FsTree.WellFormed(vs[i].entry)
  {
    CreateIoVirtChildren(m, fs, stdio, host, stackStart, memory, i);
    CreateIoVirtResolves(m, fs, stdio, host, stackStart, memory);
    var b := CreateIoVirt(m, fs, stdio, host, stackStart, memory).value;
    FsTree.ResolveFsSound(fs.value, host);
    FsIndex.WellFormedHereditary();
    FsIndex.FlattenAllKeeps(FsTree.WellFormed, b.fs.value.preopens, i);
  }

  /** Word `k` of the preopen list is where preopen `k`'s root was
      visited, with the preopen's name. */
  lemma CreateIoVirtPreopens(m: Module, fs: Option<FsTree.VirtFs>, stdio: Option<Stdio.VirtStdio>,
                             host: Bytes -> FsTree.HostNode, stackStart: u32, memory: nat)
    requires CreateIoVirt(m, fs, stdio, host, stackStart, memory).Done? && fs.Some?
    ensures var b := CreateIoVirt(m, fs, stdio, host, stackStart, memory).value;
      b.fs.Some? && |b.fs.value.preopens| == |fs.value.preopens|
      && (forall k :: 0 <= k < |fs.value.preopens| ==> b.fs.value.preopens[k].0 == fs.value.preopens[k].0)
      && PreopensAt(b.image, b.header.preopenAddr, b.fs.value.preopens, b.visits)
  {
    var m1, rfs, d2, es, passthrough, indexAddr := CreateIoVirtSteps(m, fs, stdio, host, stackStart, memory);
    FsTree.ResolveFsSound(fs.value, host);
    assert IsU32(stackStart);
    EmitPreopens(m1, rfs, fs.Some? && fs.value.hostPreopens, stdio,
             StubUnused(m1, passthrough, Stdio.StdioFlags(0, stdio).1), d2, es, passthrough, indexAddr, memory);
  }

  /** The image's used stack, from its 8-aligned pointer up to the stack
      start, is the module's last data segment, so the static data sits
      at the addresses the header gives. */
  lemma CreateIoVirtStack(m: Module, fs: Option<FsTree.VirtFs>, stdio: Option<Stdio.VirtStdio>,
                          host: Bytes -> FsTree.HostNode, stackStart: u32, memory: nat)
    requires CreateIoVirt(m, fs, stdio, host, stackStart, memory).Done?
    ensures var b := CreateIoVirt(m, fs, stdio, host, stackStart, memory).value;
      b.image.stackStart == stackStart && StackSegment(b, memory)
  {
    var m1, rfs, d2, es, passthrough, indexAddr := CreateIoVirtSteps(m, fs, stdio, host, stackStart, memory);
    EmitStack(m1, rfs, fs.Some? && fs.value.hostPreopens, stdio,
             StubUnused(m1, passthrough, Stdio.StdioFlags(0, stdio).1), d2, es, passthrough, indexAddr, memory);
  }
}
