/** The stub and strip functions `create_io_virt` itself calls: the ones
    written out in `src/virt_io.rs` (`stub_fs_virt`, `stub_io_virt`,
    `stub_stdio_virt`, `strip_stdio_virt`), which name the unversioned
    interfaces (`wasi:poll/poll`, `wasi:io/streams`, `wasi:cli/stdin`, ...).

    Each call `stub_imported_func(module, mod, name, flag)` becomes one
    table entry: a `true` flag must find the import, a `false` one stubs it
    only if present, and the filesystem's `uses_fs` flag is the
    `DependsOnFsUsage` requirement. */
module IoVirtStubs {
  import opened Results
  import opened Wasm
  import opened Stubs

  const FS_TYPES: string := "wasi:filesystem/types"
  const STREAMS: string := "wasi:io/streams"

  /** `stub_fs_virt` (`src/virt_io.rs` lines 569-645), in call order. */
  const INLINE_FS_IMPORTS: seq<Entry> := [
    Entry("wasi:filesystem/preopens", "get-directories", DependsOnFsUsage),
    Entry(FS_TYPES, "read-via-stream", DependsOnFsUsage),
    Entry(FS_TYPES, "write-via-stream", Optional),
    Entry(FS_TYPES, "append-via-stream", Optional),
    Entry(FS_TYPES, "advise", Optional),
    Entry(FS_TYPES, "sync-data", Optional),
    Entry(FS_TYPES, "get-flags", Optional),
    Entry(FS_TYPES, "get-type", DependsOnFsUsage),
    Entry(FS_TYPES, "set-size", Optional),
    Entry(FS_TYPES, "set-times", Optional),
    Entry(FS_TYPES, "read", DependsOnFsUsage),
    Entry(FS_TYPES, "write", Optional),
    Entry(FS_TYPES, "read-directory", Optional),
    Entry(FS_TYPES, "sync", Optional),
    Entry(FS_TYPES, "create-directory-at", Optional),
    Entry(FS_TYPES, "stat", DependsOnFsUsage),
    Entry(FS_TYPES, "stat-at", DependsOnFsUsage),
    Entry(FS_TYPES, "set-times-at", Optional),
    Entry(FS_TYPES, "link-at", Optional),
    Entry(FS_TYPES, "open-at", DependsOnFsUsage),
    Entry(FS_TYPES, "readlink-at", Optional),
    Entry(FS_TYPES, "remove-directory-at", Optional),
    Entry(FS_TYPES, "rename-at", Optional),
    Entry(FS_TYPES, "symlink-at", Optional),
    Entry(FS_TYPES, "access-at", Optional),
    Entry(FS_TYPES, "unlink-file-at", Optional),
    Entry(FS_TYPES, "change-file-permissions-at", Optional),
    Entry(FS_TYPES, "change-directory-permissions-at", Optional),
    Entry(FS_TYPES, "lock-shared", Optional),
    Entry(FS_TYPES, "lock-exclusive", Optional),
    Entry(FS_TYPES, "try-lock-shared", Optional),
    Entry(FS_TYPES, "try-lock-exclusive", Optional),
    Entry(FS_TYPES, "unlock", Optional),
    Entry(FS_TYPES, "drop-descriptor", DependsOnFsUsage),
    Entry(FS_TYPES, "read-directory-entry", DependsOnFsUsage),
    Entry(FS_TYPES, "drop-directory-entry-stream", DependsOnFsUsage),
    Entry(FS_TYPES, "is-same-object", DependsOnFsUsage),
    Entry(FS_TYPES, "metadata-hash", Optional),
    Entry(FS_TYPES, "metadata-hash-at", Optional)
  ]

  /** `stub_io_virt` (`src/virt_io.rs` lines 647-671), in call order. */
  const INLINE_IO_IMPORTS: seq<Entry> := [
    Entry("wasi:poll/poll", "drop-pollable", Required),
    Entry("wasi:poll/poll", "poll-oneoff", Required),
    Entry(STREAMS, "read", Optional),
    Entry(STREAMS, "blocking-read", Required),
    Entry(STREAMS, "skip", Required),
    Entry(STREAMS, "blocking-skip", Required),
    Entry(STREAMS, "subscribe-to-input-stream", Required),
    Entry(STREAMS, "drop-input-stream", Required),
    Entry(STREAMS, "write", Required),
    Entry(STREAMS, "blocking-write", Optional),
    Entry(STREAMS, "write-zeroes", Required),
    Entry(STREAMS, "blocking-write-zeroes", Required),
    Entry(STREAMS, "splice", Required),
    Entry(STREAMS, "blocking-splice", Required),
    Entry(STREAMS, "forward", Required),
    Entry(STREAMS, "subscribe-to-output-stream", Required),
    Entry(STREAMS, "drop-output-stream", Required)
  ]

  /** `stub_stdio_virt` (`src/virt_io.rs` lines 680-715): nothing required. */
  const INLINE_STDIO_IMPORTS: seq<Entry> := [
    Entry("wasi:cli/stdin", "get-stdin", Optional),
    Entry("wasi:cli/stdout", "get-stdout", Optional),
    Entry("wasi:cli/stderr", "get-stderr", Optional),
    Entry("wasi:cli/terminal-stdin", "get-terminal-stdin", Optional),
    Entry("wasi:cli/terminal-stdout", "get-terminal-stdout", Optional),
    Entry("wasi:cli/terminal-stderr", "get-terminal-stderr", Optional),
    Entry("wasi:cli/terminal-input", "drop-terminal-input", Optional),
    Entry("wasi:cli/terminal-output", "drop-terminal-output", Optional)
  ]

  /** The exports `strip_stdio_virt` removes (`src/virt_io.rs` lines 950-961). */
  const INLINE_STDIO_EXPORTS: seq<string> := [
    "wasi:cli/stdin#get-stdin",
    "wasi:cli/stdout#get-stdout",
    "wasi:cli/stderr#get-stderr",
    "wasi:cli/terminal-stdin#get-terminal-stdin",
    "wasi:cli/terminal-stdout#get-terminal-stdout",
    "wasi:cli/terminal-stderr#get-terminal-stderr",
    "wasi:cli/terminal-input#drop-terminal-input",
    "wasi:cli/terminal-output#drop-terminal-output"
  ]

  /** The flag of each call: `true` must stub, `false` stubs if present,
      `uses_fs` is one or the other. */
  function Flag(req: StubRequirement, usesFs: bool): Action
  {
    match req
    case Required => MustStub
    case Optional => StubIfPresent
    case DependsOnFsUsage => if usesFs then MustStub else StubIfPresent
  }

  /** The flags of the tables without `uses_fs`. */
  function Fixed(req: StubRequirement): Action
  {
    Flag(req, false)
  }

  function FsFlags(usesFs: bool): StubRequirement -> Action
  {
    (r: StubRequirement) => Flag(r, usesFs)
  }

  function StubFsVirt(m: Module, usesFs: bool): Result<Module, Error>
  {
    StubAll(m, INLINE_FS_IMPORTS, FsFlags(usesFs))
  }

  function StubIoVirt(m: Module): Result<Module, Error>
  {
    StubAll(m, INLINE_IO_IMPORTS, Fixed)
  }

  function StubStdioVirt(m: Module): Result<Module, Error>
  {
    StubAll(m, INLINE_STDIO_IMPORTS, Fixed)
  }

  function StripStdioVirt(m: Module): Result<Module, Error>
  {
    StripAll(m, INLINE_STDIO_IMPORTS, Fixed, INLINE_STDIO_EXPORTS)
  }

  // ---------------------------------------------------------------------
  // Properties

  lemma TableShape()
    ensures |INLINE_FS_IMPORTS| == 39 && |INLINE_IO_IMPORTS| == 17
    ensures |INLINE_STDIO_IMPORTS| == 8 && |INLINE_STDIO_EXPORTS| == 8
    ensures forall i :: 0 <= i < |INLINE_STDIO_IMPORTS| ==> INLINE_STDIO_IMPORTS[i].req == Optional
    ensures forall i :: 0 <= i < |INLINE_FS_IMPORTS| ==> INLINE_FS_IMPORTS[i].req != Required
  {
  }

  /** `stub_fs_virt`: a success stubs exactly the listed imports; with the
      filesystem in use a missing filesystem-dependent import is an error;
      with it unused, stubbing cannot fail. */
  lemma StubFsVirtSpec(m: Module, usesFs: bool)
    requires WellFormed(m)
    ensures StubFsVirt(m, usesFs).Ok? ==> StubbedAs(m, Keys(INLINE_FS_IMPORTS), StubFsVirt(m, usesFs).value)
    ensures usesFs && (exists i :: 0 <= i < |INLINE_FS_IMPORTS| && INLINE_FS_IMPORTS[i].req == DependsOnFsUsage
                                   && Key(INLINE_FS_IMPORTS[i]) !in m.imports)
            ==> StubFsVirt(m, usesFs).Err?
    ensures !usesFs ==> StubFsVirt(m, usesFs).Ok?
  {
    var t := INLINE_FS_IMPORTS;
    var policy := FsFlags(usesFs);
    StubAllSpec(m, t, policy);
    if usesFs && exists i :: 0 <= i < |t| && t[i].req == DependsOnFsUsage && Key(t[i]) !in m.imports {
      var i :| 0 <= i < |t| && t[i].req == DependsOnFsUsage && Key(t[i]) !in m.imports;
      StubAllMissing(m, t, policy, i);
    }
    if !usesFs {
      TableShape();
      StubAllOptional(m, t, policy);
    }
  }

  /** `stub_io_virt`: a success stubs exactly the listed imports, and a
      missing required one (`drop-pollable`, `blocking-read`, ...) is an
      error. */
  lemma StubIoVirtSpec(m: Module)
    requires WellFormed(m)
    ensures StubIoVirt(m).Ok? ==> StubbedAs(m, Keys(INLINE_IO_IMPORTS), StubIoVirt(m).value)
    ensures (exists i :: 0 <= i < |INLINE_IO_IMPORTS| && INLINE_IO_IMPORTS[i].req == Required
                         && Key(INLINE_IO_IMPORTS[i]) !in m.imports) ==> StubIoVirt(m).Err?
  {
    var t := INLINE_IO_IMPORTS;
    var policy := Fixed;
    StubAllSpec(m, t, policy);
    if exists i :: 0 <= i < |t| && t[i].req == Required && Key(t[i]) !in m.imports {
      var i :| 0 <= i < |t| && t[i].req == Required && Key(t[i]) !in m.imports;
      StubAllMissing(m, t, policy, i);
    }
  }

  /** The two facts composing `stub_io_virt` with `stub_fs_virt` needs. */
  lemma StubIoVirtStubbed(m: Module)
    requires WellFormed(m) && StubIoVirt(m).Ok?
    ensures WellFormed(StubIoVirt(m).value)
    ensures StubbedAs(m, Keys(INLINE_IO_IMPORTS), StubIoVirt(m).value)
  {
    StubAllSpec(m, INLINE_IO_IMPORTS, Fixed);
  }

  lemma StubFsVirtStubbed(m: Module, usesFs: bool)
    requires WellFormed(m) && StubFsVirt(m, usesFs).Ok?
    ensures StubbedAs(m, Keys(INLINE_FS_IMPORTS), StubFsVirt(m, usesFs).value)
  {
    StubAllSpec(m, INLINE_FS_IMPORTS, FsFlags(usesFs));
  }

  /** `stub_stdio_virt` always succeeds and stubs exactly the listed
      imports that are present. */
  lemma StubStdioVirtSpec(m: Module)
    requires WellFormed(m)
    ensures StubStdioVirt(m).Ok?
    ensures StubbedAs(m, Keys(INLINE_STDIO_IMPORTS), StubStdioVirt(m).value)
  {
    TableShape();
    StubAllOptional(m, INLINE_STDIO_IMPORTS, Fixed);
    StubAllSpec(m, INLINE_STDIO_IMPORTS, Fixed);
  }

  /** `strip_stdio_virt`: the stubbed module without the stdio exports, and
      an error naming the first export that is missing. */
  lemma StripStdioVirtSpec(m: Module)
    requires WellFormed(m)
    ensures StripStdioVirt(m).Ok? ==>
      StripStdioVirt(m).value == StubStdioVirt(m).value.(exports := m.exports - set i | 0 <= i < |INLINE_STDIO_EXPORTS| :: INLINE_STDIO_EXPORTS[i])
    ensures (exists i :: 0 <= i < |INLINE_STDIO_EXPORTS| && INLINE_STDIO_EXPORTS[i] !in m.exports) ==> StripStdioVirt(m).Err?
    ensures StripStdioVirt(m).Err? ==>
      exists i :: 0 <= i < |INLINE_STDIO_EXPORTS| && StripStdioVirt(m).error == MissingExport(INLINE_STDIO_EXPORTS[i])
  {
    StubStdioVirtSpec(m);
    StripAllSpec(m, INLINE_STDIO_IMPORTS, Fixed, INLINE_STDIO_EXPORTS);
    RemoveAllSpec(StubStdioVirt(m).value, INLINE_STDIO_EXPORTS);
  }
}
