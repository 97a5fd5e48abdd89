/** The six subsystem tables of `src/virt_io/` and their stub and strip
    entry points, each an instance of the shared loop in `Stubs`. */
module Subsystems {
  import opened Results
  import opened Wasm
  import opened Stubs

  /** Consecutive table entries that share a module and a requirement. */
  function Group(modName: string, req: StubRequirement, names: seq<string>): (r: seq<Entry>)
    ensures |r| == |names|
    ensures forall i :: 0 <= i < |r| ==> r[i] == Entry(modName, names[i], req)
  {
    seq(|names|, i requires 0 <= i < |names| => Entry(modName, names[i], req))
  }

  /** `WASI_FS_IMPORTS` (`src/virt_io/filesystem.rs` lines 10-205). */
  const WASI_FS_IMPORTS: seq<Entry> :=
    Group("wasi:filesystem/types@0.2.0-rc-2023-10-18", Optional, [
      "[method]descriptor.access-at",
      "[method]descriptor.advise",
      "[method]descriptor.append-via-stream",
      "[method]descriptor.change-directory-permissions-at",
      "[method]descriptor.change-file-permissions-at",
      "[method]descriptor.create-directory-at",
      "[method]descriptor.get-flags",
      "[method]descriptor.link-at",
      "[method]descriptor.lock-exclusive",
      "[method]descriptor.lock-shared",
      "[method]descriptor.metadata-hash",
      "[method]descriptor.metadata-hash-at",
      "[method]descriptor.read-directory",
      "[method]descriptor.readlink-at",
      "[method]descriptor.remove-directory-at",
      "[method]descriptor.rename-at",
      "[method]descriptor.set-size",
      "[method]descriptor.set-times",
      "[method]descriptor.set-times-at",
      "[method]descriptor.symlink-at",
      "[method]descriptor.sync",
      "[method]descriptor.sync-data",
      "[method]descriptor.try-lock-exclusive",
      "[method]descriptor.try-lock-shared",
      "[method]descriptor.unlink-file-at",
      "[method]descriptor.unlock",
      "[method]descriptor.write",
      "[method]descriptor.write-via-stream"
    ])
    + Group("wasi:filesystem/preopens@0.2.0-rc-2023-10-18", DependsOnFsUsage, [
      "get-directories"
    ])
    + Group("wasi:filesystem/types@0.2.0-rc-2023-10-18", DependsOnFsUsage, [
      "[resource-drop]descriptor",
      "[resource-drop]directory-entry-stream",
      "[method]descriptor.get-type",
      "[method]descriptor.is-same-object",
      "[method]descriptor.open-at"
    ])
    + Group("wasi:filesystem/types@0.2.0-rc-2023-10-18", Optional, [
      "[method]descriptor.read"
    ])
    + Group("wasi:filesystem/types@0.2.0-rc-2023-10-18", DependsOnFsUsage, [
      "[method]directory-entry-stream.read-directory-entry",
      "[method]descriptor.read-via-stream",
      "[method]descriptor.stat",
      "[method]descriptor.stat-at"
    ])

  /** `WASI_FILESYSTEM_EXPORTS` (`src/virt_io/filesystem.rs` lines 249-288). */
  const WASI_FILESYSTEM_EXPORTS: seq<string> := [
    "wasi:filesystem/preopens@0.2.0-rc-2023-10-18#get-directories",
    "wasi:filesystem/types@0.2.0-rc-2023-10-18#[method]descriptor.read-via-stream",
    "wasi:filesystem/types@0.2.0-rc-2023-10-18#[method]descriptor.write-via-stream",
    "wasi:filesystem/types@0.2.0-rc-2023-10-18#[method]descriptor.append-via-stream",
    "wasi:filesystem/types@0.2.0-rc-2023-10-18#[method]descriptor.advise",
    "wasi:filesystem/types@0.2.0-rc-2023-10-18#[method]descriptor.sync-data",
    "wasi:filesystem/types@0.2.0-rc-2023-10-18#[method]descriptor.get-flags",
    "wasi:filesystem/types@0.2.0-rc-2023-10-18#[method]descriptor.get-type",
    "wasi:filesystem/types@0.2.0-rc-2023-10-18#[method]descriptor.set-size",
    "wasi:filesystem/types@0.2.0-rc-2023-10-18#[method]descriptor.set-times",
    "wasi:filesystem/types@0.2.0-rc-2023-10-18#[method]descriptor.read",
    "wasi:filesystem/types@0.2.0-rc-2023-10-18#[method]descriptor.write",
    "wasi:filesystem/types@0.2.0-rc-2023-10-18#[method]descriptor.read-directory",
    "wasi:filesystem/types@0.2.0-rc-2023-10-18#[method]descriptor.sync",
    "wasi:filesystem/types@0.2.0-rc-2023-10-18#[method]descriptor.create-directory-at",
    "wasi:filesystem/types@0.2.0-rc-2023-10-18#[method]descriptor.stat",
    "wasi:filesystem/types@0.2.0-rc-2023-10-18#[method]descriptor.stat-at",
    "wasi:filesystem/types@0.2.0-rc-2023-10-18#[method]descriptor.set-times-at",
    "wasi:filesystem/types@0.2.0-rc-2023-10-18#[method]descriptor.link-at",
    "wasi:filesystem/types@0.2.0-rc-2023-10-18#[method]descriptor.open-at",
    "wasi:filesystem/types@0.2.0-rc-2023-10-18#[method]descriptor.readlink-at",
    "wasi:filesystem/types@0.2.0-rc-2023-10-18#[method]descriptor.remove-directory-at",
    "wasi:filesystem/types@0.2.0-rc-2023-10-18#[method]descriptor.rename-at",
    "wasi:filesystem/types@0.2.0-rc-2023-10-18#[method]descriptor.symlink-at",
    "wasi:filesystem/types@0.2.0-rc-2023-10-18#[method]descriptor.access-at",
    "wasi:filesystem/types@0.2.0-rc-2023-10-18#[method]descriptor.unlink-file-at",
    "wasi:filesystem/types@0.2.0-rc-2023-10-18#[method]descriptor.change-file-permissions-at",
    "wasi:filesystem/types@0.2.0-rc-2023-10-18#[method]descriptor.change-directory-permissions-at",
    "wasi:filesystem/types@0.2.0-rc-2023-10-18#[method]descriptor.lock-shared",
    "wasi:filesystem/types@0.2.0-rc-2023-10-18#[method]descriptor.lock-exclusive",
    "wasi:filesystem/types@0.2.0-rc-2023-10-18#[method]descriptor.try-lock-shared",
    "wasi:filesystem/types@0.2.0-rc-2023-10-18#[method]descriptor.try-lock-exclusive",
    "wasi:filesystem/types@0.2.0-rc-2023-10-18#[method]descriptor.unlock",
    "wasi:filesystem/types@0.2.0-rc-2023-10-18#[method]descriptor.metadata-hash",
    "wasi:filesystem/types@0.2.0-rc-2023-10-18#[method]descriptor.metadata-hash-at",
    "wasi:filesystem/types@0.2.0-rc-2023-10-18#[method]descriptor.is-same-object",
    "wasi:filesystem/types@0.2.0-rc-2023-10-18#[dtor]descriptor",
    "wasi:filesystem/types@0.2.0-rc-2023-10-18#[method]directory-entry-stream.read-directory-entry",
    "wasi:filesystem/types@0.2.0-rc-2023-10-18#[dtor]directory-entry-stream"
  ]

  /** `WASI_IO_IMPORTS` (`src/virt_io/io.rs` lines 9-115). */
  const WASI_IO_IMPORTS: seq<Entry> :=
    Group("wasi:io/streams@0.2.0", Optional, [
      "[method]output-stream.blocking-flush"
    ])
    + Group("wasi:io/streams@0.2.0", Required, [
      "[method]input-stream.blocking-read",
      "[method]input-stream.blocking-skip",
      "[method]output-stream.blocking-splice"
    ])
    + Group("wasi:io/streams@0.2.0", Optional, [
      "[method]output-stream.blocking-write-and-flush",
      "[method]output-stream.check-write"
    ])
    + Group("wasi:io/streams@0.2.0", Required, [
      "[resource-drop]input-stream",
      "[resource-drop]output-stream"
    ])
    + Group("wasi:io/streams@0.2.0", Optional, [
      "[method]output-stream.flush",
      "[method]input-stream.read"
    ])
    + Group("wasi:io/streams@0.2.0", Required, [
      "[method]input-stream.skip",
      "[method]output-stream.splice",
      "[method]input-stream.subscribe",
      "[method]output-stream.subscribe",
      "[method]output-stream.write",
      "[method]output-stream.write-zeroes",
      "[method]output-stream.blocking-write-zeroes-and-flush"
    ])
    + Group("wasi:io/error@0.2.0", Required, [
      "[resource-drop]error"
    ])
    + Group("wasi:io/poll@0.2.0", Required, [
      "[method]pollable.ready",
      "[method]pollable.block",
      "[resource-drop]pollable",
      "poll"
    ])

  /** `WASI_IO_EXPORTS` (`src/virt_io/io.rs` lines 156-179). */
  const WASI_IO_EXPORTS: seq<string> := [
    "wasi:io/streams@0.2.0#[method]output-stream.blocking-flush",
    "wasi:io/streams@0.2.0#[method]input-stream.blocking-read",
    "wasi:io/streams@0.2.0#[method]input-stream.blocking-skip",
    "wasi:io/streams@0.2.0#[method]output-stream.blocking-splice",
    "wasi:io/streams@0.2.0#[method]output-stream.blocking-write-and-flush",
    "wasi:io/streams@0.2.0#[method]output-stream.check-write",
    "wasi:io/streams@0.2.0#[dtor]input-stream",
    "wasi:io/streams@0.2.0#[dtor]output-stream",
    "wasi:io/error@0.2.0#[dtor]error",
    "wasi:io/error@0.2.0#[method]error.to-debug-string",
    "wasi:io/streams@0.2.0#[method]output-stream.flush",
    "wasi:io/streams@0.2.0#[method]input-stream.read",
    "wasi:io/streams@0.2.0#[method]input-stream.skip",
    "wasi:io/streams@0.2.0#[method]output-stream.splice",
    "wasi:io/streams@0.2.0#[method]input-stream.subscribe",
    "wasi:io/streams@0.2.0#[method]output-stream.subscribe",
    "wasi:io/streams@0.2.0#[method]output-stream.write",
    "wasi:io/streams@0.2.0#[method]output-stream.write-zeroes",
    "wasi:io/streams@0.2.0#[method]output-stream.blocking-write-zeroes-and-flush",
    "wasi:io/poll@0.2.0#[method]pollable.ready",
    "wasi:io/poll@0.2.0#[method]pollable.block",
    "wasi:io/poll@0.2.0#[dtor]pollable",
    "wasi:io/poll@0.2.0#poll"
  ]

  /** The functions of the three modules `WASI_SOCKETS_IMPORTS` stubs
      (`src/virt_io/sockets.rs` lines 7-204), every one required. */
  const SOCKETS_LOOKUP_FUNCS: seq<string> := [
    "resolve-addresses",
    "resolve-next-address",
    "drop-resolve-address-stream",
    "subscribe"
  ]

  const SOCKETS_TCP_FUNCS: seq<string> := [
    "start-bind",
    "finish-bind",
    "start-connect",
    "finish-connect",
    "start-listen",
    "finish-listen",
    "accept",
    "local-address",
    "remote-address",
    "address-family",
    "ipv6-only",
    "set-ipv6-only",
    "set-listen-backlog-size",
    "keep-alive",
    "set-keep-alive",
    "no-delay",
    "set-no-delay",
    "unicast-hop-limit",
    "set-unicast-hop-limit",
    "receive-buffer-size",
    "set-receive-buffer-size",
    "send-buffer-size",
    "set-send-buffer-size",
    "subscribe",
    "shutdown",
    "drop-tcp-socket"
  ]

  const SOCKETS_UDP_FUNCS: seq<string> := [
    "start-bind",
    "finish-bind",
    "start-connect",
    "finish-connect",
    "receive",
    "send",
    "local-address",
    "remote-address",
    "address-family",
    "ipv6-only",
    "set-ipv6-only",
    "unicast-hop-limit",
    "set-unicast-hop-limit",
    "receive-buffer-size",
    "set-receive-buffer-size",
    "send-buffer-size",
    "set-send-buffer-size",
    "subscribe",
    "drop-udp-socket"
  ]

  const WASI_SOCKETS_IMPORTS: seq<Entry> :=
    Group("wasi:sockets/ip-name-lookup", Required, SOCKETS_LOOKUP_FUNCS)
    + Group("wasi:sockets/tcp", Required, SOCKETS_TCP_FUNCS)
    + Group("wasi:sockets/udp", Required, SOCKETS_UDP_FUNCS)

  /** `WASI_SOCKETS_EXPORTS` (`src/virt_io/sockets.rs` lines 236-285). */
  const WASI_SOCKETS_EXPORTS: seq<string> := [
    "wasi:sockets/ip-name-lookup#resolve-addresses",
    "wasi:sockets/ip-name-lookup#resolve-next-address",
    "wasi:sockets/ip-name-lookup#drop-resolve-address-stream",
    "wasi:sockets/ip-name-lookup#subscribe",
    "wasi:sockets/tcp#start-bind",
    "wasi:sockets/tcp#finish-bind",
    "wasi:sockets/tcp#start-connect",
    "wasi:sockets/tcp#finish-connect",
    "wasi:sockets/tcp#start-listen",
    "wasi:sockets/tcp#finish-listen",
    "wasi:sockets/tcp#accept",
    "wasi:sockets/tcp#local-address",
    "wasi:sockets/tcp#remote-address",
    "wasi:sockets/tcp#address-family",
    "wasi:sockets/tcp#ipv6-only",
    "wasi:sockets/tcp#set-ipv6-only",
    "wasi:sockets/tcp#set-listen-backlog-size",
    "wasi:sockets/tcp#keep-alive",
    "wasi:sockets/tcp#set-keep-alive",
    "wasi:sockets/tcp#no-delay",
    "wasi:sockets/tcp#set-no-delay",
    "wasi:sockets/tcp#unicast-hop-limit",
    "wasi:sockets/tcp#set-unicast-hop-limit",
    "wasi:sockets/tcp#receive-buffer-size",
    "wasi:sockets/tcp#set-receive-buffer-size",
    "wasi:sockets/tcp#send-buffer-size",
    "wasi:sockets/tcp#set-send-buffer-size",
    "wasi:sockets/tcp#subscribe",
    "wasi:sockets/tcp#shutdown",
    "wasi:sockets/tcp#drop-tcp-socket",
    "wasi:sockets/udp#start-bind",
    "wasi:sockets/udp#finish-bind",
    "wasi:sockets/udp#start-connect",
    "wasi:sockets/udp#finish-connect",
    "wasi:sockets/udp#receive",
    "wasi:sockets/udp#send",
    "wasi:sockets/udp#local-address",
    "wasi:sockets/udp#remote-address",
    "wasi:sockets/udp#address-family",
    "wasi:sockets/udp#ipv6-only",
    "wasi:sockets/udp#set-ipv6-only",
    "wasi:sockets/udp#unicast-hop-limit",
    "wasi:sockets/udp#set-unicast-hop-limit",
    "wasi:sockets/udp#receive-buffer-size",
    "wasi:sockets/udp#set-receive-buffer-size",
    "wasi:sockets/udp#send-buffer-size",
    "wasi:sockets/udp#set-send-buffer-size",
    "wasi:sockets/udp#subscribe",
    "wasi:sockets/udp#drop-udp-socket"
  ]

  /** `WASI_HTTP_EXPORTS` (`src/virt_io/http.rs` lines 7-47). */
  const WASI_HTTP_EXPORTS: seq<string> := [
    "wasi:http/types@0.2.0#[dtor]fields",
    "wasi:http/types@0.2.0#[constructor]fields",
    "wasi:http/types@0.2.0#[method]fields.get",
    "wasi:http/types@0.2.0#[method]fields.set",
    "wasi:http/types@0.2.0#[method]fields.delete",
    "wasi:http/types@0.2.0#[method]fields.append",
    "wasi:http/types@0.2.0#[method]fields.entries",
    "wasi:http/types@0.2.0#[method]fields.clone",
    "wasi:http/types@0.2.0#[method]incoming-body.stream",
    "wasi:http/types@0.2.0#[static]incoming-body.finish",
    "wasi:http/types@0.2.0#[static]outgoing-body.finish",
    "wasi:http/types@0.2.0#[dtor]incoming-request",
    "wasi:http/types@0.2.0#[dtor]incoming-body",
    "wasi:http/types@0.2.0#[dtor]outgoing-request",
    "wasi:http/types@0.2.0#[dtor]outgoing-body",
    "wasi:http/types@0.2.0#[method]incoming-request.method",
    "wasi:http/types@0.2.0#[method]incoming-request.path-with-query",
    "wasi:http/types@0.2.0#[method]incoming-request.scheme",
    "wasi:http/types@0.2.0#[method]incoming-request.authority",
    "wasi:http/types@0.2.0#[method]incoming-request.headers",
    "wasi:http/types@0.2.0#[method]incoming-request.consume",
    "wasi:http/types@0.2.0#[constructor]outgoing-request",
    "wasi:http/types@0.2.0#[method]outgoing-request.write",
    "wasi:http/types@0.2.0#[dtor]response-outparam",
    "wasi:http/types@0.2.0#[static]response-outparam.set",
    "wasi:http/types@0.2.0#[dtor]incoming-response",
    "wasi:http/types@0.2.0#[dtor]outgoing-response",
    "wasi:http/types@0.2.0#[method]incoming-response.status",
    "wasi:http/types@0.2.0#[method]incoming-response.headers",
    "wasi:http/types@0.2.0#[method]incoming-response.consume",
    "wasi:http/types@0.2.0#[constructor]outgoing-response",
    "wasi:http/types@0.2.0#[method]outgoing-response.write",
    "wasi:http/types@0.2.0#[method]outgoing-body.write",
    "wasi:http/types@0.2.0#[dtor]future-trailers",
    "wasi:http/types@0.2.0#[method]future-trailers.get",
    "wasi:http/types@0.2.0#[method]future-trailers.subscribe",
    "wasi:http/types@0.2.0#[dtor]future-incoming-response",
    "wasi:http/types@0.2.0#[method]future-incoming-response.get",
    "wasi:http/types@0.2.0#[method]future-incoming-response.subscribe",
    "wasi:http/outgoing-handler@0.2.0#handle"
  ]

  /** `WASI_HTTP_IMPORTS` (`src/virt_io/http.rs` lines 63-207). */
  const WASI_HTTP_IMPORTS: seq<Entry> :=
    Group("wasi:http/types", Optional, [
      "drop-fields",
      "new-fields",
      "fields-get",
      "fields-set",
      "fields-delete",
      "fields-append",
      "fields-entries",
      "fields-clone",
      "finish-incoming-stream",
      "finish-outgoing-stream",
      "drop-incoming-request",
      "drop-outgoing-request",
      "incoming-request-method",
      "incoming-request-path-with-query",
      "incoming-request-scheme",
      "incoming-request-authority",
      "incoming-request-headers",
      "incoming-request-consume",
      "new-outgoing-request",
      "outgoing-request-write",
      "drop-response-outparam",
      "set-response-outparam",
      "drop-incoming-response",
      "drop-outgoing-response",
      "incoming-response-status",
      "incoming-response-headers",
      "incoming-response-consume",
      "new-outgoing-response",
      "outgoing-response-write",
      "drop-future-incoming-response",
      "future-incoming-response-get",
      "listen-to-future-incoming-response"
    ])

  /** `WASI_STDIO_IMPORTS` (`src/virt_io/stdio.rs` lines 7-47). */
  const WASI_STDIO_IMPORTS: seq<Entry> :=
    Group("wasi:cli/stdin@0.2.0-rc-2023-10-18", Optional, [
      "get-stdin"
    ])
    + Group("wasi:cli/stdout@0.2.0-rc-2023-10-18", Optional, [
      "get-stdout"
    ])
    + Group("wasi:cli/stderr@0.2.0-rc-2023-10-18", Optional, [
      "get-stderr"
    ])
    + Group("wasi:cli/terminal-stdin@0.2.0-rc-2023-10-18", Optional, [
      "get-terminal-stdin"
    ])
    + Group("wasi:cli/terminal-stdout@0.2.0-rc-2023-10-18", Optional, [
      "get-terminal-stdout"
    ])
    + Group("wasi:cli/terminal-stderr@0.2.0-rc-2023-10-18", Optional, [
      "get-terminal-stderr"
    ])
    + Group("wasi:cli/terminal-input@0.2.0-rc-2023-10-18", Optional, [
      "drop-terminal-input"
    ])
    + Group("wasi:cli/terminal-output@0.2.0-rc-2023-10-18", Optional, [
      "drop-terminal-output"
    ])

  /** `WASI_STDIO_EXPORTS` (`src/virt_io/stdio.rs` lines 74-82). */
  const WASI_STDIO_EXPORTS: seq<string> := [
    "wasi:cli/stdin@0.2.0-rc-2023-10-18#get-stdin",
    "wasi:cli/stdout@0.2.0-rc-2023-10-18#get-stdout",
    "wasi:cli/stderr@0.2.0-rc-2023-10-18#get-stderr",
    "wasi:cli/terminal-stdin@0.2.0-rc-2023-10-18#get-terminal-stdin",
    "wasi:cli/terminal-stdout@0.2.0-rc-2023-10-18#get-terminal-stdout",
    "wasi:cli/terminal-stderr@0.2.0-rc-2023-10-18#get-terminal-stderr",
    "wasi:cli/terminal-input@0.2.0-rc-2023-10-18#[dtor]terminal-input",
    "wasi:cli/terminal-output@0.2.0-rc-2023-10-18#[dtor]terminal-output"
  ]

  /** `WASI_CLOCKS_IMPORTS` (`src/virt_io/clocks.rs` lines 7-22). */
  const WASI_CLOCKS_IMPORTS: seq<Entry> :=
    Group("wasi:clocks/monotonic-clock", Required, [
      "now",
      "resolution",
      "subscribe"
    ])

  /** `WASI_CLOCK_EXPORTS` (`src/virt_io/clocks.rs` lines 53-56). */
  const WASI_CLOCK_EXPORTS: seq<string> := [
    "wasi:clocks/monotonic-clock#now",
    "wasi:clocks/monotonic-clock#resolution",
    "wasi:clocks/monotonic-clock#subscribe"
  ]

  // ---------------------------------------------------------------------
  // How each subsystem treats a requirement

  /** `stub_fs_virt`: required imports, and those that depend on filesystem
      use when the filesystem is used, must be present; the rest are stubbed
      if present.  No requirement is rejected. */
  function FsAction(req: StubRequirement, usesFs: bool): Action
  {
    match req
    case Required => MustStub
    case DependsOnFsUsage => if usesFs then MustStub else StubIfPresent
    case Optional => StubIfPresent
  }

  /** `stub_io_virt`: required and optional imports; anything else bails. */
  function IoAction(req: StubRequirement): Action
  {
    match req
    case Required => MustStub
    case Optional => StubIfPresent
    case DependsOnFsUsage => Reject
  }

  /** `stub_sockets_virt` and `stub_clocks_virt`: only required imports. */
  function RequiredOnly(req: StubRequirement): Action
  {
    if req == Required then MustStub else Reject
  }

  /** `stub_http_virt` and `stub_stdio_virt`: only optional imports. */
  function OptionalOnly(req: StubRequirement): Action
  {
    if req == Optional then StubIfPresent else Reject
  }

  function StubFsVirt(m: Module, usesFs: bool): Result<Module, Error>
  {
    StubAll(m, WASI_FS_IMPORTS, (r: StubRequirement) => FsAction(r, usesFs))
  }

  /** `strip_fs_virt` stubs as if the filesystem were unused. */
  function StripFsVirt(m: Module): Result<Module, Error>
  {
    StripAll(m, WASI_FS_IMPORTS, (r: StubRequirement) => FsAction(r, false), WASI_FILESYSTEM_EXPORTS)
  }

  function StubIoVirt(m: Module): Result<Module, Error>
  {
    StubAll(m, WASI_IO_IMPORTS, IoAction)
  }

  function StripIoVirt(m: Module): Result<Module, Error>
  {
    StripAll(m, WASI_IO_IMPORTS, IoAction, WASI_IO_EXPORTS)
  }

  function StubSocketsVirt(m: Module): Result<Module, Error>
  {
    StubAll(m, WASI_SOCKETS_IMPORTS, RequiredOnly)
  }

  function StripSocketsVirt(m: Module): Result<Module, Error>
  {
    StripAll(m, WASI_SOCKETS_IMPORTS, RequiredOnly, WASI_SOCKETS_EXPORTS)
  }

  function StubHttpVirt(m: Module): Result<Module, Error>
  {
    StubAll(m, WASI_HTTP_IMPORTS, OptionalOnly)
  }

  function StripHttpVirt(m: Module): Result<Module, Error>
  {
    StripAll(m, WASI_HTTP_IMPORTS, OptionalOnly, WASI_HTTP_EXPORTS)
  }

  function StubStdioVirt(m: Module): Result<Module, Error>
  {
    StubAll(m, WASI_STDIO_IMPORTS, OptionalOnly)
  }

  function StripStdioVirt(m: Module): Result<Module, Error>
  {
    StripAll(m, WASI_STDIO_IMPORTS, OptionalOnly, WASI_STDIO_EXPORTS)
  }

  function StubClocksVirt(m: Module): Result<Module, Error>
  {
    StubAll(m, WASI_CLOCKS_IMPORTS, RequiredOnly)
  }

  function StripClocksVirt(m: Module): Result<Module, Error>
  {
    StripAll(m, WASI_CLOCKS_IMPORTS, RequiredOnly, WASI_CLOCK_EXPORTS)
  }

  // ---------------------------------------------------------------------
  // Properties of the tables and entry points

  // ---------------------------------------------------------------------
  // Filesystem

  /** The filesystem table has no always-required entry, so with the
      filesystem unused nothing is required and stubbing cannot fail. */
  lemma FsTableShape()
    ensures |WASI_FS_IMPORTS| == 39 && |WASI_FILESYSTEM_EXPORTS| == 39
    ensures forall i :: 0 <= i < |WASI_FS_IMPORTS| ==> WASI_FS_IMPORTS[i].req != Required
  {
  }

  /** `stub_fs_virt`: a success stubs exactly the listed imports; with the
      filesystem in use a missing filesystem-dependent import is an error;
      with it unused, stubbing always succeeds. */
  lemma StubFsVirtSpec(m: Module, usesFs: bool)
    requires WellFormed(m)
    ensures StubFsVirt(m, usesFs).Ok? ==> StubbedAs(m, Keys(WASI_FS_IMPORTS), StubFsVirt(m, usesFs).value)
    ensures (usesFs && exists i :: 0 <= i < |WASI_FS_IMPORTS| && WASI_FS_IMPORTS[i].req == DependsOnFsUsage
                                     && Key(WASI_FS_IMPORTS[i]) !in m.imports)
            ==> StubFsVirt(m, usesFs).Err?
    ensures !usesFs ==> StubFsVirt(m, usesFs).Ok?
  {
    var policy := (r: StubRequirement) => FsAction(r, usesFs);
    StubAllSpec(m, WASI_FS_IMPORTS, policy);
    if usesFs && exists i :: 0 <= i < |WASI_FS_IMPORTS| && WASI_FS_IMPORTS[i].req == DependsOnFsUsage
                             && Key(WASI_FS_IMPORTS[i]) !in m.imports {
      var i :| 0 <= i < |WASI_FS_IMPORTS| && WASI_FS_IMPORTS[i].req == DependsOnFsUsage
               && Key(WASI_FS_IMPORTS[i]) !in m.imports;
      StubAllMissing(m, WASI_FS_IMPORTS, policy, i);
    }
    if !usesFs {
      FsTableShape();
      StubAllOptional(m, WASI_FS_IMPORTS, policy);
    }
  }

  /** `strip_fs_virt`: stub (which cannot fail), then remove every listed
      export, failing if one is missing. */
  lemma StripFsVirtSpec(m: Module)
    requires WellFormed(m)
    ensures StubFsVirt(m, false).Ok?
    ensures StripFsVirt(m).Ok? ==>
      StripFsVirt(m).value == StubFsVirt(m, false).value.(exports := m.exports - set i | 0 <= i < |WASI_FILESYSTEM_EXPORTS| :: WASI_FILESYSTEM_EXPORTS[i])
    ensures (exists i :: 0 <= i < |WASI_FILESYSTEM_EXPORTS| && WASI_FILESYSTEM_EXPORTS[i] !in m.exports) ==> StripFsVirt(m).Err?
  {
    StubFsVirtSpec(m, false);
    StripAllSpec(m, WASI_FS_IMPORTS, (r: StubRequirement) => FsAction(r, false), WASI_FILESYSTEM_EXPORTS);
  }

  // ---------------------------------------------------------------------
  // I/O

  lemma IoTableShape()
    ensures |WASI_IO_IMPORTS| == 22 && |WASI_IO_EXPORTS| == 23
    ensures forall i :: 0 <= i < |WASI_IO_IMPORTS| ==> IoAction(WASI_IO_IMPORTS[i].req) != Reject
  {
  }

  /** `stub_io_virt`: a success stubs exactly the listed imports; a missing
      required one is an error; and, the table listing each import once,
      it succeeds exactly when every required import is present. */
  lemma StubIoVirtSpec(m: Module)
    requires WellFormed(m)
    ensures StubIoVirt(m).Ok? ==> StubbedAs(m, Keys(WASI_IO_IMPORTS), StubIoVirt(m).value)
    ensures (exists i :: 0 <= i < |WASI_IO_IMPORTS| && WASI_IO_IMPORTS[i].req == Required
                         && Key(WASI_IO_IMPORTS[i]) !in m.imports) ==> StubIoVirt(m).Err?
    ensures StubIoVirt(m).Ok? <==> forall i :: 0 <= i < |WASI_IO_IMPORTS| && WASI_IO_IMPORTS[i].req == Required ==> Key(WASI_IO_IMPORTS[i]) in m.imports
  {
    var t := WASI_IO_IMPORTS;
    StubAllSpec(m, t, IoAction);
    if exists i :: 0 <= i < |t| && t[i].req == Required && Key(t[i]) !in m.imports {
      var i :| 0 <= i < |t| && t[i].req == Required && Key(t[i]) !in m.imports;
      StubAllMissing(m, t, IoAction, i);
    }
    IoKeysDistinct();
    IoTableShape();
    StubAllSucceeds(m, t, IoAction);
  }

  /** The I/O table lists each import once. */
  lemma IoKeysDistinct()
    ensures DistinctKeys(WASI_IO_IMPORTS)
  {
    IoStreamsDistinct();
    IoModulesDiffer();
    var t := WASI_IO_IMPORTS;
    assert t[17..] == Group("wasi:io/error@0.2.0", Required, ["[resource-drop]error"])
      + Group("wasi:io/poll@0.2.0", Required, ["[method]pollable.ready", "[method]pollable.block", "[resource-drop]pollable", "poll"]);
    forall i, j | 17 <= i < j < |t| ensures Key(t[i]) != Key(t[j]) {
      assert t[i] == t[17..][i - 17] && t[j] == t[17..][j - 17];
    }
  }

  /** The 17 `wasi:io/streams` entries name different functions. */
  lemma IoStreamsDistinct()
    ensures forall i, j :: 0 <= i < j < 17 ==> Key(WASI_IO_IMPORTS[i]) != Key(WASI_IO_IMPORTS[j])
  {
    IoStreamsDistinctBelow();
    IoStreamsDistinctAbove();
  }

  /** The streams pairs whose first entry is among the first six. */
  lemma IoStreamsDistinctBelow()
    ensures forall i, j :: 0 <= i < 6 && i < j < 17 ==> Key(WASI_IO_IMPORTS[i]) != Key(WASI_IO_IMPORTS[j])
  {
    var t := WASI_IO_IMPORTS;
    forall i, j | 0 <= i < 6 && i < j < 17 ensures Key(t[i]) != Key(t[j]) {
    }
  }

  /** The streams pairs whose first entry comes after those. */
  lemma IoStreamsDistinctAbove()
    ensures forall i, j :: 6 <= i < j < 17 ==> Key(WASI_IO_IMPORTS[i]) != Key(WASI_IO_IMPORTS[j])
  {
    var t := WASI_IO_IMPORTS;
    forall i, j | 6 <= i < j < 17 ensures Key(t[i]) != Key(t[j]) {
    }
  }

  /** The streams entries come first, and the error and poll ones after
      them are from other modules. */
  lemma IoModulesDiffer()
    ensures |WASI_IO_IMPORTS| == 22
    ensures forall i, j :: 0 <= i < 17 <= j < 22 ==> WASI_IO_IMPORTS[i].modName != WASI_IO_IMPORTS[j].modName
  {
    var t := WASI_IO_IMPORTS;
    forall i, j | 0 <= i < 17 <= j < 22 ensures t[i].modName != t[j].modName {
      assert t[i].modName == "wasi:io/streams@0.2.0";
      assert |t[j].modName| != |t[i].modName|;
    }
  }

  lemma StripIoVirtSpec(m: Module)
    requires WellFormed(m)
    ensures StripIoVirt(m).Ok? ==> (StubIoVirt(m).Ok? &&
      StripIoVirt(m).value == StubIoVirt(m).value.(exports := m.exports - set i | 0 <= i < |WASI_IO_EXPORTS| :: WASI_IO_EXPORTS[i]))
    ensures StubIoVirt(m).Ok? && (exists i :: 0 <= i < |WASI_IO_EXPORTS| && WASI_IO_EXPORTS[i] !in m.exports) ==> StripIoVirt(m).Err?
  {
    StripAllSpec(m, WASI_IO_IMPORTS, IoAction, WASI_IO_EXPORTS);
  }

  // ---------------------------------------------------------------------
  // Sockets and clocks: every import required

  lemma SocketsTableShape()
    ensures |WASI_SOCKETS_IMPORTS| == 49 && |WASI_SOCKETS_EXPORTS| == 49
    ensures forall i :: 0 <= i < |WASI_SOCKETS_IMPORTS| ==> WASI_SOCKETS_IMPORTS[i].req == Required
  {
  }

  lemma ClocksTableShape()
    ensures |WASI_CLOCKS_IMPORTS| == 3 && |WASI_CLOCK_EXPORTS| == 3
    ensures forall i :: 0 <= i < |WASI_CLOCKS_IMPORTS| ==> WASI_CLOCKS_IMPORTS[i].req == Required
  {
  }

  /** A table of required imports: stubbing succeeds only if all are
      present, and stubs exactly them; when the table lists each import
      once, it succeeds exactly when all are present. */
  lemma RequiredTableSpec(m: Module, t: seq<Entry>)
    requires WellFormed(m)
    requires forall i :: 0 <= i < |t| ==> t[i].req == Required
    ensures StubAll(m, t, RequiredOnly).Ok? ==> StubbedAs(m, Keys(t), StubAll(m, t, RequiredOnly).value)
    ensures (exists i :: 0 <= i < |t| && Key(t[i]) !in m.imports) ==> StubAll(m, t, RequiredOnly).Err?
    ensures DistinctKeys(t) ==> (StubAll(m, t, RequiredOnly).Ok? <==> forall i :: 0 <= i < |t| ==> Key(t[i]) in m.imports)
  {
    StubAllSpec(m, t, RequiredOnly);
    if exists i :: 0 <= i < |t| && Key(t[i]) !in m.imports {
      var i :| 0 <= i < |t| && Key(t[i]) !in m.imports;
      StubAllMissing(m, t, RequiredOnly, i);
    }
    if DistinctKeys(t) {
      StubAllSucceeds(m, t, RequiredOnly);
    }
  }

  lemma StubSocketsVirtSpec(m: Module)
    requires WellFormed(m)
    ensures StubSocketsVirt(m).Ok? ==> StubbedAs(m, Keys(WASI_SOCKETS_IMPORTS), StubSocketsVirt(m).value)
    ensures (exists i :: 0 <= i < |WASI_SOCKETS_IMPORTS| && Key(WASI_SOCKETS_IMPORTS[i]) !in m.imports) ==> StubSocketsVirt(m).Err?
    ensures StubSocketsVirt(m).Ok? <==> forall i :: 0 <= i < |WASI_SOCKETS_IMPORTS| ==> Key(WASI_SOCKETS_IMPORTS[i]) in m.imports
  {
    SocketsTableShape();
    SocketsKeysDistinct();
    RequiredTableSpec(m, WASI_SOCKETS_IMPORTS);
  }

  /** The sockets table lists each import once: the three modules differ,
      and within each the function names do. */
  lemma SocketsKeysDistinct()
    ensures DistinctKeys(WASI_SOCKETS_IMPORTS)
  {
    var lookup := Group("wasi:sockets/ip-name-lookup", Required, SOCKETS_LOOKUP_FUNCS);
    var tcp := Group("wasi:sockets/tcp", Required, SOCKETS_TCP_FUNCS);
    var udp := Group("wasi:sockets/udp", Required, SOCKETS_UDP_FUNCS);
    var ns := SOCKETS_LOOKUP_FUNCS;
    forall i, j | 0 <= i < j < |ns| ensures ns[i] != ns[j] {
    }
    TcpFuncsDistinct();
    UdpFuncsDistinct();
    GroupKeysDistinct("wasi:sockets/ip-name-lookup", Required, ns);
    GroupKeysDistinct("wasi:sockets/tcp", Required, SOCKETS_TCP_FUNCS);
    GroupKeysDistinct("wasi:sockets/udp", Required, SOCKETS_UDP_FUNCS);
    AppendKeysDistinct(lookup, tcp);
    AppendKeysDistinct(lookup + tcp, udp);
  }

  /** The `wasi:sockets/tcp` functions are named differently. */
  lemma TcpFuncsDistinct()
    ensures DistinctNames(SOCKETS_TCP_FUNCS)
  {
    var ns := SOCKETS_TCP_FUNCS;
    forall i, j | 0 <= i < j < |ns| ensures ns[i] != ns[j] {
    }
  }

  /** The `wasi:sockets/udp` functions are named differently. */
  lemma UdpFuncsDistinct()
    ensures DistinctNames(SOCKETS_UDP_FUNCS)
  {
    var ns := SOCKETS_UDP_FUNCS;
    forall i, j | 0 <= i < j < |ns| ensures ns[i] != ns[j] {
    }
  }

  /** A group of distinct names gives distinct keys. */
  lemma GroupKeysDistinct(modName: string, req: StubRequirement, names: seq<string>)
    requires DistinctNames(names)
    ensures DistinctKeys(Group(modName, req, names))
  {
  }

  /** Tables without a key in common keep their keys distinct side by side. */
  lemma AppendKeysDistinct(a: seq<Entry>, b: seq<Entry>)
    requires DistinctKeys(a) && DistinctKeys(b)
    requires forall i, j :: 0 <= i < |a| && 0 <= j < |b| ==> a[i].modName != b[j].modName
    ensures DistinctKeys(a + b)
  {
    forall i, j | 0 <= i < j < |a + b| ensures Key((a + b)[i]) != Key((a + b)[j]) {
      if j < |a| {
      } else if i >= |a| {
        assert Key(b[i - |a|]) != Key(b[j - |a|]);
      } else {
        assert a[i].modName != b[j - |a|].modName;
      }
    }
  }

  lemma StripSocketsVirtSpec(m: Module)
    requires WellFormed(m)
    ensures StripSocketsVirt(m).Ok? ==> (StubSocketsVirt(m).Ok? &&
      StripSocketsVirt(m).value == StubSocketsVirt(m).value.(exports := m.exports - set i | 0 <= i < |WASI_SOCKETS_EXPORTS| :: WASI_SOCKETS_EXPORTS[i]))
    ensures StubSocketsVirt(m).Ok? && (exists i :: 0 <= i < |WASI_SOCKETS_EXPORTS| && WASI_SOCKETS_EXPORTS[i] !in m.exports) ==> StripSocketsVirt(m).Err?
  {
    StripAllSpec(m, WASI_SOCKETS_IMPORTS, RequiredOnly, WASI_SOCKETS_EXPORTS);
  }

  lemma StubClocksVirtSpec(m: Module)
    requires WellFormed(m)
    ensures StubClocksVirt(m).Ok? ==> StubbedAs(m, Keys(WASI_CLOCKS_IMPORTS), StubClocksVirt(m).value)
    ensures StubClocksVirt(m).Ok? <==> forall i :: 0 <= i < |WASI_CLOCKS_IMPORTS| ==> Key(WASI_CLOCKS_IMPORTS[i]) in m.imports
  {
    ClocksTableShape();
    assert DistinctKeys(WASI_CLOCKS_IMPORTS);
    RequiredTableSpec(m, WASI_CLOCKS_IMPORTS);
  }

  lemma ClockExportsDistinct()
    ensures DistinctNames(WASI_CLOCK_EXPORTS)
  {
    var t := WASI_CLOCK_EXPORTS;
    assert t[0][28] == 'n' && t[1][28] == 'r' && t[2][28] == 's';
  }

  lemma StripClocksVirtSpec(m: Module)
    requires WellFormed(m)
    ensures StripClocksVirt(m).Ok? ==> (StubClocksVirt(m).Ok? &&
      StripClocksVirt(m).value == StubClocksVirt(m).value.(exports := m.exports - set i | 0 <= i < |WASI_CLOCK_EXPORTS| :: WASI_CLOCK_EXPORTS[i]))
    ensures StubClocksVirt(m).Ok? ==>
      (StripClocksVirt(m).Ok? <==> forall i :: 0 <= i < |WASI_CLOCK_EXPORTS| ==> WASI_CLOCK_EXPORTS[i] in m.exports)
  {
    StripAllSpec(m, WASI_CLOCKS_IMPORTS, RequiredOnly, WASI_CLOCK_EXPORTS);
    if StubClocksVirt(m).Ok? {
      StubClocksVirtSpec(m);
      ClockExportsDistinct();
      RemoveAllSucceeds(StubClocksVirt(m).value, WASI_CLOCK_EXPORTS);
    }
  }

  // ---------------------------------------------------------------------
  // HTTP and stdio: every import optional

  lemma HttpTableShape()
    ensures |WASI_HTTP_IMPORTS| == 32 && |WASI_HTTP_EXPORTS| == 40
    ensures forall i :: 0 <= i < |WASI_HTTP_IMPORTS| ==> WASI_HTTP_IMPORTS[i].req == Optional
  {
  }

  lemma StdioTableShape()
    ensures |WASI_STDIO_IMPORTS| == 8 && |WASI_STDIO_EXPORTS| == 8
    ensures forall i :: 0 <= i < |WASI_STDIO_IMPORTS| ==> WASI_STDIO_IMPORTS[i].req == Optional
  {
  }

  /** `stub_http_virt` always succeeds and stubs exactly the listed imports
      that are present. */
  lemma StubHttpVirtSpec(m: Module)
    requires WellFormed(m)
    ensures StubHttpVirt(m).Ok?
    ensures StubbedAs(m, Keys(WASI_HTTP_IMPORTS), StubHttpVirt(m).value)
  {
    HttpTableShape();
    StubAllOptional(m, WASI_HTTP_IMPORTS, OptionalOnly);
    StubAllSpec(m, WASI_HTTP_IMPORTS, OptionalOnly);
  }

  lemma StripHttpVirtSpec(m: Module)
    requires WellFormed(m)
    ensures StripHttpVirt(m).Ok? ==>
      StripHttpVirt(m).value == StubHttpVirt(m).value.(exports := m.exports - set i | 0 <= i < |WASI_HTTP_EXPORTS| :: WASI_HTTP_EXPORTS[i])
    ensures (exists i :: 0 <= i < |WASI_HTTP_EXPORTS| && WASI_HTTP_EXPORTS[i] !in m.exports) ==> StripHttpVirt(m).Err?
    ensures StripHttpVirt(m).Err? ==> exists i :: 0 <= i < |WASI_HTTP_EXPORTS| && StripHttpVirt(m).error == MissingExport(WASI_HTTP_EXPORTS[i])
  {
    StubHttpVirtSpec(m);
    StripAllSpec(m, WASI_HTTP_IMPORTS, OptionalOnly, WASI_HTTP_EXPORTS);
    RemoveAllSpec(StubHttpVirt(m).value, WASI_HTTP_EXPORTS);
  }

  lemma StubStdioVirtSpec(m: Module)
    requires WellFormed(m)
    ensures StubStdioVirt(m).Ok?
    ensures StubbedAs(m, Keys(WASI_STDIO_IMPORTS), StubStdioVirt(m).value)
  {
    StdioTableShape();
    StubAllOptional(m, WASI_STDIO_IMPORTS, OptionalOnly);
    StubAllSpec(m, WASI_STDIO_IMPORTS, OptionalOnly);
  }

  lemma StripStdioVirtSpec(m: Module)
    requires WellFormed(m)
    ensures StripStdioVirt(m).Ok? ==>
      StripStdioVirt(m).value == StubStdioVirt(m).value.(exports := m.exports - set i | 0 <= i < |WASI_STDIO_EXPORTS| :: WASI_STDIO_EXPORTS[i])
    ensures (exists i :: 0 <= i < |WASI_STDIO_EXPORTS| && WASI_STDIO_EXPORTS[i] !in m.exports) ==> StripStdioVirt(m).Err?
    ensures StripStdioVirt(m).Err? ==> exists i :: 0 <= i < |WASI_STDIO_EXPORTS| && StripStdioVirt(m).error == MissingExport(WASI_STDIO_EXPORTS[i])
  {
    StubStdioVirtSpec(m);
    StripAllSpec(m, WASI_STDIO_IMPORTS, OptionalOnly, WASI_STDIO_EXPORTS);
    RemoveAllSpec(StubStdioVirt(m).value, WASI_STDIO_EXPORTS);
  }
}
