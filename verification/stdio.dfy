/** Standard-stream policy: the three-valued `StdioCfg` of `src/virt_io.rs`,
    the flag word `create_io_virt` writes into the adapter's `io` static,
    and how the adapter (`virtual-adapter/src/io.rs`, `Io::stdin` and its
    siblings) reads the policy back out of that word. */
module Stdio {
  import opened Results
  import opened Wasm
  import opened Stubs
  import IoVirtStubs

  datatype StdioCfg = Allow | Ignore | Deny

  /** `VirtStdio`; its `Default` allows every stream. */
  datatype VirtStdio = VirtStdio(stdin: StdioCfg, stdout: StdioCfg, stderr: StdioCfg)

  const DEFAULT_STDIO: VirtStdio := VirtStdio(Allow, Allow, Allow)

  datatype StdStream = StdIn | StdOut | StdErr

  function Cfg(s: VirtStdio, which: StdStream): StdioCfg
  {
    match which
    case StdIn => s.stdin
    case StdOut => s.stdout
    case StdErr => s.stderr
  }

  // ---------------------------------------------------------------------
  // Builders

  /** `VirtStdio::stdin`, `stdout`, `stderr`: set one stream. */
  function SetStream(s: VirtStdio, which: StdStream, c: StdioCfg): (r: VirtStdio)
    ensures Cfg(r, which) == c
    ensures forall w :: w != which ==> Cfg(r, w) == Cfg(s, w)
  {
    match which
    case StdIn => s.(stdin := c)
    case StdOut => s.(stdout := c)
    case StdErr => s.(stderr := c)
  }

  /** `VirtStdio::allow`, `ignore`, `deny`: set all three streams. */
  function SetAll(s: VirtStdio, c: StdioCfg): (r: VirtStdio)
    ensures forall w :: Cfg(r, w) == c
  {
    VirtStdio(c, c, c)
  }

  /** Setting the streams one at a time reaches the same configuration as
      setting them all at once, whatever the starting point. */
  lemma SetEachIsSetAll(s: VirtStdio, c: StdioCfg)
    ensures SetStream(SetStream(SetStream(s, StdIn, c), StdOut, c), StdErr, c) == SetAll(s, c)
  {
    var r := SetStream(SetStream(SetStream(s, StdIn, c), StdOut, c), StdErr, c);
    assert Cfg(r, StdIn) == c && Cfg(r, StdOut) == c && Cfg(r, StdErr) == c;
  }

  // ---------------------------------------------------------------------
  // The flag word

  const FLAGS_ENABLE_STDIN: bv32 := 1 << 0
  const FLAGS_ENABLE_STDOUT: bv32 := 1 << 1
  const FLAGS_ENABLE_STDERR: bv32 := 1 << 2
  const FLAGS_IGNORE_STDIN: bv32 := 1 << 3
  const FLAGS_IGNORE_STDOUT: bv32 := 1 << 4
  const FLAGS_IGNORE_STDERR: bv32 := 1 << 5
  const FLAGS_HOST_PREOPENS: bv32 := 1 << 6
  const FLAGS_HOST_PASSTHROUGH: bv32 := 1 << 7

  function EnableFlag(which: StdStream): bv32
  {
    match which
    case StdIn => FLAGS_ENABLE_STDIN
    case StdOut => FLAGS_ENABLE_STDOUT
    case StdErr => FLAGS_ENABLE_STDERR
  }

  function IgnoreFlag(which: StdStream): bv32
  {
    match which
    case StdIn => FLAGS_IGNORE_STDIN
    case StdOut => FLAGS_IGNORE_STDOUT
    case StdErr => FLAGS_IGNORE_STDERR
  }

  /** One `match` of `create_io_virt` on a stream: `Allow` sets the enable
      bit and clears `disable_stdio`, `Ignore` sets the ignore bit, `Deny`
      sets nothing. */
  function StreamStep(acc: (bv32, bool), c: StdioCfg, which: StdStream): (bv32, bool)
  {
    match c
    case Allow => (acc.0 | EnableFlag(which), false)
    case Ignore => (acc.0 | IgnoreFlag(which), acc.1)
    case Deny => acc
  }

  /** The stdio part of `create_io_virt`: the flag word after the three
      matches, and `disable_stdio`.  Stdio stays disabled exactly when no
      stream is allowed or there is no stdio configuration at all. */
  function StdioFlags(flags: bv32, stdio: Option<VirtStdio>): (r: (bv32, bool))
    ensures r.1 <==> stdio.None? || forall w :: Cfg(stdio.value, w) != Allow
  {
    match stdio
    case None => (flags, true)
    case Some(s) =>
      var r := StreamStep(StreamStep(StreamStep((flags, true), s.stdin, StdIn), s.stdout, StdOut), s.stderr, StdErr);
      assert s.stdin == Cfg(s, StdIn) && s.stdout == Cfg(s, StdOut) && s.stderr == Cfg(s, StdErr);
      r
  }

  /** The whole flag word: host preopens first, then stdio, and host
      passthrough last, once the filesystem is known. */
  function IoFlags(hostPreopens: bool, stdio: Option<VirtStdio>, passthrough: bool): bv32
  {
    var f0: bv32 := if hostPreopens then FLAGS_HOST_PREOPENS else 0;
    var f1 := StdioFlags(f0, stdio).0;
    if passthrough then f1 | FLAGS_HOST_PASSTHROUGH else f1
  }

  // ---------------------------------------------------------------------
  // The adapter's side

  /** `Io::stdin`, `Io::stdout`, `Io::stderr`: the enable bit wins, then the
      ignore bit, and otherwise the stream is denied. */
  function Decode(flags: bv32, which: StdStream): StdioCfg
  {
    if flags & EnableFlag(which) != 0 then Allow
    else if flags & IgnoreFlag(which) != 0 then Ignore
    else Deny
  }

  /** `Io::host_passthrough` and `Io::host_preopens`. */
  predicate HostPassthrough(flags: bv32) { flags & FLAGS_HOST_PASSTHROUGH != 0 }
  predicate HostPreopens(flags: bv32) { flags & FLAGS_HOST_PREOPENS != 0 }

  /** A flag set exactly when its condition holds. */
  function Bit(b: bool, flag: bv32): bv32
  {
    if b then flag else 0
  }

  /** The flag word spelled out bit by bit, from the condition of each of
      the eight flags, lowest bit first. */
  function Bits(a: bool, b: bool, c: bool, d: bool, e: bool, f: bool, hp: bool, pt: bool): bv32
  {
    Bit(a, FLAGS_ENABLE_STDIN) | Bit(b, FLAGS_ENABLE_STDOUT) | Bit(c, FLAGS_ENABLE_STDERR)
    | Bit(d, FLAGS_IGNORE_STDIN) | Bit(e, FLAGS_IGNORE_STDOUT) | Bit(f, FLAGS_IGNORE_STDERR)
    | Bit(hp, FLAGS_HOST_PREOPENS) | Bit(pt, FLAGS_HOST_PASSTHROUGH)
  }

  /** The adapter reads each flag of such a word back: a stream is allowed
      when its enable condition held, ignored when only its ignore condition
      did, and denied otherwise; the two host bits are their conditions. */
  lemma BitsDecode(a: bool, b: bool, c: bool, d: bool, e: bool, f: bool, hp: bool, pt: bool)
    ensures Decode(Bits(a, b, c, d, e, f, hp, pt), StdIn) == if a then Allow else if d then Ignore else Deny
    ensures Decode(Bits(a, b, c, d, e, f, hp, pt), StdOut) == if b then Allow else if e then Ignore else Deny
    ensures Decode(Bits(a, b, c, d, e, f, hp, pt), StdErr) == if c then Allow else if f then Ignore else Deny
    ensures HostPreopens(Bits(a, b, c, d, e, f, hp, pt)) == hp
    ensures HostPassthrough(Bits(a, b, c, d, e, f, hp, pt)) == pt
  {
  }

  /** The word for a stdio configuration: enable bits for the allowed
      streams, ignore bits for the ignored ones. */
  function Word(s: VirtStdio, hp: bool, pt: bool): bv32
  {
    Bits(s.stdin == Allow, s.stdout == Allow, s.stderr == Allow,
         s.stdin == Ignore, s.stdout == Ignore, s.stderr == Ignore, hp, pt)
  }

  /** The generator's flag word, built by the three matches in turn, is
      that word. */
  lemma IoFlagsIsWord(hostPreopens: bool, s: VirtStdio, passthrough: bool)
    ensures IoFlags(hostPreopens, Some(s), passthrough) == Word(s, hostPreopens, passthrough)
  {
  }

  /** The adapter reads back exactly the policy the generator wrote: each
      stream's setting (denied for all three when there was no stdio
      configuration), whether host preopens are on, and whether host
      passthrough is on. */
  lemma IoFlagsRoundTrip(hostPreopens: bool, stdio: Option<VirtStdio>, passthrough: bool, which: StdStream)
    ensures Decode(IoFlags(hostPreopens, stdio, passthrough), which)
            == if stdio.Some? then Cfg(stdio.value, which) else Deny
    ensures HostPreopens(IoFlags(hostPreopens, stdio, passthrough)) == hostPreopens
    ensures HostPassthrough(IoFlags(hostPreopens, stdio, passthrough)) == passthrough
  {
    var s := if stdio.Some? then stdio.value else VirtStdio(Deny, Deny, Deny);
    var f := IoFlags(hostPreopens, stdio, passthrough);
    assert f == IoFlags(hostPreopens, Some(s), passthrough);
    WordRoundTrip(hostPreopens, s, passthrough, which);
    assert Cfg(s, which) == if stdio.Some? then Cfg(stdio.value, which) else Deny;
  }

  lemma WordRoundTrip(hostPreopens: bool, s: VirtStdio, passthrough: bool, which: StdStream)
    ensures Decode(IoFlags(hostPreopens, Some(s), passthrough), which) == Cfg(s, which)
    ensures HostPreopens(IoFlags(hostPreopens, Some(s), passthrough)) == hostPreopens
    ensures HostPassthrough(IoFlags(hostPreopens, Some(s), passthrough)) == passthrough
  {
    IoFlagsIsWord(hostPreopens, s, passthrough);
    BitsDecode(s.stdin == Allow, s.stdout == Allow, s.stderr == Allow,
               s.stdin == Ignore, s.stdout == Ignore, s.stderr == Ignore, hostPreopens, passthrough);
  }

  /** `Decode` in terms of the two bits it tests. */
  lemma DecodeBits(flags: bv32, which: StdStream)
    ensures flags & EnableFlag(which) != 0 ==> Decode(flags, which) == Allow
    ensures flags & EnableFlag(which) == 0 && flags & IgnoreFlag(which) != 0 ==> Decode(flags, which) == Ignore
    ensures flags & EnableFlag(which) == 0 && flags & IgnoreFlag(which) == 0 ==> Decode(flags, which) == Deny
  {
  }

  /** The flag word is injective in the policy it encodes. */
  lemma IoFlagsInjective(hp1: bool, s1: VirtStdio, pt1: bool, hp2: bool, s2: VirtStdio, pt2: bool)
    requires IoFlags(hp1, Some(s1), pt1) == IoFlags(hp2, Some(s2), pt2)
    ensures hp1 == hp2 && s1 == s2 && pt1 == pt2
  {
    IoFlagsRoundTrip(hp1, Some(s1), pt1, StdIn);
    IoFlagsRoundTrip(hp2, Some(s2), pt2, StdIn);
    IoFlagsRoundTrip(hp1, Some(s1), pt1, StdOut);
    IoFlagsRoundTrip(hp2, Some(s2), pt2, StdOut);
    IoFlagsRoundTrip(hp1, Some(s1), pt1, StdErr);
    IoFlagsRoundTrip(hp2, Some(s2), pt2, StdErr);
  }

  // ---------------------------------------------------------------------
  // Stubbing stdio in `create_io_virt`

  /** Without a stdio configuration the stdio exports are stripped; and when
      stdio is disabled its imports are stubbed. */
  function StdioStep(m: Module, stdio: Option<VirtStdio>): Result<Module, Error>
  {
    var disable := StdioFlags(0, stdio).1;
    match (if stdio.None? then IoVirtStubs.StripStdioVirt(m) else Ok(m))
    case Err(e) => Err(e)
    case Ok(m1) => if disable then IoVirtStubs.StubStdioVirt(m1) else Ok(m1)
  }

  /** Stubbing a second time changes nothing. */
  lemma StubStdioAgain(m: Module)
    requires WellFormed(m)
    requires forall k :: k in Keys(IoVirtStubs.INLINE_STDIO_IMPORTS) ==> k !in m.imports
    ensures IoVirtStubs.StubStdioVirt(m) == Ok(m)
  {
    IoVirtStubs.StubStdioVirtSpec(m);
    StubbedAsNothing(m, Keys(IoVirtStubs.INLINE_STDIO_IMPORTS), IoVirtStubs.StubStdioVirt(m).value);
  }

  /** The stdio stubs are applied exactly when no stream is allowed or there
      is no stdio configuration: an allowed stream leaves the module as it
      is; a configuration with none allowed stubs every stdio import; no
      configuration strips the stdio exports and stubs the imports, failing
      only on a missing export. */
  lemma StdioStepSpec(m: Module, stdio: Option<VirtStdio>)
    requires WellFormed(m)
    ensures stdio.Some? && (exists w :: Cfg(stdio.value, w) == Allow) ==> StdioStep(m, stdio) == Ok(m)
    ensures stdio.Some? && (forall w :: Cfg(stdio.value, w) != Allow) ==>
      StdioStep(m, stdio).Ok? && StubbedAs(m, Keys(IoVirtStubs.INLINE_STDIO_IMPORTS), StdioStep(m, stdio).value)
    ensures stdio.None? ==> StdioStep(m, stdio) == IoVirtStubs.StripStdioVirt(m)
  {
    if stdio.Some? {
      IoVirtStubs.StubStdioVirtSpec(m);
    } else {
      IoVirtStubs.StripStdioVirtSpec(m);
      if IoVirtStubs.StripStdioVirt(m).Ok? {
        var s := IoVirtStubs.StubStdioVirt(m).value;
        StubAllSpec(m, IoVirtStubs.INLINE_STDIO_IMPORTS, IoVirtStubs.Fixed);
        var m1 := IoVirtStubs.StripStdioVirt(m).value;
        assert m1.imports == s.imports && m1.funcs == s.funcs;
        StubStdioAgain(m1);
      }
    }
  }
}
