/** The generator side of the environment and runtime-config
    virtualisations: `create_env_virt`, `stub_env_virt`, `strip_env_virt`
    (`src/virt_env.rs`) and `create_config_virt`, `stub_config_virt`,
    `strip_config_virt` (`src/virt_config.rs`).  The two files are the same
    code with different names, so one model serves both, told apart by
    `Kind`. */
module PolicyVirt {
  import opened Results
  import opened Bytes
  import opened Wasm
  import opened Stubs
  import opened Subsystems
  import opened WalrusOps
  import opened Sorting
  import opened FieldData
  import opened Fallback

  /** Which virtualisation: the environment one names the WASI version
      (as `Display` renders it) in its interface. */
  datatype Kind = EnvKind(wasiVersion: string) | ConfigKind

  const ENV_FNS: seq<string> := ["get-arguments", "get-environment", "initial-cwd"]
  const CONFIG_FNS: seq<string> := ["get", "get-all"]

  /** The adapter global holding the address of its settings static. */
  function PtrExport(k: Kind): string
  {
    if k.EnvKind? then "env" else "config"
  }

  function ImportModule(k: Kind): string
  {
    if k.EnvKind? then "wasi:cli/environment@" + k.wasiVersion else "wasi:config/runtime@0.2.0-draft"
  }

  function Fns(k: Kind): seq<string>
  {
    if k.EnvKind? then ENV_FNS else CONFIG_FNS
  }

  /** The adapter's export implementing function `fn`. */
  function ExportName(k: Kind, fn: string): string
  {
    ImportModule(k) + "#" + fn
  }

  /** Every function of the interface is a required import. */
  function ImportTable(k: Kind): seq<Entry>
  {
    Group(ImportModule(k), Required, Fns(k))
  }

  lemma FnsDistinct(k: Kind)
    ensures DistinctNames(Fns(k))
    ensures DistinctKeys(ImportTable(k))
  {
    if k.EnvKind? {
      assert ENV_FNS[0][4] == 'a' && ENV_FNS[1][4] == 'e' && ENV_FNS[2][4] == 'i';
    }
  }

  /** `stub_env_virt` / `stub_config_virt`: each import must be there and
      is replaced by a trapping body. */
  function StubPolicyVirt(m: Module, k: Kind): Result<Module, Error>
  {
    StubAll(m, ImportTable(k), RequiredOnly)
  }

  /** Stubbing succeeds exactly when every import of the interface is
      present, and then stubs exactly those. */
  lemma StubPolicyVirtSpec(m: Module, k: Kind)
    requires WellFormed(m)
    ensures StubPolicyVirt(m, k).Ok? <==> forall i :: 0 <= i < |Fns(k)| ==> (ImportModule(k), Fns(k)[i]) in m.imports
    ensures StubPolicyVirt(m, k).Ok? ==> StubbedAs(m, Keys(ImportTable(k)), StubPolicyVirt(m, k).value)
    ensures StubPolicyVirt(m, k).Ok? ==> WellFormed(StubPolicyVirt(m, k).value)
  {
    FnsDistinct(k);
    RequiredTableSpec(m, ImportTable(k));
    StubAllSpec(m, ImportTable(k), RequiredOnly);
  }

  /** The export exists, names a function, and that function is local. */
  predicate Replaceable(m: Module, name: string)
  {
    name in m.exports && m.exports[name].ExportFunc?
    && m.exports[name].fid < |m.funcs| && m.funcs[m.exports[name].fid].LocalFunc?
  }

  /** The functions the exports `fns` of the interface name. */
  function Targets(m: Module, k: Kind, fns: seq<string>): set<nat>
  {
    set i | 0 <= i < |fns| && ExportName(k, fns[i]) in m.exports && m.exports[ExportName(k, fns[i])].ExportFunc?
      :: m.exports[ExportName(k, fns[i])].fid
  }

  /** The second loop of `strip_env_virt` / `strip_config_virt`: each
      export's function gets a trapping body; a missing export is
      "Expected CLI function". */
  function ReplaceExports(m: Module, k: Kind, fns: seq<string>): Result<Module, Error>
    decreases |fns|
  {
    if |fns| == 0 then Ok(m)
    else
      match GetExportedFunc(m, ExportName(k, fns[0]))
      case Err(_) => Err(ExpectedCliFunction(fns[0]))
      case Ok(fid) =>
        match ReplaceExportedFunc(m, fid)
        case Err(e) => Err(e)
        case Ok(m1) => ReplaceExports(m1, k, fns[1..])
  }

  /** The loop succeeds exactly when every named export is a local
      function; then those functions, and only those, trap, and nothing
      else changes. */
  lemma {:induction false} ReplaceExportsSpec(m: Module, k: Kind, fns: seq<string>)
    ensures ReplaceExports(m, k, fns).Ok? <==> forall i :: 0 <= i < |fns| ==> Replaceable(m, ExportName(k, fns[i]))
    ensures ReplaceExports(m, k, fns).Ok? ==> var r := ReplaceExports(m, k, fns).value;
      r.imports == m.imports && r.exports == m.exports && r.globals == m.globals && r.data == m.data
      && |r.funcs| == |m.funcs|
      && forall f :: 0 <= f < |m.funcs| ==>
           r.funcs[f] == if f in Targets(m, k, fns) then LocalFunc(m.funcs[f].sig, Unreachable) else m.funcs[f]
    decreases |fns|
  {
    if |fns| > 0 {
      var name := ExportName(k, fns[0]);
      if Replaceable(m, name) {
        var fid := m.exports[name].fid;
        var m1 := ReplaceExportedFunc(m, fid).value;
        ReplaceExportsSpec(m1, k, fns[1..]);
        forall n ensures Replaceable(m1, n) <==> Replaceable(m, n) {
        }
        TargetsCons(m, m1, k, fns);
      }
    }
  }

  lemma TargetsCons(m: Module, m1: Module, k: Kind, fns: seq<string>)
    requires |fns| > 0 && m1.exports == m.exports
    requires ExportName(k, fns[0]) in m.exports && m.exports[ExportName(k, fns[0])].ExportFunc?
    ensures Targets(m, k, fns) == {m.exports[ExportName(k, fns[0])].fid} + Targets(m1, k, fns[1..])
  {
    var t := Targets(m, k, fns);
    var t1 := Targets(m1, k, fns[1..]);
    forall f | f in t ensures f in {m.exports[ExportName(k, fns[0])].fid} + t1 {
      var i :| 0 <= i < |fns| && ExportName(k, fns[i]) in m.exports && m.exports[ExportName(k, fns[i])].ExportFunc?
               && m.exports[ExportName(k, fns[i])].fid == f;
      if i > 0 {
        assert fns[1..][i - 1] == fns[i];
      }
    }
    forall f | f in t1 ensures f in t {
      var i :| 0 <= i < |fns[1..]| && ExportName(k, fns[1..][i]) in m1.exports
               && m1.exports[ExportName(k, fns[1..][i])].ExportFunc? && m1.exports[ExportName(k, fns[1..][i])].fid == f;
      assert fns[i + 1] == fns[1..][i];
    }
  }

  /** `strip_env_virt` / `strip_config_virt`: stub the imports, then make
      the adapter's exports trap. */
  function StripPolicyVirt(m: Module, k: Kind): Result<Module, Error>
  {
    match StubPolicyVirt(m, k)
    case Err(e) => Err(e)
    case Ok(m1) => ReplaceExports(m1, k, Fns(k))
  }

  /** Stripping fails on a missing import, and otherwise exactly when an
      export of the interface is missing or not a local function. */
  lemma StripPolicyVirtSpec(m: Module, k: Kind)
    requires WellFormed(m)
    ensures StripPolicyVirt(m, k).Ok? <==>
      StubPolicyVirt(m, k).Ok?
      && (forall i :: 0 <= i < |Fns(k)| ==> Replaceable(StubPolicyVirt(m, k).value, ExportName(k, Fns(k)[i])))
    ensures StripPolicyVirt(m, k).Ok? ==> StripPolicyVirt(m, k).value.imports == m.imports - Keys(ImportTable(k))
    ensures StripPolicyVirt(m, k).Ok? ==> StripPolicyVirt(m, k).value.exports == m.exports
  {
    StubPolicyVirtSpec(m, k);
    if StubPolicyVirt(m, k).Ok? {
      ReplaceExportsSpec(StubPolicyVirt(m, k).value, k, Fns(k));
    }
  }

  /** The settings static's address: the adapter exports a global whose
      constant `i32` initialiser is it, read as a `u32`. */
  function PtrAddr(m: Module, name: string): (r: Result<u32, Error>)
    ensures name !in m.exports ==> r == Err(NotExported(name))
    ensures name in m.exports && !m.exports[name].ExportGlobal? ==> r == Err(NotAGlobal(name))
    ensures r.Ok? <==> name in m.exports && m.exports[name].ExportGlobal?
                       && m.exports[name].gid < |m.globals| && m.globals[m.exports[name].gid].kind.LocalI32?
    ensures r.Ok? ==> var x := m.globals[m.exports[name].gid].kind.value;
      r.value == if x >= 0 then x else x + U32_LIMIT
  {
    if name !in m.exports then Err(NotExported(name))
    else
      match m.exports[name]
      case ExportGlobal(g) =>
        if g < |m.globals| && m.globals[g].kind.LocalI32? then Ok(m.globals[g].kind.value % U32_LIMIT)
        else Err(NotAnI32Global(name))
      case _ => Err(NotAGlobal(name))
  }

  /** Where `create_*_virt` wrote: the segment and offset of the settings
      static, and the address of the field data if there is any. */
  datatype Placement = Placement(seg: nat, off: nat, dataAddr: Option<u32>)

  /** Reserve the field data at the top of the stack as a new active
      segment, unless it is empty. */
  function PlaceFieldData(m: Module, bytes: Bytes, memory: nat): (r: Result<(Module, Option<u32>), Error>)
    ensures r.Ok? ==> (r.value.1.Some? <==> |bytes| > 0)
    ensures r.Ok? && |bytes| == 0 ==> r.value.0 == m
    ensures r.Ok? && |bytes| > 0 ==>
      r.value.0.data == m.data + [ActiveSegment(memory, r.value.1.value, bytes)]
      && r.value.0.funcs == m.funcs && r.value.0.imports == m.imports && r.value.0.exports == m.exports
  {
    if |bytes| == 0 then Ok((m, None))
    else
      match BumpStackGlobal(m, WrapI32(|bytes|))
      case Err(e) => Err(e)
      case Ok((m2, a)) => Ok((m2.(data := m2.data + [ActiveSegment(memory, a, bytes)]), Some(a as u32)))
  }

  /** The first half of `create_env_virt` / `create_config_virt`: find
      the settings static, stub the host imports for a fully encapsulated
      policy (`encapsulate`), and place the field data.  Gives the module,
      the static's address and the field data's address. */
  function Prepare(m: Module, k: Kind, encapsulate: bool, bytes: Bytes, memory: nat)
    : (r: Result<(Module, u32, Option<u32>), Error>)
    ensures r.Ok? ==> (r.value.2.Some? <==> |bytes| > 0)
  {
    match PtrAddr(m, PtrExport(k))
    case Err(e) => Err(e)
    case Ok(addr) =>
      var stubbed := if encapsulate then StubPolicyVirt(m, k) else Ok(m);
      match stubbed
      case Err(e) => Err(e)
      case Ok(m1) =>
        match PlaceFieldData(m1, bytes, memory)
        case Err(e) => Err(e)
        case Ok((m3, fa)) => Ok((m3, addr, fa))
  }

  /** The second half: patch the settings static in the segment that holds
      it.  A write past the segment's end panics (a slice index out of
      range), so only a segment too short for the bytes the policy and the
      field data address touch traps. */
  function Patch(m: Module, memory: nat, addr: nat, v: Virt, fa: Option<u32>): (r: Ret<(Module, Placement), Error>)
    ensures r.Trap? <==> (GetActiveDataSegment(m, memory, addr).Ok?
      && var (i, off) := GetActiveDataSegment(m, memory, addr).value; off + PatchedLen(v.host, fa) > |m.data[i].value|)
    ensures r.Done? ==> var (r3, p) := r.value;
      p.dataAddr == fa && p.seg < |m.data| && p.off + PatchedLen(v.host, fa) <= |m.data[p.seg].value|
      && Covers(m.data[p.seg], memory, addr) && m.data[p.seg].addr + p.off == addr
      && r3 == m.(data := m.data[p.seg := m.data[p.seg].(value := WriteHeader(m.data[p.seg].value, p.off, v, fa))])
  {
    match GetActiveDataSegment(m, memory, addr)
    case Err(e) => Fail(e)
    case Ok((i, off)) =>
      var seg := m.data[i];
      if off + PatchedLen(v.host, fa) > |seg.value| then Trap
      else Done((m.(data := m.data[i := seg.(value := WriteHeader(seg.value, off, v, fa))]), Placement(i, off, fa)))
  }

  /** `create_env_virt` / `create_config_virt`.  The failures are the
      library's and the `bail!`s. */
  function CreatePolicyVirt(m: Module, k: Kind, v: Virt, memory: nat): Ret<(Module, Placement), Error>
  {
    match Prepare(m, k, v.host.HostNone?, FieldDataBytes(v), memory)
    case Err(e) => Fail(e)
    case Ok((m3, addr, fa)) => Patch(m3, memory, addr, v, fa)
  }

  /** Preparing keeps the module's segments and adds one holding exactly
      the field data when there is any. */
  lemma PrepareKeepsData(m: Module, k: Kind, encapsulate: bool, bytes: Bytes, memory: nat)
    requires WellFormed(m) && Prepare(m, k, encapsulate, bytes, memory).Ok?
    ensures var (m3, _, fa) := Prepare(m, k, encapsulate, bytes, memory).value;
      |m3.data| == |m.data| + (if fa.Some? then 1 else 0) && m3.data[..|m.data|] == m.data
      && (fa.Some? ==> m3.data[|m.data|] == ActiveSegment(memory, fa.value, bytes))
  {
    if encapsulate {
      StubPolicyVirtSpec(m, k);
    }
  }

  /** Only a fully encapsulated policy stubs the host imports; the exports
      never change. */
  lemma CreateStubsOnlyForNone(m: Module, k: Kind, v: Virt, memory: nat)
    requires WellFormed(m) && CreatePolicyVirt(m, k, v, memory).Done?
    ensures var r := CreatePolicyVirt(m, k, v, memory).value.0;
      r.exports == m.exports
      && (v.host.HostNone? ==> StubPolicyVirt(m, k).Ok? && r.funcs == StubPolicyVirt(m, k).value.funcs
                               && r.imports == m.imports - Keys(ImportTable(k)))
      && (!v.host.HostNone? ==> r.funcs == m.funcs && r.imports == m.imports)
  {
    if v.host.HostNone? {
      StubPolicyVirtSpec(m, k);
    }
  }

  /** End to end with the adapter: when the static sits in one of the
      module's own segments holding the adapter's default settings, the
      patched bytes describe `v` for the adapter, point at a new segment
      holding exactly the field data (when there is any), and the adapter
      reads that field data back as the sorted overrides and keys. */
  lemma CreateDescribes(m: Module, k: Kind, v: Virt, memory: nat, r: Module, p: Placement)
    requires WellFormed(m) && Fits(v) && CreatePolicyVirt(m, k, v, memory) == Done((r, p))
    requires p.seg < |m.data| && p.off + HEADER_LEN <= |m.data[p.seg].value|
    requires m.data[p.seg].value[p.off..p.off + HEADER_LEN] == DEFAULT_HEADER
    ensures p.seg < |r.data| && p.off + HEADER_LEN <= |r.data[p.seg].value|
    ensures Describes(DecodeHeader(r.data[p.seg].value, p.off), v)
    ensures DecodeHeader(r.data[p.seg].value, p.off).dataPtr == if p.dataAddr.Some? then p.dataAddr.value else 0
    ensures p.dataAddr.Some? <==> |FieldDataBytes(v)| > 0
    ensures p.dataAddr.Some? ==> |r.data| == |m.data| + 1
                                 && r.data[|m.data|] == ActiveSegment(memory, p.dataAddr.value, FieldDataBytes(v))
  {
    var bytes := FieldDataBytes(v);
    var (m3, addr, fa) := Prepare(m, k, v.host.HostNone?, bytes, memory).value;
    PrepareKeepsData(m, k, v.host.HostNone?, bytes, memory);
    assert m3.data[p.seg] == m.data[p.seg];
    var b := m.data[p.seg].value;
    HeaderRoundTrip(b, p.off, v, fa);
  }

  /** And the adapter reads the field data back through the patched
      static as the sorted overrides and keys. */
  lemma CreateThenRead(m: Module, k: Kind, v: Virt, memory: nat, r: Module, p: Placement)
    requires WellFormed(m) && Fits(v) && CreatePolicyVirt(m, k, v, memory) == Done((r, p))
    requires p.seg < |m.data| && p.off + HEADER_LEN <= |m.data[p.seg].value|
    requires m.data[p.seg].value[p.off..p.off + HEADER_LEN] == DEFAULT_HEADER
    ensures p.seg < |r.data| && p.off + HEADER_LEN <= |r.data[p.seg].value|
    ensures ReadSettings(DecodeHeader(r.data[p.seg].value, p.off), FieldDataBytes(v))
         == Some((SortBy(v.overrides, KeyOf), if v.host.HostNone? then [] else SortBy(ListOf(v.host), Id)))
  {
    CreateDescribes(m, k, v, memory, r, p);
    ReadSettingsOf(DecodeHeader(r.data[p.seg].value, p.off), v);
  }
}
