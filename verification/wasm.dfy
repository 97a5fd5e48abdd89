/** The parts of a Wasm module (as the generator's module library holds it)
    that the generator reads and rewrites, with the library calls it makes
    stated as updates of those parts.

    Functions are numbered by their position; function imports are keyed by
    their `(module, name)` pair and name the function they bind; exports are
    keyed by name.  Every function is either bound to a host import or local. */
module Wasm {
  import opened Results
  import opened Bytes

  type i32 = x: int | -0x8000_0000 <= x < 0x8000_0000

  datatype ValType = I32 | I64 | F32 | F64 | V128 | FuncRef | ExternRef

  datatype Sig = Sig(params: seq<ValType>, results: seq<ValType>)

  /** A local body: a stub that traps, or code the model does not look into. */
  datatype Body = Unreachable | Code(instrs: seq<int>)

  datatype Func = ImportedFunc(sig: Sig) | LocalFunc(sig: Sig, body: Body)

  datatype ExportItem = ExportFunc(fid: nat) | ExportGlobal(gid: nat) | ExportOther

  /** A global is either a local one initialised with an `i32` constant, or
      something else (imported, another type, a computed initialiser). */
  datatype GlobalKind = LocalI32(value: i32) | OtherGlobal

  datatype Global = Global(name: Option<string>, kind: GlobalKind)

  /** A data segment: active at an absolute address of a memory, or another
      kind (passive, or at a computed address). */
  datatype Segment = ActiveSegment(memory: nat, addr: nat, value: Bytes) | OtherSegment(value: Bytes)

  type ImportName = (string, string)

  datatype Module = Module(
    funcs: seq<Func>,
    imports: map<ImportName, nat>,
    exports: map<string, ExportItem>,
    globals: seq<Global>,
    data: seq<Segment>)

  /** Why a library call or a generator step fails. */
  datatype Error =
    | MissingImport(modName: string, name: string)
    | NotImported(fid: nat)
    | NotLocal(fid: nat)
    | NonLocalExport
    | MissingExport(exportName: string)
    | UnexpectedRequirement
    | NoStackPointer
    | StackNotConstI32
    | StackTooSmall(value: int, offset: int)
    | NoDataSegment
    | NotExported(exportName: string)
    | NotAGlobal(exportName: string)
    | NotAnI32Global(exportName: string)
    | ExpectedCliFunction(fnName: string)

  /** Each function import names an imported function, and no two name the
      same one. */
  predicate WellFormed(m: Module)
  {
    (forall k :: k in m.imports ==> m.imports[k] < |m.funcs| && m.funcs[m.imports[k]].ImportedFunc?)
    && (forall k1, k2 :: k1 in m.imports && k2 in m.imports && m.imports[k1] == m.imports[k2] ==> k1 == k2)
  }

  /** `ModuleImports::get_func`: the function a `(module, name)` import binds. */
  function GetImportFunc(m: Module, modName: string, name: string): (r: Result<nat, Error>)
    ensures r.Ok? <==> (modName, name) in m.imports
    ensures r.Ok? ==> r.value == m.imports[(modName, name)]
    ensures r.Err? ==> r.error == MissingImport(modName, name)
  {
    if (modName, name) in m.imports then Ok(m.imports[(modName, name)]) else Err(MissingImport(modName, name))
  }

  function DropImportsOf(imports: map<ImportName, nat>, fid: nat): (r: map<ImportName, nat>)
    ensures forall k :: k in r <==> k in imports && imports[k] != fid
    ensures forall k :: k in r ==> r[k] == imports[k]
  {
    map k | k in imports && imports[k] != fid :: imports[k]
  }

  /** `Module::replace_imported_func` with a body that only traps: the
      function keeps its id and signature, becomes local, and its import
      goes away. */
  function ReplaceImportedFunc(m: Module, fid: nat): (r: Result<Module, Error>)
    ensures r.Ok? <==> fid < |m.funcs| && m.funcs[fid].ImportedFunc?
    ensures r.Err? ==> r.error == NotImported(fid)
    ensures r.Ok? ==> r.value.funcs == m.funcs[fid := LocalFunc(m.funcs[fid].sig, Unreachable)]
    ensures r.Ok? ==> r.value.imports == DropImportsOf(m.imports, fid)
    ensures r.Ok? ==> r.value.exports == m.exports && r.value.globals == m.globals && r.value.data == m.data
  {
    if fid < |m.funcs| && m.funcs[fid].ImportedFunc? then
      Ok(m.(funcs := m.funcs[fid := LocalFunc(m.funcs[fid].sig, Unreachable)],
            imports := DropImportsOf(m.imports, fid)))
    else Err(NotImported(fid))
  }

  lemma ReplaceImportedFuncWellFormed(m: Module, fid: nat)
    requires WellFormed(m) && ReplaceImportedFunc(m, fid).Ok?
    ensures WellFormed(ReplaceImportedFunc(m, fid).value)
  {
    var r := ReplaceImportedFunc(m, fid).value;
    forall k | k in r.imports ensures r.imports[k] < |r.funcs| && r.funcs[r.imports[k]].ImportedFunc? {
      assert r.imports[k] == m.imports[k] != fid;
    }
  }

  /** `Module::replace_exported_func` with a body that only traps: only a
      local function can be replaced. */
  function ReplaceExportedFunc(m: Module, fid: nat): (r: Result<Module, Error>)
    ensures r.Ok? <==> fid < |m.funcs| && m.funcs[fid].LocalFunc?
    ensures r.Err? ==> r.error == NotLocal(fid)
    ensures r.Ok? ==> r.value == m.(funcs := m.funcs[fid := LocalFunc(m.funcs[fid].sig, Unreachable)])
  {
    if fid < |m.funcs| && m.funcs[fid].LocalFunc? then
      Ok(m.(funcs := m.funcs[fid := LocalFunc(m.funcs[fid].sig, Unreachable)]))
    else Err(NotLocal(fid))
  }

  /** `ModuleExports::remove`. */
  function RemoveExport(m: Module, name: string): (r: Result<Module, Error>)
    ensures r.Ok? <==> name in m.exports
    ensures r.Err? ==> r.error == MissingExport(name)
    ensures r.Ok? ==> r.value == m.(exports := m.exports - {name})
  {
    if name in m.exports then Ok(m.(exports := m.exports - {name})) else Err(MissingExport(name))
  }

  /** `ModuleExports::get_func`: the function an export names. */
  function GetExportedFunc(m: Module, name: string): (r: Result<nat, Error>)
    ensures r.Ok? <==> name in m.exports && m.exports[name].ExportFunc?
    ensures r.Ok? ==> r.value == m.exports[name].fid
  {
    if name in m.exports && m.exports[name].ExportFunc? then Ok(m.exports[name].fid) else Err(MissingExport(name))
  }

  /** `ModuleFunctions::add_local`: the new function gets the next id. */
  function AddLocalFunc(m: Module, sig: Sig, body: Body): (r: (Module, nat))
    ensures r.1 == |m.funcs| && r.0.funcs == m.funcs + [LocalFunc(sig, body)]
    ensures r.0.imports == m.imports && r.0.exports == m.exports
    ensures r.0.globals == m.globals && r.0.data == m.data
  {
    (m.(funcs := m.funcs + [LocalFunc(sig, body)]), |m.funcs|)
  }

  lemma AddLocalFuncWellFormed(m: Module, sig: Sig, body: Body)
    requires WellFormed(m)
    ensures WellFormed(AddLocalFunc(m, sig, body).0)
  {
    var r := AddLocalFunc(m, sig, body).0;
    forall k | k in r.imports ensures r.funcs[r.imports[k]] == m.funcs[m.imports[k]] {
    }
  }
}
