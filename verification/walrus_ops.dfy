/** `src/walrus_ops.rs`: finding the data segment that holds an address,
    moving the stack pointer down, and stubbing one imported function. */
module WalrusOps {
  import opened Results
  import opened Bytes
  import opened Wasm

  /** An active segment of memory `mem` at an absolute address whose bytes
      cover `addr`. */
  predicate Covers(s: Segment, mem: nat, addr: nat)
  {
    s.ActiveSegment? && s.memory == mem && s.addr <= addr < s.addr + |s.value|
  }

  function FirstCovering(data: seq<Segment>, mem: nat, addr: nat, from: nat): (r: Option<nat>)
    requires from <= |data|
    ensures r.Some? ==> from <= r.value < |data| && Covers(data[r.value], mem, addr)
    ensures r.Some? ==> forall j :: from <= j < r.value ==> !Covers(data[j], mem, addr)
    ensures r.None? <==> forall j :: from <= j < |data| ==> !Covers(data[j], mem, addr)
    decreases |data| - from
  {
    if from == |data| then None
    else if Covers(data[from], mem, addr) then Some(from)
    else FirstCovering(data, mem, addr, from + 1)
  }

  /** `get_active_data_segment`: the first segment covering `addr`, and the
      offset of `addr` within it. */
  function GetActiveDataSegment(m: Module, mem: nat, addr: nat): (r: Result<(nat, nat), Error>)
    ensures r.Ok? ==> r.value.0 < |m.data| && Covers(m.data[r.value.0], mem, addr)
    ensures r.Ok? ==> r.value.0 < |m.data| && r.value.1 == addr - m.data[r.value.0].addr
    ensures r.Ok? ==> forall j :: 0 <= j < r.value.0 ==> !Covers(m.data[j], mem, addr)
    ensures r.Err? <==> forall j :: 0 <= j < |m.data| ==> !Covers(m.data[j], mem, addr)
    ensures r.Err? ==> r.error == NoDataSegment
  {
    match FirstCovering(m.data, mem, addr, 0)
    case Some(i) => Ok((i, addr - m.data[i].addr))
    case None => Err(NoDataSegment)
  }

  /** The offset found lies inside the segment's bytes. */
  lemma GetActiveDataSegmentInBounds(m: Module, mem: nat, addr: nat)
    requires GetActiveDataSegment(m, mem, addr).Ok?
    ensures var (i, off) := GetActiveDataSegment(m, mem, addr).value;
      i < |m.data| && off < |m.data[i].value| && m.data[i].addr + off == addr
  {
  }

  const STACK_POINTER: string := "__stack_pointer"

  function FirstNamed(globals: seq<Global>, name: string, from: nat): (r: Option<nat>)
    requires from <= |globals|
    ensures r.Some? ==> from <= r.value < |globals| && globals[r.value].name == Some(name)
    ensures r.Some? ==> forall j :: from <= j < r.value ==> globals[j].name != Some(name)
    ensures r.None? <==> forall j :: from <= j < |globals| ==> globals[j].name != Some(name)
    decreases |globals| - from
  {
    if from == |globals| then None
    else if globals[from].name == Some(name) then Some(from)
    else FirstNamed(globals, name, from + 1)
  }

  /** Two's-complement wrap-around of `i32` arithmetic. */
  function WrapI32(x: int): (r: i32)
    ensures -0x8000_0000 <= x < 0x8000_0000 ==> r == x
  {
    var y := (x + 0x8000_0000) % 0x1_0000_0000;
    y - 0x8000_0000
  }

  /** `bump_stack_global`: lower the constant initialiser of the global
      named `__stack_pointer` by `offset` and return the new value as a
      `u32`.  The subtraction is the wrapping `i32` one. */
  function BumpStackGlobal(m: Module, offset: i32): (r: Result<(Module, nat), Error>)
    ensures FirstNamed(m.globals, STACK_POINTER, 0).None? ==> r == Err(NoStackPointer)
    ensures r.Ok? ==> FirstNamed(m.globals, STACK_POINTER, 0).Some?
    ensures r.Ok? ==> r.value.0 == m.(globals := r.value.0.globals) && IsU32(r.value.1)
  {
    match FirstNamed(m.globals, STACK_POINTER, 0)
    case None => Err(NoStackPointer)
    case Some(g) =>
      match m.globals[g].kind
      case OtherGlobal => Err(StackNotConstI32)
      case LocalI32(value) =>
        if offset > value then Err(StackTooSmall(value, offset))
        else
          var v := WrapI32(value - offset);
          Ok((m.(globals := m.globals[g := Global(m.globals[g].name, LocalI32(v))]), v % U32_LIMIT))
  }

  /** What `bump_stack_global` does, case by case: the errors, and on
      success the first `__stack_pointer` global lowered by `offset` (no
      wrap-around for a non-negative offset) with nothing else changed. */
  lemma BumpStackGlobalSpec(m: Module, offset: i32)
    ensures var r := BumpStackGlobal(m, offset);
      match FirstNamed(m.globals, STACK_POINTER, 0)
      case None => r == Err(NoStackPointer)
      case Some(g) =>
        (!m.globals[g].kind.LocalI32? ==> r == Err(StackNotConstI32))
        && (m.globals[g].kind.LocalI32? && offset > m.globals[g].kind.value ==>
              r == Err(StackTooSmall(m.globals[g].kind.value, offset)))
        && (m.globals[g].kind.LocalI32? && offset <= m.globals[g].kind.value && offset >= 0 ==>
              r.Ok? && r.value.1 == m.globals[g].kind.value - offset
              && r.value.0.globals[g].kind == LocalI32(m.globals[g].kind.value - offset)
              && |r.value.0.globals| == |m.globals|
              && (forall j :: 0 <= j < |m.globals| && j != g ==> r.value.0.globals[j] == m.globals[j])
              && r.value.0.funcs == m.funcs && r.value.0.data == m.data
              && r.value.0.imports == m.imports && r.value.0.exports == m.exports)
  {
  }

  /** `stub_imported_func`: the function bound by import `(modName, name)`
      keeps its id and signature but becomes a local function that traps,
      and the import is deleted.  `None` where the source panics (no such
      import, or it does not bind an imported function). */
  function StubImportedFunc(m: Module, modName: string, name: string): (r: Option<Module>)
    ensures r.Some? <==> (modName, name) in m.imports && m.imports[(modName, name)] < |m.funcs|
                         && m.funcs[m.imports[(modName, name)]].ImportedFunc?
    ensures r.Some? ==> var fid := m.imports[(modName, name)];
      r.value.funcs == m.funcs[fid := LocalFunc(m.funcs[fid].sig, Unreachable)]
      && r.value.imports == m.imports - {(modName, name)}
      && r.value.exports == m.exports && r.value.globals == m.globals && r.value.data == m.data
  {
    if (modName, name) !in m.imports then None
    else
      var fid := m.imports[(modName, name)];
      if fid < |m.funcs| && m.funcs[fid].ImportedFunc? then
        Some(m.(funcs := m.funcs[fid := LocalFunc(m.funcs[fid].sig, Unreachable)],
                imports := m.imports - {(modName, name)}))
      else None
  }

  /** On a well-formed module this is the library's `replace_imported_func`
      applied to the function the import binds. */
  lemma StubImportedFuncIsReplace(m: Module, modName: string, name: string)
    requires WellFormed(m) && (modName, name) in m.imports
    ensures StubImportedFunc(m, modName, name).Some?
    ensures StubImportedFunc(m, modName, name).value == ReplaceImportedFunc(m, m.imports[(modName, name)]).value
  {
    var fid := m.imports[(modName, name)];
    var r := ReplaceImportedFunc(m, fid).value;
    assert r.imports == m.imports - {(modName, name)} by {
      forall k ensures k in r.imports <==> k in m.imports - {(modName, name)} {
        if k in m.imports && m.imports[k] == fid { assert k == (modName, name); }
      }
    }
  }
}
