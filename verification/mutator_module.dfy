/** The per-section wrappers of `src/mutator.rs` (`ModuleTypes`,
    `ModuleFunctions`, `ModuleImports`, `ModuleExports`) and
    `Module::get_or_create_import_func`, over the index-mutation layer. */
module MutatorModule {
  import opened Results
  import opened Mutator

  datatype ValType = I32 | I64 | F32 | F64 | V128 | FuncRef | ExternRef

  datatype FuncType = FuncType(params: seq<ValType>, results: seq<ValType>)

  /** `FunctionKind`: an imported function names its import and type; a
      local one carries its type and encoded body. */
  datatype FunctionKind = ImportFn(importId: Id, ty: Id) | LocalFn(ty: Id, body: seq<int>)

  datatype Function = Function(kind: FunctionKind, name: Option<string>)

  datatype ImportKind = FunctionImport(fid: Id)

  /** An import records its own id, as the source's `Import::id` does. */
  datatype Import = Import(modName: string, name: string, kind: ImportKind, id: Id)

  datatype ExportItem = FunctionExport(fid: Id) | GlobalExport(gid: Id)

  datatype Export = Export(name: string, item: ExportItem, id: Id)

  /** New local functions are anchored just after the original imported
      functions, so that the indices of most local functions survive. */
  datatype ModuleFunctions = ModuleFunctions(mutations: IndexMutations<Function>, originalImportFnLen: nat)

  datatype Module = Module(
    types: IndexMutations<FuncType>,
    funcs: ModuleFunctions,
    imports: IndexMutations<Import>,
    exports: IndexMutations<Export>)

  /** Everything an index space lists, originals first, then insertions in
      insertion order: the order in which the source iterates it. */
  function Listing<T>(m: IndexMutations<T>): seq<T>
  {
    m.originals + seq(|m.insertions|, i requires 0 <= i < |m.insertions| => m.insertions[i].1)
  }

  lemma ListingAt<T>(m: IndexMutations<T>, id: Id)
    requires InRange(m, id)
    ensures Position(m, id) < |Listing(m)|
    ensures Listing(m)[Position(m, id)] == Get(m, id)
  {
  }

  /** Where an id sits in `Listing`. */
  function Position<T>(m: IndexMutations<T>, id: Id): nat
  {
    match id
    case OriginalIdx(o) => o
    case InsertionIdx(j) => |m.originals| + j
  }

  // ---------------------------------------------------------------------
  // Section wrappers

  /** `ModuleTypes::add`: a new type, anchored before original type 0. */
  function AddType(types: IndexMutations<FuncType>, params: seq<ValType>, results: seq<ValType>): (r: (IndexMutations<FuncType>, Id))
    ensures r.1 == NextInsertionId(types) && InRange(r.0, r.1)
    ensures Get(r.0, r.1) == FuncType(params, results)
    ensures r.0.insertions == types.insertions + [(0, FuncType(params, results))]
    ensures r.0.originals == types.originals && r.0.deletions == types.deletions
  {
    InsertAt(types, FuncType(params, results), 0)
  }

  /** `ModuleFunctions::add_local`. */
  function AddLocal(funcs: ModuleFunctions, ty: Id, body: seq<int>): (r: (ModuleFunctions, Id))
    ensures r.1 == NextInsertionId(funcs.mutations) && InRange(r.0.mutations, r.1)
    ensures Get(r.0.mutations, r.1) == Function(LocalFn(ty, body), None)
    ensures r.0.mutations.insertions[r.1.j].0 == funcs.originalImportFnLen
    ensures r.0.originalImportFnLen == funcs.originalImportFnLen
    ensures Listing(r.0.mutations) == Listing(funcs.mutations) + [Function(LocalFn(ty, body), None)]
  {
    var (m, id) := InsertAt(funcs.mutations, Function(LocalFn(ty, body), None), funcs.originalImportFnLen);
    (funcs.(mutations := m), id)
  }

  /** `ModuleFunctions::add_import`: imported functions come first, so the
      new one is anchored before original function 0. */
  function AddImport(funcs: ModuleFunctions, ty: Id, importId: Id): (r: (ModuleFunctions, Id))
    ensures r.1 == NextInsertionId(funcs.mutations) && InRange(r.0.mutations, r.1)
    ensures Get(r.0.mutations, r.1) == Function(ImportFn(importId, ty), None)
    ensures r.0.mutations.insertions[r.1.j].0 == 0
    ensures r.0.originalImportFnLen == funcs.originalImportFnLen
    ensures Listing(r.0.mutations) == Listing(funcs.mutations) + [Function(ImportFn(importId, ty), None)]
  {
    var (m, id) := InsertAt(funcs.mutations, Function(ImportFn(importId, ty), None), 0);
    (funcs.(mutations := m), id)
  }

  /** `ModuleFunctions::substitute`; `None` where the source hits its `todo!`. */
  function SubstituteFunc(funcs: ModuleFunctions, id: Id, sub: Id): (r: Option<ModuleFunctions>)
    ensures r.Some? <==> id.OriginalIdx?
    ensures r.Some? ==> r.value.mutations.substitutions == funcs.mutations.substitutions[id.o := sub]
    ensures r.Some? ==> Listing(r.value.mutations) == Listing(funcs.mutations)
  {
    match Substitute(funcs.mutations, id, sub)
    case Some(m) => Some(funcs.(mutations := m))
    case None => None
  }

  /** `ModuleImports::add`: pushes directly onto the insertion list, with
      anchor 0, an import that records the id it is given. */
  function AddImportEntry(imports: IndexMutations<Import>, modName: string, name: string, kind: ImportKind): (r: (IndexMutations<Import>, Id))
    ensures r == InsertAt(imports, Import(modName, name, kind, NextInsertionId(imports)), 0)
    ensures InRange(r.0, r.1) && Get(r.0, r.1).id == r.1
  {
    var id := InsertionIdx(|imports.insertions|);
    (imports.(insertions := imports.insertions + [(0, Import(modName, name, kind, id))]), id)
  }

  /** `ModuleExports::add`, the same scheme for exports. */
  function AddExportEntry(exports: IndexMutations<Export>, name: string, item: ExportItem): (r: (IndexMutations<Export>, Id))
    ensures r == InsertAt(exports, Export(name, item, NextInsertionId(exports)), 0)
    ensures InRange(r.0, r.1) && Get(r.0, r.1).id == r.1
  {
    var id := InsertionIdx(|exports.insertions|);
    (exports.(insertions := exports.insertions + [(0, Export(name, item, id))]), id)
  }

  /** `Module::add_import_func`: the function id is reserved before the
      import is created, so that the import can name it. */
  function AddImportFunc(md: Module, modName: string, name: string, ty: Id): (r: (Module, Id, Id))
    ensures InRange(r.0.funcs.mutations, r.1) && InRange(r.0.imports, r.2)
    ensures Get(r.0.funcs.mutations, r.1) == Function(ImportFn(r.2, ty), None)
    ensures Get(r.0.imports, r.2) == Import(modName, name, FunctionImport(r.1), r.2)
    ensures Listing(r.0.imports) == Listing(md.imports) + [Get(r.0.imports, r.2)]
    ensures Listing(r.0.funcs.mutations) == Listing(md.funcs.mutations) + [Get(r.0.funcs.mutations, r.1)]
    ensures r.0.types == md.types && r.0.exports == md.exports
    ensures r.0.imports.originals == md.imports.originals && r.0.funcs.mutations.originals == md.funcs.mutations.originals
  {
    var fid := NextInsertionId(md.funcs.mutations);
    var (imports, importId) := AddImportEntry(md.imports, modName, name, FunctionImport(fid));
    var (funcs, func) := AddImport(md.funcs, ty, importId);
    (md.(imports := imports, funcs := funcs), func, importId)
  }

  // ---------------------------------------------------------------------
  // Looking an import up

  predicate Names(imp: Import, modName: string, name: string)
  {
    imp.modName == modName && imp.name == name
  }

  /** The first position of `s` whose element satisfies `p`. */
  function FirstMatch<T>(s: seq<T>, p: T -> bool): (r: Option<nat>)
    ensures r.Some? ==> r.value < |s| && p(s[r.value])
    ensures r.Some? ==> forall i :: 0 <= i < r.value ==> !p(s[i])
    ensures r.None? <==> forall i :: 0 <= i < |s| ==> !p(s[i])
  {
    if |s| == 0 then None
    else if p(s[0]) then Some(0)
    else match FirstMatch(s[1..], p)
      case Some(i) => assert s[1..][i] == s[i + 1]; Some(i + 1)
      case None => assert forall i :: 1 <= i < |s| ==> s[i] == s[1..][i - 1]; None
  }

  /** `IndexMutationsIter::next` as written: it walks the originals, then
      jumps to insertion 0 and stays there, handing out that insertion on
      every later call.  Returns the item (if any) and the next cursor. */
  function IterNext<T>(m: IndexMutations<T>, cur: Id): (Option<T>, Id)
    decreases if cur.OriginalIdx? then 1 else 0
  {
    match cur
    case OriginalIdx(o) =>
      if o < |m.originals| then (Some(m.originals[o]), OriginalIdx(o + 1))
      else if |m.insertions| > 0 then IterNext(m, InsertionIdx(0))
      else (None, cur)
    case InsertionIdx(j) =>
      if j < |m.insertions| then (Some(m.insertions[j].1), cur) else (None, cur)
  }

  /** What `iter().enumerate().find(p)` can do. */
  datatype Search<T> = Found(idx: nat, item: T) | NotFound | Diverges

  /** `Iterator::find` over `enumerate()`, driven by `IterNext`; `fuel` bounds
      the number of steps, and `Diverges` means the bound ran out. */
  function FindFrom<T>(m: IndexMutations<T>, p: T -> bool, cur: Id, count: nat, fuel: nat): Search<T>
    decreases fuel
  {
    if fuel == 0 then Diverges
    else
      var (x, next) := IterNext(m, cur);
      match x
      case None => NotFound
      case Some(item) => if p(item) then Found(count, item) else FindFrom(m, p, next, count + 1, fuel - 1)
  }

  /** The search with enough steps to pass every original once. */
  function FindAsWritten<T>(m: IndexMutations<T>, p: T -> bool): Search<T>
  {
    FindFrom(m, p, OriginalIdx(0), 0, |m.originals| + 1)
  }

  /** The condition under which the source's search never returns: no
      original matches, and insertion 0 exists but does not match. */
  predicate StuckOnFirstInsertion<T>(m: IndexMutations<T>, p: T -> bool)
  {
    (forall o :: 0 <= o < |m.originals| ==> !p(m.originals[o]))
    && |m.insertions| > 0 && !p(m.insertions[0].1)
  }

  lemma {:induction false} StuckForever<T>(m: IndexMutations<T>, p: T -> bool, count: nat, fuel: nat)
    requires |m.insertions| > 0 && !p(m.insertions[0].1)
    ensures FindFrom(m, p, InsertionIdx(0), count, fuel) == Diverges
    decreases fuel
  {
    if fuel > 0 {
      StuckForever(m, p, count + 1, fuel - 1);
    }
  }

  lemma {:induction false} FindHangsFrom<T>(m: IndexMutations<T>, p: T -> bool, o: nat, fuel: nat)
    requires StuckOnFirstInsertion(m, p) && o <= |m.originals|
    ensures FindFrom(m, p, OriginalIdx(o), o, fuel) == Diverges
    decreases fuel
  {
    if fuel > 0 {
      if o < |m.originals| {
        FindHangsFrom(m, p, o + 1, fuel - 1);
      } else {
        assert IterNext(m, OriginalIdx(o)) == IterNext(m, InsertionIdx(0));
        StuckForever(m, p, o + 1, fuel - 1);
      }
    }
  }

  /** Under `StuckOnFirstInsertion`, no number of steps ends the search. */
  lemma FindHangs<T>(m: IndexMutations<T>, p: T -> bool, fuel: nat)
    requires StuckOnFirstInsertion(m, p)
    ensures FindFrom(m, p, OriginalIdx(0), 0, fuel) == Diverges
  {
    FindHangsFrom(m, p, 0, fuel);
  }

  /** The corrected search: every listed item, originals then insertions. */
  function Find<T>(m: IndexMutations<T>, p: T -> bool): (r: Search<T>)
    ensures !r.Diverges?
    ensures r.Found? ==> r.idx < |Listing(m)| && r.item == Listing(m)[r.idx] && p(r.item)
    ensures r.Found? ==> forall i :: 0 <= i < r.idx ==> !p(Listing(m)[i])
    ensures r.NotFound? <==> forall i :: 0 <= i < |Listing(m)| ==> !p(Listing(m)[i])
  {
    match FirstMatch(Listing(m), p)
    case Some(i) => Found(i, Listing(m)[i])
    case None => NotFound
  }

  lemma {:induction false} FindAsWrittenFrom<T>(m: IndexMutations<T>, p: T -> bool, o: nat)
    requires o <= |m.originals| && !StuckOnFirstInsertion(m, p)
    requires forall i :: 0 <= i < o ==> !p(m.originals[i])
    requires FirstMatch(Listing(m), p).Some? ==> FirstMatch(Listing(m), p).value <= |m.originals|
    ensures FindFrom(m, p, OriginalIdx(o), o, |m.originals| + 1 - o) == Find(m, p)
    decreases |m.originals| - o
  {
    var l := Listing(m);
    if o < |m.originals| {
      assert l[o] == m.originals[o];
      if !p(m.originals[o]) {
        FindAsWrittenFrom(m, p, o + 1);
      }
    } else if |m.insertions| > 0 {
      assert l[o] == m.insertions[0].1;
      assert IterNext(m, OriginalIdx(o)) == IterNext(m, InsertionIdx(0));
    } else {
      assert |l| == |m.originals|;
    }
  }

  /** If the first match lies past insertion 0, or there is none while
      insertions exist, the source's search is stuck. */
  lemma StuckWhenPastFirstInsertion<T>(m: IndexMutations<T>, p: T -> bool)
    requires (Find(m, p).Found? && Find(m, p).idx > |m.originals|) || (Find(m, p).NotFound? && |m.insertions| > 0)
    ensures StuckOnFirstInsertion(m, p)
  {
    var l := Listing(m);
    forall i | 0 <= i < |m.originals| ensures !p(m.originals[i]) {
      assert l[i] == m.originals[i];
    }
    assert l[|m.originals|] == m.insertions[0].1;
  }

  /** Whenever the source's search does terminate, it agrees with `Find`;
      it fails to terminate exactly when `Find` would have to look past
      insertion 0. */
  lemma FindAsWrittenAgrees<T>(m: IndexMutations<T>, p: T -> bool)
    ensures StuckOnFirstInsertion(m, p) <==>
      (Find(m, p).NotFound? && |m.insertions| > 0) || (Find(m, p).Found? && Find(m, p).idx > |m.originals|)
    ensures !StuckOnFirstInsertion(m, p) ==> FindAsWritten(m, p) == Find(m, p)
    ensures StuckOnFirstInsertion(m, p) ==> FindAsWritten(m, p) == Diverges
  {
    var l := Listing(m);
    var r := Find(m, p);
    if StuckOnFirstInsertion(m, p) {
      FindHangs(m, p, |m.originals| + 1);
      forall i | 0 <= i <= |m.originals| && i < |l| ensures !p(l[i]) {
        if i == |m.originals| { assert l[i] == m.insertions[0].1; } else { assert l[i] == m.originals[i]; }
      }
    } else {
      if (r.Found? && r.idx > |m.originals|) || (r.NotFound? && |m.insertions| > 0) {
        StuckWhenPastFirstInsertion(m, p);
      }
      FindAsWrittenFrom(m, p, 0);
    }
  }

  // ---------------------------------------------------------------------
  // get_or_create_import_func

  /** What `get_or_create_import_func` returns: the module, the function id,
      the import id and the position at which the import was found (0 when
      it was created). */
  datatype ImportFunc = ImportFunc(md: Module, fid: Id, importId: Id, idx: nat)

  /** The answer for an import that was found. */
  function Existing(md: Module, idx: nat, existing: Import): ImportFunc
  {
    match existing.kind
    case FunctionImport(fid) => ImportFunc(md, fid, existing.id, idx)
  }

  function Created(md: Module, modName: string, name: string, ty: Id): ImportFunc
  {
    var (md', fid, importId) := AddImportFunc(md, modName, name, ty);
    ImportFunc(md', fid, importId, 0)
  }

  /** `get_or_create_import_func` as written, over the source's iterator;
      `None` when its search never returns. */
  function GetOrCreateImportFuncAsWritten(md: Module, modName: string, name: string, ty: Id): Option<ImportFunc>
  {
    match FindAsWritten(md.imports, (imp: Import) => Names(imp, modName, name))
    case Found(idx, existing) => Some(Existing(md, idx, existing))
    case NotFound => Some(Created(md, modName, name, ty))
    case Diverges => None
  }

  /** The lookup the source evidently intends: search every import. */
  function GetOrCreateImportFunc(md: Module, modName: string, name: string, ty: Id): (r: ImportFunc)
    ensures (exists i :: 0 <= i < |Listing(md.imports)| && Names(Listing(md.imports)[i], modName, name)) ==>
      r.md == md && r.idx < |Listing(md.imports)| && Names(Listing(md.imports)[r.idx], modName, name)
      && r.importId == Listing(md.imports)[r.idx].id && Listing(md.imports)[r.idx].kind == FunctionImport(r.fid)
    ensures (forall i :: 0 <= i < |Listing(md.imports)| ==> !Names(Listing(md.imports)[i], modName, name)) ==>
      InRange(r.md.imports, r.importId) && InRange(r.md.funcs.mutations, r.fid)
      && Listing(r.md.imports) == Listing(md.imports) + [Import(modName, name, FunctionImport(r.fid), r.importId)]
      && Listing(r.md.funcs.mutations) == Listing(md.funcs.mutations) + [Function(ImportFn(r.importId, ty), None)]
  {
    var p := (imp: Import) => Names(imp, modName, name);
    match Find(md.imports, p)
    case Found(idx, existing) => Existing(md, idx, existing)
    case NotFound => Created(md, modName, name, ty)
  }

  /** Imports carry their own ids, as every import the module builds does. */
  predicate SelfNamed(imports: IndexMutations<Import>)
  {
    forall i :: 0 <= i < |imports.insertions| ==> imports.insertions[i].1.id == InsertionIdx(i)
  }

  /** Asking twice for the same import creates it at most once: the second
      call hands back the function and import of the first. */
  lemma GetOrCreateIdempotent(md: Module, modName: string, name: string, ty: Id)
    ensures var r1 := GetOrCreateImportFunc(md, modName, name, ty);
      var r2 := GetOrCreateImportFunc(r1.md, modName, name, ty);
      r2.md == r1.md && r2.fid == r1.fid && r2.importId == r1.importId
  {
    var r1 := GetOrCreateImportFunc(md, modName, name, ty);
    var l := Listing(md.imports);
    var l1 := Listing(r1.md.imports);
    var p := (imp: Import) => Names(imp, modName, name);
    if forall i :: 0 <= i < |l| ==> !Names(l[i], modName, name) {
      assert l1[|l|] == Import(modName, name, FunctionImport(r1.fid), r1.importId);
      assert forall i :: 0 <= i < |l| ==> l1[i] == l[i];
      var r2 := Find(r1.md.imports, p);
      assert r2.Found? && r2.idx == |l|;
    }
  }

  /** Where the source's lookup returns at all, it returns what the
      corrected one does. */
  lemma GetOrCreateAsWrittenAgrees(md: Module, modName: string, name: string, ty: Id)
    ensures GetOrCreateImportFuncAsWritten(md, modName, name, ty).Some? ==>
      GetOrCreateImportFuncAsWritten(md, modName, name, ty).value == GetOrCreateImportFunc(md, modName, name, ty)
    ensures GetOrCreateImportFuncAsWritten(md, modName, name, ty).None? <==>
      StuckOnFirstInsertion(md.imports, (imp: Import) => Names(imp, modName, name))
  {
    FindAsWrittenAgrees(md.imports, (imp: Import) => Names(imp, modName, name));
  }

  function EmptyModule(): Module
  {
    Module(New([]), ModuleFunctions(New([]), 0), New([]), New([]))
  }

  /** After one import function `wasi:a` `f` has been created in an empty
      module, asking for another one, `wasi:b` `g`, never returns; the
      corrected lookup creates it as a second import. */
  lemma GetOrCreateHangsExample(ty: Id)
    ensures var md := Created(EmptyModule(), "wasi:a", "f", ty).md;
      GetOrCreateImportFuncAsWritten(md, "wasi:b", "g", ty).None?
      && |Listing(GetOrCreateImportFunc(md, "wasi:b", "g", ty).md.imports)| == 2
  {
    var md := Created(EmptyModule(), "wasi:a", "f", ty).md;
    var p := (imp: Import) => Names(imp, "wasi:b", "g");
    assert md.imports.insertions[0].1.modName == "wasi:a";
    assert "wasi:a" != "wasi:b" by { assert "wasi:a"[5] != "wasi:b"[5]; }
    assert StuckOnFirstInsertion(md.imports, p);
    GetOrCreateAsWrittenAgrees(md, "wasi:b", "g", ty);
    var l := Listing(md.imports);
    assert |l| == 1 && l[0] == md.imports.insertions[0].1;
  }
}
