# WASI-Virt core, modelled in Dafny

WASI-Virt builds a *virtual adapter*: a WebAssembly component that sits in
front of another component and answers its WASI calls. These calls cover the
environment, runtime configuration, stdio, filesystem and I/O streams. For
each one the adapter follows a policy fixed at build time instead of
forwarding it to the host. This project models two halves of the tool.

The generator side:

- the index bookkeeping of the wasm rewriter (`IndexMutations`: deletions,
  anchored insertions, substitutions, `assign_diffs`, `get_idx` and the
  emitted order);
- the data-segment stack allocator, and the global and data-segment helpers;
- how the virtual filesystem tree is resolved, flattened breadth-first into
  the static index and given its header;
- how the stdio policy is encoded into flag bits;
- the environment and configuration policy blobs;
- the subsystem stub/strip tables and the deny stubs.

The run-time side:

- the adapter's decoding of those blobs;
- its filesystem, stream and pollable calls over the static index. This
  covers both the current adapter and the older static-filesystem adapter.

Everything is pure functions over immutable datatypes. Host calls,
wasm-binary parsing and the rest of the outside world are function-typed
parameters. Each operation has a contract, and the properties connecting
operations are lemmas. The main ones:

- `get_idx` agrees with the emitted order;
- the policy blobs round-trip through their decoders;
- the index lookup over the flattened index agrees with looking the path up
  in the tree;
- the stdio flags round-trip;
- stream reads deliver a file's bytes.

Modules follow the source files: `Mutator`, `MutatorIndex`, `MutatorIter`
and `MutatorModule` (`src/mutator.rs`); `Wasm`, `WalrusOps` and `Data`
(`src/walrus_ops.rs`, `src/data.rs`); `FsTree`, `FsBfs`, `FsIndex`, `IoVirt`,
`IoVirtStubs` and `Stdio` (`src/virt_io.rs`; `IoVirtStubs` holds the inline
stub tables `create_io_virt` uses); `FieldData`, `PolicyVirt`, `Fallback`,
`EnvAdapter` and `ConfigAdapter` (`src/virt_env.rs`, `src/virt_config.rs`,
`virtual-adapter/src/env.rs`, `virtual-adapter/src/config.rs`); `Stubs`,
`Subsystems` and `Deny` (the per-subsystem tables of `src/virt_io/*.rs`,
and `src/virt_deny/mod.rs`);
`StaticIndex`, `IndexLookup`, `IoState`, `IoFiles` and `IoStreams`
(`virtual-adapter/src/io.rs`); `FsAdapter` (`virtual-adapter/src/fs.rs`).
`Results`, `Bytes`, `Lex`, `Sorting`, `SortedMap` and `Text` hold the shared
types and helpers. Rust panics (`todo!`, `unreachable!`, out-of-range
slices, failed `assert!`s) inside the adapter are the `Trap` outcome of
`Ret`.

## Model

| member | source | states |
|---|---|---|
| Mutator.New | src/mutator.rs:499-506 | a fresh index space holds the originals and records no substitution, deletion or insertion |
| Mutator.Delete | src/mutator.rs:508-510 | deleting appends the id to the deletion list and changes nothing else |
| Mutator.InsertAt | src/mutator.rs:512-515 | the item is appended with its anchor, the id returned is the next insertion id (the old length), and `get` on it gives the item back |
| Mutator.NextInsertionId | src/mutator.rs:517-519 | the next insertion id names no existing item |
| Mutator.Substitute | src/mutator.rs:582-591 | substituting an original records the substitute and leaves the item lists alone; substituting an inserted item is unsupported |
| Mutator.Get | src/mutator.rs:593-598 | an original id gives the original at that index, an insertion id the inserted item |
| Mutator.AssignDiffsSorted | src/mutator.rs:521-580 | the diffs `assign_diffs` builds form an ordered map with strictly ascending keys |
| Mutator.AssignDiffsSpec | src/mutator.rs:521-580 | `assign_diffs` fails exactly when an inserted item was deleted; otherwise key k has an entry iff original k was deleted or something is anchored at k, and the entry's deletion flag is "k was deleted" and its insertions are those anchored at k in insertion order |
| MutatorIndex.Resolve | src/mutator.rs:607-613 | following substitutions ends on an id that is not substituted, and an unsubstituted id resolves to itself |
| MutatorIndex.FindIndex | src/mutator.rs:631-635 | the position found is the first occurrence of the insertion; none is found iff it is absent |
| MutatorIndex.GetIdxLocates | src/mutator.rs:607-646 | for valid mutations, `get_idx` of any live id (after following substitutions) is a position in the emitted order, and the emitted order holds that very id there |
| MutatorIndex.GetIdxUnknownInsertion | src/mutator.rs:624-645 | an insertion id never handed out reaches the `unreachable!()` |
| MutatorIndex.GetIdxUnmutated | src/mutator.rs:607-621 | with nothing recorded, `assign_diffs` is empty and every original keeps its index |
| MutatorIndex.GetIdxFollowsSubstitute | src/mutator.rs:607-613 | a substituted original gets the index of its substitute, and the index of the end of its chain of substitutions whenever that chain ends |
| MutatorIndex.ResolveMoreFuel | src/mutator.rs:607-613 | once a chain of substitutions has ended, following it with more steps allowed ends in the same place |
| MutatorIndex.ResolveWithinSize | src/mutator.rs:607-613 | a chain of substitutions that ends at all ends within as many steps as there are substitutions, in the same place |
| MutatorIndex.ChainBackIsCyclic | src/mutator.rs:607-613 | when an original's substitute leads back to the original, no number of steps ends its chain: the recursion never returns |
| MutatorIter.AssignDiffsFit | src/mutator.rs:521-580 | under valid mutations every insertion the diffs list exists and every key lies within the original index space |
| MutatorIter.RunPastEnd | src/mutator.rs:722-746 | started past the last original, the diff iterator yields nothing |
| MutatorIter.DiffIterEmits | src/mutator.rs:655-672 | `diff_iter_from(from)` yields, without its `Skip` markers, exactly the items of the emitted order from original `from` on; for each original, first the insertions anchored there, then the original unless deleted |
| MutatorIter.GetIdxMatchesDiffIter | src/mutator.rs:607-646 | the item `diff_iter` yields at the index `get_idx` computes is the item the id (after substitution) names, which is what `emit_wasm` relies on when it remaps calls |
| MutatorModule.ListingAt | src/mutator.rs:679-701 | every in-range id's item sits in the listing at the id's position |
| MutatorModule.AddType | src/mutator.rs:120-131 | a new type is inserted before original type 0 and `get` on the returned id gives it |
| MutatorModule.AddLocal | src/mutator.rs:257-268 | a new local function is anchored just after the original imported functions and appended to the listing |
| MutatorModule.AddImport | src/mutator.rs:270-278 | a new imported function is anchored before original function 0 and appended to the listing |
| MutatorModule.SubstituteFunc | src/mutator.rs:288-296 | substituting a function records the substitute for originals only and does not change the listing |
| MutatorModule.AddImportEntry | src/mutator.rs:393-405 | a new import is inserted at anchor 0 and records its own id |
| MutatorModule.AddExportEntry | src/mutator.rs:328-339 | a new export is inserted at anchor 0 and records its own id |
| MutatorModule.AddImportFunc | src/mutator.rs:771-781 | exactly one import and one function are added, each naming the other; types, exports and originals are unchanged |
| MutatorModule.FirstMatch | src/mutator.rs:755-758 | the position returned is the first whose element matches; none iff nothing matches |
| MutatorModule.FindHangs | src/mutator.rs:679-701 | when no original matches and insertion 0 exists but does not match, the search over the import iterator never ends |
| MutatorModule.StuckWhenPastFirstInsertion | src/mutator.rs:679-701 | a first match after insertion 0, or no match while insertions exist, leaves the search stuck |
| MutatorModule.FindAsWrittenAgrees | src/mutator.rs:679-701 | the search as written is stuck exactly in those cases, and otherwise finds what searching every listed item finds |
| MutatorModule.Find | src/mutator.rs:750-758 | the corrected search returns the first listed import that matches, with its position, or reports that none matches |
| MutatorModule.GetOrCreateImportFunc | src/mutator.rs:750-769 | an existing `(module, name)` import gives back its function and import ids and leaves the module alone; otherwise exactly one import and one imported function are added |
| MutatorModule.GetOrCreateIdempotent | src/mutator.rs:750-769 | asking twice for the same import creates it at most once: the second call changes nothing and returns the first call's ids |
| MutatorModule.GetOrCreateAsWrittenAgrees | src/mutator.rs:750-769 | whenever the lookup as written returns, it returns what the corrected lookup does; it fails to return exactly when the search is stuck |
| MutatorModule.GetOrCreateHangsExample | src/mutator.rs:679-701 | after creating one import in an empty module, asking for a second one never returns as written, while the corrected lookup adds it as a second import |
| Wasm.GetImportFunc | src/virt_io/filesystem.rs:220-221 | the function an import `(module, name)` binds, or a missing-import error exactly when there is none |
| Wasm.ReplaceImportedFunc | src/virt_io/filesystem.rs:223-229 | replacing an imported function with an `unreachable` body keeps its id and signature, drops the imports binding it, and fails when the id is not an imported function |
| Wasm.ReplaceImportedFuncWellFormed | src/virt_io/filesystem.rs:223-229 | replacing an imported function keeps the module well formed |
| Wasm.ReplaceExportedFunc | src/virt_env.rs:249-251 | replacing a local function's body with `unreachable` keeps everything else, and fails on an imported function |
| Wasm.RemoveExport | src/virt_io/filesystem.rs:295-300 | removing an export deletes just that name, and fails when it is not exported |
| Wasm.GetExportedFunc | src/virt_env.rs:243-248 | the function an export name refers to, found exactly when the name exports a function |
| Wasm.AddLocalFunc | src/virt_deny/mod.rs:55-61 | a new local function gets the next function index and nothing else changes |
| Wasm.AddLocalFuncWellFormed | src/virt_deny/mod.rs:55-61 | adding a local function keeps the module well formed |
| WalrusOps.FirstCovering | src/walrus_ops.rs:12-23 | the first active absolute segment on the memory with loc <= addr < loc + len, or none iff no segment covers addr |
| WalrusOps.GetActiveDataSegment | src/walrus_ops.rs:7-39 | the first covering segment and the offset addr - loc; an error exactly when no segment covers addr |
| WalrusOps.GetActiveDataSegmentInBounds | src/walrus_ops.rs:29-38 | the offset found lies inside the segment's bytes |
| WalrusOps.FirstNamed | src/walrus_ops.rs:42-48 | the first global named `__stack_pointer`, or none iff there is none |
| WalrusOps.BumpStackGlobal | src/walrus_ops.rs:41-67 | no stack-pointer global is an error; on success only that global changes and the new value is returned |
| WalrusOps.BumpStackGlobalSpec | src/walrus_ops.rs:41-67 | a non-constant-I32 stack global and an offset above the current value are errors; otherwise the global drops by the offset and the new value is returned, all else unchanged |
| WalrusOps.StubImportedFunc | src/walrus_ops.rs:69-105 | the import's function keeps its id and signature, gets an `unreachable` body, and the import is deleted; nothing else changes |
| WalrusOps.StubImportedFuncIsReplace | src/walrus_ops.rs:69-105 | stubbing an import is replacing its imported function |
| Data.New | src/data.rs:52-62 | a new data section is a zero-filled stack of the given size with the pointer at its top, no strings and no passive segments |
| Data.PassiveBytes | src/data.rs:64-68 | a passive segment is appended and its index is the number of segments before it; the stack is untouched |
| Data.PassiveAllConsecutive | src/data.rs:64-68 | successive passive segments get consecutive indices and are kept in order |
| Data.StackAllocAsWritten | src/data.rs:70-81 | the allocation fails iff len + align exceeds the stack pointer; the new pointer leaves room for len bytes below the old one |
| Data.StackAlloc | src/data.rs:70-81 | the corrected allocation fails in the same cases, and the new pointer is aligned, leaves room for len bytes, and wastes less than align bytes |
| Data.StackAllocMisaligns | src/data.rs:74-78 | with the pointer at 9, a 4-byte allocation aligned to 4 lands at 2 as written, which is not 4-aligned, while the corrected one lands at 4 |
| Data.StackBytes | src/data.rs:83-86 | the bytes are copied just below the old pointer, which moves down by their length; all other bytes, strings and passive segments are kept; no room is an error |
| Data.EncodeWordsAt | src/data.rs:46-48 | word i of a slice is encoded little-endian at byte 4*i |
| Data.WriteSlice | src/data.rs:90-99 | a slice of words is placed below the old pointer, at the pointer the corrected allocator picks, and nothing already written above it changes; no room is an error |
| Data.WriteSliceReads | src/data.rs:90-99 | reading word i back from the returned pointer gives the i-th word written |
| Data.String | src/data.rs:103-115 | a known string returns its old pointer unchanged; a new one is stored null-terminated just below the pointer and remembered; no room is an error |
| Data.StringIdempotent | src/data.rs:103-106 | storing the same string twice returns the same pointer and changes nothing the second time |
| Data.Pad8 | src/data.rs:119-122 | the stack pointer rounded down so the used stack is a multiple of 8, with none exactly when that would go below zero |
| Data.FinishStack | src/data.rs:116-130 | finishing appends one active segment holding the used stack at its padded address and keeps functions, imports and exports; it panics exactly when padding would go below zero |
| Data.FinishStackStrings | src/data.rs:116-130 | every stored string is found, null-terminated, in the appended segment at its pointer |
| Data.FinishStackBumps | src/data.rs:119-123 | finishing lowers the stack-pointer global by the padded stack size |
| FsTree.AllowHostPreopens | src/virt_io.rs:115-117 | host preopens are switched on and nothing else changes |
| FsTree.DenyHostPreopens | src/virt_io.rs:111-113 | host preopens are switched off and nothing else changes |
| FsTree.Preopen | src/virt_io.rs:119-122 | the name now maps to the entry and every other name keeps its entry, with the preopens kept in name order |
| FsTree.HostPreopen | src/virt_io.rs:124-127 | the name now maps to a run-time host directory, every other name unchanged |
| FsTree.VirtualPreopen | src/virt_io.rs:129-132 | the name now maps to a host directory to copy in, every other name unchanged |
| FsTree.PassiveCutoff | src/virt_io.rs:134-137 | the passive cutoff is set and nothing else changes |
| FsTree.ResolveAllPointwise | src/virt_io.rs:239-247 | a directory's children resolve exactly when each child does, and each resolves on its own, name kept |
| FsTree.ResolveHostAllPointwise | src/virt_io.rs:376-392 | a host directory's listing resolves exactly when each listed node does, names kept |
| FsTree.HostDirResolves | src/virt_io.rs:375-393 | a host directory becomes a directory of its entries in name order, the last entry of a repeated name winning, each resolved |
| FsTree.ResolveHostSound | src/virt_io.rs:372-400 | whatever the host yields is fully resolved and keeps directories in name order |
| FsTree.ResolveSound | src/virt_io.rs:366-405 | after resolution no `Source` or `Virtualize` entry remains, order is kept, and a directory's children are resolved one by one under their own names |
| FsTree.ResolveFixed | src/virt_io.rs:366-405 | resolution leaves a tree unchanged exactly when it is already resolved |
| FsTree.ResolveIdempotent | src/virt_io.rs:366-405 | resolving twice is resolving once |
| FsTree.ResolveFsSound | src/virt_io.rs:364-410 | resolving the configuration keeps its flags, cutoff and preopen names, and every preopen comes out resolved and well formed |
| FsBfs.SizeAllStep | src/virt_io.rs:274-284 | the entries under a level are the level itself plus those under the next level, which is what makes the child offset precomputable |
| FsBfs.BfsLength | src/virt_io.rs:251-302 | the breadth-first walk visits every entry below the roots once |
| FsBfs.BfsStarts | src/virt_io.rs:285-296 | the walk begins with the children of the first level, in order |
| FsBfs.BfsChildren | src/virt_io.rs:274-302 | at every visited directory, the child offset passed to the visitor points, relative to the directory's own position, at its children, in name order |
| FsBfs.FlattenChildren | src/virt_io.rs:251-264 | the whole tree, root first, is visited once per entry and every directory's offset points at its children |
| FsBfs.FlattenRoot | src/virt_io.rs:255 | the root is visited with offset 1, so its children follow it directly |
| FsIndex.TypeTagRoundTrip | src/virt_io.rs:164-196 | the five entry types encode as 0..4 and decode back; exactly the tags below 5 decode |
| FsIndex.IndexWordsAt | src/virt_io.rs:141-162 | each index entry is four consecutive words: name pointer, type tag and the two data words |
| FsIndex.WriteIndexReads | src/virt_io.rs:491 | after the index is written into the data section, decoding entry i at its address gives entry i back |
| FsIndex.DecodeEntryKept | src/data.rs:83-115 | later allocations never disturb an entry already written |
| FsIndex.LinearizeOne | src/virt_io.rs:430-486 | one visit stores its name and data and returns the entry; it panics exactly when the entry is a symlink or unresolved and the name could be stored, and reports whether the entry needs the host |
| FsIndex.LinearizeOneDescribes | src/virt_io.rs:430-486 | the stored entry describes the visit: its name string, a small file's bytes on the stack, a large one as a passive segment, a directory's offset and child count, a run-time entry's host path |
| FsIndex.LinearizeAll | src/virt_io.rs:426-488 | one entry per visit, passthrough set iff some visit is a run-time entry; a panic happens only on an unstorable entry, and never when all are storable |
| FsIndex.LinearizeAllDescribes | src/virt_io.rs:426-488 | every entry of the linearized index describes its visit, in the final data section |
| FsIndex.FlattenAllChildren | src/virt_io.rs:426-430 | across all preopens concatenated, every directory's offset still points at its children |
| FsIndex.FlattenAllLength | src/virt_io.rs:426-430 | the index holds exactly the entries of all preopen trees |
| FsIndex.PreopenRoots | src/virt_io.rs:427-428 | preopen i's index is the position of its root, which is visited with offset 1 |
| FsIndex.FlattenAllKeeps | src/virt_io.rs:426-430 | a property every child inherits from its directory holds for every entry of the index |
| IoVirt.Resize | src/virt_io.rs:527-531 | growing the segment keeps its bytes, zero-fills the rest and leaves room for the header |
| IoVirt.WriteHeader | src/virt_io.rs:527-557 | the corrected header write always leaves room for the full 20-byte header and never shrinks the segment |
| IoVirt.HeaderAsWrittenPanics | src/virt_io.rs:527-557 | a segment holding exactly 16 bytes past the header offset, or one whose resize pads to a multiple of 4 only, makes the 20-byte header write go out of range as written |
| IoVirt.HeaderAsWrittenAgrees | src/virt_io.rs:527-557 | when the segment already holds 20 bytes past the offset, the header write as written and the corrected one agree |
| IoVirt.WriteHeaderReads | src/virt_io.rs:547-557 | reading the `Io` header back gives the preopen address, index count, index address and flags written, and the preopen count when a filesystem is configured |
| IoVirt.WriteHeaderKeeps | src/virt_io.rs:547-557 | bytes of the segment outside the 20 header bytes are kept |
| IoVirt.Place | src/virt_io.rs:424-491 | on success the index is written just below the stack pointer with one entry per visit, each decoding to an entry that describes its visit; a panic only on an unstorable entry |
| IoVirt.Layout | src/virt_io.rs:412-491 | the data section has the module's stack size, one index entry per visit each describing it, and passthrough is on iff host preopens are on or some entry is a run-time one |
| IoVirt.PlaceHeader | src/virt_io.rs:528-557 | only the chosen segment changes, and it gets the header written |
| IoVirt.Emit | src/virt_io.rs:512-559 | the built result carries the resolved configuration, its entries and visits, and the image with the preopen indices written; its module ends with the image's used stack as an active segment |
| IoVirt.CreateIoVirtResolves | src/virt_io.rs:362-410 | the configuration used is the resolved one, with its host-preopen flag and preopen count, and there is one entry per visit |
| IoVirt.CreateIoVirtHeader | src/virt_io.rs:305-557 | the header read back has the preopen count, the index count, and flags that decode to each stream's stdio policy (deny when stdio is absent), to the host-preopen setting, and to passthrough iff host preopens or a run-time entry |
| IoVirt.CreateIoVirtIndex | src/virt_io.rs:424-491 | in the final image the index at the header's address decodes entry by entry to entries that describe the visits |
| IoVirt.CreateIoVirtChildren | src/virt_io.rs:251-302 | every directory entry of the emitted index points at its children |
| IoVirt.CreateIoVirtLaysTree | src/virt_io.rs:251-302 | for a filesystem of sorted, duplicate-free directories (the `BTreeMap`s of `FsEntry::Dir`), every emitted visit has its children behind it at its offset in name order and is itself well formed: the tree half of the layout the adapter's lookup relies on |
| IoVirt.CreateIoVirtPreopens | src/virt_io.rs:425-428 | the preopen table at the header's address gives, for each preopen in name order, the index of its root entry |
| IoVirt.CreateIoVirtStack | src/data.rs:116-130 | the used stack is emitted as an active segment at an address whose distance below the stack top is a multiple of 8 |
| IoVirt.IndexKept | src/data.rs:83-115 | an index already written survives later allocations |
| IoVirt.PreopensFrom | src/virt_io.rs:425-428 | words holding the preopen indices place each preopen's root where its name and tree are |
| IoVirt.StubUnusedSpec | src/virt_io.rs:512-521 | with host passthrough nothing is stubbed; otherwise the filesystem imports of the inline table are stubbed, preceded by the I/O imports when stdio is disabled, and a failure of the I/O stubs fails the build |
| IoVirt.StubIoThenFs | src/virt_io.rs:512-519 | stubbing the I/O imports and then the filesystem imports stubs exactly the union of the two inline tables |
| IoVirtStubs.TableShape | src/virt_io.rs:569-715 | the inline tables `create_io_virt` stubs with list 39 filesystem imports, none unconditionally required, 17 I/O imports and 8 optional stdio imports, and strip 8 stdio exports |
| IoVirtStubs.StubFsVirtSpec | src/virt_io.rs:569-645 | stubbing the filesystem stubs exactly the imports of its inline table, fails when the filesystem is in use and one of the imports it then requires is missing, and never fails when it is not in use |
| IoVirtStubs.StubIoVirtSpec | src/virt_io.rs:647-671 | stubbing I/O stubs exactly the imports of its inline table and fails when a required one is missing |
| IoVirtStubs.StubIoVirtStubbed | src/virt_io.rs:647-671 | a successful I/O stub pass keeps the module well formed and stubs exactly the inline table's imports |
| IoVirtStubs.StubFsVirtStubbed | src/virt_io.rs:569-645 | a successful filesystem stub pass stubs exactly the inline table's imports |
| IoVirtStubs.StubStdioVirtSpec | src/virt_io.rs:680-715 | stubbing stdio never fails and stubs exactly the imports of its inline table |
| IoVirtStubs.StripStdioVirtSpec | src/virt_io.rs:950-961 | stripping stdio is stubbing it and removing the 8 stdio exports; it fails exactly when one is missing, naming it |
| Stdio.SetStream | src/virt_io.rs:53-64 | setting one stream's policy changes only that stream |
| Stdio.SetAll | src/virt_io.rs:35-52 | `allow`, `ignore` and `deny` set all three streams |
| Stdio.SetEachIsSetAll | src/virt_io.rs:35-64 | setting each stream in turn is the same as setting all three |
| Stdio.StdioFlags | src/virt_io.rs:328-354 | stdio is disabled iff no configuration is given or no stream is allowed |
| Stdio.DecodeBits | virtual-adapter/src/io.rs:120-146 | the adapter reads a stream as allowed when its enable bit is set, ignored when only its ignore bit is set, and denied otherwise |
| Stdio.IoFlagsRoundTrip | src/virt_io.rs:305-354 | decoding the flag word gives back each stream's policy (deny when stdio is absent), the host-preopen setting and passthrough |
| Stdio.WordRoundTrip | src/virt_io.rs:321-354 | the same round trip for a configured stdio |
| Stdio.IoFlagsInjective | src/virt_io.rs:305-354 | different configurations give different flag words |
| Stdio.BitsDecode | virtual-adapter/src/io.rs:120-146 | each flag bit of a word reads back as the condition it was set from |
| Stdio.IoFlagsIsWord | src/virt_io.rs:305-354 | the flag word built match by match is the word with one bit per condition |
| Stdio.StdioStepSpec | src/virt_io.rs:328-360 | a configuration that allows some stream leaves the module alone; one that allows none stubs exactly the imports of the inline stdio table; no configuration strips the stdio exports of that table |
| Stdio.StubStdioAgain | src/virt_io.rs:680-715 | stubbing stdio with the inline table again, once its imports are gone, changes nothing |
| FieldData.BuilderLaws | src/virt_env.rs:36-68 | the host-policy builders replace one another, the last one winning, and leave the overrides alone; `overrides` only appends, in order, and leaves the policy alone |
| FieldData.Pad4 | src/virt_env.rs:135-139 | the padding after a string is under 4 bytes and brings its end to a multiple of 4 |
| FieldData.EncodeStr | src/virt_env.rs:129-140 | one string takes a 4-byte length, its bytes and padding, a multiple of 4 in all |
| FieldData.FieldDataBytes | src/virt_env.rs:103-144 | the blob is the encoded strings followed by at most 4 zero bytes, and its length is a multiple of 8 |
| FieldData.ReadDataStr | virtual-adapter/src/env.rs:36-48 | reading a string stays inside the blob and moves the offset past its bytes to the next multiple of 4 |
| FieldData.ReadStrs | virtual-adapter/src/env.rs:54-66 | reading n strings yields n strings |
| FieldData.ReadEncodedStr | virtual-adapter/src/env.rs:36-48 | reading an encoded string at an aligned offset gives the string back and lands just after its encoding |
| FieldData.ReadEncodedStrs | virtual-adapter/src/env.rs:54-66 | reading back encoded strings at an aligned offset gives them all, in order |
| FieldData.ReadEncodedStrAt | virtual-adapter/src/env.rs:36-48 | wherever data holds a string's encoding at an aligned offset, reading there gives the string and the offset just after the encoding |
| FieldData.ReadEncodedStrsAt | virtual-adapter/src/env.rs:54-66 | wherever data holds the encodings of several strings at an aligned offset, reading them gives them all, in order, and ends just after the last |
| FieldData.WriteHeader | src/virt_env.rs:188-212 | the header write changes only the bytes the policy and the data address reach |
| FieldData.WritePolicy | src/virt_env.rs:193-209 | `All` changes nothing, `None` clears only the fallback byte, and an allow or deny list sets byte 1 to allow or deny and stores its length, truncated to `u32`, at bytes 8..12, keeping every other byte |
| FieldData.WriteAddr | src/virt_env.rs:210-212 | without field data nothing changes; with it, bytes 12..16 read back as the data address and every other byte is kept |
| FieldData.WriteAddrDecodes | src/virt_env.rs:210-212 | the data pointer is written only when there is field data, and the other header fields are kept |
| FieldData.HeaderRoundTrip | src/virt_env.rs:191-212 | over the default header, the decoded header has fallback off exactly for `None`, the allow flag exactly for `Allow`, the override count, the list length and the data pointer (0 when there is no data) |
| PolicyVirt.FnsDistinct | src/virt_env.rs:217-218 | the environment and configuration function lists hold distinct names |
| PolicyVirt.StubPolicyVirtSpec | src/virt_env.rs:220-236 | stubbing succeeds iff every listed function is imported, and then replaces exactly those imports with `unreachable` stubs, keeping the module well formed |
| PolicyVirt.ReplaceExportsSpec | src/virt_env.rs:239-255 | replacing the exports succeeds iff each named export is a local function, and then turns exactly the named functions into `unreachable`, keeping everything else |
| PolicyVirt.StripPolicyVirtSpec | src/virt_env.rs:239-255 | stripping succeeds iff stubbing does and every export can be replaced; it removes the policy imports and keeps the exports |
| PolicyVirt.PtrAddr | src/virt_env.rs:75-90 | the pointer export must exist, be a global, and hold a local i32 constant, whose bits are read as unsigned; each missing piece is its own error |
| PolicyVirt.PlaceFieldData | src/virt_env.rs:146-161 | empty field data adds nothing; otherwise exactly one active segment holding the blob is appended at the bumped stack address |
| PolicyVirt.Prepare | src/virt_env.rs:75-161 | a data address is returned exactly when there is field data |
| PolicyVirt.Patch | src/virt_env.rs:188-212 | patching traps exactly when the covering segment is too short for the bytes the policy and the data address reach; otherwise only that segment changes, and it gets the header at the pointer's offset |
| PolicyVirt.PrepareKeepsData | src/virt_env.rs:146-161 | earlier data segments are kept and the blob's segment is the only one added |
| PolicyVirt.CreateStubsOnlyForNone | src/virt_env.rs:92-97 | the policy functions are stubbed exactly when the host policy is `None`; exports are always kept |
| PolicyVirt.CreateDescribes | src/virt_env.rs:70-215 | the written header describes the configuration, its data pointer is the blob's address, and the blob segment is added iff the blob is non-empty |
| PolicyVirt.CreateThenRead | src/virt_env.rs:70-215 | what the adapter reads back from the written header and blob is the sorted overrides and, unless the policy is `None`, the sorted key list |
| Fallback.UnpairPairs | src/virt_env.rs:103-109 | splitting the flattened key/value list back into pairs recovers the overrides |
| Fallback.ReadPairs | virtual-adapter/src/env.rs:54-58 | reading n overrides yields n pairs |
| Fallback.Expected | virtual-adapter/src/env.rs:61-81 | the reference filter: a host pair is kept iff its key is not overridden and the allow or deny list admits it |
| Fallback.DecisionMatches | virtual-adapter/src/env.rs:68-79 | the adapter's bisection over the sorted overrides and list decides exactly as the unsorted configuration says |
| Fallback.HostFilterIsExpected | virtual-adapter/src/env.rs:61-81 | the adapter's host filter over the sorted blob is the reference filter of the configuration |
| Fallback.OverriddenIff | virtual-adapter/src/env.rs:70-74 | a key is found among the sorted overrides iff some override has that key |
| Fallback.ListedIff | virtual-adapter/src/env.rs:76 | a key is found in the sorted allow or deny list iff the list holds it |
| Fallback.HostFilterMembers | virtual-adapter/src/env.rs:69-80 | a pair survives the filter iff the host has it, its key is not overridden, and the list admits it |
| Fallback.HostFilterPassesAll | virtual-adapter/src/env.rs:69-80 | with no overrides and an empty deny list every host pair passes, in order |
| Fallback.ExpectedNone | virtual-adapter/src/env.rs:61 | with policy `None` nothing comes from the host |
| Fallback.ReadFieldData | virtual-adapter/src/env.rs:51-66 | the adapter reads back the overrides sorted by key and the key list sorted |
| Fallback.WrittenHeaderDescribes | src/virt_env.rs:188-212 | the header written over the default one describes the configuration |
| Fallback.ReadSettings | virtual-adapter/src/env.rs:51-66 | the overrides read number the header's count, and the list is read only when fallback is on |
| Fallback.ReadSettingsOf | virtual-adapter/src/env.rs:51-66 | over a header describing a configuration, the settings read are the sorted overrides and, unless the policy is `None`, the sorted list |
| EnvAdapter.GetEnvironment | virtual-adapter/src/env.rs:51-83 | the environment starts with the overrides read from the blob; after them come exactly the host variables whose key is not overridden and which the list admits, and only when fallback is on |
| EnvAdapter.GetEnvironmentRoundTrip | virtual-adapter/src/env.rs:51-83 | over what the generator wrote, the environment is the sorted overrides followed by the reference filter of the host environment |
| EnvAdapter.DefaultPassesAll | virtual-adapter/src/env.rs:25-34 | the default header (fallback on, deny list empty, no overrides) passes the host environment through unchanged |
| ConfigAdapter.ConfigErrMap | virtual-adapter/src/config.rs:113-118 | a host error keeps its message and its kind |
| ConfigAdapter.ConfigErrMapInjective | virtual-adapter/src/config.rs:113-118 | different host errors stay different |
| ConfigAdapter.MapHostErr | virtual-adapter/src/config.rs:72 | a host answer passes through, its error mapped |
| ConfigAdapter.FirstValue | virtual-adapter/src/config.rs:53-59 | the value of the first override with the key, none iff no override has it |
| ConfigAdapter.FirstValueOfRun | virtual-adapter/src/config.rs:53-59 | the first value for a key is the value of the first pair with that key |
| ConfigAdapter.SortedFirstValue | src/virt_config.rs:100 | sorting the overrides by key leaves the first value of every key as the overrides were given |
| ConfigAdapter.ScanOverridesFinds | virtual-adapter/src/config.rs:52-59 | the linear scan over the blob finds the first override's value and, when it finds none, stops where the list begins |
| ConfigAdapter.Get | virtual-adapter/src/config.rs:51-76 | a found override is returned; otherwise the host's answer is asked only under fallback |
| ConfigAdapter.GetOverrideWins | virtual-adapter/src/config.rs:53-58 | an overridden key gets the override and the host is never consulted |
| ConfigAdapter.GetRoundTrip | virtual-adapter/src/config.rs:51-76 | over what the generator wrote, a key gets the value of its first override in the order the overrides were given, else the host's answer when the policy admits it, else nothing |
| ConfigAdapter.GetAll | virtual-adapter/src/config.rs:78-110 | the overrides come first; a host error is passed on under fallback; the rest are exactly the admitted, non-overridden host pairs |
| ConfigAdapter.GetAllRoundTrip | virtual-adapter/src/config.rs:78-110 | over what the generator wrote, the result is the sorted overrides, then (unless the policy is `None`) the host's error or the reference filter of its pairs |
| Stubs.StubOneSpec | src/virt_io/filesystem.rs:215-245 | one table entry stubs successfully iff its requirement is accepted and, when it must be stubbed, its import exists; then just that import becomes a trapping local function |
| Stubs.StubbedAsNothing | src/virt_io/filesystem.rs:232-242 | stubbing imports the module does not have leaves the module exactly as it was |
| Stubs.StubbedAsCompose | src/virt_io/filesystem.rs:215-245 | stubbing one set of imports and then another stubs their union |
| Stubs.StubAllSpec | src/virt_io/filesystem.rs:213-247 | a successful pass over a table stubs exactly its imports and keeps the module well formed |
| Stubs.StubAllRejects | src/virt_io/io.rs:148 | an entry whose requirement the subsystem rejects fails the whole pass |
| Stubs.StubAllMissing | src/virt_io/filesystem.rs:219-221 | a missing import that must be stubbed fails the pass |
| Stubs.StubAllOptional | src/virt_io/filesystem.rs:233-243 | a table of entries stubbed only when present never fails |
| Stubs.StubAllSucceeds | src/virt_io/filesystem.rs:213-247 | with distinct keys the pass succeeds iff no entry is rejected and every must-stub import exists |
| Stubs.RemoveAllSpec | src/virt_io/filesystem.rs:295-300 | removing the export list removes exactly those names; a missing one is an error naming it |
| Stubs.RemoveAllSucceeds | src/virt_io/filesystem.rs:295-300 | with distinct names removal succeeds iff every name is exported |
| Stubs.StripAllSpec | src/virt_io/filesystem.rs:292-303 | stripping is stubbing followed by removing the exports, failing when either step does |
| Subsystems.Group | src/virt_io/filesystem.rs:10-206 | a run of table entries shares a module and a requirement |
| Subsystems.FsTableShape | src/virt_io/filesystem.rs:10-289 | the filesystem tables list 39 imports and 39 exports, and no import is unconditionally required |
| Subsystems.StubFsVirtSpec | src/virt_io/filesystem.rs:213-247 | stubbing the filesystem stubs exactly its imports, fails when the filesystem is in use and an import it depends on is missing, and never fails when it is not in use |
| Subsystems.StripFsVirtSpec | src/virt_io/filesystem.rs:292-303 | stripping the filesystem is stubbing without use and removing its 39 exports, failing when one is missing |
| Subsystems.IoTableShape | src/virt_io/io.rs:9-191 | the I/O tables list 22 imports and 23 exports, and every import's requirement is accepted |
| Subsystems.StubIoVirtSpec | src/virt_io/io.rs:119-153 | stubbing I/O stubs exactly its imports and succeeds iff every required one exists |
| Subsystems.IoKeysDistinct | src/virt_io/io.rs:9-116 | the I/O table lists each import once |
| Subsystems.StripIoVirtSpec | src/virt_io/io.rs:183-191 | stripping I/O is stubbing and removing its exports, failing when one is missing |
| Subsystems.SocketsTableShape | src/virt_io/sockets.rs:7-287 | the socket tables list 49 imports, all required, and 49 exports |
| Subsystems.StubSocketsVirtSpec | src/virt_io/sockets.rs:208-233 | stubbing sockets stubs exactly its imports and succeeds iff they all exist |
| Subsystems.SocketsKeysDistinct | src/virt_io/sockets.rs:7-205 | the sockets table lists each import once |
| Subsystems.StripSocketsVirtSpec | src/virt_io/sockets.rs:289-297 | stripping sockets is stubbing and removing its exports, failing when one is missing |
| Subsystems.ClocksTableShape | src/virt_io/clocks.rs:7-57 | the clock tables list 3 required imports and 3 exports |
| Subsystems.RequiredTableSpec | src/virt_io/clocks.rs:26-50 | for a table of required entries, stubbing fails when an import is missing and otherwise stubs exactly them; for a table listing each import once, it succeeds iff every import exists |
| Subsystems.StubClocksVirtSpec | src/virt_io/clocks.rs:26-50 | stubbing clocks stubs exactly its imports and succeeds iff they all exist |
| Subsystems.StripClocksVirtSpec | src/virt_io/clocks.rs:60-69 | stripping clocks is stubbing and removing its exports, succeeding iff all three are exported |
| Subsystems.HttpTableShape | src/virt_io/http.rs:7-209 | the HTTP tables list 32 optional imports and 40 exports |
| Subsystems.StubHttpVirtSpec | src/virt_io/http.rs:211-229 | stubbing HTTP never fails and stubs exactly its imports |
| Subsystems.StripHttpVirtSpec | src/virt_io/http.rs:51-60 | stripping HTTP is stubbing and removing its exports; it fails exactly on a missing export, naming it |
| Subsystems.StdioTableShape | src/virt_io/stdio.rs:7-84 | the stdio tables list 8 optional imports and 8 exports |
| Subsystems.StubStdioVirtSpec | src/virt_io/stdio.rs:51-71 | stubbing stdio never fails and stubs exactly its imports |
| Subsystems.StripStdioVirtSpec | src/virt_io/stdio.rs:86-95 | stripping stdio is stubbing and removing its exports; it fails exactly on a missing export, naming it |
| Deny.VersionPrefix | src/virt_deny/mod.rs:26-30 | the compatible-version prefix is `major.` for a major version above 0 and `0.minor.` otherwise |
| Deny.VersionHasPrefix | src/virt_deny/mod.rs:26-30 | every version starts with its own compatible prefix |
| Deny.MatchingFids | src/virt_deny/mod.rs:37-51 | exactly the functions exported under a name with the interface prefix and the function suffix |
| Deny.ReplaceFids | src/virt_deny/mod.rs:65-69 | replacing succeeds iff every matched function is local; matched bodies become `unreachable` and everything else is kept |
| Deny.StubNameMatches | src/virt_deny/mod.rs:34-35 | the stub's own export name has the prefix and suffix it would later be matched by |
| Deny.DenyOneInserts | src/virt_deny/mod.rs:53-63 | with no matching export, one trapping function is added and exported under the exact version's name, and nothing else changes |
| Deny.DenyOneReplaces | src/virt_deny/mod.rs:65-69 | with a matching export, success iff every matched function is local; matched functions trap, exports are kept and all other functions are unchanged |
| Deny.DenyOneIdempotent | src/virt_deny/mod.rs:20-72 | denying the same function twice is denying it once |
| Deny.DenyOneExtends | src/virt_deny/mod.rs:20-72 | denying only adds functions and exports or turns bodies into `unreachable` |
| Deny.DenyAllKeeps | src/virt_deny/mod.rs:33-70 | a function no denied name matches is kept, and imports never change |
| IndexLookup.FindChild | virtual-adapter/src/io.rs:372-389 | the position of the child with that name, none iff no child has it |
| IndexLookup.FindChildUnique | virtual-adapter/src/io.rs:372-389 | among name-ordered children, a name is found at its own position |
| IndexLookup.ChildWindow | virtual-adapter/src/io.rs:364-371 | in an index laid out from the breadth-first walk, a directory's child list is the window of its children, in name order |
| IndexLookup.SearchIsFind | virtual-adapter/src/io.rs:372-389 | bisecting the sorted child window finds exactly the child a linear search over the tree finds |
| IndexLookup.LookupLeaf | virtual-adapter/src/io.rs:372-389 | looking a path up below a file fails as it does in the tree |
| IndexLookup.DirLookupIsTreeLookup | virtual-adapter/src/io.rs:372-389 | looking a path up in the flattened index lands on the entry that looking it up in the tree finds, and fails with the same error otherwise |
| IndexLookup.DirLookupInDir | virtual-adapter/src/io.rs:372-389 | looking a non-empty path up from a directory entry of a laid-out index lands on the visit that looking it up in that directory of the tree finds |
| IoState.GetDescriptor | virtual-adapter/src/io.rs:661-666 | a known descriptor is found; any other is `BadDescriptor` |
| IoState.NewDescriptor | virtual-adapter/src/io.rs:654-660 | the new descriptor is the counter's value and finds its target; all others are unchanged; the insertion assertion fails exactly when that number is taken |
| IoState.NewDescriptorFresh | virtual-adapter/src/io.rs:654-660 | while every used number is below the counter, a new descriptor never trips the assertion and keeps that so |
| IoState.GetStream | virtual-adapter/src/io.rs:673-678 | a stream is found iff it is in the table |
| IoState.NewStream | virtual-adapter/src/io.rs:667-672 | the new stream gets the counter's value and every other stream is unchanged |
| IoState.GetPoll | virtual-adapter/src/io.rs:685-687 | a pollable is found iff it is in the table |
| IoState.NewPoll | virtual-adapter/src/io.rs:679-684 | the new pollable gets the counter's value and every other pollable is unchanged |
| IoState.NewStreamPollFresh | virtual-adapter/src/io.rs:667-684 | new streams and pollables keep every used number below its counter |
| IoState.DropDescriptor | virtual-adapter/src/io.rs:1041-1047 | the descriptor is gone, the others are kept, and a host descriptor is handed back to be dropped on the host |
| IoState.DropStream | virtual-adapter/src/io.rs:1232-1242 | the stream is gone, the others are kept, and a host stream is handed back to be dropped on the host |
| IoState.DropPoll | virtual-adapter/src/io.rs:1458-1468 | the pollable is gone, the others are kept, and a host pollable is handed back to be dropped on the host |
| IoState.OpenStd | virtual-adapter/src/io.rs:565-586 | streams 0, 1 and 2 are stdin, stdout and stderr as their policies say (host, null or error stream), and the host stderr is remembered only when allowed |
| IoState.PushPreopen | virtual-adapter/src/io.rs:592-606 | a preopen gets a new descriptor and is appended to the preopen list |
| IoState.HostDirsSpec | virtual-adapter/src/io.rs:588-600 | the host's directories are preopened in order when host preopens are on, and recorded by name for passthrough when passthrough is on |
| IoState.StaticPreopensSpec | virtual-adapter/src/io.rs:602-607 | the static preopens are appended in order after the host ones, each named by its entry |
| IoState.OpenPreopensSpec | virtual-adapter/src/io.rs:588-607 | opening the preopens panics iff a preopen index is out of range; otherwise the list is the host preopens, then the static ones |
| IoState.InitializeTraps | virtual-adapter/src/io.rs:561-615 | initialization panics iff a stream already exists or a preopen index is out of range |
| IoState.InitializeStreams | virtual-adapter/src/io.rs:561-615 | after initialization there are exactly the three standard streams, as their policies say, and pollable 0 is the null pollable |
| IoState.InitializePreopens | virtual-adapter/src/io.rs:588-607 | after initialization the preopen list is the host preopens (if enabled) followed by the static ones, and the passthrough map records the host's directories |
| IoState.InitialHostMap | virtual-adapter/src/io.rs:588-600 | after the first initialization, a name maps to the host descriptor the host listed last under it, and only under passthrough |
| IoState.PassedGet | virtual-adapter/src/io.rs:596-598 | inserting the host's directories into the ordered map lets the last descriptor listed under a name win |
| IoState.TrimPath | virtual-adapter/src/io.rs:617-621 | a leading `./` is removed from the path, if any |
| IoState.TrimName | virtual-adapter/src/io.rs:623-629 | a leading `./` or `.` is removed from the preopen name, if any |
| IoState.MatchPreopen | virtual-adapter/src/io.rs:630-650 | matching panics exactly when both the name and the path are empty |
| IoState.MatchPreopenJoins | virtual-adapter/src/io.rs:630-650 | a name matches with rest `sub` iff the path is the name joined with `sub` (relative, root, exact or below), an empty name matching only relative paths |
| IoState.FirstPreopen | virtual-adapter/src/io.rs:622-652 | the first preopen in name order that matches gives its descriptor and the rest of the path; none iff none matches |
| IoState.GetHostPreopenJoins | virtual-adapter/src/io.rs:616-653 | a host preopen found for a path is one whose trimmed name joined with the rest gives the trimmed path; none is found iff no name matches |
| IoFiles.ReadBytes | virtual-adapter/src/io.rs:196-208 | with lengths compared as unbounded integers (the corrected read): at the end of the data nothing is read and the read is done; past the end is `InvalidSeek`; otherwise the bytes from the offset, up to len of them, done iff fewer than len were left |
| IoFiles.ReadEntry | virtual-adapter/src/io.rs:190-241 | the corrected read: active and passive files read their contents as above; directories are `IsDirectory`; a run-time file hits the `unreachable!()` |
| IoFiles.ReadOf4GStalls | virtual-adapter/src/io.rs:196-208 | as written, a read of 2^32 bytes from a 10-byte file returns nothing and not done, because the length is cut to 32 bits, while the intended read returns all 10 bytes and done |
| IoFiles.AsWrittenBelow4G | virtual-adapter/src/io.rs:190-241 | for offsets and lengths below 2^32 the read as written and the intended read agree |
| IoFiles.DrainReadsRest | virtual-adapter/src/io.rs:196-208 | with the corrected read, reading a file stream repeatedly until it ends yields exactly the file's bytes from the starting offset |
| IoFiles.FileStreamRead | virtual-adapter/src/io.rs:520-532 | a file stream reads through its descriptor with the corrected read at its offset, fails on a closed descriptor, and advances the offset by the bytes read, ending when the read is done |
| IoFiles.DirNext | virtual-adapter/src/io.rs:539-557 | the directory stream yields the child at its index, with its type and name, and advances the index; a closed descriptor is `BadDescriptor` |
| IoFiles.DirNextListsChildren | virtual-adapter/src/io.rs:539-557 | over an index laid out from the tree, the k-th step yields the k-th child of the directory in name order with its kind, then nothing |
| IoFiles.GetType | virtual-adapter/src/io.rs:740-743 | a static entry is a directory iff it is a directory entry or a run-time directory, else a regular file; a host descriptor asks the host; an unknown one is `BadDescriptor` |
| IoFiles.ReadViaStream | virtual-adapter/src/io.rs:698-716 | a static descriptor gets a new file stream at offset 0, a non-zero offset being `InvalidSeek`; a host descriptor gets the host's stream; the result is a new stream |
| IoFiles.Read | virtual-adapter/src/io.rs:752-768 | a static read goes through a fresh stream from offset 0 with the corrected read, a non-zero offset being `InvalidSeek`; the stream is dropped after a successful read and a failed read is reported as `Io` |
| IoFiles.ReadDirectory | virtual-adapter/src/io.rs:773-780 | a directory gets a new directory stream at index 0; anything else is `NotDirectory`, and a type error is passed on |
| IoFiles.ReadDirectoryEntry | virtual-adapter/src/io.rs:1048-1062 | a static directory stream yields its next entry and advances; a host stream asks the host; any other stream is `BadDescriptor`; nothing but the stream changes |
| IoFiles.ReadDirectoryLists | virtual-adapter/src/io.rs:773-780 | opening a directory stream and reading it to the end lists exactly the directory's children in name order, then the end marker |
| IoFiles.ListingFrom | virtual-adapter/src/io.rs:1048-1062 | reading a directory stream from index k lists the children from k on, then the end marker |
| IoFiles.StatMapLosesAccess | virtual-adapter/src/io.rs:256-264 | as written the host's stat loses its access time (accessed 5, modified 2 reports accessed 2), while the intended mapping keeps 5 |
| IoFiles.StatMapKeepsAccess | virtual-adapter/src/io.rs:256-264 | the intended mapping keeps every field; the one as written does so exactly when access and modification times are equal |
| IoFiles.Resolve | virtual-adapter/src/io.rs:353-356 | a run-time entry's host path resolves through the host preopens, `NoEntry` when none matches |
| IoFiles.EntrySize | virtual-adapter/src/io.rs:348-363 | a file's size is its length, a directory's is 0, and a run-time file's is the host's size of its resolved path |
| IoFiles.EntryStat | virtual-adapter/src/io.rs:792-820 | a static entry's stat has its type, no links, its size and zero times, and fails as its size does |
| IoFiles.Lift | virtual-adapter/src/io.rs:280-319 | a host result is passed on as an adapter result with the same value or error |
| IoFiles.Stat | virtual-adapter/src/io.rs:792-820 | static descriptors stat their entry, host descriptors ask the host and map its answer with the corrected `StatMap`, unknown ones are `BadDescriptor` |
| IoFiles.LookupAt | virtual-adapter/src/io.rs:828-838 | a path found in the index is a static entry, or a run-time entry resolved to a host descriptor and rest; lookup errors and panics pass through |
| IoFiles.StatAt | virtual-adapter/src/io.rs:821-874 | a static entry found gets its full stat (its type, no links, its size and zero times, failing as its size does), a run-time one asks the host at its resolved path and maps the answer with the corrected `StatMap`, and lookup errors pass through |
| IoFiles.OpenAt | virtual-adapter/src/io.rs:895-954 | opening a path found statically makes a new descriptor for that entry; a run-time or host path makes one for the host's descriptor; errors pass through; success is always a new descriptor |
| IoFiles.OpenAtKeeps | virtual-adapter/src/io.rs:895-954 | opening keeps the descriptor table consistent with the index, returns the counter's value, and panics only when the lookup does |
| IoFiles.OpenAtFindsTreeNode | virtual-adapter/src/io.rs:895-954 | over an index laid out from the tree, opening a path opens the tree node that looking the path up in the tree finds, and fails as that lookup does |
| IoFiles.OpenAtByLookup | virtual-adapter/src/io.rs:895-954 | opening a path relative to a static directory fails as the index lookup fails, panics when it panics, and otherwise opens the static entry found or a host descriptor for a run-time one |
| IoFiles.OpenAtStatic | virtual-adapter/src/io.rs:895-954 | a path the index lookup finds at a static entry opens a new descriptor for exactly that entry |
| IoFiles.MetadataHash | virtual-adapter/src/io.rs:1105-1117 | a static descriptor hashes to its entry's position, a host one asks the host |
| IoFiles.SameObjectIffSameHash | virtual-adapter/src/io.rs:1078-1117 | two static descriptors are the same object iff their hashes are equal |
| IoFiles.MetadataHashAt | virtual-adapter/src/io.rs:1119-1163 | a path found statically hashes to its entry's position, a run-time one asks the host, and lookup errors pass through |
| IoFiles.OpenedHashesAsHashAt | virtual-adapter/src/io.rs:895-1163 | opening a static path and hashing the new descriptor gives the hash of the path |
| IoFiles.Constant | virtual-adapter/src/io.rs:717-1040 | every call that would change the filesystem is `Access`, as are `sync`, `sync-data` and `access-at`; locks succeed; `get-flags` reports read-only; `readlink-at` returns the path; `advise` panics |
| IoFiles.InitializeSane | virtual-adapter/src/io.rs:561-615 | initialization keeps every static descriptor inside the index |
| IoFiles.PushedSane | virtual-adapter/src/io.rs:594-606 | the static preopens pushed point inside the index |
| IoStreams.BlockingRead | virtual-adapter/src/io.rs:1189-1202 | a null stream reads nothing and has ended; an error stream, a directory stream or an unknown one fails; a host stream reads from the host; a file stream reads through its descriptor and only its offset changes |
| IoStreams.ReadToEndIsRest | virtual-adapter/src/io.rs:1193-1202 | with the corrected read, reading a file stream until it ends yields exactly the file's bytes from the stream's offset |
| IoStreams.Skip | virtual-adapter/src/io.rs:1203-1218 | a null stream skips nothing and has ended; a host stream asks the host; every other stream fails |
| IoStreams.Subscribe | virtual-adapter/src/io.rs:1219-1231 | an unknown stream panics; a host stream gets a new host pollable under the next poll number; any other stream gets pollable 0 and nothing changes |
| IoStreams.CheckWrite | virtual-adapter/src/io.rs:1243-1254 | only host streams can be written, with the host's answer; every other stream is `Closed` |
| IoStreams.WriteLike | virtual-adapter/src/io.rs:1255-1296 | a write, flush or zero-write succeeds exactly on a null stream or when the host accepts it on a host stream; otherwise non-host streams are `Closed` |
| IoStreams.Transfer | virtual-adapter/src/io.rs:1297-1371 | splicing into or from a null stream moves nothing and has ended; an unusable endpoint fails; any other result is the host's transfer between the two host streams |
| IoStreams.StdinFollowsPolicy | virtual-adapter/src/io.rs:566-571 | after initialization, reading stdin reads nothing when ignored, fails when denied, and reads the host's stdin when allowed |
| IoStreams.StdoutFollowsPolicy | virtual-adapter/src/io.rs:572-585 | after initialization, writing stdout or stderr succeeds with nothing when ignored, is `Closed` when denied, and writes to the host's stream when allowed |
| IoStreams.HostPids | virtual-adapter/src/io.rs:1469-1515 | each pollable in the list is replaced by its host pollable when it has one and kept otherwise |
| IoStreams.PollOneoff | virtual-adapter/src/io.rs:1469-1515 | the corrected poll: an empty list gives an empty answer; any null pollable makes everything ready; a non-empty list of unknown pollables panics; otherwise the host polls the host ids of the host pollables the list names |
| IoStreams.PollOneoffAsWritten | virtual-adapter/src/io.rs:1469-1515 | as written, an empty list gives an empty answer without asking the host |
| IoStreams.PollOneoffForwardsHostPids | virtual-adapter/src/io.rs:1469-1515 | when every pollable is a host pollable, the answer is the host's answer for their host ids, position by position |
| IoStreams.PollOneoffAgreesWithoutHost | virtual-adapter/src/io.rs:1469-1515 | without host pollables the poll as written and the intended one agree |
| IoStreams.PollOneoffForwardsAdapterIds | virtual-adapter/src/io.rs:1469-1515 | as written, polling `[1]` where 1 is host pollable 7 asks the host about pollable 1 and answers not ready, while the intended poll answers ready |
| FsAdapter.GetDescriptor | virtual-adapter/src/fs.rs:294-296 | a descriptor is found exactly when it is in the table, with its entry |
| FsAdapter.GetStream | virtual-adapter/src/fs.rs:319-321 | a stream is found exactly when its number is in the stream table, and it is the stream stored there |
| FsAdapter.CreateDescriptor | virtual-adapter/src/fs.rs:287-293 | the new descriptor takes the counter's value, the counter advances and only that slot is added; an occupied slot fails the assertion |
| FsAdapter.CreateStream | virtual-adapter/src/fs.rs:313-318 | the new stream takes the counter's value and is found there afterwards; nothing else changes |
| FsAdapter.DropDescriptor | virtual-adapter/src/fs.rs:297-301 | the dropped descriptor is gone and every other descriptor is unchanged |
| FsAdapter.DropStream | virtual-adapter/src/fs.rs:322-324 | the dropped stream is gone and every other stream is unchanged |
| FsAdapter.CreateAllNumbers | virtual-adapter/src/fs.rs:278-284 | creating the preopens' descriptors numbers them consecutively from the counter, records them in order and keeps every older descriptor |
| FsAdapter.CreateAllInRange | virtual-adapter/src/fs.rs:278-284 | when the old descriptors and the preopens all point inside the index, so do all descriptors afterwards |
| FsAdapter.Initialize | virtual-adapter/src/fs.rs:274-286 | initializing twice changes nothing; a preopen outside the index panics; afterwards the state is initialized and still consistent |
| FsAdapter.InitializeNumbers | virtual-adapter/src/fs.rs:274-286 | from the start state the preopens get descriptors 3, 4, … in order, each pointing at its preopen entry |
| FsAdapter.GetPreopenDirectories | virtual-adapter/src/fs.rs:302-312 | every preopen descriptor is listed in order with the name of its entry |
| FsAdapter.PreopensListed | virtual-adapter/src/fs.rs:302-312 | from the start state the listing is exactly descriptor 3 + i with the name of the i-th preopen |
| FsAdapter.Size | virtual-adapter/src/fs.rs:75-83 | a file's size is its length word, a directory's 0, and a run-time file hits `todo!()` |
| FsAdapter.GetBytes | virtual-adapter/src/fs.rs:84-99 | only files have contents, which are the entry's bytes; anything else panics |
| FsAdapter.FileRead | virtual-adapter/src/fs.rs:235-248 | an unknown descriptor fails, a directory panics, and a file yields the next bytes from the offset, up to len of them, or nothing at the end |
| FsAdapter.BlockingRead | virtual-adapter/src/fs.rs:535-548 | a file stream reads and advances its offset, reporting end of file when nothing was left; any other stream fails |
| FsAdapter.ZeroLengthReadEnds | virtual-adapter/src/fs.rs:235-248 | a read of length 0 reports end of file even before the end |
| FsAdapter.ReadToEndIsRest | virtual-adapter/src/fs.rs:535-548 | reading a file stream until it ends yields exactly the file's bytes from the stream's offset |
| FsAdapter.DirNext | virtual-adapter/src/fs.rs:254-270 | the stream yields the child at its index with its type and name and advances, or nothing at the end; an unknown descriptor is `BadDescriptor` and a file `NotDirectory` |
| FsAdapter.ReadDirectoryEntry | virtual-adapter/src/fs.rs:515-525 | a directory stream yields its next entry and only its index changes; any other stream is `BadDescriptor` |
| FsAdapter.Children | virtual-adapter/src/fs.rs:254-270 | the k-th and later entries of a child window, each with its type and name |
| FsAdapter.ListingFrom | virtual-adapter/src/fs.rs:515-525 | reading a directory stream from index k lists the children from k on, then only the end marker |
| FsAdapter.ListingExhausted | virtual-adapter/src/fs.rs:515-525 | a directory stream past its last child yields only the end marker, however often it is read |
| FsAdapter.ReadViaStream | virtual-adapter/src/fs.rs:334-339 | a zero offset gets a new file stream at offset 0; any other offset is `InvalidSeek` |
| FsAdapter.GetType | virtual-adapter/src/fs.rs:355-360 | an unknown descriptor is `BadDescriptor`; otherwise the type of its entry |
| FsAdapter.ReadDirectory | virtual-adapter/src/fs.rs:373-381 | a directory gets a new directory stream at index 0; a file is `NotDirectory`; an unknown descriptor is `BadDescriptor` |
| FsAdapter.EntryStat | virtual-adapter/src/fs.rs:388-411 | a stat has no links and zero times, a directory's size is 0 and a file's is its length; run-time entries panic |
| FsAdapter.Stat | virtual-adapter/src/fs.rs:388-411 | an unknown descriptor is `BadDescriptor`; otherwise the stat of its entry |
| FsAdapter.StatAt | virtual-adapter/src/fs.rs:412-436 | the stat of the entry the path is looked up to, with lookup errors passed on |
| FsAdapter.OpenAt | virtual-adapter/src/fs.rs:449-462 | opening a path found makes a new descriptor, numbered by the counter, for the entry found; lookup errors are passed on |
| FsAdapter.Constant | virtual-adapter/src/fs.rs:340-511 | the stream writers, `set-size`, `set-times`, `write`, `create-directory-at`, `link-at` and the permission changes are `Access`; locks succeed; `get-flags` reports read-only; `set-times-at`, `remove-directory-at`, `rename-at`, `symlink-at`, `unlink-file-at` and the other remaining calls are `todo!()` |
| FsAdapter.StreamConstant | virtual-adapter/src/fs.rs:532-585 | every stream write fails; the other stream calls are `todo!()` |
| FsAdapter.OpenAtKeeps | virtual-adapter/src/fs.rs:449-462 | opening keeps every descriptor inside the index and panics only when the lookup does |
| FsAdapter.BlockingReadKeeps | virtual-adapter/src/fs.rs:535-548 | a read keeps the state consistent with the index |
| FsAdapter.BlockingReadNoWrap | virtual-adapter/src/fs.rs:235-248 | in a consistent state a read panics exactly when the stream's descriptor is a directory; a stream's offset never passes the end, so the subtraction never wraps |
| FsAdapter.StreamsKeep | virtual-adapter/src/fs.rs:334-381 | opening a file or directory stream and reading a directory entry keep the state consistent |
| FsAdapter.DropKeeps | virtual-adapter/src/fs.rs:297-324 | dropping a descriptor or a stream keeps the state consistent |
| StaticIndex.Ty | virtual-adapter/src/io.rs:340-347 | files are regular files and directories are directories; the older adapter's layout panics on run-time entries |
| StaticIndex.ChildList | virtual-adapter/src/io.rs:364-371 | a directory's children are the window at its offset (relative in the current layout, absolute in the older one) with its count; a regular file is `NotDirectory` |
| StaticIndex.FindSlash | virtual-adapter/src/io.rs:372-389 | the position of the first `/`, present exactly when the path has one |
| StaticIndex.SplitPath | virtual-adapter/src/io.rs:372-389 | the path is the first segment, a `/` and the rest, the segment holding no `/`; a path without `/` is one segment |
| StaticIndex.DirLookup | virtual-adapter/src/io.rs:372-389 | a path found is a position inside the index |
| Sorting.SortBy | src/virt_env.rs:104-124 | the overrides and the allow or deny list come out sorted by key and are a permutation of what went in |
| Sorting.KeyRunAppend | src/virt_env.rs:104-105 | the elements with a given key in a concatenation are those of the first part followed by those of the second |
| Sorting.InsertByStable | src/virt_env.rs:104-105 | inserting into a sorted sequence puts the new element after every element with the same key |
| Sorting.SortByStable | src/virt_env.rs:104-105 | sorting keeps the elements with equal keys in the order they were given, as the stable `sort_by` does |
| Sorting.BinarySearch | virtual-adapter/src/io.rs:372-389 | a position found holds the name searched for |
| Sorting.BinarySearchIsMembership | virtual-adapter/src/io.rs:372-389 | over names sorted by byte order, the search finds a position exactly when some child has the name |
| SortedMap.InsertGet | virtual-adapter/src/io.rs:597 | after inserting a host preopen, looking its name up gives its descriptor and every other name keeps its value |

## Left out

- Binary wasm parsing and emission (`Module::new`, `emit_wasm`) depend on wasmparser and wasm_encoder. Only the index mapping they rely on is modelled.
- walrus internals are modelled as updates of an abstract module: function bodies, `FunctionBuilder`, the table and element construction in `Data::finish`, and the export and import tables.
- The opcode, value and heap-type tables (`op_map`, `val_map`, `heap_ty_map`) are left out: they are a one-to-one table with `todo!`s and floating-point constants.
- Host calls are function-typed parameters of the members that make them, e.g. the host filesystem, streams, pollables, preopens, environment and configuration. The same holds for the generator's reads of the local filesystem.
- The HTTP, sockets and clock relays of the adapter are left out: they forward to the host and hold no logic of their own. So are `drop-terminal-*`, `get-terminal-*` and the monotonic clock.
- Descriptor flags, open flags, path flags and advice arguments are left out, because the adapter ignores them or passes them to the host unchanged.
- Counters in the adapter (descriptors, streams, pollables) are unbounded; the source's `u32` counters would wrap only after 2^32 allocations.
- The adapter's consistency invariant is a precondition. Every static descriptor and stream points inside the index, the index has fewer than 2^32 entries, and every file entry's length word is its contents' length (`Sane`, `Good`). It is proved preserved by every state-changing call. That the generator's image meets it is not proved: it needs the adapter's reading of the emitted pointers, which is not modelled. What the generator writes is stated by `IoVirt.CreateIoVirtIndex`, with lengths wrapped to 32 bits.
- Passive-segment copying (`passive_alloc`), pointer layouts, UTF-8 checks (`CStr::to_str().unwrap()`) and debug logging are left out. The model keeps each entry's name and bytes together with the raw words of its data union.
- `IoFiles.Read`: only offset 0 is readable, as in the source. A failed read keeps the stream it opened, as in the source.
- `Sorting.BinarySearch`: the probe order of Rust's `binary_search_by` is not modelled, only which position is found. With the strictly sorted child names the index holds, that position is unique.
- `IndexLookup.DirLookupIsTreeLookup`: holds over an index that `Mirrors` and is `Laid` from the tree's visits, and two parts of that are assumed, not proved of the generator's output. `Mirrors` assumes the adapter's entries, with names and contents read through their pointers, are the generator's entries in visit order with offsets and counts below 2^32; the pointer decoding is not modelled, and `IoVirt.CreateIoVirtIndex` states the words the generator writes. `Laid`'s last part assumes a run-time directory's path pointer, read as a child offset, points past the index. With a smaller pointer and a zero second word the source reads an empty window and answers `NoEntry` where the model panics. The rest of `Laid` is proved for the generator's output by `IoVirt.CreateIoVirtLaysTree`.
- `FsIndex.LinearizeOne`: a run-time file or directory entry sets only the path pointer of its 8-byte `StaticFileData` union (src/virt_io.rs:437-450), so the second word that `encode` writes (src/virt_io.rs:205-206) is uninitialised memory in the source. The model writes 0 there, and the adapter reads that word as a run-time directory's child count.
- `IoVirtStubs`: the inline stub calls of src/virt_io.rs:569-715 pass a fourth, boolean argument, but the only `stub_imported_func` in the source (src/walrus_ops.rs:69-105) takes three and panics on a missing import. The reading of the flag (`true`: the import must exist; `false`: stub it only if present) is inferred from those call sites and from the per-interface stubs of src/virt_io/, whose `StubRequirement` has these cases.
- `FsTree.ResolveAll`: resolves each child's whole subtree before its next sibling, where `visit_pre_mut_inner` (src/virt_io.rs:239-246) visits all siblings first and then descends. The results agree whenever resolution succeeds. With two failing entries, the error reported can differ.
- `IndexLookup.ChildWindow`: the same assumed premises as `IndexLookup.DirLookupIsTreeLookup`.
- `IndexLookup.DirLookupInDir`: the same assumed premises as `IndexLookup.DirLookupIsTreeLookup`.
- `IoFiles.OpenAtFindsTreeNode`: the same assumed premises as `IndexLookup.DirLookupIsTreeLookup`, and the consistency invariant `Sane`.
- `IoFiles.DirNextListsChildren`: the same assumed premises as `IndexLookup.DirLookupIsTreeLookup`, and the consistency invariant `Sane`.
- `IoFiles.ReadDirectoryLists`: the same assumed premises as `IndexLookup.DirLookupIsTreeLookup`, and the consistency invariant `Sane`.
- `Data.FinishStack`: models the stack segment of `Data::finish` (src/data.rs:116-130) and not its passive-segment embedding. The two errors that part can raise are left out with it: the lookup of the exported `cabi_realloc` when there are passive segments (src/data.rs:135), and the removal of the `passive_alloc` export (src/data.rs:215), which fails when the module does not export it. `IoVirt.Emit` and `IoVirt.CreateIoVirt` therefore never fail for these.
- `StaticIndex.DirLookup`: its contract only bounds the result. What the lookup finds is stated by `IndexLookup.DirLookupIsTreeLookup` over an index laid out from a tree.
- `MutatorIndex.GetIdx`: a chain of substitutions is followed at most as many steps as there are substitutions, which reaches the end of every chain that ends (`MutatorIndex.ResolveWithinSize`). A cyclic chain, on which the source recurses forever, gives no index. The `i32` and `u32` arithmetic is unbounded.
- `FsAdapter.FileRead`: the older adapter subtracts `u64` offsets without a check. The model's offsets are unbounded, and `FsAdapter.BlockingReadNoWrap` shows the subtraction never goes below zero in a consistent state.
- Symlinks and run-time entries of the older adapter hit `todo!()` and are modelled as panics. The current adapter's run-time entries are modelled.
- The `virtual_files` map returned by `create_io_virt` only reports which host files were embedded. It is left out.
- `src/virt_fs.rs`, `src/virt_deny.rs` and the per-interface tables of `src/virt_deny/` are left out. The first two are superseded prototypes; the tables enter `Deny` as lists.
- The wasm binary decoding of a whole static section by the adapter is left out. The index is given as a sequence of entries, and the header words are read back from bytes.
- `Data.WriteSlice`: places the slice with the corrected `Data.StackAlloc`, not with `stack_alloc` as written. With the stack pointer at 9 and one word, the source places it at 2 and the model at 4 (second row of Findings). The generator members built on it inherit this: `IoVirt.Place`, `IoVirt.Emit`, `IoVirt.CreateIoVirt` and the `IoVirt.CreateIoVirt*` lemmas.
- `IoVirt.PlaceHeader`: writes the header with the corrected `IoVirt.WriteHeader`, which grows the segment for all 20 header bytes. The source grows it for 16 bytes only, and panics on a segment holding exactly 16 bytes past the header offset (first row of Findings).
- `IoVirt.Emit`: builds the image with the corrected allocator and the corrected header write. Its addresses follow `Data.StackAlloc`, and it succeeds where the source panics on a 16-byte segment.
- `IoVirt.CreateIoVirt`: runs the corrected allocator and header write, as `IoVirt.Emit` does. `IoVirt.HeaderAsWrittenAgrees` shows the header writes agree once the segment holds 20 bytes past the offset.
- `IoVirt.CreateIoVirtHeader`: states the header read back from the corrected build. On a segment holding exactly 16 bytes past the offset, the source panics instead.
- `IoFiles.ReadBytes`: offsets and lengths are unbounded integers. The source's `u64` values and `as usize` casts are modelled only in `IoFiles.ReadEntryAsWritten`. `IoFiles.AsWrittenBelow4G` shows the two agree below 2^32 (fourth row of Findings).
- `IoFiles.ReadEntry`: is the corrected read. The read as written is `IoFiles.ReadEntryAsWritten`.
- `IoFiles.DescriptorRead`: static entries are read with the corrected `IoFiles.ReadEntry`.
- `IoFiles.FileStreamRead`: reads with the corrected `IoFiles.ReadEntry`. As written, a length that is a multiple of 2^32 reads nothing and does not end.
- `IoFiles.Read`: reads with the corrected `IoFiles.ReadEntry`.
- `IoFiles.DrainReadsRest`: is proved for the corrected read. As written, a file stream read with a length that is a multiple of 2^32 never ends; for lengths below 2^32 the two reads agree (`IoFiles.AsWrittenBelow4G`).
- `IoStreams.ReadToEndIsRest`: is proved for the corrected read, with the same caveat as `IoFiles.DrainReadsRest`.
- `IoFiles.Stat`: maps a host stat with the corrected `IoFiles.StatMap`, which keeps the access time. `stat_map` as written copies the modification time into it (`IoFiles.StatMapAsWritten`, fifth row of Findings).
- `IoFiles.StatAt`: maps a run-time entry's host stat with the corrected `IoFiles.StatMap`, as `IoFiles.Stat` does.
- `IoStreams.PollOneoff`: passes the host ids of the listed host pollables to the host. As written, when every listed pollable is a host one, the adapter's own ids are passed (`IoStreams.PollOneoffAsWritten`, sixth row of Findings).
- `Sorting.SortBy`: its contract states sortedness and permutation only. Stability, which decides which of two overrides with the same key wins, is stated by `Sorting.SortByStable`, and `ConfigAdapter.SortedFirstValue` draws the consequence for the first value of a key.

## Findings

| source | as written | input that shows it | evidently intended | confidence | as-written member | corrected member |
|---|---|---|---|---|---|---|
| src/virt_io.rs:527-557 | the segment is grown to fit a 16-byte static (`FS_STATIC_LEN`), but five 4-byte words, 20 bytes, are written | a data segment of exactly 16 bytes with the static at offset 0: no resize happens, and writing bytes 16..20 panics | grow the segment for 20 bytes | high, not executed | IoVirt.HeaderAsWrittenPanics | IoVirt.WriteHeader |
| src/data.rs:74-78 | `stack_alloc` pads by the old pointer's remainder modulo the alignment | stack pointer 9, 4 bytes at alignment 4: the new pointer is 2, which is not 4-aligned | pad so that the new pointer is a multiple of the alignment | high, not executed | Data.StackAllocMisaligns | Data.StackAlloc |
| src/mutator.rs:679-701 | the imports iterator that `get_or_create_import_func` searches never advances past the first insertion | an empty module after one `get_or_create_import_func("wasi:a", "f")`: asking for `("wasi:b", "g")` loops forever | visit every original, then every insertion, and stop | high, not executed | MutatorModule.GetOrCreateHangsExample | MutatorModule.GetOrCreateImportFunc |
| virtual-adapter/src/io.rs:196-208 | `Descriptor::read` casts the requested `u64` length to `usize`, 32 bits on wasm32 | a 10-byte file read with length 2^32 at offset 0: the length becomes 0, so nothing is read and the read is not done | compare the lengths as `u64`, then read 10 bytes and report done | medium, not executed | IoFiles.ReadOf4GStalls | IoFiles.ReadEntry |
| virtual-adapter/src/io.rs:256-264 | `stat_map` fills the access timestamp from the host's modification timestamp | a host stat accessed at 5 s and modified at 2 s reports access at 2 s | copy the access timestamp | high, not executed | IoFiles.StatMapLosesAccess | IoFiles.StatMapKeepsAccess |
| virtual-adapter/src/io.rs:1477-1487 | when every listed pollable is a host pollable, `poll_oneoff` forwards the adapter's pollable ids to the host | adapter pollable 1 wraps host pollable 7; polling `[1]` asks the host about pollable 1 | translate each id to its host pollable, as the translating loop at io.rs:1491-1510 does | high, not executed | IoStreams.PollOneoffForwardsAdapterIds | IoStreams.PollOneoffForwardsHostPids |
