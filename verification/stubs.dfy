/** The table-driven stubbing and stripping shared by the subsystems of
    `src/virt_io/` (filesystem, io, sockets, http, stdio, clocks).

    A subsystem lists the host imports it owns, each with a requirement,
    and the exports the adapter provides for it.  Stubbing replaces each
    owned import by a local function that traps; stripping stubs, then
    removes the adapter's exports. */
module Stubs {
  import opened Results
  import opened Wasm

  datatype StubRequirement = Required | Optional | DependsOnFsUsage

  /** What a subsystem does with an entry: the import must be there and is
      stubbed; it is stubbed if there; or the entry is rejected (`bail!`). */
  datatype Action = MustStub | StubIfPresent | Reject

  datatype Entry = Entry(modName: string, name: string, req: StubRequirement)

  function Key(e: Entry): ImportName
  {
    (e.modName, e.name)
  }

  /** One iteration of a subsystem's stub loop. */
  function StubOne(m: Module, e: Entry, act: Action): Result<Module, Error>
  {
    match act
    case Reject => Err(UnexpectedRequirement)
    case MustStub =>
      (match GetImportFunc(m, e.modName, e.name)
       case Ok(fid) => ReplaceImportedFunc(m, fid)
       case Err(err) => Err(err))
    case StubIfPresent =>
      if Key(e) in m.imports then ReplaceImportedFunc(m, m.imports[Key(e)]) else Ok(m)
  }

  /** The stub loop: the entries in table order, stopping at the first error. */
  function StubAll(m: Module, t: seq<Entry>, policy: StubRequirement -> Action): Result<Module, Error>
    decreases |t|
  {
    if |t| == 0 then Ok(m)
    else match StubOne(m, t[0], policy(t[0].req))
      case Err(err) => Err(err)
      case Ok(m1) => StubAll(m1, t[1..], policy)
  }

  /** The strip loop's second half: remove each export, stopping at the
      first one that is missing. */
  function RemoveAll(m: Module, names: seq<string>): Result<Module, Error>
    decreases |names|
  {
    if |names| == 0 then Ok(m)
    else match RemoveExport(m, names[0])
      case Err(err) => Err(err)
      case Ok(m1) => RemoveAll(m1, names[1..])
  }

  function StripAll(m: Module, t: seq<Entry>, policy: StubRequirement -> Action, names: seq<string>): Result<Module, Error>
  {
    match StubAll(m, t, policy)
    case Err(err) => Err(err)
    case Ok(m1) => RemoveAll(m1, names)
  }

  // ---------------------------------------------------------------------
  // What stubbing does

  function Keys(t: seq<Entry>): set<ImportName>
  {
    set i | 0 <= i < |t| :: Key(t[i])
  }

  /** The functions the imports in `ks` bind. */
  function Fids(m: Module, ks: set<ImportName>): set<nat>
  {
    set k | k in m.imports && k in ks :: m.imports[k]
  }

  lemma NoFids(m: Module, ks: set<ImportName>)
    requires forall k :: k in ks ==> k !in m.imports
    ensures Fids(m, ks) == {}
  {
  }

  /** Stubbing imports the module does not have leaves it as it is. */
  lemma StubbedAsNothing(m: Module, ks: set<ImportName>, m': Module)
    requires forall k :: k in ks ==> k !in m.imports
    requires StubbedAs(m, ks, m')
    ensures m' == m
  {
    NoFids(m, ks);
    assert m'.funcs == m.funcs;
    assert m'.imports == m.imports;
  }

  /** `m'` is `m` with the imports in `ks` stubbed. */
  predicate StubbedAs(m: Module, ks: set<ImportName>, m': Module)
  {
    var fids := Fids(m, ks);
    m'.imports == m.imports - ks
    && |m'.funcs| == |m.funcs|
    && (forall f :: 0 <= f < |m.funcs| ==>
          m'.funcs[f] == if f in fids then LocalFunc(m.funcs[f].sig, Unreachable) else m.funcs[f])
    && m'.exports == m.exports && m'.globals == m.globals && m'.data == m.data
  }

  lemma StubOneSpec(m: Module, e: Entry, act: Action)
    requires WellFormed(m)
    ensures StubOne(m, e, act).Ok? <==> act != Reject && (act == MustStub ==> Key(e) in m.imports)
    ensures StubOne(m, e, act).Ok? ==> WellFormed(StubOne(m, e, act).value)
    ensures StubOne(m, e, act).Ok? ==> StubbedAs(m, {Key(e)}, StubOne(m, e, act).value)
  {
    if act != Reject && Key(e) in m.imports {
      var fid := m.imports[Key(e)];
      ReplaceImportedFuncWellFormed(m, fid);
      var m' := StubOne(m, e, act).value;
      assert m'.imports == m.imports - {Key(e)} by {
        forall k ensures k in m'.imports <==> k in m.imports - {Key(e)} {
          if k in m.imports && m.imports[k] == fid { assert k == Key(e); }
        }
      }
      assert Fids(m, {Key(e)}) == {fid};
    } else if act == StubIfPresent {
      NoFids(m, {Key(e)});
    }
  }

  lemma StubbedAsCompose(m: Module, ks1: set<ImportName>, m1: Module, ks2: set<ImportName>, m2: Module)
    requires WellFormed(m)
    requires StubbedAs(m, ks1, m1) && StubbedAs(m1, ks2, m2)
    ensures StubbedAs(m, ks1 + ks2, m2)
  {
    ComposeFids(m, ks1, m1, ks2);
    assert m2.imports == m.imports - (ks1 + ks2);
  }

  /** The functions stubbed in two passes are those of the first pass and,
      apart from them, those of the second. */
  lemma ComposeFids(m: Module, ks1: set<ImportName>, m1: Module, ks2: set<ImportName>)
    requires WellFormed(m) && m1.imports == m.imports - ks1
    ensures Fids(m, ks1 + ks2) == Fids(m, ks1) + Fids(m1, ks2)
    ensures Fids(m, ks1) !! Fids(m1, ks2)
  {
    var f1 := Fids(m, ks1);
    var f2 := Fids(m1, ks2);
    var f := Fids(m, ks1 + ks2);
    forall x | x in f ensures x in f1 || x in f2 {
      var k :| k in m.imports && k in ks1 + ks2 && m.imports[k] == x;
      if k !in ks1 { assert k in m1.imports && m1.imports[k] == x; }
    }
    forall x | x in f2 ensures x in f && x !in f1 {
      var k :| k in m1.imports && k in ks2 && m1.imports[k] == x;
      assert k in m.imports && k !in ks1 && m.imports[k] == x;
      forall k1 | k1 in m.imports && k1 in ks1 ensures m.imports[k1] != x {
        assert k1 != k;
      }
    }
  }

  /** A stub loop that succeeds stubs exactly the imports its table names;
      every other import, function, export, global and segment is kept. */
  lemma {:induction false} StubAllSpec(m: Module, t: seq<Entry>, policy: StubRequirement -> Action)
    requires WellFormed(m)
    ensures StubAll(m, t, policy).Ok? ==> WellFormed(StubAll(m, t, policy).value)
    ensures StubAll(m, t, policy).Ok? ==> StubbedAs(m, Keys(t), StubAll(m, t, policy).value)
    decreases |t|
  {
    if |t| == 0 {
      assert Keys(t) == {};
      NoFids(m, Keys(t));
    } else {
      StubOneSpec(m, t[0], policy(t[0].req));
      match StubOne(m, t[0], policy(t[0].req))
      case Err(_) =>
      case Ok(m1) =>
        StubAllSpec(m1, t[1..], policy);
        assert Keys(t) == {Key(t[0])} + Keys(t[1..]) by {
          forall k ensures k in Keys(t) <==> k in {Key(t[0])} + Keys(t[1..]) {
            if k in Keys(t) {
              var i :| 0 <= i < |t| && Key(t[i]) == k;
              if i > 0 { assert Key(t[1..][i - 1]) == k; }
            }
            if k in Keys(t[1..]) {
              var i :| 0 <= i < |t[1..]| && Key(t[1..][i]) == k;
              assert Key(t[i + 1]) == k;
            }
          }
        }
        if StubAll(m1, t[1..], policy).Ok? {
          StubbedAsCompose(m, {Key(t[0])}, m1, Keys(t[1..]), StubAll(m1, t[1..], policy).value);
        }
    }
  }

  /** An entry the subsystem rejects makes the loop fail. */
  lemma {:induction false} StubAllRejects(m: Module, t: seq<Entry>, policy: StubRequirement -> Action, i: nat)
    requires i < |t| && policy(t[i].req) == Reject
    ensures StubAll(m, t, policy).Err?
    decreases |t|
  {
    if i > 0 {
      match StubOne(m, t[0], policy(t[0].req))
      case Err(_) =>
      case Ok(m1) => StubAllRejects(m1, t[1..], policy, i - 1);
    }
  }

  /** A required import that is absent makes the loop fail. */
  lemma {:induction false} StubAllMissing(m: Module, t: seq<Entry>, policy: StubRequirement -> Action, i: nat)
    requires i < |t| && policy(t[i].req) == MustStub && Key(t[i]) !in m.imports
    ensures StubAll(m, t, policy).Err?
    decreases |t|
  {
    if i > 0 {
      match StubOne(m, t[0], policy(t[0].req))
      case Err(_) =>
      case Ok(m1) =>
        assert m1.imports.Keys <= m.imports.Keys;
        StubAllMissing(m1, t[1..], policy, i - 1);
    }
  }

  /** A table whose entries are all stubbed only when present cannot fail. */
  lemma {:induction false} StubAllOptional(m: Module, t: seq<Entry>, policy: StubRequirement -> Action)
    requires WellFormed(m)
    requires forall i :: 0 <= i < |t| ==> policy(t[i].req) == StubIfPresent
    ensures StubAll(m, t, policy).Ok?
    decreases |t|
  {
    if |t| > 0 {
      StubOneSpec(m, t[0], policy(t[0].req));
      var m1 := StubOne(m, t[0], policy(t[0].req)).value;
      assert forall i :: 0 <= i < |t[1..]| ==> t[1..][i] == t[i + 1];
      StubAllOptional(m1, t[1..], policy);
    }
  }

  predicate DistinctKeys(t: seq<Entry>)
  {
    forall i, j :: 0 <= i < j < |t| ==> Key(t[i]) != Key(t[j])
  }

  /** With no entry listed twice, the loop succeeds exactly when no entry is
      rejected and every required import is present. */
  lemma {:induction false} StubAllSucceeds(m: Module, t: seq<Entry>, policy: StubRequirement -> Action)
    requires WellFormed(m) && DistinctKeys(t)
    ensures StubAll(m, t, policy).Ok? <==>
      forall i :: 0 <= i < |t| ==> policy(t[i].req) != Reject && (policy(t[i].req) == MustStub ==> Key(t[i]) in m.imports)
    decreases |t|
  {
    if |t| > 0 {
      StubOneSpec(m, t[0], policy(t[0].req));
      match StubOne(m, t[0], policy(t[0].req))
      case Err(_) =>
      case Ok(m1) =>
        StubAllSucceeds(m1, t[1..], policy);
        forall i | 0 <= i < |t[1..]| ensures Key(t[1..][i]) in m1.imports <==> Key(t[1..][i]) in m.imports {
          assert Key(t[1..][i]) == Key(t[i + 1]) != Key(t[0]);
        }
        assert forall i :: 0 < i < |t| ==> t[i] == t[1..][i - 1];
    }
  }

  // ---------------------------------------------------------------------
  // What removing exports does

  /** Removing a list of exports succeeds exactly when each is present when
      its turn comes, and then removes exactly those. */
  lemma {:induction false} RemoveAllSpec(m: Module, names: seq<string>)
    ensures RemoveAll(m, names).Ok? ==> RemoveAll(m, names).value == m.(exports := m.exports - set i | 0 <= i < |names| :: names[i])
    ensures (exists i :: 0 <= i < |names| && names[i] !in m.exports) ==> RemoveAll(m, names).Err?
    ensures RemoveAll(m, names).Err? ==> exists i :: 0 <= i < |names| && RemoveAll(m, names).error == MissingExport(names[i])
    decreases |names|
  {
    if |names| > 0 {
      match RemoveExport(m, names[0])
      case Err(_) =>
      case Ok(m1) =>
        RemoveAllSpec(m1, names[1..]);
        var s := set i | 0 <= i < |names| :: names[i];
        var s1 := set i | 0 <= i < |names[1..]| :: names[1..][i];
        assert s == {names[0]} + s1 by {
          forall x ensures x in s <==> x in {names[0]} + s1 {
            if x in s {
              var i :| 0 <= i < |names| && names[i] == x;
              if i > 0 { assert names[1..][i - 1] == x; }
            }
            if x in s1 {
              var i :| 0 <= i < |names[1..]| && names[1..][i] == x;
              assert names[i + 1] == x;
            }
          }
        }
        assert m1.exports - s1 == m.exports - s;
        if exists i :: 0 <= i < |names| && names[i] !in m.exports {
          var i :| 0 <= i < |names| && names[i] !in m.exports;
          assert names[1..][i - 1] == names[i] && names[i] !in m1.exports;
        }
        if RemoveAll(m1, names[1..]).Err? {
          var i :| 0 <= i < |names[1..]| && RemoveAll(m1, names[1..]).error == MissingExport(names[1..][i]);
          assert names[1..][i] == names[i + 1];
        }
    }
  }

  predicate DistinctNames(names: seq<string>)
  {
    forall i, j :: 0 <= i < j < |names| ==> names[i] != names[j]
  }

  lemma {:induction false} RemoveAllSucceeds(m: Module, names: seq<string>)
    requires DistinctNames(names)
    ensures RemoveAll(m, names).Ok? <==> forall i :: 0 <= i < |names| ==> names[i] in m.exports
    decreases |names|
  {
    if |names| > 0 && names[0] in m.exports {
      var m1 := RemoveExport(m, names[0]).value;
      RemoveAllSucceeds(m1, names[1..]);
      assert forall i :: 0 < i < |names| ==> names[i] == names[1..][i - 1] && names[i] != names[0];
    }
  }

  /** Stripping a subsystem: stub its imports, then remove its exports. */
  lemma StripAllSpec(m: Module, t: seq<Entry>, policy: StubRequirement -> Action, names: seq<string>)
    requires WellFormed(m)
    ensures StripAll(m, t, policy, names).Ok? ==>
      StubAll(m, t, policy).Ok? &&
      StripAll(m, t, policy, names).value ==
        StubAll(m, t, policy).value.(exports := m.exports - set i | 0 <= i < |names| :: names[i])
    ensures StubAll(m, t, policy).Err? ==> StripAll(m, t, policy, names) == StubAll(m, t, policy)
    ensures StubAll(m, t, policy).Ok? && (exists i :: 0 <= i < |names| && names[i] !in m.exports) ==>
      StripAll(m, t, policy, names).Err?
  {
    StubAllSpec(m, t, policy);
    if StubAll(m, t, policy).Ok? {
      RemoveAllSpec(StubAll(m, t, policy).value, names);
    }
  }
}
