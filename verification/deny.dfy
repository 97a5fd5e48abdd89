/** `src/virt_deny/mod.rs`: denying an interface by making its exported
    functions trap.  For each `(namespace, package, interface, function)`
    with a signature, the exports of that function at any version
    compatible with the requested one have their bodies replaced by
    `unreachable`; when there is none, a trapping export at the exact
    requested version is added. */
module Deny {
  import opened Results
  import opened Text
  import opened Wasm

  /** A semantic version; `pre` and `build` are empty when absent. */
  datatype Version = Version(major: nat, minor: nat, patch: nat, pre: string, build: string)

  /** The `Display` rendering of a semantic version. */
  function VersionString(v: Version): string
  {
    NatToString(v.major) + "." + NatToString(v.minor) + "." + NatToString(v.patch)
    + (if v.pre == "" then "" else "-" + v.pre)
    + (if v.build == "" then "" else "+" + v.build)
  }

  /** The part of the version that compatible versions share: the major
      number, or `0.minor` before 1.0. */
  function VersionPrefix(v: Version): (r: string)
    ensures v.major > 0 ==> r == NatToString(v.major) + "."
    ensures v.major == 0 ==> r == "0." + NatToString(v.minor) + "."
  {
    if v.major > 0 then NatToString(v.major) + "." else "0." + NatToString(v.minor) + "."
  }

  /** Every version starts with its own compatibility prefix. */
  lemma VersionHasPrefix(v: Version)
    ensures StartsWith(VersionString(v), VersionPrefix(v))
  {
    var a := NatToString(v.major) + ".";
    var b := a + NatToString(v.minor) + ".";
    var c := b + NatToString(v.patch);
    var d := c + (if v.pre == "" then "" else "-" + v.pre);
    assert VersionString(v) == d + (if v.build == "" then "" else "+" + v.build);
    StartsWithConcat(d, if v.build == "" then "" else "+" + v.build);
    StartsWithConcat(c, if v.pre == "" then "" else "-" + v.pre);
    StartsWithTrans(VersionString(v), d, c);
    StartsWithConcat(b, NatToString(v.patch));
    StartsWithTrans(VersionString(v), c, b);
    if v.major > 0 {
      StartsWithConcat(a, NatToString(v.minor) + ".");
      assert b == a + (NatToString(v.minor) + ".");
      StartsWithTrans(VersionString(v), b, a);
    } else {
      assert NatToString(0) == "0";
      assert b == "0." + NatToString(v.minor) + ".";
    }
  }

  /** One function of a denied interface and its signature. */
  datatype DenyEntry = DenyEntry(ns: string, pkg: string, iface: string, func: string, sig: Sig)

  function InterfaceAt(e: DenyEntry): string
  {
    e.ns + ":" + e.pkg + "/" + e.iface + "@"
  }

  function ExportPrefix(e: DenyEntry, v: Version): string
  {
    InterfaceAt(e) + VersionPrefix(v)
  }

  function ExportSuffix(e: DenyEntry): string
  {
    "#" + e.func
  }

  /** The name of the export added when nothing matches. */
  function StubName(e: DenyEntry, v: Version): string
  {
    InterfaceAt(e) + VersionString(v) + ExportSuffix(e)
  }

  /** A function export of this entry's function at a compatible version. */
  predicate Matches(m: Module, name: string, e: DenyEntry, v: Version)
  {
    name in m.exports && m.exports[name].ExportFunc?
    && StartsWith(name, ExportPrefix(e, v)) && EndsWith(name, ExportSuffix(e))
  }

  function MatchingFids(m: Module, e: DenyEntry, v: Version): (r: set<nat>)
    ensures forall f :: f in r <==> exists name :: Matches(m, name, e, v) && m.exports[name].fid == f
  {
    set name | name in m.exports && Matches(m, name, e, v) :: m.exports[name].fid
  }

  /** `Module::replace_exported_func` on every function of `fids`: each
      must be local, and becomes a trap with the same signature. */
  function ReplaceFids(m: Module, fids: set<nat>): (r: Result<Module, Error>)
    ensures r.Ok? <==> forall f :: f in fids ==> f < |m.funcs| && m.funcs[f].LocalFunc?
    ensures r.Err? ==> r.error == NonLocalExport
    ensures r.Ok? ==> |r.value.funcs| == |m.funcs|
    ensures r.Ok? ==> forall i :: 0 <= i < |m.funcs| ==>
      r.value.funcs[i] == (if i in fids then LocalFunc(m.funcs[i].sig, Unreachable) else m.funcs[i])
    ensures r.Ok? ==> r.value.imports == m.imports && r.value.exports == m.exports
    ensures r.Ok? ==> r.value.globals == m.globals && r.value.data == m.data
  {
    if forall f :: f in fids ==> f < |m.funcs| && m.funcs[f].LocalFunc? then
      Ok(m.(funcs := seq(|m.funcs|, i requires 0 <= i < |m.funcs| =>
        if i in fids then LocalFunc(m.funcs[i].sig, Unreachable) else m.funcs[i])))
    else Err(NonLocalExport)
  }

  /** `replace_or_insert_stub_for_exports` for one entry. */
  function DenyOne(m: Module, e: DenyEntry, v: Version): Result<Module, Error>
  {
    var fids := MatchingFids(m, e, v);
    if fids == {} then
      var (m1, fid) := AddLocalFunc(m, e.sig, Unreachable);
      Ok(m1.(exports := m1.exports[StubName(e, v) := ExportFunc(fid)]))
    else ReplaceFids(m, fids)
  }

  /** `replace_or_insert_stub_for_exports` over a whole table. */
  function DenyAll(m: Module, t: seq<DenyEntry>, v: Version): Result<Module, Error>
    decreases |t|
  {
    if |t| == 0 then Ok(m)
    else
      var m1 :- DenyOne(m, t[0], v);
      DenyAll(m1, t[1..], v)
  }

  /** The name of an added stub matches its own entry. */
  lemma StubNameMatches(e: DenyEntry, v: Version)
    ensures StartsWith(StubName(e, v), ExportPrefix(e, v)) && EndsWith(StubName(e, v), ExportSuffix(e))
  {
    VersionHasPrefix(v);
    var p := VersionPrefix(v);
    var s := VersionString(v);
    assert s[..|p|] == p;
    assert StubName(e, v) == InterfaceAt(e) + s + ExportSuffix(e);
    assert StubName(e, v)[..|InterfaceAt(e) + p|] == InterfaceAt(e) + s[..|p|];
    EndsWithConcat(InterfaceAt(e) + s, ExportSuffix(e));
  }

  /** With no compatible export, exactly one function and one export are
      added: a trap with the entry's signature, exported at the exact
      requested version. */
  lemma DenyOneInserts(m: Module, e: DenyEntry, v: Version)
    requires forall name :: !Matches(m, name, e, v)
    ensures DenyOne(m, e, v).Ok?
    ensures var r := DenyOne(m, e, v).value;
      r.funcs == m.funcs + [LocalFunc(e.sig, Unreachable)]
      && r.exports == m.exports[StubName(e, v) := ExportFunc(|m.funcs|)]
      && r.imports == m.imports && r.globals == m.globals && r.data == m.data
  {
    assert MatchingFids(m, e, v) == {};
  }

  /** With compatible exports, their functions become traps with their
      signatures; nothing is added and every other function is kept.  It
      fails iff one of them is not local. */
  lemma DenyOneReplaces(m: Module, e: DenyEntry, v: Version, name: string)
    requires Matches(m, name, e, v)
    ensures var r := DenyOne(m, e, v);
      (r.Ok? <==> forall n :: Matches(m, n, e, v) ==>
                    m.exports[n].fid < |m.funcs| && m.funcs[m.exports[n].fid].LocalFunc?)
      && (r.Ok? ==>
            r.value.exports == m.exports && r.value.imports == m.imports && |r.value.funcs| == |m.funcs|
            && (forall n :: Matches(m, n, e, v) ==>
                  r.value.funcs[m.exports[n].fid] == LocalFunc(m.funcs[m.exports[n].fid].sig, Unreachable))
            && (forall i :: 0 <= i < |m.funcs| && (forall n :: Matches(m, n, e, v) ==> m.exports[n].fid != i) ==>
                  r.value.funcs[i] == m.funcs[i]))
  {
    var fids := MatchingFids(m, e, v);
    MatchedFidsIn(m, e, v);
    assert m.exports[name].fid in fids;
    var ok := forall n :: Matches(m, n, e, v) ==>
                m.exports[n].fid < |m.funcs| && m.funcs[m.exports[n].fid].LocalFunc?;
    if ok {
      forall f | f in fids ensures f < |m.funcs| && m.funcs[f].LocalFunc? {
        var n :| Matches(m, n, e, v) && m.exports[n].fid == f;
      }
    }
  }

  lemma MatchedFidsIn(m: Module, e: DenyEntry, v: Version)
    ensures forall n :: Matches(m, n, e, v) ==> m.exports[n].fid in MatchingFids(m, e, v)
  {
    forall n | Matches(m, n, e, v) ensures m.exports[n].fid in MatchingFids(m, e, v) {
    }
  }

  /** Denying twice is denying once: an inserted stub matches its entry,
      and replacing a trap by a trap changes nothing. */
  lemma DenyOneIdempotent(m: Module, e: DenyEntry, v: Version)
    requires DenyOne(m, e, v).Ok?
    ensures DenyOne(DenyOne(m, e, v).value, e, v) == DenyOne(m, e, v)
  {
    var m1 := DenyOne(m, e, v).value;
    var fids := MatchingFids(m, e, v);
    if fids == {} {
      var n := StubName(e, v);
      StubNameMatches(e, v);
      assert Matches(m1, n, e, v);
      MatchedFidsIn(m, e, v);
      forall x | Matches(m1, x, e, v) ensures x == n {
      }
      assert MatchingFids(m1, e, v) == {|m.funcs|};
      assert m1.funcs[..|m.funcs|] == m.funcs;
      assert ReplaceFids(m1, {|m.funcs|}).value.funcs == m1.funcs;
    } else {
      forall x ensures Matches(m1, x, e, v) <==> Matches(m, x, e, v) {
      }
      assert MatchingFids(m1, e, v) == fids;
      assert ReplaceFids(m1, fids).value.funcs == m1.funcs;
    }
  }

  /** Some entry's prefix and suffix fit this name. */
  predicate MatchesAny(name: string, t: seq<DenyEntry>, v: Version)
  {
    exists i :: 0 <= i < |t| && StartsWith(name, ExportPrefix(t[i], v)) && EndsWith(name, ExportSuffix(t[i]))
  }

  /** Each step only appends functions and adds exports of new functions. */
  predicate Extends(m: Module, m1: Module)
  {
    |m.funcs| <= |m1.funcs|
    && (forall n :: n in m.exports ==> n in m1.exports)
    && (forall n :: n in m1.exports && m1.exports[n].ExportFunc? && m1.exports[n].fid < |m.funcs| ==>
          n in m.exports && m1.exports[n] == m.exports[n])
    && m1.imports == m.imports
  }

  lemma DenyOneExtends(m: Module, e: DenyEntry, v: Version)
    requires DenyOne(m, e, v).Ok?
    ensures Extends(m, DenyOne(m, e, v).value)
  {
  }

  /** Functions below `bound` not exported under a matching name. */
  predicate Untouched(m: Module, t: seq<DenyEntry>, v: Version, f: nat)
  {
    forall n :: n in m.exports && m.exports[n] == ExportFunc(f) ==> !MatchesAny(n, t, v)
  }

  /** Functions exported under no name that a table entry matches, and
      imports, are left as they were. */
  lemma {:induction false} DenyAllKeeps(m: Module, t: seq<DenyEntry>, v: Version, f: nat)
    requires DenyAll(m, t, v).Ok? && f < |m.funcs| && Untouched(m, t, v, f)
    ensures |m.funcs| <= |DenyAll(m, t, v).value.funcs|
    ensures DenyAll(m, t, v).value.funcs[f] == m.funcs[f]
    ensures DenyAll(m, t, v).value.imports == m.imports
    decreases |t|
  {
    if |t| > 0 {
      var m1 := DenyOne(m, t[0], v).value;
      DenyOneExtends(m, t[0], v);
      assert m1.funcs[f] == m.funcs[f] by {
        if MatchingFids(m, t[0], v) != {} {
          forall n | Matches(m, n, t[0], v) ensures m.exports[n].fid != f {
            if m.exports[n].fid == f { assert MatchesAny(n, t, v); }
          }
        }
      }
      forall n | n in m1.exports && m1.exports[n] == ExportFunc(f) ensures !MatchesAny(n, t[1..], v) {
        assert n in m.exports && m.exports[n] == ExportFunc(f);
      }
      DenyAllKeeps(m1, t[1..], v, f);
    }
  }
}
