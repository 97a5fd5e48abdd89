/** `src/virt_io.rs`: the virtual filesystem configuration, its builders, and
    the resolution pass of `create_io_virt` that replaces every `Source` by
    the file it spells and every `Virtualize` by the host file or directory
    it names.

    The host filesystem at generation time is an input: `host(p)` is what
    `fs::metadata`, `fs::read_dir` and `fs::read` find at path `p`, as a
    finite tree whose directory listings come in whatever order the host
    gives them. */
module FsTree {
  import opened Results
  import opened Bytes
  import opened Lex
  import opened SortedMap

  /** A node of the virtual tree; a `Dir` holds its children in name order
      (it is a `BTreeMap`). */
  datatype FsEntry =
    | Symlink(target: Bytes)
    | Virtualize(hostPath: Bytes)
    | RuntimeDir(hostPath: Bytes)
    | RuntimeFile(hostPath: Bytes)
    | File(bytes: Bytes)
    | Source(text: Bytes)
    | Dir(children: seq<(Bytes, FsEntry)>)

  /** `VirtFs`: whether the host's own preopens pass through, the named
      preopen trees in name order, and the passive-segment cutoff. */
  datatype VirtFs = VirtFs(hostPreopens: bool, preopens: seq<(Bytes, FsEntry)>, passiveCutoff: Option<nat>)

  const DEFAULT_FS := VirtFs(false, [], None)

  /** Every directory of the tree keeps its children in strict name order. */
  predicate WellFormed(e: FsEntry)
  {
    match e
    case Dir(cs) => Keyed(cs) && forall i :: 0 <= i < |cs| ==> WellFormed(cs[i].1)
    case _ => true
  }

  predicate FsWellFormed(fs: VirtFs)
  {
    Keyed(fs.preopens) && forall i :: 0 <= i < |fs.preopens| ==> WellFormed(fs.preopens[i].1)
  }

  // ---------------------------------------------------------------------
  // Builders

  function AllowHostPreopens(fs: VirtFs): (r: VirtFs)
    ensures r.hostPreopens && r.preopens == fs.preopens && r.passiveCutoff == fs.passiveCutoff
  {
    fs.(hostPreopens := true)
  }

  function DenyHostPreopens(fs: VirtFs): (r: VirtFs)
    ensures !r.hostPreopens && r.preopens == fs.preopens && r.passiveCutoff == fs.passiveCutoff
  {
    fs.(hostPreopens := false)
  }

  /** `preopen`: the name now maps to the entry, every other name keeps its
      tree, and the preopens stay in name order. */
  function Preopen(fs: VirtFs, name: Bytes, e: FsEntry): (r: VirtFs)
    requires Keyed(fs.preopens)
    ensures Keyed(r.preopens)
    ensures forall x :: Get(r.preopens, x) == if x == name then Some(e) else Get(fs.preopens, x)
    ensures r.hostPreopens == fs.hostPreopens && r.passiveCutoff == fs.passiveCutoff
  {
    InsertKeyed(fs.preopens, name, e);
    forall x ensures Get(Insert(fs.preopens, name, e), x) == if x == name then Some(e) else Get(fs.preopens, x) {
      InsertGet(fs.preopens, name, e, x);
    }
    fs.(preopens := Insert(fs.preopens, name, e))
  }

  /** `host_preopen`: a preopen resolved against the host at run time. */
  function HostPreopen(fs: VirtFs, name: Bytes, dir: Bytes): (r: VirtFs)
    requires Keyed(fs.preopens)
    ensures Keyed(r.preopens) && Get(r.preopens, name) == Some(RuntimeDir(dir))
    ensures forall x :: x != name ==> Get(r.preopens, x) == Get(fs.preopens, x)
  {
    Preopen(fs, name, RuntimeDir(dir))
  }

  /** `virtual_preopen`: a host directory copied in at generation time. */
  function VirtualPreopen(fs: VirtFs, name: Bytes, dir: Bytes): (r: VirtFs)
    requires Keyed(fs.preopens)
    ensures Keyed(r.preopens) && Get(r.preopens, name) == Some(Virtualize(dir))
    ensures forall x :: x != name ==> Get(r.preopens, x) == Get(fs.preopens, x)
  {
    Preopen(fs, name, Virtualize(dir))
  }

  function PassiveCutoff(fs: VirtFs, cutoff: nat): (r: VirtFs)
    ensures r.passiveCutoff == Some(cutoff)
    ensures r.hostPreopens == fs.hostPreopens && r.preopens == fs.preopens
  {
    fs.(passiveCutoff := Some(cutoff))
  }

  // ---------------------------------------------------------------------
  // Resolution

  /** What the host has at a path: a file with its contents, a directory
      with its listing (in the host's order), something else (a socket, a
      device), or nothing readable. */
  datatype HostNode =
    | HostFile(contents: Bytes)
    | HostDir(entries: seq<(Bytes, HostNode)>)
    | HostOther
    | HostMissing

  /** `bail!("Only files and directories ...")`, and a failing host call. */
  datatype ResolveError = NotFileOrDir | HostIo

  /** No `Source` and no `Virtualize` anywhere in the tree. */
  predicate Resolved(e: FsEntry)
  {
    match e
    case Source(_) => false
    case Virtualize(_) => false
    case Dir(cs) => forall i :: 0 <= i < |cs| ==> Resolved(cs[i].1)
    case _ => true
  }

  /** The visitor on a host node: a file becomes a `File` with its
      contents; a directory becomes a `Dir` of its listing collected into a
      `BTreeMap`, each child then visited in turn. */
  function ResolveHost(n: HostNode): Result<FsEntry, ResolveError>
    decreases n, 1
  {
    match n
    case HostFile(b) => Ok(File(b))
    case HostOther => Err(NotFileOrDir)
    case HostMissing => Err(HostIo)
    case HostDir(es) =>
      FromListSpec(es, []);
      match ResolveHostAll(n, FromList(es))
      case Ok(cs) => Ok(Dir(cs))
      case Err(e) => Err(e)
  }

  function ResolveHostAll(parent: HostNode, es: seq<(Bytes, HostNode)>): Result<seq<(Bytes, FsEntry)>, ResolveError>
    requires parent.HostDir? && forall p :: p in es ==> p in parent.entries
    decreases parent, 0, |es|
  {
    if |es| == 0 then Ok([])
    else
      assert es[0] in parent.entries;
      match ResolveHost(es[0].1)
      case Err(e) => Err(e)
      case Ok(c) =>
        assert forall p :: p in es[1..] ==> p in es;
        match ResolveHostAll(parent, es[1..])
        case Err(e) => Err(e)
        case Ok(cs) => Ok([(es[0].0, c)] + cs)
  }

  /** The `visit_pre_mut` pass of `create_io_virt` on one entry. */
  function Resolve(e: FsEntry, host: Bytes -> HostNode): Result<FsEntry, ResolveError>
    decreases e, 1
  {
    match e
    case Source(t) => Ok(File(t))
    case Virtualize(p) => ResolveHost(host(p))
    case Dir(cs) =>
      (match ResolveAll(e, cs, host)
       case Ok(rs) => Ok(Dir(rs))
       case Err(err) => Err(err))
    case _ => Ok(e)
  }

  /** The children `cs` of `parent` (or the preopens, when `parent` is
      `Dir(cs)`), resolved in order, each child's subtree before the next
      sibling.  `visit_pre_mut_inner` visits all siblings first and then
      descends; the results agree on success, and only which of two
      failures is reported can differ. */
  function ResolveAll(parent: FsEntry, cs: seq<(Bytes, FsEntry)>, host: Bytes -> HostNode)
    : Result<seq<(Bytes, FsEntry)>, ResolveError>
    requires parent.Dir? && forall p :: p in cs ==> p in parent.children
    decreases parent, 0, |cs|
  {
    if |cs| == 0 then Ok([])
    else
      assert cs[0] in parent.children;
      match Resolve(cs[0].1, host)
      case Err(err) => Err(err)
      case Ok(c) =>
        assert forall p :: p in cs[1..] ==> p in cs;
        match ResolveAll(parent, cs[1..], host)
        case Err(err) => Err(err)
        case Ok(rs) => Ok([(cs[0].0, c)] + rs)
  }

  /** Resolving every preopen tree. */
  function ResolveFs(fs: VirtFs, host: Bytes -> HostNode): Result<VirtFs, ResolveError>
  {
    match ResolveAll(Dir(fs.preopens), fs.preopens, host)
    case Ok(ps) => Ok(fs.(preopens := ps))
    case Err(err) => Err(err)
  }

  // ---------------------------------------------------------------------
  // Properties of resolution

  /** The children list resolves exactly when every child does, and then
      each child keeps its name and position and is replaced by its
      resolution. */
  lemma {:induction false} ResolveAllPointwise(parent: FsEntry, cs: seq<(Bytes, FsEntry)>, host: Bytes -> HostNode)
    requires parent.Dir? && forall p :: p in cs ==> p in parent.children
    ensures ResolveAll(parent, cs, host).Ok? <==> forall i :: 0 <= i < |cs| ==> Resolve(cs[i].1, host).Ok?
    ensures ResolveAll(parent, cs, host).Ok? ==>
      var rs := ResolveAll(parent, cs, host).value;
      |rs| == |cs| && forall i :: 0 <= i < |cs| ==> rs[i] == (cs[i].0, Resolve(cs[i].1, host).value)
    decreases |cs|
  {
    if |cs| > 0 {
      assert forall p :: p in cs[1..] ==> p in cs;
      ResolveAllPointwise(parent, cs[1..], host);
      assert forall i :: 1 <= i < |cs| ==> cs[i] == cs[1..][i - 1];
    }
  }

  /** The same for the children of a host directory. */
  lemma {:induction false} ResolveHostAllPointwise(parent: HostNode, es: seq<(Bytes, HostNode)>)
    requires parent.HostDir? && forall p :: p in es ==> p in parent.entries
    ensures ResolveHostAll(parent, es).Ok? <==> forall i :: 0 <= i < |es| ==> ResolveHost(es[i].1).Ok?
    ensures ResolveHostAll(parent, es).Ok? ==>
      var rs := ResolveHostAll(parent, es).value;
      |rs| == |es| && forall i :: 0 <= i < |es| ==> rs[i] == (es[i].0, ResolveHost(es[i].1).value)
    decreases |es|
  {
    if |es| > 0 {
      assert forall p :: p in es[1..] ==> p in es;
      ResolveHostAllPointwise(parent, es[1..]);
      assert forall i :: 1 <= i < |es| ==> es[i] == es[1..][i - 1];
    }
  }

  /** A host directory becomes a `Dir` of its listing in name order, a
      repeated name taking its last entry, each child resolved; it fails
      exactly when some child does. */
  lemma HostDirResolves(es: seq<(Bytes, HostNode)>)
    ensures var cs := FromList(es);
      (ResolveHost(HostDir(es)).Ok? <==> forall i :: 0 <= i < |cs| ==> ResolveHost(cs[i].1).Ok?)
      && (ResolveHost(HostDir(es)).Ok? ==>
            var r := ResolveHost(HostDir(es)).value;
            r.Dir? && |r.children| == |cs| && Keyed(r.children)
            && forall i :: 0 <= i < |cs| ==>
                 r.children[i].0 == cs[i].0
                 && LastValue(es, cs[i].0) == Some(cs[i].1)
                 && Ok(r.children[i].1) == ResolveHost(cs[i].1))
  {
    var cs := FromList(es);
    var n := HostDir(es);
    FromListSpec(es, []);
    ResolveHostAllPointwise(n, cs);
    if ResolveHost(n).Ok? {
      var rs := ResolveHost(n).value.children;
      forall i | 0 <= i < |cs| ensures LastValue(es, cs[i].0) == Some(cs[i].1) {
        FromListSpec(es, cs[i].0);
        KeyedGet(cs, i);
      }
      assert Keyed(rs) by {
        forall i, j | 0 <= i < j < |rs| ensures Lt(rs[i].0, rs[j].0) {
          assert rs[i].0 == cs[i].0 && rs[j].0 == cs[j].0;
        }
      }
    }
  }

  /** In keyed pairs, looking up a present key finds its own pair. */
  lemma {:induction false} KeyedGet<V>(kvs: seq<(Bytes, V)>, i: nat)
    requires Keyed(kvs) && i < |kvs|
    ensures Get(kvs, kvs[i].0) == Some(kvs[i].1)
    decreases i
  {
    if i > 0 {
      LtIrreflexive(kvs[i].0);
      assert kvs[0].0 != kvs[i].0;
      assert Keyed(kvs[1..]) && kvs[1..][i - 1] == kvs[i];
      KeyedGet(kvs[1..], i - 1);
    }
  }

  /** What the host yields is resolved and well formed. */
  lemma {:induction false} ResolveHostSound(n: HostNode)
    requires ResolveHost(n).Ok?
    ensures Resolved(ResolveHost(n).value) && WellFormed(ResolveHost(n).value)
    decreases n
  {
    if n.HostDir? {
      var cs := FromList(n.entries);
      HostDirResolves(n.entries);
      FromListSpec(n.entries, []);
      var r := ResolveHost(n).value;
      forall i | 0 <= i < |cs| ensures Resolved(r.children[i].1) && WellFormed(r.children[i].1) {
        assert cs[i] in n.entries;
        ResolveHostSound(cs[i].1);
      }
    }
  }

  /** After resolution no `Source` and no `Virtualize` remains, every
      directory keeps its names and order, and each child of a directory
      is its own resolution. */
  lemma {:induction false} ResolveSound(e: FsEntry, host: Bytes -> HostNode)
    requires Resolve(e, host).Ok?
    ensures Resolved(Resolve(e, host).value)
    ensures WellFormed(e) ==> WellFormed(Resolve(e, host).value)
    ensures e.Dir? ==> var r := Resolve(e, host).value;
      r.Dir? && |r.children| == |e.children|
      && forall i :: 0 <= i < |e.children| ==>
           r.children[i].0 == e.children[i].0 && Resolve(e.children[i].1, host) == Ok(r.children[i].1)
    decreases e
  {
    match e
    case Virtualize(p) => ResolveHostSound(host(p));
    case Dir(cs) =>
      ResolveAllPointwise(e, cs, host);
      var rs := Resolve(e, host).value.children;
      forall i | 0 <= i < |cs| ensures Resolved(rs[i].1) && (WellFormed(cs[i].1) ==> WellFormed(rs[i].1)) {
        ResolveSound(cs[i].1, host);
      }
      if WellFormed(e) {
        forall i, j | 0 <= i < j < |rs| ensures Lt(rs[i].0, rs[j].0) {
          assert rs[i].0 == cs[i].0 && rs[j].0 == cs[j].0;
        }
      }
    case _ =>
  }

  /** Resolution leaves exactly the resolved trees unchanged. */
  lemma {:induction false} ResolveFixed(e: FsEntry, host: Bytes -> HostNode)
    ensures Resolve(e, host) == Ok(e) <==> Resolved(e)
    decreases e
  {
    if Resolve(e, host) == Ok(e) {
      ResolveSound(e, host);
    }
    if Resolved(e) && e.Dir? {
      var cs := e.children;
      forall i | 0 <= i < |cs| ensures Resolve(cs[i].1, host) == Ok(cs[i].1) {
        ResolveFixed(cs[i].1, host);
      }
      ResolveAllPointwise(e, cs, host);
      var rs := ResolveAll(e, cs, host).value;
      assert rs == cs;
    }
  }

  /** Resolving twice is resolving once. */
  lemma ResolveIdempotent(e: FsEntry, host: Bytes -> HostNode)
    requires Resolve(e, host).Ok?
    ensures Resolve(Resolve(e, host).value, host) == Resolve(e, host)
  {
    ResolveSound(e, host);
    ResolveFixed(Resolve(e, host).value, host);
  }

  /** Resolving the configuration keeps its flags and preopen names, and
      leaves every preopen tree resolved (and well formed when it was). */
  lemma ResolveFsSound(fs: VirtFs, host: Bytes -> HostNode)
    requires ResolveFs(fs, host).Ok?
    ensures var r := ResolveFs(fs, host).value;
      r.hostPreopens == fs.hostPreopens && r.passiveCutoff == fs.passiveCutoff
      && |r.preopens| == |fs.preopens|
      && (forall i :: 0 <= i < |r.preopens| ==> r.preopens[i].0 == fs.preopens[i].0 && Resolved(r.preopens[i].1))
      && (FsWellFormed(fs) ==> FsWellFormed(r))
  {
    var d := Dir(fs.preopens);
    ResolveSound(d, host);
  }
}
