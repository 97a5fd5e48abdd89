/** The adapter's run-time state (`IoState` in `virtual-adapter/src/io.rs`):
    its descriptor, stream and pollable tables, the preopen list it hands
    out, the host preopens it passes paths through to, and `initialize`,
    which fills them from the `io` static and the host on first use. */
module IoState {
  import opened Results
  import opened Bytes
  import opened Lex
  import SortedMap
  import Stdio
  import opened StaticIndex

  /** The `io` static as the adapter reads it: the index positions of the
      static preopens, the static index, and the flag word. */
  datatype Io = Io(preopens: seq<nat>, index: seq<Entry>, flags: bv32)

  /** What the host hands the adapter: its three standard streams and its
      preopened directories. */
  datatype Host = Host(stdin: u32, stdout: u32, stderr: u32, directories: seq<(u32, Bytes)>)

  /** `DescriptorTarget`; a static entry is named by its index position. */
  datatype Target = StaticEntry(pos: nat) | HostDescriptor(hostFd: u32)

  /** `Stream`: the null and error streams, a static file read from an
      offset, a static directory listed from a child number, a host stream. */
  datatype Stream =
    | NullStream
    | ErrStream
    | StaticFile(fd: nat, offset: nat)
    | StaticDir(fd: nat, idx: nat)
    | HostStream(hostSid: u32)

  /** `PollTarget`. */
  datatype PollTarget = NullPoll | HostPoll(hostPid: u32)

  /** `IoState`; the host preopens are the `BTreeMap` as its entries in
      key order. */
  datatype State = State(
    initialized: bool,
    descriptorCnt: nat,
    preopenDirectories: seq<(nat, Bytes)>,
    hostPreopenDirectories: seq<(Bytes, u32)>,
    descriptors: map<nat, Target>,
    hostStderr: Option<u32>,
    streamCnt: nat,
    streams: map<nat, Stream>,
    pollCnt: nat,
    polls: map<nat, PollTarget>)

  /** The `STATE` static before the first call. */
  const START: State := State(false, 0, [], [], map[], None, 0, map[], 0, map[])

  /** Every id in a table is below the counter that hands them out. */
  predicate Fresh(st: State)
  {
    (forall fd :: fd in st.descriptors ==> fd < st.descriptorCnt)
    && (forall sid :: sid in st.streams ==> sid < st.streamCnt)
    && (forall pid :: pid in st.polls ==> pid < st.pollCnt)
  }

  // ---------------------------------------------------------------------
  // The tables

  /** `IoState::get_descriptor`. */
  function GetDescriptor(st: State, fd: nat): (r: Result<Target, ErrorCode>)
    ensures r.Ok? <==> fd in st.descriptors
    ensures r.Err? ==> r.error == BadDescriptor
  {
    if fd in st.descriptors then Ok(st.descriptors[fd]) else Err(BadDescriptor)
  }

  /** `IoState::new_descriptor`: the next number, asserted unused. */
  function NewDescriptor(st: State, t: Target): (r: Ret<(State, nat), ()>)
    ensures r.Trap? <==> st.descriptorCnt in st.descriptors
    ensures !r.Fail?
    ensures r.Done? ==> r.value.1 == st.descriptorCnt && r.value.0.descriptorCnt == st.descriptorCnt + 1
    ensures r.Done? ==> GetDescriptor(r.value.0, r.value.1) == Ok(t)
    ensures r.Done? ==> forall fd :: fd != r.value.1 ==> GetDescriptor(r.value.0, fd) == GetDescriptor(st, fd)
    ensures r.Done? ==> r.value.0 == st.(descriptors := r.value.0.descriptors, descriptorCnt := r.value.0.descriptorCnt)
  {
    var fd := st.descriptorCnt;
    if fd in st.descriptors then Trap
    else Done((st.(descriptors := st.descriptors[fd := t], descriptorCnt := fd + 1), fd))
  }

  /** Numbers are handed out fresh: from a state whose tables are below
      their counters, a new descriptor never fails its assertion, and the
      tables stay below their counters. */
  lemma NewDescriptorFresh(st: State, t: Target)
    requires Fresh(st)
    ensures NewDescriptor(st, t).Done? && Fresh(NewDescriptor(st, t).value.0)
  {
  }

  /** `IoState::get_stream`. */
  function GetStream(st: State, sid: nat): (r: Option<Stream>)
    ensures r.Some? <==> sid in st.streams
    ensures r.Some? ==> r.value == st.streams[sid]
  {
    if sid in st.streams then Some(st.streams[sid]) else None
  }

  /** `IoState::new_stream`. */
  function NewStream(st: State, s: Stream): (r: (State, nat))
    ensures r.1 == st.streamCnt && r.0.streamCnt == st.streamCnt + 1
    ensures GetStream(r.0, r.1) == Some(s)
    ensures forall sid :: sid != r.1 ==> GetStream(r.0, sid) == GetStream(st, sid)
    ensures r.0 == st.(streams := r.0.streams, streamCnt := r.0.streamCnt)
  {
    var sid := st.streamCnt;
    (st.(streams := st.streams[sid := s], streamCnt := sid + 1), sid)
  }

  /** `IoState::get_poll`. */
  function GetPoll(st: State, pid: nat): (r: Option<PollTarget>)
    ensures r.Some? <==> pid in st.polls
    ensures r.Some? ==> r.value == st.polls[pid]
  {
    if pid in st.polls then Some(st.polls[pid]) else None
  }

  /** `IoState::new_poll`. */
  function NewPoll(st: State, t: PollTarget): (r: (State, nat))
    ensures r.1 == st.pollCnt && r.0.pollCnt == st.pollCnt + 1
    ensures GetPoll(r.0, r.1) == Some(t)
    ensures forall pid :: pid != r.1 ==> GetPoll(r.0, pid) == GetPoll(st, pid)
    ensures r.0 == st.(polls := r.0.polls, pollCnt := r.0.pollCnt)
  {
    var pid := st.pollCnt;
    (st.(polls := st.polls[pid := t], pollCnt := pid + 1), pid)
  }

  /** New streams and pollables keep the tables below their counters. */
  lemma NewStreamPollFresh(st: State, s: Stream, t: PollTarget)
    requires Fresh(st)
    ensures Fresh(NewStream(st, s).0) && Fresh(NewPoll(st, t).0)
  {
  }

  /** `drop_descriptor` (`Descriptor::drop`): an unknown number is ignored;
      otherwise the entry goes, and a host descriptor is dropped on the
      host too (the second component). */
  function DropDescriptor(st: State, fd: nat): (r: (State, Option<u32>))
    ensures GetDescriptor(r.0, fd).Err?
    ensures forall x :: x != fd ==> GetDescriptor(r.0, x) == GetDescriptor(st, x)
    ensures r.1.Some? ==> GetDescriptor(st, fd) == Ok(HostDescriptor(r.1.value))
    ensures r.1.None? ==> !(GetDescriptor(st, fd).Ok? && GetDescriptor(st, fd).value.HostDescriptor?)
    ensures r.0 == st.(descriptors := r.0.descriptors)
  {
    if fd !in st.descriptors then (st, None)
    else
      var host := match st.descriptors[fd] case HostDescriptor(h) => Some(h) case StaticEntry(_) => None;
      (st.(descriptors := st.descriptors - {fd}), host)
  }

  /** `drop_directory_entry_stream` and the drop of an input or output
      stream: an unknown id is ignored; otherwise the entry goes, and a
      host stream is dropped on the host too. */
  function DropStream(st: State, sid: nat): (r: (State, Option<u32>))
    ensures GetStream(r.0, sid).None?
    ensures forall x :: x != sid ==> GetStream(r.0, x) == GetStream(st, x)
    ensures r.1.Some? ==> GetStream(st, sid) == Some(HostStream(r.1.value))
    ensures r.1.None? ==> !(GetStream(st, sid).Some? && GetStream(st, sid).value.HostStream?)
    ensures r.0 == st.(streams := r.0.streams)
  {
    if sid !in st.streams then (st, None)
    else
      var host := match st.streams[sid] case HostStream(h) => Some(h) case _ => None;
      (st.(streams := st.streams - {sid}), host)
  }

  /** `drop_pollable`. */
  function DropPoll(st: State, pid: nat): (r: (State, Option<u32>))
    ensures GetPoll(r.0, pid).None?
    ensures forall x :: x != pid ==> GetPoll(r.0, x) == GetPoll(st, x)
    ensures r.1.Some? ==> GetPoll(st, pid) == Some(HostPoll(r.1.value))
    ensures r.1.None? ==> !(GetPoll(st, pid).Some? && GetPoll(st, pid).value.HostPoll?)
    ensures r.0 == st.(polls := r.0.polls)
  {
    if pid !in st.polls then (st, None)
    else
      var host := match st.polls[pid] case HostPoll(h) => Some(h) case NullPoll => None;
      (st.(polls := st.polls - {pid}), host)
  }

  // ---------------------------------------------------------------------
  // initialize

  /** The stream a standard stream's policy gives: the host's stream, the
      null stream or the error stream. */
  function StdStream(c: Stdio.StdioCfg, hostId: u32): Stream
  {
    match c
    case Allow => HostStream(hostId)
    case Ignore => NullStream
    case Deny => ErrStream
  }

  /** A new descriptor for `t`, listed as a preopen named `name`. */
  function PushPreopen(st: State, t: Target, name: Bytes): (r: Ret<State, ()>)
    ensures r.Trap? <==> st.descriptorCnt in st.descriptors
    ensures !r.Fail?
    ensures r.Done? ==> Appended(st, r.value, [(t, name)]) && Quiet(st, r.value)
    ensures r.Done? ==> r.value.hostPreopenDirectories == st.hostPreopenDirectories
  {
    match NewDescriptor(st, t)
    case Done((s, fd)) => Done(s.(preopenDirectories := s.preopenDirectories + [(fd, name)]))
    case _ => Trap
  }

  /** One host directory: with host preopens it gets a descriptor and a
      preopen entry, with passthrough its name maps to its host
      descriptor. */
  function HostDir(st: State, d: (u32, Bytes), hp: bool, pt: bool): Ret<State, ()>
  {
    match (if hp then PushPreopen(st, HostDescriptor(d.0), d.1) else Done(st))
    case Done(s) =>
      Done(if pt then s.(hostPreopenDirectories := SortedMap.Insert(s.hostPreopenDirectories, d.1, d.0)) else s)
    case _ => Trap
  }

  /** The loop over the host's directories. */
  function HostDirs(st: State, dirs: seq<(u32, Bytes)>, hp: bool, pt: bool): (r: Ret<State, ()>)
    ensures !r.Fail?
    decreases |dirs|
  {
    if |dirs| == 0 then Done(st)
    else
      match HostDir(st, dirs[0], hp, pt)
      case Done(s) => HostDirs(s, dirs[1..], hp, pt)
      case _ => Trap
  }

  /** The loop over the static preopens. */
  function StaticPreopens(st: State, index: seq<Entry>, ps: seq<nat>): (r: Ret<State, ()>)
    requires forall k :: 0 <= k < |ps| ==> ps[k] < |index|
    ensures !r.Fail?
    decreases |ps|
  {
    if |ps| == 0 then Done(st)
    else
      match PushPreopen(st, StaticEntry(ps[0]), index[ps[0]].name)
      case Done(s) => StaticPreopens(s, index, ps[1..])
      case _ => Trap
  }

  /** Streams 0, 1 and 2 of `initialize`, by the standard-stream policy;
      an allowed stderr is recorded as the host's. */
  function OpenStd(st: State, io: Io, host: Host): (s: State)
    ensures s.streamCnt == st.streamCnt + 3
    ensures GetStream(s, st.streamCnt) == Some(StdStream(Stdio.Decode(io.flags, Stdio.StdIn), host.stdin))
    ensures GetStream(s, st.streamCnt + 1) == Some(StdStream(Stdio.Decode(io.flags, Stdio.StdOut), host.stdout))
    ensures GetStream(s, st.streamCnt + 2) == Some(StdStream(Stdio.Decode(io.flags, Stdio.StdErr), host.stderr))
    ensures forall sid: nat :: sid < st.streamCnt ==> GetStream(s, sid) == GetStream(st, sid)
    ensures s.hostStderr == if Stdio.Decode(io.flags, Stdio.StdErr).Allow? then Some(host.stderr) else st.hostStderr
    ensures s == st.(streams := s.streams, streamCnt := s.streamCnt, hostStderr := s.hostStderr)
    ensures Fresh(st) ==> Fresh(s)
  {
    var s1 := NewStream(st, StdStream(Stdio.Decode(io.flags, Stdio.StdIn), host.stdin)).0;
    var s2 := NewStream(s1, StdStream(Stdio.Decode(io.flags, Stdio.StdOut), host.stdout)).0;
    var errCfg := Stdio.Decode(io.flags, Stdio.StdErr);
    NewStream(if errCfg.Allow? then s2.(hostStderr := Some(host.stderr)) else s2, StdStream(errCfg, host.stderr)).0
  }

  /** The preopens of `initialize`: the host's directories when host
      preopens or passthrough are on, then the static preopens. */
  function OpenPreopens(st: State, io: Io, host: Host): (r: Ret<State, ()>)
    ensures !r.Fail?
  {
    var hp := Stdio.HostPreopens(io.flags);
    var pt := Stdio.HostPassthrough(io.flags);
    match (if hp || pt then HostDirs(st, host.directories, hp, pt) else Done(st))
    case Done(s) =>
      if !PreopensInRange(io) then Trap else StaticPreopens(s, io.index, io.preopens)
    case _ => Trap
  }

  /** `IoState::initialize`: nothing once initialized; otherwise the
      standard streams, the preopens (`Io::preopens` indexes the static
      index, which panics out of range), and the null pollable 0. */
  function Initialize(st: State, io: Io, host: Host): (r: Ret<State, ()>)
    ensures !r.Fail?
    ensures r.Done? ==> r.value.initialized
  {
    if st.initialized then Done(st)
    else if st.streamCnt != 0 then Trap
    else
      var s3 := OpenStd(st, io, host);
      assert s3.streamCnt == 3;
      match OpenPreopens(s3, io, host)
      case Done(s) => Done(s.(pollCnt := s.pollCnt + 1, polls := s.polls[0 := NullPoll], initialized := true))
      case _ => Trap
  }

  /** Every static preopen position lies inside the static index. */
  predicate PreopensInRange(io: Io)
  {
    forall k :: 0 <= k < |io.preopens| ==> io.preopens[k] < |io.index|
  }

  // ---------------------------------------------------------------------
  // What initialize establishes

  /** From `st` to `s` the preopens `es` were pushed: each new list entry
      pairs the next descriptor number with its name and that descriptor
      holds its target; earlier entries and descriptors stay, and no other
      descriptor appears. */
  predicate Appended(st: State, s: State, es: seq<(Target, Bytes)>)
  {
    |s.preopenDirectories| == |st.preopenDirectories| + |es|
    && s.preopenDirectories[..|st.preopenDirectories|] == st.preopenDirectories
    && s.descriptorCnt == st.descriptorCnt + |es|
    && (forall i :: 0 <= i < |es| ==> s.preopenDirectories[|st.preopenDirectories| + i] == (st.descriptorCnt + i, es[i].1))
    && (forall i :: 0 <= i < |es| ==> GetDescriptor(s, st.descriptorCnt + i) == Ok(es[i].0))
    && (forall fd :: fd in st.descriptors ==> GetDescriptor(s, fd) == GetDescriptor(st, fd))
    && (forall fd :: fd in s.descriptors ==> fd in st.descriptors || st.descriptorCnt <= fd < s.descriptorCnt)
  }

  /** The streams, pollables and flags are untouched. */
  predicate Quiet(st: State, s: State)
  {
    s.initialized == st.initialized && s.hostStderr == st.hostStderr
    && s.streamCnt == st.streamCnt && s.streams == st.streams
    && s.pollCnt == st.pollCnt && s.polls == st.polls
  }

  lemma {:induction false} AppendedTrans(a: State, b: State, c: State, e1: seq<(Target, Bytes)>, e2: seq<(Target, Bytes)>)
    requires Appended(a, b, e1) && Appended(b, c, e2)
    ensures Appended(a, c, e1 + e2)
  {
    var n := |a.preopenDirectories|;
    var e := e1 + e2;
    assert c.preopenDirectories[..n] == c.preopenDirectories[..|b.preopenDirectories|][..n];
    forall i | 0 <= i < |e|
      ensures c.preopenDirectories[n + i] == (a.descriptorCnt + i, e[i].1)
      ensures GetDescriptor(c, a.descriptorCnt + i) == Ok(e[i].0)
    {
      if i < |e1| {
        assert c.preopenDirectories[n + i] == c.preopenDirectories[..|b.preopenDirectories|][n + i];
        assert GetDescriptor(b, a.descriptorCnt + i) == Ok(e1[i].0);
      } else {
        assert GetDescriptor(c, b.descriptorCnt + (i - |e1|)) == Ok(e2[i - |e1|].0);
      }
    }
  }

  /** The preopens the host's directories give: one per directory. */
  function HostEntries(dirs: seq<(u32, Bytes)>): (r: seq<(Target, Bytes)>)
    decreases |dirs|
    ensures |r| == |dirs|
    ensures forall i :: 0 <= i < |dirs| ==> r[i] == (HostDescriptor(dirs[i].0), dirs[i].1)
  {
    if |dirs| == 0 then [] else [(HostDescriptor(dirs[0].0), dirs[0].1)] + HostEntries(dirs[1..])
  }

  /** The preopens the static preopen positions give. */
  function StaticEntries(index: seq<Entry>, ps: seq<nat>): (r: seq<(Target, Bytes)>)
    requires forall k :: 0 <= k < |ps| ==> ps[k] < |index|
    ensures |r| == |ps|
    ensures forall i :: 0 <= i < |ps| ==> r[i] == (StaticEntry(ps[i]), index[ps[i]].name)
    decreases |ps|
  {
    if |ps| == 0 then [] else [(StaticEntry(ps[0]), index[ps[0]].name)] + StaticEntries(index, ps[1..])
  }

  /** The host map after the passthrough inserts of `dirs`, in order. */
  function Passed(kvs: seq<(Bytes, u32)>, dirs: seq<(u32, Bytes)>): seq<(Bytes, u32)>
    decreases |dirs|
  {
    if |dirs| == 0 then kvs else Passed(SortedMap.Insert(kvs, dirs[0].1, dirs[0].0), dirs[1..])
  }

  /** The host descriptor of the last directory named `name`. */
  function LastFd(dirs: seq<(u32, Bytes)>, name: Bytes): Option<u32>
    decreases |dirs|
  {
    if |dirs| == 0 then None
    else
      match LastFd(dirs[1..], name)
      case Some(fd) => Some(fd)
      case None => if dirs[0].1 == name then Some(dirs[0].0) else None
  }

  /** The passthrough map is a sorted map from each directory name to the
      last host descriptor with that name, other names as before. */
  lemma {:induction false} PassedGet(kvs: seq<(Bytes, u32)>, dirs: seq<(u32, Bytes)>, name: Bytes)
    requires SortedMap.Keyed(kvs)
    ensures SortedMap.Keyed(Passed(kvs, dirs))
    ensures SortedMap.Get(Passed(kvs, dirs), name) == if LastFd(dirs, name).Some? then LastFd(dirs, name) else SortedMap.Get(kvs, name)
    decreases |dirs|
  {
    if |dirs| > 0 {
      var kvs' := SortedMap.Insert(kvs, dirs[0].1, dirs[0].0);
      SortedMap.InsertKeyed(kvs, dirs[0].1, dirs[0].0);
      SortedMap.InsertGet(kvs, dirs[0].1, dirs[0].0, name);
      PassedGet(kvs', dirs[1..], name);
    }
  }

  /** The preopens the host's directories give, if host preopens are on. */
  function HostPreopenEntries(dirs: seq<(u32, Bytes)>, hp: bool): seq<(Target, Bytes)>
  {
    if hp then HostEntries(dirs) else []
  }

  lemma HostDirFresh(st: State, d: (u32, Bytes), hp: bool, pt: bool)
    requires Fresh(st)
    ensures var r := HostDir(st, d, hp, pt);
      r.Done? && Fresh(r.value) && Quiet(st, r.value)
      && Appended(st, r.value, HostPreopenEntries([d], hp))
      && r.value.hostPreopenDirectories
         == if pt then SortedMap.Insert(st.hostPreopenDirectories, d.1, d.0) else st.hostPreopenDirectories
  {
    var s := if hp then PushPreopen(st, HostDescriptor(d.0), d.1).value else st;
    if hp {
      assert HostPreopenEntries([d], hp) == [(HostDescriptor(d.0), d.1)];
    } else {
      assert st.preopenDirectories[..|st.preopenDirectories|] == st.preopenDirectories;
    }
    assert Fresh(s) && Quiet(st, s) && Appended(st, s, HostPreopenEntries([d], hp));
    if pt {
      MapOnly(st, s, s.(hostPreopenDirectories := SortedMap.Insert(s.hostPreopenDirectories, d.1, d.0)), HostPreopenEntries([d], hp));
    }
  }

  /** Replacing the host map keeps what the preopens established. */
  lemma MapOnly(st: State, s: State, s': State, es: seq<(Target, Bytes)>)
    requires Fresh(s) && Quiet(st, s) && Appended(st, s, es)
    requires s' == s.(hostPreopenDirectories := s'.hostPreopenDirectories)
    ensures Fresh(s') && Quiet(st, s') && Appended(st, s', es)
  {
    assert GetDescriptor(s', 0) == GetDescriptor(s, 0);
  }

  /** From a state with fresh tables the host directories never fail:
      with host preopens each is pushed as a preopen, with passthrough the
      map receives them, and nothing else changes. */
  lemma {:induction false} HostDirsSpec(st: State, dirs: seq<(u32, Bytes)>, hp: bool, pt: bool)
    requires Fresh(st)
    ensures var r := HostDirs(st, dirs, hp, pt);
      r.Done? && Fresh(r.value) && Quiet(st, r.value)
      && Appended(st, r.value, HostPreopenEntries(dirs, hp))
      && r.value.hostPreopenDirectories == if pt then Passed(st.hostPreopenDirectories, dirs) else st.hostPreopenDirectories
    decreases |dirs|
  {
    if |dirs| == 0 {
      assert st.preopenDirectories[..|st.preopenDirectories|] == st.preopenDirectories;
    } else {
      HostDirFresh(st, dirs[0], hp, pt);
      var s := HostDir(st, dirs[0], hp, pt).value;
      HostDirsSpec(s, dirs[1..], hp, pt);
      AppendedTrans(st, s, HostDirs(s, dirs[1..], hp, pt).value, HostPreopenEntries([dirs[0]], hp), HostPreopenEntries(dirs[1..], hp));
      HostEntriesCons(dirs, hp);
    }
  }

  lemma HostEntriesCons(dirs: seq<(u32, Bytes)>, hp: bool)
    requires |dirs| > 0
    ensures HostPreopenEntries([dirs[0]], hp) + HostPreopenEntries(dirs[1..], hp) == HostPreopenEntries(dirs, hp)
  {
    if hp {
      assert HostEntries([dirs[0]]) == [(HostDescriptor(dirs[0].0), dirs[0].1)];
    }
  }

  /** From a state with fresh tables the static preopens never fail: each
      is pushed with its entry's name, and nothing else changes. */
  lemma {:induction false} StaticPreopensSpec(st: State, index: seq<Entry>, ps: seq<nat>)
    requires Fresh(st) && forall k :: 0 <= k < |ps| ==> ps[k] < |index|
    ensures var r := StaticPreopens(st, index, ps);
      r.Done? && Fresh(r.value) && Quiet(st, r.value)
      && Appended(st, r.value, StaticEntries(index, ps))
      && r.value.hostPreopenDirectories == st.hostPreopenDirectories
    decreases |ps|
  {
    if |ps| == 0 {
      assert st.preopenDirectories[..|st.preopenDirectories|] == st.preopenDirectories;
    } else {
      var s := PushPreopen(st, StaticEntry(ps[0]), index[ps[0]].name).value;
      assert Fresh(s);
      StaticPreopensSpec(s, index, ps[1..]);
      AppendedTrans(st, s, StaticPreopens(s, index, ps[1..]).value, [(StaticEntry(ps[0]), index[ps[0]].name)], StaticEntries(index, ps[1..]));
      assert [(StaticEntry(ps[0]), index[ps[0]].name)] + StaticEntries(index, ps[1..]) == StaticEntries(index, ps);
    }
  }

  /** From fresh tables the preopens panic exactly when a static preopen
      lies outside the index; otherwise they are pushed in order, the host
      map receives the host's directories (with passthrough), and the
      streams and pollables are untouched. */
  lemma OpenPreopensSpec(st: State, io: Io, host: Host)
    requires Fresh(st)
    ensures OpenPreopens(st, io, host).Trap? <==> !PreopensInRange(io)
    ensures var r := OpenPreopens(st, io, host);
      r.Done? ==>
        Fresh(r.value) && Quiet(st, r.value)
        && Appended(st, r.value, HostPreopenEntries(host.directories, Stdio.HostPreopens(io.flags)) + StaticEntries(io.index, io.preopens))
        && r.value.hostPreopenDirectories
           == if Stdio.HostPassthrough(io.flags) then Passed(st.hostPreopenDirectories, host.directories) else st.hostPreopenDirectories
  {
    var hp := Stdio.HostPreopens(io.flags);
    var pt := Stdio.HostPassthrough(io.flags);
    HostStage(st, host.directories, hp, pt);
    if PreopensInRange(io) {
      var s4 := (if hp || pt then HostDirs(st, host.directories, hp, pt) else Done(st)).value;
      StaticPreopensSpec(s4, io.index, io.preopens);
      var s5 := StaticPreopens(s4, io.index, io.preopens).value;
      assert OpenPreopens(st, io, host) == Done(s5);
      AppendedTrans(st, s4, s5, HostPreopenEntries(host.directories, hp), StaticEntries(io.index, io.preopens));
    }
  }

  lemma HostStage(st: State, dirs: seq<(u32, Bytes)>, hp: bool, pt: bool)
    requires Fresh(st)
    ensures var r := if hp || pt then HostDirs(st, dirs, hp, pt) else Done(st);
      r.Done? && Fresh(r.value) && Quiet(st, r.value)
      && Appended(st, r.value, HostPreopenEntries(dirs, hp))
      && r.value.hostPreopenDirectories == if pt then Passed(st.hostPreopenDirectories, dirs) else st.hostPreopenDirectories
  {
    if hp || pt {
      HostDirsSpec(st, dirs, hp, pt);
    } else {
      assert st.preopenDirectories[..|st.preopenDirectories|] == st.preopenDirectories;
    }
  }

  /** From fresh tables the preopens leave the streams and pollables
      alone and the tables fresh, and panic exactly when a static preopen
      lies outside the index. */
  lemma OpenPreopensQuiet(st: State, io: Io, host: Host)
    requires Fresh(st)
    ensures OpenPreopens(st, io, host).Trap? <==> !PreopensInRange(io)
    ensures OpenPreopens(st, io, host).Done? ==> Fresh(OpenPreopens(st, io, host).value) && Quiet(st, OpenPreopens(st, io, host).value)
  {
    OpenPreopensSpec(st, io, host);
  }

  /** The first `initialize`, from fresh tables, panics exactly when
      streams were opened before it or a static preopen lies outside the
      index. */
  lemma InitializeTraps(st: State, io: Io, host: Host)
    requires Fresh(st) && !st.initialized
    ensures Initialize(st, io, host).Trap? <==> st.streamCnt != 0 || !PreopensInRange(io)
  {
    if st.streamCnt == 0 {
      var s3 := OpenStd(st, io, host);
      OpenPreopensQuiet(s3, io, host);
    }
  }

  /** After the first `initialize` from fresh tables, streams 0, 1 and 2
      follow the standard-stream policy, an allowed stderr is recorded as
      the host's, pollable 0 is the null pollable, and the tables stay
      fresh. */
  lemma InitializeStreams(st: State, io: Io, host: Host)
    requires Fresh(st) && !st.initialized
    ensures var r := Initialize(st, io, host); r.Done? ==> Fresh(r.value) && r.value.streamCnt == 3
    ensures var r := Initialize(st, io, host);
      r.Done? ==> GetStream(r.value, 0) == Some(StdStream(Stdio.Decode(io.flags, Stdio.StdIn), host.stdin))
    ensures var r := Initialize(st, io, host);
      r.Done? ==> GetStream(r.value, 1) == Some(StdStream(Stdio.Decode(io.flags, Stdio.StdOut), host.stdout))
    ensures var r := Initialize(st, io, host);
      r.Done? ==> GetStream(r.value, 2) == Some(StdStream(Stdio.Decode(io.flags, Stdio.StdErr), host.stderr))
    ensures var r := Initialize(st, io, host);
      r.Done? ==> r.value.hostStderr == if Stdio.Decode(io.flags, Stdio.StdErr).Allow? then Some(host.stderr) else st.hostStderr
    ensures var r := Initialize(st, io, host);
      r.Done? ==> GetPoll(r.value, 0) == Some(NullPoll) && r.value.pollCnt == st.pollCnt + 1
  {
    if st.streamCnt == 0 {
      var s3 := OpenStd(st, io, host);
      OpenPreopensQuiet(s3, io, host);
    }
  }

  /** The first `initialize`, from fresh tables, lists as preopens the
      host's directories (with host preopens) and then the static ones,
      each on the next descriptor, and with passthrough the host map
      received the host's directories. */
  lemma InitializePreopens(st: State, io: Io, host: Host)
    requires Fresh(st) && !st.initialized
    ensures var r := Initialize(st, io, host);
      r.Done? ==>
        Appended(st, r.value, HostPreopenEntries(host.directories, Stdio.HostPreopens(io.flags)) + StaticEntries(io.index, io.preopens))
        && r.value.hostPreopenDirectories
           == if Stdio.HostPassthrough(io.flags) then Passed(st.hostPreopenDirectories, host.directories) else st.hostPreopenDirectories
  {
    if st.streamCnt == 0 {
      var s3 := OpenStd(st, io, host);
      OpenPreopensQuiet(s3, io, host);
      OpenPreopensSpec(s3, io, host);
      if PreopensInRange(io) {
        var s5 := OpenPreopens(s3, io, host).value;
        StreamsOnly(st, s3, s5, Initialize(st, io, host).value, HostPreopenEntries(host.directories, Stdio.HostPreopens(io.flags)) + StaticEntries(io.index, io.preopens));
      }
    }
  }

  /** Opening streams and adding a pollable leave the preopens as pushed. */
  lemma StreamsOnly(st: State, s3: State, s5: State, s: State, es: seq<(Target, Bytes)>)
    requires Appended(s3, s5, es)
    requires s3 == st.(streams := s3.streams, streamCnt := s3.streamCnt, hostStderr := s3.hostStderr)
    requires s == s5.(pollCnt := s.pollCnt, polls := s.polls, initialized := s.initialized)
    ensures Appended(st, s, es)
  {
    assert GetDescriptor(s, 0) == GetDescriptor(s5, 0);
  }

  /** From the initial state the host map, with passthrough, maps each
      host directory's name to the last host descriptor of that name, and
      is empty without. */
  lemma InitialHostMap(io: Io, host: Host, name: Bytes)
    ensures var r := Initialize(START, io, host);
      r.Done? ==>
        SortedMap.Keyed(r.value.hostPreopenDirectories)
        && SortedMap.Get(r.value.hostPreopenDirectories, name)
           == if Stdio.HostPassthrough(io.flags) then LastFd(host.directories, name) else None
  {
    InitializePreopens(START, io, host);
    PassedGet([], host.directories, name);
  }

  // ---------------------------------------------------------------------
  // get_host_preopen

  const DOT: byte := 46

  /** The path without a leading `./`. */
  function TrimPath(path: Bytes): (r: Bytes)
    ensures path == r || path == [DOT, SLASH] + r
  {
    if |path| >= 2 && path[..2] == [DOT, SLASH] then
      assert path == [DOT, SLASH] + path[2..];
      path[2..]
    else path
  }

  /** A host preopen's name without a leading `./`, or else without a
      leading `.`. */
  function TrimName(name: Bytes): (r: Bytes)
    ensures name == r || name == [DOT] + r || name == [DOT, SLASH] + r
  {
    if |name| >= 2 && name[..2] == [DOT, SLASH] then
      assert name == [DOT, SLASH] + name[2..];
      name[2..]
    else if |name| >= 1 && name[0] == DOT then
      assert name == [DOT] + name[1..];
      name[1..]
    else name
  }

  /** One host preopen `n` against the path `p`: an empty name takes any
      relative path (and panics on an empty one), `/` takes an absolute
      path less its slash, and any other name takes itself or itself
      followed by a slash; the path beneath the preopen is returned. */
  function MatchPreopen(n: Bytes, p: Bytes): (r: Ret<Option<Bytes>, ()>)
    ensures !r.Fail?
    ensures r.Trap? <==> n == [] && p == []
  {
    if !(|n| <= |p| && p[..|n|] == n) then Done(None)
    else if |n| == 0 then
      if |p| == 0 then Trap
      else if p[0] != SLASH then Done(Some(p))
      else Done(None)
    else if n == [SLASH] && p[0] == SLASH then Done(Some(p[1..]))
    else if |n| == |p| then Done(Some([]))
    else if p[|n|] == SLASH then Done(Some(p[|n| + 1..]))
    else Done(None)
  }

  /** `p` is the preopen `n` joined with the path `sub` beneath it. */
  predicate Joins(n: Bytes, p: Bytes, sub: Bytes)
  {
    if n == [] then p == sub
    else if n == [SLASH] then p == [SLASH] + sub
    else (p == n && sub == []) || p == n + [SLASH] + sub
  }

  /** A preopen matches exactly when the path is the preopen joined with
      what is returned, except that the empty name refuses absolute
      paths. */
  lemma MatchPreopenJoins(n: Bytes, p: Bytes, sub: Bytes)
    ensures MatchPreopen(n, p) == Done(Some(sub)) <==> Joins(n, p, sub) && (n == [] ==> p != [] && p[0] != SLASH)
  {
    if Joins(n, p, sub) && n != [] {
      assert p[..|n|] == n;
      if n != [SLASH] && p != n {
        assert p[|n| + 1..] == sub;
      } else if n == [SLASH] {
        assert p[1..] == sub;
      }
    }
    if MatchPreopen(n, p) == Done(Some(sub)) && n != [] && n != [SLASH] && |n| < |p| {
      assert p == p[..|n|] + [SLASH] + p[|n| + 1..];
    }
    if MatchPreopen(n, p) == Done(Some(sub)) && n == [SLASH] {
      assert p == [p[0]] + p[1..];
    }
  }

  /** The loop of `get_host_preopen` over the host map in key order: the
      first preopen that matches, with its host descriptor. */
  function FirstPreopen(kvs: seq<(Bytes, u32)>, p: Bytes): (r: Ret<Option<(u32, Bytes)>, ()>)
    ensures !r.Fail?
    ensures r == Done(None) <==> forall k :: 0 <= k < |kvs| ==> MatchPreopen(TrimName(kvs[k].0), p) == Done(None)
    ensures r.Done? && r.value.Some? ==>
      exists i :: 0 <= i < |kvs| && kvs[i].1 == r.value.value.0
        && MatchPreopen(TrimName(kvs[i].0), p) == Done(Some(r.value.value.1))
        && forall k :: 0 <= k < i ==> MatchPreopen(TrimName(kvs[k].0), p) == Done(None)
    decreases |kvs|
  {
    if |kvs| == 0 then Done(None)
    else
      match MatchPreopen(TrimName(kvs[0].0), p)
      case Done(Some(sub)) => Done(Some((kvs[0].1, sub)))
      case Done(None) =>
        var r := FirstPreopen(kvs[1..], p);
        assert forall k :: 0 < k < |kvs| ==> kvs[k] == kvs[1..][k - 1];
        if r.Done? && r.value.Some? then
          var i :| 0 <= i < |kvs[1..]| && kvs[1..][i].1 == r.value.value.0
            && MatchPreopen(TrimName(kvs[1..][i].0), p) == Done(Some(r.value.value.1))
            && forall k :: 0 <= k < i ==> MatchPreopen(TrimName(kvs[1..][k].0), p) == Done(None);
          assert forall k :: 0 <= k < i + 1 ==> MatchPreopen(TrimName(kvs[k].0), p) == Done(None);
          r
        else r
      case _ => Trap
  }

  /** `IoState::get_host_preopen`. */
  function GetHostPreopen(st: State, path: Bytes): Ret<Option<(u32, Bytes)>, ()>
  {
    FirstPreopen(st.hostPreopenDirectories, TrimPath(path))
  }

  /** What `get_host_preopen` returns reassembles the path: the path,
      less a leading `./`, is the name of a host preopen (less its leading
      `./` or `.`) joined with the path returned, and the descriptor
      returned is that preopen's.  It finds nothing exactly when no host
      preopen matches. */
  lemma GetHostPreopenJoins(st: State, path: Bytes)
    ensures var r := GetHostPreopen(st, path);
      r.Done? && r.value.Some? ==>
        exists name :: (name, r.value.value.0) in st.hostPreopenDirectories
          && Joins(TrimName(name), TrimPath(path), r.value.value.1)
    ensures GetHostPreopen(st, path) == Done(None) <==>
      forall k :: 0 <= k < |st.hostPreopenDirectories| ==>
        MatchPreopen(TrimName(st.hostPreopenDirectories[k].0), TrimPath(path)) == Done(None)
  {
    var kvs := st.hostPreopenDirectories;
    var p := TrimPath(path);
    var r := GetHostPreopen(st, path);
    if r.Done? && r.value.Some? {
      var i :| 0 <= i < |kvs| && kvs[i].1 == r.value.value.0
        && MatchPreopen(TrimName(kvs[i].0), p) == Done(Some(r.value.value.1));
      MatchPreopenJoins(TrimName(kvs[i].0), p, r.value.value.1);
      assert kvs[i] == (kvs[i].0, r.value.value.0);
    }
  }
}
