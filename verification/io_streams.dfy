/** The adapter's stream and pollable calls (`virtual-adapter/src/io.rs`,
    the `Streams`, `Stdin`/`Stdout`/`Stderr` and `Poll` impls): the null
    stream swallows writes and reads as ended, the error stream fails, a
    static file stream reads its descriptor, and host streams and
    pollables are forwarded.  A forwarded call takes the host's answer as a
    parameter. */
module IoStreams {
  import opened Results
  import opened Bytes
  import opened StaticIndex
  import opened IoState
  import opened IoFiles
  import Stdio

  /** `WriteError`. */
  datatype WriteError = Closed | LastOperationFailed

  // ---------------------------------------------------------------------
  // Input streams

  /** `blocking_read` (and `read`) of `len` bytes from stream `sid`: a
      static file stream reads its descriptor at its offset and moves on by
      what it read, the null stream has ended, the error stream and a
      listing stream fail, and a host stream is the host's. */
  function BlockingRead(st: State, index: seq<Entry>, sid: nat, len: nat,
                        hostRead: (u32, nat, nat) -> Result<(Bytes, bool), ErrorCode>,
                        hostStreamRead: (u32, nat) -> Result<(Bytes, StreamStatus), ()>): (r: Ret<(State, (Bytes, StreamStatus)), ()>)
    requires Sane(st, index)
    ensures GetStream(st, sid) == Some(NullStream) ==> r == Done((st, ([], Ended)))
    ensures (GetStream(st, sid).None? || GetStream(st, sid) == Some(ErrStream)
             || (GetStream(st, sid).Some? && GetStream(st, sid).value.StaticDir?)) ==> r == Fail(())
    ensures GetStream(st, sid).Some? && GetStream(st, sid).value.HostStream? ==>
      var a := hostStreamRead(GetStream(st, sid).value.hostSid, len);
      (r.Done? <==> a.Ok?) && (a.Ok? ==> r == Done((st, a.value))) && !r.Trap?
    ensures GetStream(st, sid).Some? && GetStream(st, sid).value.StaticFile? ==>
      var StaticFile(fd, off) := GetStream(st, sid).value;
      var f := FileStreamRead(st, index, fd, off, len, hostRead);
      (r.Done? <==> f.Done?) && (r.Trap? <==> f.Trap?)
      && (r.Done? ==> r.value.1 == (f.value.1, f.value.2)
                      && r.value.0 == st.(streams := st.streams[sid := StaticFile(fd, f.value.0)]))
    ensures r.Done? ==> Sane(r.value.0, index)
  {
    match GetStream(st, sid)
    case None => Fail(())
    case Some(NullStream) => Done((st, ([], Ended)))
    case Some(ErrStream) => Fail(())
    case Some(StaticDir(_, _)) => Fail(())
    case Some(HostStream(h)) =>
      (match hostStreamRead(h, len)
       case Ok(x) => Done((st, x))
       case Err(_) => Fail(()))
    case Some(StaticFile(fd, off)) =>
      (match FileStreamRead(st, index, fd, off, len, hostRead)
       case Done((off', b, status)) => Done((st.(streams := st.streams[sid := StaticFile(fd, off')]), (b, status)))
       case Fail(_) => Fail(())
       case Trap => Trap)
  }

  /** What `blocking_read`s of `len` bytes on `sid` return in turn until
      the stream ends, at most `n` of them. */
  function ReadToEnd(st: State, index: seq<Entry>, sid: nat, len: nat, n: nat,
                     hostRead: (u32, nat, nat) -> Result<(Bytes, bool), ErrorCode>,
                     hostStreamRead: (u32, nat) -> Result<(Bytes, StreamStatus), ()>): Ret<Bytes, ()>
    requires Sane(st, index)
    decreases n
  {
    if n == 0 then Fail(())
    else
      var r := BlockingRead(st, index, sid, len, hostRead, hostStreamRead);
      if r.Fail? then Fail(())
      else if r.Trap? then Trap
      else if r.value.1.1 == Ended then Done(r.value.1.0)
      else
        var rest := ReadToEnd(r.value.0, index, sid, len, n - 1, hostRead, hostStreamRead);
        if rest.Done? then Done(r.value.1.0 + rest.value) else rest
  }

  /** A file stream at `off` of a static file, read `len > 0` bytes at a
      time, delivers the rest of the file and then ends, within
      `size - off + 1` reads. */
  lemma {:induction false} ReadToEndIsRest(st: State, index: seq<Entry>, sid: nat, fd: nat, p: nat, off: nat, len: nat, n: nat,
                                           hostRead: (u32, nat, nat) -> Result<(Bytes, bool), ErrorCode>,
                                           hostStreamRead: (u32, nat) -> Result<(Bytes, StreamStatus), ()>)
    requires Sane(st, index) && GetDescriptor(st, fd) == Ok(StaticEntry(p)) && IsFile(index[p])
    requires GetStream(st, sid) == Some(StaticFile(fd, off)) && off <= |index[p].bytes| && len > 0
    requires n > |index[p].bytes| - off
    ensures ReadToEnd(st, index, sid, len, n, hostRead, hostStreamRead) == Done(index[p].bytes[off..])
    decreases n
  {
    var data := index[p].bytes;
    var rb := ReadBytes(data, off, len);
    assert ReadEntry(index[p], off, len) == rb;
    var (b, done) := rb.value;
    var f := FileStreamRead(st, index, fd, off, len, hostRead);
    assert f == Done((off + |b|, b, if done then Ended else Open));
    var r := BlockingRead(st, index, sid, len, hostRead, hostStreamRead);
    var s := st.(streams := st.streams[sid := StaticFile(fd, off + |b|)]);
    assert r == Done((s, (b, if done then Ended else Open)));
    if done {
      assert |b| == |data| - off;
      assert b == data[off..];
    } else {
      assert |b| == len;
      assert GetDescriptor(s, fd) == GetDescriptor(st, fd);
      assert GetStream(s, sid) == Some(StaticFile(fd, off + |b|));
      ReadToEndIsRest(s, index, sid, fd, p, off + |b|, len, n - 1, hostRead, hostStreamRead);
      assert data[off..] == b + data[off + |b|..];
    }
  }

  /** `skip` and `blocking_skip`: the null stream skips nothing and has
      ended, a host stream is the host's, and every other stream fails. */
  function Skip(st: State, sid: nat, hostSkip: u32 -> Result<(nat, StreamStatus), ()>): (r: Result<(nat, StreamStatus), ()>)
    ensures GetStream(st, sid) == Some(NullStream) ==> r == Ok((0, Ended))
    ensures GetStream(st, sid).Some? && GetStream(st, sid).value.HostStream? ==>
      r == hostSkip(GetStream(st, sid).value.hostSid)
    ensures r.Ok? ==> GetStream(st, sid).Some? && (GetStream(st, sid).value.NullStream? || GetStream(st, sid).value.HostStream?)
  {
    match GetStream(st, sid)
    case Some(NullStream) => Ok((0, Ended))
    case Some(HostStream(h)) => hostSkip(h)
    case _ => Err(())
  }

  /** `subscribe_to_input_stream` and `subscribe_to_output_stream`: a host
      stream gets a new pollable for the host's, every other stream the
      always-ready pollable 0, and an unknown stream panics. */
  function Subscribe(st: State, sid: nat, hostSubscribe: u32 -> u32): (r: Ret<(State, nat), ()>)
    ensures r.Trap? <==> GetStream(st, sid).None?
    ensures !r.Fail?
    ensures r.Done? && !GetStream(st, sid).value.HostStream? ==> r.value == (st, 0)
    ensures r.Done? && GetStream(st, sid).value.HostStream? ==>
      r.value.1 == st.pollCnt
      && GetPoll(r.value.0, r.value.1) == Some(HostPoll(hostSubscribe(GetStream(st, sid).value.hostSid)))
      && r.value.0 == st.(polls := r.value.0.polls, pollCnt := st.pollCnt + 1)
  {
    match GetStream(st, sid)
    case None => Trap
    case Some(HostStream(h)) => Done(NewPoll(st, HostPoll(hostSubscribe(h))))
    case Some(_) => Done((st, 0))
  }

  // ---------------------------------------------------------------------
  // Output streams

  /** `check_write`: only a host stream can take bytes; every other
      stream, and an unknown one, is closed. */
  function CheckWrite(st: State, sid: nat, hostCheck: u32 -> Result<nat, WriteError>): (r: Result<nat, WriteError>)
    ensures GetStream(st, sid).Some? && GetStream(st, sid).value.HostStream? ==>
      r == hostCheck(GetStream(st, sid).value.hostSid)
    ensures !(GetStream(st, sid).Some? && GetStream(st, sid).value.HostStream?) ==> r == Err(Closed)
  {
    match GetStream(st, sid)
    case Some(HostStream(h)) => hostCheck(h)
    case _ => Err(Closed)
  }

  /** `write`, `blocking_write_and_flush`, `flush`, `blocking_flush` and
      `write_zeroes`, given what the host does on a host stream: the null
      stream takes and discards everything, a host stream is the host's,
      and every other stream, and an unknown one, is closed. */
  function WriteLike(st: State, sid: nat, hostWrite: u32 -> Result<(), WriteError>): (r: Result<(), WriteError>)
    ensures r.Ok? <==> (GetStream(st, sid) == Some(NullStream)
                        || (GetStream(st, sid).Some? && GetStream(st, sid).value.HostStream?
                            && hostWrite(GetStream(st, sid).value.hostSid).Ok?))
    ensures r.Err? && !(GetStream(st, sid).Some? && GetStream(st, sid).value.HostStream?) ==> r.error == Closed
  {
    match GetStream(st, sid)
    case Some(NullStream) => Ok(())
    case Some(HostStream(h)) => hostWrite(h)
    case _ => Err(Closed)
  }

  /** The output side of a stream as `splice` and `forward` read it: a host
      stream's host id, `None` for the null stream, and failure for any
      other stream. */
  function Endpoint(st: State, sid: nat): Result<Option<u32>, ()>
  {
    match GetStream(st, sid)
    case Some(HostStream(h)) => Ok(Some(h))
    case Some(NullStream) => Ok(None)
    case _ => Err(())
  }

  /** `splice`, `blocking_splice` (with `nulled` the length asked for) and
      `forward` (with `nulled` zero): the destination is looked at first,
      then the source; a null stream on either side ends the transfer
      reporting `nulled` bytes, any stream other than a host one fails, and
      two host streams are the host's. */
  function Transfer(st: State, to: nat, from: nat, nulled: nat,
                    hostTransfer: (u32, u32) -> Result<(nat, StreamStatus), ()>): (r: Result<(nat, StreamStatus), ()>)
    ensures GetStream(st, to) == Some(NullStream) ==> r == Ok((nulled, Ended))
    ensures Endpoint(st, to).Err? ==> r == Err(())
    ensures Endpoint(st, to).Ok? && Endpoint(st, to).value.Some? ==>
      (GetStream(st, from) == Some(NullStream) ==> r == Ok((nulled, Ended)))
      && (Endpoint(st, from).Err? ==> r == Err(()))
    ensures r.Ok? && r.value != (nulled, Ended) ==>
      Endpoint(st, to).Ok? && Endpoint(st, to).value.Some? && Endpoint(st, from).Ok? && Endpoint(st, from).value.Some?
      && r == hostTransfer(Endpoint(st, to).value.value, Endpoint(st, from).value.value)
  {
    match Endpoint(st, to)
    case Err(_) => Err(())
    case Ok(None) => Ok((nulled, Ended))
    case Ok(Some(t)) =>
      match Endpoint(st, from)
      case Err(_) => Err(())
      case Ok(None) => Ok((nulled, Ended))
      case Ok(Some(f)) => hostTransfer(t, f)
  }

  // ---------------------------------------------------------------------
  // Standard streams

  /** `get_stdin`, `get_stdout`, `get_stderr` (and the terminal getters):
      the stream numbers `initialize` gives them. */
  const STDIN: nat := 0
  const STDOUT: nat := 1
  const STDERR: nat := 2

  /** After the first `initialize`, reading stdin follows its policy: with
      `Ignore` it has ended, with `Deny` it fails, and with `Allow` it is
      the host's stdin. */
  lemma StdinFollowsPolicy(io: Io, host: Host, len: nat,
                           hostRead: (u32, nat, nat) -> Result<(Bytes, bool), ErrorCode>,
                           hostStreamRead: (u32, nat) -> Result<(Bytes, StreamStatus), ()>)
    requires Sane(START, io.index)
    ensures var r := Initialize(START, io, host);
      r.Done? ==>
        var s := r.value;
        Sane(s, io.index)
        && BlockingRead(s, io.index, STDIN, len, hostRead, hostStreamRead)
           == match Stdio.Decode(io.flags, Stdio.StdIn)
              case Ignore => Done((s, ([], Ended)))
              case Deny => Fail(())
              case Allow => if hostStreamRead(host.stdin, len).Ok? then Done((s, hostStreamRead(host.stdin, len).value)) else Fail(())
  {
    InitializeStreams(START, io, host);
    InitializeSane(START, io, host);
    var r := Initialize(START, io, host);
    if r.Done? {
      ReadStdStream(r.value, io.index, STDIN, Stdio.Decode(io.flags, Stdio.StdIn), host.stdin, len, hostRead, hostStreamRead);
    }
  }

  /** Reading a standard stream opened under policy `c`. */
  lemma ReadStdStream(st: State, index: seq<Entry>, sid: nat, c: Stdio.StdioCfg, hostId: u32, len: nat,
                      hostRead: (u32, nat, nat) -> Result<(Bytes, bool), ErrorCode>,
                      hostStreamRead: (u32, nat) -> Result<(Bytes, StreamStatus), ()>)
    requires Sane(st, index) && GetStream(st, sid) == Some(StdStream(c, hostId))
    ensures BlockingRead(st, index, sid, len, hostRead, hostStreamRead)
      == match c
         case Ignore => Done((st, ([], Ended)))
         case Deny => Fail(())
         case Allow => if hostStreamRead(hostId, len).Ok? then Done((st, hostStreamRead(hostId, len).value)) else Fail(())
  {
  }

  /** After the first `initialize`, writing stdout or stderr follows its
      policy: with `Ignore` the bytes are discarded, with `Deny` the stream
      is closed, and with `Allow` it is the host's stream. */
  lemma StdoutFollowsPolicy(io: Io, host: Host, hostWrite: u32 -> Result<(), WriteError>)
    ensures var r := Initialize(START, io, host);
      r.Done? ==>
        WriteLike(r.value, STDOUT, hostWrite)
        == match Stdio.Decode(io.flags, Stdio.StdOut)
           case Ignore => Ok(())
           case Deny => Err(Closed)
           case Allow => hostWrite(host.stdout)
    ensures var r := Initialize(START, io, host);
      r.Done? ==>
        WriteLike(r.value, STDERR, hostWrite)
        == match Stdio.Decode(io.flags, Stdio.StdErr)
           case Ignore => Ok(())
           case Deny => Err(Closed)
           case Allow => hostWrite(host.stderr)
  {
    InitializeStreams(START, io, host);
    var r := Initialize(START, io, host);
    if r.Done? {
      WriteStdStream(r.value, STDOUT, Stdio.Decode(io.flags, Stdio.StdOut), host.stdout, hostWrite);
      WriteStdStream(r.value, STDERR, Stdio.Decode(io.flags, Stdio.StdErr), host.stderr, hostWrite);
    }
  }

  /** Writing a standard stream opened under policy `c`. */
  lemma WriteStdStream(st: State, sid: nat, c: Stdio.StdioCfg, hostId: u32, hostWrite: u32 -> Result<(), WriteError>)
    requires GetStream(st, sid) == Some(StdStream(c, hostId))
    ensures WriteLike(st, sid, hostWrite)
      == match c
         case Ignore => Ok(())
         case Deny => Err(Closed)
         case Allow => hostWrite(hostId)
  {
  }

  // ---------------------------------------------------------------------
  // Pollables

  predicate IsHostPoll(st: State, pid: nat) { GetPoll(st, pid).Some? && GetPoll(st, pid).value.HostPoll? }
  predicate IsNullPoll(st: State, pid: nat) { GetPoll(st, pid) == Some(NullPoll) }

  /** Readiness of every pollable in a list of `n`. */
  function AllReady(n: nat): (r: seq<bool>)
    ensures |r| == n && forall i :: 0 <= i < n ==> r[i]
  {
    seq(n, _ => true)
  }

  /** `poll_oneoff` as written: with host pollables and no virtual one the
      list of adapter pollable numbers is handed to the host as it is; with
      a virtual one everything is ready; an empty list gives an empty
      answer (the host is asked about no pollables and its answer is not
      read); otherwise every listed pollable is unknown and the first one
      panics. */
  function PollOneoffAsWritten(st: State, list: seq<u32>, hostPoll: seq<u32> -> seq<bool>): (r: Ret<seq<bool>, ()>)
    ensures |list| == 0 ==> r == Done([])
  {
    var hasHost := exists i :: 0 <= i < |list| && IsHostPoll(st, list[i]);
    var hasVirt := exists i :: 0 <= i < |list| && IsNullPoll(st, list[i]);
    if hasHost && !hasVirt then Done(hostPoll(list))
    else if hasVirt then Done(AllReady(|list|))
    else if |list| == 0 then Done([])
    else Trap
  }

  /** The host pollable behind each listed pollable that has one; any
      other number is passed on as it is. */
  function HostPids(st: State, list: seq<u32>): (r: seq<u32>)
    ensures |r| == |list|
    ensures forall i :: 0 <= i < |list| ==> r[i] == if IsHostPoll(st, list[i]) then GetPoll(st, list[i]).value.hostPid else list[i]
  {
    seq(|list|, i requires 0 <= i < |list| => if IsHostPoll(st, list[i]) then GetPoll(st, list[i]).value.hostPid else list[i])
  }

  /** `poll_oneoff` with the adapter's numbers translated to the host's
      before the host is asked. */
  function PollOneoff(st: State, list: seq<u32>, hostPoll: seq<u32> -> seq<bool>): (r: Ret<seq<bool>, ()>)
    ensures !r.Fail?
    ensures |list| == 0 ==> r == Done([])
    ensures (exists i :: 0 <= i < |list| && IsNullPoll(st, list[i])) ==> r == Done(AllReady(|list|))
    ensures r.Trap? <==> |list| > 0 && forall i :: 0 <= i < |list| ==> GetPoll(st, list[i]).None?
    ensures (exists i :: 0 <= i < |list| && IsHostPoll(st, list[i])) && (forall i :: 0 <= i < |list| ==> !IsNullPoll(st, list[i])) ==>
      r == Done(hostPoll(HostPids(st, list)))
  {
    var hasHost := exists i :: 0 <= i < |list| && IsHostPoll(st, list[i]);
    var hasVirt := exists i :: 0 <= i < |list| && IsNullPoll(st, list[i]);
    if hasHost && !hasVirt then Done(hostPoll(HostPids(st, list)))
    else if hasVirt then Done(AllReady(|list|))
    else if |list| == 0 then Done([])
    else
      assert GetPoll(st, list[0]).None?;
      Trap
  }

  /** When every listed pollable is a host one, pollable `i` is ready
      exactly when the host reports its own pollable ready; and the two
      versions agree whenever no host pollable is listed. */
  lemma PollOneoffForwardsHostPids(st: State, list: seq<u32>, hostPoll: seq<u32> -> seq<bool>)
    requires forall i :: 0 <= i < |list| ==> IsHostPoll(st, list[i])
    requires |hostPoll(HostPids(st, list))| == |list|
    ensures var r := PollOneoff(st, list, hostPoll);
      r.Done? && |r.value| == |list|
      && forall i :: 0 <= i < |list| ==>
           r.value[i] == hostPoll(HostPids(st, list))[i] && HostPids(st, list)[i] == GetPoll(st, list[i]).value.hostPid
  {
    if |list| > 0 {
      assert IsHostPoll(st, list[0]);
    }
  }

  /** Without host pollables in the list the translation changes nothing. */
  lemma PollOneoffAgreesWithoutHost(st: State, list: seq<u32>, hostPoll: seq<u32> -> seq<bool>)
    requires forall i :: 0 <= i < |list| ==> !IsHostPoll(st, list[i])
    ensures PollOneoff(st, list, hostPoll) == PollOneoffAsWritten(st, list, hostPoll)
  {
  }

  /** Pollable 0 is virtual and pollable 1 waits on host pollable 7, which
      the host reports ready: asked about pollable 1 alone, the adapter as
      written asks the host about its pollable 1 instead and reports it not
      ready. */
  lemma PollOneoffForwardsAdapterIds()
    ensures var st := START.(pollCnt := 2, polls := map[0 := NullPoll, 1 := HostPoll(7)]);
      var host := (l: seq<u32>) => seq(|l|, i requires 0 <= i < |l| => l[i] == 7);
      PollOneoffAsWritten(st, [1], host) == Done([false])
      && PollOneoff(st, [1], host) == Done([true])
  {
    var st := START.(pollCnt := 2, polls := map[0 := NullPoll, 1 := HostPoll(7)]);
    var host := (l: seq<u32>) => seq(|l|, i requires 0 <= i < |l| => l[i] == 7);
    var list: seq<u32> := [1];
    assert GetPoll(st, 1) == Some(HostPoll(7));
    assert IsHostPoll(st, list[0]) && !IsNullPoll(st, list[0]);
    assert HostPids(st, list) == [7];
    assert host([1]) == [false];
    assert host([7]) == [true];
  }
}
