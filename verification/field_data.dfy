/** The policy blob shared by the environment and the runtime-config
    virtualisations: the generator's `VirtEnv`/`VirtConfig` settings, the
    field data it writes (`src/virt_env.rs`, `src/virt_config.rs`), the
    16-byte header it patches, and the adapter's `read_data_str` that reads
    the field data back (`virtual-adapter/src/env.rs`,
    `virtual-adapter/src/config.rs`). */
module FieldData {
  import opened Results
  import opened Bytes
  import opened Lex
  import opened Sorting

  /** How lookups that no override answers reach the host. */
  datatype HostPolicy =
    | HostNone                      // fully encapsulated: never ask the host
    | HostAll                       // pass every host entry through
    | HostAllow(list: seq<Bytes>)   // only these keys
    | HostDeny(list: seq<Bytes>)    // every key but these

  /** `VirtEnv` / `VirtConfig`; the default has no overrides and `HostNone`. */
  datatype Virt = Virt(overrides: seq<(Bytes, Bytes)>, host: HostPolicy)

  const DEFAULT: Virt := Virt([], HostNone)

  function Allow(v: Virt, list: seq<Bytes>): Virt { v.(host := HostAllow(list)) }
  function Deny(v: Virt, list: seq<Bytes>): Virt { v.(host := HostDeny(list)) }
  function AllowAll(v: Virt): Virt { v.(host := HostAll) }
  function DenyAll(v: Virt): Virt { v.(host := HostNone) }
  function Overrides(v: Virt, kvs: seq<(Bytes, Bytes)>): Virt { v.(overrides := v.overrides + kvs) }

  /** The host-policy builders replace each other (the last one wins) and
      leave the overrides alone; `overrides` only appends, in order, and
      leaves the policy alone. */
  lemma BuilderLaws(v: Virt, a: seq<Bytes>, b: seq<Bytes>, x: seq<(Bytes, Bytes)>, y: seq<(Bytes, Bytes)>)
    ensures Allow(Deny(v, a), b) == Allow(v, b) && Deny(Allow(v, a), b) == Deny(v, b)
    ensures AllowAll(Allow(v, a)) == AllowAll(v) && DenyAll(Deny(v, a)) == DenyAll(v)
    ensures Allow(v, a).overrides == v.overrides && Deny(v, a).overrides == v.overrides
    ensures AllowAll(v).overrides == v.overrides && DenyAll(v).overrides == v.overrides
    ensures Overrides(Overrides(v, x), y) == Overrides(v, x + y)
    ensures Overrides(v, x).host == v.host
    ensures Overrides(Allow(v, a), x) == Allow(Overrides(v, x), a)
  {
    assert v.overrides + x + y == v.overrides + (x + y);
  }

  function KeyOf(kv: (Bytes, Bytes)): Bytes { kv.0 }

  /** The keys the policy lists, in the order given. */
  function ListOf(h: HostPolicy): seq<Bytes>
  {
    match h
    case HostAllow(l) => l
    case HostDeny(l) => l
    case _ => []
  }

  /** Key, value, key, value, ... */
  function Pairs(kvs: seq<(Bytes, Bytes)>): (r: seq<Bytes>)
    ensures |r| == 2 * |kvs|
    decreases |kvs|
  {
    if |kvs| == 0 then [] else [kvs[0].0, kvs[0].1] + Pairs(kvs[1..])
  }

  /** The strings of the field data: the overrides sorted by key (equal keys
      in the order given) as key/value pairs, then the sorted allow or deny
      list. */
  function FieldStrings(v: Virt): seq<Bytes>
  {
    Pairs(SortBy(v.overrides, KeyOf)) + SortBy(ListOf(v.host), Id)
  }

  /** Zero bytes that take `n` to a multiple of 4. */
  function Pad4(n: nat): (r: nat)
    ensures r < 4 && (n + r) % 4 == 0
  {
    if n % 4 == 0 then 0 else 4 - n % 4
  }

  /** One string: its length as a little-endian `u32` (truncated, as the
      cast is), its bytes, and padding to a multiple of 4. */
  function EncodeStr(s: Bytes): (r: Bytes)
    ensures |r| == 4 + |s| + Pad4(|s|) && |r| % 4 == 0
  {
    var pad := Pad4(|s|);
    AddMod4(4, |s| + pad);
    LE32(|s| % U32_LIMIT) + s + Zeros(pad)
  }

  function EncodeStrs(ss: seq<Bytes>): (r: Bytes)
    ensures |r| % 4 == 0
    decreases |ss|
  {
    if |ss| == 0 then []
    else
      var head := EncodeStr(ss[0]);
      var tail := EncodeStrs(ss[1..]);
      AddMod4(|head|, |tail|);
      head + tail
  }

  lemma AddMod4(a: nat, b: nat)
    requires a % 4 == 0 && b % 4 == 0
    ensures (a + b) % 4 == 0
  {
    assert a == 4 * (a / 4) && b == 4 * (b / 4);
    assert a + b == 4 * (a / 4 + b / 4);
  }

  /** The field data of `create_env_virt` / `create_config_virt`: the
      encoded strings, then four zero bytes when needed to reach a multiple
      of 8. */
  function FieldDataBytes(v: Virt): (r: Bytes)
    ensures |r| % 8 == 0
    ensures |r| == |EncodeStrs(FieldStrings(v))| || |r| == |EncodeStrs(FieldStrings(v))| + 4
    ensures r[..|EncodeStrs(FieldStrings(v))|] == EncodeStrs(FieldStrings(v))
  {
    var b := EncodeStrs(FieldStrings(v));
    PadTo8(|b|);
    if |b| % 8 != 0 then b + Zeros(4) else b
  }

  lemma PadTo8(n: nat)
    requires n % 4 == 0
    ensures n % 8 != 0 ==> (n + 4) % 8 == 0
  {
    var q := n / 8;
    assert n == 8 * q + n % 8;
  }

  /** Every string's length fits the `u32` length field. */
  predicate Encodable(ss: seq<Bytes>)
  {
    forall i :: 0 <= i < |ss| ==> IsU32(|ss[i]|)
  }

  /** `read_data_str`: a `u32` length at `offset`, that many bytes after it,
      and the offset moved past them and rounded up to a multiple of 4.
      `None` where the read would leave the data. */
  function ReadDataStr(data: Bytes, offset: nat): (r: Option<(Bytes, nat)>)
    ensures r.Some? ==> offset + 4 + |r.value.0| <= |data|
    ensures r.Some? ==> r.value.1 % 4 == 0 && offset + 4 + |r.value.0| <= r.value.1 < offset + 8 + |r.value.0|
  {
    if offset + 4 > |data| then None
    else
      var len := ReadLE32(data, offset);
      var start := offset + 4;
      if start + len > |data| then None
      else
        var off := start + len;
        Some((data[start..off], off + Pad4(off)))
  }

  /** `n` consecutive strings from `offset`. */
  function ReadStrs(data: Bytes, offset: nat, n: nat): (r: Option<(seq<Bytes>, nat)>)
    ensures r.Some? ==> |r.value.0| == n
    decreases n
  {
    if n == 0 then Some(([], offset))
    else
      match ReadDataStr(data, offset)
      case None => None
      case Some((s, off)) =>
        match ReadStrs(data, off, n - 1)
        case None => None
        case Some((rest, end)) => Some(([s] + rest, end))
  }

  /** Reading one string back from where it was encoded, at a 4-aligned
      offset, gives the string and the offset just after its encoding. */
  lemma ReadEncodedStr(pre: Bytes, s: Bytes, post: Bytes)
    requires |pre| % 4 == 0 && IsU32(|s|)
    ensures ReadDataStr(pre + EncodeStr(s) + post, |pre|) == Some((s, |pre| + |EncodeStr(s)|))
  {
    var data := pre + EncodeStr(s) + post;
    assert data[|pre|..|pre| + |EncodeStr(s)|] == EncodeStr(s);
    ReadEncodedStrAt(data, |pre|, s);
  }

  /** The same, for data that holds the encoding at `at`. */
  lemma ReadEncodedStrAt(data: Bytes, at: nat, s: Bytes)
    requires at % 4 == 0 && IsU32(|s|)
    requires at + |EncodeStr(s)| <= |data| && data[at..at + |EncodeStr(s)|] == EncodeStr(s)
    ensures ReadDataStr(data, at) == Some((s, at + |EncodeStr(s)|))
  {
    var e := EncodeStr(s);
    EncodeStrParts(s);
    assert ReadLE32(data, at) == |s| by {
      SubSlice(data, at, e, 0, 4);
      ReadLE32Window(data, at, |s|);
    }
    assert data[at + 4..at + 4 + |s|] == s by {
      SubSlice(data, at, e, 4, 4 + |s|);
    }
    Pad4Shift(at + 4, |s|);
  }

  lemma Pad4Shift(at: nat, n: nat)
    requires at % 4 == 0
    ensures Pad4(at + n) == Pad4(n)
  {
    var k := at / 4;
    assert at + n == 4 * k + n;
    assert (4 * k + n) % 4 == n % 4;
  }

  /** The field data reads back string by string: `read_data_str` inverts
      the generator's string encoding. */
  lemma ReadEncodedStrs(pre: Bytes, ss: seq<Bytes>, post: Bytes)
    requires |pre| % 4 == 0 && Encodable(ss)
    ensures ReadStrs(pre + EncodeStrs(ss) + post, |pre|, |ss|) == Some((ss, |pre| + |EncodeStrs(ss)|))
  {
    var data := pre + EncodeStrs(ss) + post;
    assert data[|pre|..|pre| + |EncodeStrs(ss)|] == EncodeStrs(ss);
    ReadEncodedStrsAt(data, |pre|, ss);
  }

  /** The same, for data that holds the encoding at `at`. */
  lemma {:induction false} ReadEncodedStrsAt(data: Bytes, at: nat, ss: seq<Bytes>)
    requires at % 4 == 0 && Encodable(ss)
    requires at + |EncodeStrs(ss)| <= |data| && data[at..at + |EncodeStrs(ss)|] == EncodeStrs(ss)
    ensures ReadStrs(data, at, |ss|) == Some((ss, at + |EncodeStrs(ss)|))
    decreases |ss|
  {
    if |ss| > 0 {
      var e := EncodeStr(ss[0]);
      var tail := EncodeStrs(ss[1..]);
      assert EncodeStrs(ss) == e + tail;
      SliceSplit(data, at, e, tail);
      ReadEncodedStrAt(data, at, ss[0]);
      EncodableTail(ss);
      ReadEncodedStrsAt(data, at + |e|, ss[1..]);
      ReadStrsCons(data, at, at + |e|, ss, at + |EncodeStrs(ss)|);
    }
  }

  lemma EncodeStrParts(s: Bytes)
    requires IsU32(|s|)
    ensures EncodeStr(s)[..4] == LE32(|s|) && EncodeStr(s)[4..4 + |s|] == s
  {
    var w := LE32(|s| % U32_LIMIT);
    var e := EncodeStr(s);
    assert e == w + s + Zeros(Pad4(|s|));
    assert |w| == 4;
    assert e[..4] == w;
    assert e[4..4 + |s|] == s;
  }

  lemma SubSlice(data: Bytes, at: nat, e: Bytes, i: nat, j: nat)
    requires at + |e| <= |data| && data[at..at + |e|] == e && i <= j <= |e|
    ensures data[at + i..at + j] == e[i..j]
  {
    forall k | 0 <= k < j - i ensures data[at + i..at + j][k] == e[i..j][k] {
      assert data[at..at + |e|][i + k] == e[i + k];
    }
  }

  lemma SliceSplit(data: Bytes, at: nat, a: Bytes, b: Bytes)
    requires at + |a| + |b| <= |data| && data[at..at + |a| + |b|] == a + b
    ensures data[at..at + |a|] == a && data[at + |a|..at + |a| + |b|] == b
  {
    assert data[at..at + |a|] == (a + b)[..|a|];
    assert data[at + |a|..at + |a| + |b|] == (a + b)[|a|..];
  }

  lemma EncodableTail(ss: seq<Bytes>)
    requires |ss| > 0 && Encodable(ss)
    ensures Encodable(ss[1..])
  {
    forall i | 0 <= i < |ss[1..]| ensures IsU32(|ss[1..][i]|) { assert ss[1..][i] == ss[i + 1]; }
  }

  /** One string followed by the rest. */
  lemma ReadStrsCons(data: Bytes, offset: nat, off: nat, ss: seq<Bytes>, end: nat)
    requires |ss| > 0 && ReadDataStr(data, offset) == Some((ss[0], off))
    requires ReadStrs(data, off, |ss| - 1) == Some((ss[1..], end))
    ensures ReadStrs(data, offset, |ss|) == Some((ss, end))
  {
    assert [ss[0]] + ss[1..] == ss;
  }

  /** The same, for strings encoded at the very start of the data. */
  lemma ReadEncodedStrsFront(ss: seq<Bytes>, post: Bytes, data: Bytes)
    requires Encodable(ss) && data == EncodeStrs(ss) + post
    ensures ReadStrs(data, 0, |ss|) == Some((ss, |EncodeStrs(ss)|))
  {
    var nil: Bytes := [];
    assert nil + EncodeStrs(ss) + post == data;
    ReadEncodedStrs(nil, ss, post);
  }

  /** The header `create_*_virt` patches and the adapter reads: byte 0 is
      the host fallback flag, byte 1 chooses an allow (1) or deny (0) list,
      bytes 4..8 count the overrides, 8..12 the listed keys and 12..16 hold
      the field data address. */
  datatype Header = Header(fallback: bool, allow: bool, fieldCnt: nat, listCnt: nat, dataPtr: nat)

  const HEADER_LEN: nat := 16

  function DecodeHeader(b: Bytes, at: nat): Header
    requires at + HEADER_LEN <= |b|
  {
    Header(b[at] != 0, b[at + 1] != 0, ReadLE32(b, at + 4), ReadLE32(b, at + 8), ReadLE32(b, at + 12))
  }

  /** The adapter's static initialiser: fallback on, deny list, no keys,
      no data. */
  const DEFAULT_HEADER: Bytes := [1, 0, 0, 0, 0, 0, 0, 0, 0, 0, 0, 0, 0, 0, 0, 0]

  /** How far past the static's start `create_env_virt` /
      `create_config_virt` write: the override count reaches byte 8, an
      allow or deny list's length byte 12, and a field data address byte
      16.  Nothing else is touched, so a shorter segment is patched
      without a panic. */
  function PatchedLen(h: HostPolicy, dataAddr: Option<u32>): (n: nat)
    ensures 8 <= n <= HEADER_LEN
    ensures n == HEADER_LEN <==> dataAddr.Some?
  {
    if dataAddr.Some? then HEADER_LEN
    else if h.HostAllow? || h.HostDeny? then 12
    else 8
  }

  /** The header writes of `create_env_virt` / `create_config_virt`: the
      override count, then what the policy sets, then the field data
      address when there is field data. */
  function WriteHeader(b: Bytes, at: nat, v: Virt, dataAddr: Option<u32>): (r: Bytes)
    requires at + PatchedLen(v.host, dataAddr) <= |b|
    ensures |r| == |b|
    ensures forall i :: 0 <= i < |b| && !(at <= i < at + PatchedLen(v.host, dataAddr)) ==> r[i] == b[i]
  {
    var b1 := Splice(b, at + 4, LE32(|v.overrides| % U32_LIMIT));
    WriteAddr(WritePolicy(b1, at, v.host), at, dataAddr)
  }

  /** The policy's bytes: `All` writes nothing, `None` clears the fallback
      byte, and an allow or deny list sets byte 1 and stores its length,
      truncated to `u32`, at bytes 8..12. */
  function WritePolicy(b: Bytes, at: nat, h: HostPolicy): (r: Bytes)
    requires h.HostNone? ==> at < |b|
    requires h.HostAllow? || h.HostDeny? ==> at + 12 <= |b|
    ensures |r| == |b|
    ensures h.HostAll? ==> r == b
    ensures h.HostNone? ==> r[at] == 0 && forall i :: 0 <= i < |b| && i != at ==> r[i] == b[i]
    ensures h.HostAllow? || h.HostDeny? ==>
      r[at + 1] == (if h.HostAllow? then 1 else 0) && ReadLE32(r, at + 8) == |ListOf(h)| % U32_LIMIT
      && forall i :: 0 <= i < |b| && i != at + 1 && !(at + 8 <= i < at + 12) ==> r[i] == b[i]
  {
    match h
    case HostAll => b
    case HostNone => b[at := 0]
    case HostAllow(l) =>
      ReadAfterSplice(b[at + 1 := 1], at + 8, |l| % U32_LIMIT);
      Splice(b[at + 1 := 1], at + 8, LE32(|l| % U32_LIMIT))
    case HostDeny(l) =>
      ReadAfterSplice(b[at + 1 := 0], at + 8, |l| % U32_LIMIT);
      Splice(b[at + 1 := 0], at + 8, LE32(|l| % U32_LIMIT))
  }

  /** The field data address, when there is field data, at bytes 12..16. */
  function WriteAddr(b: Bytes, at: nat, dataAddr: Option<u32>): (r: Bytes)
    requires dataAddr.Some? ==> at + HEADER_LEN <= |b|
    ensures |r| == |b|
    ensures dataAddr.None? ==> r == b
    ensures dataAddr.Some? ==>
      ReadLE32(r, at + 12) == dataAddr.value && forall i :: 0 <= i < |b| && !(at + 12 <= i < at + 16) ==> r[i] == b[i]
  {
    match dataAddr
    case Some(a) =>
      ReadAfterSplice(b, at + 12, a);
      Splice(b, at + 12, LE32(a))
    case None => b
  }

  lemma WriteCountDecodes(b: Bytes, at: nat, n: nat)
    requires at + HEADER_LEN <= |b| && b[at..at + HEADER_LEN] == DEFAULT_HEADER && IsU32(n)
    ensures DecodeHeader(Splice(b, at + 4, LE32(n)), at) == Header(true, false, n, 0, 0)
  {
    DefaultHeaderFields(b, at);
    ReadAfterSplice(b, at + 4, n);
    ReadBesideSplice(b, at + 4, LE32(n), at + 8);
    ReadBesideSplice(b, at + 4, LE32(n), at + 12);
  }

  lemma DefaultHeaderFields(b: Bytes, at: nat)
    requires at + HEADER_LEN <= |b| && b[at..at + HEADER_LEN] == DEFAULT_HEADER
    ensures b[at] == 1 && b[at + 1] == 0 && ReadLE32(b, at + 8) == 0 && ReadLE32(b, at + 12) == 0
  {
    assert forall i :: 0 <= i < HEADER_LEN ==> b[at + i] == DEFAULT_HEADER[i];
  }

  lemma WritePolicyDecodes(b: Bytes, at: nat, h: HostPolicy, n: nat)
    requires at + HEADER_LEN <= |b| && DecodeHeader(b, at) == Header(true, false, n, 0, 0)
    requires IsU32(|ListOf(h)|)
    ensures DecodeHeader(WritePolicy(b, at, h), at) == Header(!h.HostNone?, h.HostAllow?, n, |ListOf(h)|, 0)
  {
    match h
    case HostAll =>
    case HostNone =>
      ReadBesideUpdate(b, at, 0, at + 4);
      ReadBesideUpdate(b, at, 0, at + 8);
      ReadBesideUpdate(b, at, 0, at + 12);
    case HostAllow(l) => WriteListDecodes(b, at, 1, |l|, n);
    case HostDeny(l) => WriteListDecodes(b, at, 0, |l|, n);
  }

  lemma WriteListDecodes(b: Bytes, at: nat, flag: byte, len: nat, n: nat)
    requires at + HEADER_LEN <= |b| && DecodeHeader(b, at) == Header(true, false, n, 0, 0)
    requires IsU32(len)
    ensures DecodeHeader(Splice(b[at + 1 := flag], at + 8, LE32(len % U32_LIMIT)), at)
      == Header(true, flag != 0, n, len, 0)
  {
    var b' := b[at + 1 := flag];
    ReadBesideUpdate(b, at + 1, flag, at + 4);
    ReadBesideUpdate(b, at + 1, flag, at + 12);
    assert len % U32_LIMIT == len;
    SpliceWord(b', at, len);
  }

  lemma SpliceWord(b: Bytes, at: nat, len: nat)
    requires at + HEADER_LEN <= |b| && IsU32(len)
    ensures var r := Splice(b, at + 8, LE32(len));
      r[at] == b[at] && r[at + 1] == b[at + 1]
      && ReadLE32(r, at + 4) == ReadLE32(b, at + 4) && ReadLE32(r, at + 8) == len
      && ReadLE32(r, at + 12) == ReadLE32(b, at + 12)
  {
    ReadAfterSplice(b, at + 8, len);
    ReadBesideSplice(b, at + 8, LE32(len), at + 4);
    ReadBesideSplice(b, at + 8, LE32(len), at + 12);
  }

  lemma WriteAddrDecodes(b: Bytes, at: nat, dataAddr: Option<u32>)
    requires at + HEADER_LEN <= |b|
    ensures DecodeHeader(WriteAddr(b, at, dataAddr), at)
      == DecodeHeader(b, at).(dataPtr := if dataAddr.Some? then dataAddr.value else DecodeHeader(b, at).dataPtr)
  {
    if dataAddr.Some? {
      var r := Splice(b, at + 12, LE32(dataAddr.value));
      ReadAfterSplice(b, at + 12, dataAddr.value);
      ReadBesideSplice(b, at + 12, LE32(dataAddr.value), at + 4);
      ReadBesideSplice(b, at + 12, LE32(dataAddr.value), at + 8);
      assert r[at] == b[at] && r[at + 1] == b[at + 1];
    }
  }

  /** What the adapter sees after the generator patched its default header:
      fallback is on unless the policy is `HostNone`, the list is an allow
      list only for `HostAllow`, the counts are the overrides and the listed
      keys, and the address is the field data's (0 when there is none). */
  lemma HeaderRoundTrip(b: Bytes, at: nat, v: Virt, dataAddr: Option<u32>)
    requires at + HEADER_LEN <= |b| && b[at..at + HEADER_LEN] == DEFAULT_HEADER
    requires IsU32(|v.overrides|) && IsU32(|ListOf(v.host)|)
    ensures DecodeHeader(WriteHeader(b, at, v, dataAddr), at)
      == Header(!v.host.HostNone?, v.host.HostAllow?, |v.overrides|, |ListOf(v.host)|,
                if dataAddr.Some? then dataAddr.value else 0)
  {
    assert |v.overrides| % U32_LIMIT == |v.overrides|;
    var b1 := Splice(b, at + 4, LE32(|v.overrides|));
    WriteCountDecodes(b, at, |v.overrides|);
    WritePolicyDecodes(b1, at, v.host, |v.overrides|);
    WriteAddrDecodes(WritePolicy(b1, at, v.host), at, dataAddr);
  }
}
