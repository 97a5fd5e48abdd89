/** The adapter side of the policy blob, shared by `get_environment`,
    `Runtime::get` and `Runtime::get_all`: reading the overrides and the
    allow/deny keys back, and deciding which host entries pass. */
module Fallback {
  import opened Results
  import opened Bytes
  import opened Lex
  import opened Sorting
  import opened FieldData

  /** Pairing strings up again, key then value. */
  function Unpair(ss: seq<Bytes>): seq<(Bytes, Bytes)>
    decreases |ss|
  {
    if |ss| < 2 then [] else [(ss[0], ss[1])] + Unpair(ss[2..])
  }

  lemma {:induction false} UnpairPairs(kvs: seq<(Bytes, Bytes)>)
    ensures Unpair(Pairs(kvs)) == kvs
    decreases |kvs|
  {
    if |kvs| > 0 {
      var p := Pairs(kvs);
      assert p[0] == kvs[0].0 && p[1] == kvs[0].1 && p[2..] == Pairs(kvs[1..]);
      UnpairPairs(kvs[1..]);
    }
  }

  lemma {:induction false} UnpairLength(ss: seq<Bytes>, n: nat)
    requires |ss| == 2 * n
    ensures |Unpair(ss)| == n
    decreases n
  {
    if n > 0 {
      UnpairLength(ss[2..], n - 1);
    }
  }

  /** The override loop: `n` keys and values read alternately. */
  function ReadPairs(data: Bytes, offset: nat, n: nat): (r: Option<(seq<(Bytes, Bytes)>, nat)>)
    ensures r.Some? ==> |r.value.0| == n
  {
    match ReadStrs(data, offset, 2 * n)
    case None => None
    case Some((ss, end)) => UnpairLength(ss, n); Some((Unpair(ss), end))
  }

  /** `binary_search` on the listed keys, then the allow/deny decision. */
  predicate Admits(allow: bool, list: seq<Bytes>, key: Bytes)
  {
    var inList := BinarySearch(list, Id, key).Some?;
    (allow && inList) || (!allow && !inList)
  }

  /** `binary_search_by_key` on the overrides read so far. */
  predicate Overridden(overrides: seq<(Bytes, Bytes)>, key: Bytes)
  {
    BinarySearch(overrides, KeyOf, key).Some?
  }

  /** The host loop: entries in host order, skipping overridden keys and
      keeping the admitted ones. */
  function HostFilter(host: seq<(Bytes, Bytes)>, overrides: seq<(Bytes, Bytes)>, allow: bool, list: seq<Bytes>)
    : seq<(Bytes, Bytes)>
    decreases |host|
  {
    if |host| == 0 then []
    else
      var rest := HostFilter(host[1..], overrides, allow, list);
      if !Overridden(overrides, host[0].0) && Admits(allow, list, host[0].0) then [host[0]] + rest else rest
  }

  /** The intended decision, from the generator's settings: a host key
      passes when no override has it and the policy lets it through. */
  predicate Wanted(v: Virt, key: Bytes)
  {
    (forall i :: 0 <= i < |v.overrides| ==> v.overrides[i].0 != key)
    && match v.host
       case HostNone => false
       case HostAll => true
       case HostAllow(l) => key in l
       case HostDeny(l) => key !in l
  }

  /** The host entries the settings want, in host order. */
  function Expected(v: Virt, host: seq<(Bytes, Bytes)>): (r: seq<(Bytes, Bytes)>)
    ensures forall kv :: kv in r <==> kv in host && Wanted(v, kv.0)
    decreases |host|
  {
    if |host| == 0 then []
    else
      var rest := Expected(v, host[1..]);
      assert forall kv :: kv in host <==> kv == host[0] || kv in host[1..];
      if Wanted(v, host[0].0) then [host[0]] + rest else rest
  }

  /** Keys are in a sorted sequence iff they are in what it was sorted from. */
  lemma SortedMembership<T>(s: seq<T>, key: T -> Bytes, k: Bytes)
    ensures (exists i :: 0 <= i < |SortBy(s, key)| && key(SortBy(s, key)[i]) == k)
        <==> (exists i :: 0 <= i < |s| && key(s[i]) == k)
  {
    var t := SortBy(s, key);
    if exists i :: 0 <= i < |t| && key(t[i]) == k {
      var i :| 0 <= i < |t| && key(t[i]) == k;
      var j := FromSorted(s, key, i);
      assert key(s[j]) == k;
    }
    if exists j :: 0 <= j < |s| && key(s[j]) == k {
      var j :| 0 <= j < |s| && key(s[j]) == k;
      var i := ToSorted(s, key, j);
      assert key(t[i]) == k;
    }
  }

  lemma FromSorted<T>(s: seq<T>, key: T -> Bytes, i: nat) returns (j: nat)
    requires i < |SortBy(s, key)|
    ensures j < |s| && s[j] == SortBy(s, key)[i]
  {
    var t := SortBy(s, key);
    assert t[i] in multiset(t);
    assert t[i] in multiset(s);
    j :| 0 <= j < |s| && s[j] == t[i];
  }

  lemma ToSorted<T>(s: seq<T>, key: T -> Bytes, j: nat) returns (i: nat)
    requires j < |s|
    ensures i < |SortBy(s, key)| && SortBy(s, key)[i] == s[j]
  {
    var t := SortBy(s, key);
    assert s[j] in multiset(s);
    assert s[j] in multiset(t);
    i :| 0 <= i < |t| && t[i] == s[j];
  }

  /** On the sorted data the generator writes, the adapter's binary-search
      decisions are the intended ones. */
  lemma DecisionMatches(v: Virt, key: Bytes)
    requires !v.host.HostNone?
    ensures (!Overridden(SortBy(v.overrides, KeyOf), key)
             && Admits(v.host.HostAllow?, SortBy(ListOf(v.host), Id), key)) <==> Wanted(v, key)
  {
    OverriddenIff(v.overrides, key);
    ListedIff(ListOf(v.host), key);
  }

  /** Bisecting the sorted overrides finds a key exactly when some
      override has it. */
  lemma OverriddenIff(overrides: seq<(Bytes, Bytes)>, key: Bytes)
    ensures Overridden(SortBy(overrides, KeyOf), key) <==> exists i :: 0 <= i < |overrides| && overrides[i].0 == key
  {
    BinarySearchIsMembership(SortBy(overrides, KeyOf), KeyOf, key);
    SortedMembership(overrides, KeyOf, key);
  }

  /** Bisecting the sorted list finds a key exactly when it is listed. */
  lemma ListedIff(list: seq<Bytes>, key: Bytes)
    ensures BinarySearch(SortBy(list, Id), Id, key).Some? <==> key in list
  {
    BinarySearchIsMembership(SortBy(list, Id), Id, key);
    SortedMembership(list, Id, key);
    assert (exists i :: 0 <= i < |list| && Id(list[i]) == key) <==> key in list;
  }

  lemma {:induction false} HostFilterIsExpected(v: Virt, host: seq<(Bytes, Bytes)>)
    requires !v.host.HostNone?
    ensures HostFilter(host, SortBy(v.overrides, KeyOf), v.host.HostAllow?, SortBy(ListOf(v.host), Id))
            == Expected(v, host)
    decreases |host|
  {
    if |host| > 0 {
      DecisionMatches(v, host[0].0);
      HostFilterIsExpected(v, host[1..]);
    }
  }

  /** Every string of the settings fits a `u32` length field. */
  predicate Fits(v: Virt)
  {
    IsU32(|v.overrides|) && IsU32(|ListOf(v.host)|)
    && (forall i :: 0 <= i < |v.overrides| ==> IsU32(|v.overrides[i].0|) && IsU32(|v.overrides[i].1|))
    && (forall i :: 0 <= i < |ListOf(v.host)| ==> IsU32(|ListOf(v.host)[i]|))
  }

  lemma SortedFits<T>(s: seq<T>, key: T -> Bytes, size: T -> nat)
    requires forall i :: 0 <= i < |s| ==> IsU32(size(s[i]))
    ensures forall i :: 0 <= i < |SortBy(s, key)| ==> IsU32(size(SortBy(s, key)[i]))
  {
    var t := SortBy(s, key);
    forall i | 0 <= i < |t| ensures IsU32(size(t[i])) {
      assert t[i] in multiset(t);
      assert t[i] in multiset(s);
      var j :| 0 <= j < |s| && s[j] == t[i];
    }
  }

  function KeyLen(kv: (Bytes, Bytes)): nat { |kv.0| }
  function ValLen(kv: (Bytes, Bytes)): nat { |kv.1| }
  function Len(b: Bytes): nat { |b| }

  lemma FitsEncodable(v: Virt)
    requires Fits(v)
    ensures Encodable(FieldStrings(v))
  {
    var ov := SortBy(v.overrides, KeyOf);
    SortedFits(v.overrides, KeyOf, KeyLen);
    SortedFits(v.overrides, KeyOf, ValLen);
    SortedFits(ListOf(v.host), Id, Len);
    PairsEncodable(ov);
    EncodableJoin(Pairs(ov), SortBy(ListOf(v.host), Id));
  }

  lemma {:induction false} PairsEncodable(kvs: seq<(Bytes, Bytes)>)
    requires forall i :: 0 <= i < |kvs| ==> IsU32(KeyLen(kvs[i])) && IsU32(ValLen(kvs[i]))
    ensures Encodable(Pairs(kvs))
    decreases |kvs|
  {
    if |kvs| > 0 {
      assert IsU32(KeyLen(kvs[0])) && IsU32(ValLen(kvs[0]));
      assert forall i :: 0 <= i < |kvs[1..]| ==> kvs[1..][i] == kvs[i + 1];
      PairsEncodable(kvs[1..]);
      EncodableJoin([kvs[0].0, kvs[0].1], Pairs(kvs[1..]));
    }
  }

  lemma EncodableJoin(a: seq<Bytes>, b: seq<Bytes>)
    requires Encodable(a) && Encodable(b)
    ensures Encodable(a + b)
  {
    forall i | 0 <= i < |a + b| ensures IsU32(|(a + b)[i]|) {
      if i >= |a| { assert (a + b)[i] == b[i - |a|]; }
    }
  }

  lemma {:induction false} EncodeStrsAppend(a: seq<Bytes>, b: seq<Bytes>)
    ensures EncodeStrs(a + b) == EncodeStrs(a) + EncodeStrs(b)
    decreases |a|
  {
    var ab := a + b;
    if |a| == 0 {
      assert ab == b;
    } else {
      assert ab[0] == a[0] && ab[1..] == a[1..] + b;
      assert EncodeStrs(ab) == EncodeStr(ab[0]) + EncodeStrs(ab[1..]);
      EncodeStrsAppend(a[1..], b);
      assert EncodeStrs(a) == EncodeStr(a[0]) + EncodeStrs(a[1..]);
    }
  }

  /** Where the keys end in the field data. */
  function ListStart(v: Virt): nat
  {
    |EncodeStrs(Pairs(SortBy(v.overrides, KeyOf)))|
  }

  /** The adapter reads the field data back as the sorted overrides and the
      sorted list. */
  lemma ReadFieldData(v: Virt)
    requires Fits(v)
    ensures ReadPairs(FieldDataBytes(v), 0, |v.overrides|) == Some((SortBy(v.overrides, KeyOf), ListStart(v)))
    ensures ReadStrs(FieldDataBytes(v), ListStart(v), |ListOf(v.host)|).Some?
    ensures ReadStrs(FieldDataBytes(v), ListStart(v), |ListOf(v.host)|).value.0 == SortBy(ListOf(v.host), Id)
  {
    FitsEncodable(v);
    var ov := SortBy(v.overrides, KeyOf);
    var b := SortBy(ListOf(v.host), Id);
    var post := FieldDataSplit(v);
    EncodableSplit(Pairs(ov), b);
    ReadBlob(ov, b, post, FieldDataBytes(v), ListStart(v), |ListOf(v.host)|);
  }

  lemma ReadBlob(ov: seq<(Bytes, Bytes)>, b: seq<Bytes>, post: Bytes, data: Bytes, start: nat, n: nat)
    requires Encodable(Pairs(ov)) && Encodable(b)
    requires data == EncodeStrs(Pairs(ov)) + EncodeStrs(b) + post
    requires start == |EncodeStrs(Pairs(ov))| && n == |b|
    ensures ReadPairs(data, 0, |ov|) == Some((ov, start))
    ensures ReadStrs(data, start, n) == Some((b, start + |EncodeStrs(b)|))
  {
    var pre := EncodeStrs(Pairs(ov));
    assert data == pre + (EncodeStrs(b) + post);
    ReadPairsBack(ov, EncodeStrs(b) + post, data);
    ReadListBack(pre, b, post, data, start, n);
  }

  lemma ReadListBack(pre: Bytes, b: seq<Bytes>, post: Bytes, data: Bytes, start: nat, n: nat)
    requires |pre| % 4 == 0 && Encodable(b) && data == pre + EncodeStrs(b) + post
    requires start == |pre| && n == |b|
    ensures ReadStrs(data, start, n) == Some((b, start + |EncodeStrs(b)|))
  {
    ReadEncodedStrs(pre, b, post);
  }

  lemma ReadPairsBack(ov: seq<(Bytes, Bytes)>, post: Bytes, data: Bytes)
    requires Encodable(Pairs(ov)) && data == EncodeStrs(Pairs(ov)) + post
    ensures ReadPairs(data, 0, |ov|) == Some((ov, |EncodeStrs(Pairs(ov))|))
  {
    var a := Pairs(ov);
    ReadEncodedStrsFront(a, post, data);
    UnpairPairs(ov);
  }

  /** The field data is the encoded pairs, the encoded list, and padding. */
  lemma FieldDataSplit(v: Virt) returns (post: Bytes)
    ensures FieldDataBytes(v)
      == EncodeStrs(Pairs(SortBy(v.overrides, KeyOf))) + EncodeStrs(SortBy(ListOf(v.host), Id)) + post
  {
    var a := Pairs(SortBy(v.overrides, KeyOf));
    var b := SortBy(ListOf(v.host), Id);
    var e := EncodeStrs(a + b);
    EncodeStrsAppend(a, b);
    var data := FieldDataBytes(v);
    post := data[|e|..];
    assert data == data[..|e|] + post;
  }

  lemma EncodableSplit(a: seq<Bytes>, b: seq<Bytes>)
    requires Encodable(a + b)
    ensures Encodable(a) && Encodable(b)
  {
    assert forall i :: 0 <= i < |a| ==> (a + b)[i] == a[i];
    assert forall i :: 0 <= i < |b| ==> (a + b)[|a| + i] == b[i];
  }

  /** A host entry survives the host loop iff it is not overridden and the
      policy admits it. */
  lemma {:induction false} HostFilterMembers(host: seq<(Bytes, Bytes)>, overrides: seq<(Bytes, Bytes)>, allow: bool,
                                             list: seq<Bytes>, kv: (Bytes, Bytes))
    ensures kv in HostFilter(host, overrides, allow, list)
            <==> kv in host && !Overridden(overrides, kv.0) && Admits(allow, list, kv.0)
    decreases |host|
  {
    if |host| > 0 {
      HostFilterMembers(host[1..], overrides, allow, list, kv);
      assert kv in host <==> kv == host[0] || kv in host[1..];
    }
  }

  /** With no overrides and an empty deny list every host entry passes, in
      order. */
  lemma {:induction false} HostFilterPassesAll(host: seq<(Bytes, Bytes)>)
    ensures HostFilter(host, [], false, []) == host
    decreases |host|
  {
    if |host| > 0 {
      HostFilterPassesAll(host[1..]);
      assert [host[0]] + host[1..] == host;
    }
  }

  /** A fully encapsulated policy wants nothing from the host. */
  lemma ExpectedNone(v: Virt, host: seq<(Bytes, Bytes)>)
    requires v.host.HostNone?
    ensures Expected(v, host) == []
  {
    var r := Expected(v, host);
    assert forall kv :: kv !in r;
  }

  /** The header fields agree with the settings they were written from. */
  predicate Describes(h: Header, v: Virt)
  {
    h.fallback == !v.host.HostNone? && h.allow == v.host.HostAllow?
    && h.fieldCnt == |v.overrides| && h.listCnt == |ListOf(v.host)|
  }

  /** The header `create_env_virt` / `create_config_virt` patches into the
      adapter's default one describes the settings. */
  lemma WrittenHeaderDescribes(b: Bytes, at: nat, v: Virt, dataAddr: Option<u32>)
    requires at + HEADER_LEN <= |b| && b[at..at + HEADER_LEN] == DEFAULT_HEADER
    requires Fits(v)
    ensures Describes(DecodeHeader(WriteHeader(b, at, v, dataAddr), at), v)
  {
    HeaderRoundTrip(b, at, v, dataAddr);
  }

  /** The two reading loops shared by `get_environment` and
      `Runtime::get_all`: the overrides, then, only when falling back, the
      allow/deny keys.  `None` where a read would leave the field data. */
  function ReadSettings(h: Header, data: Bytes): (r: Option<(seq<(Bytes, Bytes)>, seq<Bytes>)>)
    ensures r.Some? ==> |r.value.0| == h.fieldCnt
    ensures r.Some? && h.fallback ==> |r.value.1| == h.listCnt
    ensures r.Some? && !h.fallback ==> r.value.1 == []
  {
    match ReadPairs(data, 0, h.fieldCnt)
    case None => None
    case Some((ov, off)) =>
      if !h.fallback then Some((ov, []))
      else
        match ReadStrs(data, off, h.listCnt)
        case None => None
        case Some((list, _)) => Some((ov, list))
  }

  /** On the generator's field data and a header describing it, the
      adapter reads back the sorted overrides and the sorted key list. */
  lemma ReadSettingsOf(h: Header, v: Virt)
    requires Fits(v) && Describes(h, v)
    ensures ReadSettings(h, FieldDataBytes(v))
      == Some((SortBy(v.overrides, KeyOf), if v.host.HostNone? then [] else SortBy(ListOf(v.host), Id)))
  {
    ReadFieldData(v);
  }
}
