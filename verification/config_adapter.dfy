/** `virtual-adapter/src/config.rs`: the adapter's `wasi:config/runtime`
    exports `get` and `get_all`, reading the settings the generator patched
    into its `config` static.  What the imported host `get`/`get_all`
    would answer is a parameter. */
module ConfigAdapter {
  import opened Results
  import opened Bytes
  import opened Sorting
  import opened FieldData
  import opened Fallback

  /** The host interface's error and the one the adapter exports. */
  datatype HostConfigError = HostUpstream(msg: string) | HostIo(msg: string)
  datatype ConfigError = Upstream(msg: string) | Io(msg: string)

  /** `config_err_map`: same kind, same message. */
  function ConfigErrMap(e: HostConfigError): (r: ConfigError)
    ensures r.msg == e.msg
    ensures r.Upstream? <==> e.HostUpstream?
  {
    match e
    case HostUpstream(msg) => Upstream(msg)
    case HostIo(msg) => Io(msg)
  }

  /** No two host errors map to the same exported one. */
  lemma ConfigErrMapInjective(e1: HostConfigError, e2: HostConfigError)
    requires ConfigErrMap(e1) == ConfigErrMap(e2)
    ensures e1 == e2
  {
  }

  /** `map_err(config_err_map)` on a host answer. */
  function MapHostErr<T>(r: Result<T, HostConfigError>): (m: Result<T, ConfigError>)
    ensures m.Ok? <==> r.Ok?
    ensures m.Ok? ==> m.value == r.value
    ensures m.Err? ==> m.error == ConfigErrMap(r.error)
  {
    match r
    case Ok(x) => Ok(x)
    case Err(e) => Err(ConfigErrMap(e))
  }

  /** The value of the first pair whose key is `key`. */
  function FirstValue(kvs: seq<(Bytes, Bytes)>, key: Bytes): (r: Option<Bytes>)
    ensures r.None? <==> forall i :: 0 <= i < |kvs| ==> kvs[i].0 != key
    ensures r.Some? ==> (key, r.value) in kvs
    decreases |kvs|
  {
    if |kvs| == 0 then None
    else if kvs[0].0 == key then Some(kvs[0].1)
    else FirstValue(kvs[1..], key)
  }

  /** The first value for `key` is the value of the first pair in the run
      of pairs with that key. */
  lemma {:induction false} FirstValueOfRun(kvs: seq<(Bytes, Bytes)>, key: Bytes)
    ensures var run := KeyRun(kvs, KeyOf, key);
      FirstValue(kvs, key) == if |run| == 0 then None else Some(run[0].1)
    decreases |kvs|
  {
    if |kvs| > 0 {
      FirstValueOfRun(kvs[1..], key);
    }
  }

  /** Sorting the overrides by key (stably, as `sort_by` does) leaves the
      first value of every key as the user listed it. */
  lemma SortedFirstValue(ov: seq<(Bytes, Bytes)>, key: Bytes)
    ensures FirstValue(SortBy(ov, KeyOf), key) == FirstValue(ov, key)
  {
    SortByStable(ov, KeyOf, key);
    FirstValueOfRun(ov, key);
    FirstValueOfRun(SortBy(ov, KeyOf), key);
  }

  /** The override loop of `get`: key and value are read in turn and the
      first matching key returns its value at once, without reading
      further.  `Some((None, end))` when no key matched. */
  function ScanOverrides(data: Bytes, offset: nat, n: nat, key: Bytes): Option<(Option<Bytes>, nat)>
    decreases n
  {
    if n == 0 then Some((None, offset))
    else
      match ReadDataStr(data, offset)
      case None => None
      case Some((k, o1)) =>
        match ReadDataStr(data, o1)
        case None => None
        case Some((val, o2)) =>
          if k == key then Some((Some(val), o2)) else ScanOverrides(data, o2, n - 1, key)
  }

  /** Where all the overrides can be read, the early-return loop finds the
      first override with the key, and ends where the full read ends when
      there is none. */
  lemma {:induction false} ScanOverridesFinds(data: Bytes, offset: nat, n: nat, key: Bytes)
    requires ReadPairs(data, offset, n).Some?
    ensures ScanOverrides(data, offset, n, key).Some?
    ensures ScanOverrides(data, offset, n, key).value.0 == FirstValue(ReadPairs(data, offset, n).value.0, key)
    ensures ScanOverrides(data, offset, n, key).value.0.None?
            ==> ScanOverrides(data, offset, n, key).value.1 == ReadPairs(data, offset, n).value.1
    decreases n
  {
    if n > 0 {
      ReadPairsStep(data, offset, n);
      var (k, o1) := ReadDataStr(data, offset).value;
      var (val, o2) := ReadDataStr(data, o1).value;
      var rest := ReadPairs(data, o2, n - 1).value.0;
      assert ([(k, val)] + rest)[1..] == rest;
      if k != key {
        ScanOverridesFinds(data, o2, n - 1, key);
      }
    }
  }

  /** Reading `n > 0` pairs is reading one key and one value, then `n - 1`
      pairs. */
  lemma ReadPairsStep(data: Bytes, offset: nat, n: nat)
    requires n > 0 && ReadPairs(data, offset, n).Some?
    ensures ReadDataStr(data, offset).Some?
    ensures var (k, o1) := ReadDataStr(data, offset).value;
      ReadDataStr(data, o1).Some?
      && var (val, o2) := ReadDataStr(data, o1).value;
      ReadPairs(data, o2, n - 1).Some?
      && ReadPairs(data, offset, n).value.0 == [(k, val)] + ReadPairs(data, o2, n - 1).value.0
      && ReadPairs(data, offset, n).value.1 == ReadPairs(data, o2, n - 1).value.1
  {
    var all := ReadStrs(data, offset, 2 * n);
    assert all.Some?;
    assert ReadDataStr(data, offset).Some?;
    var (k, o1) := ReadDataStr(data, offset).value;
    var tail1 := ReadStrs(data, o1, 2 * n - 1);
    assert tail1.Some? && all.value == ([k] + tail1.value.0, tail1.value.1);
    assert ReadDataStr(data, o1).Some?;
    var (val, o2) := ReadDataStr(data, o1).value;
    var tail2 := ReadStrs(data, o2, 2 * (n - 1));
    assert tail2.Some? && tail1.value == ([val] + tail2.value.0, tail2.value.1);
    var ss := all.value.0;
    assert ss[0] == k && ss[1] == val && ss[2..] == tail2.value.0;
  }

  /** `Runtime::get`.  An override answers first, whatever the policy;
      otherwise, when falling back and the policy admits the key, the host's
      answer is passed on with its error mapped; otherwise there is no
      value.  The outer `None` is a read that would leave the field data. */
  function Get(h: Header, data: Bytes, key: Bytes, hostGet: Result<Option<Bytes>, HostConfigError>)
    : (r: Option<Result<Option<Bytes>, ConfigError>>)
    ensures r.Some? ==> ScanOverrides(data, 0, h.fieldCnt, key).Some?
    ensures r.Some? && r.value != Ok(None) ==>
      var found := ScanOverrides(data, 0, h.fieldCnt, key).value.0;
      (found.Some? && r.value == Ok(found)) || (found.None? && h.fallback && r.value == MapHostErr(hostGet))
  {
    match ScanOverrides(data, 0, h.fieldCnt, key)
    case None => None
    case Some((Some(val), _)) => Some(Ok(Some(val)))
    case Some((None, off)) =>
      if !h.fallback then Some(Ok(None))
      else
        match ReadStrs(data, off, h.listCnt)
        case None => None
        case Some((list, _)) =>
          if Admits(h.allow, list, key) then Some(MapHostErr(hostGet)) else Some(Ok(None))
  }

  /** An override answers `get` whatever the policy and the host say. */
  lemma GetOverrideWins(h: Header, data: Bytes, key: Bytes, hostGet: Result<Option<Bytes>, HostConfigError>)
    requires ReadPairs(data, 0, h.fieldCnt).Some?
    requires FirstValue(ReadPairs(data, 0, h.fieldCnt).value.0, key).Some?
    ensures Get(h, data, key, hostGet) == Some(Ok(FirstValue(ReadPairs(data, 0, h.fieldCnt).value.0, key)))
  {
    ScanOverridesFinds(data, 0, h.fieldCnt, key);
  }

  /** End to end: on the generator's field data and a header describing the
      same settings, `get` answers from the first override with the key, in
      the order the overrides were given; failing that from the host exactly
      when the settings want the key; and otherwise with no value. */
  lemma GetRoundTrip(h: Header, v: Virt, key: Bytes, hostGet: Result<Option<Bytes>, HostConfigError>)
    requires Fits(v) && Describes(h, v)
    ensures var found := FirstValue(v.overrides, key);
      Get(h, FieldDataBytes(v), key, hostGet)
      == Some(if found.Some? then Ok(found)
              else if Wanted(v, key) then MapHostErr(hostGet)
              else Ok(None))
  {
    var data := FieldDataBytes(v);
    var ov := SortBy(v.overrides, KeyOf);
    ReadFieldData(v);
    ScanOverridesFinds(data, 0, h.fieldCnt, key);
    var found := FirstValue(ov, key);
    SortedFirstValue(v.overrides, key);
    if found.None? && !v.host.HostNone? {
      DecisionMatches(v, key);
      BinarySearchIsMembership(ov, KeyOf, key);
    }
  }

  /** `Runtime::get_all`: the overrides in stored order, then, when falling
      back, the host entries no override shadows and the policy admits, in
      host order; a host error is mapped and returned instead.  The outer
      `None` is a read that would leave the field data. */
  function GetAll(h: Header, data: Bytes, hostAll: Result<seq<(Bytes, Bytes)>, HostConfigError>)
    : (r: Option<Result<seq<(Bytes, Bytes)>, ConfigError>>)
    ensures r.Some? <==> ReadSettings(h, data).Some?
    ensures r.Some? && r.value.Err? ==> h.fallback && hostAll.Err? && r.value.error == ConfigErrMap(hostAll.error)
    ensures r.Some? && r.value.Ok? ==> var (ov, list) := ReadSettings(h, data).value;
      h.fieldCnt <= |r.value.value| && r.value.value[..h.fieldCnt] == ov
      && (!h.fallback ==> |r.value.value| == h.fieldCnt)
      && forall kv :: kv in r.value.value[h.fieldCnt..] <==>
           h.fallback && hostAll.Ok? && kv in hostAll.value && !Overridden(ov, kv.0) && Admits(h.allow, list, kv.0)
  {
    match ReadSettings(h, data)
    case None => None
    case Some((ov, list)) =>
      if !h.fallback then
        assert ov[..|ov|] == ov && ov[|ov|..] == [];
        Some(Ok(ov))
      else
        match hostAll
        case Err(e) => Some(Err(ConfigErrMap(e)))
        case Ok(entries) =>
          var extra := HostFilter(entries, ov, h.allow, list);
          var r := ov + extra;
          assert r[..|ov|] == ov && r[|ov|..] == extra;
          forall kv ensures kv in extra <==> kv in entries && !Overridden(ov, kv.0) && Admits(h.allow, list, kv.0) {
            HostFilterMembers(entries, ov, h.allow, list, kv);
          }
          Some(Ok(r))
  }

  /** End to end: on the generator's field data and a header describing the
      same settings, `get_all` returns the sorted overrides followed by
      exactly the host entries the settings want, never asks the host when
      fully encapsulated, and otherwise passes a host error on. */
  lemma GetAllRoundTrip(h: Header, v: Virt, hostAll: Result<seq<(Bytes, Bytes)>, HostConfigError>)
    requires Fits(v) && Describes(h, v)
    ensures GetAll(h, FieldDataBytes(v), hostAll)
      == Some(if v.host.HostNone? then Ok(SortBy(v.overrides, KeyOf))
              else if hostAll.Err? then Err(ConfigErrMap(hostAll.error))
              else Ok(SortBy(v.overrides, KeyOf) + Expected(v, hostAll.value)))
  {
    ReadSettingsOf(h, v);
    if !v.host.HostNone? && hostAll.Ok? {
      HostFilterIsExpected(v, hostAll.value);
    }
  }
}
