/** `virtual-adapter/src/env.rs`: the adapter's `get_environment`, reading
    the settings the generator patched into its `env` static.  The host's
    own environment is a parameter: it is what the imported
    `get-environment` would return. */
module EnvAdapter {
  import opened Results
  import opened Bytes
  import opened Sorting
  import opened FieldData
  import opened Fallback

  /** `get_environment`: the overrides in stored order, then, when falling
      back, the host entries that no override shadows and the policy
      admits, in host order.  `None` where a read would leave the field
      data. */
  function GetEnvironment(h: Header, data: Bytes, host: seq<(Bytes, Bytes)>): (r: Option<seq<(Bytes, Bytes)>>)
    ensures r.Some? <==> ReadSettings(h, data).Some?
    ensures r.Some? ==> var ov := ReadSettings(h, data).value.0;
      |ov| == h.fieldCnt && h.fieldCnt <= |r.value| && r.value[..h.fieldCnt] == ov
    ensures r.Some? && !h.fallback ==> |r.value| == h.fieldCnt
    ensures r.Some? ==> var (ov, list) := ReadSettings(h, data).value;
      forall kv :: kv in r.value[h.fieldCnt..] <==>
        h.fallback && kv in host && !Overridden(ov, kv.0) && Admits(h.allow, list, kv.0)
  {
    match ReadSettings(h, data)
    case None => None
    case Some((ov, list)) =>
      var extra := if h.fallback then HostFilter(host, ov, h.allow, list) else [];
      var r := ov + extra;
      assert r[..|ov|] == ov && r[|ov|..] == extra;
      forall kv ensures kv in extra <==> h.fallback && kv in host && !Overridden(ov, kv.0) && Admits(h.allow, list, kv.0) {
        HostFilterMembers(host, ov, h.allow, list, kv);
      }
      Some(r)
  }

  /** End to end: on the field data the generator writes and a header
      describing the same settings, the adapter returns the sorted
      overrides followed by exactly the host entries the settings want. */
  lemma GetEnvironmentRoundTrip(h: Header, v: Virt, host: seq<(Bytes, Bytes)>)
    requires Fits(v) && Describes(h, v)
    ensures GetEnvironment(h, FieldDataBytes(v), host) == Some(SortBy(v.overrides, KeyOf) + Expected(v, host))
  {
    ReadSettingsOf(h, v);
    if v.host.HostNone? {
      ExpectedNone(v, host);
    } else {
      HostFilterIsExpected(v, host);
    }
  }

  /** The adapter's static initialiser (fallback on, empty deny list, no
      overrides), which `HostAll` leaves in place, passes the whole host
      environment through. */
  lemma DefaultPassesAll(data: Bytes, host: seq<(Bytes, Bytes)>)
    ensures GetEnvironment(DecodeHeader(DEFAULT_HEADER, 0), data, host) == Some(host)
  {
    var h := DecodeHeader(DEFAULT_HEADER, 0);
    assert h == Header(true, false, 0, 0, 0);
    HostFilterPassesAll(host);
  }
}
