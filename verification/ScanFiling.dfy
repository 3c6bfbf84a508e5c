/** Which scan results reach the table, and under which key. */
module ScanFiling {
  import opened Wrappers
  import opened Elements
  import opened RelTime
  import opened BssModel
  import opened BssTerms

  // ----- the checks on one result

  /** The first element with this identifier has this data. */
  ghost predicate FirstElement(es: seq<Element>, id: Byte, data: Octets) {
    exists i :: 0 <= i < |es| && es[i] == Element(id, data) && forall j :: 0 <= j < i ==> es[j].id != id
  }

  /** The elements of the result, or those of the Beacon frame where there are no others. */
  function OwnElements(res: ScanRes): seq<Element> {
    Parse(if |res.ies| > 0 then res.ies else res.beaconIes)
  }

  /** A mesh identifier, element 114, of the length of an SSID. */
  ghost predicate MeshId(res: ScanRes, mesh: Octets) {
    FirstElement(OwnElements(res), 114, mesh) && |mesh| <= 32
  }

  /** The result is not older than the scan that asked for it, where that matters. */
  predicate RecentEnough(env: Env, res: ScanRes, fetch: Time) {
    env.ignoreOld ==> Micros(fetch) - res.age * 1000 >= Micros(env.triggerTime)
  }

  lemma {:induction false} FirstDataIs(es: seq<Element>, id: Byte, data: Octets)
    ensures FirstData(es, id) == Some(data) <==> FirstElement(es, id, data)
  {
    if es != [] {
      FirstDataIs(es[1..], id, data);
      if FirstElement(es[1..], id, data) && es[0].id != id {
        var i :| 0 <= i < |es| - 1 && es[1..][i] == Element(id, data) && forall j :: 0 <= j < i ==> es[1..][j].id != id;
        assert es[i + 1] == Element(id, data) && forall j :: 0 <= j < i + 1 ==> es[j].id != id;
      }
      if FirstElement(es, id, data) && es[0].id != id {
        var i :| 0 <= i < |es| && es[i] == Element(id, data) && forall j :: 0 <= j < i ==> es[j].id != id;
        assert es[1..][i - 1] == Element(id, data) && forall j :: 0 <= j < i - 1 ==> es[1..][j] == es[j + 1];
      }
    }
  }

  /** Exactly which results are filed, and under which key: the result is recent enough; it has an SSID
      of at most 32 octets; it has a P2P element if the interface is for a P2P group, and is no P2P
      listen discovery; and the key is its address with the mesh identifier, if there is one that could
      be an SSID, or with the SSID. */
  lemma FiledExactly(env: Env, res: ScanRes, fetch: Time, key: Key)
    ensures ResultKey(env, res, fetch) == Some(key)
            <==> && key.bssid == res.bssid && RecentEnough(env, res, fetch)
                 && (env.p2pGroupInterface ==> HoldsP2p(res.ies))
                 && exists ssid :: HasSsid(res, ssid) && NameOf(res, ssid, key.ssid)
  {
    BeforeIsEarlier(UpdateTime(fetch, res.age), env.triggerTime);
    assert IsTooOld(env, res, fetch) <==> !RecentEnough(env, res, fetch);
    P2pIs(res.ies);
    var ssid, mesh := FirstData(ScanElements(res), SSID_ELEMENT), FirstData(ScanElements(res), MESH_ID);
    forall d ensures FirstElement(OwnElements(res), 0, d) <==> ssid == Some(d) {
      FirstDataIs(ScanElements(res), SSID_ELEMENT, d);
    }
    forall d ensures MeshId(res, d) <==> mesh == Some(d) && |d| <= 32 {
      FirstDataIs(ScanElements(res), MESH_ID, d);
    }
    assert mesh.Some? ==> (MeshId(res, mesh.value) <==> |mesh.value| <= 32);
    if ssid.Some? {
      var fits := |ssid.value| <= 32 && !(HoldsP2p(res.ies) && IsText(ssid.value, "DIRECT-"));
      WildcardIs(ssid.value);
      assert forall d :: HasSsid(res, d) <==> d == ssid.value && fits;
      assert fits ==> HasSsid(res, ssid.value);
    }
  }

  /** The octets are those of a text. */
  predicate IsText(d: Octets, s: string) {
    |d| == |s| && forall i :: 0 <= i < |s| ==> d[i] == s[i] as int
  }

  lemma WildcardIs(d: Octets)
    ensures IsText(d, "DIRECT-") <==> d == P2P_WILDCARD_SSID
  {
  }

  /** The result has this SSID, element 0, and it is not that of a P2P listen discovery. */
  ghost predicate HasSsid(res: ScanRes, ssid: Octets) {
    && FirstElement(OwnElements(res), 0, ssid) && |ssid| <= 32
    && !(HoldsP2p(res.ies) && IsText(ssid, "DIRECT-"))
  }

  /** The name of the network: the mesh identifier, if there is one, or the SSID. */
  ghost predicate NameOf(res: ScanRes, ssid: Octets, name: Octets) {
    if exists mesh :: MeshId(res, mesh) then MeshId(res, name) else name == ssid
  }

  // ----- the filter for addresses

  /** Without a filter every address passes. */
  predicate Passes(filter: Option<seq<Octets>>, bssid: Octets) {
    filter.None? || bssid in filter.value
  }

  method FilterMatch(filter: Option<seq<Octets>>, bssid: Octets) returns (r: bool)
    ensures r == Passes(filter, bssid)
  {
    if filter == None {
      return true;
    }
    var i := 0;
    while i < |filter.value| && filter.value[i] != bssid
      invariant i <= |filter.value| && bssid !in filter.value[..i]
    {
      i := i + 1;
    }
    assert filter.value[..|filter.value|] == filter.value;
    return i < |filter.value|;
  }

  function Filtered(filter: Option<seq<Octets>>, results: seq<ScanRes>): seq<ScanRes> {
    if results == [] then []
    else (if Passes(filter, results[0].bssid) then [results[0]] else []) + Filtered(filter, results[1..])
  }

  /** Only results that pass are left, and all of them. */
  lemma {:induction false} FilteredMembers(filter: Option<seq<Octets>>, results: seq<ScanRes>, res: ScanRes)
    ensures res in Filtered(filter, results) <==> res in results && (filter == None || res.bssid in filter.value)
  {
    if results != [] {
      FilteredMembers(filter, results[1..], res);
      assert res in results <==> res == results[0] || res in results[1..];
    }
  }

  lemma FilteredNext(filter: Option<seq<Octets>>, s: seq<ScanRes>, i: nat)
    requires i < |s|
    ensures Filtered(filter, s[..i + 1])
            == Filtered(filter, s[..i]) + if Passes(filter, s[i].bssid) then [s[i]] else []
  {
    assert s[..i + 1] == s[..i] + [s[i]];
    FilteredConcat(filter, s[..i], [s[i]]);
  }

  lemma {:induction false} FilteredConcat(filter: Option<seq<Octets>>, a: seq<ScanRes>, b: seq<ScanRes>)
    ensures Filtered(filter, a + b) == Filtered(filter, a) + Filtered(filter, b)
  {
    if a == [] {
      assert a + b == b;
    } else {
      assert (a + b)[1..] == a[1..] + b;
      FilteredConcat(filter, a[1..], b);
      var head := if Passes(filter, a[0].bssid) then [a[0]] else [];
      assert (head + Filtered(filter, a[1..])) + Filtered(filter, b)
          == head + (Filtered(filter, a[1..]) + Filtered(filter, b));
    }
  }

  /** The results as the driver hands them over; the places of results that are freed become empty. */
  class ScanResults {
    var res: array<Option<ScanRes>>
    var num: nat

    ghost predicate Valid()
      reads this, res
    {
      num <= res.Length && forall i :: 0 <= i < num ==> res[i].Some?
    }

    ghost function Contents(): (s: seq<ScanRes>)
      reads this, res
      requires Valid()
      ensures |s| == num && forall i :: 0 <= i < num ==> res[i] == Some(s[i])
    {
      seq(num, i requires 0 <= i < num reads this, res requires Valid() => res[i].value)
    }

    constructor (results: seq<ScanRes>)
      ensures Valid() && fresh(res) && Contents() == results
    {
      res := new Option<ScanRes>[|results|](i requires 0 <= i < |results| => Some(results[i]));
      num := |results|;
    }

    /** Keeps the results that pass, moved together, in their order. */
    method Filter(filter: Option<seq<Octets>>)
      requires Valid()
      modifies this`num, res
      ensures Valid() && res == old(res) && Contents() == Filtered(filter, old(Contents()))
    {
      ghost var s := Contents();
      if filter == None {
        NothingFiltered(s);
        return;
      }
      var i, j := 0, 0;
      while i < num
        invariant j <= i <= num == |s| && res == old(res) && num <= res.Length
        invariant forall k :: i <= k < num ==> res[k] == Some(s[k])
        invariant j == |Filtered(filter, s[..i])|
        invariant forall k :: 0 <= k < j ==> res[k] == Some(Filtered(filter, s[..i])[k])
      {
        FilteredNext(filter, s, i);
        var passes := FilterMatch(filter, res[i].value.bssid);
        if passes {
          res[j] := res[i];
          j := j + 1;
        } else {
          res[i] := None;
        }
        i := i + 1;
      }
      assert s[..i] == s;
      num := j;
    }
  }

  lemma {:induction false} NothingFiltered(s: seq<ScanRes>)
    ensures Filtered(None, s) == s
  {
    if s != [] {
      NothingFiltered(s[1..]);
    }
  }
}
