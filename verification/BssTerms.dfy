/** Terms of the table, said of single fields and octets. */
module BssTerms {
  import opened Elements
  import opened BssModel

  /** The current entry, or one with the address of the association, or of the one under way, unless the
      current entry has another SSID; the address of zeros counts for nothing. */
  ghost predicate Protected(t: Table, env: Env, q: Bss)
    requires q in t.heap
  {
    || q == t.current
    || ((t.heap[q].bssid == env.ownBssid || t.heap[q].bssid == env.pendingBssid)
        && t.heap[q].bssid != [0, 0, 0, 0, 0, 0]
        && (t.current == null || (t.current in t.heap && t.heap[t.current].ssid == t.heap[q].ssid)))
  }

  lemma InUseIs(t: Table, env: Env, q: Bss)
    requires q in t.heap && CurrentOk(t)
    ensures InUse(t, env, q) <==> Protected(t, env, q)
  {
  }

  /** The scan asked for the frequency of the entry and for its network, by name or by wildcard, as far
      as it asked for particular ones. */
  ghost predicate AskedFor(e: Entry, info: ScanInfo) {
    info.Info? ==>
      && (|info.freqs| > 0 ==> exists i :: 0 <= i < |info.freqs| && info.freqs[i] == e.fields.freq)
      && (|info.ssids| > 0 ==> exists i :: 0 <= i < |info.ssids| && (|info.ssids[i]| == 0 || info.ssids[i] == e.ssid))
  }

  lemma IncludedIs(e: Entry, info: ScanInfo)
    ensures IncludedInScan(e, info) <==> AskedFor(e, info)
  {
    if info.Info? {
      if n :| n in info.ssids && (n == [] || n == e.ssid) {
        var i :| 0 <= i < |info.ssids| && info.ssids[i] == n;
        assert |info.ssids[i]| == 0 || info.ssids[i] == e.ssid;
      }
      if i :| 0 <= i < |info.ssids| && (|info.ssids[i]| == 0 || info.ssids[i] == e.ssid) {
        assert info.ssids[i] in info.ssids && (info.ssids[i] == [] || info.ssids[i] == e.ssid);
      }
    }
  }

  /** The elements hold one of the vendor-specific identifier 221 that begins with the octets of the P2P
      type, 50-6f-9a and 9. */
  ghost predicate HoldsP2p(ies: Octets) {
    exists e :: e in Parse(ies) && e.id == 221 && |e.data| >= 4
                && e.data[0] == 0x50 && e.data[1] == 0x6f && e.data[2] == 0x9a && e.data[3] == 9
  }

  lemma P2pIs(ies: Octets)
    ensures HasVendor(Parse(ies), P2P_IE_VENDOR_TYPE) <==> HoldsP2p(ies)
  {
    forall e: Element | |e.data| >= 4
      ensures Be32(e.data) == P2P_IE_VENDOR_TYPE
              <==> e.data[0] == 0x50 && e.data[1] == 0x6f && e.data[2] == 0x9a && e.data[3] == 9
    {
      P2pType(e.data);
    }
  }

  /** Bit 5 of the flags. */
  predicate Bit5(f: Fields) {
    f.flags % 64 >= 32
  }

  lemma AssociatedIs(f: Fields)
    ensures Associated(f) <==> Bit5(f)
  {
    assert f.flags / 32 == 2 * (f.flags / 64) + (f.flags % 64) / 32;
  }

  /** Setting bit 7 leaves the other bits, and the other fields, as they are. */
  lemma OweFlagIsBit7(f: Fields) returns (high: nat, low: nat)
    ensures low < 128 && WithOweFlag(f) == f.(flags := 256 * high + 128 + low)
    ensures f.flags == 256 * high + low || f.flags == 256 * high + 128 + low
  {
    high, low := f.flags / 256, f.flags % 128;
    assert f.flags / 128 == 2 * high + f.flags / 128 % 2;
  }
}
