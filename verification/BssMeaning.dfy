/** What the operations on the table do, said of fields and positions alone: which entries stay, what they
    hold afterwards, and where they stand. */
module BssMeaning {
  import opened Wrappers
  import opened Elements
  import opened RelTime
  import opened Seqs
  import opened BssModel
  import opened BssInvariant
  import opened BssTerms
  import opened BssGuarantees

  // ----- entries in use

  /** Flushing takes exactly the entries that are not protected, and leaves the others as they are. */
  lemma FlushExactly(t: Table, env: Env, q: Bss)
    requires Inv(t) && CurrentOk(t)
    ensures var u := Flush(t, env);
            && (q in u.heap <==> q in t.heap && Protected(t, env, q))
            && (q in u.heap ==> u.heap[q] == t.heap[q])
  {
    if q in t.heap {
      InUseIs(t, env, q);
    }
  }

  /** Flushing by age takes exactly the entries that are neither protected nor young, and stand behind no
      entry that is young and not protected. */
  lemma FlushByAgeExactly(t: Table, env: Env, cut: Time, i: nat)
    requires Inv(t) && CurrentOk(t) && i < |t.bss|
    ensures var u, q := FlushByAge(t, env, cut), t.bss[i];
            && (q !in u.heap <==>
                  !Protected(t, env, q) && Micros(t.heap[q].lastUpdate) < Micros(cut)
                  && forall j :: 0 <= j < i ==>
                       Protected(t, env, t.bss[j]) || Micros(t.heap[t.bss[j]].lastUpdate) < Micros(cut))
            && (q in u.heap ==> u.heap[q] == t.heap[q])
  {
    AgedAt(t, env, t.bss, cut, i);
    forall j | 0 <= j <= i ensures t.bss[j] in t.heap {
    }
    forall j | 0 <= j <= i
      ensures InUse(t, env, t.bss[j]) <==> Protected(t, env, t.bss[j])
      ensures OlderThan(t, t.bss[j], cut) <==> Micros(t.heap[t.bss[j]].lastUpdate) < Micros(cut)
    {
      InUseIs(t, env, t.bss[j]);
      BeforeIsEarlier(t.heap[t.bss[j]].lastUpdate, cut);
    }
  }

  lemma {:induction false} AgedAt(t: Table, env: Env, s: seq<Bss>, cut: Time, i: nat)
    requires CurrentOk(t) && (forall r :: r in s ==> r in t.heap) && Distinct(s) && i < |s|
    ensures s[i] in Aged(t, env, s, cut)
            <==> !InUse(t, env, s[i]) && OlderThan(t, s[i], cut)
                 && forall j :: 0 <= j < i ==> InUse(t, env, s[j]) || OlderThan(t, s[j], cut)
  {
    AgedUnused(t, env, s, cut);
    AgedUnused(t, env, s[1..], cut);
    if i > 0 {
      AgedAt(t, env, s[1..], cut, i - 1);
      assert s[i] == s[1..][i - 1] && s[i] != s[0];
      var passed := InUse(t, env, s[0]) || OlderThan(t, s[0], cut);
      if forall j :: 0 <= j < i - 1 ==> InUse(t, env, s[1..][j]) || OlderThan(t, s[1..][j], cut) {
        forall j | 0 < j < i ensures InUse(t, env, s[j]) || OlderThan(t, s[j], cut) {
          assert s[j] == s[1..][j - 1];
        }
      }
      if passed && forall j :: 0 <= j < i ==> InUse(t, env, s[j]) || OlderThan(t, s[j], cut) {
        forall j | 0 <= j < i - 1 ensures InUse(t, env, s[1..][j]) || OlderThan(t, s[1..][j], cut) {
          assert s[1..][j] == s[j + 1];
        }
      }
    }
  }

  // ----- taking an entry out

  /** Removing one entry takes its node out of both lists and, if it is there, out of the results, moving
      those behind it down; and cuts off and marks the pending work if that points to it. */
  lemma RemoveExactly(t: Table, i: nat, j: nat, k: nat)
    requires Inv(t) && i < |t.bss| && j < |t.bssId| && t.bssId[j] == t.bss[i]
    requires k <= |t.lastRes| && t.bss[i] !in t.lastRes[..k] && (k < |t.lastRes| ==> t.lastRes[k] == t.bss[i])
    ensures var b := t.bss[i];
            RemoveAll(t, {b})
            == t.(heap := t.heap - {b}, bss := t.bss[..i] + t.bss[i + 1..], bssId := t.bssId[..j] + t.bssId[j + 1..],
                  lastRes := if k < |t.lastRes| then t.lastRes[..k] + t.lastRes[k + 1..] else t.lastRes,
                  num := t.num - 1,
                  work := if t.work.Some? && t.work.value.bss == b then Some(Work(null, true)) else t.work)
  {
    var b := t.bss[i];
    UnlinkAt(t.bss, i);
    UnlinkAt(t.bssId, j);
    if k < |t.lastRes| {
      UnlinkAt(t.lastRes, k);
    } else {
      assert t.lastRes[..k] == t.lastRes;
      MinusNothing<Bss?>(t.lastRes, {b});
    }
  }

  // ----- making room

  /** Room for one more: nothing is done while there is some. */
  lemma RoomThere(t: Table, env: Env)
    requires t.num < t.maxCount
    ensures CanMakeRoom(t, env) && MakeRoom(t, env) == t
  {
  }

  /** Otherwise the first entry goes that is neither known nor a candidate for WPS, in use or not. */
  lemma UnknownGoes(t: Table, env: Env, i: nat)
    requires Inv(t) && t.num >= t.maxCount && i < |t.bss|
    requires !env.known(t.heap[t.bss[i]]) && !env.wpsCandidate(t.heap[t.bss[i]])
    requires forall j :: 0 <= j < i ==> env.known(t.heap[t.bss[j]]) || env.wpsCandidate(t.heap[t.bss[j]])
    ensures CanMakeRoom(t, env) && MakeRoom(t, env) == RemoveAll(t, {t.bss[i]})
  {
    FirstInAt(t.bss, Unknown(t, env), i);
  }

  /** Where there is none, the first entry goes that is not protected; and where there is none of these
      either, the limit is raised. */
  lemma UnprotectedGoes(t: Table, env: Env, i: nat)
    requires Inv(t) && CurrentOk(t) && t.num >= t.maxCount && i <= |t.bss|
    requires forall q :: q in t.heap ==> env.known(t.heap[q]) || env.wpsCandidate(t.heap[q])
    requires i < |t.bss| ==> !Protected(t, env, t.bss[i])
    requires forall j :: 0 <= j < i ==> Protected(t, env, t.bss[j])
    ensures MakeRoom(t, env) == if i < |t.bss| then RemoveAll(t, {t.bss[i]}) else t.(maxCount := t.num + 1)
  {
    assert Unknown(t, env) == {};
    forall j | 0 <= j <= i && j < |t.bss| ensures t.bss[j] in t.heap {
    }
    forall j | 0 <= j <= i && j < |t.bss| ensures InUse(t, env, t.bss[j]) <==> Protected(t, env, t.bss[j]) {
      InUseIs(t, env, t.bss[j]);
    }
    FirstInAt(t.bss, Unused(t, env), i);
  }

  // ----- filing a result

  /** The entry that a lookup finds: the first in the recency list with this address and this SSID, if
      the address passes the filter. */
  lemma FoundAt(t: Table, env: Env, key: Key, i: nat)
    requires Lists(t) && i <= |t.bss|
    requires i < |t.bss| ==> t.heap[t.bss[i]].bssid == key.bssid && t.heap[t.bss[i]].ssid == key.ssid
    requires forall j :: 0 <= j < i ==> t.heap[t.bss[j]].bssid != key.bssid || t.heap[t.bss[j]].ssid != key.ssid
    ensures Find(t, env, key) == if env.passes(key.bssid) && i < |t.bss| then t.bss[i] else null
  {
    FirstInAt(t.bss, WithKey(t, key), i);
  }

  /** The entry was seen in the round, and what it holds is from an associated result, or the result is
      not from one and no newer. */
  ghost predicate LessCurrent(t: Table, r: Bss, res: ScanRes, fetch: Time)
    requires r in t.heap
  {
    var e := t.heap[r];
    e.lastUpdateIdx == t.updateIdx
    && (Bit5(e.fields)
        || (!Bit5(res.fields) && Micros(fetch) - res.age * 1000 <= Micros(e.lastUpdate)))
  }

  lemma IgnoredIs(t: Table, r: Bss, res: ScanRes, fetch: Time)
    requires r in t.heap
    ensures Ignored(t, r, res, fetch) <==> LessCurrent(t, r, res, fetch)
  {
    AssociatedIs(t.heap[r].fields);
    AssociatedIs(res.fields);
    BeforeIsEarlier(t.heap[r].lastUpdate, UpdateTime(fetch, res.age));
  }

  /** A result that is not to be filed changes nothing. */
  lemma NotFiled(t: Table, env: Env, res: ScanRes, fetch: Time, spare: Bss)
    requires ResultKey(env, res, fetch) == None
    ensures CanFile(t, env, res, fetch) && UpdateScanRes(t, env, res, fetch, spare) == t
  {
  }

  /** Nor does one that is less current than what the entry found for it holds. */
  lemma LessCurrentIgnored(t: Table, env: Env, res: ScanRes, fetch: Time, spare: Bss, r: Bss)
    requires Inv(t) && ResultKey(env, res, fetch).Some? && r in t.heap
    requires Find(t, env, ResultKey(env, res, fetch).value) == r && LessCurrent(t, r, res, fetch)
    ensures CanFile(t, env, res, fetch) && UpdateScanRes(t, env, res, fetch, spare) == t
  {
    IgnoredIs(t, r, res, fetch);
  }

  /** The elements of the entry are kept only where it holds a P2P element and the result holds none. */
  ghost predicate KeepsOwn(e: Entry, res: ScanRes) {
    HoldsP2p(e.ies) && !HoldsP2p(res.ies)
  }

  /** Where an entry lives that takes over a result: where its elements need more room than the entry has,
      it gets new memory, and only then. */
  function NewPlace(e: Entry, res: ScanRes, r: Bss, spare: Bss): Bss {
    if |res.ies| + |res.beaconIes| > |e.ies| + |e.beaconIes| then spare else r
  }

  /** Any other result for an entry of the table is taken over, field by field; and all other entries are
      as they were. */
  lemma TakenOverExactly(t: Table, env: Env, res: ScanRes, fetch: Time, spare: Bss, r: Bss)
    requires Inv(t) && ResultKey(env, res, fetch).Some? && spare !in t.heap && r in t.heap
    requires Find(t, env, ResultKey(env, res, fetch).value) == r && !LessCurrent(t, r, res, fetch)
    ensures CanFile(t, env, res, fetch)
    ensures var u, e := UpdateScanRes(t, env, res, fetch, spare), t.heap[r];
            var keep := KeepsOwn(e, res);
            var r' := if keep then r else NewPlace(e, res, r, spare);
            && u.heap.Keys == t.heap.Keys - {r} + {r'}
            && (forall q :: q in t.heap && q != r ==> u.heap[q] == t.heap[q])
            && u.heap[r'].id == e.id && u.heap[r'].missCount == 0 && u.heap[r'].lastUpdateIdx == t.updateIdx
            && u.heap[r'].bssid == res.bssid && u.heap[r'].ssid == e.ssid && u.heap[r'].fields == res.fields
            && Micros(u.heap[r'].lastUpdate) == Micros(fetch) - res.age * 1000
            && u.heap[r'].ies == (if keep then e.ies else res.ies)
            && u.heap[r'].beaconIes == (if keep then e.beaconIes else res.beaconIes)
  {
    var e' := Refreshed(t.heap[r], t.updateIdx, res, fetch);
    TakenOverMoves(t, env, res, fetch, spare, r);
    RefreshedIs(t.heap[r], t.updateIdx, res, fetch);
    RelocatedIs(t, r, res, spare);
    MovedHeap(t, r, Relocated(t, r, res, spare), e');
  }

  lemma MovedHeap(t: Table, r: Bss, r': Bss, e: Entry)
    requires r in t.heap && (r' == r || r' !in t.heap)
    ensures var u := Record(Move(t, r, r', e), r');
            && u.heap.Keys == t.heap.Keys - {r} + {r'} && u.heap[r'] == e
            && forall q :: q in t.heap && q != r ==> u.heap[q] == t.heap[q]
  {
  }

  /** The entry goes to the end of the recency list; its place in the id list and among the results of the
      round stays, and every pointer follows. */
  lemma TakenOverPlaces(t: Table, env: Env, res: ScanRes, fetch: Time, spare: Bss, i: nat, j: nat)
    requires Inv(t) && ResultKey(env, res, fetch).Some? && spare !in t.heap
    requires i < |t.bss| && j < |t.bssId| && t.bssId[j] == t.bss[i]
    requires Find(t, env, ResultKey(env, res, fetch).value) == t.bss[i] && !LessCurrent(t, t.bss[i], res, fetch)
    ensures CanFile(t, env, res, fetch)
    ensures var u, r, e := UpdateScanRes(t, env, res, fetch, spare), t.bss[i], t.heap[t.bss[i]];
            var r' := if KeepsOwn(e, res) then r else NewPlace(e, res, r, spare);
            && u.bss == t.bss[..i] + t.bss[i + 1..] + [r'] && u.bssId == t.bssId[j := r']
            && SeenAs(t.lastRes, u.lastRes, r, r')
            && u.current == (if t.current == r then r' else t.current)
            && u.work == (if t.work.Some? && t.work.value.bss == r then Some(Work(r', t.work.value.bssRemoved))
                          else t.work)
            && u.num == t.num && u.nextId == t.nextId && u.updateIdx == t.updateIdx && u.maxCount == t.maxCount
  {
    var r, e := t.bss[i], t.heap[t.bss[i]];
    var r', e' := Relocated(t, r, res, spare), Refreshed(e, t.updateIdx, res, fetch);
    TakenOverMoves(t, env, res, fetch, spare, r);
    RelocatedIs(t, r, res, spare);
    MovedPlaces(t, r, r', e', i, j);
  }

  lemma TakenOverMoves(t: Table, env: Env, res: ScanRes, fetch: Time, spare: Bss, r: Bss)
    requires Inv(t) && ResultKey(env, res, fetch).Some? && r in t.heap
    requires Find(t, env, ResultKey(env, res, fetch).value) == r && !LessCurrent(t, r, res, fetch)
    ensures CanFile(t, env, res, fetch)
    ensures var r' := Relocated(t, r, res, spare);
            UpdateScanRes(t, env, res, fetch, spare)
            == Record(Move(t, r, r', Refreshed(t.heap[r], t.updateIdx, res, fetch)), r')
  {
    IgnoredIs(t, r, res, fetch);
  }

  /** The results of the round: the entry stands where it stood, or at the end if it was not there. */
  ghost predicate SeenAs(before: seq<Bss?>, after: seq<Bss?>, r: Bss, r': Bss) {
    if r in before
    then |after| == |before| && forall k :: 0 <= k < |before| ==> after[k] == if before[k] == r then r' else before[k]
    else after == before + [r']
  }

  lemma RefreshedIs(e: Entry, updateIdx: nat, res: ScanRes, fetch: Time)
    ensures var e', keep := Refreshed(e, updateIdx, res, fetch), KeepsOwn(e, res);
            && e'.id == e.id && e'.missCount == 0 && e'.lastUpdateIdx == updateIdx
            && e'.bssid == res.bssid && e'.ssid == e.ssid && e'.fields == res.fields
            && Micros(e'.lastUpdate) == Micros(fetch) - res.age * 1000
            && e'.ies == (if keep then e.ies else res.ies)
            && e'.beaconIes == (if keep then e.beaconIes else res.beaconIes)
  {
    P2pIs(e.ies);
    P2pIs(res.ies);
  }

  lemma RelocatedIs(t: Table, r: Bss, res: ScanRes, spare: Bss)
    requires r in t.heap
    ensures Relocated(t, r, res, spare)
            == if KeepsOwn(t.heap[r], res) then r else NewPlace(t.heap[r], res, r, spare)
  {
    P2pIs(t.heap[r].ies);
    P2pIs(res.ies);
  }

  lemma MovedPlaces(t: Table, r: Bss, r': Bss, e: Entry, i: nat, j: nat)
    requires Inv(t) && r in t.heap && (r' == r || r' !in t.heap)
    requires i < |t.bss| && t.bss[i] == r && j < |t.bssId| && t.bssId[j] == r
    ensures var u := Record(Move(t, r, r', e), r');
            && u.bss == t.bss[..i] + t.bss[i + 1..] + [r'] && u.bssId == t.bssId[j := r']
            && SeenAs(t.lastRes, u.lastRes, r, r')
  {
    UnlinkAt(t.bss, i);
    RecordedPlaces(t.lastRes, r, r');
  }

  lemma RecordedPlaces(s: seq<Bss?>, r: Bss, r': Bss)
    requires r' == r || r' !in s
    ensures var u := Renamed<Bss?>(s, r, r'); SeenAs(s, if r' in u then u else u + [r'], r, r')
  {
    var u := Renamed<Bss?>(s, r, r');
    if r in s {
      var k: nat :| k < |s| && s[k] == r;
      assert u[k] == r';
    } else {
      assert u == s;
    }
  }

  ghost predicate IsNewEntry(e: Entry, t: Table, ssid: Octets, res: ScanRes, fetch: Time) {
    && e.id == t.nextId && e.missCount == 0 && e.lastUpdateIdx == t.updateIdx
    && e.bssid == res.bssid && e.ssid == ssid && e.fields == res.fields
    && Micros(e.lastUpdate) == Micros(fetch) - res.age * 1000
    && e.ies == res.ies && e.beaconIes == res.beaconIes
  }

  /** A result for no entry of the table makes one, once there is room, at the end of both lists and of
      the results, with the next id. */
  lemma AddedExactly(t: Table, env: Env, res: ScanRes, fetch: Time, spare: Bss)
    requires Inv(t) && CanFile(t, env, res, fetch) && ResultKey(env, res, fetch).Some? && spare !in t.heap
    requires Find(t, env, ResultKey(env, res, fetch).value) == null
    ensures CanMakeRoom(t, env)
    ensures var u, m := UpdateScanRes(t, env, res, fetch, spare), MakeRoom(t, env);
            && u.heap.Keys == m.heap.Keys + {spare} && (forall q :: q in m.heap ==> u.heap[q] == m.heap[q])
            && IsNewEntry(u.heap[spare], t, ResultKey(env, res, fetch).value.ssid, res, fetch)
            && u.bss == m.bss + [spare] && u.bssId == m.bssId + [spare] && u.lastRes == m.lastRes + [spare]
            && u.num == m.num + 1 && u.nextId == t.nextId + 1
            && u.updateIdx == t.updateIdx && u.maxCount == m.maxCount && u.current == t.current && u.work == m.work
  {
    MakeRoomInv(t, env);
    assert MakeRoom(t, env).heap.Keys <= t.heap.Keys;
  }

  /** Learning the name of a hidden entry changes its name, and sets bit 7 of its flags, and nothing
      else. */
  lemma NamedExactly(t: Table, r: Bss, ssid: Octets) returns (high: nat, low: nat)
    requires r in t.heap
    ensures var e := t.heap[r];
            && low < 128 && (e.fields.flags == 256 * high + low || e.fields.flags == 256 * high + 128 + low)
            && Amend(t, r, ssid, WithOweFlag)
               == t.(heap := t.heap[r := e.(ssid := ssid, fields := e.fields.(flags := 256 * high + 128 + low))])
  {
    high, low := OweFlagIsBit7(t.heap[r].fields);
  }
}
