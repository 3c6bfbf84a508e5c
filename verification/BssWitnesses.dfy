/** Runs from the empty table, with the simplest scan results, that end where a property fails. */
module BssWitnesses {
  import opened Wrappers
  import opened Elements
  import opened RelTime
  import opened BssModel
  import opened BssInvariant
  import opened BssRuns
  import opened BssGuarantees

  /** A result with nothing but an SSID of one octet. */
  function Beacon(bssid: Octets, name: Byte, age: nat): ScanRes {
    ScanRes(bssid, Fields(0, 2412, 0, 0, 0, 0, 0, 0, 0, 0), age, [SSID_ELEMENT, 1, name], [])
  }

  /** The entry in use is none of this address. */
  predicate Plain(env: Env, bssid: Octets) {
    !env.ignoreOld && !env.p2pGroupInterface && bssid != env.ownBssid && bssid != env.pendingBssid
  }

  lemma BeaconIsFiled(env: Env, bssid: Octets, name: Byte, age: nat, fetch: Time)
    requires Plain(env, bssid)
    ensures ResultKey(env, Beacon(bssid, name, age), fetch) == Some(Key(bssid, [name]))
  {
    var ies: Octets := [SSID_ELEMENT, 1, name];
    assert ies[3..] == [] && Parse([]) == [];
    assert ies[2..3] == [name];
    assert Parse(ies) == [Element(SSID_ELEMENT, [name])] + Parse(ies[3..]);
    var es := [Element(SSID_ELEMENT, [name])];
    assert Parse(ies) == es && es[1..] == [];
    assert FirstData(es, MESH_ID) == None;
    forall e | e in es ensures !IsVendor(e, P2P_IE_VENDOR_TYPE) {
      assert e == es[0];
    }
  }

  function FirstRun(n: int, env: Env, res: ScanRes, fetch: Time, a: Bss): Run {
    Then(Then(Begin(n), Start), Result(env, res, fetch, a))
  }

  ghost function OneEntry(n: int, ssid: Octets, res: ScanRes, fetch: Time, a: Bss): Table {
    var t := UpdateStart(EmptyTable(n));
    Record(Insert(t, a, NewEntry(t, ssid, res, fetch)), a)
  }

  lemma OneEntryHolds(n: int, ssid: Octets, res: ScanRes, fetch: Time, a: Bss)
    ensures var t := OneEntry(n, ssid, res, fetch, a);
            && t.heap.Keys == {a} && t.bss == [a] && t.num == 1 && t.maxCount == n && t.current == null
            && KeyOf(t.heap[a]) == Key(res.bssid, ssid)
  {
  }

  lemma FirstTable(n: int, env: Env, res: ScanRes, fetch: Time, a: Bss)
    requires n >= 1 && ResultKey(env, res, fetch).Some?
    ensures Exec(FirstRun(n, env, res, fetch, a))
            == Some(OneEntry(n, ResultKey(env, res, fetch).value.ssid, res, fetch, a))
  {
    var start := Then(Begin(n), Start);
    assert Exec(Begin(n)) == Some(EmptyTable(n));
    var t := UpdateStart(EmptyTable(n));
    assert Exec(start) == Some(t);
    assert Find(t, env, ResultKey(env, res, fetch).value) == null;
  }

  ghost function TwoEntries(n: int, ssid: Octets, res: ScanRes, fetch: Time, a: Bss,
                            ssid': Octets, res': ScanRes, b: Bss): Table {
    var t := OneEntry(n, ssid, res, fetch, a);
    Record(Insert(t, b, NewEntry(t, ssid', res', fetch)), b)
  }

  lemma SecondTable(n: int, env: Env, res: ScanRes, fetch: Time, a: Bss, res': ScanRes, b: Bss)
    requires n >= 2 && a != b && ResultKey(env, res, fetch).Some? && ResultKey(env, res', fetch).Some?
    requires var key, key' := ResultKey(env, res, fetch).value, ResultKey(env, res', fetch).value;
             !env.passes(key'.bssid) || key' != Key(res.bssid, key.ssid)
    ensures var key, key' := ResultKey(env, res, fetch).value, ResultKey(env, res', fetch).value;
            Exec(Then(FirstRun(n, env, res, fetch, a), Result(env, res', fetch, b)))
            == Some(TwoEntries(n, key.ssid, res, fetch, a, key'.ssid, res', b))
  {
    var key, key' := ResultKey(env, res, fetch).value, ResultKey(env, res', fetch).value;
    FirstTable(n, env, res, fetch, a);
    var t := OneEntry(n, key.ssid, res, fetch, a);
    assert WithKey(t, key') == if key' == Key(res.bssid, key.ssid) then {a} else {};
    assert Find(t, env, key') == null;
    assert !Full(t);
    StepReaches(FirstRun(n, env, res, fetch, a), t, Result(env, res', fetch, b));
  }

  /** The command that files a result for tests does not filter: filing the same twice, for an address
      that the lookup filters, makes two entries of one key. */
  lemma UnfilteredTwice(n: int, env: Env, bssid: Octets, fetch: Time, a: Bss, b: Bss)
    requires n >= 2 && a != b && Plain(env, bssid) && !env.passes(bssid)
    ensures var res := Beacon(bssid, 1, 0);
            var run := Then(FirstRun(n, env, res, fetch, a), Result(env, res, fetch, b));
            Legal(run) && !KeysUnique(After(run))
  {
    var res := Beacon(bssid, 1, 0);
    BeaconIsFiled(env, bssid, 1, 0, fetch);
    SecondTable(n, env, res, fetch, a, res, b);
    var t := TwoEntries(n, [1], res, fetch, a, [1], res, b);
    assert a in t.heap && b in t.heap && KeyOf(t.heap[a]) == KeyOf(t.heap[b]);
  }

  /** A result that hides its name. */
  function Hidden(bssid: Octets): ScanRes {
    ScanRes(bssid, Fields(0, 2412, 0, 0, 0, 0, 0, 0, 0, 0), 0, [SSID_ELEMENT, 0], [])
  }

  lemma HiddenIsFiled(env: Env, bssid: Octets, fetch: Time)
    requires Plain(env, bssid)
    ensures ResultKey(env, Hidden(bssid), fetch) == Some(Key(bssid, []))
  {
    var ies: Octets := [SSID_ELEMENT, 0];
    var es := [Element(SSID_ELEMENT, [])];
    assert ies[2..2] == [] && ies[2..] == [] && Parse([]) == [];
    assert Parse(ies) == es && es[1..] == [];
    assert FirstData(es, MESH_ID) == None;
    forall e | e in es ensures !IsVendor(e, P2P_IE_VENDOR_TYPE) {
      assert e == es[0];
    }
  }

  /** A hidden entry gets the name that an open network tells for it; the next hidden result finds no
      hidden entry, makes another one, and that gets the same name: two entries of one key, although
      every result passes the filter. */
  lemma NamedTwice(n: int, env: Env, bssid: Octets, name: Octets, fetch: Time, a: Bss, b: Bss)
    requires n >= 2 && a != b && Plain(env, bssid) && name != []
    ensures var named := Then(FirstRun(n, env, Hidden(bssid), fetch, a), Change(a, name, WithOweFlag));
            var again := Then(Then(named, Start), Result(env, Hidden(bssid), fetch, b));
            var run := Then(again, Change(b, name, WithOweFlag));
            Legal(run) && KeysUnique(After(again)) && !KeysUnique(After(run))
  {
    var res := Hidden(bssid);
    HiddenIsFiled(env, bssid, fetch);
    FirstTable(n, env, res, fetch, a);
    var first := FirstRun(n, env, res, fetch, a);
    var t0 := OneEntry(n, [], res, fetch, a);
    var t1 := UpdateStart(Amend(t0, a, name, WithOweFlag));
    NamedAndStarted(first, t0, a, name);
    var next := Then(Then(first, Change(a, name, WithOweFlag)), Start);
    SecondHidden(t1, env, bssid, name, fetch, a, b);
    var t2 := UpdateScanRes(t1, env, res, fetch, b);
    StepReaches(next, t1, Result(env, res, fetch, b));
    NamedAgain(t2, bssid, name, a, b);
    StepReaches(Then(next, Result(env, res, fetch, b)), t2, Change(b, name, WithOweFlag));
  }

  lemma NamedAndStarted(run: Run, t: Table, a: Bss, name: Octets)
    requires Exec(run) == Some(t) && a in t.heap && t.heap[a].ssid == []
    ensures Exec(Then(Then(run, Change(a, name, WithOweFlag)), Start))
            == Some(UpdateStart(Amend(t, a, name, WithOweFlag)))
  {
    StepReaches(run, t, Change(a, name, WithOweFlag));
    StepReaches(Then(run, Change(a, name, WithOweFlag)), Amend(t, a, name, WithOweFlag), Start);
  }

  lemma NamedAgain(t: Table, bssid: Octets, name: Octets, a: Bss, b: Bss)
    requires KeysUnique(t) && a != b && a in t.heap && b in t.heap
    requires KeyOf(t.heap[a]) == Key(bssid, name) && t.heap[b].bssid == bssid
    ensures !KeysUnique(Amend(t, b, name, WithOweFlag))
  {
    ChangeUnique(t, b, name, WithOweFlag);
    assert a in WithKey(t, Key(bssid, name));
  }

  /** A hidden result beside one named entry of its address. */
  lemma SecondHidden(t: Table, env: Env, bssid: Octets, name: Octets, fetch: Time, a: Bss, b: Bss)
    requires Inv(t) && t.heap.Keys == {a} && !Full(t) && a != b && Plain(env, bssid) && name != []
    requires KeyOf(t.heap[a]) == Key(bssid, name)
    ensures CanFile(t, env, Hidden(bssid), fetch) && b !in t.heap
    ensures var u := UpdateScanRes(t, env, Hidden(bssid), fetch, b);
            && u.heap.Keys == {a, b} && u.heap[a] == t.heap[a] && KeyOf(u.heap[b]) == Key(bssid, []) && KeysUnique(u)
  {
    HiddenIsFiled(env, bssid, fetch);
    assert WithKey(t, Key(bssid, [])) == {};
    assert Find(t, env, Key(bssid, [])) == null;
  }

  /** With an expiration count of 0, the round drops the entry that was seen in it. */
  lemma ZeroCountDropsSeen(n: int, env: Env, bssid: Octets, fetch: Time, a: Bss)
    requires n >= 1 && Plain(env, bssid) && env.expirationCount == 0
    ensures var seen := FirstRun(n, env, Beacon(bssid, 1, 0), fetch, a);
            var run := Then(seen, End(env, NoInfo, true));
            Legal(run) && a in After(seen).lastRes && a !in After(run).heap
  {
    var res := Beacon(bssid, 1, 0);
    BeaconIsFiled(env, bssid, 1, 0, fetch);
    FirstTable(n, env, res, fetch, a);
    var t := OneEntry(n, [1], res, fetch, a);
    ZeroCountDrops(t, env, a);
    StepReaches(FirstRun(n, env, res, fetch, a), t, End(env, NoInfo, true));
  }

  lemma ZeroCountDrops(t: Table, env: Env, a: Bss)
    requires CurrentOk(t) && a in t.heap && !InUse(t, env, a) && env.expirationCount == 0
    ensures a !in UpdateEnd(t, env, NoInfo, true).heap
  {
    assert a in Dropped(t, env, NoInfo);
  }

  /** A new result and, in the same round, one of the same address that is ten seconds old. */
  function OldBehindNew(n: int, env: Env, bssid: Octets, fetch: Time, a: Bss, b: Bss): Run {
    Then(FirstRun(n, env, Beacon(bssid, 1, 0), fetch, a), Result(env, Beacon(bssid, 2, 10000), fetch, b))
  }

  lemma OldBehindNewTable(n: int, env: Env, bssid: Octets, fetch: Time, a: Bss, b: Bss)
    requires n >= 2 && a != b && Plain(env, bssid)
    ensures var run := OldBehindNew(n, env, bssid, fetch, a, b);
            && Legal(run) && var t := After(run);
               && t.bss == [a, b] && t.heap.Keys == {a, b} && t.current == null
               && t.heap[a].bssid == t.heap[b].bssid == bssid
               && Micros(t.heap[a].lastUpdate) == Micros(fetch)
               && Micros(t.heap[b].lastUpdate) == Micros(fetch) - 10000000
  {
    var res, res' := Beacon(bssid, 1, 0), Beacon(bssid, 2, 10000);
    BeaconIsFiled(env, bssid, 1, 0, fetch);
    BeaconIsFiled(env, bssid, 2, 10000, fetch);
    SecondTable(n, env, res, fetch, a, res', b);
    TwoEntriesHold(n, [1], res, fetch, a, [2], res', b);
  }

  lemma TwoEntriesHold(n: int, ssid: Octets, res: ScanRes, fetch: Time, a: Bss,
                       ssid': Octets, res': ScanRes, b: Bss)
    requires a != b
    ensures var t := TwoEntries(n, ssid, res, fetch, a, ssid', res', b);
            && t.bss == [a, b] && t.heap.Keys == {a, b} && t.current == null
            && t.heap[a].bssid == res.bssid && t.heap[b].bssid == res'.bssid
            && Micros(t.heap[a].lastUpdate) == Micros(fetch) - res.age * 1000
            && Micros(t.heap[b].lastUpdate) == Micros(fetch) - res'.age * 1000
  {
  }

  /** The two lookups by address differ. */
  lemma LookupsDiffer(n: int, env: Env, bssid: Octets, fetch: Time, a: Bss, b: Bss)
    requires n >= 2 && a != b && Plain(env, bssid)
    ensures var run := OldBehindNew(n, env, bssid, fetch, a, b);
            && Legal(run) && !TimeOrdered(After(run))
            && After(run).bss == [a, b] && IsLastOf(After(run), bssid, 1) && IsLatestOf(After(run), bssid, 0)
  {
    OldBehindNewTable(n, env, bssid, fetch, a, b);
  }

  /** Flushing what is older than five seconds leaves the old entry, since it stands behind. */
  lemma OldEntryStays(n: int, env: Env, bssid: Octets, fetch: Time, a: Bss, b: Bss)
    requires n >= 2 && a != b && Plain(env, bssid)
    ensures var cut: Time := RawTime(fetch.sec - 5, fetch.usec);
            var run := Then(OldBehindNew(n, env, bssid, fetch, a, b), FlushOld(env, cut));
            && Legal(run) && b in After(run).heap && OlderThan(After(run), b, cut)
            && After(run).current == null && b in Unused(After(run), env)
  {
    OldBehindNewTable(n, env, bssid, fetch, a, b);
    var seen := OldBehindNew(n, env, bssid, fetch, a, b);
    var cut: Time := RawTime(fetch.sec - 5, fetch.usec);
    YoungShields(After(seen), env, cut, a, b);
    StepReaches(seen, After(seen), FlushOld(env, cut));
  }

  lemma YoungShields(t: Table, env: Env, cut: Time, a: Bss, b: Bss)
    requires Inv(t) && t.bss == [a, b] && t.current == null && a in t.heap && b in t.heap
    requires Plain(env, t.heap[a].bssid) && Plain(env, t.heap[b].bssid)
    requires Micros(t.heap[b].lastUpdate) < Micros(cut) <= Micros(t.heap[a].lastUpdate)
    ensures FlushByAge(t, env, cut) == t && OlderThan(t, b, cut) && b in Unused(t, env)
  {
    BeforeIsEarlier(t.heap[a].lastUpdate, cut);
    BeforeIsEarlier(t.heap[b].lastUpdate, cut);
    assert Aged(t, env, t.bss, cut) == {};
    RemoveAllNothing(t);
  }

  /** The current entry, of no configured network, in a table of capacity one: the next new result
      leaves the current pointer without its entry. */
  lemma CurrentCanBeEvicted(env: Env, bssid: Octets, fetch: Time, a: Bss, b: Bss)
    requires a != b && Plain(env, bssid) && (forall e :: !env.known(e) && !env.wpsCandidate(e))
    ensures var run := Then(Then(FirstRun(1, env, Beacon(bssid, 1, 0), fetch, a), Select(a)),
                            Result(env, Beacon(bssid, 2, 0), fetch, b));
            Legal(run) && !CurrentOk(After(run))
  {
    var res, res' := Beacon(bssid, 1, 0), Beacon(bssid, 2, 0);
    BeaconIsFiled(env, bssid, 1, 0, fetch);
    BeaconIsFiled(env, bssid, 2, 0, fetch);
    FirstTable(1, env, res, fetch, a);
    var first, t := FirstRun(1, env, res, fetch, a), OneEntry(1, [1], res, fetch, a);
    StepReaches(first, t, Select(a));
    OneEntryHolds(1, [1], res, fetch, a);
    SoleCurrentEvicted(t.(current := a), env, Key(bssid, [2]), res', fetch, a, b);
    StepReaches(Then(first, Select(a)), t.(current := a), Result(env, res', fetch, b));
  }

  lemma SoleCurrentEvicted(t: Table, env: Env, key: Key, res: ScanRes, fetch: Time, a: Bss, b: Bss)
    requires Inv(t) && t.heap.Keys == {a} && t.bss == [a] && t.current == a && Full(t) && a != b
    requires !env.known(t.heap[a]) && !env.wpsCandidate(t.heap[a])
    requires ResultKey(env, res, fetch) == Some(key) && KeyOf(t.heap[a]) != key
    ensures CanFile(t, env, res, fetch) && b !in t.heap && !CurrentOk(UpdateScanRes(t, env, res, fetch, b))
  {
    SoleEntry(t, env, a, key);
    ResultKeepsCurrent(t, env, res, fetch, b);
  }

  lemma SoleEntry(t: Table, env: Env, a: Bss, key: Key)
    requires t.heap.Keys == {a} && t.bss == [a] && !env.known(t.heap[a]) && !env.wpsCandidate(t.heap[a])
    requires KeyOf(t.heap[a]) != key
    ensures Find(t, env, key) == null && FirstIn(t.bss, Unknown(t, env)) == a
  {
    assert WithKey(t, key) == {} && Unknown(t, env) == {a};
  }

  /** An entry seen in the first round and not in the second has one miss. */
  lemma MissedOnce(n: int, env: Env, bssid: Octets, fetch: Time, a: Bss)
    requires n >= 1 && Plain(env, bssid) && env.expirationCount >= 2
    ensures var run := Then(Then(FirstRun(n, env, Beacon(bssid, 1, 0), fetch, a), Start), End(env, NoInfo, true));
            && Legal(run) && a in After(run).heap
            && After(run).heap[a].missCount == 1 == Misses(run, After(run).heap[a].id)
  {
    BeaconIsFiled(env, bssid, 1, 0, fetch);
    FirstTable(n, env, Beacon(bssid, 1, 0), fetch, a);
    var first := FirstRun(n, env, Beacon(bssid, 1, 0), fetch, a);
    assert ExpirationIs(first, env.expirationCount);
    NextMissed(first, env, a);
  }
}
