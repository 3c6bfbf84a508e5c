/** What each operation on the table of scanned networks does to the table as a whole.
    A `Bss` object stands for the address of an entry; `Table.heap` holds the live entries. */
module BssModel {
  import opened Wrappers
  import opened Elements
  import opened RelTime
  import opened Seqs

  const ZERO_ADDR: Octets := [0, 0, 0, 0, 0, 0]
  const SSID_MAX_LEN := 32
  const P2P_WILDCARD_SSID: Octets := [68, 73, 82, 69, 67, 84, 45]  // "DIRECT-"

  /** The fields that one scan result copies over as a block. */
  datatype Fields = Fields(flags: nat, freq: int, beaconInt: nat, caps: nat, qual: int,
                           noise: int, level: int, tsf: nat, estThroughput: nat, snr: int)

  /** The ASSOCIATED flag is bit 5, both in scan results and in table entries. */
  predicate Associated(f: Fields) {
    (f.flags / 32) % 2 == 1
  }

  datatype ScanRes = ScanRes(bssid: Octets, fields: Fields, age: nat, ies: Octets, beaconIes: Octets)

  datatype Key = Key(bssid: Octets, ssid: Octets)

  datatype Entry = Entry(id: nat, missCount: nat, lastUpdateIdx: nat, bssid: Octets, ssid: Octets,
                         fields: Fields, lastUpdate: Time, ies: Octets, beaconIes: Octets)

  function KeyOf(e: Entry): Key {
    Key(e.bssid, e.ssid)
  }

  /** A table entry as it is kept in memory. */
  class Bss {
    var id: nat
    var scanMissCount: nat
    var lastUpdateIdx: nat
    var bssid: Octets
    var ssid: Octets
    var fields: Fields
    var lastUpdate: Time
    var ies: Octets
    var beaconIes: Octets

    ghost function Val(): Entry
      reads this
    {
      Entry(id, scanMissCount, lastUpdateIdx, bssid, ssid, fields, lastUpdate, ies, beaconIes)
    }

    constructor (e: Entry)
      ensures Val() == e
    {
      id, scanMissCount, lastUpdateIdx := e.id, e.missCount, e.lastUpdateIdx;
      bssid, ssid, fields, lastUpdate := e.bssid, e.ssid, e.fields, e.lastUpdate;
      ies, beaconIes := e.ies, e.beaconIes;
    }
  }

  datatype Work = Work(bss: Bss?, bssRemoved: bool)

  datatype Table = Table(heap: map<Bss, Entry>, bss: seq<Bss>, bssId: seq<Bss>, lastRes: seq<Bss?>,
                         num: int, nextId: nat, updateIdx: nat, maxCount: int,
                         current: Bss?, work: Option<Work>)

  /** What the rest of the program supplies: which entries match a configured network, which are
      candidates for WPS, which addresses pass the filter, and the settings that matter here. */
  datatype Env = Env(known: Entry -> bool, wpsCandidate: Entry -> bool, passes: Octets -> bool,
                     ignoreOld: bool, triggerTime: Time, p2pGroupInterface: bool,
                     ownBssid: Octets, pendingBssid: Octets, expirationCount: nat)

  datatype ScanInfo = NoInfo | Info(aborted: bool, freqs: seq<int>, ssids: seq<Octets>)

  // ----- reading a scan result

  /** The elements of a result; those of the Beacon frame stand in when there are no others. */
  function ScanElements(res: ScanRes): seq<Element> {
    Parse(if res.ies == [] then res.beaconIes else res.ies)
  }

  predicate IsTooOld(env: Env, res: ScanRes, fetch: Time) {
    env.ignoreOld && Before(UpdateTime(fetch, res.age), env.triggerTime)
  }

  /** The key under which a result is filed, or None when the result is not to be filed at all. */
  function ResultKey(env: Env, res: ScanRes, fetch: Time): Option<Key> {
    var ssid := FirstData(ScanElements(res), SSID_ELEMENT);
    var mesh := FirstData(ScanElements(res), MESH_ID);
    var p2p := HasVendor(Parse(res.ies), P2P_IE_VENDOR_TYPE);
    if IsTooOld(env, res, fetch) then None
    else if ssid.None? || |ssid.value| > SSID_MAX_LEN then None
    else if !p2p && env.p2pGroupInterface then None
    else if p2p && ssid.value == P2P_WILDCARD_SSID then None
    else if mesh.Some? && |mesh.value| <= SSID_MAX_LEN then Some(Key(res.bssid, mesh.value))
    else Some(Key(res.bssid, ssid.value))
  }

  // ----- reading the table

  /** The current entry, if there is one, is an entry of the table. */
  ghost predicate CurrentOk(t: Table) {
    t.current == null || t.current in t.heap
  }

  ghost predicate InUse(t: Table, env: Env, r: Bss)
    requires r in t.heap && CurrentOk(t)
  {
    r == t.current
    || ((t.current == null || t.heap[r].ssid == t.heap[t.current].ssid)
        && t.heap[r].bssid != ZERO_ADDR
        && (t.heap[r].bssid == env.ownBssid || t.heap[r].bssid == env.pendingBssid))
  }

  ghost function Unused(t: Table, env: Env): set<Bss>
    requires CurrentOk(t)
  {
    set r | r in t.heap && !InUse(t, env, r)
  }

  /** Entries that match no configured network and are no candidates for WPS. */
  ghost function Unknown(t: Table, env: Env): set<Bss> {
    set r | r in t.heap && !env.known(t.heap[r]) && !env.wpsCandidate(t.heap[r])
  }

  ghost function WithKey(t: Table, key: Key): set<Bss> {
    set r | r in t.heap && KeyOf(t.heap[r]) == key
  }

  /** The first node of a list that belongs to the given set. */
  ghost function FirstIn(s: seq<Bss>, good: set<Bss>): (r: Bss?)
    ensures r == null ==> forall x :: x in s ==> x !in good
    ensures r != null ==> r in good && exists i :: 0 <= i < |s| && s[i] == r && forall j :: 0 <= j < i ==> s[j] !in good
  {
    if s == [] then null
    else if s[0] in good then s[0]
    else
      var r := FirstIn(s[1..], good);
      assert r != null ==> exists i :: 0 <= i < |s| && s[i] == r && forall j :: 0 <= j < i ==> s[j] !in good by {
        if r != null {
          var i :| 0 <= i < |s[1..]| && s[1..][i] == r && forall j :: 0 <= j < i ==> s[1..][j] !in good;
          assert s[i + 1] == r && forall j :: 0 <= j < i + 1 ==> s[j] !in good;
        }
      }
      r
  }

  ghost function Find(t: Table, env: Env, key: Key): Bss? {
    if !env.passes(key.bssid) then null else FirstIn(t.bss, WithKey(t, key))
  }

  // ----- taking entries out

  ghost function RemoveAll(t: Table, dead: set<Bss>): Table {
    t.(heap := t.heap - dead, bss := Minus(t.bss, dead), bssId := Minus(t.bssId, dead),
       lastRes := Minus(t.lastRes, dead), num := t.num - (|t.bss| - |Minus(t.bss, dead)|),
       work := if t.work.Some? && t.work.value.bss != null && t.work.value.bss in dead
               then Some(Work(null, true)) else t.work)
  }

  /** Looking for an entry to evict reads the current entry only if the first pass finds nothing. */
  ghost predicate CanEvict(t: Table, env: Env) {
    FirstIn(t.bss, Unknown(t, env)) != null || CurrentOk(t)
  }

  /** The entry that makes room in a full table, if any may be taken. */
  ghost function Victim(t: Table, env: Env): Bss?
    requires CanEvict(t, env)
  {
    var first := FirstIn(t.bss, Unknown(t, env));
    if first != null then first else FirstIn(t.bss, Unused(t, env))
  }

  ghost predicate Full(t: Table) {
    t.num + 1 > t.maxCount
  }

  ghost predicate CanMakeRoom(t: Table, env: Env) {
    Full(t) ==> CanEvict(t, env)
  }

  ghost function MakeRoom(t: Table, env: Env): Table
    requires CanMakeRoom(t, env)
  {
    if !Full(t) then t
    else if Victim(t, env) != null then RemoveAll(t, {Victim(t, env)})
    else t.(maxCount := t.num + 1)
  }

  // ----- adding and refreshing entries

  ghost function NewEntry(t: Table, ssid: Octets, res: ScanRes, fetch: Time): Entry {
    Entry(t.nextId, 0, t.updateIdx, res.bssid, ssid, res.fields, UpdateTime(fetch, res.age),
          res.ies, res.beaconIes)
  }

  /** Appends a new entry to both lists and gives out the next id. */
  ghost function Insert(t: Table, r: Bss, e: Entry): Table {
    t.(heap := t.heap[r := e], bss := t.bss + [r], bssId := t.bssId + [r],
       num := t.num + 1, nextId := t.nextId + 1)
  }

  ghost function Add(t: Table, env: Env, ssid: Octets, res: ScanRes, fetch: Time, r: Bss): Table
    requires CanMakeRoom(t, env)
  {
    Insert(MakeRoom(t, env), r, NewEntry(t, ssid, res, fetch))
  }

  /** Of several results for one entry in one round, only a more current one is taken over. */
  predicate Superseded(e: Entry, res: ScanRes, fetch: Time) {
    Associated(e.fields)
    || (!Associated(res.fields) && !Before(e.lastUpdate, UpdateTime(fetch, res.age)))
  }

  ghost predicate Ignored(t: Table, r: Bss, res: ScanRes, fetch: Time)
    requires r in t.heap
  {
    t.heap[r].lastUpdateIdx == t.updateIdx && Superseded(t.heap[r], res, fetch)
  }

  /** The elements are kept when taking over the new ones would lose the P2P element. */
  predicate KeepsIes(e: Entry, res: ScanRes) {
    HasVendor(Parse(e.ies), P2P_IE_VENDOR_TYPE) && !HasVendor(Parse(res.ies), P2P_IE_VENDOR_TYPE)
  }

  predicate Grows(e: Entry, res: ScanRes) {
    !KeepsIes(e, res) && |e.ies| + |e.beaconIes| < |res.ies| + |res.beaconIes|
  }

  function Refreshed(e: Entry, updateIdx: nat, res: ScanRes, fetch: Time): Entry {
    var e' := e.(missCount := 0, lastUpdateIdx := updateIdx, bssid := res.bssid, fields := res.fields,
                 lastUpdate := UpdateTime(fetch, res.age));
    if KeepsIes(e, res) then e' else e'.(ies := res.ies, beaconIes := res.beaconIes)
  }

  /** The refreshed entry lives at `r'` (which is `r` unless it had to be reallocated), goes to the
      end of the recency list, and every pointer to it follows. */
  ghost function Move(t: Table, r: Bss, r': Bss, e: Entry): Table {
    t.(heap := (t.heap - {r})[r' := e], bss := Minus(t.bss, {r}) + [r'], bssId := Renamed(t.bssId, r, r'),
       lastRes := Renamed(t.lastRes, r, r'),
       current := if t.current == r then r' else t.current,
       work := if t.work.Some? && t.work.value.bss == r then Some(t.work.value.(bss := r')) else t.work)
  }

  ghost function Relocated(t: Table, r: Bss, res: ScanRes, spare: Bss): Bss
    requires r in t.heap
  {
    if Grows(t.heap[r], res) then spare else r
  }

  ghost function Update(t: Table, r: Bss, res: ScanRes, fetch: Time, spare: Bss): Table
    requires r in t.heap
  {
    if Ignored(t, r, res, fetch) then t
    else Move(t, r, Relocated(t, r, res, spare), Refreshed(t.heap[r], t.updateIdx, res, fetch))
  }

  /** Puts an entry among those seen in this round, unless it is there already. */
  ghost function Record(t: Table, r: Bss): Table {
    if r in t.lastRes then t else t.(lastRes := t.lastRes + [r])
  }

  /** Filing a result reads the current entry only when it comes to the second pass of an eviction. */
  ghost predicate CanFile(t: Table, env: Env, res: ScanRes, fetch: Time) {
    var key := ResultKey(env, res, fetch);
    key.Some? && Find(t, env, key.value) == null ==> CanMakeRoom(t, env)
  }

  ghost function UpdateScanRes(t: Table, env: Env, res: ScanRes, fetch: Time, spare: Bss): Table
    requires CanFile(t, env, res, fetch)
  {
    match ResultKey(env, res, fetch)
    case None => t
    case Some(key) =>
      var r := Find(t, env, key);
      if r == null then Record(Add(t, env, key.ssid, res, fetch, spare), spare)
      else Record(Update(t, r, res, fetch, spare),
                  if Ignored(t, r, res, fetch) then r else Relocated(t, r, res, spare))
  }

  // ----- changes from outside

  /** Marks an entry as part of an OWE transition, by bit 7 of its flags. */
  function WithOweFlag(f: Fields): (r: Fields)
    ensures Associated(r) <==> Associated(f)
  {
    assert (f.flags + 128) / 32 == f.flags / 32 + 4;
    if (f.flags / 128) % 2 == 1 then f else f.(flags := f.flags + 128)
  }

  /** The rest of the program gives a hidden entry its name, and changes some of the copied fields. */
  ghost function Amend(t: Table, r: Bss, ssid: Octets, change: Fields -> Fields): Table
    requires r in t.heap
  {
    t.(heap := t.heap[r := t.heap[r].(ssid := ssid, fields := change(t.heap[r].fields))])
  }

  // ----- rounds

  ghost function UpdateStart(t: Table): Table {
    t.(updateIdx := t.updateIdx + 1, lastRes := [])
  }

  predicate IncludedInScan(e: Entry, info: ScanInfo) {
    info.NoInfo?
    || ((info.freqs == [] || e.fields.freq in info.freqs)
        && (info.ssids == [] || exists s :: s in info.ssids && (s == [] || s == e.ssid)))
  }

  predicate Expires(info: ScanInfo, newScan: bool) {
    newScan && !(info.Info? && info.aborted)
  }

  /** Entries the scan covered, that are not in use: only these can expire. */
  ghost function Covered(t: Table, env: Env, info: ScanInfo): set<Bss>
    requires CurrentOk(t)
  {
    set r | r in t.heap && !InUse(t, env, r) && IncludedInScan(t.heap[r], info)
  }

  /** The covered entries that were not seen in this round. */
  ghost function Missed(t: Table, env: Env, info: ScanInfo): set<Bss>
    requires CurrentOk(t)
  {
    set r | r in Covered(t, env, info) && t.heap[r].lastUpdateIdx < t.updateIdx
  }

  /** Adds one miss to each entry of the set. */
  ghost function Bump(t: Table, missed: set<Bss>): Table {
    t.(heap := map r | r in t.heap ::
         if r in missed then t.heap[r].(missCount := t.heap[r].missCount + 1) else t.heap[r])
  }

  ghost function Dropped(t: Table, env: Env, info: ScanInfo): set<Bss>
    requires CurrentOk(t)
  {
    set r | r in Covered(t, env, info)
            && t.heap[r].missCount + (if r in Missed(t, env, info) then 1 else 0) >= env.expirationCount
  }

  ghost function UpdateEnd(t: Table, env: Env, info: ScanInfo, newScan: bool): Table
    requires Expires(info, newScan) ==> CurrentOk(t)
  {
    if !Expires(info, newScan) then t
    else RemoveAll(Bump(t, Missed(t, env, info)), Dropped(t, env, info))
  }

  // ----- flushing

  ghost function Flush(t: Table, env: Env): Table
    requires CurrentOk(t)
  {
    RemoveAll(t, Unused(t, env))
  }

  ghost predicate OlderThan(t: Table, r: Bss, cut: Time)
    requires r in t.heap
  {
    Before(t.heap[r].lastUpdate, cut)
  }

  /** Going through the recency list stops at the first entry that is neither in use nor old. */
  ghost function Aged(t: Table, env: Env, s: seq<Bss>, cut: Time): set<Bss>
    requires CurrentOk(t) && forall r :: r in s ==> r in t.heap
  {
    if s == [] then {}
    else if InUse(t, env, s[0]) then Aged(t, env, s[1..], cut)
    else if OlderThan(t, s[0], cut) then {s[0]} + Aged(t, env, s[1..], cut)
    else {}
  }

  ghost function FlushByAge(t: Table, env: Env, cut: Time): Table
    requires CurrentOk(t) && forall r :: r in t.bss ==> r in t.heap
  {
    RemoveAll(t, Aged(t, env, t.bss, cut))
  }
}
