/** The table of scanned networks: two lists over the same entries, the array of the results of the
    last scan, and the pointers into the table that have to follow every reallocation. */
module BssTable {
  import opened Wrappers
  import opened Elements
  import opened RelTime
  import opened Seqs
  import opened BssModel
  import opened BssInvariant
  import opened BssGuarantees
  import opened BssSweeps

  class ConnectWork {
    var bss: Bss?
    var bssRemoved: bool

    constructor (bss: Bss?)
      ensures this.bss == bss && !bssRemoved
    {
      this.bss := bss;
      bssRemoved := false;
    }
  }

  lemma UnlinkedOne(s: seq<Bss>, b: Bss)
    requires b in s && Distinct(s)
    ensures |Minus(s, {b})| == |s| - 1
  {
    var k: nat :| k < |s| && s[k] == b;
    UnlinkAt(s, k);
  }

  method IndexOf(s: seq<Bss>, b: Bss) returns (k: nat)
    requires b in s
    ensures k < |s| && s[k] == b && b !in s[..k]
  {
    k := 0;
    while s[k] != b
      invariant k < |s| && b !in s[..k]
      decreases |s| - k
    {
      assert s == s[..k] + [s[k]] + s[k + 1..];
      assert b in s[k + 1..];
      assert s[..k + 1] == s[..k] + [s[k]];
      k := k + 1;
    }
  }

  /** Takes one node out of a list. */
  method Unlink(s: seq<Bss>, b: Bss) returns (r: seq<Bss>)
    requires b in s && Distinct(s)
    ensures r == Minus(s, {b})
  {
    var k := IndexOf(s, b);
    UnlinkAt(s, k);
    r := s[..k] + s[k + 1..];
  }

  /** Pointers of the pending connect work to one entry are turned to another, or cut off. */
  ghost function Reconnected(t: BssModel.Table, oldBss: Bss, newBss: Bss?): BssModel.Table {
    if t.work.Some? && t.work.value.bss == oldBss
    then t.(work := Some(Work(newBss, newBss == null || t.work.value.bssRemoved)))
    else t
  }

  ghost function Forgotten(t: BssModel.Table, b: Bss): BssModel.Table {
    t.(lastRes := Minus(t.lastRes, {b}))
  }

  ghost function Unlinked(t: BssModel.Table, b: Bss): BssModel.Table {
    t.(heap := t.heap - {b}, bss := Minus(t.bss, {b}), bssId := Minus(t.bssId, {b}), num := t.num - 1)
  }

  lemma RemovedOne(t: BssModel.Table, b: Bss)
    requires Removable(t, b)
    ensures Unlinked(Reconnected(Forgotten(t, b), b, null), b) == RemoveAll(t, {b})
  {
    UnlinkedOne(t.bss, b);
  }

  lemma ForgottenAt(s: seq<Bss?>, b: Bss, i: nat)
    requires Distinct(s) && i <= |s| && b !in s[..i] && (i < |s| ==> s[i] == b)
    ensures Minus(s, {b}) == if i < |s| then s[..i] + s[i + 1..] else s
  {
    if i < |s| {
      UnlinkAt(s, i);
    } else {
      assert s[..i] == s;
      MinusNothing<Bss?>(s, {b});
    }
  }

  lemma ForgottenRemovable(t: BssModel.Table, b: Bss)
    requires Removable(t, b)
    ensures Removable(Reconnected(Forgotten(t, b), b, null), b)
  {
    MinusDistinct(t.lastRes, {b});
  }

  ghost function Evicted(t: BssModel.Table, v: Bss?): BssModel.Table {
    if v == null then t else RemoveAll(t, {v})
  }

  lemma VictimRemovable(t: BssModel.Table, env: Env)
    requires Lists(t) && Distinct(t.lastRes) && CanEvict(t, env)
    ensures Victim(t, env) != null ==> Removable(t, Victim(t, env))
  {
  }

  /** Giving out the next id first makes no difference to making room. */
  lemma RoomDespiteNextId(t: BssModel.Table, env: Env)
    requires Inv(t) && CanMakeRoom(t, env)
    ensures var u := t.(nextId := t.nextId + 1);
            Inv(u) && CanMakeRoom(u, env) && MakeRoom(u, env) == MakeRoom(t, env).(nextId := u.nextId)
  {
    NextIdInv(t);
    SameVictim(t, t.nextId + 1, env);
  }

  lemma NextIdInv(t: BssModel.Table)
    requires Inv(t)
    ensures Inv(t.(nextId := t.nextId + 1))
  {
  }

  lemma SameVictim(t: BssModel.Table, id: nat, env: Env)
    requires CanMakeRoom(t, env)
    ensures CanMakeRoom(t.(nextId := id), env)
    ensures MakeRoom(t.(nextId := id), env) == MakeRoom(t, env).(nextId := id)
  {
    var u := t.(nextId := id);
    assert Unknown(u, env) == Unknown(t, env);
    if CurrentOk(t) {
      assert Unused(u, env) == Unused(t, env);
    }
  }

  lemma AddedInOrder(t: BssModel.Table, env: Env, ssid: Octets, res: ScanRes, fetch: Time, b: Bss)
    requires Inv(t) && CanMakeRoom(t, env) && CanMakeRoom(t.(nextId := t.nextId + 1), env)
    ensures Insert(MakeRoom(t.(nextId := t.nextId + 1), env), b, NewEntry(t, ssid, res, fetch)).(nextId := t.nextId + 1)
            == Add(t, env, ssid, res, fetch, b)
  {
    RoomDespiteNextId(t, env);
  }

  lemma StillAbsent(t: BssModel.Table, env: Env, b: Bss)
    requires CanMakeRoom(t, env) && b !in t.bss
    ensures b !in MakeRoom(t, env).bss
  {
  }

  /** What the entries of a list hold. */
  ghost function HeapOf(s: seq<Bss>): map<Bss, Entry>
    reads s
  {
    map r | r in s :: r.Val()
  }

  lemma HeapUnlinked(s: seq<Bss>, b: Bss)
    ensures HeapOf(Minus(s, {b})) == HeapOf(s) - {b}
  {
  }

  lemma HeapAppended(s: seq<Bss>, b: Bss)
    ensures HeapOf(s + [b]) == HeapOf(s)[b := b.Val()]
  {
  }

  lemma MovedInPlace(t: BssModel.Table, b: Bss, e: Entry)
    ensures var u := t.(heap := t.heap[b := e]);
            u.(heap := (u.heap - {b})[b := e], bss := Minus(u.bss, {b}) + [b]) == Move(t, b, b, e)
  {
  }

  /** The results, the current pointer and the pending work all turned from one entry to another. */
  ghost function Repointed(t: BssModel.Table, b: Bss, nb: Bss): BssModel.Table {
    var u := t.(lastRes := Renamed(t.lastRes, b, nb));
    Reconnected(u.(current := if u.current == b then nb else u.current), b, nb)
  }

  lemma PointersFollow(t: BssModel.Table, b: Bss, nb: Bss, stale: Entry, e: Entry)
    ensures var u := Repointed(t.(heap := t.heap[b := stale]), b, nb);
            u.(heap := (u.heap - {b})[nb := e], bss := Minus(u.bss, {b}) + [nb], bssId := Renamed(u.bssId, b, nb))
            == Move(t, b, nb, e)
  {
    assert t.heap[b := stale] - {b} == t.heap - {b};
  }

  lemma AddedNotSeen(t: BssModel.Table, env: Env, ssid: Octets, res: ScanRes, fetch: Time, r: Bss)
    requires Inv(t) && CanMakeRoom(t, env) && r !in t.heap
    ensures r !in Add(t, env, ssid, res, fetch, r).lastRes
  {
  }

  /** What filing a result for a known entry leaves; memory that was not needed does not matter. */
  lemma FiledKnown(t: BssModel.Table, env: Env, key: Key, res: ScanRes, fetch: Time, b: Bss, nb: Bss, q: Bss)
    requires ResultKey(env, res, fetch) == Some(key) && b == Find(t, env, key) && b in t.heap
    requires if Ignored(t, b, res, fetch) then nb == b else nb == Relocated(t, b, res, nb)
    requires q == nb || (nb == b && (Ignored(t, b, res, fetch) || !Grows(t.heap[b], res)))
    ensures BssModel.UpdateScanRes(t, env, res, fetch, q) == Record(Update(t, b, res, fetch, nb), nb)
  {
  }

  lemma RefreshedInv(t: BssModel.Table, b: Bss, res: ScanRes, fetch: Time, nb: Bss)
    requires Inv(t) && b in t.heap
    requires if Ignored(t, b, res, fetch) then nb == b else nb == Relocated(t, b, res, nb)
    requires nb == b || nb !in t.heap
    ensures Inv(Record(Update(t, b, res, fetch, nb), nb))
  {
    if !Ignored(t, b, res, fetch) {
      MoveInv(t, b, nb, Refreshed(t.heap[b], t.updateIdx, res, fetch));
    }
  }

  lemma RenamedAt(s: seq<Bss>, b: Bss, nb: Bss, k: nat)
    requires Distinct(s) && k < |s| && s[k] == b
    ensures Renamed(s, b, nb) == s[k := nb]
  {
  }

  lemma RenamedFirst(s: seq<Bss?>, b: Bss, nb: Bss, i: nat)
    requires Distinct(s) && i <= |s| && b !in s[..i] && (i < |s| ==> s[i] == b)
    ensures Renamed(s, b, nb) == if i < |s| then s[i := nb] else s
  {
  }

  class Table {
    var bss: seq<Bss>
    var bssId: seq<Bss>
    var lastScanRes: array?<Bss?>
    var lastScanResUsed: nat
    var lastScanResSize: nat
    var numBss: int
    var bssNextId: nat
    var bssUpdateIdx: nat
    var bssMaxCount: int
    var currentBss: Bss?
    var pendingWork: ConnectWork?

    ghost predicate ArrayOk()
      reads `lastScanRes, `lastScanResUsed, `lastScanResSize
    {
      if lastScanRes == null then lastScanResUsed == lastScanResSize == 0
      else lastScanResSize == lastScanRes.Length && lastScanResUsed <= lastScanResSize
    }

    ghost function LastRes(): seq<Bss?>
      reads `lastScanRes, `lastScanResUsed, `lastScanResSize, lastScanRes
      requires ArrayOk()
    {
      if lastScanRes == null then [] else lastScanRes[..lastScanResUsed]
    }

    ghost function Heap(): map<Bss, Entry>
      reads `bss, bss
    {
      HeapOf(bss)
    }

    ghost function PendingWork(): Option<Work>
      reads `pendingWork, pendingWork
    {
      if pendingWork == null then None else Some(Work(pendingWork.bss, pendingWork.bssRemoved))
    }

    /** The table as a value. */
    ghost function Model(): BssModel.Table
      reads this, bss, lastScanRes, pendingWork
      requires ArrayOk()
    {
      BssModel.Table(Heap(), bss, bssId, LastRes(), numBss, bssNextId, bssUpdateIdx, bssMaxCount,
                     currentBss, PendingWork())
    }

    ghost predicate Valid()
      reads this, bss, lastScanRes, pendingWork
    {
      ArrayOk() && Inv(Model())
    }

    constructor (maxCount: int)
      ensures Valid() && Model() == EmptyTable(maxCount)
    {
      bss, bssId := [], [];
      lastScanRes, lastScanResUsed, lastScanResSize := null, 0, 0;
      numBss, bssNextId, bssUpdateIdx, bssMaxCount := 0, 0, 0, maxCount;
      currentBss, pendingWork := null, null;
      new;
      assert Model() == EmptyTable(maxCount);
      EmptyInv(maxCount);
    }

    // ----- taking entries out

    method UpdatePendingConnect(oldBss: Bss, newBss: Bss?)
      requires ArrayOk()
      modifies pendingWork
      ensures ArrayOk() && Model() == Reconnected(old(Model()), oldBss, newBss)
    {
      if pendingWork == null || pendingWork.bss != oldBss {
        return;
      }
      pendingWork.bss := newBss;
      if newBss == null {
        pendingWork.bssRemoved := true;
      }
      assert Heap() == old(Heap()) && LastRes() == old(LastRes());
    }

    /** Moves the results behind position `i` down by one. */
    method CloseGap(i: nat)
      requires ArrayOk() && lastScanRes != null && i < lastScanResUsed
      modifies `lastScanResUsed, lastScanRes
      ensures ArrayOk()
      ensures Model() == old(Model()).(lastRes := old(LastRes())[..i] + old(LastRes())[i + 1..])
    {
      ghost var t := Model();
      forall k | i <= k < lastScanResUsed - 1 {
        lastScanRes[k] := lastScanRes[k + 1];
      }
      lastScanResUsed := lastScanResUsed - 1;
      assert LastRes() == t.lastRes[..i] + t.lastRes[i + 1..];
      assert Heap() == t.heap && PendingWork() == t.work;
    }

    /** The position of an entry among the results, or their number if it is not one of them. */
    method ResultIndex(b: Bss) returns (i: nat)
      requires ArrayOk()
      ensures i <= |LastRes()| && b !in LastRes()[..i] && (i < |LastRes()| ==> LastRes()[i] == b)
    {
      i := 0;
      if lastScanRes != null {
        while i < lastScanResUsed && lastScanRes[i] != b
          invariant i <= lastScanResUsed && b !in LastRes()[..i]
        {
          i := i + 1;
        }
      }
    }

    /** Takes an entry out of the array of results, moving the ones behind it down. */
    method ForgetResult(b: Bss)
      requires ArrayOk() && Distinct(LastRes())
      modifies `lastScanResUsed, lastScanRes
      ensures ArrayOk() && Model() == Forgotten(old(Model()), b)
    {
      var i := ResultIndex(b);
      ForgottenAt(LastRes(), b, i);
      if i < lastScanResUsed {
        CloseGap(i);
      }
    }

    /** Changes the two lists and the count together. */
    method Relink(l: seq<Bss>, lid: seq<Bss>, n: int)
      requires ArrayOk()
      modifies `bss, `bssId, `numBss
      ensures ArrayOk() && Model() == old(Model()).(heap := old(HeapOf(l)), bss := l, bssId := lid, num := n)
    {
      bss, bssId, numBss := l, lid, n;
    }

    /** Takes an entry out of both lists and out of the count. */
    method UnlinkBoth(b: Bss)
      requires ArrayOk() && Distinct(bss) && Distinct(bssId) && b in bss && b in bssId
      modifies `bss, `bssId, `numBss
      ensures ArrayOk() && Model() == Unlinked(old(Model()), b)
    {
      var l := Unlink(bss, b);
      var lid := Unlink(bssId, b);
      ghost var t := Model();
      assert HeapOf(l) == t.heap - {b} by {
        HeapUnlinked(bss, b);
      }
      Relink(l, lid, numBss - 1);
    }

    /** Removes an entry from both lists, from the results, and from the pending connect work. */
    method Remove(b: Bss)
      requires ArrayOk() && Removable(Model(), b)
      modifies `bss, `bssId, `numBss, `lastScanResUsed, lastScanRes, pendingWork
      ensures ArrayOk() && Model() == RemoveAll(old(Model()), {b})
    {
      RemovedOne(Model(), b);
      ForgottenRemovable(Model(), b);
      ForgetResult(b);
      UpdatePendingConnect(b, null);
      UnlinkBoth(b);
    }

    // ----- looking up

    /** Whether an entry is in use: it is the current one, or shares the current network and
        carries the address in use or about to be used. */
    method IsInUse(env: Env, b: Bss) returns (r: bool)
      requires ArrayOk() && CurrentOk(Model()) && b in bss
      ensures r == InUse(Model(), env, b)
    {
      if b == currentBss {
        return true;
      }
      if currentBss != null && b.ssid != currentBss.ssid {
        return false;
      }
      return b.bssid != ZERO_ADDR && (b.bssid == env.ownBssid || b.bssid == env.pendingBssid);
    }

    method Get(env: Env, key: Key) returns (r: Bss?)
      requires ArrayOk() && Lists(Model())
      ensures r == Find(Model(), env, key)
    {
      if !env.passes(key.bssid) {
        return null;
      }
      ghost var good := WithKey(Model(), key);
      var i := 0;
      while i < |bss| && !(bss[i].bssid == key.bssid && bss[i].ssid == key.ssid)
        invariant i <= |bss| && forall j :: 0 <= j < i ==> bss[j] !in good
      {
        i := i + 1;
      }
      FirstInAt(bss, good, i);
      r := if i < |bss| then bss[i] else null;
    }

    method GetBssid(env: Env, bssid: Octets) returns (r: Bss?, ghost i: int)
      requires ArrayOk() && Lists(Model())
      ensures !env.passes(bssid) ==> r == null
      ensures env.passes(bssid) ==> IsLastOf(Model(), bssid, i) && r == if i < 0 then null else bss[i]
    {
      i := -1;
      if !env.passes(bssid) {
        return null, i;
      }
      var k := |bss|;
      while k > 0
        invariant 0 <= k <= |bss|
        invariant forall j :: k <= j < |bss| ==> bss[j].bssid != bssid
      {
        k := k - 1;
        if bss[k].bssid == bssid {
          return bss[k], k;
        }
      }
      return null, i;
    }

    method GetBssidLatest(env: Env, bssid: Octets) returns (found: Bss?, ghost i: int)
      requires ArrayOk() && Lists(Model())
      ensures !env.passes(bssid) ==> found == null
      ensures env.passes(bssid) ==> IsLatestOf(Model(), bssid, i) && found == if i < 0 then null else bss[i]
    {
      i := -1;
      found := null;
      if !env.passes(bssid) {
        return;
      }
      var k := |bss|;
      while k > 0
        invariant 0 <= k <= |bss|
        invariant i < 0 ==> i == -1 && found == null && forall j :: k <= j < |bss| ==> bss[j].bssid != bssid
        invariant i >= 0 ==> k <= i < |bss| && found == bss[i] && found.bssid == bssid
        invariant i >= 0 ==> forall j :: k <= j < |bss| && bss[j].bssid == bssid ==>
                    Micros(bss[j].lastUpdate) <= Micros(found.lastUpdate)
                    && (j > i ==> Micros(bss[j].lastUpdate) < Micros(found.lastUpdate))
      {
        k := k - 1;
        if bss[k].bssid == bssid {
          if found != null {
            BeforeIsEarlier(found.lastUpdate, bss[k].lastUpdate);
          }
          if found == null || Before(found.lastUpdate, bss[k].lastUpdate) {
            found, i := bss[k], k;
          }
        }
      }
    }

    // ----- adding

    /** The fields of an entry as the tests on it see them. */
    method Snapshot(b: Bss) returns (e: Entry)
      ensures e == b.Val()
    {
      e := Entry(b.id, b.scanMissCount, b.lastUpdateIdx, b.bssid, b.ssid, b.fields, b.lastUpdate,
                 b.ies, b.beaconIes);
    }

    method IsUnknown(env: Env, b: Bss) returns (r: bool)
      requires ArrayOk() && b in bss
      ensures r <==> b in Unknown(Model(), env)
    {
      var e := Snapshot(b);
      r := !env.known(e) && !env.wpsCandidate(e);
    }

    /** The first entry of the recency list that is neither known nor a candidate for WPS. */
    method OldestUnknown(env: Env) returns (r: Bss?)
      requires ArrayOk()
      ensures r == FirstIn(bss, Unknown(Model(), env))
    {
      ghost var good := Unknown(Model(), env);
      var i, found := 0, false;
      while i < |bss| && !found
        invariant i <= |bss| && (found ==> i < |bss| && bss[i] in good)
        invariant forall j :: 0 <= j < i ==> bss[j] !in good
        decreases |bss| - i, !found
      {
        found := IsUnknown(env, bss[i]);
        if !found {
          i := i + 1;
        }
      }
      FirstInAt(bss, good, i);
      r := if found then bss[i] else null;
    }

    method IsUnused(env: Env, b: Bss) returns (r: bool)
      requires ArrayOk() && CurrentOk(Model()) && b in bss
      ensures r <==> b in Unused(Model(), env)
    {
      var inUse := IsInUse(env, b);
      r := !inUse;
    }

    /** The first entry of the recency list that is not in use. */
    method OldestUnused(env: Env) returns (r: Bss?)
      requires ArrayOk() && CurrentOk(Model())
      ensures r == FirstIn(bss, Unused(Model(), env))
    {
      ghost var good := Unused(Model(), env);
      var i, found := 0, false;
      while i < |bss| && !found
        invariant i <= |bss| && (found ==> i < |bss| && bss[i] in good)
        invariant forall j :: 0 <= j < i ==> bss[j] !in good
        decreases |bss| - i, !found
      {
        found := IsUnused(env, bss[i]);
        if !found {
          i := i + 1;
        }
      }
      FirstInAt(bss, good, i);
      r := if found then bss[i] else null;
    }

    method RemoveOldest(env: Env) returns (ok: bool)
      requires ArrayOk() && CanEvict(Model(), env)
      requires Victim(Model(), env) != null ==> Removable(Model(), Victim(Model(), env))
      modifies `bss, `bssId, `numBss, `lastScanResUsed, lastScanRes, pendingWork
      ensures ArrayOk() && ok == (Victim(old(Model()), env) != null)
      ensures Model() == Evicted(old(Model()), Victim(old(Model()), env))
    {
      var b := Oldest(env);
      if b != null {
        Remove(b);
      }
      return b != null;
    }

    method Oldest(env: Env) returns (b: Bss?)
      requires ArrayOk() && CanEvict(Model(), env)
      ensures b == Victim(Model(), env)
    {
      b := OldestUnknown(env);
      if b == null {
        b := OldestUnused(env);
      }
    }

    /** Appends an entry to both lists and moves on to the next id. */
    method Append(b: Bss)
      requires ArrayOk() && b !in bss
      modifies `bss, `bssId, `numBss
      ensures ArrayOk() && Model() == Insert(old(Model()), b, old(b.Val())).(nextId := bssNextId)
    {
      assert HeapOf(bss + [b]) == Heap()[b := b.Val()] by {
        HeapAppended(bss, b);
      }
      Relink(bss + [b], bssId + [b], numBss + 1);
    }

    method NextId()
      requires ArrayOk()
      modifies `bssNextId
      ensures ArrayOk() && Model() == old(Model()).(nextId := old(bssNextId) + 1)
    {
      bssNextId := bssNextId + 1;
    }

    method RaiseMaxCount()
      requires ArrayOk()
      modifies `bssMaxCount
      ensures ArrayOk() && Model() == old(Model()).(maxCount := old(numBss) + 1)
    {
      bssMaxCount := numBss + 1;
    }

    /** Evicts an entry from a full table, or raises the limit if none may go. */
    method MakeRoomFor(env: Env)
      requires Valid() && CanMakeRoom(Model(), env)
      modifies `bss, `bssId, `numBss, `bssMaxCount, `lastScanResUsed, lastScanRes, pendingWork
      ensures ArrayOk() && Model() == MakeRoom(old(Model()), env)
    {
      if numBss + 1 > bssMaxCount {
        VictimRemovable(Model(), env);
        var ok := RemoveOldest(env);
        if !ok {
          RaiseMaxCount();
        }
      }
    }

    /** Adds an entry for a result whose key is not in the table. */
    method AddEntry(env: Env, ssid: Octets, res: ScanRes, fetch: Time) returns (b: Bss)
      requires Valid() && CanMakeRoom(Model(), env)
      modifies `bss, `bssId, `numBss, `bssNextId, `bssMaxCount, `lastScanResUsed, lastScanRes, pendingWork
      ensures fresh(b)
      ensures ArrayOk() && Model() == Add(old(Model()), env, ssid, res, fetch, b)
    {
      ghost var t := Model();
      var id := TakeId(env);
      b := NewBss(id, ssid, res, fetch);
      AppendWithRoom(env, b, t, ssid, res, fetch);
    }

    /** Puts a new entry at the end of both lists, after making room for it. */
    method AppendWithRoom(env: Env, b: Bss, ghost t: BssModel.Table, ghost ssid: Octets, ghost res: ScanRes,
                          ghost fetch: Time)
      requires Valid() && CanMakeRoom(Model(), env) && b !in bss
      requires Inv(t) && CanMakeRoom(t, env) && Model() == t.(nextId := t.nextId + 1)
      requires b.Val() == NewEntry(t, ssid, res, fetch)
      modifies `bss, `bssId, `numBss, `bssMaxCount, `lastScanResUsed, lastScanRes, pendingWork
      ensures ArrayOk() && Model() == Add(t, env, ssid, res, fetch, b)
    {
      AddedInOrder(t, env, ssid, res, fetch, b);
      StillAbsent(Model(), env, b);
      MakeRoomFor(env);
      Append(b);
    }

    /** Gives out the next id, before room is made. */
    method TakeId(ghost env: Env) returns (id: nat)
      requires Valid() && CanMakeRoom(Model(), env)
      modifies `bssNextId
      ensures id == old(bssNextId) && Valid() && CanMakeRoom(Model(), env)
      ensures Model() == old(Model()).(nextId := id + 1)
    {
      RoomDespiteNextId(Model(), env);
      id := bssNextId;
      NextId();
    }

    /** A new entry, not yet in the table. */
    method NewBss(id: nat, ssid: Octets, res: ScanRes, fetch: Time) returns (b: Bss)
      requires ArrayOk()
      ensures fresh(b) && Model() == old(Model())
      ensures b.Val() == Entry(id, 0, bssUpdateIdx, res.bssid, ssid, res.fields, UpdateTime(fetch, res.age), res.ies,
                               res.beaconIes)
    {
      var update := CalculateUpdateTime(fetch, res.age);
      b := new Bss(Entry(id, 0, bssUpdateIdx, res.bssid, ssid, res.fields, update, res.ies, res.beaconIes));
    }

    // ----- refreshing an entry

    /** Overwrites what an entry takes over from a result, in place. */
    method CopyRes(b: Bss, res: ScanRes, fetch: Time, withIes: bool)
      modifies b
      ensures var e := old(b.Val());
              var e' := e.(missCount := 0, lastUpdateIdx := bssUpdateIdx, bssid := res.bssid,
                           fields := res.fields, lastUpdate := UpdateTime(fetch, res.age));
              b.Val() == if withIes then e'.(ies := res.ies, beaconIes := res.beaconIes) else e'
    {
      b.scanMissCount := 0;
      b.lastUpdateIdx := bssUpdateIdx;
      b.bssid := res.bssid;
      b.fields := res.fields;
      b.lastUpdate := CalculateUpdateTime(fetch, res.age);
      if withIes {
        b.ies := res.ies;
        b.beaconIes := res.beaconIes;
      }
    }

    /** Refreshes an entry where it is. */
    method Overwrite(b: Bss, res: ScanRes, fetch: Time, withIes: bool)
      requires ArrayOk() && b in bss
      modifies b
      ensures ArrayOk() && Model() == old(Model()).(heap := old(Heap())[b := b.Val()])
      ensures b.Val() == Refreshed(old(b.Val()), bssUpdateIdx, res, fetch)
                         .(ies := if withIes then res.ies else old(b.ies),
                           beaconIes := if withIes then res.beaconIes else old(b.beaconIes))
      ensures withIes == !KeepsIes(old(b.Val()), res) ==> b.Val() == Refreshed(old(b.Val()), bssUpdateIdx, res, fetch)
    {
      ghost var t := Model();
      CopyRes(b, res, fetch, withIes);
      assert Heap() == t.heap[b := b.Val()] && LastRes() == t.lastRes && PendingWork() == t.work;
    }

    method MoveToEnd(b: Bss)
      requires ArrayOk() && Distinct(bss) && b in bss
      modifies `bss, `bssId, `numBss
      ensures var t := old(Model());
              ArrayOk() && Model() == t.(heap := (t.heap - {b})[b := old(b.Val())], bss := Minus(t.bss, {b}) + [b])
    {
      var l := Unlink(bss, b);
      assert HeapOf(l + [b]) == (Heap() - {b})[b := b.Val()] by {
        HeapUnlinked(bss, b);
        HeapAppended(l, b);
      }
      Relink(l + [b], bssId, numBss);
    }

    /** Refreshes an entry where it is, and moves it to the end of the recency list. */
    method RefreshInPlace(b: Bss, res: ScanRes, fetch: Time)
      requires ArrayOk() && Distinct(bss) && b in bss && !Grows(b.Val(), res)
      modifies `bss, `bssId, `numBss, b
      ensures ArrayOk() && Model() == Move(old(Model()), b, b, Refreshed(old(b.Val()), bssUpdateIdx, res, fetch))
    {
      var before := Snapshot(b);
      MovedInPlace(Model(), b, Refreshed(before, bssUpdateIdx, res, fetch));
      Overwrite(b, res, fetch, !KeepsIes(before, res));
      MoveToEnd(b);
    }

    /** Turns the pointers to one entry among the results to another. */
    method RenameResult(b: Bss, nb: Bss)
      requires ArrayOk() && Distinct(LastRes())
      modifies lastScanRes
      ensures ArrayOk() && Model() == old(Model()).(lastRes := Renamed(old(LastRes()), b, nb))
    {
      ghost var t := Model();
      var i := ResultIndex(b);
      RenamedFirst(t.lastRes, b, nb, i);
      if i < lastScanResUsed {
        lastScanRes[i] := nb;
      }
      assert LastRes() == Renamed(t.lastRes, b, nb);
      assert Heap() == t.heap && PendingWork() == t.work;
    }

    method RenameCurrent(b: Bss, nb: Bss)
      requires ArrayOk()
      modifies `currentBss
      ensures ArrayOk() && Model() == old(Model()).(current := if old(currentBss) == b then nb else old(currentBss))
    {
      if currentBss == b {
        currentBss := nb;
      }
    }

    /** Puts a node in the place of another in the id list, and at the end of the recency list. */
    method Relocate(b: Bss, nb: Bss)
      requires ArrayOk() && Distinct(bss) && Distinct(bssId) && b in bss && b in bssId
      modifies `bss, `bssId, `numBss
      ensures var t := old(Model());
              ArrayOk() && Model() == t.(heap := (t.heap - {b})[nb := old(nb.Val())],
                                         bss := Minus(t.bss, {b}) + [nb], bssId := Renamed(t.bssId, b, nb))
    {
      var l := Unlink(bss, b);
      var k := IndexOf(bssId, b);
      RenamedAt(bssId, b, nb, k);
      var lid := bssId[..k] + bssId[k + 1..];
      lid := lid[..k] + [nb] + lid[k..];
      assert lid == bssId[k := nb];
      assert HeapOf(l + [nb]) == (Heap() - {b})[nb := nb.Val()] by {
        HeapUnlinked(bss, b);
        HeapAppended(l, nb);
      }
      Relink(l + [nb], lid, numBss);
    }

    method RenamePointers(b: Bss, nb: Bss)
      requires ArrayOk() && Distinct(LastRes())
      modifies `currentBss, lastScanRes, pendingWork
      ensures ArrayOk() && Model() == Repointed(old(Model()), b, nb)
    {
      RenameResult(b, nb);
      RenameCurrent(b, nb);
      UpdatePendingConnect(b, nb);
    }

    /** Moves an entry to a larger block of memory; everything that pointed to it follows. */
    method Reallocate(b: Bss, res: ScanRes, fetch: Time) returns (nb: Bss)
      requires ArrayOk() && Removable(Model(), b) && Grows(b.Val(), res)
      modifies `bss, `bssId, `numBss, `currentBss, lastScanRes, pendingWork, b
      ensures fresh(nb)
      ensures ArrayOk() && Model() == Move(old(Model()), b, nb, Refreshed(old(b.Val()), bssUpdateIdx, res, fetch))
    {
      ghost var t := Model();
      ghost var e' := Refreshed(b.Val(), bssUpdateIdx, res, fetch);
      nb := Resized(b, res, fetch);
      PointersFollow(t, b, nb, b.Val(), e');
      RenamePointers(b, nb);
      Relocate(b, nb);
    }

    /** The larger copy of an entry, with the new elements; the old block is overwritten and given up. */
    method Resized(b: Bss, res: ScanRes, fetch: Time) returns (nb: Bss)
      requires ArrayOk() && b in bss && Grows(b.Val(), res)
      modifies b
      ensures fresh(nb) && nb.Val() == Refreshed(old(b.Val()), bssUpdateIdx, res, fetch)
      ensures ArrayOk() && Model() == old(Model()).(heap := old(Heap())[b := b.Val()])
    {
      Overwrite(b, res, fetch, false);
      var e := Snapshot(b);
      nb := new Bss(e.(ies := res.ies, beaconIes := res.beaconIes));
    }

    /** Whether an earlier result of the round is more current. */
    method IsIgnored(b: Bss, res: ScanRes, fetch: Time) returns (r: bool)
      requires ArrayOk() && b in bss
      ensures r == Ignored(Model(), b, res, fetch)
    {
      if b.lastUpdateIdx == bssUpdateIdx {
        var update := CalculateUpdateTime(fetch, res.age);
        if Associated(b.fields) || (!Associated(res.fields) && !Before(b.lastUpdate, update)) {
          return true;
        }
      }
      return false;
    }

    /** Takes over a result for an entry, unless an earlier result of the round is more current. */
    method UpdateEntry(b: Bss, res: ScanRes, fetch: Time) returns (nb: Bss)
      requires Valid() && b in bss
      modifies `bss, `bssId, `numBss, `currentBss, lastScanRes, pendingWork, b
      ensures var t := old(Model());
              && (if Ignored(t, b, res, fetch) then nb == b else nb == Relocated(t, b, res, nb))
              && (nb == b || (fresh(nb) && Grows(t.heap[b], res) && !Ignored(t, b, res, fetch)))
              && (nb == b ==> Ignored(t, b, res, fetch) || !Grows(t.heap[b], res))
              && ArrayOk() && Model() == Update(t, b, res, fetch, nb)
    {
      var ignored := IsIgnored(b, res, fetch);
      if ignored {
        return b;
      }
      var before := Snapshot(b);
      if Grows(before, res) {
        nb := Reallocate(b, res, fetch);
      } else {
        RefreshInPlace(b, res, fetch);
        nb := b;
      }
    }

    /** Gives a hidden entry the name that was learned for it. */
    method LearnOweName(b: Bss, ssid: Octets)
      requires Valid() && b in bss && b.ssid == []
      modifies b
      ensures Valid() && Model() == Amend(old(Model()), b, ssid, WithOweFlag)
    {
      AmendInv(Model(), b, ssid, WithOweFlag);
      Rename(b, ssid);
    }

    method Rename(b: Bss, ssid: Octets)
      requires ArrayOk() && b in bss
      modifies b
      ensures ArrayOk() && Model() == Amend(old(Model()), b, ssid, WithOweFlag)
    {
      ghost var t := Model();
      b.ssid := ssid;
      b.fields := WithOweFlag(b.fields);
      assert Heap() == Amend(t, b, ssid, WithOweFlag).heap && LastRes() == t.lastRes && PendingWork() == t.work;
    }

    // ----- rounds

    method UpdateStart()
      requires Valid()
      modifies `bssUpdateIdx, `lastScanResUsed
      ensures Valid() && Model() == BssModel.UpdateStart(old(Model()))
    {
      UpdateStartInv(Model());
      NextRound();
    }

    method NextRound()
      requires ArrayOk()
      modifies `bssUpdateIdx, `lastScanResUsed
      ensures ArrayOk() && Model() == BssModel.UpdateStart(old(Model()))
    {
      ghost var t := Model();
      bssUpdateIdx := bssUpdateIdx + 1;
      lastScanResUsed := 0;
      assert Heap() == t.heap && PendingWork() == t.work && LastRes() == [];
    }

    /** A larger array with the same results. */
    method CopyResults(siz: nat) returns (n: array<Bss?>)
      requires ArrayOk() && lastScanResUsed <= siz
      ensures fresh(n) && n.Length == siz && n[..lastScanResUsed] == LastRes() && Model() == old(Model())
    {
      n := new Bss?[siz];
      if lastScanRes != null {
        forall i | 0 <= i < lastScanResUsed {
          n[i] := lastScanRes[i];
        }
      }
    }

    /** Doubles the array of results, or gives it its first 32 places. */
    method GrowResults()
      requires ArrayOk()
      modifies `lastScanRes, `lastScanResSize
      ensures ArrayOk() && Model() == old(Model()) && lastScanResUsed < lastScanResSize && fresh(lastScanRes)
    {
      ghost var t := Model();
      var siz := if lastScanResSize == 0 then 32 else lastScanResSize * 2;
      var n := CopyResults(siz);
      lastScanRes := n;
      lastScanResSize := siz;
      assert LastRes() == t.lastRes && Heap() == t.heap && PendingWork() == t.work;
    }

    method StoreResult(b: Bss)
      requires ArrayOk() && lastScanResUsed < lastScanResSize
      modifies `lastScanResUsed, lastScanRes
      ensures ArrayOk() && Model() == old(Model()).(lastRes := old(LastRes()) + [b])
    {
      ghost var t := Model();
      lastScanRes[lastScanResUsed] := b;
      lastScanResUsed := lastScanResUsed + 1;
      assert LastRes() == t.lastRes + [b];
      assert Heap() == t.heap && PendingWork() == t.work;
    }

    /** Puts an entry among the results of this round. */
    method AppendResult(b: Bss)
      requires ArrayOk()
      modifies `lastScanRes, `lastScanResSize, `lastScanResUsed, lastScanRes
      ensures ArrayOk() && Model() == old(Model()).(lastRes := old(LastRes()) + [b])
    {
      if lastScanResUsed >= lastScanResSize {
        GrowResults();
      }
      StoreResult(b);
    }

    /** The checks on a result that come before it is filed. */
    method KeyOfResult(env: Env, res: ScanRes, fetch: Time) returns (key: Option<Key>)
      ensures key == ResultKey(env, res, fetch)
    {
      if env.ignoreOld {
        var update := CalculateUpdateTime(fetch, res.age);
        if Before(update, env.triggerTime) {
          return None;
        }
      }
      var ssid := FirstData(ScanElements(res), SSID_ELEMENT);
      if ssid == None {
        return None;
      }
      if |ssid.value| > SSID_MAX_LEN {
        return None;
      }
      var p2p := HasVendor(Parse(res.ies), P2P_IE_VENDOR_TYPE);
      if !p2p && env.p2pGroupInterface {
        return None;
      }
      if p2p && ssid.value == P2P_WILDCARD_SSID {
        return None;
      }
      var mesh := FirstData(ScanElements(res), MESH_ID);
      if mesh.Some? && |mesh.value| <= SSID_MAX_LEN {
        ssid := mesh;
      }
      return Some(Key(res.bssid, ssid.value));
    }

    /** Puts an entry among the results of this round, unless it is there already. */
    method RecordResult(b: Bss)
      requires ArrayOk()
      modifies `lastScanRes, `lastScanResSize, `lastScanResUsed, lastScanRes
      ensures ArrayOk() && Model() == Record(old(Model()), b)
    {
      var i := ResultIndex(b);
      if i < lastScanResUsed {
        assert LastRes()[i] == b;
        return;
      }
      assert LastRes()[..i] == LastRes();
      AppendResult(b);
    }

    /** Files a result whose key is not in the table. */
    method FileNew(env: Env, ssid: Octets, res: ScanRes, fetch: Time) returns (b: Bss)
      requires Valid() && CanMakeRoom(Model(), env)
      modifies `bss, `bssId, `numBss, `bssNextId, `bssMaxCount, `lastScanRes, `lastScanResSize,
               `lastScanResUsed, lastScanRes, pendingWork
      ensures fresh(b) && Valid() && Model() == Record(Add(old(Model()), env, ssid, res, fetch, b), b)
    {
      ghost var t := Model();
      b := AddEntry(env, ssid, res, fetch);
      AddInv(t, env, ssid, res, fetch, b);
      AddedNotSeen(t, env, ssid, res, fetch, b);
      AppendResult(b);
    }

    /** Files a result for an entry of the table. */
    method FileKnown(b: Bss, res: ScanRes, fetch: Time) returns (nb: Bss)
      requires Valid() && b in bss
      modifies `bss, `bssId, `numBss, `currentBss, `lastScanRes, `lastScanResSize, `lastScanResUsed,
               lastScanRes, pendingWork, b
      ensures var t := old(Model());
              && (if Ignored(t, b, res, fetch) then nb == b else nb == Relocated(t, b, res, nb))
              && (if nb == b then Ignored(t, b, res, fetch) || !Grows(t.heap[b], res) else fresh(nb))
              && Valid() && Model() == Record(Update(t, b, res, fetch, nb), nb)
    {
      ghost var t := Model();
      nb := UpdateEntry(b, res, fetch);
      RefreshedInv(t, b, res, fetch, nb);
      RecordResult(nb);
    }

    /** Files a result for the entry found for it. */
    method FileFound(env: Env, ghost key: Key, b: Bss, res: ScanRes, fetch: Time) returns (ghost spare: Bss?)
      requires Valid() && b in bss
      requires ResultKey(env, res, fetch) == Some(key) && b == Find(Model(), env, key)
      modifies `bss, `bssId, `numBss, `currentBss, `lastScanRes, `lastScanResSize, `lastScanResUsed,
               lastScanRes, pendingWork, b
      ensures Valid()
      ensures spare != null ==>
                fresh(spare) && Model() == BssModel.UpdateScanRes(old(Model()), env, res, fetch, spare)
      ensures spare == null ==>
                forall q: Bss :: Model() == BssModel.UpdateScanRes(old(Model()), env, res, fetch, q)
    {
      ghost var t := Model();
      spare := null;
      var nb := FileKnown(b, res, fetch);
      if nb != b {
        FiledKnown(t, env, key, res, fetch, b, nb, nb);
        spare := nb;
      } else {
        forall q: Bss ensures Model() == BssModel.UpdateScanRes(t, env, res, fetch, q) {
          FiledKnown(t, env, key, res, fetch, b, b, q);
        }
      }
    }

    /** Files one scan result. `spare` is the memory that was needed for it; where none was, the table
        is the same whatever memory there would have been. */
    method UpdateScanRes(env: Env, res: ScanRes, fetch: Time) returns (ghost spare: Bss?)
      requires Valid() && CanFile(Model(), env, res, fetch)
      modifies this, bss, lastScanRes, pendingWork
      ensures Valid()
      ensures spare != null ==>
                fresh(spare) && Model() == BssModel.UpdateScanRes(old(Model()), env, res, fetch, spare)
      ensures spare == null ==>
                forall q: Bss :: Model() == BssModel.UpdateScanRes(old(Model()), env, res, fetch, q)
    {
      spare := null;
      var key := KeyOfResult(env, res, fetch);
      if key.Some? {
        spare := FileResult(env, key.value, res, fetch);
      }
    }

    /** Files a result under its key. */
    method FileResult(env: Env, key: Key, res: ScanRes, fetch: Time) returns (ghost spare: Bss?)
      requires Valid() && CanFile(Model(), env, res, fetch) && ResultKey(env, res, fetch) == Some(key)
      modifies this, bss, lastScanRes, pendingWork
      ensures Valid()
      ensures spare != null ==>
                fresh(spare) && Model() == BssModel.UpdateScanRes(old(Model()), env, res, fetch, spare)
      ensures spare == null ==>
                forall q: Bss :: Model() == BssModel.UpdateScanRes(old(Model()), env, res, fetch, q)
    {
      var b := Get(env, key);
      if b == null {
        spare := FileNew(env, key.ssid, res, fetch);
      } else {
        FindSound(Model(), env, key);
        spare := FileFound(env, key, b, res, fetch);
      }
    }

    /** Whether the scan covered an entry: its frequency and its network were both asked for. */
    method IsIncluded(b: Bss, info: ScanInfo) returns (r: bool)
      ensures r == IncludedInScan(b.Val(), info)
    {
      if info.NoInfo? {
        return true;
      }
      if |info.freqs| != 0 {
        var i := 0;
        while i < |info.freqs| && info.freqs[i] != b.fields.freq
          invariant i <= |info.freqs| && b.fields.freq !in info.freqs[..i]
        {
          i := i + 1;
        }
        assert info.freqs[..|info.freqs|] == info.freqs;
        if i == |info.freqs| {
          return false;
        }
      }
      if |info.ssids| != 0 {
        var i := 0;
        while i < |info.ssids| && !(info.ssids[i] == [] || info.ssids[i] == b.ssid)
          invariant i <= |info.ssids|
          invariant forall j :: 0 <= j < i ==> info.ssids[j] != [] && info.ssids[j] != b.ssid
        {
          i := i + 1;
        }
        if i == |info.ssids| {
          return false;
        }
        assert info.ssids[i] in info.ssids;
      }
      return true;
    }

    method CountMiss(b: Bss)
      requires ArrayOk() && b in bss
      modifies b`scanMissCount
      ensures ArrayOk() && Model() == WithMiss(old(Model()), b)
    {
      ghost var t := Model();
      b.scanMissCount := b.scanMissCount + 1;
      assert Heap() == WithMiss(t, b).heap && LastRes() == t.lastRes && PendingWork() == t.work;
    }

    /** The end of a round, for one entry. */
    method EndEntry(env: Env, info: ScanInfo, b: Bss)
      requires ArrayOk() && CurrentOk(Model()) && Removable(Model(), b)
      modifies `bss, `bssId, `numBss, `lastScanResUsed, lastScanRes, pendingWork, b
      ensures ArrayOk() && Model() == EndOne(old(Model()), env, info, b)
    {
      var inUse := IsInUse(env, b);
      if inUse {
        return;
      }
      var included := IsIncluded(b, info);
      if !included {
        return;
      }
      ExpireEntry(env, b);
    }

    /** Counts a miss of an entry that was not seen, and removes it when it has missed enough. */
    method ExpireEntry(env: Env, b: Bss)
      requires ArrayOk() && Removable(Model(), b)
      modifies `bss, `bssId, `numBss, `lastScanResUsed, lastScanRes, pendingWork, b
      ensures ArrayOk() && Model() == ExpireOne(old(Model()), env, b)
    {
      if b.lastUpdateIdx < bssUpdateIdx {
        CountMiss(b);
      }
      if b.scanMissCount >= env.expirationCount {
        Remove(b);
      }
    }

    /** One step of the sweep at the end of a round. */
    method EndNext(env: Env, info: ScanInfo, b: Bss, ghost t: BssModel.Table, ghost i: nat)
      requires ArrayOk() && Inv(t) && CurrentOk(t) && i < |t.bss| && b == t.bss[i]
      requires Model() == EndedFor(t, env, info, UpTo(t.bss, i))
      modifies `bss, `bssId, `numBss, `lastScanResUsed, lastScanRes, pendingWork, b
      ensures ArrayOk() && Model() == EndedFor(t, env, info, UpTo(t.bss, i + 1))
    {
      EndOneStep(t, env, info, i);
      EndEntry(env, info, b);
    }

    /** Goes through the entries at the end of a round. */
    method EndSweep(env: Env, info: ScanInfo, ghost t: BssModel.Table)
      requires ArrayOk() && Model() == t && Inv(t) && CurrentOk(t)
      modifies `bss, `bssId, `numBss, `lastScanResUsed, lastScanRes, pendingWork, t.heap.Keys
      ensures ArrayOk() && Model() == EndedFor(t, env, info, UpTo(t.bss, |t.bss|))
    {
      var todo := bss;
      var i := 0;
      EndStarts(t, env, info);
      while i < |todo|
        invariant i <= |todo| && ArrayOk()
        invariant Model() == EndedFor(t, env, info, UpTo(todo, i))
      {
        assert todo[i] in t.heap;
        EndNext(env, info, todo[i], t, i);
        i := i + 1;
      }
    }

    /** Ends a round: after a new scan, expires the entries that were missed too often. */
    method UpdateEnd(env: Env, info: ScanInfo, newScan: bool)
      requires Valid() && (Expires(info, newScan) ==> CurrentOk(Model()))
      modifies `bss, `bssId, `numBss, `lastScanResUsed, lastScanRes, pendingWork, Heap().Keys
      ensures Valid() && Model() == BssModel.UpdateEnd(old(Model()), env, info, newScan)
    {
      UpdateEndInv(Model(), env, info, newScan);
      if (info.Info? && info.aborted) || !newScan {
        return;
      }
      EndFinishes(Model(), env, info, newScan);
      EndSweep(env, info, Model());
    }

    // ----- flushing

    method FlushEntry(env: Env, b: Bss) returns (ghost taken: bool)
      requires ArrayOk() && CurrentOk(Model()) && Removable(Model(), b)
      modifies `bss, `bssId, `numBss, `lastScanResUsed, lastScanRes, pendingWork
      ensures taken <==> !InUse(old(Model()), env, b)
      ensures ArrayOk() && Model() == if taken then RemoveAll(old(Model()), {b}) else old(Model())
    {
      var inUse := IsInUse(env, b);
      taken := !inUse;
      if !inUse {
        Remove(b);
      }
    }

    /** One step through the list; `dead` is what has been taken so far. */
    method FlushNext(env: Env, b: Bss, ghost t: BssModel.Table, ghost all: set<Bss>, ghost i: nat, ghost dead: set<Bss>)
      returns (ghost dead': set<Bss>)
      requires ArrayOk() && Inv(t) && CurrentOk(t) && all == Unused(t, env) && i < |t.bss| && b == t.bss[i]
      requires FlushSoFar(t.bss, all, i, dead) && Model() == RemoveAll(t, dead)
      modifies `bss, `bssId, `numBss, `lastScanResUsed, lastScanRes, pendingWork
      ensures ArrayOk() && Model() == RemoveAll(t, dead') && FlushSoFar(t.bss, all, i + 1, dead')
    {
      FlushFinds(t, env, all, i, dead);
      FlushTakes(t, env, all, i, dead);
      ghost var taken := FlushEntry(env, b);
      dead' := if taken then dead + {b} else dead;
    }

    /** Goes through the whole list. */
    method FlushSweep(env: Env, ghost t: BssModel.Table, ghost all: set<Bss>)
      requires ArrayOk() && Model() == t && Inv(t) && CurrentOk(t) && all == Unused(t, env)
      modifies `bss, `bssId, `numBss, `lastScanResUsed, lastScanRes, pendingWork
      ensures ArrayOk() && Model() == RemoveAll(t, all)
    {
      FlushStarts(t, all);
      var todo := bss;
      var i: nat := 0;
      ghost var dead: set<Bss> := {};
      while i < |todo|
        invariant ArrayOk() && Model() == RemoveAll(t, dead) && FlushSoFar(todo, all, i, dead)
      {
        dead := FlushNext(env, todo[i], t, all, i, dead);
        i := i + 1;
      }
      FlushEnds(t, all, dead);
    }

    /** Removes every entry that is not in use. */
    method Flush(env: Env)
      requires Valid() && CurrentOk(Model())
      modifies `bss, `bssId, `numBss, `lastScanResUsed, lastScanRes, pendingWork
      ensures Valid() && Model() == BssModel.Flush(old(Model()), env)
    {
      RemoveAllInv(Model(), Unused(Model(), env));
      FlushSweep(env, Model(), Unused(Model(), env));
    }

    /** Flushing by age, for one entry; `go` tells whether to go on to the next. */
    method AgeEntry(env: Env, cut: Time, b: Bss) returns (go: bool, ghost taken: bool)
      requires ArrayOk() && CurrentOk(Model()) && Removable(Model(), b)
      modifies `bss, `bssId, `numBss, `lastScanResUsed, lastScanRes, pendingWork
      ensures taken <==> !InUse(old(Model()), env, b) && OlderThan(old(Model()), b, cut)
      ensures go <==> InUse(old(Model()), env, b) || taken
      ensures ArrayOk() && Model() == if taken then RemoveAll(old(Model()), {b}) else old(Model())
    {
      taken := false;
      var inUse := IsInUse(env, b);
      if inUse {
        return true, taken;
      }
      if Before(b.lastUpdate, cut) {
        Remove(b);
        return true, true;
      }
      return false, taken;
    }

    /** One step through the recency list; `dead` is what has been taken so far. */
    method AgeNext(env: Env, cut: Time, b: Bss, ghost t: BssModel.Table, ghost i: nat, ghost dead: set<Bss>)
      returns (go: bool, ghost dead': set<Bss>)
      requires ArrayOk() && Inv(t) && CurrentOk(t) && i < |t.bss| && b == t.bss[i]
      requires AgedWhile(t, env, cut, i, dead, true) && Model() == RemoveAll(t, dead)
      modifies `bss, `bssId, `numBss, `lastScanResUsed, lastScanRes, pendingWork
      ensures ArrayOk() && Model() == RemoveAll(t, dead')
      ensures AgedWhile(t, env, cut, if go then i + 1 else i, dead', go)
    {
      AgedFinds(t, env, cut, i, dead);
      AgedNext(t, env, cut, i, dead);
      ghost var taken;
      go, taken := AgeEntry(env, cut, b);
      dead' := if taken then dead + {b} else dead;
    }

    /** Goes through the recency list from its front, and stops at the first entry that stays. */
    method AgeSweep(env: Env, cut: Time, ghost t: BssModel.Table)
      requires ArrayOk() && Model() == t && Inv(t) && CurrentOk(t)
      modifies `bss, `bssId, `numBss, `lastScanResUsed, lastScanRes, pendingWork
      ensures ArrayOk() && Model() == BssModel.FlushByAge(t, env, cut)
    {
      AgedStarts(t, env, cut);
      var todo := bss;
      var i := 0;
      ghost var dead: set<Bss> := {};
      var go := true;
      while i < |todo| && go
        invariant i <= |todo| && ArrayOk() && Model() == RemoveAll(t, dead)
        invariant AgedWhile(t, env, cut, i, dead, go)
        decreases |todo| - i, go
      {
        go, dead := AgeNext(env, cut, todo[i], t, i, dead);
        if go {
          i := i + 1;
        }
      }
      if go {
        AgedEnds(t, env, cut, dead);
      }
    }

    /** Removes old entries from the front of the recency list. */
    method FlushByAge(env: Env, cut: Time)
      requires Valid() && CurrentOk(Model())
      modifies `bss, `bssId, `numBss, `lastScanResUsed, lastScanRes, pendingWork
      ensures Valid() && Model() == BssModel.FlushByAge(old(Model()), env, cut)
    {
      RemoveAllInv(Model(), Aged(Model(), env, bss, cut));
      AgeSweep(env, cut, Model());
    }
  }
}
