/** What every operation on the table keeps. */
module BssInvariant {
  import opened Wrappers
  import opened Elements
  import opened RelTime
  import opened Seqs
  import opened BssModel

  /** Both lists run through exactly the entries of the table, each once. */
  ghost predicate Lists(t: Table) {
    && Distinct(t.bss) && Distinct(t.bssId)
    && (forall r :: r in t.bss ==> r in t.heap) && (forall r :: r in t.heap ==> r in t.bss)
    && (forall r :: r in t.bssId ==> r in t.heap) && (forall r :: r in t.heap ==> r in t.bssId)
    && t.num == |t.bss|
  }

  /** The id list is strictly increasing, and no id has yet to be given out. */
  ghost predicate Ids(t: Table)
    requires Lists(t)
  {
    && (forall i, j :: 0 <= i < j < |t.bssId| ==> t.heap[t.bssId[i]].id < t.heap[t.bssId[j]].id)
    && (forall r :: r in t.heap ==> t.heap[r].id < t.nextId)
  }

  /** The recency list is ordered by the round of the last update. */
  ghost predicate Recency(t: Table)
    requires Lists(t)
  {
    && (forall i, j :: 0 <= i < j < |t.bss| ==> t.heap[t.bss[i]].lastUpdateIdx <= t.heap[t.bss[j]].lastUpdateIdx)
    && (forall r :: r in t.heap ==> t.heap[r].lastUpdateIdx <= t.updateIdx)
  }

  /** The results of this round are, without repetition, the entries stamped with this round. */
  ghost predicate Seen(t: Table) {
    && Distinct(t.lastRes)
    && (forall r :: r in t.lastRes ==> r != null && r in t.heap && t.heap[r].lastUpdateIdx == t.updateIdx)
    && (forall r :: r in t.heap && t.heap[r].lastUpdateIdx == t.updateIdx ==> r in t.lastRes)
  }

  /** An entry seen in this round has no misses. */
  ghost predicate SeenUnmissed(t: Table) {
    forall r :: r in t.heap && t.heap[r].lastUpdateIdx == t.updateIdx ==> t.heap[r].missCount == 0
  }

  /** The pending connect work points to nothing or into the table. */
  ghost predicate WorkOk(t: Table) {
    t.work.Some? && t.work.value.bss != null ==> t.work.value.bss in t.heap
  }

  ghost predicate Inv(t: Table) {
    Lists(t) && Ids(t) && Recency(t) && Seen(t) && SeenUnmissed(t) && WorkOk(t)
  }

  ghost predicate KeysUnique(t: Table) {
    forall r, q :: r in t.heap && q in t.heap && KeyOf(t.heap[r]) == KeyOf(t.heap[q]) ==> r == q
  }

  ghost function EmptyTable(maxCount: int): Table {
    Table(map[], [], [], [], 0, 0, 0, maxCount, null, None)
  }

  lemma EmptyInv(maxCount: int)
    ensures Inv(EmptyTable(maxCount)) && KeysUnique(EmptyTable(maxCount)) && CurrentOk(EmptyTable(maxCount))
  {
  }

  /** The entries seen in this round form a suffix of the recency list. */
  lemma SeenIsSuffix(t: Table, i: nat, j: nat)
    requires Inv(t) && i <= j < |t.bss| && t.bss[i] in t.lastRes
    ensures t.bss[j] in t.lastRes
  {
  }

  // ----- taking entries out

  lemma RemoveAllLists(t: Table, dead: set<Bss>)
    requires Lists(t)
    ensures Lists(RemoveAll(t, dead))
  {
    MinusDistinct(t.bss, dead);
    MinusDistinct(t.bssId, dead);
  }

  lemma RemoveAllIds(t: Table, dead: set<Bss>)
    requires Lists(t) && Ids(t)
    ensures Lists(RemoveAll(t, dead)) && Ids(RemoveAll(t, dead))
  {
    RemoveAllLists(t, dead);
    var u := RemoveAll(t, dead);
    forall i, j | 0 <= i < j < |u.bssId| ensures u.heap[u.bssId[i]].id < u.heap[u.bssId[j]].id {
      var p, q := MinusOrder(t.bssId, dead, i, j);
    }
  }

  lemma RemoveAllRecency(t: Table, dead: set<Bss>)
    requires Lists(t) && Recency(t)
    ensures Lists(RemoveAll(t, dead)) && Recency(RemoveAll(t, dead))
  {
    RemoveAllLists(t, dead);
    var u := RemoveAll(t, dead);
    forall i, j | 0 <= i < j < |u.bss|
      ensures u.heap[u.bss[i]].lastUpdateIdx <= u.heap[u.bss[j]].lastUpdateIdx
    {
      var p, q := MinusOrder(t.bss, dead, i, j);
    }
  }

  lemma RemoveAllInv(t: Table, dead: set<Bss>)
    requires Inv(t)
    ensures Inv(RemoveAll(t, dead))
  {
    RemoveAllIds(t, dead);
    RemoveAllRecency(t, dead);
    MinusDistinct(t.lastRes, dead);
  }

  lemma RemoveAllUnique(t: Table, dead: set<Bss>)
    requires KeysUnique(t)
    ensures KeysUnique(RemoveAll(t, dead))
  {
  }

  lemma RemoveAllNothing(t: Table)
    ensures RemoveAll(t, {}) == t
  {
    MinusNothing(t.bss, {});
    MinusNothing(t.bssId, {});
    MinusNothing(t.lastRes, {});
  }

  /** Removing in two rounds removes the union. */
  lemma RemoveAllTwice(t: Table, a: set<Bss>, b: set<Bss>)
    ensures RemoveAll(RemoveAll(t, a), b) == RemoveAll(t, a + b)
  {
    MinusTwice(t.bss, a, b);
    MinusTwice(t.bssId, a, b);
    MinusTwice(t.lastRes, a, b);
    assert (t.heap - a) - b == t.heap - (a + b);
  }

  /** The same table, but for what the entries hold besides ids and rounds. */
  ghost predicate SameOrder(t: Table, u: Table) {
    && u.heap.Keys == t.heap.Keys && u.bss == t.bss && u.bssId == t.bssId && u.lastRes == t.lastRes
    && u.num == t.num && u.nextId == t.nextId && u.updateIdx == t.updateIdx
    && forall r :: r in t.heap ==> u.heap[r].id == t.heap[r].id && u.heap[r].lastUpdateIdx == t.heap[r].lastUpdateIdx
  }

  lemma SameOrderLists(t: Table, u: Table)
    requires Lists(t) && SameOrder(t, u)
    ensures Lists(u)
  {
  }

  lemma SameOrderOrders(t: Table, u: Table)
    requires Lists(t) && Ids(t) && Recency(t) && SameOrder(t, u)
    ensures Lists(u) && Ids(u) && Recency(u)
  {
    SameOrderLists(t, u);
    forall i, j | 0 <= i < j < |t.bssId| ensures u.heap[u.bssId[i]].id < u.heap[u.bssId[j]].id {
      assert t.heap[t.bssId[i]].id < t.heap[t.bssId[j]].id;
    }
    forall i, j | 0 <= i < j < |t.bss| ensures u.heap[u.bss[i]].lastUpdateIdx <= u.heap[u.bss[j]].lastUpdateIdx {
      assert t.heap[t.bss[i]].lastUpdateIdx <= t.heap[t.bss[j]].lastUpdateIdx;
    }
  }

  lemma SameOrderSeen(t: Table, u: Table)
    requires Seen(t) && SameOrder(t, u)
    ensures Seen(u)
  {
  }

  lemma BumpInv(t: Table, missed: set<Bss>)
    requires Inv(t)
    requires forall r :: r in missed && r in t.heap ==> t.heap[r].lastUpdateIdx < t.updateIdx
    ensures Inv(Bump(t, missed))
  {
    var u := Bump(t, missed);
    assert u.heap.Keys == t.heap.Keys;
    SameOrderOrders(t, u);
    SameOrderSeen(t, u);
  }

  lemma AmendInv(t: Table, r: Bss, ssid: Octets, change: Fields -> Fields)
    requires Inv(t) && r in t.heap
    ensures Inv(Amend(t, r, ssid, change))
  {
    var u := Amend(t, r, ssid, change);
    assert u.heap.Keys == t.heap.Keys;
    SameOrderOrders(t, u);
    SameOrderSeen(t, u);
  }

  // ----- adding an entry

  lemma MakeRoomInv(t: Table, env: Env)
    requires Inv(t) && CanMakeRoom(t, env)
    ensures Inv(MakeRoom(t, env))
  {
    if Full(t) && Victim(t, env) != null {
      RemoveAllInv(t, {Victim(t, env)});
    }
  }

  lemma InsertLists(t: Table, r: Bss, e: Entry)
    requires Lists(t) && r !in t.heap
    ensures Lists(Insert(t, r, e))
  {
  }

  lemma InsertInv(t: Table, r: Bss, e: Entry)
    requires Inv(t) && r !in t.heap
    requires e.id == t.nextId && e.lastUpdateIdx == t.updateIdx && e.missCount == 0
    ensures Inv(Record(Insert(t, r, e), r))
  {
    InsertLists(t, r, e);
    InsertOrders(t, r, e);
    AppendDistinct(t.lastRes, r);
    RecordInv(Insert(t, r, e), r);
  }

  lemma InsertOrders(t: Table, r: Bss, e: Entry)
    requires Lists(t) && Ids(t) && Recency(t) && r !in t.heap
    requires e.id == t.nextId && e.lastUpdateIdx == t.updateIdx
    ensures Lists(Insert(t, r, e)) && Ids(Insert(t, r, e)) && Recency(Insert(t, r, e))
  {
    InsertLists(t, r, e);
    InsertIds(t, r, e);
    RecencyAtEnd(t, Insert(t, r, e), r);
  }

  lemma InsertIds(t: Table, r: Bss, e: Entry)
    requires Lists(t) && Ids(t) && r !in t.heap && e.id == t.nextId && Lists(Insert(t, r, e))
    ensures Ids(Insert(t, r, e))
  {
  }

  lemma AddInv(t: Table, env: Env, ssid: Octets, res: ScanRes, fetch: Time, r: Bss)
    requires Inv(t) && CanMakeRoom(t, env) && r !in t.heap
    ensures Inv(Record(Add(t, env, ssid, res, fetch, r), r))
  {
    MakeRoomInv(t, env);
    InsertInv(MakeRoom(t, env), r, NewEntry(t, ssid, res, fetch));
  }

  // ----- refreshing an entry

  lemma MoveLists(t: Table, r: Bss, r': Bss, e: Entry)
    requires Lists(t) && r in t.heap && (r' == r || r' !in t.heap)
    ensures Lists(Move(t, r, r', e))
  {
    var u := Move(t, r, r', e);
    MinusDistinct(t.bss, {r});
    AppendDistinct(Minus(t.bss, {r}), r');
    assert Distinct(u.bssId) by {
      if r' != r {
        RenamedDistinct(t.bssId, r, r');
      } else {
        assert u.bssId == t.bssId;
      }
    }
    forall q: Bss ensures q in u.bssId <==> q in u.heap {
      RenamedMembers(t.bssId, r, r', q);
    }
    SameMembersSameLength(u.bss, u.bssId);
    SameMembersSameLength(t.bss, t.bssId);
  }

  lemma MoveIds(t: Table, r: Bss, r': Bss, e: Entry)
    requires Lists(t) && Ids(t) && r in t.heap && (r' == r || r' !in t.heap)
    requires e.id == t.heap[r].id
    ensures Lists(Move(t, r, r', e)) && Ids(Move(t, r, r', e))
  {
    MoveLists(t, r, r', e);
    var u := Move(t, r, r', e);
    forall i | 0 <= i < |t.bssId| ensures IdAt(u, i) == IdAt(t, i) {
      MoveIdAt(t, r, r', e, i);
    }
    SameIds(t, u);
  }

  /** Id lists with the same ids in the same places are ordered alike. */
  lemma SameIds(t: Table, u: Table)
    requires Lists(t) && Ids(t) && Lists(u) && |u.bssId| == |t.bssId| && u.nextId == t.nextId
    requires forall i :: 0 <= i < |t.bssId| ==> IdAt(u, i) == IdAt(t, i)
    ensures Ids(u)
  {
    assert forall i, j :: 0 <= i < j < |t.bssId| ==> IdAt(t, i) < IdAt(t, j);
    forall i, j | 0 <= i < j < |u.bssId| ensures u.heap[u.bssId[i]].id < u.heap[u.bssId[j]].id {
      assert IdAt(u, i) == IdAt(t, i) < IdAt(t, j) == IdAt(u, j);
    }
    forall q | q in u.heap ensures u.heap[q].id < u.nextId {
      IdBelow(t, u, q);
    }
  }

  ghost function IdAt(t: Table, i: int): int {
    if 0 <= i < |t.bssId| && t.bssId[i] in t.heap then t.heap[t.bssId[i]].id else -1
  }

  lemma IdBelow(t: Table, u: Table, q: Bss)
    requires |u.bssId| == |t.bssId| && forall i :: 0 <= i < |t.bssId| ==> IdAt(u, i) == IdAt(t, i)
    requires (forall r :: r in t.heap ==> t.heap[r].id < t.nextId) && q in u.bssId && q in u.heap
    ensures u.heap[q].id < t.nextId
  {
    var i: nat :| i < |u.bssId| && u.bssId[i] == q;
    assert IdAt(u, i) == IdAt(t, i);
  }

  lemma MoveIdAt(t: Table, r: Bss, r': Bss, e: Entry, i: nat)
    requires Lists(t) && r in t.heap && e.id == t.heap[r].id && (r' == r || r' !in t.heap) && i < |t.bssId|
    ensures IdAt(Move(t, r, r', e), i) == IdAt(t, i)
  {
  }

  lemma MoveRecency(t: Table, r: Bss, r': Bss, e: Entry)
    requires Lists(t) && Recency(t) && r in t.heap && (r' == r || r' !in t.heap)
    requires e.lastUpdateIdx == t.updateIdx
    ensures Lists(Move(t, r, r', e)) && Recency(Move(t, r, r', e))
  {
    MoveLists(t, r, r', e);
    RemoveAllRecency(t, {r});
    var m, u := RemoveAll(t, {r}), Move(t, r, r', e);
    assert r' !in m.heap;
    assert u.heap == m.heap[r' := e];
    RecencyAtEnd(m, u, r');
  }

  /** An entry stamped with this round may go to the end of the recency list. */
  lemma RecencyAtEnd(m: Table, u: Table, r: Bss)
    requires Lists(m) && Recency(m) && Lists(u)
    requires r !in m.heap && u.bss == m.bss + [r] && u.updateIdx == m.updateIdx
    requires r in u.heap && u.heap == m.heap[r := u.heap[r]] && u.heap[r].lastUpdateIdx == u.updateIdx
    ensures Recency(u)
  {
  }

  lemma MoveSeen(t: Table, r: Bss, r': Bss, e: Entry)
    requires Seen(t) && r in t.heap && (r' == r || r' !in t.heap)
    requires e.lastUpdateIdx == t.updateIdx
    ensures Seen(Record(Move(t, r, r', e), r'))
  {
    var u := Move(t, r, r', e);
    assert Distinct(u.lastRes) by {
      if r' != r {
        RenamedDistinct(t.lastRes, r, r');
      } else {
        assert u.lastRes == t.lastRes;
      }
    }
    forall q: Bss? ensures q in u.lastRes <==> (q in t.lastRes && q != r) || (q == r' && r in t.lastRes) {
      RenamedMembers<Bss?>(t.lastRes, r, r', q);
    }
    if r' !in u.lastRes {
      AppendDistinct(u.lastRes, r');
    }
  }

  lemma MoveInv(t: Table, r: Bss, r': Bss, e: Entry)
    requires Inv(t) && r in t.heap && (r' == r || r' !in t.heap)
    requires e.id == t.heap[r].id && e.lastUpdateIdx == t.updateIdx && e.missCount == 0
    ensures Inv(Record(Move(t, r, r', e), r'))
  {
    MoveIds(t, r, r', e);
    MoveRecency(t, r, r', e);
    MoveSeen(t, r, r', e);
    MoveRest(t, r, r', e);
    RecordInv(Move(t, r, r', e), r');
  }

  lemma MoveRest(t: Table, r: Bss, r': Bss, e: Entry)
    requires SeenUnmissed(t) && WorkOk(t) && r in t.heap && (r' == r || r' !in t.heap)
    requires e.lastUpdateIdx == t.updateIdx && e.missCount == 0
    ensures SeenUnmissed(Move(t, r, r', e)) && WorkOk(Move(t, r, r', e))
  {
  }

  lemma RecordInv(t: Table, r: Bss)
    requires Lists(t) && Ids(t) && Recency(t) && SeenUnmissed(t) && WorkOk(t) && Seen(Record(t, r))
    ensures Inv(Record(t, r))
  {
  }

  lemma UpdateInv(t: Table, r: Bss, res: ScanRes, fetch: Time, spare: Bss)
    requires Inv(t) && r in t.heap && spare !in t.heap
    ensures Inv(Record(Update(t, r, res, fetch, spare),
                       if Ignored(t, r, res, fetch) then r else Relocated(t, r, res, spare)))
  {
    if !Ignored(t, r, res, fetch) {
      MoveInv(t, r, Relocated(t, r, res, spare), Refreshed(t.heap[r], t.updateIdx, res, fetch));
    }
  }

  lemma FirstInAt(s: seq<Bss>, good: set<Bss>, i: nat)
    requires i <= |s| && (i < |s| ==> s[i] in good) && forall j :: 0 <= j < i ==> s[j] !in good
    ensures FirstIn(s, good) == if i < |s| then s[i] else null
  {
  }

  lemma FindSound(t: Table, env: Env, key: Key)
    requires Lists(t)
    ensures var r := Find(t, env, key); r != null ==> r in t.heap && KeyOf(t.heap[r]) == key
    ensures Find(t, env, key) == null && env.passes(key.bssid) ==> WithKey(t, key) == {}
  {
  }

  /** One scan result, whatever it is and wherever it ends up, keeps the whole table consistent. */
  lemma UpdateScanResInv(t: Table, env: Env, res: ScanRes, fetch: Time, spare: Bss)
    requires Inv(t) && CanFile(t, env, res, fetch) && spare !in t.heap
    ensures Inv(UpdateScanRes(t, env, res, fetch, spare))
  {
    var key := ResultKey(env, res, fetch);
    if key.Some? {
      FindSound(t, env, key.value);
      var r := Find(t, env, key.value);
      if r == null {
        AddInv(t, env, key.value.ssid, res, fetch, spare);
      } else {
        UpdateInv(t, r, res, fetch, spare);
      }
    }
  }

  lemma UpdateStartInv(t: Table)
    requires Inv(t)
    ensures Inv(UpdateStart(t)) && UpdateStart(t).lastRes == []
  {
  }

  lemma UpdateEndInv(t: Table, env: Env, info: ScanInfo, newScan: bool)
    requires Inv(t) && (Expires(info, newScan) ==> CurrentOk(t))
    ensures Inv(UpdateEnd(t, env, info, newScan))
  {
    if Expires(info, newScan) {
      BumpInv(t, Missed(t, env, info));
      RemoveAllInv(Bump(t, Missed(t, env, info)), Dropped(t, env, info));
    }
  }
}
