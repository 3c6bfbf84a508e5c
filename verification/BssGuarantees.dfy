/** Properties of the table that hold under a condition, with the condition made exact. */
module BssGuarantees {
  import opened Elements
  import opened RelTime
  import opened Seqs
  import opened BssModel
  import opened BssInvariant
  import opened BssRuns

  // ----- no two entries with one key

  /** Adding keeps keys unique exactly when the key is not there once room has been made. */
  lemma AddUnique(t: Table, env: Env, ssid: Octets, res: ScanRes, fetch: Time, r: Bss)
    requires Inv(t) && CanMakeRoom(t, env) && KeysUnique(t) && r !in t.heap
    ensures KeysUnique(Add(t, env, ssid, res, fetch, r))
            <==> WithKey(MakeRoom(t, env), Key(res.bssid, ssid)) == {}
  {
    if Full(t) && Victim(t, env) != null {
      RemoveAllUnique(t, {Victim(t, env)});
    }
    InsertUnique(MakeRoom(t, env), r, NewEntry(t, ssid, res, fetch));
  }

  lemma InsertUnique(m: Table, r: Bss, e: Entry)
    requires KeysUnique(m) && r !in m.heap
    ensures KeysUnique(Insert(m, r, e)) <==> WithKey(m, KeyOf(e)) == {}
  {
    var u := Insert(m, r, e);
    if WithKey(m, KeyOf(e)) != {} {
      var q :| q in WithKey(m, KeyOf(e));
      assert q != r && KeyOf(u.heap[q]) == KeyOf(u.heap[r]);
    } else {
      forall p, q | p in u.heap && q in u.heap && KeyOf(u.heap[p]) == KeyOf(u.heap[q]) ensures p == q {
        assert p != r ==> p !in WithKey(m, KeyOf(e));
        assert q != r ==> q !in WithKey(m, KeyOf(e));
      }
    }
  }

  lemma UpdateUnique(t: Table, r: Bss, res: ScanRes, fetch: Time, spare: Bss)
    requires Inv(t) && KeysUnique(t) && r in t.heap && spare !in t.heap && res.bssid == t.heap[r].bssid
    ensures KeysUnique(Update(t, r, res, fetch, spare))
  {
  }

  lemma MakeRoomAddsNothing(t: Table, env: Env, key: Key)
    requires CanMakeRoom(t, env)
    ensures WithKey(MakeRoom(t, env), key) <= WithKey(t, key)
  {
  }

  /** A scan result keeps keys unique exactly when it is skipped, or passes the filter that the lookup
      applies, or its key is not in the table once room has been made. */
  lemma ResultUnique(t: Table, env: Env, res: ScanRes, fetch: Time, spare: Bss)
    requires Inv(t) && CanFile(t, env, res, fetch) && KeysUnique(t) && spare !in t.heap
    ensures KeysUnique(UpdateScanRes(t, env, res, fetch, spare))
            <==> var key := ResultKey(env, res, fetch);
                 key.None? || env.passes(res.bssid) || WithKey(MakeRoom(t, env), key.value) == {}
  {
    var key := ResultKey(env, res, fetch);
    if key.Some? {
      FindSound(t, env, key.value);
      var r := Find(t, env, key.value);
      if r != null {
        UpdateUnique(t, r, res, fetch, spare);
      } else {
        AddUnique(t, env, key.value.ssid, res, fetch, spare);
        KeyIsBssid(env, res, fetch);
        MakeRoomAddsNothing(t, env, key.value);
      }
    }
  }

  lemma ChangeUnique(t: Table, r: Bss, ssid: Octets, change: Fields -> Fields)
    requires KeysUnique(t) && r in t.heap
    ensures KeysUnique(Amend(t, r, ssid, change)) <==> WithKey(t, Key(t.heap[r].bssid, ssid)) <= {r}
  {
    var u, key := Amend(t, r, ssid, change), Key(t.heap[r].bssid, ssid);
    assert KeyOf(u.heap[r]) == key && forall q :: q in u.heap && q != r ==> u.heap[q] == t.heap[q];
    forall q | q in WithKey(t, key) && q != r ensures KeyOf(u.heap[q]) == KeyOf(u.heap[r]) {
    }
    forall q | q in u.heap && q != r && KeyOf(u.heap[q]) == key ensures q in WithKey(t, key) {
    }
  }

  /** What a caller can ask before the step: the result is not filed, or passes the filter, or finds no
      entry of its key once room has been made; the new name of an entry is not that of another one of
      the same address. */
  ghost predicate KeepsApart(t: Table, s: Step)
    requires Lists(t) && Enabled(t, s)
  {
    match s
    case Result(env, res, fetch, _) =>
      var key := ResultKey(env, res, fetch);
      key.None? || env.passes(res.bssid)
      || (Find(t, env, key.value) == null && WithKey(MakeRoom(t, env), key.value) == {})
    case Change(entry, ssid, _) => WithKey(t, Key(t.heap[entry].bssid, ssid)) <= {entry}
    case _ => true
  }

  /** That is exactly when a step keeps keys unique. */
  lemma StepUnique(t: Table, s: Step)
    requires Inv(t) && KeysUnique(t) && Enabled(t, s)
    ensures KeysUnique(Apply(t, s)) <==> KeepsApart(t, s)
  {
    if s.Result? {
      ResultUnique(t, s.env, s.res, s.fetch, s.spare);
      FilteredNotFound(t, s.env, s.res, s.fetch);
    } else if s.Change? {
      ChangeUnique(t, s.entry, s.ssid, s.change);
    } else {
      OtherUnique(t, s);
    }
  }

  lemma FilteredNotFound(t: Table, env: Env, res: ScanRes, fetch: Time)
    ensures var key := ResultKey(env, res, fetch);
            key.Some? && !env.passes(res.bssid) ==> Find(t, env, key.value) == null
  {
    KeyIsBssid(env, res, fetch);
  }

  lemma OtherUnique(t: Table, s: Step)
    requires Inv(t) && KeysUnique(t) && Enabled(t, s) && !s.Result? && !s.Change?
    ensures KeysUnique(Apply(t, s))
  {
    var u := Apply(t, s);
    forall p, q | p in u.heap && q in u.heap && KeyOf(u.heap[p]) == KeyOf(u.heap[q]) ensures p == q {
      if s.End? {
        EndKeeps(t, s, p);
        EndKeeps(t, s, q);
      } else {
        OtherKeeps(t, s, p);
        OtherKeeps(t, s, q);
      }
    }
  }

  /** Keys are unique after every step of the run. */
  ghost predicate AlwaysUnique(run: Run)
    requires Legal(run)
  {
    match run
    case Begin(_) => true
    case Then(prev, _) => AlwaysUnique(prev) && KeysUnique(After(run))
  }

  ghost predicate AlwaysApart(run: Run)
    requires Legal(run)
  {
    match run
    case Begin(_) => true
    case Then(prev, s) => AlwaysApart(prev) && KeepsApart(After(prev), s)
  }

  /** Exactly over which runs no two entries ever have the same key. */
  lemma {:induction false} UniqueExactly(run: Run)
    requires Legal(run)
    ensures AlwaysUnique(run) <==> AlwaysApart(run)
    ensures AlwaysUnique(run) ==> KeysUnique(After(run))
  {
    if run.Then? {
      UniqueExactly(run.prev);
      if AlwaysUnique(run.prev) {
        StepUnique(After(run.prev), run.step);
      }
    }
  }

  ghost predicate AllPass(run: Run) {
    match run
    case Begin(_) => true
    case Then(prev, s) => AllPass(prev) && (s.Result? ==> s.env.passes(s.res.bssid))
  }

  /** No entry is given the name of another one of the same address. */
  ghost predicate NamesApart(run: Run)
    requires Legal(run)
  {
    match run
    case Begin(_) => true
    case Then(prev, s) => NamesApart(prev) && (s.Change? ==> KeepsApart(After(prev), s))
  }

  /** Where all results pass the filter, only the names given from outside matter. */
  lemma {:induction false} ReachableKeysUnique(run: Run)
    requires Legal(run) && AllPass(run)
    ensures AlwaysUnique(run) <==> NamesApart(run)
    ensures AlwaysUnique(run) ==> KeysUnique(After(run))
  {
    UniqueExactly(run);
    if run.Then? {
      ReachableKeysUnique(run.prev);
      UniqueExactly(run.prev);
    }
  }

  // ----- pointers from outside

  /** Making room takes the current entry away exactly when the table is full and the current entry is
      the first in the recency list that is neither known nor a candidate for WPS: that first pass does
      not ask whether an entry is in use. */
  lemma MakeRoomKeepsCurrent(t: Table, env: Env)
    requires Inv(t) && CurrentOk(t)
    ensures CurrentOk(MakeRoom(t, env))
            <==> t.current == null || !Full(t) || FirstIn(t.bss, Unknown(t, env)) != t.current
  {
  }

  /** A scan result leaves the current pointer in the table exactly when it does not need room, or the
      entry that makes room in the first pass is another one. */
  lemma ResultKeepsCurrent(t: Table, env: Env, res: ScanRes, fetch: Time, spare: Bss)
    requires Inv(t) && CurrentOk(t) && spare !in t.heap
    ensures CurrentOk(UpdateScanRes(t, env, res, fetch, spare))
            <==> var key := ResultKey(env, res, fetch);
                 t.current == null || key.None? || Find(t, env, key.value) != null || !Full(t)
                 || FirstIn(t.bss, Unknown(t, env)) != t.current
  {
    var key := ResultKey(env, res, fetch);
    if key.Some? {
      FindSound(t, env, key.value);
      var r := Find(t, env, key.value);
      if r == null {
        MakeRoomKeepsCurrent(t, env);
        AddCurrent(t, env, key.value.ssid, res, fetch, spare);
        RecordCurrent(Add(t, env, key.value.ssid, res, fetch, spare), spare);
      } else {
        UpdateCurrent(t, r, res, fetch, spare);
        var r' := if Ignored(t, r, res, fetch) then r else Relocated(t, r, res, spare);
        RecordCurrent(Update(t, r, res, fetch, spare), r');
      }
    }
  }

  lemma RecordCurrent(t: Table, r: Bss)
    ensures CurrentOk(Record(t, r)) <==> CurrentOk(t)
  {
  }

  lemma UpdateCurrent(t: Table, r: Bss, res: ScanRes, fetch: Time, spare: Bss)
    requires CurrentOk(t) && r in t.heap
    ensures CurrentOk(Update(t, r, res, fetch, spare))
  {
  }

  lemma AddCurrent(t: Table, env: Env, ssid: Octets, res: ScanRes, fetch: Time, r: Bss)
    requires CurrentOk(t) && r !in t.heap
    ensures CurrentOk(Add(t, env, ssid, res, fetch, r)) <==> CurrentOk(MakeRoom(t, env))
  {
  }

  /** All other steps keep it; so does a scan result if the current entry is known or a candidate. */
  lemma StepKeepsPointers(t: Table, s: Step)
    requires Inv(t) && Enabled(t, s) && CurrentOk(t)
    requires s.Result? && t.current != null ==>
               s.env.known(t.heap[t.current]) || s.env.wpsCandidate(t.heap[t.current])
    ensures CurrentOk(Apply(t, s)) && WorkOk(Apply(t, s))
  {
    StepInv(t, s);
    if s.Result? {
      ResultKeepsCurrent(t, s.env, s.res, s.fetch, s.spare);
      assert t.current != null ==> t.current !in Unknown(t, s.env);
    } else if s.FlushOld? {
      AgedUnused(t, s.env, t.bss, s.cut);
    }
  }

  /** Whenever a result comes, the current entry is known or a candidate. */
  ghost predicate CurrentKnown(run: Run)
    requires Legal(run)
  {
    match run
    case Begin(_) => true
    case Then(prev, s) =>
      var t := After(prev);
      CurrentKnown(prev)
      && (s.Result? && t.current != null && t.current in t.heap ==>
            s.env.known(t.heap[t.current]) || s.env.wpsCandidate(t.heap[t.current]))
  }

  /** Then no outside pointer ever dangles. */
  lemma {:induction false} PointersNeverDangle(run: Run)
    requires Legal(run) && CurrentKnown(run)
    ensures CurrentOk(After(run)) && WorkOk(After(run))
  {
    if run.Then? {
      PointersNeverDangle(run.prev);
      StepKeepsPointers(After(run.prev), run.step);
    }
  }

  lemma {:induction false} AgedUnused(t: Table, env: Env, s: seq<Bss>, cut: Time)
    requires CurrentOk(t) && forall r :: r in s ==> r in t.heap
    ensures forall r :: r in Aged(t, env, s, cut) ==> r in s && r in Unused(t, env) && OlderThan(t, r, cut)
  {
    if s != [] {
      AgedUnused(t, env, s[1..], cut);
    }
  }

  // ----- capacity and eviction

  /** Who has to go: of the entries neither known nor candidates for WPS the least recently updated,
      else of those not in use the least recently updated; nobody, if all are both. */
  lemma VictimIsOldest(t: Table, env: Env, q: Bss)
    requires Inv(t) && CurrentOk(t) && q in t.heap
    ensures var v := Victim(t, env);
            && (v != null ==> v in t.heap)
            && (q in Unknown(t, env) ==>
                  v in Unknown(t, env) && t.heap[v].lastUpdateIdx <= t.heap[q].lastUpdateIdx)
            && (q in Unused(t, env) ==>
                  v in Unknown(t, env)
                  || (Unknown(t, env) == {} && v in Unused(t, env)
                      && t.heap[v].lastUpdateIdx <= t.heap[q].lastUpdateIdx))
            && (v == null ==> q !in Unknown(t, env) && InUse(t, env, q))
  {
  }

  /** The limit is raised exactly when the table is full and every entry is in use, and known or a
      candidate for WPS; otherwise an addition keeps within the limit by one eviction. */
  lemma AddWithinCapacity(t: Table, env: Env, ssid: Octets, res: ScanRes, fetch: Time, r: Bss)
    requires Inv(t) && CanMakeRoom(t, env) && r !in t.heap && t.num <= t.maxCount
    ensures var u := Add(t, env, ssid, res, fetch, r);
            && u.num <= u.maxCount
            && (u.maxCount != t.maxCount <==>
                  Full(t) && Unknown(t, env) == {} && CurrentOk(t) && Unused(t, env) == {})
            && (u.maxCount != t.maxCount ==> u.maxCount == u.num == t.num + 1)
  {
    if Full(t) {
      NoneToTake(t, Unknown(t, env));
      if CurrentOk(t) {
        NoneToTake(t, Unused(t, env));
      }
      var v := Victim(t, env);
      if v != null {
        OneLess(t, v);
      }
    }
  }

  lemma NoneToTake(t: Table, good: set<Bss>)
    requires Lists(t) && good <= t.heap.Keys
    ensures FirstIn(t.bss, good) == null <==> good == {}
  {
  }

  lemma OneLess(t: Table, v: Bss)
    requires Lists(t) && v in t.heap
    ensures RemoveAll(t, {v}).num == t.num - 1
  {
    var k :| 0 <= k < |t.bss| && t.bss[k] == v;
    UnlinkAt(t.bss, k);
  }

  lemma {:induction false} NeverOverCapacity(run: Run)
    requires Legal(run) && StartsNonNegative(run)
    ensures After(run).num <= After(run).maxCount
  {
    if run.Then? {
      NeverOverCapacity(run.prev);
      if run.step.Result? {
        ResultWithinCapacity(After(run.prev), run.step.env, run.step.res, run.step.fetch, run.step.spare);
      } else {
        OtherWithinCapacity(After(run.prev), run.step);
      }
    }
  }

  lemma ResultWithinCapacity(t: Table, env: Env, res: ScanRes, fetch: Time, spare: Bss)
    requires Inv(t) && CanFile(t, env, res, fetch) && spare !in t.heap && t.num <= t.maxCount
    ensures UpdateScanRes(t, env, res, fetch, spare).num <= UpdateScanRes(t, env, res, fetch, spare).maxCount
  {
    var key := ResultKey(env, res, fetch);
    if key.Some? {
      FindSound(t, env, key.value);
      if Find(t, env, key.value) == null {
        AddWithinCapacity(t, env, key.value.ssid, res, fetch, spare);
      }
    }
  }

  lemma OtherWithinCapacity(t: Table, s: Step)
    requires Inv(t) && Enabled(t, s) && !s.Result? && t.num <= t.maxCount
    ensures Apply(t, s).num <= Apply(t, s).maxCount
  {
  }

  predicate StartsNonNegative(run: Run) {
    match run
    case Begin(n) => n >= 0
    case Then(prev, _) => StartsNonNegative(prev)
  }

  // ----- flushing by age, and looking up by address

  /** The recency list is also ordered by the time of the last update. */
  ghost predicate TimeOrdered(t: Table)
    requires Lists(t)
  {
    forall i, j :: 0 <= i < j < |t.bss| ==>
      Micros(t.heap[t.bss[i]].lastUpdate) <= Micros(t.heap[t.bss[j]].lastUpdate)
  }

  /** Some entry that should go stands behind one that is neither in use nor old. */
  ghost predicate Shielded(t: Table, env: Env, s: seq<Bss>, cut: Time)
    requires CurrentOk(t) && forall r :: r in s ==> r in t.heap
  {
    exists i, j :: 0 <= i < j < |s|
      && !InUse(t, env, s[i]) && !OlderThan(t, s[i], cut)
      && !InUse(t, env, s[j]) && OlderThan(t, s[j], cut)
  }

  /** All entries that are not in use and older than the cut are taken, exactly when none of them
      stands behind an entry that is neither in use nor old. */
  lemma {:induction false} AgedExact(t: Table, env: Env, s: seq<Bss>, cut: Time)
    requires CurrentOk(t) && forall r :: r in s ==> r in t.heap
    requires Distinct(s)
    ensures (forall r :: r in s && r in Unused(t, env) && OlderThan(t, r, cut) ==> r in Aged(t, env, s, cut))
            <==> !Shielded(t, env, s, cut)
  {
    AgedUnused(t, env, s, cut);
    if s != [] {
      var rest := s[1..];
      AgedExact(t, env, rest, cut);
      if InUse(t, env, s[0]) || OlderThan(t, s[0], cut) {
        ShieldedRest(t, env, s, cut);
        assert s[0] !in rest;
        assert forall r :: r in s <==> r == s[0] || r in rest;
      } else {
        forall r | r in s && r in Unused(t, env) && OlderThan(t, r, cut) ensures Shielded(t, env, s, cut) {
          var j :| 0 <= j < |s| && s[j] == r;
          assert 0 < j;
        }
      }
    }
  }

  lemma ShieldedRest(t: Table, env: Env, s: seq<Bss>, cut: Time)
    requires CurrentOk(t) && (forall r :: r in s ==> r in t.heap) && s != []
    requires InUse(t, env, s[0]) || OlderThan(t, s[0], cut)
    ensures Shielded(t, env, s, cut) <==> Shielded(t, env, s[1..], cut)
  {
  }

  /** Flushing by age takes only entries not in use and older than the cut, keeps all others, and under
      time order takes all of them. */
  lemma FlushByAgeExact(t: Table, env: Env, cut: Time, q: Bss)
    requires Inv(t) && CurrentOk(t) && q in t.heap
    ensures var u := FlushByAge(t, env, cut);
            && (q !in u.heap ==> q in Unused(t, env) && OlderThan(t, q, cut))
            && (q in u.heap ==> u.heap[q] == t.heap[q])
            && (TimeOrdered(t) ==> (q !in u.heap <==> q in Unused(t, env) && OlderThan(t, q, cut)))
  {
    AgedUnused(t, env, t.bss, cut);
    AgedExact(t, env, t.bss, cut);
    if TimeOrdered(t) {
      OrderedNotShielded(t, env, cut);
    }
  }

  lemma OrderedNotShielded(t: Table, env: Env, cut: Time)
    requires Lists(t) && CurrentOk(t) && TimeOrdered(t)
    ensures !Shielded(t, env, t.bss, cut)
  {
  }

  /** The last entry of the recency list with this address. */
  ghost predicate IsLastOf(t: Table, bssid: Octets, i: int)
    requires Lists(t)
  {
    && -1 <= i < |t.bss|
    && (i >= 0 ==> t.heap[t.bss[i]].bssid == bssid)
    && forall j :: i < j < |t.bss| ==> t.heap[t.bss[j]].bssid != bssid
  }

  /** The entry with this address that was updated latest; of several, the last in the recency list. */
  ghost predicate IsLatestOf(t: Table, bssid: Octets, i: int)
    requires Lists(t)
  {
    && -1 <= i < |t.bss|
    && (i >= 0 ==> t.heap[t.bss[i]].bssid == bssid)
    && (i < 0 ==> forall j :: 0 <= j < |t.bss| ==> t.heap[t.bss[j]].bssid != bssid)
    && (i >= 0 ==> forall j :: 0 <= j < |t.bss| && t.heap[t.bss[j]].bssid == bssid ==>
          Micros(t.heap[t.bss[j]].lastUpdate) <= Micros(t.heap[t.bss[i]].lastUpdate)
          && (j > i ==> Micros(t.heap[t.bss[j]].lastUpdate) < Micros(t.heap[t.bss[i]].lastUpdate)))
  }

  /** The first hit from the tail is the latest entry exactly when no entry with the address is newer
      than it; under time order it always is. */
  lemma LastIsLatest(t: Table, bssid: Octets, i: int, k: int)
    requires Lists(t) && IsLastOf(t, bssid, i) && IsLatestOf(t, bssid, k)
    ensures i == k <==> i < 0 || forall j :: 0 <= j < |t.bss| && t.heap[t.bss[j]].bssid == bssid ==>
              Micros(t.heap[t.bss[j]].lastUpdate) <= Micros(t.heap[t.bss[i]].lastUpdate)
    ensures TimeOrdered(t) ==> i == k
  {
  }
}
