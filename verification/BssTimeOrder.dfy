/** When the recency list is ordered by time, too, so that the early exits lose nothing. */
module BssTimeOrder {
  import opened Elements
  import opened RelTime
  import opened Seqs
  import opened BssModel
  import opened BssInvariant
  import opened BssRuns
  import opened BssGuarantees

  /** No entry of the set is newer than this. */
  ghost predicate NoneNewer(t: Table, s: set<Bss>, time: Time) {
    forall q :: q in s && q in t.heap ==> Micros(t.heap[q].lastUpdate) <= Micros(time)
  }

  /** An entry at the end of a list that is ordered keeps it ordered exactly if none before it is newer. */
  lemma EndKeepsOrder(m: Table, u: Table, r: Bss)
    requires Lists(m) && TimeOrdered(m) && Lists(u)
    requires r !in m.heap && u.bss == m.bss + [r] && r in u.heap && u.heap == m.heap[r := u.heap[r]]
    ensures TimeOrdered(u) <==> NoneNewer(m, m.heap.Keys, u.heap[r].lastUpdate)
  {
    var n := |m.bss|;
    if TimeOrdered(u) {
      forall q | q in m.heap ensures Micros(m.heap[q].lastUpdate) <= Micros(u.heap[r].lastUpdate) {
        var i :| 0 <= i < n && m.bss[i] == q;
        assert u.bss[i] == q && u.bss[n] == r;
      }
    }
    if NoneNewer(m, m.heap.Keys, u.heap[r].lastUpdate) {
      forall i, j | 0 <= i < j < |u.bss|
        ensures Micros(u.heap[u.bss[i]].lastUpdate) <= Micros(u.heap[u.bss[j]].lastUpdate)
      {
        assert u.bss[i] == m.bss[i] && m.bss[i] in m.heap;
        assert j < n ==> u.bss[j] == m.bss[j] && m.bss[j] in m.heap;
      }
    }
  }

  lemma RemoveKeepsOrder(t: Table, dead: set<Bss>)
    requires Lists(t) && TimeOrdered(t)
    ensures Lists(RemoveAll(t, dead)) && TimeOrdered(RemoveAll(t, dead))
  {
    RemoveAllLists(t, dead);
    var u := RemoveAll(t, dead);
    forall i, j | 0 <= i < j < |u.bss|
      ensures Micros(u.heap[u.bss[i]].lastUpdate) <= Micros(u.heap[u.bss[j]].lastUpdate)
    {
      var p, q := MinusOrder(t.bss, dead, i, j);
      assert Micros(t.heap[t.bss[p]].lastUpdate) <= Micros(t.heap[t.bss[q]].lastUpdate);
    }
  }

  /** A refreshed entry, moved to the end, keeps the order exactly if no other is newer. */
  lemma MoveKeepsOrder(t: Table, r: Bss, r': Bss, e: Entry)
    requires Lists(t) && TimeOrdered(t) && r in t.heap && (r' == r || r' !in t.heap)
    ensures Lists(Move(t, r, r', e))
    ensures TimeOrdered(Move(t, r, r', e)) <==> NoneNewer(t, t.heap.Keys - {r}, e.lastUpdate)
  {
    MoveLists(t, r, r', e);
    RemoveKeepsOrder(t, {r});
    EndKeepsOrder(RemoveAll(t, {r}), Move(t, r, r', e), r');
  }

  lemma MakeRoomKeepsOrder(t: Table, env: Env)
    requires Inv(t) && TimeOrdered(t) && CanMakeRoom(t, env)
    ensures Inv(MakeRoom(t, env)) && TimeOrdered(MakeRoom(t, env))
  {
    MakeRoomInv(t, env);
    if Full(t) && Victim(t, env) != null {
      RemoveKeepsOrder(t, {Victim(t, env)});
    }
  }

  lemma AddKeepsOrder(t: Table, env: Env, ssid: Octets, res: ScanRes, fetch: Time, r: Bss)
    requires Inv(t) && TimeOrdered(t) && CanMakeRoom(t, env) && r !in t.heap
    ensures Lists(Add(t, env, ssid, res, fetch, r))
    ensures TimeOrdered(Add(t, env, ssid, res, fetch, r))
            <==> NoneNewer(t, MakeRoom(t, env).heap.Keys, UpdateTime(fetch, res.age))
  {
    var m := MakeRoom(t, env);
    MakeRoomKeepsOrder(t, env);
    InsertLists(m, r, NewEntry(t, ssid, res, fetch));
    EndKeepsOrder(m, Add(t, env, ssid, res, fetch, r), r);
  }

  /** The entries that a result leaves as they are, if it is taken over. */
  ghost function Others(t: Table, env: Env, res: ScanRes, fetch: Time): set<Bss>
    requires CanFile(t, env, res, fetch) && ResultKey(env, res, fetch).Some?
  {
    var r := Find(t, env, ResultKey(env, res, fetch).value);
    if r == null then MakeRoom(t, env).heap.Keys else t.heap.Keys - {r}
  }

  /** A result keeps the recency list ordered by time exactly if it is skipped, or ignored in favour of
      an earlier result of the round, or no entry that stays is newer than it. */
  lemma ResultKeepsOrder(t: Table, env: Env, res: ScanRes, fetch: Time, spare: Bss)
    requires Inv(t) && TimeOrdered(t) && CanFile(t, env, res, fetch) && spare !in t.heap
    ensures Inv(UpdateScanRes(t, env, res, fetch, spare))
    ensures TimeOrdered(UpdateScanRes(t, env, res, fetch, spare))
            <==> var key := ResultKey(env, res, fetch);
                 || key.None?
                 || (var r := Find(t, env, key.value); r != null && r in t.heap && Ignored(t, r, res, fetch))
                 || NoneNewer(t, Others(t, env, res, fetch), UpdateTime(fetch, res.age))
  {
    UpdateScanResInv(t, env, res, fetch, spare);
    var key := ResultKey(env, res, fetch);
    if key.Some? {
      FindSound(t, env, key.value);
      var r := Find(t, env, key.value);
      if r == null {
        AddKeepsOrder(t, env, key.value.ssid, res, fetch, spare);
        RecordKeepsOrder(Add(t, env, key.value.ssid, res, fetch, spare), spare);
      } else {
        UpdateKeepsOrder(t, r, res, fetch, spare);
        var r' := if Ignored(t, r, res, fetch) then r else Relocated(t, r, res, spare);
        RecordKeepsOrder(Update(t, r, res, fetch, spare), r');
      }
    }
  }

  lemma RecordKeepsOrder(t: Table, r: Bss)
    requires Lists(t)
    ensures Lists(Record(t, r)) && (TimeOrdered(Record(t, r)) <==> TimeOrdered(t))
  {
  }

  lemma UpdateKeepsOrder(t: Table, r: Bss, res: ScanRes, fetch: Time, spare: Bss)
    requires Lists(t) && TimeOrdered(t) && r in t.heap && spare !in t.heap
    ensures Lists(Update(t, r, res, fetch, spare))
    ensures TimeOrdered(Update(t, r, res, fetch, spare))
            <==> Ignored(t, r, res, fetch) || NoneNewer(t, t.heap.Keys - {r}, UpdateTime(fetch, res.age))
  {
    if !Ignored(t, r, res, fetch) {
      MoveKeepsOrder(t, r, Relocated(t, r, res, spare), Refreshed(t.heap[r], t.updateIdx, res, fetch));
    }
  }

  // ----- over runs

  /** No result comes in that is older than an entry of the table. */
  ghost predicate Timely(run: Run)
    requires Legal(run)
  {
    match run
    case Begin(_) => true
    case Then(prev, s) =>
      Timely(prev) && (s.Result? ==> NoneNewer(After(prev), After(prev).heap.Keys, UpdateTime(s.fetch, s.res.age)))
  }

  lemma EndOfRoundKeepsOrder(t: Table, env: Env, info: ScanInfo, newScan: bool)
    requires Inv(t) && TimeOrdered(t) && (Expires(info, newScan) ==> CurrentOk(t))
    ensures Lists(UpdateEnd(t, env, info, newScan)) && TimeOrdered(UpdateEnd(t, env, info, newScan))
  {
    if Expires(info, newScan) {
      var m := Missed(t, env, info);
      BumpInv(t, m);
      assert TimeOrdered(Bump(t, m));
      RemoveKeepsOrder(Bump(t, m), Dropped(t, env, info));
    }
  }

  lemma StepKeepsOrder(t: Table, s: Step)
    requires Inv(t) && TimeOrdered(t) && Enabled(t, s)
    requires s.Result? ==> NoneNewer(t, t.heap.Keys, UpdateTime(s.fetch, s.res.age))
    ensures Inv(Apply(t, s)) && TimeOrdered(Apply(t, s))
  {
    StepInv(t, s);
    match s
    case Result(env, res, fetch, spare) => ResultKeepsOrder(t, env, res, fetch, spare);
    case End(env, info, newScan) => EndOfRoundKeepsOrder(t, env, info, newScan);
    case FlushAll(env) => RemoveKeepsOrder(t, Unused(t, env));
    case FlushOld(env, cut) => RemoveKeepsOrder(t, Aged(t, env, t.bss, cut));
    case Drop(gone) => RemoveKeepsOrder(t, {gone});
    case _ =>
  }

  lemma {:induction false} TimelyRunsStayOrdered(run: Run)
    requires Legal(run) && Timely(run)
    ensures TimeOrdered(After(run))
  {
    if run.Then? {
      TimelyRunsStayOrdered(run.prev);
      StepKeepsOrder(After(run.prev), run.step);
    }
  }

  /** So over timely runs the two lookups by address agree, and flushing by age takes exactly what is
      old and not in use. */
  lemma TimelyRunsLoseNothing(run: Run, bssid: Octets, i: int, k: int, env: Env, cut: Time, q: Bss)
    requires Legal(run) && Timely(run) && CurrentOk(After(run)) && q in After(run).heap
    requires IsLastOf(After(run), bssid, i) && IsLatestOf(After(run), bssid, k)
    ensures i == k
    ensures var t := After(run);
            q !in FlushByAge(t, env, cut).heap <==> q in Unused(t, env) && OlderThan(t, q, cut)
  {
    TimelyRunsStayOrdered(run);
    LastIsLatest(After(run), bssid, i, k);
    FlushByAgeExact(After(run), env, cut, q);
  }
}
