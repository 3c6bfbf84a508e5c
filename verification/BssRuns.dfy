/** Runs of the table: any sequence of operations from the empty table. */
module BssRuns {
  import opened Wrappers
  import opened Elements
  import opened RelTime
  import opened Seqs
  import opened BssModel
  import opened BssTerms
  import opened BssInvariant

  datatype Step =
    | Start
    | Result(env: Env, res: ScanRes, fetch: Time, spare: Bss)
    | End(env: Env, info: ScanInfo, newScan: bool)
    | FlushAll(env: Env)
    | FlushOld(env: Env, cut: Time)
    | Drop(gone: Bss)
    | Select(current: Bss?)
    | Plan(work: Option<Work>)
    | Raise(maxCount: int)
    | Change(entry: Bss, ssid: Octets, change: Fields -> Fields)

  /** Where an operation reads the current entry, that has to be in the table; what the rest of the
      program points to, it takes from the table; memory handed out is not in use already; and changes from
      outside give names only to hidden entries, and leave the ASSOCIATED flag alone. */
  ghost predicate Enabled(t: Table, s: Step)
    requires Lists(t)
  {
    match s
    case Start => true
    case Result(env, res, fetch, spare) => CanFile(t, env, res, fetch) && spare !in t.heap
    case End(env, info, newScan) => Expires(info, newScan) ==> CurrentOk(t)
    case FlushAll(env) => CurrentOk(t)
    case FlushOld(env, cut) => CurrentOk(t)
    case Drop(gone) => gone in t.heap && gone != t.current
    case Select(current) => current == null || current in t.heap
    case Plan(work) => work.Some? && work.value.bss != null ==> work.value.bss in t.heap
    case Raise(maxCount) => maxCount >= t.maxCount
    case Change(entry, ssid, change) =>
      && entry in t.heap && (ssid == t.heap[entry].ssid || t.heap[entry].ssid == [])
      && forall f :: Associated(change(f)) <==> Associated(f)
  }

  ghost function Apply(t: Table, s: Step): Table
    requires Lists(t) && Enabled(t, s)
  {
    match s
    case Start => UpdateStart(t)
    case Result(env, res, fetch, spare) => UpdateScanRes(t, env, res, fetch, spare)
    case End(env, info, newScan) => UpdateEnd(t, env, info, newScan)
    case FlushAll(env) => Flush(t, env)
    case FlushOld(env, cut) => FlushByAge(t, env, cut)
    case Drop(gone) => RemoveAll(t, {gone})
    case Select(current) => t.(current := current)
    case Plan(work) => t.(work := work)
    case Raise(maxCount) => t.(maxCount := maxCount)
    case Change(entry, ssid, change) => Amend(t, entry, ssid, change)
  }

  datatype Run = Begin(maxCount: int) | Then(prev: Run, step: Step)

  lemma StepInv(t: Table, s: Step)
    requires Inv(t) && Enabled(t, s)
    ensures Inv(Apply(t, s))
  {
    match s
    case Start => UpdateStartInv(t);
    case Result(env, res, fetch, spare) => UpdateScanResInv(t, env, res, fetch, spare);
    case End(env, info, newScan) => UpdateEndInv(t, env, info, newScan);
    case FlushAll(env) => RemoveAllInv(t, Unused(t, env));
    case FlushOld(env, cut) => RemoveAllInv(t, Aged(t, env, t.bss, cut));
    case Drop(gone) => RemoveAllInv(t, {gone});
    case Select(current) => assert Lists(t.(current := current));
    case Plan(work) => assert Lists(t.(work := work));
    case Raise(maxCount) => assert Lists(t.(maxCount := maxCount));
    case Change(entry, ssid, change) => AmendInv(t, entry, ssid, change);
  }

  /** The table after a run, if each of its steps was enabled. */
  ghost function Exec(run: Run): (t: Option<Table>)
    ensures t.Some? ==> Inv(t.value)
  {
    match run
    case Begin(maxCount) => EmptyInv(maxCount); Some(EmptyTable(maxCount))
    case Then(prev, s) =>
      var t := Exec(prev);
      if t.Some? && Enabled(t.value, s) then
        StepInv(t.value, s);
        Some(Apply(t.value, s))
      else None
  }

  ghost predicate Legal(run: Run) {
    Exec(run).Some?
  }

  ghost function After(run: Run): (t: Table)
    requires Legal(run)
    ensures Inv(t)
  {
    Exec(run).value
  }

  lemma StepReaches(run: Run, t: Table, s: Step)
    requires Exec(run) == Some(t) && Enabled(t, s)
    ensures Exec(Then(run, s)) == Some(Apply(t, s))
  {
  }

  /** Every table that a run can reach is consistent: both lists hold exactly the live entries, ids
      and rounds are ordered, and the results of the round are the entries stamped with it, without
      repetition and at the end of the recency list. */
  lemma ReachableTablesAreConsistent(run: Run, i: nat, j: nat)
    requires Legal(run)
    ensures var t := After(run);
            && Inv(t)
            && (i <= j < |t.bss| && t.bss[i] in t.lastRes ==> t.bss[j] in t.lastRes)
            && |t.lastRes| <= t.num
  {
    var t := After(run);
    if i <= j < |t.bss| && t.bss[i] in t.lastRes {
      SeenIsSuffix(t, i, j);
    }
    SubsetShorter(t.lastRes, t.bss);
  }

  lemma SubsetShorter(a: seq<Bss?>, b: seq<Bss?>)
    requires Distinct(a) && Distinct(b) && forall x :: x in a ==> x in b
    ensures |a| <= |b|
  {
    DistinctCard(a);
    DistinctCard(b);
    var sa, sb := set x | x in a, set x | x in b;
    CardMonotone(sa, sb);
  }

  lemma CardMonotone(a: set<Bss?>, b: set<Bss?>)
    requires a <= b
    ensures |a| <= |b|
  {
    assert b == a + (b - a);
  }

  lemma IdsUnique(t: Table, r: Bss, q: Bss)
    requires Lists(t) && Ids(t) && r in t.heap && q in t.heap && t.heap[r].id == t.heap[q].id
    ensures r == q
  {
  }

  // ----- who a result is about

  /** The result is about the entry with this id: it creates it or finds it by its key. */
  ghost predicate Handles(t: Table, s: Step, id: nat)
    requires Lists(t) && Enabled(t, s)
  {
    s.Result? && ResultKey(s.env, s.res, s.fetch).Some?
    && var r := Find(t, s.env, ResultKey(s.env, s.res, s.fetch).value);
       FindSound(t, s.env, ResultKey(s.env, s.res, s.fetch).value);
       if r == null then id == t.nextId else t.heap[r].id == id
  }

  /** ... and it is not ignored in favour of an earlier result of the same round. */
  ghost predicate TakesOver(t: Table, s: Step, id: nat)
    requires Lists(t) && Enabled(t, s)
  {
    Handles(t, s, id)
    && var r := Find(t, s.env, ResultKey(s.env, s.res, s.fetch).value);
       FindSound(t, s.env, ResultKey(s.env, s.res, s.fetch).value);
       r == null || !Ignored(t, r, s.res, s.fetch)
  }

  /** With unique keys, a result that passes the filter is about the entry that has its key. */
  lemma HandlesByKey(t: Table, s: Step, r: Bss)
    requires Inv(t) && KeysUnique(t) && Enabled(t, s) && r in t.heap
    requires s.Result? && s.env.passes(s.res.bssid)
    ensures Handles(t, s, t.heap[r].id) <==> ResultKey(s.env, s.res, s.fetch) == Some(KeyOf(t.heap[r]))
  {
    var key := ResultKey(s.env, s.res, s.fetch);
    if key.Some? {
      FindSound(t, s.env, key.value);
      var q := Find(t, s.env, key.value);
      if q != null && t.heap[q].id == t.heap[r].id {
        IdsUnique(t, q, r);
      }
      if key.value == KeyOf(t.heap[r]) {
        assert r in WithKey(t, key.value);
      }
    }
  }

  /** The entry that an accepted result leaves behind. */
  ghost function TakenOver(t: Table, s: Step): Entry
    requires Lists(t) && Enabled(t, s) && s.Result? && ResultKey(s.env, s.res, s.fetch).Some?
  {
    var key := ResultKey(s.env, s.res, s.fetch).value;
    FindSound(t, s.env, key);
    var r := Find(t, s.env, key);
    if r == null then NewEntry(t, key.ssid, s.res, s.fetch)
    else Refreshed(t.heap[r], t.updateIdx, s.res, s.fetch)
  }

  /** What the table makes of a result, told by the entry found for it. */
  lemma TakesOverIs(t: Table, s: Step, id: nat)
    requires Inv(t) && Enabled(t, s) && s.Result? && ResultKey(s.env, s.res, s.fetch).Some?
    ensures var key := ResultKey(s.env, s.res, s.fetch).value;
            var r := Find(t, s.env, key);
            && (r != null ==> r in t.heap)
            && (TakesOver(t, s, id)
                <==> if r == null then id == t.nextId
                     else t.heap[r].id == id && !Ignored(t, r, s.res, s.fetch))
            && TakenOver(t, s) == (if r == null then NewEntry(t, key.ssid, s.res, s.fetch)
                                   else Refreshed(t.heap[r], t.updateIdx, s.res, s.fetch))
  {
    FindSound(t, s.env, ResultKey(s.env, s.res, s.fetch).value);
  }

  /** What a scan result leaves in the table: the entry it took over, and the others as they were. */
  lemma AfterResult(t: Table, s: Step, q: Bss)
    requires Inv(t) && Enabled(t, s) && s.Result? && q in Apply(t, s).heap
    ensures var u := Apply(t, s);
            if TakesOver(t, s, u.heap[q].id)
            then u.heap[q] == TakenOver(t, s)
            else q in t.heap && u.heap[q] == t.heap[q]
    ensures Apply(t, s).updateIdx == t.updateIdx
  {
    var key := ResultKey(s.env, s.res, s.fetch);
    if key.Some? {
      TakesOverIs(t, s, Apply(t, s).heap[q].id);
      if Find(t, s.env, key.value) == null {
        AfterNew(t, s, key.value, q);
      } else {
        AfterKnown(t, s, key.value, q);
      }
    }
  }

  lemma AfterNew(t: Table, s: Step, key: Key, q: Bss)
    requires Inv(t) && Enabled(t, s) && s.Result? && q in Apply(t, s).heap
    requires ResultKey(s.env, s.res, s.fetch) == Some(key) && Find(t, s.env, key) == null
    ensures var e := Apply(t, s).heap[q];
            if e.id == t.nextId then e == NewEntry(t, key.ssid, s.res, s.fetch) else q in t.heap && e == t.heap[q]
    ensures Apply(t, s).updateIdx == t.updateIdx
  {
    AfterAdd(t, s.env, key.ssid, s.res, s.fetch, s.spare, q);
  }

  lemma AfterKnown(t: Table, s: Step, key: Key, q: Bss)
    requires Inv(t) && Enabled(t, s) && s.Result? && q in Apply(t, s).heap
    requires ResultKey(s.env, s.res, s.fetch) == Some(key) && Find(t, s.env, key) != null
    ensures var e, r := Apply(t, s).heap[q], Find(t, s.env, key);
            && r in t.heap
            && if e.id == t.heap[r].id && !Ignored(t, r, s.res, s.fetch)
               then e == Refreshed(t.heap[r], t.updateIdx, s.res, s.fetch) else q in t.heap && e == t.heap[q]
    ensures Apply(t, s).updateIdx == t.updateIdx
  {
    FindSound(t, s.env, key);
    AfterUpdate(t, Find(t, s.env, key), s.res, s.fetch, s.spare, q);
  }

  lemma AfterAdd(t: Table, env: Env, ssid: Octets, res: ScanRes, fetch: Time, spare: Bss, q: Bss)
    requires Inv(t) && CanMakeRoom(t, env) && spare !in t.heap
    requires q in Add(t, env, ssid, res, fetch, spare).heap
    ensures var e := Add(t, env, ssid, res, fetch, spare).heap[q];
            if e.id == t.nextId then e == NewEntry(t, ssid, res, fetch) else q in t.heap && e == t.heap[q]
  {
    assert MakeRoom(t, env).heap.Keys <= t.heap.Keys;
  }

  lemma AfterUpdate(t: Table, r: Bss, res: ScanRes, fetch: Time, spare: Bss, q: Bss)
    requires Inv(t) && r in t.heap && spare !in t.heap && q in Update(t, r, res, fetch, spare).heap
    ensures var e := Update(t, r, res, fetch, spare).heap[q];
            if e.id == t.heap[r].id && !Ignored(t, r, res, fetch)
            then e == Refreshed(t.heap[r], t.updateIdx, res, fetch) else q in t.heap && e == t.heap[q]
  {
    if !Ignored(t, r, res, fetch) && q != Relocated(t, r, res, spare) && t.heap[q].id == t.heap[r].id {
      IdsUnique(t, q, r);
    }
  }

  // ----- the end of a round

  /** Without a new scan, or after one that was aborted, the end of a round changes nothing. */
  lemma NothingExpires(t: Table, env: Env, info: ScanInfo, newScan: bool)
    requires !newScan || (info.Info? && info.aborted)
    ensures UpdateEnd(t, env, info, newScan) == t
  {
  }

  /** After a new scan that was not aborted, an entry that is protected, or that the scan did not ask for,
      stays as it is. Any other has one more miss if it was not seen in the round, and is gone exactly if
      its misses have then reached the limit. */
  lemma EndExactly(t: Table, env: Env, info: ScanInfo, q: Bss)
    requires CurrentOk(t) && !(info.Info? && info.aborted)
    ensures var u := UpdateEnd(t, env, info, true);
            if q !in t.heap then q !in u.heap
            else
              var e := t.heap[q];
              var misses := if e.lastUpdateIdx < t.updateIdx then e.missCount + 1 else e.missCount;
              if Protected(t, env, q) || !AskedFor(e, info) then q in u.heap && u.heap[q] == e
              else if misses >= env.expirationCount then q !in u.heap
              else q in u.heap && u.heap[q] == e.(missCount := misses)
  {
    if q in t.heap {
      InUseIs(t, env, q);
      IncludedIs(t.heap[q], info);
    }
  }

  // ----- counting misses

  /** The end of a round counts a miss of the entry with this id. */
  ghost predicate CountsMiss(t: Table, s: Step, id: nat)
    requires Lists(t) && Enabled(t, s)
  {
    s.End? && s.newScan && !(s.info.Info? && s.info.aborted)
    && exists q :: q in t.heap && t.heap[q].id == id && t.heap[q].lastUpdateIdx < t.updateIdx
                   && !Protected(t, s.env, q) && AskedFor(t.heap[q], s.info)
  }

  /** The number of completed new-scan rounds since the entry's last accepted result that covered the
      entry, did not see it and found it not in use. */
  ghost function Misses(run: Run, id: nat): nat
    requires Legal(run)
  {
    match run
    case Begin(_) => 0
    case Then(prev, s) =>
      if TakesOver(After(prev), s, id) then 0
      else if CountsMiss(After(prev), s, id) then Misses(prev, id) + 1
      else Misses(prev, id)
  }

  ghost predicate ExpirationIs(run: Run, k: nat) {
    match run
    case Begin(_) => true
    case Then(prev, s) => ExpirationIs(prev, k) && (s.End? ==> s.env.expirationCount == k)
  }

  /** Over any run, every entry's counter is its number of counted misses, and stays below the limit. */
  lemma {:induction false} CountersCountMisses(run: Run, k: nat, q: Bss)
    requires Legal(run) && ExpirationIs(run, k) && k >= 1 && q in After(run).heap
    ensures After(run).heap[q].missCount == Misses(run, After(run).heap[q].id) < k
  {
    if run.Then? {
      var t, s := After(run.prev), run.step;
      StepCounts(t, s, q);
      if !TakesOver(t, s, After(run).heap[q].id) {
        CountersCountMisses(run.prev, k, q);
      }
    }
  }

  lemma StepCounts(t: Table, s: Step, q: Bss)
    requires Inv(t) && Enabled(t, s) && q in Apply(t, s).heap
    ensures var e := Apply(t, s).heap[q];
            if TakesOver(t, s, e.id) then e.missCount == 0
            else q in t.heap && t.heap[q].id == e.id
                 && e.missCount == t.heap[q].missCount + (if CountsMiss(t, s, e.id) then 1 else 0)
                 && (CountsMiss(t, s, e.id) ==> e.missCount < s.env.expirationCount)
  {
    if s.Result? {
      AfterResult(t, s, q);
    } else if s.End? {
      EndCounts(t, s, q);
    } else {
      OtherKeeps(t, s, q);
    }
  }

  /** Over any run with a fixed limit of at least one, the end of a round drops exactly the entries for
      which it counts the miss that reaches the limit. */
  lemma RunDropsExactly(run: Run, s: Step, k: nat, q: Bss)
    requires Legal(run) && s.End? && Enabled(After(run), s) && q in After(run).heap
    requires ExpirationIs(Then(run, s), k) && k >= 1
    ensures var id := After(run).heap[q].id;
            q !in After(Then(run, s)).heap <==> CountsMiss(After(run), s, id) && Misses(run, id) + 1 == k
  {
    var t := After(run);
    CountersCountMisses(run, k, q);
    MissOf(t, s, q);
  }

  lemma MissOf(t: Table, s: Step, q: Bss)
    requires Inv(t) && s.End? && Enabled(t, s) && q in t.heap
    ensures CountsMiss(t, s, t.heap[q].id) <==> Expires(s.info, s.newScan) && q in Missed(t, s.env, s.info)
  {
    if CountsMiss(t, s, t.heap[q].id) {
      var p :| p in t.heap && t.heap[p].id == t.heap[q].id && t.heap[p].lastUpdateIdx < t.updateIdx
        && !Protected(t, s.env, p) && AskedFor(t.heap[p], s.info);
      IdsUnique(t, p, q);
      InUseIs(t, s.env, q);
    } else if Expires(s.info, s.newScan) {
      InUseIs(t, s.env, q);
    }
    IncludedIs(t.heap[q], s.info);
  }

  lemma FirstMiss(t: Table, env: Env, q: Bss)
    requires t.current == null && q in t.heap && !InUse(t, env, q) && env.expirationCount >= 2
    requires t.heap[q].lastUpdateIdx < t.updateIdx && t.heap[q].missCount == 0
    ensures var u := UpdateEnd(t, env, NoInfo, true); q in u.heap && u.heap[q].missCount == 1
  {
    assert q in Missed(t, env, NoInfo) && q !in Dropped(t, env, NoInfo);
  }

  /** An entry seen in one round and not in the next has one miss. */
  lemma NextMissed(first: Run, env: Env, q: Bss)
    requires Legal(first) && ExpirationIs(first, env.expirationCount) && env.expirationCount >= 2
    requires After(first).current == null && q in After(first).heap
    requires var e := After(first).heap[q];
             e.missCount == 0 && e.lastUpdateIdx == After(first).updateIdx
             && e.bssid != env.ownBssid && e.bssid != env.pendingBssid
    ensures var run := Then(Then(first, Start), End(env, NoInfo, true));
            && Legal(run) && q in After(run).heap
            && After(run).heap[q].missCount == 1 == Misses(run, After(run).heap[q].id)
  {
    var again := Then(first, Start);
    StepReaches(first, After(first), Start);
    var t := UpdateStart(After(first));
    FirstMiss(t, env, q);
    var run := Then(again, End(env, NoInfo, true));
    StepReaches(again, t, End(env, NoInfo, true));
    assert ExpirationIs(run, env.expirationCount);
    CountersCountMisses(run, env.expirationCount, q);
  }

  /** Steps other than results and ends of rounds leave the entries that remain as they were, but for a
      change from outside. */
  lemma OtherKeeps(t: Table, s: Step, q: Bss)
    requires Inv(t) && Enabled(t, s) && !s.Result? && !s.End? && q in Apply(t, s).heap
    ensures q in t.heap
    ensures var e := t.heap[q];
            Apply(t, s).heap[q]
            == if s.Change? && q == s.entry then e.(ssid := s.ssid, fields := s.change(e.fields)) else e
    ensures Apply(t, s).updateIdx == if s.Start? then t.updateIdx + 1 else t.updateIdx
  {
  }

  lemma EndCounts(t: Table, s: Step, q: Bss)
    requires Inv(t) && s.End? && Enabled(t, s) && q in Apply(t, s).heap
    ensures var u := Apply(t, s);
            q in t.heap && u.heap[q].id == t.heap[q].id
            && u.heap[q].missCount == t.heap[q].missCount + (if CountsMiss(t, s, u.heap[q].id) then 1 else 0)
            && (CountsMiss(t, s, u.heap[q].id) ==> u.heap[q].missCount < s.env.expirationCount)
  {
    MissOf(t, s, q);
  }

  /** The end of a round drops exactly the entries whose misses reach the limit with it. */
  lemma EndDropsExactly(t: Table, env: Env, info: ScanInfo, newScan: bool, q: Bss)
    requires Inv(t) && (newScan && !(info.Info? && info.aborted) ==> CurrentOk(t))
    requires q in t.heap && t.heap[q].missCount < env.expirationCount
    ensures q !in UpdateEnd(t, env, info, newScan).heap
            <==> newScan && !(info.Info? && info.aborted)
                 && !Protected(t, env, q) && AskedFor(t.heap[q], info)
                 && t.heap[q].lastUpdateIdx < t.updateIdx && t.heap[q].missCount + 1 == env.expirationCount
  {
    if newScan && !(info.Info? && info.aborted) {
      EndExactly(t, env, info, q);
    } else {
      NothingExpires(t, env, info, newScan);
    }
  }

  /** An entry seen in the round survives its end exactly when the round expires nothing, or did not
      cover the entry, or the limit is at least one: with a limit of zero even seen entries go. */
  lemma SeenEntrySurvives(t: Table, env: Env, info: ScanInfo, newScan: bool, q: Bss)
    requires Inv(t) && (newScan && !(info.Info? && info.aborted) ==> CurrentOk(t))
    requires q in t.heap && t.heap[q].lastUpdateIdx == t.updateIdx
    ensures q in UpdateEnd(t, env, info, newScan).heap
            <==> !newScan || (info.Info? && info.aborted) || Protected(t, env, q) || !AskedFor(t.heap[q], info)
                 || env.expirationCount >= 1
  {
    if newScan && !(info.Info? && info.aborted) {
      EndExactly(t, env, info, q);
    } else {
      NothingExpires(t, env, info, newScan);
    }
  }

  // ----- several results for one entry in one round

  datatype Heard = Heard(key: Key, res: ScanRes, fetch: Time)

  function TimeOf(h: Heard): int {
    Micros(UpdateTime(h.fetch, h.res.age))
  }

  /** The results as they would be with a change of the fields that came after them. */
  function Changed(hs: seq<Heard>, change: Fields -> Fields): (r: seq<Heard>)
    ensures |r| == |hs|
    ensures forall i :: 0 <= i < |hs| ==> r[i] == hs[i].(res := hs[i].res.(fields := change(hs[i].res.fields)))
  {
    seq(|hs|, i requires 0 <= i < |hs| => hs[i].(res := hs[i].res.(fields := change(hs[i].res.fields))))
  }

  /** The results of the round about the entry with this id, after one more step, each with the changes
      from outside that the entry underwent since. */
  ghost function NextResults(t: Table, s: Step, id: nat, hs: seq<Heard>): seq<Heard>
    requires Lists(t) && Enabled(t, s)
  {
    if s.Start? then []
    else if Handles(t, s, id) then
      (if id == t.nextId then [] else hs) + [Heard(ResultKey(s.env, s.res, s.fetch).value, s.res, s.fetch)]
    else if s.Change? && t.heap[s.entry].id == id then Changed(hs, s.change)
    else hs
  }

  /** The results of the current round that were about the entry with this id. */
  ghost function RoundResults(run: Run, id: nat): seq<Heard>
    requires Legal(run)
  {
    match run
    case Begin(_) => []
    case Then(prev, s) => NextResults(After(prev), s, id, RoundResults(prev, id))
  }

  /** The first associated result if there is one, otherwise the earliest of the most recent ones. */
  ghost predicate IsWinner(hs: seq<Heard>, w: nat) {
    w < |hs|
    && if exists h :: h in hs && Associated(h.res.fields)
       then Associated(hs[w].res.fields) && forall j :: 0 <= j < w ==> !Associated(hs[j].res.fields)
       else (forall j :: 0 <= j < |hs| ==> TimeOf(hs[j]) <= TimeOf(hs[w]))
            && forall j :: 0 <= j < w ==> TimeOf(hs[j]) < TimeOf(hs[w])
  }

  lemma WinnerUnique(hs: seq<Heard>, v: nat, w: nat)
    requires IsWinner(hs, v) && IsWinner(hs, w)
    ensures v == w
  {
  }

  ghost predicate Carries(e: Entry, h: Heard) {
    e.fields == h.res.fields && e.lastUpdate == UpdateTime(h.fetch, h.res.age)
  }

  ghost predicate CarriesWinner(e: Entry, hs: seq<Heard>) {
    && (exists w: nat :: IsWinner(hs, w) && Carries(e, hs[w]))
    && (forall h :: h in hs ==> FiledAs(h.key, e))
  }

  /** Results are filed under the key of the entry, or were while it had no name yet. */
  predicate FiledAs(key: Key, e: Entry) {
    key.bssid == e.bssid && (key.ssid == e.ssid || key.ssid == [])
  }

  /** One more result: the entry keeps carrying the winner. */
  lemma WinnerStep(hs: seq<Heard>, w: nat, e: Entry, h: Heard)
    requires IsWinner(hs, w) && Carries(e, hs[w])
    ensures if Superseded(e, h.res, h.fetch) then IsWinner(hs + [h], w) else IsWinner(hs + [h], |hs|)
  {
  }

  lemma FirstWins(e: Entry, h: Heard)
    requires Carries(e, h) && h.key == KeyOf(e)
    ensures CarriesWinner(e, [h])
  {
    assert IsWinner([h], 0);
  }

  lemma LaterResult(e: Entry, e': Entry, hs: seq<Heard>, h: Heard)
    requires CarriesWinner(e, hs) && h.key == KeyOf(e) == KeyOf(e')
    requires if Superseded(e, h.res, h.fetch) then e' == e else Carries(e', h)
    ensures CarriesWinner(e', hs + [h])
  {
    var w: nat :| IsWinner(hs, w) && Carries(e, hs[w]);
    WinnerStep(hs, w, e, h);
    var w' := if Superseded(e, h.res, h.fetch) then w else |hs|;
    assert IsWinner(hs + [h], w') && Carries(e', (hs + [h])[w']);
  }

  /** An entry seen in the round carries the winner of its results; one not seen has none. */
  ghost predicate Faithful(t: Table, q: Bss, hs: seq<Heard>)
    requires q in t.heap
  {
    if t.heap[q].lastUpdateIdx == t.updateIdx then CarriesWinner(t.heap[q], hs) else hs == []
  }

  lemma HandledFaithful(t: Table, s: Step, r: Bss, hs: seq<Heard>)
    requires Inv(t) && Enabled(t, s) && s.Result? && ResultKey(s.env, s.res, s.fetch).Some?
    requires r == Find(t, s.env, ResultKey(s.env, s.res, s.fetch).value) && r in t.heap && Faithful(t, r, hs)
    ensures var h := Heard(ResultKey(s.env, s.res, s.fetch).value, s.res, s.fetch);
            CarriesWinner(if Ignored(t, r, s.res, s.fetch) then t.heap[r]
                          else Refreshed(t.heap[r], t.updateIdx, s.res, s.fetch), hs + [h])
  {
    var h := Heard(ResultKey(s.env, s.res, s.fetch).value, s.res, s.fetch);
    FindSound(t, s.env, h.key);
    var e, e' := t.heap[r], Refreshed(t.heap[r], t.updateIdx, s.res, s.fetch);
    if e.lastUpdateIdx == t.updateIdx {
      LaterResult(e, if Superseded(e, s.res, s.fetch) then e else e', hs, h);
    } else {
      assert [] + [h] == [h];
      FirstWins(e', h);
    }
  }

  lemma ResultFaithful(t: Table, s: Step, q: Bss, hs: seq<Heard>)
    requires Inv(t) && Enabled(t, s) && s.Result? && q in Apply(t, s).heap
    requires forall p :: p in t.heap && t.heap[p].id == Apply(t, s).heap[q].id ==> Faithful(t, p, hs)
    ensures Faithful(Apply(t, s), q, NextResults(t, s, Apply(t, s).heap[q].id, hs))
  {
    var id := Apply(t, s).heap[q].id;
    AfterResult(t, s, q);
    if Handles(t, s, id) {
      var key := ResultKey(s.env, s.res, s.fetch).value;
      var r := Find(t, s.env, key);
      FindSound(t, s.env, key);
      if r == null {
        NewFaithful(t, s, hs);
      } else {
        HandledFaithful(t, s, r, hs);
        if Ignored(t, r, s.res, s.fetch) {
          IdsUnique(t, r, q);
        }
      }
    }
  }

  lemma NewFaithful(t: Table, s: Step, hs: seq<Heard>)
    requires Inv(t) && Enabled(t, s) && s.Result? && Handles(t, s, t.nextId)
    requires Find(t, s.env, ResultKey(s.env, s.res, s.fetch).value) == null
    ensures CarriesWinner(TakenOver(t, s), NextResults(t, s, t.nextId, hs))
  {
    var h := Heard(ResultKey(s.env, s.res, s.fetch).value, s.res, s.fetch);
    KeyIsBssid(s.env, s.res, s.fetch);
    assert NextResults(t, s, t.nextId, hs) == [h];
    FirstWins(TakenOver(t, s), h);
  }

  /** A result is filed under its own address. */
  lemma KeyIsBssid(env: Env, res: ScanRes, fetch: Time)
    ensures var key := ResultKey(env, res, fetch); key.Some? ==> key.value.bssid == res.bssid
  {
  }

  /** In every reachable table, an entry seen in this round carries the winner among the results of
      the round about it; an entry not seen has had no result in this round. */
  lemma {:induction false} SeenEntriesCarryWinners(run: Run, q: Bss)
    requires Legal(run) && q in After(run).heap
    ensures Faithful(After(run), q, RoundResults(run, After(run).heap[q].id))
  {
    if run.Then? {
      var t, u, s := After(run.prev), After(run), run.step;
      var hs := RoundResults(run.prev, u.heap[q].id);
      forall p | p in t.heap && t.heap[p].id == u.heap[q].id ensures Faithful(t, p, hs) {
        SeenEntriesCarryWinners(run.prev, p);
      }
      if s.Result? {
        ResultFaithful(t, s, q, hs);
      } else {
        OtherFaithful(t, s, q, hs);
      }
    }
  }

  lemma OtherFaithful(t: Table, s: Step, q: Bss, hs: seq<Heard>)
    requires Inv(t) && Enabled(t, s) && !s.Result? && q in Apply(t, s).heap
    requires forall p :: p in t.heap && t.heap[p].id == Apply(t, s).heap[q].id ==> Faithful(t, p, hs)
    ensures Faithful(Apply(t, s), q, NextResults(t, s, Apply(t, s).heap[q].id, hs))
  {
    if s.End? {
      EndKeeps(t, s, q);
    } else {
      OtherKeeps(t, s, q);
      if s.Change? {
        ChangeFaithful(t, s, q, hs);
      }
    }
  }

  lemma ChangeFaithful(t: Table, s: Step, q: Bss, hs: seq<Heard>)
    requires Inv(t) && Enabled(t, s) && s.Change? && q in t.heap && Faithful(t, q, hs)
    ensures Faithful(Apply(t, s), q, NextResults(t, s, t.heap[q].id, hs))
  {
    if q == s.entry {
      if t.heap[q].lastUpdateIdx == t.updateIdx {
        ChangedCarries(t.heap[q], hs, s.ssid, s.change);
      }
    } else if t.heap[q].id == t.heap[s.entry].id {
      IdsUnique(t, q, s.entry);
    }
  }

  /** A change of the entry, and of its results with it, leaves the winner what it is. */
  lemma ChangedCarries(e: Entry, hs: seq<Heard>, ssid: Octets, change: Fields -> Fields)
    requires CarriesWinner(e, hs) && (ssid == e.ssid || e.ssid == [])
    requires forall f :: Associated(change(f)) <==> Associated(f)
    ensures CarriesWinner(e.(ssid := ssid, fields := change(e.fields)), Changed(hs, change))
  {
    var w: nat :| IsWinner(hs, w) && Carries(e, hs[w]);
    ChangedWinner(hs, w, change);
    var e', hs' := e.(ssid := ssid, fields := change(e.fields)), Changed(hs, change);
    assert IsWinner(hs', w) && Carries(e', hs'[w]);
    forall h | h in hs' ensures FiledAs(h.key, e') {
      var i :| 0 <= i < |hs'| && hs'[i] == h;
      assert hs[i] in hs && h.key == hs[i].key;
    }
  }

  lemma ChangedWinner(hs: seq<Heard>, w: nat, change: Fields -> Fields)
    requires IsWinner(hs, w) && forall f :: Associated(change(f)) <==> Associated(f)
    ensures IsWinner(Changed(hs, change), w)
  {
    var hs' := Changed(hs, change);
    forall i | 0 <= i < |hs|
      ensures Associated(hs'[i].res.fields) <==> Associated(hs[i].res.fields)
      ensures TimeOf(hs'[i]) == TimeOf(hs[i])
    {
    }
    if exists h :: h in hs && Associated(h.res.fields) {
      assert hs'[w] in hs';
    } else {
      forall h | h in hs' ensures !Associated(h.res.fields) {
        var i :| 0 <= i < |hs'| && hs'[i] == h;
        assert hs[i] in hs;
      }
    }
  }

  lemma EndKeeps(t: Table, s: Step, q: Bss)
    requires Inv(t) && Enabled(t, s) && s.End? && q in Apply(t, s).heap
    ensures q in t.heap && Apply(t, s).heap[q] == t.heap[q].(missCount := Apply(t, s).heap[q].missCount)
    ensures Apply(t, s).updateIdx == t.updateIdx
  {
  }
}
