/** The partial effect of going through the recency list, entry by entry. */
module BssSweeps {
  import opened RelTime
  import opened Seqs
  import opened BssModel
  import opened BssInvariant

  lemma UpToAll(t: Table)
    requires Lists(t)
    ensures UpTo(t.bss, |t.bss|) == t.heap.Keys
  {
    var n := |t.bss|;
    assert t.bss[..n] == t.bss;
    forall r | r in UpTo(t.bss, n) ensures r in t.heap {
      UpToMembers(t.bss, n, r);
    }
    forall r | r in t.heap ensures r in UpTo(t.bss, n) {
      UpToMembers(t.bss, n, r);
    }
  }

  /** The end of a round, with only the entries in `seen` gone through. */
  ghost function EndedFor(t: Table, env: Env, info: ScanInfo, seen: set<Bss>): Table
    requires CurrentOk(t)
  {
    RemoveAll(Bump(t, Missed(t, env, info) * seen), Dropped(t, env, info) * seen)
  }

  lemma EndedForNone(t: Table, env: Env, info: ScanInfo)
    requires CurrentOk(t)
    ensures EndedFor(t, env, info, {}) == t
  {
    assert Bump(t, {}) == t;
    RemoveAllNothing(t);
    assert Missed(t, env, info) * {} == {} && Dropped(t, env, info) * {} == {};
  }

  lemma EndedForAll(t: Table, env: Env, info: ScanInfo, seen: set<Bss>)
    requires CurrentOk(t) && seen == t.heap.Keys
    ensures EndedFor(t, env, info, seen) == RemoveAll(Bump(t, Missed(t, env, info)), Dropped(t, env, info))
  {
    assert Missed(t, env, info) * seen == Missed(t, env, info);
    assert Dropped(t, env, info) * seen == Dropped(t, env, info);
  }

  ghost predicate Removable(t: Table, b: Bss) {
    Distinct(t.lastRes) && Distinct(t.bss) && Distinct(t.bssId) && b in t.bss && b in t.bssId
  }

  /** Entries that have not been removed are found as they would be in the whole table. */
  lemma StillThere(t: Table, dead: set<Bss>, b: Bss)
    requires Inv(t) && b in t.heap && b !in dead
    ensures Removable(RemoveAll(t, dead), b)
  {
    MinusDistinct(t.bss, dead);
    MinusDistinct(t.bssId, dead);
    MinusDistinct(t.lastRes, dead);
  }

  lemma SameUse(t: Table, u: Table, env: Env, b: Bss)
    requires CurrentOk(t) && CurrentOk(u) && b in t.heap && b in u.heap && u.current == t.current
    requires u.heap[b].ssid == t.heap[b].ssid && u.heap[b].bssid == t.heap[b].bssid
    requires t.current != null ==> u.heap[t.current].ssid == t.heap[t.current].ssid
    ensures InUse(u, env, b) <==> InUse(t, env, b)
  {
  }

  /** What the sweep at the end of a round finds when it comes to the next entry. */
  lemma EndedForFinds(t: Table, env: Env, info: ScanInfo, seen: set<Bss>, b: Bss)
    requires Inv(t) && CurrentOk(t) && b in t.heap && b !in seen
    ensures var u := EndedFor(t, env, info, seen);
            && Removable(u, b) && b in u.heap && u.heap[b] == t.heap[b] && CurrentOk(u)
            && (InUse(u, env, b) <==> InUse(t, env, b)) && u.updateIdx == t.updateIdx
  {
    var m, d := Missed(t, env, info) * seen, Dropped(t, env, info) * seen;
    BumpInv(t, m);
    StillThere(Bump(t, m), d, b);
    CurrentNotDropped(t, env, info);
    BumpedUse(t, env, m, d, b);
  }

  lemma CurrentNotDropped(t: Table, env: Env, info: ScanInfo)
    requires CurrentOk(t)
    ensures t.current != null ==> t.current !in Dropped(t, env, info)
  {
  }

  lemma BumpedUse(t: Table, env: Env, m: set<Bss>, d: set<Bss>, b: Bss)
    requires CurrentOk(t) && b in t.heap && b !in m && b !in d && (t.current != null ==> t.current !in d)
    ensures var u := RemoveAll(Bump(t, m), d);
            b in u.heap && u.heap[b] == t.heap[b] && CurrentOk(u) && (InUse(u, env, b) <==> InUse(t, env, b))
  {
    SameUse(t, RemoveAll(Bump(t, m), d), env, b);
  }

  /** Entries in use, or not covered by the scan, are passed over. */
  lemma EndedForSkips(t: Table, env: Env, info: ScanInfo, seen: set<Bss>, b: Bss)
    requires CurrentOk(t) && b in t.heap && b !in Covered(t, env, info)
    ensures EndedFor(t, env, info, seen + {b}) == EndedFor(t, env, info, seen)
  {
    assert Missed(t, env, info) * (seen + {b}) == Missed(t, env, info) * seen;
    assert Dropped(t, env, info) * (seen + {b}) == Dropped(t, env, info) * seen;
  }

  ghost function WithMiss(t: Table, b: Bss): Table
    requires b in t.heap
  {
    t.(heap := t.heap[b := t.heap[b].(missCount := t.heap[b].missCount + 1)])
  }

  /** Covered entries get their miss, and are removed when that is one too many. */
  lemma EndedForStep(t: Table, env: Env, info: ScanInfo, seen: set<Bss>, b: Bss)
    requires Inv(t) && CurrentOk(t) && b in Covered(t, env, info) && b !in seen
    ensures var u := EndedFor(t, env, info, seen);
            b in u.heap
            && var v := if b in Missed(t, env, info) then WithMiss(u, b) else u;
               EndedFor(t, env, info, seen + {b})
               == if b in Dropped(t, env, info) then RemoveAll(v, {b}) else v
  {
    SweepStep(t, Missed(t, env, info), Dropped(t, env, info), seen, b);
  }

  lemma SweepStep(t: Table, m: set<Bss>, d: set<Bss>, seen: set<Bss>, b: Bss)
    requires b in t.heap && b !in seen
    ensures var u := RemoveAll(Bump(t, m * seen), d * seen);
            b in u.heap
            && var v := if b in m then WithMiss(u, b) else u;
               RemoveAll(Bump(t, m * (seen + {b})), d * (seen + {b}))
               == if b in d then RemoveAll(v, {b}) else v
  {
    var seen' := seen + {b};
    var u := RemoveAll(Bump(t, m * seen), d * seen);
    var v := if b in m then WithMiss(u, b) else u;
    assert v == RemoveAll(Bump(t, m * seen'), d * seen) by {
      if b in m {
        assert m * seen' == m * seen + {b};
        BumpOneMore(t, m * seen, b);
        MissThenRemove(Bump(t, m * seen), d * seen, b);
      } else {
        assert m * seen' == m * seen;
      }
    }
    if b in d {
      assert d * seen' == d * seen + {b};
      RemoveAllTwice(Bump(t, m * seen'), d * seen, {b});
    } else {
      assert d * seen' == d * seen;
    }
  }

  lemma BumpOneMore(t: Table, missed: set<Bss>, b: Bss)
    requires b in t.heap && b !in missed
    ensures Bump(t, missed + {b}) == WithMiss(Bump(t, missed), b)
  {
  }

  lemma MissThenRemove(t: Table, dead: set<Bss>, b: Bss)
    requires b in t.heap && b !in dead
    ensures RemoveAll(WithMiss(t, b), dead) == WithMiss(RemoveAll(t, dead), b)
  {
  }

  /** What the end of a round does when it comes to one entry. */
  ghost function EndOne(t: Table, env: Env, info: ScanInfo, b: Bss): Table
    requires CurrentOk(t) && b in t.heap
  {
    if InUse(t, env, b) || !IncludedInScan(t.heap[b], info) then t else ExpireOne(t, env, b)
  }

  ghost function ExpireOne(t: Table, env: Env, b: Bss): Table
    requires b in t.heap
  {
    var v := if t.heap[b].lastUpdateIdx < t.updateIdx then WithMiss(t, b) else t;
    if v.heap[b].missCount >= env.expirationCount then RemoveAll(v, {b}) else v
  }

  /** Entry by entry, the sweep comes to what the end of the round is meant to do. */
  lemma EndOneStep(t: Table, env: Env, info: ScanInfo, i: nat)
    requires Inv(t) && CurrentOk(t) && i < |t.bss|
    ensures var u, b := EndedFor(t, env, info, UpTo(t.bss, i)), t.bss[i];
            CurrentOk(u) && Removable(u, b) && b in u.heap
            && EndOne(u, env, info, b) == EndedFor(t, env, info, UpTo(t.bss, i + 1))
  {
    var seen, b := UpTo(t.bss, i), t.bss[i];
    NextNotSeen(t.bss, i);
    EndedForFinds(t, env, info, seen, b);
    if b in Covered(t, env, info) {
      EndedForStep(t, env, info, seen, b);
    } else {
      EndedForSkips(t, env, info, seen, b);
    }
  }

  lemma EndStarts(t: Table, env: Env, info: ScanInfo)
    requires CurrentOk(t)
    ensures EndedFor(t, env, info, UpTo(t.bss, 0)) == t
  {
    EndedForNone(t, env, info);
  }

  lemma EndFinishes(t: Table, env: Env, info: ScanInfo, newScan: bool)
    requires Inv(t) && CurrentOk(t) && Expires(info, newScan)
    ensures EndedFor(t, env, info, UpTo(t.bss, |t.bss|)) == UpdateEnd(t, env, info, newScan)
  {
    UpToAll(t);
    EndedForAll(t, env, info, UpTo(t.bss, |t.bss|));
  }

  // ----- flushing

  lemma RemovedFinds(t: Table, env: Env, dead: set<Bss>, b: Bss)
    requires Inv(t) && CurrentOk(t) && b in t.heap && b !in dead && dead <= Unused(t, env)
    ensures var u := RemoveAll(t, dead);
            && Removable(u, b) && b in u.heap && u.heap[b] == t.heap[b] && CurrentOk(u)
            && (InUse(u, env, b) <==> InUse(t, env, b))
  {
    StillThere(t, dead, b);
    SameUse(t, RemoveAll(t, dead), env, b);
  }

  /** What has been taken when the nodes before position `i` have been gone through. */
  ghost predicate FlushSoFar(s: seq<Bss>, all: set<Bss>, i: nat, dead: set<Bss>) {
    i <= |s| && dead <= all && dead <= UpTo(s, i) && forall j :: 0 <= j < i && s[j] in all ==> s[j] in dead
  }

  lemma FlushFinds(t: Table, env: Env, all: set<Bss>, i: nat, dead: set<Bss>)
    requires Inv(t) && CurrentOk(t) && all == Unused(t, env) && FlushSoFar(t.bss, all, i, dead) && i < |t.bss|
    ensures var u, b := RemoveAll(t, dead), t.bss[i];
            && CurrentOk(u) && Removable(u, b) && b in u.heap && (InUse(u, env, b) <==> InUse(t, env, b))
            && RemoveAll(u, {b}) == RemoveAll(t, dead + {b})
  {
    NextNotSeen(t.bss, i);
    RemovedFinds(t, env, dead, t.bss[i]);
    RemoveAllTwice(t, dead, {t.bss[i]});
  }

  lemma FlushTakes(t: Table, env: Env, all: set<Bss>, i: nat, dead: set<Bss>)
    requires Lists(t) && CurrentOk(t) && all == Unused(t, env) && FlushSoFar(t.bss, all, i, dead) && i < |t.bss|
    ensures var b := t.bss[i]; FlushSoFar(t.bss, all, i + 1, if InUse(t, env, b) then dead else dead + {b})
  {
    var b := t.bss[i];
    assert b in t.heap && UpTo(t.bss, i + 1) == UpTo(t.bss, i) + {b};
  }

  lemma FlushStarts(t: Table, all: set<Bss>)
    ensures FlushSoFar(t.bss, all, 0, {}) && RemoveAll(t, {}) == t
  {
    RemoveAllNothing(t);
  }

  lemma FlushEnds(t: Table, all: set<Bss>, dead: set<Bss>)
    requires Lists(t) && all <= t.heap.Keys && FlushSoFar(t.bss, all, |t.bss|, dead)
    ensures dead == all
  {
    UpToAll(t);
  }

  /** What has been taken so far, and what is still to be taken, when the cursor is at position `i`. */
  ghost predicate AgedSoFar(t: Table, env: Env, cut: Time, i: nat, dead: set<Bss>)
    requires Lists(t) && CurrentOk(t)
  {
    && i <= |t.bss| && dead <= Unused(t, env) && dead <= UpTo(t.bss, i)
    && dead + Aged(t, env, t.bss[i..], cut) == Aged(t, env, t.bss, cut)
  }

  /** ... or, once the flush has come to an end, what it was to take. */
  ghost predicate AgedWhile(t: Table, env: Env, cut: Time, i: nat, dead: set<Bss>, go: bool)
    requires Lists(t) && CurrentOk(t)
  {
    if go then AgedSoFar(t, env, cut, i, dead) else dead == Aged(t, env, t.bss, cut)
  }

  lemma AgedStarts(t: Table, env: Env, cut: Time)
    requires Lists(t) && CurrentOk(t)
    ensures AgedWhile(t, env, cut, 0, {}, true) && RemoveAll(t, {}) == t
  {
    assert t.bss[0..] == t.bss;
    RemoveAllNothing(t);
  }

  lemma AgedEnds(t: Table, env: Env, cut: Time, dead: set<Bss>)
    requires Lists(t) && CurrentOk(t) && AgedWhile(t, env, cut, |t.bss|, dead, true)
    ensures dead == Aged(t, env, t.bss, cut)
  {
  }

  /** What the flush finds when it comes to the next entry. */
  lemma AgedFinds(t: Table, env: Env, cut: Time, i: nat, dead: set<Bss>)
    requires Inv(t) && CurrentOk(t) && AgedSoFar(t, env, cut, i, dead) && i < |t.bss|
    ensures var u, b := RemoveAll(t, dead), t.bss[i];
            && CurrentOk(u) && Removable(u, b) && b in u.heap && u.heap[b] == t.heap[b]
            && (InUse(u, env, b) <==> InUse(t, env, b))
            && RemoveAll(u, {b}) == RemoveAll(t, dead + {b})
  {
    NextNotSeen(t.bss, i);
    RemovedFinds(t, env, dead, t.bss[i]);
    RemoveAllTwice(t, dead, {t.bss[i]});
  }

  /** ... and what it does with it. */
  lemma AgedNext(t: Table, env: Env, cut: Time, i: nat, dead: set<Bss>)
    requires Lists(t) && CurrentOk(t) && AgedSoFar(t, env, cut, i, dead) && i < |t.bss|
    ensures var b := t.bss[i];
            if InUse(t, env, b) then AgedSoFar(t, env, cut, i + 1, dead)
            else if OlderThan(t, b, cut) then AgedSoFar(t, env, cut, i + 1, dead + {b})
            else dead == Aged(t, env, t.bss, cut)
  {
    var b, s := t.bss[i], t.bss[i..];
    assert s[0] == b && s[1..] == t.bss[i + 1..];
    assert UpTo(t.bss, i + 1) == UpTo(t.bss, i) + {b};
  }
}
