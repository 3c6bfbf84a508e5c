/** Lazy sweeping cannot be observed through get, add and is-listed. */
module IgnoreProofs {
  import opened Wrappers
  import opened Elements
  import opened RelTime
  import opened IgnoreModel

  ghost predicate Unique(l: seq<Rec>) {
    forall i, j :: 0 <= i < j < |l| ==> l[i].bssid != l[j].bssid
  }

  lemma StaleLater(r: Rec, a: Time, b: Time)
    requires NotBefore(b, a) && Stale(r, a)
    ensures Stale(r, b)
  {
  }

  lemma LookupSound(l: seq<Rec>, b: Octets)
    ensures Lookup(l, b).Some? ==> Lookup(l, b).value in l && Lookup(l, b).value.bssid == b
    ensures Lookup(l, b).None? ==> forall r :: r in l ==> r.bssid != b
  {
  }

  lemma {:induction false} SweepMembers(l: seq<Rec>, now: Time, r: Rec)
    ensures r in Sweep(l, now) <==> r in l && !Stale(r, now)
  {
    if l != [] {
      SweepMembers(l[1..], now, r);
      assert r in l <==> r == l[0] || r in l[1..];
    }
  }

  lemma {:induction false} SweepUnique(l: seq<Rec>, now: Time)
    requires Unique(l)
    ensures Unique(Sweep(l, now))
  {
    if l != [] {
      SweepUnique(l[1..], now);
      var rest := Sweep(l[1..], now);
      forall j | 0 <= j < |rest| ensures rest[j].bssid != l[0].bssid {
        SweepMembers(l[1..], now, rest[j]);
        var k :| 0 <= k < |l[1..]| && l[1..][k] == rest[j];
        assert l[k + 1] == rest[j];
      }
    }
  }

  lemma MemberIsLookup(l: seq<Rec>, r: Rec)
    requires Unique(l)
    ensures r in l <==> Lookup(l, r.bssid) == Some(r)
  {
  }

  lemma LookupSweep(l: seq<Rec>, now: Time, b: Octets)
    requires Unique(l)
    ensures Lookup(Sweep(l, now), b)
            == if Lookup(l, b).Some? && !Stale(Lookup(l, b).value, now) then Lookup(l, b) else None
  {
    var s := Sweep(l, now);
    SweepUnique(l, now);
    LookupSound(s, b);
    LookupSound(l, b);
    if Lookup(s, b).Some? {
      var r := Lookup(s, b).value;
      SweepMembers(l, now, r);
      MemberIsLookup(l, r);
    }
    if Lookup(l, b).Some? {
      var r := Lookup(l, b).value;
      SweepMembers(l, now, r);
      MemberIsLookup(s, r);
    }
  }

  lemma LookupAdd(l: seq<Rec>, bssid: Octets, now: Time, b: Octets)
    requires Unique(l)
    ensures Unique(AddTo(l, bssid, now))
    ensures Lookup(AddTo(l, bssid, now), b)
            == if b != bssid then Lookup(l, b)
               else if Lookup(l, b).Some? then Some(Bumped(Lookup(l, b).value, now))
               else Some(Rec(bssid, 1, now, 10))
  {
    var u, k := AddTo(l, bssid, now), Find(l, bssid);
    if k < |l| {
      SameAddresses(l, u, k, b);
    } else {
      assert u[1..] == l;
    }
  }

  lemma {:induction false} SameAddresses(l: seq<Rec>, u: seq<Rec>, k: nat, b: Octets)
    requires |u| == |l| && k < |l| && u == l[k := u[k]] && u[k].bssid == l[k].bssid
    ensures Find(u, b) == Find(l, b)
  {
    if l[0].bssid != b {
      if k == 0 {
        assert u[1..] == l[1..];
      } else {
        assert u[1..] == l[1..][k - 1 := u[k]];
        SameAddresses(l[1..], u[1..], k - 1, b);
      }
    }
  }

  lemma LookupDelete(l: seq<Rec>, bssid: Octets, b: Octets)
    requires Unique(l)
    ensures Unique(DeleteFrom(l, bssid))
    ensures Lookup(DeleteFrom(l, bssid), b) == if b == bssid then None else Lookup(l, b)
  {
    var u, k := DeleteFrom(l, bssid), Find(l, bssid);
    forall i, j | 0 <= i < j < |u| ensures u[i].bssid != u[j].bssid {
      assert u[i] == l[if i < k then i else i + 1] && u[j] == l[if j < k then j else j + 1];
    }
    LookupSound(u, b);
    LookupSound(l, b);
    if Lookup(u, b).Some? && b != bssid {
      MemberIsLookup(l, Lookup(u, b).value);
    }
    if Lookup(l, b).Some? && b != bssid {
      var r := Lookup(l, b).value;
      var i :| 0 <= i < |l| && l[i] == r;
      assert i != k;
      assert u[if i < k then i else i - 1] == r;
      MemberIsLookup(u, r);
    }
    forall i | 0 <= i < |u| ensures u[i].bssid != bssid {
      assert u[i] == l[if i < k then i else i + 1];
    }
  }

  /** What add and del do to the list, where `k` is the position of the entry or the end of the list: add
      counts on in place or puts a new entry in front, del closes the gap. */
  lemma ListExactly(l: seq<Rec>, bssid: Octets, now: Time, k: nat)
    requires k <= |l| && (k < |l| ==> l[k].bssid == bssid) && forall j :: 0 <= j < k ==> l[j].bssid != bssid
    ensures AddTo(l, bssid, now)
            == if k < |l| then l[k := Rec(bssid, l[k].count + 1, now, Backoff(l[k].count + 1))]
               else [Rec(bssid, 1, now, 10)] + l
    ensures DeleteFrom(l, bssid) == if k < |l| then l[..k] + l[k + 1..] else l
  {
    assert Find(l, bssid) == k;
    if k < |l| {
      BackoffIs(l[k].count + 1);
    }
  }

  // ----- the list against the meaning of the history

  /** What the list holds for a BSSID, told from the history: its meaning, unless that was stale when
      the list was swept last. */
  function Held(h: History, b: Octets): Option<Rec> {
    var m := Meaning(h, b);
    if m.Some? && !Stale(m.value, LastSweep(h)) then m else None
  }

  lemma {:induction false} SweepBeforeClock(h: History)
    requires Monotone(h)
    ensures NotBefore(Clock(h), LastSweep(h))
  {
    if h.After? {
      SweepBeforeClock(h.prev);
    }
  }

  lemma {:induction false} EntriesFit(h: History, b: Octets)
    ensures Meaning(h, b).Some? ==>
              var r := Meaning(h, b).value;
              r.bssid == b && r.count >= 1 && r.timeoutSecs == Backoff(r.count)
  {
    if h.After? {
      EntriesFit(h.prev, b);
    }
  }

  lemma NewNotStale(r: Rec, sweep: Time, now: Time)
    requires NotBefore(now, sweep) && r.start == now && r.timeoutSecs >= 0
    ensures !Stale(r, sweep)
  {
  }

  /** A new sweep leaves of what was kept exactly what is not stale now. */
  lemma KeptSwept(h: History, sweep: Time, b: Octets)
    requires Monotone(h) && NotBefore(sweep, Clock(h))
    ensures var k := Held(h, b);
            (if k.Some? && !Stale(k.value, sweep) then k else None)
            == (if Meaning(h, b).Some? && !Stale(Meaning(h, b).value, sweep) then Meaning(h, b) else None)
  {
    SweepBeforeClock(h);
    if Meaning(h, b).Some? && Stale(Meaning(h, b).value, LastSweep(h)) {
      StaleLater(Meaning(h, b).value, LastSweep(h), sweep);
    }
  }

  /** In every history with a clock that does not go back, each BSSID is listed at most once, and the
      list holds for it exactly what the history means, less what was stale at the last sweep. */
  lemma {:induction false} ListMeansHistory(h: History, b: Octets)
    requires Monotone(h)
    ensures Unique(ListAfter(h)) && Lookup(ListAfter(h), b) == Held(h, b)
  {
    if h.After? {
      ListMeansHistory(h.prev, b);
      if Sweeps(h.op) {
        SweepMeans(h, b);
      } else if h.op.Update? {
        UpdateMeans(h, b);
      } else if h.op.Del? {
        LookupDelete(ListAfter(h.prev), h.op.bssid, b);
      }
    }
  }

  lemma UpdateMeans(h: History, b: Octets)
    requires h.After? && h.op.Update? && Monotone(h)
    requires Unique(ListAfter(h.prev)) && Lookup(ListAfter(h.prev), b) == Held(h.prev, b)
    ensures Unique(ListAfter(h)) && Lookup(ListAfter(h), b) == Held(h, b)
  {
    SweepUnique(ListAfter(h.prev), h.op.sweep);
    LookupSweep(ListAfter(h.prev), h.op.sweep, b);
    KeptSwept(h.prev, h.op.sweep, b);
    Updated(h, b);
  }

  lemma Updated(h: History, b: Octets)
    requires h.After? && h.op.Update?
    ensures ListAfter(h) == Sweep(ListAfter(h.prev), h.op.sweep)
    ensures var m := Meaning(h.prev, b); Held(h, b) == if m.Some? && !Stale(m.value, h.op.sweep) then m else None
  {
  }

  /** The list as the sweep that comes before an operation leaves it. */
  function Swept(h: History, sweep: Time): seq<Rec> {
    if Reconfigured(h) then [] else Sweep(ListAfter(h), sweep)
  }

  lemma SweptMeans(h: History, sweep: Time, b: Octets)
    requires Monotone(h) && NotBefore(sweep, Clock(h))
    requires Unique(ListAfter(h)) && Lookup(ListAfter(h), b) == Held(h, b)
    ensures Unique(Swept(h, sweep)) && Lookup(Swept(h, sweep), b) == GetAnswer(h, b, sweep)
  {
    SweepUnique(ListAfter(h), sweep);
    LookupSweep(ListAfter(h), sweep, b);
    KeptSwept(h, sweep, b);
  }

  lemma SweepMeans(h: History, b: Octets)
    requires h.After? && Monotone(h) && Sweeps(h.op)
    requires Unique(ListAfter(h.prev)) && Lookup(ListAfter(h.prev), b) == Held(h.prev, b)
    ensures Unique(ListAfter(h)) && Lookup(ListAfter(h), b) == Held(h, b)
  {
    SweptMeans(h.prev, h.op.sweep, b);
    if h.op.Add? {
      AddMeans(h, b);
    } else {
      ListSwept(h);
      HeldOther(h, b);
    }
  }

  lemma ListSwept(h: History)
    requires h.After? && (h.op.Get? || h.op.IsListed?)
    ensures ListAfter(h) == Swept(h.prev, h.op.sweep)
  {
  }

  lemma AddMeans(h: History, b: Octets)
    requires h.After? && h.op.Add? && Monotone(h)
    requires var l := Swept(h.prev, h.op.sweep); Unique(l) && Lookup(l, b) == GetAnswer(h.prev, b, h.op.sweep)
    ensures Unique(ListAfter(h)) && Lookup(ListAfter(h), b) == Held(h, b)
  {
    var l := Swept(h.prev, h.op.sweep);
    assert ListAfter(h) == AddTo(l, h.op.bssid, h.op.now);
    LookupAdd(l, h.op.bssid, h.op.now, b);
    if h.op.bssid == b {
      HeldAdded(h);
    } else {
      HeldOther(h, b);
    }
  }

  lemma HeldOther(h: History, b: Octets)
    requires h.After? && Sweeps(h.op) && (h.op.Add? ==> h.op.bssid != b)
    ensures Held(h, b) == GetAnswer(h.prev, b, h.op.sweep)
  {
    if Meaning(h.prev, b).Some? {
      KeptIs(Meaning(h.prev, b).value, h.op.sweep);
    }
  }

  lemma HeldAdded(h: History)
    requires h.After? && h.op.Add? && Monotone(h)
    ensures var g := GetAnswer(h.prev, h.op.bssid, h.op.sweep);
            Held(h, h.op.bssid)
            == Some(if g.Some? then Bumped(g.value, h.op.now) else Rec(h.op.bssid, 1, h.op.now, 10))
  {
    AddedNotStale(h);
    var m := Meaning(h.prev, h.op.bssid);
    EntriesFit(h.prev, h.op.bssid);
    if m.Some? {
      BackoffIs(m.value.count + 1);
    }
  }

  lemma AddedNotStale(h: History)
    requires h.After? && Monotone(h) && h.op.Add?
    ensures Meaning(h, h.op.bssid).Some? && !Stale(Meaning(h, h.op.bssid).value, LastSweep(h))
  {
    EntriesFit(h, h.op.bssid);
    SweepBeforeClock(h);
    NewNotStale(Meaning(h, h.op.bssid).value, LastSweep(h), h.op.now);
  }

  /** Get finds what the history means, unless it expired more than an hour ago; when the list was
      swept before does not matter. */
  lemma GetBySense(h: History, b: Octets, sweep: Time)
    requires Monotone(h) && NotBefore(sweep, Clock(h))
    ensures GetInList(h, b, sweep) == GetAnswer(h, b, sweep)
  {
    ListMeansHistory(h, b);
    LookupSweep(ListAfter(h), sweep, b);
    KeptSwept(h, sweep, b);
  }

  /** Add answers one more than the count the history means, or one where that is absent or stale. */
  lemma AddBySense(h: History, b: Octets, sweep: Time, now: Time)
    requires Monotone(After(h, Add(b, sweep, now)))
    ensures var g, r := GetAnswer(h, b, sweep), Lookup(ListAfter(After(h, Add(b, sweep, now))), b);
            && r.Some? && r.value.start == now
            && r.value.count == (if g.Some? then g.value.count + 1 else 1)
            && r.value.timeoutSecs == Backoff(r.value.count)
  {
    var h' := After(h, Add(b, sweep, now));
    ListMeansHistory(h', b);
    EntriesFit(h', b);
    AddedNotStale(h');
    AddedMeaning(h, b, sweep, now);
  }

  lemma AddedMeaning(h: History, b: Octets, sweep: Time, now: Time)
    ensures var g, r := GetAnswer(h, b, sweep), Meaning(After(h, Add(b, sweep, now)), b);
            r.Some? && r.value.start == now && r.value.count == if g.Some? then g.value.count + 1 else 1
  {
  }

  /** A BSSID is listed, with its count, exactly while no more than its timeout has passed since it was
      added last. */
  lemma IsListedBySense(h: History, b: Octets, sweep: Time, now: Time)
    requires Monotone(h) && NotBefore(sweep, Clock(h)) && NotBefore(now, sweep)
    ensures var m := Meaning(h, b);
            IsListedInList(h, b, sweep, now)
            == if !Reconfigured(h) && m.Some?
                  && Micros(now) - Micros(m.value.start) <= m.value.timeoutSecs * 1000000
               then m.value.count else 0
  {
    GetBySense(h, b, sweep);
    var m := Meaning(h, b);
    if m.Some? {
      ExpiredIsExact(now, m.value.start, m.value.timeoutSecs);
      ExpiredIsExact(sweep, m.value.start, m.value.timeoutSecs + GRACE_SECS);
    }
  }

  /** Del finds its BSSID exactly when the history means an entry for it that was not stale when the
      list was swept last: its answer, unlike the others, does show the sweeping. */
  lemma DelBySense(h: History, b: Octets)
    requires Monotone(h)
    ensures Find(ListAfter(h), b) < |ListAfter(h)|
            <==> Meaning(h, b).Some? && Kept(Meaning(h, b).value, LastSweep(h))
  {
    ListMeansHistory(h, b);
  }

  /** Two histories that mean the same for a BSSID, and of which only one lets del find it: asking for
      another BSSID more than an hour after the timeout has swept it away. */
  lemma DelShowsSweeping(b: Octets, c: Octets, at: Time, late: Time)
    requires b != c && Micros(late) - Micros(at) > 3610 * 1000000
    ensures var h := After(Start(at), Add(b, at, at));
            var h' := After(h, Get(c, late));
            && Monotone(h') && Meaning(h, b) == Meaning(h', b)
            && Find(ListAfter(h), b) < |ListAfter(h)| && Find(ListAfter(h'), b) == |ListAfter(h')|
  {
    var s := Start(at);
    var h := After(s, Add(b, at, at));
    var h' := After(h, Get(c, late));
    var r := Rec(b, 1, at, 10);
    assert Stale(r, late) by {
      ExpiredIsExact(late, at, 10 + GRACE_SECS);
    }
    NewNotStale(r, at, at);
    assert Meaning(s, b) == None && Meaning(h, b) == Some(r) && LastSweep(h) == at && Clock(h) == at;
    assert Meaning(h', b) == Some(r) && LastSweep(h') == late;
    DelBySense(h, b);
    DelBySense(h', b);
  }
}
