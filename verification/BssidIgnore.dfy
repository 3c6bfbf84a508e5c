/** The ignore list as the program keeps it, with entries changed in place. */
module BssidIgnore {
  import opened Wrappers
  import opened Elements
  import opened RelTime
  import opened Seqs
  import opened IgnoreModel

  class IgnoreEntry {
    var bssid: Octets
    var count: int
    var start: Time
    var timeoutSecs: int

    ghost function Val(): Rec
      reads this
    {
      Rec(bssid, count, start, timeoutSecs)
    }

    constructor (bssid: Octets, now: Time)
      ensures Val() == Rec(bssid, 1, now, 10)
    {
      this.bssid, count, start, timeoutSecs := bssid, 1, now, 10;
    }

    /** One more reason to ignore the BSSID, for longer. */
    method Increment(now: Time)
      modifies this
      ensures Val() == Bumped(old(Val()), now)
    {
      start := now;
      count := count + 1;
      if count > 5 {
        timeoutSecs := 1800;
      } else if count == 5 {
        timeoutSecs := 600;
      } else if count == 4 {
        timeoutSecs := 120;
      } else if count == 3 {
        timeoutSecs := 60;
      } else {
        timeoutSecs := 10;
      }
    }
  }

  ghost function Vals(s: seq<IgnoreEntry>): (r: seq<Rec>)
    reads s
    ensures |r| == |s| && forall i :: 0 <= i < |s| ==> r[i] == s[i].Val()
  {
    if s == [] then [] else [s[0].Val()] + Vals(s[1..])
  }

  lemma {:induction false} ValsConcat(a: seq<IgnoreEntry>, b: seq<IgnoreEntry>)
    ensures Vals(a + b) == Vals(a) + Vals(b)
  {
  }

  lemma MiddleDropped(p: seq<Rec>, v: Rec, q: seq<Rec>)
    ensures var l := p + ([v] + q); l[..|p|] + l[|p| + 1..] == p + q
  {
  }

  lemma ValsDrop(s: seq<IgnoreEntry>, k: nat)
    requires k < |s|
    ensures Vals(s[..k] + s[k + 1..]) == Vals(s)[..k] + Vals(s)[k + 1..]
  {
    var l, p, q, v := Vals(s), Vals(s[..k]), Vals(s[k + 1..]), s[k].Val();
    assert l == p + ([v] + q) by {
      assert s == s[..k] + s[k..];
      ValsConcat(s[..k], s[k..]);
      assert s[k..][1..] == s[k + 1..];
    }
    assert Vals(s[..k] + s[k + 1..]) == p + q by {
      ValsConcat(s[..k], s[k + 1..]);
    }
    MiddleDropped(p, v, q);
  }

  /** Distinct entries among the first `i` of a list. */
  ghost predicate KeptFrom(kept: seq<IgnoreEntry>, s: seq<IgnoreEntry>, i: nat)
    requires i <= |s|
  {
    Distinct(kept) && forall e :: e in kept ==> e in s[..i]
  }

  lemma DropOne(kept: seq<IgnoreEntry>, s: seq<IgnoreEntry>, i: nat)
    requires i < |s| && KeptFrom(kept, s, i)
    ensures KeptFrom(kept, s, i + 1)
  {
  }

  /** Keeping one more entry. */
  lemma KeepOne(kept: seq<IgnoreEntry>, s: seq<IgnoreEntry>, i: nat, rest: seq<Rec>)
    requires Distinct(s) && i < |s| && KeptFrom(kept, s, i)
    ensures KeptFrom(kept + [s[i]], s, i + 1)
    ensures Vals(kept + [s[i]]) + rest == Vals(kept) + ([s[i].Val()] + rest)
  {
    assert s[i] !in s[..i];
    assert s[..i + 1] == s[..i] + [s[i]];
    AppendDistinct(kept, s[i]);
    assert Vals(kept + [s[i]]) == Vals(kept) + [s[i].Val()];
  }

  lemma SweepAt(l: seq<Rec>, i: nat, now: Time)
    requires i < |l|
    ensures Sweep(l[i..], now) == if Stale(l[i], now) then Sweep(l[i + 1..], now) else [l[i]] + Sweep(l[i + 1..], now)
  {
  }

  lemma FindAt(l: seq<Rec>, i: nat, bssid: Octets)
    requires i < |l|
    ensures Find(l[i..], bssid) == if l[i].bssid == bssid then 0 else 1 + Find(l[i + 1..], bssid)
  {
  }

  class IgnoreList {
    var entries: seq<IgnoreEntry>
    var reconfigured: bool  // the current network was recently reconfigured

    ghost function Model(): seq<Rec>
      reads `entries, entries
    {
      Vals(entries)
    }

    constructor ()
      ensures entries == [] && !reconfigured
    {
      entries, reconfigured := [], false;
    }

    /** Unlinks the entries that expired over an hour ago. */
    method Update(now: Time)
      requires Distinct(entries)
      modifies `entries
      ensures Distinct(entries) && Model() == Sweep(old(Model()), now)
      ensures forall e :: e in entries ==> e in old(entries)
    {
      entries := Unexpired(now);
    }

    method Unexpired(now: Time) returns (kept: seq<IgnoreEntry>)
      requires Distinct(entries)
      ensures Distinct(kept) && (forall e :: e in kept ==> e in entries) && Vals(kept) == Sweep(Model(), now)
    {
      ghost var l := Model();
      kept := [];
      var i := 0;
      assert l[0..] == l;
      while i < |entries|
        invariant i <= |entries| && KeptFrom(kept, entries, i)
        invariant Vals(kept) + Sweep(l[i..], now) == Sweep(l, now)
      {
        var e := entries[i];
        SweepAt(l, i, now);
        if !Expired(now, e.start, e.timeoutSecs + GRACE_SECS) {
          KeepOne(kept, entries, i, Sweep(l[i + 1..], now));
          kept := kept + [e];
        } else {
          DropOne(kept, entries, i);
        }
        i := i + 1;
      }
      assert Vals(kept) + [] == Vals(kept);
    }

    /** The position of the first entry for a BSSID, or the number of entries. */
    method Search(bssid: Octets) returns (k: nat)
      ensures k == Find(Model(), bssid)
    {
      k := 0;
      assert Model()[0..] == Model();
      while k < |entries| && entries[k].bssid != bssid
        invariant k <= |entries| && Find(Model(), bssid) == k + Find(Model()[k..], bssid)
      {
        FindAt(Model(), k, bssid);
        k := k + 1;
      }
      if k < |entries| {
        FindAt(Model(), k, bssid);
      }
    }

    method SetEntries(s: seq<IgnoreEntry>)
      modifies `entries
      ensures entries == s && Model() == old(Vals(s))
    {
      entries := s;
    }

    /** Drops all entries. */
    method ClearAll()
      modifies `entries
      ensures entries == []
    {
      entries := [];
    }

    /** The position of the entry for a BSSID; sweeps first, or clears after a reconfiguration. */
    method Get(bssid: Octets, now: Time) returns (k: nat)
      requires Distinct(entries)
      modifies `entries, `reconfigured
      ensures Distinct(entries) && !reconfigured && forall e :: e in entries ==> e in old(entries)
      ensures Model() == if old(reconfigured) then [] else Sweep(old(Model()), now)
      ensures k == Find(Model(), bssid)
    {
      if reconfigured {
        ClearAll();
        reconfigured := false;
        return 0;
      }
      Update(now);
      k := Search(bssid);
    }

    /** Increments the entry at a position. */
    method IncrementAt(k: nat, now: Time)
      requires Distinct(entries) && k < |entries|
      modifies entries[k]
      ensures Model() == old(Model())[k := Bumped(old(Model())[k], now)]
    {
      ghost var l := Model();
      entries[k].Increment(now);
      forall i | 0 <= i < |entries| && i != k ensures Model()[i] == l[i] {
        assert entries[i] != entries[k];
      }
    }

    /** Puts a new entry at the front. */
    method Prepend(bssid: Octets, now: Time)
      requires Distinct(entries)
      modifies `entries
      ensures Distinct(entries) && Model() == [Rec(bssid, 1, now, 10)] + old(Model())
    {
      ghost var l := Model();
      var e := new IgnoreEntry(bssid, now);
      assert Model() == l;
      entries := [e] + entries;
    }

    /** Adds a BSSID, or counts one more for it; answers the count. */
    method Add(bssid: Octets, sweep: Time, now: Time) returns (count: int)
      requires Distinct(entries)
      modifies `entries, `reconfigured, entries
      ensures Distinct(entries) && !reconfigured
      ensures Model() == AddTo(if old(reconfigured) then [] else Sweep(old(Model()), sweep), bssid, now)
      ensures Lookup(Model(), bssid).Some? && count == Lookup(Model(), bssid).value.count
    {
      var k := Get(bssid, sweep);
      ghost var l := Model();
      AddedLookup(l, bssid, now);
      if k < |entries| {
        assert entries[k] in entries;
        IncrementAt(k, now);
        count := entries[k].count;
      } else {
        Prepend(bssid, now);
        count := 1;
      }
    }

    lemma AddedLookup(l: seq<Rec>, bssid: Octets, now: Time)
      ensures var k := Find(l, bssid);
              Lookup(AddTo(l, bssid, now), bssid)
              == Some(if k < |l| then Bumped(l[k], now) else Rec(bssid, 1, now, 10))
    {
      var k := Find(l, bssid);
      if k < |l| {
        FoundAt(l, k, AddTo(l, bssid, now), bssid);
      }
    }

    lemma FoundAt(l: seq<Rec>, k: nat, u: seq<Rec>, bssid: Octets)
      requires k == Find(l, bssid) < |l| == |u| && u[k].bssid == bssid
      requires forall i :: 0 <= i < k ==> u[i] == l[i]
      ensures Find(u, bssid) == k
    {
    }

    /** Unlinks the entry for a BSSID; answers whether there was one. */
    method Del(bssid: Octets) returns (ok: bool)
      requires Distinct(entries)
      modifies `entries
      ensures Distinct(entries) && Model() == DeleteFrom(old(Model()), bssid)
      ensures ok <==> Find(old(Model()), bssid) < |old(Model())|
    {
      var k := Search(bssid);
      ok := k < |entries|;
      if ok {
        DropDistinct(entries, k);
        ValsDrop(entries, k);
        SetEntries(entries[..k] + entries[k + 1..]);
      }
    }

    /** The count of a BSSID that is to be ignored now, zero for any other. */
    method IsListed(bssid: Octets, sweep: Time, now: Time) returns (count: int)
      requires Distinct(entries)
      modifies `entries, `reconfigured
      ensures Distinct(entries) && !reconfigured
      ensures Model() == if old(reconfigured) then [] else Sweep(old(Model()), sweep)
      ensures count == match Lookup(Model(), bssid)
                       case None => 0
                       case Some(r) => if Expired(now, r.start, r.timeoutSecs) then 0 else r.count
    {
      var k := Get(bssid, sweep);
      if k == |entries| {
        return 0;
      }
      var e := entries[k];
      if Expired(now, e.start, e.timeoutSecs) {
        return 0;
      }
      return e.count;
    }

    method Clear()
      modifies `entries
      ensures Distinct(entries) && Model() == []
    {
      ClearAll();
    }
  }
}
