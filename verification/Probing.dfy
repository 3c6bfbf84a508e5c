/** Zero-terminated frequency lists, and the cursor that probes one further channel per scan. */
module Probing {
  import opened Seqs

  // ----- zero-terminated arrays

  /** The part of an array that a walk up to the first zero sees; no array at all is the empty one. */
  function Visible(a: seq<int>): seq<int> {
    if a == [] || a[0] == 0 then [] else [a[0]] + Visible(a[1..])
  }

  predicate Terminated(a: seq<int>) {
    a == [] || a[|a| - 1] == 0
  }

  predicate NonZero(s: seq<int>) {
    forall i :: 0 <= i < |s| ==> s[i] != 0
  }

  lemma {:induction false} VisibleOfTerminated(s: seq<int>)
    requires NonZero(s)
    ensures Visible(s + [0]) == s
  {
    if s != [] {
      assert (s + [0])[1..] == s[1..] + [0];
      VisibleOfTerminated(s[1..]);
      assert s == [s[0]] + s[1..];
    }
  }

  lemma {:induction false} VisibleNonZero(a: seq<int>)
    ensures NonZero(Visible(a))
  {
    if a != [] && a[0] != 0 {
      VisibleNonZero(a[1..]);
    }
  }

  lemma VisibleStep(a: seq<int>, i: nat)
    requires i < |a|
    ensures Visible(a[i..]) == if a[i] == 0 then [] else [a[i]] + Visible(a[i + 1..])
  {
  }

  /** What is visible of an array, by positions: all before its first zero. */
  lemma {:induction false} VisibleExactly(a: seq<int>) returns (k: nat)
    ensures k <= |a| && Visible(a) == a[..k] && (k < |a| ==> a[k] == 0)
    ensures forall i :: 0 <= i < k ==> a[i] != 0
  {
    k := 0;
    if a != [] && a[0] != 0 {
      k := VisibleExactly(a[1..]);
      k := k + 1;
    }
  }

  method InArray(a: seq<int>, val: int) returns (r: bool)
    requires Terminated(a)
    ensures r <==> val in Visible(a)
  {
    if a == [] {
      return false;
    }
    var i := 0;
    assert a[0..] == a;
    while a[i] != 0
      invariant i < |a|
      invariant val in Visible(a) <==> val in Visible(a[i..])
      decreases |a| - i
    {
      VisibleStep(a, i);
      if a[i] == val {
        return true;
      }
      i := i + 1;
    }
    VisibleStep(a, i);
    return false;
  }

  /** The number of places taken, the terminator not counted. */
  function Count(a: seq<int>): nat {
    if a == [] then 0 else |a| - 1
  }

  /** Grows an array by one place for a frequency, and terminates it again. */
  function Push(a: seq<int>, f: int): (r: seq<int>)
    ensures Terminated(r) && Count(r) == Count(a) + 1
  {
    a[..Count(a)] + [f, 0]
  }

  function PushNew(a: seq<int>, f: int): seq<int> {
    if f in Visible(a) then a else Push(a, f)
  }

  function PushAll(a: seq<int>, fs: seq<int>): seq<int>
    decreases |fs|
  {
    if fs == [] then a else PushAll(PushNew(a, fs[0]), fs[1..])
  }

  lemma PushVisible(s: seq<int>, f: int)
    requires NonZero(s) && f != 0
    ensures Visible(Push(s + [0], f)) == s + [f] && Push(s + [0], f) == s + [f] + [0]
    ensures Visible(Push([], f)) == [f]
  {
    assert (s + [0])[..Count(s + [0])] == s;
    VisibleOfTerminated(s + [f]);
    assert s + [f] + [0] == s + [f, 0];
    VisibleOfTerminated([f]);
    assert Push([], f) == [f] + [0];
  }

  /** Collecting non-zero frequencies one by one gives each of them once, before the terminator. */
  lemma {:induction false} PushAllCollects(a: seq<int>, fs: seq<int>)
    requires NonZero(fs) && NonZero(Visible(a)) && Distinct(Visible(a))
    requires a == [] || a == Visible(a) + [0]
    ensures var r := PushAll(a, fs);
            && NonZero(Visible(r)) && Distinct(Visible(r)) && (r == [] || r == Visible(r) + [0])
            && (r == [] <==> a == [] && fs == [])
            && forall f :: f in Visible(r) <==> f in Visible(a) || f in fs
    decreases |fs|
  {
    if fs != [] {
      var b, s := PushNew(a, fs[0]), Visible(a);
      if fs[0] !in s {
        PushVisible(s, fs[0]);
        assert a == [] ==> s + [fs[0]] == [fs[0]];
        assert Visible(b) == s + [fs[0]] && b == Visible(b) + [0];
      }
      PushAllCollects(b, fs[1..]);
      assert forall f :: f in fs <==> f == fs[0] || f in fs[1..];
    }
  }

  // ----- the probe cursor

  /** The supported channels in the order in which the cursor at `c` comes to them. */
  function Rotated(s: seq<int>, c: nat): (r: seq<int>)
    requires c <= |s|
    ensures |r| == |s|
  {
    s[c..] + s[..c]
  }

  /** The members of `s` that have not been learned, in order. */
  function Unlearned(s: seq<int>, learned: seq<int>): seq<int> {
    if s == [] then []
    else (if s[0] in learned then [] else [s[0]]) + Unlearned(s[1..], learned)
  }

  /** The channels still to be probed, in the order in which the cursor comes to them. */
  function Pending(s: seq<int>, learned: seq<int>, c: nat): seq<int>
    requires c <= |s|
  {
    Unlearned(Rotated(s, c), learned)
  }

  function Next(s: seq<int>, i: nat): (j: nat)
    requires i < |s|
    ensures j < |s|
  {
    if i + 1 == |s| then 0 else i + 1
  }

  /** The number of channels to step over before the first that has not been learned. */
  function Steps(s: seq<int>, learned: seq<int>): (k: nat)
    ensures k <= |s|
  {
    if s == [] || s[0] !in learned then 0 else 1 + Steps(s[1..], learned)
  }

  /** Where the cursor is after `k` steps. */
  function Forward(s: seq<int>, c: nat, k: nat): (i: nat)
    requires c < |s| && k <= |s|
    ensures i < |s|
  {
    if c + k < |s| then c + k else c + k - |s|
  }

  /** One probe: which channel is added, if any, and where the cursor goes. */
  function Probe(s: seq<int>, learned: seq<int>, c: nat): (r: (seq<int>, nat))
    requires c < |s|
    ensures r.1 < |s|
  {
    var k := Steps(Rotated(s, c), learned);
    if k == |s| then ([], c) else ([s[Forward(s, c, k)]], Next(s, Forward(s, c, k)))
  }

  lemma {:induction false} UnlearnedConcat(a: seq<int>, b: seq<int>, learned: seq<int>)
    ensures Unlearned(a + b, learned) == Unlearned(a, learned) + Unlearned(b, learned)
  {
    if a == [] {
      assert a + b == b;
    } else {
      assert (a + b)[1..] == a[1..] + b;
      UnlearnedConcat(a[1..], b, learned);
      var head := if a[0] in learned then [] else [a[0]];
      assert (head + Unlearned(a[1..], learned)) + Unlearned(b, learned)
          == head + (Unlearned(a[1..], learned) + Unlearned(b, learned));
    }
  }

  lemma {:induction false} StepsLearned(s: seq<int>, learned: seq<int>)
    ensures Unlearned(s[..Steps(s, learned)], learned) == []
    ensures Steps(s, learned) < |s| ==> s[Steps(s, learned)] !in learned
    ensures Unlearned(s, learned) == [] <==> Steps(s, learned) == |s|
  {
    if s != [] && s[0] in learned {
      StepsLearned(s[1..], learned);
      assert s[..Steps(s, learned)][1..] == s[1..][..Steps(s[1..], learned)];
    }
  }

  lemma RotatedAt(s: seq<int>, c: nat, k: nat)
    requires c < |s| && k < |s|
    ensures Rotated(s, c)[k] == s[Forward(s, c, k)]
  {
  }

  lemma RotatedForward(s: seq<int>, c: nat, k: nat)
    requires c < |s| && k < |s|
    ensures Rotated(s, Forward(s, c, k)) == Rotated(s, c)[k..] + Rotated(s, c)[..k]
  {
  }

  lemma NextForward(s: seq<int>, c: nat, k: nat)
    requires c < |s| && k < |s|
    ensures Next(s, Forward(s, c, k)) == Forward(s, c, k + 1)
  {
  }

  /** A probe takes the first pending channel and puts it at the end of the queue; it takes nothing
      and leaves the cursor alone exactly when nothing is pending. */
  lemma ProbeRotates(s: seq<int>, learned: seq<int>, c: nat)
    requires c < |s|
    ensures var p, (added, c') := Pending(s, learned, c), Probe(s, learned, c);
            if p == [] then added == [] && c' == c
            else added == [p[0]] && Pending(s, learned, c') == p[1..] + [p[0]]
  {
    var r := Rotated(s, c);
    var k := Steps(r, learned);
    StepsLearned(r, learned);
    if k < |s| {
      RotatedAt(s, c, k);
      NextForward(s, c, k);
      ProbeQueue(r, learned, k);
      if k + 1 < |s| {
        RotatedForward(s, c, k + 1);
      } else {
        assert Forward(s, c, |s|) == c;
        assert r[|s|..] + r[..|s|] == r;
      }
    }
  }

  lemma {:induction false} StepsOver(s: seq<int>, learned: seq<int>)
    ensures forall j :: 0 <= j < Steps(s, learned) ==> s[j] in learned
  {
    if s != [] && s[0] in learned {
      StepsOver(s[1..], learned);
      forall j | 0 <= j < Steps(s, learned) ensures s[j] in learned {
        assert j > 0 ==> s[j] == s[1..][j - 1];
      }
    }
  }

  /** One probe, by positions: it takes the first channel not learned, from the cursor on and round, and
      leaves the cursor behind it; if there is none it changes nothing. */
  lemma ProbeExactly(s: seq<int>, learned: seq<int>, c: nat) returns (i: nat)
    requires c < |s|
    ensures (forall x :: 0 <= x < |s| ==> s[x] in learned) ==> Probe(s, learned, c) == ([], c)
    ensures (exists x :: 0 <= x < |s| && s[x] !in learned) ==>
              && i < |s| && s[i] !in learned && Probe(s, learned, c).0 == [s[i]]
              && Probe(s, learned, c).1 == (if i == |s| - 1 then 0 else i + 1)
              && (forall x :: c <= x < (if i >= c then i else |s|) ==> s[x] in learned)
              && (i < c ==> forall x :: 0 <= x < i ==> s[x] in learned)
  {
    var r := Rotated(s, c);
    var k := Steps(r, learned);
    StepsOver(r, learned);
    StepsLearned(r, learned);
    i := c;
    if k < |s| {
      i := Forward(s, c, k);
      assert r[k] == s[i];
    }
    forall x | 0 <= x < |s| ensures s[x] == r[if x < c then |s| - c + x else x - c] {
    }
  }

  lemma ProbeQueue(r: seq<int>, learned: seq<int>, k: nat)
    requires k < |r| && Unlearned(r[..k], learned) == [] && r[k] !in learned
    ensures var p := Unlearned(r, learned);
            p != [] && p[0] == r[k] && Unlearned(r[k + 1..] + r[..k + 1], learned) == p[1..] + [p[0]]
  {
    var rest := Unlearned(r[k + 1..], learned);
    assert r == r[..k] + ([r[k]] + r[k + 1..]);
    UnlearnedConcat(r[..k], [r[k]] + r[k + 1..], learned);
    UnlearnedConcat([r[k]], r[k + 1..], learned);
    assert Unlearned([r[k]], learned) == [r[k]];
    assert Unlearned(r, learned) == [r[k]] + rest;
    assert r[..k + 1] == r[..k] + [r[k]];
    UnlearnedConcat(r[..k], [r[k]], learned);
    UnlearnedConcat(r[k + 1..], r[..k + 1], learned);
  }

  /** What consecutive probes add while the learned frequencies stay the same. */
  function Probes(s: seq<int>, learned: seq<int>, c: nat, calls: nat): seq<int>
    requires c < |s|
    decreases calls
  {
    if calls == 0 then []
    else
      var (added, c') := Probe(s, learned, c);
      added + Probes(s, learned, c', calls - 1)
  }

  lemma {:induction false} ProbesArePending(s: seq<int>, learned: seq<int>, c: nat, calls: nat)
    requires c < |s| && calls <= |Pending(s, learned, c)|
    ensures Probes(s, learned, c, calls) == Pending(s, learned, c)[..calls]
    decreases calls
  {
    if calls > 0 {
      var p := Pending(s, learned, c);
      var (added, c') := Probe(s, learned, c);
      ProbeRotates(s, learned, c);
      ProbesArePending(s, learned, c', calls - 1);
      assert p[..calls] == [p[0]] + (p[1..] + [p[0]])[..calls - 1];
    }
  }

  lemma {:induction false} UnlearnedMembers(s: seq<int>, learned: seq<int>, f: int)
    ensures multiset(Unlearned(s, learned))[f] == if f in learned then 0 else multiset(s)[f]
  {
    if s != [] {
      UnlearnedMembers(s[1..], learned, f);
      assert s == [s[0]] + s[1..];
    }
  }

  /** However the cursor stands, the pending channels are the supported ones that are not learned. */
  lemma PendingCount(s: seq<int>, learned: seq<int>, c: nat)
    requires c <= |s|
    ensures |Pending(s, learned, c)| == |Unlearned(s, learned)|
    ensures multiset(Pending(s, learned, c)) == multiset(Unlearned(s, learned))
  {
    var a, b := s[..c], s[c..];
    UnlearnedConcat(b, a, learned);
    UnlearnedConcat(a, b, learned);
    assert s == a + b;
    Swapped(Unlearned(a, learned), Unlearned(b, learned));
  }

  lemma Swapped(a: seq<int>, b: seq<int>)
    ensures |b + a| == |a + b| && multiset(b + a) == multiset(a + b)
  {
  }

  /** Fairness: as many consecutive probes as there are unlearned channels add each of them exactly as
      often as it is supported, which is once if the supported list is distinct, and no other. */
  lemma ProbesAreFair(s: seq<int>, learned: seq<int>, c: nat, f: int)
    requires c < |s|
    ensures var m := multiset(Probes(s, learned, c, |Unlearned(s, learned)|));
            && m[f] == (if f in learned then 0 else multiset(s)[f])
            && (Distinct(s) ==> m[f] == if f in s && f !in learned then 1 else 0)
  {
    var p := Pending(s, learned, c);
    PendingCount(s, learned, c);
    ProbesArePending(s, learned, c, |p|);
    assert p[..|p|] == p;
    UnlearnedMembers(s, learned, f);
    if Distinct(s) {
      DistinctMultiplicity(s, f);
    }
  }

  lemma {:induction false} DistinctMultiplicity(s: seq<int>, f: int)
    requires Distinct(s)
    ensures multiset(s)[f] == if f in s then 1 else 0
  {
    if s != [] {
      DistinctMultiplicity(s[1..], f);
      assert s == [s[0]] + s[1..];
      assert s[0] !in s[1..];
    }
  }

  // ----- fairness while more is learned

  /** What consecutive probes add when the learned frequencies are in turn the given ones. */
  function ProbesOver(s: seq<int>, learned: seq<seq<int>>, c: nat): seq<int>
    requires c < |s|
    decreases |learned|
  {
    if learned == [] then []
    else
      var (added, c') := Probe(s, learned[0], c);
      added + ProbesOver(s, learned[1..], c')
  }

  /** With a channel that is not learned ahead of the cursor, a probe takes it, or brings the cursor
      closer to it. */
  lemma ProbeComesCloser(s: seq<int>, learned: seq<int>, c: nat, f: int, d: nat)
    requires c < |s| && d < |s| && Rotated(s, c)[d] == f && f !in learned
    ensures var (added, c') := Probe(s, learned, c);
            f in added || exists d': nat :: d' < d && Rotated(s, c')[d'] == f
  {
    var r := Rotated(s, c);
    var k := Steps(r, learned);
    StepsLearned(r, learned);
    StepsBefore(r, learned, d);
    RotatedAt(s, c, k);
    NextForward(s, c, k);
    if k < d {
      RotatedForward(s, c, k + 1);
      var (added, c') := Probe(s, learned, c);
      assert Rotated(s, c')[d - k - 1] == f;
    }
  }

  lemma {:induction false} StepsBefore(r: seq<int>, learned: seq<int>, d: nat)
    requires d < |r| && r[d] !in learned
    ensures Steps(r, learned) <= d
  {
    if d > 0 && r[0] in learned {
      StepsBefore(r[1..], learned, d - 1);
    }
  }

  lemma {:induction false} ReachedInTime(s: seq<int>, learned: seq<seq<int>>, c: nat, f: int, d: nat)
    requires c < |s| && d < |s| && Rotated(s, c)[d] == f && d < |learned|
    requires forall l :: l in learned ==> f !in l
    ensures f in ProbesOver(s, learned, c)
    decreases |learned|
  {
    ProbeComesCloser(s, learned[0], c, f, d);
    var (added, c') := Probe(s, learned[0], c);
    if f !in added {
      var d': nat :| d' < d && Rotated(s, c')[d'] == f;
      ReachedInTime(s, learned[1..], c', f, d');
    }
  }

  /** Fairness while the learned frequencies change from call to call: as many consecutive probes as
      there are supported channels add every one that is not learned at any of them. */
  lemma ProbesStayFair(s: seq<int>, learned: seq<seq<int>>, c: nat, f: int)
    requires c < |s| && |learned| >= |s| && f in s && forall l :: l in learned ==> f !in l
    ensures f in ProbesOver(s, learned, c)
  {
    var i :| 0 <= i < |s| && s[i] == f;
    var d := if i >= c then i - c else i - c + |s|;
    assert Rotated(s, c)[d] == f;
    ReachedInTime(s, learned, c, f, d);
  }

  /** Nothing is ever added when every supported channel has been learned. */
  lemma {:induction false} NothingToProbe(s: seq<int>, learned: seq<int>, c: nat, calls: nat)
    requires c < |s| && forall f :: f in s ==> f in learned
    ensures Probes(s, learned, c, calls) == []
    decreases calls
  {
    if calls > 0 {
      AllLearned(s, learned);
      PendingCount(s, learned, c);
      ProbeRotates(s, learned, c);
      NothingToProbe(s, learned, c, calls - 1);
    }
  }

  lemma {:induction false} AllLearned(s: seq<int>, learned: seq<int>)
    requires forall f :: f in s ==> f in learned
    ensures Unlearned(s, learned) == []
  {
    if s != [] {
      var f := s[0];
      assert f in s;
      AllLearned(s[1..], learned);
    }
  }
}
