/** Sequences that stand for linked lists of distinct nodes. */
module Seqs {

  ghost predicate Distinct<T>(s: seq<T>) {
    forall i, j :: 0 <= i < j < |s| ==> s[i] != s[j]
  }

  /** The list that is left once the members of `dead` have been unlinked from `s`. */
  ghost function Minus<T>(s: seq<T>, dead: set<T>): (r: seq<T>)
    ensures forall x :: x in r ==> x in s && x !in dead
    ensures forall x :: x in s && x !in dead ==> x in r
    ensures |r| <= |s|
  {
    if s == [] then []
    else if s[0] in dead then Minus(s[1..], dead)
    else [s[0]] + Minus(s[1..], dead)
  }

  lemma MinusNothing<T>(s: seq<T>, dead: set<T>)
    requires forall x :: x in s ==> x !in dead
    ensures Minus(s, dead) == s
  {
  }

  /** Unlinking in two rounds unlinks the union. */
  lemma MinusTwice<T>(s: seq<T>, a: set<T>, b: set<T>)
    ensures Minus(Minus(s, a), b) == Minus(s, a + b)
  {
  }

  /** What is left keeps its order: it is picked by increasing positions. */
  lemma {:induction false} MinusOrder<T>(s: seq<T>, dead: set<T>, i: nat, j: nat) returns (p: nat, q: nat)
    requires i < j < |Minus(s, dead)|
    ensures p < q < |s| && s[p] == Minus(s, dead)[i] && s[q] == Minus(s, dead)[j]
  {
    var rest := Minus(s[1..], dead);
    if s[0] in dead {
      p, q := MinusOrder(s[1..], dead, i, j);
      p, q := p + 1, q + 1;
    } else if i > 0 {
      p, q := MinusOrder(s[1..], dead, i - 1, j - 1);
      p, q := p + 1, q + 1;
    } else {
      p := 0;
      assert rest[j - 1] in s[1..];
      var k :| 0 <= k < |s[1..]| && s[1..][k] == rest[j - 1];
      q := k + 1;
    }
  }

  lemma MinusDistinct<T>(s: seq<T>, dead: set<T>)
    requires Distinct(s)
    ensures Distinct(Minus(s, dead))
  {
  }

  /** Unlinking the node at position `k` of a list of distinct nodes. */
  lemma {:induction false} UnlinkAt<T>(s: seq<T>, k: nat)
    requires k < |s| && Distinct(s)
    ensures Minus(s, {s[k]}) == s[..k] + s[k + 1..]
  {
    if k == 0 {
      MinusNothing(s[1..], {s[0]});
    } else {
      UnlinkAt(s[1..], k - 1);
      assert s[..k] + s[k + 1..] == [s[0]] + (s[1..][..k - 1] + s[1..][k..]);
    }
  }

  lemma DropDistinct<T>(s: seq<T>, k: nat)
    requires k < |s| && Distinct(s)
    ensures Distinct(s[..k] + s[k + 1..])
  {
  }

  lemma AppendDistinct<T>(s: seq<T>, x: T)
    requires Distinct(s) && x !in s
    ensures Distinct(s + [x])
  {
  }

  /** The list with one node replaced by another, at the same position. */
  ghost function Renamed<T>(s: seq<T>, x: T, y: T): (r: seq<T>)
    ensures |r| == |s|
    ensures forall i :: 0 <= i < |s| ==> r[i] == if s[i] == x then y else s[i]
  {
    seq(|s|, i requires 0 <= i < |s| => if s[i] == x then y else s[i])
  }

  lemma RenamedDistinct<T>(s: seq<T>, x: T, y: T)
    requires Distinct(s) && y !in s
    ensures Distinct(Renamed(s, x, y))
  {
  }

  lemma RenamedMembers<T>(s: seq<T>, x: T, y: T, z: T)
    ensures z in Renamed(s, x, y) <==> (z in s && z != x) || (z == y && x in s)
  {
  }

  lemma SameMembersSameLength<T>(a: seq<T>, b: seq<T>)
    requires Distinct(a) && Distinct(b)
    requires forall x :: x in a <==> x in b
    ensures |a| == |b|
  {
    DistinctCard(a);
    DistinctCard(b);
    assert (set x | x in a) == (set x | x in b);
  }

  lemma {:induction false} DistinctCard<T>(a: seq<T>)
    requires Distinct(a)
    ensures |set x | x in a| == |a|
  {
    if a != [] {
      var k := |a| - 1;
      DistinctCard(a[..k]);
      assert a == a[..k] + [a[k]];
      assert (set x | x in a) == (set x | x in a[..k]) + {a[k]};
    }
  }

  /** The nodes that have been gone through when the cursor is at position `i`. */
  ghost function UpTo<T>(s: seq<T>, i: nat): set<T>
    requires i <= |s|
  {
    if i == 0 then {} else UpTo(s, i - 1) + {s[i - 1]}
  }

  lemma {:induction false} UpToMembers<T>(s: seq<T>, i: nat, r: T)
    requires i <= |s|
    ensures r in UpTo(s, i) <==> r in s[..i]
  {
    if i > 0 {
      UpToMembers(s, i - 1, r);
      assert s[..i] == s[..i - 1] + [s[i - 1]];
    }
  }

  lemma NextNotSeen<T>(s: seq<T>, i: nat)
    requires Distinct(s) && i < |s|
    ensures s[i] !in UpTo(s, i)
  {
    UpToMembers(s, i, s[i]);
  }
}
