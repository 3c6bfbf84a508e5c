/** The priority lists of the configuration: chains of networks of one priority each. */
module PrioModel {
  /** A configured network. `pnext` leads to the next network of the same priority. */
  class Ssid {
    const id: int
    var priority: int
    var pnext: Ssid?

    constructor (id: int)
      ensures this.id == id && priority == 0 && pnext == null
    {
      this.id := id;
      priority, pnext := 0, null;
    }
  }

  /** A network together with its priority. */
  datatype Ranked = Ranked(net: Ssid, prio: int)

  type Chain = seq<Ranked>

  /** The networks of one priority, in list order. */
  function OfPriority(l: seq<Ranked>, p: int): seq<Ranked> {
    if l == [] then []
    else (if l[0].prio == p then [l[0]] else []) + OfPriority(l[1..], p)
  }

  function Flatten(cs: seq<Chain>): seq<Ranked> {
    if cs == [] then [] else cs[0] + Flatten(cs[1..])
  }

  /** Adds a network behind the last of its priority, or as a new chain before the first chain of lower
      priority. */
  function AddPrio(cs: seq<Chain>, r: Ranked): seq<Chain> {
    var k := Level(cs, r.prio);
    if k < |cs| then cs[k := cs[k] + [r]]
    else
      var i := Place(cs, r.prio);
      cs[..i] + [[r]] + cs[i..]
  }

  /** The first chain whose head has this priority, or the number of chains. */
  function Level(cs: seq<Chain>, p: int): (k: nat)
    ensures k <= |cs| && (k < |cs| ==> cs[k] != [] && cs[k][0].prio == p)
    ensures forall j :: 0 <= j < k && cs[j] != [] ==> cs[j][0].prio != p
  {
    if cs == [] then 0 else if cs[0] != [] && cs[0][0].prio == p then 0 else 1 + Level(cs[1..], p)
  }

  /** The first chain whose head has a lower priority, or the number of chains. */
  function Place(cs: seq<Chain>, p: int): (k: nat)
    ensures k <= |cs| && (k < |cs| ==> cs[k] != [] && cs[k][0].prio < p)
    ensures forall j :: 0 <= j < k && cs[j] != [] ==> cs[j][0].prio >= p
  {
    if cs == [] then 0 else if cs[0] != [] && cs[0][0].prio < p then 0 else 1 + Place(cs[1..], p)
  }

  /** The lists built up by adding the networks one after the other. */
  function Build(l: seq<Ranked>): seq<Chain> {
    if l == [] then [] else AddPrio(Build(l[..|l| - 1]), l[|l| - 1])
  }

  /** The chains sort the list by descending priority, and stably: one chain for each priority that
      occurs, strictly descending, each with the networks of its priority in list order. */
  ghost predicate Sorts(cs: seq<Chain>, l: seq<Ranked>) {
    && (forall i :: 0 <= i < |cs| ==> cs[i] != [] && cs[i] == OfPriority(l, cs[i][0].prio))
    && (forall i, j :: 0 <= i < j < |cs| ==> cs[i] != [] && cs[j] != [] && cs[i][0].prio > cs[j][0].prio)
    && (forall r :: r in l ==> exists i :: 0 <= i < |cs| && cs[i] != [] && cs[i][0].prio == r.prio)
  }

  lemma {:induction false} OfPriorityConcat(a: seq<Ranked>, b: seq<Ranked>, p: int)
    ensures OfPriority(a + b, p) == OfPriority(a, p) + OfPriority(b, p)
  {
    if a == [] {
      assert a + b == b;
    } else {
      assert (a + b)[1..] == a[1..] + b;
      OfPriorityConcat(a[1..], b, p);
      var head := if a[0].prio == p then [a[0]] else [];
      assert (head + OfPriority(a[1..], p)) + OfPriority(b, p) == head + (OfPriority(a[1..], p) + OfPriority(b, p));
    }
  }

  lemma OfPriorityAppend(l: seq<Ranked>, r: Ranked, p: int)
    ensures OfPriority(l + [r], p) == OfPriority(l, p) + if r.prio == p then [r] else []
  {
    OfPriorityConcat(l, [r], p);
  }

  lemma {:induction false} OfPriorityMembers(l: seq<Ranked>, p: int, r: Ranked)
    ensures r in OfPriority(l, p) <==> r in l && r.prio == p
  {
    if l != [] {
      OfPriorityMembers(l[1..], p, r);
      assert r in l <==> r == l[0] || r in l[1..];
    }
  }

  /** Adding a network at the end of the list keeps the chains sorted. */
  lemma AddPrioSorts(cs: seq<Chain>, l: seq<Ranked>, r: Ranked)
    requires Sorts(cs, l)
    ensures Sorts(AddPrio(cs, r), l + [r])
  {
    var k := Level(cs, r.prio);
    if k < |cs| {
      AppendSorts(cs, l, r, k);
    } else {
      InsertSorts(cs, l, r);
    }
  }

  lemma AppendSorts(cs: seq<Chain>, l: seq<Ranked>, r: Ranked, k: nat)
    requires Sorts(cs, l) && k < |cs| && cs[k][0].prio == r.prio
    ensures Sorts(cs[k := cs[k] + [r]], l + [r])
  {
    AppendedSorts(cs, cs[k := cs[k] + [r]], l, r, k);
  }

  ghost predicate Appended(cs: seq<Chain>, u: seq<Chain>, r: Ranked, k: nat) {
    k < |cs| && |u| == |cs| && forall i :: 0 <= i < |cs| ==> u[i] == if i == k then cs[k] + [r] else cs[i]
  }

  lemma AppendedSorts(cs: seq<Chain>, u: seq<Chain>, l: seq<Ranked>, r: Ranked, k: nat)
    requires Sorts(cs, l) && Appended(cs, u, r, k) && cs[k][0].prio == r.prio
    ensures Sorts(u, l + [r])
  {
    AppendedChains(cs, u, l, r, k);
    AppendedDescends(cs, u, r, k);
    AppendedCovers(cs, u, l, r, k);
  }

  lemma AppendedChains(cs: seq<Chain>, u: seq<Chain>, l: seq<Ranked>, r: Ranked, k: nat)
    requires Sorts(cs, l) && Appended(cs, u, r, k) && cs[k][0].prio == r.prio
    ensures forall i :: 0 <= i < |u| ==> u[i] != [] && u[i] == OfPriority(l + [r], u[i][0].prio)
  {
    forall i | 0 <= i < |u| ensures u[i] != [] && u[i] == OfPriority(l + [r], u[i][0].prio) {
      AppendChain(cs, l, r, k, i);
    }
  }

  lemma AppendedDescends(cs: seq<Chain>, u: seq<Chain>, r: Ranked, k: nat)
    requires Appended(cs, u, r, k) && forall i :: 0 <= i < |cs| ==> cs[i] != []
    requires forall i, j :: 0 <= i < j < |cs| ==> cs[i] != [] && cs[j] != [] && cs[i][0].prio > cs[j][0].prio
    ensures forall i, j :: 0 <= i < j < |u| ==> u[i] != [] && u[j] != [] && u[i][0].prio > u[j][0].prio
  {
    forall i, j | 0 <= i < j < |u| ensures u[i] != [] && u[j] != [] && u[i][0].prio > u[j][0].prio {
      assert u[i][0] == cs[i][0] && u[j][0] == cs[j][0];
    }
  }

  lemma AppendedCovers(cs: seq<Chain>, u: seq<Chain>, l: seq<Ranked>, r: Ranked, k: nat)
    requires Appended(cs, u, r, k) && cs[k] != [] && cs[k][0].prio == r.prio
    requires forall q :: q in l ==> exists i :: 0 <= i < |cs| && cs[i] != [] && cs[i][0].prio == q.prio
    ensures forall q :: q in l + [r] ==> exists i :: 0 <= i < |u| && u[i] != [] && u[i][0].prio == q.prio
  {
    forall i | 0 <= i < |cs| && cs[i] != []
      ensures exists j :: 0 <= j < |u| && u[j] != [] && u[j][0].prio == cs[i][0].prio
    {
      assert u[i] != [] && u[i][0] == cs[i][0];
    }
    Covers(cs, u, l, r, k);
  }

  lemma AppendChain(cs: seq<Chain>, l: seq<Ranked>, r: Ranked, k: nat, i: nat)
    requires Sorts(cs, l) && k < |cs| && cs[k][0].prio == r.prio && i < |cs|
    ensures var c := if i == k then cs[k] + [r] else cs[i];
            c != [] && c[0] == cs[i][0] && c == OfPriority(l + [r], c[0].prio)
  {
    OfPriorityAppend(l, r, cs[i][0].prio);
    if i < k {
      assert cs[i][0].prio > cs[k][0].prio;
    } else if i > k {
      assert cs[k][0].prio > cs[i][0].prio;
    }
  }

  lemma Covers(cs: seq<Chain>, u: seq<Chain>, l: seq<Ranked>, r: Ranked, k: nat)
    requires forall q :: q in l ==> exists i :: 0 <= i < |cs| && cs[i] != [] && cs[i][0].prio == q.prio
    requires forall i :: 0 <= i < |cs| && cs[i] != [] ==>
               exists j :: 0 <= j < |u| && u[j] != [] && u[j][0].prio == cs[i][0].prio
    requires k < |u| && u[k] != [] && u[k][0].prio == r.prio
    ensures forall q :: q in l + [r] ==> exists i :: 0 <= i < |u| && u[i] != [] && u[i][0].prio == q.prio
  {
  }

  lemma InsertSorts(cs: seq<Chain>, l: seq<Ranked>, r: Ranked)
    requires Sorts(cs, l) && Level(cs, r.prio) == |cs|
    ensures var i := Place(cs, r.prio); Sorts(cs[..i] + [[r]] + cs[i..], l + [r])
  {
    var k := Place(cs, r.prio);
    var u: seq<Chain> := cs[..k] + [[r]] + cs[k..];
    InsertedAt(cs, r, k);
    InsertedSorts(cs, u, l, r);
  }

  ghost predicate Inserted(cs: seq<Chain>, u: seq<Chain>, r: Ranked, k: nat) {
    && k <= |cs| && |u| == |cs| + 1 && u[k] == [r]
    && forall i :: 0 <= i < |u| && i != k ==> u[i] == cs[if i < k then i else i - 1]
  }

  lemma InsertedAt(cs: seq<Chain>, r: Ranked, k: nat)
    requires k <= |cs|
    ensures Inserted(cs, cs[..k] + [[r]] + cs[k..], r, k)
  {
  }

  lemma InsertedSorts(cs: seq<Chain>, u: seq<Chain>, l: seq<Ranked>, r: Ranked)
    requires Sorts(cs, l) && Level(cs, r.prio) == |cs| && Inserted(cs, u, r, Place(cs, r.prio))
    ensures Sorts(u, l + [r])
  {
    var k := Place(cs, r.prio);
    NoneOfPriority(cs, l, r.prio);
    Between(cs, l, r.prio);
    InsertChains(cs, u, l, r, k);
    InsertDescends(cs, u, r, k);
    InsertCovers(cs, u, l, r, k);
  }

  lemma InsertCovers(cs: seq<Chain>, u: seq<Chain>, l: seq<Ranked>, r: Ranked, k: nat)
    requires Inserted(cs, u, r, k)
    requires forall q :: q in l ==> exists i :: 0 <= i < |cs| && cs[i] != [] && cs[i][0].prio == q.prio
    ensures forall q :: q in l + [r] ==> exists i :: 0 <= i < |u| && u[i] != [] && u[i][0].prio == q.prio
  {
    forall i | 0 <= i < |cs| && cs[i] != []
      ensures exists j :: 0 <= j < |u| && u[j] != [] && u[j][0].prio == cs[i][0].prio
    {
      var j := if i < k then i else i + 1;
      assert u[j] == cs[i];
    }
    Covers(cs, u, l, r, k);
  }

  lemma NoneOfPriority(cs: seq<Chain>, l: seq<Ranked>, p: int)
    requires Sorts(cs, l) && Level(cs, p) == |cs|
    ensures OfPriority(l, p) == []
  {
    if OfPriority(l, p) != [] {
      OfPriorityMembers(l, p, OfPriority(l, p)[0]);
    }
  }

  /** The chains before the place of a new priority are higher, the others lower. */
  lemma Between(cs: seq<Chain>, l: seq<Ranked>, p: int)
    requires Sorts(cs, l) && Level(cs, p) == |cs|
    ensures forall i :: 0 <= i < |cs| ==> cs[i] != [] && cs[i][0].prio != p && (i < Place(cs, p) <==> cs[i][0].prio > p)
  {
    var k := Place(cs, p);
    forall i | 0 <= i < |cs| ensures cs[i] != [] && cs[i][0].prio != p && (i < k <==> cs[i][0].prio > p) {
      AtPlace(cs, p, i);
    }
  }

  lemma AtPlace(cs: seq<Chain>, p: int, i: nat)
    requires i < |cs| && Level(cs, p) == |cs| && forall x :: 0 <= x < |cs| ==> cs[x] != []
    requires forall x, y :: 0 <= x < y < |cs| ==> cs[x] != [] && cs[y] != [] && cs[x][0].prio > cs[y][0].prio
    ensures cs[i][0].prio != p && (i < Place(cs, p) <==> cs[i][0].prio > p)
  {
    var k := Place(cs, p);
    if i > k {
      assert cs[k][0].prio > cs[i][0].prio;
    }
  }

  lemma InsertChains(cs: seq<Chain>, u: seq<Chain>, l: seq<Ranked>, r: Ranked, k: nat)
    requires Inserted(cs, u, r, k) && OfPriority(l, r.prio) == []
    requires forall i :: 0 <= i < |cs| ==>
               cs[i] != [] && cs[i] == OfPriority(l, cs[i][0].prio) && cs[i][0].prio != r.prio
    ensures forall i :: 0 <= i < |u| ==> u[i] != [] && u[i] == OfPriority(l + [r], u[i][0].prio)
  {
    forall i | 0 <= i < |u| ensures u[i] != [] && u[i] == OfPriority(l + [r], u[i][0].prio) {
      OfPriorityAppend(l, r, u[i][0].prio);
    }
  }

  lemma InsertDescends(cs: seq<Chain>, u: seq<Chain>, r: Ranked, k: nat)
    requires Inserted(cs, u, r, k)
    requires forall i :: 0 <= i < |cs| ==> cs[i] != [] && (i < k <==> cs[i][0].prio > r.prio) && cs[i][0].prio != r.prio
    requires forall i, j :: 0 <= i < j < |cs| ==> cs[i] != [] && cs[j] != [] && cs[i][0].prio > cs[j][0].prio
    ensures forall i, j :: 0 <= i < j < |u| ==> u[i] != [] && u[j] != [] && u[i][0].prio > u[j][0].prio
  {
  }

  /** Building up the lists network by network sorts the whole list. */
  lemma {:induction false} BuildSorts(l: seq<Ranked>)
    ensures Sorts(Build(l), l)
  {
    if l != [] {
      var m, last := l[..|l| - 1], l[|l| - 1];
      BuildSorts(m);
      AddPrioSorts(Build(m), m, last);
      BuildLast(l);
    }
  }

  lemma BuildLast(l: seq<Ranked>)
    requires l != []
    ensures var m, last := l[..|l| - 1], l[|l| - 1]; l == m + [last] && Build(l) == AddPrio(Build(m), last)
  {
  }

  // ----- there is only one way to sort

  lemma SortsHeads(a: seq<Chain>, b: seq<Chain>, l: seq<Ranked>, i: nat)
    requires Sorts(a, l) && Sorts(b, l) && i < |a|
    ensures exists j :: 0 <= j < |b| && b[j] == a[i]
  {
    var p := a[i][0].prio;
    OfPriorityMembers(l, p, a[i][0]);
    var j :| 0 <= j < |b| && b[j] != [] && b[j][0].prio == p;
    assert b[j] == a[i];
  }

  /** Whatever chains sort a list are the ones that are built up from it. */
  lemma SortsUnique(a: seq<Chain>, b: seq<Chain>, l: seq<Ranked>)
    requires Sorts(a, l) && Sorts(b, l)
    ensures a == b
  {
    SameChains(a, b, l, |a|);
    SameChains(b, a, l, |b|);
    assert a[..|a|] == a && b[..|b|] == b;
  }

  lemma {:induction false} SameChains(a: seq<Chain>, b: seq<Chain>, l: seq<Ranked>, n: nat)
    requires Sorts(a, l) && Sorts(b, l) && n <= |a|
    ensures n <= |b| && a[..n] == b[..n]
  {
    if n > 0 {
      var k := n - 1;
      SameChains(a, b, l, k);
      forall x | 0 <= x < k ensures a[x] == b[x] {
        assert a[..k][x] == b[..k][x];
      }
      SortsHeads(a, b, l, k);
      var j :| 0 <= j < |b| && b[j] == a[k];
      SortsHeads(b, a, l, k);
      var i :| 0 <= i < |a| && a[i] == b[k];
      NextSame(a, b, k, i, j);
      PrefixGrows(a, k);
      PrefixGrows(b, k);
    }
  }

  lemma PrefixGrows(a: seq<Chain>, k: nat)
    requires k < |a|
    ensures a[..k + 1] == a[..k] + [a[k]]
  {
  }

  lemma NextSame(a: seq<Chain>, b: seq<Chain>, k: nat, i: nat, j: nat)
    requires k <= i < |a| && k <= j < |b| && b[j] == a[k] && a[i] == b[k]
    requires forall x, y :: 0 <= x < y < |a| ==> a[x] != [] && a[y] != [] && a[x][0].prio > a[y][0].prio
    requires forall x, y :: 0 <= x < y < |b| ==> b[x] != [] && b[y] != [] && b[x][0].prio > b[y][0].prio
    ensures a[k] == b[k]
  {
  }

  /** The chains sort the list exactly if they are the ones built up from it. */
  lemma SortsIffBuilt(cs: seq<Chain>, l: seq<Ranked>)
    ensures Sorts(cs, l) <==> cs == Build(l)
  {
    BuildSorts(l);
    if Sorts(cs, l) {
      SortsUnique(cs, Build(l), l);
    }
  }

  // ----- reading the chains one after the other

  lemma {:induction false} FlattenOfPriority(cs: seq<Chain>, p: int)
    requires forall i :: 0 <= i < |cs| ==> cs[i] != [] && forall r :: r in cs[i] ==> r.prio == cs[i][0].prio
    requires forall i, j :: 0 <= i < j < |cs| ==> cs[i] != [] && cs[j] != [] && cs[i][0].prio > cs[j][0].prio
    ensures OfPriority(Flatten(cs), p) == if Level(cs, p) < |cs| then cs[Level(cs, p)] else []
  {
    if cs != [] {
      FlattenOfPriority(cs[1..], p);
      OfPriorityConcat(cs[0], Flatten(cs[1..]), p);
      OneChain(cs[0], p);
      if cs[0][0].prio == p && Level(cs[1..], p) < |cs| - 1 {
        assert cs[1..][Level(cs[1..], p)][0].prio == p;
      }
    }
  }

  lemma {:induction false} OneChain(c: Chain, p: int)
    requires forall r, q :: r in c && q in c ==> r.prio == q.prio
    ensures OfPriority(c, p) == if c != [] && c[0].prio == p then c else []
  {
    if c != [] {
      OneChain(c[1..], p);
      assert c[0] in c && forall r :: r in c[1..] ==> r in c;
      assert c == [c[0]] + c[1..];
    }
  }

  lemma {:induction false} FlattenAt(cs: seq<Chain>, i: nat, j: nat)
    requires forall k :: 0 <= k < |cs| ==> cs[k] != [] && forall r :: r in cs[k] ==> r.prio == cs[k][0].prio
    requires forall a, b :: 0 <= a < b < |cs| ==> cs[a] != [] && cs[b] != [] && cs[a][0].prio > cs[b][0].prio
    requires i < j < |Flatten(cs)|
    ensures Flatten(cs)[i].prio >= Flatten(cs)[j].prio
    ensures cs != [] && Flatten(cs)[j].prio <= cs[0][0].prio
  {
    var c, rest := cs[0], Flatten(cs[1..]);
    if j < |c| {
      assert c[i] in c && c[j] in c;
    } else {
      FlattenBelow(cs[1..], j - |c|);
      if i < |c| {
        assert c[i] in c;
      } else {
        FlattenAt(cs[1..], i - |c|, j - |c|);
      }
    }
  }

  lemma {:induction false} FlattenBelow(cs: seq<Chain>, j: nat)
    requires forall k :: 0 <= k < |cs| ==> cs[k] != [] && forall r :: r in cs[k] ==> r.prio == cs[k][0].prio
    requires forall a, b :: 0 <= a < b < |cs| ==> cs[a] != [] && cs[b] != [] && cs[a][0].prio > cs[b][0].prio
    requires j < |Flatten(cs)|
    ensures cs != [] && Flatten(cs)[j].prio <= cs[0][0].prio
  {
    if j < |cs[0]| {
      assert cs[0][j] in cs[0];
    } else {
      FlattenBelow(cs[1..], j - |cs[0]|);
    }
  }

  lemma UniformChains(cs: seq<Chain>, l: seq<Ranked>)
    requires Sorts(cs, l)
    ensures forall k :: 0 <= k < |cs| ==> cs[k] != [] && forall r :: r in cs[k] ==> r.prio == cs[k][0].prio
  {
    forall k, r | 0 <= k < |cs| && r in cs[k] ensures r.prio == cs[k][0].prio {
      OfPriorityMembers(l, cs[k][0].prio, r);
    }
  }

  /** Read one after the other, the chains are the stable sort of the list by descending priority: the
      priorities do not increase, and the networks of each priority are those of the list, in its
      order. */
  lemma ChainsAreStableSort(cs: seq<Chain>, l: seq<Ranked>, p: int)
    requires Sorts(cs, l)
    ensures forall i, j :: 0 <= i < j < |Flatten(cs)| ==> Flatten(cs)[i].prio >= Flatten(cs)[j].prio
    ensures OfPriority(Flatten(cs), p) == OfPriority(l, p)
  {
    UniformChains(cs, l);
    forall i, j | 0 <= i < j < |Flatten(cs)| ensures Flatten(cs)[i].prio >= Flatten(cs)[j].prio {
      FlattenAt(cs, i, j);
    }
    FlattenOfPriority(cs, p);
    var k := Level(cs, p);
    if k == |cs| && OfPriority(l, p) != [] {
      OfPriorityMembers(l, p, OfPriority(l, p)[0]);
    }
  }

  /** Every network occurs in the chains exactly as often as in the list. */
  lemma {:induction false} ChainsArePermutation(cs: seq<Chain>, l: seq<Ranked>, r: Ranked)
    requires Sorts(cs, l)
    ensures multiset(Flatten(cs))[r] == multiset(l)[r]
  {
    ChainsAreStableSort(cs, l, r.prio);
    CountOfPriority(Flatten(cs), r);
    CountOfPriority(l, r);
  }

  lemma {:induction false} CountOfPriority(l: seq<Ranked>, r: Ranked)
    ensures multiset(OfPriority(l, r.prio))[r] == multiset(l)[r]
  {
    if l != [] {
      CountOfPriority(l[1..], r);
      assert l == [l[0]] + l[1..];
    }
  }

  // ----- the order by positions

  lemma {:induction false} PlaceInPriority(l: seq<Ranked>, i: nat) returns (x: nat)
    requires i < |l|
    ensures x < |OfPriority(l, l[i].prio)| && OfPriority(l, l[i].prio)[x] == l[i]
  {
    x := 0;
    if i > 0 {
      x := PlaceInPriority(l[1..], i - 1);
      if l[0].prio == l[i].prio {
        x := x + 1;
      }
    }
  }

  lemma {:induction false} OrderInPriority(l: seq<Ranked>, i: nat, j: nat) returns (x: nat, y: nat)
    requires i < j < |l| && l[i].prio == l[j].prio
    ensures var c := OfPriority(l, l[i].prio); x < y < |c| && c[x] == l[i] && c[y] == l[j]
  {
    if i == 0 {
      y := PlaceInPriority(l[1..], j - 1);
      x, y := 0, y + 1;
    } else {
      x, y := OrderInPriority(l[1..], i - 1, j - 1);
      if l[0].prio == l[i].prio {
        x, y := x + 1, y + 1;
      }
    }
  }

  /** The chains that are built up, by positions: each has one priority, the priorities descend from
      chain to chain, and the networks of a chain are networks of the list. */
  lemma BuiltExactly(l: seq<Ranked>)
    ensures var b := Build(l);
            && (forall k :: 0 <= k < |b| ==> |b[k]| >= 1)
            && (forall k, x :: 0 <= k < |b| && 0 <= x < |b[k]| ==> b[k][x].prio == b[k][0].prio)
            && (forall k, m :: 0 <= k < m < |b| ==> b[k][0].prio > b[m][0].prio)
            && (forall k, x :: 0 <= k < |b| && 0 <= x < |b[k]| ==> b[k][x] in l)
  {
    BuildSorts(l);
    var b: seq<Chain> := Build(l);
    forall k, x | 0 <= k < |b| && 0 <= x < |b[k]| ensures b[k][x].prio == b[k][0].prio && b[k][x] in l {
      assert b[k][x] in b[k];
      OfPriorityMembers(l, b[k][0].prio, b[k][x]);
    }
  }

  /** Of two networks of the same priority, the one that comes first in the list comes first in the chain
      of this priority. */
  lemma EarlierStaysEarlier(l: seq<Ranked>, i: nat, j: nat) returns (k: nat, x: nat, y: nat)
    requires i < j < |l| && l[i].prio == l[j].prio
    ensures k < |Build(l)| && x < y < |Build(l)[k]| && Build(l)[k][x] == l[i] && Build(l)[k][y] == l[j]
  {
    BuildSorts(l);
    var c: nat :| c < |Build(l)| && Build(l)[c] != [] && Build(l)[c][0].prio == l[i].prio;
    k := c;
    x, y := OrderInPriority(l, i, j);
  }
}
