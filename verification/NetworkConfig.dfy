/** The configured networks: their list, their ids, and the priority lists threaded through them. */
module NetworkConfig {
  import opened Seqs
  import opened PrioModel

  // ----- ids

  predicate Ascending(ids: seq<int>) {
    forall i, j :: 0 <= i < j < |ids| ==> ids[i] < ids[j]
  }

  predicate NonNegative(ids: seq<int>) {
    forall i :: 0 <= i < |ids| ==> ids[i] >= 0
  }

  /** One more than the largest id, counting from zero. */
  function NextId(ids: seq<int>): (id: int)
    ensures id >= 0 && forall i :: 0 <= i < |ids| ==> ids[i] < id
  {
    if ids == [] then 0
    else
      var m := NextId(ids[..|ids| - 1]);
      if ids[|ids| - 1] >= m then ids[|ids| - 1] + 1 else m
  }

  /** The largest id and one, or zero where there is none. */
  lemma {:induction false} NextIdIsLargestPlusOne(ids: seq<int>)
    requires NonNegative(ids)
    ensures if ids == [] then NextId(ids) == 0 else NextId(ids) - 1 in ids
  {
    if ids != [] {
      var m := ids[..|ids| - 1];
      NextIdIsLargestPlusOne(m);
      assert forall x :: x in m ==> x in ids;
      assert ids[|ids| - 1] in ids && ids[|ids| - 1] >= 0;
    }
  }

  /** The position of the first network with this id, or the number of networks. */
  function IdIndex(ids: seq<int>, id: int): (k: nat)
    ensures k <= |ids| && (k < |ids| ==> ids[k] == id)
    ensures forall j :: 0 <= j < k ==> ids[j] != id
  {
    if ids == [] || ids[0] == id then 0 else 1 + IdIndex(ids[1..], id)
  }

  function WithoutId(ids: seq<int>, id: int): seq<int> {
    var k := IdIndex(ids, id);
    if k < |ids| then ids[..k] + ids[k + 1..] else ids
  }

  /** Ids ascend along the list, whatever is added and removed. */
  lemma IdsStayAscending(ids: seq<int>, id: int)
    requires Ascending(ids) && NonNegative(ids)
    ensures Ascending(ids + [NextId(ids)]) && NonNegative(ids + [NextId(ids)])
    ensures Ascending(WithoutId(ids, id)) && NonNegative(WithoutId(ids, id))
    ensures forall x :: x in WithoutId(ids, id) <==> x in ids && x != id
  {
    NextAscends(ids);
    WithoutAscends(ids, id);
  }

  lemma NextAscends(ids: seq<int>)
    requires Ascending(ids) && NonNegative(ids)
    ensures Ascending(ids + [NextId(ids)]) && NonNegative(ids + [NextId(ids)])
  {
    var u := ids + [NextId(ids)];
    forall i, j | 0 <= i < j < |u| ensures u[i] < u[j] {
      assert j < |ids| ==> ids[i] < ids[j];
    }
  }

  lemma WithoutAscends(ids: seq<int>, id: int)
    requires Ascending(ids) && NonNegative(ids)
    ensures Ascending(WithoutId(ids, id)) && NonNegative(WithoutId(ids, id))
    ensures forall x :: x in WithoutId(ids, id) <==> x in ids && x != id
  {
    var k := IdIndex(ids, id);
    if k < |ids| {
      WithoutAt(ids, k);
    }
  }

  lemma WithoutAt(ids: seq<int>, k: nat)
    requires Ascending(ids) && NonNegative(ids) && k < |ids|
    ensures var u := ids[..k] + ids[k + 1..];
            Ascending(u) && NonNegative(u) && forall x :: x in u <==> x in ids && x != ids[k]
  {
  }

  /** A change of the list by one command. */
  datatype Edit = AddOne | RemoveOne(id: int)

  function Edited(ids: seq<int>, edits: seq<Edit>): seq<int> {
    if edits == [] then ids
    else
      var before := Edited(ids, edits[..|edits| - 1]);
      match edits[|edits| - 1]
      case AddOne => before + [NextId(before)]
      case RemoveOne(id) => WithoutId(before, id)
  }

  lemma {:induction false} EditsKeepAscending(ids: seq<int>, edits: seq<Edit>)
    requires Ascending(ids) && NonNegative(ids)
    ensures Ascending(Edited(ids, edits)) && NonNegative(Edited(ids, edits))
  {
    if edits != [] {
      var before := edits[..|edits| - 1];
      EditsKeepAscending(ids, before);
      var last := edits[|edits| - 1];
      IdsStayAscending(Edited(ids, before), if last.RemoveOne? then last.id else 0);
    }
  }

  /** An addition puts the smallest id behind all there are at the end; a removal keeps the others, in
      their order. */
  lemma EditExactly(ids: seq<int>, edits: seq<Edit>, e: Edit)
    requires Ascending(ids) && NonNegative(ids)
    ensures var was, u := Edited(ids, edits), Edited(ids, edits + [e]);
            && Edited(ids, []) == ids && Ascending(u)
            && (e.AddOne? ==> |u| == |was| + 1 && u[..|was|] == was
                              && u[|was|] == if was == [] then 0 else was[|was| - 1] + 1)
            && (e.RemoveOne? ==> forall x :: x in u <==> x in was && x != e.id)
  {
    var was := Edited(ids, edits);
    EditsKeepAscending(ids, edits);
    EditsKeepAscending(ids, edits + [e]);
    assert (edits + [e])[..|edits|] == edits;
    if e.RemoveOne? {
      IdsStayAscending(was, e.id);
    } else {
      NextIdIsLargestPlusOne(was);
    }
  }

  // ----- how many ids are larger than a given one

  function CountAbove(ids: seq<int>, last: int): nat {
    if ids == [] then 0 else CountAbove(ids[..|ids| - 1], last) + if ids[|ids| - 1] > last then 1 else 0
  }

  function Additions(edits: seq<Edit>): nat {
    if edits == [] then 0 else Additions(edits[..|edits| - 1]) + if edits[|edits| - 1].AddOne? then 1 else 0
  }

  lemma {:induction false} CountConcat(a: seq<int>, b: seq<int>, last: int)
    ensures CountAbove(a + b, last) == CountAbove(a, last) + CountAbove(b, last)
  {
    if b == [] {
      assert a + b == a;
    } else {
      assert (a + b)[..|a + b| - 1] == a + b[..|b| - 1];
      CountConcat(a, b[..|b| - 1], last);
    }
  }

  lemma WithoutIdCounts(ids: seq<int>, id: int, last: int)
    ensures CountAbove(WithoutId(ids, id), last) <= CountAbove(ids, last)
  {
    var k := IdIndex(ids, id);
    if k < |ids| {
      CountConcat(ids[..k], ids[k + 1..], last);
      CountConcat(ids[..k], [ids[k]], last);
      CountConcat(ids[..k] + [ids[k]], ids[k + 1..], last);
      assert ids == ids[..k] + [ids[k]] + ids[k + 1..];
    }
  }

  /** Only additions make it more. */
  lemma {:induction false} EditsCount(ids: seq<int>, edits: seq<Edit>, last: int)
    ensures CountAbove(Edited(ids, edits), last) <= CountAbove(ids, last) + Additions(edits)
  {
    if edits != [] {
      var before, e := edits[..|edits| - 1], edits[|edits| - 1];
      EditsCount(ids, before, last);
      var u := Edited(ids, before);
      if e.RemoveOne? {
        WithoutIdCounts(u, e.id, last);
      } else {
        assert (u + [NextId(u)])[..|u|] == u;
      }
    }
  }

  // ----- networks

  ghost function RanksOf(s: seq<Ssid>): (r: seq<Ranked>)
    reads s`priority
    ensures |r| == |s| && forall i :: 0 <= i < |s| ==> r[i] == Ranked(s[i], s[i].priority)
  {
    if s == [] then [] else [Ranked(s[0], s[0].priority)] + RanksOf(s[1..])
  }

  function IdsOf(s: seq<Ssid>): (r: seq<int>)
    ensures |r| == |s| && forall i :: 0 <= i < |s| ==> r[i] == s[i].id
  {
    seq(|s|, i requires 0 <= i < |s| => s[i].id)
  }

  ghost function Nets(cs: seq<Chain>): set<Ssid> {
    set i, j | 0 <= i < |cs| && 0 <= j < |cs[i]| :: cs[i][j].net
  }

  /** No network stands in two places. */
  ghost predicate NoShare(cs: seq<Chain>) {
    forall i, j, k, l | 0 <= i < |cs| && 0 <= j < |cs[i]| && 0 <= k < |cs| && 0 <= l < |cs[k]| ::
      cs[i][j].net == cs[k][l].net ==> i == k && j == l
  }

  lemma NoShareAppend(cs: seq<Chain>, k: nat, r: Ranked)
    requires NoShare(cs) && k < |cs| && r.net !in Nets(cs)
    ensures NoShare(cs[k := cs[k] + [r]]) && Nets(cs[k := cs[k] + [r]]) == Nets(cs) + {r.net}
  {
    var u: seq<Chain> := cs[k := cs[k] + [r]];
    assert u[k][|cs[k]|] == r;
    forall i, j | 0 <= i < |cs| && 0 <= j < |cs[i]| ensures u[i][j] == cs[i][j] && cs[i][j].net in Nets(cs) {
    }
    forall i, j | 0 <= i < |u| && 0 <= j < |u[i]| ensures (i == k && j == |cs[k]|) || u[i][j] == cs[i][j] {
    }
    forall n | n in Nets(cs) ensures n in Nets(u) {
      var i, j :| 0 <= i < |cs| && 0 <= j < |cs[i]| && cs[i][j].net == n;
      assert u[i][j].net == n;
    }
  }

  lemma NoShareInsert(cs: seq<Chain>, k: nat, r: Ranked)
    requires NoShare(cs) && k <= |cs| && r.net !in Nets(cs)
    ensures NoShare(cs[..k] + [[r]] + cs[k..]) && Nets(cs[..k] + [[r]] + cs[k..]) == Nets(cs) + {r.net}
  {
    var u: seq<Chain> := cs[..k] + [[r]] + cs[k..];
    InsertedAt(cs, r, k);
    InsertedNoShare(cs, u, k, r);
  }

  lemma InsertedNoShare(cs: seq<Chain>, u: seq<Chain>, k: nat, r: Ranked)
    requires NoShare(cs) && r.net !in Nets(cs) && Inserted(cs, u, r, k)
    ensures NoShare(u) && Nets(u) == Nets(cs) + {r.net}
  {
    forall i, j, a, b | 0 <= i < |u| && 0 <= j < |u[i]| && 0 <= a < |u| && 0 <= b < |u[a]|
      ensures u[i][j].net == u[a][b].net ==> i == a && j == b
    {
      var x, y := if i < k then i else i - 1, if a < k then a else a - 1;
      assert i != k ==> u[i] == cs[x] && cs[x][j].net in Nets(cs);
      assert a != k ==> u[a] == cs[y] && cs[y][b].net in Nets(cs);
    }
    assert u[k][0].net == r.net;
    forall n | n in Nets(cs) ensures n in Nets(u) {
      var i, j :| 0 <= i < |cs| && 0 <= j < |cs[i]| && cs[i][j].net == n;
      var x := if i < k then i else i + 1;
      assert u[x] == cs[i] && u[x][j].net == n;
    }
    forall n | n in Nets(u) ensures n in Nets(cs) + {r.net} {
      var i, j :| 0 <= i < |u| && 0 <= j < |u[i]| && u[i][j].net == n;
      if i != k {
        var x := if i < k then i else i - 1;
        assert cs[x][j].net == n;
      }
    }
  }

  /** The network at this place has the priority of its chain entry, and leads to the next one. */
  ghost predicate LinkOk(cs: seq<Chain>, i: nat, j: nat)
    requires i < |cs| && j < |cs[i]|
    reads cs[i][j].net
  {
    cs[i][j].net.priority == cs[i][j].prio
    && cs[i][j].net.pnext == if j + 1 < |cs[i]| then cs[i][j + 1].net else null
  }

  /** Following `pnext` from each head runs through the chain that belongs to it. */
  ghost predicate LinksOk(cs: seq<Chain>)
    reads Nets(cs)
  {
    forall i, j | 0 <= i < |cs| && 0 <= j < |cs[i]| :: LinkOk(cs, i, j)
  }

  ghost predicate HeadsOk(heads: seq<Ssid>, cs: seq<Chain>) {
    |heads| == |cs| && forall i | 0 <= i < |cs| :: cs[i] != [] && heads[i] == cs[i][0].net
  }

  lemma HeadsInserted(heads: seq<Ssid>, cs: seq<Chain>, k: nat, r: Ranked)
    requires HeadsOk(heads, cs) && k <= |cs|
    ensures HeadsOk(heads[..k] + [r.net] + heads[k..], cs[..k] + [[r]] + cs[k..])
  {
  }

  lemma LinksInserted(cs: seq<Chain>, u: seq<Chain>, k: nat, r: Ranked)
    requires LinksOk(cs) && Inserted(cs, u, r, k) && r.net.priority == r.prio && r.net.pnext == null
    ensures LinksOk(u)
  {
    forall i, l | 0 <= i < |u| && 0 <= l < |u[i]| ensures LinkOk(u, i, l) {
      if i != k {
        var x := if i < k then i else i - 1;
        assert u[i] == cs[x] && LinkOk(cs, x, l);
      }
    }
  }

  class Config {
    var ssids: seq<Ssid>
    var pssid: seq<Ssid>  // the heads of the priority lists
    ghost var chains: seq<Chain>  // what the lists hold

    ghost predicate Linked()
      reads `pssid, `chains, Nets(chains)
    {
      HeadsOk(pssid, chains) && NoShare(chains) && LinksOk(chains)
    }

    constructor ()
      ensures ssids == [] && Linked() && chains == []
    {
      ssids, pssid, chains := [], [], [];
    }

    /** The last network of a priority list. */
    method LastOf(k: nat) returns (prev: Ssid)
      requires Linked() && k < |pssid|
      ensures prev == chains[k][|chains[k]| - 1].net
    {
      prev := pssid[k];
      ghost var j := 0;
      while prev.pnext != null
        invariant j < |chains[k]| && prev == chains[k][j].net
        decreases |chains[k]| - j
      {
        assert LinkOk(chains, k, j);
        j := j + 1;
        prev := prev.pnext;
      }
      assert LinkOk(chains, k, j);
    }

    /** Walks to the end of a priority list and links a network there. */
    method AppendTo(k: nat, ssid: Ssid)
      requires Linked() && ssid !in Nets(chains) && ssid.pnext == null && k < |pssid|
      modifies `chains, Nets(chains)`pnext
      ensures Linked() && chains == old(chains)[k := old(chains)[k] + [Ranked(ssid, ssid.priority)]]
      ensures Nets(chains) == Nets(old(chains)) + {ssid}
    {
      var prev := LastOf(k);
      ghost var cs, r := chains, Ranked(ssid, ssid.priority);
      ghost var j := |cs[k]| - 1;
      NoShareAppend(cs, k, r);
      assert prev in Nets(cs);
      prev.pnext := ssid;
      chains := cs[k := cs[k] + [r]];
      forall i, l | 0 <= i < |chains| && 0 <= l < |chains[i]| ensures LinkOk(chains, i, l) {
        if i == k && l == |cs[k]| {
          assert chains[i][l] == r;
        } else {
          assert chains[i][l] == cs[i][l] && old(LinkOk(cs, i, l));
          assert cs[i][l].net == prev <==> i == k && l == j;
        }
      }
    }

    /** Puts a new priority list with one network at position `k`. */
    method InsertAt(k: nat, ssid: Ssid)
      requires Linked() && ssid !in Nets(chains) && ssid.pnext == null && k <= |pssid|
      modifies `pssid, `chains
      ensures Linked() && chains == old(chains)[..k] + [[Ranked(ssid, ssid.priority)]] + old(chains)[k..]
      ensures Nets(chains) == Nets(old(chains)) + {ssid}
    {
      ghost var r := Ranked(ssid, ssid.priority);
      NoShareInsert(chains, k, r);
      HeadsInserted(pssid, chains, k, r);
      InsertedAt(chains, r, k);
      LinksInserted(chains, chains[..k] + [[r]] + chains[k..], k, r);
      pssid := pssid[..k] + [ssid] + pssid[k..];
      chains := chains[..k] + [[r]] + chains[k..];
    }

    method FindLevel(p: int) returns (k: nat)
      requires Linked()
      ensures k == Level(chains, p)
    {
      k := 0;
      assert chains[0..] == chains;
      while k < |pssid| && pssid[k].priority != p
        invariant k <= |pssid| && Level(chains, p) == k + Level(chains[k..], p)
      {
        assert LinkOk(chains, k, 0);
        LevelStep(chains, k, p);
        k := k + 1;
      }
      if k < |pssid| {
        assert LinkOk(chains, k, 0);
        LevelStep(chains, k, p);
      }
    }

    method FindPlace(p: int) returns (k: nat)
      requires Linked()
      ensures k == Place(chains, p)
    {
      k := 0;
      assert chains[0..] == chains;
      while k < |pssid| && pssid[k].priority >= p
        invariant k <= |pssid| && Place(chains, p) == k + Place(chains[k..], p)
      {
        assert LinkOk(chains, k, 0);
        PlaceStep(chains, k, p);
        k := k + 1;
      }
      if k < |pssid| {
        assert LinkOk(chains, k, 0);
        PlaceStep(chains, k, p);
      }
    }

    /** Adds a network to the priority lists. */
    method AddPrioNetwork(ssid: Ssid)
      requires Linked() && ssid !in Nets(chains) && ssid.pnext == null
      modifies `pssid, `chains, Nets(chains)`pnext
      ensures Linked() && chains == AddPrio(old(chains), Ranked(ssid, ssid.priority))
      ensures Nets(chains) == Nets(old(chains)) + {ssid}
    {
      var k := FindLevel(ssid.priority);
      if k < |pssid| {
        AppendTo(k, ssid);
      } else {
        k := FindPlace(ssid.priority);
        InsertAt(k, ssid);
      }
    }

    /** The networks are different objects, and the priority lists are what they were built up to. */
    ghost predicate Valid()
      reads `ssids, `pssid, `chains, ssids, Nets(chains)
    {
      Distinct(ssids) && Linked() && chains == Build(RanksOf(ssids))
    }

    /** Throws the priority lists away and builds them up again from the list of networks. */
    method UpdatePrioList()
      requires Distinct(ssids)
      modifies `pssid, `chains, ssids`pnext
      ensures Valid()
    {
      Rebuild((set s | s in ssids), RanksOf(ssids));
    }

    method Rebuild(ghost live: set<Ssid>, ghost l: seq<Ranked>)
      requires Distinct(ssids) && |l| == |ssids|
      requires forall i :: 0 <= i < |ssids| ==> ssids[i] in live && l[i] == Ranked(ssids[i], ssids[i].priority)
      modifies `pssid, `chains, live`pnext
      ensures Linked() && chains == Build(l)
    {
      pssid, chains := [], [];
      var i := 0;
      while i < |ssids|
        invariant i <= |ssids| && Linked() && BuiltUpTo(i, l) && Nets(chains) <= live
      {
        AddAt(i, ssids[i], l);
        i := i + 1;
      }
      assert l[..i] == l;
    }

    /** The first `i` networks have been added. */
    ghost predicate BuiltUpTo(i: nat, l: seq<Ranked>)
      reads `ssids, `chains
      requires |l| == |ssids| && i <= |l|
    {
      chains == Build(l[..i]) && Nets(chains) == UpTo(ssids, i)
    }

    method AddAt(i: nat, ssid: Ssid, ghost l: seq<Ranked>)
      requires Distinct(ssids) && i < |ssids| == |l| && ssid == ssids[i] && l[i] == Ranked(ssid, ssid.priority)
      requires Linked() && BuiltUpTo(i, l)
      modifies `pssid, `chains, Nets(chains)`pnext, ssid`pnext
      ensures Linked() && BuiltUpTo(i + 1, l) && Nets(chains) == Nets(old(chains)) + {ssid}
    {
      NextNotSeen(ssids, i);
      BuildStep(l, i);
      AddFresh(ssid);
    }

    /** Adds a network whose `pnext` may still lead anywhere. */
    method AddFresh(ssid: Ssid)
      requires Linked() && ssid !in Nets(chains)
      modifies `pssid, `chains, Nets(chains)`pnext, ssid`pnext
      ensures Linked() && chains == AddPrio(old(chains), Ranked(ssid, ssid.priority))
      ensures Nets(chains) == Nets(old(chains)) + {ssid}
    {
      ClearPnext(ssid);
      AddPrioNetwork(ssid);
    }

    method ClearPnext(ssid: Ssid)
      requires Linked() && ssid !in Nets(chains)
      modifies ssid`pnext
      ensures Linked() && ssid.pnext == null
    {
      ssid.pnext := null;
    }

    /** Adds a network with the next free id at the end of the list. */
    method AddNetwork() returns (ssid: Ssid)
      requires Valid()
      modifies `ssids, `pssid, `chains, ssids`pnext
      ensures fresh(ssid) && Valid() && ssids == old(ssids) + [ssid] && ssid.priority == 0
      ensures IdsOf(ssids) == IdsOf(old(ssids)) + [NextId(IdsOf(old(ssids)))]
    {
      var id := LargestId();
      id := id + 1;
      ssid := new Ssid(id);
      AppendDistinct(ssids, ssid);
      assert IdsOf(ssids + [ssid]) == IdsOf(ssids) + [id];
      SetNetworks(ssids + [ssid]);
    }

    method LargestId() returns (id: int)
      ensures id + 1 == NextId(IdsOf(ssids))
    {
      id := -1;
      var i := 0;
      ghost var ids := IdsOf(ssids);
      while i < |ssids|
        invariant i <= |ssids| && id + 1 == NextId(ids[..i])
      {
        assert ids[..i + 1][..i] == ids[..i];
        if ssids[i].id > id {
          id := ssids[i].id;
        }
        i := i + 1;
      }
      assert ids[..i] == ids;
    }

    method FindId(id: int) returns (k: nat)
      ensures k == IdIndex(IdsOf(ssids), id)
    {
      k := 0;
      ghost var ids := IdsOf(ssids);
      assert ids[0..] == ids;
      while k < |ssids| && ssids[k].id != id
        invariant k <= |ssids| && IdIndex(ids, id) == k + IdIndex(ids[k..], id)
      {
        assert ids[k..][1..] == ids[k + 1..];
        k := k + 1;
      }
    }

    /** Removes the network with this id; answers whether there was one. */
    method RemoveNetwork(id: int) returns (ok: bool)
      requires Valid()
      modifies `ssids, `pssid, `chains, ssids`pnext
      ensures Valid() && (ok <==> id in IdsOf(old(ssids)))
      ensures var k := IdIndex(IdsOf(old(ssids)), id);
              ssids == if ok then old(ssids)[..k] + old(ssids)[k + 1..] else old(ssids)
      ensures IdsOf(ssids) == WithoutId(IdsOf(old(ssids)), id)
    {
      var k := FindId(id);
      IdPresent(IdsOf(ssids), id);
      ok := k < |ssids|;
      if ok {
        DropDistinct(ssids, k);
        IdsDropped(ssids, k);
        SetNetworks(ssids[..k] + ssids[k + 1..]);
      }
    }

    method SetNetworks(l: seq<Ssid>)
      requires Distinct(l)
      modifies `ssids, `pssid, `chains, l`pnext
      ensures Valid() && ssids == l
    {
      ssids := l;
      UpdatePrioList();
    }

    /** Sets the priority of a network; unless it was that already, the lists are built up again. */
    method SetPriority(ssid: Ssid, priority: int)
      requires Valid() && ssid in ssids
      modifies `pssid, `chains, ssids`pnext, ssid`priority
      ensures Valid() && ssid.priority == priority && ssids == old(ssids)
    {
      if ssid.priority == priority {
        return;
      }
      ssid.priority := priority;
      UpdatePrioList();
    }
  }

  lemma IdPresent(ids: seq<int>, id: int)
    ensures id in ids <==> IdIndex(ids, id) < |ids|
  {
  }

  lemma IdsDropped(s: seq<Ssid>, k: nat)
    requires k < |s|
    ensures IdsOf(s[..k] + s[k + 1..]) == IdsOf(s)[..k] + IdsOf(s)[k + 1..]
  {
  }

  lemma BuildStep(l: seq<Ranked>, i: nat)
    requires i < |l|
    ensures Build(l[..i + 1]) == AddPrio(Build(l[..i]), l[i])
  {
    assert l[..i + 1][..i] == l[..i];
  }

  lemma LevelStep(cs: seq<Chain>, i: nat, p: int)
    requires i < |cs| && cs[i] != []
    ensures Level(cs[i..], p) == if cs[i][0].prio == p then 0 else 1 + Level(cs[i + 1..], p)
  {
  }

  lemma PlaceStep(cs: seq<Chain>, i: nat, p: int)
    requires i < |cs| && cs[i] != []
    ensures Place(cs[i..], p) == if cs[i][0].prio < p then 0 else 1 + Place(cs[i + 1..], p)
  {
  }
}
