/** What the learned neighbour graph keeps over any run, and that saving it loses nothing. */
module LearnProofs {
  import opened Elements
  import opened Text
  import opened BssModel
  import opened LearnModel

  // ----- well-formed data

  /** The values of the C type of frequencies. */
  predicate IsInt(x: int) {
    -0x8000_0000 <= x < 0x8000_0000
  }

  /** Addresses have six octets; no entry is its own neighbour or has a neighbour twice; and no two
      entries have the same address. */
  ghost predicate WellFormedNode(n: Node) {
    && |n.bssid| == ETH_ALEN && n.bssid !in n.neigh && IsInt(n.freq)
    && (forall a :: a in n.neigh ==> |a| == ETH_ALEN)
    && (forall i, j :: 0 <= i < j < |n.neigh| ==> n.neigh[i] != n.neigh[j])
  }

  ghost predicate Unique(l: seq<Node>) {
    forall i, j :: 0 <= i < j < |l| ==> l[i].bssid != l[j].bssid
  }

  ghost predicate WF(l: seq<Node>) {
    Unique(l) && forall i :: 0 <= i < |l| ==> WellFormedNode(l[i])
  }

  predicate Addresses(addrs: seq<Octets>) {
    forall a :: a in addrs ==> |a| == ETH_ALEN
  }

  lemma AddNeighborWF(n: Node, addr: Octets)
    requires WellFormedNode(n) && |addr| == ETH_ALEN
    ensures WellFormedNode(AddNeighbor(n, addr)) && AddNeighbor(n, addr).bssid == n.bssid
    ensures forall b :: b in AddNeighbor(n, addr).neigh <==> b in n.neigh || (b == addr && addr != n.bssid)
  {
  }

  lemma {:induction false} AddNeighborsWF(n: Node, addrs: seq<Octets>)
    requires WellFormedNode(n) && Addresses(addrs)
    ensures WellFormedNode(AddNeighbors(n, addrs)) && AddNeighbors(n, addrs).bssid == n.bssid
    ensures AddNeighbors(n, addrs).freq == n.freq
    ensures forall b :: b in AddNeighbors(n, addrs).neigh <==> b in n.neigh || (b in addrs && b != n.bssid)
    decreases |addrs|
  {
    if addrs != [] {
      var m := AddNeighbor(n, addrs[0]);
      AddNeighborWF(n, addrs[0]);
      AddNeighborsWF(m, addrs[1..]);
      assert forall b :: b in addrs <==> b == addrs[0] || b in addrs[1..];
    }
  }

  // ----- the neighbour relation

  ghost predicate HasEntry(l: seq<Node>, a: Octets) {
    exists i :: 0 <= i < |l| && l[i].bssid == a
  }

  /** `b` is recorded as a neighbour of `a`. */
  ghost predicate Neighbors(l: seq<Node>, a: Octets, b: Octets) {
    exists i :: 0 <= i < |l| && l[i].bssid == a && b in l[i].neigh
  }

  ghost predicate Symmetric(l: seq<Node>) {
    forall a, b :: Neighbors(l, a, b) ==> Neighbors(l, b, a)
  }

  /** Every neighbour address has its own entry. */
  ghost predicate Closed(l: seq<Node>) {
    forall a, b :: Neighbors(l, a, b) ==> HasEntry(l, b)
  }

  /** One result adds exactly its own entry, and the given addresses as neighbours of it. */
  lemma LearnAdds(l: seq<Node>, res: ScanRes, addrs: seq<Octets>, a: Octets, b: Octets)
    requires WF(l) && |res.bssid| == ETH_ALEN && IsInt(res.fields.freq) && Addresses(addrs)
    ensures WF(Learn(l, res, addrs))
    ensures HasEntry(Learn(l, res, addrs), a) <==> HasEntry(l, a) || a == res.bssid
    ensures Neighbors(Learn(l, res, addrs), a, b)
            <==> Neighbors(l, a, b) || (a == res.bssid && b in addrs && b != a)
  {
    var k := Index(l, res.bssid);
    var u := Learn(l, res, addrs);
    if k < |l| {
      AddNeighborsWF(l[k].(freq := res.fields.freq), addrs);
      LearnAtKeeps(l, k, u, a, b);
    } else {
      AddNeighborsWF(Node(res.bssid, res.fields.freq, []), addrs);
      LearnFrontKeeps(l, u[0], a, b);
    }
  }

  lemma LearnAtKeeps(l: seq<Node>, k: nat, u: seq<Node>, a: Octets, b: Octets)
    requires WF(l) && k < |l| && |u| == |l| && u == l[k := u[k]]
    requires WellFormedNode(u[k]) && u[k].bssid == l[k].bssid
    requires forall c :: c in l[k].neigh ==> c in u[k].neigh
    ensures WF(u)
    ensures HasEntry(u, a) <==> HasEntry(l, a)
    ensures Neighbors(u, a, b) <==> Neighbors(l, a, b) || (a == l[k].bssid && b in u[k].neigh)
  {
    if HasEntry(l, a) {
      var i :| 0 <= i < |l| && l[i].bssid == a;
      assert u[i].bssid == a;
    }
    if HasEntry(u, a) {
      var i :| 0 <= i < |u| && u[i].bssid == a;
      assert l[i].bssid == a;
    }
    if Neighbors(l, a, b) {
      var i :| 0 <= i < |l| && l[i].bssid == a && b in l[i].neigh;
      assert u[i].bssid == a && b in u[i].neigh;
    }
    if Neighbors(u, a, b) {
      var i :| 0 <= i < |u| && u[i].bssid == a && b in u[i].neigh;
      assert i == k || l[i] == u[i];
    }
  }

  lemma LearnFrontKeeps(l: seq<Node>, n: Node, a: Octets, b: Octets)
    requires WF(l) && WellFormedNode(n) && forall j :: 0 <= j < |l| ==> l[j].bssid != n.bssid
    ensures WF([n] + l)
    ensures HasEntry([n] + l, a) <==> HasEntry(l, a) || a == n.bssid
    ensures Neighbors([n] + l, a, b) <==> Neighbors(l, a, b) || (a == n.bssid && b in n.neigh)
  {
    FrontEntry(l, n, a);
    FrontNeighbor(l, n, a, b);
  }

  lemma FrontEntry(l: seq<Node>, n: Node, a: Octets)
    ensures HasEntry([n] + l, a) <==> HasEntry(l, a) || a == n.bssid
  {
    var u := [n] + l;
    if HasEntry(l, a) {
      var i :| 0 <= i < |l| && l[i].bssid == a;
      assert u[i + 1].bssid == a;
    }
    if HasEntry(u, a) {
      var i :| 0 <= i < |u| && u[i].bssid == a;
      assert i > 0 ==> l[i - 1].bssid == a;
    }
    assert u[0] == n;
  }

  lemma FrontNeighbor(l: seq<Node>, n: Node, a: Octets, b: Octets)
    ensures Neighbors([n] + l, a, b) <==> Neighbors(l, a, b) || (a == n.bssid && b in n.neigh)
  {
    var u := [n] + l;
    if Neighbors(l, a, b) {
      var i :| 0 <= i < |l| && l[i].bssid == a && b in l[i].neigh;
      assert u[i + 1].bssid == a && b in u[i + 1].neigh;
    }
    if Neighbors(u, a, b) {
      var i :| 0 <= i < |u| && u[i].bssid == a && b in u[i].neigh;
      assert i > 0 ==> l[i - 1] == u[i];
    }
    assert u[0] == n;
  }

  predicate WellTyped(matching: seq<ScanRes>) {
    forall r :: r in matching ==> |r.bssid| == ETH_ALEN && IsInt(r.fields.freq)
  }

  predicate IsMatch(matching: seq<ScanRes>, a: Octets) {
    exists r :: r in matching && r.bssid == a
  }

  lemma {:induction false} LearnAllAdds(l: seq<Node>, matching: seq<ScanRes>, addrs: seq<Octets>, a: Octets, b: Octets)
    requires WF(l) && WellTyped(matching) && Addresses(addrs)
    ensures WF(LearnAll(l, matching, addrs))
    ensures HasEntry(LearnAll(l, matching, addrs), a) <==> HasEntry(l, a) || IsMatch(matching, a)
    ensures Neighbors(LearnAll(l, matching, addrs), a, b)
            <==> Neighbors(l, a, b) || (IsMatch(matching, a) && b in addrs && b != a)
    decreases |matching|
  {
    if matching != [] {
      LearnAdds(l, matching[0], addrs, a, b);
      LearnAllAdds(Learn(l, matching[0], addrs), matching[1..], addrs, a, b);
      assert forall r :: r in matching <==> r == matching[0] || r in matching[1..];
    }
  }

  lemma FirstAddrsMatch(matching: seq<ScanRes>)
    requires WellTyped(matching)
    ensures var f := FirstAddrs(matching);
            Addresses(f) && (forall b :: b in f ==> IsMatch(matching, b))
            && (|matching| <= MAX_BSS ==> forall b :: IsMatch(matching, b) ==> b in f)
  {
    var f := FirstAddrs(matching);
    forall b | b in f ensures IsMatch(matching, b) {
      var i :| 0 <= i < |f| && f[i] == b;
      assert matching[i] in matching;
    }
    if |matching| <= MAX_BSS {
      forall b | IsMatch(matching, b) ensures b in f {
        var r :| r in matching && r.bssid == b;
        var i :| 0 <= i < |matching| && matching[i] == r;
        assert f[i] == b;
      }
    }
  }

  /** Exactly what one scan adds: an entry for every matching result, and the first matching addresses
      as neighbours of each of them. */
  lemma ScanAdds(l: seq<Node>, ssid: Octets, results: seq<ScanRes>, a: Octets, b: Octets)
    requires WF(l) && WellTyped(Matching(ssid, results))
    ensures var u, m := NotifyScan(l, ssid, results), Matching(ssid, results);
            && WF(u)
            && (HasEntry(u, a) <==> HasEntry(l, a) || IsMatch(m, a))
            && (Neighbors(u, a, b) <==> Neighbors(l, a, b) || (IsMatch(m, a) && b in FirstAddrs(m) && b != a))
  {
    var m := Matching(ssid, results);
    FirstAddrsMatch(m);
    LearnAllAdds(l, m, FirstAddrs(m), a, b);
  }

  /** However many results a scan has, every neighbour address has its own entry afterwards. */
  lemma ScanKeepsClosed(l: seq<Node>, ssid: Octets, results: seq<ScanRes>)
    requires WF(l) && Closed(l) && WellTyped(Matching(ssid, results))
    ensures WF(NotifyScan(l, ssid, results)) && Closed(NotifyScan(l, ssid, results))
  {
    var u, m := NotifyScan(l, ssid, results), Matching(ssid, results);
    FirstAddrsMatch(m);
    ScanAdds(l, ssid, results, [], []);
    forall a, b | Neighbors(u, a, b) ensures HasEntry(u, b) {
      ScanAdds(l, ssid, results, a, b);
      ScanAdds(l, ssid, results, b, a);
    }
  }

  /** The address of a matching result that came too late to be given out as a neighbour. */
  ghost predicate IsLate(m: seq<ScanRes>, a: Octets) {
    IsMatch(m, a) && a !in FirstAddrs(m)
  }

  /** A scan keeps the relation symmetric exactly when every address that came too late is a neighbour
      of each of the first ones already. */
  lemma ScanSymmetric(l: seq<Node>, ssid: Octets, results: seq<ScanRes>)
    requires WF(l) && Symmetric(l) && WellTyped(Matching(ssid, results))
    ensures var m := Matching(ssid, results);
            Symmetric(NotifyScan(l, ssid, results))
            <==> forall a, b :: IsLate(m, a) && b in FirstAddrs(m) ==> Neighbors(l, b, a)
  {
    var u, m := NotifyScan(l, ssid, results), Matching(ssid, results);
    FirstAddrsMatch(m);
    if Symmetric(u) {
      forall a, b | IsLate(m, a) && b in FirstAddrs(m) ensures Neighbors(l, b, a) {
        ScanAdds(l, ssid, results, a, b);
        ScanAdds(l, ssid, results, b, a);
        assert Neighbors(u, a, b);
      }
    }
    if forall a, b :: IsLate(m, a) && b in FirstAddrs(m) ==> Neighbors(l, b, a) {
      forall a, b | Neighbors(u, a, b) ensures Neighbors(u, b, a) {
        ScanAdds(l, ssid, results, a, b);
        ScanAdds(l, ssid, results, b, a);
        if !Neighbors(l, a, b) && a !in FirstAddrs(m) {
          assert IsLate(m, a);
        }
      }
    }
  }

  /** Up to the bound, the matching results of a scan become pairwise neighbours. */
  lemma ScanPairwise(l: seq<Node>, ssid: Octets, results: seq<ScanRes>, a: Octets, b: Octets)
    requires WF(l) && WellTyped(Matching(ssid, results)) && |Matching(ssid, results)| <= MAX_BSS
    requires IsMatch(Matching(ssid, results), a) && IsMatch(Matching(ssid, results), b) && a != b
    ensures Neighbors(NotifyScan(l, ssid, results), a, b)
  {
    FirstAddrsMatch(Matching(ssid, results));
    ScanAdds(l, ssid, results, a, b);
  }

  /** Fifty-one results from as many access points, from nothing: the relation is not symmetric. */
  lemma FiftyOneBreakSymmetry(results: seq<ScanRes>)
    requires results == seq(51, i requires 0 <= i < 51 =>
               ScanRes([0, 0, 0, 0, 0, i], Fields(0, 2412, 0, 0, 0, 0, 0, 0, 0, 0), 0, [SSID_ELEMENT, 0], []))
    ensures !Symmetric(NotifyScan([], [], results))
  {
    var m := Matching([], results);
    forall i | 0 <= i < 51 ensures Matches([], results[i]) {
      EmptySsidMatches(results[i]);
    }
    AllMatch([], results);
    assert results[50] in m && IsMatch(m, results[50].bssid);
    var f := FirstAddrs(m);
    forall i | 0 <= i < |f| ensures f[i] != results[50].bssid {
      assert f[i][5] == i && results[50].bssid[5] == 50;
    }
    assert IsLate(m, results[50].bssid) && f[0] in f;
    assert !Neighbors([], f[0], results[50].bssid);
    ScanSymmetric([], [], results);
  }

  lemma EmptySsidMatches(res: ScanRes)
    requires res.ies == [SSID_ELEMENT, 0]
    ensures Matches([], res)
  {
    assert res.ies[2..2] == [] && Parse(res.ies[2..]) == [];
    assert Parse(res.ies) == [Element(0, [])];
  }

  lemma {:induction false} AllMatch(ssid: Octets, results: seq<ScanRes>)
    requires forall i :: 0 <= i < |results| ==> Matches(ssid, results[i])
    ensures Matching(ssid, results) == results
  {
    if results != [] {
      AllMatch(ssid, results[1..]);
      assert results == [results[0]] + results[1..];
    }
  }

  // ----- saving and loading

  function Bare(n: Node): Node {
    n.(neigh := [])
  }

  function Reversed(l: seq<Node>): (r: seq<Node>)
    ensures |r| == |l|
  {
    if l == [] then [] else Reversed(l[1..]) + [l[0]]
  }

  function Bares(l: seq<Node>): (r: seq<Node>)
    ensures |r| == |l|
  {
    if l == [] then [] else [Bare(l[0])] + Bares(l[1..])
  }

  lemma {:induction false} ReversedConcat(a: seq<Node>, b: seq<Node>)
    ensures Reversed(a + b) == Reversed(b) + Reversed(a)
  {
    if a == [] {
      assert a + b == b;
    } else {
      assert (a + b)[1..] == a[1..] + b;
      ReversedConcat(a[1..], b);
    }
  }

  lemma {:induction false} ReversedTwice(l: seq<Node>)
    ensures Reversed(Reversed(l)) == l
  {
    if l != [] {
      ReversedConcat(Reversed(l[1..]), [l[0]]);
      ReversedTwice(l[1..]);
      assert Reversed([l[0]]) == [l[0]];
      assert l == [l[0]] + l[1..];
    }
  }

  lemma {:induction false} LoadLinesConcat(l: seq<Node>, a: seq<string>, b: seq<string>)
    ensures LoadLines(l, a + b) == LoadLines(LoadLines(l, a), b)
    decreases |a|
  {
    if a == [] {
      assert a + b == b;
    } else {
      assert (a + b)[1..] == a[1..] + b;
      LoadLinesConcat(LoadLine(l, a[0]), a[1..], b);
    }
  }

  /** A written entry line is read as the entry without neighbours. */
  lemma LoadBssLine(l: seq<Node>, n: Node)
    requires |n.bssid| == ETH_ALEN
    ensures LoadLine(l, BssLine(n)) == [Bare(n)] + l
  {
    var line := BssLine(n);
    var num := Decimal(n.freq) + "\n";
    var rest := " " + num;
    assert line == "BSS " + (AddrText(n.bssid) + rest);
    assert From(line, 4) == AddrText(n.bssid) + rest;
    ReadAddrText(n.bssid, rest);
    assert From(line, 22) == num by {
      assert |AddrText(n.bssid)| == 17;
    }
    AtoiDecimal(n.freq, "\n");
  }

  lemma {:induction false} LoadBssLines(l: seq<Node>, s: seq<Node>)
    requires forall i :: 0 <= i < |s| ==> |s[i].bssid| == ETH_ALEN
    ensures LoadLines(l, BssLines(s)) == Reversed(Bares(s)) + l
    decreases |s|
  {
    if s == [] {
      assert [] + l == l;
    } else {
      LoadFirstBss(l, s);
      LoadBssLines([Bare(s[0])] + l, s[1..]);
      ReversedBares(l, s);
    }
  }

  lemma LoadFirstBss(l: seq<Node>, s: seq<Node>)
    requires s != [] && |s[0].bssid| == ETH_ALEN
    ensures LoadLines(l, BssLines(s)) == LoadLines([Bare(s[0])] + l, BssLines(s[1..]))
  {
    LoadBssLine(l, s[0]);
    LoadOneMore(l, BssLine(s[0]), BssLines(s[1..]));
  }

  lemma ReversedBares(l: seq<Node>, s: seq<Node>)
    requires s != []
    ensures Reversed(Bares(s[1..])) + ([Bare(s[0])] + l) == Reversed(Bares(s)) + l
  {
  }

  /** A written neighbour line is read as one more neighbour of the entry with that address. */
  lemma LoadNeighborLine(l: seq<Node>, k: nat, addr: Octets)
    requires Unique(l) && k < |l| && |l[k].bssid| == ETH_ALEN && |addr| == ETH_ALEN
    ensures LoadLine(l, NeighborLine(l[k].bssid, addr)) == l[k := AddNeighbor(l[k], addr)]
  {
    var a := AddrText(l[k].bssid);
    var b := AddrText(addr);
    var line := NeighborLine(l[k].bssid, addr);
    assert line == "NEIGHBOR " + (a + (" " + b + "\n"));
    assert From(line, 9) == a + (" " + b + "\n");
    ReadAddrText(l[k].bssid, " " + b + "\n");
    assert From(line, 27) == b + "\n";
    ReadAddrText(addr, "\n");
    assert line[0] == 'N';
    IndexUnique(l, k);
  }

  lemma IndexUnique(l: seq<Node>, k: nat)
    requires Unique(l) && k < |l|
    ensures Index(l, l[k].bssid) == k
  {
  }

  /** An entry with the first of its neighbours only. */
  function Partial(n: Node, done: nat): Node
    requires done <= |n.neigh|
  {
    n.(neigh := n.neigh[..done])
  }

  lemma OneMoreNeighbor(n: Node, done: nat)
    requires WellFormedNode(n) && done < |n.neigh|
    ensures AddNeighbor(Partial(n, done), n.neigh[done]) == Partial(n, done + 1)
    ensures |n.neigh[done]| == ETH_ALEN
  {
  }

  lemma LinesOfStep(bssid: Octets, neigh: seq<Octets>, done: nat)
    requires done < |neigh|
    ensures LinesOf(bssid, neigh[done..]) == [NeighborLine(bssid, neigh[done])] + LinesOf(bssid, neigh[done + 1..])
  {
  }

  /** The neighbour lines of one entry complete it. */
  lemma {:induction false} LoadLinesOf(l: seq<Node>, k: nat, n: Node, done: nat)
    requires Unique(l) && k < |l| && WellFormedNode(n) && done <= |n.neigh| && l[k].bssid == n.bssid
    ensures LoadLines(l[k := Partial(n, done)], LinesOf(n.bssid, n.neigh[done..])) == l[k := n]
    decreases |n.neigh| - done
  {
    if done == |n.neigh| {
      assert n.neigh[done..] == [] && Partial(n, done) == n;
    } else {
      LoadNextLine(l, k, n, done);
      LoadLinesOf(l, k, n, done + 1);
    }
  }

  lemma LoadNextLine(l: seq<Node>, k: nat, n: Node, done: nat)
    requires Unique(l) && k < |l| && WellFormedNode(n) && done < |n.neigh| && l[k].bssid == n.bssid
    ensures LoadLines(l[k := Partial(n, done)], LinesOf(n.bssid, n.neigh[done..]))
            == LoadLines(l[k := Partial(n, done + 1)], LinesOf(n.bssid, n.neigh[done + 1..]))
  {
    var u := l[k := Partial(n, done)];
    LinesOfStep(n.bssid, n.neigh, done);
    OneMoreNeighbor(n, done);
    LoadOneMore(u, NeighborLine(n.bssid, n.neigh[done]), LinesOf(n.bssid, n.neigh[done + 1..]));
    LoadNeighborLine(u, k, n.neigh[done]);
    assert u[k := Partial(n, done + 1)] == l[k := Partial(n, done + 1)];
  }

  /** With the entries of `done` complete and those of `todo` still bare, the neighbour lines of `todo`
      complete the rest. */
  lemma {:induction false} LoadNeighborLines(done: seq<Node>, todo: seq<Node>)
    requires WF(done + todo)
    ensures LoadLines(Reversed(done + Bares(todo)), NeighborLines(todo)) == Reversed(done + todo)
    decreases |todo|
  {
    if todo == [] {
      assert done + Bares(todo) == done + todo;
    } else {
      var n, rest := todo[0], todo[1..];
      assert (done + todo)[|done|] == n;
      assert done + todo == (done + [n]) + rest;
      HalfLoaded(done, n, rest);
      LoadLinesConcat(Reversed(done + Bares(todo)), LinesOf(n.bssid, n.neigh), NeighborLines(rest));
      LoadNeighborLines(done + [n], rest);
    }
  }

  lemma HalfLoaded(done: seq<Node>, n: Node, rest: seq<Node>)
    requires WF(done + [n] + rest) && WellFormedNode(n)
    ensures LoadLines(Reversed(done + Bares([n] + rest)), LinesOf(n.bssid, n.neigh))
            == Reversed(done + [n] + Bares(rest))
  {
    var l := Reversed(done + Bares([n] + rest));
    var k := |rest|;
    BareHead(done, n, rest);
    SplitReversed(done, Bare(n), Bares(rest));
    SplitReversed(done, n, Bares(rest));
    ReplaceMiddle(Reversed(Bares(rest)), Bare(n), n, Reversed(done));
    UniqueReversed(done + Bares([n] + rest), done + [n] + rest);
    assert Partial(n, 0) == Bare(n);
    assert n.neigh[0..] == n.neigh;
    LoadLinesOf(l, k, n, 0);
  }

  lemma ReplaceMiddle(a: seq<Node>, x: Node, y: Node, b: seq<Node>)
    ensures (a + [x] + b)[|a|] == x && (a + [x] + b)[|a| := y] == a + [y] + b
    ensures (a + [x] + b)[|a| := x] == a + [x] + b
  {
  }

  lemma BareHead(done: seq<Node>, n: Node, rest: seq<Node>)
    ensures done + Bares([n] + rest) == done + [Bare(n)] + Bares(rest)
    ensures var a, b := done + Bares([n] + rest), done + [n] + rest;
            |a| == |b| && forall i :: 0 <= i < |a| ==> a[i].bssid == b[i].bssid
  {
    assert ([n] + rest)[1..] == rest;
    BaresAt(rest);
    var a, b := done + [Bare(n)] + Bares(rest), done + [n] + rest;
    forall i | 0 <= i < |a| ensures a[i].bssid == b[i].bssid {
      if i > |done| {
        assert a[i] == Bares(rest)[i - |done| - 1] && b[i] == rest[i - |done| - 1];
      }
    }
  }

  lemma {:induction false} BaresAt(l: seq<Node>)
    ensures forall i :: 0 <= i < |l| ==> Bares(l)[i] == Bare(l[i])
  {
    if l != [] {
      BaresAt(l[1..]);
    }
  }

  lemma SplitReversed(a: seq<Node>, n: Node, b: seq<Node>)
    ensures Reversed(a + [n] + b) == Reversed(b) + [n] + Reversed(a)
  {
    ReversedConcat(a + [n], b);
    ReversedConcat(a, [n]);
    assert Reversed([n]) == [n];
    assert Reversed(b) + ([n] + Reversed(a)) == Reversed(b) + [n] + Reversed(a);
  }

  lemma {:induction false} ReversedAt(l: seq<Node>, i: nat)
    requires i < |l|
    ensures Reversed(l)[i] == l[|l| - 1 - i]
  {
    if i < |l| - 1 {
      ReversedAt(l[1..], i);
    }
  }

  /** Lists with the same addresses in the same places are unique together, also when reversed. */
  lemma UniqueReversed(a: seq<Node>, b: seq<Node>)
    requires Unique(b) && |a| == |b|
    requires forall i :: 0 <= i < |a| ==> a[i].bssid == b[i].bssid
    ensures Unique(Reversed(a))
  {
    var r := Reversed(a);
    forall i, j | 0 <= i < j < |r| ensures r[i].bssid != r[j].bssid {
      ReversedAt(a, i);
      ReversedAt(a, j);
    }
  }

  lemma WFReversed(l: seq<Node>)
    requires WF(l)
    ensures WF(Reversed(l))
  {
    UniqueReversed(l, l);
    forall i | 0 <= i < |l| ensures WellFormedNode(Reversed(l)[i]) {
      ReversedAt(l, i);
    }
  }

  /** The saved lines give back the same entries with the same frequencies and the same neighbours in
      the same order, with the list of entries reversed. */
  lemma LoadSavedLines(l: seq<Node>)
    requires WF(l)
    ensures LoadLines([], BssLines(l) + NeighborLines(l)) == Reversed(l)
  {
    LoadLinesConcat([], BssLines(l), NeighborLines(l));
    LoadBssLines([], l);
    assert Reversed(Bares(l)) + [] == Reversed([] + Bares(l)) by {
      assert [] + Bares(l) == Bares(l);
    }
    assert [] + l == l;
    LoadNeighborLines([], l);
  }
}
