/** What one scan does to the learned data, said of the results by their positions. */
module LearnMeaning {
  import opened Elements
  import opened Text
  import opened BssModel
  import opened ScanFiling
  import opened LearnModel
  import opened LearnProofs

  /** The first SSID element of the result, element 0, is the network of the module. */
  ghost predicate Fits(ssid: Octets, res: ScanRes) {
    FirstElement(OwnElements(res), 0, ssid)
  }

  lemma MatchesIs(ssid: Octets, res: ScanRes)
    ensures Matches(ssid, res) <==> Fits(ssid, res)
  {
    FirstDataIs(ScanElements(res), SSID_ELEMENT, ssid);
  }

  lemma {:induction false} MatchingMembers(ssid: Octets, results: seq<ScanRes>, res: ScanRes)
    ensures res in Matching(ssid, results) <==> res in results && Fits(ssid, res)
  {
    if results != [] {
      MatchesIs(ssid, results[0]);
      MatchingMembers(ssid, results[1..], res);
      assert res in results <==> res == results[0] || res in results[1..];
    }
  }

  // ----- frequencies

  /** One result gives its own entry its frequency, and leaves that of the others. */
  lemma LearnSetsFreq(l: seq<Node>, res: ScanRes, addrs: seq<Octets>, n: Node)
    requires WF(l) && |res.bssid| == ETH_ALEN && IsInt(res.fields.freq) && Addresses(addrs)
    requires n in Learn(l, res, addrs)
    ensures if n.bssid == res.bssid then n.freq == res.fields.freq else n in l
  {
    var k := Index(l, res.bssid);
    if k < |l| {
      AddNeighborsWF(l[k].(freq := res.fields.freq), addrs);
      var i :| 0 <= i < |l| && Learn(l, res, addrs)[i] == n;
    } else {
      AddNeighborsWF(Node(res.bssid, res.fields.freq, []), addrs);
    }
  }

  lemma LearnKeepsWF(l: seq<Node>, res: ScanRes, addrs: seq<Octets>)
    requires WF(l) && |res.bssid| == ETH_ALEN && IsInt(res.fields.freq) && Addresses(addrs)
    ensures WF(Learn(l, res, addrs))
  {
    LearnAdds(l, res, addrs, [], []);
  }

  /** No fitting result from this position on is about the address. */
  ghost predicate NoneFrom(ssid: Octets, results: seq<ScanRes>, i: nat, b: Octets) {
    forall j :: i <= j < |results| && Fits(ssid, results[j]) ==> results[j].bssid != b
  }

  lemma NoneInRest(ssid: Octets, results: seq<ScanRes>, i: nat, b: Octets)
    requires results != [] && NoneFrom(ssid, results, i + 1, b)
    ensures NoneFrom(ssid, results[1..], i, b)
  {
    forall j | i <= j < |results[1..]| && Fits(ssid, results[1..][j]) ensures results[1..][j].bssid != b {
      assert results[1..][j] == results[j + 1];
    }
  }

  /** One result gives its own entry its frequency, if it fits at all. */
  lemma FirstSetsFreq(l: seq<Node>, ssid: Octets, results: seq<ScanRes>, addrs: seq<Octets>)
    requires results != [] && WF(l) && WellTyped(Matching(ssid, results)) && Addresses(addrs)
    ensures var r, l' := results[0], After(l, ssid, results[0], addrs);
            && WF(l') && WellTyped(Matching(ssid, results[1..]))
            && LearnAll(l, Matching(ssid, results), addrs) == LearnAll(l', Matching(ssid, results[1..]), addrs)
            && forall n :: n in l' ==>
                 if Fits(ssid, r) && n.bssid == r.bssid then n.freq == r.fields.freq else n in l
  {
    var r := results[0];
    MatchesIs(ssid, r);
    FirstMatch(l, ssid, results, addrs);
    if Matches(ssid, r) {
      assert r in Matching(ssid, results);
      LearnKeepsWF(l, r, addrs);
      forall n | n in Learn(l, r, addrs) ensures if n.bssid == r.bssid then n.freq == r.fields.freq else n in l {
        LearnSetsFreq(l, r, addrs, n);
      }
    }
  }

  /** The entries after one result. */
  function After(l: seq<Node>, ssid: Octets, res: ScanRes, addrs: seq<Octets>): seq<Node> {
    if Matches(ssid, res) then Learn(l, res, addrs) else l
  }

  /** Where no result is about it, an entry keeps its frequency. */
  lemma {:induction false} NoResultKeeps(l: seq<Node>, ssid: Octets, results: seq<ScanRes>, addrs: seq<Octets>, n: Node)
    requires WF(l) && WellTyped(Matching(ssid, results)) && Addresses(addrs)
    requires n in LearnAll(l, Matching(ssid, results), addrs) && NoneFrom(ssid, results, 0, n.bssid)
    ensures n in l
    decreases |results|
  {
    if results != [] {
      FirstSetsFreq(l, ssid, results, addrs);
      NoneInRest(ssid, results, 0, n.bssid);
      NoResultKeeps(After(l, ssid, results[0], addrs), ssid, results[1..], addrs, n);
    }
  }

  lemma FirstMatch(l: seq<Node>, ssid: Octets, results: seq<ScanRes>, addrs: seq<Octets>)
    requires results != []
    ensures var rest := Matching(ssid, results[1..]);
            && (forall r :: r in rest ==> r in Matching(ssid, results))
            && LearnAll(l, Matching(ssid, results), addrs)
               == LearnAll(if Matches(ssid, results[0]) then Learn(l, results[0], addrs) else l, rest, addrs)
  {
    var rest := Matching(ssid, results[1..]);
    assert ([results[0]] + rest)[1..] == rest && [] + rest == rest;
  }

  /** The last result about an entry gives it its frequency. */
  lemma {:induction false} LastResultCounts(l: seq<Node>, ssid: Octets, results: seq<ScanRes>, addrs: seq<Octets>,
                                            n: Node, i: nat)
    requires WF(l) && WellTyped(Matching(ssid, results)) && Addresses(addrs)
    requires n in LearnAll(l, Matching(ssid, results), addrs)
    requires i < |results| && Fits(ssid, results[i]) && results[i].bssid == n.bssid
    requires NoneFrom(ssid, results, i + 1, n.bssid)
    ensures n.freq == results[i].fields.freq
    decreases |results|
  {
    FirstSetsFreq(l, ssid, results, addrs);
    NoneInRest(ssid, results, i, n.bssid);
    var l' := After(l, ssid, results[0], addrs);
    if i > 0 {
      assert results[1..][i - 1] == results[i];
      LastResultCounts(l', ssid, results[1..], addrs, n, i - 1);
    } else {
      NoResultKeeps(l', ssid, results[1..], addrs, n);
    }
  }

  /** After a scan, an entry has the frequency of the last fitting result of its address; where there is
      none, it was there before, exactly as it is. */
  lemma ScanFrequencies(l: seq<Node>, ssid: Octets, results: seq<ScanRes>, n: Node)
    requires WF(l) && WellTyped(Matching(ssid, results)) && n in NotifyScan(l, ssid, results)
    ensures forall i: nat :: LastAbout(ssid, results, i, n.bssid) ==> n.freq == results[i].fields.freq
    ensures NoneFrom(ssid, results, 0, n.bssid) ==> n in l
  {
    var addrs := FirstAddrs(Matching(ssid, results));
    FirstAddrsMatch(Matching(ssid, results));
    forall i: nat | LastAbout(ssid, results, i, n.bssid) ensures n.freq == results[i].fields.freq {
      LastResultCounts(l, ssid, results, addrs, n, i);
    }
    if NoneFrom(ssid, results, 0, n.bssid) {
      NoResultKeeps(l, ssid, results, addrs, n);
    }
  }

  /** The last fitting result with this address. */
  ghost predicate LastAbout(ssid: Octets, results: seq<ScanRes>, i: nat, b: Octets) {
    i < |results| && Fits(ssid, results[i]) && results[i].bssid == b && NoneFrom(ssid, results, i + 1, b)
  }

  // ----- neighbours

  /** The number of fitting results before a position. */
  ghost function FittingBefore(ssid: Octets, results: seq<ScanRes>, j: nat): nat
    requires j <= |results|
  {
    if j == 0 then 0 else FittingBefore(ssid, results, j - 1) + if Fits(ssid, results[j - 1]) then 1 else 0
  }

  lemma {:induction false} MatchingPrefix(ssid: Octets, results: seq<ScanRes>, j: nat)
    requires j < |results|
    ensures Matching(ssid, results[..j + 1])
            == Matching(ssid, results[..j]) + if Fits(ssid, results[j]) then [results[j]] else []
  {
    MatchesIs(ssid, results[j]);
    assert results[..j + 1] == results[..j] + [results[j]];
    MatchingConcat(ssid, results[..j], [results[j]]);
  }

  lemma {:induction false} MatchingConcat(ssid: Octets, a: seq<ScanRes>, b: seq<ScanRes>)
    ensures Matching(ssid, a + b) == Matching(ssid, a) + Matching(ssid, b)
  {
    if a == [] {
      assert a + b == b;
    } else {
      assert (a + b)[1..] == a[1..] + b;
      MatchingConcat(ssid, a[1..], b);
      var head := if Matches(ssid, a[0]) then [a[0]] else [];
      assert (head + Matching(ssid, a[1..])) + Matching(ssid, b) == head + (Matching(ssid, a[1..]) + Matching(ssid, b));
    }
  }

  lemma {:induction false} MatchingCounts(ssid: Octets, results: seq<ScanRes>, j: nat)
    requires j <= |results|
    ensures |Matching(ssid, results[..j])| == FittingBefore(ssid, results, j)
  {
    if j > 0 {
      MatchingPrefix(ssid, results, j - 1);
      MatchingCounts(ssid, results, j - 1);
    }
  }

  /** A fitting result stands among the matching ones behind those that fit before it. */
  lemma MatchingAt(ssid: Octets, results: seq<ScanRes>, j: nat)
    requires j < |results| && Fits(ssid, results[j])
    ensures var p := FittingBefore(ssid, results, j);
            p < |Matching(ssid, results)| && Matching(ssid, results)[p] == results[j]
  {
    MatchingCounts(ssid, results, j);
    MatchingPrefix(ssid, results, j);
    assert results == results[..j + 1] + results[j + 1..];
    MatchingConcat(ssid, results[..j + 1], results[j + 1..]);
  }

  /** ... and each of these stands for a fitting result. */
  lemma {:induction false} MatchingFrom(ssid: Octets, results: seq<ScanRes>, n: nat, p: nat) returns (j: nat)
    requires n <= |results| && p < |Matching(ssid, results[..n])|
    ensures j < n && Fits(ssid, results[j]) && FittingBefore(ssid, results, j) == p
  {
    MatchingPrefix(ssid, results, n - 1);
    MatchingCounts(ssid, results, n - 1);
    if p < |Matching(ssid, results[..n - 1])| {
      j := MatchingFrom(ssid, results, n - 1, p);
    } else {
      j := n - 1;
    }
  }

  /** The address of one of the first fifty fitting results. */
  ghost predicate AmongFirst(ssid: Octets, results: seq<ScanRes>, b: Octets) {
    exists j :: 0 <= j < |results| && Fits(ssid, results[j]) && results[j].bssid == b
                && FittingBefore(ssid, results, j) < 50
  }

  lemma FirstAddrsIs(ssid: Octets, results: seq<ScanRes>, b: Octets)
    ensures b in FirstAddrs(Matching(ssid, results)) <==> AmongFirst(ssid, results, b)
  {
    var m := Matching(ssid, results);
    var f := FirstAddrs(m);
    if b in f {
      var p: nat :| p < |f| && f[p] == b;
      assert results[..|results|] == results;
      var j := MatchingFrom(ssid, results, |results|, p);
      MatchingAt(ssid, results, j);
    }
    if AmongFirst(ssid, results, b) {
      var j: nat :| j < |results| && Fits(ssid, results[j]) && results[j].bssid == b
        && FittingBefore(ssid, results, j) < 50;
      MatchingAt(ssid, results, j);
      assert f[FittingBefore(ssid, results, j)] == b;
    }
  }

  /** Exactly what a scan adds to the neighbour relation: to every address with a fitting result, the
      other addresses of the first fifty fitting results. */
  lemma NeighborsExactly(l: seq<Node>, ssid: Octets, results: seq<ScanRes>, a: Octets, b: Octets)
    requires WF(l) && WellTyped(Matching(ssid, results))
    ensures Neighbors(NotifyScan(l, ssid, results), a, b)
            <==> Neighbors(l, a, b)
                 || (a != b && AmongFirst(ssid, results, b)
                     && exists i :: 0 <= i < |results| && Fits(ssid, results[i]) && results[i].bssid == a)
    ensures HasEntry(NotifyScan(l, ssid, results), a)
            <==> HasEntry(l, a) || exists i :: 0 <= i < |results| && Fits(ssid, results[i]) && results[i].bssid == a
  {
    ScanAdds(l, ssid, results, a, b);
    FirstAddrsIs(ssid, results, b);
    MatchIs(ssid, results, a);
  }

  lemma MatchIs(ssid: Octets, results: seq<ScanRes>, a: Octets)
    ensures IsMatch(Matching(ssid, results), a)
            <==> exists i :: 0 <= i < |results| && Fits(ssid, results[i]) && results[i].bssid == a
  {
    if IsMatch(Matching(ssid, results), a) {
      var r :| r in Matching(ssid, results) && r.bssid == a;
      MatchingMembers(ssid, results, r);
      var i :| 0 <= i < |results| && results[i] == r;
      assert Fits(ssid, results[i]);
    }
    if i :| 0 <= i < |results| && Fits(ssid, results[i]) && results[i].bssid == a {
      MatchingMembers(ssid, results, results[i]);
    }
  }

  // ----- the order of the entries

  /** The entries of `l` stand at the end of `u`, in their order. */
  ghost predicate AtEnd(l: seq<Node>, u: seq<Node>) {
    |u| >= |l| && forall i :: 0 <= i < |l| ==> u[|u| - |l| + i].bssid == l[i].bssid
  }

  lemma AtEndTwice(a: seq<Node>, b: seq<Node>, c: seq<Node>)
    requires AtEnd(a, b) && AtEnd(b, c)
    ensures AtEnd(a, c)
  {
    forall i | 0 <= i < |a| ensures c[|c| - |a| + i].bssid == a[i].bssid {
      var k := |b| - |a| + i;
      assert c[|c| - |b| + k].bssid == b[k].bssid;
    }
  }

  /** The entries that were there keep their order, behind the new ones. */
  lemma {:induction false} OldBehindNew(l: seq<Node>, matching: seq<ScanRes>, addrs: seq<Octets>)
    requires WF(l) && WellTyped(matching) && Addresses(addrs)
    ensures AtEnd(l, LearnAll(l, matching, addrs))
    decreases |matching|
  {
    if matching != [] {
      var l' := Learn(l, matching[0], addrs);
      LearnKeepsWF(l, matching[0], addrs);
      LearnKeepsPlaces(l, matching[0], addrs);
      OldBehindNew(l', matching[1..], addrs);
      AtEndTwice(l, l', LearnAll(l', matching[1..], addrs));
    }
  }

  lemma ScanKeepsPlaces(l: seq<Node>, ssid: Octets, results: seq<ScanRes>)
    requires WF(l) && WellTyped(Matching(ssid, results))
    ensures AtEnd(l, NotifyScan(l, ssid, results))
  {
    FirstAddrsMatch(Matching(ssid, results));
    OldBehindNew(l, Matching(ssid, results), FirstAddrs(Matching(ssid, results)));
  }

  lemma LearnKeepsPlaces(l: seq<Node>, res: ScanRes, addrs: seq<Octets>)
    requires WF(l) && |res.bssid| == ETH_ALEN && IsInt(res.fields.freq) && Addresses(addrs)
    ensures AtEnd(l, Learn(l, res, addrs))
  {
    var k := Index(l, res.bssid);
    if k < |l| {
      AddNeighborsWF(l[k].(freq := res.fields.freq), addrs);
    }
  }
}
