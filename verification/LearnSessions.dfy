/** The learned data over sessions: it is saved at the end of one and loaded at the start of the next. */
module LearnSessions {
  import opened Wrappers
  import opened Elements
  import opened Text
  import opened TextFile
  import opened BssModel
  import opened LearnModel
  import opened LearnProofs

  // ----- the file

  /** A line as it is written. */
  ghost predicate Written(line: string) {
    || (exists n: Node :: |n.bssid| == ETH_ALEN && IsInt(n.freq) && line == BssLine(n))
    || (exists a: Octets, b: Octets :: |a| == ETH_ALEN && |b| == ETH_ALEN && line == NeighborLine(a, b))
  }

  /** What stands in the buffer behind a written line is not looked at. */
  lemma WrittenIgnoresTail(l: seq<Node>, line: string, tail: string)
    requires Written(line)
    ensures LoadLine(l, line + tail) == LoadLine(l, line)
  {
    if n: Node :| |n.bssid| == ETH_ALEN && line == BssLine(n) {
      BssLineReads(n, "");
      BssLineReads(n, tail);
      assert line + "" == line;
    } else {
      var a: Octets, b: Octets :| |a| == ETH_ALEN && |b| == ETH_ALEN && line == NeighborLine(a, b);
      NeighborLineReads(a, b, "");
      NeighborLineReads(a, b, tail);
      assert line + "" == line;
    }
  }

  lemma BssLineReads(n: Node, tail: string)
    requires |n.bssid| == ETH_ALEN
    ensures var s := BssLine(n) + tail;
            "BSS " <= s && HwaddrAton(From(s, 4)) == Some(n.bssid) && Atoi(From(s, 22)) == n.freq
  {
    BssLineParts(AddrText(n.bssid), Decimal(n.freq), tail);
    ReadAddrText(n.bssid, " " + (Decimal(n.freq) + ("\n" + tail)));
    AtoiDecimal(n.freq, "\n" + tail);
  }

  lemma BssLineParts(a: string, d: string, tail: string)
    requires |a| == 17
    ensures var s := "BSS " + a + " " + d + "\n" + tail;
            "BSS " <= s && From(s, 4) == a + (" " + (d + ("\n" + tail))) && From(s, 22) == d + ("\n" + tail)
  {
    var rest := " " + (d + ("\n" + tail));
    assert "BSS " + a + " " + d + "\n" + tail == "BSS " + (a + rest);
  }

  lemma NeighborLineReads(a: Octets, b: Octets, tail: string)
    requires |a| == ETH_ALEN && |b| == ETH_ALEN
    ensures var s := NeighborLine(a, b) + tail;
            !("BSS " <= s) && "NEIGHBOR " <= s
            && HwaddrAton(From(s, 9)) == Some(a) && HwaddrAton(From(s, 27)) == Some(b)
  {
    var s := NeighborLine(a, b) + tail;
    var rest := " " + (AddrText(b) + ("\n" + tail));
    assert s == "NEIGHBOR " + (AddrText(a) + rest);
    assert s[0] == 'N';
    assert From(s, 9) == AddrText(a) + rest;
    ReadAddrText(a, rest);
    assert From(s, 27) == AddrText(b) + ("\n" + tail);
    ReadAddrText(b, "\n" + tail);
  }

  lemma {:induction false} LoadThroughBuffer(l: seq<Node>, buf: string, lines: seq<string>)
    requires |buf| == BUF_SIZE && forall s :: s in lines ==> Written(s) && |s| < BUF_SIZE
    ensures LoadLines(l, Buffers(buf, lines)) == LoadLines(l, lines)
    decreases |lines|
  {
    if lines != [] {
      var line := lines[0];
      assert line in lines;
      var b := Filled(buf, line);
      LineInBuffer(l, buf, line);
      LoadOneMore(l, b, Buffers(b, lines[1..]));
      LoadThroughBuffer(LoadLine(l, line), b, lines[1..]);
    }
  }

  lemma LineInBuffer(l: seq<Node>, buf: string, line: string)
    requires Written(line) && |line| < |buf|
    ensures LoadLine(l, Filled(buf, line)) == LoadLine(l, line)
  {
    var tail := FilledTail(buf, line);
    WrittenIgnoresTail(l, line, tail);
  }

  lemma FilledTail(buf: string, line: string) returns (tail: string)
    requires |line| < |buf|
    ensures Filled(buf, line) == line + tail
  {
    tail := ['\0'] + buf[|line| + 1..];
  }

  lemma BssLineIsLine(n: Node)
    requires |n.bssid| == ETH_ALEN && IsInt(n.freq)
    ensures IsLine(BssLine(n))
  {
    AddrTextNoBreak(n.bssid);
    var d := if n.freq < 0 then -n.freq else n.freq;
    assert d < Pow10(10) by {
      assert Pow10(5) == 100000 && Pow10(10) == 100000 * Pow10(5);
    }
    DigitsBound(d, 10);
    var line := "BSS " + AddrText(n.bssid) + " " + Decimal(n.freq);
    assert NoBreak(line);
    assert BssLine(n) == line + "\n";
  }

  lemma NeighborLineIsLine(a: Octets, b: Octets)
    requires |a| == ETH_ALEN && |b| == ETH_ALEN
    ensures IsLine(NeighborLine(a, b))
  {
    AddrTextNoBreak(a);
    AddrTextNoBreak(b);
    var line := "NEIGHBOR " + AddrText(a) + " " + AddrText(b);
    assert NoBreak(line);
    assert NeighborLine(a, b) == line + "\n";
  }

  lemma {:induction false} BssLinesWritten(l: seq<Node>, line: string)
    requires WF(l) && line in BssLines(l)
    ensures Written(line) && IsLine(line)
  {
    if line == BssLine(l[0]) {
      BssLineIsLine(l[0]);
    } else {
      BssLinesWritten(l[1..], line);
    }
  }

  lemma {:induction false} LinesOfWritten(a: Octets, neigh: seq<Octets>, line: string)
    requires |a| == ETH_ALEN && (forall b :: b in neigh ==> |b| == ETH_ALEN) && line in LinesOf(a, neigh)
    ensures Written(line) && IsLine(line)
  {
    if line == NeighborLine(a, neigh[0]) {
      NeighborLineIsLine(a, neigh[0]);
    } else {
      LinesOfWritten(a, neigh[1..], line);
    }
  }

  lemma {:induction false} NeighborLinesWritten(l: seq<Node>, line: string)
    requires WF(l) && line in NeighborLines(l)
    ensures Written(line) && IsLine(line)
  {
    if line in LinesOf(l[0].bssid, l[0].neigh) {
      LinesOfWritten(l[0].bssid, l[0].neigh, line);
    } else {
      NeighborLinesWritten(l[1..], line);
    }
  }

  /** Loading the text that was saved gives back the same entries with the same frequencies and the same
      neighbours in the same order, with the list of entries reversed, whatever the reading buffer held. */
  lemma LoadSaved(l: seq<Node>, buf: string)
    requires WF(l) && |buf| == BUF_SIZE
    ensures Load([], buf, Save(l)) == Some(Reversed(l))
  {
    var lines := BssLines(l) + NeighborLines(l);
    AllWritten(l);
    HeaderFirst(BssLines(l), NeighborLines(l));
    LoadWritten(buf, lines);
    LoadSavedLines(l);
  }

  lemma HeaderFirst(a: seq<string>, b: seq<string>)
    ensures [HEADER] + a + b == [HEADER] + (a + b)
  {
  }

  lemma AllWritten(l: seq<Node>)
    requires WF(l)
    ensures forall line :: line in BssLines(l) + NeighborLines(l) ==> Written(line) && IsLine(line)
  {
    forall line | line in BssLines(l) + NeighborLines(l) ensures Written(line) && IsLine(line) {
      if line in BssLines(l) {
        BssLinesWritten(l, line);
      } else {
        NeighborLinesWritten(l, line);
      }
    }
  }

  lemma LoadWritten(buf: string, lines: seq<string>)
    requires |buf| == BUF_SIZE && forall s :: s in lines ==> Written(s) && IsLine(s)
    ensures Load([], buf, Joined([HEADER] + lines)) == Some(LoadLines([], lines))
  {
    assert IsLine(HEADER);
    ReadWritten(buf, HEADER, lines);
  }

  lemma ReadWritten(buf: string, first: string, lines: seq<string>)
    requires |buf| == BUF_SIZE && IsLine(first) && forall s :: s in lines ==> Written(s) && IsLine(s)
    ensures var bufs := Buffers(buf, Chunks(Joined([first] + lines)));
            bufs != [] && first <= bufs[0] && LoadLines([], bufs[1..]) == LoadLines([], lines)
  {
    ChunksOfLines([first] + lines);
    FirstBuffer(buf, first, lines);
    LoadThroughBuffer([], Filled(buf, first), lines);
  }

  lemma FirstBuffer(buf: string, chunk: string, more: seq<string>)
    requires |buf| == BUF_SIZE && |chunk| < BUF_SIZE && forall c :: c in more ==> |c| < BUF_SIZE
    ensures Buffers(buf, [chunk] + more) == [Filled(buf, chunk)] + Buffers(Filled(buf, chunk), more)
  {
    assert ([chunk] + more)[1..] == more;
  }

  /** Two passes of saving and loading are the identity. */
  lemma SaveLoadTwice(l: seq<Node>, buf: string, buf': string)
    requires WF(l) && |buf| == BUF_SIZE && |buf'| == BUF_SIZE
    ensures Load([], buf, Save(l)).Some?
    ensures Load([], buf', Save(Load([], buf, Save(l)).value)) == Some(l)
  {
    LoadSaved(l, buf);
    WFReversed(l);
    LoadSaved(Reversed(l), buf');
    ReversedTwice(l);
  }

  // ----- sessions

  /** Scans, and restarts of the module, which saves the data and loads it again. */
  datatype Session = Fresh | Scan(prev: Session, results: seq<ScanRes>) | Restart(prev: Session, buf: string)

  function Data(ssid: Octets, s: Session): seq<Node> {
    match s
    case Fresh => []
    case Scan(prev, results) => NotifyScan(Data(ssid, prev), ssid, results)
    case Restart(prev, buf) =>
      var l := if |buf| == BUF_SIZE then Load([], buf, Save(Data(ssid, prev))) else None;
      if l.Some? then l.value else []
  }

  predicate Proper(ssid: Octets, s: Session) {
    match s
    case Fresh => true
    case Scan(prev, results) => Proper(ssid, prev) && WellTyped(Matching(ssid, results))
    case Restart(prev, buf) => Proper(ssid, prev) && |buf| == BUF_SIZE
  }

  /** No scan had more matching results than addresses are given out for. */
  predicate Small(ssid: Octets, s: Session) {
    match s
    case Fresh => true
    case Scan(prev, results) => Small(ssid, prev) && |Matching(ssid, results)| <= 50
    case Restart(prev, buf) => Small(ssid, prev)
  }

  lemma ReversedKeepsGraph(l: seq<Node>, a: Octets, b: Octets)
    ensures HasEntry(Reversed(l), a) <==> HasEntry(l, a)
    ensures Neighbors(Reversed(l), a, b) <==> Neighbors(l, a, b)
  {
    var r, n := Reversed(l), |l|;
    forall i | 0 <= i < n ensures r[i] == l[n - 1 - i] {
      ReversedAt(l, i);
    }
    if HasEntry(l, a) {
      var i :| 0 <= i < n && l[i].bssid == a;
      assert r[n - 1 - i].bssid == a;
    }
    if Neighbors(l, a, b) {
      var i :| 0 <= i < n && l[i].bssid == a && b in l[i].neigh;
      assert r[n - 1 - i].bssid == a && b in r[n - 1 - i].neigh;
    }
  }

  /** Over any sessions the data is well formed, every neighbour has its own entry, and the relation is
      symmetric if no scan had more than 50 matching results. */
  lemma {:induction false} SessionsKeepGraph(ssid: Octets, s: Session)
    requires Proper(ssid, s)
    ensures var l := Data(ssid, s); WF(l) && Closed(l) && (Small(ssid, s) ==> Symmetric(l))
  {
    match s
    case Fresh =>
    case Scan(prev, results) =>
      SessionsKeepGraph(ssid, prev);
      ScanKeepsClosed(Data(ssid, prev), ssid, results);
      if Small(ssid, s) {
        FirstAddrsMatch(Matching(ssid, results));
        ScanSymmetric(Data(ssid, prev), ssid, results);
      }
    case Restart(prev, buf) =>
      SessionsKeepGraph(ssid, prev);
      RestartKeepsGraph(Data(ssid, prev), buf);
  }

  lemma RestartKeepsGraph(l: seq<Node>, buf: string)
    requires WF(l) && Closed(l) && |buf| == BUF_SIZE
    ensures Load([], buf, Save(l)).Some?
    ensures var r := Load([], buf, Save(l)).value; WF(r) && Closed(r) && (Symmetric(l) ==> Symmetric(r))
  {
    LoadSaved(l, buf);
    ReversedGraph(l);
  }

  lemma ReversedGraph(l: seq<Node>)
    requires WF(l) && Closed(l)
    ensures WF(Reversed(l)) && Closed(Reversed(l)) && (Symmetric(l) ==> Symmetric(Reversed(l)))
  {
    var r := Reversed(l);
    WFReversed(l);
    forall a, b | Neighbors(r, a, b) ensures HasEntry(r, b) && (Symmetric(l) ==> Neighbors(r, b, a)) {
      ReversedKeepsGraph(l, a, b);
      ReversedKeepsGraph(l, b, a);
      assert Neighbors(l, a, b);
    }
  }

  // ----- the lines by their positions

  /** The address and the number stand where the reading looks for them. */
  lemma BssLineExactly(n: Node)
    requires |n.bssid| == 6
    ensures BssLine(n)[..4] == "BSS " && BssLine(n)[4..21] == AddrText(n.bssid)
    ensures BssLine(n)[21..] == " " + Decimal(n.freq) + "\n"
  {
  }

  lemma NeighborLineExactly(a: Octets, b: Octets)
    requires |a| == 6 && |b| == 6
    ensures |NeighborLine(a, b)| == 45 && NeighborLine(a, b)[..9] == "NEIGHBOR "
    ensures NeighborLine(a, b)[9..26] == AddrText(a)
    ensures NeighborLine(a, b)[26..] == " " + (AddrText(b) + "\n")
  {
    assert NeighborLine(a, b) == "NEIGHBOR " + (AddrText(a) + (" " + (AddrText(b) + "\n")));
  }

  lemma HeaderLine()
    ensures Save([]) == "wpa_supplicant-bgscan-learn\n"
  {
    assert SavedLines([]) == [HEADER] && [HEADER][1..] == [];
    assert Joined([HEADER]) == HEADER + "";
  }

  /** The first lines are those of the entries, in order. */
  lemma {:induction false} BssLinesAt(l: seq<Node>, i: nat)
    requires i < |l|
    ensures |BssLines(l)| == |l| && BssLines(l)[i] == BssLine(l[i])
  {
    if i > 0 {
      BssLinesAt(l[1..], i - 1);
    } else if |l| > 1 {
      BssLinesAt(l[1..], 0);
    }
  }

  /** Lines of another kind, or with an address that cannot be read, and neighbours of an address that has
      no entry, are passed over. */
  lemma OtherLines(l: seq<Node>, line: string)
    requires BUF_SIZE <= |line|
    requires if "BSS " <= line then HwaddrAton(line[4..]).None?
             else if "NEIGHBOR " <= line then
               HwaddrAton(line[9..]).None? || HwaddrAton(line[27..]).None?
               || forall n :: n in l ==> n.bssid != HwaddrAton(line[9..]).value
             else true
    ensures LoadLine(l, line) == l
  {
  }

  /** Any line at all adds an entry without neighbours at the front, or one neighbour to one entry, or
      changes nothing. */
  lemma LineEffect(l: seq<Node>, line: string)
    ensures var u := LoadLine(l, line);
            || u == l
            || ("BSS " <= line && |u| == |l| + 1 && u[1..] == l && u[0].neigh == [])
            || ("NEIGHBOR " <= line && exists k :: 0 <= k < |l| && OneNeighborMore(l, u, k))
  {
    var u := LoadLine(l, line);
    if u != l && !("BSS " <= line) {
      var k := Index(l, HwaddrAton(From(line, 9)).value);
      assert OneNeighborMore(l, u, k);
    }
  }

  ghost predicate OneNeighborMore(l: seq<Node>, u: seq<Node>, k: nat) {
    && |u| == |l| && k < |l|
    && (forall i :: 0 <= i < |l| && i != k ==> u[i] == l[i])
    && u[k].bssid == l[k].bssid && u[k].freq == l[k].freq && |u[k].neigh| == |l[k].neigh| + 1
    && u[k].neigh[..|l[k].neigh|] == l[k].neigh
  }
}
