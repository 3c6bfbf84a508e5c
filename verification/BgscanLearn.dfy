/** The learning background-scan module: its entries and its probe cursor, changed in place. */
module BgscanLearn {
  import opened Wrappers
  import opened Elements
  import opened Seqs
  import opened Text
  import opened TextFile
  import opened BssModel
  import opened LearnModel
  import opened Probing

  class LearnBss {
    var bssid: Octets
    var freq: int
    var neigh: seq<Octets>

    ghost function Val(): Node
      reads this
    {
      Node(bssid, freq, neigh)
    }

    constructor (bssid: Octets, freq: int)
      ensures Val() == Node(bssid, freq, [])
    {
      this.bssid, this.freq, neigh := bssid, freq, [];
    }

    method AddNeighbor(addr: Octets)
      modifies this
      ensures Val() == LearnModel.AddNeighbor(old(Val()), addr)
    {
      if bssid == addr {
        return;
      }
      var i := 0;
      while i < |neigh|
        invariant i <= |neigh| && addr !in neigh[..i] && Val() == old(Val())
      {
        if neigh[i] == addr {
          return;
        }
        i := i + 1;
      }
      assert neigh[..i] == neigh;
      neigh := neigh + [addr];
    }

    method AddNeighbors(addrs: seq<Octets>)
      modifies this
      ensures Val() == LearnModel.AddNeighbors(old(Val()), addrs)
    {
      var j := 0;
      assert addrs[0..] == addrs;
      while j < |addrs|
        invariant j <= |addrs|
        invariant LearnModel.AddNeighbors(Val(), addrs[j..]) == LearnModel.AddNeighbors(old(Val()), addrs)
      {
        assert addrs[j..][1..] == addrs[j + 1..];
        AddNeighbor(addrs[j]);
        j := j + 1;
      }
      assert addrs[j..] == [];
    }
  }

  ghost function Vals(s: seq<LearnBss>): (r: seq<Node>)
    reads s
    ensures |r| == |s| && forall i :: 0 <= i < |s| ==> r[i] == s[i].Val()
  {
    if s == [] then [] else [s[0].Val()] + Vals(s[1..])
  }

  datatype Channel = Channel(freq: int, disabled: bool)

  /** The frequencies of the enabled channels of all modes, in order. */
  function EnabledFreqs(chans: seq<Channel>): seq<int> {
    if chans == [] then []
    else (if chans[0].disabled then [] else [chans[0].freq]) + EnabledFreqs(chans[1..])
  }

  function AllEnabledFreqs(modes: seq<seq<Channel>>): seq<int> {
    if modes == [] then [] else EnabledFreqs(modes[0]) + AllEnabledFreqs(modes[1..])
  }

  function NodeFreqs(l: seq<Node>): seq<int> {
    if l == [] then [] else [l[0].freq] + NodeFreqs(l[1..])
  }

  /** A channel with this frequency is enabled in some mode. */
  ghost predicate Supported(modes: seq<seq<Channel>>, f: int) {
    exists i, j :: 0 <= i < |modes| && 0 <= j < |modes[i]| && !modes[i][j].disabled && modes[i][j].freq == f
  }

  lemma {:induction false} EnabledIs(chans: seq<Channel>, f: int)
    ensures f in EnabledFreqs(chans) <==> exists j :: 0 <= j < |chans| && !chans[j].disabled && chans[j].freq == f
  {
    if chans != [] {
      EnabledIs(chans[1..], f);
      if j :| 0 <= j < |chans| && !chans[j].disabled && chans[j].freq == f {
        assert j > 0 ==> chans[1..][j - 1] == chans[j];
      }
      if j :| 0 <= j < |chans[1..]| && !chans[1..][j].disabled && chans[1..][j].freq == f {
        assert chans[j + 1] == chans[1..][j];
      }
    }
  }

  lemma {:induction false} AllEnabledIs(modes: seq<seq<Channel>>, f: int)
    ensures f in AllEnabledFreqs(modes) <==> Supported(modes, f)
  {
    if modes != [] {
      EnabledIs(modes[0], f);
      AllEnabledIs(modes[1..], f);
      if Supported(modes, f) {
        var i, j :| 0 <= i < |modes| && 0 <= j < |modes[i]| && !modes[i][j].disabled && modes[i][j].freq == f;
        assert i > 0 ==> modes[1..][i - 1] == modes[i];
      }
      if Supported(modes[1..], f) {
        var i, j :| 0 <= i < |modes[1..]| && 0 <= j < |modes[1..][i]| && !modes[1..][i][j].disabled
          && modes[1..][i][j].freq == f;
        assert modes[i + 1] == modes[1..][i];
      }
    }
  }

  /** With no channel of frequency zero, the supported list has every supported frequency once. */
  lemma SupportedExactly(modes: seq<seq<Channel>>, f: int)
    requires !Supported(modes, 0)
    ensures var freqs := PushAll([], AllEnabledFreqs(modes));
            && Distinct(Visible(freqs)) && NonZero(Visible(freqs)) && Terminated(freqs)
            && (f in Visible(freqs) <==> Supported(modes, f))
  {
    AllEnabledIs(modes, 0);
    AllEnabledIs(modes, f);
    PushAllCollects([], AllEnabledFreqs(modes));
  }

  lemma {:induction false} NodeFreqsIs(l: seq<Node>, f: int)
    ensures f in NodeFreqs(l) <==> exists n :: n in l && n.freq == f
  {
    if l != [] {
      NodeFreqsIs(l[1..], f);
      assert forall n :: n in l <==> n == l[0] || n in l[1..];
    }
  }

  /** With no entry on frequency zero, the learned list has every learned frequency once. */
  lemma LearnedExactly(l: seq<Node>, f: int)
    requires forall n :: n in l ==> n.freq != 0
    ensures var freqs := PushAll([], NodeFreqs(l));
            && Distinct(Visible(freqs)) && NonZero(Visible(freqs)) && Terminated(freqs)
            && (f in Visible(freqs) <==> exists n :: n in l && n.freq == f)
  {
    NodeFreqsIs(l, 0);
    NodeFreqsIs(l, f);
    PushAllCollects([], NodeFreqs(l));
  }

  lemma EnabledStep(chans: seq<Channel>, j: nat)
    requires j < |chans|
    ensures EnabledFreqs(chans[j..])
            == if chans[j].disabled then EnabledFreqs(chans[j + 1..])
               else [chans[j].freq] + EnabledFreqs(chans[j + 1..])
  {
  }

  lemma NodeFreqsStep(l: seq<Node>, i: nat)
    requires i < |l|
    ensures NodeFreqs(l[i..]) == [l[i].freq] + NodeFreqs(l[i + 1..])
  {
  }

  lemma PushAllStep(a: seq<int>, f: int, rest: seq<int>)
    ensures PushAll(a, [f] + rest) == PushAll(PushNew(a, f), rest)
  {
  }

  lemma {:induction false} PushAllConcat(a: seq<int>, f: seq<int>, g: seq<int>)
    ensures PushAll(a, f + g) == PushAll(PushAll(a, f), g)
    decreases |f|
  {
    if f == [] {
      assert f + g == g;
    } else {
      assert (f + g)[1..] == f[1..] + g;
      PushAllConcat(PushNew(a, f[0]), f[1..], g);
    }
  }

  lemma {:induction false} MatchingStep(ssid: Octets, results: seq<ScanRes>, i: nat)
    requires i < |results|
    ensures Matching(ssid, results[i..])
            == if Matches(ssid, results[i]) then [results[i]] + Matching(ssid, results[i + 1..])
               else Matching(ssid, results[i + 1..])
  {
  }

  lemma FoundOneMore(found: seq<ScanRes>, r: ScanRes, rest: seq<ScanRes>)
    ensures (found + [r]) + rest == found + ([r] + rest)
    ensures FirstAddrs(found + [r])
            == if |found| < MAX_BSS then FirstAddrs(found) + [r.bssid] else FirstAddrs(found)
  {
  }

  lemma LearnAllStep(l: seq<Node>, r: ScanRes, rest: seq<ScanRes>, addrs: seq<Octets>)
    ensures LearnAll(l, [r] + rest, addrs) == LearnAll(Learn(l, r, addrs), rest, addrs)
  {
  }

  lemma LearnNext(l: seq<Node>, ssid: Octets, results: seq<ScanRes>, i: nat, addrs: seq<Octets>)
    requires i < |results|
    ensures LearnAll(l, Matching(ssid, results[i..]), addrs)
            == LearnAll(if Matches(ssid, results[i]) then Learn(l, results[i], addrs) else l,
                        Matching(ssid, results[i + 1..]), addrs)
  {
    MatchingStep(ssid, results, i);
    LearnAllStep(l, results[i], Matching(ssid, results[i + 1..]), addrs);
  }

  lemma BssLinesStep(l: seq<Node>, i: nat)
    requires i < |l|
    ensures BssLines(l[i..]) == [BssLine(l[i])] + BssLines(l[i + 1..])
  {
  }

  lemma LinesRegroup(a: seq<string>, b: seq<string>, c: seq<string>)
    ensures (a + b) + c == a + (b + c)
  {
  }

  lemma NeighborLinesStep(l: seq<Node>, i: nat)
    requires i < |l|
    ensures NeighborLines(l[i..]) == LinesOf(l[i].bssid, l[i].neigh) + NeighborLines(l[i + 1..])
  {
  }

  lemma NextBuffer(buf: string, text: string)
    requires |buf| == BUF_SIZE && text != ""
    ensures var n := ChunkLen(text, BUF_SIZE - 1);
            var b := Filled(buf, text[..n]);
            Buffers(buf, Chunks(text)) == [b] + Buffers(b, Chunks(text[n..]))
  {
    var n := ChunkLen(text, BUF_SIZE - 1);
    var more := Chunks(text[n..]);
    assert ([text[..n]] + more)[1..] == more;
  }

  /** What is loaded when the first chunk is in the buffer. */
  function LoadBehind(l: seq<Node>, buf: string, rest: string): Option<seq<Node>>
    requires |buf| == BUF_SIZE
  {
    if HEADER <= buf then Some(LoadLines(l, Buffers(buf, Chunks(rest)))) else None
  }

  /** What is decided by the first chunk. */
  lemma LoadStarts(l: seq<Node>, junk: string, text: string)
    requires |junk| == BUF_SIZE
    ensures text == "" ==> LearnModel.Load(l, junk, text) == None
    ensures text != "" ==>
              var n := ChunkLen(text, BUF_SIZE - 1);
              var b := Filled(junk, text[..n]);
              LearnModel.Load(l, junk, text) == LoadBehind(l, b, text[n..])
  {
    if text != "" {
      NextBuffer(junk, text);
    }
  }

  lemma IndexStep(l: seq<Node>, i: nat, bssid: Octets)
    requires i < |l|
    ensures Index(l[i..], bssid) == if l[i].bssid == bssid then 0 else 1 + Index(l[i + 1..], bssid)
  {
  }

  class Learner {
    var bss: seq<LearnBss>
    const ssid: Octets
    var suppFreqs: seq<int>
    var probeIdx: nat

    ghost function Model(): seq<Node>
      reads `bss, bss
    {
      Vals(bss)
    }

    /** The entries are different objects, and the cursor stands on a supported channel. */
    ghost predicate Valid()
      reads `bss, `suppFreqs, `probeIdx
    {
      Distinct(bss) && CursorOk()
    }

    ghost predicate CursorOk()
      reads `suppFreqs, `probeIdx
    {
      suppFreqs == [] || (suppFreqs == Visible(suppFreqs) + [0] && probeIdx < |Visible(suppFreqs)|)
    }

    constructor (ssid: Octets)
      ensures Valid() && Model() == [] && this.ssid == ssid && suppFreqs == []
    {
      bss, suppFreqs, probeIdx := [], [], 0;
      this.ssid := ssid;
    }

    /** The position of the entry with this address, or the number of entries. */
    method GetBss(bssid: Octets) returns (k: nat)
      ensures k == Index(Model(), bssid)
    {
      k := 0;
      assert Model()[0..] == Model();
      while k < |bss| && bss[k].bssid != bssid
        invariant k <= |bss|
        invariant Index(Model(), bssid) == k + Index(Model()[k..], bssid)
      {
        IndexStep(Model(), k, bssid);
        k := k + 1;
      }
      if k < |bss| {
        IndexStep(Model(), k, bssid);
      }
    }

    // ----- scans

    method Collect(results: seq<ScanRes>) returns (addrs: seq<Octets>)
      ensures addrs == FirstAddrs(Matching(ssid, results))
    {
      addrs := [];
      var i := 0;
      ghost var found: seq<ScanRes> := [];
      assert results[0..] == results;
      while i < |results|
        invariant i <= |results|
        invariant found + Matching(ssid, results[i..]) == Matching(ssid, results)
        invariant addrs == FirstAddrs(found)
      {
        MatchingStep(ssid, results, i);
        if Matches(ssid, results[i]) {
          FoundOneMore(found, results[i], Matching(ssid, results[i + 1..]));
          if |addrs| < MAX_BSS {
            addrs := addrs + [results[i].bssid];
          }
          found := found + [results[i]];
        }
        i := i + 1;
      }
      assert found + [] == found;
    }

    /** Updates an entry from a result for it. */
    method LearnKnown(k: nat, freq: int, addrs: seq<Octets>)
      requires Distinct(bss) && k < |bss|
      modifies bss[k]
      ensures Model() == old(Model())[k := LearnModel.AddNeighbors(old(Model())[k].(freq := freq), addrs)]
    {
      ghost var l := Model();
      var b := bss[k];
      if b.freq != freq {
        b.freq := freq;
      }
      b.AddNeighbors(addrs);
      forall i | 0 <= i < |bss| && i != k ensures Model()[i] == l[i] {
        assert bss[i] != b;
      }
    }

    /** The entries are distinct, and all are among the given objects. */
    ghost predicate Within(live: set<LearnBss>)
      reads `bss
    {
      Distinct(bss) && forall b :: b in bss ==> b in live
    }

    /** Makes an entry for a result, with its neighbours, and puts it at the front. */
    method LearnNew(res: ScanRes, addrs: seq<Octets>, ghost live: set<LearnBss>) returns (ghost live': set<LearnBss>)
      requires Within(live)
      modifies `bss
      ensures Within(live') && live <= live' && fresh(live' - live)
      ensures Model() == [LearnModel.AddNeighbors(Node(res.bssid, res.fields.freq, []), addrs)] + old(Model())
    {
      ghost var l := Model();
      var b := new LearnBss(res.bssid, res.fields.freq);
      b.AddNeighbors(addrs);
      assert Model() == l;
      bss := [b] + bss;
      live' := live + {b};
    }

    /** Finds or makes the entry for one matching result, and records the neighbours in it. */
    method LearnResult(res: ScanRes, addrs: seq<Octets>, ghost live: set<LearnBss>) returns (ghost live': set<LearnBss>)
      requires Within(live)
      modifies `bss, live
      ensures Within(live') && live <= live' && fresh(live' - live)
      ensures Model() == Learn(old(Model()), res, addrs)
    {
      live' := live;
      var k := GetBss(res.bssid);
      if k < |bss| {
        LearnKnown(k, res.fields.freq, addrs);
      } else {
        live' := LearnNew(res, addrs, live);
      }
    }

    /** One step of the second loop over the results. */
    method LearnAt(results: seq<ScanRes>, i: nat, addrs: seq<Octets>, ghost live: set<LearnBss>, ghost goal: seq<Node>)
      returns (ghost live': set<LearnBss>)
      requires Within(live) && i < |results|
      requires LearnAll(Model(), Matching(ssid, results[i..]), addrs) == goal
      modifies `bss, live
      ensures Within(live') && live <= live' && fresh(live' - live)
      ensures LearnAll(Model(), Matching(ssid, results[i + 1..]), addrs) == goal
    {
      LearnNext(Model(), ssid, results, i, addrs);
      live' := live;
      if Matches(ssid, results[i]) {
        live' := LearnResult(results[i], addrs, live);
      }
    }

    method NotifyScan(results: seq<ScanRes>)
      requires Valid()
      modifies `bss, bss
      ensures Valid() && Model() == LearnModel.NotifyScan(old(Model()), ssid, results)
    {
      var addrs := Collect(results);
      ghost var goal := LearnModel.NotifyScan(Model(), ssid, results);
      ghost var base := set b | b in bss;
      ghost var live := base;
      var i := 0;
      assert results[0..] == results;
      while i < |results|
        invariant i <= |results| && Within(live) && fresh(live - base)
        invariant LearnAll(Model(), Matching(ssid, results[i..]), addrs) == goal
      {
        live := LearnAt(results, i, addrs, live, goal);
        i := i + 1;
      }
    }

    // ----- the data file

    method SaveNeighbors(b: LearnBss) returns (lines: seq<string>)
      ensures lines == LinesOf(b.bssid, b.neigh)
    {
      lines := [];
      var i := 0;
      assert b.neigh[0..] == b.neigh;
      while i < |b.neigh|
        invariant i <= |b.neigh|
        invariant lines + LinesOf(b.bssid, b.neigh[i..]) == LinesOf(b.bssid, b.neigh)
      {
        assert b.neigh[i..][1..] == b.neigh[i + 1..];
        lines := lines + [NeighborLine(b.bssid, b.neigh[i])];
        i := i + 1;
      }
      assert lines + [] == lines;
    }

    method PrintBss(b: LearnBss) returns (line: string)
      ensures line == BssLine(b.Val())
    {
      line := "BSS " + AddrText(b.bssid) + " " + Decimal(b.freq) + "\n";
    }

    method SaveEntries() returns (lines: seq<string>)
      ensures lines == BssLines(Model())
    {
      lines := [];
      var i := 0;
      ghost var l := Model();
      assert l[0..] == l;
      while i < |bss|
        invariant i <= |bss| && lines + BssLines(l[i..]) == BssLines(l)
      {
        BssLinesStep(l, i);
        var line := PrintBss(bss[i]);
        LinesRegroup(lines, [line], BssLines(l[i + 1..]));
        lines := lines + [line];
        i := i + 1;
      }
      assert lines + [] == lines;
    }

    method SaveAllNeighbors() returns (lines: seq<string>)
      ensures lines == NeighborLines(Model())
    {
      lines := [];
      var i := 0;
      ghost var l := Model();
      assert l[0..] == l;
      while i < |bss|
        invariant i <= |bss| && lines + NeighborLines(l[i..]) == NeighborLines(l)
      {
        NeighborLinesStep(l, i);
        var own := SaveNeighbors(bss[i]);
        LinesRegroup(lines, own, NeighborLines(l[i + 1..]));
        lines := lines + own;
        i := i + 1;
      }
      assert lines + [] == lines;
    }

    /** All entries first, then all neighbours. */
    method Save() returns (text: string)
      ensures text == LearnModel.Save(Model())
    {
      var lines := SaveEntries();
      var more := SaveAllNeighbors();
      text := Joined([HEADER] + lines + more);
    }

    method LoadBss(line: string, ghost live: set<LearnBss>) returns (ghost live': set<LearnBss>)
      requires Within(live) && "BSS " <= line
      modifies `bss
      ensures Within(live') && live <= live' && fresh(live' - live)
      ensures Model() == LoadLine(old(Model()), line)
    {
      live' := live;
      var addr := HwaddrAton(From(line, 4));
      if addr.Some? {
        var b := new LearnBss(addr.value, Atoi(From(line, 22)));
        bss := [b] + bss;
        live' := live + {b};
      }
    }

    method LoadNeighbor(line: string, ghost live: set<LearnBss>)
      requires Within(live) && "NEIGHBOR " <= line
      modifies live
      ensures Model() == LoadLine(old(Model()), line)
    {
      assert line[0] == 'N';
      var addr := HwaddrAton(From(line, 9));
      if addr == None {
        return;
      }
      var k := GetBss(addr.value);
      if k == |bss| {
        return;
      }
      addr := HwaddrAton(From(line, 27));
      if addr == None {
        return;
      }
      ghost var l := Model();
      var b := bss[k];
      b.AddNeighbor(addr.value);
      forall i | 0 <= i < |bss| && i != k ensures Model()[i] == l[i] {
        assert bss[i] != b;
      }
      assert Model() == l[k := LearnModel.AddNeighbor(l[k], addr.value)];
    }

    method LoadOne(line: string, ghost live: set<LearnBss>) returns (ghost live': set<LearnBss>)
      requires Within(live)
      modifies `bss, live
      ensures Within(live') && live <= live' && fresh(live' - live)
      ensures Model() == LoadLine(old(Model()), line)
    {
      live' := live;
      if "BSS " <= line {
        live' := LoadBss(line, live);
      } else if "NEIGHBOR " <= line {
        LoadNeighbor(line, live);
      }
    }

    /** Reads a data file; a file that does not start with the header is refused. `junk` is what the
        reading buffer happened to hold at first. */
    method Load(text: string) returns (ok: bool, ghost junk: string)
      requires Valid()
      modifies `bss, bss
      ensures |junk| == BUF_SIZE
      ensures Valid() && ok == LearnModel.Load(old(Model()), junk, text).Some?
      ensures Model() == if ok then LearnModel.Load(old(Model()), junk, text).value else old(Model())
    {
      var buf := new char[BUF_SIZE];
      junk := buf[..];
      ok := LoadInto(buf, text, Model());
    }

    method LoadInto(buf: array<char>, text: string, ghost l: seq<Node>) returns (ok: bool)
      requires Valid() && Model() == l && buf.Length == BUF_SIZE
      modifies `bss, bss, buf
      ensures Valid() && ok == LearnModel.Load(l, old(buf[..]), text).Some?
      ensures Model() == if ok then LearnModel.Load(l, old(buf[..]), text).value else l
    {
      LoadStarts(l, buf[..], text);
      ok := false;
      if text != "" {
        var rest := Fgets(buf, text);
        ok := LoadFrom(buf, rest, l);
      }
    }

    /** With the first chunk in the buffer, loads the rest if that is the header. */
    method LoadFrom(buf: array<char>, rest: string, ghost l: seq<Node>) returns (ok: bool)
      requires Valid() && Model() == l && buf.Length == BUF_SIZE
      modifies `bss, bss, buf
      ensures Valid() && ok == LoadBehind(l, old(buf[..]), rest).Some?
      ensures Model() == if ok then LoadBehind(l, old(buf[..]), rest).value else l
    {
      ok := HasHeader(buf);
      if ok {
        LoadRest(buf, rest, LoadLines(l, Buffers(buf[..], Chunks(rest))));
      }
    }

    method HasHeader(buf: array<char>) returns (r: bool)
      ensures r == (HEADER <= buf[..])
    {
      r := HEADER <= buf[..];
    }

    /** Reads one line, and answers what is left to read. */
    method LoadNext(buf: array<char>, text: string, ghost live: set<LearnBss>, ghost goal: seq<Node>)
      returns (rest: string, ghost live': set<LearnBss>)
      requires Within(live) && buf.Length == BUF_SIZE && text != ""
      requires LoadLines(Model(), Buffers(buf[..], Chunks(text))) == goal
      modifies `bss, live, buf
      ensures Within(live') && live <= live' && fresh(live' - live) && |rest| < |text|
      ensures LoadLines(Model(), Buffers(buf[..], Chunks(rest))) == goal
    {
      ghost var l := Model();
      NextBuffer(buf[..], text);
      rest := Fgets(buf, text);
      assert Model() == l;
      LoadOneMore(l, buf[..], Buffers(buf[..], Chunks(rest)));
      live' := LoadOne(buf[..], live);
    }

    method LoadRest(buf: array<char>, text: string, ghost goal: seq<Node>)
      requires Valid() && buf.Length == BUF_SIZE && LoadLines(Model(), Buffers(buf[..], Chunks(text))) == goal
      modifies `bss, bss, buf
      ensures Valid() && Model() == goal
    {
      ghost var base := set b | b in bss;
      ghost var live := base;
      var rest := text;
      while rest != ""
        invariant Within(live) && fresh(live - base)
        invariant LoadLines(Model(), Buffers(buf[..], Chunks(rest))) == goal
        decreases |rest|
      {
        rest, live := LoadNext(buf, rest, live, goal);
      }
    }

    // ----- frequencies

    /** The frequencies on which entries have been seen, each once. */
    method GetFreqs() returns (freqs: seq<int>, count: nat)
      ensures freqs == PushAll([], NodeFreqs(Model())) && count == Count(freqs) && Terminated(freqs)
      ensures (forall n :: n in Model() ==> n.freq != 0) ==>
                Distinct(Visible(freqs)) && forall f :: f in Visible(freqs) <==> exists n :: n in Model() && n.freq == f
    {
      freqs, count := [], 0;
      ghost var l := Model();
      var i := 0;
      assert l[0..] == l;
      while i < |bss|
        invariant i <= |bss| && count == Count(freqs) && Terminated(freqs)
        invariant PushAll(freqs, NodeFreqs(l[i..])) == PushAll([], NodeFreqs(l))
      {
        NodeFreqsStep(l, i);
        PushAllStep(freqs, l[i].freq, NodeFreqs(l[i + 1..]));
        var seen := InArray(freqs, bss[i].freq);
        if !seen {
          freqs := freqs[..count] + [bss[i].freq, 0];
          count := count + 1;
        }
        i := i + 1;
      }
      if forall n :: n in l ==> n.freq != 0 {
        LearnedExactly(l, 0);
        forall f ensures f in Visible(freqs) <==> exists n :: n in l && n.freq == f {
          LearnedExactly(l, f);
        }
      }
    }

    /** The frequencies of the enabled channels of one mode, put behind those collected so far. */
    method AddModeFreqs(chans: seq<Channel>, before: seq<int>) returns (freqs: seq<int>)
      requires Terminated(before)
      ensures freqs == PushAll(before, EnabledFreqs(chans)) && Terminated(freqs)
    {
      freqs := before;
      var j := 0;
      assert chans[0..] == chans;
      while j < |chans|
        invariant j <= |chans| && Terminated(freqs)
        invariant PushAll(freqs, EnabledFreqs(chans[j..])) == PushAll(before, EnabledFreqs(chans))
      {
        EnabledStep(chans, j);
        if !chans[j].disabled {
          PushAllStep(freqs, chans[j].freq, EnabledFreqs(chans[j + 1..]));
          var seen := InArray(freqs, chans[j].freq);
          if !seen {
            freqs := Push(freqs, chans[j].freq);
          }
        }
        j := j + 1;
      }
    }

    /** Sets the supported frequencies from the channels of the hardware, and the cursor to the first. */
    method GetSuppFreqs(modes: seq<seq<Channel>>)
      modifies `suppFreqs, `probeIdx
      ensures suppFreqs == PushAll([], AllEnabledFreqs(modes)) && probeIdx == 0
      ensures !Supported(modes, 0) ==>
                CursorOk() && Distinct(Visible(suppFreqs))
                && forall f :: f in Visible(suppFreqs) <==> Supported(modes, f)
    {
      var freqs: seq<int> := [];
      var i := 0;
      assert modes[0..] == modes;
      while i < |modes|
        invariant i <= |modes| && Terminated(freqs)
        invariant PushAll(freqs, AllEnabledFreqs(modes[i..])) == PushAll([], AllEnabledFreqs(modes))
      {
        assert modes[i..][1..] == modes[i + 1..];
        PushAllConcat(freqs, EnabledFreqs(modes[i]), AllEnabledFreqs(modes[i + 1..]));
        freqs := AddModeFreqs(modes[i], freqs);
        i := i + 1;
      }
      if !Supported(modes, 0) {
        AllEnabledIs(modes, 0);
        PushAllCollects([], AllEnabledFreqs(modes));
        forall f ensures f in Visible(freqs) <==> Supported(modes, f) {
          SupportedExactly(modes, f);
        }
      }
      suppFreqs, probeIdx := freqs, 0;
    }

    /** The index behind `i`, starting over at the terminator. */
    method IndexAfter(i: nat) returns (j: nat)
      requires suppFreqs == Visible(suppFreqs) + [0] && i < |Visible(suppFreqs)|
      ensures j == Next(Visible(suppFreqs), i)
    {
      VisibleNonZero(suppFreqs);
      j := i + 1;
      if suppFreqs[j] == 0 {
        j := 0;
      }
    }

    /** Adds the next supported frequency that is not among the given ones, and moves the cursor on. */
    method GetProbeFreq(freqs: seq<int>, count: nat) returns (r: seq<int>)
      requires Valid() && Terminated(freqs) && count == Count(freqs)
      modifies `probeIdx
      ensures Valid()
      ensures suppFreqs == [] ==> r == freqs && probeIdx == old(probeIdx)
      ensures suppFreqs != [] ==>
                var (added, c') := Probe(Visible(suppFreqs), Visible(freqs), old(probeIdx));
                probeIdx == c' && r == if added == [] then freqs else Push(freqs, added[0])
    {
      r := freqs;
      if suppFreqs == [] {
        return;
      }
      ghost var s, c := Visible(suppFreqs), probeIdx;
      ghost var rot := Rotated(s, c);
      var idx := probeIdx;
      ghost var k := 0;
      var go := true;
      assert rot[0..] == rot;
      while go
        invariant probeIdx == c && idx < |s| && k <= |s| && idx == Forward(s, c, k)
        invariant go <==> k < |s|
        invariant Steps(rot, Visible(freqs)) == k + Steps(rot[k..], Visible(freqs))
        decreases |s| - k
      {
        RotatedAt(s, c, k);
        NextForward(s, c, k);
        assert rot[k..][0] == rot[k] && rot[k..][1..] == rot[k + 1..];
        var known := InArray(freqs, suppFreqs[idx]);
        var next := IndexAfter(idx);
        if !known {
          probeIdx := next;
          r := freqs[..count] + [suppFreqs[idx], 0];
          return;
        }
        k := k + 1;
        idx := next;
        go := idx != probeIdx;
      }
    }
  }
}
