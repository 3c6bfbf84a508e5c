/** The LIST_NETWORKS command, which fills a buffer with whole rows, and what a client reads there. */
module ListNetworks {
  import opened Wrappers
  import opened Elements
  import opened Text

  datatype Net = Net(id: int, ssid: Option<Octets>, bssid: Option<Octets>, current: bool, tempDisabled: bool,
                     disabled: int)

  const HEADER := "network id / ssid / bssid / flags\n"
  const LAST_ID := "LAST_ID="

  function Name(n: Net): string {
    Decimal(n.id) + "\t" + SsidTxt(n.ssid)
  }

  function Address(n: Net): string {
    if n.bssid.Some? then "\t" + AddrText(n.bssid.value) else "\tany"
  }

  function Flags(n: Net): string {
    "\t" + (if n.current then "[CURRENT]" else "") + (if n.disabled != 0 then "[DISABLED]" else "")
    + (if n.tempDisabled then "[TEMP-DISABLED]" else "") + (if n.disabled == 2 then "[P2P-PERSISTENT]" else "")
  }

  function Row(n: Net): (r: string)
    ensures |r| >= 1
  {
    Name(n) + Address(n) + Flags(n) + "\n"
  }

  function Ids(l: seq<Net>): (ids: seq<int>)
    ensures |ids| == |l| && forall i :: 0 <= i < |l| ==> ids[i] == l[i].id
  {
    seq(|l|, i requires 0 <= i < |l| => l[i].id)
  }

  // ----- one page

  /** The id that the command asks to go on from, if it does. */
  function LastIdOf(cmd: Option<string>): Option<int> {
    if cmd.Some? && LAST_ID <= cmd.value && Atoi(cmd.value[|LAST_ID|..]) != -1
    then Some(Atoi(cmd.value[|LAST_ID|..])) else None
  }

  /** The networks from the first one with a larger id on. */
  function Behind(l: seq<Net>, last: Option<int>): seq<Net> {
    if l == [] || last == None || l[0].id > last.value then l else Behind(l[1..], last)
  }

  /** As many of the networks as have their whole rows in the room, which includes the terminator. */
  function Fitting(l: seq<Net>, room: int): seq<Net> {
    if l == [] || |Row(l[0])| >= room then [] else [l[0]] + Fitting(l[1..], room - |Row(l[0])|)
  }

  function RowText(l: seq<Net>): string {
    if l == [] then "" else Row(l[0]) + RowText(l[1..])
  }

  function PageNets(l: seq<Net>, last: Option<int>, buflen: nat): seq<Net> {
    Fitting(Behind(l, last), buflen - |HEADER|)
  }

  /** The reply to the command. */
  function PageText(l: seq<Net>, last: Option<int>, buflen: nat): string {
    if |HEADER| >= buflen then "" else HEADER + RowText(PageNets(l, last, buflen))
  }

  /** Prints a string at a position, if it fits with its terminator; else what was there before the
      position stays. */
  method Put(buf: array<char>, pos: nat, s: string) returns (ok: bool)
    requires pos <= buf.Length
    modifies buf
    ensures ok <==> |s| < buf.Length - pos
    ensures buf[..pos] == old(buf[..pos])
    ensures ok ==> buf[..pos + |s|] == old(buf[..pos]) + s
  {
    var room := buf.Length - pos;
    var n := if |s| < room then |s| else if room == 0 then 0 else room - 1;
    forall i | 0 <= i < n {
      buf[pos + i] := s[i];
    }
    if room > 0 {
      buf[pos + n] := '\0';
    }
    ok := |s| < room;
  }

  /** Prints one row piece by piece; answers whether all of it did fit. */
  method PutRow(buf: array<char>, pos: nat, n: Net) returns (ok: bool)
    requires pos < buf.Length
    modifies buf
    ensures ok <==> |Row(n)| < buf.Length - pos
    ensures buf[..pos] == old(buf[..pos])
    ensures ok ==> buf[..pos + |Row(n)|] == old(buf[..pos]) + Row(n)
  {
    RowPieces(buf[..pos], n);
    ok := PutPieces(buf, pos, Name(n), Address(n), Flags(n), "\n");
  }

  lemma RowPieces(before: string, n: Net)
    ensures before + Row(n) == before + Name(n) + Address(n) + Flags(n) + "\n"
    ensures |Row(n)| == |Name(n)| + |Address(n)| + |Flags(n)| + |"\n"|
  {
    Regrouped(before, Name(n), Address(n), Flags(n), "\n");
  }

  lemma Regrouped(before: string, a: string, b: string, c: string, d: string)
    ensures before + (a + b + c + d) == before + a + b + c + d
  {
  }

  method PutPieces(buf: array<char>, pos: nat, a: string, b: string, c: string, d: string) returns (ok: bool)
    requires pos < buf.Length
    modifies buf
    ensures ok <==> |a| + |b| + |c| + |d| < buf.Length - pos
    ensures buf[..pos] == old(buf[..pos])
    ensures ok ==> buf[..pos + |a| + |b| + |c| + |d|] == old(buf[..pos]) + a + b + c + d
  {
    var p := pos;
    ok := Put(buf, p, a);
    if ok {
      p := p + |a|;
      ok := PutNext(buf, pos, p, b);
    }
    if ok {
      p := p + |b|;
      ok := PutNext(buf, pos, p, c);
    }
    if ok {
      p := p + |c|;
      ok := PutNext(buf, pos, p, d);
    }
  }

  method PutNext(buf: array<char>, start: nat, pos: nat, s: string) returns (ok: bool)
    requires start <= pos <= buf.Length
    modifies buf
    ensures ok <==> |s| < buf.Length - pos
    ensures buf[..start] == old(buf[..start])
    ensures ok ==> buf[..pos + |s|] == old(buf[..pos]) + s
  {
    ok := Put(buf, pos, s);
    assert buf[..start] == buf[..pos][..start];
    assert old(buf[..start]) == old(buf[..pos])[..start];
  }

  /** The output up to a position, followed by the rows from a network on that still fit, is the
      whole. */
  ghost predicate Progress(b: seq<char>, pos: nat, l: seq<Net>, i: nat, whole: string) {
    i <= |l| && pos < |b| && b[..pos] + RowText(Fitting(l[i..], |b| - pos)) == whole
  }

  ghost predicate Finished(b: seq<char>, pos: nat, whole: string) {
    pos < |b| && b[..pos] == whole
  }

  /** Prints the next row; answers whether it did fit, and else leaves the output as it was. */
  method PutNet(l: seq<Net>, i: nat, buf: array<char>, pos: nat, ghost whole: string) returns (ok: bool, next: nat)
    requires i < |l| && Progress(buf[..], pos, l, i, whole)
    modifies buf
    ensures ok ==> Progress(buf[..], next, l, i + 1, whole)
    ensures !ok ==> Finished(buf[..], next, whole)
  {
    next := pos;
    ghost var before, room := buf[..pos], buf.Length - pos;
    assert buf[..][..pos] == before;
    StepSplits(l, i, room, before);
    var row := Row(l[i]);
    ok := PutRow(buf, pos, l[i]);
    if ok {
      next := pos + |row|;
      assert buf[..][..next] == before + row;
    } else {
      assert buf[..][..pos] == before;
    }
  }

  lemma StepSplits(l: seq<Net>, i: nat, room: int, before: string)
    requires i < |l|
    ensures var row := Row(l[i]);
            before + RowText(Fitting(l[i..], room))
            == if |row| >= room then before else before + row + RowText(Fitting(l[i + 1..], room - |row|))
  {
  }

  /** Prints rows from a position on, as long as they fit whole; answers where they end. */
  method PutRows(l: seq<Net>, buf: array<char>, start: nat) returns (pos: nat)
    requires start < buf.Length
    modifies buf
    ensures pos <= buf.Length && buf[..pos] == old(buf[..start]) + RowText(Fitting(l, buf.Length - start))
  {
    pos := start;
    ghost var whole := buf[..start] + RowText(Fitting(l, buf.Length - start));
    var i, ok := 0, true;
    Started(l, buf[..], start, whole);
    while i < |l| && ok
      invariant i <= |l| && pos < buf.Length
      invariant if ok then Progress(buf[..], pos, l, i, whole) else Finished(buf[..], pos, whole)
      decreases |l| - i, ok
    {
      ok, pos := PutNet(l, i, buf, pos, whole);
      if ok {
        i := i + 1;
      }
    }
    if ok {
      Ended(l, buf[..], pos, whole);
    }
    assert buf[..pos] == buf[..][..pos];
  }

  lemma Started(l: seq<Net>, b: seq<char>, start: nat, whole: string)
    requires start < |b| && whole == b[..start] + RowText(Fitting(l, |b| - start))
    ensures Progress(b, start, l, 0, whole)
  {
  }

  lemma Ended(l: seq<Net>, b: seq<char>, pos: nat, whole: string)
    requires Progress(b, pos, l, |l|, whole)
    ensures Finished(b, pos, whole)
  {
  }

  /** Fills the buffer, and answers how much of it is the reply. */
  method ListNetworks(l: seq<Net>, cmd: Option<string>, buf: array<char>) returns (ret: nat)
    modifies buf
    ensures ret <= buf.Length && buf[..ret] == PageText(l, LastIdOf(cmd), buf.Length)
  {
    var ok := Put(buf, 0, HEADER);
    if !ok {
      return 0;
    }
    var i := FirstBehind(l, cmd);
    assert buf[..0] + HEADER == HEADER;
    ret := PutRows(l[i..], buf, |HEADER|);
  }

  /** Skips the networks up to the id the command names. */
  method FirstBehind(l: seq<Net>, cmd: Option<string>) returns (i: nat)
    ensures i <= |l| && l[i..] == Behind(l, LastIdOf(cmd))
  {
    i := 0;
    assert l[0..] == l;
    if cmd.Some? && LAST_ID <= cmd.value {
      var lastId := Atoi(cmd.value[|LAST_ID|..]);
      if lastId != -1 {
        while i < |l| && l[i].id <= lastId
          invariant i <= |l| && Behind(l[i..], Some(lastId)) == Behind(l, Some(lastId))
        {
          assert l[i..][1..] == l[i + 1..];
          i := i + 1;
        }
      }
    }
  }

  // ----- what the client learns from a page

  /** The command for the next page reads back as the id it was made from. */
  lemma CommandNamesId(id: int)
    requires id >= 0
    ensures LastIdOf(Some(LAST_ID + Decimal(id))) == Some(id)
  {
    var cmd := LAST_ID + Decimal(id);
    assert cmd[|LAST_ID|..] == Decimal(id);
    assert Decimal(id) + "" == Decimal(id);
    AtoiDecimal(id, "");
  }

  /** A row begins with its id. */
  lemma RowNamesId(n: Net, more: string)
    ensures Atoi(Row(n) + more) == n.id
  {
    var rest := "\t" + SsidTxt(n.ssid) + Address(n) + Flags(n) + "\n" + more;
    assert Row(n) + more == Decimal(n.id) + rest;
    AtoiDecimal(n.id, rest);
  }

  lemma AddressNoBreak(n: Net)
    ensures NoBreak(Address(n))
  {
    if n.bssid.Some? {
      AddrTextNoBreak(n.bssid.value);
    }
  }

  lemma NameNoBreak(n: Net)
    ensures NoBreak(Name(n))
  {
  }

  lemma FlagsNoBreak(n: Net)
    ensures NoBreak(Flags(n))
  {
  }

  /** A row is one line. */
  lemma RowIsLine(n: Net, more: string)
    ensures AfterLine(Row(n) + more) == more
  {
    NameNoBreak(n);
    AddressNoBreak(n);
    FlagsNoBreak(n);
    PiecesAreLine(Name(n), Address(n), Flags(n), more);
  }

  lemma PiecesAreLine(a: string, b: string, c: string, more: string)
    requires NoBreak(a) && NoBreak(b) && NoBreak(c)
    ensures AfterLine(a + b + c + "\n" + more) == more
  {
    LineEnds(a + b + c, more);
  }

  /** What comes after the first line. */
  function AfterLine(s: string): (r: string)
    ensures s != "" ==> |r| < |s|
  {
    if s == "" then "" else if s[0] == '\n' then s[1..] else AfterLine(s[1..])
  }

  lemma {:induction false} LineEnds(line: string, more: string)
    requires NoBreak(line)
    ensures AfterLine(line + "\n" + more) == more
  {
    if line != "" {
      assert (line + "\n" + more)[1..] == line[1..] + "\n" + more;
      LineEnds(line[1..], more);
    }
  }

  /** The ids at the heads of the lines. */
  function ReadIds(s: string): seq<int>
    decreases |s|
  {
    if s == "" then [] else [Atoi(s)] + ReadIds(AfterLine(s))
  }

  lemma {:induction false} ReadRows(l: seq<Net>)
    ensures ReadIds(RowText(l)) == Ids(l)
  {
    if l != [] {
      RowNamesId(l[0], RowText(l[1..]));
      RowIsLine(l[0], RowText(l[1..]));
      ReadRows(l[1..]);
    }
  }

  lemma HeaderIsLine()
    ensures HEADER[|HEADER| - 1] == '\n' && forall i :: 0 <= i < |HEADER| - 1 ==> HEADER[i] != '\n'
  {
  }

  /** From the text of a page the client reads, behind its first line, the ids of the networks on it. */
  lemma ReadPage(l: seq<Net>, last: Option<int>, buflen: nat)
    requires buflen > |HEADER|
    ensures ReadIds(AfterLine(PageText(l, last, buflen))) == Ids(PageNets(l, last, buflen))
  {
    var line, rows := HEADER[..|HEADER| - 1], RowText(PageNets(l, last, buflen));
    HeaderIsLine();
    assert HEADER == line + "\n";
    LineEnds(line, rows);
    ReadRows(PageNets(l, last, buflen));
  }

  // ----- what rows and pages are made of

  /** The last column of a network that is not disabled. */
  lemma FlagsOf(n: Net)
    requires n.disabled == 0
    ensures !n.current && !n.tempDisabled ==> Flags(n) == "\t"
    ensures n.current && !n.tempDisabled ==> Flags(n) == "\t[CURRENT]"
    ensures !n.current && n.tempDisabled ==> Flags(n) == "\t[TEMP-DISABLED]"
    ensures n.current && n.tempDisabled ==> Flags(n) == "\t[CURRENT][TEMP-DISABLED]"
  {
  }

  /** That of one that is disabled, and no persistent group. */
  lemma FlagsOfDisabled(n: Net)
    requires n.disabled != 0 && n.disabled != 2 && !n.current
    ensures !n.tempDisabled ==> Flags(n) == "\t[DISABLED]"
    ensures n.tempDisabled ==> Flags(n) == "\t[DISABLED][TEMP-DISABLED]"
  {
  }

  lemma FlagsOfCurrentDisabled(n: Net)
    requires n.disabled != 0 && n.disabled != 2 && n.current
    ensures !n.tempDisabled ==> Flags(n) == "\t[CURRENT][DISABLED]"
    ensures n.tempDisabled ==> Flags(n) == "\t[CURRENT][DISABLED][TEMP-DISABLED]"
  {
  }

  /** That of a persistent group is the same with one flag more. */
  lemma FlagsOfGroup(n: Net)
    requires n.disabled == 2
    ensures Flags(n) == Flags(n.(disabled := 1)) + "[P2P-PERSISTENT]"
  {
    var d := n.(disabled := 1);
    assert Flags(d) + "" == Flags(d);
  }

  /** A row has its four columns behind tabulators. */
  lemma RowColumns(n: Net)
    ensures n.bssid.None? ==> Row(n) == Decimal(n.id) + "\t" + SsidTxt(n.ssid) + "\tany" + Flags(n) + "\n"
    ensures n.bssid.Some? ==>
              Row(n) == Decimal(n.id) + "\t" + SsidTxt(n.ssid) + "\t" + AddrText(n.bssid.value) + Flags(n) + "\n"
  {
    if n.bssid.Some? {
      var head, addr := Decimal(n.id) + "\t" + SsidTxt(n.ssid), AddrText(n.bssid.value);
      assert head + ("\t" + addr) == head + "\t" + addr;
    }
  }

  lemma Grouped(a: string, b: string, c: string)
    ensures (a + b) + c == a + (b + c)
  {
  }

  lemma OneRow(n: Net)
    ensures RowText([n]) == Row(n)
  {
    var rest: seq<Net> := [];
    assert [n][1..] == rest;
    assert RowText([n]) == Row(n) + "";
  }

  /** The text of the rows is one row after the other. */
  lemma {:induction false} RowTextGrows(l: seq<Net>, n: Net)
    ensures RowText([]) == "" && RowText(l + [n]) == RowText(l) + Row(n)
  {
    if l == [] {
      OneRow(n);
      assert l + [n] == [n];
    } else {
      RowTextGrows(l[1..], n);
      assert (l + [n])[1..] == l[1..] + [n];
      Grouped(Row(l[0]), RowText(l[1..]), Row(n));
    }
  }

  /** The page begins at the first network with a larger id than the one named, wherever that stands. */
  lemma {:induction false} BehindAt(l: seq<Net>, last: Option<int>) returns (k: nat)
    ensures k <= |l| && Behind(l, last) == l[k..]
    ensures last.None? ==> k == 0
    ensures last.Some? ==> (forall i :: 0 <= i < k ==> l[i].id <= last.value) && (k < |l| ==> l[k].id > last.value)
  {
    k := 0;
    if l != [] && last.Some? && l[0].id <= last.value {
      k := BehindAt(l[1..], last);
      k := k + 1;
    }
  }

  /** A page ends where the next row would not leave room for the terminator. */
  lemma {:induction false} FittingAt(l: seq<Net>, room: int) returns (k: nat)
    ensures k <= |l| && Fitting(l, room) == l[..k]
    ensures k > 0 ==> |RowText(l[..k])| < room
    ensures k < |l| ==> |RowText(l[..k + 1])| >= room
  {
    k := 0;
    if l != [] && |Row(l[0])| < room {
      k := FittingAt(l[1..], room - |Row(l[0])|);
      k := k + 1;
      HeadRow(l, k);
      if k < |l| {
        HeadRow(l, k + 1);
      }
    } else if l != [] {
      HeadRow(l, 1);
    }
  }

  lemma HeadRow(l: seq<Net>, k: nat)
    requires 1 <= k <= |l|
    ensures l[..k] == [l[0]] + l[1..][..k - 1]
    ensures RowText(l[..k]) == Row(l[0]) + RowText(l[1..][..k - 1])
  {
    assert l[..k][1..] == l[1..][..k - 1];
  }

  lemma HeaderIs()
    ensures HEADER == "network id / ssid / bssid / flags\n" && |HEADER| == 34
  {
  }

  /** The reply, by positions in the list: nothing if not even the header fits; else the header and the
      rows of `n` networks from the first one behind the id named, as many as fit with the terminator. */
  lemma PageExactly(l: seq<Net>, last: Option<int>, buflen: nat) returns (k: nat, n: nat)
    ensures k + n <= |l| && PageNets(l, last, buflen) == l[k..][..n]
    ensures last.None? ==> k == 0
    ensures last.Some? ==> (forall i :: 0 <= i < k ==> l[i].id <= last.value) && (k < |l| ==> l[k].id > last.value)
    ensures if buflen <= 34 then PageText(l, last, buflen) == ""
            else PageText(l, last, buflen) == "network id / ssid / bssid / flags\n" + RowText(l[k..][..n])
    ensures n > 0 ==> 34 + |RowText(l[k..][..n])| < buflen
    ensures k + n < |l| ==> 34 + |RowText(l[k..][..n + 1])| >= buflen
  {
    HeaderIs();
    k := BehindAt(l, last);
    n := FittingAt(l[k..], buflen - 34);
  }

  /** Only a command that begins right asks to go on, and not from -1. */
  lemma LastIdExactly(cmd: string, id: int, rest: string)
    requires NoDigit(rest)
    ensures LastIdOf(None) == None
    ensures !("LAST_ID=" <= cmd) ==> LastIdOf(Some(cmd)) == None
    ensures LastIdOf(Some("LAST_ID=" + (Decimal(id) + rest))) == if id == -1 then None else Some(id)
  {
    var asked := "LAST_ID=" + (Decimal(id) + rest);
    assert asked[|LAST_ID|..] == Decimal(id) + rest;
    AtoiDecimal(id, rest);
  }
}
