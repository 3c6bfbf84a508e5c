/** What the learning background scan keeps: for each access point of the network its frequency and
    the addresses seen together with it. */
module LearnModel {
  import opened Wrappers
  import opened Elements
  import opened Text
  import opened TextFile
  import opened BssModel

  const MAX_BSS := 50

  datatype Node = Node(bssid: Octets, freq: int, neigh: seq<Octets>)

  // ----- single entries

  function AddNeighbor(n: Node, addr: Octets): Node {
    if addr == n.bssid || addr in n.neigh then n else n.(neigh := n.neigh + [addr])
  }

  function AddNeighbors(n: Node, addrs: seq<Octets>): Node
    decreases |addrs|
  {
    if addrs == [] then n else AddNeighbors(AddNeighbor(n, addrs[0]), addrs[1..])
  }

  /** The position of the first entry with this address, or the length of the list. */
  function Index(l: seq<Node>, bssid: Octets): (k: nat)
    ensures k <= |l| && (k < |l| ==> l[k].bssid == bssid)
    ensures forall j :: 0 <= j < k ==> l[j].bssid != bssid
  {
    if l == [] then 0 else if l[0].bssid == bssid then 0 else 1 + Index(l[1..], bssid)
  }

  // ----- scan results

  predicate Matches(ssid: Octets, res: ScanRes) {
    FirstData(ScanElements(res), SSID_ELEMENT) == Some(ssid)
  }

  function Matching(ssid: Octets, results: seq<ScanRes>): seq<ScanRes> {
    if results == [] then []
    else (if Matches(ssid, results[0]) then [results[0]] else []) + Matching(ssid, results[1..])
  }

  /** The addresses of the first matching results; only so many are taken. */
  function FirstAddrs(matching: seq<ScanRes>): seq<Octets> {
    var n := if |matching| < MAX_BSS then |matching| else MAX_BSS;
    seq(n, i requires 0 <= i < |matching| => matching[i].bssid)
  }

  /** One matching result: its entry is found or put at the front, and gets the neighbours. */
  function Learn(l: seq<Node>, res: ScanRes, addrs: seq<Octets>): seq<Node> {
    var k := Index(l, res.bssid);
    if k < |l| then l[k := AddNeighbors(l[k].(freq := res.fields.freq), addrs)]
    else [AddNeighbors(Node(res.bssid, res.fields.freq, []), addrs)] + l
  }

  function LearnAll(l: seq<Node>, matching: seq<ScanRes>, addrs: seq<Octets>): seq<Node>
    decreases |matching|
  {
    if matching == [] then l else LearnAll(Learn(l, matching[0], addrs), matching[1..], addrs)
  }

  function NotifyScan(l: seq<Node>, ssid: Octets, results: seq<ScanRes>): seq<Node> {
    LearnAll(l, Matching(ssid, results), FirstAddrs(Matching(ssid, results)))
  }

  // ----- the data file, line by line

  const HEADER := "wpa_supplicant-bgscan-learn\n"

  function BssLine(n: Node): string {
    "BSS " + AddrText(n.bssid) + " " + Decimal(n.freq) + "\n"
  }

  function NeighborLine(bssid: Octets, addr: Octets): string {
    "NEIGHBOR " + AddrText(bssid) + " " + AddrText(addr) + "\n"
  }

  function BssLines(l: seq<Node>): seq<string> {
    if l == [] then [] else [BssLine(l[0])] + BssLines(l[1..])
  }

  function LinesOf(bssid: Octets, neigh: seq<Octets>): seq<string> {
    if neigh == [] then [] else [NeighborLine(bssid, neigh[0])] + LinesOf(bssid, neigh[1..])
  }

  function NeighborLines(l: seq<Node>): seq<string> {
    if l == [] then [] else LinesOf(l[0].bssid, l[0].neigh) + NeighborLines(l[1..])
  }

  function SavedLines(l: seq<Node>): seq<string> {
    [HEADER] + BssLines(l) + NeighborLines(l)
  }

  /** The text of the data file. */
  function Save(l: seq<Node>): string {
    Joined(SavedLines(l))
  }

  function From(s: string, i: nat): string {
    if i <= |s| then s[i..] else ""
  }

  /** One line, as it stands in the reading buffer; behind its end is what the lines before left. */
  function LoadLine(l: seq<Node>, line: string): seq<Node> {
    if "BSS " <= line then
      match HwaddrAton(From(line, 4))
      case None => l
      case Some(bssid) => [Node(bssid, Atoi(From(line, 22)), [])] + l
    else if "NEIGHBOR " <= line then
      match HwaddrAton(From(line, 9))
      case None => l
      case Some(bssid) =>
        var k := Index(l, bssid);
        if k == |l| then l
        else
          match HwaddrAton(From(line, 27))
          case None => l
          case Some(addr) => l[k := AddNeighbor(l[k], addr)]
    else l
  }

  function LoadLines(l: seq<Node>, lines: seq<string>): seq<Node>
    decreases |lines|
  {
    if lines == [] then l else LoadLines(LoadLine(l, lines[0]), lines[1..])
  }

  lemma LoadOneMore(l: seq<Node>, line: string, more: seq<string>)
    ensures LoadLines(l, [line] + more) == LoadLines(LoadLine(l, line), more)
  {
    assert ([line] + more)[1..] == more;
  }

  /** None stands for a file that is not a data file of this module. `buf` is what the reading buffer
      happens to hold at first. */
  function Load(l: seq<Node>, buf: string, text: string): Option<seq<Node>>
    requires |buf| == BUF_SIZE
  {
    var bufs := Buffers(buf, Chunks(text));
    if bufs == [] || !(HEADER <= bufs[0]) then None else Some(LoadLines(l, bufs[1..]))
  }
}
