/** Information elements of Beacon and Probe Response frames
    (section 9.4.2.1 of IEEE Std 802.11-2016) and the vendor-specific lookups on them. */
module Elements {
  import opened Wrappers

  type Byte = b: int | 0 <= b < 256
  type Octets = seq<Byte>

  const VENDOR_SPECIFIC: Byte := 221
  const SSID_ELEMENT: Byte := 0
  const MESH_ID: Byte := 114
  const P2P_IE_VENDOR_TYPE := 0x506f9a09

  datatype Element = Element(id: Byte, data: Octets)

  /** The length of the element at the head of a buffer, with its two octets of header. */
  function ElementLen(buf: Octets): nat
    requires |buf| >= 2
  {
    2 + (buf[1] as int)
  }

  /** No complete element is left: the walk over the buffer stops here. */
  predicate Incomplete(buf: Octets) {
    |buf| < 2 || |buf| < ElementLen(buf)
  }

  function Parse(buf: Octets): (es: seq<Element>) {
    if Incomplete(buf) then []
    else [Element(buf[0], buf[2..ElementLen(buf)])] + Parse(buf[ElementLen(buf)..])
  }

  function Rest(buf: Octets): (rest: Octets)
    ensures Incomplete(rest)
  {
    if Incomplete(buf) then buf else Rest(buf[ElementLen(buf)..])
  }

  predicate WellFormed(es: seq<Element>) {
    forall i :: 0 <= i < |es| ==> |es[i].data| < 256
  }

  function Encode(es: seq<Element>): Octets
    requires WellFormed(es)
  {
    if es == [] then [] else [es[0].id, |es[0].data|] + es[0].data + Encode(es[1..])
  }

  /** The first element of an encoding is read back, and the walk goes on behind it. */
  lemma ParseHead(e: Element, more: Octets)
    requires |e.data| < 256
    ensures var buf := [e.id, |e.data|] + e.data + more;
            !Incomplete(buf) && Parse(buf) == [e] + Parse(more) && Rest(buf) == Rest(more)
  {
  }

  /** Well-formed elements followed by an incomplete tail parse back to those elements. */
  lemma {:induction false} ParseEncode(es: seq<Element>, tail: Octets)
    requires WellFormed(es) && Incomplete(tail)
    ensures Parse(Encode(es) + tail) == es && Rest(Encode(es) + tail) == tail
  {
    if es == [] {
      assert Encode(es) + tail == tail;
    } else {
      var more := Encode(es[1..]) + tail;
      ParseEncode(es[1..], tail);
      ParseHead(es[0], more);
      assert Encode(es) + tail == [es[0].id, |es[0].data|] + es[0].data + more;
    }
  }

  lemma EncodeCons(e: Element, es: seq<Element>)
    requires |e.data| < 256 && WellFormed(es)
    ensures WellFormed([e] + es)
    ensures Encode([e] + es) == [e.id, |e.data|] + e.data + Encode(es)
  {
  }

  lemma Regroup(buf: Octets, n: nat, a: Octets, b: Octets)
    requires 2 <= n <= |buf| && a + b == buf[n..]
    ensures [buf[0], buf[1]] + buf[2..n] + a + b == buf
  {
  }

  /** Every buffer is the encoding of its elements followed by its incomplete tail. */
  lemma {:induction false} EncodeParse(buf: Octets)
    ensures WellFormed(Parse(buf))
    ensures Encode(Parse(buf)) + Rest(buf) == buf
  {
    if !Incomplete(buf) {
      var n := ElementLen(buf);
      EncodeParse(buf[n..]);
      EncodeCons(Element(buf[0], buf[2..n]), Parse(buf[n..]));
      Regroup(buf, n, Encode(Parse(buf[n..])), Rest(buf));
    }
  }

  function Be32(d: Octets): nat
    requires |d| >= 4
  {
    (d[0] as int) * 0x1000000 + (d[1] as int) * 0x10000 + (d[2] as int) * 0x100 + (d[3] as int)
  }

  /** The first octet counts most. */
  lemma Be32IsBigEndian(d: Octets, e: Octets)
    requires |d| >= 4 && |e| >= 4
    ensures Be32(d) < Be32(e)
            <==> || d[0] < e[0] || (d[0] == e[0] && (d[1] < e[1] || (d[1] == e[1] && (d[2] < e[2] ||
                    (d[2] == e[2] && d[3] < e[3])))))
    ensures Be32(d) < 0x1_0000_0000
  {
  }

  /** The type of P2P elements. */
  lemma P2pType(d: Octets)
    requires |d| >= 4
    ensures Be32(d) == P2P_IE_VENDOR_TYPE <==> d[0] == 0x50 && d[1] == 0x6f && d[2] == 0x9a && d[3] == 9
  {
  }

  predicate IsVendor(e: Element, vendorType: nat) {
    e.id == VENDOR_SPECIFIC && |e.data| >= 4 && Be32(e.data) == vendorType
  }

  /** What follows the four octets of the type in a matching element. */
  function PartOf(e: Element, vendorType: nat): (part: Octets)
    ensures |part| <= |e.data|
  {
    if IsVendor(e, vendorType) then e.data[4..] else []
  }

  /** The payloads after the four-octet type of all matching elements, in order. */
  function Payload(es: seq<Element>, vendorType: nat): Octets {
    if es == [] then []
    else PartOf(es[0], vendorType) + Payload(es[1..], vendorType)
  }

  predicate HasVendor(es: seq<Element>, vendorType: nat) {
    exists e :: e in es && IsVendor(e, vendorType)
  }

  /** The data of the first element with the given identifier. */
  function FirstData(es: seq<Element>, id: Byte): Option<Octets> {
    if es == [] then None
    else if es[0].id == id then Some(es[0].data)
    else FirstData(es[1..], id)
  }

  /** A fixed-size buffer; writing beyond its end is a programming error. */
  class WpaBuf {
    var buf: array<Byte>
    var used: nat

    ghost predicate Valid()
      reads this
    {
      used <= buf.Length
    }

    ghost function Contents(): Octets
      reads this, buf
      requires Valid()
    {
      buf[..used]
    }

    constructor (size: nat)
      ensures Valid() && fresh(buf) && buf.Length == size && Contents() == []
    {
      buf := new Byte[size](_ => 0);
      used := 0;
    }

    method PutData(data: Octets)
      requires Valid() && used + |data| <= buf.Length
      modifies this`used, buf
      ensures Valid() && Contents() == old(Contents()) + data
    {
      forall i | 0 <= i < |data| {
        buf[used + i] := data[i];
      }
      used := used + |data|;
    }
  }

  lemma PayloadStep(ies: Octets, pos: nat, vendorType: nat)
    requires pos <= |ies| && !Incomplete(ies[pos..])
    ensures pos + ElementLen(ies[pos..]) <= |ies|
    ensures var next := pos + ElementLen(ies[pos..]);
            var e := Element(ies[pos], ies[pos + 2..next]);
            Payload(Parse(ies[pos..]), vendorType) == PartOf(e, vendorType) + Payload(Parse(ies[next..]), vendorType)
  {
    var s := ies[pos..];
    assert s[2..ElementLen(s)] == ies[pos + 2..pos + ElementLen(s)];
    assert s[ElementLen(s)..] == ies[pos + ElementLen(s)..];
    assert Parse(s)[1..] == Parse(s[ElementLen(s)..]);
  }

  /** What the walk has put so far, together with what it has still to find, is the whole payload. */
  ghost predicate Progress(ies: Octets, vendorType: nat, pos: nat, contents: Octets) {
    && pos <= |ies| && |contents| <= pos
    && contents + Payload(Parse(ies[pos..]), vendorType) == Payload(Parse(ies), vendorType)
  }

  lemma Associative(a: Octets, b: Octets, c: Octets)
    ensures (a + b) + c == a + (b + c)
  {
  }

  lemma Advance(ies: Octets, vendorType: nat, pos: nat, next: nat, data: Octets, contents: Octets)
    requires Progress(ies, vendorType, pos, contents) && IsNext(ies, pos, next, data)
    ensures Progress(ies, vendorType, next, contents + PartOf(Element(ies[pos], data), vendorType))
  {
    PayloadStep(ies, pos, vendorType);
    Regrouped(contents, PartOf(Element(ies[pos], data), vendorType),
              Payload(Parse(ies[next..]), vendorType), Payload(Parse(ies[pos..]), vendorType));
  }

  /** The data of the element at a position, up to the next one. */
  ghost predicate IsNext(ies: Octets, pos: nat, next: nat, data: Octets) {
    |ies| - pos > 1 && next == pos + 2 + (ies[pos + 1] as int) && next <= |ies| && data == ies[pos + 2..next]
  }

  lemma Regrouped(a: Octets, b: Octets, c: Octets, bc: Octets)
    requires bc == b + c
    ensures (a + b) + c == a + bc
  {
  }

  lemma AdvanceBy(ies: Octets, vendorType: nat, pos: nat, next: nat, data: Octets, contents: Octets)
    returns (more: Octets)
    requires Progress(ies, vendorType, pos, contents) && IsNext(ies, pos, next, data)
    ensures Progress(ies, vendorType, next, more)
    ensures more == if ies[pos] == VENDOR_SPECIFIC && |data| >= 4 && vendorType == Be32(data)
                    then contents + data[4..] else contents
  {
    Advance(ies, vendorType, pos, next, data, contents);
    more := contents + PartOf(Element(ies[pos], data), vendorType);
    NothingMore(contents);
  }

  lemma NothingMore(a: Octets)
    ensures a + [] == a
  {
  }

  lemma AdvanceTo(ies: Octets, vendorType: nat, pos: nat, next: nat, contents: Octets) returns (more: Octets)
    requires Progress(ies, vendorType, pos, contents)
    requires |ies| - pos > 1 && next == pos + 2 + (ies[pos + 1] as int) && next <= |ies|
    ensures Progress(ies, vendorType, next, more)
    ensures more == if ies[pos] == VENDOR_SPECIFIC && ies[pos + 1] >= 4 && vendorType == Be32(ies[pos + 2..next])
                    then contents + ies[pos + 6..next] else contents
  {
    var data := ies[pos + 2..next];
    more := AdvanceBy(ies, vendorType, pos, next, data, contents);
    if |data| >= 4 {
      assert data[4..] == ies[pos + 6..next];
    }
  }

  lemma NothingSeen(ies: Octets, vendorType: nat)
    ensures Progress(ies, vendorType, 0, [])
  {
  }

  lemma AllSeen(ies: Octets, vendorType: nat, pos: nat, contents: Octets)
    requires Progress(ies, vendorType, pos, contents)
    requires |ies| - pos <= 1 || ies[pos + 1] as int > |ies| - pos - 2
    ensures contents == Payload(Parse(ies), vendorType)
  {
  }

  /** The walk that reads identifier and length before it steps over them. */
  method GetVendorIeMulti(ies: Octets, vendorType: nat) returns (buf: WpaBuf?)
    ensures buf == null <==> Payload(Parse(ies), vendorType) == []
    ensures buf != null ==> fresh(buf) && buf.Valid() && buf.buf.Length == |ies|
                            && buf.Contents() == Payload(Parse(ies), vendorType)
  {
    var out := new WpaBuf(|ies|);
    var pos := 0;
    ghost var done: Octets := [];
    NothingSeen(ies, vendorType);
    while |ies| - pos > 1
      invariant out.Valid() && fresh(out) && fresh(out.buf) && out.buf.Length == |ies|
      invariant out.Contents() == done && Progress(ies, vendorType, pos, done)
    {
      var ie, len := ies[pos], ies[pos + 1] as int;
      if len > |ies| - pos - 2 {
        break;
      }
      var next := pos + 2 + len;
      var data := ies[pos + 2..next];
      done := AdvanceBy(ies, vendorType, pos, next, data, done);
      if ie == VENDOR_SPECIFIC && len >= 4 && vendorType == Be32(data) {
        out.PutData(data[4..]);
      }
      pos := next;
    }
    AllSeen(ies, vendorType, pos, done);
    buf := if out.used == 0 then null else out;
  }

  /** The walk that keeps its position on the element until the element has been handled. */
  method GetVendorIeMultiBeacon(ies: Octets, vendorType: nat) returns (buf: WpaBuf?)
    ensures buf == null <==> Payload(Parse(ies), vendorType) == []
    ensures buf != null ==> fresh(buf) && buf.Valid() && buf.buf.Length == |ies|
                            && buf.Contents() == Payload(Parse(ies), vendorType)
  {
    var out := new WpaBuf(|ies|);
    var pos := 0;
    ghost var done: Octets := [];
    NothingSeen(ies, vendorType);
    while |ies| - pos > 1
      invariant out.Valid() && fresh(out) && fresh(out.buf) && out.buf.Length == |ies|
      invariant out.Contents() == done && Progress(ies, vendorType, pos, done)
    {
      var next := pos + 2 + (ies[pos + 1] as int);
      if next > |ies| {
        break;
      }
      done := AdvanceTo(ies, vendorType, pos, next, done);
      if ies[pos] == VENDOR_SPECIFIC && ies[pos + 1] >= 4 && vendorType == Be32(ies[pos + 2..next]) {
        out.PutData(ies[pos + 6..next]);
      }
      pos := next;
    }
    AllSeen(ies, vendorType, pos, done);
    buf := if out.used == 0 then null else out;
  }

  /** The collected payload of an encoded buffer depends on its elements only. */
  lemma PayloadOfEncoding(es: seq<Element>, tail: Octets, vendorType: nat)
    requires WellFormed(es) && Incomplete(tail)
    ensures Payload(Parse(Encode(es) + tail), vendorType) == Payload(es, vendorType)
  {
    ParseEncode(es, tail);
  }

  lemma {:induction false} PayloadConcat(a: seq<Element>, b: seq<Element>, vendorType: nat)
    ensures Payload(a + b, vendorType) == Payload(a, vendorType) + Payload(b, vendorType)
  {
    if a == [] {
      assert a + b == b;
    } else {
      assert (a + b)[1..] == a[1..] + b;
      PayloadConcat(a[1..], b, vendorType);
      Associative(PartOf(a[0], vendorType), Payload(a[1..], vendorType), Payload(b, vendorType));
    }
  }

  /** Of a vendor-specific element, 221, that begins with the four octets of the type, what follows
      them; of any other element, nothing. */
  lemma PayloadOfOne(e: Element, vendor: Octets)
    requires |vendor| == 4
    ensures Payload([e], Be32(vendor)) == if e.id == 221 && vendor <= e.data then e.data[4..] else []
  {
    if |e.data| >= 4 {
      Be32IsBigEndian(e.data, vendor);
      Be32IsBigEndian(vendor, e.data);
      assert vendor <= e.data <==> vendor == e.data[..4];
    }
    assert [e][1..] == [];
  }

  /** Nothing is collected exactly when every matching element carries only its type. */
  lemma {:induction false} PayloadEmpty(es: seq<Element>, vendorType: nat)
    ensures Payload(es, vendorType) == []
            <==> forall e :: e in es && IsVendor(e, vendorType) ==> |e.data| == 4
  {
    if es != [] {
      PayloadEmpty(es[1..], vendorType);
      assert forall e :: e in es <==> e == es[0] || e in es[1..];
    }
  }
}
