/** Decimal numbers and hardware addresses as text, written and read back. */
module Text {
  import opened Wrappers
  import opened Elements

  predicate IsDigit(c: char) {
    '0' <= c <= '9'
  }

  function DigitChar(d: int): (c: char)
    requires 0 <= d < 10
    ensures IsDigit(c) && DigitValue(c) == d
  {
    '0' + (d as char)
  }

  function DigitValue(c: char): (d: int)
    requires IsDigit(c)
    ensures 0 <= d < 10
  {
    (c as int) - ('0' as int)
  }

  /** The decimal digits of a number, without leading zeros. */
  function Digits(n: nat): (s: string)
    ensures |s| >= 1 && forall i :: 0 <= i < |s| ==> IsDigit(s[i])
  {
    if n < 10 then [DigitChar(n)] else Digits(n / 10) + [DigitChar(n % 10)]
  }

  function Decimal(x: int): string {
    if x < 0 then "-" + Digits(-x) else Digits(x)
  }

  /** The value of the digits at the head of a string, put behind the digits of `acc`. */
  function Number(s: string, acc: nat): (v: int)
    ensures v >= 0
  {
    if s == "" || !IsDigit(s[0]) then acc else Number(s[1..], acc * 10 + DigitValue(s[0]))
  }

  predicate IsSpace(c: char) {
    c == ' ' || 9 <= c as int <= 13
  }

  function SkipSpaces(s: string): string {
    if s != "" && IsSpace(s[0]) then SkipSpaces(s[1..]) else s
  }

  /** The C library's conversion: white space, a sign, digits; what follows is not looked at. */
  function Atoi(s: string): int {
    var t := SkipSpaces(s);
    if t != "" && t[0] == '-' then -Number(t[1..], 0)
    else if t != "" && t[0] == '+' then Number(t[1..], 0)
    else Number(t, 0)
  }

  lemma {:induction false} NumberOfDigits(n: nat, rest: string)
    ensures Number(Digits(n) + rest, 0) == Number(rest, n)
  {
    if n < 10 {
      assert (Digits(n) + rest)[1..] == rest;
    } else {
      var d := [DigitChar(n % 10)] + rest;
      assert Digits(n) + rest == Digits(n / 10) + d;
      NumberOfDigits(n / 10, d);
      assert d[1..] == rest;
    }
  }

  /** Text that cannot prolong a number. */
  predicate NoDigit(rest: string) {
    rest == "" || !IsDigit(rest[0])
  }

  /** Reading back what was written, whatever follows it. */
  lemma AtoiDecimal(x: int, rest: string)
    requires NoDigit(rest)
    ensures Atoi(Decimal(x) + rest) == x
  {
    var n := if x < 0 then -x else x;
    NumberOfDigits(n, rest);
    var s := Digits(n) + rest;
    assert s[0] == Digits(n)[0] && IsDigit(s[0]);
    AtoiOfDigits(s);
    if x < 0 {
      assert Decimal(x) + rest == "-" + s;
    }
    assert Number(rest, n) == n;
  }

  lemma AtoiOfDigits(s: string)
    requires s != "" && IsDigit(s[0])
    ensures Atoi(s) == Number(s, 0) && Atoi("-" + s) == -Number(s, 0)
  {
  }

  /** White space before a number, and a plus sign, do not matter; where there is no number it is 0. */
  lemma {:induction false} AtoiSkips(space: string, s: string)
    requires forall i :: 0 <= i < |space| ==> space[i] == ' ' || 9 <= space[i] as int <= 13
    ensures Atoi(space + s) == Atoi(s)
  {
    if space == "" {
      assert space + s == s;
    } else {
      assert (space + s)[1..] == space[1..] + s;
      AtoiSkips(space[1..], s);
    }
  }

  lemma AtoiForms(n: nat, rest: string)
    requires NoDigit(rest)
    ensures Atoi("+" + (Digits(n) + rest)) == n
    ensures rest == "" || (rest[0] as int > 32 && rest[0] != '+' && rest[0] != '-') ==> Atoi(rest) == 0
  {
    NumberOfDigits(n, rest);
    assert ("+" + (Digits(n) + rest))[1..] == Digits(n) + rest;
  }

  function Pow10(k: nat): (p: nat)
    ensures p >= 1
  {
    if k == 0 then 1 else 10 * Pow10(k - 1)
  }

  lemma {:induction false} DigitsBound(n: nat, k: nat)
    requires k >= 1 && n < Pow10(k)
    ensures |Digits(n)| <= k
  {
    if n >= 10 {
      assert Pow10(1) == 10 && n / 10 < Pow10(k - 1);
      DigitsBound(n / 10, k - 1);
    }
  }

  // ----- hardware addresses

  function HexChar(d: int): char
    requires 0 <= d < 16
  {
    if d < 10 then '0' + (d as char) else 'a' + ((d - 10) as char)
  }

  /** The value of a hexadecimal digit in either case, or -1. */
  function HexValue(c: char): (v: int)
    ensures -1 <= v < 16
  {
    if '0' <= c <= '9' then (c as int) - ('0' as int)
    else if 'a' <= c <= 'f' then (c as int) - ('a' as int) + 10
    else if 'A' <= c <= 'F' then (c as int) - ('A' as int) + 10
    else -1
  }

  function HexOctet(b: Byte): string {
    [HexChar((b as int) / 16), HexChar((b as int) % 16)]
  }

  /** Octets in hexadecimal with colons between them. */
  function AddrText(a: Octets): (s: string)
    ensures |s| == if a == [] then 0 else 3 * |a| - 1
  {
    if a == [] then ""
    else if |a| == 1 then HexOctet(a[0])
    else HexOctet(a[0]) + ":" + AddrText(a[1..])
  }

  /** Reads `n` octets with colons between them from the head of a string. */
  function ReadAddr(s: string, n: nat): (r: Option<Octets>)
    ensures r.Some? ==> |r.value| == n
  {
    if n == 0 then Some([])
    else if |s| < 2 || HexValue(s[0]) < 0 || HexValue(s[1]) < 0 then None
    else
      var b: Byte := HexValue(s[0]) * 16 + HexValue(s[1]);
      if n == 1 then Some([b])
      else if |s| < 3 || s[2] != ':' then None
      else
        match ReadAddr(s[3..], n - 1)
        case None => None
        case Some(more) => Some([b] + more)
  }

  const ETH_ALEN := 6

  function HwaddrAton(s: string): Option<Octets> {
    ReadAddr(s, ETH_ALEN)
  }

  lemma {:induction false} ReadAddrText(a: Octets, rest: string)
    ensures ReadAddr(AddrText(a) + rest, |a|) == Some(a)
  {
    if |a| == 1 {
      assert a == [a[0]];
      ReadOctet(a[0], rest);
    } else if |a| > 1 {
      var t := AddrText(a[1..]) + rest;
      assert AddrText(a) + rest == HexOctet(a[0]) + (":" + t);
      ReadOctet(a[0], ":" + t);
      assert (HexOctet(a[0]) + (":" + t))[3..] == t;
      ReadAddrText(a[1..], rest);
      assert a == [a[0]] + a[1..];
    }
  }

  lemma ReadOctet(b: Byte, rest: string)
    ensures var s := HexOctet(b) + rest;
            && HexValue(s[0]) >= 0 && HexValue(s[1]) >= 0 && HexValue(s[0]) * 16 + HexValue(s[1]) == b as int
            && (rest != "" ==> s[2] == rest[0])
  {
  }

  predicate NoBreak(s: string) {
    forall i :: 0 <= i < |s| ==> s[i] != '\n'
  }

  lemma {:induction false} AddrTextNoBreak(a: Octets)
    ensures NoBreak(AddrText(a))
  {
    if |a| > 1 {
      AddrTextNoBreak(a[1..]);
    }
  }

  // ----- printable text

  /** An octet in printable form. */
  function Printable(b: Byte): (s: string)
    ensures 1 <= |s| <= 4 && NoBreak(s)
  {
    if b == 34 then "\\\""
    else if b == 92 then "\\\\"
    else if b == 27 then "\\e"
    else if b == 10 then "\\n"
    else if b == 13 then "\\r"
    else if b == 9 then "\\t"
    else if 32 <= b <= 126 then [b as char]
    else "\\x" + HexOctet(b)
  }

  /** Octets are printed as long as there is room for the longest form and a terminator. */
  function PrintfEncode(data: Octets, room: int): (s: string)
    ensures NoBreak(s)
    decreases |data|
  {
    if data == [] || room <= 4 then "" else Printable(data[0]) + PrintfEncode(data[1..], room - |Printable(data[0])|)
  }

  const SSID_TXT_SIZE := 32 * 4 + 1

  function SsidTxt(ssid: Option<Octets>): (s: string)
    ensures NoBreak(s)
  {
    if ssid.None? then "" else PrintfEncode(ssid.value, SSID_TXT_SIZE)
  }

  function AllPrintable(data: Octets): string {
    if data == [] then "" else Printable(data[0]) + AllPrintable(data[1..])
  }

  /** Nothing is cut off where there is room for the longest form of every octet. */
  lemma {:induction false} NotCut(data: Octets, room: int)
    requires room > 4 * |data|
    ensures PrintfEncode(data, room) == AllPrintable(data)
    decreases |data|
  {
    if data != [] {
      NotCut(data[1..], room - |Printable(data[0])|);
    }
  }

  /** The text of an SSID is always whole. */
  lemma SsidTxtIsWhole(ssid: Octets)
    requires |ssid| <= 32
    ensures SsidTxt(Some(ssid)) == AllPrintable(ssid)
  {
    NotCut(ssid, SSID_TXT_SIZE);
  }

  /** The printable form tells the octet, whatever follows it. */
  lemma PrintableTells(a: Byte, b: Byte, r: string, r': string)
    requires Printable(a) + r == Printable(b) + r'
    ensures a == b && r == r'
  {
    var p, q := Printable(a) + r, Printable(b) + r';
    assert p[0] == Printable(a)[0] && q[0] == Printable(b)[0];
    if |Printable(a)| > 1 && |Printable(b)| > 1 {
      assert p[1] == Printable(a)[1] && q[1] == Printable(b)[1];
      if |Printable(a)| == 4 && |Printable(b)| == 4 {
        assert p[2] == Printable(a)[2] && q[2] == Printable(b)[2];
        assert p[3] == Printable(a)[3] && q[3] == Printable(b)[3];
      }
    }
    assert p[|Printable(a)|..] == r && q[|Printable(b)|..] == r';
  }

  /** So the printable text of an SSID tells the SSID. */
  lemma {:induction false} PrintableUnique(a: Octets, b: Octets)
    requires AllPrintable(a) == AllPrintable(b)
    ensures a == b
  {
    if a != [] && b != [] {
      PrintableTells(a[0], b[0], AllPrintable(a[1..]), AllPrintable(b[1..]));
      PrintableUnique(a[1..], b[1..]);
      assert a == [a[0]] + a[1..] && b == [b[0]] + b[1..];
    }
  }

  /** Octets that can be printed stand for themselves, but for the quote and the backslash; the others
      are escaped. */
  lemma PrintableForms(b: Byte)
    ensures 32 <= b <= 126 && b != 34 && b != 92 ==> Printable(b) == [b as char]
    ensures b == 34 || b == 92 ==> Printable(b) == ['\\', b as char]
    ensures b == 9 ==> Printable(b) == ['\\', 't']
    ensures b == 10 ==> Printable(b) == ['\\', 'n']
    ensures b == 13 ==> Printable(b) == ['\\', 'r']
    ensures b == 27 ==> Printable(b) == ['\\', 'e']
    ensures (b < 32 || b > 126) && b != 9 && b != 10 && b != 13 && b != 27 ==>
              |Printable(b)| == 4 && Printable(b)[..2] == ['\\', 'x']
              && HexValue(Printable(b)[2]) * 16 + HexValue(Printable(b)[3]) == b as int
  {
  }

  // ----- the written forms

  lemma HexForms(c: char)
    ensures HexValue('0') == 0 && HexValue('9') == 9 && HexValue('a') == 10 && HexValue('f') == 15
    ensures HexValue('A') == 10 && HexValue('F') == 15
    ensures HexValue(c) >= 0 <==> '0' <= c <= '9' || 'a' <= c <= 'f' || 'A' <= c <= 'F'
  {
  }

  /** A string that begins with `n` octets of two hexadecimal digits with colons between them. */
  ghost predicate IsAddr(s: string, n: nat) {
    && 3 * n <= |s| + 1
    && (forall k :: 0 <= k < n ==> HexValue(s[3 * k]) >= 0 && HexValue(s[3 * k + 1]) >= 0)
    && forall k :: 0 < k < n ==> s[3 * k - 1] == ':'
  }

  /** Exactly these strings are read as addresses, and the digits are their octets. */
  lemma {:induction false} ReadAddrExactly(s: string, n: nat)
    ensures ReadAddr(s, n).Some? <==> IsAddr(s, n)
    ensures IsAddr(s, n) ==>
              forall k :: 0 <= k < n ==>
                ReadAddr(s, n).value[k] as int == HexValue(s[3 * k]) * 16 + HexValue(s[3 * k + 1])
    decreases n
  {
    if n > 1 && |s| > 2 {
      ReadAddrExactly(s[3..], n - 1);
      AddrFirst(s, n);
      var r := ReadAddr(s, n);
      if IsAddr(s, n) {
        forall k | 0 <= k < n ensures r.value[k] as int == HexValue(s[3 * k]) * 16 + HexValue(s[3 * k + 1]) {
          if k > 0 {
            AddrShift(s, k);
            assert r.value[k] == ReadAddr(s[3..], n - 1).value[k - 1];
          }
        }
      }
    } else if n == 1 {
      AddrOne(s);
    }
  }

  lemma AddrOne(s: string)
    ensures IsAddr(s, 1) <==> |s| >= 2 && HexValue(s[0]) >= 0 && HexValue(s[1]) >= 0
  {
    if IsAddr(s, 1) {
      assert HexValue(s[3 * 0]) >= 0 && HexValue(s[3 * 0 + 1]) >= 0;
    }
  }

  lemma AddrShift(s: string, k: nat)
    requires k >= 1 && 3 * k < |s|
    ensures s[3..][3 * (k - 1)] == s[3 * k] && (k > 1 ==> s[3..][3 * (k - 1) - 1] == s[3 * k - 1])
    ensures 3 * k + 1 < |s| ==> s[3..][3 * (k - 1) + 1] == s[3 * k + 1]
  {
  }

  lemma AddrFirst(s: string, n: nat)
    requires n > 1 && |s| > 2
    ensures IsAddr(s, n) <==>
              HexValue(s[0]) >= 0 && HexValue(s[1]) >= 0 && s[2] == ':' && IsAddr(s[3..], n - 1)
  {
    var t := s[3..];
    if IsAddr(s, n) {
      assert HexValue(s[3 * 0]) >= 0 && s[3 * 1 - 1] == ':';
      forall k | 0 <= k < n - 1 ensures HexValue(t[3 * k]) >= 0 && HexValue(t[3 * k + 1]) >= 0 {
        assert HexValue(s[3 * (k + 1)]) >= 0 && HexValue(s[3 * (k + 1) + 1]) >= 0;
      }
      forall k | 0 < k < n - 1 ensures t[3 * k - 1] == ':' {
        assert s[3 * (k + 1) - 1] == ':';
      }
    }
    if HexValue(s[0]) >= 0 && HexValue(s[1]) >= 0 && s[2] == ':' && IsAddr(t, n - 1) {
      forall k | 0 <= k < n ensures HexValue(s[3 * k]) >= 0 && HexValue(s[3 * k + 1]) >= 0 {
        if k > 0 {
          AddrShift(s, k);
          assert HexValue(t[3 * (k - 1)]) >= 0 && HexValue(t[3 * (k - 1) + 1]) >= 0;
        }
      }
      forall k | 0 < k < n ensures s[3 * k - 1] == ':' {
        if k > 1 {
          AddrShift(s, k);
          assert t[3 * (k - 1) - 1] == ':';
        }
      }
    }
  }

  lemma DecimalForms()
    ensures Decimal(0) == "0" && Decimal(7) == "7" && Decimal(2412) == "2412" && Decimal(-120) == "-120"
  {
    assert Digits(1) == ['1'] && Digits(12) == Digits(1) + ['2'] && Digits(120) == Digits(12) + ['0'];
    assert Digits(2) == ['2'] && Digits(24) == Digits(2) + ['4'];
    assert Digits(241) == Digits(24) + ['1'] && Digits(2412) == Digits(241) + ['2'];
  }

  lemma AddrForm()
    ensures AddrText([0, 171, 255]) == "00:ab:ff"
  {
    var a: Octets := [0, 171, 255];
    assert a[1..] == [171, 255] && a[1..][1..] == [255];
    assert AddrText([255]) == "ff";
    assert AddrText(a[1..]) == "ab:ff";
  }
}
