/** Frequency lists of the configuration as text: numbers separated by blanks. */
module FreqText {
  import opened Text

  function SkipBlanks(s: string): (r: string)
    ensures |r| <= |s|
  {
    if s != "" && s[0] == ' ' then SkipBlanks(s[1..]) else s
  }

  /** From the first blank on; the empty string if there is none. */
  function FromBlank(s: string): (r: string)
    ensures |r| <= |s|
  {
    if s == "" || s[0] == ' ' then s else FromBlank(s[1..])
  }

  /** What the parser reads: numbers, each looked for behind the next blank, up to the first zero. */
  function ParseInts(s: string): seq<int>
    decreases |s|
  {
    var t := SkipBlanks(s);
    var v := Atoi(t);
    if v == 0 || t == "" then []
    else
      var rest := FromBlank(t[1..]);
      if rest == "" then [v] else [v] + ParseInts(rest)
  }

  /** Positive numbers that a C int can hold. */
  predicate Positive(l: seq<int>) {
    forall i :: 0 <= i < |l| ==> 1 <= l[i] < 0x8000_0000
  }

  /** How a 32-bit int is printed as an unsigned one. */
  function Unsigned(x: int): (n: nat)
    ensures 0 <= x < 0x1_0000_0000 ==> n == x
  {
    x % 0x1_0000_0000
  }

  /** The text without regard to the size of the buffer. */
  function FullText(l: seq<int>): string {
    if l == [] then ""
    else if |l| == 1 then Digits(Unsigned(l[0]))
    else Digits(Unsigned(l[0])) + " " + FullText(l[1..])
  }

  /** The buffer has ten characters for each number, and one for the terminator. */
  function Room(l: seq<int>): nat {
    10 * |l|
  }

  /** What the buffer holds in the end: the text, or as much of it as there is room for. */
  function WrittenText(l: seq<int>): string {
    if |FullText(l)| <= Room(l) then FullText(l) else FullText(l)[..Room(l)]
  }

  // ----- reading back

  lemma {:induction false} FromBlankOfDigits(d: string, rest: string)
    requires (forall i :: 0 <= i < |d| ==> IsDigit(d[i])) && (rest == "" || rest[0] == ' ')
    ensures FromBlank(d + rest) == rest
  {
    if d == "" {
      assert d + rest == rest;
    } else {
      assert (d + rest)[1..] == d[1..] + rest;
      FromBlankOfDigits(d[1..], rest);
    }
  }

  lemma NumberUnsigned(s: string)
    requires s != "" && IsDigit(s[0])
    ensures Atoi(s) == Number(s, 0) && SkipBlanks(s) == s
  {
  }

  /** A positive number at the head of the text is read, and reading goes on behind it. */
  lemma ParseHead(n: nat, rest: string)
    requires n >= 1 && (rest == "" || rest[0] == ' ')
    ensures ParseInts(Digits(n) + rest) == [n] + if rest == "" then [] else ParseInts(rest)
  {
    var d := Digits(n);
    var s := d + rest;
    assert s[0] == d[0];
    NumberOfDigits(n, rest);
    NumberUnsigned(s);
    assert s[1..] == d[1..] + rest;
    FromBlankOfDigits(d[1..], rest);
  }

  /** Blanks before a number do not matter. */
  lemma ParseAfterBlank(s: string)
    ensures ParseInts(" " + s) == ParseInts(s)
  {
  }

  lemma ParseBeforeBlank(n: nat, more: string)
    requires n >= 1
    ensures ParseInts(Digits(n) + (" " + more)) == [n] + ParseInts(more)
  {
    ParseHead(n, " " + more);
    ParseAfterBlank(more);
  }

  lemma CutJoined(d: string, more: string, k: nat)
    requires k <= |more|
    ensures (d + " " + more)[..|d| + 1 + k] == d + (" " + more[..k])
    ensures k == |more| ==> d + " " + more == d + (" " + more)
  {
  }

  lemma {:induction false} ParseFullText(l: seq<int>)
    requires Positive(l)
    ensures ParseInts(FullText(l)) == l
  {
    if l != [] {
      TextParts(l);
      assert l == [l[0]] + l[1..];
      if |l| == 1 {
        ParseOne(l[0]);
      } else {
        ParseFullText(l[1..]);
        var d, more := Digits(l[0]), FullText(l[1..]);
        CutJoined(d, more, |more|);
        ParseBeforeBlank(l[0], more);
      }
    }
  }

  lemma ParseOne(n: nat)
    requires n >= 1
    ensures ParseInts(Digits(n)) == [n]
  {
    ParseHead(n, "");
    assert Digits(n) + "" == Digits(n);
  }

  lemma TextStartsWithDigit(l: seq<int>)
    requires l != []
    ensures FullText(l) != "" && IsDigit(FullText(l)[0])
  {
  }

  // ----- truncated text

  /** Fewer digits make a smaller number. */
  lemma {:induction false} FewerDigits(n: nat, k: nat)
    requires n >= 1 && k < |Digits(n)|
    ensures Number(Digits(n)[..k], 0) < n
  {
    var d := Digits(n);
    if n >= 10 {
      assert d[..|d| - 1] == Digits(n / 10);
      if k == |d| - 1 {
        NumberOfDigits(n / 10, "");
        assert Digits(n / 10) + "" == d[..k];
      } else {
        assert Digits(n / 10)[..k] == d[..k];
        FewerDigits(n / 10, k);
      }
    }
  }

  lemma {:induction false} FromBlankNone(d: string)
    requires forall i :: 0 <= i < |d| ==> IsDigit(d[i])
    ensures FromBlank(d) == ""
  {
    FromBlankOfDigits(d, "");
    assert d + "" == d;
  }

  /** A number cut short is not read as the number. */
  lemma CutNumber(n: nat, k: nat)
    requires n >= 1 && k < |Digits(n)|
    ensures var p := ParseInts(Digits(n)[..k]); |p| <= 1 && (|p| == 1 ==> p[0] < n)
  {
    var d := Digits(n)[..k];
    if k > 0 {
      FewerDigits(n, k);
      NumberUnsigned(d);
      FromBlankNone(d[1..]);
    }
  }

  /** No proper prefix of the text is read as the whole list. */
  lemma {:induction false} CutText(l: seq<int>, k: nat)
    requires Positive(l) && k < |FullText(l)|
    ensures ParseInts(FullText(l)[..k]) != l
  {
    var d, text := Digits(l[0]), FullText(l);
    if k <= |d| {
      CutHead(l, k);
    } else {
      var m := k - |d| - 1;
      TextParts(l);
      TextStartsWithDigit(l[1..]);
      CutText(l[1..], m);
      CutJoined(d, FullText(l[1..]), m);
      ParseBeforeBlank(l[0], FullText(l[1..])[..m]);
      OtherTail(l, ParseInts(FullText(l[1..])[..m]));
    }
  }

  lemma OtherTail(l: seq<int>, t: seq<int>)
    requires l != [] && t != l[1..]
    ensures [l[0]] + t != l
  {
    assert ([l[0]] + t)[1..] == t;
  }

  lemma TextParts(l: seq<int>)
    requires l != []
    ensures var d := Digits(Unsigned(l[0])); FullText(l) == if |l| == 1 then d else d + " " + FullText(l[1..])
  {
  }

  lemma CutHead(l: seq<int>, k: nat)
    requires Positive(l) && l != [] && k < |FullText(l)| && k <= |Digits(l[0])|
    ensures ParseInts(FullText(l)[..k]) != l
  {
    var d, text := Digits(l[0]), FullText(l);
    TextParts(l);
    if k < |d| {
      assert text[..k] == d[..k];
      CutNumber(l[0], k);
    } else {
      assert text[..k] == d + "";
      ParseHead(l[0], "");
    }
  }

  /** Reading back what was written gives the list again exactly when the text fits into the buffer. */
  lemma RoundTripIffRoom(l: seq<int>)
    requires Positive(l)
    ensures ParseInts(WrittenText(l)) == l <==> |FullText(l)| <= Room(l)
  {
    ParseFullText(l);
    if |FullText(l)| > Room(l) {
      CutText(l, Room(l));
    }
  }

  // ----- the range in which the buffer always suffices

  lemma {:induction false} NineDigitsFit(l: seq<int>)
    requires Positive(l) && forall i :: 0 <= i < |l| ==> l[i] < Pow10(9)
    ensures |FullText(l)| <= if l == [] then 0 else Room(l) - 1
  {
    if l != [] {
      DigitsBound(l[0], 9);
      NineDigitsFit(l[1..]);
    }
  }

  /** Lists of numbers below 10^9 always come back. */
  lemma RoundTrip(l: seq<int>)
    requires Positive(l) && forall i :: 0 <= i < |l| ==> l[i] < Pow10(9)
    ensures ParseInts(WrittenText(l)) == l
  {
    NineDigitsFit(l);
    RoundTripIffRoom(l);
  }

  /** Two numbers of ten digits do not. */
  lemma TenDigitsAreCut()
    ensures ParseInts(WrittenText([1000000000, 1000000000])) != [1000000000, 1000000000]
  {
    var n: nat := 1000000000;
    TenDigits(n);
    var l: seq<int> := [n, n];
    assert Unsigned(n) == n;
    assert FullText(l[1..]) == Digits(n);
    assert |FullText(l)| == 21;
    RoundTripIffRoom(l);
  }

  lemma TenDigits(n: nat)
    requires n == 1000000000
    ensures |Digits(n)| == 10
  {
  }

  // ----- other text

  /** What stands between a number and the next blank is not looked at. */
  lemma JunkIsSkipped(n: nat, junk: string, rest: string)
    requires n >= 1 && NoDigit(junk) && (forall i :: 0 <= i < |junk| ==> junk[i] != ' ')
    requires rest == "" || rest[0] == ' '
    ensures ParseInts(Digits(n) + (junk + rest)) == [n] + if rest == "" then [] else ParseInts(rest)
  {
    var d := Digits(n);
    var s := d + (junk + rest);
    assert s[0] == d[0];
    assert junk == "" ==> junk + rest == rest;
    NumberOfDigits(n, junk + rest);
    NumberUnsigned(s);
    assert s[1..] == (d[1..] + junk) + rest;
    NoBlank(d[1..] + junk, rest);
  }

  lemma {:induction false} NoBlank(d: string, rest: string)
    requires (forall i :: 0 <= i < |d| ==> d[i] != ' ') && (rest == "" || rest[0] == ' ')
    ensures FromBlank(d + rest) == rest
  {
    if d == "" {
      assert d + rest == rest;
    } else {
      assert (d + rest)[1..] == d[1..] + rest;
      NoBlank(d[1..], rest);
    }
  }

  /** A zero, or text that is no number, ends the list. */
  lemma ZeroEnds(s: string)
    requires Atoi(SkipBlanks(s)) == 0
    ensures ParseInts(s) == []
  {
  }

  /** The numbers are printed in order, with single blanks between them, and negative ones as the
      unsigned ones they are to the printer. */
  lemma {:induction false} TextGrows(l: seq<int>, n: int)
    requires -0x8000_0000 <= n < 0x8000_0000
    ensures var d := Decimal(if n < 0 then n + 0x1_0000_0000 else n);
            FullText(l + [n]) == if l == [] then d else FullText(l) + " " + d
  {
    var d := Decimal(if n < 0 then n + 0x1_0000_0000 else n);
    assert Digits(Unsigned(n)) == d;
    if l == [] {
      assert l + [n] == [n];
    } else {
      var u, first := l + [n], Digits(Unsigned(l[0]));
      TextGrows(l[1..], n);
      TextParts(l);
      TextParts(u);
      assert u[1..] == l[1..] + [n] && u[0] == l[0];
      if |l| > 1 {
        Grouped(first, FullText(l[1..]), d, FullText(u[1..]));
      }
    }
  }

  lemma Grouped(a: string, b: string, c: string, bc: string)
    requires bc == b + " " + c
    ensures a + " " + bc == a + " " + b + " " + c
  {
  }

  /** What is cut off is cut off behind ten characters for each number. */
  lemma CutExactly(l: seq<int>)
    ensures WrittenText(l) <= FullText(l)
    ensures |WrittenText(l)| == if |FullText(l)| <= 10 * |l| then |FullText(l)| else 10 * |l|
  {
  }
}
