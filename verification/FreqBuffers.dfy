/** The growing array of the parser and the fixed buffer of the writer. */
module FreqBuffers {
  import opened Text
  import opened FreqText
  import opened Probing

  // ----- the parser

  lemma ParseStep(s: string)
    ensures var t := SkipBlanks(s); var v := Atoi(t);
            ParseInts(s) == if v == 0 then []
                            else if FromBlank(t[1..]) == "" then [v] else [v] + ParseInts(FromBlank(t[1..]))
    ensures SkipBlanks(s) == "" ==> Atoi(SkipBlanks(s)) == 0
  {
  }

  /** All places from `used` on hold zero, up to the one kept for the terminator. */
  ghost predicate ZeroFrom(a: array<int>, used: nat)
    reads a
  {
    forall k :: used <= k < a.Length ==> a[k] == 0
  }

  /** The array has room for `len` numbers and a terminator, and holds the given ones. */
  ghost predicate Holds(a: array<int>, len: nat, used: nat, l: seq<int>)
    reads a
  {
    a.Length == len + 1 && used <= len && len >= 1 && a[..used] == l && ZeroFrom(a, used)
  }

  /** Makes room for one more number: a full array is moved to one for twice as many. */
  method EnsureRoom(a: array<int>, len: nat, used: nat, ghost l: seq<int>) returns (n: array<int>, len': nat)
    requires Holds(a, len, used, l)
    ensures Holds(n, len', used, l) && used < len' && (n == a || fresh(n))
  {
    n, len' := a, len;
    if used == len {
      n := new int[2 * len + 1](_ => 0);
      forall i | 0 <= i < len {
        n[i] := a[i];
      }
      len' := 2 * len;
      assert n[..used] == a[..used];
    }
  }

  method Store(a: array<int>, len: nat, used: nat, v: int, ghost l: seq<int>)
    requires Holds(a, len, used, l) && used < len
    modifies a
    ensures Holds(a, len, used, l) || v != 0
    ensures v != 0 ==> Holds(a, len, used + 1, l + [v])
  {
    a[used] := v;
    assert a[..used] == l;
  }

  /** Reads the numbers into a zero-terminated array that grows as needed. */
  method ParseIntArray(value: string) returns (freqs: array<int>, used: nat)
    ensures fresh(freqs) && used < freqs.Length && ZeroFrom(freqs, used)
    ensures freqs[..used] == ParseInts(value) && NonZero(freqs[..used])
  {
    used := 0;
    var len: nat := 10;
    freqs := new int[len + 1](_ => 0);
    ghost var l: seq<int> := [];
    var pos, go := value, true;
    assert [] + ParseInts(pos) == ParseInts(value);
    while go
      invariant fresh(freqs) && Holds(freqs, len, used, l)
      invariant Parsed(value, pos, go, l)
      decreases go, |pos|
    {
      ParseOn(value, pos, l);
      var t := SkipBlanks(pos);
      freqs, len := EnsureRoom(freqs, len, used, l);
      var v := Atoi(t);
      Store(freqs, len, used, v, l);
      if v == 0 {
        go := false;
      } else {
        used := used + 1;
        pos := FromBlank(t[1..]);
        go := pos != "";
        l := l + [v];
      }
    }
  }

  /** The numbers read so far, followed by those still to be read, are all. */
  ghost predicate Parsed(value: string, pos: string, go: bool, l: seq<int>) {
    NonZero(l) && l + (if go then ParseInts(pos) else []) == ParseInts(value)
  }

  lemma ParseOn(value: string, pos: string, l: seq<int>)
    requires Parsed(value, pos, true, l)
    ensures var t := SkipBlanks(pos);
            var v := Atoi(t);
            if v == 0 then Parsed(value, pos, false, l)
            else t != "" && |FromBlank(t[1..])| < |pos|
                 && Parsed(value, FromBlank(t[1..]), FromBlank(t[1..]) != "", l + [v])
  {
    ParseStep(pos);
    var t := SkipBlanks(pos);
    var v := Atoi(t);
    assert l + [] == l;
    if v != 0 {
      var rest := FromBlank(t[1..]);
      Consumed(l, v, if rest != "" then ParseInts(rest) else []);
    }
  }

  lemma Consumed(l: seq<int>, v: int, rest: seq<int>)
    ensures (l + [v]) + rest == l + ([v] + rest)
    ensures l + [v] == l + [v] + []
  {
  }

  // ----- the writer

  /** The text in a buffer, up to its terminator. */
  function CStr(b: seq<char>): string {
    if b == [] || b[0] == '\0' then "" else [b[0]] + CStr(b[1..])
  }

  predicate NoTerminator(s: string) {
    forall i :: 0 <= i < |s| ==> s[i] != '\0'
  }

  lemma {:induction false} CStrOf(s: string, rest: seq<char>)
    requires NoTerminator(s)
    ensures CStr(s + ['\0'] + rest) == s
  {
    if s == "" {
      assert s + ['\0'] + rest == ['\0'] + rest;
    } else {
      assert (s + ['\0'] + rest)[1..] == s[1..] + ['\0'] + rest;
      CStrOf(s[1..], rest);
      assert s == [s[0]] + s[1..];
    }
  }

  /** Writes as much of a string as there is room for, and a terminator; answers its full length. */
  method Snprintf(buf: array<char>, pos: nat, s: string) returns (ret: nat)
    requires pos < buf.Length
    modifies buf
    ensures ret == |s|
    ensures var n := if |s| < buf.Length - pos then |s| else buf.Length - pos - 1;
            buf[..pos + n + 1] == old(buf[..pos]) + s[..n] + ['\0']
  {
    var n := if |s| < buf.Length - pos then |s| else buf.Length - pos - 1;
    forall i | 0 <= i < n {
      buf[pos + i] := s[i];
    }
    buf[pos + n] := '\0';
    ret := |s|;
  }

  /** The number as the writer prints it, with a blank before all but the first. */
  function Piece(i: nat, n: int): string {
    (if i == 0 then "" else " ") + Digits(Unsigned(n))
  }

  /** The pieces from the `i`-th number on. */
  function Pieces(l: seq<int>, i: nat): string
    requires i <= |l|
    decreases |l| - i
  {
    if i == |l| then "" else Piece(i, l[i]) + Pieces(l, i + 1)
  }

  lemma {:induction false} PiecesAreText(l: seq<int>, i: nat)
    requires i < |l|
    ensures Pieces(l, i) == (if i == 0 then "" else " ") + FullText(l[i..])
    decreases |l| - i
  {
    if i + 1 < |l| {
      PiecesAreText(l, i + 1);
      assert l[i..][1..] == l[i + 1..];
    } else {
      assert Pieces(l, i + 1) == "";
      assert l[i..] == [l[i]];
    }
  }

  lemma TextOfPieces(l: seq<int>)
    ensures Pieces(l, 0) == FullText(l)
  {
    if l != [] {
      PiecesAreText(l, 0);
      assert l[0..] == l;
    }
  }

  lemma {:induction false} TextHasNoTerminator(l: seq<int>)
    ensures NoTerminator(FullText(l))
  {
    if |l| > 1 {
      TextHasNoTerminator(l[1..]);
      DigitsOnly(Unsigned(l[0]));
    } else if |l| == 1 {
      DigitsOnly(Unsigned(l[0]));
    }
  }

  lemma DigitsOnly(n: nat)
    ensures NoTerminator(Digits(n))
  {
  }

  /** The text before `pos` is written, and terminated. */
  ghost predicate Progress(b: seq<char>, pos: nat, l: seq<int>, i: nat) {
    i <= |l| && |b| == Room(l) + 1 && pos < |b| && b[pos] == '\0' && b[..pos] + Pieces(l, i) == FullText(l)
  }

  /** Writes the next number; where it does not fit, the buffer is as full as it gets. */
  method PutNumber(buf: array<char>, pos: nat, i: nat, n: int, ghost l: seq<int>) returns (ret: nat)
    requires Progress(buf[..], pos, l, i) && i < |l| && l[i] == n
    modifies buf
    ensures ret < buf.Length - pos ==> Progress(buf[..], pos + ret, l, i + 1)
    ensures ret >= buf.Length - pos ==> CStr(buf[..]) == WrittenText(l)
  {
    ghost var done, piece, more := buf[..pos], Piece(i, n), Pieces(l, i + 1);
    assert buf[..][..pos] == done;
    ret := Snprintf(buf, pos, (if i == 0 then "" else " ") + Digits(Unsigned(n)));
    if ret < buf.Length - pos {
      assert buf[..][..pos + ret] == done + piece;
      Associative(done, piece, more);
    } else {
      TextHasNoTerminator(l);
      assert buf[..] == done + piece[..buf.Length - pos - 1] + ['\0'];
      Truncated(buf[..], l, done, piece, more);
    }
  }

  lemma Associative(a: string, b: string, c: string)
    ensures a + (b + c) == (a + b) + c
  {
  }

  lemma Finished(b: seq<char>, pos: nat, l: seq<int>)
    requires Progress(b, pos, l, |l|)
    ensures CStr(b) == WrittenText(l)
  {
    TextHasNoTerminator(l);
    assert b[..pos] + "" == b[..pos];
    assert b == b[..pos] + ['\0'] + b[pos + 1..];
    CStrOf(b[..pos], b[pos + 1..]);
  }

  /** Writes the numbers before the first zero into a buffer sized by their count. */
  method WriteFreqs(freqs: seq<int>) returns (buf: array<char>)
    requires freqs != [] && freqs[|freqs| - 1] == 0
    ensures fresh(buf) && buf.Length == Room(Visible(freqs)) + 1
    ensures CStr(buf[..]) == WrittenText(Visible(freqs))
  {
    ghost var l := Visible(freqs);
    var count := CountVisible(freqs);
    buf := new char[10 * count + 1](_ => '\0');
    var pos: nat, i: nat := 0, 0;
    TextOfPieces(l);
    assert buf[..][..0] == "" && "" + Pieces(l, 0) == Pieces(l, 0);
    while i < count
      invariant fresh(buf) && Progress(buf[..], pos, l, i)
    {
      VisiblePrefix(freqs, i);
      var ret := PutNumber(buf, pos, i, freqs[i], l);
      if ret >= buf.Length - pos {
        return;
      }
      pos := pos + ret;
      i := i + 1;
    }
    Finished(buf[..], pos, l);
  }

  lemma Truncated(b: seq<char>, l: seq<int>, done: string, piece: string, more: string)
    requires |b| == Room(l) + 1 && |done| < |b| && |piece| >= |b| - |done|
    requires done + (piece + more) == FullText(l) && NoTerminator(FullText(l))
    requires b == done + piece[..|b| - |done| - 1] + ['\0']
    ensures CStr(b) == WrittenText(l)
  {
    var n := |b| - 1;
    var t := done + piece[..n - |done|];
    assert t == FullText(l)[..n];
    assert b == t + ['\0'] + [];
    CStrOf(t, []);
  }

  lemma {:induction false} VisiblePrefix(a: seq<int>, i: nat)
    requires i < |Visible(a)|
    ensures i < |a| && a[i] == Visible(a)[i]
  {
    if i > 0 {
      VisiblePrefix(a[1..], i - 1);
    }
  }

  method CountVisible(a: seq<int>) returns (count: nat)
    requires a != [] && a[|a| - 1] == 0
    ensures count == |Visible(a)|
  {
    count := 0;
    assert a[0..] == a;
    while a[count] != 0
      invariant count < |a| && |Visible(a)| == count + |Visible(a[count..])|
      decreases |a| - count
    {
      VisibleStep(a, count);
      count := count + 1;
    }
    VisibleStep(a, count);
  }
}
