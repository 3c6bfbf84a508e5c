/** The ones' complement header checksum of section 3.1 of RFC 791, computed as in section 1 of
    RFC 1071, on 16-bit words and a 32-bit accumulator. */
module Checksum {

  const WORD := 0x1_0000
  const U32 := 0x1_0000_0000

  predicate Words(s: seq<int>) {
    forall i :: 0 <= i < |s| ==> 0 <= s[i] < WORD
  }

  function Sum(s: seq<int>): int {
    if s == [] then 0 else Sum(s[..|s| - 1]) + s[|s| - 1]
  }

  lemma {:induction false} SumBounds(s: seq<int>)
    requires Words(s)
    ensures 0 <= Sum(s) <= |s| * 65535
    ensures Sum(s) == 0 <==> forall i :: 0 <= i < |s| ==> s[i] == 0
  {
    if s != [] {
      var n := |s| - 1;
      SumBounds(s[..n]);
      if Sum(s) == 0 {
        forall i | 0 <= i < |s| ensures s[i] == 0 {
          assert i < n ==> s[..n][i] == s[i];
        }
      }
    }
  }

  /** Folding the carries back in until none is left. */
  function Fold(sum: int): (r: int)
    requires sum >= 0
    ensures 0 <= r < WORD
    decreases sum
  {
    if sum / WORD == 0 then sum else Fold(sum % WORD + sum / WORD)
  }

  lemma {:induction false} FoldKeepsSum(sum: int)
    requires sum >= 0
    ensures Fold(sum) % 65535 == sum % 65535
    ensures Fold(sum) == 0 <==> sum == 0
    decreases sum
  {
    if sum / WORD != 0 {
      var next := sum % WORD + sum / WORD;
      FoldKeepsSum(next);
      CarryIsOne(sum);
    }
  }

  /** The carry counts as much at the bottom as at the top, modulo 65535. */
  lemma CarryIsOne(sum: int)
    requires sum >= 0
    ensures (sum % WORD + sum / WORD) % 65535 == sum % 65535
  {
  }

  lemma {:induction false} ModMultiple(x: int, q: int)
    requires q >= 0
    ensures (x + 65535 * q) % 65535 == x % 65535
    decreases q
  {
  }

  /** What the checksum of a buffer means: the complement of the folded sum. */
  function Value(s: seq<int>): int
    requires Words(s)
  {
    SumBounds(s);
    65535 - Fold(Sum(s))
  }

  /** For up to 65537 words the accumulator never wraps, whatever they are; and only for so many. */
  lemma AccumulatorFits(n: nat)
    ensures n <= 65537 <==> forall s :: Words(s) && |s| == n ==> Sum(s) < U32
  {
    if n <= 65537 {
      forall s | Words(s) && |s| == n ensures Sum(s) < U32 {
        SumBounds(s);
      }
    } else {
      var s := seq(n, i => 65535);
      SumOfAllOnes(s);
      assert Words(s) && |s| == n;
    }
  }

  lemma {:induction false} SumOfAllOnes(s: seq<int>)
    requires forall i :: 0 <= i < |s| ==> s[i] == 65535
    ensures Sum(s) == |s| * 65535
  {
    if s != [] {
      SumOfAllOnes(s[..|s| - 1]);
    }
  }

  lemma WrapAdd(a: int, x: int)
    ensures (a % U32 + x) % U32 == (a + x) % U32
  {
  }

  method Accumulate(buf: array<int>) returns (sum: int)
    requires Words(buf[..])
    ensures sum == Sum(buf[..]) % U32
  {
    sum := 0;
    var i := 0;
    while i < buf.Length
      invariant 0 <= i <= buf.Length && sum == Sum(buf[..i]) % U32
    {
      assert buf[..i + 1][..i] == buf[..i];
      WrapAdd(Sum(buf[..i]), buf[i]);
      sum := (sum + buf[i]) % U32;
      i := i + 1;
    }
    assert buf[..i] == buf[..];
  }

  /** Adds up the words in an accumulator that wraps at 32 bits, folds the carries, and complements.
      (For a 16-bit number the exclusive or with 0xffff is the difference from 0xffff.) */
  method Ipv4HdrChecksum(buf: array<int>) returns (c: int)
    requires Words(buf[..])
    ensures c == 65535 - Fold(Sum(buf[..]) % U32)
    ensures buf.Length <= 65537 ==> c == Value(buf[..])
  {
    var sum := Accumulate(buf);
    SumBounds(buf[..]);
    while sum / WORD != 0
      invariant 0 <= sum < U32 && Fold(sum) == Fold(Sum(buf[..]) % U32)
      decreases sum
    {
      sum := sum % WORD + sum / WORD;
    }
    c := 65535 - sum;
  }

  lemma {:induction false} SumUpdate(s: seq<int>, k: nat, v: int)
    requires k < |s|
    ensures Sum(s[k := v]) == Sum(s) - s[k] + v
  {
    var n := |s| - 1;
    if k < n {
      SumUpdate(s[..n], k, v);
      assert s[k := v][..n] == s[..n][k := v];
    } else {
      assert s[k := v][..n] == s[..n];
    }
  }

  /** A buffer checks out, that is its checksum is 0, exactly when its sum is a positive multiple of
      65535. */
  lemma ChecksOut(s: seq<int>)
    requires Words(s)
    ensures Value(s) == 0 <==> Sum(s) > 0 && Sum(s) % 65535 == 0
  {
    SumBounds(s);
    FoldKeepsSum(Sum(s));
  }

  /** Storing the checksum in a word that was zero makes the whole buffer check out. */
  lemma StoredChecksumChecksOut(s: seq<int>, k: nat)
    requires Words(s) && k < |s| && s[k] == 0
    ensures Words(s[k := Value(s)]) && Value(s[k := Value(s)]) == 0
  {
    var u := s[k := Value(s)];
    SumBounds(s);
    SumUpdate(s, k, Value(s));
    FoldKeepsSum(Sum(s));
    var f := Fold(Sum(s));
    assert Sum(u) == Sum(s) - f + 65535;
    SameResidue(Sum(s), f);
    ModMultiple(Sum(s) - f, 1);
    ChecksOut(u);
  }

  lemma SameResidue(a: int, b: int)
    requires a % 65535 == b % 65535
    ensures (a - b) % 65535 == 0
  {
  }

  /** The program's use of it: the checksum of a header whose checksum field is zero goes into that
      field, and the receiver's recomputation gives 0. */
  method StoreChecksum(hdr: array<int>, k: nat) returns (check: int)
    requires Words(hdr[..]) && hdr.Length <= 65537 && k < hdr.Length && hdr[k] == 0
    modifies hdr
    ensures hdr[..] == old(hdr[..])[k := Value(old(hdr[..]))] && check == 0
  {
    ghost var s := hdr[..];
    var c := Ipv4HdrChecksum(hdr);
    hdr[k] := c;
    assert hdr[..] == s[k := c];
    StoredChecksumChecksOut(s, k);
    check := Ipv4HdrChecksum(hdr);
  }
}
