/** Reading a text file line by line into a buffer of fixed size, as fgets does. */
module TextFile {

  const BUF_SIZE := 128

  /** How much one call reads: up to the end of the line, but only what there is room for. */
  function ChunkLen(text: string, room: nat): (n: nat)
    ensures n <= |text| && n <= room && (text != "" && room > 0 ==> n > 0)
  {
    if text == "" || room == 0 then 0
    else if text[0] == '\n' then 1
    else 1 + ChunkLen(text[1..], room - 1)
  }

  function Chunks(text: string): (cs: seq<string>)
    ensures forall c :: c in cs ==> 0 < |c| < BUF_SIZE
  {
    if text == "" then []
    else
      var n := ChunkLen(text, BUF_SIZE - 1);
      [text[..n]] + Chunks(text[n..])
  }

  /** The chunks are the text, piece by piece; a line break is only at the end of a chunk, and a chunk
      without one is full or the last. */
  lemma {:induction false} ChunksExactly(text: string)
    ensures Joined(Chunks(text)) == text
    ensures forall i :: 0 <= i < |Chunks(text)| ==> EndsRightly(Chunks(text)[i], i == |Chunks(text)| - 1)
  {
    if text != "" {
      var n := ChunkLen(text, BUF_SIZE - 1);
      var cs, rest := Chunks(text), Chunks(text[n..]);
      FirstChunk(text);
      ChunksExactly(text[n..]);
      assert cs[1..] == rest;
      forall i | 0 <= i < |cs| ensures EndsRightly(cs[i], i == |cs| - 1) {
        assert i > 0 ==> cs[i] == rest[i - 1];
      }
    }
  }

  lemma FirstChunk(text: string)
    requires text != ""
    ensures var n := ChunkLen(text, BUF_SIZE - 1);
            && text[..n] + text[n..] == text && Chunks(text) == [text[..n]] + Chunks(text[n..])
            && EndsRightly(text[..n], Chunks(text[n..]) == [])
  {
    ChunkEndsRightly(text, BUF_SIZE - 1);
  }

  predicate EndsRightly(c: string, last: bool) {
    && 1 <= |c| <= 127 && (forall j :: 0 <= j < |c| - 1 ==> c[j] != '\n')
    && (c[|c| - 1] == '\n' || |c| == 127 || last)
  }

  lemma {:induction false} ChunkEndsRightly(text: string, room: nat)
    ensures var n := ChunkLen(text, room);
            && (forall j :: 0 <= j < n - 1 ==> text[j] != '\n')
            && (text != "" && room > 0 ==> text[n - 1] == '\n' || n == room || n == |text|)
  {
    if text != "" && room > 0 && text[0] != '\n' {
      ChunkEndsRightly(text[1..], room - 1);
      var n := ChunkLen(text, room);
      forall j | 0 < j < n - 1 ensures text[j] != '\n' {
        assert text[1..][j - 1] == text[j];
      }
    }
  }

  /** A chunk overwrites the head of the buffer and is terminated; the rest stays as it was. */
  function Filled(buf: string, chunk: string): (r: string)
    requires |chunk| < |buf|
    ensures |r| == |buf|
  {
    chunk + ['\0'] + buf[|chunk| + 1..]
  }

  lemma FilledExactly(buf: string, chunk: string)
    requires |chunk| < |buf|
    ensures chunk <= Filled(buf, chunk) && Filled(buf, chunk)[|chunk|] == '\0'
    ensures forall i :: |chunk| < i < |buf| ==> Filled(buf, chunk)[i] == buf[i]
  {
  }

  /** What the buffer holds after each of the chunks. */
  function Buffers(buf: string, chunks: seq<string>): seq<string>
    requires |buf| == BUF_SIZE && forall c :: c in chunks ==> |c| < BUF_SIZE
    decreases |chunks|
  {
    if chunks == [] then []
    else
      var b := Filled(buf, chunks[0]);
      [b] + Buffers(b, chunks[1..])
  }

  function Joined(lines: seq<string>): string {
    if lines == [] then "" else lines[0] + Joined(lines[1..])
  }

  /** A line that fits the buffer, and ends at its end. */
  predicate IsLine(s: string) {
    0 < |s| < BUF_SIZE && s[|s| - 1] == '\n' && forall i :: 0 <= i < |s| - 1 ==> s[i] != '\n'
  }

  lemma {:induction false} LineIsChunk(s: string, rest: string, room: nat)
    requires 0 < |s| <= room && s[|s| - 1] == '\n' && forall i :: 0 <= i < |s| - 1 ==> s[i] != '\n'
    ensures ChunkLen(s + rest, room) == |s|
  {
    if |s| > 1 {
      assert (s + rest)[1..] == s[1..] + rest;
      LineIsChunk(s[1..], rest, room - 1);
    }
  }

  /** Lines that fit are read one by one. */
  lemma {:induction false} ChunksOfLines(lines: seq<string>)
    requires forall s :: s in lines ==> IsLine(s)
    ensures Chunks(Joined(lines)) == lines
  {
    if lines != [] {
      var s, rest := lines[0], Joined(lines[1..]);
      assert s in lines;
      LineIsChunk(s, rest, BUF_SIZE - 1);
      assert (s + rest)[..|s|] == s && (s + rest)[|s|..] == rest;
      ChunksOfLines(lines[1..]);
      assert lines == [s] + lines[1..];
    }
  }

  /** Reads one chunk; the answer is the text that is left to read. */
  method Fgets(buf: array<char>, text: string) returns (rest: string)
    requires buf.Length == BUF_SIZE && text != ""
    modifies buf
    ensures var n := ChunkLen(text, BUF_SIZE - 1);
            buf[..] == Filled(old(buf[..]), text[..n]) && rest == text[n..]
  {
    var n, stop := 0, false;
    assert text[0..] == text;
    while n < |text| && n < BUF_SIZE - 1 && !stop
      invariant n <= |text| && n < BUF_SIZE
      invariant ChunkLen(text, BUF_SIZE - 1) == n + if stop then 0 else ChunkLen(text[n..], BUF_SIZE - 1 - n)
      invariant forall i :: 0 <= i < n ==> buf[i] == text[i]
      invariant forall i :: n <= i < BUF_SIZE ==> buf[i] == old(buf[i])
      decreases |text| - n, !stop
    {
      assert text[n..][0] == text[n] && text[n..][1..] == text[n + 1..];
      buf[n] := text[n];
      stop := text[n] == '\n';
      n := n + 1;
    }
    buf[n] := '\0';
    rest := text[n..];
  }
}
