/** Chunked bodies as a grammar: the decoder accepts exactly the well-formed bodies within the
    limits, and gives back exactly their data. */
module ChunkedGrammar {
  import opened Bytes
  import opened Options
  import opened HttpText
  import opened Chunked

  /** A size line (digits and extensions) and the data it announces. */
  datatype Chunk = Chunk(line: seq<byte>, data: seq<byte>)

  /** A parsed body: the chunks, the size line of the last chunk, and the trailer's lines. */
  datatype Body = Body(chunks: seq<Chunk>, last: seq<byte>, trailer: seq<seq<byte>>)

  predicate ChunkOk(c: Chunk) {
    |c.line| <= MAX_LINE && c.data != [] && ChunkSize(c.line) == Some(|c.data|)
  }

  function RenderTrailer(lines: seq<seq<byte>>): seq<byte> {
    if lines == [] then CRLF else lines[0] + CRLF + RenderTrailer(lines[1..])
  }

  function Render(b: Body): seq<byte>
    decreases |b.chunks|
  {
    if b.chunks == [] then b.last + CRLF + RenderTrailer(b.trailer)
    else b.chunks[0].line + CRLF + b.chunks[0].data + CRLF + Render(b.(chunks := b.chunks[1..]))
  }

  function Payload(chunks: seq<Chunk>): seq<byte> {
    if chunks == [] then [] else chunks[0].data + Payload(chunks[1..])
  }

  /** Every byte of a body that is neither data nor trailer. */
  function Framing(chunks: seq<Chunk>, last: seq<byte>): nat {
    if chunks == [] then |last| + 2 else |chunks[0].line| + 4 + Framing(chunks[1..], last)
  }

  predicate TrailerOk(lines: seq<seq<byte>>) {
    (forall i :: 0 <= i < |lines| ==> TrailerLine(lines[i])) && |RenderTrailer(lines)| <= MAX_TRAILER
  }

  /** Well formed, with at most `framing` bytes of framing. */
  predicate BodyOk(b: Body, framing: nat) {
    && (forall i :: 0 <= i < |b.chunks| ==> ChunkOk(b.chunks[i]))
    && |b.last| <= MAX_LINE && ChunkSize(b.last) == Some(0)
    && TrailerOk(b.trailer)
    && Framing(b.chunks, b.last) <= framing
  }

  // --------------------------------------------------------------------------------------
  // Trailers

  lemma TrailerLineFacts(line: seq<byte>)
    requires TrailerLine(line)
    ensures BreakFree(line) && line != []
  {
    hide TokenByte, Trimmed, Forbidden;
    HeaderLineIsPrintable(line);
    PrintableIsBreakFree(line);
  }

  /** A line that ends within the limit is found there. */
  lemma LineWithin(line: seq<byte>, rest: seq<byte>, limit: nat)
    requires BreakFree(line) && |line| + 2 <= limit
    ensures var s := line + CRLF + rest;
            CrlfAt(s[..if |s| > limit then limit else |s|]) == Some(|line|)
  {
    var s := line + CRLF + rest;
    LineFound(line, rest);
    CrlfPrefix(s, if |s| > limit then limit else |s|);
  }

  lemma {:induction false} TrailersAccept(t: seq<byte>, cursor: nat, lines: seq<seq<byte>>)
    requires cursor <= |t| <= MAX_TRAILER && t[cursor..] == RenderTrailer(lines)
    requires forall i :: 0 <= i < |lines| ==> TrailerLine(lines[i])
    ensures Trailers(t, cursor) == Ok(|t|)
    decreases |lines|
  {
    hide TrailerLine, CrlfAt;
    if lines == [] {
      LineFound([], []);
      assert [] + CRLF + [] == CRLF == t[cursor..|t|];
    } else {
      var line := lines[0];
      TrailerLineFacts(line);
      LineFound(line, RenderTrailer(lines[1..]));
      assert t[cursor..|t|] == t[cursor..];
      assert t[cursor..cursor + |line|] == t[cursor..][..|line|] == line;
      assert t[cursor + |line| + 2..] == t[cursor..][|line| + 2..] == RenderTrailer(lines[1..]);
      TrailersAccept(t, cursor + |line| + 2, lines[1..]);
    }
  }

  /** What one accepted line says about the bytes; an empty line is the end. */
  lemma TrailerStep(t: seq<byte>, cursor: nat) returns (n: nat)
    requires cursor <= |t| && Trailers(t, cursor) == Ok(|t|)
    ensures cursor + n + 2 <= |t| && t[cursor + n] == CR && t[cursor + n + 1] == LF
    ensures n == 0 ==> cursor + 2 == |t|
    ensures n > 0 ==> TrailerLine(t[cursor..cursor + n]) && Trailers(t, cursor + n + 2) == Ok(|t|)
  {
    hide TrailerLine, CrlfAt;
    assert |t| <= MAX_TRAILER;
    n := CrlfAt(t[cursor..|t|]).value;
    assert BreakAt(t[cursor..|t|], n);
  }

  lemma {:induction false} TrailersParse(t: seq<byte>, cursor: nat) returns (lines: seq<seq<byte>>)
    requires cursor <= |t| && Trailers(t, cursor) == Ok(|t|)
    ensures t[cursor..] == RenderTrailer(lines)
    ensures forall i :: 0 <= i < |lines| ==> TrailerLine(lines[i])
    decreases |t| - cursor
  {
    hide TrailerLine, Trailers;
    var n := TrailerStep(t, cursor);
    if n == 0 {
      lines := [];
    } else {
      var more := TrailersParse(t, cursor + n + 2);
      var line := t[cursor..cursor + n];
      lines := [line] + more;
      assert lines[1..] == more;
      assert t[cursor..] == line + CRLF + t[cursor + n + 2..];
    }
  }

  /** The trailer section is accepted exactly when it is a list of allowed header lines and an
      empty line, within the limit. */
  lemma TrailerIff(t: seq<byte>)
    ensures Trailers(t, 0) == Ok(|t|) <==> exists lines :: TrailerOk(lines) && t == RenderTrailer(lines)
  {
    hide TrailerLine, Trailers;
    assert t[0..] == t;
    if Trailers(t, 0) == Ok(|t|) {
      var lines := TrailersParse(t, 0);
      assert TrailerOk(lines);
    }
    if lines :| TrailerOk(lines) && t == RenderTrailer(lines) {
      TrailersAccept(t, 0, lines);
    }
  }

  // --------------------------------------------------------------------------------------
  // Bodies

  lemma LineLengthOf(line: seq<byte>, rest: seq<byte>)
    requires |line| <= MAX_LINE && ChunkSize(line).Some?
    ensures LineLength(line + CRLF + rest) == Ok(|line|)
  {
    hide ChunkSize, CrlfAt;
    SizeLineIsPrintable(line);
    PrintableIsBreakFree(line);
    LineWithin(line, rest, MAX_LINE + 2);
  }

  /** One size line read. */
  lemma DecodeStep(line: seq<byte>, after: seq<byte>, size: nat, framing: nat)
    requires |line| <= MAX_LINE && ChunkSize(line) == Some(size) && framing + |line| + 2 <= MAX_FRAMING
    ensures Decode(line + CRLF + after, framing) ==
            if size == 0 then LastChunk(after)
            else match ChunkData(after, size)
                 case Err(e) => Bad(e)
                 case Ok(data) =>
                   if framing + |line| + 2 > MAX_FRAMING - 2 then Bad(ChunkMetadataTooLarge)
                   else Prepend(data, Decode(after[size + 2..], framing + |line| + 4))
  {
    hide ChunkSize, LineLength, LastChunk, ChunkData, Prepend;
    var s := line + CRLF + after;
    LineLengthOf(line, after);
    assert s[..|line|] == line;
    assert s[|line| + 2..] == after;
  }

  lemma LastChunkIff(after: seq<byte>)
    ensures LastChunk(after).Good? <==> exists lines :: TrailerOk(lines) && after == RenderTrailer(lines)
    ensures LastChunk(after).Good? ==> LastChunk(after) == Good([])
  {
    hide Trailers, TrailerOk, RenderTrailer;
    TrailerIff(after);
  }

  lemma DataFollows(data: seq<byte>, rest: seq<byte>)
    ensures ChunkData(data + CRLF + rest, |data|) == Ok(data)
    ensures (data + CRLF + rest)[|data| + 2..] == rest
  {
    assert (data + CRLF + rest)[..|data|] == data;
  }

  lemma FramingStep(b: Body, framing: nat)
    requires b.chunks != [] && BodyOk(b, framing)
    ensures |b.chunks[0].line| + 4 + Framing(b.chunks[1..], b.last) <= framing
    ensures ChunkOk(b.chunks[0]) && BodyOk(b.(chunks := b.chunks[1..]), framing - |b.chunks[0].line| - 4)
  {
    hide ChunkOk, ChunkSize, TrailerOk;
    assert ChunkOk(b.chunks[0]);
  }

  /** Every well-formed body within the limits decodes to its data. */
  lemma {:induction false} WellFormedDecodes(b: Body, framing: nat)
    requires framing <= MAX_FRAMING && BodyOk(b, MAX_FRAMING - framing)
    ensures Decode(Render(b), framing) == Good(Payload(b.chunks))
    decreases |b.chunks|
  {
    hide Decode, ChunkSize, LastChunk, TrailerOk, RenderTrailer, ChunkData;
    if b.chunks == [] {
      LastChunkIff(RenderTrailer(b.trailer));
      DecodeStep(b.last, RenderTrailer(b.trailer), 0, framing);
    } else {
      var c, rest := b.chunks[0], b.(chunks := b.chunks[1..]);
      FramingStep(b, MAX_FRAMING - framing);
      var after := c.data + CRLF + Render(rest);
      DecodeStep(c.line, after, |c.data|, framing);
      assert Render(b) == c.line + CRLF + after;
      DataFollows(c.data, Render(rest));
      FramingPositive(rest.chunks, rest.last);
      WellFormedDecodes(rest, framing + |c.line| + 4);
    }
  }

  lemma FramingPositive(chunks: seq<Chunk>, last: seq<byte>)
    ensures Framing(chunks, last) >= 2
  {
  }

  /** What one accepted step says about the bytes. */
  lemma AcceptedStep(s: seq<byte>, framing: nat) returns (line: seq<byte>, size: nat, after: seq<byte>)
    requires framing <= MAX_FRAMING && Decode(s, framing).Good?
    ensures s == line + CRLF + after && |line| <= MAX_LINE && ChunkSize(line) == Some(size)
    ensures framing + |line| + 2 <= MAX_FRAMING
    ensures size == 0 ==> LastChunk(after).Good? && Decode(s, framing) == LastChunk(after)
    ensures size > 0 ==> ChunkData(after, size).Ok? && framing + |line| + 4 <= MAX_FRAMING
                         && Decode(after[size + 2..], framing + |line| + 4).Good?
                         && Decode(s, framing).payload == after[..size] + Decode(after[size + 2..], framing + |line| + 4).payload
  {
    hide ChunkSize, LastChunk, LineLength, ChunkData;
    var n := LineLength(s).value;
    line, after := s[..n], s[n + 2..];
    size := ChunkSize(line).value;
    assert BreakAt(s, n);
    assert s == line + CRLF + after;
  }

  /** Every body that decodes is well formed, and the result is its data. */
  lemma {:induction false} DecodedIsWellFormed(s: seq<byte>, framing: nat) returns (b: Body)
    requires framing <= MAX_FRAMING && Decode(s, framing).Good?
    ensures BodyOk(b, MAX_FRAMING - framing) && s == Render(b)
    ensures Decode(s, framing).payload == Payload(b.chunks)
    decreases |s|
  {
    hide Decode, ChunkSize, LastChunk, TrailerOk, RenderTrailer;
    var line, size, after := AcceptedStep(s, framing);
    if size == 0 {
      LastChunkIff(after);
      var lines :| TrailerOk(lines) && after == RenderTrailer(lines);
      b := Body([], line, lines);
    } else {
      var data, rest := after[..size], after[size + 2..];
      var tail := DecodedIsWellFormed(rest, framing + |line| + 4);
      b := Body([Chunk(line, data)] + tail.chunks, tail.last, tail.trailer);
      assert b.chunks[1..] == tail.chunks;
      assert b.(chunks := b.chunks[1..]) == tail;
      assert after == data + CRLF + rest;
      assert s == line + CRLF + data + CRLF + rest;
    }
  }

  /** The decoder accepts exactly the bodies of the grammar, and reads exactly their data. */
  lemma DecodeIff(s: seq<byte>, payload: seq<byte>)
    ensures Decode(s, 0) == Good(payload)
       <==> exists b :: BodyOk(b, MAX_FRAMING) && s == Render(b) && payload == Payload(b.chunks)
  {
    hide Decode, BodyOk, Render, Payload;
    if Decode(s, 0) == Good(payload) {
      var b := DecodedIsWellFormed(s, 0);
    }
    if b :| BodyOk(b, MAX_FRAMING) && s == Render(b) && payload == Payload(b.chunks) {
      WellFormedDecodes(b, 0);
    }
  }

  // --------------------------------------------------------------------------------------
  // How much longer than its payload a body can be

  lemma {:induction false} RenderedLength(b: Body)
    ensures |Render(b)| == |Payload(b.chunks)| + Framing(b.chunks, b.last) + |RenderTrailer(b.trailer)|
    decreases |b.chunks|
  {
    hide RenderTrailer;
    if b.chunks != [] {
      RenderedLength(b.(chunks := b.chunks[1..]));
    }
  }

  /** Framing and trailer of an accepted body fit the allowance reserved for them. */
  lemma EncodedLengthBound(s: seq<byte>)
    requires Decode(s, 0).Good?
    ensures |s| <= |Decode(s, 0).payload| + MAX_FRAMING + MAX_TRAILER
  {
    hide Decode, Render, Payload;
    var b := DecodedIsWellFormed(s, 0);
    RenderedLength(b);
  }

  // --------------------------------------------------------------------------------------
  // An encoder without extensions or trailers

  function HexDigit(n: nat): byte
    requires n < 16
  {
    if n < 10 then 48 + n else 87 + n
  }

  function HexText(n: nat): (s: seq<byte>)
    ensures s != [] && forall i :: 0 <= i < |s| ==> HexByte(s[i])
  {
    if n < 16 then [HexDigit(n)] else HexText(n / 16) + [HexDigit(n % 16)]
  }

  lemma {:induction false} HexRoundTrip(n: nat)
    ensures HexNumber(HexText(n)) == n
  {
    if n >= 16 {
      HexRoundTrip(n / 16);
      assert HexText(n)[..|HexText(n)| - 1] == HexText(n / 16);
    } else {
      assert HexText(n)[..0] == [];
    }
  }

  lemma {:induction false} HexWhole(s: seq<byte>, i: nat)
    requires i <= |s| && forall k :: i <= k < |s| ==> HexByte(s[k])
    ensures HexEnd(s, i) == |s|
  {
  }

  lemma SizeTextParses(n: nat)
    requires n <= SIZE_MAX
    ensures ChunkSize(HexText(n)) == Some(n)
  {
    hide HexByte;
    var s := HexText(n);
    HexWhole(s, 0);
    HexRoundTrip(n);
    assert s[..|s|] == s;
    assert ExtensionsOk(s, |s|);
  }

  lemma {:induction false} HexTextLength(n: nat, k: nat)
    requires n < Pow16(k) && k > 0
    ensures |HexText(n)| <= k
  {
    if n >= 16 && k > 1 {
      HexTextLength(n / 16, k - 1);
    }
  }

  function Pow16(k: nat): nat {
    if k == 0 then 1 else 16 * Pow16(k - 1)
  }

  function Encoded(pieces: seq<seq<byte>>): seq<Chunk> {
    if pieces == [] then [] else [Chunk(HexText(|pieces[0]|), pieces[0])] + Encoded(pieces[1..])
  }

  function Joined(pieces: seq<seq<byte>>): seq<byte> {
    if pieces == [] then [] else pieces[0] + Joined(pieces[1..])
  }

  /** Plain chunking: each piece with its size in hexadecimal, then "0" and an empty trailer. */
  function Encode(pieces: seq<seq<byte>>): seq<byte> {
    Render(Body(Encoded(pieces), HexText(0), []))
  }

  lemma {:induction false} EncodedOk(pieces: seq<seq<byte>>)
    requires forall i :: 0 <= i < |pieces| ==> 0 < |pieces[i]| <= SIZE_MAX
    ensures forall i :: 0 <= i < |Encoded(pieces)| ==> ChunkOk(Encoded(pieces)[i])
    ensures Payload(Encoded(pieces)) == Joined(pieces)
  {
    hide ChunkSize, HexText;
    if pieces != [] {
      EncodedOk(pieces[1..]);
      SizeTextParses(|pieces[0]|);
      SizeBelowPow(|pieces[0]|);
      HexTextLength(|pieces[0]|, 16);
      assert Encoded(pieces)[1..] == Encoded(pieces[1..]);
    }
  }

  lemma SizeBelowPow(n: nat)
    requires n <= SIZE_MAX
    ensures n < Pow16(16)
  {
    assert Pow16(4) == 0x1_0000;
    assert Pow16(8) == 0x1_0000_0000 by { assert Pow16(6) == 0x100_0000; }
    assert Pow16(12) == 0x1_0000_0000_0000 by { assert Pow16(10) == 0x100_0000_0000; }
    assert Pow16(14) == 0x100_0000_0000_0000;
  }

  /** Decoding undoes encoding, for every split of a payload whose framing fits. */
  lemma EncodeDecode(pieces: seq<seq<byte>>)
    requires forall i :: 0 <= i < |pieces| ==> 0 < |pieces[i]| <= SIZE_MAX
    requires Framing(Encoded(pieces), HexText(0)) <= MAX_FRAMING
    ensures Decode(Encode(pieces), 0) == Good(Joined(pieces))
  {
    hide Decode, Framing, Payload, Render, ChunkOk, ChunkSize;
    EncodedOk(pieces);
    SizeTextParses(0);
    var b := Body(Encoded(pieces), HexText(0), []);
    assert TrailerOk([]);
    WellFormedDecodes(b, 0);
  }
}
