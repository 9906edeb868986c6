/** kernel/http_client.c: the in-place, two-pass decoder of chunked bodies. */
module ChunkedWalk {
  import opened Bytes
  import opened Options
  import opened Buffers
  import opened HttpText
  import opened Chunked

  lemma OverlayTwice(s: seq<byte>, at: nat, a: seq<byte>, b: seq<byte>)
    requires at + |a| + |b| <= |s|
    ensures Overlay(Overlay(s, at, a), at + |a|, b) == Overlay(s, at, a + b)
  {
  }

  lemma OverlayNothing(s: seq<byte>, at: nat)
    requires at <= |s|
    ensures Overlay(s, at, []) == s
  {
  }

  /** Bytes at or after the overlay's end are the original ones. */
  lemma OverlayBeyond(s: seq<byte>, at: nat, data: seq<byte>, lo: nat, hi: nat)
    requires at + |data| <= lo <= hi <= |s|
    ensures Overlay(s, at, data)[lo..hi] == s[lo..hi]
  {
  }

  /** The compacting copy: a forward byte loop to a lower or equal address. */
  method CopyDown(a: array<byte>, dst: nat, src: nat, n: nat)
    requires dst <= src && src + n <= a.Length
    modifies a
    ensures a[..] == Overlay(old(a[..]), dst, old(a[src..src + n]))
  {
    ghost var was := a[..];
    for i := 0 to n
      invariant a[dst..dst + i] == was[src..src + i]
      invariant forall k :: 0 <= k < dst || dst + i <= k < a.Length ==> a[k] == was[k]
    {
      ghost var before := a[dst..dst + i];
      a[dst + i] := a[src + i];
      assert a[dst..dst + i] == before;
      assert a[dst..dst + (i + 1)] == before + [was[src + i]];
      assert was[src..src + (i + 1)] == was[src..src + i] + [was[src + i]];
    }
    assert a[..] == Overlay(was, dst, was[src..src + n]);
    assert old(a[src..src + n]) == was[src..src + n];
  }

  /** find_chunk_line_end. */
  method FindLineEnd(bytes: seq<byte>, start: nat) returns (r: Result<nat>)
    requires start <= |bytes|
    ensures r == match LineLength(bytes[start..]) case Err(e) => Err(e) case Ok(n) => Ok(start + n)
  {
    hide CrlfAt;
    var remaining := |bytes| - start;
    var limit := if remaining > MAX_LINE + 2 then MAX_LINE + 2 else remaining;
    assert bytes[start..][..limit] == bytes[start..start + limit];
    var end := FindCrlf(bytes, start, start + limit);
    if end.Some? {
      if end.value - start > MAX_LINE { return Err(ChunkMetadataTooLarge); }
      return Ok(end.value);
    }
    return Err(if remaining > MAX_LINE then ChunkMetadataTooLarge else TruncatedBody);
  }

  /** The checks of one turn of the walk: a size line and what must follow it. */
  datatype Turn = Stop(error: Error) | End | Data(line: nat, size: nat)

  function TurnOf(rest: seq<byte>, framing: nat): (t: Turn)
    requires framing <= MAX_FRAMING
    ensures t.Data? ==> t.size > 0 && t.line + 2 + t.size + 2 <= |rest| && framing + t.line + 4 <= MAX_FRAMING
  {
    match LineLength(rest)
    case Err(e) => Stop(e)
    case Ok(n) =>
      if n + 2 > MAX_FRAMING - framing then Stop(ChunkMetadataTooLarge)
      else
        match ChunkSize(rest[..n])
        case None => Stop(MalformedChunkedBody)
        case Some(size) =>
          var after := rest[n + 2..];
          if size == 0 then
            match LastChunk(after) case Bad(e) => Stop(e) case Good(_) => End
          else
            match ChunkData(after, size)
            case Err(e) => Stop(e)
            case Ok(_) => if framing + n + 2 > MAX_FRAMING - 2 then Stop(ChunkMetadataTooLarge) else Data(n, size)
  }

  lemma TurnDecodes(rest: seq<byte>, framing: nat)
    requires framing <= MAX_FRAMING
    ensures Decode(rest, framing) == match TurnOf(rest, framing)
              case Stop(e) => Bad(e)
              case End => Good([])
              case Data(n, size) => Prepend(rest[n + 2..n + 2 + size], Decode(rest[n + 2 + size + 2..], framing + n + 4))
  {
    hide LineLength, ChunkSize, Trailers, ChunkData, Prepend;
    var t := TurnOf(rest, framing);
    if t.Data? {
      assert rest[t.line + 2..][..t.size] == rest[t.line + 2..t.line + 2 + t.size];
      assert rest[t.line + 2..][t.size + 2..] == rest[t.line + 2 + t.size + 2..];
    }
  }

  method ReadTurn(bytes: seq<byte>, read: nat, framing: nat) returns (t: Turn)
    requires read <= |bytes| && framing <= MAX_FRAMING
    ensures t == TurnOf(bytes[read..], framing)
  {
    hide LineLength, ChunkSize, Trailers;
    ghost var rest := bytes[read..];
    var end := FindLineEnd(bytes, read);
    if end.Err? { return Stop(end.error); }
    var n := end.value - read;
    if n + 2 > MAX_FRAMING - framing { return Stop(ChunkMetadataTooLarge); }
    assert bytes[read..end.value] == rest[..n];
    var size := ParseSizeLine(bytes[read..end.value]);
    if size.None? { return Stop(MalformedChunkedBody); }
    var cursor := end.value + 2;
    assert bytes[cursor..] == rest[n + 2..];
    if size.value == 0 {
      var trailers := ValidateTrailers(bytes[cursor..]);
      if trailers.Err? { return Stop(trailers.error); }
      if cursor + trailers.value != |bytes| { return Stop(UnexpectedExtraData); }
      return End;
    }
    if size.value > |bytes| - cursor { return Stop(TruncatedBody); }
    if |bytes| - cursor - size.value < 2 { return Stop(TruncatedBody); }
    if bytes[cursor + size.value] != CR || bytes[cursor + size.value + 1] != LF { return Stop(MalformedChunkedBody); }
    if framing + n + 2 > MAX_FRAMING - 2 { return Stop(ChunkMetadataTooLarge); }
    return Data(n, size.value);
  }

  /** What a pass leaves in the buffer. */
  function After(s: seq<byte>, base: nat, compact: bool, out: seq<byte>): (r: seq<byte>)
    requires base + |out| <= |s|
    ensures |r| == |s|
  {
    if compact then Overlay(s, base, out) else s
  }

  /** walk_chunked_body over `a[base..base + length]`. The write cursor never passes the read
      cursor, so both passes see the same bytes. */
  method Walk(a: array<byte>, base: nat, length: nat, compact: bool) returns (r: Result<nat>)
    requires base + length <= a.Length
    modifies a
    ensures match Decode(old(a[base..base + length]), 0)
            case Bad(e) => r == Err(e)
            case Good(p) => r == Ok(|p|) && |p| <= length && a[..] == After(old(a[..]), base, compact, p)
    ensures !compact ==> a[..] == old(a[..])
  {
    hide Decode, TurnOf, Overlay, After, Prepend;
    ghost var was, s := a[..], a[base..base + length];
    ghost var out: seq<byte> := [];
    var read, write, framing := 0, 0, 0;
    AfterNothing(was, base, compact);
    assert s[0..] == s;
    PrependNothing(Decode(s, 0));
    while true
      invariant write == |out| <= read <= length && framing <= MAX_FRAMING
      invariant Decode(s, 0) == Prepend(out, Decode(s[read..], framing))
      invariant a[..] == After(was, base, compact, out)
      decreases length - read
    {
      AfterPlain(was, base, compact, out);
      UnreadRest(was, a[..], base, length, compact, out, read);
      assert a[base..base + length] == a[..][base..base + length];
      TurnDecodes(s[read..], framing);
      var turn := ReadTurn(a[base..base + length], read, framing);
      match turn {
        case Stop(e) =>
          PrependFails(out, e);
          return Err(e);
        case End =>
          PrependEnds(out);
          return Ok(write);
        case Data(n, size) =>
          var from := read + n + 2;
          NextChunk(s, read, n, size);
          PrependTwice(out, s[from..from + size], Decode(s[from + size + 2..], framing + n + 4));
          Consume(a, base, length, compact, from, size, write, was, out);
          out := out + s[from..from + size];
          write := write + size;
          read := from + size + 2;
          framing := framing + n + 4;
      }
    }
  }

  lemma AfterNothing(s: seq<byte>, base: nat, compact: bool)
    requires base <= |s|
    ensures After(s, base, compact, []) == s
  {
    OverlayNothing(s, base);
  }

  lemma AfterPlain(s: seq<byte>, base: nat, compact: bool, out: seq<byte>)
    requires base + |out| <= |s|
    ensures !compact ==> After(s, base, compact, out) == s
  {
  }

  lemma PrependEnds(p: seq<byte>)
    ensures Prepend(p, Good([])) == Good(p)
  {
    assert p + [] == p;
  }

  lemma PrependFails(p: seq<byte>, e: Error)
    ensures Prepend(p, Bad(e)) == Bad(e)
  {
  }

  /** The whole rest of the body, as the next turn reads it. */
  lemma UnreadRest(was: seq<byte>, now: seq<byte>, base: nat, length: nat, compact: bool, out: seq<byte>, read: nat)
    requires |out| <= read <= length && base + length <= |was| && now == After(was, base, compact, out)
    ensures now[base..base + length][read..] == was[base..base + length][read..]
  {
    hide After;
    Unread(was, base, length, compact, out, read, length);
    SliceOfSlice(now, base, length, read, length);
    assert now[base..base + length][read..length] == now[base..base + length][read..];
    assert was[base..base + length][read..length] == was[base..base + length][read..];
  }

  lemma PrependNothing(d: Decoded)
    ensures d == Prepend([], d)
  {
    if d.Good? { assert [] + d.payload == d.payload; }
  }

  lemma PrependTwice(p: seq<byte>, q: seq<byte>, d: Decoded)
    ensures Prepend(p, Prepend(q, d)) == Prepend(p + q, d)
  {
    if d.Good? { assert p + (q + d.payload) == p + q + d.payload; }
  }

  lemma NextChunk(s: seq<byte>, read: nat, n: nat, size: nat)
    requires read + n + 2 + size + 2 <= |s|
    ensures var rest := s[read..];
            && rest[n + 2..n + 2 + size] == s[read + n + 2..read + n + 2 + size]
            && rest[n + 2 + size + 2..] == s[read + n + 2 + size + 2..]
  {
  }

  lemma SliceOfSlice(s: seq<byte>, base: nat, length: nat, lo: nat, hi: nat)
    requires lo <= hi <= length && base + length <= |s|
    ensures s[base + lo..base + hi] == s[base..base + length][lo..hi]
  {
    var body := s[base..base + length];
    var x, y := s[base + lo..base + hi], body[lo..hi];
    forall i | 0 <= i < hi - lo ensures x[i] == y[i] {
    }
  }

  /** The bytes not yet read are still the ones that arrived. */
  lemma Unread(was: seq<byte>, base: nat, length: nat, compact: bool, out: seq<byte>, lo: nat, hi: nat)
    requires |out| <= lo <= hi <= length && base + length <= |was|
    ensures After(was, base, compact, out)[base + lo..base + hi] == was[base..base + length][lo..hi]
  {
    if compact { OverlayBeyond(was, base, out, base + lo, base + hi); }
    SliceOfSlice(was, base, length, lo, hi);
  }

  /** One chunk moved down to the write cursor. */
  method Consume(a: array<byte>, base: nat, length: nat, compact: bool, from: nat, size: nat, write: nat,
                 ghost was: seq<byte>, ghost out: seq<byte>)
    requires base + length <= a.Length == |was|
    requires write == |out| <= from && from + size <= length
    requires a[..] == After(was, base, compact, out)
    modifies a
    ensures a[..] == After(was, base, compact, out + was[base..base + length][from..from + size])
    ensures !compact ==> a[..] == was
  {
    hide Overlay;
    ghost var data := was[base..base + length][from..from + size];
    if compact {
      Unread(was, base, length, compact, out, from, from + size);
      assert a[base + from..base + from + size] == a[..][base + from..base + (from + size)];
      CopyDown(a, base + write, base + from, size);
      OverlayTwice(was, base, out, data);
    }
  }

  /** decode_chunked_body: the payload moved to the front of the body, or an untouched buffer.
      The second pass cannot fail and cannot disagree with the first. */
  method DecodeBody(a: array<byte>, base: nat, length: nat) returns (r: Result<nat>)
    requires base + length <= a.Length
    modifies a
    ensures match Decode(old(a[base..base + length]), 0)
            case Bad(e) => r == Err(e) && a[..] == old(a[..])
            case Good(p) => r == Ok(|p|) && |p| <= length && a[..] == Overlay(old(a[..]), base, p)
  {
    hide Decode, Overlay;
    ghost var was := a[..];
    var validated := Walk(a, base, length, false);
    if validated.Err? { return validated; }
    assert a[base..base + length] == was[base..base + length];
    r := Walk(a, base, length, true);
    assert r == validated;
  }
}
