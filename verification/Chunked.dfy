/** kernel/http_client.c: chunked transfer coding (section 7.1 of RFC 9112) as a function of the
    encoded bytes, and as a grammar. */
module Chunked {
  import opened Bytes
  import opened Options
  import opened HttpText

  const MAX_TRAILER: nat := 8192
  const MAX_LINE: nat := 1024
  const MAX_FRAMING: nat := 16384

  // --------------------------------------------------------------------------------------
  // Chunk sizes

  predicate HexByte(c: byte) {
    48 <= c <= 57 || 97 <= Lower(c) <= 102
  }

  function HexValue(c: byte): nat
    requires HexByte(c)
  {
    if c <= 57 then c - 48 else Lower(c) - 87
  }

  /** The number written by hexadecimal digits. */
  function HexNumber(s: seq<byte>): nat
    requires forall i :: 0 <= i < |s| ==> HexByte(s[i])
  {
    if s == [] then 0 else 16 * HexNumber(s[..|s| - 1]) + HexValue(s[|s| - 1])
  }

  function HexEnd(s: seq<byte>, i: nat): (r: nat)
    requires i <= |s|
    ensures i <= r <= |s| && (forall k :: i <= k < r ==> HexByte(s[k])) && (r < |s| ==> !HexByte(s[r]))
    decreases |s| - i
  {
    if i < |s| && HexByte(s[i]) then HexEnd(s, i + 1) else i
  }

  /** One ";name" or ";name=value" from `i`: where it ends. */
  function ExtensionEnd(s: seq<byte>, i: nat): (r: Option<nat>)
    requires i <= |s|
    ensures r.Some? ==> i < r.value <= |s|
  {
    var semicolon := BlankEnd(s, i);
    if semicolon == |s| || s[semicolon] != 59 then None
    else
      var name := BlankEnd(s, semicolon + 1);
      if TokenEnd(s, name) == name then None
      else
        var after := BlankEnd(s, TokenEnd(s, name));
        if after == |s| || s[after] != 61 then Some(after)
        else
          match ValueEnd(s, BlankEnd(s, after + 1))
          case None => None
          case Some(end) => Some(BlankEnd(s, end))
  }

  function ValueEnd(s: seq<byte>, i: nat): (r: Option<nat>)
    requires i <= |s|
    ensures r.Some? ==> i < r.value <= |s|
  {
    if i < |s| && s[i] == 34 then QuotedEnd(s, i + 1)
    else if TokenEnd(s, i) == i then None
    else Some(TokenEnd(s, i))
  }

  /** validate_chunk_extensions. */
  predicate ExtensionsOk(s: seq<byte>, i: nat)
    requires i <= |s|
    decreases |s| - i
  {
    i == |s| || match ExtensionEnd(s, i) case None => false case Some(j) => ExtensionsOk(s, j)
  }

  /** parse_chunk_size_line: the size, if the line is well formed and the size fits a size_t. */
  function ChunkSize(line: seq<byte>): Option<nat> {
    var k := HexEnd(line, 0);
    if k == 0 || HexNumber(line[..k]) > SIZE_MAX || !ExtensionsOk(line, k) then None
    else Some(HexNumber(line[..k]))
  }

  method ValidateExtensions(line: seq<byte>, start: nat) returns (ok: bool)
    requires start <= |line|
    ensures ok == ExtensionsOk(line, start)
  {
    hide TokenByte, BlankEnd, TokenEnd, QuotedEnd;
    var cursor := start;
    while cursor < |line|
      invariant start <= cursor <= |line| && ExtensionsOk(line, start) == ExtensionsOk(line, cursor)
    {
      var r := ParseExtension(line, cursor);
      if r.None? { return false; }
      cursor := r.value;
    }
    return true;
  }

  /** One turn of validate_chunk_extensions. */
  method ParseExtension(line: seq<byte>, start: nat) returns (r: Option<nat>)
    requires start < |line|
    ensures r == ExtensionEnd(line, start)
  {
    hide TokenByte, BlankEnd, TokenEnd, ValueEnd, Blank;
    var cursor := SkipBlanks(line, start);
    if cursor == |line| { return None; }
    if line[cursor] != 59 { return None; }
    cursor := SkipBlanks(line, cursor + 1);
    var end := SkipToken(line, cursor);
    if end == cursor { return None; }
    cursor := SkipBlanks(line, end);
    if cursor < |line| && line[cursor] == 61 {
      cursor := SkipBlanks(line, cursor + 1);
      var value := ParseValue(line, cursor);
      if value.None? { return None; }
      cursor := SkipBlanks(line, value.value);
    }
    return Some(cursor);
  }

  /** An extension's value: a quoted string or a token. */
  method ParseValue(line: seq<byte>, start: nat) returns (r: Option<nat>)
    requires start <= |line|
    ensures r == ValueEnd(line, start)
  {
    hide TokenByte, TokenEnd, QuotedEnd;
    if start < |line| && line[start] == 34 {
      r := SkipQuoted(line, start + 1);
    } else {
      var end := SkipToken(line, start);
      if end == start { return None; }
      return Some(end);
    }
  }

  lemma HexNext(s: seq<byte>, k: nat)
    requires k < |s| && forall i :: 0 <= i <= k ==> HexByte(s[i])
    ensures HexNumber(s[..k + 1]) == 16 * HexNumber(s[..k]) + HexValue(s[k])
  {
    var t := s[..k + 1];
    assert t[..k] == s[..k];
  }

  /** More digits never give a smaller number. */
  lemma {:induction false} HexGrows(s: seq<byte>, j: nat, k: nat)
    requires j <= k <= |s| && forall i :: 0 <= i < k ==> HexByte(s[i])
    ensures HexNumber(s[..j]) <= HexNumber(s[..k])
  {
    if j < k {
      HexGrows(s, j, k - 1);
      HexNext(s, k - 1);
    }
  }

  method ParseSizeLine(line: seq<byte>) returns (r: Option<nat>)
    ensures r == ChunkSize(line)
  {
    hide HexByte, HexValue, ExtensionsOk;
    var cursor, value := 0, 0;
    ghost var k := HexEnd(line, 0);
    while cursor < |line|
      invariant cursor <= k && HexEnd(line, 0) == HexEnd(line, cursor)
      invariant value == HexNumber(line[..cursor]) && value <= SIZE_MAX
    {
      if !HexByte(line[cursor]) { break; }
      HexDigitSmall(line[cursor]);
      var digit := HexValue(line[cursor]);
      HexNext(line, cursor);
      HexGrows(line, cursor + 1, k);
      if value > (SIZE_MAX - digit) / 16 { return None; }
      value := value * 16 + digit;
      cursor := cursor + 1;
    }
    if cursor == 0 { return None; }
    var ok := ValidateExtensions(line, cursor);
    if !ok { return None; }
    return Some(value);
  }

  lemma HexDigitSmall(c: byte)
    requires HexByte(c)
    ensures HexValue(c) < 16
  {
  }

  // --------------------------------------------------------------------------------------
  // An accepted size line holds no control byte, so it cannot hide a line end

  lemma ValuePrintable(s: seq<byte>, i: nat)
    requires i <= |s| && ValueEnd(s, i).Some?
    ensures forall k :: i <= k < ValueEnd(s, i).value ==> Printable(s[k])
  {
    hide TokenByte;
    forall k | i <= k < ValueEnd(s, i).value ensures Printable(s[k]) {
      TokenIsPrintable(s[k]);
    }
  }

  lemma ExtensionPrintable(s: seq<byte>, i: nat)
    requires i <= |s| && ExtensionEnd(s, i).Some?
    ensures forall k :: i <= k < ExtensionEnd(s, i).value ==> Printable(s[k])
  {
    hide TokenByte, ValueEnd, BlankEnd, TokenEnd;
    var semicolon := BlankEnd(s, i);
    var name := BlankEnd(s, semicolon + 1);
    var end := TokenEnd(s, name);
    var after := BlankEnd(s, end);
    forall k | i <= k < after ensures Printable(s[k]) {
      TokenIsPrintable(s[k]);
    }
    if after < |s| && s[after] == 61 {
      var value := BlankEnd(s, after + 1);
      ValuePrintable(s, value);
    }
  }

  lemma {:induction false} ExtensionsPrintable(s: seq<byte>, i: nat)
    requires i <= |s| && ExtensionsOk(s, i)
    ensures forall k :: i <= k < |s| ==> Printable(s[k])
    decreases |s| - i
  {
    hide ExtensionEnd, Printable;
    if i < |s| {
      ExtensionPrintable(s, i);
      ExtensionsPrintable(s, ExtensionEnd(s, i).value);
    }
  }

  lemma HexIsPrintable(c: byte)
    ensures HexByte(c) ==> Printable(c)
  {
  }

  lemma SizeLineIsPrintable(line: seq<byte>)
    requires ChunkSize(line).Some?
    ensures AllPrintable(line)
  {
    hide HexByte, Printable, ExtensionsOk, HexNumber;
    var k := HexEnd(line, 0);
    ExtensionsPrintable(line, k);
    forall i | 0 <= i < |line| ensures Printable(line[i]) {
      HexIsPrintable(line[i]);
    }
  }

  lemma PrintableIsBreakFree(line: seq<byte>)
    requires AllPrintable(line)
    ensures BreakFree(line)
  {
    forall i: nat ensures !BreakAt(line, i) {
      assert i < |line| ==> Printable(line[i]);
    }
  }

  // --------------------------------------------------------------------------------------
  // Trailers

  predicate Forbidden(name: seq<byte>) {
    || SameIgnoringCase(name, Text("connection"))
    || SameIgnoringCase(name, Text("content-length"))
    || SameIgnoringCase(name, Text("host"))
    || SameIgnoringCase(name, Text("location"))
    || SameIgnoringCase(name, Text("te"))
    || SameIgnoringCase(name, Text("trailer"))
    || SameIgnoringCase(name, Text("transfer-encoding"))
    || SameIgnoringCase(name, Text("upgrade"))
  }

  predicate TrailerLine(line: seq<byte>) {
    HeaderView(line).Some? && !Forbidden(HeaderView(line).value.name)
  }

  /** validate_chunk_trailers: where the trailer section of `t` ends, from the line at `cursor`. */
  function Trailers(t: seq<byte>, cursor: nat): (r: Result<nat>)
    requires cursor <= |t|
    ensures r.Ok? ==> cursor < r.value <= |t| && r.value <= MAX_TRAILER
    decreases |t| - cursor
  {
    var limit := if |t| > MAX_TRAILER then MAX_TRAILER else |t|;
    if cursor > MAX_TRAILER then Err(ChunkMetadataTooLarge)
    else
      match CrlfAt(t[cursor..limit])
      case None => Err(if |t| > MAX_TRAILER then ChunkMetadataTooLarge else TruncatedBody)
      case Some(0) => Ok(cursor + 2)
      case Some(n) =>
        if !TrailerLine(t[cursor..cursor + n]) then Err(MalformedChunkedBody)
        else Trailers(t, cursor + n + 2)
  }

  method ValidateTrailers(t: seq<byte>) returns (r: Result<nat>)
    ensures r == Trailers(t, 0)
  {
    hide TrailerLine, HeaderView, Forbidden;
    var cursor := 0;
    while true
      invariant cursor <= |t| && Trailers(t, 0) == Trailers(t, cursor)
      decreases |t| - cursor
    {
      if cursor > MAX_TRAILER { return Err(ChunkMetadataTooLarge); }
      var limit := if |t| > MAX_TRAILER then MAX_TRAILER else |t|;
      var end := FindCrlf(t, cursor, limit);
      if end.None? {
        return Err(if |t| > MAX_TRAILER then ChunkMetadataTooLarge else TruncatedBody);
      }
      if end.value + 2 > MAX_TRAILER { return Err(ChunkMetadataTooLarge); }
      if end.value == cursor { return Ok(end.value + 2); }
      var ok := AcceptTrailer(t[cursor..end.value]);
      if !ok { return Err(MalformedChunkedBody); }
      cursor := end.value + 2;
    }
  }

  method AcceptTrailer(line: seq<byte>) returns (ok: bool)
    ensures ok == TrailerLine(line)
  {
    var header := ParseHeaderView(line);
    return header.Some? && !Forbidden(header.value.name);
  }

  // --------------------------------------------------------------------------------------
  // Bodies

  datatype Decoded = Bad(error: Error) | Good(payload: seq<byte>)

  function Prepend(p: seq<byte>, d: Decoded): Decoded {
    match d case Bad(e) => Bad(e) case Good(q) => Good(p + q)
  }

  /** find_chunk_line_end: the length of the size line at the front. */
  function LineLength(rest: seq<byte>): (r: Result<nat>)
    ensures r.Ok? ==> r.value + 2 <= |rest| && r.value <= MAX_LINE && BreakAt(rest, r.value)
  {
    var limit := if |rest| > MAX_LINE + 2 then MAX_LINE + 2 else |rest|;
    match CrlfAt(rest[..limit])
    case Some(n) => Ok(n)
    case None => Err(if |rest| > MAX_LINE then ChunkMetadataTooLarge else TruncatedBody)
  }

  /** What follows a size line: the chunk's bytes and its line end, or why not. */
  function ChunkData(after: seq<byte>, size: nat): (r: Result<seq<byte>>)
    ensures r.Ok? ==> size + 2 <= |after| && r.value == after[..size]
  {
    if size > |after| || |after| - size < 2 then Err(TruncatedBody)
    else if after[size] != CR || after[size + 1] != LF then Err(MalformedChunkedBody)
    else Ok(after[..size])
  }

  function LastChunk(after: seq<byte>): Decoded {
    match Trailers(after, 0)
    case Err(e) => Bad(e)
    case Ok(end) => if end != |after| then Bad(UnexpectedExtraData) else Good([])
  }

  /** The payload of the chunked body `rest`, when `framing` bytes of framing precede it. */
  function Decode(rest: seq<byte>, framing: nat): Decoded
    requires framing <= MAX_FRAMING
    decreases |rest|
  {
    match LineLength(rest)
    case Err(e) => Bad(e)
    case Ok(n) =>
      if n + 2 > MAX_FRAMING - framing then Bad(ChunkMetadataTooLarge)
      else
        match ChunkSize(rest[..n])
        case None => Bad(MalformedChunkedBody)
        case Some(size) =>
          var after := rest[n + 2..];
          if size == 0 then LastChunk(after)
          else
            match ChunkData(after, size)
            case Err(e) => Bad(e)
            case Ok(data) =>
              if framing + n + 2 > MAX_FRAMING - 2 then Bad(ChunkMetadataTooLarge)
              else Prepend(data, Decode(after[size + 2..], framing + n + 4))
  }
}
