/** kernel/http_client.c: the lexical rules of HTTP/1.1 messages. */
module HttpText {
  import opened Bytes
  import opened Options

  const SIZE_MAX: nat := U64_MAX

  datatype Error =
    | HeaderTooLarge | MalformedStatusLine | UnsupportedVersion | MalformedHeader | InvalidContentLength
    | ConflictingFraming | UnsupportedTransferEncoding | MalformedChunkedBody | ChunkMetadataTooLarge
    | TruncatedBody | UnexpectedExtraData | InvalidRedirectLocation | InvalidInformationalFraming
    | TooManyInformationalResponses | InformationalWithoutFinal | UnsupportedProtocolSwitch | InvalidArgument

  datatype Result<+T> = Ok(value: T) | Err(error: Error)

  const CR: byte := 13
  const LF: byte := 10
  const TAB: byte := 9
  const SPACE: byte := 32
  const CRLF: seq<byte> := [CR, LF]

  /** valid_header_name_byte: letters, digits and the punctuation of a token. */
  predicate TokenByte(c: byte) {
    || 97 <= c <= 122 || 65 <= c <= 90 || 48 <= c <= 57
    || c in [33, 35, 36, 37, 38, 39, 42, 43, 45, 46, 94, 95, 96, 124, 126]
  }

  predicate Blank(c: byte) {
    c == SPACE || c == TAB
  }

  /** No control bytes other than tab: what a line may contain. */
  predicate Printable(c: byte) {
    c == TAB || (c >= 32 && c != 127)
  }

  // --------------------------------------------------------------------------------------
  // Line ends

  predicate BreakAt(s: seq<byte>, i: nat) {
    i + 1 < |s| && s[i] == CR && s[i + 1] == LF
  }

  ghost predicate BreakFree(s: seq<byte>) {
    forall i: nat :: !BreakAt(s, i)
  }

  /** The first line end of `s`. */
  function CrlfAt(s: seq<byte>): (r: Option<nat>)
    ensures r.Some? ==> BreakAt(s, r.value) && forall i: nat :: i < r.value ==> !BreakAt(s, i)
    ensures r.None? ==> BreakFree(s)
  {
    if |s| < 2 then None
    else if BreakAt(s, 0) then Some(0)
    else
      var t := s[1..];
      assert forall i: nat :: i > 0 && BreakAt(s, i) ==> BreakAt(t, i - 1);
      match CrlfAt(t)
      case None => None
      case Some(k) => Some(k + 1)
  }

  /** find_crlf: the first line end at or after `start` and wholly before `limit`. */
  method FindCrlf(s: seq<byte>, start: nat, limit: nat) returns (r: Option<nat>)
    requires start <= limit <= |s|
    ensures r == match CrlfAt(s[start..limit]) case None => None case Some(k) => Some(start + k)
  {
    var t := s[start..limit];
    var i := start;
    while i + 1 < limit
      invariant start <= i <= limit
      invariant forall k: nat :: k < i - start ==> !BreakAt(t, k)
    {
      assert BreakAt(t, i - start) <==> s[i] == CR && s[i + 1] == LF;
      if s[i] == CR && s[i + 1] == LF {
        return Some(i);
      }
      i := i + 1;
    }
    return None;
  }

  /** A line followed by its end is found whole. */
  lemma LineFound(line: seq<byte>, rest: seq<byte>)
    requires BreakFree(line)
    ensures CrlfAt(line + CRLF + rest) == Some(|line|)
  {
    var s := line + CRLF + rest;
    assert BreakAt(s, |line|);
    forall i: nat | i < |line| ensures !BreakAt(s, i) {
      assert !BreakAt(line, i);
      assert s[i] == line[i];
      assert i + 1 < |line| ==> s[i + 1] == line[i + 1];
    }
  }

  /** Looking at a longer piece does not move the first line end. */
  lemma CrlfPrefix(s: seq<byte>, n: nat)
    requires n <= |s|
    ensures CrlfAt(s[..n]).Some? ==> CrlfAt(s) == CrlfAt(s[..n])
    ensures CrlfAt(s).Some? && CrlfAt(s).value + 2 <= n ==> CrlfAt(s[..n]) == CrlfAt(s)
    ensures CrlfAt(s[..n]).None? && CrlfAt(s).Some? ==> CrlfAt(s).value + 2 > n
  {
    hide CrlfAt;
    var t := s[..n];
    assert forall i: nat :: i + 1 < n ==> (BreakAt(t, i) <==> BreakAt(s, i));
    if CrlfAt(t).Some? { assert BreakAt(s, CrlfAt(t).value); }
    if CrlfAt(s).Some? && CrlfAt(s).value + 2 <= n { assert BreakAt(t, CrlfAt(s).value); }
  }

  // --------------------------------------------------------------------------------------
  // Blanks, tokens and quoted strings: each function gives where the piece ends

  function BlankEnd(s: seq<byte>, i: nat): (r: nat)
    requires i <= |s|
    ensures i <= r <= |s| && (forall k :: i <= k < r ==> Blank(s[k])) && (r < |s| ==> !Blank(s[r]))
    decreases |s| - i
  {
    if i < |s| && Blank(s[i]) then BlankEnd(s, i + 1) else i
  }

  method SkipBlanks(s: seq<byte>, i: nat) returns (r: nat)
    requires i <= |s|
    ensures r == BlankEnd(s, i)
  {
    r := i;
    while r < |s| && Blank(s[r])
      invariant i <= r <= |s| && BlankEnd(s, i) == BlankEnd(s, r)
    {
      r := r + 1;
    }
  }

  function TokenEnd(s: seq<byte>, i: nat): (r: nat)
    requires i <= |s|
    ensures i <= r <= |s| && (forall k :: i <= k < r ==> TokenByte(s[k])) && (r < |s| ==> !TokenByte(s[r]))
    decreases |s| - i
  {
    if i < |s| && TokenByte(s[i]) then TokenEnd(s, i + 1) else i
  }

  /** parse_token: the end of a nonempty token, or `i` itself. */
  method SkipToken(s: seq<byte>, i: nat) returns (r: nat)
    requires i <= |s|
    ensures r == TokenEnd(s, i)
  {
    r := i;
    while r < |s| && TokenByte(s[r])
      invariant i <= r <= |s| && TokenEnd(s, i) == TokenEnd(s, r)
    {
      r := r + 1;
    }
  }

  predicate EscapedByte(c: byte) {
    32 <= c <= 126 || c == TAB || c >= 128
  }

  predicate QuotedByte(c: byte) {
    c == TAB || c == 32 || c == 33 || 35 <= c <= 91 || 93 <= c <= 126 || c >= 128
  }

  /** From inside a quoted string to just after its closing quote. */
  function QuotedEnd(s: seq<byte>, i: nat): (r: Option<nat>)
    requires i <= |s|
    ensures r.Some? ==> i < r.value <= |s| && forall k :: i <= k < r.value ==> Printable(s[k])
    decreases |s| - i
  {
    if i == |s| then None
    else if s[i] == 34 then Some(i + 1)
    else if s[i] == 92 then
      (if i + 1 < |s| && EscapedByte(s[i + 1]) then QuotedEnd(s, i + 2) else None)
    else if QuotedByte(s[i]) then QuotedEnd(s, i + 1)
    else None
  }

  /** parse_quoted_string, after the opening quote. */
  method SkipQuoted(s: seq<byte>, i: nat) returns (r: Option<nat>)
    requires i <= |s|
    ensures r == QuotedEnd(s, i)
  {
    var cursor := i;
    while cursor < |s|
      invariant i <= cursor <= |s| && QuotedEnd(s, i) == QuotedEnd(s, cursor)
    {
      if s[cursor] == 34 { return Some(cursor + 1); }
      if s[cursor] == 92 {
        if cursor + 1 >= |s| || !EscapedByte(s[cursor + 1]) { return None; }
        cursor := cursor + 2;
      } else {
        if !QuotedByte(s[cursor]) { return None; }
        cursor := cursor + 1;
      }
    }
    return None;
  }

  // --------------------------------------------------------------------------------------
  // Header lines

  datatype Header = Header(name: seq<byte>, value: seq<byte>)

  /** Where the blanks before `hi` begin, but not before `lo`. */
  function BlankStart(s: seq<byte>, lo: nat, hi: nat): (r: nat)
    requires lo <= hi <= |s|
    ensures lo <= r <= hi && (forall k :: r <= k < hi ==> Blank(s[k])) && (lo < r ==> !Blank(s[r - 1]))
  {
    if lo < hi && Blank(s[hi - 1]) then BlankStart(s, lo, hi - 1) else hi
  }

  function Trimmed(s: seq<byte>): seq<byte> {
    var start := BlankEnd(s, 0);
    s[start..BlankStart(s, start, |s|)]
  }

  predicate AllPrintable(s: seq<byte>) {
    forall i :: 0 <= i < |s| ==> Printable(s[i])
  }

  /** parse_header_view: a token, a colon, and a value without surrounding blanks. */
  function HeaderView(line: seq<byte>): Option<Header> {
    var colon := TokenEnd(line, 0);
    if colon == 0 || colon == |line| || line[colon] != 58 then None
    else if AllPrintable(Trimmed(line[colon + 1..])) then Some(Header(line[..colon], Trimmed(line[colon + 1..])))
    else None
  }

  lemma TokenIsPrintable(c: byte)
    ensures TokenByte(c) ==> Printable(c) && c != 58
  {
  }

  lemma TrimmedIsPrintable(s: seq<byte>)
    requires AllPrintable(Trimmed(s))
    ensures AllPrintable(s)
  {
    hide Printable;
    var start := BlankEnd(s, 0);
    var end := BlankStart(s, start, |s|);
    forall k | 0 <= k < |s| ensures Printable(s[k]) {
      if start <= k < end {
        assert s[k] == Trimmed(s)[k - start];
      } else {
        BlankIsPrintable(s[k]);
      }
    }
  }

  lemma BlankIsPrintable(c: byte)
    ensures Blank(c) ==> Printable(c)
  {
  }

  /** An accepted header line holds no control byte but tab. */
  lemma HeaderLineIsPrintable(line: seq<byte>)
    requires HeaderView(line).Some?
    ensures AllPrintable(line)
  {
    hide TokenByte, Trimmed;
    var colon := TokenEnd(line, 0);
    TrimmedIsPrintable(line[colon + 1..]);
    forall i | 0 <= i < |line| ensures Printable(line[i]) {
      TokenIsPrintable(line[i]);
      if i > colon {
        assert line[i] == line[colon + 1..][i - colon - 1];
      }
    }
  }

  method ParseHeaderView(line: seq<byte>) returns (r: Option<Header>)
    ensures r == HeaderView(line)
  {
    hide TokenByte, Printable, Trimmed;
    var colon := FindColon(line);
    if colon == 0 || colon == |line| || line[colon] != 58 { return None; }
    var value := TrimBlanks(line[colon + 1..]);
    for i := 0 to |value|
      invariant forall k :: 0 <= k < i ==> Printable(value[k])
    {
      if !Printable(value[i]) { return None; }
    }
    return Some(Header(line[..colon], value));
  }

  /** The name's end: the first byte that is a colon or not part of a token. */
  method FindColon(line: seq<byte>) returns (colon: nat)
    ensures colon == TokenEnd(line, 0)
  {
    colon := 0;
    while colon < |line| && line[colon] != 58
      invariant colon <= |line| && TokenEnd(line, 0) == TokenEnd(line, colon)
    {
      if !TokenByte(line[colon]) { return; }
      colon := colon + 1;
    }
    assert !TokenByte(58);
  }

  /** The value span: the two cursors that walk in from both ends. */
  method TrimBlanks(s: seq<byte>) returns (r: seq<byte>)
    ensures r == Trimmed(s)
  {
    var start := SkipBlanks(s, 0);
    var end := |s|;
    while end > start && Blank(s[end - 1])
      invariant start <= end <= |s| && BlankStart(s, start, |s|) == BlankStart(s, start, end)
    {
      end := end - 1;
    }
    r := s[start..end];
  }
}
