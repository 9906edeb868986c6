/** kernel/http_client.c: whole responses, from the status line to the decoded body. */
module HttpResponse {
  import opened Bytes
  import opened Options
  import opened Buffers
  import opened HttpText
  import opened HttpHead
  import Chunked
  import ChunkedGrammar
  import ChunkedWalk

  const MAX_INFORMATIONAL: nat := 8

  // --------------------------------------------------------------------------------------
  // Status line

  /** What the status line says: "HTTP/1.x ddd", then nothing or a blank and a reason. */
  function Status(line: seq<byte>): Result<nat> {
    if |line| < 12 || line[..7] != Text("HTTP/1.") || line[8] != SPACE
       || !AllDigits(line[9..12]) || (|line| > 12 && line[12] != SPACE) then Err(MalformedStatusLine)
    else if line[7] != 48 && line[7] != 49 then Err(UnsupportedVersion)
    else if |line| > 13 && !AllPrintable(line[13..]) then Err(MalformedStatusLine)
    else
      var code := Decimal(line[9..12]);
      if code < 100 || code > 599 then Err(MalformedStatusLine) else Ok(code)
  }

  lemma DecimalOfThree(a: byte, b: byte, c: byte)
    requires Digit(a) && Digit(b) && Digit(c)
    ensures AllDigits([a, b, c]) && Decimal([a, b, c]) == (a - 48) * 100 + (b - 48) * 10 + (c - 48)
  {
    assert [a, b, c][..2] == [a, b];
    assert [a, b][..1] == [a];
    assert [a][..0] == [];
    assert Decimal([a]) == a - 48;
    assert Decimal([a, b]) == 10 * Decimal([a]) + (b - 48);
  }

  lemma ThreeDigits(a: byte, b: byte, c: byte)
    ensures AllDigits([a, b, c]) <==> Digit(a) && Digit(b) && Digit(c)
  {
    var s := [a, b, c];
    assert s[0] == a && s[1] == b && s[2] == c;
  }

  method ParseStatus(line: seq<byte>) returns (r: Result<nat>)
    ensures r == Status(line)
  {
    hide AllPrintable, Text;
    if |line| < 12 || line[..7] != Text("HTTP/1.") || line[8] != SPACE { return Err(MalformedStatusLine); }
    assert line[9..12] == [line[9], line[10], line[11]];
    ThreeDigits(line[9], line[10], line[11]);
    if !Digit(line[9]) || !Digit(line[10]) || !Digit(line[11]) || (|line| > 12 && line[12] != SPACE) {
      return Err(MalformedStatusLine);
    }
    DecimalOfThree(line[9], line[10], line[11]);
    if line[7] != 48 && line[7] != 49 { return Err(UnsupportedVersion); }
    if |line| > 13 {
      var printable := CheckPrintable(line[13..]);
      if !printable { return Err(MalformedStatusLine); }
    }
    var code := (line[9] as int - 48) * 100 + (line[10] as int - 48) * 10 + (line[11] as int - 48);
    if code < 100 || code > 599 { return Err(MalformedStatusLine); }
    return Ok(code);
  }

  method CheckPrintable(s: seq<byte>) returns (ok: bool)
    ensures ok == AllPrintable(s)
  {
    hide Printable;
    for i := 0 to |s|
      invariant forall k :: 0 <= k < i ==> Printable(s[k])
    {
      if !Printable(s[i]) { return false; }
    }
    return true;
  }

  // --------------------------------------------------------------------------------------
  // The end of the header

  predicate SeparatorAt(s: seq<byte>, i: nat) {
    i + 3 < |s| && s[i] == CR && s[i + 1] == LF && s[i + 2] == CR && s[i + 3] == LF
  }

  function FirstSeparator(s: seq<byte>, from: nat): (r: Option<nat>)
    requires from <= |s|
    ensures r.Some? ==> from <= r.value && SeparatorAt(s, r.value)
                        && forall i: nat :: from <= i < r.value ==> !SeparatorAt(s, i)
    ensures r.None? ==> forall i: nat :: from <= i ==> !SeparatorAt(s, i)
    decreases |s| - from
  {
    if from + 3 >= |s| then None
    else if SeparatorAt(s, from) then Some(from)
    else FirstSeparator(s, from + 1)
  }

  method FindSeparator(s: seq<byte>, from: nat) returns (r: Option<nat>)
    requires from <= |s|
    ensures r == FirstSeparator(s, from)
  {
    var i := from;
    while i + 3 < |s|
      invariant from <= i <= |s| && FirstSeparator(s, from) == FirstSeparator(s, i)
    {
      if SeparatorAt(s, i) { return Some(i); }
      i := i + 1;
    }
    return None;
  }

  // --------------------------------------------------------------------------------------
  // Redirect targets

  predicate UriByte(c: byte) {
    || 97 <= c <= 122 || 65 <= c <= 90 || 48 <= c <= 57
    || c in [45, 46, 95, 126, 58, 47, 63, 35, 91, 93, 64, 33, 36, 38, 39, 40, 41, 42, 43, 44, 59, 61]
  }

  /** valid_uri_reference from `i`: allowed bytes and whole percent escapes. */
  predicate UriFrom(s: seq<byte>, i: nat)
    requires i <= |s|
    decreases |s| - i
  {
    if i == |s| then true
    else if s[i] == 37 then
      i + 2 < |s| && Chunked.HexByte(s[i + 1]) && Chunked.HexByte(s[i + 2]) && UriFrom(s, i + 3)
    else UriByte(s[i]) && UriFrom(s, i + 1)
  }

  predicate ValidUri(s: seq<byte>) {
    s != [] && UriFrom(s, 0)
  }

  method CheckUri(s: seq<byte>) returns (ok: bool)
    ensures ok == ValidUri(s)
  {
    hide UriByte;
    if s == [] { return false; }
    var i := 0;
    while i < |s|
      invariant i <= |s| && UriFrom(s, 0) == UriFrom(s, i)
    {
      if s[i] == 37 {
        if i + 2 >= |s| || !Chunked.HexByte(s[i + 1]) || !Chunked.HexByte(s[i + 2]) { return false; }
        i := i + 3;
      } else {
        if !UriByte(s[i]) { return false; }
        i := i + 1;
      }
    }
    return true;
  }

  predicate Redirects(code: nat) {
    code == 300 || code == 301 || code == 302 || code == 303 || code == 307 || code == 308
  }

  // --------------------------------------------------------------------------------------
  // One message head

  datatype Head = Head(code: nat, fields: Fields, bodyStart: nat)

  function HeaderLimit(s: seq<byte>): nat {
    if |s| < MAX_HEADER then |s| else MAX_HEADER
  }

  function TooLargeOr(s: seq<byte>, e: Error): Error {
    if |s| >= MAX_HEADER then HeaderTooLarge else e
  }

  /** The rules that span fields: one framing only, no unknown coding, a usable target. */
  function CheckFields(code: nat, f: Fields): Option<Error> {
    if f.encoded && f.length.Some? then Some(ConflictingFraming)
    else if f.codings.unsupported then Some(UnsupportedTransferEncoding)
    else if Redirects(code) && f.location.Some? && !ValidUri(f.location.value) then Some(InvalidRedirectLocation)
    else None
  }

  /** The field block between the status line and the empty line. */
  function FieldBlock(s: seq<byte>, statusEnd: nat, separator: nat): seq<byte>
    requires separator + 4 <= |s| && statusEnd <= separator
  {
    if separator < statusEnd + 2 then [] else s[statusEnd + 2..separator]
  }

  /** parse_response_head at `start`. */
  function HeadAt(s: seq<byte>, start: nat): (r: Result<Head>)
    requires start <= |s|
    ensures r.Ok? ==> start + 4 <= r.value.bodyStart <= HeaderLimit(s)
  {
    var limit := HeaderLimit(s);
    if start >= |s| || start >= limit then Err(TooLargeOr(s, MalformedStatusLine))
    else
      match CrlfAt(s[start..limit])
      case None => Err(TooLargeOr(s, MalformedStatusLine))
      case Some(n) =>
        match Status(s[start..start + n])
        case Err(e) => Err(e)
        case Ok(code) =>
          match FirstSeparator(s[..limit], start + n)
          case None => Err(TooLargeOr(s, MalformedHeader))
          case Some(sep) => HeadFields(s, code, start + n, sep)
  }

  function HeadFields(s: seq<byte>, code: nat, statusEnd: nat, sep: nat): (r: Result<Head>)
    requires statusEnd <= sep && sep + 4 <= |s|
    ensures r.Ok? ==> r.value.bodyStart == sep + 4
  {
    match FieldsFrom(FieldBlock(s, statusEnd, sep), 0, NO_FIELDS)
    case Err(e) => Err(e)
    case Ok(f) =>
      match CheckFields(code, f)
      case Some(e) => Err(e)
      case None => Ok(Head(code, f, sep + 4))
  }

  method ParseHead(s: seq<byte>, start: nat) returns (r: Result<Head>)
    requires start <= |s|
    ensures r == HeadAt(s, start)
  {
    hide CrlfAt, Status, FirstSeparator, HeadFields;
    var limit := HeaderLimit(s);
    if start >= |s| || start >= limit { return Err(TooLargeOr(s, MalformedStatusLine)); }
    var statusEnd := FindCrlf(s, start, limit);
    if statusEnd.None? { return Err(TooLargeOr(s, MalformedStatusLine)); }
    var code := ParseStatus(s[start..statusEnd.value]);
    if code.Err? { return Err(code.error); }
    var sep := FindSeparator(s[..limit], statusEnd.value);
    if sep.None? { return Err(TooLargeOr(s, MalformedHeader)); }
    r := ParseHeadFields(s, code.value, statusEnd.value, sep.value);
  }

  method ParseHeadFields(s: seq<byte>, code: nat, statusEnd: nat, sep: nat) returns (r: Result<Head>)
    requires statusEnd <= sep && sep + 4 <= |s|
    ensures r == HeadFields(s, code, statusEnd, sep)
  {
    hide FieldsFrom, ValidUri;
    var f := ParseFields(FieldBlock(s, statusEnd, sep));
    if f.Err? { return Err(f.error); }
    if f.value.encoded && f.value.length.Some? { return Err(ConflictingFraming); }
    if f.value.codings.unsupported { return Err(UnsupportedTransferEncoding); }
    if Redirects(code) && f.value.location.Some? {
      var usable := CheckUri(f.value.location.value);
      if !usable { return Err(InvalidRedirectLocation); }
    }
    return Ok(Head(code, f.value, sep + 4));
  }

  // --------------------------------------------------------------------------------------
  // Informational responses before the final one

  function FinalHead(s: seq<byte>, start: nat, count: nat): (r: Result<Head>)
    requires start <= |s|
    ensures r.Ok? ==> r.value.bodyStart <= HeaderLimit(s) && r.value.code >= 200
    decreases |s| - start
  {
    match HeadAt(s, start)
    case Err(e) => Err(e)
    case Ok(h) =>
      if h.code >= 200 then Ok(h)
      else if h.code == 101 then Err(UnsupportedProtocolSwitch)
      else if h.fields.length.Some? || h.fields.encoded then Err(InvalidInformationalFraming)
      else if count + 1 > MAX_INFORMATIONAL then Err(TooManyInformationalResponses)
      else if h.bodyStart >= |s| then Err(InformationalWithoutFinal)
      else FinalHead(s, h.bodyStart, count + 1)
  }

  method ParseFinalHead(s: seq<byte>) returns (r: Result<Head>)
    ensures r == FinalHead(s, 0, 0)
  {
    hide HeadAt;
    var start, count := 0, 0;
    while true
      invariant start <= |s| && FinalHead(s, 0, 0) == FinalHead(s, start, count)
      decreases |s| - start
    {
      r := ParseHead(s, start);
      if r.Err? { return; }
      var h := r.value;
      if h.code >= 200 { return; }
      if h.code == 101 { return Err(UnsupportedProtocolSwitch); }
      if h.fields.length.Some? || h.fields.encoded { return Err(InvalidInformationalFraming); }
      count := count + 1;
      if count > MAX_INFORMATIONAL { return Err(TooManyInformationalResponses); }
      if h.bodyStart >= |s| { return Err(InformationalWithoutFinal); }
      start := h.bodyStart;
    }
  }

  // --------------------------------------------------------------------------------------
  // The body

  datatype Response = Response(head: Head, body: seq<byte>)

  /** How the bytes after the head make up the body. */
  function BodyOf(h: Head, rest: seq<byte>): Result<seq<byte>> {
    if h.code == 204 || h.code == 304 then (if rest != [] then Err(UnexpectedExtraData) else Ok([]))
    else if h.fields.codings.chunked then
      match Chunked.Decode(rest, 0) case Bad(e) => Err(e) case Good(p) => Ok(p)
    else if h.fields.length.Some? then
      if |rest| < h.fields.length.value then Err(TruncatedBody)
      else if |rest| > h.fields.length.value then Err(UnexpectedExtraData)
      else Ok(rest)
    else Ok(rest)
  }

  /** http_client_parse_response. */
  function Parse(s: seq<byte>): Result<Response> {
    if s == [] then Err(InvalidArgument)
    else
      match FinalHead(s, 0, 0)
      case Err(e) => Err(e)
      case Ok(h) =>
        match BodyOf(h, s[h.bodyStart..])
        case Err(e) => Err(e)
        case Ok(body) => Ok(Response(h, body))
  }

  /** The response in `a[..length]`; a chunked body is compacted in place. The body then lies at
      the head's `bodyStart`, and a rejected response leaves the buffer as it was. */
  method ParseResponse(a: array<byte>, length: nat) returns (r: Result<Head>, bodyLength: nat)
    requires length <= a.Length
    modifies a
    ensures match Parse(old(a[..length]))
            case Err(e) => r == Err(e) && a[..] == old(a[..])
            case Ok(response) =>
              && r == Ok(response.head) && bodyLength == |response.body|
              && response.head.bodyStart + bodyLength <= length
              && a[..] == Overlay(old(a[..]), response.head.bodyStart, response.body)
  {
    hide FinalHead, Chunked.Decode, Overlay;
    bodyLength := 0;
    if length == 0 { return Err(InvalidArgument), 0; }
    ghost var s := a[..length];
    r := ParseFinalHead(a[..length]);
    if r.Err? { return; }
    var h := r.value;
    var available := length - h.bodyStart;
    assert s[h.bodyStart..] == a[h.bodyStart..h.bodyStart + available];
    OverlaySame(a[..], h.bodyStart, available);
    assert a[..][h.bodyStart..h.bodyStart + available] == s[h.bodyStart..];
    if h.code == 204 || h.code == 304 {
      if available != 0 { return Err(UnexpectedExtraData), 0; }
      return;
    }
    if h.fields.codings.chunked {
      var decoded := ChunkedWalk.DecodeBody(a, h.bodyStart, available);
      if decoded.Err? { return Err(decoded.error), 0; }
      bodyLength := decoded.value;
    } else if h.fields.length.Some? {
      if available < h.fields.length.value { return Err(TruncatedBody), 0; }
      if available > h.fields.length.value { return Err(UnexpectedExtraData), 0; }
      bodyLength := h.fields.length.value;
    } else {
      bodyLength := available;
    }
  }

  lemma OverlaySame(s: seq<byte>, at: nat, n: nat)
    requires at + n <= |s|
    ensures Overlay(s, at, s[at..at + n]) == s
    ensures Overlay(s, at, []) == s
  {
  }

  // --------------------------------------------------------------------------------------
  // What an accepted response satisfies

  lemma HeadFieldsOk(s: seq<byte>, start: nat)
    requires start <= |s| && HeadAt(s, start).Ok?
    ensures var f := HeadAt(s, start).value.fields;
            FieldsOk(f) && !(f.encoded && f.length.Some?) && !f.codings.unsupported
  {
    hide CrlfAt, Status, FirstSeparator, FieldsFrom;
    var n := CrlfAt(s[start..HeaderLimit(s)]).value;
    var sep := FirstSeparator(s[..HeaderLimit(s)], start + n).value;
    FieldsFromOk(FieldBlock(s, start + n, sep), 0, NO_FIELDS);
  }

  lemma {:induction false} FinalHeadOk(s: seq<byte>, start: nat, count: nat)
    requires start <= |s| && FinalHead(s, start, count).Ok?
    ensures var f := FinalHead(s, start, count).value.fields;
            FieldsOk(f) && !(f.encoded && f.length.Some?) && !f.codings.unsupported
    decreases |s| - start
  {
    hide HeadAt;
    HeadFieldsOk(s, start);
    var h := HeadAt(s, start).value;
    if h.code < 200 {
      FinalHeadOk(s, h.bodyStart, count + 1);
    }
  }

  lemma {:induction false} FinalHeadTarget(s: seq<byte>, start: nat, count: nat)
    requires start <= |s| && FinalHead(s, start, count).Ok?
    ensures var h := FinalHead(s, start, count).value;
            Redirects(h.code) && h.fields.location.Some? ==> ValidUri(h.fields.location.value)
    decreases |s| - start
  {
    hide HeadAt, ValidUri;
    HeadTarget(s, start);
    var h := HeadAt(s, start).value;
    if h.code < 200 { FinalHeadTarget(s, h.bodyStart, count + 1); }
  }

  lemma HeadTarget(s: seq<byte>, start: nat)
    requires start <= |s| && HeadAt(s, start).Ok?
    ensures var h := HeadAt(s, start).value;
            Redirects(h.code) && h.fields.location.Some? ==> ValidUri(h.fields.location.value)
  {
    hide ValidUri, Redirects, CrlfAt, Status, FirstSeparator, FieldsFrom;
  }

  lemma {:induction false} UriIsAscii(s: seq<byte>, i: nat)
    requires i <= |s| && UriFrom(s, i)
    ensures forall k :: i <= k < |s| ==> s[k] < 127
    decreases |s| - i
  {
    if i < |s| {
      UriIsAscii(s, if s[i] == 37 then i + 3 else i + 1);
    }
  }

  /** The Location of an accepted redirect is a URI reference, so it has no byte from 127 up. */
  lemma RedirectTargetIsAscii(s: seq<byte>)
    requires Parse(s).Ok?
    ensures var h := Parse(s).value.head;
            Redirects(h.code) && h.fields.location.Some? ==>
              ValidUri(h.fields.location.value) && forall k :: 0 <= k < |h.fields.location.value| ==> h.fields.location.value[k] < 127
  {
    hide FinalHead, BodyOf, Redirects, UriFrom;
    FinalHeadTarget(s, 0, 0);
    var h := Parse(s).value.head;
    if Redirects(h.code) && h.fields.location.Some? { UriIsAscii(h.fields.location.value, 0); }
  }

  /** An accepted response has one framing: chunked, or a length, or neither; the length then is
      exact, and every byte after the head belongs to the body. */
  lemma FramingIsUnambiguous(s: seq<byte>)
    requires Parse(s).Ok?
    ensures var r := Parse(s).value;
            var f := r.head.fields;
            && !(f.codings.chunked && f.length.Some?)
            && (f.encoded ==> f.codings.chunked != f.codings.identity)
            && (r.head.code != 204 && r.head.code != 304 && f.length.Some? ==> |r.body| == f.length.value)
            && (r.head.code == 204 || r.head.code == 304 || !f.codings.chunked ==> s == s[..r.head.bodyStart] + r.body)
  {
    hide FinalHead, Chunked.Decode;
    FinalHeadOk(s, 0, 0);
    var h := FinalHead(s, 0, 0).value;
    assert s == s[..h.bodyStart] + s[h.bodyStart..];
  }

  /** NETWORK_TCP_RESPONSE_ALLOWANCE: what network_http_request_start adds to the body capacity. */
  const RESPONSE_ALLOWANCE: nat := MAX_HEADER + Chunked.MAX_TRAILER + Chunked.MAX_FRAMING

  /** A receive buffer of the body capacity plus the allowance holds every response that the
      parser accepts and whose body fits the capacity. */
  lemma ResponseFitsBuffer(s: seq<byte>, bodyCapacity: nat)
    requires Parse(s).Ok? && |Parse(s).value.body| <= bodyCapacity
    ensures |s| <= bodyCapacity + RESPONSE_ALLOWANCE
  {
    hide FinalHead, Chunked.Decode;
    var h := FinalHead(s, 0, 0).value;
    var rest := s[h.bodyStart..];
    if Chunked.Decode(rest, 0).Good? {
      ChunkedGrammar.EncodedLengthBound(rest);
    }
  }
}
