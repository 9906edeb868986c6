/** kernel/http_client.c: status lines and header fields of a response. */
module HttpHead {
  import opened Bytes
  import opened Options
  import opened HttpText
  import Chunked

  const MAX_HEADER: nat := 8192

  // --------------------------------------------------------------------------------------
  // Content-Length

  predicate Digit(c: byte) {
    48 <= c <= 57
  }

  predicate AllDigits(s: seq<byte>) {
    forall i :: 0 <= i < |s| ==> Digit(s[i])
  }

  function Decimal(s: seq<byte>): nat
    requires AllDigits(s)
  {
    if s == [] then 0 else 10 * Decimal(s[..|s| - 1]) + (s[|s| - 1] as int - 48)
  }

  /** parse_content_length: the decimal number, if it is one and fits a size_t. */
  function ContentLength(value: seq<byte>): Option<nat> {
    if value == [] || !AllDigits(value) || Decimal(value) > SIZE_MAX then None else Some(Decimal(value))
  }

  lemma DecimalNext(s: seq<byte>, k: nat)
    requires k < |s| && AllDigits(s[..k + 1])
    ensures AllDigits(s[..k]) && Decimal(s[..k + 1]) == 10 * Decimal(s[..k]) + (s[k] as int - 48)
  {
    var t := s[..k + 1];
    assert t[..k] == s[..k] && t[k] == s[k];
    forall i | 0 <= i < k ensures Digit(s[..k][i]) {
      assert t[i] == s[..k][i];
    }
  }

  lemma {:induction false} DecimalGrows(s: seq<byte>, j: nat)
    requires j <= |s| && AllDigits(s)
    ensures AllDigits(s[..j]) && Decimal(s[..j]) <= Decimal(s)
    decreases |s| - j
  {
    assert s[..|s|] == s;
    if j < |s| {
      assert AllDigits(s[..j + 1]);
      DecimalGrows(s, j + 1);
      DecimalNext(s, j);
    }
  }

  method ParseContentLength(value: seq<byte>) returns (r: Option<nat>)
    ensures r == ContentLength(value)
  {
    if |value| == 0 { return None; }
    var result := 0;
    for i := 0 to |value|
      invariant AllDigits(value[..i]) && result == Decimal(value[..i]) && result <= SIZE_MAX
    {
      if !Digit(value[i]) { return None; }
      assert value[..i + 1] == value[..i] + [value[i]];
      DecimalNext(value, i);
      var digit := value[i] as int - 48;
      if result > (SIZE_MAX - digit) / 10 {
        if AllDigits(value) { DecimalGrows(value, i + 1); }
        return None;
      }
      result := result * 10 + digit;
    }
    assert value[..|value|] == value;
    return Some(result);
  }

  // --------------------------------------------------------------------------------------
  // Transfer-Encoding

  datatype Codings = Codings(chunked: bool, identity: bool, unsupported: bool)

  /** parse_required_parameter: ";" has been read; name "=" value. */
  function ParameterEnd(v: seq<byte>, i: nat): (r: Option<nat>)
    requires i <= |v|
    ensures r.Some? ==> i < r.value <= |v|
  {
    var name := BlankEnd(v, i);
    var end := TokenEnd(v, name);
    var equals := BlankEnd(v, end);
    if end == name || equals == |v| || v[equals] != 61 then None
    else Chunked.ValueEnd(v, BlankEnd(v, equals + 1))
  }

  method ParseParameter(v: seq<byte>, i: nat) returns (r: Option<nat>)
    requires i <= |v|
    ensures r == ParameterEnd(v, i)
  {
    hide BlankEnd, TokenEnd;
    var name := SkipBlanks(v, i);
    var end := SkipToken(v, name);
    if end == name { return None; }
    var equals := SkipBlanks(v, end);
    if equals >= |v| || v[equals] != 61 { return None; }
    var value := SkipBlanks(v, equals + 1);
    r := Chunked.ParseValue(v, value);
  }

  /** Zero or more ";" parameters with the blanks after them. */
  function ParametersEnd(v: seq<byte>, i: nat): (r: Option<nat>)
    requires i <= |v|
    ensures r.Some? ==> i <= r.value <= |v|
    decreases |v| - i
  {
    if i == |v| || v[i] != 59 then Some(i)
    else
      match ParameterEnd(v, i + 1)
      case None => None
      case Some(end) => ParametersEnd(v, BlankEnd(v, end))
  }

  method SkipParameters(v: seq<byte>, i: nat) returns (r: Option<nat>)
    requires i <= |v|
    ensures r == ParametersEnd(v, i)
  {
    hide BlankEnd, ParameterEnd;
    var cursor := i;
    while cursor < |v| && v[cursor] == 59
      invariant i <= cursor <= |v| && ParametersEnd(v, i) == ParametersEnd(v, cursor)
    {
      var end := ParseParameter(v, cursor + 1);
      if end.None? { return None; }
      cursor := SkipBlanks(v, end.value);
    }
    return Some(cursor);
  }

  /** One coding added to those seen so far: nothing may follow chunked or identity, neither
      takes parameters, and identity may not follow another coding. */
  function AddCoding(c: Codings, name: seq<byte>, parameters: bool): Option<Codings> {
    var isChunked := SameIgnoringCase(name, Text("chunked"));
    var isIdentity := SameIgnoringCase(name, Text("identity"));
    if c.chunked || c.identity || ((isChunked || isIdentity) && parameters) then None
    else if isChunked then Some(c.(chunked := true))
    else if isIdentity then (if c.unsupported then None else Some(c.(identity := true)))
    else Some(c.(unsupported := true))
  }

  /** One element of the list: a coding and whether another must follow. */
  datatype Element = Broken | Last(codings: Codings) | More(codings: Codings, next: nat)

  function ElementAt(v: seq<byte>, i: nat, c: Codings): (r: Element)
    requires i <= |v|
    ensures r.More? ==> i < r.next < |v|
  {
    var start := BlankEnd(v, i);
    var end := TokenEnd(v, start);
    var after := BlankEnd(v, end);
    var next := ParametersEnd(v, after);
    if end == start || next.None? then Broken
    else Follow(v, next.value, AddCoding(c, v[start..end], next.value > after))
  }

  /** What follows a coding: the end of the value, or a comma and more. */
  function Follow(v: seq<byte>, i: nat, c: Option<Codings>): (r: Element)
    requires i <= |v|
    ensures r.More? ==> i < r.next < |v|
  {
    var comma := BlankEnd(v, i);
    if c.None? then Broken
    else if comma == |v| then Last(c.value)
    else if v[comma] != 44 || BlankEnd(v, comma + 1) == |v| then Broken
    else More(c.value, BlankEnd(v, comma + 1))
  }

  method ParseElement(v: seq<byte>, i: nat, c: Codings) returns (r: Element)
    requires i <= |v|
    ensures r == ElementAt(v, i, c)
  {
    hide BlankEnd, TokenEnd, ParametersEnd, AddCoding, Follow;
    var start := SkipBlanks(v, i);
    var end := SkipToken(v, start);
    if end == start { return Broken; }
    var after := SkipBlanks(v, end);
    var next := SkipParameters(v, after);
    if next.None? { return Broken; }
    r := ParseFollow(v, next.value, AddCoding(c, v[start..end], next.value > after));
  }

  method ParseFollow(v: seq<byte>, i: nat, c: Option<Codings>) returns (r: Element)
    requires i <= |v|
    ensures r == Follow(v, i, c)
  {
    hide BlankEnd;
    if c.None? { return Broken; }
    var comma := SkipBlanks(v, i);
    if comma == |v| { return Last(c.value); }
    if v[comma] != 44 { return Broken; }
    var next := SkipBlanks(v, comma + 1);
    if next == |v| { return Broken; }
    return More(c.value, next);
  }

  /** parse_transfer_encoding from `i`. */
  function TransferCodings(v: seq<byte>, i: nat, c: Codings): Option<Codings>
    requires i <= |v|
    decreases |v| - i
  {
    match ElementAt(v, i, c)
    case Broken => None
    case Last(d) => Some(d)
    case More(d, next) => TransferCodings(v, next, d)
  }

  method ParseTransferEncoding(v: seq<byte>, seen: Codings) returns (r: Option<Codings>)
    ensures r == TransferCodings(v, 0, seen)
  {
    hide ElementAt;
    var cursor, c := 0, seen;
    while true
      invariant cursor <= |v| && TransferCodings(v, 0, seen) == TransferCodings(v, cursor, c)
      decreases |v| - cursor
    {
      var element := ParseElement(v, cursor, c);
      match element {
        case Broken => return None;
        case Last(d) => return Some(d);
        case More(d, next) => cursor, c := next, d;
      }
    }
  }

  /** After any number of Transfer-Encoding fields at most one of chunked and identity is seen,
      and identity only alone. */
  predicate CodingsOk(c: Codings) {
    !(c.chunked && c.identity) && !(c.identity && c.unsupported)
  }

  lemma ElementOk(v: seq<byte>, i: nat, c: Codings)
    requires i <= |v| && CodingsOk(c)
    ensures var r := ElementAt(v, i, c);
            !r.Broken? ==> CodingsOk(r.codings) && (r.codings.chunked || r.codings.identity || r.codings.unsupported)
  {
    hide BlankEnd, TokenEnd, ParametersEnd, SameIgnoringCase;
  }

  lemma {:induction false} CodingsStayOk(v: seq<byte>, i: nat, c: Codings)
    requires i <= |v| && CodingsOk(c) && TransferCodings(v, i, c).Some?
    ensures CodingsOk(TransferCodings(v, i, c).value)
    ensures var d := TransferCodings(v, i, c).value; d.chunked || d.identity || d.unsupported
    decreases |v| - i
  {
    hide ElementAt;
    ElementOk(v, i, c);
    match ElementAt(v, i, c)
    case Last(_) =>
    case More(d, next) => CodingsStayOk(v, next, d);
  }

  // --------------------------------------------------------------------------------------
  // Header fields

  datatype Fields = Fields(length: Option<nat>, encoded: bool, codings: Codings, location: Option<seq<byte>>)

  const NO_FIELDS := Fields(None, false, Codings(false, false, false), None)

  /** parse_header_line: one field added to those seen so far. */
  function AddField(f: Fields, line: seq<byte>): Result<Fields> {
    match HeaderView(line)
    case None => Err(MalformedHeader)
    case Some(h) =>
      if SameIgnoringCase(h.name, Text("content-length")) then
        match ContentLength(h.value)
        case None => Err(InvalidContentLength)
        case Some(n) =>
          if f.length.Some? && f.length.value != n then Err(InvalidContentLength)
          else Ok(f.(length := Some(n)))
      else if SameIgnoringCase(h.name, Text("transfer-encoding")) then
        if h.value == [] then Err(MalformedHeader)
        else
          match TransferCodings(h.value, 0, f.codings)
          case None => Err(MalformedHeader)
          case Some(c) => Ok(f.(encoded := true, codings := c))
      else if SameIgnoringCase(h.name, Text("location")) then
        if f.location.Some? then Err(MalformedHeader) else Ok(f.(location := Some(h.value)))
      else Ok(f)
  }

  method ParseField(f: Fields, line: seq<byte>) returns (r: Result<Fields>)
    ensures r == AddField(f, line)
  {
    hide HeaderView, ContentLength, TransferCodings, Text;
    var h := ParseHeaderView(line);
    if h.None? { return Err(MalformedHeader); }
    if SameIgnoringCase(h.value.name, Text("content-length")) {
      var n := ParseContentLength(h.value.value);
      if n.None? { return Err(InvalidContentLength); }
      if f.length.Some? && f.length.value != n.value { return Err(InvalidContentLength); }
      return Ok(f.(length := n));
    } else if SameIgnoringCase(h.value.name, Text("transfer-encoding")) {
      if h.value.value == [] { return Err(MalformedHeader); }
      var c := ParseTransferEncoding(h.value.value, f.codings);
      if c.None? { return Err(MalformedHeader); }
      return Ok(f.(encoded := true, codings := c.value));
    } else if SameIgnoringCase(h.value.name, Text("location")) {
      if f.location.Some? { return Err(MalformedHeader); }
      return Ok(f.(location := Some(h.value.value)));
    }
    return Ok(f);
  }

  /** The field lines of `block`, from `cursor` on: separated by line ends, none empty. */
  function FieldsFrom(block: seq<byte>, cursor: nat, f: Fields): Result<Fields>
    requires cursor <= |block|
    decreases |block| - cursor
  {
    if cursor == |block| then Ok(f)
    else
      var found := CrlfAt(block[cursor..]);
      var end := match found case None => |block| case Some(n) => cursor + n;
      if end == cursor then Err(MalformedHeader)
      else
        match AddField(f, block[cursor..end])
        case Err(e) => Err(e)
        case Ok(g) => FieldsFrom(block, if found.None? then end else end + 2, g)
  }

  method ParseFields(block: seq<byte>) returns (r: Result<Fields>)
    ensures r == FieldsFrom(block, 0, NO_FIELDS)
  {
    hide AddField, CrlfAt;
    var cursor, f := 0, NO_FIELDS;
    while cursor < |block|
      invariant cursor <= |block| && FieldsFrom(block, 0, NO_FIELDS) == FieldsFrom(block, cursor, f)
    {
      assert block[cursor..|block|] == block[cursor..];
      var found := FindCrlf(block, cursor, |block|);
      var end := if found.None? then |block| else found.value;
      if end == cursor { return Err(MalformedHeader); }
      var g := ParseField(f, block[cursor..end]);
      if g.Err? { return g; }
      f := g.value;
      cursor := if found.None? then end else end + 2;
    }
    return Ok(f);
  }

  predicate FieldsOk(f: Fields) {
    CodingsOk(f.codings)
    && (f.encoded <==> f.codings.chunked || f.codings.identity || f.codings.unsupported)
  }

  lemma AddFieldOk(f: Fields, line: seq<byte>)
    requires FieldsOk(f) && AddField(f, line).Ok?
    ensures FieldsOk(AddField(f, line).value)
  {
    hide HeaderView, ContentLength, TransferCodings, Text, SameIgnoringCase;
    var h := HeaderView(line).value;
    if TransferCodings(h.value, 0, f.codings).Some? {
      CodingsStayOk(h.value, 0, f.codings);
    }
  }

  lemma {:induction false} FieldsFromOk(block: seq<byte>, cursor: nat, f: Fields)
    requires cursor <= |block| && FieldsOk(f) && FieldsFrom(block, cursor, f).Ok?
    ensures FieldsOk(FieldsFrom(block, cursor, f).value)
    decreases |block| - cursor
  {
    hide AddField;
    if cursor < |block| {
      var found := CrlfAt(block[cursor..]);
      var end := match found case None => |block| case Some(n) => cursor + n;
      AddFieldOk(f, block[cursor..end]);
      FieldsFromOk(block, if found.None? then end else end + 2, AddField(f, block[cursor..end]).value);
    }
  }
}
