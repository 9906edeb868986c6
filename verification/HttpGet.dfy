/** kernel/http_client.c: the text of a GET request. */
module HttpGet {
  import opened Bytes
  import opened Buffers
  import U = UrlPath

  /** The buffer of a request (NETWORK_HTTP_REQUEST_CAPACITY). */
  const REQUEST_CAPACITY: nat := 1024
  const SPACE: byte := 32

  /** What a request line can carry: visible ASCII. */
  predicate Printable(s: seq<byte>) {
    forall i :: 0 <= i < |s| ==> 32 < s[i] < 127
  }

  /** valid_host. */
  predicate ValidHost(host: seq<byte>) {
    host != [] && Printable(host) && forall i :: 0 <= i < |host| ==> host[i] != U.SLASH
  }

  /** valid_path. */
  predicate ValidPath(path: seq<byte>) {
    path != [] && path[0] == U.SLASH && Printable(path)
  }

  /** "GET ", " HTTP/1.1", the Host field's name, and the fields after it. */
  const METHOD: seq<byte> := [71, 69, 84, SPACE]
  const VERSION: seq<byte> := [SPACE, 72, 84, 84, 80, 47, 49, 46, 49, 13, 10, 72, 111, 115, 116, 58, SPACE]
  const FIELDS: seq<byte> := CRLF + Text("Connection: close") + CRLF + Text("User-Agent: Nostalux/1.0") + CRLF
                             + Text("Accept: */*") + CRLF + CRLF
  const CRLF: seq<byte> := [13, 10]

  function GetText(host: seq<byte>, path: seq<byte>): (r: seq<byte>)
    ensures |r| == |METHOD| + |path| + |VERSION| + |host| + |FIELDS|
  {
    METHOD + path + VERSION + host + FIELDS
  }

  datatype Get = Built(text: seq<byte>) | BadHost | BadPath | TooLarge

  function Build(host: seq<byte>, path: seq<byte>, capacity: nat): (r: Get)
    ensures r.Built? ==> 0 < |r.text| <= capacity
  {
    if !ValidHost(host) then BadHost
    else if !ValidPath(path) then BadPath
    else if |GetText(host, path)| > capacity then TooLarge
    else Built(GetText(host, path))
  }

  lemma FieldsLength()
    ensures |METHOD| == 4 && |VERSION| == 17 && |FIELDS| == 62
  {
    assert |Text("Connection: close")| == 17 && |Text("User-Agent: Nostalux/1.0")| == 24 && |Text("Accept: */*")| == 11;
  }

  /** append_bytes: all of it or nothing. */
  method AppendText(output: array<byte>, length: nat, text: seq<byte>) returns (ok: bool, after: nat)
    modifies output
    ensures ok <==> length + |text| <= output.Length
    ensures after == if ok then length + |text| else length
    ensures ok ==> output[..after] == old(output[..length]) + text
    ensures !ok ==> output[..] == old(output[..])
  {
    if length > output.Length || |text| > output.Length - length { return false, length; }
    Store(output, length, text);
    assert output[..length + |text|] == output[..length] + output[length..length + |text|];
    return true, length + |text|;
  }

  method CheckHost(host: seq<byte>) returns (ok: bool)
    ensures ok == ValidHost(host)
  {
    if host == [] { return false; }
    for i := 0 to |host|
      invariant forall k :: 0 <= k < i ==> 32 < host[k] < 127 && host[k] != U.SLASH
    {
      if host[i] <= 32 || host[i] >= 127 || host[i] == U.SLASH { return false; }
    }
    return true;
  }

  method CheckPath(path: seq<byte>) returns (ok: bool)
    ensures ok == ValidPath(path)
  {
    if path == [] || path[0] != U.SLASH { return false; }
    for i := 0 to |path|
      invariant forall k :: 0 <= k < i ==> 32 < path[k] < 127
    {
      if path[i] <= 32 || path[i] >= 127 { return false; }
    }
    return true;
  }

  /** http_client_build_get: five pieces into a fixed buffer. */
  method BuildGet(host: seq<byte>, path: seq<byte>, output: array<byte>) returns (r: Get, length: nat)
    modifies output
    ensures r == Build(host, path, output.Length)
    ensures r.Built? ==> length == |r.text| <= output.Length && output[..length] == r.text
    ensures !r.Built? ==> length == 0
  {
    hide ValidHost, ValidPath;
    length := 0;
    var ok := CheckHost(host);
    if !ok { return BadHost, 0; }
    ok := CheckPath(path);
    if !ok { return BadPath, 0; }
    var n;
    ok, n := AppendText(output, 0, METHOD);
    if !ok { return TooLarge, 0; }
    assert output[..n] == METHOD;
    ok, n := AppendText(output, n, path);
    if !ok { return TooLarge, 0; }
    ok, n := AppendText(output, n, VERSION);
    if !ok { return TooLarge, 0; }
    ok, n := AppendText(output, n, host);
    if !ok { return TooLarge, 0; }
    ok, n := AppendText(output, n, FIELDS);
    if !ok { return TooLarge, 0; }
    ghost var text := output[..n];
    assert text == GetText(host, path);
    if n < output.Length {
      output[n] := 0;
    }
    assert output[..n] == text;
    return Built(GetText(host, path)), n;
  }

  // --------------------------------------------------------------------------------------
  // A request names one host and one path

  lemma SpacesMeet(a: seq<byte>, x: seq<byte>, b: seq<byte>, y: seq<byte>)
    requires Printable(a) && Printable(b) && a + [SPACE] + x == b + [SPACE] + y
    ensures |a| <= |b|
  {
    var s := a + [SPACE] + x;
    assert s == b + [SPACE] + y && s[|b|] == SPACE;
    assert forall i :: 0 <= i < |a| ==> s[i] == a[i];
  }

  /** A printable text ends at the first space. */
  lemma PrintableEnds(a: seq<byte>, x: seq<byte>, b: seq<byte>, y: seq<byte>)
    requires Printable(a) && Printable(b) && a + [SPACE] + x == b + [SPACE] + y
    ensures a == b && x == y
  {
    SpacesMeet(a, x, b, y);
    SpacesMeet(b, y, a, x);
    var s, t := a + [SPACE] + x, b + [SPACE] + y;
    assert a == s[..|a|] && b == t[..|a|];
    assert x == s[|a| + 1..] && y == t[|a| + 1..];
  }

  /** The text determines host and path: nothing in them can end the line or the field early. */
  lemma GetIsUnambiguous(h1: seq<byte>, p1: seq<byte>, h2: seq<byte>, p2: seq<byte>)
    requires ValidHost(h1) && ValidPath(p1) && ValidHost(h2) && ValidPath(p2) && GetText(h1, p1) == GetText(h2, p2)
    ensures h1 == h2 && p1 == p2
  {
    var t1, t2 := VERSION[1..] + h1 + FIELDS, VERSION[1..] + h2 + FIELDS;
    AfterMethod(h1, p1);
    AfterMethod(h2, p2);
    PrintableEnds(p1, t1, p2, t2);
    Inner(VERSION[1..], h1, FIELDS);
    Inner(VERSION[1..], h2, FIELDS);
  }

  lemma AfterMethod(host: seq<byte>, path: seq<byte>)
    ensures GetText(host, path)[|METHOD|..] == path + [SPACE] + (VERSION[1..] + host + FIELDS)
  {
    assert VERSION == [SPACE] + VERSION[1..];
    Regroup(METHOD, path, [SPACE], VERSION[1..], host, FIELDS);
  }

  lemma Regroup(a: seq<byte>, b: seq<byte>, c: seq<byte>, d: seq<byte>, e: seq<byte>, f: seq<byte>)
    ensures (a + b + (c + d) + e + f)[|a|..] == b + c + (d + e + f)
  {
  }

  lemma Inner(a: seq<byte>, b: seq<byte>, c: seq<byte>)
    ensures (a + b + c)[|a|..|a + b + c| - |c|] == b
  {
  }
}
