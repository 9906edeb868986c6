/** kernel/network.c: parsing HTTP URLs and resolving redirect references against them. */
module UrlResolve {
  import opened Bytes
  import opened Options
  import opened UrlPath
  import opened UrlNormalize

  const HOSTNAME_CAPACITY: nat := 254
  const AUTHORITY_CAPACITY: nat := HOSTNAME_CAPACITY + 8
  const COLON: byte := 58

  // --------------------------------------------------------------------------------------
  // network_parse_http_url

  predicate Visible(c: byte) {
    c > 32 && c != 127
  }

  predicate AllVisible(s: seq<byte>) {
    forall i :: 0 <= i < |s| ==> Visible(s[i])
  }

  predicate AuthorityByte(c: byte) {
    c > 32 && c != 64 && c != 91 && c != 93
  }

  function Port(s: seq<byte>): nat
    requires forall i :: 0 <= i < |s| ==> 48 <= s[i] <= 57
  {
    if s == [] then 0 else 10 * Port(s[..|s| - 1]) + (s[|s| - 1] as int - 48)
  }

  predicate PortOk(s: seq<byte>) {
    s != [] && (forall i :: 0 <= i < |s| ==> 48 <= s[i] <= 57) && 0 < Port(s) <= 65535
  }

  predicate HostOk(s: seq<byte>) {
    0 < |s| < HOSTNAME_CAPACITY && COLON !in s
  }

  /** A host, or a host, a colon and a port. */
  ghost predicate AuthorityOk(a: seq<byte>) {
    && 0 < |a| < AUTHORITY_CAPACITY
    && (forall i :: 0 <= i < |a| ==> AuthorityByte(a[i]))
    && (HostOk(a) || exists k: nat :: k < |a| && a[k] == COLON && HostOk(a[..k]) && PortOk(a[k + 1..]))
  }

  /** Where the fragment starts, or the end. */
  function FragmentAt(s: seq<byte>, i: nat): (r: nat)
    requires i <= |s|
    ensures i <= r <= |s| && (r < |s| ==> s[r] == HASH) && forall k :: i <= k < r ==> s[k] != HASH
    decreases |s| - i
  {
    if i < |s| && s[i] != HASH then FragmentAt(s, i + 1) else i
  }

  /** The path and query a request line carries: never empty, without the fragment. */
  function RequestPath(rest: seq<byte>): seq<byte> {
    var r := rest[..FragmentAt(rest, 0)];
    if r == [] || r[0] == QUESTION then [SLASH] + r else r
  }

  /** What network_parse_http_url accepts. */
  ghost predicate Parses(url: seq<byte>) {
    && |url| < CAPACITY && HttpUrl(url)
    && var p := PathAt(url, 7);
       AuthorityOk(url[7..p]) && |RequestPath(url[p..])| < CAPACITY && AllVisible(url[p..])
  }

  // --------------------------------------------------------------------------------------
  // Section 5.2.2 of RFC 3986 for references without scheme and authority

  /** A path and a query; the query keeps its question mark. */
  datatype Relative = Relative(path: seq<byte>, query: seq<byte>)

  function RelativeOf(s: seq<byte>): (r: Relative)
    ensures r.path + r.query == s && QUESTION !in r.path && (r.query == [] || r.query[0] == QUESTION)
  {
    var q := MarkAt(s, 0);
    Relative(s[..q], s[q..])
  }

  /** Where the query starts, or the end. */
  function MarkAt(s: seq<byte>, i: nat): (r: nat)
    requires i <= |s|
    ensures i <= r <= |s| && (r < |s| ==> s[r] == QUESTION) && forall k :: i <= k < r ==> s[k] != QUESTION
    decreases |s| - i
  {
    if i < |s| && s[i] != QUESTION then MarkAt(s, i + 1) else i
  }

  /** Everything up to and including the last slash. */
  function Directory(p: seq<byte>): (r: seq<byte>)
    ensures |r| <= |p| && r == p[..|r|] && (r != [] ==> r[|r| - 1] == SLASH)
  {
    if p == [] then [] else if p[|p| - 1] == SLASH then p else Directory(p[..|p| - 1])
  }

  /** The merged path and query that a reference stands for, before dot segments go. */
  function Merged(base: Relative, r: Relative): Relative {
    if r.path == [] then Relative(base.path, if r.query != [] then r.query else base.query)
    else if r.path[0] == SLASH then r
    else Relative(Directory(base.path) + r.path, r.query)
  }

  /** The transformed reference of the RFC; only a reference with a path loses dot segments. */
  function Transformed(base: Relative, r: Relative): Relative {
    var t := Merged(base, r);
    if r.path == [] then t else Relative(RemoveDotSegments(t.path, []), t.query)
  }

  // --------------------------------------------------------------------------------------
  // network_resolve_redirect_url

  datatype Resolution = Refused | Unsupported | Url(url: seq<byte>)

  const HTTP: seq<byte> := [104, 116, 116, 112, 58, 47, 47]

  predicate Secure(s: seq<byte>) {
    |s| >= 8 && SameIgnoringCase(s[..8], Text("https://"))
  }

  predicate Letter(c: byte) {
    65 <= c <= 90 || 97 <= c <= 122
  }

  predicate SchemeByte(c: byte) {
    Letter(c) || 48 <= c <= 57 || c == 43 || c == 45 || c == 46
  }

  /** network_url_has_explicit_scheme: a colon ends a scheme that starts with a letter. */
  predicate HasScheme(s: seq<byte>) {
    s != [] && Letter(s[0]) && SchemeFrom(s, 1)
  }

  predicate SchemeFrom(s: seq<byte>, i: nat)
    requires i <= |s|
    decreases |s| - i
  {
    i < |s| && (s[i] == COLON || (SchemeByte(s[i]) && SchemeFrom(s, i + 1)))
  }

  method CheckScheme(s: seq<byte>) returns (ok: bool)
    ensures ok == HasScheme(s)
  {
    if s == [] || !Letter(s[0]) { return false; }
    var i := 1;
    while i < |s|
      invariant 1 <= i <= |s| && SchemeFrom(s, 1) == SchemeFrom(s, i)
    {
      if s[i] == COLON { return true; }
      if !SchemeByte(s[i]) { return false; }
      i := i + 1;
    }
    return false;
  }

  method FindFragment(s: seq<byte>) returns (r: nat)
    ensures r == FragmentAt(s, 0)
  {
    r := 0;
    while r < |s| && s[r] != HASH
      invariant r <= |s| && FragmentAt(s, 0) == FragmentAt(s, r)
    {
      r := r + 1;
    }
  }

  method FindMark(s: seq<byte>) returns (r: nat)
    ensures r == MarkAt(s, 0)
  {
    r := 0;
    while r < |s| && s[r] != QUESTION
      invariant r <= |s| && MarkAt(s, 0) == MarkAt(s, r)
    {
      r := r + 1;
    }
  }

  /** The length of the directory, by remembering the last slash seen. */
  method DirectoryLength(p: seq<byte>) returns (length: nat)
    ensures length == |Directory(p)|
  {
    length := 0;
    for i := 0 to |p|
      invariant length == |Directory(p[..i])|
    {
      assert p[..i + 1][..i] == p[..i];
      if p[i] == SLASH { length := i + 1; }
    }
    assert p[..|p|] == p;
  }

  /** The absolute URL a fragment-free reference stands for, before normalization. */
  function Absolute(host: seq<byte>, path: seq<byte>, r: seq<byte>): seq<byte> {
    if HttpUrl(r) then r
    else if |r| >= 2 && r[0] == SLASH && r[1] == SLASH then HTTP[..5] + r
    else
      var t := Merged(RelativeOf(path), RelativeOf(r));
      HTTP + host + t.path + t.query
  }

  /** What the redirect machinery does with a Location of a request to `host` for `path`. */
  ghost function Resolve(host: seq<byte>, path: seq<byte>, location: seq<byte>): Resolution {
    var r := location[..FragmentAt(location, 0)];
    if |location| >= CAPACITY || r == [] then Refused
    else if Secure(r) || (!HttpUrl(r) && HasScheme(r)) then Unsupported
    else if |Absolute(host, path, r)| >= CAPACITY then Refused
    else
      match Normalized(Absolute(host, path, r))
      case None => Refused
      case Some(url) => if Parses(url) then Url(url) else Refused
  }

  /** network_resolve_redirect_url up to the final parse of the result. */
  method BuildTarget(host: seq<byte>, path: seq<byte>, location: seq<byte>) returns (r: Resolution)
    ensures r == (var ref := location[..FragmentAt(location, 0)];
                  if |location| >= CAPACITY || ref == [] then Refused
                  else if Secure(ref) || (!HttpUrl(ref) && HasScheme(ref)) then Unsupported
                  else if |Absolute(host, path, ref)| >= CAPACITY then Refused
                  else match Normalized(Absolute(host, path, ref)) case None => Refused case Some(url) => Url(url))
  {
    hide Normalized, Merged, RelativeOf, SameIgnoringCase;
    if |location| >= CAPACITY { return Refused; }
    var end := FindFragment(location);
    var ref := location[..end];
    if ref == [] { return Refused; }
    if Secure(ref) { return Unsupported; }
    var http := StartsWithHttp(ref);
    var url;
    if http {
      url := ref;
    } else {
      var scheme := CheckScheme(ref);
      if scheme { return Unsupported; }
      if |ref| >= 2 && ref[0] == SLASH && ref[1] == SLASH {
        url := HTTP[..5] + ref;
      } else {
        url := Append(host, path, ref);
      }
    }
    if |url| >= CAPACITY { return Refused; }
    var normal := Normalize(url);
    if normal.None? { return Refused; }
    return Url(normal.value);
  }

  /** The relative cases: absolute path, query only, or relative path. */
  method Append(host: seq<byte>, path: seq<byte>, ref: seq<byte>) returns (url: seq<byte>)
    requires ref != []
    ensures url == (var t := Merged(RelativeOf(path), RelativeOf(ref)); HTTP + host + t.path + t.query)
  {
    hide Directory;
    ghost var b, r := RelativeOf(path), RelativeOf(ref);
    RelativeStart(ref);
    assert HTTP + host + r.path + r.query == HTTP + host + (r.path + r.query);
    if ref[0] == SLASH { return HTTP + host + ref; }
    var length := FindMark(path);
    if ref[0] == QUESTION {
      assert r.query == ref;
      return HTTP + host + path[..length] + ref;
    }
    var directory := DirectoryLength(path[..length]);
    assert path[..length] == b.path;
    assert path[..directory] == b.path[..directory] == Directory(b.path);
    url := HTTP + host + path[..directory] + ref;
    assert url == HTTP + host + (Directory(b.path) + r.path) + r.query;
  }

  lemma RelativeStart(ref: seq<byte>)
    requires ref != []
    ensures var r := RelativeOf(ref);
            && (r.path == [] <==> ref[0] == QUESTION) && (r.path != [] ==> r.path[0] == ref[0])
            && (r.path == [] ==> r.query == ref)
  {
  }

  // --------------------------------------------------------------------------------------
  // It is the RFC's transformation

  predicate PlainHost(host: seq<byte>) {
    host != [] && forall i :: 0 <= i < |host| ==> host[i] != SLASH && host[i] != QUESTION && host[i] != HASH
  }

  lemma {:induction false} HostEnds(url: seq<byte>, host: seq<byte>, i: nat, k: nat)
    requires PlainHost(host) && k <= |host| && i == 7 + k && 7 + |host| < |url|
    requires url[..7 + |host|] == HTTP + host && url[7 + |host|] == SLASH
    ensures PathAt(url, i) == 7 + |host|
    decreases |host| - k
  {
    if k < |host| {
      assert url[i] == url[..7 + |host|][i] == host[k];
      HostEnds(url, host, i + 1, k + 1);
    }
  }

  lemma HttpPrefix(url: seq<byte>)
    requires |url| >= 7 && url[..7] == HTTP
    ensures HttpUrl(url)
  {
    assert forall i :: 0 <= i < 7 ==> url[i] == url[..7][i];
  }

  /** An absolute URL put together from parts splits back into them. */
  lemma SplitOfParts(host: seq<byte>, path: seq<byte>, query: seq<byte>)
    requires PlainHost(host) && path != [] && path[0] == SLASH && PathBytes(path)
    requires query == [] || query[0] == QUESTION
    ensures Split(HTTP + host + path + query) == Some(Parts(7 + |host|, 7 + |host| + |path|))
  {
    hide PathAt, QueryAt;
    var url := HTTP + host + path + query;
    var p, q := 7 + |host|, 7 + |host| + |path|;
    assert url[..7] == HTTP;
    HttpPrefix(url);
    assert url[..p] == HTTP + host && url[p] == path[0];
    HostEnds(url, host, 7, 0);
    forall k | p <= k < q ensures url[k] != QUESTION && url[k] != HASH {
      assert url[k] == path[k - p];
    }
    assert q < |url| ==> url[q] == query[0];
    QueryAtIs(url, p, q);
  }

  lemma NormalOfParts(host: seq<byte>, path: seq<byte>, query: seq<byte>)
    requires PlainHost(host) && path != [] && path[0] == SLASH && PathBytes(path)
    requires query == [] || query[0] == QUESTION
    ensures Normalized(HTTP + host + path + query) == Some(HTTP + host + RemoveDotSegments(path, []) + query)
  {
    hide Split, RemoveDotSegments;
    var url := HTTP + host + path + query;
    SplitOfParts(host, path, query);
    var p, q := 7 + |host|, 7 + |host| + |path|;
    assert url[..p] == HTTP + host && url[p..q] == path && url[q..] == query;
  }

  /** A relative reference resolves to the URL of section 5.2.2 of RFC 3986: for every base whose
      path is rooted and without dot segments, and every reference without scheme and authority. */
  lemma RelativeResolves(host: seq<byte>, path: seq<byte>, ref: seq<byte>)
    requires PlainHost(host) && path != [] && path[0] == SLASH && PathBytes(RelativeOf(path).path)
    requires Rooted(RelativeOf(path).path) && DotFree(RelativeOf(path).path)
    requires ref != [] && HASH !in ref && !HttpUrl(ref) && !(|ref| >= 2 && ref[0] == SLASH && ref[1] == SLASH)
    ensures var t := Transformed(RelativeOf(path), RelativeOf(ref));
            Normalized(Absolute(host, path, ref)) == Some(HTTP + host + t.path + t.query)
  {
    hide RemoveDotSegments, DotFree, Normalized, Directory;
    var b, r := RelativeOf(path), RelativeOf(ref);
    var t := Merged(b, r);
    RelativeStart(ref);
    RelativeStart(path);
    assert PathBytes(r.path) by {
      forall i | 0 <= i < |r.path| ensures PathByte(r.path[i]) {
        assert r.path[i] == (r.path + r.query)[i] == ref[i];
        assert r.path[i] in r.path && ref[i] in ref;
      }
    }
    DirectoryRooted(b.path);
    NormalOfParts(host, t.path, t.query);
    if r.path == [] {
      DotFreeIsFixed(b.path, []);
      assert [] + b.path == b.path;
    }
  }

  lemma {:induction false} DirectoryRooted(p: seq<byte>)
    requires p != [] && p[0] == SLASH && PathBytes(p)
    ensures Directory(p) != [] && Directory(p)[0] == SLASH && PathBytes(Directory(p))
    decreases |p|
  {
    if p[|p| - 1] != SLASH {
      DirectoryRooted(p[..|p| - 1]);
    }
  }

  // --------------------------------------------------------------------------------------
  // The parser's loops

  lemma PortNext(s: seq<byte>, k: nat)
    requires k < |s| && forall i :: 0 <= i <= k ==> 48 <= s[i] <= 57
    ensures Port(s[..k + 1]) == 10 * Port(s[..k]) + (s[k] as int - 48)
  {
    assert s[..k + 1][..k] == s[..k];
  }

  lemma {:induction false} PortGrows(s: seq<byte>, j: nat, k: nat)
    requires j <= k <= |s| && forall i :: 0 <= i < k ==> 48 <= s[i] <= 57
    ensures Port(s[..j]) <= Port(s[..k])
  {
    if j < k {
      PortGrows(s, j, k - 1);
      PortNext(s, k - 1);
    }
  }

  method CheckPort(s: seq<byte>) returns (ok: bool)
    ensures ok == PortOk(s)
  {
    hide Port;
    if s == [] { return false; }
    var port := 0;
    assert s[..|s|] == s;
    NoDigits(s);
    for i := 0 to |s|
      invariant (forall k :: 0 <= k < i ==> 48 <= s[k] <= 57) && port == Port(s[..i]) <= 65535
    {
      if s[i] < 48 || s[i] > 57 { return false; }
      PortNext(s, i);
      port := port * 10 + (s[i] as int - 48);
      if port > 65535 {
        if forall k :: 0 <= k < |s| ==> 48 <= s[k] <= 57 { PortGrows(s, i + 1, |s|); }
        return false;
      }
    }
    return port != 0;
  }

  lemma NoDigits(s: seq<byte>)
    ensures Port(s[..0]) == 0
  {
  }

  lemma ColonBefore(a: seq<byte>, i: nat, j: nat)
    requires i < |a| && j <= |a| && a[i] == COLON
    ensures i < j ==> COLON in a[..j]
  {
    if i < j { assert a[..j][i] == COLON; }
  }

  /** A text with one colon at most splits at it. */
  lemma ColonSplits(a: seq<byte>, k: nat)
    requires k < |a| && a[k] == COLON && COLON !in a[..k]
    ensures !HostOk(a)
    ensures (exists j: nat :: j < |a| && a[j] == COLON && HostOk(a[..j]) && PortOk(a[j + 1..])) <==> HostOk(a[..k]) && PortOk(a[k + 1..])
  {
    hide PortOk;
    forall j: nat | j < |a| && a[j] == COLON && HostOk(a[..j]) && PortOk(a[j + 1..]) ensures j == k {
      ColonBefore(a, k, j);
      ColonBefore(a, j, k);
    }
  }

  method CheckAuthority(a: seq<byte>) returns (ok: bool)
    ensures ok == AuthorityOk(a)
  {
    hide PortOk, AuthorityByte;
    if |a| == 0 || |a| >= AUTHORITY_CAPACITY { return false; }
    for i := 0 to |a|
      invariant forall k :: 0 <= k < i ==> AuthorityByte(a[k])
    {
      if !AuthorityByte(a[i]) { return false; }
    }
    var colon := 0;
    while colon < |a| && a[colon] != COLON
      invariant colon <= |a| && COLON !in a[..colon]
    {
      assert a[..colon + 1] == a[..colon] + [a[colon]];
      colon := colon + 1;
    }
    if colon == |a| {
      assert a[..|a|] == a;
      return |a| < HOSTNAME_CAPACITY;
    }
    ColonSplits(a, colon);
    if colon == 0 || colon >= HOSTNAME_CAPACITY { return false; }
    ok := CheckPort(a[colon + 1..]);
  }

  /** network_parse_http_url, as far as acceptance goes. */
  method ParseUrl(url: seq<byte>) returns (ok: bool)
    ensures ok == Parses(url)
  {
    hide AuthorityOk, Visible, RequestPath, PathAt;
    if |url| >= CAPACITY { return false; }
    var http := StartsWithHttp(url);
    if !http { return false; }
    var p := FindPath(url);
    var authority := CheckAuthority(url[7..p]);
    if !authority { return false; }
    if |RequestPath(url[p..])| >= CAPACITY { return false; }
    var rest := url[p..];
    for i := 0 to |rest|
      invariant forall k :: 0 <= k < i ==> Visible(rest[k])
    {
      if !Visible(rest[i]) { return false; }
    }
    return true;
  }

  /** The authority and the request path of a URL. */
  function HostOf(url: seq<byte>): seq<byte>
    requires |url| >= 7
  {
    url[7..PathAt(url, 7)]
  }

  function PathOf(url: seq<byte>): seq<byte>
    requires |url| >= 7
  {
    RequestPath(url[PathAt(url, 7)..])
  }

  /** network_resolve_redirect_url for a request to `url`. */
  method ResolveRedirect(url: seq<byte>, location: seq<byte>) returns (r: Resolution)
    requires |url| >= 7
    ensures r == Resolve(HostOf(url), PathOf(url), location)
    ensures r.Url? ==> |r.url| < CAPACITY && Normalized(r.url) == Some(r.url) && Parses(r.url)
  {
    hide Normalized, Parses, Absolute, Secure, HttpUrl, HasScheme;
    r := BuildTarget(HostOf(url), PathOf(url), location);
    if r.Url? {
      ghost var absolute := Absolute(HostOf(url), PathOf(url), location[..FragmentAt(location, 0)]);
      NormalizeIsIdempotent(absolute);
      var ok := ParseUrl(r.url);
      ParsedIsShort(r.url);
      if !ok { return Refused; }
    }
  }

  lemma ParsedIsShort(url: seq<byte>)
    ensures Parses(url) ==> |url| < CAPACITY
  {
    hide AuthorityOk, RequestPath;
  }

  lemma {:induction false} PathBeforeFragment(url: seq<byte>, i: nat)
    requires i <= FragmentAt(url, 0)
    ensures PathAt(url[..FragmentAt(url, 0)], i) == PathAt(url, i)
    decreases |url| - i
  {
    hide FragmentAt;
    var f := url[..FragmentAt(url, 0)];
    if i < |f| {
      assert f[i] == url[i];
      PathBeforeFragment(url, i + 1);
    }
  }

  /** A part of the URL before its fragment, from its path on. */
  lemma PlainPart(url: seq<byte>, lo: nat, hi: nat)
    requires HttpUrl(url) && AllVisible(url[PathAt(url, 7)..])
    requires PathAt(url, 7) <= lo <= hi <= FragmentAt(url, 0)
    ensures forall k :: lo <= k < hi ==> Visible(url[k]) && url[k] != HASH
  {
    hide Visible, HttpUrl, PathAt;
    forall k | lo <= k < hi ensures Visible(url[k]) {
      assert url[k] == url[PathAt(url, 7)..][k - PathAt(url, 7)];
    }
  }

  /** The path and the query of a normalized URL hold visible bytes only, and no number sign. */
  lemma NormalBytes(url: seq<byte>, f: seq<byte>)
    requires HttpUrl(url) && AllVisible(url[PathAt(url, 7)..]) && f == url[..FragmentAt(url, 0)]
    requires |f| < CAPACITY && Normalized(f).Some? && PathAt(f, 7) == PathAt(url, 7)
    ensures AllVisible(Normalized(f).value[Split(f).value.path..]) && HASH !in Normalized(f).value[Split(f).value.path..]
  {
    hide RemoveDotSegments, HttpUrl, Visible, PathAt, QueryAt, Normal;
    var at := Split(f).value;
    var path, query := f[at.path..at.query], f[at.query..];
    PlainPart(url, at.path, at.query);
    PlainPart(url, at.query, |f|);
    assert forall k :: 0 <= k < |path| ==> path[k] == url[at.path + k];
    assert forall k :: 0 <= k < |query| ==> query[k] == url[at.query + k];
    SlashIsVisible();
    NormalTail(f, set c: byte | Visible(c) && c != HASH);
  }

  /** Path and query of a normalized URL hold no byte but those of the original's, and a slash. */
  lemma NormalTail(f: seq<byte>, good: set<byte>)
    requires Normalized(f).Some? && SLASH in good
    requires var at := Split(f).value; Within(f[at.path..at.query], good) && Within(f[at.query..], good)
    ensures Within(Normalized(f).value[Split(f).value.path..], good)
  {
    hide RemoveDotSegments, Split;
    var at := Split(f).value;
    var path, query := f[at.path..at.query], f[at.query..];
    if at.path < at.query { ResultBytes(path, [], good); }
    var clean := if at.path == at.query then [SLASH] else RemoveDotSegments(path, []);
    assert Normalized(f).value[at.path..] == clean + query;
  }

  lemma SlashIsVisible()
    ensures Visible(SLASH) && SLASH != HASH
  {
  }

  lemma SameScheme(url: seq<byte>, n: seq<byte>)
    requires HttpUrl(url) && |n| >= 7 && n[..7] == url[..7]
    ensures HttpUrl(n)
  {
    assert forall i :: 0 <= i < 7 ==> n[i] == n[..7][i] == url[..7][i] == url[i];
  }

  lemma SamePrefix(url: seq<byte>, n: seq<byte>, p: nat)
    requires 7 <= p <= |url| && p <= |n| && n[..p] == url[..p]
    ensures n[..7] == url[..7] && n[7..p] == url[7..p]
  {
    assert forall k :: 0 <= k < p ==> n[k] == n[..p][k] == url[..p][k] == url[k];
  }

  /** What parses still parses without its fragment and with its path in normal form: the
      request's own URL never fails to parse again. */
  lemma NormalParses(url: seq<byte>)
    requires Parses(url) && Normalized(url[..FragmentAt(url, 0)]).Some?
    ensures Parses(Normalized(url[..FragmentAt(url, 0)]).value)
  {
    hide RemoveDotSegments, DotFree, HttpUrl, AuthorityOk, Visible, FragmentAt, Normal;
    var f := url[..FragmentAt(url, 0)];
    PathBeforeFragment(url, 7);
    var at, n := Split(f).value, Normalized(f).value;
    NormalizedShape(f);
    NormalBytes(url, f);
    assert f[..at.path] == url[..at.path];
    PathAtAgrees(f, n, 7, at.path);
    SamePrefix(url, n, at.path);
    SameScheme(url, n);
    var rest := n[at.path..];
    WholeFragment(rest);
    assert rest[..|rest|] == rest;
  }

  /** The URL fills the buffer and has no path, so the slash it needs has no room. */
  predicate LacksRoom(url: seq<byte>)
    requires |url| >= 7
  {
    FragmentAt(url, 0) == CAPACITY - 1 && (PathAt(url, 7) == |url| || url[PathAt(url, 7)] != SLASH)
  }

  /** The URLs that parse and are refused all the same. */
  lemma RefusedForRoom(url: seq<byte>)
    requires Parses(url)
    ensures |url| >= 7 && (Normalized(url[..FragmentAt(url, 0)]).None? <==> LacksRoom(url))
  {
    hide Normalized, AuthorityOk, AllVisible, HttpUrl, RequestPath, PathAt, FragmentAt;
    var end, p := FragmentAt(url, 0), PathAt(url, 7);
    var f := url[..end];
    SchemeHasNoHash(url, end);
    PathBeforeFragment(url, 7);
    AuthorityIsLong(url[7..p]);
    RoomIff(f);
    if p < end { assert f[p] == url[p]; }
  }

  lemma RoomIff(f: seq<byte>)
    requires HttpUrl(f) && PathAt(f, 7) > 7 && |f| < CAPACITY && forall k :: 0 <= k < |f| ==> f[k] != HASH
    ensures Normalized(f).None? <==> |f| == CAPACITY - 1 && (PathAt(f, 7) == |f| || f[PathAt(f, 7)] != SLASH)
  {
    hide RemoveDotSegments, HttpUrl, PathAt, Normal, QueryAt;
  }

  lemma SchemeHasNoHash(url: seq<byte>, end: nat)
    requires HttpUrl(url) && end <= |url| && (end < |url| ==> url[end] == HASH)
    ensures end >= 7 && HttpUrl(url[..end])
  {
    var prefix := Text("http://");
    assert prefix[0] == 104 && prefix[1] == 116 && prefix[2] == 116 && prefix[3] == 112 && prefix[4] == 58 && prefix[5] == 47 && prefix[6] == 47;
    assert forall i :: 0 <= i < 7 ==> Lower(url[i]) == prefix[i];
  }

  lemma AuthorityIsLong(a: seq<byte>)
    requires AuthorityOk(a)
    ensures 0 < |a| < AUTHORITY_CAPACITY && forall i :: 0 <= i < |a| ==> a[i] > 32
  {
  }

  /** Such a URL: a host and a query that fill the buffer. */
  function LongQuery(): seq<byte> {
    HTTP + [97, QUESTION] + seq(CAPACITY - 10, _ => 120)
  }

  lemma LongQueryIsRefused()
    ensures Parses(LongQuery()) && |LongQuery()| >= 7 && LacksRoom(LongQuery())
  {
    var url := LongQuery();
    assert |url| == CAPACITY - 1;
    assert url[..7] == HTTP;
    HttpPrefix(url);
    assert url[7] == 97 && url[8] == QUESTION;
    assert PathAt(url, 8) == 8;
    assert PathAt(url, 7) == 8;
    assert url[7..8] == [97];
    assert HostOk([97]);
    assert forall k :: 0 <= k < |url| ==> url[k] != HASH;
    assert HASH !in url[8..];
    WholeFragment(url);
    WholeFragment(url[8..]);
    forall i | 0 <= i < |url[8..]| ensures Visible(url[8..][i]) {}
  }

  // --------------------------------------------------------------------------------------
  // No fragment is ever fetched

  predicate NotHash(c: byte) {
    c != HASH
  }

  function NotHashes(): set<byte> {
    set c: byte | NotHash(c)
  }

  lemma HashFreeIff(s: seq<byte>)
    ensures HASH !in s <==> Within(s, NotHashes())
  {
  }

  /** Normalizing, merging and splitting bring in no byte but slashes and those of the scheme. */
  lemma NormalWithin(f: seq<byte>, good: set<byte>)
    requires Normalized(f).Some? && Within(f, good) && SLASH in good
    ensures Within(Normalized(f).value, good)
  {
    hide RemoveDotSegments;
    var at := Split(f).value;
    if at.path < at.query { ResultBytes(f[at.path..at.query], [], good); }
  }

  lemma AbsoluteWithin(host: seq<byte>, path: seq<byte>, r: seq<byte>, good: set<byte>)
    requires Within(host, good) && Within(path, good) && Within(r, good) && Within(HTTP, good)
    ensures Within(Absolute(host, path, r), good)
  {
    hide HttpUrl, RelativeOf, Merged;
    var b, t := RelativeOf(path), RelativeOf(r);
    InFront(b.path, b.query, good);
    InFront(t.path, t.query, good);
    MergedWithin(b, t, good);
  }

  lemma MergedWithin(b: Relative, r: Relative, good: set<byte>)
    requires Within(b.path, good) && Within(b.query, good) && Within(r.path, good) && Within(r.query, good)
    ensures Within(Merged(b, r).path, good) && Within(Merged(b, r).query, good)
  {
    hide Directory;
    assert Directory(b.path) == b.path[..|Directory(b.path)|];
  }

  lemma InFront(a: seq<byte>, b: seq<byte>, good: set<byte>)
    requires Within(a + b, good)
    ensures Within(a, good) && Within(b, good)
  {
    assert forall i :: 0 <= i < |a| ==> a[i] == (a + b)[i];
    assert forall i :: 0 <= i < |b| ==> b[i] == (a + b)[|a| + i];
  }

  lemma PartsWithin(url: seq<byte>, good: set<byte>)
    requires |url| >= 7 && Within(url, good) && SLASH in good
    ensures Within(HostOf(url), good) && Within(PathOf(url), good)
  {
    hide PathAt, FragmentAt;
  }

  lemma HashFreeNormal(f: seq<byte>)
    requires Normalized(f).Some? && HASH !in f
    ensures HASH !in Normalized(f).value
  {
    hide Normalized;
    HashFreeIff(f);
    NormalWithin(f, NotHashes());
    HashFreeIff(Normalized(f).value);
  }

  lemma HashFreeTarget(url: seq<byte>, ref: seq<byte>)
    requires |url| >= 7 && HASH !in url && HASH !in ref
    ensures HASH !in Absolute(HostOf(url), PathOf(url), ref)
  {
    hide Absolute, HostOf, PathOf;
    HashFreeIff(url);
    HashFreeIff(ref);
    assert HASH !in HTTP;
    HashFreeIff(HTTP);
    PartsWithin(url, NotHashes());
    AbsoluteWithin(HostOf(url), PathOf(url), ref, NotHashes());
    HashFreeIff(Absolute(HostOf(url), PathOf(url), ref));
  }

  /** Where a redirect leads: a reference without scheme and authority to the target of section
      5.2.2 of RFC 3986, any other to its own URL with the path in normal form. */
  ghost predicate LeadsTo(url: seq<byte>, location: seq<byte>, next: seq<byte>)
    requires |url| >= 7
  {
    var ref := location[..FragmentAt(location, 0)];
    if HttpUrl(ref) then Normalized(ref) == Some(next)
    else if |ref| >= 2 && ref[0] == SLASH && ref[1] == SLASH then Normalized(HTTP[..5] + ref) == Some(next)
    else
      var t := Transformed(RelativeOf(PathOf(url)), RelativeOf(ref));
      next == HTTP + HostOf(url) + t.path + t.query
  }

  lemma TargetIsRfc(url: seq<byte>, location: seq<byte>)
    requires |url| < CAPACITY && Normalized(url) == Some(url) && HASH !in url
    ensures |url| >= 7
    ensures var t := Resolve(HostOf(url), PathOf(url), location); t.Url? ==> LeadsTo(url, location, t.url) && HASH !in t.url
  {
    hide Normalized, Parses, Secure, HttpUrl, HasScheme, HostOf, PathOf, RelativeOf, Merged, Transformed, Rooted, DotFree, PathBytes, PlainHost;
    NormalUrlIsBase(url);
    var t := Resolve(HostOf(url), PathOf(url), location);
    if t.Url? {
      var ref := location[..FragmentAt(location, 0)];
      assert HASH !in ref;
      HashFreeTarget(url, ref);
      HashFreeNormal(Absolute(HostOf(url), PathOf(url), ref));
      if !HttpUrl(ref) && !(|ref| >= 2 && ref[0] == SLASH && ref[1] == SLASH) {
        RelativeResolves(HostOf(url), PathOf(url), ref);
      }
    }
  }

  /** A normal URL that parses is a base the RFC's transformation applies to. */
  lemma NormalUrlIsBase(url: seq<byte>)
    requires |url| < CAPACITY && Normalized(url) == Some(url) && HASH !in url
    ensures |url| >= 7 && PlainHost(HostOf(url)) && PathOf(url) != [] && PathOf(url)[0] == SLASH
    ensures var b := RelativeOf(PathOf(url)).path;
            PathBytes(b) && Rooted(b) && DotFree(b)
  {
    hide RemoveDotSegments, DotFree, MarkAt, FragmentAt, Split, Normal;
    NormalHasPath(url);
    var at := Split(url).value;
    var p, q := at.path, at.query;
    SplitFacts(url);
    var rest := url[p..];
    WholeFragment(rest);
    assert rest[..|rest|] == rest && PathOf(url) == rest;
    MarkIs(url, p, q, 0);
    assert RelativeOf(rest).path == rest[..q - p] == url[p..q];
  }

  lemma NormalHasPath(url: seq<byte>)
    requires |url| < CAPACITY && Normalized(url) == Some(url)
    ensures var at := Split(url).value;
            at.path < at.query && Rooted(url[at.path..at.query]) && DotFree(url[at.path..at.query])
  {
    hide RemoveDotSegments, DotFree, Split;
    NormalizedShape(url);
  }

  lemma SplitFacts(url: seq<byte>)
    requires Split(url).Some? && Split(url).value.path < Split(url).value.query && HASH !in url
    ensures var at := Split(url).value;
            && PathAt(url, 7) == at.path && url[at.path] == SLASH && PlainHost(url[7..at.path])
            && PathBytes(url[at.path..at.query]) && (forall k :: at.path <= k < at.query ==> url[k] != QUESTION)
            && (at.query < |url| ==> url[at.query] == QUESTION)
  {
    hide HttpUrl;
    var at := Split(url).value;
    assert forall k :: 0 <= k < |url| ==> url[k] in url;
  }

  lemma {:induction false} WholeFragmentFrom(s: seq<byte>, i: nat)
    requires i <= |s| && forall k :: i <= k < |s| ==> s[k] != HASH
    ensures FragmentAt(s, i) == |s|
  {
  }

  lemma WholeFragment(s: seq<byte>)
    requires HASH !in s
    ensures FragmentAt(s, 0) == |s|
  {
    WholeFragmentFrom(s, 0);
  }

  lemma {:induction false} MarkIs(url: seq<byte>, p: nat, q: nat, i: nat)
    requires p <= q <= |url| && i <= q - p
    requires forall k :: p <= k < q ==> url[k] != QUESTION
    requires q < |url| ==> url[q] == QUESTION
    ensures MarkAt(url[p..], i) == q - p
    decreases q - p - i
  {
    if i < q - p {
      assert url[p..][i] == url[p + i];
      MarkIs(url, p, q, i + 1);
    } else if q < |url| {
      assert url[p..][i] == url[q];
    }
  }
}
