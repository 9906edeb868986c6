/** kernel/network.c: the loop of network_normalize_http_url_path over a fixed buffer. */
module UrlNormalize {
  import opened Bytes
  import opened Options
  import opened Buffers
  import opened UrlPath

  method StartsWithHttp(url: seq<byte>) returns (ok: bool)
    ensures ok == HttpUrl(url)
  {
    if |url| < 7 { return false; }
    var prefix := Text("http://");
    for i := 0 to 7
      invariant forall k :: 0 <= k < i ==> Lower(url[k]) == prefix[k]
    {
      if Lower(url[i]) != prefix[i] { return false; }
    }
    return true;
  }

  method FindPath(url: seq<byte>) returns (r: nat)
    requires |url| >= 7
    ensures r == PathAt(url, 7)
  {
    r := 7;
    while r < |url| && url[r] != SLASH && url[r] != QUESTION && url[r] != HASH
      invariant 7 <= r <= |url| && PathAt(url, 7) == PathAt(url, r)
    {
      r := r + 1;
    }
  }

  method FindQuery(url: seq<byte>, path: nat) returns (r: nat)
    requires path <= |url|
    ensures r == QueryAt(url, path)
  {
    r := path;
    while r < |url| && url[r] != QUESTION && url[r] != HASH
      invariant path <= r <= |url| && QueryAt(url, path) == QueryAt(url, r)
    {
      r := r + 1;
    }
  }

  /** The end of the segment at `scan` within a path that ends at `query`. */
  method FindSlash(url: seq<byte>, scan: nat, query: nat) returns (r: nat)
    requires scan <= query <= |url|
    ensures scan <= r <= query && SLASH !in url[scan..r] && (r < query ==> url[r] == SLASH)
  {
    r := scan;
    while r < query && url[r] != SLASH
      invariant scan <= r <= query && SLASH !in url[scan..r]
    {
      assert url[scan..r + 1] == url[scan..r] + [url[r]];
      r := r + 1;
    }
  }

  /** The buffer's path grows by `data`. */
  method Push(buffer: array<byte>, root: nat, write: nat, data: seq<byte>) returns (w: nat)
    requires root <= write && write + |data| <= buffer.Length
    modifies buffer
    ensures w == write + |data| && buffer[..root] == old(buffer[..root])
    ensures buffer[root..w] == old(buffer[root..write]) + data
  {
    ghost var head, path := buffer[..root], buffer[root..write];
    ghost var all := buffer[..write];
    Store(buffer, write, data);
    w := write + |data|;
    assert buffer[..write] == all;
    assert buffer[..root] == buffer[..write][..root] == head;
    assert buffer[root..write] == buffer[..write][root..] == path;
    assert buffer[root..w] == buffer[root..write] + buffer[write..w];
  }

  /** The walk back over the last segment and its slash. */
  method Retreat(buffer: array<byte>, root: nat, write: nat) returns (w: nat)
    requires root <= write <= buffer.Length
    ensures root <= w <= write && buffer[root..w] == RemoveLast(buffer[root..write])
  {
    w := write;
    if w == root { return; }
    if buffer[w - 1] == SLASH {
      assert buffer[root..w][..w - root - 1] == buffer[root..w - 1];
      return w - 1;
    }
    while w > root && buffer[w - 1] != SLASH
      invariant root <= w <= write
      invariant RemoveLast(buffer[root..w]) == RemoveLast(buffer[root..write])
    {
      assert buffer[root..w][..w - root - 1] == buffer[root..w - 1];
      w := w - 1;
    }
    if w > root {
      assert buffer[root..w][..w - root - 1] == buffer[root..w - 1];
      w := w - 1;
    }
  }

  /** One segment of the loop. */
  method Segment(buffer: array<byte>, root: nat, write: nat, segment: seq<byte>, final: bool) returns (w: nat)
    requires root <= write && write + 1 + |segment| <= buffer.Length
    modifies buffer
    ensures root <= w <= write + 1 + |segment| && buffer[..root] == old(buffer[..root])
    ensures buffer[root..w] == SegmentStep(old(buffer[root..write]), segment, final)
  {
    hide RemoveLast;
    w := write;
    if segment == ONE_DOT {
      if final { w := Push(buffer, root, w, [SLASH]); }
    } else if segment == TWO_DOTS {
      w := Retreat(buffer, root, w);
      if final { w := Push(buffer, root, w, [SLASH]); }
    } else {
      w := Push(buffer, root, w, [SLASH]);
      w := Push(buffer, root, w, segment);
    }
  }

  /** The segment loop: the path is built after `root`, and never outgrows what was read. */
  method BuildPath(url: seq<byte>, at: Parts, buffer: array<byte>) returns (write: nat)
    requires 0 < at.path < at.query <= |url| < CAPACITY == buffer.Length && url[at.path] == SLASH
    modifies buffer
    ensures buffer[..at.path] == old(buffer[..at.path])
    ensures at.path <= write <= at.query
    ensures buffer[at.path..write] == RemoveDotSegments(url[at.path..at.query], [])
  {
    hide RemoveDotSegments, SegmentStep;
    var root := at.path;
    ghost var path := url[root..at.query];
    var scan := root + 1;
    write := root;
    assert path == [SLASH] + url[scan..at.query];
    assert buffer[root..write] == [];
    while true
      invariant root < scan <= at.query && root <= write < scan
      invariant buffer[..root] == old(buffer[..root])
      invariant RemoveDotSegments(path, []) == RemoveDotSegments([SLASH] + url[scan..at.query], buffer[root..write])
      decreases at.query - scan
    {
      var end := FindSlash(url, scan, at.query);
      var segment := url[scan..end];
      ghost var rest := url[end..at.query];
      assert [SLASH] + url[scan..at.query] == [SLASH] + segment + rest;
      RulesOnSegment(segment, rest, buffer[root..write]);
      // Room for the slash and the segment: the capacity checks cannot fail here.
      assert write + 1 + |segment| < CAPACITY;
      write := Segment(buffer, root, write, segment, end == at.query);
      if end == at.query { return; }
      scan := end + 1;
      assert rest == [SLASH] + url[scan..at.query];
    }
  }

  /** network_normalize_http_url_path on the string `url` of a buffer of 512 bytes. */
  method Normalize(url: seq<byte>) returns (r: Option<seq<byte>>)
    requires |url| < CAPACITY
    ensures r == Normalized(url)
  {
    hide RemoveDotSegments, PathAt, QueryAt;
    var http := StartsWithHttp(url);
    if !http { return None; }
    var path := FindPath(url);
    if path == 7 || (path < |url| && url[path] == HASH) { return None; }
    var query := path;
    if path < |url| && url[path] == SLASH { query := FindQuery(url, path); }
    if query < |url| && url[query] == HASH { return None; }
    r := Rebuild(url, Parts(path, query));
  }

  /** The buffer: authority, new path, query; if they fit. */
  method Rebuild(url: seq<byte>, at: Parts) returns (r: Option<seq<byte>>)
    requires 0 < at.path <= at.query <= |url| < CAPACITY && (at.path < at.query ==> url[at.path] == SLASH)
    ensures r == if at.path == at.query && |url| + 1 >= CAPACITY then None else Some(Normal(url, at))
  {
    hide RemoveDotSegments;
    if at.path + 1 >= CAPACITY { return None; }
    var buffer := new byte[CAPACITY];
    Store(buffer, 0, url[..at.path]);
    assert buffer[..at.path] == buffer[0..at.path];
    var write := at.path;
    if at.path == at.query {
      write := Push(buffer, at.path, at.path, [SLASH]);
      assert buffer[at.path..at.path] == [];
    } else {
      write := BuildPath(url, at, buffer);
    }
    ghost var p := buffer[at.path..write];
    if |url| - at.query >= CAPACITY - write { return None; }
    assert buffer[..write] == url[..at.path] + p;
    Store(buffer, write, url[at.query..]);
    var end := write + (|url| - at.query);
    assert buffer[..end] == buffer[..write] + buffer[write..end];
    return Some(buffer[..end]);
  }
}
