/** kernel/network.c: removing dot segments from absolute HTTP URLs. */
module UrlPath {
  import opened Bytes
  import opened Options

  const CAPACITY: nat := 512
  const SLASH: byte := 47
  const DOT: byte := 46
  const QUESTION: byte := 63
  const HASH: byte := 35

  const ONE_DOT: seq<byte> := [DOT]
  const TWO_DOTS: seq<byte> := [DOT, DOT]

  // --------------------------------------------------------------------------------------
  // Section 5.2.4 of RFC 3986, on byte strings

  /** The output buffer without its last segment and the slash before it. */
  function RemoveLast(out: seq<byte>): (r: seq<byte>)
    ensures |r| <= |out| && r == out[..|r|]
  {
    if out == [] then []
    else if out[|out| - 1] == SLASH then out[..|out| - 1]
    else RemoveLast(out[..|out| - 1])
  }

  /** Where the next slash at or after `i` is, or the end. */
  function NextSlash(s: seq<byte>, i: nat): (r: nat)
    requires i <= |s|
    ensures i <= r <= |s| && SLASH !in s[i..r] && (r < |s| ==> s[r] == SLASH)
    decreases |s| - i
  {
    if i == |s| || s[i] == SLASH then i
    else
      assert s[i..NextSlash(s, i + 1)] == [s[i]] + s[i + 1..NextSlash(s, i + 1)];
      NextSlash(s, i + 1)
  }

  predicate HasPrefix(s: seq<byte>, p: seq<byte>) {
    |p| <= |s| && s[..|p|] == p
  }

  /** remove_dot_segments, rule by rule: the input buffer, the output buffer. */
  function RemoveDotSegments(input: seq<byte>, output: seq<byte>): seq<byte>
    decreases |input|
  {
    if input == [] then output
    else if HasPrefix(input, [DOT, DOT, SLASH]) then RemoveDotSegments(input[3..], output)
    else if HasPrefix(input, [DOT, SLASH]) then RemoveDotSegments(input[2..], output)
    else if HasPrefix(input, [SLASH, DOT, SLASH]) then RemoveDotSegments(input[2..], output)
    else if input == [SLASH, DOT] then RemoveDotSegments([SLASH], output)
    else if HasPrefix(input, [SLASH, DOT, DOT, SLASH]) then RemoveDotSegments(input[3..], RemoveLast(output))
    else if input == [SLASH, DOT, DOT] then RemoveDotSegments([SLASH], RemoveLast(output))
    else if input == [DOT] || input == [DOT, DOT] then output
    else
      var end := if input[0] == SLASH then NextSlash(input, 1) else NextSlash(input, 0);
      RemoveDotSegments(input[end..], output + input[..end])
  }

  // --------------------------------------------------------------------------------------
  // The same, segment by segment

  /** One segment of a slash-prefixed path, and whether it is the last. */
  function SegmentStep(output: seq<byte>, segment: seq<byte>, final: bool): seq<byte> {
    if segment == ONE_DOT then (if final then output + [SLASH] else output)
    else if segment == TWO_DOTS then (if final then RemoveLast(output) + [SLASH] else RemoveLast(output))
    else output + [SLASH] + segment
  }

  lemma SlashAlone(output: seq<byte>)
    ensures RemoveDotSegments([SLASH], output) == output + [SLASH]
  {
    var input: seq<byte> := [SLASH];
    assert NextSlash(input, 1) == 1;
    assert input[1..] == [] && input[..1] == [SLASH];
    assert RemoveDotSegments([], output + [SLASH]) == output + [SLASH];
  }

  /** The rules of the RFC, read on the segment after a slash. */
  lemma RulesOnSegment(segment: seq<byte>, rest: seq<byte>, output: seq<byte>)
    requires SLASH !in segment && (rest == [] || rest[0] == SLASH)
    ensures RemoveDotSegments([SLASH] + segment + rest, output)
         == if rest == [] then SegmentStep(output, segment, true)
            else RemoveDotSegments(rest, SegmentStep(output, segment, false))
  {
    hide RemoveLast;
    var input := [SLASH] + segment + rest;
    if segment == ONE_DOT {
      OneDot(rest, output);
    } else if segment == TWO_DOTS {
      TwoDots(rest, output);
    } else {
      Ordinary(segment, rest, output);
    }
  }

  lemma OneDot(rest: seq<byte>, output: seq<byte>)
    requires rest == [] || rest[0] == SLASH
    ensures RemoveDotSegments([SLASH] + ONE_DOT + rest, output)
         == if rest == [] then output + [SLASH] else RemoveDotSegments(rest, output)
  {
    hide RemoveLast;
    var input := [SLASH] + ONE_DOT + rest;
    StartsWithSlash(input);
    SlashAlone(output);
    if rest == [] {
      assert input == [SLASH, DOT];
    } else {
      assert input[..3] == [SLASH, DOT, SLASH];
      assert input[2..] == rest;
    }
  }

  lemma TwoDots(rest: seq<byte>, output: seq<byte>)
    requires rest == [] || rest[0] == SLASH
    ensures RemoveDotSegments([SLASH] + TWO_DOTS + rest, output)
         == if rest == [] then RemoveLast(output) + [SLASH] else RemoveDotSegments(rest, RemoveLast(output))
  {
    hide RemoveLast;
    var input := [SLASH] + TWO_DOTS + rest;
    StartsWithSlash(input);
    SlashAlone(RemoveLast(output));
    if rest == [] {
      assert input == [SLASH, DOT, DOT];
    } else {
      assert input[..4] == [SLASH, DOT, DOT, SLASH];
      assert input[3..] == rest;
      assert input[2] == DOT;
    }
  }

  lemma {:induction false} SlashAfter(segment: seq<byte>, rest: seq<byte>, head: seq<byte>)
    requires SLASH !in segment && (rest == [] || rest[0] == SLASH)
    ensures NextSlash(head + segment + rest, |head|) == |head| + |segment|
    decreases |segment|
  {
    var s := head + segment + rest;
    if segment == [] {
      assert rest != [] ==> s[|head|] == SLASH;
    } else {
      assert s[|head|] == segment[0];
      SlashAfter(segment[1..], rest, head + [segment[0]]);
      assert head + [segment[0]] + segment[1..] + rest == s;
    }
  }

  lemma Ordinary(segment: seq<byte>, rest: seq<byte>, output: seq<byte>)
    requires SLASH !in segment && (rest == [] || rest[0] == SLASH)
    requires segment != ONE_DOT && segment != TWO_DOTS
    ensures RemoveDotSegments([SLASH] + segment + rest, output)
         == if rest == [] then output + [SLASH] + segment else RemoveDotSegments(rest, output + [SLASH] + segment)
  {
    hide RemoveLast, NextSlash, HasPrefix, RemoveDotSegments;
    var input := [SLASH] + segment + rest;
    SlashAfter(segment, rest, [SLASH]);
    NoDotPrefix(segment, rest);
    MoveSegment(input, output);
    assert input[1 + |segment|..] == rest;
    assert input[..1 + |segment|] == [SLASH] + segment;
    assert output + ([SLASH] + segment) == output + [SLASH] + segment;
    NothingLeft(output + [SLASH] + segment);
  }

  lemma NothingLeft(out: seq<byte>)
    ensures RemoveDotSegments([], out) == out
  {
  }

  /** The last rule: a segment moves to the output. */
  lemma MoveSegment(input: seq<byte>, output: seq<byte>)
    requires input != [] && input[0] == SLASH
    requires !HasPrefix(input, [DOT, DOT, SLASH]) && !HasPrefix(input, [DOT, SLASH])
    requires !HasPrefix(input, [SLASH, DOT, SLASH]) && input != [SLASH, DOT]
    requires !HasPrefix(input, [SLASH, DOT, DOT, SLASH]) && input != [SLASH, DOT, DOT]
    ensures var end := NextSlash(input, 1);
            RemoveDotSegments(input, output) == RemoveDotSegments(input[end..], output + input[..end])
  {
    hide HasPrefix, NextSlash, RemoveLast;
  }

  /** Only a dot segment makes a dot prefix. */
  lemma DotPrefix(segment: seq<byte>, rest: seq<byte>)
    requires SLASH !in segment && (rest == [] || rest[0] == SLASH)
    ensures HasPrefix([SLASH] + segment + rest, [SLASH, DOT, SLASH]) ==> segment == ONE_DOT
    ensures HasPrefix([SLASH] + segment + rest, [SLASH, DOT, DOT, SLASH]) ==> segment == TWO_DOTS
  {
    var input := [SLASH] + segment + rest;
    forall i | 0 <= i < |segment| ensures input[i + 1] == segment[i] != SLASH {
      assert segment[i] in segment;
    }
    if HasPrefix(input, [SLASH, DOT, SLASH]) {
      assert input[1] == input[..3][1] == DOT && input[2] == input[..3][2] == SLASH;
      assert |segment| == 1;
    }
    if HasPrefix(input, [SLASH, DOT, DOT, SLASH]) {
      assert input[1] == input[..4][1] == DOT && input[2] == input[..4][2] == DOT && input[3] == input[..4][3] == SLASH;
      assert |segment| == 2;
    }
  }

  lemma StartsWithSlash(input: seq<byte>)
    requires input != [] && input[0] == SLASH
    ensures !HasPrefix(input, [DOT, DOT, SLASH]) && !HasPrefix(input, [DOT, SLASH])
  {
    assert |input| >= 3 ==> input[..3][0] == SLASH;
    assert |input| >= 2 ==> input[..2][0] == SLASH;
  }

  lemma NoDotPrefix(segment: seq<byte>, rest: seq<byte>)
    requires SLASH !in segment && (rest == [] || rest[0] == SLASH)
    requires segment != ONE_DOT && segment != TWO_DOTS
    ensures var input := [SLASH] + segment + rest;
            && input[0] == SLASH && !HasPrefix(input, [DOT, DOT, SLASH]) && !HasPrefix(input, [DOT, SLASH])
            && !HasPrefix(input, [SLASH, DOT, SLASH]) && input != [SLASH, DOT]
            && !HasPrefix(input, [SLASH, DOT, DOT, SLASH]) && input != [SLASH, DOT, DOT]
  {
    hide HasPrefix;
    DotPrefix(segment, rest);
    StartsWithSlash([SLASH] + segment + rest);
    var input := [SLASH] + segment + rest;
    assert rest == [] ==> input[1..] == segment;
    assert rest != [] ==> input[1 + |segment|] == SLASH;
  }

  // --------------------------------------------------------------------------------------
  // What the result looks like

  predicate Rooted(p: seq<byte>) {
    p == [] || p[0] == SLASH
  }

  /** The segments of a slash-prefixed path; "/a//b" has an empty one in the middle. */
  function Segments(p: seq<byte>): seq<seq<byte>>
    requires Rooted(p)
    decreases |p|
  {
    if p == [] then []
    else [p[1..NextSlash(p, 1)]] + Segments(p[NextSlash(p, 1)..])
  }

  predicate DotFree(p: seq<byte>)
    requires Rooted(p)
  {
    forall i :: 0 <= i < |Segments(p)| ==> Segments(p)[i] != ONE_DOT && Segments(p)[i] != TWO_DOTS
  }

  lemma FirstSegment(p: seq<byte>) returns (segment: seq<byte>, rest: seq<byte>)
    requires p != [] && Rooted(p)
    ensures p == [SLASH] + segment + rest && SLASH !in segment && Rooted(rest) && |rest| < |p|
    ensures Segments(p) == [segment] + Segments(rest)
  {
    var e := NextSlash(p, 1);
    segment, rest := p[1..e], p[e..];
  }

  lemma SegmentsOf(first: seq<byte>, rest: seq<byte>)
    requires SLASH !in first && Rooted(rest)
    ensures Rooted([SLASH] + first + rest) && Segments([SLASH] + first + rest) == [first] + Segments(rest)
  {
    hide NextSlash;
    var p := [SLASH] + first + rest;
    SlashAfter(first, rest, [SLASH]);
    assert p[1..1 + |first|] == first && p[1 + |first|..] == rest;
  }

  lemma SegmentsEmpty()
    ensures Segments([]) == []
  {
  }

  lemma {:induction false} SegmentsAppend(p: seq<byte>, segment: seq<byte>)
    requires Rooted(p) && SLASH !in segment
    ensures Rooted(p + [SLASH] + segment) && Segments(p + [SLASH] + segment) == Segments(p) + [segment]
    decreases |p|
  {
    hide Segments;
    var q := p + [SLASH] + segment;
    SegmentsEmpty();
    if p == [] {
      SegmentsOf(segment, []);
      assert q == [SLASH] + segment + [];
    } else {
      var first, rest := FirstSegment(p);
      SegmentsAppend(rest, segment);
      SegmentsOf(first, rest + [SLASH] + segment);
      assert q == [SLASH] + first + (rest + [SLASH] + segment);
      assert [first] + (Segments(rest) + [segment]) == [first] + Segments(rest) + [segment];
    }
  }

  lemma {:induction false} RemoveLastSplits(out: seq<byte>)
    requires out != [] && Rooted(out)
    ensures var r := RemoveLast(out);
            Rooted(r) && |r| < |out| && out[|r|] == SLASH && SLASH !in out[|r| + 1..]
    decreases |out|
  {
    if out[|out| - 1] != SLASH {
      var shorter := out[..|out| - 1];
      RemoveLastSplits(shorter);
      var r := RemoveLast(out);
      assert out[|r| + 1..] == shorter[|r| + 1..] + [out[|out| - 1]];
    }
  }

  lemma RemoveLastDropsSegment(out: seq<byte>)
    requires out != [] && Rooted(out)
    ensures var r := RemoveLast(out);
            Rooted(r) && Segments(out) != [] && Segments(r) == Segments(out)[..|Segments(out)| - 1]
  {
    hide Segments, RemoveLast;
    RemoveLastSplits(out);
    var r := RemoveLast(out);
    SegmentsAppend(r, out[|r| + 1..]);
    assert out == r + [SLASH] + out[|r| + 1..];
  }

  lemma StepDotFree(out: seq<byte>, segment: seq<byte>, final: bool)
    requires Rooted(out) && DotFree(out) && SLASH !in segment
    ensures var r := SegmentStep(out, segment, final);
            && Rooted(r) && DotFree(r) && |r| <= |out| + 1 + |segment|
            && (final ==> r != [])
  {
    hide Segments;
    RemoveLastDotFree(out);
    if segment == ONE_DOT {
      AppendDotFree(out, []);
    } else if segment == TWO_DOTS {
      AppendDotFree(RemoveLast(out), []);
    } else {
      AppendDotFree(out, segment);
    }
    assert out + [SLASH] + [] == out + [SLASH];
    assert RemoveLast(out) + [SLASH] + [] == RemoveLast(out) + [SLASH];
  }

  lemma AppendDotFree(out: seq<byte>, segment: seq<byte>)
    requires Rooted(out) && DotFree(out) && SLASH !in segment && segment != ONE_DOT && segment != TWO_DOTS
    ensures Rooted(out + [SLASH] + segment) && DotFree(out + [SLASH] + segment)
  {
    hide Segments;
    SegmentsAppend(out, segment);
  }

  lemma RemoveLastEmpty()
    ensures RemoveLast([]) == []
  {
  }

  lemma RemoveLastDotFree(out: seq<byte>)
    requires Rooted(out) && DotFree(out)
    ensures Rooted(RemoveLast(out)) && DotFree(RemoveLast(out))
  {
    hide Segments, RemoveLast;
    if out != [] {
      RemoveLastDropsSegment(out);
    } else {
      RemoveLastEmpty();
    }
  }

  /** Removing dot segments leaves a rooted path without any, no longer than the input. */
  lemma {:induction false} ResultIsDotFree(input: seq<byte>, out: seq<byte>)
    requires Rooted(input) && Rooted(out) && DotFree(out)
    ensures var r := RemoveDotSegments(input, out);
            Rooted(r) && DotFree(r) && |r| <= |out| + |input| && (input != [] ==> r != [])
    decreases |input|
  {
    hide RemoveDotSegments, SegmentStep, DotFree;
    if input == [] {
      NothingLeft(out);
    } else {
      var segment, rest := FirstSegment(input);
      RulesOnSegment(segment, rest, out);
      StepDotFree(out, segment, rest == []);
      if rest != [] {
        ResultIsDotFree(rest, SegmentStep(out, segment, false));
      }
    }
  }

  /** A path without dot segments is left as it is. */
  lemma {:induction false} DotFreeIsFixed(input: seq<byte>, out: seq<byte>)
    requires Rooted(input) && DotFree(input)
    ensures RemoveDotSegments(input, out) == out + input
    decreases |input|
  {
    hide RemoveDotSegments, Segments;
    if input == [] {
      NothingLeft(out);
      assert out + [] == out;
    } else {
      var segment, rest := FirstSegment(input);
      assert Segments(input)[0] == segment;
      assert forall i :: 0 <= i < |Segments(rest)| ==> Segments(rest)[i] == Segments(input)[i + 1];
      RulesOnSegment(segment, rest, out);
      if rest != [] {
        DotFreeIsFixed(rest, out + [SLASH] + segment);
      }
      assert out + [SLASH] + segment + rest == out + input;
    }
  }

  // --------------------------------------------------------------------------------------
  // Whole URLs

  /** network_starts_with_ci(url, "http://"). */
  predicate HttpUrl(url: seq<byte>) {
    |url| >= 7 && forall i :: 0 <= i < 7 ==> Lower(url[i]) == Text("http://")[i]
  }

  /** The first byte from `i` on that ends an authority. */
  function PathAt(url: seq<byte>, i: nat): (r: nat)
    requires i <= |url|
    ensures i <= r <= |url| && (r < |url| ==> url[r] == SLASH || url[r] == QUESTION || url[r] == HASH)
    ensures forall k :: i <= k < r ==> url[k] != SLASH && url[k] != QUESTION && url[k] != HASH
    decreases |url| - i
  {
    if i < |url| && url[i] != SLASH && url[i] != QUESTION && url[i] != HASH then PathAt(url, i + 1) else i
  }

  /** The first byte from `i` on that ends a path. */
  function QueryAt(url: seq<byte>, i: nat): (r: nat)
    requires i <= |url|
    ensures i <= r <= |url| && (r < |url| ==> url[r] == QUESTION || url[r] == HASH)
    ensures forall k :: i <= k < r ==> url[k] != QUESTION && url[k] != HASH
    decreases |url| - i
  {
    if i < |url| && url[i] != QUESTION && url[i] != HASH then QueryAt(url, i + 1) else i
  }

  datatype Parts = Parts(path: nat, query: nat)

  /** Where the path and the query of an acceptable URL begin. */
  function Split(url: seq<byte>): (r: Option<Parts>)
    ensures r.Some? ==> 7 < r.value.path <= r.value.query <= |url|
    ensures r.Some? && r.value.path < r.value.query ==> url[r.value.path] == SLASH
  {
    if !HttpUrl(url) then None
    else
      var p := PathAt(url, 7);
      if p == 7 || (p < |url| && url[p] == HASH) then None
      else
        var q := if p < |url| && url[p] == SLASH then QueryAt(url, p) else p;
        if q < |url| && url[q] == HASH then None else Some(Parts(p, q))
  }

  /** The URL with its path's dot segments removed; an absent path becomes "/". */
  function Normal(url: seq<byte>, at: Parts): seq<byte>
    requires at.path <= at.query <= |url|
  {
    url[..at.path]
    + (if at.path == at.query then [SLASH] else RemoveDotSegments(url[at.path..at.query], []))
    + url[at.query..]
  }

  /** network_normalize_http_url_path on a C string in a buffer of 512 bytes: it fails for want
      of room only where a slash must be added to a URL that already fills the buffer. */
  function Normalized(url: seq<byte>): Option<seq<byte>> {
    match Split(url)
    case None => None
    case Some(at) =>
      if at.path == at.query && |url| + 1 >= CAPACITY then None else Some(Normal(url, at))
  }

  /** Nothing but the path changes, the path stays rooted, has no dot segments and does not grow
      (an absent one becomes "/"). */
  lemma NormalizedShape(url: seq<byte>)
    requires |url| < CAPACITY && Normalized(url).Some?
    ensures var at, n := Split(url).value, Normalized(url).value;
            var newQuery := |n| - (|url| - at.query);
            && |n| < CAPACITY && at.path < newQuery <= |n|
            && n[..at.path] == url[..at.path] && n[newQuery..] == url[at.query..]
            && n[at.path] == SLASH && Rooted(n[at.path..newQuery]) && DotFree(n[at.path..newQuery])
            && (at.path < at.query ==> newQuery <= at.query)
  {
    hide RemoveDotSegments, DotFree, Split;
    var at, n := Split(url).value, Normalized(url).value;
    var p := NormalPath(url, at);
    assert n == url[..at.path] + p + url[at.query..];
    var newQuery := at.path + |p|;
    assert n[..at.path] == url[..at.path] && n[at.path..newQuery] == p && n[newQuery..] == url[at.query..];
    assert n[at.path] == p[0];
  }

  lemma NormalPath(url: seq<byte>, at: Parts) returns (p: seq<byte>)
    requires at.path <= at.query <= |url| && (at.path < at.query ==> url[at.path] == SLASH)
    ensures p == if at.path == at.query then [SLASH] else RemoveDotSegments(url[at.path..at.query], [])
    ensures p != [] && Rooted(p) && DotFree(p)
    ensures at.path < at.query ==> |p| <= at.query - at.path
    ensures at.path == at.query ==> |p| == 1
  {
    hide RemoveDotSegments, DotFree;
    EmptyIsDotFree();
    if at.path == at.query {
      p := [SLASH];
      AppendDotFree([], []);
      assert [] + [SLASH] + [] == [SLASH];
    } else {
      p := RemoveDotSegments(url[at.path..at.query], []);
      ResultIsDotFree(url[at.path..at.query], []);
    }
  }

  lemma EmptyIsDotFree()
    ensures Rooted([]) && DotFree([])
  {
  }

  lemma {:induction false} PathAtAgrees(url: seq<byte>, n: seq<byte>, i: nat, p: nat)
    requires i <= p <= |url| && PathAt(url, i) == p && p < |n| && n[..p] == url[..p] && n[p] == SLASH
    ensures PathAt(n, i) == p
    decreases p - i
  {
    assert forall k :: 0 <= k < p ==> n[k] == n[..p][k] == url[..p][k] == url[k];
    if i < p { PathAtAgrees(url, n, i + 1, p); }
  }

  lemma {:induction false} QueryAtIs(n: seq<byte>, i: nat, q: nat)
    requires i <= q <= |n| && (forall k :: i <= k < q ==> n[k] != QUESTION && n[k] != HASH)
    requires q < |n| ==> n[q] == QUESTION || n[q] == HASH
    ensures QueryAt(n, i) == q
    decreases q - i
  {
    if i < q { QueryAtIs(n, i + 1, q); }
  }

  predicate PathByte(c: byte) {
    c != QUESTION && c != HASH
  }

  predicate PathBytes(s: seq<byte>) {
    forall i :: 0 <= i < |s| ==> PathByte(s[i])
  }

  lemma StepBytes(out: seq<byte>, segment: seq<byte>, final: bool, good: set<byte>)
    requires Within(out, good) && Within(segment, good) && SLASH in good
    ensures Within(SegmentStep(out, segment, final), good)
  {
  }

  predicate Within(s: seq<byte>, good: set<byte>) {
    forall i :: 0 <= i < |s| ==> s[i] in good
  }

  /** Removing dot segments brings no new byte in. */
  lemma {:induction false} ResultBytes(input: seq<byte>, out: seq<byte>, good: set<byte>)
    requires Rooted(input) && Within(input, good) && Within(out, good) && SLASH in good
    ensures Within(RemoveDotSegments(input, out), good)
    decreases |input|
  {
    hide RemoveDotSegments, SegmentStep;
    if input == [] {
      NothingLeft(out);
    } else {
      var segment, rest := FirstSegment(input);
      assert forall i :: 0 <= i < |segment| ==> segment[i] == input[i + 1];
      assert forall i :: 0 <= i < |rest| ==> rest[i] == input[i + 1 + |segment|];
      RulesOnSegment(segment, rest, out);
      StepBytes(out, segment, rest == [], good);
      if rest != [] {
        ResultBytes(rest, SegmentStep(out, segment, false), good);
      }
    }
  }

  lemma NormalPathBytes(url: seq<byte>)
    requires Split(url).Some?
    ensures var at := Split(url).value;
            PathBytes(if at.path == at.query then [SLASH] else RemoveDotSegments(url[at.path..at.query], []))
  {
    hide RemoveDotSegments, HttpUrl;
    var at := Split(url).value;
    if at.path < at.query {
      var path := url[at.path..at.query];
      assert forall k :: 0 <= k < |path| ==> path[k] == url[at.path + k];
      ResultBytes(path, [], set c: byte | PathByte(c));
    }
  }

  /** The normalized URL splits where the original did, around the new path. */
  lemma SplitOfNormal(url: seq<byte>, n: seq<byte>, at: Parts, p: seq<byte>)
    requires Split(url) == Some(at) && p != [] && p[0] == SLASH && PathBytes(p)
    requires n == url[..at.path] + p + url[at.query..]
    ensures Split(n) == Some(Parts(at.path, at.path + |p|))
  {
    var q := at.path + |p|;
    assert n[..at.path] == url[..at.path];
    assert forall k :: 0 <= k < 7 ==> n[k] == n[..at.path][k] == url[k];
    assert n[at.path] == p[0];
    PathAtAgrees(url, n, 7, at.path);
    assert forall k :: at.path <= k < q ==> n[k] == p[k - at.path];
    assert q < |n| ==> n[q] == url[at.query];
    QueryAtIs(n, at.path, q);
  }

  /** Normalizing twice is normalizing once. */
  lemma NormalizeIsIdempotent(url: seq<byte>)
    requires |url| < CAPACITY && Normalized(url).Some?
    ensures Normalized(Normalized(url).value) == Normalized(url)
  {
    hide RemoveDotSegments, DotFree, Split;
    var at, n := Split(url).value, Normalized(url).value;
    var p := NormalPath(url, at);
    NormalPathBytes(url);
    assert n == url[..at.path] + p + url[at.query..];
    SplitOfNormal(url, n, at, p);
    var q := at.path + |p|;
    assert n[at.path..q] == p && n[..at.path] == url[..at.path] && n[q..] == url[at.query..];
    DotFreeIsFixed(p, []);
    assert [] + p == p;
    assert Normal(n, Parts(at.path, q)) == n;
  }
}
